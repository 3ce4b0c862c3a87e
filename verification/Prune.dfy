/** Robust pruning: `occlude_list` and `prune_neighbors`. */
module Prune {
  import opened NeighborPool
  import opened Sets

  datatype Metric = L2 | Cosine | InnerProduct

  /** An occlude factor; `Max` stands for the largest float. */
  datatype Factor = Finite(r: real) | Max

  predicate Above(f: Factor, bound: real) {
    f.Max? || f.r > bound
  }

  function Larger(f: Factor, r: real): Factor {
    if f.Max? || f.r >= r then f else Finite(r)
  }

  type Distance = (nat, nat) -> real

  /** What pruning goes by: distances between locations and the parameters of the index. */
  datatype Rule = Rule(d: Distance, metric: Metric, alpha: real, range: nat, maxc: nat, saturate: bool)

  /** `cur_alpha` in the given round of the scan. */
  ghost function AlphaOf(round: nat): real {
    if round == 0 then 1.0 else AlphaOf(round - 1) * 1.2
  }

  lemma {:induction false} AlphaGrows(a: nat, b: nat)
    requires a <= b
    ensures 1.0 <= AlphaOf(a) <= AlphaOf(b)
  {
    if b > 0 {
      AlphaGrows(if a < b then a else b - 1, b - 1);
    }
  }

  lemma AlphaLess(a: nat, b: nat)
    requires AlphaOf(a) < AlphaOf(b)
    ensures a < b
  {
    if b <= a {
      AlphaGrows(b, a);
    }
  }

  /** The scan looks at the candidate `pos` in the given round. */
  datatype Look = Look(round: nat, pos: nat)

  ghost predicate Earlier(a: Look, b: Look) {
    a.round < b.round || (a.round == b.round && a.pos < b.pos)
  }

  /** How far candidate `t` is occluded by the choice of `c`: `d(t) / d(c, t)`, and for inner products,
      whose distances are negated, slightly beyond the alpha of the round or not at all. */
  ghost function Occlusion(pool: seq<Neighbor>, rule: Rule, c: Look, t: nat): Factor
    requires c.pos < |pool| && t < |pool|
  {
    var djk := rule.d(pool[t].id, pool[c.pos].id);
    if rule.metric.InnerProduct?
      then Finite(if -djk > AlphaOf(c.round) * -pool[t].distance then AlphaOf(c.round) + 0.01 else 0.0)
    else if djk == 0.0 then Max
    else Finite(pool[t].distance / djk)
  }

  ghost predicate InPool(pool: seq<Neighbor>, choices: seq<Look>) {
    forall c :: 0 <= c < |choices| ==> choices[c].pos < |pool|
  }

  ghost predicate WithinAll(pool: seq<Neighbor>, rule: Rule, choices: seq<Look>, t: nat, bound: real)
    requires t < |pool| && InPool(pool, choices)
  {
    forall c :: 0 <= c < |choices| && choices[c].pos < t ==> !Above(Occlusion(pool, rule, choices[c], t), bound)
  }

  /** `t` is occluded by more than `bound` by a chosen candidate before it. */
  ghost predicate OccludedBeyond(pool: seq<Neighbor>, rule: Rule, choices: seq<Look>, t: nat, bound: real)
    requires t < |pool| && InPool(pool, choices)
  {
    exists c :: 0 <= c < |choices| && choices[c].pos < t && Above(Occlusion(pool, rule, choices[c], t), bound)
  }

  ghost predicate Chosen(choices: seq<Look>, pos: nat) {
    exists c :: 0 <= c < |choices| && choices[c].pos == pos
  }

  /** The choices in the order of the scan, each candidate once. */
  ghost predicate InScan(choices: seq<Look>) {
    forall a, b :: 0 <= a < b < |choices| ==> Earlier(choices[a], choices[b]) && choices[a].pos != choices[b].pos
  }

  ghost predicate OccludedBefore(pool: seq<Neighbor>, rule: Rule, choices: seq<Look>, at: Look)
    requires at.pos < |pool| && InPool(pool, choices)
  {
    exists c :: 0 <= c < |choices| && Earlier(choices[c], at) && choices[c].pos < at.pos &&
      Above(Occlusion(pool, rule, choices[c], at.pos), AlphaOf(at.round))
  }

  /** A candidate the scan has looked at is chosen by then, or it was occluded beyond the alpha of the
      round by an earlier choice. */
  ghost predicate Covered(pool: seq<Neighbor>, rule: Rule, choices: seq<Look>, at: Look)
    requires at.pos < |pool| && InPool(pool, choices)
  {
    || (exists c :: 0 <= c < |choices| && choices[c].pos == at.pos && choices[c].round <= at.round)
    || OccludedBefore(pool, rule, choices, at)
  }

  /** The scan has no candidate left, or it stopped at its last choice. */
  ghost predicate Looked(choices: seq<Look>, degree: nat, at: Look) {
    |choices| < degree || (choices != [] && Earlier(at, choices[|choices| - 1]))
  }

  /** The rule of the scan: a candidate is chosen when the scan comes to it if and only if no earlier
      choice occludes it beyond the alpha of the round. */
  ghost predicate Greedy(pool: seq<Neighbor>, rule: Rule, choices: seq<Look>) {
    && InPool(pool, choices) && InScan(choices) && |choices| <= rule.range
    && (forall c :: 0 <= c < |choices| ==>
         AlphaOf(choices[c].round) <= rule.alpha && !OccludedBefore(pool, rule, choices, choices[c]))
    && (forall at: Look {:trigger Looked(choices, rule.range, at)} ::
          at.pos < |pool| && AlphaOf(at.round) <= rule.alpha && Looked(choices, rule.range, at) ==>
            Covered(pool, rule, choices, at))
  }

  // What the rule means.

  lemma NotCovered(pool: seq<Neighbor>, rule: Rule, a: seq<Look>, b: seq<Look>, n: nat)
    requires InPool(pool, a) && InPool(pool, b) && InScan(a) && InScan(b)
    requires n < |a| && n <= |b| && a[..n] == b[..n] && !OccludedBefore(pool, rule, a, a[n])
    requires n < |b| ==> Earlier(a[n], b[n])
    ensures !Covered(pool, rule, b, a[n])
  {
    hide Occlusion;
    var at := a[n];
    forall c | 0 <= c < |b|
      ensures !(b[c].pos == at.pos && b[c].round <= at.round)
      ensures !(Earlier(b[c], at) && b[c].pos < at.pos && Above(Occlusion(pool, rule, b[c], at.pos), AlphaOf(at.round)))
    {
      if c < n {
        assert a[c] == a[..n][c] == b[c];
      } else {
        assert c > n ==> Earlier(b[n], b[c]);
      }
    }
  }

  /** The rule leaves no choice: two ways of following it go on alike. */
  lemma SameNext(pool: seq<Neighbor>, rule: Rule, a: seq<Look>, b: seq<Look>, n: nat)
    requires Greedy(pool, rule, a) && Greedy(pool, rule, b) && n < |a| && n <= |b| && a[..n] == b[..n]
    ensures n < |b| && (b[n] == a[n] || Earlier(b[n], a[n]))
  {
    if n == |b| || Earlier(a[n], b[n]) {
      NotCovered(pool, rule, a, b, n);
      hide Covered, OccludedBefore;
      assert n < |b| ==> b[|b| - 1] == b[n] || Earlier(b[n], b[|b| - 1]);
      assert !Looked(b, rule.range, a[n]);
    }
  }

  lemma {:induction false} SamePrefix(pool: seq<Neighbor>, rule: Rule, a: seq<Look>, b: seq<Look>, n: nat)
    requires Greedy(pool, rule, a) && Greedy(pool, rule, b) && n <= |a|
    ensures n <= |b| && a[..n] == b[..n]
  {
    if n > 0 {
      SamePrefix(pool, rule, a, b, n - 1);
      SameNext(pool, rule, a, b, n - 1);
      SameNext(pool, rule, b, a, n - 1);
      assert a[..n] == a[..n - 1] + [a[n - 1]] && b[..n] == b[..n - 1] + [b[n - 1]];
    }
  }

  /** The rule determines the result. */
  lemma GreedyUnique(pool: seq<Neighbor>, rule: Rule, a: seq<Look>, b: seq<Look>)
    requires Greedy(pool, rule, a) && Greedy(pool, rule, b)
    ensures a == b
  {
    SamePrefix(pool, rule, a, b, |a|);
    SamePrefix(pool, rule, b, a, |b|);
    assert a[..|a|] == a && b[..|b|] == b;
  }

  lemma FirstLook(choices: seq<Look>, c: nat)
    requires InScan(choices) && c < |choices| && choices[c] == Look(0, 0)
    ensures c == 0
  {
    assert c == 0 || Earlier(choices[0], choices[c]);
  }

  /** The nearest candidate is chosen first, in the first round. */
  lemma NearestFirst(pool: seq<Neighbor>, rule: Rule, choices: seq<Look>)
    requires Greedy(pool, rule, choices)
    ensures choices == [] <==> pool == [] || rule.range == 0 || rule.alpha < 1.0
    ensures choices != [] ==> choices[0] == Look(0, 0)
  {
    var at := Look(0, 0);
    if choices != [] {
      AlphaGrows(0, choices[0].round);
    }
    if pool != [] && rule.range > 0 && rule.alpha >= 1.0 {
      if Looked(choices, rule.range, at) {
        assert Covered(pool, rule, choices, at);
        var c :| 0 <= c < |choices| && choices[c] == at;
        FirstLook(choices, c);
      } else {
        FirstLook(choices, |choices| - 1);
      }
    }
  }

  /** Of two chosen candidates, the one further down the pool is not occluded by the other, if that was
      chosen before it, beyond the alpha of its own round. */
  lemma ChosenApart(pool: seq<Neighbor>, rule: Rule, choices: seq<Look>, a: nat, b: nat)
    requires Greedy(pool, rule, choices) && a < b < |choices| && choices[a].pos < choices[b].pos
    ensures !Above(Occlusion(pool, rule, choices[a], choices[b].pos), AlphaOf(choices[b].round))
    ensures AlphaOf(choices[a].round) <= AlphaOf(choices[b].round) <= rule.alpha
    ensures var djk := rule.d(pool[choices[b].pos].id, pool[choices[a].pos].id);
      !rule.metric.InnerProduct? && djk >= 0.0 ==>
        pool[choices[b].pos].distance <= AlphaOf(choices[b].round) * djk && djk > 0.0
  {
    assert Earlier(choices[a], choices[b]);
    AlphaGrows(choices[a].round, choices[b].round);
    assert !OccludedBefore(pool, rule, choices, choices[b]);
    var djk, dist := rule.d(pool[choices[b].pos].id, pool[choices[a].pos].id), pool[choices[b].pos].distance;
    if !rule.metric.InnerProduct? && djk >= 0.0 {
      assert dist / djk <= AlphaOf(choices[b].round);
      assert dist == (dist / djk) * djk;
      Scale(dist / djk, AlphaOf(choices[b].round), djk);
    }
  }

  lemma Scale(x: real, y: real, z: real)
    requires x <= y && z >= 0.0
    ensures x * z <= y * z
  {
  }

  /** A candidate chosen after the first round was occluded beyond the alpha of the round before. */
  lemma LateChoice(pool: seq<Neighbor>, rule: Rule, choices: seq<Look>, b: nat)
    requires Greedy(pool, rule, choices) && b < |choices| && choices[b].round > 0
    ensures OccludedBeyond(pool, rule, choices[..b], choices[b].pos, AlphaOf(choices[b].round - 1))
  {
    var at := Look(choices[b].round - 1, choices[b].pos);
    AlphaGrows(at.round, choices[b].round);
    assert Looked(choices, rule.range, at) by {
      assert Earlier(at, choices[b]);
      assert b < |choices| - 1 ==> Earlier(choices[b], choices[|choices| - 1]);
    }
    assert Covered(pool, rule, choices, at);
    assert forall c :: 0 <= c < |choices| && choices[c].pos == at.pos ==> c == b;
    var c :| 0 <= c < |choices| && Earlier(choices[c],
      at) && choices[c].pos < at.pos && Above(Occlusion(pool, rule, choices[c], at.pos), AlphaOf(at.round));
    assert c < b;
    assert choices[..b][c] == choices[c];
  }

  /** When the quota is not met, a rejected candidate is occluded by a chosen one beyond the alpha of
      every round, up to the last one. */
  lemma RejectedOccluded(pool: seq<Neighbor>, rule: Rule, choices: seq<Look>, t: nat, round: nat)
    requires Greedy(pool, rule, choices) && |choices| < rule.range && t < |pool| && !Chosen(choices, t)
    requires AlphaOf(round) <= rule.alpha
    ensures OccludedBeyond(pool, rule, choices, t, AlphaOf(round))
  {
    assert Looked(choices, rule.range, Look(round, t));
  }

  // How the scan keeps the rule.

  /** What an occlude factor says about a candidate: a factor not beyond `alpha` bounds the occlusion
      by every choice before the candidate, and a factor above zero is due to one of them. */
  ghost predicate FactorOk(pool: seq<Neighbor>, rule: Rule, choices: seq<Look>, t: nat, f: Factor)
    requires t < |pool| && InPool(pool, choices)
  {
    && (f.Finite? ==> f.r >= 0.0)
    && (!Above(f, rule.alpha) ==> WithinAll(pool, rule, choices, t, f.r))
    && (forall bound :: bound >= 0.0 && Above(f, bound) ==> OccludedBeyond(pool, rule, choices, t, bound))
  }

  ghost predicate FactorsOk(pool: seq<Neighbor>, rule: Rule, choices: seq<Look>, factor: seq<Factor>)
    requires InPool(pool, choices)
  {
    && |factor| == |pool|
    && (forall c :: 0 <= c < |choices| ==> factor[choices[c].pos] == Max)
    && (forall t :: 0 <= t < |pool| && !Chosen(choices, t) ==> FactorOk(pool, rule, choices, t, factor[t]))
  }

  ghost predicate Swept(pool: seq<Neighbor>, rule: Rule, choices: seq<Look>, at: Look)
    requires InPool(pool, choices)
  {
    forall b: Look {:trigger Earlier(b, at)} :: b.pos < |pool| && Earlier(b, at) ==> Covered(pool, rule, choices, b)
  }

  /** The scan has come to `at`. */
  ghost predicate Scanning(pool: seq<Neighbor>, rule: Rule, choices: seq<Look>, factor: seq<Factor>, at: Look) {
    && InPool(pool, choices) && InScan(choices) && |choices| <= rule.range
    && (forall c :: 0 <= c < |choices| ==> Earlier(choices[c], at))
    && (forall c :: 0 <= c < |choices| ==>
         AlphaOf(choices[c].round) <= rule.alpha && !OccludedBefore(pool, rule, choices, choices[c]))
    && FactorsOk(pool, rule, choices, factor) && Swept(pool, rule, choices, at)
  }

  lemma ScanBegins(pool: seq<Neighbor>, rule: Rule, factor: seq<Factor>)
    requires |factor| == |pool| && forall t :: 0 <= t < |pool| ==> factor[t] == Finite(0.0)
    ensures Scanning(pool, rule, [], factor, Look(0, 0))
  {
  }

  lemma CoveredByFactor(pool: seq<Neighbor>, rule: Rule, choices: seq<Look>, f: Factor, at: Look)
    requires InPool(pool, choices) && at.pos < |pool| && (forall c :: 0 <= c < |choices| ==> Earlier(choices[c], at))
    requires !Chosen(choices, at.pos) ==> FactorOk(pool, rule, choices, at.pos, f)
    requires Above(f, AlphaOf(at.round))
    ensures Covered(pool, rule, choices, at)
  {
    hide Occlusion;
    AlphaGrows(0, at.round);
    if Chosen(choices, at.pos) {
      var c :| 0 <= c < |choices| && choices[c].pos == at.pos;
      assert Earlier(choices[c], at);
    } else {
      assert OccludedBeyond(pool, rule, choices, at.pos, AlphaOf(at.round));
      var c :| 0 <= c < |choices| && choices[c].pos < at.pos && Above(Occlusion(pool, rule, choices[c], at.pos),
        AlphaOf(at.round));
      assert Earlier(choices[c], at);
    }
  }

  /** Passing over a candidate that is chosen already, or occluded. */
  lemma PassKeeps(pool: seq<Neighbor>, rule: Rule, choices: seq<Look>, factor: seq<Factor>, at: Look)
    requires Scanning(pool, rule, choices, factor, at) && at.pos < |pool| && Above(factor[at.pos], AlphaOf(at.round))
    ensures Scanning(pool, rule, choices, factor, Look(at.round, at.pos + 1))
  {
    hide FactorOk, Covered, OccludedBefore;
    CoveredByFactor(pool, rule, choices, factor[at.pos], at);
    SweptFurther(pool, rule, choices, at);
    forall c | 0 <= c < |choices|
      ensures Earlier(choices[c], Look(at.round, at.pos + 1))
    {
      assert Earlier(choices[c], at);
    }
  }

  lemma SweptFurther(pool: seq<Neighbor>, rule: Rule, choices: seq<Look>, at: Look)
    requires InPool(pool, choices) && Swept(pool, rule, choices, at) && at.pos < |pool|
    requires Covered(pool, rule, choices, at)
    ensures Swept(pool, rule, choices, Look(at.round, at.pos + 1))
  {
    forall b: Look | b.pos < |pool| && Earlier(b, Look(at.round, at.pos + 1))
      ensures Covered(pool, rule, choices, b)
    {
      assert b == at || Earlier(b, at);
    }
  }

  lemma NextRoundKeeps(pool: seq<Neighbor>, rule: Rule, choices: seq<Look>, factor: seq<Factor>, round: nat)
    requires Scanning(pool, rule, choices, factor, Look(round, |pool|))
    ensures Scanning(pool, rule, choices, factor, Look(round + 1, 0))
  {
    forall b: Look | b.pos < |pool| && Earlier(b, Look(round + 1, 0))
      ensures Covered(pool, rule, choices, b)
    {
      assert Earlier(b, Look(round, |pool|));
    }
    forall c | 0 <= c < |choices|
      ensures Earlier(choices[c], Look(round + 1, 0))
    {
      assert Earlier(choices[c], Look(round, |pool|));
    }
  }

  lemma CoveredStays(pool: seq<Neighbor>, rule: Rule, choices: seq<Look>, x: Look, at: Look)
    requires InPool(pool, choices) && InPool(pool, choices + [x]) && at.pos < |pool| && Covered(pool, rule, choices, at)
    ensures Covered(pool, rule, choices + [x], at)
  {
    var more := choices + [x];
    if c :| 0 <= c < |choices| && choices[c].pos == at.pos && choices[c].round <= at.round {
      assert more[c] == choices[c];
    } else {
      var c :| 0 <= c < |choices| && Earlier(choices[c],
        at) && choices[c].pos < at.pos && Above(Occlusion(pool, rule, choices[c], at.pos), AlphaOf(at.round));
      assert more[c] == choices[c];
    }
  }

  /** A later choice does not occlude an earlier one. */
  lemma NotOccludedStays(pool: seq<Neighbor>, rule: Rule, choices: seq<Look>, x: Look, c: nat)
    requires InPool(pool, choices + [x]) && InPool(pool, choices) && c < |choices| && Earlier(choices[c], x)
    requires !OccludedBefore(pool, rule, choices, choices[c])
    ensures !OccludedBefore(pool, rule, choices + [x], (choices + [x])[c])
  {
    var more := choices + [x];
    assert more[c] == choices[c];
    forall e | 0 <= e < |more| && Earlier(more[e], choices[c]) && more[e].pos < choices[c].pos
      ensures !Above(Occlusion(pool, rule, more[e], choices[c].pos), AlphaOf(choices[c].round))
    {
      assert more[e] == choices[e];
    }
  }

  lemma ChoiceDeserved(pool: seq<Neighbor>, rule: Rule, choices: seq<Look>, x: Look, f: Factor)
    requires InPool(pool, choices) && InPool(pool, choices + [x]) && x.pos < |pool|
    requires FactorOk(pool, rule, choices, x.pos, f)
    requires !Above(f, AlphaOf(x.round)) && AlphaOf(x.round) <= rule.alpha
    ensures !OccludedBefore(pool, rule, choices + [x], x)
  {
    var more := choices + [x];
    forall e | 0 <= e < |more| && Earlier(more[e], x) && more[e].pos < x.pos
      ensures !Above(Occlusion(pool, rule, more[e], x.pos), AlphaOf(x.round))
    {
      assert more[e] == choices[e];
    }
  }

  /** The factor of candidate `t` after the choice of `i`. */
  function NewFactor(pool: seq<Neighbor>, rule: Rule, curAlpha: real, i: nat, t: nat, f: Factor): Factor
    requires i < |pool| && t < |pool|
  {
    var djk := rule.d(pool[t].id, pool[i].id);
    if t <= i || Above(f, rule.alpha) then f
    else if rule.metric.InnerProduct? then
      if -djk > curAlpha * -pool[t].distance then Larger(f, curAlpha + 0.01) else f
    else if djk == 0.0 then Max
    else Larger(f, pool[t].distance / djk)
  }

  /** The factors after the choice of `i`. */
  ghost predicate Updated(pool: seq<Neighbor>, rule: Rule, curAlpha: real, i: nat, before: seq<Factor>,
                          after: seq<Factor>) {
    && i < |pool| == |before| == |after| && after[i] == Max
    && forall t :: 0 <= t < |pool| && t != i ==> after[t] == NewFactor(pool, rule, curAlpha, i, t, before[t])
  }

  lemma UpdateFactor(pool: seq<Neighbor>, rule: Rule, choices: seq<Look>, x: Look, t: nat, f: Factor)
    requires InPool(pool, choices) && InPool(pool, choices + [x]) && x.pos < |pool| && t < |pool| && rule.alpha >= 0.0
    requires FactorOk(pool, rule, choices, t, f)
    ensures FactorOk(pool, rule, choices + [x], t, NewFactor(pool, rule, AlphaOf(x.round), x.pos, t, f))
  {
    var more, f' := choices + [x], NewFactor(pool, rule, AlphaOf(x.round), x.pos, t, f);
    AlphaGrows(0, x.round);
    assert more[|choices|] == x;
    assert forall c :: 0 <= c < |choices| ==> more[c] == choices[c];
    forall bound | bound >= 0.0 && Above(f', bound)
      ensures OccludedBeyond(pool, rule, more, t, bound)
    {
      if Above(f, bound) {
        assert OccludedBeyond(pool, rule, choices, t, bound);
        var c :| 0 <= c < |choices| && choices[c].pos < t && Above(Occlusion(pool, rule, choices[c], t), bound);
        assert more[c] == choices[c];
      } else {
        assert Above(Occlusion(pool, rule, more[|choices|], t), bound);
      }
    }
  }

  lemma ChosenMore(choices: seq<Look>, x: Look, t: nat)
    ensures Chosen(choices + [x], t) <==> Chosen(choices, t) || t == x.pos
  {
    var more := choices + [x];
    assert more[|choices|] == x;
    if Chosen(choices, t) {
      var c :| 0 <= c < |choices| && choices[c].pos == t;
      assert more[c].pos == t;
    }
  }

  lemma FactorsKept(pool: seq<Neighbor>, rule: Rule, choices: seq<Look>, x: Look, before: seq<Factor>,
                    after: seq<Factor>)
    requires InPool(pool, choices) && InPool(pool, choices + [x]) && x.pos < |pool| && rule.alpha >= 0.0
    requires FactorsOk(pool, rule, choices, before) && Updated(pool, rule, AlphaOf(x.round), x.pos, before, after)
    ensures FactorsOk(pool, rule, choices + [x], after)
  {
    hide FactorOk;
    forall t | 0 <= t < |pool| && !Chosen(choices + [x], t)
      ensures FactorOk(pool, rule, choices + [x], t, after[t])
    {
      ChosenMore(choices, x, t);
      UpdateFactor(pool, rule, choices, x, t, before[t]);
    }
    forall c | 0 <= c < |choices + [x]|
      ensures after[(choices + [x])[c].pos] == Max
    {
      if c < |choices| {
        assert before[choices[c].pos] == Max;
      }
    }
  }

  /** Choosing the candidate the scan has come to. */
  lemma ChoiceKeeps(pool: seq<Neighbor>, rule: Rule, choices: seq<Look>, before: seq<Factor>, after: seq<Factor>,
                    at: Look)
    requires Scanning(pool, rule, choices, before, at) && at.pos < |pool| && |choices| < rule.range
    requires AlphaOf(at.round) <= rule.alpha && !Above(before[at.pos], AlphaOf(at.round))
    requires Updated(pool, rule, AlphaOf(at.round), at.pos, before, after)
    ensures Scanning(pool, rule, choices + [at], after, Look(at.round, at.pos + 1))
  {
    hide FactorOk, Updated, OccludedBefore, Covered;
    var more := choices + [at];
    AlphaGrows(0, at.round);
    assert !Chosen(choices, at.pos);
    FactorsKept(pool, rule, choices, at, before, after);
    ChoiceDeserved(pool, rule, choices, at, before[at.pos]);
    forall c | 0 <= c < |more|
      ensures AlphaOf(more[c].round) <= rule.alpha && !OccludedBefore(pool, rule, more, more[c])
      ensures Earlier(more[c], Look(at.round, at.pos + 1))
    {
      if c < |choices| {
        assert Earlier(choices[c], at);
        NotOccludedStays(pool, rule, choices, at, c);
      }
    }
    forall b: Look | b.pos < |pool| && Earlier(b, at)
      ensures Covered(pool, rule, more, b)
    {
      CoveredStays(pool, rule, choices, at, b);
    }
    assert Covered(pool, rule, more, at) by { CoveredItself(pool, rule, choices, at); }
    SweptFurther(pool, rule, more, at);
  }

  lemma CoveredItself(pool: seq<Neighbor>, rule: Rule, choices: seq<Look>, at: Look)
    requires InPool(pool, choices + [at]) && at.pos < |pool|
    ensures Covered(pool, rule, choices + [at], at)
  {
    assert (choices + [at])[|choices|] == at;
  }

  /** The scan ends when the quota is met, or when no round is left. */
  lemma ScanEnds(pool: seq<Neighbor>, rule: Rule, choices: seq<Look>, factor: seq<Factor>, at: Look)
    requires Scanning(pool, rule, choices, factor, at)
    requires |choices| == rule.range || (AlphaOf(at.round) > rule.alpha && at.pos == 0)
    ensures Greedy(pool, rule, choices)
  {
    forall b: Look {:trigger Looked(choices, rule.range, b)} |
        b.pos < |pool| && AlphaOf(b.round) <= rule.alpha && Looked(choices, rule.range, b)
      ensures Covered(pool, rule, choices, b)
    {
      if |choices| < rule.range {
        AlphaLess(b.round, at.round);
      } else {
        assert Earlier(choices[|choices| - 1], at);
      }
      assert Earlier(b, at);
    }
  }

  ghost predicate ResultOf(pool: seq<Neighbor>, choices: seq<Look>, result: seq<Neighbor>)
    requires InPool(pool, choices)
  {
    |result| == |choices| && forall c :: 0 <= c < |choices| ==> result[c] == pool[choices[c].pos]
  }

  /** Choose the candidate `i` and occlude the ones after it. */
  method Occlude(pool: seq<Neighbor>, rule: Rule, curAlpha: real, i: nat, factor: array<Factor>)
    requires i < |pool| == factor.Length
    modifies factor
    ensures Updated(pool, rule, curAlpha, i, old(factor[..]), factor[..])
  {
    factor[i] := Max;
    for t := i + 1 to |pool|
      invariant factor[i] == Max
      invariant forall k :: 0 <= k < |pool| && k != i ==>
        factor[k] == if k < t then NewFactor(pool, rule, curAlpha, i, k, old(factor[k])) else old(factor[k])
    {
      factor[t] := NewFactor(pool, rule, curAlpha, i, t, factor[t]);
    }
  }

  /** One round: a scan of the pool with one value of alpha, until the quota is met. */
  method Round(pool: seq<Neighbor>, rule: Rule, curAlpha: real, factor: array<Factor>, result0: seq<Neighbor>,
               ghost choices0: seq<Look>, ghost round: nat)
      returns (result: seq<Neighbor>, ghost choices: seq<Look>, ghost end: nat)
    requires factor.Length == |pool| && curAlpha == AlphaOf(round) <= rule.alpha && |result0| < rule.range
    requires Scanning(pool, rule, choices0, factor[..], Look(round, 0)) && ResultOf(pool, choices0, result0)
    modifies factor
    ensures Scanning(pool, rule, choices, factor[..], Look(round, end)) && ResultOf(pool, choices, result)
    ensures |result| < rule.range ==> end == |pool|
  {
    hide Scanning, Updated, AlphaOf;
    result, choices := result0, choices0;
    ScanFacts(pool, rule, choices, factor[..], Look(round, 0));
    var i := 0;
    while |result| < rule.range && i < |pool|
      invariant 0 <= i <= |pool|
      invariant Scanning(pool, rule, choices, factor[..], Look(round, i)) && InPool(pool, choices)
      invariant ResultOf(pool, choices, result)
    {
      if Above(factor[i], curAlpha) {
        PassKeeps(pool, rule, choices, factor[..], Look(round, i));
      } else {
        ghost var before := factor[..];
        Occlude(pool, rule, curAlpha, i, factor);
        ChoiceKeeps(pool, rule, choices, before, factor[..], Look(round, i));
        result, choices := result + [pool[i]], choices + [Look(round, i)];
      }
      i := i + 1;
    }
    end := i;
    ScanFacts(pool, rule, choices, factor[..], Look(round, i));
  }

  lemma ScanFacts(pool: seq<Neighbor>, rule: Rule, choices: seq<Look>, factor: seq<Factor>, at: Look)
    requires Scanning(pool, rule, choices, factor, at)
    ensures InPool(pool, choices) && |choices| <= rule.range
  {
  }

  ghost function RoundsLeft(curAlpha: real, alpha: real): int {
    if curAlpha <= alpha then ((alpha - curAlpha) * 5.0).Floor + 1 else 0
  }

  lemma RoundsShrink(curAlpha: real, alpha: real)
    requires 1.0 <= curAlpha <= alpha
    ensures 0 <= RoundsLeft(curAlpha * 1.2, alpha) < RoundsLeft(curAlpha, alpha)
  {
    assert (alpha - curAlpha * 1.2) * 5.0 <= (alpha - curAlpha) * 5.0 - 1.0;
  }

  /** The first `maxc` candidates. */
  function Cut(pool: seq<Neighbor>, maxc: nat): (r: seq<Neighbor>)
    ensures r <= pool && |r| <= maxc && (|r| < maxc ==> r == pool)
  {
    if |pool| > maxc then pool[..maxc] else pool
  }

  /** `occlude_list` on a sorted pool, which it cuts to `maxc` candidates. */
  method OccludeList(pool0: seq<Neighbor>, rule: Rule)
      returns (pool: seq<Neighbor>, result: seq<Neighbor>, ghost choices: seq<Look>)
    ensures pool == Cut(pool0, rule.maxc)
    ensures Greedy(pool, rule, choices) && ResultOf(pool, choices, result)
  {
    pool, result, choices := pool0, [], [];
    if |pool| == 0 {
      NothingToChoose(rule);
      return;
    }
    if |pool| > rule.maxc {
      pool := pool[..rule.maxc];
    }
    var factor := new Factor[|pool|](_ => Finite(0.0));
    ScanBegins(pool, rule, factor[..]);
    var curAlpha := 1.0;
    ghost var round, at := 0, Look(0, 0);
    while curAlpha <= rule.alpha && |result| < rule.range
      invariant curAlpha == AlphaOf(round) >= 1.0 && fresh(factor) && factor.Length == |pool|
      invariant Scanning(pool, rule, choices, factor[..], at) && InPool(pool, choices)
      invariant ResultOf(pool, choices, result)
      invariant |result| < rule.range ==> at == Look(round, 0)
      decreases RoundsLeft(curAlpha, rule.alpha)
    {
      hide Scanning, RoundsLeft;
      RoundsShrink(curAlpha, rule.alpha);
      ghost var end;
      result, choices, end := Round(pool, rule, curAlpha, factor, result, choices, round);
      at := Look(round, end);
      if |result| < rule.range {
        NextRoundKeeps(pool, rule, choices, factor[..], round);
        at := Look(round + 1, 0);
      }
      ScanFacts(pool, rule, choices, factor[..], at);
      AlphaGrows(0, round + 1);
      round := round + 1;
      curAlpha := curAlpha * 1.2;
    }
    ScanFacts(pool, rule, choices, factor[..], at);
    ScanEnds(pool, rule, choices, factor[..], at);
  }

  lemma NothingToChoose(rule: Rule)
    ensures Greedy([], rule, []) && ResultOf([], [], []) && Cut([], rule.maxc) == []
  {
  }

  // The list of ids.

  /** The ids of the entries, in their order, without those to be dropped. */
  function IdsOf(result: seq<Neighbor>, drop: set<nat>): seq<nat> {
    if result == [] then []
    else IdsOf(result[..|result| - 1], drop) + if result[|result| - 1].id in drop then [] else [result[|result| - 1].id]
  }

  method Keep(result: seq<Neighbor>, drop: set<nat>) returns (ids: seq<nat>)
    ensures ids == IdsOf(result, drop)
  {
    ids := [];
    for i := 0 to |result|
      invariant ids == IdsOf(result[..i], drop)
    {
      assert result[..i + 1][..i] == result[..i];
      if result[i].id !in drop {
        ids := ids + [result[i].id];
      }
    }
    assert result[..|result|] == result;
  }

  lemma {:induction false} IdsFacts(result: seq<Neighbor>, drop: set<nat>)
    ensures |IdsOf(result, drop)| <= |result|
    ensures forall v :: v in IdsOf(result, drop) <==> v !in drop && HasId(result, v)
    ensures Distinct(result) ==> NoRepeats(IdsOf(result, drop))
  {
    if result != [] {
      hide HasId, Distinct;
      var init, last := result[..|result| - 1], result[|result| - 1];
      IdsFacts(init, drop);
      assert result == init + [last];
      OneMoreId(init, last);
      assert IdsOf(result, drop) == IdsOf(init, drop) + if last.id in drop then [] else [last.id];
    }
  }

  lemma {:induction false} FirstId(result: seq<Neighbor>, drop: set<nat>)
    requires result != [] && result[0].id !in drop
    ensures IdsOf(result, drop) != [] && IdsOf(result, drop)[0] == result[0].id
  {
    if |result| == 1 {
      assert IdsOf(result[..0], drop) == [];
    } else {
      FirstId(result[..|result| - 1], drop);
    }
  }

  lemma OneMoreId(s: seq<Neighbor>, x: Neighbor)
    ensures forall v :: HasId(s + [x], v) <==> HasId(s, v) || v == x.id
    ensures Distinct(s + [x]) ==> Distinct(s) && !HasId(s, x.id)
  {
    var t := s + [x];
    assert t[|s|] == x && forall i :: 0 <= i < |s| ==> t[i] == s[i];
    forall v | HasId(s, v)
      ensures HasId(t, v)
    {
      var i :| 0 <= i < |s| && s[i].id == v;
      assert t[i].id == v;
    }
  }

  /** The list filled up with the first `n` candidates, as far as it has room and lacks them. */
  function Filled(pool: seq<Neighbor>, ids: seq<nat>, location: nat, range: nat, n: nat): seq<nat>
    requires n <= |pool|
  {
    if n == 0 then ids
    else
      var list := Filled(pool, ids, location, range, n - 1);
      if |list| < range && pool[n - 1].id !in list && pool[n - 1].id != location then list + [pool[n - 1].id] else list
  }

  lemma {:induction false} FilledFull(pool: seq<Neighbor>, ids: seq<nat>, location: nat, range: nat, m: nat, n: nat)
    requires m <= n <= |pool| && |Filled(pool, ids, location, range, m)| >= range
    ensures Filled(pool, ids, location, range, n) == Filled(pool, ids, location, range, m)
  {
    if m < n {
      FilledFull(pool, ids, location, range, m, n - 1);
    }
  }

  lemma {:induction false} FilledFacts(pool: seq<Neighbor>, ids: seq<nat>, location: nat, range: nat, n: nat)
    requires n <= |pool| && |ids| <= range
    ensures var list := Filled(pool, ids, location, range, n);
      && |list| <= range && ids <= list
      && (forall v :: v in list ==> v in ids || (v != location && HasId(pool, v)))
      && (NoRepeats(ids) ==> NoRepeats(list))
      && (|list| == range || forall i :: 0 <= i < n ==> pool[i].id in list || pool[i].id == location)
  {
    if n > 0 {
      FilledFacts(pool, ids, location, range, n - 1);
      assert HasId(pool, pool[n - 1].id);
    }
  }

  method Saturate(pool: seq<Neighbor>, ids0: seq<nat>, location: nat, range: nat) returns (ids: seq<nat>)
    ensures ids == Filled(pool, ids0, location, range, |pool|)
  {
    ids := ids0;
    var i := 0;
    while i < |pool| && |ids| < range
      invariant 0 <= i <= |pool| && ids == Filled(pool, ids0, location, range, i)
    {
      if pool[i].id !in ids && pool[i].id != location {
        ids := ids + [pool[i].id];
      }
      i := i + 1;
    }
    if i < |pool| {
      FilledFull(pool, ids0, location, range, i, |pool|);
    }
  }

  /** The chosen candidates. */
  ghost function ChosenOf(pool: seq<Neighbor>, choices: seq<Look>): seq<Neighbor>
    requires InPool(pool, choices)
  {
    seq(|choices|, c requires 0 <= c < |choices| => pool[choices[c].pos])
  }

  /** The list that pruning the sorted pool leaves for `location`. */
  ghost predicate PrunedTo(pool0: seq<Neighbor>, location: nat, rule: Rule, ids: seq<nat>) {
    var pool := Cut(pool0, rule.maxc);
    exists choices :: Greedy(pool, rule, choices) && ids == PrunedIds(pool, choices, location, rule)
  }

  ghost function PrunedIds(pool: seq<Neighbor>, choices: seq<Look>, location: nat, rule: Rule): seq<nat>
    requires InPool(pool, choices)
  {
    var ids := IdsOf(ChosenOf(pool, choices), {location});
    if rule.saturate && rule.alpha > 1.0 then Filled(pool, ids, location, rule.range, |pool|) else ids
  }

  /** A sorted pool has one pruned list. */
  lemma PrunedUnique(pool: seq<Neighbor>, location: nat, rule: Rule, a: seq<nat>, b: seq<nat>)
    requires PrunedTo(pool, location, rule, a) && PrunedTo(pool, location, rule, b)
    ensures a == b
  {
    var cut := Cut(pool, rule.maxc);
    var x :| Greedy(cut, rule, x) && a == PrunedIds(cut, x, location, rule);
    var y :| Greedy(cut, rule, y) && b == PrunedIds(cut, y, location, rule);
    GreedyUnique(cut, rule, x, y);
  }

  lemma ChosenFacts(pool: seq<Neighbor>, rule: Rule, choices: seq<Look>)
    requires Greedy(pool, rule, choices)
    ensures |ChosenOf(pool, choices)| <= rule.range
    ensures Distinct(pool) ==> Distinct(ChosenOf(pool, choices))
    ensures forall v :: HasId(ChosenOf(pool, choices), v) ==> HasId(pool, v)
    ensures pool != [] && rule.range > 0 && rule.alpha >= 1.0 ==>
      ChosenOf(pool, choices) != [] && ChosenOf(pool, choices)[0] == pool[0]
  {
    var result := ChosenOf(pool, choices);
    NearestFirst(pool, rule, choices);
    forall v | HasId(result, v)
      ensures HasId(pool, v)
    {
      var c :| 0 <= c < |result| && result[c].id == v;
      assert pool[choices[c].pos].id == v;
    }
    if Distinct(pool) {
      forall a, b | 0 <= a < |result| && 0 <= b < |result| && result[a].id == result[b].id
        ensures a == b
      {
        assert pool[choices[a].pos].id == pool[choices[b].pos].id;
      }
    }
  }

  lemma CutIds(pool: seq<Neighbor>, maxc: nat)
    ensures Distinct(pool) ==> Distinct(Cut(pool, maxc))
    ensures forall v :: HasId(Cut(pool, maxc), v) ==> HasId(pool, v)
    ensures pool != [] && maxc > 0 ==> Cut(pool, maxc) != [] && Cut(pool, maxc)[0] == pool[0]
  {
    var cut := Cut(pool, maxc);
    forall v | HasId(cut, v)
      ensures HasId(pool, v)
    {
      var i :| 0 <= i < |cut| && cut[i].id == v;
      assert pool[i].id == v;
    }
  }

  lemma PrunedIdsFacts(pool: seq<Neighbor>, choices: seq<Look>, location: nat, rule: Rule)
    requires Greedy(pool, rule, choices)
    ensures var ids := PrunedIds(pool, choices, location, rule);
      && |ids| <= rule.range && (forall v :: v in ids ==> v != location && HasId(pool, v))
      && (Distinct(pool) ==> NoRepeats(ids))
      && (pool != [] && rule.range > 0 && rule.alpha >= 1.0 && pool[0].id != location ==>
           ids != [] && ids[0] == pool[0].id)
  {
    ChosenFacts(pool, rule, choices);
    hide Greedy, ChosenOf, HasId, Distinct, NoRepeats;
    var chosen := ChosenOf(pool, choices);
    var ids := IdsOf(chosen, {location});
    IdsFacts(chosen, {location});
    if chosen != [] && chosen[0].id != location {
      FirstId(chosen, {location});
    }
    FilledFacts(pool, ids, location, rule.range, |pool|);
  }

  /** What a pruned list is good for. */
  lemma PrunedFacts(pool: seq<Neighbor>, location: nat, rule: Rule, ids: seq<nat>)
    requires PrunedTo(pool, location, rule, ids)
    ensures |ids| <= rule.range && (forall v :: v in ids ==> v != location && HasId(pool, v))
    ensures Distinct(pool) ==> NoRepeats(ids)
    ensures pool != [] && rule.range > 0 && rule.maxc > 0 && rule.alpha >= 1.0 && pool[0].id != location ==>
      |ids| > 0 && ids[0] == pool[0].id
  {
    hide PrunedIds, HasId, Distinct, NoRepeats, Covered, OccludedBefore, InScan;
    var cut := Cut(pool, rule.maxc);
    var choices :| Greedy(cut, rule, choices) && ids == PrunedIds(cut, choices, location, rule);
    CutIds(pool, rule.maxc);
    PrunedIdsFacts(cut, choices, location, rule);
  }

  /** When a pruned list is filled up: the choices alone make the list unless saturation is asked for and alpha is
      above one; then they begin it, and it is full or no candidate is missing. */
  lemma PrunedSaturated(pool: seq<Neighbor>, location: nat, rule: Rule, ids: seq<nat>) returns (choices: seq<Look>)
    requires PrunedTo(pool, location, rule, ids)
    ensures Greedy(Cut(pool, rule.maxc), rule, choices)
    ensures var cut := Cut(pool, rule.maxc); var chosen := IdsOf(ChosenOf(cut, choices), {location});
      && chosen <= ids && (!rule.saturate || rule.alpha <= 1.0 ==> ids == chosen)
      && (rule.saturate && rule.alpha > 1.0 ==>
           |ids| == rule.range || forall i :: 0 <= i < |cut| ==> cut[i].id in ids || cut[i].id == location)
  {
    hide HasId, Distinct, NoRepeats, Covered, OccludedBefore, InScan;
    var cut := Cut(pool, rule.maxc);
    choices :| Greedy(cut, rule, choices) && ids == PrunedIds(cut, choices, location, rule);
    ChosenFacts(cut, rule, choices);
    hide Greedy, ChosenOf;
    var chosen := IdsOf(ChosenOf(cut, choices), {location});
    IdsFacts(ChosenOf(cut, choices), {location});
    FilledFacts(cut, chosen, location, rule.range, |cut|);
  }

  /** The outcome of `prune_neighbors`; `EmptyPool` stands for its exception. */
  datatype Pruned = EmptyPool | Pruned(ids: seq<nat>)

  /** `prune_neighbors` on a pool already sorted by distance, as `std::sort` leaves it. */
  method PruneNeighbors(location: nat, pool0: seq<Neighbor>, rule: Rule) returns (r: Pruned)
    ensures r.EmptyPool? <==> pool0 == []
    ensures r.Pruned? ==> PrunedTo(pool0, location, rule, r.ids)
  {
    if |pool0| == 0 {
      return EmptyPool;
    }
    var pool, result, choices := OccludeList(pool0, rule);
    assert result == ChosenOf(pool, choices);
    var ids := Keep(result, {location});
    if rule.saturate && rule.alpha > 1.0 {
      ids := Saturate(pool, ids, location, rule.range);
    }
    assert ids == PrunedIds(pool, choices, location, rule);
    r := Pruned(ids);
  }
}
