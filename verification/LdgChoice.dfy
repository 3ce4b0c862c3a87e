/** Which page `select_partition` chooses, told from the run alone: the thread has counted the neighbours of its
    node page by page and has looked at each of these pages once. Of those that had room it takes the one with
    the most neighbours, weighed by the room left, and only if none had room it asks the free queue. */
module LdgChoice {
  import opened LdgRound

  /** One pass over the neighbours of a node: when it began, when neighbour `j` was looked up in `id2pid`, and
      when page `p` was looked at. */
  datatype Scan = Scan(begin: nat, when: seq<nat>, at: map<nat, nat>)

  ghost predicate InScan(pc: Pc, v: nat) {
    (pc.Counting? || pc.Scoring?) && pc.v == v
  }

  /** The page on which a neighbour of `v` was at the time. */
  ghost function SeenOn(c: Config, s: State, v: nat, j: nat): Candidate
    requires v < |c.nbrs| && j < |c.nbrs[v]|
  {
    if c.nbrs[v][j] in s.id2pid then Page(s.id2pid[c.nbrs[v][j]]) else NoPage
  }

  /** How many of the first `n` neighbours were seen on page `p`. */
  ghost function SeenCount(c: Config, run: seq<State>, v: nat, when: seq<nat>, n: nat, p: nat): nat
    requires v < |c.nbrs| && n <= |c.nbrs[v]| && n <= |when| && forall j :: 0 <= j < n ==> when[j] < |run|
  {
    if n == 0 then 0
    else
      SeenCount(c, run, v, when, n - 1, p) + if SeenOn(c, run[when[n - 1]], v, n - 1) == Page(p) then 1 else 0
  }

  /** The thread has been at this pass from its beginning to time `k`, and has looked up the first neighbours. */
  ghost predicate LookedUp(c: Config, run: seq<State>, t: nat, v: nat, w: Scan, k: nat) {
    && v < |c.nbrs| && |w.when| <= |c.nbrs[v]| && w.begin <= k < |run|
    && (forall i {:trigger run[i]} :: w.begin <= i <= k ==> t < |run[i].pc| && InScan(run[i].pc[t], v))
    && forall j {:trigger w.when[j]} :: 0 <= j < |w.when| ==>
         && w.begin <= w.when[j] < k && run[w.when[j]].pc[t].Counting? && run[w.when[j]].pc[t].k == j
  }

  /** How many neighbours the pass has seen on page `p`. */
  ghost function Near(c: Config, run: seq<State>, t: nat, v: nat, w: Scan, k: nat, p: nat): nat
    requires LookedUp(c, run, t, v, w, k)
  {
    SeenCount(c, run, v, w.when, |w.when|, p)
  }

  ghost predicate Counted(c: Config, run: seq<State>, t: nat, v: nat, w: Scan, k: nat, m: map<nat, nat>) {
    && LookedUp(c, run, t, v, w, k)
    && forall p: nat {:trigger Near(c, run, t, v, w, k, p)} ::
         (p in m <==> Near(c, run, t, v, w, k, p) > 0) && (p in m ==> m[p] == Near(c, run, t, v, w, k, p))
  }

  /** Each page of the pass has been looked at, but for those in `left`. */
  ghost predicate LookedAt(c: Config, run: seq<State>, t: nat, v: nat, w: Scan, k: nat, left: map<nat, nat>) {
    && LookedUp(c, run, t, v, w, k) && |w.when| == |c.nbrs[v]|
    && (forall p: nat {:trigger Near(c, run, t, v, w, k, p)} ::
          && (p in w.at || p in left <==> Near(c, run, t, v, w, k, p) > 0) && !(p in w.at && p in left)
          && (p in left ==> left[p] == Near(c, run, t, v, w, k, p)))
    && forall p {:trigger w.at[p]} :: p in w.at ==>
         && w.begin <= w.at[p] < k && run[w.at[p]].pc[t].Scoring? && p in run[w.at[p]].pc[t].left
         && p < |run[w.at[p]].parts|
  }

  /** How many nodes page `p` held as it was looked at. */
  ghost function SizeSeen(run: seq<State>, w: Scan, p: nat): nat
    requires p in w.at && w.at[p] < |run| && p < |run[w.at[p]].parts|
  {
    |run[w.at[p]].parts[p]|
  }

  /** The best page so far. */
  ghost predicate BestSoFar(c: Config, run: seq<State>, t: nat, v: nat, w: Scan, k: nat, left: map<nat, nat>,
                            best: Candidate, score: real) {
    && c.C > 0 && LookedAt(c, run, t, v, w, k, left)
    && match best
       case NoPage =>
         score == 0.0 && forall p {:trigger w.at[p]} :: p in w.at ==> SizeSeen(run, w, p) >= c.C
       case Page(b) =>
         && b in w.at && SizeSeen(run, w, b) < c.C
         && score == Score(c, Near(c, run, t, v, w, k, b), SizeSeen(run, w, b))
         && forall p {:trigger w.at[p]} :: p in w.at && SizeSeen(run, w, p) < c.C ==>
              Score(c, Near(c, run, t, v, w, k, p), SizeSeen(run, w, p)) <= score
  }

  ghost predicate Told(c: Config, run: seq<State>, t: nat, w: Scan, k: nat)
    requires k < |run| && t < |run[k].pc|
  {
    match run[k].pc[t]
    case Counting(v, n, m) => |w.when| == n && w.at == map[] && Counted(c, run, t, v, w, k, m)
    case Scoring(v, left, best, score) => BestSoFar(c, run, t, v, w, k, left, best, score)
    case _ => true
  }

  lemma {:induction false} SeenSame(c: Config, run: seq<State>, v: nat, when: seq<nat>, more: seq<nat>, n: nat, p: nat)
    requires v < |c.nbrs| && n <= |c.nbrs[v]| && n <= |when| && forall j :: 0 <= j < n ==> when[j] < |run|
    ensures SeenCount(c, run, v, when + more, n, p) == SeenCount(c, run, v, when, n, p)
  {
    if n > 0 {
      SeenSame(c, run, v, when, more, n - 1, p);
    }
  }

  /** While the thread rests, what it has seen stays. */
  lemma LaterUp(c: Config, run: seq<State>, t: nat, v: nat, w: Scan, k: nat)
    requires LookedUp(c, run, t, v, w, k) && k + 1 < |run| && t < |run[k + 1].pc| && InScan(run[k + 1].pc[t], v)
    ensures LookedUp(c, run, t, v, w, k + 1)
    ensures forall p: nat {:trigger Near(c, run, t, v, w, k + 1, p)} ::
      Near(c, run, t, v, w, k + 1, p) == Near(c, run, t, v, w, k, p)
  {
  }

  lemma LaterCounted(c: Config, run: seq<State>, t: nat, v: nat, w: Scan, k: nat, m: map<nat, nat>)
    requires Counted(c, run, t, v, w, k, m)
    requires k + 1 < |run| && t < |run[k + 1].pc| && InScan(run[k + 1].pc[t], v)
    ensures Counted(c, run, t, v, w, k + 1, m)
  {
    LaterUp(c, run, t, v, w, k);
    hide LookedUp, Near;
    forall p: nat {:trigger Near(c, run, t, v, w, k + 1, p)}
      ensures Near(c, run, t, v, w, k + 1, p) == Near(c, run, t, v, w, k, p)
    {
    }
  }

  lemma LaterLooked(c: Config, run: seq<State>, t: nat, v: nat, w: Scan, k: nat, left: map<nat, nat>)
    requires LookedAt(c, run, t, v, w, k, left)
    requires k + 1 < |run| && t < |run[k + 1].pc| && InScan(run[k + 1].pc[t], v)
    ensures LookedAt(c, run, t, v, w, k + 1, left)
  {
    LaterUp(c, run, t, v, w, k);
    assert v < |c.nbrs|;
    hide LookedUp, Near;
    forall p: nat {:trigger Near(c, run, t, v, w, k + 1, p)}
      ensures Near(c, run, t, v, w, k + 1, p) == Near(c, run, t, v, w, k, p)
    {
    }
  }

  lemma LaterBest(c: Config, run: seq<State>, t: nat, v: nat, w: Scan, k: nat, left: map<nat, nat>, best: Candidate,
                  score: real)
    requires BestSoFar(c, run, t, v, w, k, left, best, score)
    requires k + 1 < |run| && t < |run[k + 1].pc| && InScan(run[k + 1].pc[t], v)
    ensures BestSoFar(c, run, t, v, w, k + 1, left, best, score)
  {
    LaterUp(c, run, t, v, w, k);
    LaterLooked(c, run, t, v, w, k, left);
    hide LookedUp, Near, Score, SizeSeen, LookedAt;
    match best {
      case NoPage =>
      case Page(b) =>
        assert Near(c, run, t, v, w, k + 1, b) == Near(c, run, t, v, w, k, b);
        forall p {:trigger w.at[p]} | p in w.at && SizeSeen(run, w, p) < c.C
          ensures Score(c, Near(c, run, t, v, w, k + 1, p), SizeSeen(run, w, p)) <= score
        {
          assert Near(c, run, t, v, w, k + 1, p) == Near(c, run, t, v, w, k, p);
        }
    }
  }

  /** A pass begins. */
  lemma Begins(c: Config, run: seq<State>, t: nat, v: nat, k: nat)
    requires v < |c.nbrs| && k < |run| && t < |run[k].pc| && InScan(run[k].pc[t], v)
    ensures Counted(c, run, t, v, Scan(k, [], map[]), k, map[])
  {
  }

  /** One more neighbour is looked up. */
  lemma LooksUp(c: Config, run: seq<State>, t: nat, v: nat, w: Scan, k: nat, m: map<nat, nat>, m': map<nat, nat>)
    requires Counted(c, run, t, v, w, k, m) && |w.when| < |c.nbrs[v]|
    requires run[k].pc[t].Counting? && run[k].pc[t].k == |w.when|
    requires k + 1 < |run| && t < |run[k + 1].pc| && InScan(run[k + 1].pc[t], v)
    requires m' ==
      var u := c.nbrs[v][|w.when|]; if u in run[k].id2pid then Bump(m, run[k].id2pid[u]) else m
    ensures Counted(c, run, t, v, w.(when := w.when + [k]), k + 1, m')
  {
    var n, w' := |w.when|, w.(when := w.when + [k]);
    assert LookedUp(c, run, t, v, w', k + 1);
    forall p: nat {:trigger Near(c, run, t, v, w', k + 1, p)}
      ensures Near(c, run, t, v, w', k + 1, p) ==
        Near(c, run, t, v, w, k, p) + if SeenOn(c, run[k], v, n) == Page(p) then 1 else 0
    {
      SeenSame(c, run, v, w.when, [k], n, p);
    }
    hide LookedUp, Near;
  }

  /** The scoring begins with the pages counted. */
  lemma ScoringBegins(c: Config, run: seq<State>, t: nat, v: nat, w: Scan, k: nat, m: map<nat, nat>)
    requires c.C > 0 && Counted(c, run, t, v, w, k, m) && |w.when| == |c.nbrs[v]| && w.at == map[]
    ensures BestSoFar(c, run, t, v, w, k, m, NoPage, 0.0)
  {
    hide LookedUp, Near;
  }

  /** The score of a page with neighbours is positive while it has room. */
  lemma ScoreSign(c: Config, cnt: nat, size: nat)
    requires c.C > 0 && cnt > 0
    ensures size < c.C <==> Score(c, cnt, size) > 0.0
  {
    ScoreIs(c, cnt, size);
    var room := c.C - size;
    if size < c.C {
      assert cnt * room > 0;
    } else {
      assert cnt * room <= 0;
    }
  }

  /** In whole numbers: the score is the neighbours times the room, over the capacity. */
  lemma ScoreIs(c: Config, cnt: nat, size: nat)
    requires c.C > 0
    ensures Score(c, cnt, size) * c.C as real == (cnt * (c.C - size)) as real
  {
    var n, s, q := cnt as real, size as real, c.C as real;
    assert (s / q) * q == s;
    assert n * (1.0 - s / q) * q == n * (q - (s / q) * q);
    assert n * (q - s) == (cnt * (c.C - size)) as real;
  }

  lemma ScoreOrder(c: Config, a: nat, sizeA: nat, b: nat, sizeB: nat)
    requires c.C > 0 && Score(c, a, sizeA) <= Score(c, b, sizeB)
    ensures a * (c.C - sizeA) <= b * (c.C - sizeB)
  {
    ScoreIs(c, a, sizeA);
    ScoreIs(c, b, sizeB);
    hide Score;
    assert Score(c, a, sizeA) * c.C as real <= Score(c, b, sizeB) * c.C as real;
  }

  /** One more page is looked at. */
  lemma LooksAt(c: Config, run: seq<State>, t: nat, v: nat, w: Scan, k: nat, left: map<nat, nat>, x: nat)
    requires LookedAt(c, run, t, v, w, k, left) && run[k].pc[t].Scoring? && run[k].pc[t].left == left
    requires k + 1 < |run| && t < |run[k + 1].pc| && InScan(run[k + 1].pc[t], v)
    requires x in left && x < |run[k].parts|
    ensures LookedAt(c, run, t, v, w.(at := w.at[x := k]), k + 1, left - {x})
    ensures forall p: nat {:trigger Near(c, run, t, v, w.(at := w.at[x := k]), k + 1, p)} ::
      Near(c, run, t, v, w.(at := w.at[x := k]), k + 1, p) == Near(c, run, t, v, w, k, p)
  {
    var w' := w.(at := w.at[x := k]);
    assert LookedUp(c, run, t, v, w', k + 1);
    assert forall p: nat {:trigger Near(c, run, t, v, w', k + 1, p)} ::
      Near(c, run, t, v, w', k + 1, p) == Near(c, run, t, v, w, k, p);
    hide LookedUp, Near;
  }

  lemma BestNext(c: Config, run: seq<State>, t: nat, v: nat, w: Scan, k: nat, left: map<nat, nat>, best: Candidate,
                 score: real, x: nat, best': Candidate, score': real)
    requires BestSoFar(c, run, t, v, w, k, left, best, score)
    requires run[k].pc[t].Scoring? && run[k].pc[t].left == left
    requires k + 1 < |run| && t < |run[k + 1].pc| && InScan(run[k + 1].pc[t], v)
    requires x in left && x < |run[k].parts|
    requires var value := Score(c, left[x], |run[k].parts[x]|);
      if value > score && |run[k].parts[x]| < c.C then best' == Page(x) && score' == value
      else best' == best && score' == score
    ensures BestSoFar(c, run, t, v, w.(at := w.at[x := k]), k + 1, left - {x}, best', score')
  {
    var w' := w.(at := w.at[x := k]);
    LooksAt(c, run, t, v, w, k, left, x);
    var cnt, size := Near(c, run, t, v, w, k, x), |run[k].parts[x]|;
    assert cnt > 0 && left[x] == cnt;
    ScoreSign(c, cnt, size);
    hide Score;
    assert SizeSeen(run, w', x) == size;
    assert Near(c, run, t, v, w', k + 1, x) == cnt;
    hide Near;
    assert forall p {:trigger w'.at[p]} :: p in w'.at && p != x ==>
      p in w.at && w'.at[p] == w.at[p] && SizeSeen(run, w', p) == SizeSeen(run, w, p) &&
      Near(c, run, t, v, w', k + 1, p) == Near(c, run, t, v, w, k, p);
    hide LookedUp, SizeSeen, LookedAt;
  }

  /** What the thread knows at any time is what it has seen in the pass at hand. */
  lemma {:induction false} History(c: Config, run: seq<State>, t: nat, k: nat) returns (w: Scan)
    requires c.Valid() && IsRun(c, run) && k < |run| && t < |run[k].pc|
    ensures Told(c, run, t, w, k)
  {
    w := Scan(k, [], map[]);
    if k > 0 {
      hide *;
      var u, x := StepAt(c, run, k - 1);
      var w0 := History(c, run, t, k - 1);
      w := HistoryNext(c, run, t, k - 1, w0, u, x);
    } else {
      NothingBegun(c, run, t, w);
    }
  }

  lemma NothingBegun(c: Config, run: seq<State>, t: nat, w: Scan)
    requires IsRun(c, run) && t < |run[0].pc|
    ensures Told(c, run, t, w, 0)
  {
  }

  lemma StepAt(c: Config, run: seq<State>, k: nat) returns (u: nat, x: nat)
    requires c.Valid() && IsRun(c, run) && k + 1 < |run|
    ensures Step(c, run[k], run[k + 1], u, x)
    ensures |run[k + 1].pc| == |run[k].pc| && Bounds(c, run[k + 1])
  {
    assert Follows(c, run, k);
    u, x :| Step(c, run[k], run[k + 1], u, x);
    hide *;
    OnlyMover(c, run[k], run[k + 1], u, x);
    RunBounds(c, run, k + 1);
  }

  lemma RunBounds(c: Config, run: seq<State>, k: nat)
    requires c.Valid() && IsRun(c, run) && k < |run|
    ensures Bounds(c, run[k])
  {
    RunInv(c, run, k);
  }

  lemma HistoryNext(c: Config, run: seq<State>, t: nat, k: nat, w: Scan, u: nat, x: nat) returns (w': Scan)
    requires k + 1 < |run| && t < |run[k].pc| && Told(c, run, t, w, k) && Step(c, run[k], run[k + 1], u, x)
    requires |run[k + 1].pc| == |run[k].pc| && Bounds(c, run[k + 1])
    ensures Told(c, run, t, w', k + 1)
  {
    w' := w;
    var pc, pc' := run[k].pc[t], run[k + 1].pc[t];
    if u == t {
      w' := MoverTold(c, run, t, k, w, x);
    } else {
      OnlyMover(c, run[k], run[k + 1], u, x);
      assert pc' == pc;
      match pc {
        case Counting(v, _, m) => LaterCounted(c, run, t, v, w, k, m);
        case Scoring(v, left, best, score) => LaterBest(c, run, t, v, w, k, left, best, score);
        case _ =>
      }
    }
  }

  lemma MoverTold(c: Config, run: seq<State>, t: nat, k: nat, w: Scan, x: nat) returns (w': Scan)
    requires k + 1 < |run| && t < |run[k].pc| && Told(c, run, t, w, k) && Step(c, run[k], run[k + 1], t, x)
    requires |run[k + 1].pc| == |run[k].pc| && Bounds(c, run[k + 1])
    ensures Told(c, run, t, w', k + 1)
  {
    w' := Scan(k + 1, [], map[]);
    match run[k].pc[t] {
      case Idle =>
        assert KnownPages(c, run[k + 1].pc[t]);
        Begins(c, run, t, x, k + 1);
      case Chosen(v, pid, _) =>
        if Full(c, run[k], pid) {
          Begins(c, run, t, v, k + 1);
        }
      case Counting(v, n, m) =>
        if n < |c.nbrs[v]| {
          w' := w.(when := w.when + [k]);
          LooksUp(c, run, t, v, w, k, m, run[k + 1].pc[t].pcount);
        } else {
          w' := w;
          LaterCounted(c, run, t, v, w, k, m);
          ScoringBegins(c, run, t, v, w, k + 1, m);
        }
      case Scoring(v, left, best, score) =>
        if left != map[] {
          w' := w.(at := w.at[x := k]);
          BestNext(c, run, t, v, w, k, left, best, score, x, run[k + 1].pc[t].best, run[k + 1].pc[t].score);
        }
      case _ =>
    }
  }

  /** All pages with a neighbour seen on them have been looked at, and no others. */
  ghost predicate Scanned(c: Config, run: seq<State>, t: nat, v: nat, w: Scan, k: nat) {
    && LookedUp(c, run, t, v, w, k) && |w.when| == |c.nbrs[v]|
    && (forall p: nat {:trigger Near(c, run, t, v, w, k, p)} ::
          p in w.at <==> Near(c, run, t, v, w, k, p) > 0)
    && forall p {:trigger w.at[p]} :: p in w.at ==>
         && w.begin <= w.at[p] < k && run[w.at[p]].pc[t].Scoring? && p in run[w.at[p]].pc[t].left
         && p < |run[w.at[p]].parts|
  }

  /** A page chosen by its score holds neighbours, had room when it was looked at, and no other page with room had
      more neighbours times room. */
  lemma ChoiceIsBest(c: Config, run: seq<State>, t: nat, k: nat) returns (w: Scan)
    requires c.Valid() && IsRun(c, run) && k + 1 < |run| && t < |run[k].pc| == |run[k + 1].pc|
    requires run[k].pc[t].Scoring? && run[k + 1].pc[t].Chosen?
    ensures var v, p := run[k].pc[t].v, run[k + 1].pc[t].pid;
      && run[k + 1].pc[t] == Chosen(v, p, false) && Scanned(c, run, t, v, w, k)
      && p in w.at && SizeSeen(run, w, p) < c.C
      && forall q {:trigger w.at[q]} :: q in w.at && SizeSeen(run, w, q) < c.C ==>
           Near(c, run, t, v, w, k, q) * (c.C - SizeSeen(run, w, q)) <=
           Near(c, run, t, v, w, k, p) * (c.C - SizeSeen(run, w, p))
  {
    w := History(c, run, t, k);
    ScanEnds(c, run, t, k, w);
    var v, p := run[k].pc[t].v, run[k + 1].pc[t].pid;
    hide Step, LookedUp, Near;
    forall q | q in w.at && SizeSeen(run, w, q) < c.C
      ensures Near(c, run, t, v, w, k, q) * (c.C - SizeSeen(run, w, q)) <=
        Near(c, run, t, v, w, k, p) * (c.C - SizeSeen(run, w, p))
    {
      ScoreOrder(c, Near(c, run, t, v, w, k, q), SizeSeen(run, w, q), Near(c, run, t, v, w, k, p),
        SizeSeen(run, w, p));
    }
  }

  /** The free queue is asked only if no page with a neighbour on it had room. */
  lemma QueueIsLast(c: Config, run: seq<State>, t: nat, k: nat) returns (w: Scan)
    requires c.Valid() && IsRun(c, run) && k + 1 < |run| && t < |run[k].pc| == |run[k + 1].pc|
    requires run[k].pc[t].Scoring? && run[k + 1].pc[t].Popping?
    ensures var v := run[k].pc[t].v;
      && run[k + 1].pc[t] == Popping(v) && Scanned(c, run, t, v, w, k)
      && forall q {:trigger w.at[q]} :: q in w.at ==> SizeSeen(run, w, q) == c.C
  {
    w := History(c, run, t, k);
    ScanEnds(c, run, t, k, w);
    forall q | q in w.at
      ensures SizeSeen(run, w, q) == c.C
    {
      RunInv(c, run, w.at[q]);
    }
  }

  lemma ScanEnds(c: Config, run: seq<State>, t: nat, k: nat, w: Scan)
    requires IsRun(c, run) && k + 1 < |run| && t < |run[k].pc| == |run[k + 1].pc| && Told(c, run, t, w, k)
    requires run[k].pc[t].Scoring? && !run[k + 1].pc[t].Scoring?
    ensures var pc := run[k].pc[t];
      pc.left == map[] && Scanned(c, run, t, pc.v, w, k)
      && run[k + 1].pc[t] == if pc.best.NoPage? then Popping(pc.v) else Chosen(pc.v, pc.best.pid, false)
  {
    assert Follows(c, run, k);
    var u, x :| Step(c, run[k], run[k + 1], u, x);
    OnlyMover(c, run[k], run[k + 1], u, x);
  }
}
