/** Adjacency lists of the dynamic index: what edits of single lists do to the graph as a whole. */
module GraphLists {
  import opened BeamSearch
  import opened NeighborPool
  import opened Prune
  import opened Sets

  /** No duplicates, and no edge to anything but a node. */
  ghost predicate ListOk(list: seq<nat>, nodes: set<nat>) {
    NoRepeats(list) && forall v :: v in list ==> v in nodes
  }

  /** The lists of the nodes have edges to nodes only; other lists do not matter. */
  ghost predicate GraphOk(graph: Graph, nodes: set<nat>) {
    && (forall u :: u in nodes ==> u < |graph|)
    && (forall u {:trigger graph[u]} :: u in nodes ==> ListOk(graph[u], nodes))
  }

  ghost predicate DegreesWithin(graph: Graph, nodes: set<nat>, bound: nat) {
    forall u {:trigger graph[u]} :: u in nodes && u < |graph| ==> |graph[u]| <= bound
  }

  lemma {:induction false} PathStays(graph: Graph, nodes: set<nat>, p: seq<nat>)
    requires GraphOk(graph, nodes) && IsPath(graph, p) && p[0] in nodes
    ensures p[|p| - 1] in nodes
  {
    if |p| > 1 {
      var q := p[..|p| - 1];
      assert IsPath(graph, q);
      PathStays(graph, nodes, q);
      assert Edge(graph, p[|p| - 2], p[|p| - 1]);
      assert ListOk(graph[p[|p| - 2]], nodes);
    }
  }

  /** A search meets nodes only. */
  lemma ReachStays(graph: Graph, nodes: set<nat>, seeds: set<nat>)
    requires GraphOk(graph, nodes) && seeds <= nodes
    ensures forall v :: v in ReachSet(graph, seeds) ==> v in nodes
  {
    forall v | v in ReachSet(graph, seeds)
      ensures v in nodes
    {
      var p :| IsPath(graph, p) && p[0] in seeds && p[|p| - 1] == v;
      PathStays(graph, nodes, p);
    }
  }

  /** One list is replaced; its owner may be a new node. */
  lemma ReplaceList(graph: Graph, nodes: set<nat>, u: nat, list: seq<nat>)
    requires GraphOk(graph, nodes) && u < |graph| && ListOk(list, nodes + {u})
    ensures GraphOk(graph[u := list], nodes + {u})
    ensures forall b {:trigger DegreesWithin(graph[u := list], nodes + {u}, b)} ::
      DegreesWithin(graph, nodes, b) && |list| <= b ==> DegreesWithin(graph[u := list], nodes + {u}, b)
  {
    var graph' := graph[u := list];
    forall w {:trigger graph'[w]} | w in nodes + {u}
      ensures ListOk(graph'[w], nodes + {u})
    {
      if w != u {
        assert ListOk(graph[w], nodes);
      }
    }
    forall b | DegreesWithin(graph, nodes, b) && |list| <= b
      ensures DegreesWithin(graph', nodes + {u}, b)
    {
      assert forall w {:trigger graph'[w]} :: w in nodes && w != u && w < |graph| ==> graph'[w] == graph[w];
    }
  }

  // Repairing the list of a node some of whose neighbours are deleted.

  /** What `process_delete` considers for the list of `i`: the neighbours that stay, and in place of
      those that go their neighbours that stay. */
  ghost predicate Candidate(graph: Graph, gone: set<nat>, i: nat, v: nat)
    requires i < |graph|
  {
    v !in gone && (v in graph[i] || exists w :: w in graph[i] && w in gone && Edge(graph, w, v))
  }

  ghost predicate Touched(list: seq<nat>, gone: set<nat>) {
    exists v :: v in list && v in gone
  }

  /** A sorted pool of different ids with their distances from `owner`. */
  ghost predicate PoolFor(pool: seq<Neighbor>, owner: nat, d: Distance) {
    Sorted(pool) && Distinct(pool) && forall k :: 0 <= k < |pool| ==> pool[k].distance == d(owner, pool[k].id)
  }

  ghost predicate RepairPool(graph: Graph, gone: set<nat>, i: nat, rule: Rule, pool: seq<Neighbor>)
    requires i < |graph|
  {
    PoolFor(pool, i, rule.d) && forall v :: HasId(pool, v) <==> Candidate(graph, gone, i, v)
  }

  /** The candidates that pruning chooses from the sorted pool, but for `i` and those that go. */
  ghost predicate Kept(pool: seq<Neighbor>, gone: set<nat>, i: nat, rule: Rule, list: seq<nat>) {
    var cut := Cut(pool, rule.maxc);
    exists choices :: Greedy(cut, rule, choices) && list == IdsOf(ChosenOf(cut, choices), {i} + gone)
  }

  /** The list of `i` afterwards: as it was, or what pruning leaves of the candidates. */
  ghost predicate Repaired(graph: Graph, gone: set<nat>, i: nat, rule: Rule, list: seq<nat>)
    requires i < |graph|
  {
    if Touched(graph[i], gone) then
      exists pool :: RepairPool(graph, gone, i, rule, pool) && Kept(pool, gone, i, rule, list)
    else list == graph[i]
  }

  lemma KeptFacts(pool: seq<Neighbor>, gone: set<nat>, i: nat, rule: Rule, list: seq<nat>)
    requires Kept(pool, gone, i, rule, list)
    ensures |list| <= rule.range && (Distinct(pool) ==> NoRepeats(list))
    ensures forall v :: v in list ==> v != i && v !in gone && HasId(pool, v)
  {
    hide HasId, Distinct, NoRepeats, Covered, OccludedBefore, InScan, IdsOf;
    var cut := Cut(pool, rule.maxc);
    var choices :| Greedy(cut, rule, choices) && list == IdsOf(ChosenOf(cut, choices), {i} + gone);
    CutIds(pool, rule.maxc);
    ChosenFacts(cut, rule, choices);
    IdsFacts(ChosenOf(cut, choices), {i} + gone);
  }

  lemma RepairedFacts(graph: Graph, gone: set<nat>, i: nat, rule: Rule, list: seq<nat>)
    requires i < |graph| && Repaired(graph, gone, i, rule, list) && Touched(graph[i], gone)
    ensures NoRepeats(list) && |list| <= rule.range && forall v :: v in list ==> v != i && Candidate(graph, gone, i, v)
  {
    hide Kept, Touched;
    var pool :| RepairPool(graph, gone, i, rule, pool) && Kept(pool, gone, i, rule, list);
    KeptFacts(pool, gone, i, rule, list);
  }

  method CollectCandidates(graph: Graph, gone: set<nat>, i: nat) returns (touched: bool, candidates: set<nat>)
    requires i < |graph| && forall v :: v in graph[i] ==> v < |graph|
    ensures touched <==> Touched(graph[i], gone)
    ensures forall v :: v in candidates <==> Candidate(graph, gone, i, v)
  {
    touched, candidates := false, {};
    var list := graph[i];
    for k := 0 to |list|
      invariant touched <==> Touched(list[..k], gone)
      invariant forall v :: v in candidates <==>
        v !in gone && (v in list[..k] || exists w :: w in list[..k] && w in gone && Edge(graph, w, v))
    {
      var w := list[k];
      assert w in graph[i];
      assert list[..k + 1] == list[..k] + [w];
      if w in gone {
        touched := true;
        candidates := AddStaying(candidates, graph[w], gone);
      } else {
        candidates := candidates + {w};
      }
    }
    assert list[..|list|] == list;
  }

  method AddStaying(candidates0: set<nat>, list: seq<nat>, gone: set<nat>) returns (candidates: set<nat>)
    ensures forall v :: v in candidates <==> v in candidates0 || (v in list && v !in gone)
  {
    candidates := candidates0;
    for k := 0 to |list|
      invariant forall v :: v in candidates <==> v in candidates0 || (v in list[..k] && v !in gone)
    {
      if list[k] !in gone {
        candidates := candidates + {list[k]};
      }
    }
    assert list[..|list|] == list;
  }

  /** The pool of the given ids, in whatever order the set yields them. */
  method PoolOf(ids: set<nat>, d: Distance, i: nat) returns (pool: seq<Neighbor>)
    ensures Distinct(pool) && forall v :: HasId(pool, v) <==> v in ids
    ensures forall k :: 0 <= k < |pool| ==> pool[k].distance == d(i, pool[k].id)
  {
    pool := [];
    var rest := ids;
    while rest != {}
      invariant rest <= ids && Distinct(pool)
      invariant forall v :: HasId(pool, v) <==> v in ids && v !in rest
      invariant forall k :: 0 <= k < |pool| ==> pool[k].distance == d(i, pool[k].id)
    {
      var v :| v in rest;
      ghost var seen := ids - rest;
      assert forall w :: w in seen <==> HasId(pool, w);
      ReportNext(pool, seen, Neighbor(v, d(i, v), true));
      pool, rest := pool + [Neighbor(v, d(i, v), true)], rest - {v};
      assert ids - rest == seen + {v};
      assert forall w :: w in seen + {v} <==> HasId(pool, w);
    }
  }

  /** `std::sort` of a vector of candidates. */
  method SortedPool(pool: seq<Neighbor>) returns (sorted: seq<Neighbor>)
    ensures Sorted(sorted) && multiset(sorted) == multiset(pool) && |sorted| == |pool|
    ensures forall v :: HasId(sorted, v) <==> HasId(pool, v)
    ensures Distinct(pool) ==> Distinct(sorted)
  {
    var a := new Neighbor[|pool|](i requires 0 <= i < |pool| => pool[i]);
    assert a[..|pool|] == pool;
    SortPool(a, |pool|);
    sorted := a[..];
    assert a[..|pool|] == sorted;
    SameIds(pool, sorted);
    SameIds(sorted, pool);
    if Distinct(pool) {
      RearrangedDistinct(pool, sorted);
    }
    assert |multiset(sorted)| == |multiset(pool)|;
  }

  lemma SameIds(s: seq<Neighbor>, t: seq<Neighbor>)
    requires multiset(s) == multiset(t)
    ensures forall v :: HasId(s, v) ==> HasId(t, v)
  {
    forall v | HasId(s, v)
      ensures HasId(t, v)
    {
      var i :| 0 <= i < |s| && s[i].id == v;
      assert s[i] in multiset(t);
      var j :| 0 <= j < |t| && t[j] == s[i];
    }
  }

  lemma SortedFor(pool: seq<Neighbor>, sorted: seq<Neighbor>, owner: nat, d: Distance)
    requires multiset(pool) == multiset(sorted) && Sorted(sorted) && Distinct(sorted)
    requires forall k :: 0 <= k < |pool| ==> pool[k].distance == d(owner, pool[k].id)
    ensures PoolFor(sorted, owner, d)
  {
    forall k | 0 <= k < |sorted|
      ensures sorted[k].distance == d(owner, sorted[k].id)
    {
      assert sorted[k] in multiset(pool);
      var j :| 0 <= j < |pool| && pool[j] == sorted[k];
    }
  }

  /** `process_delete` for node `i`, as the list it leaves. */
  method RepairedList(graph: Graph, gone: set<nat>, i: nat, rule: Rule) returns (list: seq<nat>)
    requires i < |graph| && forall v :: v in graph[i] ==> v < |graph|
    ensures Repaired(graph, gone, i, rule, list)
  {
    var touched, candidates := CollectCandidates(graph, gone, i);
    if !touched {
      return graph[i];
    }
    var unsorted := PoolOf(candidates, rule.d, i);
    var pool := SortedPool(unsorted);
    SortedFor(unsorted, pool, i, rule.d);
    assert RepairPool(graph, gone, i, rule, pool);
    var cut, result, choices := OccludeList(pool, rule);
    list := Keep(result, {i} + gone);
    assert result == ChosenOf(cut, choices);
    assert Kept(pool, gone, i, rule, list);
  }

  /** The repair of a list depends on that list and those of the deleted nodes only, so that the
      repairs of different nodes can be done in any order. */
  lemma RepairIsLocal(graph: Graph, other: Graph, gone: set<nat>, i: nat, rule: Rule, list: seq<nat>)
    requires i < |graph| == |other| && graph[i] == other[i] && Repaired(graph, gone, i, rule, list)
    requires forall w :: 0 <= w < |graph| && w in gone ==> graph[w] == other[w]
    ensures Repaired(other, gone, i, rule, list)
  {
    CandidatesAgree(graph, other, gone, i);
    if Touched(graph[i], gone) {
      hide Kept, PoolFor, HasId, Candidate;
      var pool :| RepairPool(graph, gone, i, rule, pool) && Kept(pool, gone, i, rule, list);
      assert RepairPool(other, gone, i, rule, pool);
    }
  }

  lemma CandidatesAgree(graph: Graph, other: Graph, gone: set<nat>, i: nat)
    requires i < |graph| == |other| && graph[i] == other[i]
    requires forall w :: 0 <= w < |graph| && w in gone ==> graph[w] == other[w]
    ensures forall v :: Candidate(graph, gone, i, v) <==> Candidate(other, gone, i, v)
  {
    forall v, w | w in graph[i] && w in gone
      ensures Edge(graph, w, v) <==> Edge(other, w, v)
    {
    }
  }

  /** Once the lists of all nodes but those that go are repaired, no edge leads to the latter. */
  lemma RepairsKeep(graph: Graph, nodes: set<nat>, gone: set<nat>, rule: Rule, graph': Graph)
    requires GraphOk(graph, nodes) && |graph'| == |graph|
    requires forall u {:trigger graph'[u]} :: u in nodes && u !in gone && u < |graph| ==>
      Repaired(graph, gone, u, rule, graph'[u])
    ensures GraphOk(graph', nodes - gone)
    ensures forall b {:trigger DegreesWithin(graph', nodes - gone, b)} ::
      DegreesWithin(graph, nodes, b) && rule.range <= b ==> DegreesWithin(graph', nodes - gone, b)
  {
    hide Repaired;
    forall u {:trigger graph'[u]} | u in nodes - gone
      ensures ListOk(graph'[u], nodes - gone)
    {
      assert ListOk(graph[u], nodes) && Repaired(graph, gone, u, rule, graph'[u]);
      RepairedOk(graph, nodes, gone, u, rule, graph'[u]);
    }
    forall b | DegreesWithin(graph, nodes, b) && rule.range <= b
      ensures DegreesWithin(graph', nodes - gone, b)
    {
      forall u {:trigger graph'[u]} | u in nodes - gone && u < |graph'|
        ensures |graph'[u]| <= b
      {
        assert |graph[u]| <= b && Repaired(graph, gone, u, rule, graph'[u]);
        RepairedOk(graph, nodes, gone, u, rule, graph'[u]);
      }
    }
  }

  lemma RepairedOk(graph: Graph, nodes: set<nat>, gone: set<nat>, u: nat, rule: Rule, list: seq<nat>)
    requires GraphOk(graph, nodes) && u in nodes && u < |graph| && Repaired(graph, gone, u, rule, list)
    ensures ListOk(list, nodes - gone) && (|list| <= rule.range || list == graph[u])
  {
    assert ListOk(graph[u], nodes);
    if Touched(graph[u], gone) {
      RepairedFacts(graph, gone, u, rule, list);
      hide Repaired;
      forall v | v in list
        ensures v in nodes - gone
      {
        if v !in graph[u] {
          var w :| w in graph[u] && w in gone && Edge(graph, w, v);
          assert ListOk(graph[w], nodes);
        }
      }
    }
  }

  // Linking a new point.

  /** Erase the entries of a pool whose ids are to be dropped. */
  method RemoveFrom(pool0: seq<Neighbor>, drop: set<nat>) returns (pool: seq<Neighbor>)
    ensures Distinct(pool0) ==> Distinct(pool)
    ensures forall v :: HasId(pool, v) <==> HasId(pool0, v) && v !in drop
    ensures forall k :: 0 <= k < |pool| ==> pool[k] in pool0 && pool[k].id !in drop
  {
    pool := pool0;
    var i := 0;
    while i < |pool|
      invariant 0 <= i <= |pool|
      invariant forall k :: 0 <= k < |pool| ==> pool[k] in pool0
      invariant Distinct(pool0) ==> Distinct(pool)
      invariant forall v :: v !in drop ==> (HasId(pool, v) <==> HasId(pool0, v))
      invariant forall v :: HasId(pool, v) ==> HasId(pool0, v)
      invariant forall k :: 0 <= k < i ==> pool[k].id !in drop
      decreases |pool| - i
    {
      if pool[i].id in drop {
        EraseIds(pool, i);
        pool := pool[..i] + pool[i + 1..];
      } else {
        i := i + 1;
      }
    }
  }

  lemma EraseIds(pool: seq<Neighbor>, i: nat)
    requires i < |pool|
    ensures forall v :: v != pool[i].id ==> (HasId(pool, v) <==> HasId(pool[..i] + pool[i + 1..], v))
    ensures forall v :: HasId(pool[..i] + pool[i + 1..], v) ==> HasId(pool, v)
    ensures Distinct(pool) ==> Distinct(pool[..i] + pool[i + 1..])
  {
    var rest := pool[..i] + pool[i + 1..];
    forall v | HasId(rest, v)
      ensures HasId(pool, v)
    {
      var k :| 0 <= k < |rest| && rest[k].id == v;
      assert pool[if k < i then k else k + 1].id == v;
    }
    forall v | v != pool[i].id && HasId(pool, v)
      ensures HasId(rest, v)
    {
      var k :| 0 <= k < |pool| && pool[k].id == v;
      assert rest[if k < i then k else k - 1].id == v;
    }
  }

  /** The pool of the ids of a list, each once, without the owner. */
  method PoolOfList(list: seq<nat>, d: Distance, owner: nat) returns (pool: seq<Neighbor>)
    ensures Distinct(pool) && forall v :: HasId(pool, v) <==> v in list && v != owner
    ensures forall k :: 0 <= k < |pool| ==> pool[k].distance == d(owner, pool[k].id)
  {
    pool := [];
    var visited: set<nat> := {};
    for k := 0 to |list|
      invariant Distinct(pool) && forall v :: v in visited <==> HasId(pool, v)
      invariant forall v :: v in visited <==> v in list[..k] && v != owner
      invariant forall j :: 0 <= j < |pool| ==> pool[j].distance == d(owner, pool[j].id)
    {
      if list[k] !in visited && list[k] != owner {
        ReportNext(pool, visited, Neighbor(list[k], d(owner, list[k]), true));
        pool, visited := pool + [Neighbor(list[k], d(owner, list[k]), true)], visited + {list[k]};
      }
    }
    assert list[..|list|] == list;
  }

  /** 1.3 times the range, rounded down. */
  function Slack(range: nat): (r: nat)
    ensures 10 * r <= 13 * range < 10 * (r + 1)
  {
    13 * range / 10
  }

  ghost predicate LinkPool(list: seq<nat>, n: nat, owner: nat, rule: Rule, pool: seq<Neighbor>) {
    PoolFor(pool, owner, rule.d) && forall v :: HasId(pool, v) <==> v != owner && (v in list || v == n)
  }

  /** What `inter_insert` does to the list of `owner`, a neighbour of the new point `n`. */
  ghost predicate LinkedBack(list: seq<nat>, n: nat, owner: nat, rule: Rule, list': seq<nat>) {
    if n in list then list' == list
    else if |list| < Slack(rule.range) then list' == list + [n]
    else exists pool :: LinkPool(list, n, owner, rule, pool) && PrunedTo(pool, owner, rule, list')
  }

  /** The new point `n` has its neighbours linked back, and nothing else has changed. */
  ghost predicate Linked(graph: Graph, n: nat, rule: Rule, graph': Graph) {
    && |graph'| == |graph| && n < |graph|
    && forall u :: 0 <= u < |graph| && u != n ==>
         if u in graph'[n] then LinkedBack(graph[u], n, u, rule, graph'[u]) else graph'[u] == graph[u]
  }

  /** The neighbours of a new point while there are few points: the start, and the first live ones. */
  ghost predicate Firsts(list: seq<nat>, start: nat, live: set<nat>, range: nat) {
    && 0 < |list| <= range && list[0] == start
    && (forall k :: 1 <= k < |list| ==> list[k] in live)
    && (forall j, k :: 1 <= j < k < |list| ==> list[j] < list[k])
    && (forall v :: v in live && v !in list ==> |list| == range && forall k :: 1 <= k < |list| ==> list[k] < v)
  }

  ghost function NodesOf(pool: seq<Neighbor>): set<nat> {
    set e | e in pool :: e.id
  }

  /** What the search for the neighbours of `n` may prune: the expanded locations, among them all those of
      a fixed point of the search from the start and all from which a location was met, but neither `n` itself nor
      deleted ones. */
  ghost predicate SearchPool(graph: Graph, n: nat, rule: Rule, L: nat, start: nat, gone: set<nat>,
                             pool: seq<Neighbor>) {
    && Sorted(pool) && Distinct(pool) && HasId(pool, start)
    && (forall k :: 0 <= k < |pool| ==>
         pool[k].distance == rule.d(pool[k].id, n) && pool[k].id != n && pool[k].id !in gone)
    && exists best, seen :: SearchDone(best, seen, graph, DistancesTo(rule.d, n, |graph|), L) &&
         start in seen && Traced({start}, NodesOf(pool) + {n} + gone, graph, seen) &&
         (forall v :: v in NodesOf(pool) ==> Explored(v, graph, seen)) &&
         forall v :: HasId(best, v) && v != n && v !in gone ==> HasId(pool, v)
  }

  ghost function DistancesTo(d: Distance, n: nat, size: nat): seq<real> {
    seq(size, i requires 0 <= i => d(i, n))
  }

  /** The neighbours of a new point otherwise: what pruning leaves of the locations found. */
  ghost predicate Found(graph: Graph, n: nat, rule: Rule, L: nat, start: nat, gone: set<nat>, list: seq<nat>) {
    exists pool :: SearchPool(graph, n, rule, L, start, gone, pool) && PrunedTo(pool, n, rule, list)
  }

  lemma FoundFacts(graph: Graph, n: nat, rule: Rule, L: nat, start: nat, gone: set<nat>, list: seq<nat>)
    requires Found(graph, n, rule, L, start, gone, list)
    ensures NoRepeats(list) && |list| <= rule.range && forall v :: v in list ==> v != n && v !in gone
    ensures rule.range > 0 && rule.maxc > 0 && rule.alpha >= 1.0 ==> list != []
  {
    hide PrunedTo, SearchDone;
    var pool :| SearchPool(graph, n, rule, L, start, gone, pool) && PrunedTo(pool, n, rule, list);
    PrunedFacts(pool, n, rule, list);
  }

  method LinkBack(list: seq<nat>, n: nat, owner: nat, rule: Rule) returns (list': seq<nat>)
    requires n != owner || n in list
    ensures LinkedBack(list, n, owner, rule, list')
  {
    hide PrunedTo;
    if n in list {
      return list;
    }
    if |list| < Slack(rule.range) {
      return list + [n];
    }
    var unsorted := PoolOfList(list + [n], rule.d, owner);
    assert HasId(unsorted, n);
    var pool := SortedPool(unsorted);
    SortedFor(unsorted, pool, owner, rule.d);
    assert LinkPool(list, n, owner, rule, pool);
    assert HasId(pool, n);
    var r := PruneNeighbors(owner, pool, rule);
    list' := r.ids;
  }

  lemma LinkedBackOk(list: seq<nat>, n: nat, owner: nat, rule: Rule, list': seq<nat>, nodes: set<nat>)
    requires LinkedBack(list, n, owner, rule, list') && ListOk(list, nodes) && n in nodes
    ensures ListOk(list', nodes) && |list'| <= if |list| < Slack(rule.range) then Slack(rule.range) else |list|
  {
    if n !in list && |list| >= Slack(rule.range) {
      hide PrunedTo;
      var pool :| LinkPool(list, n, owner, rule, pool) && PrunedTo(pool, owner, rule, list');
      PrunedFacts(pool, owner, rule, list');
    }
  }
}
