/** `Index::iterate_to_fixed_point`: greedy search of the in-memory graph with a bounded pool. */
module BeamSearch {
  import opened NeighborPool
  import opened Sets

  type Graph = seq<seq<nat>>

  /** `OutOfRange` stands for the exception thrown at an id that is not a location. */
  datatype Outcome = Done | OutOfRange(id: nat)

  /** Every entry carries the distance of its location from the query. */
  ghost predicate Measured(pool: seq<Neighbor>, dist: seq<real>) {
    forall i :: 0 <= i < |pool| ==> pool[i].id < |dist| && pool[i].distance == dist[pool[i].id]
  }

  /** The pool holds only locations met so far, and one that was met but is not in the pool lost
      to a full pool of entries at least as close. */
  ghost predicate Closest(pool: seq<Neighbor>, seen: set<nat>, dist: seq<real>, L: nat) {
    && |pool| <= L
    && (forall i :: 0 <= i < |pool| ==> pool[i].id in seen)
    && (forall v :: v in seen ==> v < |dist|)
    && (forall v {:trigger HasId(pool, v)} :: v in seen && v < |dist| && !HasId(pool, v) ==>
         |pool| == L > 0 && dist[v] >= pool[L - 1].distance)
  }

  ghost predicate PoolInvariant(pool: seq<Neighbor>, seen: set<nat>, dist: seq<real>, L: nat) {
    Sorted(pool) && Distinct(pool) && Measured(pool, dist) && Closest(pool, seen, dist, L)
  }

  /** All out-neighbours of `v` have been met. */
  ghost predicate Explored(v: nat, graph: Graph, seen: set<nat>) {
    v < |graph| && forall m :: 0 <= m < |graph[v]| ==> graph[v][m] in seen
  }

  /** Ids of the entries that have been expanded. */
  ghost function Cleared(pool: seq<Neighbor>): set<nat> {
    set i | 0 <= i < |pool| && !pool[i].flag :: pool[i].id
  }

  ghost predicate AllExplored(ids: set<nat>, graph: Graph, seen: set<nat>) {
    forall v :: v in ids ==> Explored(v, graph, seen)
  }

  ghost predicate Edge(graph: Graph, u: nat, v: nat) {
    u < |graph| && v in graph[u]
  }

  ghost predicate IsPath(graph: Graph, p: seq<nat>) {
    |p| > 0 && forall i, j :: 0 <= i < |p| && 0 <= j < |p| && j == i + 1 ==> Edge(graph, p[i], p[j])
  }

  /** `v` can be reached from a seed along edges. */
  ghost predicate Reachable(graph: Graph, seeds: set<nat>, v: nat) {
    exists p :: IsPath(graph, p) && p[0] in seeds && p[|p| - 1] == v
  }

  lemma ReachEdge(graph: Graph, seeds: set<nat>, u: nat, m: nat)
    requires Reachable(graph, seeds, u) && u < |graph| && m < |graph[u]|
    ensures Reachable(graph, seeds, graph[u][m])
  {
    var p :| IsPath(graph, p) && p[0] in seeds && p[|p| - 1] == u;
    var q := p + [graph[u][m]];
    assert IsPath(graph, q) && q[0] in seeds && q[|q| - 1] == graph[u][m];
  }

  lemma ReachSeed(graph: Graph, seeds: set<nat>, v: nat)
    requires v in seeds
    ensures Reachable(graph, seeds, v)
  {
    assert IsPath(graph, [v]) && [v][0] in seeds && [v][|[v]| - 1] == v;
  }

  /** Meeting a location that a full pool has no use for. */
  lemma RejectKeeps(pool: seq<Neighbor>, seen: set<nat>, dist: seq<real>, L: nat, v: nat)
    requires PoolInvariant(pool, seen, dist, L) && v < |dist|
    requires |pool| == L > 0 && dist[v] >= pool[L - 1].distance
    ensures PoolInvariant(pool, seen + {v}, dist, L)
  {
  }

  lemma InsertedIds(s: seq<Neighbor>, r: nat, nn: Neighbor)
    requires r <= |s|
    ensures var t := Inserted(s, r, nn);
      && |t| == |s| + 1 && t[r] == nn
      && (forall i :: 0 <= i < r ==> t[i] == s[i])
      && (forall i :: r <= i < |s| ==> t[i + 1] == s[i])
      && (forall i :: r < i < |t| ==> t[i] == s[i - 1])
  {
  }

  lemma InsertedHasIds(s: seq<Neighbor>, r: nat, nn: Neighbor)
    requires r <= |s|
    ensures forall v :: HasId(Inserted(s, r, nn), v) <==> v == nn.id || HasId(s, v)
  {
    var t := Inserted(s, r, nn);
    InsertedIds(s, r, nn);
    forall v | v == nn.id || HasId(s, v)
      ensures HasId(t, v)
    {
      if v == nn.id {
        assert t[r].id == v;
      } else {
        var i :| 0 <= i < |s| && s[i].id == v;
        assert t[if i < r then i else i + 1].id == v;
      }
    }
  }

  lemma InsertedDistinct(s: seq<Neighbor>, r: nat, nn: Neighbor)
    requires r <= |s| && Distinct(s) && !HasId(s, nn.id)
    ensures Distinct(Inserted(s, r, nn))
  {
    InsertedIds(s, r, nn);
  }

  /** Meeting a location and inserting it, while there is room. */
  lemma InsertWithRoom(pool: seq<Neighbor>, seen: set<nat>, dist: seq<real>, L: nat, nn: Neighbor, r: nat)
    requires PoolInvariant(pool, seen, dist, L) && nn.id !in seen && nn.id < |dist| && nn.distance == dist[nn.id]
    requires r <= |pool| < L && Sorted(Inserted(pool, r, nn))
    ensures PoolInvariant(Inserted(pool, r, nn), seen + {nn.id}, dist, L)
  {
    InsertedIds(pool, r, nn);
    InsertedHasIds(pool, r, nn);
    InsertedDistinct(pool, r, nn);
  }

  /** Dropping the worst entry of an overfull pool. */
  lemma DropWorst(t: seq<Neighbor>, seen: set<nat>, dist: seq<real>, L: nat)
    requires Sorted(t) && Distinct(t) && Measured(t, dist) && |t| == L + 1 && L > 0
    requires forall i :: 0 <= i < |t| ==> t[i].id in seen
    requires forall v :: v in seen ==> v < |dist| && (HasId(t, v) || dist[v] >= t[L].distance)
    ensures PoolInvariant(t[..L], seen, dist, L)
  {
    assert t[L - 1].distance <= t[L].distance;
    forall v | v in seen && dist[v] < t[L - 1].distance
      ensures HasId(t[..L], v)
    {
      var i :| 0 <= i < |t| && t[i].id == v;
      assert t[..L][i].id == v;
    }
  }

  /** Meeting a location that belongs into a full pool. */
  lemma InsertWhenFull(pool: seq<Neighbor>, seen: set<nat>, dist: seq<real>, L: nat, nn: Neighbor, r: nat)
    requires PoolInvariant(pool, seen, dist, L) && nn.id !in seen && nn.id < |dist| && nn.distance == dist[nn.id]
    requires |pool| == L > 0 && nn.distance < pool[L - 1].distance
    requires r <= |pool| && Sorted(Inserted(pool, r, nn))
    ensures PoolInvariant(Inserted(pool, r, nn)[..L], seen + {nn.id}, dist, L)
    ensures r < L
  {
    InsertedIds(pool, r, nn);
    InsertedHasIds(pool, r, nn);
    InsertedDistinct(pool, r, nn);
    DropWorst(Inserted(pool, r, nn), seen + {nn.id}, dist, L);
  }

  /** The search ends only where a further expansion finds nothing: each out-neighbour of a pool
      member is in the pool or is no closer than the worst entry of a full pool. */
  ghost predicate FixedPoint(pool: seq<Neighbor>, graph: Graph, dist: seq<real>, L: nat) {
    forall i, m :: 0 <= i < |pool| && pool[i].id < |graph| && 0 <= m < |graph[pool[i].id]| ==>
      var w := graph[pool[i].id][m];
      w < |dist| && (HasId(pool, w) || (|pool| == L > 0 && dist[w] >= pool[L - 1].distance))
  }

  lemma AllExploredIsFixedPoint(pool: seq<Neighbor>, graph: Graph, seen: set<nat>, dist: seq<real>, L: nat)
    requires Closest(pool, seen, dist, L)
    requires forall i :: 0 <= i < |pool| ==> Explored(pool[i].id, graph, seen)
    ensures FixedPoint(pool, graph, dist, L)
  {
  }

  /** A pool that never filled up is the exact answer: it holds the reachable locations. */
  lemma {:induction false} UnfilledPoolIsExact(pool: seq<Neighbor>, graph: Graph, seeds: set<nat>, dist: seq<real>,
                                               L: nat, p: seq<nat>)
    requires FixedPoint(pool, graph, dist, L) && |pool| < L
    requires forall v :: v in seeds ==> HasId(pool, v)
    requires IsPath(graph, p) && p[0] in seeds
    ensures HasId(pool, p[|p| - 1])
    decreases |p|
  {
    if |p| > 1 {
      var q := p[..|p| - 1];
      UnfilledPoolIsExact(pool, graph, seeds, dist, L, q);
      var u := q[|q| - 1];
      var i :| 0 <= i < |pool| && pool[i].id == u;
      assert Edge(graph, u, p[|p| - 1]);
      var m :| 0 <= m < |graph[u]| && graph[u][m] == p[|p| - 1];
      assert graph[pool[i].id][m] == p[|p| - 1];
    }
  }

  /** Ids of the entries still waiting to be expanded. */
  ghost function Waiting(pool: seq<Neighbor>): set<nat> {
    set i | 0 <= i < |pool| && pool[i].flag :: pool[i].id
  }

  lemma ClearedWaiting(pool: seq<Neighbor>, k: nat)
    requires Distinct(pool) && k < |pool| && pool[k].flag
    ensures Waiting(pool[k := pool[k].(flag := false)]) < Waiting(pool)
  {
    var pool' := pool[k := pool[k].(flag := false)];
    assert pool[k].id in Waiting(pool);
    assert pool[k].id !in Waiting(pool');
    forall x | x in Waiting(pool')
      ensures x in Waiting(pool)
    {
      var i :| 0 <= i < |pool'| && pool'[i].flag && pool'[i].id == x;
      assert pool[i].flag && pool[i].id == x;
    }
  }

  lemma ClearKeeps(pool: seq<Neighbor>, seen: set<nat>, dist: seq<real>, L: nat, k: nat)
    requires PoolInvariant(pool, seen, dist, L) && k < |pool|
    ensures PoolInvariant(pool[k := pool[k].(flag := false)], seen, dist, L)
  {
    var pool' := pool[k := pool[k].(flag := false)];
    forall v | HasId(pool, v)
      ensures HasId(pool', v)
    {
      var i :| 0 <= i < |pool| && pool[i].id == v;
      assert pool'[i].id == v;
    }
  }

  lemma InsertedMultiset(s: seq<Neighbor>, r: nat, nn: Neighbor)
    requires r <= |s|
    ensures multiset(Inserted(s, r, nn)) == multiset(s) + multiset{nn}
  {
    assert s == s[..r] + s[r..];
  }

  lemma OnceOnly(s: seq<Neighbor>, x: Neighbor)
    requires Distinct(s)
    ensures multiset(s)[x] <= 1
  {
    if x in s {
      var a :| 0 <= a < |s| && s[a] == x;
      assert s == s[..a] + [x] + s[a + 1..];
    }
  }

  /** A rearrangement of distinct entries is distinct. */
  lemma RearrangedDistinct(s: seq<Neighbor>, t: seq<Neighbor>)
    requires Distinct(s) && multiset(s) == multiset(t)
    ensures Distinct(t)
  {
    forall i, j | 0 <= i < j < |t|
      ensures t[i].id != t[j].id
    {
      assert t[i] in multiset(t) && t[j] in multiset(t);
      if t[i] == t[j] {
        assert t == t[..j] + t[j..] && t[..j][i] == t[j] && t[j..][0] == t[j];
        OnceOnly(s, t[j]);
      }
    }
  }

  /** `std::sort` of the first `l` entries by distance. The order of equal distances is open. */
  method SortPool(best: array<Neighbor>, l: nat)
    requires l <= best.Length
    modifies best
    ensures Sorted(best[..l]) && best[l..] == old(best[l..])
    ensures multiset(best[..l]) == multiset(old(best[..l]))
  {
    for k := 0 to l
      invariant Sorted(best[..k]) && best[k..] == old(best[k..])
      invariant multiset(best[..k]) == multiset(old(best[..k]))
    {
      SiftDown(best, k);
      assert old(best[..k + 1]) == old(best[..k]) + [old(best[k])];
    }
  }

  method SiftDown(best: array<Neighbor>, k: nat)
    requires k < best.Length && Sorted(best[..k])
    modifies best
    ensures Sorted(best[..k + 1]) && best[k + 1..] == old(best[k + 1..])
    ensures multiset(best[..k + 1]) == multiset(old(best[..k])) + multiset{old(best[k])}
  {
    var r, x := k, best[k];
    while r > 0 && best[r - 1].distance > x.distance
      invariant 0 <= r <= k
      invariant forall i :: r <= i < k ==> best[i].distance > x.distance
    {
      r := r - 1;
    }
    InsertedSorted(best[..k], r, x);
    InsertedMultiset(best[..k], r, x);
    PutAt(best, k, r, x);
  }

  ghost predicate Fresh(pool: seq<Neighbor>) {
    forall i :: 0 <= i < |pool| ==> pool[i].flag
  }

  ghost predicate SeedPool(pool: seq<Neighbor>, seeds: set<nat>, dist: seq<real>) {
    && Distinct(pool) && Measured(pool, dist) && Fresh(pool)
    && (forall v :: v in seeds <==> HasId(pool, v))
  }

  lemma AddSeed(pool: seq<Neighbor>, seeds: set<nat>, dist: seq<real>, id: nat)
    requires SeedPool(pool, seeds, dist) && id < |dist| && id !in seeds
    ensures SeedPool(pool + [Neighbor(id, dist[id], true)], seeds + {id}, dist)
  {
    var pool' := pool + [Neighbor(id, dist[id], true)];
    forall v | v in seeds + {id}
      ensures HasId(pool', v)
    {
      if v == id {
        assert pool'[|pool|].id == v;
      } else {
        var i :| 0 <= i < |pool| && pool[i].id == v;
        assert pool'[i].id == v;
      }
    }
  }

  lemma SortedSeedPool(pool: seq<Neighbor>, pool': seq<Neighbor>, seeds: set<nat>, dist: seq<real>, L: nat)
    requires SeedPool(pool, seeds, dist) && multiset(pool) == multiset(pool') && Sorted(pool') && |pool'| <= L
    ensures PoolInvariant(pool', seeds, dist, L) && Fresh(pool')
    ensures forall v :: v in seeds ==> HasId(pool', v)
  {
    RearrangedDistinct(pool, pool');
    assert forall x :: x in pool <==> x in multiset(pool);
    assert forall x :: x in pool' <==> x in multiset(pool');
    assert forall i :: 0 <= i < |pool'| ==> pool'[i] in pool;
    forall v | v in seeds
      ensures HasId(pool', v)
    {
      var i :| 0 <= i < |pool| && pool[i].id == v;
      assert pool[i] in pool';
    }
  }

  method AppendSeed(best: array<Neighbor>, l: nat, id: nat, ghost seen: set<nat>, dist: seq<real>)
    requires l < best.Length && SeedPool(best[..l], seen, dist) && id < |dist| && id !in seen
    modifies best
    ensures SeedPool(best[..l + 1], seen + {id}, dist)
  {
    ghost var s := best[..l];
    AddSeed(s, seen, dist, id);
    best[l] := Neighbor(id, dist[id], true);
    assert best[..l + 1] == s + [Neighbor(id, dist[id], true)];
  }

  /** The initial candidates, the first `L` different ids, in the order given. */
  method CollectSeeds(initIds: seq<nat>, dist: seq<real>, L: nat, best: array<Neighbor>)
      returns (outcome: Outcome, l: nat, seen: set<nat>)
    requires 1 <= L < best.Length
    modifies best
    ensures l <= L
    ensures outcome.OutOfRange? ==> outcome.id in initIds && outcome.id >= |dist|
    ensures forall v :: v in seen ==> v in initIds
    ensures outcome.Done? ==>
      && SeedPool(best[..l], seen, dist) && |seen| == l
      && (l == L || forall v :: v in initIds ==> v in seen)
  {
    l, seen, outcome := 0, {}, Done;
    for n := 0 to |initIds|
      invariant l < L && |seen| == l && SeedPool(best[..l], seen, dist)
      invariant forall v :: v in seen ==> v in initIds
      invariant forall j :: 0 <= j < n ==> initIds[j] in seen
    {
      var id := initIds[n];
      if id >= |dist| {
        return OutOfRange(id), l, seen;
      }
      if id !in seen {
        AppendSeed(best, l, id, seen, dist);
        l, seen := l + 1, seen + {id};
      }
      if l == L {
        break;
      }
    }
  }

  /** The sorted initial pool. */
  method SeedFrom(initIds: seq<nat>, dist: seq<real>, L: nat, best: array<Neighbor>)
      returns (outcome: Outcome, l: nat, seen: set<nat>)
    requires 1 <= L < best.Length
    modifies best
    ensures l <= L && forall v :: v in seen ==> v in initIds
    ensures outcome.OutOfRange? ==> outcome.id in initIds && outcome.id >= |dist|
    ensures outcome.Done? ==>
      && PoolInvariant(best[..l], seen, dist, L) && Fresh(best[..l]) && |seen| == l
      && (forall v :: v in seen ==> HasId(best[..l], v))
      && (l == L || forall v :: v in initIds ==> v in seen)
  {
    outcome, l, seen := CollectSeeds(initIds, dist, L, best);
    if outcome.Done? {
      ghost var s := best[..l];
      SortPool(best, l);
      SortedSeedPool(s, best[..l], seen, dist, L);
    }
  }

  lemma InsertedCleared(s: seq<Neighbor>, r: nat, nn: Neighbor, L: nat)
    requires r <= |s| && nn.flag
    ensures Cleared(Inserted(s, r, nn)) <= Cleared(s)
    ensures L <= |s| ==> Cleared(Inserted(s, r, nn)[..L]) <= Cleared(s)
  {
    InsertedIds(s, r, nn);
  }

  lemma InsertedWaiting(s: seq<Neighbor>, r: nat, nn: Neighbor, L: nat)
    requires r <= |s|
    ensures Waiting(Inserted(s, r, nn)) <= Waiting(s) + {nn.id}
    ensures L <= |s| ==> Waiting(Inserted(s, r, nn)[..L]) <= Waiting(s) + {nn.id}
  {
    InsertedIds(s, r, nn);
  }

  /** Entries before the cursor's return point, and up to the expanded one, are expanded. */
  ghost predicate BehindCursor(pool: seq<Neighbor>, k: nat, nk: nat) {
    forall i :: 0 <= i < nk && i <= k && i < |pool| ==> !pool[i].flag
  }

  ghost function Min(a: nat, b: nat): nat {
    if a < b then a else b
  }

  lemma BehindInserted(pool: seq<Neighbor>, r: nat, nn: Neighbor, k: nat, nk: nat, n: nat)
    requires r <= |pool| && nk <= |pool| && BehindCursor(pool, k, nk) && n <= |pool| + 1
    ensures BehindCursor(Inserted(pool, r, nn)[..n], k, Min(nk, r))
  {
    InsertedIds(pool, r, nn);
  }

  /** What inserting a new location does to the pool: it grows by one while there is room, and
      drops its worst entry when full. */
  lemma InsertEffects(pool: seq<Neighbor>, r: nat, nn: Neighbor, k: nat, nk: nat, seen: set<nat>, dist: seq<real>,
                      L: nat)
    requires PoolInvariant(pool, seen, dist, L) && nn.flag && nn.id !in seen && nn.id < |dist|
    requires nn.distance == dist[nn.id]
    requires 0 < |pool| && (|pool| == L ==> nn.distance < pool[L - 1].distance)
    requires r <= |pool| && Sorted(Inserted(pool, r, nn)) && nk <= |pool| && BehindCursor(pool, k, nk)
    ensures var pool' := Inserted(pool, r, nn)[..if |pool| < L then |pool| + 1 else |pool|];
      && PoolInvariant(pool', seen + {nn.id}, dist, L) && BehindCursor(pool', k, Min(nk, r))
      && Cleared(pool') <= Cleared(pool) && Waiting(pool') <= Waiting(pool) + {nn.id}
  {
    var t := Inserted(pool, r, nn);
    InsertedCleared(pool, r, nn, |pool|);
    InsertedWaiting(pool, r, nn, |pool|);
    if |pool| < L {
      BehindInserted(pool, r, nn, k, nk, |pool| + 1);
      InsertWithRoom(pool, seen, dist, L, nn, r);
      assert t[..|pool| + 1] == t;
    } else {
      BehindInserted(pool, r, nn, k, nk, |pool|);
      InsertWhenFull(pool, seen, dist, L, nn, r);
    }
  }

  /** An insertion whose id is new never returns `K + 1`. The caller goes on with `l'` entries. */
  method InsertFresh(best: array<Neighbor>, l: nat, nn: Neighbor, ghost l': nat) returns (r: nat)
    requires 1 <= l < best.Length && l' <= l + 1 && Sorted(best[..l]) && !HasId(best[..l], nn.id)
    modifies best
    ensures r <= l && Sorted(Inserted(old(best[..l]), r, nn))
    ensures best[..l'] == Inserted(old(best[..l]), r, nn)[..l']
  {
    r := InsertIntoPool(best, l, nn);
    assert best[..l'] == best[..l + 1][..l'];
  }

  lemma NotInPool(pool: seq<Neighbor>, seen: set<nat>, dist: seq<real>, L: nat, id: nat)
    requires Closest(pool, seen, dist, L) && id !in seen
    ensures !HasId(pool, id)
  {
  }

  /** Meet the location `id` for the first time. */
  method Meet(best: array<Neighbor>, l: nat, id: nat, k: nat, nk: nat, L: nat, ghost seen: set<nat>, dist: seq<real>)
      returns (l': nat, nk': nat)
    requires 1 <= l <= L < best.Length && nk <= l
    requires PoolInvariant(best[..l], seen, dist, L) && id < |dist| && id !in seen
    requires BehindCursor(best[..l], k, nk)
    modifies best
    ensures l <= l' <= L && nk' <= nk
    ensures PoolInvariant(best[..l'], seen + {id}, dist, L)
    ensures BehindCursor(best[..l'], k, nk')
    ensures Cleared(best[..l']) <= old(Cleared(best[..l]))
    ensures Waiting(best[..l']) <= old(Waiting(best[..l])) + {id}
  {
    hide Cleared, Waiting, BehindCursor, Closest, HasId, Distinct, Measured;
    ghost var pool := best[..l];
    var nn := Neighbor(id, dist[id], true);
    if nn.distance >= best[l - 1].distance && l == L {
      RejectKeeps(pool, seen, dist, L, id);
      return l, nk;
    }
    NotInPool(pool, seen, dist, L, id);
    l' := if l < L then l + 1 else l;
    var r := InsertFresh(best, l, nn, l');
    InsertEffects(pool, r, nn, k, nk, seen, dist, L);
    nk' := if r < nk then r else nk;
  }

  /** How meeting further locations changes the pool while the entry at `k` is being expanded. */
  ghost predicate Grown(pool0: seq<Neighbor>, seen0: set<nat>, pool: seq<Neighbor>, seen: set<nat>, k: nat, nk: nat,
                        dist: seq<real>, L: nat) {
    && |pool0| <= |pool| && nk <= |pool|
    && PoolInvariant(pool, seen, dist, L) && BehindCursor(pool, k, nk)
    && Cleared(pool) <= Cleared(pool0)
    && Waiting(pool) <= Waiting(pool0) + (seen - seen0)
    && seen0 <= seen && (seen == seen0 ==> pool == pool0 && nk == |pool0|)
  }

  lemma GrownFurther(pool0: seq<Neighbor>, seen0: set<nat>, pool: seq<Neighbor>, seen: set<nat>, nk: nat,
                     pool': seq<Neighbor>, id: nat, nk': nat, k: nat, dist: seq<real>, L: nat)
    requires Grown(pool0, seen0, pool, seen, k, nk, dist, L) && id !in seen
    requires |pool| <= |pool'| && nk' <= nk && PoolInvariant(pool', seen + {id}, dist, L) && BehindCursor(pool', k, nk')
    requires Cleared(pool') <= Cleared(pool) && Waiting(pool') <= Waiting(pool) + {id}
    ensures Grown(pool0, seen0, pool', seen + {id}, k, nk', dist, L)
  {
    assert id in seen + {id} && id !in seen0;
  }

  /** One out-neighbour: it is met unless it has been met before. */
  method MeetUnlessSeen(best: array<Neighbor>, l: nat, id: nat, k: nat, nk: nat, L: nat, seen: set<nat>,
                        dist: seq<real>,
                        ghost pool0: seq<Neighbor>, ghost seen0: set<nat>)
      returns (l': nat, nk': nat, seen': set<nat>, cmps: nat)
    requires k < |pool0| <= l <= L < best.Length && id < |dist|
    requires Grown(pool0, seen0, best[..l], seen, k, nk, dist, L)
    modifies best
    ensures l <= l' <= L && seen' == seen + {id} && cmps == |seen'| - |seen|
    ensures Grown(pool0, seen0, best[..l'], seen', k, nk', dist, L)
  {
    if id in seen {
      assert seen + {id} == seen;
      return l, nk, seen, 0;
    }
    ghost var pool := best[..l];
    l', nk' := Meet(best, l, id, k, nk, L, seen, dist);
    GrownFurther(pool0, seen0, pool, seen, nk, best[..l'], id, nk', k, dist, L);
    seen', cmps := seen + {id}, 1;
  }

  /** The loop over the out-neighbours `nbrs` of the expanded entry, which is at `k`. */
  method Expand(best: array<Neighbor>, l0: nat, k: nat, L: nat, nbrs: seq<nat>, dist: seq<real>, seen0: set<nat>,
                ghost reach: iset<nat>)
      returns (outcome: Outcome, l: nat, nk: nat, seen: set<nat>, cmps: nat)
    requires k < l0 <= L < best.Length
    requires PoolInvariant(best[..l0], seen0, dist, L) && BehindCursor(best[..l0], k, l0)
    requires (forall v :: v in seen0 ==> v in reach) && (forall j :: 0 <= j < |nbrs| ==> nbrs[j] in reach)
    modifies best
    ensures outcome.OutOfRange? ==> outcome.id >= |dist| && outcome.id in nbrs
    ensures outcome.Done? ==>
      && l0 <= l <= L && Grown(old(best[..l0]), seen0, best[..l], seen, k, nk, dist, L)
      && (forall j :: 0 <= j < |nbrs| ==> nbrs[j] in seen) && (forall v :: v in seen ==> v in seen0 || v in nbrs)
      && (forall v :: v in seen ==> v in reach)
      && cmps == |seen| - |seen0|
  {
    l, nk, seen, cmps, outcome := l0, l0, seen0, 0, Done;
    ghost var pool0 := best[..l0];
    for m := 0 to |nbrs|
      invariant l0 <= l <= L && Grown(pool0, seen0, best[..l], seen, k, nk, dist, L)
      invariant forall j :: 0 <= j < m ==> nbrs[j] in seen
      invariant forall v :: v in seen ==> v in reach && (v in seen0 || v in nbrs)
      invariant cmps == |seen| - |seen0|
    {
      if nbrs[m] >= |dist| {
        return OutOfRange(nbrs[m]), l, nk, seen, cmps;
      }
      var some;
      l, nk, seen, some := MeetUnlessSeen(best, l, nbrs[m], k, nk, L, seen, dist, pool0, seen0);
      cmps := cmps + some;
    }
  }

  ghost predicate MetFrom(v: nat, ids: set<nat>, graph: Graph) {
    exists u :: u in ids && u < |graph| && v in graph[u]
  }

  /** Every location met is a seed or an out-neighbour of one of `ids`. */
  ghost predicate Traced(seeds: set<nat>, ids: set<nat>, graph: Graph, seen: set<nat>) {
    forall v {:trigger MetFrom(v, ids, graph)} :: v in seen && v !in seeds ==> MetFrom(v, ids, graph)
  }

  lemma TracedFurther(seeds: set<nat>, ids: set<nat>, graph: Graph, seen: set<nat>, n: nat, seen': set<nat>)
    requires Traced(seeds, ids, graph, seen) && n < |graph| && forall v :: v in seen' ==> v in seen || v in graph[n]
    ensures Traced(seeds, ids + {n}, graph, seen')
  {
    forall v | v in seen' && v !in seeds
      ensures MetFrom(v, ids + {n}, graph)
    {
      if v in seen {
        assert MetFrom(v, ids, graph);
      } else {
        assert n in ids + {n} && v in graph[n];
      }
    }
  }

  lemma TracedBy(seeds: set<nat>, ids: set<nat>, graph: Graph, seen: set<nat>, ids': set<nat>)
    requires Traced(seeds, ids, graph, seen) && ids <= ids'
    ensures Traced(seeds, ids', graph, seen)
  {
    forall v | v in seen && v !in seeds
      ensures MetFrom(v, ids', graph)
    {
      assert MetFrom(v, ids, graph);
    }
  }

  /** What has been reported: locations whose out-neighbours have all been met, each once, with every expanded pool
      entry among them except a frozen start point, and all from which a location was met. */
  ghost predicate Reported(info: seq<Neighbor>, ids: set<nat>, pool: seq<Neighbor>, graph: Graph, dist: seq<real>,
                           seeds: set<nat>, seen: set<nat>, hidden: set<nat>) {
    && Traced(seeds, ids + hidden, graph, seen)
    && ids <= seen && AllExplored(ids, graph, seen) && ids !! Waiting(pool)
    && Distinct(info) && Measured(info, dist)
    && (forall v :: v in ids <==> HasId(info, v))
    && Cleared(pool) <= ids + hidden
  }

  /** Report the entry just cleared. */
  lemma ReportNext(info: seq<Neighbor>, ids: set<nat>, e: Neighbor)
    requires Distinct(info) && e.id !in ids && (forall v :: v in ids <==> HasId(info, v))
    ensures Distinct(info + [e]) && (forall v :: v in ids + {e.id} <==> HasId(info + [e], v))
  {
    var info' := info + [e];
    forall v | v in ids + {e.id}
      ensures HasId(info', v)
    {
      if v == e.id {
        assert info'[|info|].id == v;
      } else {
        var i :| 0 <= i < |info| && info[i].id == v;
        assert info'[i].id == v;
      }
    }
  }

  /** No edge leads out of the set. */
  ghost predicate EdgeClosed(graph: Graph, reach: iset<nat>) {
    forall u, m :: 0 <= u < |graph| && 0 <= m < |graph[u]| && u in reach ==> graph[u][m] in reach
  }

  ghost function ReachSet(graph: Graph, seeds: set<nat>): iset<nat> {
    iset v | Reachable(graph, seeds, v)
  }

  lemma ReachSetClosed(graph: Graph, seeds: set<nat>)
    ensures forall v :: v in seeds ==> v in ReachSet(graph, seeds)
    ensures EdgeClosed(graph, ReachSet(graph, seeds))
  {
    forall v | v in seeds
      ensures Reachable(graph, seeds, v)
    {
      ReachSeed(graph, seeds, v);
    }
    forall u, m | 0 <= u < |graph| && 0 <= m < |graph[u]| && Reachable(graph, seeds, u)
      ensures Reachable(graph, seeds, graph[u][m])
    {
      ReachEdge(graph, seeds, u, m);
    }
  }

  /** The invariant of the search loop with the cursor at `k`. */
  ghost predicate Searching(pool: seq<Neighbor>, k: nat, seen: set<nat>, graph: Graph, dist: seq<real>, L: nat,
                            reach: iset<nat>) {
    && |graph| == |dist| && k <= |pool| && EdgeClosed(graph, reach)
    && PoolInvariant(pool, seen, dist, L)
    && (forall i :: 0 <= i < k ==> !pool[i].flag)
    && AllExplored(Cleared(pool), graph, seen)
    && (forall v :: v in seen ==> v in reach)
  }

  lemma SeenShrinks(graph: Graph, seen: set<nat>, more: set<nat>)
    requires seen < more && forall v :: v in more ==> v < |graph|
    ensures Below(|graph|) - more < Below(|graph|) - seen
  {
    var v :| v in more && v !in seen;
    assert v in Below(|graph|) - seen && v !in Below(|graph|) - more;
  }

  /** Take the flag off the entry under the cursor. */
  method ClearFlag(best: array<Neighbor>, k: nat, l: nat, ghost seen: set<nat>, ghost dist: seq<real>, L: nat)
    requires k < l <= best.Length && best[k].flag && PoolInvariant(best[..l], seen, dist, L)
    modifies best
    ensures best[..l] == old(best[..l])[k := old(best[k]).(flag := false)]
    ensures PoolInvariant(best[..l], seen, dist, L)
    ensures Waiting(best[..l]) <= old(Waiting(best[..l])) - {best[k].id} && best[k].id in old(Waiting(best[..l]))
    ensures Cleared(best[..l]) <= old(Cleared(best[..l])) + {best[k].id}
  {
    ghost var s := best[..l];
    ClearedWaiting(s, k);
    ClearKeeps(s, seen, dist, L, k);
    assert s[k].id in Waiting(s);
    best[k] := best[k].(flag := false);
    assert best[..l] == s[k := s[k].(flag := false)];
  }

  /** The effect of one expansion of location `n` on the search. Either a location was met, or one
      entry less is waiting. */
  ghost predicate Advances(pool: seq<Neighbor>, seen: set<nat>, n: nat, pool': seq<Neighbor>, seen': set<nat>,
                           graph: Graph) {
    && n in Waiting(pool) && seen <= seen' && Explored(n, graph, seen')
    && (forall v :: v in seen' ==> v in seen || v in graph[n])
    && Cleared(pool') <= Cleared(pool) + {n}
    && Waiting(pool') <= Waiting(pool) - {n} + (seen' - seen)
  }

  /** The state after an expansion: everything before the new cursor is expanded. */
  lemma ExpansionKeeps(pool: seq<Neighbor>, k: nat, seen: set<nat>, pool1: seq<Neighbor>, pool': seq<Neighbor>, nk: nat,
                       seen': set<nat>,
                       graph: Graph, dist: seq<real>, L: nat, reach: iset<nat>)
    requires k < |pool| && Searching(pool, k, seen, graph, dist, L, reach) && pool[k].flag
    requires pool1 == pool[k := pool[k].(flag := false)]
    requires Cleared(pool1) <= Cleared(pool) + {pool[k].id}
    requires Waiting(pool1) <= Waiting(pool) - {pool[k].id} && pool[k].id in Waiting(pool)
    requires Grown(pool1, seen, pool', seen', k, nk, dist, L)
    requires Explored(pool[k].id, graph, seen') && forall v :: v in seen' ==> v in seen || v in graph[pool[k].id]
    requires forall v :: v in seen' ==> v in reach
    ensures Searching(pool', if nk <= k then nk else k + 1, seen', graph, dist, L, reach)
    ensures Advances(pool, seen, pool[k].id, pool', seen', graph)
  {
    var n := pool[k].id;
    forall v | v in Cleared(pool')
      ensures Explored(v, graph, seen')
    {
      if v != n {
        assert Explored(v, graph, seen);
      }
    }
  }

  /** Expand the entry under the cursor. */
  method ExpandEntry(best: array<Neighbor>, l: nat, k: nat, L: nat, graph: Graph, dist: seq<real>, seen: set<nat>,
                     ghost reach: iset<nat>)
      returns (outcome: Outcome, l': nat, k': nat, seen': set<nat>, cmps: nat)
    requires k < l <= L < best.Length && best[k].flag
    requires Searching(best[..l], k, seen, graph, dist, L, reach)
    modifies best
    ensures outcome.OutOfRange? ==> outcome.id >= |graph| && outcome.id in reach
    ensures outcome.Done? ==>
      && l' <= L && Searching(best[..l'], k', seen', graph, dist, L, reach)
      && Advances(old(best[..l]), seen, old(best[k].id), best[..l'], seen', graph) && cmps == |seen'| - |seen|
  {
    ghost var pool, n := best[..l], best[k].id;
    ClearFlag(best, k, l, seen, dist, L);
    ghost var pool1 := best[..l];
    var nk;
    outcome, l', nk, seen', cmps := Expand(best, l, k, L, graph[best[k].id], dist, seen, reach);
    k' := if nk <= k then nk else k + 1;
    if outcome.Done? {
      ExpansionKeeps(pool, k, seen, pool1, best[..l'], nk, seen', graph, dist, L, reach);
    }
  }

  lemma AdvanceMeasure(pool: seq<Neighbor>, seen: set<nat>, n: nat, pool': seq<Neighbor>, seen': set<nat>, graph: Graph)
    requires Advances(pool, seen, n, pool', seen', graph) && forall v :: v in seen' ==> v < |graph|
    ensures seen' == seen ==> Waiting(pool') < Waiting(pool)
    ensures seen' != seen ==> Below(|graph|) - seen' < Below(|graph|) - seen
  {
    if seen' != seen {
      SeenShrinks(graph, seen, seen');
    }
  }

  lemma AdvanceReport(info: seq<Neighbor>, ids: set<nat>, pool: seq<Neighbor>, seen: set<nat>, e: Neighbor,
                      pool': seq<Neighbor>, seen': set<nat>,
                      graph: Graph, dist: seq<real>, seeds: set<nat>, hidden: set<nat>)
    requires Advances(pool, seen, e.id, pool', seen', graph) && e.id in seen
    requires e.id < |dist| && e.distance == dist[e.id]
    ensures Reported(info, ids, pool, graph, dist, seeds, seen, hidden) ==>
      Reported(info + [e], ids + {e.id}, pool', graph, dist, seeds, seen', hidden)
    ensures Reported(info, ids, pool, graph, dist, seeds, seen, hidden) && e.id in hidden ==>
      Reported(info, ids, pool', graph, dist, seeds, seen', hidden)
  {
    if Reported(info, ids, pool, graph, dist, seeds, seen, hidden) {
      TracedFurther(seeds, ids + hidden, graph, seen, e.id, seen');
      assert ids + {e.id} + hidden == ids + hidden + {e.id};
      assert e.id in hidden ==> ids + hidden + {e.id} == ids + hidden;
      hide Traced;
      ReportNext(info, ids, e);
      assert forall v :: v in ids ==> Explored(v, graph, seen) && Explored(v, graph, seen');
    }
  }

  ghost predicate SearchDone(pool: seq<Neighbor>, seen: set<nat>, graph: Graph, dist: seq<real>, L: nat) {
    && PoolInvariant(pool, seen, dist, L)
    && FixedPoint(pool, graph, dist, L)
    && (forall i :: 0 <= i < |pool| ==> !pool[i].flag && Explored(pool[i].id, graph, seen))
  }

  lemma SearchEnds(pool: seq<Neighbor>, seen: set<nat>, graph: Graph, dist: seq<real>, L: nat, reach: iset<nat>)
    requires Searching(pool, |pool|, seen, graph, dist, L, reach)
    ensures SearchDone(pool, seen, graph, dist, L)
  {
    forall i | 0 <= i < |pool|
      ensures Explored(pool[i].id, graph, seen)
    {
      assert pool[i].id in Cleared(pool);
    }
    AllExploredIsFixedPoint(pool, graph, seen, dist, L);
  }

  /** The loop of the search, from the sorted seeds on. */
  method SearchLoop(graph: Graph, dist: seq<real>, L: nat, l0: nat, seeds: set<nat>, start: nat, hideStart: bool,
                    searchInvocation: bool,
                    best: array<Neighbor>, ghost reach: iset<nat>)
      returns (outcome: Outcome, l: nat, seen: set<nat>, info: seq<Neighbor>, ids: set<nat>, cmps: nat)
    requires l0 <= L < best.Length && Fresh(best[..l0])
    requires Searching(best[..l0], 0, seeds, graph, dist, L, reach)
    modifies best
    ensures outcome.OutOfRange? ==> outcome.id >= |graph| && outcome.id in reach
    ensures outcome.Done? ==>
      && l <= L && SearchDone(best[..l], seen, graph, dist, L) && cmps == |seen| - |seeds|
      && seeds <= seen && (forall v :: v in seen ==> v in reach)
    ensures outcome.Done? && !searchInvocation ==>
      Reported(info, ids, best[..l], graph, dist, seeds, seen, if hideStart then {start} else {})
    ensures outcome.Done? && !searchInvocation && !hideStart && l0 > 0 ==> old(best[0].id) in ids
  {
    ghost var hidden := if hideStart then {start} else {};
    outcome, l, seen, info, ids, cmps := Done, l0, seeds, [], {}, 0;
    var k: nat := 0;
    while k < l
      invariant outcome.Done? && l <= L && Searching(best[..l], k, seen, graph, dist, L, reach)
      invariant seeds <= seen && cmps == |seen| - |seeds|
      invariant !searchInvocation ==> Reported(info, ids, best[..l], graph, dist, seeds, seen, hidden)
      invariant !searchInvocation && !hideStart && l0 > 0 ==>
        old(best[0].id) in ids || (k == 0 && l == l0 && best[..l] == old(best[..l0]))
      decreases Below(|graph|) - seen, Waiting(best[..l]), l - k
    {
      if best[k].flag {
        var e := best[k].(flag := false);
        var more, some;
        ghost var pool := best[..l];
        outcome, l, k, more, some := ExpandEntry(best, l, k, L, graph, dist, seen, reach);
        if outcome.OutOfRange? {
          return;
        }
        AdvanceReport(info, ids, pool, seen, e, best[..l], more, graph, dist, seeds, hidden);
        if !(e.id == start && hideStart) && !searchInvocation {
          info, ids := info + [e], ids + {e.id};
        }
        AdvanceMeasure(pool, seen, e.id, best[..l], more, graph);
        seen, cmps := more, cmps + some;
      } else {
        k := k + 1;
      }
    }
    SearchEnds(best[..l], seen, graph, dist, L, reach);
  }

  /** The whole search. The last location may be a frozen start point, which is reported among the
      expanded ones only on request. `best` is the caller's scratch vector; its first `l` entries
      are the pool. */
  method IterateToFixedPoint(graph: Graph, dist: seq<real>, L: nat, initIds: seq<nat>,
                             start: nat, hasFrozen: bool, retFrozen: bool, searchInvocation: bool,
                             best: array<Neighbor>)
      returns (outcome: Outcome, l: nat, seen: set<nat>, info: seq<Neighbor>, ids: set<nat>, cmps: nat,
               ghost seeds: set<nat>)
    requires 1 <= L < best.Length && |graph| == |dist|
    modifies best
    ensures forall v :: v in seeds ==> v in initIds
    ensures outcome.OutOfRange? ==>
      outcome.id >= |graph| && (outcome.id in initIds || outcome.id in ReachSet(graph, seeds))
    ensures outcome.Done? ==>
      && l <= L && SearchDone(best[..l], seen, graph, dist, L) && cmps == |seen| - |seeds|
      && seeds <= seen && (forall v :: v in seen ==> v in ReachSet(graph, seeds))
      && (|seeds| == L || forall v :: v in initIds ==> v in seeds)
    ensures outcome.Done? && !searchInvocation ==>
      Reported(info, ids, best[..l], graph, dist, seeds, seen, if hasFrozen && !retFrozen then {start} else {})
    ensures outcome.Done? && !searchInvocation && !(hasFrozen && !retFrozen) && initIds != [] ==> seeds * ids != {}
  {
    info, ids, cmps := [], {}, 0;
    outcome, l, seen := SeedFrom(initIds, dist, L, best);
    seeds := seen;
    if outcome.OutOfRange? {
      return;
    }
    ReachSetClosed(graph, seeds);
    if initIds != [] {
      assert initIds[0] in initIds;
      assert l > 0 && best[..l][0].id in seeds;
    }
    outcome, l, seen, info, ids, cmps := SearchLoop(graph, dist, L, l, seen, start, hasFrozen && !retFrozen,
      searchInvocation, best, ReachSet(graph, seeds));
  }

  /** A search whose pool did not fill up has found exactly what can be reached. */
  lemma UnfilledSearchIsExact(pool: seq<Neighbor>, graph: Graph, seen: set<nat>, seeds: set<nat>, dist: seq<real>,
                              L: nat)
    requires SearchDone(pool, seen, graph, dist, L) && |pool| < L
    requires seeds <= seen && forall v :: v in seen ==> v in ReachSet(graph, seeds)
    ensures forall v :: HasId(pool, v) <==> Reachable(graph, seeds, v)
  {
    forall v | Reachable(graph, seeds, v)
      ensures HasId(pool, v)
    {
      var p :| IsPath(graph, p) && p[0] in seeds && p[|p| - 1] == v;
      UnfilledPoolIsExact(pool, graph, seeds, dist, L, p);
    }
  }
}
