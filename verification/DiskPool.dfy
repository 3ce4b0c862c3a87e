/** The candidate list of the disk searches: `add_to_retset` and `compute_and_push_nbrs`. */
module DiskPool {
  import opened BeamSearch
  import opened NeighborPool
  import opened Sets

  /** What an insertion does to the flags. */
  lemma InsertedFlags(s: seq<Neighbor>, r: nat, nn: Neighbor, n: nat)
    requires r <= |s| && n <= |s| + 1
    ensures Cleared(Inserted(s, r, nn)[..n]) <= Cleared(s) + if nn.flag then {} else {nn.id}
    ensures Waiting(Inserted(s, r, nn)[..n]) <= Waiting(s) + {nn.id}
  {
    InsertedIds(s, r, nn);
  }

  lemma InsertedInvariant(pool: seq<Neighbor>, r: nat, nn: Neighbor, seen: set<nat>, dist: seq<real>, L: nat)
    requires PoolInvariant(pool, seen, dist, L) && nn.id !in seen && nn.id < |dist| && nn.distance == dist[nn.id]
    requires 0 < |pool| && (|pool| == L ==> nn.distance < pool[L - 1].distance)
    requires r <= |pool| && Sorted(Inserted(pool, r, nn))
    ensures var l' := if |pool| < L then |pool| + 1 else |pool|;
      PoolInvariant(Inserted(pool, r, nn)[..l'], seen + {nn.id}, dist, L) && r < l'
  {
    if |pool| < L {
      InsertWithRoom(pool, seen, dist, L, nn, r);
      assert Inserted(pool, r, nn)[..|pool| + 1] == Inserted(pool, r, nn);
    } else {
      InsertWhenFull(pool, seen, dist, L, nn, r);
    }
  }

  /** `add_to_retset` for an id met for the first time; -1 when a full list has no use for it. */
  method AddToRetset(best: array<Neighbor>, l: nat, id: nat, flag: bool, L: nat, dist: seq<real>, ghost seen: set<nat>)
      returns (l': nat, r: int)
    requires 1 <= l <= L < best.Length && PoolInvariant(best[..l], seen, dist, L)
    requires id < |dist| && id !in seen
    modifies best
    ensures l <= l' <= L && PoolInvariant(best[..l'], seen + {id}, dist, L)
    ensures r == -1 ==> l' == l == L && best[..l] == old(best[..l]) && dist[id] >= best[L - 1].distance
    ensures r != -1 ==> 0 <= r < l' && best[r] == Neighbor(id, dist[id], flag)
    ensures Cleared(best[..l']) <= old(Cleared(best[..l])) + if flag then {} else {id}
    ensures Waiting(best[..l']) <= old(Waiting(best[..l])) + {id}
  {
    ghost var pool := best[..l];
    if dist[id] >= best[l - 1].distance && l == L {
      RejectKeeps(pool, seen, dist, L, id);
      return l, -1;
    }
    NotInPool(pool, seen, dist, L, id);
    var nn := Neighbor(id, dist[id], flag);
    l' := if l < L then l + 1 else l;
    r := InsertFresh(best, l, nn, l');
    InsertedInvariant(pool, r, nn, seen, dist, L);
    InsertedFlags(pool, r, nn, l');
    InsertedIds(pool, r, nn);
    assert best[..l'][r] == nn;
  }

  /** The first loop of `compute_and_push_nbrs`: which neighbours are met for the first time. */
  method CollectUnvisited(list: seq<nat>, visited0: set<nat>) returns (nbrs: seq<nat>, visited: set<nat>)
    ensures NoRepeats(nbrs) && visited == visited0 + Members(list)
    ensures forall v :: v in nbrs <==> v in list && v !in visited0
  {
    nbrs, visited := [], visited0;
    for m := 0 to |list|
      invariant NoRepeats(nbrs) && visited == visited0 + Members(list[..m])
      invariant forall v :: v in nbrs <==> v in list[..m] && v !in visited0
    {
      assert list[..m + 1] == list[..m] + [list[m]];
      if list[m] !in visited {
        nbrs, visited := nbrs + [list[m]], visited + {list[m]};
      }
    }
    assert list[..|list|] == list;
  }

  /** The list after a part of an iteration: whatever waits in it waited before or is new. */
  ghost predicate Grows(pool: seq<Neighbor>, seen: set<nat>, pool': seq<Neighbor>, seen': set<nat>) {
    seen <= seen' && Waiting(pool') <= Waiting(pool) + (seen' - seen)
  }

  lemma GrowsFacts(pool: seq<Neighbor>, seen: set<nat>, pool': seq<Neighbor>, seen': set<nat>)
    requires Grows(pool, seen, pool', seen')
    ensures seen <= seen' && (seen == seen' ==> Waiting(pool') <= Waiting(pool))
  {
  }

  /** How meeting more locations may change the list. */
  ghost predicate Extended(pool: seq<Neighbor>, seen: set<nat>, pool': seq<Neighbor>, seen': set<nat>,
                           cleared: set<nat>, dist: seq<real>, L: nat) {
    && |pool| <= |pool'| <= L && seen <= seen' && PoolInvariant(pool', seen', dist, L)
    && Cleared(pool') <= Cleared(pool) + cleared
    && Waiting(pool') <= Waiting(pool) + (seen' - seen)
  }

  lemma ExtendedFurther(pool: seq<Neighbor>, seen: set<nat>, pool1: seq<Neighbor>, seen1: set<nat>, cleared1: set<nat>,
                        pool2: seq<Neighbor>, seen2: set<nat>, cleared2: set<nat>, dist: seq<real>, L: nat)
    requires Extended(pool, seen, pool1, seen1, cleared1, dist, L)
    requires Extended(pool1, seen1, pool2, seen2, cleared2, dist, L)
    ensures Extended(pool, seen, pool2, seen2, cleared1 + cleared2, dist, L)
  {
  }

  /** The second loop: each of them is offered to the list. */
  method AddAll(best: array<Neighbor>, l0: nat, nbrs: seq<nat>, L: nat, dist: seq<real>, ghost seen: set<nat>)
      returns (l: nat)
    requires 1 <= l0 <= L < best.Length && PoolInvariant(best[..l0], seen, dist, L)
    requires NoRepeats(nbrs) && forall v :: v in nbrs ==> v < |dist| && v !in seen
    modifies best
    ensures l0 <= l <= L && Extended(old(best[..l0]), seen, best[..l], seen + Members(nbrs), {}, dist, L)
  {
    l := l0;
    ghost var pool, met := best[..l0], seen;
    for m := 0 to |nbrs|
      invariant l0 <= l <= L && met == seen + Members(nbrs[..m]) && Extended(pool, seen, best[..l], met, {}, dist, L)
    {
      assert nbrs[..m + 1] == nbrs[..m] + [nbrs[m]];
      assert nbrs[m] in nbrs && nbrs[m] !in nbrs[..m];
      ghost var pool1, met1 := best[..l], met;
      var r;
      l, r := AddToRetset(best, l, nbrs[m], true, L, dist, met);
      met := met + {nbrs[m]};
      assert Extended(pool1, met1, best[..l], met, {}, dist, L);
      ExtendedFurther(pool, seen, pool1, met1, {}, best[..l], met, {}, dist, L);
    }
    assert nbrs[..|nbrs|] == nbrs;
  }

  /** `compute_and_push_nbrs` */
  method PushNeighbours(best: array<Neighbor>, l0: nat, list: seq<nat>, L: nat, dist: seq<real>, visited0: set<nat>)
      returns (l: nat, visited: set<nat>)
    requires 1 <= l0 <= L < best.Length && PoolInvariant(best[..l0], visited0, dist, L)
    requires forall v :: v in list ==> v < |dist|
    modifies best
    ensures l0 <= l <= L && visited == visited0 + Members(list)
    ensures Extended(old(best[..l0]), visited0, best[..l], visited, {}, dist, L)
  {
    var nbrs;
    nbrs, visited := CollectUnvisited(list, visited0);
    assert visited0 + Members(nbrs) == visited;
    l := AddAll(best, l0, nbrs, L, dist, visited0);
  }

  lemma SeenInRange(pool: seq<Neighbor>, seen: set<nat>, dist: seq<real>, L: nat, before: set<nat>)
    requires PoolInvariant(pool, seen, dist, L) && before <= seen
    ensures before != seen ==> Below(|dist|) - seen < Below(|dist|) - before
  {
    if before != seen {
      var v :| v in seen && v !in before;
      assert v in Below(|dist|) - before && v !in Below(|dist|) - seen;
    }
  }

  /** `compute_and_add_to_retset` for different seeds, and the sort after it. */
  method AddSeeds(best: array<Neighbor>, seeds: seq<nat>, L: nat, dist: seq<real>) returns (l: nat, visited: set<nat>)
    requires NoRepeats(seeds) && |seeds| <= L < best.Length && forall v :: v in seeds ==> v < |dist|
    modifies best
    ensures l == |seeds| && visited == Members(seeds)
    ensures PoolInvariant(best[..l], visited, dist, L) && Fresh(best[..l])
    ensures forall v :: v in visited ==> HasId(best[..l], v)
  {
    l, visited := 0, {};
    for i := 0 to |seeds|
      invariant l == i && visited == Members(seeds[..i]) && SeedPool(best[..l], visited, dist)
    {
      assert seeds[..i + 1] == seeds[..i] + [seeds[i]];
      assert seeds[i] in seeds && seeds[i] !in seeds[..i];
      AppendSeed(best, l, seeds[i], visited, dist);
      l, visited := l + 1, visited + {seeds[i]};
    }
    assert seeds[..|seeds|] == seeds;
    ghost var s := best[..l];
    SortPool(best, l);
    SortedSeedPool(s, best[..l], visited, dist, L);
  }
}
