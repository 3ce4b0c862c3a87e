/** The end of a disk search: the exact distances of the first entries of the candidate list, and
    the nearest `k` of all nodes whose exact distance is known. */
module Refine {
  import opened BeamSearch
  import opened DupGraphSearch
  import opened IoPipeline
  import opened NeighborPool
  import opened Sets

  /** Nodes with their exact distances, each once. */
  ghost predicate ExactOnce(s: Store, full: seq<Neighbor>) {
    Distinct(full) && forall k :: 0 <= k < |full| ==> full[k].distance == s.disk(full[k].id).exact
  }

  ghost predicate HasAll(full: seq<Neighbor>, ids: set<nat>) {
    forall v {:trigger HasId(full, v)} :: HasId(full, v) <==> v in ids
  }

  lemma AddExact(s: Store, full: seq<Neighbor>, ids: set<nat>, id: nat)
    requires ExactOnce(s, full) && HasAll(full, ids) && id !in ids
    ensures var full' := full + [Neighbor(id, s.disk(id).exact, true)];
      ExactOnce(s, full') && HasAll(full', ids + {id})
  {
    assert !HasId(full, id);
    assert forall v :: v in ids <==> HasId(full, v);
    ReportNext(full, ids, Neighbor(id, s.disk(id).exact, true));
    var full' := full + [Neighbor(id, s.disk(id).exact, true)];
    assert forall v :: v in ids + {id} <==> HasId(full', v);
  }

  /** What one batch is to look up: ids with a vector in memory, and pages to read by buffer. */
  datatype Lookup = Lookup(cached: seq<nat>, pages: map<nat, nat>, pageVisited: set<nat>, sectorIdx: nat)

  ghost predicate Planned(lookup: Lookup, ids: set<nat>) {
    && NoRepeats(lookup.cached)
    && (forall b, c :: b in lookup.pages && c in lookup.pages && lookup.pages[b] == lookup.pages[c] ==> b == c)
    && (forall b :: b in lookup.pages ==> b < MAX_N_SECTOR_READS && lookup.pages[b] !in lookup.cached)
    && (forall v :: v in ids <==> v in lookup.cached || v in lookup.pages.Values)
  }

  /** Buffer `b` was issued by one of the requests `from .. to`. */
  ghost predicate IssuedIn(b: nat, from: nat, to: nat) {
    exists n: nat :: from <= n < to && Buffer(n) == b
  }

  ghost predicate InWindow(pages: map<nat, nat>, from: nat, to: nat) {
    forall b :: b in pages ==> IssuedIn(b, from, to)
  }

  lemma NextFree(pages: map<nat, nat>, from: nat, to: nat, v: nat)
    requires InWindow(pages, from, to) && from <= to < from + MAX_N_SECTOR_READS
    ensures Buffer(to) !in pages && InWindow(pages[Buffer(to) := v], from, to + 1)
  {
    forall n: nat | from <= n < to
      ensures Buffer(n) != Buffer(to)
    {
      BuffersDiffer(n, to);
    }
    forall b | b in pages
      ensures IssuedIn(b, from, to + 1)
    {
      var n: nat :| from <= n < to && Buffer(n) == b;
      assert from <= n < to + 1;
    }
  }

  lemma PlanCached(lookup: Lookup, ids: set<nat>, id: nat)
    requires Planned(lookup, ids) && id !in ids
    ensures Planned(lookup.(cached := lookup.cached + [id]), ids + {id})
  {
    assert forall b :: b in lookup.pages ==> lookup.pages[b] in lookup.pages.Values;
  }

  lemma PlanRead(lookup: Lookup, ids: set<nat>, id: nat, buf: nat, sectorIdx: nat)
    requires Planned(lookup, ids) && id !in ids && buf !in lookup.pages && buf < MAX_N_SECTOR_READS
    ensures Planned(Lookup(lookup.cached, lookup.pages[buf := id], lookup.pageVisited + {id}, sectorIdx), ids + {id})
  {
    var pages' := lookup.pages[buf := id];
    assert forall b :: b in lookup.pages ==> lookup.pages[b] in lookup.pages.Values && pages'[b] == lookup.pages[b];
    assert pages'[buf] == id;
    forall v | v in pages'.Values
      ensures v == id || v in lookup.pages.Values
    {
      var b :| b in pages' && pages'[b] == v;
    }
    forall v | v in lookup.pages.Values
      ensures v in pages'.Values
    {
      var b :| b in lookup.pages && lookup.pages[b] == v;
      assert pages'[b] == v;
    }
  }

  /** The entries `from .. to` of the list that were not looked up yet. */
  ghost function Missing(pool: seq<Neighbor>, from: nat, to: nat, pageVisited: set<nat>): set<nat>
    requires to <= |pool|
  {
    set i | from <= i < to && pool[i].id !in pageVisited :: pool[i].id
  }

  lemma MissingNext(pool: seq<Neighbor>, from: nat, to: nat, pageVisited: set<nat>)
    requires from <= to < |pool| && Distinct(pool)
    ensures Missing(pool, from, to + 1, pageVisited) ==
      Missing(pool, from, to, pageVisited) + if pool[to].id in pageVisited then {} else {pool[to].id}
    ensures pool[to].id !in Missing(pool, from, to, pageVisited)
  {
  }

  /** The inner loop over the list: what to look up in one batch of at most `MAX_N_SECTOR_READS`. */
  method PlanBatch(s: Store, pool: seq<Neighbor>, from: nat, embL: nat, pageVisited: set<nat>, sectorIdx0: nat,
                   ghost start: nat)
      returns (to: nat, lookup: Lookup, ghost start': nat)
    requires from < embL <= |pool| && Distinct(pool) && sectorIdx0 == Buffer(start)
    ensures from < to <= embL && Planned(lookup, Missing(pool, from, to, pageVisited))
    ensures forall v :: v in lookup.pageVisited ==> v in pageVisited || v in Missing(pool, from, to, pageVisited)
    ensures pageVisited <= lookup.pageVisited && lookup.sectorIdx == Buffer(start')
  {
    to, lookup, start' := from, Lookup([], map[], pageVisited, sectorIdx0), start;
    ghost var ids := {};
    while to - from < MAX_N_SECTOR_READS && to < embL
      invariant from <= to <= embL && to - from <= MAX_N_SECTOR_READS
      invariant ids == Missing(pool, from, to, pageVisited) && Planned(lookup, ids)
      invariant pageVisited <= lookup.pageVisited <= pageVisited + ids
      invariant start <= start' <= start + (to - from) && lookup.sectorIdx == Buffer(start')
      invariant InWindow(lookup.pages, start, start')
      decreases embL - to
    {
      var id := pool[to].id;
      MissingNext(pool, from, to, pageVisited);
      if id !in lookup.pageVisited {
        if id in s.memEmb {
          PlanCached(lookup, ids, id);
          lookup := lookup.(cached := lookup.cached + [id]);
        } else {
          NextFree(lookup.pages, start, start', id);
          NextBuffer(start');
          PlanRead(lookup, ids, id, lookup.sectorIdx, (lookup.sectorIdx + 1) % MAX_N_SECTOR_READS);
          lookup := Lookup(lookup.cached, lookup.pages[lookup.sectorIdx := id], lookup.pageVisited + {id},
            (lookup.sectorIdx + 1) % MAX_N_SECTOR_READS);
          start' := start' + 1;
        }
        ids := ids + {id};
      }
      to := to + 1;
    }
  }

  /** Push the exact distances of one batch: first from memory, then from the pages, in the order in
      which they are read. */
  method LookUp(s: Store, lookup: Lookup, scratch: array<Page>, full0: seq<Neighbor>, ghost known: set<nat>,
                ghost ids: set<nat>)
      returns (full: seq<Neighbor>)
    requires scratch.Length == MAX_N_SECTOR_READS && Planned(lookup, ids) && known !! ids
    requires ExactOnce(s, full0) && HasAll(full0, known)
    modifies scratch
    ensures ExactOnce(s, full) && HasAll(full, known + ids)
  {
    full := full0;
    ghost var have := known;
    for i := 0 to |lookup.cached|
      invariant have == known + Members(lookup.cached[..i]) && ExactOnce(s, full) && HasAll(full, have)
    {
      var id := lookup.cached[i];
      assert lookup.cached[..i + 1] == lookup.cached[..i] + [id];
      assert id in lookup.cached && id !in lookup.cached[..i];
      AddExact(s, full, have, id);
      full := full + [Neighbor(id, s.disk(id).exact, true)];
      have := have + {id};
    }
    assert lookup.cached[..|lookup.cached|] == lookup.cached;
    var left := lookup.pages.Keys;
    while left != {}
      invariant left <= lookup.pages.Keys && ExactOnce(s, full) && HasAll(full, have)
      invariant have == known + Members(lookup.cached) + Read(lookup.pages, left)
    {
      var buf :| buf in left;
      scratch[buf] := s.disk(lookup.pages[buf]);
      var pid := lookup.pages[buf];
      ReadNext(lookup.pages, left, buf);
      assert pid in lookup.pages.Values;
      AddExact(s, full, have, pid);
      full := full + [Neighbor(pid, scratch[buf].exact, true)];
      have, left := have + {pid}, left - {buf};
    }
    assert Read(lookup.pages, {}) == lookup.pages.Values;
    assert known + ids == have;
  }

  ghost function Read(pages: map<nat, nat>, left: set<nat>): set<nat> {
    set b | b in pages && b !in left :: pages[b]
  }

  lemma ReadNext(pages: map<nat, nat>, left: set<nat>, buf: nat)
    requires buf in left && buf in pages
    requires forall b, c :: b in pages && c in pages && pages[b] == pages[c] ==> b == c
    ensures Read(pages, left - {buf}) == Read(pages, left) + {pages[buf]} && pages[buf] !in Read(pages, left)
  {
  }

  ghost function Ids(pool: seq<Neighbor>, n: nat): set<nat> {
    set i | 0 <= i < n && i < |pool| :: pool[i].id
  }

  /** A later entry is not among those known, since the earlier entries have other ids. */
  lemma MissingIsNew(pool: seq<Neighbor>, from: nat, to: nat, pageVisited: set<nat>, known: set<nat>)
    requires from <= to <= |pool| && Distinct(pool) && pageVisited <= known <= pageVisited + Ids(pool, from)
    requires Ids(pool, from) <= known
    ensures known !! Missing(pool, from, to, pageVisited)
    ensures known + Missing(pool, from, to, pageVisited) == known + Ids(pool, to)
  {
    forall v | v in Ids(pool, to)
      ensures v in known + Missing(pool, from, to, pageVisited)
    {
      var i :| 0 <= i < to && pool[i].id == v;
      if i < from {
        assert v in Ids(pool, from);
      }
    }
  }

  /** The refine phase: the exact distances of the first `embL` entries of the list. */
  method ReadExact(s: Store, pool: seq<Neighbor>, embL: nat, full0: seq<Neighbor>, pageVisited0: set<nat>,
                   scratch: array<Page>, sectorIdx0: nat)
      returns (full: seq<Neighbor>)
    requires embL <= |pool| && Distinct(pool) && sectorIdx0 < MAX_N_SECTOR_READS == scratch.Length
    requires ExactOnce(s, full0) && HasAll(full0, pageVisited0)
    modifies scratch
    ensures ExactOnce(s, full) && HasAll(full, pageVisited0 + Ids(pool, embL))
  {
    full := full0;
    var lIdx, pageVisited, sectorIdx := 0, pageVisited0, sectorIdx0;
    ghost var known, start := pageVisited0, sectorIdx0;
    while lIdx < embL
      invariant 0 <= lIdx <= embL && sectorIdx == Buffer(start)
      invariant ExactOnce(s, full) && HasAll(full, known) && known == pageVisited0 + Ids(pool, lIdx)
      invariant pageVisited <= known <= pageVisited + Ids(pool, lIdx)
      decreases embL - lIdx
    {
      var to, lookup; ghost var start';
      to, lookup, start' := PlanBatch(s, pool, lIdx, embL, pageVisited, sectorIdx, start);
      MissingIsNew(pool, lIdx, to, pageVisited, known);
      full := LookUp(s, lookup, scratch, full, known, Missing(pool, lIdx, to, pageVisited));
      known := known + Missing(pool, lIdx, to, pageVisited);
      IdsGrow(pool, lIdx, to);
      lIdx, pageVisited, sectorIdx, start := to, lookup.pageVisited, lookup.sectorIdx, start';
    }
  }

  lemma IdsGrow(pool: seq<Neighbor>, from: nat, to: nat)
    requires from <= to <= |pool|
    ensures Ids(pool, from) <= Ids(pool, to)
  {
  }

  /** The first `t` of the results in ascending order of distance. */
  ghost predicate Nearest(full: seq<Neighbor>, ids: seq<nat>, distances: seq<real>, k: nat) {
    && |ids| == |distances| <= k && (|ids| < k ==> |ids| == |full|)
    && NoRepeats(ids)
    && (forall t :: 0 <= t < |ids| ==> exists i ::
         0 <= i < |full| && full[i].id == ids[t] && full[i].distance == distances[t])
    && (forall t, u :: 0 <= t <= u < |ids| ==> distances[t] <= distances[u])
    && (forall i, t :: 0 <= i < |full| && 0 <= t < |ids| && full[i].id !in ids ==> distances[t] <= full[i].distance)
  }

  /** Sort by exact distance and copy `k` results, skipping an id equal to the one before. */
  method TopK(full: seq<Neighbor>, k: nat) returns (ids: seq<nat>, distances: seq<real>)
    requires Distinct(full)
    ensures Nearest(full, ids, distances, k)
  {
    var a := new Neighbor[|full|](i requires 0 <= i < |full| => full[i]);
    assert a[..|full|] == full;
    SortPool(a, |full|);
    ghost var sorted := a[..|full|];
    RearrangedDistinct(full, sorted);
    ids, distances := [], [];
    var i := 0;
    while i < a.Length && |ids| < k
      invariant 0 <= i <= |full| && |ids| == |distances| == i && i <= k
      invariant forall t :: 0 <= t < i ==> ids[t] == sorted[t].id && distances[t] == sorted[t].distance
      decreases a.Length - i
    {
      assert a[i] == sorted[i] && (i > 0 ==> sorted[i].id != sorted[i - 1].id);
      if !(i > 0 && a[i].id == a[i - 1].id) {
        ids, distances := ids + [a[i].id], distances + [a[i].distance];
      }
      i := i + 1;
    }
    PrefixNearest(full, sorted, i, ids, distances, k);
  }

  lemma PrefixNearest(full: seq<Neighbor>, sorted: seq<Neighbor>, n: nat, ids: seq<nat>, distances: seq<real>, k: nat)
    requires multiset(full) == multiset(sorted) && |full| == |sorted| && Distinct(sorted) && Sorted(sorted)
    requires n == |ids| == |distances| <= |full| && n <= k && (n < k ==> n == |full|)
    requires forall t :: 0 <= t < n ==> ids[t] == sorted[t].id && distances[t] == sorted[t].distance
    ensures Nearest(full, ids, distances, k)
  {
    forall t | 0 <= t < n
      ensures exists i :: 0 <= i < |full| && full[i].id == ids[t] && full[i].distance == distances[t]
    {
      assert sorted[t] in multiset(full);
      var i :| 0 <= i < |full| && full[i] == sorted[t];
    }
    forall j | 0 <= j < n
      ensures sorted[j].id in ids
    {
      assert ids[j] == sorted[j].id;
    }
    forall i, t | 0 <= i < |full| && 0 <= t < n && full[i].id !in ids
      ensures distances[t] <= full[i].distance
    {
      assert full[i] in multiset(sorted);
      var j :| 0 <= j < |sorted| && sorted[j] == full[i];
    }
  }

  /** How many entries of the list the refine phase looks at: the fraction `embRatio` of them, rounded down, but `k`
      at least. */
  function RefineLength(l: nat, embRatio: real, k: nat): (r: nat)
    requires 0.0 <= embRatio
    ensures k <= r && l as real * embRatio < r as real + 1.0
    ensures k < r ==> r as real <= l as real * embRatio
  {
    var part := (l as real * embRatio).Floor;
    if part < k then k else part
  }

  /** `Interrupted`: the reads allowed were used up. `Overrun`: with a beam too wide for the ring, a buffer in
      use may have been issued again. `BeyondList`: more entries are to be looked at than the list has.
      `TooFew` stands for the exit after the refine phase. */
  datatype Answer = Interrupted | Overrun | BeyondList | TooFew | Found(ids: seq<nat>, distances: seq<real>)

  /** One query of `page_search_dup_graph`. `pool` is the candidate list at the end of the traversal,
      `targets` are the nodes whose pages were read by then, `ios` is the number of these reads, `misread`
      are the nodes expanded with a list not their own, and the first `embL` entries of the list are to be looked
      at. */
  method Query(s: Store, dist: seq<real>, L: nat, beamWidth: nat, ioLimit: nat, ratio: real, seeds: seq<nat>, k: nat,
               embRatio: real)
      returns (answer: Answer, pool: seq<Neighbor>, visited: set<nat>, targets: set<nat>, ios: nat,
               ghost misread: set<nat>, embL: nat)
    requires Consistent(s) && |dist| == |s.graph| && 0.0 <= embRatio
    requires 1 <= beamWidth && 2 * beamWidth <= MAX_N_SECTOR_READS + 1
    requires 1 <= |seeds| <= L && NoRepeats(seeds) && forall v :: v in seeds ==> v < |dist|
    ensures PoolInvariant(pool, visited, dist, L) && Members(seeds) <= visited
    ensures answer.Interrupted? <==> ioLimit <= ios
    ensures answer.Overrun? ==>
      !FitsRing(beamWidth, beamWidth / 2 + 1) && MAX_N_SECTOR_READS < ios < ioLimit
    ensures !answer.Interrupted? && !answer.Overrun? ==> TargetsOk(s, pool, visited, targets, ios)
    ensures !answer.Interrupted? && !answer.Overrun? && misread == {} ==> SearchDone(pool, visited, s.graph, dist, L)
    ensures !answer.Interrupted? && !answer.Overrun? && ios <= MAX_N_SECTOR_READS ==> misread == {}
    ensures ioLimit <= MAX_N_SECTOR_READS + 1 ==> misread == {}
    ensures k <= embL && |pool| as real * embRatio < embL as real + 1.0
    ensures k < embL ==> embL as real <= |pool| as real * embRatio
    ensures !answer.Interrupted? && !answer.Overrun? ==> (answer.BeyondList? <==> embL > |pool|) && !answer.TooFew?
    ensures answer.Found? ==> IsAnswer(s, targets + Ids(pool, embL), answer.ids, answer.distances, k)
  {
    hide *;
    var search := new Search(s, dist, L, beamWidth, ioLimit, ratio, seeds);
    var end := search.Traverse();
    search.PoolFacts();
    pool, visited, targets, ios := search.best[..search.l], search.visited, search.pageVisited, search.pipe.numIos;
    misread, embL := search.misread, RefineLength(|pool|, embRatio, k);
    match end {
      case Complete => answer := Conclude(search, k, embL);
      case UsedUp => answer := Interrupted;
      case Overrun => answer := Answer.Overrun;
    }
  }

  /** The refine phase and the extraction of the results. */
  method Conclude(search: Search, k: nat, embL: nat) returns (answer: Answer)
    requires search.Valid() && search.Idle() && k <= embL
    requires forall id :: id in search.pageVisited ==> HasId(search.fullRetset, id)
    modifies search.pipe.scratch
    ensures answer.BeyondList? <==> embL > search.l
    ensures !answer.BeyondList? ==> answer.Found?
    ensures answer.Found? ==>
      IsAnswer(search.store, search.pageVisited + Ids(search.best[..search.l], embL), answer.ids, answer.distances, k)
  {
    TargetsKnown(search);
    var pool, targets := search.best[..search.l], search.pageVisited;
    answer := BeyondList;
    if embL <= search.l {
      var full := ReadExact(search.store, pool, embL, search.fullRetset, targets, search.pipe.scratch,
        search.pipe.sectorIdx);
      var ids, distances := TopK(full, k);
      AnswerOf(search.store, full, targets + Ids(pool, embL), ids, distances, k, pool, embL);
      answer := if |ids| < k then TooFew else Found(ids, distances);
    }
  }

  lemma TargetsKnown(search: Search)
    requires search.Valid() && search.Idle() && forall id :: id in search.pageVisited ==> HasId(search.fullRetset, id)
    ensures ExactOnce(search.store, search.fullRetset) && HasAll(search.fullRetset, search.pageVisited)
  {
    forall v | HasId(search.fullRetset, v)
      ensures v in search.pageVisited
    {
      var k :| 0 <= k < |search.fullRetset| && search.fullRetset[k].id == v;
      assert Asked(search.pipe.nodes, v);
      var i :| 0 <= i < |search.pipe.nodes| && search.pipe.nodes[i].id == v;
      assert search.pipe.frontier[i].id == v;
      assert Asked(search.pipe.frontier, v);
    }
  }

  /** `k` different nodes in ascending order of their exact distances, and none of those looked at is
      nearer than they are. */
  ghost predicate IsAnswer(s: Store, looked: set<nat>, ids: seq<nat>, distances: seq<real>, k: nat) {
    && |ids| == |distances| == k && NoRepeats(ids)
    && (forall t :: 0 <= t < k ==> ids[t] in looked && distances[t] == s.disk(ids[t]).exact)
    && (forall t, u :: 0 <= t <= u < k ==> distances[t] <= distances[u])
    && (forall v, t :: v in looked && v !in ids && 0 <= t < k ==> distances[t] <= s.disk(v).exact)
  }

  lemma AnswerOf(s: Store, full: seq<Neighbor>, looked: set<nat>, ids: seq<nat>, distances: seq<real>, k: nat,
                 pool: seq<Neighbor>, embL: nat)
    requires ExactOnce(s, full) && HasAll(full, looked) && Nearest(full, ids, distances, k)
    requires k <= embL <= |pool| && Distinct(pool) && Ids(pool, embL) <= looked
    ensures |ids| == k && IsAnswer(s, looked, ids, distances, k)
  {
    IdsSize(pool, embL);
    SubsetSize(Ids(pool, embL), looked);
    FullSize(full, looked, |full|);
    forall t | 0 <= t < |ids|
      ensures ids[t] in looked && distances[t] == s.disk(ids[t]).exact
    {
      var i :| 0 <= i < |full| && full[i].id == ids[t] && full[i].distance == distances[t];
      assert HasId(full, ids[t]);
    }
    forall v, t | v in looked && v !in ids && 0 <= t < |ids|
      ensures distances[t] <= s.disk(v).exact
    {
      assert HasId(full, v);
      var i :| 0 <= i < |full| && full[i].id == v;
    }
  }

  lemma {:induction false} IdsSize(pool: seq<Neighbor>, n: nat)
    requires n <= |pool| && Distinct(pool)
    ensures |Ids(pool, n)| == n
  {
    if n > 0 {
      IdsSize(pool, n - 1);
      assert Ids(pool, n) == Ids(pool, n - 1) + {pool[n - 1].id};
      assert pool[n - 1].id !in Ids(pool, n - 1);
    } else {
      assert Ids(pool, 0) == {};
    }
  }

  lemma FullSize(full: seq<Neighbor>, looked: set<nat>, n: nat)
    requires Distinct(full) && HasAll(full, looked) && n == |full|
    ensures |looked| == |full|
  {
    IdsSize(full, n);
    assert forall v :: v in looked <==> HasId(full, v);
    assert looked == Ids(full, n);
  }
}
