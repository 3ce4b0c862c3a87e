/** Two runs of the search over replicated lists that end where they should not: one that expands a node
    with the list of another, and one whose next dispatch fills the cached queue. */
module DupGraphRuns {
  import opened BeamSearch
  import opened DupGraphSearch
  import opened IoPipeline
  import opened NeighborPool
  import opened Sets

  // A list that holds the first nodes in the order of their numbers.

  ghost predicate ByNumber(dist: seq<real>) {
    forall v :: 0 <= v < |dist| ==> dist[v] == v as real
  }

  function Numbers(n: nat): seq<real> {
    seq(n, (i: nat) => i as real)
  }

  lemma {:induction false} AtLeast(pool: seq<Neighbor>, dist: seq<real>, i: nat)
    requires Sorted(pool) && Distinct(pool) && Measured(pool, dist) && ByNumber(dist) && i < |pool|
    ensures pool[i].id >= i
  {
    if i > 0 {
      AtLeast(pool, dist, i - 1);
      assert pool[i - 1].distance <= pool[i].distance && pool[i - 1].id != pool[i].id;
    }
  }

  lemma {:induction false} AtMost(pool: seq<Neighbor>, dist: seq<real>, n: nat, i: nat)
    requires Sorted(pool) && Distinct(pool) && Measured(pool, dist) && ByNumber(dist) && i < |pool| <= n
    requires forall j :: 0 <= j < |pool| ==> pool[j].id < n
    ensures pool[i].id + (|pool| - i) <= n
    decreases |pool| - i
  {
    if i + 1 < |pool| {
      AtMost(pool, dist, n, i + 1);
      assert pool[i].distance <= pool[i + 1].distance && pool[i].id != pool[i + 1].id;
    }
  }

  lemma AllInPool(pool: seq<Neighbor>, n: nat, dist: seq<real>, L: nat)
    requires PoolInvariant(pool, Below(n), dist, L) && n < L && ByNumber(dist)
    ensures |pool| == n
  {
    var ids := seq(|pool|, i requires 0 <= i < |pool| => pool[i].id);
    MembersSize(ids);
    SubsetSize(Members(ids), Below(n));
    forall v | v in Below(n)
      ensures v in ids
    {
      assert HasId(pool, v);
      var i :| 0 <= i < |pool| && pool[i].id == v;
      assert ids[i] == v;
    }
    SubsetSize(Below(n), Members(ids));
  }

  /** What has been met with room to spare is in the list, in the order of the numbers. */
  lemma Enumerated(pool: seq<Neighbor>, n: nat, dist: seq<real>, L: nat)
    requires PoolInvariant(pool, Below(n), dist, L) && n < L && ByNumber(dist)
    ensures |pool| == n
    ensures forall i {:trigger pool[i]} :: 0 <= i < n ==> pool[i].id == i && pool[i].distance == i as real
  {
    AllInPool(pool, n, dist, L);
    forall i | 0 <= i < n
      ensures pool[i].id == i
    {
      AtLeast(pool, dist, i);
      AtMost(pool, dist, n, i);
    }
  }

  // A dispatch that passes all entries but one.

  ghost predicate FirstIs(v: View, k: nat, kept: Kept) {
    && k < |v.pool| && (forall i :: 0 <= i < k ==> !v.pool[i].flag)
    && KeptAt(v.store, v.loaded, v.asked, v.pool[k]) == kept != Passed
  }

  lemma {:induction false} PassedOver(tags: seq<Kept>, width: nat, k: nat)
    requires k <= |tags| && width > 0 && forall i :: 0 <= i < k ==> tags[i] == Passed
    ensures Queued(tags, width, 0, 0) == Queued(tags[k..], width, 0, 0)
    ensures Stop(tags, width, 0, 0) == k + Stop(tags[k..], width, 0, 0)
  {
    if k == 0 {
      assert tags[0..] == tags;
    } else {
      PassedOver(tags[1..], width, k - 1);
      assert tags[1..][k - 1..] == tags[k..] && tags[0] == Passed;
    }
  }

  lemma LookedOver(v: View, p: Plan, m: nat)
    requires m < |p.pool| && !p.pool[m].flag
    ensures Looked(v.store, v.scratch, v.loaded, v.asked, p, m) == p
  {
    assert p.pool[m := p.pool[m].(flag := false)] == p.pool;
  }

  lemma PlanStep(v: View, m: nat)
    requires m <= |v.pool|
    ensures PlanOf(v, m) == if m == 0 then Plan(v.pool, [], v.frontier)
      else Looked(v.store, v.scratch, v.loaded, v.asked, PlanOf(v, m - 1), m - 1)
  {
  }

  lemma {:induction false} PlanPassed(v: View, m: nat)
    requires m <= |v.pool| && forall i :: 0 <= i < m ==> !v.pool[i].flag
    ensures PlanOf(v, m) == Plan(v.pool, [], v.frontier)
  {
    hide PlanOf, Looked;
    PlanStep(v, m);
    if m > 0 {
      PlanPassed(v, m - 1);
      LookedOver(v, Plan(v.pool, [], v.frontier), m - 1);
    }
  }

  lemma FirstPlan(v: View, k: nat, kept: Kept, width: nat)
    requires FirstIs(v, k, kept) && width > 0 && (width == 1 || k + 1 == |v.pool|)
    ensures Stop(Tags(v), width, 0, 0) == k + 1
    ensures PlanOf(v, k + 1) == Looked(v.store, v.scratch, v.loaded, v.asked, Plan(v.pool, [], v.frontier), k)
    ensures Queued(Tags(v), width, 0, 0) == if kept == OnDisk then 0 else 1
  {
    var tags := Tags(v);
    PassedOver(tags, width, k);
    PlanPassed(v, k);
    assert tags[k..][0] == kept;
    if k + 1 == |v.pool| {
      assert tags[k..][1..] == [];
    }
  }

  lemma NonePlan(v: View, width: nat)
    requires width > 0 && forall i :: 0 <= i < |v.pool| ==> !v.pool[i].flag
    ensures PlanOf(v, Stop(Tags(v), width, 0, 0)) == Plan(v.pool, [], v.frontier) && Queued(Tags(v), width, 0, 0) == 0
  {
    var tags := Tags(v);
    PassedOver(tags, width, |v.pool|);
    PlanPassed(v, |v.pool|);
    hide PlanOf, Looked, Tags, KeptAt;
    assert tags[|v.pool|..] == [];
  }

  // One read of a search that has nothing else on its way.

  ghost predicate AtRest(search: Search)
    reads search, search.pipe
  {
    search.pipe.nIo == 0 && search.pipe.nProc == 0 && search.nCached == 0
  }

  /** The buffers of one more read are free. */
  ghost predicate RoomForOne(search: Search)
    reads search, search.pipe
  {
    search.pipe.numIos < MAX_N_SECTOR_READS || FitsRing(search.beamWidth, search.beamWidth / 2 + 1)
  }

  lemma RestFacts(search: Search)
    requires search.Valid() && search.Idle()
    ensures |search.pipe.flow.flying| == search.pipe.nIo && |search.pipe.flow.queued| == search.pipe.nProc
    ensures |search.cachedNode.contents| == search.nCached && search.pipe.nodes == search.pipe.frontier
    ensures search.pipe.numIos == |search.pipe.nodes| == |search.pipe.flow.rounds| && 1 <= search.beamWidth
    ensures 1 <= search.l <= search.L < search.best.Length && |search.dist| == |search.store.graph|
    ensures PoolInvariant(search.best[..search.l], search.visited, search.dist, search.L)
    ensures forall id {:trigger Asked(search.pipe.frontier, id)} ::
      id in search.pageVisited <==> Asked(search.pipe.frontier, id)
  {
    hide PoolInvariant, AllExplored, ServedBy, CoveredBy, OnTheWay, ReplicasOk, ResultsOk, NodesOk, QueueSafe, QueueOk;
    hide ReadDone, CircleQueue.Valid, FlowInv, Holds, Within;
  }

  lemma SendPlan(search: Search, k: nat)
    requires 1 <= search.beamWidth && k < search.l <= search.best.Length
    requires FirstIs(search.Sight(), k, OnDisk) && (search.beamWidth == 1 || k + 1 == search.l)
    ensures Queued(Tags(search.Sight()), search.beamWidth, 0, 0) == 0
    ensures PlanOf(search.Sight(), Stop(Tags(search.Sight()), search.beamWidth, 0, 0)) ==
      Plan(search.best[..search.l][k := search.best[k].(flag := false)], [],
        search.pipe.frontier + [FrontierNode(search.best[k].id, search.best[k].id)])
  {
    var v := search.Sight();
    assert |v.pool| == search.l && v.pool[k] == search.best[k];
    hide Queued, Stop, Tags, PlanOf;
    FirstPlan(v, k, OnDisk, search.beamWidth);
  }

  /** The dispatch that asks for the page of entry `k`, the first it does not pass over. */
  method SendFirst(search: Search, k: nat)
    requires search.Valid() && search.Idle() && AtRest(search) && RoomForOne(search)
    requires k < search.l <= search.best.Length
    requires FirstIs(search.Sight(), k, OnDisk) && (search.beamWidth == 1 || k + 1 == search.l)
    modifies search`nCached, search`pageVisited, search`owed, search.best, search.cachedNode, search.cachedNode.data
    modifies search.pipe
    ensures search.Valid() && search.Idle() && search.pipe.nIo == 1 && search.pipe.nProc == 0 && search.nCached == 0
    ensures search.pipe.flow.queued == [] && search.pipe.flow.flying == {old(search.pipe.numIos)}
    ensures search.pipe.numIos == old(search.pipe.numIos) + 1 && search.pipe.nodes == search.pipe.frontier
    ensures search.pipe.frontier ==
      old(search.pipe.frontier) + [FrontierNode(old(search.best[k]).id, old(search.best[k]).id)]
    ensures search.best[..search.l] == old(search.best[..search.l])[k := old(search.best[k]).(flag := false)]
  {
    hide Search.Valid, FirstIs, Queued, Stop, Tags, PlanOf, FitsRing, Asked, PoolInvariant, KeptAt;
    hide Search.Sight, Distinct, Waiting;
    ghost var from := search.pipe.numIos;
    RestFacts(search);
    SendPlan(search, k);
    var outcome := search.Dispatch();
    assert !outcome.BufferLost?;
    RestFacts(search);
    assert Interval(from, from + 1) == {from};
  }

  /** The read completes. With a wider beam another dispatch is due, which finds nothing to ask for. */
  method AwaitFirst(search: Search, n: nat)
    requires search.Valid() && search.Idle() && search.pipe.nIo == 1 && search.pipe.nProc == 0 && search.nCached == 0
    requires search.pipe.flow.queued == [] && search.pipe.flow.flying == {n} && search.pipe.numIos == n + 1
    requires n < MAX_N_SECTOR_READS || FitsRing(search.beamWidth, search.beamWidth / 2 + 1)
    requires search.l <= search.best.Length
    requires search.beamWidth == 1 || forall i :: 0 <= i < search.l ==> !search.best[i].flag
    modifies search`nCached, search`pageVisited, search`owed, search.best, search.cachedNode, search.cachedNode.data
    modifies search.pipe, search.pipe.scratch, search.pipe.sectorBuffers, search.pipe.sectorBuffers.data
    ensures search.Valid() && search.Idle() && search.pipe.nIo == 0 && search.pipe.nProc == 1 && search.nCached == 0
    ensures search.pipe.flow.queued == [n] && search.pipe.flow.flying == {}
    ensures search.pipe.numIos == n + 1 && search.pipe.frontier == old(search.pipe.frontier)
    ensures search.pipe.nodes == search.pipe.frontier
    ensures search.best[..search.l] == old(search.best[..search.l])
  {
    hide Search.Valid, Queued, Stop, Tags, PlanOf, FitsRing, Asked, PoolInvariant;
    RestFacts(search);
    ghost var done := search.CollectReads(1);
    assert done == [n] by {
      assert done[0] in Members(done);
    }
    RestFacts(search);
    if search.pipe.nProc <= search.beamWidth / 2 {
      NonePlan(search.Sight(), search.beamWidth);
      var outcome := search.Dispatch();
      RestFacts(search);
    }
  }

  // A search that reads one page after the other. The first brings a replica of node 1025; the request for
  // page 1024 takes the buffer of the first again, before the replica is used.

  const LAST := MAX_N_SECTOR_READS

  function StaleList(u: nat): seq<nat> {
    if u == LAST then [LAST + 1] else if u == LAST + 1 then [LAST + 3] else if u == LAST + 2 then [LAST + 4] else []
  }

  function StaleLayout(id: nat): seq<nat> {
    if id == 0 then [0, LAST + 1] else if id == LAST then [LAST, LAST + 2] else [id]
  }

  function StalePage(id: nat): Page {
    var layout := StaleLayout(id);
    Page(0.0, layout, seq(|layout|, j requires 0 <= j < |layout| => StaleList(layout[j])))
  }

  function StaleStore(): Store {
    Store(seq(LAST + 5, (u: nat) => StaleList(u)), (id: nat) => StalePage(id), map[], [], {})
  }

  lemma StaleStoreOk()
    ensures Consistent(StaleStore())
  {
    forall id: nat | id < LAST + 5
      ensures PageOk(StaleStore(), id)
    {
    }
  }

  /** The requests for the first `k` pages. */
  ghost function Requests(k: nat): seq<FrontierNode> {
    seq(k, (i: nat) => FrontierNode(i, i))
  }

  /** The first `n` nodes are in the list, and the first `k` of them have no flag. */
  ghost predicate Marked(pool: seq<Neighbor>, n: nat, k: nat) {
    |pool| == n && forall i {:trigger pool[i]} :: 0 <= i < n ==> pool[i].id == i && (pool[i].flag <==> i >= k)
  }

  ghost predicate StaleLoaded(loaded: map<nat, Replica>, k: nat) {
    && (forall x :: x in loaded ==> x == LAST + 1 || (k > LAST && x == LAST + 2))
    && (if k == 0 then loaded == map[] else LAST + 1 in loaded && loaded[LAST + 1] == Replica(0, 1))
  }

  ghost predicate StaleSetup(search: Search) {
    && search.beamWidth == 1 && search.store == StaleStore() && search.ratio == 0.0
    && search.dist == Numbers(LAST + 5) && search.L == LAST + 5
  }

  /** The first `k` pages have been read and processed, and `n` nodes have been met. */
  ghost predicate Stage(search: Search, k: nat, n: nat)
    reads search, search.best, search.pipe, search.pipe.scratch, search.pipe.sectorBuffers
    reads search.pipe.sectorBuffers.data, search.cachedNode, search.cachedNode.data
  {
    && search.Valid() && search.Idle() && AtRest(search) && StaleSetup(search)
    && search.l <= search.best.Length && Marked(search.best[..search.l], n, k)
    && search.visited == Below(n) && search.misread == {} && search.pipe.frontier == Requests(k)
    && search.pipe.numIos == k && StaleLoaded(search.loaded, k)
  }

  lemma NotAsked(k: nat)
    ensures !Asked(Requests(k), k)
  {
  }

  lemma StageFirst(search: Search, k: nat)
    requires Stage(search, k, LAST + 1) && k <= LAST
    ensures FirstIs(search.Sight(), k, OnDisk) && RoomForOne(search) && k < search.l && search.best[k].id == k
  {
    hide Search.Valid, Asked;
    RestFacts(search);
    NotAsked(k);
    assert search.best[..search.l][k].id == k;
  }

  /** Up to the page at `k`: its request, and its completion. */
  method ReadPage(search: Search, k: nat)
    requires search.Valid() && search.Idle() && AtRest(search) && RoomForOne(search)
    requires k < search.l <= search.best.Length
    requires FirstIs(search.Sight(), k, OnDisk) && search.beamWidth == 1 && search.best[k].id == k
    requires search.pipe.frontier == Requests(k) && search.pipe.numIos == k
    modifies search`nCached, search`pageVisited, search`owed, search.best, search.cachedNode, search.cachedNode.data
    modifies search.pipe, search.pipe.scratch, search.pipe.sectorBuffers, search.pipe.sectorBuffers.data
    ensures search.Valid() && search.Idle() && search.pipe.nIo == 0 && search.pipe.nProc == 1 && search.nCached == 0
    ensures search.pipe.flow.queued == [k] && search.pipe.flow.flying == {} && search.pipe.numIos == k + 1
    ensures search.pipe.frontier == search.pipe.nodes == Requests(k + 1)
    ensures search.best[..search.l] == old(search.best[..search.l])[k := old(search.best[k]).(flag := false)]
  {
    assert Requests(k + 1) == Requests(k) + [FrontierNode(k, k)];
    hide Search.Valid, FirstIs, Asked, Requests, Search.Sight;
    SendFirst(search, k);
    AwaitFirst(search, k);
  }

  lemma MarkedNext(pool: seq<Neighbor>, n: nat, k: nat)
    requires Marked(pool, n, k) && k < n
    ensures Marked(pool[k := pool[k].(flag := false)], n, k + 1)
  {
  }

  lemma LoadedNext(loaded: map<nat, Replica>, loaded': map<nat, Replica>, k: nat)
    requires StaleLoaded(loaded, k) && k <= LAST
    requires LoadedMore(loaded, loaded', StaleLayout(k), {}, Buffer(k))
    ensures StaleLoaded(loaded', k + 1)
  {
    if k == 0 {
      assert StaleLayout(0)[1..] == [LAST + 1] && LAST + 1 in StaleLayout(0)[1..];
      assert LAST + 1 in loaded' && LAST + 1 !in loaded;
    } else if k == LAST {
      assert StaleLayout(LAST)[1..] == [LAST + 2];
    } else {
      assert StaleLayout(k)[1..] == [];
    }
  }

  /** A page whose node has no neighbours. */
  method EmptyRound(search: Search, k: nat)
    requires Stage(search, k, LAST + 1) && k < LAST
    modifies search, search.best, search.cachedNode, search.cachedNode.data
    modifies search.pipe, search.pipe.scratch, search.pipe.sectorBuffers, search.pipe.sectorBuffers.data
    ensures Stage(search, k + 1, LAST + 1)
  {
    hide Search.Valid, LoadedMore, FirstIs, Asked, Marked, StaleLoaded, Search.Sight, Numbers;
    assert Requests(k + 1)[k].pid == k && StaleStore().graph[k] == [] && StaleStore().disk(k).layout == StaleLayout(k);
    hide Requests, StaleStore, StaleLayout, StaleList;
    StageFirst(search, k);
    MarkedNext(search.best[..search.l], LAST + 1, k);
    assert search.best[..search.l][k] == search.best[k];
    ReadPage(search, k);
    ghost var loaded := search.loaded;
    ghost var n := search.ProcessPage();
    assert search.store.memPos.Keys == {};
    LoadedNext(loaded, search.loaded, k);
    RestFacts(search);
  }

  lemma FlagsBy(pool: seq<Neighbor>, n: nat, k: nat)
    requires |pool| == n && forall i {:trigger pool[i]} :: 0 <= i < n ==> pool[i].id == i
    requires Cleared(pool) <= Below(k) && Waiting(pool) !! Below(k)
    ensures Marked(pool, n, k)
  {
    forall i | 0 <= i < n
      ensures pool[i].flag <==> i >= k
    {
      assert if pool[i].flag then pool[i].id in Waiting(pool) else pool[i].id in Cleared(pool);
    }
  }

  lemma FlagsOf(pool: seq<Neighbor>, n: nat, k: nat)
    requires Marked(pool, n, k) && k <= n
    ensures Cleared(pool) <= Below(k) && Waiting(pool) !! Below(k)
  {
  }

  /** The buffer of the last request holds its page. */
  lemma LastRead(search: Search)
    requires search.Valid() && search.Idle() && AtRest(search) && search.pipe.nodes != []
    ensures var n := |search.pipe.nodes| - 1;
      Buffer(n) < search.pipe.scratch.Length
      && search.pipe.scratch[Buffer(n)] == search.store.disk(search.pipe.nodes[n].pid)
  {
    RestFacts(search);
    hide PoolInvariant, AllExplored, ServedBy, CoveredBy, OnTheWay, ReplicasOk, ResultsOk, NodesOk, QueueSafe, QueueOk;
    hide ReadDone, CircleQueue.Valid, FlowInv, Holds, Within, Tables, Consistent;
  }

  lemma StaleFacts()
    ensures |StaleStore().graph| == LAST + 5 && StaleStore().memPos == map[]
    ensures StaleStore().graph[LAST] == [LAST + 1] && StaleStore().graph[LAST + 1] == [LAST + 3]
    ensures StaleStore().disk(LAST) == StalePage(LAST) && StalePage(LAST).layout == StaleLayout(LAST)
    ensures |StalePage(LAST).lists| == 2 && StalePage(LAST).lists[1] == [LAST + 4]
    ensures |Numbers(LAST + 5)| == LAST + 5 && ByNumber(Numbers(LAST + 5))
    ensures |Requests(LAST + 1)| == LAST + 1 && Requests(LAST + 1)[LAST].pid == LAST
  {
  }

  lemma NoneIsNear(search: Search)
    requires search.ratio == 0.0 && ByNumber(search.dist)
    ensures search.NoneNear()
  {
  }

  /** The list after the node that links to node 1025. */
  lemma LinkedPool(pool: seq<Neighbor>, pool': seq<Neighbor>, dist: seq<real>, L: nat)
    requires Marked(pool, LAST + 1, LAST + 1) && PoolInvariant(pool', Below(LAST + 2), dist, L) && LAST + 2 < L
    requires ByNumber(dist) && Cleared(pool') <= Cleared(pool)
    requires Waiting(pool') <= Waiting(pool) + (Below(LAST + 2) - Below(LAST + 1))
    ensures Marked(pool', LAST + 2, LAST + 1)
  {
    hide Below, Marked, ByNumber, Cleared, Waiting;
    FlagsOf(pool, LAST + 1, LAST + 1);
    Enumerated(pool', LAST + 2, dist, L);
    FlagsBy(pool', LAST + 2, LAST + 1);
  }

  lemma MetOneMore(n: nat)
    ensures Below(n) + Members([n]) == Below(n + 1)
  {
  }

  /** The page whose node links to node 1025. */
  method LinkingPage(search: Search)
    requires search.Valid() && search.Idle() && search.pipe.nIo == 0 && search.pipe.nProc == 1 && search.nCached == 0
    requires search.pipe.flow.queued == [LAST] && search.pipe.numIos == LAST + 1 && search.l <= search.best.Length
    requires search.pipe.frontier == search.pipe.nodes == Requests(LAST + 1) && search.misread == {}
    requires Marked(search.best[..search.l], LAST + 1, LAST + 1) && search.visited == Below(LAST + 1)
    requires StaleLoaded(search.loaded, LAST) && StaleSetup(search)
    modifies search, search.best, search.cachedNode, search.cachedNode.data
    modifies search.pipe, search.pipe.scratch, search.pipe.sectorBuffers, search.pipe.sectorBuffers.data
    ensures Stage(search, LAST + 1, LAST + 2)
    ensures search.pipe.scratch.Length > 0 && search.pipe.scratch[0] == StalePage(LAST)
  {
    hide Search.Valid, LoadedMore, FirstIs, Asked, Marked, StaleLoaded, Search.Sight, Cleared, Waiting, PoolInvariant;
    hide Below, Requests, StaleStore, StaleLayout, StaleList, StalePage, Numbers, ByNumber, Distinct, Members;
    StaleFacts();
    NoneIsNear(search);
    MetOneMore(LAST);
    MetOneMore(LAST + 1);
    hide Search.NoneNear;
    ghost var pool, loaded := search.best[..search.l], search.loaded;
    ghost var n := search.ProcessPage();
    assert Buffer(LAST) == 0 && search.store.memPos.Keys == {};
    LoadedNext(loaded, search.loaded, LAST);
    RestFacts(search);
    LastRead(search);
    LinkedPool(pool, search.best[..search.l], search.dist, search.L);
  }

  method LinkingRound(search: Search)
    requires Stage(search, LAST, LAST + 1)
    modifies search, search.best, search.cachedNode, search.cachedNode.data
    modifies search.pipe, search.pipe.scratch, search.pipe.sectorBuffers, search.pipe.sectorBuffers.data
    ensures Stage(search, LAST + 1, LAST + 2)
    ensures search.pipe.scratch.Length > 0 && search.pipe.scratch[0] == StalePage(LAST)
  {
    hide Search.Valid, FirstIs, Asked, Marked, StaleLoaded, Search.Sight, PoolInvariant;
    hide Below, Requests, StaleStore, StalePage, Numbers;
    StageFirst(search, LAST);
    MarkedNext(search.best[..search.l], LAST + 1, LAST);
    assert search.best[..search.l][LAST] == search.best[LAST];
    ReadPage(search, LAST);
    LinkingPage(search);
  }

  lemma ReplicaFirst(search: Search)
    requires Stage(search, LAST + 1, LAST + 2)
    requires search.pipe.scratch.Length > 0 && search.pipe.scratch[0] == StalePage(LAST)
    ensures search.l <= search.best.Length && Queued(Tags(search.Sight()), 1, 0, 0) == 1
    ensures PlanOf(search.Sight(), Stop(Tags(search.Sight()), 1, 0, 0)).frontier == search.pipe.frontier
    ensures PlanOf(search.Sight(), Stop(Tags(search.Sight()), 1, 0, 0)).queue == [CacheNode(LAST + 1, [LAST + 4])]
  {
    hide Search.Valid, Queued, Stop, Tags, PlanOf, Below, StaleStore, StalePage, Requests, Numbers;
    StaleFacts();
    var v, k := search.Sight(), LAST + 1;
    assert v.pool[k].id == k && v.pool[k].flag;
    assert FirstIs(v, k, AtHand);
    FirstPlan(v, k, AtHand, 1);
    assert ListIn(v.scratch, Replica(0, 1)) == StalePage(LAST).lists[1] == [LAST + 4];
  }

  lemma Misfit(cn: CacheNode)
    requires cn == CacheNode(LAST + 1, [LAST + 4])
    ensures MetBy([cn]) == {LAST + 4} && Misfits(StaleStore(), [cn]) == {LAST + 1}
  {
    assert [cn][1..] == [] && Members([LAST + 4]) == {LAST + 4};
    hide StaleStore;
    StaleFacts();
  }

  lemma OneFits()
    ensures FitsRing(1, 1)
  {
  }

  /** The dispatch that finds the replica, and the iteration that expands it. */
  method UseReplica(search: Search)
    requires Stage(search, LAST + 1, LAST + 2)
    requires search.pipe.scratch.Length > 0 && search.pipe.scratch[0] == StalePage(LAST)
    modifies search, search.best, search.cachedNode, search.cachedNode.data
    modifies search.pipe, search.pipe.scratch, search.pipe.sectorBuffers, search.pipe.sectorBuffers.data
    ensures search.Valid() && search.Idle() && AtRest(search) && search.pipe.numIos == LAST + 1
    ensures search.misread == {LAST + 1} && search.visited == Below(LAST + 2) + {LAST + 4}
  {
    hide Below, Search.Valid, Queued, Stop, Tags, PlanOf, FitsRing, MetBy, Misfits, Marked, StaleLoaded, Requests;
    hide Asked, PoolInvariant, Search.Sight, Waiting, StaleStore, StalePage, Numbers, Distinct;
    ReplicaFirst(search);
    ghost var cn := CacheNode(LAST + 1, [LAST + 4]);
    Misfit(cn);
    assert FitsRing(1, 1) by {
      OneFits();
    }
    RestFacts(search);
    var outcome := search.Dispatch();
    RestFacts(search);
    assert search.cachedNode.contents == [cn];
    search.DrainCached();
  }

  /** The nodes that the in-memory index returns. */
  function Seeds(n: nat): (seeds: seq<nat>)
    ensures |seeds| == n && forall i :: 0 <= i < n ==> seeds[i] == i
  {
    seq(n, (i: nat) => i)
  }

  lemma SeedsAll(n: nat)
    ensures NoRepeats(Seeds(n)) && Members(Seeds(n)) == Below(n)
  {
    forall v: nat | v < n
      ensures v in Seeds(n)
    {
      assert Seeds(n)[v] == v;
    }
  }

  lemma StageStart(search: Search)
    requires search.Valid() && search.Idle() && AtRest(search) && StaleSetup(search)
    requires search.visited == Members(Seeds(LAST + 1)) && Fresh(search.best[..search.l]) && search.loaded == map[]
    requires search.misread == {} && search.pipe.frontier == [] && search.pipe.numIos == 0
    ensures Stage(search, 0, LAST + 1)
  {
    hide Search.Valid, PoolInvariant, Asked, Below, Seeds, Numbers, StaleStore;
    RestFacts(search);
    StaleFacts();
    SeedsAll(LAST + 1);
    Enumerated(search.best[..search.l], LAST + 1, search.dist, search.L);
  }

  /** If the limit lets a search go on after request 1024 (counted from 0), a node can be expanded with the list of
      another. Here the neighbours of node 1025 have not been met although it has been expanded. */
  method StaleRun(ioLimit: nat) returns (search: Search)
    requires ioLimit > MAX_N_SECTOR_READS + 1
    ensures search.Valid() && search.Idle() && AtRest(search) && Consistent(search.store)
    ensures search.ioLimit == ioLimit && search.pipe.numIos < ioLimit
    ensures LAST + 1 in search.misread && !Explored(LAST + 1, search.store.graph, search.visited)
  {
    hide Below, Numbers, Seeds, Consistent, Search.Valid, Stage, StaleStore, Fresh, StalePage, Requests, ByNumber;
    hide NoRepeats, Members;
    StaleStoreOk();
    StaleFacts();
    SeedsAll(LAST + 1);
    var dist, seeds := Numbers(LAST + 5), Seeds(LAST + 1);
    search := new Search(StaleStore(), dist, LAST + 5, 1, ioLimit, 0.0, seeds);
    StageStart(search);
    for k := 0 to LAST
      invariant Stage(search, k, LAST + 1)
    {
      EmptyRound(search, k);
    }
    LinkingRound(search);
    UseReplica(search);
    assert StaleStore().graph[LAST + 1][0] !in search.visited;
  }

  // A search whose first page brings as many neighbours as fill a beam twice, but for one: most of a beam is in
  // memory, as many have their lists on the page, and one more is in memory.

  function Others(width: nat): seq<nat>
    requires width > 0
  {
    seq(2 * width - 1, (i: nat) => i + 1)
  }

  function OnFirstPage(width: nat): seq<nat>
    requires width > 0
  {
    [0] + seq(width - 1, (i: nat) => width + i)
  }

  function InMemoryIds(width: nat): seq<nat>
    requires width > 0
  {
    seq(width - 1, (i: nat) => i + 1) + [2 * width - 1]
  }

  function FullGraph(width: nat): Graph
    requires width > 0
  {
    [Others(width)] + seq(2 * width - 1, (i: nat) => [])
  }

  function FullPage(width: nat, id: nat): Page
    requires width > 0
  {
    if id == 0 then Page(0.0, OnFirstPage(width), [Others(width)] + seq(width - 1, (i: nat) => []))
    else Page(0.0, [id], [[]])
  }

  function FullStore(width: nat): Store
    requires width > 0
  {
    var near := map u | u in InMemoryIds(width) :: u;
    Store(FullGraph(width), (id: nat) => FullPage(width, id), near, FullGraph(width), {})
  }

  lemma FullStoreOk(width: nat)
    requires width > 0
    ensures Consistent(FullStore(width)) && |FullStore(width).graph| == 2 * width
    ensures FullStore(width).graph[0] == Others(width) && FullStore(width).disk(0).layout == OnFirstPage(width)
    ensures forall u: nat {:trigger u in FullStore(width).memPos} :: u in FullStore(width).memPos <==>
      0 < u < width || u == 2 * width - 1
  {
    var ids := InMemoryIds(width);
    forall u: nat | 0 < u < width || u == 2 * width - 1
      ensures u in ids
    {
      assert ids[if u < width then u - 1 else width - 1] == u;
    }
    forall id: nat | id < 2 * width
      ensures PageOk(FullStore(width), id)
    {
    }
  }

  /** All nodes but the first have just been met. */
  ghost predicate FullView(v: View, width: nat)
    requires width > 0
  {
    && v.store == FullStore(width) && Marked(v.pool, 2 * width, 1)
    && forall x: nat {:trigger x in v.loaded} :: x in v.loaded <==> width <= x < 2 * width - 1
  }

  lemma {:induction false} FillerAt(memory: nat, atHand: nat, i: nat)
    requires i <= memory + atHand
    ensures |Filler(memory, atHand)| == memory + atHand + 1
    ensures Filler(memory, atHand)[i] ==
      if i < memory then InMemory else if i < memory + atHand then AtHand else InMemory
  {
    if memory > 0 {
      FillerAt(memory - 1, atHand, if i == 0 then 0 else i - 1);
    } else if atHand > 0 {
      FillerAt(0, atHand - 1, if i == 0 then 0 else i - 1);
    }
  }

  lemma FullTags(v: View, width: nat)
    requires width > 0 && FullView(v, width)
    ensures Tags(v) == [Passed] + Filler(width - 1, width - 1)
  {
    FullStoreOk(width);
    FillerAt(width - 1, width - 1, 0);
    hide FullStore;
    forall i | 0 <= i < 2 * width
      ensures Tags(v)[i] == ([Passed] + Filler(width - 1, width - 1))[i]
    {
      assert v.pool[i].id == i;
      if i > 0 {
        FillerAt(width - 1, width - 1, i - 1);
      }
    }
  }

  lemma FullQueued(v: View, width: nat)
    requires width > 0 && FullView(v, width)
    ensures Queued(Tags(v), width, 0, 0) == 2 * width - 1
  {
    FullTags(v, width);
    FillerFills(width, width - 1, width - 1);
    assert ([Passed] + Filler(width - 1, width - 1))[1..] == Filler(width - 1, width - 1);
    hide FullView, Tags, Filler;
    assert Queued([Passed] + Filler(width - 1, width - 1), width, 0, 0) ==
      Queued(Filler(width - 1, width - 1), width, 0, 0);
  }

  ghost predicate FullSetup(search: Search, width: nat)
    requires width > 0
  {
    && search.beamWidth == width && search.store == FullStore(width) && search.ratio == 0.0
    && search.dist == Numbers(2 * width) && search.L == 2 * width + 1
  }

  lemma NumbersUp(n: nat)
    ensures |Numbers(n)| == n && ByNumber(Numbers(n))
  {
  }

  /** At the start only the seed is in the list. */
  lemma FullStart(search: Search, width: nat)
    requires search.Valid() && search.Idle() && AtRest(search) && width > 0 && FullSetup(search, width)
    requires search.visited == {0} && Fresh(search.best[..search.l]) && search.loaded == map[]
    requires search.pipe.frontier == []
    ensures search.l == 1 <= search.best.Length && search.best[0].id == 0 && FirstIs(search.Sight(), 0, OnDisk)
  {
    hide Search.Valid, PoolInvariant, Below, Numbers, FullStore;
    RestFacts(search);
    NumbersUp(2 * width);
    FullStoreOk(width);
    SeedMet();
    Enumerated(search.best[..search.l], 1, search.dist, search.L);
    assert search.best[..1][0] == search.best[0] && 0 !in search.store.memPos;
    assert !Asked([], 0);
  }

  lemma MetOthers(width: nat)
    requires width > 0
    ensures {0} + Members(Others(width)) == Below(2 * width)
  {
    forall v: nat | v < 2 * width
      ensures v == 0 || v in Others(width)
    {
      assert v > 0 ==> Others(width)[v - 1] == v;
    }
  }

  lemma OthersLoaded(loaded: map<nat, Replica>, width: nat)
    requires width > 0
    requires LoadedMore(map[], loaded, OnFirstPage(width), FullStore(width).memPos.Keys, 0)
    ensures forall x: nat {:trigger x in loaded} :: x in loaded <==> width <= x < 2 * width - 1
  {
    FullStoreOk(width);
    hide FullStore;
    var rest := OnFirstPage(width)[1..];
    forall x: nat | width <= x < 2 * width - 1
      ensures x in rest
    {
      assert rest[x - width] == x;
    }
  }

  /** The list after the page of the seed. */
  lemma FullPool(pool: seq<Neighbor>, pool': seq<Neighbor>, width: nat, dist: seq<real>, L: nat)
    requires width > 0 && |pool| == 1 && pool[0].id == 0 && !pool[0].flag && ByNumber(dist) && 2 * width < L
    requires PoolInvariant(pool', Below(2 * width), dist, L) && Cleared(pool') <= Cleared(pool)
    requires Waiting(pool') <= Waiting(pool) + (Below(2 * width) - Below(1))
    ensures Marked(pool', 2 * width, 1)
  {
    hide Below, ByNumber;
    Enumerated(pool', 2 * width, dist, L);
    FlagsBy(pool', 2 * width, 1);
  }

  /** Process the page of the seed. */
  method SeedPage(search: Search, width: nat)
    requires search.Valid() && search.Idle() && search.pipe.nIo == 0 && search.pipe.nProc == 1 && search.nCached == 0
    requires width > 0 && FullSetup(search, width) && search.pipe.flow.queued == [0]
    requires search.l == 1 <= search.best.Length
    requires search.pipe.nodes == [FrontierNode(0, 0)] && search.best[0].id == 0 && !search.best[0].flag
    requires search.visited == {0} && search.loaded == map[]
    modifies search, search.best, search.cachedNode, search.cachedNode.data
    modifies search.pipe, search.pipe.scratch, search.pipe.sectorBuffers, search.pipe.sectorBuffers.data
    ensures search.Valid() && search.Idle() && AtRest(search) && search.pipe.numIos == old(search.pipe.numIos)
    ensures search.l <= search.best.Length && FullView(search.Sight(), width)
  {
    hide Search.Valid, LoadedMore, Cleared, Waiting, PoolInvariant, Below, FullStore, Others, OnFirstPage, Numbers;
    hide Marked, ByNumber, Asked, Members, Distinct;
    FullStoreOk(width);
    NumbersUp(2 * width);
    NoneIsNear(search);
    MetOthers(width);
    SeedMet();
    hide Search.NoneNear;
    ghost var pool := search.best[..1];
    assert search.best[..search.l] == pool && pool[0] == search.best[0];
    ghost var n := search.ProcessPage();
    assert search.visited == Below(2 * width);
    OthersLoaded(search.loaded, width);
    RestFacts(search);
    FullPool(pool, search.best[..search.l], width, search.dist, search.L);
  }

  lemma SeedMet()
    ensures {0} == Below(1)
  {
  }

  /** A search whose next dispatch puts two beams less one into the cached queue. */
  method QueueFills(width: nat, ioLimit: nat) returns (search: Search)
    requires 1 <= width <= MAX_N_SECTOR_READS && ioLimit > 1
    ensures search.Valid() && search.Idle() && AtRest(search) && search.beamWidth == width
    ensures search.pipe.numIos == 1 < search.ioLimit == ioLimit && search.l <= search.best.Length
    ensures Queued(Tags(search.Sight()), width, 0, 0) == 2 * width - 1
  {
    hide Search.Valid, Consistent, FullStore, Numbers, ByNumber, Fresh, FirstIs, FullView, Queued, Tags, Search.Sight;
    hide Asked;
    FullStoreOk(width);
    NumbersUp(2 * width);
    search := new Search(FullStore(width), Numbers(2 * width), 2 * width + 1, width, ioLimit, 0.0, [0]);
    assert search.visited == {0};
    FullStart(search, width);
    SendFirst(search, 0);
    assert !search.best[..1][0].flag && search.best[..1][0].id == 0;
    AwaitFirst(search, 0);
    assert !search.best[..1][0].flag && search.best[..1][0].id == 0;
    SeedPage(search, width);
    FullQueued(search.Sight(), width);
  }
}
