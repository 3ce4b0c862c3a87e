/** The disk search over pages that replicate the adjacency lists of other nodes: a node is expanded
    from memory, from a replica read earlier, or from its own page, whichever comes first. */
module DupGraphSearch {
  import opened BeamSearch
  import opened DiskPool
  import opened IoPipeline
  import opened NeighborPool
  import opened Sets

  /** A page: its node's exact distance from the query, and the nodes whose lists it carries, itself
      first. */
  datatype Page = Page(exact: real, layout: seq<nat>, lists: seq<seq<nat>>)

  /** The graph, and where its lists are kept: on the pages, and for some nodes in memory. */
  datatype Store = Store(graph: Graph, disk: nat -> Page, memPos: map<nat, nat>, memGraph: Graph, memEmb: set<nat>)

  ghost predicate PageOk(s: Store, id: nat) {
    var page := s.disk(id);
    && page.layout != [] && page.layout[0] == id && |page.lists| == |page.layout|
    && forall j :: 0 <= j < |page.layout| ==> page.layout[j] < |s.graph| && page.lists[j] == s.graph[page.layout[j]]
  }

  /** All copies of a list agree. */
  ghost predicate Consistent(s: Store) {
    && (forall u :: 0 <= u < |s.graph| ==> forall v :: v in s.graph[u] ==> v < |s.graph|)
    && (forall id: nat {:trigger PageOk(s, id)} :: id < |s.graph| ==> PageOk(s, id))
    && (forall id :: id in s.memPos ==>
         id < |s.graph| && s.memPos[id] < |s.memGraph| && s.memGraph[s.memPos[id]] == s.graph[id])
  }

  /** A node on its way through the queue, with the list found for it. */
  datatype CacheNode = CacheNode(id: nat, nbrs: seq<nat>)

  /** Where in which sector buffer a replica was found. */
  datatype Replica = Replica(buf: nat, slot: nat)

  /** What is read there later: the list in that place of whatever page the buffer holds by then. */
  function ListIn(scratch: seq<Page>, replica: Replica): seq<nat> {
    if replica.buf < |scratch| && replica.slot < |scratch[replica.buf].lists|
    then scratch[replica.buf].lists[replica.slot] else []
  }

  ghost predicate InGraph(s: Store, list: seq<nat>) {
    forall v :: v in list ==> v < |s.graph|
  }

  ghost predicate QueueSafe(s: Store, queue: seq<CacheNode>) {
    forall i :: 0 <= i < |queue| ==> queue[i].id < |s.graph| && InGraph(s, queue[i].nbrs)
  }

  /** The list with a node is its own. */
  ghost predicate Fits(s: Store, cn: CacheNode) {
    cn.id < |s.graph| && cn.nbrs == s.graph[cn.id]
  }

  ghost predicate QueueOk(s: Store, queue: seq<CacheNode>) {
    forall i :: 0 <= i < |queue| ==> Fits(s, queue[i])
  }

  ghost function MetBy(queue: seq<CacheNode>): set<nat> {
    if queue == [] then {} else Members(queue[0].nbrs) + MetBy(queue[1..])
  }

  /** The nodes with a list not their own. */
  ghost function Misfits(s: Store, queue: seq<CacheNode>): set<nat> {
    if queue == [] then {} else (if Fits(s, queue[0]) then {} else {queue[0].id}) + Misfits(s, queue[1..])
  }

  lemma QueueRest(s: Store, queue: seq<CacheNode>)
    requires QueueSafe(s, queue) && queue != []
    ensures queue[0].id < |s.graph| && InGraph(s, queue[0].nbrs) && QueueSafe(s, queue[1..])
    ensures QueueOk(s, queue) ==> Fits(s, queue[0]) && QueueOk(s, queue[1..])
  {
  }

  lemma QueueMore(s: Store, queue: seq<CacheNode>, cn: CacheNode)
    requires QueueSafe(s, queue) && cn.id < |s.graph| && InGraph(s, cn.nbrs)
    ensures QueueSafe(s, queue + [cn])
    ensures QueueOk(s, queue) && Fits(s, cn) ==> QueueOk(s, queue + [cn])
  {
  }

  ghost predicate NodesOk(s: Store, nodes: seq<FrontierNode>) {
    forall n :: 0 <= n < |nodes| ==> nodes[n].id == nodes[n].pid < |s.graph|
  }

  ghost predicate InQueue(queue: seq<CacheNode>, id: nat) {
    exists i :: 0 <= i < |queue| && queue[i].id == id
  }

  ghost predicate InFlight(f: Flow, nodes: seq<FrontierNode>, id: nat) {
    exists n: nat :: Live(f, n) && n < |nodes| && nodes[n].id == id
  }

  ghost predicate Unsent(frontier: seq<FrontierNode>, from: nat, id: nat) {
    exists k :: from <= k < |frontier| && frontier[k].id == id
  }

  ghost predicate OnTheWay(owed: set<nat>, queue: seq<CacheNode>, f: Flow, nodes: seq<FrontierNode>,
                           frontier: seq<FrontierNode>, ftrId: nat) {
    forall id {:trigger InFlight(f, nodes, id)} :: id in owed ==>
      InQueue(queue, id) || InFlight(f, nodes, id) || Unsent(frontier, ftrId, id)
  }

  /** A replica was in a buffer whose read is complete. `n` is the request that brought it. */
  ghost predicate ReplicaOk(s: Store, f: Flow, nodes: seq<FrontierNode>, x: nat, replica: Replica, n: nat) {
    && n < |nodes| && !Live(f, n) && replica.buf == Buffer(n) && nodes[n].pid < |s.graph|
    && 0 < replica.slot < |s.disk(nodes[n].pid).layout| && s.disk(nodes[n].pid).layout[replica.slot] == x
  }

  /** Every replica of the table was there when it was entered. */
  ghost predicate ReplicasOk(s: Store, f: Flow, nodes: seq<FrontierNode>, loaded: map<nat, Replica>,
                             source: map<nat, nat>) {
    && loaded.Keys <= source.Keys
    && forall x {:trigger loaded[x]} :: x in loaded && x in source ==> ReplicaOk(s, f, nodes, x, loaded[x], source[x])
  }

  lemma ReplicasKept(s: Store, f: Flow, f': Flow, nodes: seq<FrontierNode>, nodes': seq<FrontierNode>,
                     loaded: map<nat, Replica>, source: map<nat, nat>)
    requires ReplicasOk(s, f, nodes, loaded, source) && nodes <= nodes'
    requires forall n: nat {:trigger Live(f', n)} :: n < |nodes| && Live(f', n) ==> Live(f, n)
    ensures ReplicasOk(s, f', nodes', loaded, source)
  {
    forall x {:trigger loaded[x]} | x in loaded && x in source
      ensures ReplicaOk(s, f', nodes', x, loaded[x], source[x])
    {
      assert ReplicaOk(s, f, nodes, x, loaded[x], source[x]);
    }
  }

  /** What is read in place of a replica is a list of the graph or of its length; the node's own, if the buffer
      still holds the page that brought it. */
  lemma ReplicaRead(s: Store, f: Flow, nodes: seq<FrontierNode>, scratch: seq<Page>, held: map<nat, nat>, x: nat,
                    replica: Replica, n: nat)
    requires Consistent(s) && NodesOk(s, nodes) && ReplicaOk(s, f, nodes, x, replica, n)
    requires Holds(scratch, s.disk, nodes, f.flying, held)
    ensures x < |s.graph| && InGraph(s, ListIn(scratch, replica))
    ensures scratch[replica.buf] == s.disk(nodes[n].pid) ==> ListIn(scratch, replica) == s.graph[x]
  {
    assert PageOk(s, nodes[n].pid);
    assert Buffer(n) in held;
    var page := scratch[replica.buf];
    assert page == s.disk(nodes[held[Buffer(n)]].pid) && PageOk(s, nodes[held[Buffer(n)]].pid);
    if replica.slot < |page.lists| {
      assert page.lists[replica.slot] == s.graph[page.layout[replica.slot]];
    }
  }

  ghost predicate Asked(frontier: seq<FrontierNode>, id: nat) {
    exists i :: 0 <= i < |frontier| && frontier[i].id == id
  }

  /** Every page is asked for at most once, and requested in the order recorded. */
  ghost predicate FrontierOk(frontier: seq<FrontierNode>, ftrId: nat, nodes: seq<FrontierNode>, pageVisited: set<nat>) {
    && ftrId <= |frontier| && nodes == frontier[..ftrId]
    && (forall i, j :: 0 <= i < |frontier| && 0 <= j < |frontier| && frontier[i].id == frontier[j].id ==> i == j)
    && forall id {:trigger Asked(frontier, id)} :: id in pageVisited <==> Asked(frontier, id)
  }

  /** The nodes whose pages have been processed, each once, with their exact distances. */
  ghost predicate ResultsOk(s: Store, full: seq<Neighbor>, f: Flow, nodes: seq<FrontierNode>) {
    && Distinct(full)
    && (forall k :: 0 <= k < |full| ==> full[k].distance == s.disk(full[k].id).exact && Asked(nodes, full[k].id))
    && forall n: nat {:trigger Live(f, n)} :: n < |nodes| ==> (HasId(full, nodes[n].id) <==> !Live(f, n))
  }

  /** The nodes whose pages have been processed are done, or just being worked on. */
  ghost predicate ReadDone(full: seq<Neighbor>, done: set<nat>) {
    forall k :: 0 <= k < |full| ==> full[k].id in done
  }

  ghost predicate ServedBy(cleared: set<nat>, asked: set<nat>, inMemory: set<nat>, replicas: set<nat>, met: set<nat>) {
    cleared <= asked + inMemory + replicas && asked <= met
  }

  ghost predicate CoveredBy(cleared: set<nat>, asked: set<nat>, done: set<nat>, owed: set<nat>, busy: set<nat>) {
    cleared <= done + owed + busy && asked <= done + owed + busy
  }

  lemma BeginWork(cleared: set<nat>, asked: set<nat>, done: set<nat>, owed: set<nat>, id: nat)
    requires CoveredBy(cleared, asked, done, owed, {})
    ensures CoveredBy(cleared, asked, done, owed - {id}, {id})
  {
  }

  lemma EndWork(cleared: set<nat>, cleared': set<nat>, asked: set<nat>, done: set<nat>, done': set<nat>, owed: set<nat>,
                id: nat)
    requires CoveredBy(cleared, asked, done, owed, {id}) && cleared' <= cleared + done' && done + {id} <= done'
    ensures CoveredBy(cleared', asked, done', owed, {})
  {
  }

  /** `x` has a replica on the page of a node of `targets`. */
  ghost predicate OnPages(s: Store, targets: set<nat>, x: nat) {
    exists t :: t in targets && x in s.disk(t).layout
  }

  /** `targets` are the nodes whose own pages were read, one read each. They have been met and
      expanded, and what else is in the list had its neighbours in memory or on one of their pages. */
  ghost predicate TargetsOk(s: Store, pool: seq<Neighbor>, met: set<nat>, targets: set<nat>, ios: nat) {
    && |targets| == ios && targets <= met && AllExplored(targets, s.graph, met)
    && forall i :: 0 <= i < |pool| ==>
         pool[i].id in targets || pool[i].id in s.memPos || OnPages(s, targets, pool[i].id)
  }

  // A dispatch, as a function of what it finds.

  /** What a dispatch makes of an entry: it passes it over if it has no flag or its page was asked for,
      or finds the neighbours in memory, on a page read earlier, or not yet. */
  datatype Kept = Passed | InMemory | AtHand | OnDisk

  datatype View = View(store: Store, scratch: seq<Page>, loaded: map<nat, Replica>, asked: set<nat>,
                       pool: seq<Neighbor>, frontier: seq<FrontierNode>)

  datatype Plan = Plan(pool: seq<Neighbor>, queue: seq<CacheNode>, frontier: seq<FrontierNode>)

  function KeptAt(s: Store, loaded: map<nat, Replica>, asked: set<nat>, e: Neighbor): Kept {
    if !e.flag then Passed
    else if e.id in s.memPos then InMemory
    else if e.id in loaded then AtHand
    else if e.id in asked then Passed
    else OnDisk
  }

  ghost function Tags(v: View): (tags: seq<Kept>)
    ensures |tags| == |v.pool|
  {
    seq(|v.pool|, i requires 0 <= i < |v.pool| => KeptAt(v.store, v.loaded, v.asked, v.pool[i]))
  }

  /** What goes into the queue for an entry. */
  ghost function Caches(s: Store, scratch: seq<Page>, loaded: map<nat, Replica>, kept: Kept, id: nat): seq<CacheNode> {
    if kept.InMemory? && id in s.memPos && s.memPos[id] < |s.memGraph| then
      [CacheNode(id, s.memGraph[s.memPos[id]])]
    else if kept.AtHand? && id in loaded then [CacheNode(id, ListIn(scratch, loaded[id]))]
    else []
  }

  ghost function Asks(kept: Kept, id: nat): seq<FrontierNode> {
    if kept.OnDisk? then [FrontierNode(id, id)] else []
  }

  /** The state after a look at the entry at `m`. */
  ghost function Looked(s: Store, scratch: seq<Page>, loaded: map<nat, Replica>, asked: set<nat>, p: Plan, m: nat): Plan
    requires m < |p.pool|
  {
    var e := p.pool[m];
    var kept := KeptAt(s, loaded, asked, e);
    Plan(p.pool[m := e.(flag := false)], p.queue + Caches(s, scratch, loaded, kept, e.id),
      p.frontier + Asks(kept, e.id))
  }

  /** The state after the first `m` entries. */
  ghost function PlanOf(v: View, m: nat): (p: Plan)
    requires m <= |v.pool|
    ensures |p.pool| == |v.pool|
    ensures forall i :: 0 <= i < |v.pool| ==> p.pool[i] == if i < m then v.pool[i].(flag := false) else v.pool[i]
  {
    if m == 0 then Plan(v.pool, [], v.frontier)
    else Looked(v.store, v.scratch, v.loaded, v.asked, PlanOf(v, m - 1), m - 1)
  }

  /** How many nodes one dispatch puts into the cached queue. */
  function Queued(tags: seq<Kept>, width: nat, numSeen: nat, diskSeen: nat): nat {
    if tags == [] || numSeen >= width || diskSeen >= width then 0
    else match tags[0]
      case Passed => Queued(tags[1..], width, numSeen, diskSeen)
      case InMemory => 1 + Queued(tags[1..], width, numSeen, diskSeen + 1)
      case AtHand => 1 + Queued(tags[1..], width, numSeen + 1, diskSeen)
      case OnDisk => Queued(tags[1..], width, numSeen + 1, diskSeen)
  }

  /** How many entries it looks at. */
  function Stop(tags: seq<Kept>, width: nat, numSeen: nat, diskSeen: nat): (m: nat)
    ensures m <= |tags|
  {
    if tags == [] || numSeen >= width || diskSeen >= width then 0
    else match tags[0]
      case Passed => 1 + Stop(tags[1..], width, numSeen, diskSeen)
      case InMemory => 1 + Stop(tags[1..], width, numSeen, diskSeen + 1)
      case AtHand => 1 + Stop(tags[1..], width, numSeen + 1, diskSeen)
      case OnDisk => 1 + Stop(tags[1..], width, numSeen + 1, diskSeen)
  }

  /** `m` entries have been looked at. */
  ghost predicate Marking(v: View, width: nat, m: nat, numSeen: nat, diskSeen: nat, p: Plan) {
    && m <= |v.pool| && p == PlanOf(v, m)
    && Queued(Tags(v), width, 0, 0) == |p.queue| + Queued(Tags(v)[m..], width, numSeen, diskSeen)
    && Stop(Tags(v), width, 0, 0) == m + Stop(Tags(v)[m..], width, numSeen, diskSeen)
    && |p.queue| + |p.frontier| == |v.frontier| + numSeen + diskSeen
    && |v.frontier| <= |p.frontier| <= |v.frontier| + numSeen && numSeen <= width && diskSeen <= width
  }

  lemma MarkStart(v: View, width: nat)
    ensures Marking(v, width, 0, 0, 0, Plan(v.pool, [], v.frontier))
  {
    assert Tags(v)[0..] == Tags(v);
  }

  /** What counts towards the beam. */
  function Counts(kept: Kept): (nat, nat) {
    (if kept.AtHand? || kept.OnDisk? then 1 else 0, if kept.InMemory? then 1 else 0)
  }

  lemma LookedSize(v: View, p: Plan, m: nat, asked: set<nat>)
    requires Consistent(v.store) && m < |p.pool|
    ensures var kept, p' := KeptAt(v.store, v.loaded, asked, p.pool[m]),
        Looked(v.store, v.scratch, v.loaded, asked, p, m);
      && |p'.queue| == |p.queue| + (if kept.InMemory? || kept.AtHand? then 1 else 0)
      && |p'.frontier| == |p.frontier| + (if kept.OnDisk? then 1 else 0)
  {
  }

  lemma LookedSame(v: View, p: Plan, m: nat, asked: set<nat>)
    requires m < |p.pool| && (p.pool[m].id in asked <==> p.pool[m].id in v.asked)
    ensures KeptAt(v.store, v.loaded, asked, p.pool[m]) == KeptAt(v.store, v.loaded, v.asked, p.pool[m])
    ensures Looked(v.store, v.scratch, v.loaded, asked, p, m) == Looked(v.store, v.scratch, v.loaded, v.asked, p, m)
  {
  }

  lemma MarkNext(v: View, width: nat, m: nat, numSeen: nat, diskSeen: nat, p: Plan, asked: set<nat>)
    requires Marking(v, width, m, numSeen, diskSeen, p) && m < |v.pool| && numSeen < width && diskSeen < width
    requires Consistent(v.store) && (v.pool[m].id in asked <==> v.pool[m].id in v.asked)
    ensures p.pool[m] == v.pool[m]
    ensures var more := Counts(KeptAt(v.store, v.loaded, asked, p.pool[m]));
      Marking(v, width, m + 1, numSeen + more.0, diskSeen + more.1,
        Looked(v.store, v.scratch, v.loaded, asked, p, m))
  {
    LookedSize(v, p, m, v.asked);
    LookedSame(v, p, m, asked);
    assert Tags(v)[m..][0] == Tags(v)[m] == KeptAt(v.store, v.loaded, v.asked, p.pool[m]);
    assert Tags(v)[m..][1..] == Tags(v)[m + 1..];
    hide Looked, KeptAt, Consistent, Tags;
  }

  lemma PlanLength(v: View, width: nat, m: nat, numSeen: nat, diskSeen: nat, p: Plan)
    requires Marking(v, width, m, numSeen, diskSeen, p)
    ensures |p.pool| == |v.pool|
  {
  }

  /** Room for the next entry, if it goes into the queue. */
  lemma MarkRoom(v: View, width: nat, m: nat, numSeen: nat, diskSeen: nat, p: Plan, asked: set<nat>)
    requires Marking(v, width, m, numSeen, diskSeen, p) && m < |v.pool| && numSeen < width && diskSeen < width
    requires v.pool[m].id in asked <==> v.pool[m].id in v.asked
    ensures p.pool[m] == v.pool[m]
    ensures var kept := KeptAt(v.store, v.loaded, asked, p.pool[m]);
      kept.InMemory? || kept.AtHand? ==> |p.queue| < Queued(Tags(v), width, 0, 0)
  {
    assert Tags(v)[m..][0] == Tags(v)[m] == KeptAt(v.store, v.loaded, v.asked, v.pool[m]);
  }

  lemma MarkEnd(v: View, width: nat, m: nat, numSeen: nat, diskSeen: nat, p: Plan)
    requires Marking(v, width, m, numSeen, diskSeen, p) && (m >= |v.pool| || numSeen >= width || diskSeen >= width)
    ensures m == Stop(Tags(v), width, 0, 0) && p == PlanOf(v, m) && |p.queue| == Queued(Tags(v), width, 0, 0)
    ensures |p.queue| + |p.frontier| == |v.frontier| + numSeen + diskSeen
    ensures |v.frontier| <= |p.frontier| <= |v.frontier| + width
    ensures numSeen + diskSeen == 0 && width > 0 ==> forall i :: 0 <= i < |p.pool| ==> !p.pool[i].flag
  {
  }

  /** How the table of replicas grows with a page. */
  ghost predicate LoadedMore(before: map<nat, Replica>, after: map<nat, Replica>, layout: seq<nat>, memory: set<nat>,
                             buf: nat) {
    && (forall x :: x in after <==> x in before || (x in layout[if layout == [] then 0 else 1..] && x !in memory))
    && (forall x :: x in before && x in after ==> after[x] == before[x])
    && (forall x :: x in after && x !in before ==>
         after[x].buf == buf && 0 < after[x].slot < |layout| && layout[after[x].slot] == x)
  }

  /** Nothing has been asked for. */
  lemma Beginning(s: Store, pool: seq<Neighbor>, met: set<nat>, memory: set<nat>)
    requires Fresh(pool)
    ensures ServedBy(Cleared(pool), {}, memory, {}, met) && CoveredBy(Cleared(pool), {}, {}, {}, {})
    ensures ReplicasOk(s, Flow([], {}, []), [], map[], map[]) && ResultsOk(s, [], Flow([], {}, []), [])
    ensures OnTheWay({}, [], Flow([], {}, []), [], [], 0) && FrontierOk([], 0, [], {}) && NodesOk(s, [])
    ensures QueueSafe(s, []) && QueueOk(s, []) && ReadDone([], {} + {}) && AllExplored({}, s.graph, met)
  {
    assert Cleared(pool) == {};
  }

  class Search {
    const store: Store
    const L: nat
    const beamWidth: nat
    const ioLimit: nat
    const ratio: real
    /** The distances of the compressed vectors from the query. */
    const dist: seq<real>
    const best: array<Neighbor>
    const pipe: Pipeline<Page>
    const cachedNode: CircleQueue<CacheNode>
    var l: nat
    var visited: set<nat>
    var pageVisited: set<nat>
    var loaded: map<nat, Replica>
    var fullRetset: seq<Neighbor>
    var nCached: nat
    /** The request that brought each replica. */
    ghost var source: map<nat, nat>
    /** Nodes all of whose neighbours have been met, and nodes whose turn is still to come. */
    ghost var done: set<nat>
    ghost var owed: set<nat>
    /** Nodes that were expanded with a list not their own. */
    ghost var misread: set<nat>

    constructor (store: Store, dist: seq<real>, L: nat, beamWidth: nat, ioLimit: nat, ratio: real, seeds: seq<nat>)
      requires Consistent(store) && |dist| == |store.graph|
      requires 1 <= beamWidth <= MAX_N_SECTOR_READS
      requires 1 <= |seeds| <= L && NoRepeats(seeds) && forall v :: v in seeds ==> v < |dist|
      ensures Valid() && Idle() && visited == Members(seeds) && pageVisited == {} && fullRetset == []
      ensures this.store == store && this.dist == dist && this.L == L && this.beamWidth == beamWidth
      ensures this.ioLimit == ioLimit && this.ratio == ratio && loaded == map[] && misread == {} && Load() == 0
      ensures pipe.numIos == 0 && pipe.frontier == [] && cachedNode.contents == [] && Fresh(best[..l])
      ensures fresh(best) && fresh(pipe) && fresh(pipe.scratch) && fresh(pipe.sectorBuffers)
      ensures fresh(pipe.sectorBuffers.data) && fresh(cachedNode) && fresh(cachedNode.data)
    {
      hide Pipeline.Valid, CircleQueue.Valid, PoolInvariant, Consistent, Members, OnTheWay, ReplicasOk, ResultsOk;
      hide NodesOk, FrontierOk, QueueSafe, QueueOk, ReadDone, ServedBy, CoveredBy, Cleared, AllExplored, Fresh;
      this.store, this.dist, this.L, this.beamWidth, this.ioLimit, this.ratio := store, dist, L, beamWidth, ioLimit,
        ratio;
      var best := new Neighbor[L + 1](_ => Neighbor(0, 0.0, false));
      var l, visited := AddSeeds(best, seeds, L, dist);
      this.best, this.l, this.visited := best, l, visited;
      pipe := new Pipeline(beamWidth, store.disk);
      cachedNode := new CircleQueue(MAX_N_SECTOR_READS);
      pageVisited, loaded, fullRetset, nCached := {}, map[], [], 0;
      source, done, owed, misread := map[], {}, {}, {};
      Beginning(store, best[..l], visited, store.memPos.Keys);
    }

    /** An entry loses its flag only for a list in memory, a replica, or a page of its own; and only
        nodes that have been met are asked for. */
    ghost predicate Served()
      reads this`l, this`visited, this`pageVisited, this`loaded, best
      requires l <= best.Length
    {
      ServedBy(Cleared(best[..l]), pageVisited, store.memPos.Keys, loaded.Keys, visited)
    }

    /** Between the parts of an iteration. */
    ghost predicate Idle()
      reads pipe
    {
      pipe.Quiet()
    }

    ghost predicate Parts() {
      && Consistent(store) && |dist| == |store.graph| && pipe.disk == store.disk && pipe.beamWidth == beamWidth
      && cachedNode.size == MAX_N_SECTOR_READS
      && 1 <= beamWidth <= MAX_N_SECTOR_READS
    }

    ghost predicate PoolOk()
      reads this`l, this`visited, this`done, best
    {
      1 <= l <= L < best.Length && PoolInvariant(best[..l], visited, dist, L) && AllExplored(done, store.graph, visited)
    }

    ghost predicate PipeOk()
      reads this`nCached, this`pageVisited, this`fullRetset
      reads pipe, pipe.scratch, pipe.sectorBuffers, pipe.sectorBuffers.data, cachedNode, cachedNode.data
    {
      && pipe.Valid()
      && cachedNode.Valid() && nCached == |cachedNode.contents| && QueueSafe(store, cachedNode.contents)
      && NodesOk(store, pipe.frontier) && FrontierOk(pipe.frontier, pipe.ftrId, pipe.nodes, pageVisited)
      && ResultsOk(store, fullRetset, pipe.flow, pipe.nodes)
    }

    ghost predicate LoadedOk()
      reads this`loaded, this`source, pipe`flow, pipe`nodes
    {
      ReplicasOk(store, pipe.flow, pipe.nodes, loaded, source)
    }

    /** As long as no list has been misread, every entry without a flag, and every page asked for, is done,
        owed or being worked on; what is owed is on its way. As long as no buffer has been issued twice, no list
        is misread. */
    ghost predicate Covered(busy: set<nat>)
      reads this, best, pipe, cachedNode
      requires l <= best.Length
    {
      && (misread == {} ==> CoveredBy(Cleared(best[..l]), pageVisited, done, owed, busy))
      && OnTheWay(owed, cachedNode.contents, pipe.flow, pipe.nodes, pipe.frontier, pipe.ftrId)
      && ReadDone(fullRetset, done + busy)
      && (pipe.numIos <= MAX_N_SECTOR_READS ==> misread == {} && QueueOk(store, cachedNode.contents))
    }

    ghost predicate Valid()
      reads this, best, pipe, pipe.scratch, pipe.sectorBuffers, pipe.sectorBuffers.data, cachedNode, cachedNode.data
    {
      Parts() && PoolOk() && Served() && PipeOk() && LoadedOk() && Covered({})
    }

    /** What is read through the table of replicas: the node's own list, as long as no buffer has been issued
        twice. */
    method ReplicaList(x: nat) returns (list: seq<nat>)
      requires Parts() && PipeOk() && LoadedOk() && x in loaded
      ensures x < |store.graph| && InGraph(store, list) && list == ListIn(pipe.scratch[..], loaded[x])
      ensures pipe.numIos <= MAX_N_SECTOR_READS ==> list == store.graph[x]
    {
      ghost var n := source[x];
      assert ReplicaOk(store, pipe.flow, pipe.nodes, x, loaded[x], n);
      hide FlowInv, Tables, Within, Holds, Consistent, FrontierOk, ResultsOk, QueueSafe, CircleQueue.Valid;
      hide Pipeline.Ring;
      NodesAlong(store, pipe.frontier, pipe.ftrId, pipe.nodes, pageVisited);
      ReplicaRead(store, pipe.flow, pipe.nodes, pipe.scratch[..], pipe.held, x, loaded[x], n);
      list := ListIn(pipe.scratch[..], loaded[x]);
      assert |pipe.nodes| == |pipe.flow.rounds| by {
        TablesLength(pipe.flow, pipe.nodes, pipe.secBuf2ftr, pipe.inFlight);
      }
    }

    /** No distance is near enough for a node to be expanded at once. */
    ghost predicate NoneNear() {
      ratio == 0.0 && forall v :: 0 <= v < |dist| ==> dist[v] >= 0.0
    }

    method OfferTarget(v: nat, ghost seen: set<nat>) returns (near: bool)
      requires Parts() && 1 <= l <= L < best.Length && PoolInvariant(best[..l], seen, dist, L)
      requires v < |dist| && v !in seen
      modifies this`l, best
      ensures 1 <= l <= L && Extended(old(best[..l]), seen, best[..l], seen + {v}, if near then {v} else {}, dist, L)
      ensures near <==> v in loaded && dist[v] < best[l - 1].distance * ratio
      ensures NoneNear() ==> !near
    {
      hide PoolInvariant, Consistent, AllExplored, Waiting, Cleared;
      var r;
      l, r := AddToRetset(best, l, v, true, L, dist, seen);
      ghost var pool := best[..l];
      near := dist[v] < best[l - 1].distance * ratio && v in loaded;
      if near && r != -1 && r < l {
        ClearFlag(best, r, l, seen + {v}, dist, L);
      }
      assert best[l - 1].distance == pool[l - 1].distance by {
        assert best[..l][l - 1].distance == pool[l - 1].distance;
      }
    }

    /** The first loop of `compute_and_push_nbrs_target_update`: offer the new neighbours to the list;
        those near enough whose replica is at hand are to be expanded at once. */
    method OfferTargets(nbrs: seq<nat>, ghost seen: set<nat>) returns (expand: seq<nat>)
      requires Parts() && 1 <= l <= L < best.Length && PoolInvariant(best[..l], seen, dist, L)
      requires NoRepeats(nbrs) && forall v :: v in nbrs ==> v < |dist| && v !in seen
      modifies this`l, best
      ensures 1 <= l <= L && Extended(old(best[..l]), seen, best[..l], seen + Members(nbrs), Members(expand), dist, L)
      ensures forall v :: v in expand ==> v in loaded
      ensures NoneNear() ==> expand == []
      ensures nbrs == [] ==> expand == [] && l == old(l) && best[..l] == old(best[..l])
    {
      hide Consistent;
      expand := [];
      ghost var pool, met := best[..l], seen;
      for m := 0 to |nbrs|
        invariant 1 <= l <= L && met == seen + Members(nbrs[..m])
        invariant Extended(pool, seen, best[..l], met, Members(expand), dist, L)
        invariant forall v :: v in expand ==> v in loaded
        invariant NoneNear() ==> expand == []
        invariant m == 0 ==> expand == [] && l == old(l) && best[..l] == pool
      {
        assert nbrs[..m + 1] == nbrs[..m] + [nbrs[m]];
        assert nbrs[m] in nbrs && nbrs[m] !in nbrs[..m];
        ghost var pool1, met1, e := best[..l], met, Members(expand);
        var near := OfferTarget(nbrs[m], met);
        met := met + {nbrs[m]};
        if near {
          assert Members(expand + [nbrs[m]]) == e + {nbrs[m]};
          expand := expand + [nbrs[m]];
        }
        ExtendedFurther(pool, seen, pool1, met1, e, best[..l], met, if near then {nbrs[m]} else {}, dist, L);
      }
      assert nbrs[..|nbrs|] == nbrs;
    }

    /** The second loop: meet the neighbours of one of those. */
    method ExpandNear(x: nat, ghost pool: seq<Neighbor>, ghost seen: set<nat>, ghost expanded: set<nat>)
      requires Parts() && PipeOk() && LoadedOk() && x in loaded
      requires 1 <= l <= L < best.Length && Extended(pool, seen, best[..l], visited, expanded, dist, L)
      modifies this`l, this`visited, this`misread, best
      ensures 1 <= l <= L && Extended(pool, seen, best[..l], visited, expanded, dist, L) && old(visited) <= visited
      ensures x < |store.graph| && (x !in misread ==> Explored(x, store.graph, visited))
      ensures old(misread) <= misread && (pipe.numIos <= MAX_N_SECTOR_READS ==> misread == old(misread))
    {
      hide PoolInvariant, NodesOk, FrontierOk, ResultsOk, Cleared, Waiting, QueueSafe, Pipeline.Valid;
      hide CircleQueue.Valid, ReplicasOk;
      ghost var pool1, met1 := best[..l], visited;
      var list := ReplicaList(x);
      l, visited := PushNeighbours(best, l, list, L, dist, visited);
      ExtendedFurther(pool, seen, pool1, met1, expanded, best[..l], visited, {}, dist, L);
      assert expanded + {} == expanded;
      if list != store.graph[x] {
        misread := misread + {x};
      }
    }

    /** `compute_and_push_nbrs_target_update` */
    method TargetUpdate(list: seq<nat>) returns (ghost expanded: set<nat>)
      requires Parts() && PoolOk() && PipeOk() && LoadedOk()
      requires forall v :: v in list ==> v < |dist|
      modifies this`l, this`visited, this`misread, best
      ensures PoolOk() && Members(list) <= visited
      ensures Extended(old(best[..l]), old(visited), best[..l], visited, expanded, dist, L)
      ensures AllExplored(expanded - misread, store.graph, visited) && expanded <= loaded.Keys
      ensures old(misread) <= misread && (pipe.numIos <= MAX_N_SECTOR_READS ==> misread == old(misread))
      ensures NoneNear() ==> expanded == {} && misread == old(misread) && visited == old(visited) + Members(list)
      ensures Members(list) <= old(visited) ==>
        misread == old(misread) && visited == old(visited) && l == old(l) && best[..l] == old(best[..l])
    {
      hide PoolInvariant, Cleared, Waiting, Explored, Consistent, NodesOk, FrontierOk, ResultsOk, ReplicasOk, QueueSafe;
      hide Pipeline.Valid, CircleQueue.Valid;
      hide Search.PipeOk, Search.LoadedOk, Search.Parts;
      ghost var pool, seen := best[..l], visited;
      var nbrs, visited1 := CollectUnvisited(list, visited);
      assert visited + Members(nbrs) == visited1;
      assert Members(list) <= seen ==> nbrs == [] by {
        if nbrs != [] {
          assert nbrs[0] in nbrs;
        }
      }
      var expand := OfferTargets(nbrs, visited);
      visited := visited1;
      expanded := Members(expand);
      for m := 0 to |expand|
        invariant 1 <= l <= L && visited1 <= visited && old(misread) <= misread
        invariant pipe.numIos <= MAX_N_SECTOR_READS ==> misread == old(misread)
        invariant Extended(pool, seen, best[..l], visited, expanded, dist, L)
        invariant AllExplored(Members(expand[..m]) - misread, store.graph, visited)
        invariant expand == [] ==> visited == visited1 && misread == old(misread)
        invariant nbrs == [] ==> l == old(l) && best[..l] == pool
      {
        assert expand[m] in expand;
        ghost var before, seen1, misread1 := Members(expand[..m]), visited, misread;
        ExpandNear(expand[m], pool, seen, expanded);
        assert Members(expand[..m + 1]) == before + {expand[m]} by {
          assert expand[..m + 1] == expand[..m] + [expand[m]];
        }
        StillExplored(before - misread1, store.graph, seen1, visited);
      }
      assert expand[..|expand|] == expand;
      StillExplored(done, store.graph, seen, visited);
    }

    /** The replicas that came with the page of request `n`, which is in buffer `buf`. */
    method LoadReplica(buf: nat, j: nat, x: nat, ghost n: nat)
      requires LoadedOk() && n < |pipe.nodes| && !Live(pipe.flow, n) && buf == Buffer(n)
      requires pipe.nodes[n].pid < |store.graph| && 0 < j < |store.disk(pipe.nodes[n].pid).layout|
      requires store.disk(pipe.nodes[n].pid).layout[j] == x
      modifies this`loaded, this`source
      ensures LoadedOk() && loaded == if x !in store.memPos && x !in old(loaded)
        then old(loaded)[x := Replica(buf, j)] else old(loaded)
    {
      hide Live;
      if x !in store.memPos && x !in loaded {
        loaded := loaded[x := Replica(buf, j)];
        source := source[x := n];
      }
    }

    method LoadReplicas(buf: nat, ghost n: nat)
      requires LoadedOk() && buf < pipe.scratch.Length && n < |pipe.nodes| && !Live(pipe.flow, n) && buf == Buffer(n)
      requires pipe.nodes[n].pid < |store.graph| && pipe.scratch[buf] == store.disk(pipe.nodes[n].pid)
      modifies this`loaded, this`source
      ensures LoadedOk() && old(loaded.Keys) <= loaded.Keys
      ensures LoadedMore(old(loaded), loaded, pipe.scratch[buf].layout, store.memPos.Keys, buf)
    {
      hide ReplicasOk, Live, LoadedMore;
      var layout := pipe.scratch[buf].layout;
      var j := 1;
      LoadedNone(loaded, layout, store.memPos.Keys, buf);
      while j < |layout|
        invariant LoadedOk() && 1 <= j <= |layout| + 1 && old(loaded.Keys) <= loaded.Keys
        invariant LoadedMore(old(loaded), loaded, layout[..if j < |layout| then j else |layout|], store.memPos.Keys,
          buf)
      {
        LoadedNext(old(loaded), loaded, layout, store.memPos.Keys, buf, j);
        LoadReplica(buf, j, layout[j], n);
        j := j + 1;
      }
      assert layout[..|layout|] == layout;
    }

    /** What is recorded of the request next in line. */
    lemma NextRequest(n: nat)
      requires Valid() && Idle() && pipe.nProc > 0 && pipe.flow.queued != [] && n == pipe.flow.queued[0]
      ensures n < |pipe.nodes| && Live(pipe.flow, n) && pipe.nodes[n].id == pipe.nodes[n].pid < |store.graph|
    {
      hide PoolInvariant, AllExplored, ServedBy, CoveredBy, OnTheWay, Cleared, QueueSafe, Consistent, ReplicaOk;
      hide ResultsOk;
      assert Live(pipe.flow, n);
      assert pipe.nodes[n] == pipe.frontier[n];
    }

    /** Take the page next in line, and note the exact distance of its node. */
    method TakePage() returns (id: nat, buf: nat, ghost n: nat)
      requires Valid() && Idle() && pipe.nProc > 0
      modifies this`fullRetset, this`owed
      modifies pipe`nProc, pipe`secBuf2ftr, pipe`flow, pipe.sectorBuffers`tail, pipe.sectorBuffers`contents
      ensures Parts() && PoolOk() && Served() && PipeOk() && LoadedOk() && Covered({id}) && Idle()
      ensures pipe.nProc == old(pipe.nProc) - 1 && id < |store.graph|
      ensures buf < pipe.scratch.Length && pipe.scratch[buf] == store.disk(id)
      ensures n < |pipe.nodes| && !Live(pipe.flow, n) && buf == Buffer(n) && pipe.nodes[n].pid == id
      ensures old(pipe.flow).queued != [] && n == old(pipe.flow).queued[0] && pipe.flow == TakeOne(old(pipe.flow))
    {
      hide PoolInvariant, AllExplored, ResultsOk, FrontierOk, NodesOk, ServedBy, CoveredBy, OnTheWay, ReplicasOk;
      hide Cleared, Waiting, QueueSafe, QueueOk, Consistent, Pipeline.Valid, CircleQueue.Valid, ReadDone;
      n := pipe.flow.queued[0];
      NextRequest(n);
      ghost var f := pipe.flow;
      var r := pipe.Take();
      id, buf := r.node.id, r.buf;
      ResultTaken(store, fullRetset, f, pipe.flow, pipe.nodes, pageVisited, pipe.frontier, pipe.ftrId, n);
      OthersOnTheWay(owed, cachedNode.contents, f, pipe.flow, pipe.nodes, pipe.frontier, pipe.ftrId, n);
      ReplicasKept(store, f, pipe.flow, pipe.nodes, pipe.nodes, loaded, source);
      if misread == {} {
        BeginWork(Cleared(best[..l]), pageVisited, done, owed, id);
      }
      ReadOneMore(fullRetset, done, Neighbor(id, pipe.scratch[buf].exact, true));
      fullRetset := fullRetset + [Neighbor(id, pipe.scratch[buf].exact, true)];
      owed := owed - {id};
    }

    /** Keep the replicas of a page and expand its node. */
    method ExpandPage(id: nat, buf: nat, ghost n: nat)
      requires Parts() && PoolOk() && Served() && PipeOk() && LoadedOk()
      requires id < |store.graph| && buf < pipe.scratch.Length && pipe.scratch[buf] == store.disk(id)
      requires n < |pipe.nodes| && !Live(pipe.flow, n) && buf == Buffer(n) && pipe.nodes[n].pid == id
      modifies this`l, this`visited, this`loaded, this`source, this`done, this`misread, best
      ensures PoolOk() && Served() && LoadedOk() && old(done) + {id} <= done && old(misread) <= misread
      ensures misread == {} ==> Cleared(best[..l]) <= old(Cleared(best[..l])) + done
      ensures Grows(old(best[..l]), old(visited), best[..l], visited)
      ensures pipe.numIos <= MAX_N_SECTOR_READS ==> misread == old(misread)
      ensures LoadedMore(old(loaded), loaded, store.disk(id).layout, store.memPos.Keys, buf)
      ensures NoneNear() ==> visited == old(visited) + Members(store.graph[id]) && misread == old(misread)
      ensures NoneNear() ==> Cleared(best[..l]) <= old(Cleared(best[..l]))
      ensures Members(store.graph[id]) <= old(visited) ==>
        misread == old(misread) && visited == old(visited) && l == old(l) && best[..l] == old(best[..l])
    {
      hide PoolInvariant, NodesOk, FrontierOk, ResultsOk, ReplicaOk, Cleared, Waiting, QueueSafe, CoveredBy;
      hide Pipeline.Valid, CircleQueue.Valid, LoadedMore;
      LoadReplicas(buf, n);
      assert PageOk(store, id);
      ghost var expanded := TargetUpdate(pipe.scratch[buf].lists[0]);
      assert Explored(id, store.graph, visited);
      done := done + {id} + (expanded - misread);
    }

    /** The page next in line: note the exact distance of its node, keep its replicas, and expand it. `n` is
        its request. */
    method ProcessPage() returns (ghost n: nat)
      requires Valid() && Idle() && pipe.nProc > 0
      modifies this`l, this`visited, this`loaded, this`source, this`fullRetset, this`done, this`owed, this`misread
      modifies best
      modifies pipe`nProc, pipe`secBuf2ftr, pipe`flow, pipe.sectorBuffers`tail, pipe.sectorBuffers`contents
      ensures Valid() && Idle() && pipe.nProc == old(pipe.nProc) - 1
      ensures Grows(old(best[..l]), old(visited), best[..l], visited)
      ensures old(pipe.flow).queued != [] && n == old(pipe.flow).queued[0] && pipe.flow == TakeOne(old(pipe.flow))
      ensures n < |pipe.nodes| && pipe.nodes[n].pid < |store.graph|
      ensures LoadedMore(old(loaded), loaded, store.disk(pipe.nodes[n].pid).layout, store.memPos.Keys, Buffer(n))
      ensures NoneNear() ==>
        visited == old(visited) + Members(store.graph[pipe.nodes[n].pid]) && misread == old(misread)
      ensures NoneNear() ==> Cleared(best[..l]) <= old(Cleared(best[..l]))
      ensures Members(store.graph[pipe.nodes[n].pid]) <= old(visited) ==>
        misread == old(misread) && visited == old(visited) && l == old(l) && best[..l] == old(best[..l])
    {
      hide PoolInvariant, AllExplored, OnTheWay, NodesOk, FrontierOk, ResultsOk, Cleared, Waiting, QueueSafe, QueueOk;
      hide Pipeline.Valid, CircleQueue.Valid, ReplicasOk, CoveredBy, Consistent, ServedBy, ReadDone, LoadedMore;
      var id, buf;
      id, buf, n := TakePage();
      ghost var cleared, was := Cleared(best[..l]), done;
      ExpandPage(id, buf, n);
      assert old(misread) <= misread;
      if misread == {} {
        EndWork(cleared, Cleared(best[..l]), pageVisited, was, done, owed, id);
      }
      StillDone(fullRetset, was + {id}, done + {});
    }

    /** Meet the neighbours of a node of the cached queue. */
    method PushCached(cn: CacheNode)
      requires Parts() && PoolOk() && Served() && cn.id < |store.graph| && InGraph(store, cn.nbrs)
      modifies this`l, this`visited, this`done, this`misread, best
      ensures PoolOk() && Served() && Cleared(best[..l]) <= old(Cleared(best[..l]))
      ensures misread == old(misread) + if Fits(store, cn) then {} else {cn.id}
      ensures done == old(done) + if Fits(store, cn) then {cn.id} else {}
      ensures Grows(old(best[..l]), old(visited), best[..l], visited)
      ensures visited == old(visited) + Members(cn.nbrs)
    {
      hide PoolInvariant, Cleared, Waiting;
      ghost var seen := visited;
      l, visited := PushNeighbours(best, l, cn.nbrs, L, dist, visited);
      StillExplored(done, store.graph, seen, visited);
      if Fits(store, cn) {
        assert Explored(cn.id, store.graph, visited);
        done := done + {cn.id};
      } else {
        misread := misread + {cn.id};
      }
    }

    method PopCached() returns (cn: CacheNode)
      requires Valid() && Idle() && nCached > 0
      modifies this`owed, this`nCached, cachedNode`tail, cachedNode`contents
      ensures Parts() && PoolOk() && Served() && PipeOk() && LoadedOk() && Covered({cn.id}) && Idle()
      ensures nCached == old(nCached) - 1 && cn.id < |store.graph| && InGraph(store, cn.nbrs)
      ensures [cn] + cachedNode.contents == old(cachedNode.contents)
      ensures pipe.numIos <= MAX_N_SECTOR_READS ==> Fits(store, cn)
    {
      hide PoolInvariant, AllExplored, OnTheWay, NodesOk, FrontierOk, ResultsOk, ReplicaOk, Cleared, Waiting, ServedBy;
      hide Pipeline.Valid, ReplicasOk, CoveredBy, QueueSafe, QueueOk, Consistent, ReadDone, Fits;
      hide InGraph;
      ghost var queue := cachedNode.contents;
      QueueRest(store, queue);
      cn := cachedNode.Get();
      nCached := nCached - 1;
      RestOnTheWay(owed, queue, pipe.flow, pipe.nodes, pipe.frontier, pipe.ftrId);
      if misread == {} {
        BeginWork(Cleared(best[..l]), pageVisited, done, owed, cn.id);
      }
      StillDone(fullRetset, done + {}, done + {cn.id});
      owed := owed - {cn.id};
    }

    method ExpandCached() returns (ghost cn: CacheNode)
      requires Valid() && Idle() && nCached > 0
      modifies this`l, this`visited, this`done, this`owed, this`misread, this`nCached, best
      modifies cachedNode`tail, cachedNode`contents
      ensures Valid() && Idle() && nCached == old(nCached) - 1
      ensures Grows(old(best[..l]), old(visited), best[..l], visited)
      ensures [cn] + cachedNode.contents == old(cachedNode.contents) && visited == old(visited) + Members(cn.nbrs)
      ensures misread == old(misread) + if Fits(store, cn) then {} else {cn.id}
    {
      hide PoolInvariant, AllExplored, OnTheWay, NodesOk, FrontierOk, ResultsOk, ReplicaOk, Cleared, Waiting, ServedBy;
      hide Pipeline.Valid, Grows, ReplicasOk, CoveredBy, QueueSafe, QueueOk, Consistent, ReadDone, Fits;
      hide InGraph, CircleQueue.Valid, Search.Valid, Search.Idle, Distinct;
      hide Search.Served, Search.PipeOk, Search.LoadedOk, Search.Parts, Search.PoolOk, Members;
      StoreFacts();
      ServedFacts();
      ghost var full, cleared, was := fullRetset, Cleared(best[..l]), done;
      var node := PopCached();
      cn := node;
      assert ReadDone(full, was + {});
      PushCached(node);
      PoolFacts();
      assert old(misread) <= misread;
      if misread == {} {
        EndWork(cleared, Cleared(best[..l]), pageVisited, was, done, owed, cn.id);
      }
      StillDone(fullRetset, was + {}, done + {});
      AllParts();
    }

    lemma AllParts()
      requires Parts() && PoolOk() && l <= best.Length && Served() && PipeOk() && LoadedOk() && Covered({})
      ensures Valid()
    {
    }

    /** Expand the nodes of the cached queue. */
    method DrainCached()
      requires Valid() && Idle()
      modifies this`l, this`visited, this`done, this`owed, this`misread, this`nCached, best
      modifies cachedNode`tail, cachedNode`contents
      ensures Valid() && Idle() && nCached == 0
      ensures Grows(old(best[..l]), old(visited), best[..l], visited)
      ensures visited == old(visited) + MetBy(old(cachedNode.contents))
      ensures misread == old(misread) + Misfits(store, old(cachedNode.contents))
      ensures old(nCached) == 0 ==> l == old(l) && best[..l] == old(best[..l])
    {
      hide Search.Parts, Search.Served, Search.LoadedOk, Search.Covered, Waiting, Cleared, PoolInvariant, AllExplored;
      hide Pipeline.Valid, CircleQueue.Valid, FrontierOk, ResultsOk, QueueSafe;
      ghost var pool, seen := best[..l], visited;
      while nCached > 0
        invariant Valid() && Idle() && l <= best.Length && Grows(pool, seen, best[..l], visited)
        invariant visited + MetBy(cachedNode.contents) == old(visited) + MetBy(old(cachedNode.contents))
        invariant misread + Misfits(store, cachedNode.contents) ==
          old(misread) + Misfits(store, old(cachedNode.contents))
        invariant old(nCached) == 0 ==> nCached == 0 && l == old(l) && best[..l] == pool
        decreases nCached
      {
        ghost var queue := cachedNode.contents;
        ghost var cn := ExpandCached();
        assert queue[0] == cn && queue[1..] == cachedNode.contents;
      }
    }

    /** What the next dispatch finds. */
    ghost function Sight(): View
      reads this, best, pipe, pipe.scratch
      requires l <= best.Length
    {
      View(store, pipe.scratch[..], loaded, pageVisited, best[..l], pipe.frontier)
    }

    ghost function Now(): Plan
      reads this, best, pipe`frontier, cachedNode`contents
      requires l <= best.Length
    {
      Plan(best[..l], cachedNode.contents, pipe.frontier)
    }

    method Enqueue(id: nat, nbrs: seq<nat>)
      requires Valid() && id < |store.graph| && InGraph(store, nbrs) && |cachedNode.contents| < MAX_N_SECTOR_READS
      requires pipe.numIos <= MAX_N_SECTOR_READS ==> nbrs == store.graph[id]
      modifies this`nCached, this`owed, cachedNode`head, cachedNode`contents, cachedNode.data
      ensures Valid() && nCached == old(nCached) + 1 && id in owed
      ensures cachedNode.contents == old(cachedNode.contents) + [CacheNode(id, nbrs)]
    {
      hide PoolInvariant, AllExplored, FrontierOk, NodesOk, ResultsOk, ReplicaOk, ServedBy, OnTheWay, Cleared;
      hide Pipeline.Valid, QueueSafe, QueueOk, InGraph, Consistent, ReadDone;
      ghost var queue := cachedNode.contents;
      QueueMore(store, queue, CacheNode(id, nbrs));
      cachedNode.Push(CacheNode(id, nbrs));
      nCached := nCached + 1;
      MoreOnTheWay(owed, queue, pipe.flow, pipe.nodes, pipe.frontier, pipe.ftrId, CacheNode(id, nbrs));
      owed := owed + {id};
    }

    method AskPage(id: nat)
      requires Valid() && id < |store.graph| && id in visited && id !in pageVisited
      modifies this`pageVisited, this`owed, pipe`frontier
      ensures Valid() && pageVisited == old(pageVisited) + {id} && id in owed
      ensures pipe.frontier == old(pipe.frontier) + [FrontierNode(id, id)]
    {
      hide PoolInvariant, AllExplored, FrontierOk, ResultsOk, ReplicaOk, OnTheWay, Cleared, Pipeline.Valid;
      hide CircleQueue.Valid, QueueSafe, QueueOk, Consistent, ReadDone;
      ghost var frontier := pipe.frontier;
      pipe.Record(FrontierNode(id, id));
      AskOnTheWay(owed, cachedNode.contents, pipe.flow, pipe.nodes, frontier, pipe.ftrId, pageVisited, id);
      pageVisited, owed := pageVisited + {id}, owed + {id};
    }

    /** Take the flag off an entry whose node is done or owed. */
    method ClearEntry(marker: nat)
      requires Valid() && marker < l && best[marker].flag && (misread == {} ==> best[marker].id in done + owed)
      requires best[marker].id in pageVisited || best[marker].id in store.memPos || best[marker].id in loaded
      modifies best
      ensures Valid() && best[..l] == old(best[..l])[marker := old(best[marker]).(flag := false)]
      ensures Waiting(best[..l]) < old(Waiting(best[..l]))
    {
      ClearedWaiting(best[..l], marker);
      ClearFlag(best, marker, l, visited, dist, L);
    }

    /** Send the entry at `marker` on its way: to the cached queue if its list is in memory or has been
        read, to the disk otherwise. A node from memory counts as `diskSeen`. */
    method DispatchEntry(marker: nat) returns (numSeen: nat, diskSeen: nat)
      requires Valid() && marker < l && best[marker].flag
      requires var kept := KeptAt(store, loaded, pageVisited, best[marker]);
        kept.InMemory? || kept.AtHand? ==> |cachedNode.contents| < MAX_N_SECTOR_READS
      modifies this`nCached, this`pageVisited, this`owed, best, pipe`frontier
      modifies cachedNode`head, cachedNode`contents, cachedNode.data
      ensures Valid() && Waiting(best[..l]) < old(Waiting(best[..l]))
      ensures old(pageVisited) <= pageVisited <= old(pageVisited) + {old(best[marker]).id}
      ensures var e, kept := old(best[marker]), old(KeptAt(store, loaded, pageVisited, best[marker]));
        && numSeen == (if kept.AtHand? || kept.OnDisk? then 1 else 0) && diskSeen == (if kept.InMemory? then 1 else 0)
        && best[..l] == old(best[..l])[marker := e.(flag := false)]
        && cachedNode.contents == old(cachedNode.contents) + Caches(store, pipe.scratch[..], loaded, kept, e.id)
        && pipe.frontier == old(pipe.frontier) + Asks(kept, e.id)
    {
      hide AllExplored, OnTheWay, QueueSafe, QueueOk, NodesOk, FrontierOk, ResultsOk, ReplicasOk, Cleared, Waiting;
      hide ServedBy, Pipeline.Valid, CircleQueue.Valid, ReadDone;
      var id := best[marker].id;
      numSeen, diskSeen := 0, 0;
      if id in store.memPos {
        Enqueue(id, store.memGraph[store.memPos[id]]);
        diskSeen := 1;
      } else if id in loaded {
        var list := ReplicaList(id);
        Enqueue(id, list);
        numSeen := 1;
      } else if id !in pageVisited {
        AskPage(id);
        numSeen := 1;
      }
      ClearEntry(marker);
    }

    /** Look at the entry at `marker`. */
    method LookAt(marker: nat) returns (numSeen: nat, diskSeen: nat)
      requires Valid() && marker < l
      requires var kept := KeptAt(store, loaded, pageVisited, best[marker]);
        kept.InMemory? || kept.AtHand? ==> |cachedNode.contents| < MAX_N_SECTOR_READS
      modifies this`nCached, this`pageVisited, this`owed, best, pipe`frontier
      modifies cachedNode`head, cachedNode`contents, cachedNode.data
      ensures Valid() && Waiting(best[..l]) <= old(Waiting(best[..l]))
      ensures numSeen + diskSeen > 0 ==> Waiting(best[..l]) < old(Waiting(best[..l]))
      ensures old(pageVisited) <= pageVisited <= old(pageVisited) + {old(best[marker]).id}
      ensures (numSeen, diskSeen) == old(Counts(KeptAt(store, loaded, pageVisited, best[marker])))
      ensures Now() == Looked(store, pipe.scratch[..], loaded, old(pageVisited), old(Now()), marker)
    {
      hide Search.Parts, Search.Served, Search.PipeOk, Search.LoadedOk, Search.Covered, PoolInvariant, AllExplored;
      hide Waiting, Consistent;
      numSeen, diskSeen := 0, 0;
      if best[marker].flag {
        numSeen, diskSeen := DispatchEntry(marker);
      } else {
        assert best[..l][marker := best[marker]] == best[..l];
      }
    }

    lemma QueueFacts()
      requires Valid()
      ensures nCached == |cachedNode.contents|
    {
    }

    lemma StoreFacts()
      requires Valid()
      ensures Consistent(store) && 1 <= beamWidth <= MAX_N_SECTOR_READS && l <= best.Length && Distinct(best[..l])
      ensures PoolOk()
    {
    }

    lemma NowFacts()
      requires l <= best.Length
      ensures Now().pool == best[..l] && Now().queue == cachedNode.contents && Now().frontier == pipe.frontier
    {
    }

    /** What one step of the loop over the list will do. */
    lemma MarkReady(marker: nat, numSeen: nat, diskSeen: nat, v: View)
      requires Valid() && marker < l && numSeen < beamWidth && diskSeen < beamWidth && Distinct(v.pool)
      requires Marking(v, beamWidth, marker, numSeen, diskSeen, Now()) && AskedSince(v, marker, pageVisited)
      requires v.store == store && v.scratch == pipe.scratch[..] && v.loaded == loaded
      requires Queued(Tags(v), beamWidth, 0, 0) <= MAX_N_SECTOR_READS
      ensures l <= best.Length
      ensures var kept := KeptAt(store, loaded, pageVisited, best[marker]);
        && (kept.InMemory? || kept.AtHand? ==> |cachedNode.contents| < MAX_N_SECTOR_READS)
        && Marking(v, beamWidth, marker + 1, numSeen + Counts(kept).0, diskSeen + Counts(kept).1,
          Looked(store, pipe.scratch[..], loaded, pageVisited, Now(), marker))
      ensures forall more {:trigger AskedSince(v, marker + 1, more)} ::
        pageVisited <= more <= pageVisited + {best[marker].id} ==> AskedSince(v, marker + 1, more)
    {
      hide *;
      StoreFacts();
      ghost var p := Now();
      assert p.pool == best[..l] && p.queue == cachedNode.contents && p.pool[marker] == best[marker] by {
        NowFacts();
      }
      PlanLength(v, beamWidth, marker, numSeen, diskSeen, p);
      SinceNext(v, marker, pageVisited);
      MarkRoom(v, beamWidth, marker, numSeen, diskSeen, p, pageVisited);
      MarkNext(v, beamWidth, marker, numSeen, diskSeen, p, pageVisited);
    }

    /** One step of the loop over the list. */
    method MarkEntry(marker: nat, numSeen0: nat, diskSeen0: nat, ghost v: View) returns (numSeen: nat, diskSeen: nat)
      requires Valid() && marker < l && numSeen0 < beamWidth && diskSeen0 < beamWidth && Distinct(v.pool)
      requires Marking(v, beamWidth, marker, numSeen0, diskSeen0, Now()) && AskedSince(v, marker, pageVisited)
      requires v.store == store && v.scratch == pipe.scratch[..] && v.loaded == loaded
      requires Queued(Tags(v), beamWidth, 0, 0) <= MAX_N_SECTOR_READS
      modifies this`nCached, this`pageVisited, this`owed, best, pipe`frontier
      modifies cachedNode`head, cachedNode`contents, cachedNode.data
      ensures Valid() && Marking(v, beamWidth, marker + 1, numSeen, diskSeen, Now())
      ensures AskedSince(v, marker + 1, pageVisited)
      ensures numSeen0 <= numSeen && diskSeen0 <= diskSeen && Waiting(best[..l]) <= old(Waiting(best[..l]))
      ensures numSeen0 + diskSeen0 < numSeen + diskSeen ==> Waiting(best[..l]) < old(Waiting(best[..l]))
    {
      hide *;
      MarkReady(marker, numSeen0, diskSeen0, v);
      var more, moreDisk := LookAt(marker);
      numSeen, diskSeen := numSeen0 + more, diskSeen0 + moreDisk;
    }

    lemma MarkFacts()
      requires Valid() && nCached == 0
      ensures Marking(Sight(), beamWidth, 0, 0, 0, Now()) && AskedSince(Sight(), 0, pageVisited)
      ensures Sight().store == store && Sight().scratch == pipe.scratch[..] && Sight().loaded == loaded
      ensures Sight().pool == best[..l] && Sight().frontier == pipe.frontier
    {
      hide Search.Parts, PoolInvariant, AllExplored, Search.Served, Search.LoadedOk, Search.Covered, QueueSafe, NodesOk;
      hide FrontierOk, ResultsOk, Pipeline.Valid, CircleQueue.Valid, Marking;
      MarkStart(Sight(), beamWidth);
      assert cachedNode.contents == [];
    }

    /** The loop of the dispatch over the list, from the nearest entry on, until a beam is on its way. */
    method MarkEntries() returns (ghost m: nat)
      requires Valid() && nCached == 0 && pipe.ftrId == |pipe.frontier|
      requires Queued(Tags(Sight()), beamWidth, 0, 0) <= MAX_N_SECTOR_READS
      modifies this`nCached, this`pageVisited, this`owed, best, pipe`frontier
      modifies cachedNode`head, cachedNode`contents, cachedNode.data
      ensures Valid() && pipe.ftrId <= |pipe.frontier| <= pipe.ftrId + beamWidth
      ensures m == Stop(Tags(old(Sight())), beamWidth, 0, 0) && Now() == PlanOf(old(Sight()), m)
      ensures nCached == Queued(Tags(old(Sight())), beamWidth, 0, 0)
      ensures Waiting(best[..l]) <= old(Waiting(best[..l]))
      ensures nCached + |pipe.frontier| > pipe.ftrId ==> Waiting(best[..l]) < old(Waiting(best[..l]))
      ensures nCached + |pipe.frontier| == pipe.ftrId ==> forall i :: 0 <= i < l ==> !best[i].flag
    {
      hide *;
      StoreFacts();
      MarkFacts();
      ghost var v := Sight();
      var numSeen, diskSeen, marker := 0, 0, 0;
      while marker < l && numSeen < beamWidth && diskSeen < beamWidth
        invariant Valid() && l == old(l) && marker <= l <= best.Length
        invariant Marking(v, beamWidth, marker, numSeen, diskSeen, Now()) && AskedSince(v, marker, pageVisited)
        invariant Waiting(best[..l]) <= old(Waiting(best[..l]))
        invariant numSeen + diskSeen > 0 ==> Waiting(best[..l]) < old(Waiting(best[..l]))
        decreases l - marker
      {
        numSeen, diskSeen := MarkEntry(marker, numSeen, diskSeen, v);
        marker := marker + 1;
      }
      m := marker;
      StoreFacts();
      QueueFacts();
      NowFacts();
      MarkEnd(v, beamWidth, marker, numSeen, diskSeen, Now());
      assert forall i :: 0 <= i < l ==> best[..l][i] == best[i];
    }

    /** Request the pages recorded by the dispatch. */
    method SendRequests()
      requires Valid() && pipe.nIo == 0 == |pipe.flow.flying| && pipe.nProc == |pipe.flow.queued|
      requires |pipe.frontier| - pipe.ftrId <= beamWidth
      requires Within(pipe.flow, MAX_N_SECTOR_READS - (|pipe.frontier| - pipe.ftrId))
      modifies pipe`nIo, pipe`sectorIdx, pipe`secBuf2ftr, pipe`inFlight, pipe`numIos, pipe`ftrId, pipe`flow, pipe`nodes
      ensures Valid() && Idle() && pipe.nIo == |pipe.frontier| - old(pipe.ftrId)
      ensures pipe.numIos == old(pipe.numIos) + pipe.nIo && pipe.nodes == pipe.frontier
      ensures pipe.flow.queued == old(pipe.flow.queued)
      ensures pipe.flow.flying == Interval(old(|pipe.flow.rounds|), |pipe.flow.rounds|)
    {
      hide PoolInvariant, AllExplored, ServedBy, CoveredBy, Cleared, QueueSafe, QueueOk, Consistent, ReadDone;
      hide Pipeline.Valid, CircleQueue.Valid, FrontierOk, ResultsOk, OnTheWay, Within, NodesOk, ReplicasOk;
      hide Search.PoolOk, Search.Served, Interval, Live, LiveBelow, Distinct, FlowInv, RoundOf;
      StoreFacts();
      FlowFacts();
      ghost var f, nodes, ftrId := pipe.flow, pipe.nodes, pipe.ftrId;
      ghost var round := pipe.Submit();
      BatchEnd(f, pipe.flow, round, pipe.nIo);
      Sent(store, f, pipe.flow, nodes, pipe.nodes, pipe.frontier, ftrId, pageVisited, fullRetset, owed,
        cachedNode.contents, loaded, source);
    }

    /** Collect completed reads; at least one if no page is waiting. */
    method CollectReads(minR: nat) returns (ghost done: seq<nat>)
      requires Valid() && Idle() && minR <= pipe.nIo
      modifies pipe`inFlight, pipe`nIo, pipe`nProc, pipe`flow, pipe`held, pipe.scratch, pipe.sectorBuffers
      modifies pipe.sectorBuffers.data
      ensures Valid() && Idle() && PoolOk() && pipe.nIo <= old(pipe.nIo) - minR
      ensures pipe.nIo + pipe.nProc == old(pipe.nIo + pipe.nProc)
      ensures pipe.flow == Completed(old(pipe.flow), done) && |done| == old(pipe.nIo) - pipe.nIo
      ensures NoRepeats(done) && Members(done) <= old(pipe.flow).flying
    {
      hide PoolInvariant, AllExplored, ServedBy, CoveredBy, Cleared, QueueSafe, QueueOk, FrontierOk, Consistent;
      hide ReadDone;
      ghost var f := pipe.flow;
      done := pipe.Reap(minR);
      SameOnTheWay(owed, cachedNode.contents, f, pipe.flow, pipe.nodes, pipe.frontier, pipe.ftrId);
      ReplicasKept(store, f, pipe.flow, pipe.nodes, pipe.nodes, loaded, source);
    }

    lemma PoolFacts()
      requires PoolOk()
      ensures 1 <= l <= L < best.Length && PoolInvariant(best[..l], visited, dist, L)
    {
    }

    lemma FlowFacts()
      requires Valid()
      ensures FlowInv(pipe.flow, beamWidth) && |pipe.flow.rounds| == pipe.numIos == |pipe.nodes|
      ensures pipe.ftrId <= |pipe.frontier|
      ensures LiveBelow(pipe.flow, |pipe.nodes|)
    {
    }

    /** Request the recorded pages, if their buffers are free or no buffer has been issued twice. */
    method SendBeam() returns (outcome: TurnEnd)
      requires Valid() && pipe.nIo == 0 == |pipe.flow.flying| && pipe.nProc == |pipe.flow.queued|
      requires |pipe.frontier| - pipe.ftrId <= beamWidth
      requires FitsRing(beamWidth, beamWidth / 2 + 1) ==> Within(pipe.flow, MAX_N_SECTOR_READS - beamWidth)
      modifies pipe`nIo, pipe`sectorIdx, pipe`secBuf2ftr, pipe`inFlight, pipe`numIos, pipe`ftrId, pipe`flow, pipe`nodes
      ensures outcome.BufferLost? ==> !FitsRing(beamWidth, beamWidth / 2 + 1) && pipe.numIos > MAX_N_SECTOR_READS
      ensures !outcome.BufferLost? ==> Valid() && Idle() && pipe.nIo == |pipe.frontier| - old(pipe.ftrId)
      ensures pipe.numIos == old(pipe.numIos) + (|pipe.frontier| - old(pipe.ftrId))
      ensures !outcome.BufferLost? ==> pipe.nodes == pipe.frontier && pipe.flow.queued == old(pipe.flow.queued)
      ensures !outcome.BufferLost? ==> pipe.flow.flying == Interval(old(|pipe.flow.rounds|), |pipe.flow.rounds|)
      ensures !outcome.BufferLost? ==> (outcome.Finished? <==> pipe.nIo == 0 && pipe.nProc == 0 && nCached == 0)
    {
      hide *;
      FlowFacts();
      StoreFacts();
      if FitsRing(beamWidth, beamWidth / 2 + 1) {
        RoomShrinks(pipe.flow, beamWidth, |pipe.frontier| - pipe.ftrId);
        SendRequests();
      } else if pipe.numIos + (|pipe.frontier| - pipe.ftrId) <= MAX_N_SECTOR_READS {
        EarlyRoom(pipe.flow, |pipe.frontier| - pipe.ftrId);
        SendRequests();
      } else {
        pipe.Overcommit();
        return BufferLost;
      }
      outcome := if pipe.nIo == 0 && pipe.nProc == 0 && nCached == 0 then Finished else GoesOn;
    }

    lemma BeamRoom()
      requires Valid() && Idle() && pipe.nIo == 0 && pipe.nProc <= beamWidth / 2
      ensures FitsRing(beamWidth, beamWidth / 2 + 1) ==> Within(pipe.flow, MAX_N_SECTOR_READS - beamWidth)
      ensures 0 == |pipe.flow.flying| && pipe.nProc == |pipe.flow.queued| && pipe.ftrId == |pipe.frontier|
    {
      FlowFacts();
      hide Search.Valid, Within, FlowInv, FitsRing;
      if FitsRing(beamWidth, beamWidth / 2 + 1) {
        DispatchRoom(pipe.flow, beamWidth, beamWidth / 2 + 1);
      }
    }

    /** One dispatch. The buffers it issues are free if the beam fits the ring, or as long as no buffer has been
        issued twice. The search has ended when nothing is on its way after it. */
    method Dispatch() returns (outcome: TurnEnd)
      requires Valid() && Idle() && pipe.nIo == 0 && nCached == 0 && pipe.nProc <= beamWidth / 2
      requires Queued(Tags(Sight()), beamWidth, 0, 0) <= MAX_N_SECTOR_READS
      modifies this`nCached, this`pageVisited, this`owed, best, cachedNode`head, cachedNode`contents, cachedNode.data
      modifies pipe`frontier, pipe`nIo, pipe`sectorIdx, pipe`secBuf2ftr, pipe`inFlight, pipe`numIos, pipe`ftrId
      modifies pipe`flow, pipe`nodes
      ensures PoolOk()
      ensures outcome.BufferLost? ==> !FitsRing(beamWidth, beamWidth / 2 + 1) && pipe.numIos > MAX_N_SECTOR_READS
      ensures !outcome.BufferLost? ==> Valid() && Idle() && pipe.nProc == old(pipe.nProc)
      ensures Now() == PlanOf(old(Sight()), Stop(Tags(old(Sight())), beamWidth, 0, 0))
      ensures pipe.numIos == old(pipe.numIos) + (|pipe.frontier| - old(|pipe.frontier|))
      ensures !outcome.BufferLost? ==> pipe.nodes == pipe.frontier && pipe.flow.queued == old(pipe.flow.queued)
      ensures !outcome.BufferLost? ==> pipe.flow.flying == Interval(old(|pipe.flow.rounds|), |pipe.flow.rounds|)
      ensures !outcome.BufferLost? ==> (outcome.Finished? <==> pipe.nIo == 0 && pipe.nProc == 0 && nCached == 0)
      ensures !outcome.BufferLost? && pipe.nIo + nCached > 0 ==> Waiting(best[..l]) < old(Waiting(best[..l]))
      ensures nCached == Queued(Tags(old(Sight())), beamWidth, 0, 0)
      ensures outcome.Finished? ==> pipe.numIos == old(pipe.numIos)
      ensures !outcome.BufferLost? && pipe.nIo + nCached == 0 ==> forall i :: 0 <= i < l ==> !best[i].flag
      ensures Waiting(best[..l]) <= old(Waiting(best[..l]))
    {
      hide *;
      BeamRoom();
      ghost var m := MarkEntries();
      StoreFacts();
      outcome := SendBeam();
    }

    ghost function Load(): nat
      reads this`nCached, pipe
    {
      2 * pipe.nIo + pipe.nProc + nCached
    }

    /** The first part of an iteration: a page that waits, and the nodes of the cached queue. */
    method WorkOff()
      requires Valid() && Idle()
      modifies this`l, this`visited, this`loaded, this`source, this`fullRetset, this`done, this`owed, this`misread
      modifies this`nCached, best, cachedNode`tail, cachedNode`contents
      modifies pipe`nProc, pipe`secBuf2ftr, pipe`flow, pipe.sectorBuffers`tail, pipe.sectorBuffers`contents
      ensures Valid() && Idle() && nCached == 0
      ensures pipe.nProc == if old(pipe.nProc) > 0 then old(pipe.nProc) - 1 else 0
      ensures Grows(old(best[..l]), old(visited), best[..l], visited)
      ensures pipe.numIos <= MAX_N_SECTOR_READS ==> misread == {}
    {
      hide PoolInvariant, AllExplored, OnTheWay, QueueSafe, QueueOk, NodesOk, FrontierOk, ResultsOk, ReplicaOk;
      hide Consistent, Cleared, Pipeline.Valid, CircleQueue.Valid, ReadDone, LoadedMore, CoveredBy, ServedBy;
      hide Search.NoneNear;
      if pipe.nProc > 0 {
        ghost var n := ProcessPage();
      }
      DrainCached();
    }

    /** A dispatch, if one is due. */
    method DispatchDue() returns (outcome: TurnEnd)
      requires Valid() && Idle() && nCached == 0 && 2 * beamWidth <= MAX_N_SECTOR_READS + 1
      modifies this`nCached, this`pageVisited, this`owed, best, cachedNode`head, cachedNode`contents, cachedNode.data
      modifies pipe`frontier, pipe`nIo, pipe`sectorIdx, pipe`secBuf2ftr, pipe`inFlight, pipe`numIos, pipe`ftrId
      modifies pipe`flow, pipe`nodes
      ensures PoolOk()
      ensures outcome.BufferLost? ==> !FitsRing(beamWidth, beamWidth / 2 + 1) && pipe.numIos > MAX_N_SECTOR_READS
      ensures !outcome.BufferLost? ==> Valid() && Idle() && pipe.nProc == old(pipe.nProc)
      ensures outcome.Finished? ==> pipe.nIo == 0 && pipe.nProc == 0 && nCached == 0 && pipe.numIos == old(pipe.numIos)
      ensures !outcome.BufferLost? && pipe.nIo + nCached == 0 && 2 * pipe.nProc <= beamWidth ==>
        forall i :: 0 <= i < l ==> !best[i].flag
      ensures Waiting(best[..l]) <= old(Waiting(best[..l]))
      ensures outcome.GoesOn? && Waiting(best[..l]) == old(Waiting(best[..l])) ==> 0 < Load() == old(Load())
    {
      StoreFacts();
      assert PoolOk();
      hide PoolInvariant, AllExplored, Waiting, FitsRing, Queued, Tags, Stop, PlanOf, Pipeline.Valid, CircleQueue.Valid;
      hide Search.Valid, Search.Parts, Search.Sight, Search.Now, Distinct;
      outcome := GoesOn;
      if pipe.nIo == 0 && nCached == 0 && pipe.nProc <= beamWidth / 2 {
        BeamQueued(Tags(Sight()), beamWidth);
        outcome := Dispatch();
      }
    }


    /** The second part: collect reads, and send the next beam if few pages wait. */
    method GoOn() returns (outcome: TurnEnd)
      requires Valid() && Idle() && nCached == 0 && 2 * beamWidth <= MAX_N_SECTOR_READS + 1
      modifies this`nCached, this`pageVisited, this`owed, best, cachedNode`head, cachedNode`contents, cachedNode.data
      modifies pipe, pipe.scratch, pipe.sectorBuffers, pipe.sectorBuffers.data
      ensures PoolOk()
      ensures outcome.BufferLost? ==> !FitsRing(beamWidth, beamWidth / 2 + 1) && pipe.numIos > MAX_N_SECTOR_READS
      ensures !outcome.BufferLost? ==> Valid() && Idle()
      ensures outcome.Finished? ==> pipe.nIo == 0 && pipe.nProc == 0 && nCached == 0
      ensures outcome.Finished? ==> pipe.numIos == old(pipe.numIos) && forall i :: 0 <= i < l ==> !best[i].flag
      ensures !outcome.BufferLost? && pipe.nIo + nCached == 0 && 2 * pipe.nProc <= beamWidth ==>
        forall i :: 0 <= i < l ==> !best[i].flag
      ensures Waiting(best[..l]) <= old(Waiting(best[..l]))
      ensures outcome.GoesOn? && Waiting(best[..l]) == old(Waiting(best[..l])) ==>
        0 < old(Load()) && Load() <= old(Load()) && (old(pipe.nProc) == 0 ==> Load() < old(Load()))
    {
      StoreFacts();
      assert PoolOk();
      hide PoolInvariant, AllExplored, Waiting, FitsRing, Queued, Tags, Stop, PlanOf, Pipeline.Valid, CircleQueue.Valid;
      hide Search.Valid, Search.Parts, Search.Sight, Search.Now, Distinct;
      hide Completed, Consistent, Cleared, NoRepeats, Members, Interval;
      if pipe.nIo > 0 {
        ghost var collected := CollectReads(if pipe.nProc == 0 then 1 else 0);
      }
      outcome := DispatchDue();
    }

    /** One turn of the traversal loop. Unless it ends the search, it meets a node, sends an entry on its
        way, or works off what is on its way. */
    method Iterate() returns (outcome: TurnEnd)
      requires Valid() && Idle() && 2 * beamWidth <= MAX_N_SECTOR_READS + 1
      modifies this, best, pipe, pipe.scratch, pipe.sectorBuffers, pipe.sectorBuffers.data, cachedNode, cachedNode.data
      ensures PoolOk() && Grows(old(best[..l]), old(visited), best[..l], visited)
      ensures outcome.BufferLost? ==> !FitsRing(beamWidth, beamWidth / 2 + 1) && pipe.numIos > MAX_N_SECTOR_READS
      ensures !outcome.BufferLost? ==> Valid() && Idle()
      ensures old(pipe.numIos) <= MAX_N_SECTOR_READS ==> misread == {}
      ensures outcome.Finished? ==> pipe.nIo == 0 && pipe.nProc == 0 && nCached == 0
      ensures outcome.Finished? ==> pipe.numIos == old(pipe.numIos) && forall i :: 0 <= i < l ==> !best[i].flag
      ensures !outcome.BufferLost? && pipe.nIo + nCached == 0 && 2 * pipe.nProc <= beamWidth ==>
        forall i :: 0 <= i < l ==> !best[i].flag
      ensures outcome.GoesOn? ==>
        visited != old(visited) || Waiting(best[..l]) != old(Waiting(best[..l])) || Load() < old(Load())
    {
      hide PoolInvariant, AllExplored, Waiting, FitsRing, Pipeline.Valid, CircleQueue.Valid;
      hide Search.Parts, Search.PipeOk, Search.LoadedOk, Search.Covered, Search.Served;
      hide Consistent, Cleared;
      WorkOff();
      outcome := GoOn();
    }

    /** Nothing is on its way, and no entry has a flag: every entry is done, unless a list was misread. */
    lemma AllDone()
      requires Valid() && Idle() && pipe.nIo == 0 && pipe.nProc == 0 && nCached == 0
      requires forall i :: 0 <= i < l ==> !best[i].flag
      ensures misread == {} ==> SearchDone(best[..l], visited, store.graph, dist, L)
      ensures TargetsOk(store, best[..l], visited, pageVisited, pipe.numIos)
      ensures forall id :: id in pageVisited ==> HasId(fullRetset, id)
    {
      hide *;
      StoreFacts();
      AllRead();
      if misread == {} {
        NoneOwed();
      }
      ServedFacts();
      TargetsExplored(store, fullRetset, done, visited, pageVisited);
      TargetsCounted();
      assert forall i :: 0 <= i < l ==> best[..l][i] == best[i];
      ServedTargets(store, best[..l], visited, pageVisited, loaded.Keys, pipe.numIos);
    }

    lemma ServedFacts()
      requires Valid()
      ensures l <= best.Length && ServedBy(Cleared(best[..l]), pageVisited, store.memPos.Keys, loaded.Keys, visited)
      ensures ReadDone(fullRetset, done + {}) && AllExplored(done, store.graph, visited)
    {
      hide ServedBy, ReadDone, AllExplored, CoveredBy, OnTheWay, PoolInvariant, Consistent, QueueSafe, QueueOk;
      hide NodesOk, FrontierOk, ResultsOk, ReplicasOk, Pipeline.Valid, CircleQueue.Valid;
    }

    lemma NoneOwed()
      requires Valid() && Idle() && pipe.nIo == 0 && pipe.nProc == 0 && nCached == 0 && misread == {}
      requires forall i :: 0 <= i < l ==> !best[i].flag
      ensures SearchDone(best[..l], visited, store.graph, dist, L)
    {
      assert pipe.flow.flying == {} && pipe.flow.queued == [] && cachedNode.contents == [];
      NothingOwed(owed, cachedNode.contents, pipe.flow, pipe.nodes, pipe.frontier, pipe.ftrId);
      forall i | 0 <= i < l
        ensures Explored(best[..l][i].id, store.graph, visited)
      {
        assert best[..l][i].id in Cleared(best[..l]);
      }
      AllExploredIsFixedPoint(best[..l], store.graph, visited, dist, L);
    }

    lemma AllRead()
      requires Valid() && Idle() && pipe.nIo == 0 && pipe.nProc == 0
      ensures forall id :: id in pageVisited ==> HasId(fullRetset, id)
    {
      assert pipe.flow.flying == {} && pipe.flow.queued == [];
      forall id | id in pageVisited
        ensures HasId(fullRetset, id)
      {
        assert Asked(pipe.frontier, id);
        var i :| 0 <= i < |pipe.frontier| && pipe.frontier[i].id == id;
        assert pipe.nodes[i].id == id && !Live(pipe.flow, i);
      }
    }

    lemma TargetsCounted()
      requires Valid() && Idle()
      ensures |pageVisited| == pipe.numIos && forall x :: x in loaded ==> OnPages(store, pageVisited, x)
    {
      AskedSize(pipe.frontier, pageVisited);
      ReplicasFromTargets(store, pipe.flow, pipe.nodes, loaded, source, pipe.frontier, pipe.ftrId, pageVisited);
    }

    /** The traversal. Left by `break`, it has read and expanded every page it asked for, whatever the order in
        which the reads completed; and it has reached a fixed point of the graph, unless a list was misread,
        which needs more than `MAX_N_SECTOR_READS` reads. */
    method Traverse() returns (end: Traversal)
      requires Valid() && Idle() && 2 * beamWidth <= MAX_N_SECTOR_READS + 1 && misread == {}
      modifies this, best, pipe, pipe.scratch, pipe.sectorBuffers, pipe.sectorBuffers.data, cachedNode, cachedNode.data
      ensures PoolOk() && old(visited) <= visited
      ensures end.Complete? ==> Valid() && Idle() && pipe.numIos < ioLimit
      ensures end.Complete? ==> TargetsOk(store, best[..l], visited, pageVisited, pipe.numIos)
      ensures end.Complete? ==> forall id :: id in pageVisited ==> HasId(fullRetset, id)
      ensures end.Complete? && misread == {} ==> SearchDone(best[..l], visited, store.graph, dist, L)
      ensures end.Complete? && pipe.numIos <= MAX_N_SECTOR_READS ==> misread == {}
      ensures end.UsedUp? ==> ioLimit <= pipe.numIos
      ensures end.Overrun? ==>
        !FitsRing(beamWidth, beamWidth / 2 + 1) && MAX_N_SECTOR_READS < pipe.numIos < ioLimit
      ensures ioLimit <= MAX_N_SECTOR_READS + 1 ==> misread == {}
    {
      hide *;
      end := UsedUp;
      StoreFacts();
      while pipe.numIos < ioLimit
        invariant Valid() && Idle() && PoolOk() && l <= best.Length && old(visited) <= visited
        invariant ioLimit <= MAX_N_SECTOR_READS + 1 ==> misread == {}
        decreases Below(|dist|) - visited, Waiting(best[..l]), Load()
      {
        PoolFacts();
        ghost var pool, seen := best[..l], visited;
        var outcome := Iterate();
        PoolFacts();
        GrowsFacts(pool, seen, best[..l], visited);
        if outcome.BufferLost? {
          return if ioLimit <= pipe.numIos then UsedUp else Overrun;
        }
        if outcome.Finished? {
          AllDone();
          MisreadLate();
          return Complete;
        }
        SeenInRange(best[..l], visited, dist, L, seen);
      }
    }

    lemma MisreadLate()
      requires Valid()
      ensures pipe.numIos <= MAX_N_SECTOR_READS ==> misread == {}
    {
    }
  }

  lemma TargetsExplored(s: Store, full: seq<Neighbor>, done: set<nat>, visited: set<nat>, targets: set<nat>)
    requires ReadDone(full, done + {}) && AllExplored(done, s.graph, visited)
    requires forall id :: id in targets ==> HasId(full, id)
    ensures AllExplored(targets, s.graph, visited)
  {
    forall id | id in targets
      ensures Explored(id, s.graph, visited)
    {
      assert HasId(full, id);
    }
  }

  lemma AskedSize(frontier: seq<FrontierNode>, pageVisited: set<nat>)
    requires forall i, j :: 0 <= i < |frontier| && 0 <= j < |frontier| && frontier[i].id == frontier[j].id ==> i == j
    requires forall id {:trigger Asked(frontier, id)} :: id in pageVisited <==> Asked(frontier, id)
    ensures |pageVisited| == |frontier|
  {
    var ids := seq(|frontier|, i requires 0 <= i < |frontier| => frontier[i].id);
    MembersSize(ids);
    forall id | id in pageVisited
      ensures id in ids
    {
      assert Asked(frontier, id);
      var i :| 0 <= i < |frontier| && frontier[i].id == id;
      assert ids[i] == id;
    }
    forall id | id in ids
      ensures id in pageVisited
    {
      assert Asked(frontier, id);
    }
    assert Members(ids) == pageVisited;
  }

  lemma ReplicasFromTargets(s: Store, f: Flow, nodes: seq<FrontierNode>, loaded: map<nat, Replica>, source: map<nat,
                            nat>,
                            frontier: seq<FrontierNode>, ftrId: nat, pageVisited: set<nat>)
    requires ReplicasOk(s, f, nodes, loaded, source) && NodesOk(s, nodes)
    requires FrontierOk(frontier, ftrId, nodes, pageVisited)
    ensures forall x :: x in loaded ==> OnPages(s, pageVisited, x)
  {
    forall x | x in loaded
      ensures OnPages(s, pageVisited, x)
    {
      var n := source[x];
      assert ReplicaOk(s, f, nodes, x, loaded[x], n);
      assert frontier[n] == nodes[n] && Asked(frontier, nodes[n].id);
      assert s.disk(nodes[n].pid).layout[loaded[x].slot] in s.disk(nodes[n].pid).layout;
    }
  }

  lemma ServedTargets(s: Store, pool: seq<Neighbor>, met: set<nat>, targets: set<nat>, replicas: set<nat>, ios: nat)
    requires ServedBy(Cleared(pool), targets, s.memPos.Keys, replicas, met) && |targets| == ios
    requires AllExplored(targets, s.graph, met)
    requires forall x :: x in replicas ==> OnPages(s, targets, x)
    requires forall i :: 0 <= i < |pool| ==> !pool[i].flag
    ensures TargetsOk(s, pool, met, targets, ios)
  {
    forall i | 0 <= i < |pool|
      ensures pool[i].id in targets || pool[i].id in s.memPos || OnPages(s, targets, pool[i].id)
    {
      assert pool[i].id in Cleared(pool);
    }
  }

  lemma {:induction false} QueuedAtMost(tags: seq<Kept>, width: nat, numSeen: nat, diskSeen: nat)
    requires numSeen <= width && diskSeen <= width && numSeen + diskSeen < 2 * width
    ensures Queued(tags, width, numSeen, diskSeen) + numSeen + diskSeen < 2 * width
  {
    if tags != [] && numSeen < width && diskSeen < width {
      match tags[0] {
        case Passed => QueuedAtMost(tags[1..], width, numSeen, diskSeen);
        case InMemory => QueuedAtMost(tags[1..], width, numSeen, diskSeen + 1);
        case AtHand => QueuedAtMost(tags[1..], width, numSeen + 1, diskSeen);
        case OnDisk => QueuedAtMost(tags[1..], width, numSeen + 1, diskSeen);
      }
    }
  }

  lemma LoadedNone(loaded: map<nat, Replica>, layout: seq<nat>, memory: set<nat>, buf: nat)
    ensures LoadedMore(loaded, loaded, layout[..if |layout| > 1 then 1 else |layout|], memory, buf)
  {
  }

  lemma LoadedNext(before: map<nat, Replica>, after: map<nat, Replica>, layout: seq<nat>, memory: set<nat>, buf: nat,
                   j: nat)
    requires 0 < j < |layout| && LoadedMore(before, after, layout[..j], memory, buf)
    ensures LoadedMore(before, if layout[j] !in memory && layout[j] !in after
      then after[layout[j] := Replica(buf, j)] else after, layout[..j + 1], memory, buf)
  {
    assert layout[..j + 1][1..] == layout[..j][1..] + [layout[j]];
  }

  lemma ReadOneMore(full: seq<Neighbor>, done: set<nat>, e: Neighbor)
    requires ReadDone(full, done + {})
    ensures ReadDone(full + [e], done + {e.id})
  {
  }

  lemma StillDone(full: seq<Neighbor>, done: set<nat>, done': set<nat>)
    requires ReadDone(full, done) && done <= done'
    ensures ReadDone(full, done')
  {
  }

  lemma NodesAlong(s: Store, frontier: seq<FrontierNode>, ftrId: nat, nodes: seq<FrontierNode>, pageVisited: set<nat>)
    requires FrontierOk(frontier, ftrId, nodes, pageVisited) && NodesOk(s, frontier)
    ensures NodesOk(s, nodes)
  {
  }

  /** Only pages of the first `m` entries have been asked for since. */
  ghost predicate AskedSince(v: View, m: nat, asked: set<nat>) {
    v.asked <= asked <= v.asked + set i | 0 <= i < m && i < |v.pool| :: v.pool[i].id
  }

  lemma SinceNext(v: View, m: nat, asked: set<nat>)
    requires AskedSince(v, m, asked) && Distinct(v.pool) && m < |v.pool|
    ensures v.pool[m].id in asked <==> v.pool[m].id in v.asked
    ensures forall more {:trigger AskedSince(v, m + 1, more)} :: asked <= more <= asked + {v.pool[m].id} ==>
      AskedSince(v, m + 1, more)
  {
  }

  lemma BeamQueued(tags: seq<Kept>, width: nat)
    requires 1 <= width && 2 * width <= MAX_N_SECTOR_READS + 1
    ensures Queued(tags, width, 0, 0) <= MAX_N_SECTOR_READS
  {
    QueuedAtMost(tags, width, 0, 0);
  }

  /** A list that fills the queue: all but one of a beam in memory, as many at hand, and one more. */
  function Filler(memory: nat, atHand: nat): seq<Kept> {
    if memory > 0 then [InMemory] + Filler(memory - 1, atHand)
    else if atHand > 0 then [AtHand] + Filler(0, atHand - 1)
    else [InMemory]
  }

  lemma {:induction false} FillerFills(width: nat, memory: nat, atHand: nat)
    requires memory < width && atHand < width && (memory > 0 ==> atHand == width - 1)
    ensures Queued(Filler(memory, atHand), width, width - 1 - atHand, width - 1 - memory) == memory + atHand + 1
  {
    if memory > 0 {
      FillerFills(width, memory - 1, atHand);
    } else if atHand > 0 {
      FillerFills(width, 0, atHand - 1);
    }
  }

  /** The cached queue holds what a dispatch puts into it, whatever the list, if and only if two beams
      less one fit into it. */
  lemma QueueIff(width: nat)
    requires width >= 1
    ensures (forall tags {:trigger Queued(tags, width, 0, 0)} :: Queued(tags, width, 0, 0) <= MAX_N_SECTOR_READS) <==>
      2 * width <= MAX_N_SECTOR_READS + 1
  {
    forall tags: seq<Kept>
      ensures Queued(tags, width, 0, 0) < 2 * width
    {
      QueuedAtMost(tags, width, 0, 0);
    }
    FillerFills(width, width - 1, width - 1);
  }

  lemma NothingOwed(owed: set<nat>, queue: seq<CacheNode>, f: Flow, nodes: seq<FrontierNode>,
                    frontier: seq<FrontierNode>, ftrId: nat)
    requires OnTheWay(owed, queue, f, nodes, frontier, ftrId)
    requires queue == [] && f.flying == {} && f.queued == [] && ftrId == |frontier|
    ensures owed == {}
  {
    forall id: nat
      ensures id !in owed
    {
      assert !InFlight(f, nodes, id);
    }
  }

  lemma MoreOnTheWay(owed: set<nat>, queue: seq<CacheNode>, f: Flow, nodes: seq<FrontierNode>,
                     frontier: seq<FrontierNode>, ftrId: nat, cn: CacheNode)
    requires OnTheWay(owed, queue, f, nodes, frontier, ftrId)
    ensures OnTheWay(owed + {cn.id}, queue + [cn], f, nodes, frontier, ftrId)
  {
    assert (queue + [cn])[|queue|] == cn;
    forall id | InQueue(queue, id)
      ensures InQueue(queue + [cn], id)
    {
      var i :| 0 <= i < |queue| && queue[i].id == id;
      assert (queue + [cn])[i].id == id;
    }
  }

  lemma AskOnTheWay(owed: set<nat>, queue: seq<CacheNode>, f: Flow, nodes: seq<FrontierNode>,
                    frontier: seq<FrontierNode>, ftrId: nat,
                    pageVisited: set<nat>, id: nat)
    requires OnTheWay(owed, queue, f, nodes, frontier, ftrId) && FrontierOk(frontier, ftrId, nodes, pageVisited)
    requires id !in pageVisited
    ensures OnTheWay(owed + {id}, queue, f, nodes, frontier + [FrontierNode(id, id)], ftrId)
    ensures FrontierOk(frontier + [FrontierNode(id, id)], ftrId, nodes, pageVisited + {id})
  {
    var frontier' := frontier + [FrontierNode(id, id)];
    assert frontier'[|frontier|].id == id && !Asked(frontier, id);
    forall x | Unsent(frontier, ftrId, x)
      ensures Unsent(frontier', ftrId, x)
    {
      var k :| ftrId <= k < |frontier| && frontier[k].id == x;
      assert frontier'[k].id == x;
    }
    forall x | x in pageVisited
      ensures Asked(frontier', x)
    {
      assert Asked(frontier, x);
      var k :| 0 <= k < |frontier| && frontier[k].id == x;
      assert frontier'[k].id == x;
    }
    forall x | Asked(frontier', x)
      ensures x in pageVisited + {id}
    {
      var k :| 0 <= k < |frontier'| && frontier'[k].id == x;
      if k < |frontier| {
        assert frontier[k].id == x && Asked(frontier, x);
      }
    }
    forall i | 0 <= i < |frontier|
      ensures frontier[i].id != id
    {
      assert Asked(frontier, frontier[i].id);
    }
  }

  lemma RestOnTheWay(owed: set<nat>, queue: seq<CacheNode>, f: Flow, nodes: seq<FrontierNode>,
                     frontier: seq<FrontierNode>, ftrId: nat)
    requires OnTheWay(owed, queue, f, nodes, frontier, ftrId) && queue != []
    ensures OnTheWay(owed - {queue[0].id}, queue[1..], f, nodes, frontier, ftrId)
  {
    forall id | id in owed - {queue[0].id} && InQueue(queue, id)
      ensures InQueue(queue[1..], id)
    {
      var i :| 0 <= i < |queue| && queue[i].id == id;
      assert queue[1..][i - 1].id == id;
    }
  }

  lemma SameOnTheWay(owed: set<nat>, queue: seq<CacheNode>, f: Flow, f': Flow, nodes: seq<FrontierNode>,
                     frontier: seq<FrontierNode>, ftrId: nat)
    requires OnTheWay(owed, queue, f, nodes, frontier, ftrId)
    requires forall n: nat {:trigger Live(f', n)} :: Live(f', n) <==> Live(f, n)
    ensures OnTheWay(owed, queue, f', nodes, frontier, ftrId)
  {
    forall id | InFlight(f, nodes, id)
      ensures InFlight(f', nodes, id)
    {
      var n: nat :| Live(f, n) && n < |nodes| && nodes[n].id == id;
      assert Live(f', n);
    }
  }

  ghost predicate LiveBelow(f: Flow, n: nat) {
    forall m: nat {:trigger Live(f, m)} :: Live(f, m) ==> m < n
  }

  /** What sending the recorded requests does to the accounts of a search. */
  lemma Sent(s: Store, f: Flow, f': Flow, nodes: seq<FrontierNode>, nodes': seq<FrontierNode>,
             frontier: seq<FrontierNode>, ftrId: nat,
             pageVisited: set<nat>, full: seq<Neighbor>, owed: set<nat>, queue: seq<CacheNode>,
             loaded: map<nat, Replica>, source: map<nat, nat>)
    requires ReplicasOk(s, f, nodes, loaded, source)
    requires FrontierOk(frontier, ftrId, nodes, pageVisited) && ResultsOk(s, full, f, nodes)
    requires OnTheWay(owed, queue, f, nodes, frontier, ftrId)
    requires f.flying == {} && nodes' == nodes + frontier[ftrId..] && |nodes| == |f.rounds| && |nodes'| == |f'.rounds|
    requires f'.queued == f.queued && f'.flying == Interval(|f.rounds|, |f'.rounds|)
    requires LiveBelow(f, |nodes|)
    ensures FrontierOk(frontier, |frontier|, nodes', pageVisited) && ResultsOk(s, full, f', nodes')
    ensures OnTheWay(owed, queue, f', nodes', frontier, |frontier|) && ReplicasOk(s, f', nodes', loaded, source)
    ensures nodes' == frontier
  {
    assert nodes' == frontier;
    forall n: nat {:trigger Live(f', n)} | n < |nodes'|
      ensures Live(f', n) <==> Live(f, n) || n >= |nodes|
    {
    }
    forall id | InFlight(f, nodes, id) || Unsent(frontier, ftrId, id)
      ensures InFlight(f', nodes', id)
    {
      if InFlight(f, nodes, id) {
        var n: nat :| Live(f, n) && n < |nodes| && nodes[n].id == id;
        assert Live(f', n) && nodes'[n].id == id;
      } else {
        var k :| ftrId <= k < |frontier| && frontier[k].id == id;
        assert Live(f', k) && nodes'[k].id == id;
      }
    }
    SentResults(s, f, f', nodes, nodes', frontier, ftrId, pageVisited, full);
    ReplicasKept(s, f, f', nodes, nodes', loaded, source);
  }

  lemma SentResults(s: Store, f: Flow, f': Flow, nodes: seq<FrontierNode>, nodes': seq<FrontierNode>,
                    frontier: seq<FrontierNode>, ftrId: nat,
                    pageVisited: set<nat>, full: seq<Neighbor>)
    requires FrontierOk(frontier, ftrId, nodes, pageVisited) && ResultsOk(s, full, f, nodes) && nodes' == frontier
    requires forall n: nat {:trigger Live(f', n)} :: n < |nodes'| ==> (Live(f', n) <==> Live(f, n) || n >= |nodes|)
    ensures ResultsOk(s, full, f', nodes')
  {
    forall k | 0 <= k < |full|
      ensures Asked(nodes', full[k].id)
    {
      assert Asked(nodes, full[k].id);
      var i :| 0 <= i < |nodes| && nodes[i].id == full[k].id;
      assert nodes'[i].id == full[k].id;
    }
    forall k, n | 0 <= k < |full| && |nodes| <= n < |nodes'|
      ensures full[k].id != nodes'[n].id
    {
      assert Asked(nodes, full[k].id);
      var i :| 0 <= i < |nodes| && nodes[i].id == full[k].id;
      assert frontier[i].id == full[k].id && i < n;
    }
    forall n: nat {:trigger Live(f', n)} | n < |nodes'|
      ensures HasId(full, nodes'[n].id) <==> !Live(f', n)
    {
      if n < |nodes| {
        assert HasId(full, nodes[n].id) <==> !Live(f, n);
      } else {
        assert forall k :: 0 <= k < |full| ==> full[k].id != nodes'[n].id;
      }
    }
  }

  lemma ResultTaken(s: Store, full: seq<Neighbor>, f: Flow, f': Flow, nodes: seq<FrontierNode>, pageVisited: set<nat>,
                    frontier: seq<FrontierNode>, ftrId: nat, n: nat)
    requires ResultsOk(s, full, f, nodes) && FrontierOk(frontier, ftrId, nodes, pageVisited)
    requires n < |nodes| && Live(f, n) && forall m: nat {:trigger Live(f', m)} :: Live(f', m) <==> Live(f, m) && m != n
    ensures ResultsOk(s, full + [Neighbor(nodes[n].id, s.disk(nodes[n].id).exact, true)], f', nodes)
  {
    var e := Neighbor(nodes[n].id, s.disk(nodes[n].id).exact, true);
    var full' := full + [e];
    assert frontier[n].id == nodes[n].id && Asked(nodes, nodes[n].id);
    assert !HasId(full, e.id);
    assert full'[|full|] == e;
    forall m: nat {:trigger Live(f', m)} | m < |nodes|
      ensures HasId(full', nodes[m].id) <==> !Live(f', m)
    {
      assert HasId(full, nodes[m].id) <==> !Live(f, m);
      if HasId(full, nodes[m].id) {
        var k :| 0 <= k < |full| && full[k].id == nodes[m].id;
        assert full'[k].id == nodes[m].id;
      }
      if HasId(full', nodes[m].id) {
        var k :| 0 <= k < |full'| && full'[k].id == nodes[m].id;
        if k == |full| {
          assert frontier[m].id == frontier[n].id;
        } else {
          assert full[k].id == nodes[m].id;
        }
      }
    }
  }

  lemma OthersOnTheWay(owed: set<nat>, queue: seq<CacheNode>, f: Flow, f': Flow, nodes: seq<FrontierNode>,
                       frontier: seq<FrontierNode>, ftrId: nat, n: nat)
    requires OnTheWay(owed, queue, f, nodes, frontier, ftrId)
    requires n < |nodes| && forall m: nat {:trigger Live(f', m)} :: Live(f', m) <==> Live(f, m) && m != n
    ensures OnTheWay(owed - {nodes[n].id}, queue, f', nodes, frontier, ftrId)
  {
    forall id | id in owed - {nodes[n].id} && InFlight(f, nodes, id)
      ensures InFlight(f', nodes, id)
    {
      var m: nat :| Live(f, m) && m < |nodes| && nodes[m].id == id;
      assert Live(f', m);
    }
  }

  lemma StillExplored(ids: set<nat>, graph: Graph, seen: set<nat>, more: set<nat>)
    requires AllExplored(ids, graph, seen) && seen <= more
    ensures AllExplored(ids, graph, more)
  {
    forall v | v in ids
      ensures Explored(v, graph, more)
    {
      assert Explored(v, graph, seen);
    }
  }
}
