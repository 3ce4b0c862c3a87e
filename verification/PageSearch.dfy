/** The traversal of `page_search`: pages hold several nodes, and a page once read is expanded as far
    as its nodes are near enough. The pipeline of reads is the same as in the search over replicated
    lists, but here buffers are used again and again. */
module PageSearch {
  import opened BeamSearch
  import opened DiskPool
  import opened IoPipeline
  import opened NeighborPool
  import opened Sets

  /** The nodes of a page: exact distances from the query, and adjacency lists. */
  datatype Page = Page(exact: seq<real>, lists: seq<seq<nat>>)

  datatype Layout = Layout(pages: seq<seq<nat>>, id2page: seq<nat>, disk: nat -> Page, memPos: map<nat, nat>,
    memGraph: Graph)

  ghost predicate PageOk(s: Layout, pid: nat) {
    && pid < |s.pages| && |s.disk(pid).exact| == |s.disk(pid).lists| == |s.pages[pid]|
    && forall j :: 0 <= j < |s.pages[pid]| ==>
         s.pages[pid][j] < |s.id2page| && forall v :: v in s.disk(pid).lists[j] ==> v < |s.id2page|
  }

  ghost predicate OnPage(s: Layout, fn: FrontierNode) {
    fn.pid < |s.pages| && fn.id in s.pages[fn.pid]
  }

  /** Every node is on one page, the page that `id2page` says. */
  ghost predicate Consistent(s: Layout) {
    && (forall pid: nat {:trigger PageOk(s, pid)} :: pid < |s.pages| ==> PageOk(s, pid))
    && (forall id {:trigger s.id2page[id]} :: 0 <= id < |s.id2page| ==> OnPage(s, FrontierNode(id, s.id2page[id])))
    && (forall pid, j :: 0 <= pid < |s.pages| && 0 <= j < |s.pages[pid]| && s.pages[pid][j] < |s.id2page| ==>
         s.id2page[s.pages[pid][j]] == pid)
    && (forall pid {:trigger s.pages[pid]} :: 0 <= pid < |s.pages| ==> NoRepeats(s.pages[pid]))
    && (forall id :: id in s.memPos ==> s.memPos[id] < |s.memGraph|)
    && (forall u :: 0 <= u < |s.memGraph| ==> forall v :: v in s.memGraph[u] ==> v < |s.id2page|)
  }

  ghost predicate Requested(nodes: seq<FrontierNode>, pid: nat) {
    exists n :: 0 <= n < |nodes| && nodes[n].pid == pid
  }

  ghost predicate UnsentPage(frontier: seq<FrontierNode>, from: nat, pid: nat) {
    exists k :: from <= k < |frontier| && frontier[k].pid == pid
  }

  /** The parameters of a search, and the nodes it starts from. */
  datatype Terms = Terms(dist: seq<real>, L: nat, ratio: real, start: set<nat>)

  /** One visit to a page: the slots taken up, and the list and the nodes met as the loop came to each slot. */
  datatype Visit = Visit(slots: seq<nat>, pools: seq<seq<Neighbor>>, seens: seq<set<nat>>)

  ghost predicate NearEnough(q: Terms, pool: seq<Neighbor>, id: nat) {
    pool != [] && id < |q.dist| && q.dist[id] < pool[|pool| - 1].distance * q.ratio
  }

  /** Of the first `m` slots those are taken up that hold the node asked for or one near enough by the list of the
      moment, which holds the closest of the nodes met. */
  ghost predicate Visiting(s: Layout, q: Terms, fn: FrontierNode, v: Visit, m: nat) {
    && fn.pid < |s.pages| && m <= |s.pages[fn.pid]| && |v.pools| == |v.seens| == m + 1
    && (forall j {:trigger v.pools[j]} :: 0 <= j <= m ==> PoolInvariant(v.pools[j], v.seens[j], q.dist, q.L))
    && (forall c :: c in v.slots ==> c < m)
    && (forall j {:trigger v.pools[j]} :: 0 <= j < m ==>
         (j in v.slots <==> s.pages[fn.pid][j] == fn.id || NearEnough(q, v.pools[j], s.pages[fn.pid][j])))
    && (forall j {:trigger v.seens[j]} :: 0 <= j < m ==>
         v.seens[j + 1] == if j in v.slots then v.seens[j] + {s.pages[fn.pid][j]} else v.seens[j])
  }

  /** Of the nodes in the first `m` slots exactly those taken up are noted, with their exact distances. */
  ghost predicate SlotsNoted(s: Layout, pid: nat, slots: seq<nat>, full: seq<Neighbor>, m: nat) {
    && PageOk(s, pid) && m <= |s.pages[pid]|
    && forall j {:trigger s.pages[pid][j]} :: 0 <= j < m ==>
         && (j in slots <==> HasId(full, s.pages[pid][j]))
         && (j in slots ==> Neighbor(s.pages[pid][j], s.disk(pid).exact[j], true) in full)
  }

  /** All neighbours of the nodes taken up have been met. */
  ghost predicate SlotsExpanded(page: Page, slots: seq<nat>, visited: set<nat>) {
    forall c :: c in slots ==> c < |page.lists| && Members(page.lists[c]) <= visited
  }

  ghost predicate VisitDone(s: Layout, q: Terms, fn: FrontierNode, v: Visit, visited: set<nat>, full: seq<Neighbor>) {
    && PageOk(s, fn.pid) && Visiting(s, q, fn, v, |s.pages[fn.pid]|)
    && q.start <= v.seens[0] && v.seens[|s.pages[fn.pid]|] <= visited
    && SlotsNoted(s, fn.pid, v.slots, full, |s.pages[fn.pid]|)
    && SlotsExpanded(s.disk(fn.pid), v.slots, visited)
  }

  /** The page has been processed for this node: the nodes taken up, this one among them, have been noted and
      expanded, and no others on the page. */
  ghost predicate TargetDone(s: Layout, q: Terms, fn: FrontierNode, visited: set<nat>, full: seq<Neighbor>) {
    exists v: Visit {:trigger VisitDone(s, q, fn, v, visited, full)} :: VisitDone(s, q, fn, v, visited, full)
  }

  /** Each page asked for has been requested or will be with the dispatch at hand, and no others. */
  ghost predicate Asked(s: Layout, nodes: seq<FrontierNode>, frontier: seq<FrontierNode>, ftrId: nat,
                        pageVisited: set<nat>) {
    && (forall pid {:trigger Requested(nodes, pid)} :: pid in pageVisited ==>
         Requested(nodes, pid) || UnsentPage(frontier, ftrId, pid))
    && (forall n {:trigger nodes[n]} :: 0 <= n < |nodes| ==> OnPage(s, nodes[n]) && nodes[n].pid in pageVisited)
    && (forall k {:trigger frontier[k]} :: ftrId <= k < |frontier| ==>
         OnPage(s, frontier[k]) && frontier[k].pid in pageVisited)
  }

  /** The pages of all requests taken so far have been processed, but perhaps for request `but`. */
  ghost predicate Processed(s: Layout, q: Terms, f: Flow, nodes: seq<FrontierNode>, visited: set<nat>,
                            full: seq<Neighbor>, but: int) {
    forall n: nat {:trigger Live(f, n)} :: n < |nodes| && !Live(f, n) && n != but ==>
      TargetDone(s, q, nodes[n], visited, full)
  }

  /** The node is in memory, and its neighbours have been met or its list is in the queue; or its page has
      been asked for. */
  ghost predicate Sent(s: Layout, id: nat, queue: seq<nat>, visited: set<nat>, pageVisited: set<nat>) {
    || (id in s.memPos && s.memPos[id] < |s.memGraph| &&
      (s.memPos[id] in queue || Members(s.memGraph[s.memPos[id]]) <= visited))
    || (id < |s.id2page| && s.id2page[id] in pageVisited)
  }

  ghost predicate AllSent(s: Layout, ids: set<nat>, queue: seq<nat>, visited: set<nat>, pageVisited: set<nat>) {
    forall id :: id in ids ==> Sent(s, id, queue, visited, pageVisited)
  }

  /** A node noted with its exact distance. */
  ghost predicate NoteOk(s: Layout, e: Neighbor) {
    && e.flag && e.id < |s.id2page| && s.id2page[e.id] < |s.pages|
    && exists j {:trigger s.pages[s.id2page[e.id]][j]} :: 0 <= j < |s.pages[s.id2page[e.id]]|
         && s.pages[s.id2page[e.id]][j] == e.id && j < |s.disk(s.id2page[e.id]).exact|
         && e.distance == s.disk(s.id2page[e.id]).exact[j]
  }

  /** The page has been read and taken for processing. */
  ghost predicate PageTaken(f: Flow, nodes: seq<FrontierNode>, pid: nat) {
    exists n: nat {:trigger nodes[n]} :: n < |nodes| && !Live(f, n) && nodes[n].pid == pid
  }

  /** The notes: exact, of pages taken, each node once. */
  ghost predicate NotesOk(s: Layout, full: seq<Neighbor>, f: Flow, nodes: seq<FrontierNode>) {
    && Distinct(full)
    && forall k {:trigger full[k]} :: 0 <= k < |full| ==>
         NoteOk(s, full[k]) && PageTaken(f, nodes, s.id2page[full[k].id])
  }

  /** The requests made and those to come. */
  ghost function AllRequests(nodes: seq<FrontierNode>, frontier: seq<FrontierNode>, ftrId: nat): seq<FrontierNode> {
    if ftrId <= |frontier| then nodes + frontier[ftrId..] else nodes
  }

  ghost predicate PidsOnce(all: seq<FrontierNode>) {
    forall i, j {:trigger all[i], all[j]} :: 0 <= i < |all| && 0 <= j < |all| && all[i].pid == all[j].pid ==> i == j
  }

  /** Of the nodes on a page only the first `j` may have been noted. */
  ghost predicate NoneYet(s: Layout, full: seq<Neighbor>, pid: nat, j: nat) {
    && pid < |s.pages| && j <= |s.pages[pid]|
    && forall k {:trigger full[k]} :: 0 <= k < |full| && full[k].id < |s.id2page| && s.id2page[full[k].id] == pid ==>
         full[k].id in s.pages[pid][..j]
  }

  lemma NoteMore(s: Layout, full: seq<Neighbor>, f: Flow, nodes: seq<FrontierNode>, pid: nat, j: nat, e: Neighbor)
    requires Consistent(s) && NotesOk(s, full, f, nodes) && NoneYet(s, full, pid, j) && j < |s.pages[pid]|
    requires e.flag && e.id == s.pages[pid][j] < |s.id2page| && j < |s.disk(pid).exact|
    requires e.distance == s.disk(pid).exact[j] && PageTaken(f, nodes, pid)
    ensures NotesOk(s, full + [e], f, nodes) && NoneYet(s, full + [e], pid, j + 1)
  {
    var layout, full' := s.pages[pid], full + [e];
    assert s.id2page[e.id] == pid && NoRepeats(layout);
    assert layout[..j + 1] == layout[..j] + [layout[j]];
    assert e.id !in layout[..j];
    assert NoteOk(s, e);
    forall k | 0 <= k < |full|
      ensures full[k].id != e.id && full'[k] == full[k] && full[k].id < |s.id2page|
    {
      assert NoteOk(s, full[k]);
    }
    hide NoteOk, PageTaken;
  }

  lemma NoteSkip(s: Layout, full: seq<Neighbor>, pid: nat, j: nat)
    requires NoneYet(s, full, pid, j) && j < |s.pages[pid]|
    ensures NoneYet(s, full, pid, j + 1)
  {
    assert s.pages[pid][..j + 1] == s.pages[pid][..j] + [s.pages[pid][j]];
  }

  lemma NotesKept(s: Layout, full: seq<Neighbor>, f: Flow, f': Flow, nodes: seq<FrontierNode>,
    nodes': seq<FrontierNode>)
    requires NotesOk(s, full, f, nodes) && nodes <= nodes'
    requires forall n: nat {:trigger Live(f', n)} :: n < |nodes| && Live(f', n) ==> Live(f, n)
    ensures NotesOk(s, full, f', nodes')
  {
    forall k | 0 <= k < |full|
      ensures NoteOk(s, full[k]) && PageTaken(f', nodes', s.id2page[full[k].id])
    {
      assert NoteOk(s, full[k]) && PageTaken(f, nodes, s.id2page[full[k].id]);
      hide NoteOk;
      var n: nat :| n < |nodes| && !Live(f, n) && nodes[n].pid == s.id2page[full[k].id];
      assert nodes'[n] == nodes[n] && !Live(f', n);
    }
  }

  /** No node of a page that waits has been noted. */
  lemma NothingNoted(s: Layout, full: seq<Neighbor>, f: Flow, nodes: seq<FrontierNode>, all: seq<FrontierNode>, n: nat)
    requires NotesOk(s, full, f, nodes) && PidsOnce(all) && nodes <= all && n < |nodes| && Live(f, n)
    requires nodes[n].pid < |s.pages|
    ensures NoneYet(s, full, nodes[n].pid, 0)
  {
    hide NoteOk;
    forall k | 0 <= k < |full| && full[k].id < |s.id2page|
      ensures s.id2page[full[k].id] != nodes[n].pid
    {
      assert PageTaken(f, nodes, s.id2page[full[k].id]);
      var m: nat :| m < |nodes| && !Live(f, m) && nodes[m].pid == s.id2page[full[k].id];
      assert m != n && all[m] == nodes[m] && all[n] == nodes[n];
    }
  }

  lemma OneMorePid(s: Layout, nodes: seq<FrontierNode>, frontier: seq<FrontierNode>, ftrId: nat, pageVisited: set<nat>,
                   fn: FrontierNode)
    requires Asked(s, nodes, frontier, ftrId, pageVisited) && fn.pid !in pageVisited && ftrId <= |frontier|
    requires PidsOnce(AllRequests(nodes, frontier, ftrId))
    ensures PidsOnce(AllRequests(nodes, frontier + [fn], ftrId))
  {
    hide OnPage;
    var all := AllRequests(nodes, frontier, ftrId);
    assert AllRequests(nodes, frontier + [fn], ftrId) == all + [fn];
    forall i | 0 <= i < |all|
      ensures all[i].pid in pageVisited
    {
      assert all[i] == if i < |nodes| then nodes[i] else frontier[ftrId + (i - |nodes|)];
    }
  }

  lemma NotesSent(s: Layout, full: seq<Neighbor>, f: Flow, f': Flow, nodes: seq<FrontierNode>,
    nodes': seq<FrontierNode>)
    requires NotesOk(s, full, f, nodes) && nodes <= nodes' && |nodes| == |f.rounds|
    requires f'.queued == f.queued && f'.flying == Interval(|f.rounds|, |f'.rounds|)
    ensures NotesOk(s, full, f', nodes')
  {
    NotesKept(s, full, f, f', nodes, nodes');
  }

  lemma PageIsTaken(f: Flow, nodes: seq<FrontierNode>, n: nat)
    requires n < |nodes| && !Live(f, n)
    ensures PageTaken(f, nodes, nodes[n].pid)
  {
  }

  lemma SameRequests(nodes: seq<FrontierNode>, frontier: seq<FrontierNode>, frontier': seq<FrontierNode>)
    ensures AllRequests(nodes, frontier, |frontier|) == AllRequests(nodes, frontier', |frontier'|)
  {
  }

  lemma RequestsMade(nodes: seq<FrontierNode>, frontier: seq<FrontierNode>, ftrId: nat)
    ensures nodes <= AllRequests(nodes, frontier, ftrId)
  {
  }

  lemma RequestsSent(nodes: seq<FrontierNode>, frontier: seq<FrontierNode>, ftrId: nat)
    requires ftrId <= |frontier|
    ensures AllRequests(nodes + frontier[ftrId..], frontier, |frontier|) == AllRequests(nodes, frontier, ftrId)
  {
  }

  predicate MayDispatch(nProc: nat, beamWidth: nat): (r: bool)
    ensures r <==> 2 * nProc + 2 <= beamWidth
  {
    nProc < beamWidth / 2
  }

  /** A beam of one lets no dispatch pass. */
  lemma DispatchNeedsTwo(beamWidth: nat)
    ensures (exists nProc: nat :: MayDispatch(nProc, beamWidth)) <==> beamWidth >= 2
  {
    assert MayDispatch(0, beamWidth) <==> beamWidth >= 2;
  }

  /** Nothing has been asked for. */
  lemma Beginning(s: Layout)
    ensures Asked(s, [], [], 0, {}) && NotesOk(s, [], Flow([], {}, []), []) && PidsOnce(AllRequests([], [], 0))
    ensures forall q, visited {:trigger Processed(s, q, Flow([], {}, []), [], visited, [], -1)} ::
      Processed(s, q, Flow([], {}, []), [], visited, [], -1)
  {
  }

  lemma NothingCleared(s: Layout, pool: seq<Neighbor>, visited: set<nat>)
    requires Fresh(pool)
    ensures AllSent(s, Cleared(pool), [], visited, {})
  {
    assert Cleared(pool) == {};
  }

  class Search {
    const store: Layout
    const L: nat
    const beamWidth: nat
    const ioLimit: nat
    const ratio: real
    const dist: seq<real>
    ghost const start: set<nat>
    const best: array<Neighbor>
    const pipe: Pipeline<Page>
    const cachedIds: CircleQueue<nat>
    var l: nat
    var visited: set<nat>
    var pageVisited: set<nat>
    var fullRetset: seq<Neighbor>
    var nCached: nat

    constructor (store: Layout, dist: seq<real>, L: nat, beamWidth: nat, ioLimit: nat, ratio: real, seeds: seq<nat>)
      requires Consistent(store) && |dist| == |store.id2page|
      requires beamWidth <= MAX_N_SECTOR_READS
      requires 1 <= |seeds| <= L && NoRepeats(seeds) && forall v :: v in seeds ==> v < |dist|
      ensures Valid() && Idle() && visited == Members(seeds) && pageVisited == {} && fullRetset == []
      ensures fresh(best) && fresh(pipe) && fresh(pipe.scratch) && fresh(pipe.sectorBuffers)
      ensures fresh(pipe.sectorBuffers.data)
      ensures fresh(cachedIds) && fresh(cachedIds.data)
      ensures this.store == store && this.dist == dist && this.beamWidth == beamWidth && this.ioLimit == ioLimit
      ensures this.L == L && Load() == 0 && pipe.numIos == 0 && pipe.flow == Flow([], {}, [])
      ensures Given() == Terms(dist, L, ratio, Members(seeds))
    {
      hide Pipeline.Valid, CircleQueue.Valid, PoolInvariant, Consistent, Members, Asked, Processed, NotesOk, PidsOnce;
      hide AllRequests, AllSent, Cleared;
      Beginning(store);
      this.store, this.dist, this.L, this.beamWidth, this.ioLimit, this.ratio := store, dist, L, beamWidth, ioLimit,
        ratio;
      start := Members(seeds);
      var best := new Neighbor[L + 1](_ => Neighbor(0, 0.0, false));
      var l, visited := AddSeeds(best, seeds, L, dist);
      this.best, this.l, this.visited := best, l, visited;
      pipe := new Pipeline(beamWidth, store.disk);
      cachedIds := new CircleQueue(MAX_N_SECTOR_READS);
      pageVisited, fullRetset, nCached := {}, [], 0;
      NothingCleared(store, best[..l], visited);
    }

    ghost predicate Parts() {
      && Consistent(store) && |dist| == |store.id2page| && pipe.disk == store.disk && pipe.beamWidth == beamWidth
      && cachedIds.size == MAX_N_SECTOR_READS && (cachedIds as object) != (pipe.sectorBuffers as object)
      && (cachedIds.data as object) != (pipe.sectorBuffers.data as object)
      && (cachedIds.data as object) != (pipe.scratch as object)
      && beamWidth <= MAX_N_SECTOR_READS
    }

    ghost function Given(): Terms {
      Terms(dist, L, ratio, start)
    }

    ghost predicate PoolOk()
      reads this`l, this`visited, best
    {
      1 <= l <= L < best.Length && PoolInvariant(best[..l], visited, dist, L) && start <= visited
    }

    ghost predicate PipeOk(but: int)
      reads this`visited, this`pageVisited, this`fullRetset, pipe, pipe.scratch, pipe.sectorBuffers,
        pipe.sectorBuffers.data
    {
      && pipe.Valid() && Asked(store, pipe.nodes, pipe.frontier, pipe.ftrId, pageVisited)
      && Processed(store, Given(), pipe.flow, pipe.nodes, visited, fullRetset, but)
    }

    /** Every entry without a flag has been sent on its way. */
    ghost predicate EntriesOk()
      requires l <= best.Length
      reads this`l, this`visited, this`pageVisited, best, cachedIds`contents
    {
      AllSent(store, Cleared(best[..l]), cachedIds.contents, visited, pageVisited)
    }

    ghost predicate CacheOk()
      reads this`nCached, cachedIds, cachedIds.data
    {
      && cachedIds.Valid() && nCached == |cachedIds.contents|
      && forall i :: 0 <= i < nCached ==> cachedIds.contents[i] < |store.memGraph|
    }

    /** Every node is noted at most once, with its exact distance; every page is asked for at most once. */
    ghost predicate FullOk()
      reads this`fullRetset, pipe`flow, pipe`nodes, pipe`frontier, pipe`ftrId
    {
      && NotesOk(store, fullRetset, pipe.flow, pipe.nodes)
      && PidsOnce(AllRequests(pipe.nodes, pipe.frontier, pipe.ftrId))
    }

    ghost predicate Valid()
      reads this, best, pipe, pipe.scratch, pipe.sectorBuffers, pipe.sectorBuffers.data, cachedIds, cachedIds.data
    {
      Parts() && PoolOk() && PipeOk(-1) && CacheOk() && EntriesOk() && FullOk()
    }

    ghost predicate Idle()
      reads pipe
    {
      pipe.Quiet()
    }

    /** One node of the page just read. Nodes other than the one asked for are passed over if they are
        too far away; the others go into the list as expanded. */
    method VisitNode(id: nat, pid: nat, target: nat, exact: real, ghost n: nat, ghost j: nat) returns (taken: bool)
      requires Parts() && PoolOk() && PipeOk(n) && EntriesOk() && Idle() && id < |dist| && store.id2page[id] == pid
      requires pid in pageVisited && FullOk() && NoneYet(store, fullRetset, pid, j) && j < |store.pages[pid]|
      requires id == store.pages[pid][j] && j < |store.disk(pid).exact| && exact == store.disk(pid).exact[j]
      requires PageTaken(pipe.flow, pipe.nodes, pid) && n < |pipe.nodes| && pipe.nodes[n].pid == pid
      modifies this`l, this`visited, this`fullRetset, best, pipe`frontier, pipe`ftrId
      ensures PoolOk() && PipeOk(n) && EntriesOk() && Idle() && Grows(old(best[..l]), old(visited), best[..l], visited)
      ensures FullOk() && NoneYet(store, fullRetset, pid, j + 1)
      ensures taken <==> id == target || dist[id] < old(best[l - 1].distance) * ratio
      ensures visited == if taken then old(visited) + {id} else old(visited)
      ensures fullRetset == if taken then old(fullRetset) + [Neighbor(id, exact, true)] else old(fullRetset)
    {
      hide Pipeline.Valid, Asked, Processed, Cleared, AllSent, Sent, PoolInvariant, Consistent, NotesOk, PidsOnce;
      hide NoneYet, PageTaken, Waiting, AllRequests, Live, Members, FlowInv;
      NoteSkip(store, fullRetset, pid, j);
      taken := !(id != target && dist[id] >= best[l - 1].distance * ratio);
      if taken {
        pipe.RecordVisited(FrontierNode(id, pid));
        AskedSame(store, pipe.nodes, old(pipe.frontier), old(pipe.ftrId), pipe.frontier, pipe.ftrId, pageVisited);
        if id !in visited {
          var r;
          l, r := AddToRetset(best, l, id, false, L, dist, visited);
          visited := visited + {id};
        }
        NoteMore(store, fullRetset, pipe.flow, pipe.nodes, pid, j, Neighbor(id, exact, true));
        fullRetset := fullRetset + [Neighbor(id, exact, true)];
        SameRequests(pipe.nodes, old(pipe.frontier), pipe.frontier);
        RequestsMade(pipe.nodes, pipe.frontier, pipe.ftrId);
        ProcessedNoted(store, Given(), pipe.flow, pipe.nodes, AllRequests(pipe.nodes, pipe.frontier, pipe.ftrId),
          old(visited), old(fullRetset), n, Neighbor(id, exact, true));
        ProcessedFurther(store, Given(), pipe.flow, pipe.nodes, old(visited), fullRetset, n, visited);
        SentById(store, id, cachedIds.contents, visited, pageVisited);
        AllSentFurther(store, old(Cleared(best[..l])), cachedIds.contents, old(visited), pageVisited,
          Cleared(best[..l]), {id}, cachedIds.contents, visited, pageVisited);
      }
    }

    /** One turn of the loop over a page. */
    method VisitSlot(pid: nat, target: nat, page: Page, ghost n: nat, j: nat, slots0: seq<nat>, ghost v0: Visit)
        returns (slots: seq<nat>, ghost v: Visit)
      requires Parts() && PoolOk() && PipeOk(n) && EntriesOk() && Idle() && PageOk(store, pid)
      requires page == store.disk(pid) && pid in pageVisited && FullOk() && NoneYet(store, fullRetset, pid, j)
      requires PageTaken(pipe.flow, pipe.nodes, pid) && j < |store.pages[pid]|
      requires n < |pipe.nodes| && pipe.nodes[n] == FrontierNode(target, pid)
      requires slots0 == v0.slots && Visiting(store, Given(), FrontierNode(target, pid), v0, j)
      requires v0.pools[j] == best[..l] && v0.seens[j] == visited && SlotsNoted(store, pid, slots0, fullRetset, j)
      modifies this`l, this`visited, this`fullRetset, best, pipe`frontier, pipe`ftrId
      ensures FullOk() && NoneYet(store, fullRetset, pid, j + 1)
      ensures PoolOk() && PipeOk(n) && EntriesOk() && Idle() && Grows(old(best[..l]), old(visited), best[..l], visited)
      ensures slots == v.slots && Visiting(store, Given(), FrontierNode(target, pid), v, j + 1)
      ensures v.pools == v0.pools + [best[..l]] && v.seens == v0.seens + [visited]
      ensures SlotsNoted(store, pid, slots, fullRetset, j + 1)
    {
      hide PoolInvariant, Pipeline.Valid, Asked, Processed, Cleared, AllSent, NotesOk, PidsOnce, NoneYet, PageTaken;
      hide Visiting, SlotsNoted;
      ghost var full, fn := fullRetset, FrontierNode(target, pid);
      VisitSizes(store, Given(), fn, v0, j);
      var taken := VisitNode(store.pages[pid][j], pid, target, page.exact[j], n, j);
      hide Consistent, PageOk;
      slots := if taken then slots0 + [j] else slots0;
      VisitMore(store, Given(), fn, v0, j, taken, best[..l], visited, slots);
      NotedMore(store, pid, slots0, full, j, taken, slots, fullRetset);
      v := Visit(slots, v0.pools + [best[..l]], v0.seens + [visited]);
    }

    /** The first loop over a page: which of its slots are to be expanded. */
    method VisitPage(pid: nat, target: nat, page: Page, ghost n: nat) returns (slots: seq<nat>, ghost v: Visit)
      requires Parts() && PoolOk() && PipeOk(n) && EntriesOk() && Idle() && PageOk(store, pid)
      requires page == store.disk(pid) && pid in pageVisited && FullOk() && NoneYet(store, fullRetset, pid, 0)
      requires PageTaken(pipe.flow, pipe.nodes, pid)
      requires n < |pipe.nodes| && pipe.nodes[n] == FrontierNode(target, pid)
      modifies this`l, this`visited, this`fullRetset, best, pipe`frontier, pipe`ftrId
      ensures FullOk()
      ensures PoolOk() && PipeOk(n) && EntriesOk() && Idle() && Grows(old(best[..l]), old(visited), best[..l], visited)
      ensures slots == v.slots && Visiting(store, Given(), FrontierNode(target, pid), v, |store.pages[pid]|)
      ensures v.pools[0] == old(best[..l]) && v.seens[0] == old(visited) && v.seens[|store.pages[pid]|] == visited
      ensures SlotsNoted(store, pid, slots, fullRetset, |store.pages[pid]|)
    {
      hide PoolInvariant, Pipeline.Valid, Asked, Processed, Cleared, AllSent, NotesOk, PidsOnce, NoneYet, PageTaken;
      ghost var pool, seen, fn := best[..l], visited, FrontierNode(target, pid);
      slots, v := [], Visit([], [pool], [seen]);
      assert Visiting(store, Given(), fn, v, 0) && SlotsNoted(store, pid, slots, fullRetset, 0);
      hide Visiting, SlotsNoted, Consistent, PageOk;
      VisitSizes(store, Given(), fn, v, 0);
      for j := 0 to |store.pages[pid]|
        invariant PoolOk() && PipeOk(n) && EntriesOk() && Idle() && Grows(pool, seen, best[..l], visited)
        invariant FullOk() && NoneYet(store, fullRetset, pid, j) && PageTaken(pipe.flow, pipe.nodes, pid)
        invariant slots == v.slots && Visiting(store, Given(), fn, v, j)
        invariant v.pools[0] == pool && v.seens[0] == seen && v.pools[j] == best[..l] && v.seens[j] == visited
        invariant SlotsNoted(store, pid, slots, fullRetset, j)
      {
        VisitSizes(store, Given(), fn, v, j);
        slots, v := VisitSlot(pid, target, page, n, j, slots, v);
        VisitSizes(store, Given(), fn, v, j + 1);
      }
    }

    /** The second loop: offer the neighbours of those nodes to the list. */
    method ExpandSlots(page: Page, slots: seq<nat>)
      requires PoolOk() && forall c :: c in slots ==> c < |page.lists| && forall v :: v in page.lists[c] ==> v < |dist|
      modifies this`l, this`visited, best
      ensures PoolOk() && Grows(old(best[..l]), old(visited), best[..l], visited)
      ensures Cleared(best[..l]) <= old(Cleared(best[..l]))
      ensures SlotsExpanded(page, slots, visited)
    {
      hide PoolInvariant, Cleared, Waiting;
      ghost var pool, seen := best[..l], visited;
      for i := 0 to |slots|
        invariant PoolOk() && Grows(pool, seen, best[..l], visited) && Cleared(best[..l]) <= Cleared(pool)
        invariant forall c :: c in slots[..i] ==> c in slots && Members(page.lists[c]) <= visited
      {
        assert slots[i] in slots && slots[..i + 1] == slots[..i] + [slots[i]];
        l, visited := PushNeighbours(best, l, page.lists[slots[i]], L, dist, visited);
      }
      assert slots[..|slots|] == slots;
    }

    /** Take the page next in line. */
    method TakePage() returns (pid: nat, target: nat, page: Page, ghost n: nat)
      requires Valid() && Idle() && pipe.nProc > 0
      modifies pipe`nProc, pipe`secBuf2ftr, pipe`flow, pipe.sectorBuffers`tail, pipe.sectorBuffers`contents
      ensures Parts() && PoolOk() && CacheOk() && EntriesOk() && Idle() && PipeOk(n)
      ensures pipe.nProc == old(pipe.nProc) - 1 && pipe.flow == TakeOne(old(pipe.flow)) && pipe.nIo == old(pipe.nIo)
      ensures PageOk(store, pid) && page == store.disk(pid) && pid in pageVisited
      ensures n < |pipe.nodes| && pipe.nodes[n] == FrontierNode(target, pid)
      ensures FullOk() && NoneYet(store, fullRetset, pid, 0) && PageTaken(pipe.flow, pipe.nodes, pid)
    {
      hide PoolInvariant, AllSent, TargetDone, OnPage, NotesOk, PidsOnce, NoneYet, PageTaken;
      n := pipe.flow.queued[0];
      ghost var f := pipe.flow;
      var r := pipe.Take();
      page, pid, target := pipe.scratch[r.buf], r.node.pid, r.node.id;
      AskedNode(store, pipe.nodes, pipe.frontier, pipe.ftrId, pageVisited, n);
      assert PageOk(store, pid);
      TakenButOne(store, Given(), f, pipe.flow, pipe.nodes, visited, fullRetset, n);
      NothingNoted(store, fullRetset, f, pipe.nodes, AllRequests(pipe.nodes, pipe.frontier, pipe.ftrId), n);
      NotesKept(store, fullRetset, f, pipe.flow, pipe.nodes, pipe.nodes);
      PageIsTaken(pipe.flow, pipe.nodes, n);
    }

    method ProcessPage()
      requires Valid() && Idle() && pipe.nProc > 0
      modifies this`l, this`visited, this`fullRetset, best, pipe`frontier, pipe`ftrId
      modifies pipe`nProc, pipe`secBuf2ftr, pipe`flow, pipe.sectorBuffers`tail, pipe.sectorBuffers`contents
      ensures Valid() && Idle() && pipe.nProc == old(pipe.nProc) - 1
      ensures pipe.flow == TakeOne(old(pipe.flow)) && pipe.nIo == old(pipe.nIo)
      ensures Grows(old(best[..l]), old(visited), best[..l], visited)
    {
      hide PoolInvariant, Asked, Processed, AllSent, Pipeline.Valid, CircleQueue.Valid, Cleared, Waiting, NoneYet;
      hide PageTaken, Search.FullOk, Visiting, SlotsNoted, Live, FlowInv, NearEnough, OnPage;
      var pid, target, page;
      ghost var n;
      pid, target, page, n := TakePage();
      var slots; ghost var v;
      slots, v := VisitPage(pid, target, page, n);
      VisitSizes(store, Given(), FrontierNode(target, pid), v, |store.pages[pid]|);
      ghost var seen, cleared := visited, Cleared(best[..l]);
      ExpandSlots(page, slots);
      ProcessedFurther(store, Given(), pipe.flow, pipe.nodes, seen, fullRetset, n, visited);
      assert VisitDone(store, Given(), FrontierNode(target, pid), v, visited, fullRetset);
      NoneLeft(store, Given(), pipe.flow, pipe.nodes, visited, fullRetset, n);
      AllSentFurther(store, cleared, cachedIds.contents, seen, pageVisited, Cleared(best[..l]), {}, cachedIds.contents,
        visited, pageVisited);
    }

    /** Expand the node next in the queue of nodes in memory. */
    method ExpandCached()
      requires Valid() && Idle() && nCached > 0
      modifies this`l, this`visited, this`nCached, best, cachedIds`tail, cachedIds`contents
      ensures Valid() && Idle() && nCached == old(nCached) - 1
      ensures Grows(old(best[..l]), old(visited), best[..l], visited)
    {
      hide PoolInvariant, Asked, Processed, AllSent, Pipeline.Valid, Cleared, Waiting;
      ghost var queue, seen, cleared := cachedIds.contents, visited, Cleared(best[..l]);
      var pos := cachedIds.Get();
      assert pos == queue[0];
      l, visited := PushNeighbours(best, l, store.memGraph[pos], L, dist, visited);
      nCached := nCached - 1;
      ProcessedFurther(store, Given(), pipe.flow, pipe.nodes, seen, fullRetset, -1, visited);
      QueueShrinks(store, cleared, queue, seen, pageVisited, Cleared(best[..l]), visited);
    }

    method DrainCached()
      requires Valid() && Idle()
      modifies this`l, this`visited, this`nCached, best, cachedIds`tail, cachedIds`contents
      ensures Valid() && Idle() && nCached == 0
      ensures Grows(old(best[..l]), old(visited), best[..l], visited)
      ensures old(nCached) == 0 ==> best[..] == old(best[..]) && l == old(l) && visited == old(visited)
    {
      hide PoolInvariant, Asked, Processed, AllSent, Pipeline.Valid, CircleQueue.Valid, Cleared, Waiting;
      ghost var pool, seen := best[..l], visited;
      while nCached > 0
        invariant Valid() && Idle() && Grows(pool, seen, best[..l], visited)
        invariant old(nCached) == 0 ==>
          nCached == 0 && best[..] == old(best[..]) && l == old(l) && visited == old(visited)
        decreases nCached
      {
        ExpandCached();
      }
    }

    method CollectReads(minR: nat) returns (ghost done: seq<nat>)
      requires Valid() && Idle() && minR <= pipe.nIo
      modifies pipe`inFlight, pipe`nIo, pipe`nProc, pipe`flow, pipe`held, pipe.scratch, pipe.sectorBuffers
      modifies pipe.sectorBuffers.data
      ensures Valid() && Idle() && pipe.nIo <= old(pipe.nIo) - minR
      ensures pipe.nIo + pipe.nProc == old(pipe.nIo + pipe.nProc)
      ensures pipe.flow == Completed(old(pipe.flow), done) && |done| == old(pipe.nIo) - pipe.nIo
      ensures NoRepeats(done) && Members(done) <= old(pipe.flow).flying
    {
      hide PoolInvariant, AllSent, NotesOk, PidsOnce, Asked, Consistent, FlowInv, Tables, Holds, InBuffers, Within;
      ghost var f := pipe.flow;
      done := pipe.Reap(minR);
      NotesKept(store, fullRetset, f, pipe.flow, pipe.nodes, pipe.nodes);
    }

    /** Ask for the page of the node. */
    method AskPage(id: nat, pid: nat)
      requires Valid() && id < |dist| && pid == store.id2page[id] && pid !in pageVisited
      modifies this`pageVisited, pipe`frontier
      ensures Valid() && pageVisited == old(pageVisited) + {pid}
      ensures pipe.frontier == old(pipe.frontier) + [FrontierNode(id, pid)]
    {
      hide Processed, Asked, AllSent, Sent, PoolInvariant, Pipeline.Valid, Cleared, Waiting, OnPage, NotesOk, PidsOnce;
      hide AllRequests, Search.CacheOk, Consistent, Search.PoolOk, FlowInv;
      StoreFacts();
      FlowFacts();
      ghost var asked := pageVisited;
      HomePage(store, id);
      AskMore(store, pipe.nodes, pipe.frontier, pipe.ftrId, pageVisited, FrontierNode(id, pid));
      OneMorePid(store, pipe.nodes, pipe.frontier, pipe.ftrId, pageVisited, FrontierNode(id, pid));
      pipe.Record(FrontierNode(id, pid));
      pageVisited := pageVisited + {pid};
      AllSentFurther(store, Cleared(best[..l]), cachedIds.contents, visited, asked, Cleared(best[..l]), {},
        cachedIds.contents, visited, pageVisited);
    }

    /** Put the node into the queue of nodes in memory. */
    method QueueNode(id: nat)
      requires Valid() && id in store.memPos && nCached < MAX_N_SECTOR_READS
      modifies this`nCached, cachedIds`head, cachedIds`contents, cachedIds.data
      ensures Valid() && nCached == old(nCached) + 1 && store.memPos[id] in cachedIds.contents
    {
      hide AllSent, Sent, PoolInvariant, Cleared, Search.PipeOk, Search.FullOk, Asked, Processed;
      ghost var queue := cachedIds.contents;
      cachedIds.Push(store.memPos[id]);
      nCached := nCached + 1;
      AllSentFurther(store, Cleared(best[..l]), queue, visited, pageVisited, Cleared(best[..l]), {},
        cachedIds.contents, visited, pageVisited);
    }

    /** Put the node into the queue of nodes in memory, or ask for its page unless that has been done. */
    method SendNode(id: nat) returns (seen: nat)
      requires Valid() && id < |dist| && nCached < MAX_N_SECTOR_READS
      modifies this`nCached, this`pageVisited, pipe`frontier, cachedIds`head, cachedIds`contents, cachedIds.data
      ensures Valid() && Sent(store, id, cachedIds.contents, visited, pageVisited)
      ensures seen <= 1 && nCached + |pipe.frontier| == old(nCached + |pipe.frontier|) + seen
      ensures old(nCached) <= nCached && old(|pipe.frontier|) <= |pipe.frontier|
    {
      hide AllSent, Sent, Search.PoolOk, Search.PipeOk, Search.FullOk, Search.CacheOk, Search.EntriesOk;
      seen := 0;
      if id in store.memPos {
        QueueNode(id);
        seen := 1;
      } else if store.id2page[id] !in pageVisited {
        AskPage(id, store.id2page[id]);
        seen := 1;
      }
      SentById(store, id, cachedIds.contents, visited, pageVisited);
    }

    /** Send the entry at `marker` on its way, unless its page was asked for before. */
    method DispatchEntry(marker: nat) returns (seen: nat)
      requires Valid() && marker < l && best[marker].flag && nCached < MAX_N_SECTOR_READS
      modifies this`nCached, this`pageVisited, best, pipe`frontier, cachedIds`head, cachedIds`contents, cachedIds.data
      ensures Valid() && l == old(l) && visited == old(visited)
      ensures seen <= 1 && nCached + |pipe.frontier| == old(nCached + |pipe.frontier|) + seen
      ensures old(nCached) <= nCached && old(|pipe.frontier|) <= |pipe.frontier|
      ensures best[..l] == old(best[..l])[marker := old(best[marker]).(flag := false)]
      ensures Waiting(best[..l]) < old(Waiting(best[..l]))
    {
      hide Processed, Asked, AllSent, Sent, PoolInvariant, Pipeline.Valid, CircleQueue.Valid, Cleared, Waiting;
      hide Consistent;
      EntryInRange(best[..l], visited, dist, L, marker);
      seen := SendNode(best[marker].id);
      ghost var cleared := Cleared(best[..l]);
      ClearFlag(best, marker, l, visited, dist, L);
      AllSentFurther(store, cleared, cachedIds.contents, visited, pageVisited,
        Cleared(best[..l]), {best[marker].id}, cachedIds.contents, visited, pageVisited);
    }

    method MarkEntries() returns (numSeen: nat)
      requires Valid() && nCached == 0 && pipe.ftrId == |pipe.frontier| && beamWidth > 0
      modifies this`nCached, this`pageVisited, best, pipe`frontier, cachedIds`head, cachedIds`contents, cachedIds.data
      ensures Valid() && l == old(l) && visited == old(visited) && pipe.ftrId <= |pipe.frontier|
      ensures nCached + (|pipe.frontier| - pipe.ftrId) == numSeen <= beamWidth
      ensures Waiting(best[..l]) <= old(Waiting(best[..l]))
      ensures numSeen > 0 ==> Waiting(best[..l]) < old(Waiting(best[..l]))
      ensures numSeen < beamWidth ==> forall i :: 0 <= i < l ==> !best[i].flag
    {
      hide PoolInvariant, Asked, Processed, AllSent, Consistent, Cleared, Pipeline.Valid, CircleQueue.Valid;
      numSeen := 0;
      var marker := 0;
      while marker < l && numSeen < beamWidth
        invariant Valid() && l == old(l) && visited == old(visited)
        invariant 0 <= marker <= l && numSeen <= beamWidth && pipe.ftrId <= |pipe.frontier|
        invariant nCached + (|pipe.frontier| - pipe.ftrId) == numSeen
        invariant Waiting(best[..l]) <= old(Waiting(best[..l]))
        invariant numSeen > 0 ==> Waiting(best[..l]) < old(Waiting(best[..l]))
        invariant forall i :: 0 <= i < marker ==> !best[i].flag
        decreases l - marker
      {
        if best[marker].flag {
          ghost var pool := best[..l];
          var more := DispatchEntry(marker);
          numSeen := numSeen + more;
          assert forall i :: 0 <= i < marker ==> best[..l][i] == pool[i];
          assert !best[..l][marker].flag;
        }
        marker := marker + 1;
      }
    }

    /** Request the pages recorded by the dispatch. */
    method SendRequests()
      requires Valid() && pipe.nIo == 0 == |pipe.flow.flying| && pipe.nProc == |pipe.flow.queued|
      requires pipe.ftrId <= |pipe.frontier| && |pipe.frontier| - pipe.ftrId <= beamWidth
      requires Within(pipe.flow, MAX_N_SECTOR_READS - (|pipe.frontier| - pipe.ftrId))
      modifies pipe`nIo, pipe`sectorIdx, pipe`secBuf2ftr, pipe`inFlight, pipe`numIos, pipe`ftrId, pipe`flow, pipe`nodes
      ensures Valid() && Idle() && pipe.nIo == |pipe.frontier| - old(pipe.ftrId)
      ensures pipe.numIos == old(pipe.numIos) + pipe.nIo
      ensures Issues(old(pipe.flow), pipe.flow, beamWidth)
    {
      hide Processed, Asked, AllSent, PoolInvariant, Cleared, Consistent, Batch, NotesOk, PidsOnce, AllRequests;
      hide Search.CacheOk, Search.EntriesOk, Search.PoolOk, Pipeline.Valid, Live, FlowInv, Interval;
      FlowFacts();
      ghost var f, nodes, ftrId := pipe.flow, pipe.nodes, pipe.ftrId;
      ghost var round := pipe.Submit();
      BatchEnd(f, pipe.flow, round, pipe.nIo);
      AskedSent(store, Given(), f, pipe.flow, nodes, pipe.nodes, pipe.frontier, ftrId, pageVisited, visited,
        fullRetset);
      RequestsSent(nodes, pipe.frontier, ftrId);
      NotesSent(store, fullRetset, f, pipe.flow, nodes, pipe.nodes);
    }

    /** One dispatch. Less than half a beam is waiting; so the buffers it issues are free if the beam fits
        the ring, or as long as no buffer has been issued twice. */
    method Dispatch() returns (outcome: TurnEnd)
      requires Valid() && Idle() && pipe.nIo == 0 && nCached == 0 && MayDispatch(pipe.nProc, beamWidth)
      modifies this`nCached, this`pageVisited, best, cachedIds`head, cachedIds`contents, cachedIds.data
      modifies pipe`frontier, pipe`nIo, pipe`sectorIdx, pipe`secBuf2ftr, pipe`inFlight, pipe`numIos, pipe`ftrId
      modifies pipe`flow, pipe`nodes
      ensures PoolOk() && l == old(l) && visited == old(visited)
      ensures outcome.BufferLost? ==> !FitsRing(beamWidth, beamWidth / 2) && pipe.numIos > MAX_N_SECTOR_READS
      ensures !outcome.BufferLost? ==> Valid() && Idle() && pipe.nProc == old(pipe.nProc)
      ensures !outcome.BufferLost? ==> Issues(old(pipe.flow), pipe.flow, beamWidth)
      ensures !outcome.BufferLost? ==> (outcome.Finished? <==> pipe.nIo == 0 && pipe.nProc == 0 && nCached == 0)
      ensures !outcome.BufferLost? && pipe.nIo + nCached > 0 ==> Waiting(best[..l]) < old(Waiting(best[..l]))
      ensures outcome.Finished? ==> pipe.numIos == old(pipe.numIos)
      ensures !outcome.BufferLost? && pipe.nIo + nCached < beamWidth ==> forall i :: 0 <= i < l ==> !best[i].flag
      ensures Waiting(best[..l]) <= old(Waiting(best[..l]))
    {
      hide Processed, Asked, AllSent, PoolInvariant, Cleared, Consistent, Waiting, Within, FlowInv, Tables, Issues;
      hide Pipeline.Valid, CircleQueue.Valid, FitsRing;
      FlowFacts();
      if FitsRing(beamWidth, beamWidth / 2) {
        DispatchRoom(pipe.flow, beamWidth, beamWidth / 2);
      }
      var numSeen := MarkEntries();
      if FitsRing(beamWidth, beamWidth / 2) {
        RoomShrinks(pipe.flow, beamWidth, |pipe.frontier| - pipe.ftrId);
        SendRequests();
      } else if pipe.numIos + (|pipe.frontier| - pipe.ftrId) <= MAX_N_SECTOR_READS {
        FlowFacts();
        EarlyRoom(pipe.flow, |pipe.frontier| - pipe.ftrId);
        SendRequests();
      } else {
        pipe.Overcommit();
        return BufferLost;
      }
      outcome := if pipe.nIo == 0 && pipe.nProc == 0 && nCached == 0 then Finished else GoesOn;
    }

    /** The pages requested are pages asked for. */
    lemma RequestedPages()
      requires Valid()
      ensures forall n {:trigger pipe.nodes[n]} :: 0 <= n < |pipe.nodes| ==> pipe.nodes[n].pid in pageVisited
    {
      hide Pipeline.Valid, CircleQueue.Valid, Processed, AllSent, PoolInvariant, NotesOk, PidsOnce;
    }

    /** No page is requested twice. */
    lemma PagesOnce()
      requires Valid()
      ensures pipe.numIos <= |store.pages|
    {
      FlowFacts();
      AskedOnce(store, pipe.nodes, pipe.frontier, pipe.ftrId, pageVisited);
    }

    lemma StoreFacts()
      requires Valid()
      ensures Consistent(store) && PoolOk() && l <= best.Length && FullOk()
    {
    }

    lemma PoolFacts()
      requires PoolOk()
      ensures 1 <= l <= L < best.Length && PoolInvariant(best[..l], visited, dist, L)
    {
    }

    lemma FlowFacts()
      requires Valid()
      ensures FlowInv(pipe.flow, beamWidth) && |pipe.flow.rounds| == pipe.numIos == |pipe.nodes|
      ensures pipe.ftrId <= |pipe.frontier|
    {
    }

    ghost function Load(): nat
      reads this, pipe
    {
      2 * pipe.nIo + pipe.nProc + nCached
    }

    /** The first part of an iteration: a page that waits, and the nodes in memory. */
    method WorkOff()
      requires Valid() && Idle()
      modifies this`l, this`visited, this`fullRetset, this`nCached, best, cachedIds`tail, cachedIds`contents
      modifies pipe`frontier, pipe`ftrId
      modifies pipe`nProc, pipe`secBuf2ftr, pipe`flow, pipe.sectorBuffers`tail, pipe.sectorBuffers`contents
      ensures Valid() && Idle() && nCached == 0
      ensures pipe.nIo == old(pipe.nIo)
      ensures pipe.flow == if old(pipe.flow).queued == [] then old(pipe.flow) else TakeOne(old(pipe.flow))
      ensures pipe.nProc == if old(pipe.nProc) > 0 then old(pipe.nProc) - 1 else 0
      ensures Grows(old(best[..l]), old(visited), best[..l], visited)
      ensures old(Load()) == 0 ==> best[..] == old(best[..]) && l == old(l) && visited == old(visited)
    {
      hide PoolInvariant, Asked, Processed, AllSent, Cleared, Consistent, Pipeline.Valid, CircleQueue.Valid;
      if pipe.nProc > 0 {
        ProcessPage();
      }
      DrainCached();
    }

    /** One turn of the traversal loop. */
    method Iterate() returns (outcome: TurnEnd, ghost done: seq<nat>, ghost mid: Flow)
      requires Valid() && Idle()
      modifies this, best, pipe, pipe.scratch, pipe.sectorBuffers, pipe.sectorBuffers.data, cachedIds, cachedIds.data
      ensures PoolOk() && Grows(old(best[..l]), old(visited), best[..l], visited)
      ensures outcome.BufferLost? ==> !FitsRing(beamWidth, beamWidth / 2) && pipe.numIos > MAX_N_SECTOR_READS
      ensures !outcome.BufferLost? ==> Valid() && Idle()
      ensures !outcome.BufferLost? ==> Turn(old(pipe.flow), done, mid, pipe.flow, beamWidth, beamWidth / 2)
      ensures outcome.Finished? ==> pipe.nIo == 0 && pipe.nProc == 0 && nCached == 0
      ensures outcome.Finished? ==> pipe.numIos == old(pipe.numIos)
      ensures outcome.Finished? ==> forall i :: 0 <= i < l ==> !best[i].flag
      ensures !outcome.BufferLost? && mid.flying == {} && 2 * |mid.queued| + 2 <= beamWidth ==>
        pipe.nIo + nCached < beamWidth ==> forall i :: 0 <= i < l ==> !best[i].flag
      ensures beamWidth >= 2 && outcome.GoesOn? ==>
        visited != old(visited) || Waiting(best[..l]) != old(Waiting(best[..l])) || Load() < old(Load())
      ensures beamWidth < 2 && old(Load()) == 0 ==>
        && outcome.GoesOn? && Load() == 0 && pipe.numIos == old(pipe.numIos)
        && best[..] == old(best[..]) && l == old(l) && visited == old(visited) && pageVisited == old(pageVisited)
    {
      hide PoolInvariant, Asked, Processed, AllSent, Cleared, Consistent, Pipeline.Valid, CircleQueue.Valid;
      hide FitsRing, Issues, Collects, Completed, CanComplete;
      outcome := GoesOn;
      WorkOff();
      ghost var taken := pipe.flow;
      done := [];
      if pipe.nIo > 0 {
        done := CollectReads(if pipe.nProc == 0 then 1 else 0);
      } else {
        NothingCompletes(taken);
      }
      mid := pipe.flow;
      CollectsAs(old(pipe.flow), taken, done, mid);
      if pipe.nIo == 0 && nCached == 0 && MayDispatch(pipe.nProc, beamWidth) {
        assert MayIssue(mid, beamWidth / 2);
        outcome := Dispatch();
      }
    }

    /** Nothing is on its way, and no entry has a flag. */
    lemma AllDone()
      requires Valid() && Idle() && pipe.nIo == 0 && pipe.nProc == 0 && nCached == 0
      requires forall i :: 0 <= i < l ==> !best[i].flag
      ensures forall pid :: pid in pageVisited ==> PageDone(store, Given(), pid, visited, fullRetset)
      ensures forall i :: 0 <= i < l ==> Sent(store, best[i].id, [], visited, pageVisited)
    {
      hide PoolInvariant, Asked, Processed, AllSent, Cleared, Consistent, Pipeline.Valid, CircleQueue.Valid;
      AllPagesDone(store, Given(), pipe.flow, pipe.nodes, pipe.frontier, pipe.ftrId, pageVisited, visited, fullRetset);
      EntriesSent(store, best[..l], cachedIds.contents, visited, pageVisited);
      assert forall i :: 0 <= i < l ==> best[..l][i] == best[i];
    }

    /** The traversal ends if the beam is at least two wide. Left by `break`, every entry of the list has
        been sent on its way, the neighbours of those in memory have been met, and every page asked for
        has been read: the node it was asked for and those near enough have been noted and expanded. */
    method Traverse() returns (end: Traversal, ghost flows: seq<Flow>)
      requires Valid() && Idle() && beamWidth >= 2 && pipe.flow == Flow([], {}, [])
      modifies this, best, pipe, pipe.scratch, pipe.sectorBuffers, pipe.sectorBuffers.data, cachedIds, cachedIds.data
      ensures PoolOk() && old(visited) <= visited && FlowRun(flows, beamWidth, beamWidth / 2)
      ensures end.Complete? ==> Valid() && Idle() && pipe.numIos < ioLimit
      ensures end.Complete? ==> forall pid :: pid in pageVisited ==> PageDone(store, Given(), pid, visited, fullRetset)
      ensures end.Complete? ==>
        forall i :: 0 <= i < l ==> !best[i].flag && Sent(store, best[i].id, [], visited, pageVisited)
      ensures end.UsedUp? ==> ioLimit <= pipe.numIos
      ensures end.Overrun? ==> !FitsRing(beamWidth, beamWidth / 2) && MAX_N_SECTOR_READS < pipe.numIos < ioLimit
      ensures FitsRing(beamWidth, beamWidth / 2) ==> pipe.numIos <= |store.pages|
    {
      hide *;
      end, flows := UsedUp, [pipe.flow];
      RunStart(beamWidth, beamWidth / 2);
      StoreFacts();
      while pipe.numIos < ioLimit
        invariant Valid() && Idle() && PoolOk() && l <= best.Length && old(visited) <= visited && flows != []
        invariant FlowRun(flows, beamWidth, beamWidth / 2) && flows[|flows| - 1] == pipe.flow
        decreases Below(|dist|) - visited, Waiting(best[..l]), Load()
      {
        PoolFacts();
        ghost var pool, seen := best[..l], visited;
        var outcome; ghost var done, mid;
        outcome, done, mid := Iterate();
        PoolFacts();
        GrowsFacts(pool, seen, best[..l], visited);
        if outcome.BufferLost? {
          return if ioLimit <= pipe.numIos then UsedUp else Overrun, flows;
        }
        TurnMade(flows[|flows| - 1], done, mid, pipe.flow, beamWidth, beamWidth / 2);
        RunOn(flows, pipe.flow, beamWidth, beamWidth / 2);
        flows := flows + [pipe.flow];
        if outcome.Finished? {
          AllDone();
          PagesOnce();
          return Complete, flows;
        }
        SeenInRange(best[..l], visited, dist, L, seen);
      }
      PagesOnce();
    }

    /** With a beam of one or none the search never begins: no number of iterations changes anything. */
    method Spin(turns: nat)
      requires Valid() && Idle() && beamWidth < 2 && Load() == 0
      modifies this, best, pipe, pipe.scratch, pipe.sectorBuffers, pipe.sectorBuffers.data, cachedIds, cachedIds.data
      ensures Valid() && Idle() && Load() == 0 && pipe.numIos == old(pipe.numIos)
      ensures best[..] == old(best[..]) && l == old(l) && visited == old(visited) && pageVisited == old(pageVisited)
    {
      for i := 0 to turns
        invariant Valid() && Idle() && Load() == 0 && pipe.numIos == old(pipe.numIos)
        invariant best[..] == old(best[..]) && l == old(l) && visited == old(visited) && pageVisited == old(pageVisited)
      {
        var outcome; ghost var done, mid;
        outcome, done, mid := Iterate();
      }
    }
  }

  /** Whatever the index and the query, if any reads are allowed: with a beam of one the guard of the loop
      still holds after any number of iterations, and the search is where it was. */
  method NeverBegins(store: Layout, dist: seq<real>, L: nat, ioLimit: nat, ratio: real, seeds: seq<nat>, turns: nat)
      returns (ios: nat, visited: set<nat>)
    requires Consistent(store) && |dist| == |store.id2page| && ioLimit > 0
    requires 1 <= |seeds| <= L && NoRepeats(seeds) && forall v :: v in seeds ==> v < |dist|
    ensures ios == 0 < ioLimit && visited == Members(seeds)
  {
    var search := new Search(store, dist, L, 1, ioLimit, ratio, seeds);
    search.Spin(turns);
    ios, visited := search.pipe.numIos, search.visited;
  }

  /** The parts of an iteration before its dispatch. */
  lemma CollectsAs(f: Flow, taken: Flow, done: seq<nat>, mid: Flow)
    requires taken == if f.queued == [] then f else TakeOne(f)
    requires mid == Completed(taken, done) && NoRepeats(done) && Members(done) <= taken.flying
    requires taken.queued == [] && taken.flying != {} ==> done != []
    ensures Collects(f, done, mid)
  {
  }

  lemma HomePage(s: Layout, id: nat)
    requires Consistent(s) && id < |s.id2page|
    ensures OnPage(s, FrontierNode(id, s.id2page[id]))
  {
  }

  lemma EntryInRange(pool: seq<Neighbor>, seen: set<nat>, dist: seq<real>, L: nat, i: nat)
    requires PoolInvariant(pool, seen, dist, L) && i < |pool|
    ensures pool[i].id < |dist| && Distinct(pool)
  {
  }

  lemma AskedSame(s: Layout, nodes: seq<FrontierNode>, frontier: seq<FrontierNode>, ftrId: nat,
                  frontier': seq<FrontierNode>, ftrId': nat, pageVisited: set<nat>)
    requires Asked(s, nodes, frontier, ftrId, pageVisited) && ftrId == |frontier| && ftrId' == |frontier'|
    ensures Asked(s, nodes, frontier', ftrId', pageVisited)
  {
  }

  lemma AskedOnce(s: Layout, nodes: seq<FrontierNode>, frontier: seq<FrontierNode>, ftrId: nat, pageVisited: set<nat>)
    requires Asked(s, nodes, frontier, ftrId, pageVisited) && PidsOnce(AllRequests(nodes, frontier, ftrId))
    ensures |nodes| <= |s.pages|
  {
    var all := AllRequests(nodes, frontier, ftrId);
    var pids := seq(|nodes|, i requires 0 <= i < |nodes| => nodes[i].pid);
    forall i, j | 0 <= i < |pids| && 0 <= j < |pids| && pids[i] == pids[j]
      ensures i == j
    {
      assert all[i] == nodes[i] && all[j] == nodes[j];
    }
    MembersSize(pids);
    SubsetSize(Members(pids), Below(|s.pages|));
  }

  lemma AskedNode(s: Layout, nodes: seq<FrontierNode>, frontier: seq<FrontierNode>, ftrId: nat, pageVisited: set<nat>,
                  n: nat)
    requires Asked(s, nodes, frontier, ftrId, pageVisited) && n < |nodes|
    ensures nodes[n].pid < |s.pages| && nodes[n].pid in pageVisited
  {
  }

  lemma AskMore(s: Layout, nodes: seq<FrontierNode>, frontier: seq<FrontierNode>, ftrId: nat, pageVisited: set<nat>,
                fn: FrontierNode)
    requires Asked(s, nodes, frontier, ftrId, pageVisited) && ftrId <= |frontier| && OnPage(s, fn)
    ensures Asked(s, nodes, frontier + [fn], ftrId, pageVisited + {fn.pid})
  {
    assert (frontier + [fn])[|frontier|].pid == fn.pid;
    forall pid | UnsentPage(frontier, ftrId, pid)
      ensures UnsentPage(frontier + [fn], ftrId, pid)
    {
      var k :| ftrId <= k < |frontier| && frontier[k].pid == pid;
      assert (frontier + [fn])[k].pid == pid;
    }
  }

  /** One more slot of a page visited. */
  lemma VisitMore(s: Layout, q: Terms, fn: FrontierNode, v: Visit, j: nat, taken: bool, pool: seq<Neighbor>,
                  seen: set<nat>, slots: seq<nat>)
    requires Visiting(s, q, fn, v, j) && j < |s.pages[fn.pid]| && PoolInvariant(pool, seen, q.dist, q.L)
    requires taken <==> s.pages[fn.pid][j] == fn.id || NearEnough(q, v.pools[j], s.pages[fn.pid][j])
    requires seen == if taken then v.seens[j] + {s.pages[fn.pid][j]} else v.seens[j]
    requires slots == if taken then v.slots + [j] else v.slots
    ensures Visiting(s, q, fn, Visit(slots, v.pools + [pool], v.seens + [seen]), j + 1)
  {
    hide PoolInvariant, NearEnough;
    var layout, w := s.pages[fn.pid], Visit(slots, v.pools + [pool], v.seens + [seen]);
    assert j !in v.slots && forall c :: c in slots <==> c in v.slots || (taken && c == j);
    forall i | 0 <= i <= j + 1
      ensures PoolInvariant(w.pools[i], w.seens[i], q.dist, q.L)
    {
      if i <= j {
        assert w.pools[i] == v.pools[i] && w.seens[i] == v.seens[i];
      }
    }
    forall i | 0 <= i < j + 1
      ensures i in w.slots <==> layout[i] == fn.id || NearEnough(q, w.pools[i], layout[i])
      ensures w.seens[i + 1] == if i in w.slots then w.seens[i] + {layout[i]} else w.seens[i]
    {
      assert w.pools[i] == v.pools[i] && w.seens[i] == v.seens[i];
      assert i < j ==> w.seens[i + 1] == v.seens[i + 1] && (i in w.slots <==> i in v.slots);
    }
  }

  lemma VisitSizes(s: Layout, q: Terms, fn: FrontierNode, v: Visit, m: nat)
    requires Visiting(s, q, fn, v, m)
    ensures |v.pools| == |v.seens| == m + 1 && forall c :: c in v.slots ==> c < m
  {
  }

  lemma NotedMore(s: Layout, pid: nat, slots: seq<nat>, full: seq<Neighbor>, j: nat, taken: bool, slots': seq<nat>,
                  full': seq<Neighbor>)
    requires Consistent(s) && SlotsNoted(s, pid, slots, full, j) && NoneYet(s, full, pid, j) && j < |s.pages[pid]|
    requires forall c :: c in slots ==> c < j
    requires slots' == if taken then slots + [j] else slots
    requires full' == if taken then full + [Neighbor(s.pages[pid][j], s.disk(pid).exact[j], true)] else full
    ensures SlotsNoted(s, pid, slots', full', j + 1)
  {
    var layout := s.pages[pid];
    var e := Neighbor(layout[j], s.disk(pid).exact[j], true);
    assert PageOk(s, pid);
    assert NoRepeats(layout);
    assert forall c :: c in slots' <==> c in slots || (taken && c == j);
    HasMore(full, e);
    assert layout[j] !in layout[..j] && layout[j] < |s.id2page| && s.id2page[layout[j]] == pid;
    assert !HasId(full, layout[j]);
    hide Consistent, PageOk;
    forall i | 0 <= i < j + 1
      ensures i in slots' <==> HasId(full', layout[i])
      ensures i in slots' ==> Neighbor(layout[i], s.disk(pid).exact[i], true) in full'
    {
      assert s.pages[pid][i] == layout[i];
      assert i < j ==> layout[i] != layout[j];
    }
  }

  lemma HasMore(full: seq<Neighbor>, e: Neighbor)
    ensures forall id {:trigger HasId(full + [e], id)} :: HasId(full + [e], id) <==> HasId(full, id) || id == e.id
    ensures forall x {:trigger x in full} :: x in full ==> x in full + [e]
    ensures e in full + [e]
  {
    forall id {:trigger HasId(full + [e], id)}
      ensures HasId(full + [e], id) <==> HasId(full, id) || id == e.id
    {
      assert (full + [e])[|full|] == e;
      if HasId(full, id) {
        var k :| 0 <= k < |full| && full[k].id == id;
        assert (full + [e])[k].id == id;
      }
    }
  }

  lemma VisitKept(s: Layout, q: Terms, fn: FrontierNode, v: Visit, visited: set<nat>, full: seq<Neighbor>,
                  visited': set<nat>)
    requires VisitDone(s, q, fn, v, visited, full) && visited <= visited'
    ensures VisitDone(s, q, fn, v, visited', full)
  {
    hide PageOk, Visiting, SlotsNoted;
  }

  /** A note of a node on another page. */
  lemma VisitNoted(s: Layout, q: Terms, fn: FrontierNode, v: Visit, visited: set<nat>, full: seq<Neighbor>,
                   e: Neighbor)
    requires Consistent(s) && VisitDone(s, q, fn, v, visited, full)
    requires e.id < |s.id2page| && s.id2page[e.id] != fn.pid
    ensures VisitDone(s, q, fn, v, visited, full + [e])
  {
    hide Visiting;
    HasMore(full, e);
    forall j | 0 <= j < |s.pages[fn.pid]|
      ensures s.pages[fn.pid][j] != e.id
    {
    }
  }

  lemma ProcessedFurther(s: Layout, q: Terms, f: Flow, nodes: seq<FrontierNode>, visited: set<nat>,
                         full: seq<Neighbor>, but: int, visited': set<nat>)
    requires Processed(s, q, f, nodes, visited, full, but) && visited <= visited'
    ensures Processed(s, q, f, nodes, visited', full, but)
  {
    hide VisitDone;
    forall n: nat {:trigger Live(f, n)} | n < |nodes| && !Live(f, n) && n != but
      ensures TargetDone(s, q, nodes[n], visited', full)
    {
      assert TargetDone(s, q, nodes[n], visited, full);
      var v: Visit :| VisitDone(s, q, nodes[n], v, visited, full);
      VisitKept(s, q, nodes[n], v, visited, full, visited');
    }
  }

  /** A note of a node on the page at hand: every page is asked for once. */
  lemma ProcessedNoted(s: Layout, q: Terms, f: Flow, nodes: seq<FrontierNode>, all: seq<FrontierNode>,
                       visited: set<nat>, full: seq<Neighbor>, but: nat, e: Neighbor)
    requires Consistent(s) && Processed(s, q, f, nodes, visited, full, but) && PidsOnce(all) && nodes <= all
    requires but < |nodes| && e.id < |s.id2page| && s.id2page[e.id] == nodes[but].pid
    ensures Processed(s, q, f, nodes, visited, full + [e], but)
  {
    hide VisitDone, Consistent;
    forall n: nat {:trigger Live(f, n)} | n < |nodes| && !Live(f, n) && n != but
      ensures TargetDone(s, q, nodes[n], visited, full + [e])
    {
      assert TargetDone(s, q, nodes[n], visited, full);
      var v: Visit :| VisitDone(s, q, nodes[n], v, visited, full);
      assert all[n] == nodes[n] && all[but] == nodes[but];
      VisitNoted(s, q, nodes[n], v, visited, full, e);
    }
  }

  lemma TakenButOne(s: Layout, q: Terms, f: Flow, f': Flow, nodes: seq<FrontierNode>, visited: set<nat>,
                    full: seq<Neighbor>, n: nat)
    requires Processed(s, q, f, nodes, visited, full, -1)
    requires forall m: nat {:trigger Live(f', m)} :: Live(f', m) <==> Live(f, m) && m != n
    ensures Processed(s, q, f', nodes, visited, full, n)
  {
    hide TargetDone;
    forall m: nat {:trigger Live(f', m)} | m < |nodes| && !Live(f', m) && m != n
      ensures TargetDone(s, q, nodes[m], visited, full)
    {
      assert !Live(f, m);
    }
  }

  lemma NoneLeft(s: Layout, q: Terms, f: Flow, nodes: seq<FrontierNode>, visited: set<nat>, full: seq<Neighbor>, n: nat)
    requires Processed(s, q, f, nodes, visited, full, n) && n < |nodes| && TargetDone(s, q, nodes[n], visited, full)
    ensures Processed(s, q, f, nodes, visited, full, -1)
  {
    hide TargetDone;
  }

  lemma SentById(s: Layout, id: nat, queue: seq<nat>, visited: set<nat>, pageVisited: set<nat>)
    requires (id in s.memPos && s.memPos[id] < |s.memGraph| && s.memPos[id] in queue) ||
      (id < |s.id2page| && s.id2page[id] in pageVisited)
    ensures Sent(s, id, queue, visited, pageVisited)
  {
  }

  lemma AllSentFurther(s: Layout, ids: set<nat>, queue: seq<nat>, visited: set<nat>, pageVisited: set<nat>,
                       ids': set<nat>, new_: set<nat>, queue': seq<nat>, visited': set<nat>, pageVisited': set<nat>)
    requires AllSent(s, ids, queue, visited, pageVisited) && ids' <= ids + new_ && queue <= queue'
    requires visited <= visited' && pageVisited <= pageVisited'
    requires forall id :: id in new_ ==> Sent(s, id, queue', visited', pageVisited')
    ensures AllSent(s, ids', queue', visited', pageVisited')
  {
    assert forall x :: x in queue ==> x in queue' by {
      assert queue' == queue + queue'[|queue|..];
    }
  }

  /** The node at the head of the queue has been expanded. */
  lemma QueueShrinks(s: Layout, ids: set<nat>, queue: seq<nat>, visited: set<nat>, pageVisited: set<nat>,
                     ids': set<nat>, visited': set<nat>)
    requires AllSent(s, ids, queue, visited, pageVisited) && ids' <= ids && visited <= visited' && queue != []
    requires queue[0] < |s.memGraph| && Members(s.memGraph[queue[0]]) <= visited'
    ensures AllSent(s, ids', queue[1..], visited', pageVisited)
  {
    assert queue == [queue[0]] + queue[1..];
  }

  lemma AskedSent(s: Layout, q: Terms, f: Flow, f': Flow, nodes: seq<FrontierNode>, nodes': seq<FrontierNode>,
                  frontier: seq<FrontierNode>, ftrId: nat,
                  pageVisited: set<nat>, visited: set<nat>, full: seq<Neighbor>)
    requires Asked(s, nodes, frontier, ftrId, pageVisited) && Processed(s, q, f, nodes, visited, full, -1)
    requires ftrId <= |frontier|
    requires f.flying == {} && nodes' == nodes + frontier[ftrId..] && |nodes| == |f.rounds| && |nodes'| == |f'.rounds|
    requires f'.queued == f.queued && f'.flying == Interval(|f.rounds|, |f'.rounds|)
    ensures Asked(s, nodes', frontier, |frontier|, pageVisited) && Processed(s, q, f', nodes', visited, full, -1)
  {
    hide TargetDone;
    forall pid | pid in pageVisited
      ensures Requested(nodes', pid)
    {
      if Requested(nodes, pid) {
        var n :| 0 <= n < |nodes| && nodes[n].pid == pid;
        assert nodes'[n].pid == pid;
      } else {
        var k :| ftrId <= k < |frontier| && frontier[k].pid == pid;
        assert nodes'[|nodes| + (k - ftrId)].pid == pid;
      }
    }
    forall n | 0 <= n < |nodes'|
      ensures OnPage(s, nodes'[n]) && nodes'[n].pid in pageVisited
    {
      if n < |nodes| {
        assert nodes'[n] == nodes[n];
      } else {
        assert nodes'[n] == frontier[ftrId + (n - |nodes|)];
      }
    }
    forall n: nat {:trigger Live(f', n)} | n < |nodes'| && !Live(f', n)
      ensures TargetDone(s, q, nodes'[n], visited, full)
    {
      assert n < |nodes| && !Live(f, n) && nodes'[n] == nodes[n];
    }
  }

  /** The page has been read and visited for a node on it. */
  ghost predicate PageDone(s: Layout, q: Terms, pid: nat, visited: set<nat>, full: seq<Neighbor>) {
    exists fn: FrontierNode :: fn.pid == pid && OnPage(s, fn) && TargetDone(s, q, fn, visited, full)
  }

  lemma AllPagesDone(s: Layout, q: Terms, f: Flow, nodes: seq<FrontierNode>, frontier: seq<FrontierNode>, ftrId: nat,
                     pageVisited: set<nat>, visited: set<nat>, full: seq<Neighbor>)
    requires Asked(s, nodes, frontier, ftrId, pageVisited) && Processed(s, q, f, nodes, visited, full, -1)
    requires f.flying == {} && f.queued == [] && ftrId == |frontier|
    ensures forall pid :: pid in pageVisited ==> PageDone(s, q, pid, visited, full)
  {
    hide TargetDone, OnPage;
    forall pid | pid in pageVisited
      ensures PageDone(s, q, pid, visited, full)
    {
      assert Requested(nodes, pid);
      var n :| 0 <= n < |nodes| && nodes[n].pid == pid;
      assert !Live(f, n);
      assert OnPage(s, nodes[n]) && TargetDone(s, q, nodes[n], visited, full);
    }
  }

  lemma EntriesSent(s: Layout, pool: seq<Neighbor>, queue: seq<nat>, visited: set<nat>, pageVisited: set<nat>)
    requires AllSent(s, Cleared(pool), queue, visited, pageVisited) && queue == []
    requires forall i :: 0 <= i < |pool| ==> !pool[i].flag
    ensures forall i :: 0 <= i < |pool| ==> Sent(s, pool[i].id, [], visited, pageVisited)
  {
    hide Sent;
    forall i | 0 <= i < |pool|
      ensures Sent(s, pool[i].id, [], visited, pageVisited)
    {
      assert pool[i].id in Cleared(pool);
    }
  }
}
