/** The partitioner before its streaming rounds: how many pages there are and how many of them are
    primary pages, and the placement of the remaining nodes next to their neighbours. */
module Placement {
  import opened Arith
  import opened Pages
  import opened Sets
  import LdgRound

  /** `ROUND_UP(nd * scale, C) / C` */
  function PageCount(nd: nat, scale: nat, C: nat): nat
    requires C > 0
  {
    CeilDiv(nd * scale, C) * C / C
  }

  /** The number of primary pages: `x + (nd - x) / C` pages in all. */
  function PrimaryCount(nd: nat, scale: nat, C: nat): int
    requires C >= 2
  {
    if scale == 1 then 0 else (C * PageCount(nd, scale, C) - nd) / (C - 1)
  }

  lemma PageCountIs(nd: nat, scale: nat, C: nat)
    requires C > 0
    ensures nd * scale <= C * PageCount(nd, scale, C) < nd * scale + C
  {
    MulDiv(CeilDiv(nd * scale, C), C);
  }

  /** The number of pages exceeds the number of nodes exactly when the scale exceeds the capacity. */
  lemma PagesVsNodes(nd: nat, scale: nat, C: nat)
    requires C > 0 && nd > 0
    ensures PageCount(nd, scale, C) <= nd <==> scale <= C
  {
    var P := PageCount(nd, scale, C);
    PageCountIs(nd, scale, C);
    if scale <= C {
      MulLeq(scale, C, nd);
      assert C * P < C * (nd + 1);
      MulLess(P, nd + 1, C);
    } else {
      MulLeq(C + 1, scale, nd);
      assert nd * scale > nd * C;
      MulLess(nd, P, C);
    }
  }

  lemma DivBounds(x: nat, m: nat)
    requires m > 0
    ensures (x / m) * m <= x < (x / m) * m + m
  {
  }

  /** `np` is the floor of `(C * P - nd) / (C - 1)`. */
  lemma FloorVsNodes(C: nat, P: nat, nd: nat, np: int)
    requires C >= 2 && np * (C - 1) <= C * P - nd < np * (C - 1) + (C - 1)
    ensures np <= nd <==> P <= nd
  {
    var m := C - 1;
    if P <= nd {
      assert C * P <= C * nd by { MulLeq(P, nd, C); }
      assert C * nd == nd * m + nd;
      assert np * m < (nd + 1) * m;
      if nd + 1 <= np {
        IntMulLeq(nd + 1, np, m);
      }
    } else {
      assert C * P >= C * (nd + 1) by { MulLeq(nd + 1, P, C); }
      assert C * (nd + 1) == nd * m + nd + C;
      if np <= nd {
        IntMulLeq(np, nd, m);
      }
    }
  }

  lemma IntMulLeq(a: int, b: int, c: nat)
    requires a <= b
    ensures a * c <= b * c
  {
  }

  lemma FloorNonNegative(x: nat, m: nat)
    requires m > 0
    ensures x / m >= 0
  {
  }

  lemma RoomIs(P: nat, np: nat, C: nat, nd: nat)
    requires C > 0 && np <= nd && np * (C - 1) <= C * P - nd
    ensures np <= P && nd - np <= (P - np) * C
  {
    assert np * (C - 1) == np * C - np;
    if P < np {
      MulLeq(P + 1, np, C);
    }
    assert (P - np) * C == P * C - np * C;
  }

  /** With one primary page more the other nodes would not fit. */
  lemma OneMoreIsTooMany(P: nat, np: int, C: nat, nd: nat)
    requires C * P - nd < np * (C - 1) + (C - 1)
    ensures nd - np - 1 > (P - np - 1) * C
  {
    assert (np + 1) * (C - 1) == (np + 1) * C - (np + 1);
    assert (P - np - 1) * C == P * C - (np + 1) * C;
  }

  /** With scale factors from 1 to the capacity, and only with those, the primary pages are no more
      than the nodes, and then the other nodes fit into the other pages. They are as many as can be, but none
      without scaling. */
  lemma PrimaryFits(nd: nat, scale: nat, C: nat)
    requires C >= 2 && nd > 0 && scale >= 1
    ensures PrimaryCount(nd, scale, C) >= 0
    ensures PrimaryCount(nd, scale, C) <= nd <==> scale <= C
    ensures scale <= C ==>
      var P, np := PageCount(nd, scale, C), PrimaryCount(nd, scale, C);
      np <= P && nd - np <= (P - np) * C
    ensures var P, np := PageCount(nd, scale, C), PrimaryCount(nd, scale, C);
      if scale == 1 then np == 0 else nd - np - 1 > (P - np - 1) * C
  {
    var P, np := PageCount(nd, scale, C), PrimaryCount(nd, scale, C);
    PageCountIs(nd, scale, C);
    PagesVsNodes(nd, scale, C);
    MulLeq(1, scale, nd);
    if scale != 1 {
      DivBounds(C * P - nd, C - 1);
      FloorNonNegative(C * P - nd, C - 1);
      FloorVsNodes(C, P, nd, np);
      OneMoreIsTooMany(P, np, C, nd);
    }
    if scale <= C {
      RoomIs(P, np, C, nd);
    }
  }

  /** Pages are filled one after the other: full before `pid`, empty after it. */
  ghost predicate Filling(parts: seq<seq<nat>>, first: nat, pid: nat, C: nat) {
    && first <= pid < |parts|
    && (forall p :: first <= p < pid ==> |parts[p]| == C)
    && |parts[pid]| <= C
    && (forall p :: pid < p < |parts| ==> parts[p] == [])
  }

  /** The nodes that are left for the placement loop. */
  ghost function Rest(nd: nat, first: nat): set<nat> {
    Below(nd) - Below(first)
  }

  lemma RestSize(nd: nat, first: nat)
    requires first <= nd
    ensures |Rest(nd, first)| == nd - first
  {
    assert Below(first) <= Below(nd);
    assert Below(nd) == Rest(nd, first) + Below(first);
  }

  /** As long as a node is left, a full page is not the last one. */
  lemma RoomAhead(vis: set<nat>, v: nat, nd: nat, first: nat, pid: nat, pages: nat, C: nat)
    requires first <= nd && vis <= Rest(nd, first) && v in Rest(nd, first) && v !in vis
    requires first <= pid < pages && nd - first <= (pages - first) * C
    requires |vis| == (pid - first) * C + C
    ensures pid + 1 < pages
  {
    RestSize(nd, first);
    ProperSubsetSize(vis, Rest(nd, first), v);
    assert (pid - first) * C + C == (pid + 1 - first) * C;
    MulLess(pid + 1 - first, pages - first, C);
  }

  /** The nodes outside `rest` keep their pages. */
  ghost predicate OthersStay(before: map<nat, nat>, after: map<nat, nat>, rest: set<nat>) {
    forall u :: u in before && u !in rest ==> u in after && after[u] == before[u]
  }

  lemma OthersStayOn(before: map<nat, nat>, between: map<nat, nat>, after: map<nat, nat>, rest: set<nat>)
    requires OthersStay(before, between, rest) && OthersStay(between, after, rest)
    ensures OthersStay(before, after, rest)
  {
  }

  /** The node is a neighbour of a seed and lies on its page. */
  ghost predicate Beside(graph: seq<seq<nat>>, id2pid: map<nat, nat>, seeds: set<nat>, v: nat) {
    exists s ::
      s in seeds && s < |graph| && s in id2pid && v in id2pid && v in graph[s] && id2pid[v] == id2pid[s]
  }

  /** The neighbours of the seed are on its page or on earlier ones, unless its page has been filled. */
  ghost predicate Gathered(graph: seq<seq<nat>>, id2pid: map<nat, nat>, first: nat, pid: nat, vis: set<nat>, s: nat) {
    && s < |graph| && s in id2pid
    && (id2pid[s] < pid ||
         forall u :: u in graph[s] && u >= first ==> u in vis && u in id2pid && id2pid[u] <= id2pid[s])
  }

  /** Every node placed is a seed or beside one, and the neighbours of each seed have been gathered. */
  ghost predicate Grouped(graph: seq<seq<nat>>, id2pid: map<nat, nat>, first: nat, pid: nat, vis: set<nat>,
                          seeds: set<nat>) {
    && seeds <= vis
    && (forall v {:trigger Beside(graph, id2pid, seeds, v)} :: v in vis && v !in seeds ==>
         Beside(graph, id2pid, seeds, v))
    && forall s {:trigger Gathered(graph, id2pid, first, pid, vis, s)} :: s in seeds ==>
         Gathered(graph, id2pid, first, pid, vis, s)
  }

  /** The nodes of `vis` keep their pages. */
  ghost predicate PagesKept(before: map<nat, nat>, after: map<nat, nat>, vis: set<nat>) {
    forall u :: u in vis && u in before ==> u in after && after[u] == before[u]
  }

  lemma GroupedMore(graph: seq<seq<nat>>, before: map<nat, nat>, after: map<nat, nat>, first: nat, pid: nat,
                    pid': nat, vis: set<nat>, vis': set<nat>, seeds: set<nat>, i: nat)
    requires Grouped(graph, before, first, pid, vis, seeds) && PagesKept(before, after, vis)
    requires pid <= pid' && vis <= vis' && i in vis' && i < |graph| && i in after
    requires forall v :: v in vis' && v !in vis && v != i ==> v in after && v in graph[i] && after[v] == after[i]
    requires Gathered(graph, after, first, pid', vis', i)
    ensures Grouped(graph, after, first, pid', vis', seeds + {i})
  {
    forall v | v in vis' && v !in seeds + {i}
      ensures Beside(graph, after, seeds + {i}, v)
    {
      if v in vis {
        assert Beside(graph, before, seeds, v);
      }
    }
    forall s | s in seeds
      ensures Gathered(graph, after, first, pid', vis', s)
    {
      assert Gathered(graph, before, first, pid, vis, s);
    }
  }

  class Partitioner {
    const C: nat
    const nd: nat
    const fullGraph: seq<seq<nat>>
    /** `n_primary_partition`; the first nodes have a page each, and count as filled. */
    const first: nat

    var parts: seq<seq<nat>>
    var id2pid: map<nat, nat>
    var lockPids: seq<bool>
    var pid: nat

    constructor (C: nat, fullGraph: seq<seq<nat>>, first: nat, parts: seq<seq<nat>>, id2pid: map<nat, nat>)
      ensures this.C == C && this.nd == |fullGraph| && this.fullGraph == fullGraph && this.first == first
      ensures this.parts == parts && this.id2pid == id2pid
    {
      this.C, this.nd, this.fullGraph, this.first := C, |fullGraph|, fullGraph, first;
      this.parts, this.id2pid := parts, id2pid;
      this.lockPids, this.pid := seq(|parts|, _ => false), first;
    }

    ghost predicate Sized()
      reads this
    {
      && nd == |fullGraph| && C > 0 && first <= nd && first <= |parts| && |lockPids| == |parts|
      && nd - first <= (|parts| - first) * C
      && (forall v, m :: 0 <= v < |fullGraph| && 0 <= m < |fullGraph[v]| ==> fullGraph[v][m] < nd)
    }

    /** The state of the placement loop after the nodes of `vis` have been placed. */
    ghost predicate Placing(vis: set<nat>)
      reads this
    {
      && Sized() && Filling(parts, first, pid, C)
      && HoldFrom(parts, id2pid, vis, first)
      && vis <= Rest(nd, first)
      && |vis| == (pid - first) * C + |parts[pid]|
    }

    /** The locked pages are the first ones, and while locking goes on, all the pages begun. */
    ghost predicate Locking(lockEnd: nat, lockNums: int)
      reads this
    {
      && |lockPids| == |parts| && pid < |parts|
      && first <= lockEnd <= pid + 1
      && (forall p :: first <= p < |parts| ==> (lockPids[p] <==> p < lockEnd))
      && (lockNums > 0 ==> lockEnd == pid + if parts[pid] == [] then 0 else 1)
    }

    /** Append a node to the current page. */
    method PutNode(v: nat, ghost vis: set<nat>)
      requires Placing(vis) && |parts[pid]| < C && v in Rest(nd, first) && v !in vis
      modifies this`parts, this`id2pid
      ensures Placing(vis + {v}) && |parts| == old(|parts|) && parts[pid] == old(parts[pid]) + [v]
      ensures parts[..first] == old(parts[..first]) && id2pid == old(id2pid)[v := pid]
    {
      PlaceHolds(parts, id2pid, vis, first, v, pid);
      parts := parts[pid := parts[pid] + [v]];
      id2pid := id2pid[v := pid];
    }

    /** Go on to the next page; there is one because the node `v` is still to be placed. */
    method NextPage(ghost v: nat, ghost vis: set<nat>)
      requires Placing(vis) && |parts[pid]| == C && v in Rest(nd, first) && v !in vis
      modifies this`pid
      ensures Placing(vis) && pid == old(pid) + 1 && parts[pid] == []
    {
      RoomAhead(vis, v, nd, first, pid, |parts|, C);
      assert (pid + 1 - first) * C == (pid - first) * C + C;
      pid := pid + 1;
    }

    /** The inner loop: the neighbours of `i` that are not placed yet go to the same page, until it
        is full; then the next page is begun. */
    method PlaceNeighbours(i: nat, vis0: set<nat>) returns (vis: set<nat>)
      requires Placing(vis0) && i < nd && parts[pid] != []
      modifies this`parts, this`id2pid, this`pid
      ensures Placing(vis) && vis0 <= vis && PagesKept(old(id2pid), id2pid, vis0)
      ensures forall v :: v in vis && v !in vis0 ==> v in fullGraph[i] && v in id2pid && id2pid[v] == old(pid)
      ensures |parts| == old(|parts|) && parts[..first] == old(parts[..first])
      ensures OthersStay(old(id2pid), id2pid, Rest(nd, first))
      ensures (pid == old(pid) && parts[pid] != []) || (pid == old(pid) + 1 && parts[pid] == [])
      ensures pid == old(pid) ==> forall m :: 0 <= m < |fullGraph[i]| && fullGraph[i][m] >= first ==>
        fullGraph[i][m] in vis
    {
      hide Hold, HoldFrom;
      vis := vis0;
      for m := 0 to |fullGraph[i]|
        invariant Placing(vis) && vis0 <= vis && parts[pid] != [] && PagesKept(old(id2pid), id2pid, vis0)
        invariant forall v :: v in vis && v !in vis0 ==> v in fullGraph[i] && v in id2pid && id2pid[v] == old(pid)
        invariant pid == old(pid) && |parts| == old(|parts|) && parts[..first] == old(parts[..first])
        invariant OthersStay(old(id2pid), id2pid, Rest(nd, first))
        invariant forall k :: 0 <= k < m && fullGraph[i][k] >= first ==> fullGraph[i][k] in vis
      {
        var s := fullGraph[i][m];
        if s in vis || s < first {
          continue;
        }
        if |parts[pid]| == C {
          NextPage(s, vis);
          break;
        }
        PutNode(s, vis);
        vis := vis + {s};
      }
    }

    /** Place the node itself, on the next page if the current one is full. */
    method BeginSeed(i: nat, ghost vis0: set<nat>, lockNums: int, ghost lockEnd: nat) returns (ghost lockEnd': nat)
      requires Placing(vis0) && i in Rest(nd, first) && i !in vis0 && Locking(lockEnd, lockNums)
      modifies this`parts, this`id2pid, this`pid, this`lockPids
      ensures Placing(vis0 + {i}) && Locking(lockEnd', lockNums) && parts[pid] != [] && pid >= old(pid)
      ensures |parts| == old(|parts|) && parts[..first] == old(parts[..first]) && id2pid == old(id2pid)[i := pid]
    {
      hide Hold, HoldFrom;
      if |parts[pid]| == C {
        NextPage(i, vis0);
      }
      PutNode(i, vis0);
      lockEnd' := LockPage(lockNums, lockEnd);
    }

    /** One turn of the outer loop for a node that is not placed yet. */
    method PlaceSeed(i: nat, vis0: set<nat>, lockNums: int, ghost lockEnd: nat, ghost seeds: set<nat>)
        returns (vis: set<nat>, ghost lockEnd': nat)
      requires Placing(vis0) && i in Rest(nd, first) && i !in vis0 && Locking(lockEnd, lockNums)
      requires Grouped(fullGraph, id2pid, first, pid, vis0, seeds)
      modifies this`parts, this`id2pid, this`pid, this`lockPids
      ensures Placing(vis) && vis0 + {i} <= vis && Locking(lockEnd', if lockNums != 0 then lockNums - 1 else lockNums)
      ensures |parts| == old(|parts|) && parts[..first] == old(parts[..first])
      ensures OthersStay(old(id2pid), id2pid, Rest(nd, first))
      ensures Grouped(fullGraph, id2pid, first, pid, vis, seeds + {i})
    {
      hide Hold, HoldFrom, Grouped;
      lockEnd' := BeginSeed(i, vis0, lockNums, lockEnd);
      vis := PlaceNeighbours(i, vis0 + {i});
      hide Filling, Rest, OthersStay, Gathered;
      SeedGrouped(old(id2pid), old(pid), vis0, vis, seeds, i);
    }

    lemma SeedGrouped(before: map<nat, nat>, pid0: nat, vis0: set<nat>, vis: set<nat>, seeds: set<nat>, i: nat)
      requires Placing(vis) && Grouped(fullGraph, before, first, pid0, vis0, seeds) && PagesKept(before, id2pid, vis0)
      requires pid0 <= pid && vis0 + {i} <= vis && i < |fullGraph|
      requires forall v :: v in vis && v !in vis0 + {i} ==>
        v in fullGraph[i] && v in id2pid && i in id2pid && id2pid[v] == id2pid[i]
      requires i in id2pid && (id2pid[i] == pid ==> forall m :: 0 <= m < |fullGraph[i]| && fullGraph[i][m] >= first ==>
        fullGraph[i][m] in vis)
      ensures Grouped(fullGraph, id2pid, first, pid, vis, seeds + {i})
    {
      assert forall v :: v in vis ==> v in id2pid && id2pid[v] <= pid;
      hide Partitioner.Placing, Grouped;
      GroupedMore(fullGraph, before, id2pid, first, pid0, pid, vis0, vis, seeds, i);
    }

    /** Lock the current page, in which a first node has just been placed, while locking goes on. */
    method LockPage(lockNums: int, ghost lockEnd: nat) returns (ghost lockEnd': nat)
      requires |lockPids| == |parts| && first <= pid < |parts| && parts[pid] != []
      requires first <= lockEnd <= pid + 1 && (lockNums > 0 ==> pid <= lockEnd)
      requires forall p :: first <= p < |parts| ==> (lockPids[p] <==> p < lockEnd)
      modifies this`lockPids
      ensures Locking(lockEnd', lockNums)
    {
      lockEnd' := lockEnd;
      if lockNums > 0 {
        lockPids := lockPids[pid := true];
        lockEnd' := pid + 1;
      }
    }

    /** Place the nodes of the stream that have no page yet, each with its neighbours, and lock the pages
        begun while `lockNums` lasts. */
    method PlaceStream(stream: seq<nat>, lockNums0: int)
        returns (vis: set<nat>, ghost lockEnd: nat, ghost seeds: set<nat>)
      requires Placing({}) && Locking(first, lockNums0)
      requires forall k :: 0 <= k < |stream| ==> stream[k] in Rest(nd, first)
      modifies this`parts, this`id2pid, this`pid, this`lockPids
      ensures Placing(vis) && Locking(lockEnd, 0) && forall k :: 0 <= k < |stream| ==> stream[k] in vis
      ensures |parts| == old(|parts|) && parts[..first] == old(parts[..first])
      ensures OthersStay(old(id2pid), id2pid, Rest(nd, first))
      ensures Grouped(fullGraph, id2pid, first, pid, vis, seeds)
    {
      assert OthersStay(id2pid, id2pid, Rest(nd, first)) && Grouped(fullGraph, id2pid, first, pid, {}, {});
      hide Filling, Rest, Partitioner.Placing, OthersStay, Grouped;
      var lockNums := lockNums0;
      vis, lockEnd, seeds := {}, first, {};
      for n := 0 to |stream|
        invariant Placing(vis) && Locking(lockEnd, lockNums)
        invariant |parts| == old(|parts|) && parts[..first] == old(parts[..first])
        invariant OthersStay(old(id2pid), id2pid, Rest(nd, first))
        invariant forall k :: 0 <= k < n ==> stream[k] in vis
        invariant Grouped(fullGraph, id2pid, first, pid, vis, seeds)
      {
        var i := stream[n];
        if i in vis {
          lockNums := lockNums - 1;
        } else {
          ghost var between := id2pid;
          vis, lockEnd := PlaceSeed(i, vis, lockNums, lockEnd, seeds);
          seeds := seeds + {i};
          OthersStayOn(old(id2pid), between, id2pid, Rest(nd, first));
          if lockNums != 0 {
            lockNums := lockNums - 1;
          }
        }
      }
    }

    /** The placement loop: `stream` lists every node that has no page yet, the most wanted first. */
    method PlaceAll(stream: seq<nat>, lockNums: int) returns (ghost lockEnd: nat, ghost seeds: set<nat>)
      requires Sized() && first < nd && pid == first && HoldFrom(parts, id2pid, {}, first)
      requires forall p :: first <= p < |parts| ==> parts[p] == [] && !lockPids[p]
      requires forall v :: v in stream <==> v in Rest(nd, first)
      modifies this`parts, this`id2pid, this`pid, this`lockPids
      ensures Placing(Rest(nd, first)) && Locking(lockEnd, 0)
      ensures |parts| == old(|parts|) && parts[..first] == old(parts[..first])
      ensures OthersStay(old(id2pid), id2pid, Rest(nd, first))
      ensures Grouped(fullGraph, id2pid, first, pid, Rest(nd, first), seeds)
    {
      hide Hold, HoldFrom, Grouped;
      FirstPageExists();
      var vis;
      vis, lockEnd, seeds := PlaceStream(stream, lockNums);
      StreamPlaced(stream, vis);
    }

    lemma StreamPlaced(stream: seq<nat>, vis: set<nat>)
      requires Placing(vis) && (forall v :: v in Rest(nd, first) ==> v in stream)
      requires forall k :: 0 <= k < |stream| ==> stream[k] in vis
      ensures vis == Rest(nd, first)
    {
      hide Filling, HoldFrom;
    }

    lemma FirstPageExists()
      requires Sized() && first < nd
      ensures first < |parts|
    {
      assert 0 * C < (|parts| - first) * C;
      MulLess(0, |parts| - first, C);
    }

    /** The nodes of the locked pages: `_lock_nodes`, as collected page by page. */
    method CollectLocked(ghost lockEnd: nat) returns (lockNodes: set<nat>)
      requires Placing(Rest(nd, first)) && Locking(lockEnd, 0)
      ensures forall v :: v in lockNodes <==> v in Rest(nd, first) && id2pid[v] < lockEnd
    {
      lockNodes := {};
      var i := first;
      while i < |parts|
        invariant first <= i <= |parts|
        invariant i <= lockEnd
        invariant forall v :: v in lockNodes <==> v in Rest(nd, first) && id2pid[v] < i
      {
        if !lockPids[i] {
          break;
        }
        lockNodes := lockNodes + (set v | v in parts[i]);
        i := i + 1;
      }
    }
  }

  lemma {:induction false} FullPages(parts: seq<seq<nat>>, id2pid: map<nat, nat>, owned: set<nat>, C: nat, end: nat)
      returns (inside: set<nat>)
    requires Hold(parts, id2pid, owned) && end <= |parts|
    requires forall p :: 0 <= p < end ==> |parts[p]| == C
    ensures inside <= owned && |inside| == end * C
    ensures forall v :: v in inside <==> v in owned && id2pid[v] < end
  {
    if end == 0 {
      inside := {};
    } else {
      inside := FullPages(parts, id2pid, owned, C, end - 1);
      var page := PageSet(parts[end - 1], |parts[end - 1]|);
      assert inside !! page;
      assert end * C == (end - 1) * C + C;
      inside := inside + page;
    }
  }

  lemma {:induction false} PageSet(page: seq<nat>, n: nat) returns (nodes: set<nat>)
    requires n <= |page| && forall i, j :: 0 <= i < |page| && 0 <= j < |page| && page[i] == page[j] ==> i == j
    ensures |nodes| == n && forall v :: v in nodes <==> v in page[..n]
  {
    if n == 0 {
      nodes := {};
    } else {
      nodes := PageSet(page, n - 1);
      assert page[..n] == page[..n - 1] + [page[n - 1]];
      nodes := nodes + {page[n - 1]};
    }
  }

  ghost function LockedPages(lockPids: seq<bool>): set<nat> {
    set p | 0 <= p < |lockPids| && lockPids[p]
  }

  lemma DifferenceSize(all: set<nat>, inside: set<nat>)
    requires inside <= all
    ensures |all - inside| == |all| - |inside|
  {
    assert all == inside + (all - inside);
  }

  lemma RoomArith(nodes: nat, pages: nat, locked: nat, C: nat)
    requires nodes <= pages * C && locked <= pages
    ensures nodes - locked * C <= C * (pages - locked)
  {
    assert C * (pages - locked) == pages * C - locked * C;
  }

  lemma NothingAfter(parts: seq<seq<nat>>, id2pid: map<nat, nat>, owned: set<nat>, pid: nat, C: nat)
    requires Filling(parts, 0, pid, C) && Hold(parts, id2pid, owned)
    ensures forall v :: v in owned ==> v in id2pid && id2pid[v] <= pid
  {
    forall v | v in owned
      ensures v in id2pid && id2pid[v] <= pid
    {
      assert v in parts[id2pid[v]];
    }
  }

  lemma LockedFull(parts: seq<seq<nat>>, id2pid: map<nat, nat>, all: set<nat>, C: nat, lockEnd: nat,
                   lockNodes: set<nat>)
    requires Hold(parts, id2pid, all) && lockEnd <= |parts| && (forall p :: 0 <= p < lockEnd ==> |parts[p]| == C)
    requires forall v :: v in lockNodes <==> v in all && id2pid[v] < lockEnd
    ensures |all - lockNodes| == |all| - lockEnd * C
  {
    var inside := FullPages(parts, id2pid, all, C, lockEnd);
    assert inside == lockNodes;
    DifferenceSize(all, lockNodes);
  }

  lemma LockedPagesFull(parts: seq<seq<nat>>, pid: nat, C: nat, lockEnd: nat)
    requires Filling(parts, 0, pid, C) && lockEnd <= pid
    ensures lockEnd <= |parts| && forall p :: 0 <= p < lockEnd ==> |parts[p]| == C
  {
  }

  /** The unlocked nodes of a filling of the pages fit into the pages after the locked ones. */
  lemma UnlockedFit(parts: seq<seq<nat>>, id2pid: map<nat, nat>, nd: nat, pid: nat, C: nat, lockEnd: nat,
                    lockNodes: set<nat>)
    requires Filling(parts, 0, pid, C) && Hold(parts, id2pid, Below(nd)) && lockEnd <= pid + 1 <= |parts|
    requires nd <= |parts| * C
    requires forall v :: v in lockNodes <==> v in Below(nd) && id2pid[v] < lockEnd
    ensures |Below(nd) - lockNodes| <= C * (|parts| - lockEnd)
  {
    hide Filling, Hold;
    if lockEnd <= pid {
      LockedPagesFull(parts, pid, C, lockEnd);
      LockedFull(parts, id2pid, Below(nd), C, lockEnd, lockNodes);
      RoomArith(nd, |parts|, lockEnd, C);
    } else {
      NothingAfter(parts, id2pid, Below(nd), pid, C);
      assert Below(nd) - lockNodes == {};
      hide *;
      RoomArith(0, |parts| - lockEnd, 0, C);
    }
  }

  lemma PagesAfter(pages: nat, lockEnd: nat, lockPids: seq<bool>)
    requires |lockPids| == pages && lockEnd <= pages && forall p :: 0 <= p < pages ==> (lockPids[p] <==> p < lockEnd)
    ensures LdgRound.FreePages(pages, LockedPages(lockPids)) == pages - lockEnd
  {
    assert Below(pages) - LockedPages(lockPids) == Below(pages) - Below(lockEnd);
    RestSize(pages, lockEnd);
  }

  lemma FilledWithin(parts: seq<seq<nat>>, pid: nat, C: nat)
    requires Filling(parts, 0, pid, C)
    ensures forall p :: 0 <= p < |parts| ==> |parts[p]| <= C
  {
  }

  lemma PlacedFacts(g: Partitioner, lockEnd: nat)
    requires g.first == 0 && g.Placing(Rest(g.nd, 0)) && g.Locking(lockEnd, 0)
    ensures Rest(g.nd, 0) == Below(g.nd) && g.nd <= |g.parts| * g.C && g.C > 0
    ensures Filling(g.parts, 0, g.pid, g.C) && Hold(g.parts, g.id2pid, Below(g.nd)) && lockEnd <= g.pid + 1 <= |g.parts|
    ensures |g.lockPids| == |g.parts| && forall p :: 0 <= p < |g.parts| ==> (g.lockPids[p] <==> p < lockEnd)
  {
    hide HoldFrom;
  }

  /** At scale factor 1 the placement hands the streaming rounds what they need: the pages that are
      not locked have room for the nodes that are not locked, however many pages are locked. */
  lemma RoundHasRoom(g: Partitioner, lockEnd: nat, lockNodes: set<nat>, nbrs: seq<seq<nat>>)
    requires g.first == 0 && g.Placing(Rest(g.nd, 0)) && g.Locking(lockEnd, 0) && |nbrs| == g.nd
    requires forall v :: v in lockNodes <==> v in Rest(g.nd, 0) && g.id2pid[v] < lockEnd
    ensures LdgRound.EnoughRoom(LdgRound.Config(g.C, |g.parts|, nbrs, lockNodes, LockedPages(g.lockPids)))
  {
    hide LdgRound.FreePages, LockedPages, Rest, Hold, Filling, Partitioner.Placing, Partitioner.Locking, Below;
    PlacedFacts(g, lockEnd);
    UnlockedFit(g.parts, g.id2pid, g.nd, g.pid, g.C, lockEnd, lockNodes);
    PagesAfter(|g.parts|, lockEnd, g.lockPids);
  }

  /** Each locked page is full, or all pages with nodes are locked. */
  lemma PlacementSettled(c: LdgRound.Config, s: LdgRound.State, pid: nat, nd: nat, lockEnd: nat)
    requires Filling(s.parts, 0, pid, c.C) && Hold(s.parts, s.id2pid, Below(nd)) && lockEnd <= pid + 1 <= |s.parts|
    requires |c.nbrs| == nd
    requires forall v :: v in Below(nd) && v in s.id2pid && s.id2pid[v] < lockEnd ==> v in c.lockedNodes
    requires forall p :: p in c.lockedPids && p < c.pages ==> p < lockEnd
    ensures LdgRound.Settled(c, s)
  {
    hide Filling, Hold;
    if lockEnd <= pid {
      LockedPagesFull(s.parts, pid, c.C, lockEnd);
    } else {
      NothingAfter(s.parts, s.id2pid, Below(nd), pid, c.C);
      assert LdgRound.Unlocked(c) == {};
    }
  }

  /** The placement at scale factor 1 is a state from which the streaming rounds can start, one after the other. */
  lemma PlacementReady(g: Partitioner, lockEnd: nat, lockNodes: set<nat>, nbrs: seq<seq<nat>>, s: LdgRound.State)
    requires g.first == 0 && g.Placing(Rest(g.nd, 0)) && g.Locking(lockEnd, 0) && |nbrs| == g.nd
    requires forall v :: v in lockNodes <==> v in Rest(g.nd, 0) && g.id2pid[v] < lockEnd
    requires forall v :: v in g.id2pid ==> v < g.nd
    requires s.parts == g.parts && s.id2pid == g.id2pid && forall t :: 0 <= t < |s.pc| ==> s.pc[t] == LdgRound.Idle
    ensures var c := LdgRound.Config(g.C, |g.parts|, nbrs, lockNodes, LockedPages(g.lockPids));
      LdgRound.Ready(c, s) && LdgRound.Settled(c, s)
  {
    hide Rest, Filling, Partitioner.Placing, Partitioner.Locking;
    var c := LdgRound.Config(g.C, |g.parts|, nbrs, lockNodes, LockedPages(g.lockPids));
    PlacedFacts(g, lockEnd);
    PlacementSettled(c, s, g.pid, g.nd, lockEnd);
    hide LdgRound.Settled;
    assert forall p :: 0 <= p < |g.parts| ==> |g.parts[p]| <= g.C by { FilledWithin(g.parts, g.pid, g.C); }
    assert LdgRound.Unlocked(c) + lockNodes == Below(g.nd);
  }
}
