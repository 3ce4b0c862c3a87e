/** One round of the streaming partitioner (`graph_partition_LDG`): threads take the nodes off a
    shared stream and each `sync` places one node into a page of capacity `C`. The threads'
    accesses to the pages, to `id2pid` and to the free queue are the atomic steps. */
module LdgRound {
  import opened Pages
  import opened Sets

  /** `nbrs[v]` lists the direct and then the reverse neighbours of `v`. Locked pages keep their
      content, locked nodes are skipped. */
  datatype Config = Config(C: nat, pages: nat, nbrs: seq<seq<nat>>, lockedNodes: set<nat>, lockedPids: set<nat>) {
    ghost predicate Valid() {
      C > 0 && (forall v :: v in lockedNodes ==> v < |nbrs|)
    }
  }

  datatype Candidate = NoPage | Page(pid: nat)

  /** Where a thread is inside `sync(v)`: counting the pages of the neighbours, scoring those pages,
      waiting for the free queue, looking at a popped page, about to lock the page chosen, about to
      give the page back to the queue. `popped` tells that the page was taken from the queue. */
  datatype Pc =
    | Idle
    | Counting(v: nat, k: nat, pcount: map<nat, nat>)
    | Scoring(v: nat, left: map<nat, nat>, best: Candidate, score: real)
    | Popping(v: nat)
    | Checking(v: nat, pid: nat)
    | Chosen(v: nat, pid: nat, popped: bool)
    | Pushing(pid: nat)

  /** `id2pid` has no entry for a node that was never placed. `placed` collects the nodes placed in
      this round. */
  datatype State = State(
    parts: seq<seq<nat>>,
    id2pid: map<nat, nat>,
    freeQ: multiset<nat>,
    todo: set<nat>,
    pc: seq<Pc>,
    placed: set<nat>
  )

  ghost predicate Full(c: Config, s: State, p: nat) {
    p < |s.parts| && |s.parts[p]| == c.C
  }

  /** `cnt * (1 - s / C)` */
  ghost function Score(c: Config, cnt: nat, size: nat): real
    requires c.C > 0
  {
    cnt as real * (1.0 - size as real / c.C as real)
  }

  ghost function Bump(m: map<nat, nat>, p: nat): map<nat, nat> {
    m[p := if p in m then m[p] + 1 else 1]
  }

  /** One atomic step of thread `t`. `x` resolves its choice: the node taken, the next page scored,
      or the page popped. */
  ghost predicate Step(c: Config, s: State, s': State, t: nat, x: nat) {
    && t < |s.pc| && c.C > 0
    && match s.pc[t]
       case Idle =>
         x in s.todo && s' == s.(todo := s.todo - {x}, pc := s.pc[t := Counting(x, 0, map[])])
       case Counting(v, k, pcount) =>
         && v < |c.nbrs|
         && s' == s.(pc := s.pc[t :=
              if k < |c.nbrs[v]| then
                Counting(v, k + 1, if c.nbrs[v][k] in s.id2pid then Bump(pcount, s.id2pid[c.nbrs[v][k]]) else pcount)
              else Scoring(v, pcount, NoPage, 0.0)])
       case Scoring(v, left, best, score) =>
         if left == map[] then
           s' == s.(pc := s.pc[t := if best.NoPage? then Popping(v) else Chosen(v, best.pid, false)])
         else
           && x in left && x < |s.parts|
           && var value := Score(c, left[x], |s.parts[x]|);
              s' == s.(pc := s.pc[t :=
                if value > score && |s.parts[x]| < c.C then Scoring(v, left - {x}, Page(x), value)
                else Scoring(v, left - {x}, best, score)])
       case Popping(v) =>
         x in s.freeQ && s' == s.(freeQ := s.freeQ - multiset{x}, pc := s.pc[t := Checking(v, x)])
       case Checking(v, pid) =>
         s' == s.(pc := s.pc[t := if Full(c, s, pid) then Popping(v) else Chosen(v, pid, true)])
       case Chosen(v, pid, _) =>
         && pid < |s.parts|
         && s' == if Full(c, s, pid) then s.(pc := s.pc[t := Counting(v, 0, map[])])
                  else s.(parts := s.parts[pid := s.parts[pid] + [v]],
                          id2pid := s.id2pid[v := pid],
                          placed := s.placed + {v},
                          pc := s.pc[t := if |s.parts[pid]| + 1 != c.C then Pushing(pid) else Idle])
       case Pushing(pid) =>
         s' == s.(freeQ := s.freeQ + multiset{pid}, pc := s.pc[t := Idle])
  }

  ghost function Unlocked(c: Config): set<nat> {
    Below(|c.nbrs|) - c.lockedNodes
  }

  /** The round starts with the unlocked pages emptied and queued, and the rest left alone. */
  ghost predicate Init(c: Config, s: State) {
    && |s.parts| == c.pages
    && (forall p :: 0 <= p < c.pages ==> |s.parts[p]| <= c.C && (p !in c.lockedPids ==> s.parts[p] == []))
    && (forall p: nat :: s.freeQ[p] == if p < c.pages && p !in c.lockedPids then 1 else 0)
    && (forall v :: v in s.id2pid ==> s.id2pid[v] < c.pages)
    && Contents(c, s)
    && s.todo == Unlocked(c) && s.placed == {}
    && (forall t :: 0 <= t < |s.pc| ==> s.pc[t] == Idle)
  }

  ghost predicate Contents(c: Config, s: State) {
    Hold(s.parts, s.id2pid, s.placed + c.lockedNodes)
  }

  /** The node a thread is about to place, or -1. */
  ghost function NodeOf(pc: Pc): int {
    match pc
    case Idle => -1
    case Counting(v, _, _) => v
    case Scoring(v, _, _, _) => v
    case Popping(v) => v
    case Checking(v, _) => v
    case Chosen(v, _, _) => v
    case Pushing(_) => -1
  }

  /** The thread has taken the page from the queue, or is about to put it there. */
  ghost predicate Holds(pc: Pc, p: nat) {
    match pc
    case Checking(_, q) => q == p
    case Chosen(_, q, popped) => popped && q == p
    case Pushing(q) => q == p
    case _ => false
  }

  ghost predicate KnownPages(c: Config, pc: Pc) {
    match pc
    case Counting(v, k, m) => v < |c.nbrs| && k <= |c.nbrs[v]| && |m| <= k && forall p :: p in m ==> p < c.pages
    case Scoring(v, m, best, _) => v < |c.nbrs| && |m| <= |c.nbrs[v]| && (best.Page? ==> best.pid < c.pages) &&
      forall p :: p in m ==> p < c.pages
    case Checking(v, p) => v < |c.nbrs| && p < c.pages
    case Chosen(v, p, _) => v < |c.nbrs| && p < c.pages
    case Pushing(p) => p < c.pages
    case Popping(v) => v < |c.nbrs|
    case Idle => true
  }

  ghost predicate Bounds(c: Config, s: State) {
    && c.Valid() && |s.parts| == c.pages
    && (forall p :: 0 <= p < c.pages ==> |s.parts[p]| <= c.C)
    && (forall v :: v in s.id2pid ==> s.id2pid[v] < c.pages)
    && (forall p :: p in s.freeQ ==> p < c.pages)
    && (forall v :: v in s.todo ==> v < |c.nbrs|)
    && (forall t :: 0 <= t < |s.pc| ==> KnownPages(c, s.pc[t]))
  }

  ghost predicate Handled(s: State, v: nat) {
    exists t :: 0 <= t < |s.pc| && NodeOf(s.pc[t]) == v
  }

  /** Each unlocked node is on the stream, with exactly one thread, or placed. */
  ghost predicate Accounted(c: Config, s: State) {
    && s.todo <= Unlocked(c) && s.placed <= Unlocked(c) && s.todo !! s.placed
    && (forall t :: 0 <= t < |s.pc| && NodeOf(s.pc[t]) >= 0 ==>
          NodeOf(s.pc[t]) in Unlocked(c) && NodeOf(s.pc[t]) !in s.todo && NodeOf(s.pc[t]) !in s.placed)
    && (forall t, u :: 0 <= t < |s.pc| && 0 <= u < |s.pc| && NodeOf(s.pc[t]) == NodeOf(s.pc[u]) >= 0 ==> t == u)
    && (forall v {:trigger Handled(s, v)} :: v in Unlocked(c) && v !in s.todo && v !in s.placed ==> Handled(s, v))
  }

  ghost predicate Held(s: State, p: nat) {
    exists t :: 0 <= t < |s.pc| && Holds(s.pc[t], p)
  }

  /** No page with room is lost: it is in the queue or on its way back to it. */
  ghost predicate NoPageLost(c: Config, s: State) {
    forall p {:trigger Held(s, p)} :: 0 <= p < c.pages && p !in c.lockedPids && !Full(c, s, p) && !Held(s, p) ==>
      p in s.freeQ
  }

  ghost function RoomUsed(c: Config, parts: seq<seq<nat>>, n: nat): nat
    requires n <= |parts|
  {
    if n == 0 then 0 else RoomUsed(c, parts, n - 1) + if n - 1 in c.lockedPids then 0 else |parts[n - 1]|
  }

  ghost predicate Inv(c: Config, s: State) {
    Bounds(c, s) && Contents(c, s) && Accounted(c, s) && NoPageLost(c, s) &&
      RoomUsed(c, s.parts, |s.parts|) <= |s.placed|
  }

  /** A step moves one thread only. */
  lemma OnlyMover(c: Config, s: State, s': State, t: nat, x: nat)
    requires Step(c, s, s', t, x)
    ensures |s'.pc| == |s.pc| && forall u :: 0 <= u < |s.pc| && u != t ==> s'.pc[u] == s.pc[u]
  {
  }

  lemma CountSize(m: map<nat, nat>, p: nat)
    ensures |Bump(m, p)| <= |m| + 1
  {
    assert Bump(m, p).Keys == m.Keys + {p};
  }

  lemma ScoreSize(m: map<nat, nat>, p: nat)
    requires p in m
    ensures |m - {p}| == |m| - 1
  {
    assert (m - {p}).Keys == m.Keys - {p};
  }

  lemma MoverKnows(c: Config, s: State, s': State, t: nat, x: nat)
    requires Bounds(c, s) && Step(c, s, s', t, x)
    ensures KnownPages(c, s'.pc[t])
  {
    match s.pc[t] {
      case Counting(v, k, m) =>
        if k < |c.nbrs[v]| && c.nbrs[v][k] in s.id2pid {
          CountSize(m, s.id2pid[c.nbrs[v][k]]);
        }
      case Scoring(v, left, _, _) =>
        if left != map[] {
          ScoreSize(left, x);
        }
      case _ =>
    }
  }

  /** Only placing a node changes the pages. */
  ghost predicate Places(c: Config, s: State, t: nat) {
    t < |s.pc| && s.pc[t].Chosen? && !Full(c, s, s.pc[t].pid)
  }

  lemma UnlessPlacing(c: Config, s: State, s': State, t: nat, x: nat)
    requires Step(c, s, s', t, x) && !Places(c, s, t)
    ensures s'.parts == s.parts && s'.id2pid == s.id2pid && s'.placed == s.placed
  {
  }

  lemma StepKeepsBounds(c: Config, s: State, s': State, t: nat, x: nat)
    requires Bounds(c, s) && Step(c, s, s', t, x)
    ensures Bounds(c, s')
  {
    OnlyMover(c, s, s', t, x);
    MoverKnows(c, s, s', t, x);
  }

  lemma StepKeepsContents(c: Config, s: State, s': State, t: nat, x: nat)
    requires Bounds(c, s) && Contents(c, s) && Accounted(c, s) && Step(c, s, s', t, x)
    ensures Contents(c, s')
  {
    if Places(c, s, t) {
      assert s.pc[t].v == NodeOf(s.pc[t]);
      PlaceHolds(s.parts, s.id2pid, s.placed + c.lockedNodes, 0, s.pc[t].v, s.pc[t].pid);
      assert s'.placed + c.lockedNodes == s.placed + c.lockedNodes + {s.pc[t].v};
    } else {
      UnlessPlacing(c, s, s', t, x);
    }
  }

  /** What a step does to the node that the moving thread is about to place. */
  lemma MoverNode(c: Config, s: State, s': State, t: nat, x: nat)
    requires Bounds(c, s) && Step(c, s, s', t, x)
    ensures s.pc[t].Idle? ==> NodeOf(s'.pc[t]) == x && x in s.todo && s'.todo == s.todo - {x} && s'.placed == s.placed
    ensures Places(c, s, t) ==> NodeOf(s'.pc[t]) == -1 && s'.todo == s.todo && s'.placed == s.placed + {s.pc[t].v}
    ensures !s.pc[t].Idle? && !Places(c, s, t) ==>
      NodeOf(s'.pc[t]) == NodeOf(s.pc[t]) && s'.todo == s.todo && s'.placed == s.placed
  {
  }

  lemma StillHandled(c: Config, s: State, s': State, t: nat, x: nat, v: nat)
    requires Bounds(c, s) && Accounted(c, s) && Step(c, s, s', t, x)
    requires v in Unlocked(c) && v !in s'.todo && v !in s'.placed
    ensures Handled(s', v)
  {
    OnlyMover(c, s, s', t, x);
    MoverNode(c, s, s', t, x);
    hide Step, Bounds, Full, Unlocked;
    if s.pc[t].Idle? && v == x {
      assert NodeOf(s'.pc[t]) == v;
    } else {
      assert Handled(s, v);
      var u :| 0 <= u < |s.pc| && NodeOf(s.pc[u]) == v;
      assert NodeOf(s'.pc[u]) == v;
    }
  }

  lemma StepKeepsAccounted(c: Config, s: State, s': State, t: nat, x: nat)
    requires Bounds(c, s) && Accounted(c, s) && Step(c, s, s', t, x)
    ensures Accounted(c, s')
  {
    OnlyMover(c, s, s', t, x);
    MoverNode(c, s, s', t, x);
    forall v | v in Unlocked(c) && v !in s'.todo && v !in s'.placed
      ensures Handled(s', v)
    {
      StillHandled(c, s, s', t, x, v);
    }
    hide Step, Bounds, Full, Unlocked, NodeOf, Handled;
    assert Accounted(c, s');
  }

  /** A page the moving thread lets go of is full, placed into and pushed back, or in the queue. */
  lemma MoverPages(c: Config, s: State, s': State, t: nat, x: nat, p: nat)
    requires Bounds(c, s) && Step(c, s, s', t, x) && p < c.pages
    ensures Holds(s.pc[t], p) && !Full(c, s', p) ==> Holds(s'.pc[t], p) || p in s'.freeQ
    ensures p in s.freeQ ==> p in s'.freeQ || Holds(s'.pc[t], p)
    ensures Full(c, s, p) && !Full(c, s', p) ==> false
  {
  }

  lemma StepKeepsPages(c: Config, s: State, s': State, t: nat, x: nat)
    requires Bounds(c, s) && NoPageLost(c, s) && Step(c, s, s', t, x)
    ensures NoPageLost(c, s')
  {
    OnlyMover(c, s, s', t, x);
    forall p | 0 <= p < c.pages && p !in c.lockedPids && !Full(c, s', p) && !Held(s', p)
      ensures p in s'.freeQ
    {
      MoverPages(c, s, s', t, x, p);
      assert !Holds(s'.pc[t], p);
      assert forall u :: 0 <= u < |s.pc| && u != t ==> Holds(s.pc[u], p) == Holds(s'.pc[u], p);
      assert Held(s, p) ==> Holds(s.pc[t], p);
    }
  }

  lemma {:induction false} RoomAfterPlacing(c: Config, parts: seq<seq<nat>>, pid: nat, v: nat, n: nat)
    requires pid < |parts| && n <= |parts|
    ensures RoomUsed(c, parts[pid := parts[pid] + [v]], n) <= RoomUsed(c, parts, n) + 1
    ensures n <= pid ==> RoomUsed(c, parts[pid := parts[pid] + [v]], n) == RoomUsed(c, parts, n)
  {
    if n > 0 {
      RoomAfterPlacing(c, parts, pid, v, n - 1);
    }
  }

  lemma StepKeepsRoom(c: Config, s: State, s': State, t: nat, x: nat)
    requires Inv(c, s) && Step(c, s, s', t, x)
    ensures RoomUsed(c, s'.parts, |s'.parts|) <= |s'.placed|
  {
    if Places(c, s, t) {
      assert s.pc[t].v == NodeOf(s.pc[t]);
      RoomAfterPlacing(c, s.parts, s.pc[t].pid, s.pc[t].v, |s.parts|);
    } else {
      UnlessPlacing(c, s, s', t, x);
    }
  }

  lemma InvInductive(c: Config, s: State, s': State, t: nat, x: nat)
    requires Inv(c, s) && Step(c, s, s', t, x)
    ensures Inv(c, s')
  {
    StepKeepsBounds(c, s, s', t, x);
    StepKeepsContents(c, s, s', t, x);
    StepKeepsAccounted(c, s, s', t, x);
    StepKeepsPages(c, s, s', t, x);
    StepKeepsRoom(c, s, s', t, x);
  }

  lemma {:induction false} RoomAtStart(c: Config, parts: seq<seq<nat>>, n: nat)
    requires n <= |parts| && forall p :: 0 <= p < |parts| && p !in c.lockedPids ==> parts[p] == []
    ensures RoomUsed(c, parts, n) == 0
  {
    if n > 0 {
      RoomAtStart(c, parts, n - 1);
    }
  }

  lemma InitInv(c: Config, s: State)
    requires c.Valid() && Init(c, s)
    ensures Inv(c, s)
  {
    RoomAtStart(c, s.parts, |s.parts|);
    forall p | 0 <= p < c.pages && p !in c.lockedPids
      ensures p in s.freeQ
    {
      assert s.freeQ[p] == 1;
    }
    assert forall p :: p in s.freeQ ==> s.freeQ[p] > 0;
  }

  ghost predicate Next(c: Config, s: State, s': State) {
    exists t, x :: Step(c, s, s', t, x)
  }

  lemma NextKeepsInv(c: Config, s: State, s': State)
    requires Inv(c, s) && Next(c, s, s')
    ensures Inv(c, s')
  {
    var t, x :| Step(c, s, s', t, x);
    InvInductive(c, s, s', t, x);
  }

  ghost predicate Follows(c: Config, run: seq<State>, k: nat) {
    k + 1 < |run| ==> Next(c, run[k], run[k + 1])
  }

  ghost predicate IsRun(c: Config, run: seq<State>) {
    |run| > 0 && Init(c, run[0]) && forall k: nat :: Follows(c, run, k)
  }

  lemma {:induction false} RunInv(c: Config, run: seq<State>, k: nat)
    requires c.Valid() && IsRun(c, run) && k < |run|
    ensures Inv(c, run[k])
  {
    if k == 0 {
      InitInv(c, run[0]);
    } else {
      RunInv(c, run, k - 1);
      assert Follows(c, run, k - 1);
      NextKeepsInv(c, run[k - 1], run[k]);
    }
  }

  ghost predicate Finished(s: State) {
    s.todo == {} && forall t :: 0 <= t < |s.pc| ==> s.pc[t] == Idle
  }

  /** What a finished round promises: every unlocked node lies in exactly one page, at one place,
      the one `id2pid` names; locked nodes are still in their pages; no page is overfull. */
  lemma RoundResult(c: Config, run: seq<State>, k: nat)
    requires c.Valid() && IsRun(c, run) && k < |run| && Finished(run[k])
    ensures var s := run[k];
      && Hold(s.parts, s.id2pid, Unlocked(c) + c.lockedNodes)
      && |s.parts| == c.pages && forall p :: 0 <= p < c.pages ==> |s.parts[p]| <= c.C
  {
    RunInv(c, run, k);
    var s := run[k];
    forall v | v in Unlocked(c)
      ensures v in s.placed
    {
      assert !Handled(s, v);
    }
    assert s.placed == Unlocked(c);
  }

  lemma OneMore(a: nat, k: nat, l: nat)
    requires l == k + 1
    ensures a * l == a * k + a
  {
  }

  /** How many of the first `n` pages are not locked. */
  ghost function FreePages(n: nat, locked: set<nat>): nat {
    |Below(n) - locked|
  }

  lemma OneMorePage(n: nat, locked: set<nat>)
    ensures FreePages(0, locked) == 0
    ensures FreePages(n + 1, locked) == FreePages(n, locked) + if n in locked then 0 else 1
  {
    assert Below(0) - locked == {};
    if n in locked {
      assert Below(n + 1) - locked == Below(n) - locked;
    } else {
      assert Below(n + 1) - locked == (Below(n) - locked) + {n};
    }
  }

  ghost function Room(size: nat, pages: nat): nat {
    size * pages
  }

  lemma RoomOfOneMore(size: nat, pages: nat)
    ensures Room(size, 0) == 0 && Room(size, pages + 1) == Room(size, pages) + size
  {
    OneMore(size, pages, pages + 1);
  }

  lemma {:induction false} AllFull(c: Config, parts: seq<seq<nat>>, n: nat)
    requires n <= |parts| && forall p :: 0 <= p < n && p !in c.lockedPids ==> |parts[p]| == c.C
    ensures RoomUsed(c, parts, n) == Room(c.C, FreePages(n, c.lockedPids))
  {
    hide Room, FreePages;
    if n == 0 {
      OneMorePage(0, c.lockedPids);
      RoomOfOneMore(c.C, 0);
    } else {
      AllFull(c, parts, n - 1);
      OneMorePage(n - 1, c.lockedPids);
      RoomOfOneMore(c.C, FreePages(n - 1, c.lockedPids));
    }
  }

  /** The pages of the round have room for its nodes. */
  ghost predicate EnoughRoom(c: Config) {
    |Unlocked(c)| <= Room(c.C, FreePages(c.pages, c.lockedPids))
  }

  /** While a node is not placed, some unlocked page has room. */
  lemma RoomLeft(c: Config, s: State, v: nat) returns (p: nat)
    requires Inv(c, s) && EnoughRoom(c) && v in Unlocked(c) && v !in s.placed
    ensures p < c.pages && p !in c.lockedPids && !Full(c, s, p)
  {
    if forall p :: 0 <= p < c.pages && p !in c.lockedPids ==> Full(c, s, p) {
      AllFull(c, s.parts, c.pages);
      ProperSubsetSize(s.placed, Unlocked(c), v);
      assert false;
    }
    p :| 0 <= p < c.pages && p !in c.lockedPids && !Full(c, s, p);
  }

  ghost predicate CanStep(c: Config, s: State) {
    exists s', t, x :: Step(c, s, s', t, x)
  }

  lemma BusyCanStep(c: Config, s: State, t: nat)
    requires Bounds(c, s) && t < |s.pc| && !s.pc[t].Idle? && !s.pc[t].Popping?
    ensures CanStep(c, s)
  {
    match s.pc[t] {
      case Counting(v, k, pcount) =>
        var s' := s.(pc := s.pc[t :=
          if k < |c.nbrs[v]| then
            Counting(v, k + 1, if c.nbrs[v][k] in s.id2pid then Bump(pcount, s.id2pid[c.nbrs[v][k]]) else pcount)
          else Scoring(v, pcount, NoPage, 0.0)]);
        assert Step(c, s, s', t, 0);
      case Scoring(v, left, best, score) =>
        if left == map[] {
          var s' := s.(pc := s.pc[t := if best.NoPage? then Popping(v) else Chosen(v, best.pid, false)]);
          assert Step(c, s, s', t, 0);
        } else {
          var x :| x in left;
          var value := Score(c, left[x], |s.parts[x]|);
          var s' := s.(pc := s.pc[t :=
            if value > score && |s.parts[x]| < c.C then Scoring(v, left - {x}, Page(x), value)
            else Scoring(v, left - {x}, best, score)]);
          assert Step(c, s, s', t, x);
        }
      case Checking(v, pid) =>
        var s' := s.(pc := s.pc[t := if Full(c, s, pid) then Popping(v) else Chosen(v, pid, true)]);
        assert Step(c, s, s', t, 0);
      case Chosen(v, pid, _) =>
        var s' := if Full(c, s, pid) then s.(pc := s.pc[t := Counting(v, 0, map[])])
                  else s.(parts := s.parts[pid := s.parts[pid] + [v]],
                          id2pid := s.id2pid[v := pid],
                          placed := s.placed + {v},
                          pc := s.pc[t := if |s.parts[pid]| + 1 != c.C then Pushing(pid) else Idle]);
        assert Step(c, s, s', t, 0);
      case Pushing(pid) =>
        var s' := s.(freeQ := s.freeQ + multiset{pid}, pc := s.pc[t := Idle]);
        assert Step(c, s, s', t, 0);
    }
  }

  /** No deadlock: as long as the pages have room for the nodes of the round, some thread can go
      on. A thread at an empty queue waits for a page that another thread is about to push. */
  lemma NoDeadlock(c: Config, s: State)
    requires Inv(c, s) && EnoughRoom(c) && |s.pc| > 0 && !Finished(s)
    ensures CanStep(c, s)
  {
    if t :| 0 <= t < |s.pc| && !s.pc[t].Idle? && !s.pc[t].Popping? {
      BusyCanStep(c, s, t);
    } else if t :| 0 <= t < |s.pc| && s.pc[t].Popping? {
      assert NodeOf(s.pc[t]) in Unlocked(c);
      var p := RoomLeft(c, s, NodeOf(s.pc[t]));
      assert !Held(s, p);
      assert Step(c, s, s.(freeQ := s.freeQ - multiset{p}, pc := s.pc[t := Checking(s.pc[t].v, p)]), t, p);
    } else {
      assert s.pc[0] == Idle;
      var x :| x in s.todo;
      assert Step(c, s, s.(todo := s.todo - {x}, pc := s.pc[0 := Counting(x, 0, map[])]), 0, x);
    }
  }

  /** The most a thread still has to do before it has counted and scored the pages around `v`. */
  ghost function FreshRank(c: Config, v: nat): nat {
    if v < |c.nbrs| then 2 * |c.nbrs[v]| + 6 else 0
  }

  /** A bound on the steps a thread can make before a page changes. A candidate page that has been
      filled meanwhile costs another scan. */
  ghost function Rank(c: Config, s: State, pc: Pc): nat {
    match pc
    case Idle => 0
    case Popping(_) => 1
    case Chosen(v, p, _) => if Full(c, s, p) then FreshRank(c, v) + 1 else 2
    case Checking(_, _) => 3
    case Pushing(_) => 4
    case Scoring(v, left, best, _) => |left| + 5 + if best.Page? && Full(c, s, best.pid) then FreshRank(c, v) else 0
    case Counting(v, k, _) => if v < |c.nbrs| && k <= |c.nbrs[v]| then 2 * |c.nbrs[v]| + 6 - k else 0
  }

  ghost function Ranks(c: Config, s: State, n: nat): nat
    requires n <= |s.pc|
  {
    if n == 0 then 0 else Ranks(c, s, n - 1) + Rank(c, s, s.pc[n - 1])
  }

  ghost function Work(c: Config, s: State): nat {
    3 * |s.freeQ| + Ranks(c, s, |s.pc|)
  }

  lemma {:induction false} RanksOfOne(c: Config, s: State, s': State, t: nat, n: nat)
    requires n <= |s.pc| == |s'.pc| && s'.parts == s.parts
    requires forall u :: 0 <= u < |s.pc| && u != t ==> s'.pc[u] == s.pc[u]
    ensures Ranks(c, s', n) == Ranks(c, s, n) + if t < n then Rank(c, s', s'.pc[t]) - Rank(c, s, s.pc[t]) else 0
  {
    if n > 0 {
      RanksOfOne(c, s, s', t, n - 1);
      assert forall u :: 0 <= u < |s.pc| && u != t ==> Rank(c, s', s'.pc[u]) == Rank(c, s, s.pc[u]);
    }
  }

  lemma MoverKnown(c: Config, s: State, t: nat)
    requires Bounds(c, s) && t < |s.pc|
    ensures c.Valid() && |s.parts| == c.pages && KnownPages(c, s.pc[t])
  {
  }

  lemma ScoringRank(c: Config, s: State, s': State, t: nat, x: nat)
    requires Step(c, s, s', t, x) && t < |s.pc| && s.pc[t].Scoring?
    ensures 3 * |s'.freeQ| + Rank(c, s', s'.pc[t]) < 3 * |s.freeQ| + Rank(c, s, s.pc[t])
  {
    hide Score;
    if s.pc[t].left != map[] {
      ScoreSize(s.pc[t].left, x);
    }
  }

  lemma CountingRank(c: Config, s: State, s': State, t: nat, x: nat)
    requires Bounds(c, s) && Step(c, s, s', t, x) && t < |s.pc| && s.pc[t].Counting?
    ensures 3 * |s'.freeQ| + Rank(c, s', s'.pc[t]) < 3 * |s.freeQ| + Rank(c, s, s.pc[t])
  {
    hide Bounds, Score;
    MoverKnown(c, s, t);
  }

  lemma MoverRank(c: Config, s: State, s': State, t: nat, x: nat)
    requires Bounds(c, s) && Step(c, s, s', t, x) && !Places(c, s, t) && !s.pc[t].Idle?
    ensures 3 * |s'.freeQ| + Rank(c, s', s'.pc[t]) < 3 * |s.freeQ| + Rank(c, s, s.pc[t])
  {
    if s.pc[t].Scoring? {
      ScoringRank(c, s, s', t, x);
    } else if s.pc[t].Counting? {
      CountingRank(c, s, s', t, x);
    } else {
      hide Bounds, Score;
      MoverKnown(c, s, t);
    }
  }

  ghost function Left(c: Config, s: State): nat {
    |Unlocked(c) - s.placed|
  }

  /** The lexicographic measure of a round: nodes not placed, nodes on the stream, work in hand. */
  ghost predicate Nearer(c: Config, s: State, s': State) {
    Left(c, s') < Left(c, s) ||
    (Left(c, s') == Left(c, s) && (|s'.todo| < |s.todo| || (|s'.todo| == |s.todo| && Work(c, s') < Work(c, s))))
  }

  /** Every step brings the round nearer to its end. Together with `NoDeadlock`: whatever the
      interleaving, the round ends, and it ends with every node placed. */
  lemma RoundTerminates(c: Config, s: State, s': State, t: nat, x: nat)
    requires Inv(c, s) && Step(c, s, s', t, x)
    ensures Nearer(c, s, s')
  {
    OnlyMover(c, s, s', t, x);
    MoverNode(c, s, s', t, x);
    if Places(c, s, t) {
      var v := s.pc[t].v;
      assert v == NodeOf(s.pc[t]);
      ProperSubsetSize(Unlocked(c) - s'.placed, Unlocked(c) - s.placed, v);
    } else {
      UnlessPlacing(c, s, s', t, x);
      if s.pc[t].Idle? {
        ProperSubsetSize(s'.todo, s.todo, x);
      } else {
        MoverRank(c, s, s', t, x);
        RanksOfOne(c, s, s', t, |s.pc|);
      }
    }
  }

  /** A whole round: it has ended, and cannot go on. */
  ghost predicate WholeRound(c: Config, run: seq<State>) {
    IsRun(c, run) && !CanStep(c, run[|run| - 1]) && Finished(run[|run| - 1])
  }

  lemma WholeAtEnd(c: Config, run: seq<State>)
    requires IsRun(c, run) && !CanStep(c, run[|run| - 1]) && Finished(run[|run| - 1])
    ensures WholeRound(c, run)
  {
  }

  /** A run that cannot go on has placed every node: each unlocked node lies in exactly one page, the
      one `id2pid` names, and so does each locked one. */
  lemma RoundEnds(c: Config, run: seq<State>)
    requires c.Valid() && IsRun(c, run) && EnoughRoom(c) && |run[|run| - 1].pc| > 0
    requires !CanStep(c, run[|run| - 1])
    ensures WholeRound(c, run)
    ensures var s := run[|run| - 1];
      && Hold(s.parts, s.id2pid, Unlocked(c) + c.lockedNodes)
      && |s.parts| == c.pages && forall p :: 0 <= p < c.pages ==> |s.parts[p]| <= c.C
  {
    var k := |run| - 1;
    assert |run| > 0;
    hide *;
    RunInv(c, run, k);
    if !Finished(run[k]) {
      NoDeadlock(c, run[k]);
    }
    RoundResult(c, run, k);
    WholeAtEnd(c, run);
  }

  lemma RunGoesOn(c: Config, run: seq<State>, s': State, t: nat, x: nat)
    requires IsRun(c, run) && Step(c, run[|run| - 1], s', t, x)
    ensures IsRun(c, run + [s'])
  {
    hide Step, Init;
    var run' := run + [s'];
    forall k: nat | k + 1 < |run'|
      ensures Next(c, run'[k], run'[k + 1])
    {
      if k + 1 < |run| {
        assert Follows(c, run, k);
      } else {
        assert run'[k] == run[|run| - 1] && run'[k + 1] == s';
      }
    }
  }

  /** One step more. */
  lemma Advance(c: Config, run: seq<State>, s: State) returns (s': State)
    requires c.Valid() && IsRun(c, run) && s == run[|run| - 1] && CanStep(c, s)
    ensures IsRun(c, run + [s']) && (run + [s'])[|run + [s']| - 1] == s' && |s'.pc| == |s.pc| && Nearer(c, s, s')
  {
    var t, x;
    s', t, x :| Step(c, s, s', t, x);
    assert |run| > 0;
    hide *;
    RunInv(c, run, |run| - 1);
    RoundTerminates(c, s, s', t, x);
    OnlyMover(c, s, s', t, x);
    RunGoesOn(c, run, s', t, x);
  }

  /** From wherever it has got to, a round can be brought to its end; and as every step brings it
      nearer to the end, no interleaving goes on for ever. */
  lemma {:induction false} RoundCompletes(c: Config, run: seq<State>, s: State) returns (rest: seq<State>)
    requires c.Valid() && IsRun(c, run) && EnoughRoom(c) && s == run[|run| - 1] && |s.pc| > 0
    ensures WholeRound(c, run + rest)
    decreases Left(c, s), |s.todo|, Work(c, s)
  {
    hide IsRun, Init, Inv, Step, Work, Left, Finished, EnoughRoom, CanStep, WholeRound;
    if CanStep(c, s) {
      var s' := Advance(c, run, s);
      var more := RoundCompletes(c, run + [s'], s');
      rest := [s'] + more;
      assert run + rest == run + [s'] + more;
    } else {
      RoundEnds(c, run);
      rest := [];
      assert run + rest == run;
    }
  }

  /** Between rounds: every node has its page, and the locked pages hold just the locked nodes. */
  ghost predicate Ready(c: Config, s: State) {
    && c.Valid() && |s.parts| == c.pages && (forall p :: 0 <= p < c.pages ==> |s.parts[p]| <= c.C)
    && Hold(s.parts, s.id2pid, Unlocked(c) + c.lockedNodes)
    && (forall v :: v in s.id2pid ==> s.id2pid[v] < c.pages)
    && (forall v :: v in s.id2pid && v in Unlocked(c) + c.lockedNodes ==>
         (v in c.lockedNodes <==> s.id2pid[v] in c.lockedPids))
    && (forall t :: 0 <= t < |s.pc| ==> s.pc[t] == Idle)
  }

  /** What `graph_partition_LDG` does first: empty and queue the unlocked pages. */
  ghost function Restart(c: Config, s: State): State
    requires |s.parts| == c.pages
  {
    s.(parts := seq(c.pages, p requires 0 <= p < c.pages => if p in c.lockedPids then s.parts[p] else []),
       freeQ := multiset(Below(c.pages) - c.lockedPids), todo := Unlocked(c), placed := {})
  }

  lemma CanRestart(c: Config, s: State)
    requires Ready(c, s)
    ensures Init(c, Restart(c, s))
  {
    var s' := Restart(c, s);
    forall v | v in c.lockedNodes
      ensures v in s'.parts[s'.id2pid[v]]
    {
      assert v in s.parts[s.id2pid[v]];
    }
    forall p, j | 0 <= p < c.pages && 0 <= j < |s'.parts[p]|
      ensures s'.parts[p][j] in c.lockedNodes && s'.parts[p][j] in s'.id2pid && s'.id2pid[s'.parts[p][j]] == p
    {
      assert s'.parts[p][j] == s.parts[p][j];
    }
  }

  lemma {:induction false} FullPagesKept(c: Config, run: seq<State>, k: nat, p: nat)
    requires c.Valid() && IsRun(c, run) && k < |run| && Full(c, run[0], p)
    ensures p < |run[k].parts| && run[k].parts[p] == run[0].parts[p]
  {
    if k > 0 {
      FullPagesKept(c, run, k - 1, p);
      assert Follows(c, run, k - 1);
      FullPageKept(c, run[k - 1], run[k], p);
    }
  }

  lemma FullPageKept(c: Config, s: State, s': State, p: nat)
    requires Next(c, s, s') && Full(c, s, p)
    ensures p < |s'.parts| && s'.parts[p] == s.parts[p]
  {
    var t, x :| Step(c, s, s', t, x);
    if !Places(c, s, t) {
      UnlessPlacing(c, s, s', t, x);
    }
  }

  /** No round can add to a locked page: each is full, or there is nothing to place. */
  ghost predicate Settled(c: Config, s: State) {
    Unlocked(c) == {} || forall p :: p in c.lockedPids && p < c.pages ==> Full(c, s, p)
  }

  /** With nothing to place, a round cannot take a step. */
  lemma NothingToDo(c: Config, s: State, s': State)
    requires Init(c, s) && Unlocked(c) == {}
    ensures !Next(c, s, s')
  {
  }

  lemma NothingRuns(c: Config, run: seq<State>, k: nat)
    requires IsRun(c, run) && |run| > 0 && Init(c, run[0]) && Unlocked(c) == {} && k < |run|
    ensures k == 0
  {
    hide Next, Init, Unlocked;
    if k > 0 {
      assert Follows(c, run, 0);
      NothingToDo(c, run[0], run[1]);
      assert false;
    }
  }

  lemma LockedPagesKept(c: Config, s: State, run: seq<State>, k: nat)
    requires Ready(c, s) && Settled(c, s) && IsRun(c, run) && run[0] == Restart(c, s) && k < |run|
    ensures |run[k].parts| == c.pages && forall p :: p in c.lockedPids && p < c.pages ==> run[k].parts[p] == s.parts[p]
  {
    CanRestart(c, s);
    RunInv(c, run, k);
    if Unlocked(c) == {} {
      NothingRuns(c, run, k);
    } else {
      forall p | p in c.lockedPids && p < c.pages
        ensures run[k].parts[p] == s.parts[p]
      {
        FullPagesKept(c, run, k, p);
      }
    }
  }

  /** A round leaves things ready for the next one. */
  lemma RoundKeepsReady(c: Config, s: State, run: seq<State>, k: nat)
    requires Ready(c, s) && Settled(c, s) && IsRun(c, run) && run[0] == Restart(c, s) && k < |run| && Finished(run[k])
    ensures Ready(c, run[k]) && Settled(c, run[k])
  {
    CanRestart(c, s);
    RoundResult(c, run, k);
    RunInv(c, run, k);
    LockedPagesKept(c, s, run, k);
    var e := run[k];
    forall v | v in Unlocked(c) + c.lockedNodes
      ensures v in c.lockedNodes <==> e.id2pid[v] in c.lockedPids
    {
      LockedStays(c, s, e, v);
    }
  }

  lemma LockedStays(c: Config, s: State, e: State, v: nat)
    requires Ready(c, s) && |e.parts| == c.pages && Hold(e.parts, e.id2pid, Unlocked(c) + c.lockedNodes)
    requires forall p :: p in c.lockedPids && p < c.pages ==> e.parts[p] == s.parts[p]
    requires v in Unlocked(c) + c.lockedNodes
    ensures v in c.lockedNodes <==> e.id2pid[v] in c.lockedPids
  {
    var p, q := s.id2pid[v], e.id2pid[v];
    assert v in s.parts[p] && v in e.parts[q];
    if p in c.lockedPids {
      OnePage(e.parts, e.id2pid, Unlocked(c) + c.lockedNodes, p, v);
    }
    if q in c.lockedPids {
      OnePage(s.parts, s.id2pid, Unlocked(c) + c.lockedNodes, q, v);
    }
  }
}
