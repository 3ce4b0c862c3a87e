/** The asynchronous reads of the disk searches: requests go out in batches, complete in any order,
    and wait in a ring for their turn. The sector buffers they read into are themselves a ring. */
module IoPipeline {
  import opened Sets

  const MAX_N_SECTOR_READS: nat := 1024

  /** `i` steps around a ring of the given size, from less than once around. */
  function Wrap(i: nat, size: nat): nat {
    if i < size then i else i - size
  }

  lemma WrapIsMod(i: nat, size: nat)
    requires i < size
    ensures (i + 1) % size == Wrap(i + 1, size)
  {
  }

  /** `CircleQueue`. It does not know how many entries it holds; `contents` does. */
  class CircleQueue<T(0)> {
    const size: nat
    const data: array<T>
    var head: nat
    var tail: nat
    ghost var contents: seq<T>

    ghost predicate Valid()
      reads this, data
    {
      && 0 < size == data.Length && head < size && tail < size && |contents| <= size
      && head == Wrap(tail + |contents|, size)
      && forall i {:trigger contents[i]} :: 0 <= i < |contents| ==> data[Wrap(tail + i, size)] == contents[i]
    }

    constructor (size: nat)
      requires size > 0
      ensures Valid() && contents == [] && this.size == size && fresh(data)
    {
      this.size, head, tail, contents := size, 0, 0, [];
      data := new T[size];
    }

    method Push(x: T)
      requires Valid() && |contents| < size
      modifies this`head, this`contents, data
      ensures Valid() && contents == old(contents) + [x]
    {
      WrapIsMod(head, size);
      data[head] := x;
      head := (head + 1) % size;
      contents := contents + [x];
    }

    method Get() returns (x: T)
      requires Valid() && contents != []
      modifies this`tail, this`contents
      ensures Valid() && x == old(contents[0]) && contents == old(contents[1..])
    {
      WrapIsMod(tail, size);
      ghost var was, from := contents, tail;
      assert data[Wrap(tail + 0, size)] == contents[0];
      x := data[tail];
      tail := (tail + 1) % size;
      contents := contents[1..];
      forall i {:trigger contents[i]} | 0 <= i < |contents|
        ensures data[Wrap(tail + i, size)] == contents[i]
      {
        assert contents[i] == was[i + 1] == data[Wrap(from + (i + 1), size)];
      }
    }
  }

  // The order in which requests are issued, completed and taken, by their issue numbers.

  /** `rounds[n]` is the dispatch that issued request `n`. */
  datatype Flow = Flow(rounds: seq<nat>, flying: set<nat>, queued: seq<nat>)

  /** Request `n` is in flight, or completed and not yet taken. */
  ghost predicate Live(f: Flow, n: nat) {
    n in f.flying || n in f.queued
  }

  ghost function RoundOf(f: Flow, n: nat): nat {
    if n < |f.rounds| then f.rounds[n] else 0
  }

  ghost predicate Monotone(f: Flow) {
    forall m, n {:trigger RoundOf(f, m), RoundOf(f, n)} :: 0 <= m <= n < |f.rounds| ==> RoundOf(f, m) <= RoundOf(f, n)
  }

  /** A dispatch issues at most `width` requests. */
  ghost predicate Narrow(f: Flow, width: nat) {
    forall m, n {:trigger RoundOf(f, m), RoundOf(f, n)} ::
      0 <= m <= n < |f.rounds| && RoundOf(f, m) == RoundOf(f, n) ==> n - m < width
  }

  /** Only requests of the last dispatch are in flight. */
  ghost predicate LastFlying(f: Flow) {
    forall n, m {:trigger n in f.flying, RoundOf(f, m)} :: n in f.flying && 0 <= m < |f.rounds| ==>
      RoundOf(f, m) <= RoundOf(f, n)
  }

  /** The queue holds the requests of earlier dispatches first. */
  ghost predicate EarlierFirst(f: Flow) {
    forall i, j {:trigger f.queued[i], f.queued[j]} :: 0 <= i <= j < |f.queued| ==>
      RoundOf(f, f.queued[i]) <= RoundOf(f, f.queued[j])
  }

  /** As long as a request waits, none of a later dispatch has been taken. */
  ghost predicate LaterLive(f: Flow) {
    f.queued != [] ==>
      forall n {:trigger Live(f, n)} :: 0 <= n < |f.rounds| && RoundOf(f, n) > RoundOf(f, f.queued[0]) ==> Live(f, n)
  }

  ghost predicate FlowInv(f: Flow, width: nat) {
    && NoRepeats(f.queued)
    && (forall n: nat {:trigger Live(f, n)} :: Live(f, n) ==> n < |f.rounds|)
    && (forall n :: n in f.flying ==> n !in f.queued)
    && Monotone(f) && Narrow(f, width) && LastFlying(f) && EarlierFirst(f) && LaterLive(f)
  }

  ghost function IssueOne(f: Flow, round: nat): Flow {
    f.(rounds := f.rounds + [round], flying := f.flying + {|f.rounds|})
  }

  lemma IssueRounds(f: Flow, round: nat)
    ensures RoundOf(IssueOne(f, round), |f.rounds|) == round
    ensures forall n: nat {:trigger RoundOf(IssueOne(f, round), n)} :: n < |f.rounds| ==>
      RoundOf(IssueOne(f, round), n) == RoundOf(f, n)
    ensures forall n {:trigger Live(IssueOne(f, round), n)} :: Live(IssueOne(f, round), n) <==>
      Live(f, n) || n == |f.rounds|
  {
  }

  lemma IssueKeepsLater(f: Flow, width: nat, round: nat)
    requires FlowInv(f, width)
    ensures LaterLive(IssueOne(f, round))
  {
    var f' := IssueOne(f, round);
    IssueRounds(f, round);
    hide Monotone, Narrow, LastFlying, EarlierFirst;
    if f.queued != [] {
      assert Live(f, f.queued[0]);
      forall n {:trigger Live(f', n)} | 0 <= n < |f'.rounds| && RoundOf(f', n) > RoundOf(f', f'.queued[0])
        ensures Live(f', n)
      {
        assert n < |f.rounds| ==> Live(f, n);
      }
    }
  }

  lemma IssueKeeps(f: Flow, width: nat, round: nat)
    requires FlowInv(f, width) && forall m {:trigger RoundOf(f, m)} :: 0 <= m < |f.rounds| ==> RoundOf(f, m) <= round
    requires forall n :: n in f.flying ==> RoundOf(f, n) == round
    requires width > 0
    requires forall m {:trigger RoundOf(f, m)} :: 0 <= m < |f.rounds| && RoundOf(f, m) == round ==>
      |f.rounds| - m < width
    ensures FlowInv(IssueOne(f, round), width)
  {
    var f' := IssueOne(f, round);
    IssueRounds(f, round);
    forall n | n in f.flying || n in f.queued
      ensures n < |f.rounds|
    {
      assert Live(f, n);
    }
    IssueKeepsLater(f, width, round);
    hide LaterLive;
    assert FlowInv(f', width);
  }

  ghost function CompleteOne(f: Flow, n: nat): Flow {
    f.(flying := f.flying - {n}, queued := f.queued + [n])
  }

  lemma CompleteKeeps(f: Flow, width: nat, n: nat)
    requires FlowInv(f, width) && n in f.flying
    ensures FlowInv(CompleteOne(f, n), width)
    ensures forall m {:trigger Live(CompleteOne(f, n), m)} :: Live(CompleteOne(f, n), m) <==> Live(f, m)
  {
    var f' := CompleteOne(f, n);
    assert forall m {:trigger RoundOf(f', m)} :: RoundOf(f', m) == RoundOf(f, m);
    assert forall m {:trigger Live(f', m)} :: Live(f', m) <==> Live(f, m);
    forall i | 0 <= i < |f.queued|
      ensures RoundOf(f, f.queued[i]) <= RoundOf(f, n)
    {
      assert Live(f, f.queued[i]);
    }
  }

  ghost function TakeOne(f: Flow): Flow
    requires f.queued != []
  {
    f.(queued := f.queued[1..])
  }

  lemma TakeKeeps(f: Flow, width: nat)
    requires FlowInv(f, width) && f.queued != []
    ensures FlowInv(TakeOne(f), width)
    ensures forall m {:trigger Live(TakeOne(f), m)} :: Live(TakeOne(f), m) <==> Live(f, m) && m != f.queued[0]
  {
    var f', h := TakeOne(f), f.queued[0];
    TakeLive(f);
    TakeLater(f);
    assert forall m {:trigger RoundOf(f', m)} :: RoundOf(f', m) == RoundOf(f, m);
    assert forall i :: 0 <= i < |f'.queued| ==> f'.queued[i] == f.queued[i + 1];
    hide LaterLive, Live;
    assert EarlierFirst(f') && LastFlying(f') && Monotone(f') && Narrow(f', width) && NoRepeats(f'.queued);
    forall n | n in f.flying
      ensures n !in f'.queued
    {
    }
  }

  lemma TakeLive(f: Flow)
    requires NoRepeats(f.queued) && f.queued != [] && f.queued[0] !in f.flying
    ensures forall m {:trigger Live(TakeOne(f), m)} :: Live(TakeOne(f), m) <==> Live(f, m) && m != f.queued[0]
  {
    assert f.queued == [f.queued[0]] + TakeOne(f).queued;
    assert f.queued[0] !in TakeOne(f).queued;
  }

  lemma TakeLater(f: Flow)
    requires LaterLive(f) && EarlierFirst(f) && NoRepeats(f.queued) && f.queued != [] && f.queued[0] !in f.flying
    ensures LaterLive(TakeOne(f))
  {
    var f', h := TakeOne(f), f.queued[0];
    TakeLive(f);
    assert forall m {:trigger RoundOf(f', m)} :: RoundOf(f', m) == RoundOf(f, m);
    forall m {:trigger Live(f', m)} | f'.queued != [] && 0 <= m < |f'.rounds| &&
      RoundOf(f', m) > RoundOf(f', f'.queued[0])
      ensures Live(f', m)
    {
      assert f.queued[0] == h && f.queued[1] == f'.queued[0];
      assert Live(f, m);
    }
  }

  /** Where the dispatches after that of request `h` begin. */
  lemma {:induction false} NextRound(f: Flow, h: nat, from: nat) returns (r: nat)
    requires Monotone(f) && h < from <= |f.rounds| && RoundOf(f, from - 1) == RoundOf(f, h)
    ensures from <= r <= |f.rounds| && RoundOf(f, r - 1) == RoundOf(f, h)
    ensures forall n {:trigger RoundOf(f, n)} :: r <= n < |f.rounds| ==> RoundOf(f, n) > RoundOf(f, h)
    decreases |f.rounds| - from
  {
    if from == |f.rounds| || RoundOf(f, from) > RoundOf(f, h) {
      r := from;
    } else {
      r := NextRound(f, h, from + 1);
    }
  }

  /** While nothing is in flight, the waiting requests are recent: they were issued within the last
      dispatch they belong to and as many more as are waiting. */
  lemma WaitingIsRecent(f: Flow, width: nat, n: nat)
    requires FlowInv(f, width) && f.flying == {} && n in f.queued
    ensures |f.rounds| - n < width + |f.queued|
  {
    var h := f.queued[0];
    assert Live(f, h) && Live(f, n);
    var i :| 0 <= i < |f.queued| && f.queued[i] == n;
    assert RoundOf(f, h) <= RoundOf(f, n);
    var r := NextRound(f, h, h + 1);
    forall m | r <= m < |f.rounds|
      ensures m in f.queued && m != h
    {
      assert RoundOf(f, m) > RoundOf(f, h);
      assert Live(f, m);
    }
    MembersSize(f.queued);
    assert Interval(r, |f.rounds|) <= Members(f.queued) - {h};
    SubsetSize(Interval(r, |f.rounds|), Members(f.queued) - {h});
    assert |Members(f.queued) - {h}| == |f.queued| - 1;
    if n < r {
      assert RoundOf(f, n) <= RoundOf(f, r - 1);
    }
  }

  ghost predicate Within(f: Flow, room: nat) {
    forall n {:trigger Live(f, n)} :: Live(f, n) ==> |f.rounds| - n <= room
  }

  lemma LiveCount(f: Flow, width: nat, room: nat)
    requires FlowInv(f, width) && Within(f, room)
    ensures |f.flying| + |f.queued| <= room
  {
    MembersSize(f.queued);
    var all := f.flying + Members(f.queued);
    var from := if |f.rounds| > room then |f.rounds| - room else 0;
    forall n | n in all
      ensures n in Interval(from, |f.rounds|)
    {
      assert Live(f, n);
    }
    SubsetSize(all, Interval(from, |f.rounds|));
    assert |all| == |f.flying| + |Members(f.queued)|;
  }

  /** `k` requests of a new dispatch have been issued. */
  ghost predicate Batch(f0: Flow, f: Flow, round: nat, k: nat) {
    && |f.rounds| == |f0.rounds| + k && f.queued == f0.queued
    && f.flying == Interval(|f0.rounds|, |f0.rounds| + k)
    && (forall n: nat {:trigger RoundOf(f, n)} :: n < |f.rounds| ==>
          if n < |f0.rounds| then RoundOf(f, n) == RoundOf(f0, n) < round else RoundOf(f, n) == round)
  }

  lemma BatchStart(f: Flow, round: nat)
    requires f.flying == {} && forall m: nat {:trigger RoundOf(f, m)} :: m < |f.rounds| ==> RoundOf(f, m) < round
    ensures Batch(f, f, round, 0)
  {
  }

  lemma BatchEnd(f0: Flow, f: Flow, round: nat, k: nat)
    requires Batch(f0, f, round, k)
    ensures |f.rounds| == |f0.rounds| + k && f.queued == f0.queued && f.flying == Interval(|f0.rounds|, |f.rounds|)
  {
  }

  /** A beam this wide cannot catch up with a page that waits, if it is sent only while fewer than
      `bound` pages wait. */
  predicate FitsRing(width: nat, bound: nat) {
    2 * width + bound <= MAX_N_SECTOR_READS + 2
  }

  /** There is room for a dispatch while nothing is in flight and fewer than `bound` pages wait. */
  lemma DispatchRoom(f: Flow, width: nat, bound: nat)
    requires FlowInv(f, width) && f.flying == {} && |f.queued| < bound && FitsRing(width, bound)
    ensures width <= MAX_N_SECTOR_READS && Within(f, MAX_N_SECTOR_READS - width)
  {
    forall n: nat {:trigger Live(f, n)} | Live(f, n)
      ensures |f.rounds| - n <= MAX_N_SECTOR_READS - width
    {
      WaitingIsRecent(f, width, n);
    }
  }

  /** Early on there is room without more ado. */
  lemma EarlyRoom(f: Flow, batch: nat)
    requires |f.rounds| + batch <= MAX_N_SECTOR_READS
    ensures Within(f, MAX_N_SECTOR_READS - batch)
  {
  }

  lemma RoomShrinks(f: Flow, width: nat, batch: nat)
    requires batch <= width <= MAX_N_SECTOR_READS && Within(f, MAX_N_SECTOR_READS - width)
    ensures Within(f, MAX_N_SECTOR_READS - batch)
  {
  }

  // The iterations of a search, as far as its reads are concerned.

  /** The requests in `done` complete, in this order. */
  ghost function Completed(f: Flow, done: seq<nat>): Flow {
    f.(flying := f.flying - Members(done), queued := f.queued + done)
  }

  /** What the kernel may report: any reads in flight in any order, but one at least if no page waits. */
  ghost predicate CanComplete(f: Flow, done: seq<nat>) {
    && NoRepeats(done) && Members(done) <= f.flying
    && (f.queued == [] && f.flying != {} ==> done != [])
  }

  /** An iteration up to its dispatch: it takes a page if one waits, and collects reads. */
  ghost predicate Collects(f: Flow, done: seq<nat>, mid: Flow) {
    var taken := if f.queued == [] then f else TakeOne(f);
    CanComplete(taken, done) && mid == Completed(taken, done)
  }

  ghost predicate MayIssue(mid: Flow, bound: nat) {
    mid.flying == {} && |mid.queued| < bound
  }

  ghost predicate Issues(mid: Flow, f': Flow, width: nat) {
    exists round: nat, batch: nat :: batch <= width && Batch(mid, f', round, batch)
  }

  ghost predicate Turn(f: Flow, done: seq<nat>, mid: Flow, f': Flow, width: nat, bound: nat) {
    Collects(f, done, mid) && (f' == mid || (MayIssue(mid, bound) && Issues(mid, f', width)))
  }

  ghost predicate SomeTurn(f: Flow, f': Flow, width: nat, bound: nat) {
    exists done, mid :: Turn(f, done, mid, f', width, bound)
  }

  ghost predicate FlowRun(run: seq<Flow>, width: nat, bound: nat) {
    && run != [] && run[0] == Flow([], {}, [])
    && forall k {:trigger run[k]} :: 0 <= k < |run| - 1 ==> SomeTurn(run[k], run[k + 1], width, bound)
  }

  ghost predicate Reached(f: Flow, width: nat, bound: nat) {
    exists run :: FlowRun(run, width, bound) && run[|run| - 1] == f
  }

  lemma TurnMade(f: Flow, done: seq<nat>, mid: Flow, f': Flow, width: nat, bound: nat)
    requires Turn(f, done, mid, f', width, bound)
    ensures SomeTurn(f, f', width, bound)
  {
  }

  lemma RunStart(width: nat, bound: nat)
    ensures FlowRun([Flow([], {}, [])], width, bound)
  {
  }

  lemma RunOn(run: seq<Flow>, f': Flow, width: nat, bound: nat)
    requires FlowRun(run, width, bound) && SomeTurn(run[|run| - 1], f', width, bound)
    ensures FlowRun(run + [f'], width, bound)
  {
    var run' := run + [f'];
    forall k {:trigger run'[k]} | 0 <= k < |run'| - 1
      ensures SomeTurn(run'[k], run'[k + 1], width, bound)
    {
      if k < |run| - 1 {
        assert run[k] == run'[k] && run[k + 1] == run'[k + 1];
      }
    }
  }

  lemma ReachedNext(f: Flow, done: seq<nat>, mid: Flow, f': Flow, width: nat, bound: nat)
    requires Reached(f, width, bound) && Turn(f, done, mid, f', width, bound)
    ensures Reached(f', width, bound)
  {
    var run :| FlowRun(run, width, bound) && run[|run| - 1] == f;
    RunOn(run, f', width, bound);
    assert (run + [f'])[|run + [f']| - 1] == f';
  }

  lemma {:induction false} CompletedKeeps(f: Flow, width: nat, done: seq<nat>)
    requires FlowInv(f, width) && NoRepeats(done) && Members(done) <= f.flying
    ensures FlowInv(Completed(f, done), width)
  {
    if done == [] {
      assert Completed(f, done) == f;
    } else {
      var n := |done| - 1;
      assert done == done[..n] + [done[n]];
      assert Members(done) == Members(done[..n]) + {done[n]};
      assert done[n] in done && done[n] !in done[..n];
      CompletedKeeps(f, width, done[..n]);
      CompleteKeeps(Completed(f, done[..n]), width, done[n]);
      assert Completed(f, done) == CompleteOne(Completed(f, done[..n]), done[n]);
    }
  }

  lemma NothingCompletes(f: Flow)
    ensures Completed(f, []) == f
  {
  }

  lemma CompletedMore(f: Flow, done: seq<nat>, n: nat)
    requires NoRepeats(done) && Members(done) <= f.flying && n in Completed(f, done).flying
    ensures Completed(f, done + [n]) == CompleteOne(Completed(f, done), n)
    ensures NoRepeats(done + [n]) && Members(done + [n]) <= f.flying
  {
    assert Members(done + [n]) == Members(done) + {n};
  }

  lemma BatchLater(f0: Flow, f: Flow, width: nat, round: nat, k: nat)
    requires FlowInv(f0, width) && f0.flying == {} && Batch(f0, f, round, k)
    ensures LaterLive(f) && EarlierFirst(f)
  {
    assert forall n: nat {:trigger Live(f0, n)} :: Live(f0, n) ==> n < |f0.rounds|;
    forall i | 0 <= i < |f.queued|
      ensures RoundOf(f, f.queued[i]) == RoundOf(f0, f0.queued[i])
    {
      assert Live(f0, f0.queued[i]);
    }
    if f.queued != [] {
      forall n {:trigger Live(f, n)} | 0 <= n < |f.rounds| && RoundOf(f, n) > RoundOf(f, f.queued[0])
        ensures Live(f, n)
      {
        assert n < |f0.rounds| ==> Live(f0, n);
      }
    }
  }

  lemma BatchKeeps(f0: Flow, f: Flow, width: nat, round: nat, k: nat)
    requires FlowInv(f0, width) && f0.flying == {} && Batch(f0, f, round, k) && k <= width
    ensures FlowInv(f, width)
  {
    BatchLater(f0, f, width, round, k);
    forall n: nat | Live(f, n)
      ensures n < |f.rounds| && (n in f.flying ==> n !in f.queued)
    {
      assert n in f.queued ==> Live(f0, n);
    }
    hide LaterLive, EarlierFirst, Live;
    assert Monotone(f) && Narrow(f, width) && LastFlying(f);
  }

  lemma CollectsKeeps(f: Flow, width: nat, done: seq<nat>, mid: Flow)
    requires FlowInv(f, width) && Collects(f, done, mid)
    ensures FlowInv(mid, width)
  {
    if f.queued != [] {
      TakeKeeps(f, width);
    }
    CompletedKeeps(if f.queued == [] then f else TakeOne(f), width, done);
  }

  lemma TurnKeeps(f: Flow, done: seq<nat>, mid: Flow, f': Flow, width: nat, bound: nat)
    requires FlowInv(f, width) && Turn(f, done, mid, f', width, bound)
    ensures FlowInv(f', width)
  {
    hide FlowInv, Collects, Batch;
    CollectsKeeps(f, width, done, mid);
    if f' != mid {
      var round: nat, batch: nat :| batch <= width && Batch(mid, f', round, batch);
      BatchKeeps(mid, f', width, round, batch);
    }
  }

  lemma FlowBegins(width: nat)
    ensures FlowInv(Flow([], {}, []), width)
  {
  }

  lemma {:induction false} ReachedInv(run: seq<Flow>, width: nat, bound: nat, k: nat)
    requires FlowRun(run, width, bound) && k < |run|
    ensures FlowInv(run[k], width)
  {
    if k > 0 {
      hide FlowInv, Turn;
      ReachedInv(run, width, bound, k - 1);
      assert SomeTurn(run[k - 1], run[k], width, bound);
      var done, mid :| Turn(run[k - 1], done, mid, run[k], width, bound);
      TurnKeeps(run[k - 1], done, mid, run[k], width, bound);
    } else {
      FlowBegins(width);
    }
  }

  /** In whatever order the reads complete: when a dispatch is due, a beam can be issued without coming
      near a buffer that is in use. */
  ghost predicate AlwaysRoom(width: nat, bound: nat)
    requires width <= MAX_N_SECTOR_READS
  {
    forall f, done, mid {:trigger Reached(f, width, bound), Collects(f, done, mid)} ::
      Reached(f, width, bound) && Collects(f, done, mid) && MayIssue(mid, bound) ==>
        Within(mid, MAX_N_SECTOR_READS - width)
  }

  // A run in which a page falls behind: a full beam is requested, its first request completes last, and
  // all others are taken but one; then a few more are requested.

  ghost function FullBeam(width: nat): Flow {
    Flow(seq(width, _ => 0), Interval(0, width), [])
  }

  /** The first request completes last. */
  ghost function FirstLast(width: nat): seq<nat>
    requires width > 0
  {
    seq(width - 1, i => i + 1) + [0]
  }

  ghost function Drained(width: nat, k: nat): Flow
    requires k <= width && width > 0
  {
    Flow(seq(width, _ => 0), {}, FirstLast(width)[k..])
  }

  ghost function AndMore(width: nat, more: nat): seq<nat> {
    seq(width + more, i => if i < width then 0 else 1)
  }

  ghost function FewMore(width: nat, more: nat): Flow
    requires width >= 2
  {
    Flow(AndMore(width, more), Interval(width, width + more), [width - 1, 0])
  }

  ghost function NextOnes(from: nat, n: nat): seq<nat> {
    seq(n, (i: nat) => from + i)
  }

  lemma NextOnesMembers(from: nat, n: nat)
    ensures NoRepeats(NextOnes(from, n)) && Members(NextOnes(from, n)) == Interval(from, from + n)
  {
    var s := NextOnes(from, n);
    forall v | v in Interval(from, from + n)
      ensures v in s
    {
      assert s[v - from] == v;
    }
  }

  ghost function Laggard(width: nat, more: nat): Flow {
    Flow(AndMore(width, more), {}, [0] + NextOnes(width, more))
  }

  lemma ReachFullBeam(width: nat, bound: nat)
    requires width > 0 && bound > 0
    ensures Reached(FullBeam(width), width, bound)
  {
    var none := Flow([], {}, []);
    assert FlowRun([none], width, bound) && [none][|[none]| - 1] == none;
    assert Completed(none, []) == none;
    assert Batch(none, FullBeam(width), 0, width);
    ReachedNext(none, [], none, FullBeam(width), width, bound);
  }

  lemma FirstLastMembers(width: nat)
    requires width > 0
    ensures NoRepeats(FirstLast(width)) && Members(FirstLast(width)) == Interval(0, width)
  {
    var done := FirstLast(width);
    FirstLastAt(width);
    hide FirstLast;
    forall v | v in Interval(0, width)
      ensures v in done
    {
      assert done[if v == 0 then width - 1 else v - 1] == v;
    }
    forall v | v in done
      ensures v in Interval(0, width)
    {
      var i :| 0 <= i < |done| && done[i] == v;
    }
  }

  lemma FirstLastAt(width: nat)
    requires width > 0
    ensures |FirstLast(width)| == width
    ensures forall i {:trigger FirstLast(width)[i]} :: 0 <= i < width ==>
      FirstLast(width)[i] == if i == width - 1 then 0 else i + 1
  {
  }

  lemma {:induction false} ReachDrained(width: nat, bound: nat, k: nat)
    requires bound + k <= width && bound > 0
    ensures Reached(Drained(width, k), width, bound)
  {
    if k == 0 {
      ReachFullBeam(width, bound);
      FirstLastMembers(width);
      assert Completed(FullBeam(width), FirstLast(width)) == Drained(width, 0);
      ReachedNext(FullBeam(width), FirstLast(width), Drained(width, 0), Drained(width, 0), width, bound);
    } else {
      ReachDrained(width, bound, k - 1);
      TakenNext(width, k - 1);
      ReachedNext(Drained(width, k - 1), [], Drained(width, k), Drained(width, k), width, bound);
    }
  }

  lemma TakenNext(width: nat, k: nat)
    requires k < width
    ensures Collects(Drained(width, k), [], Drained(width, k + 1))
  {
    assert FirstLast(width)[k..][1..] == FirstLast(width)[k + 1..];
    assert Completed(TakeOne(Drained(width, k)), []) == Drained(width, k + 1);
  }

  lemma {:induction false} ReachTakenOn(width: nat, bound: nat, k: nat)
    requires 2 <= bound <= width && k + 3 <= width
    ensures Reached(Drained(width, k), width, bound)
  {
    if bound + k <= width {
      ReachDrained(width, bound, k);
    } else {
      ReachTakenOn(width, bound, k - 1);
      TakenNext(width, k - 1);
      ReachedNext(Drained(width, k - 1), [], Drained(width, k), Drained(width, k), width, bound);
    }
  }

  lemma FewMoreIssued(width: nat, more: nat)
    requires width >= 2
    ensures Batch(Drained(width, width - 2), FewMore(width, more), 1, more)
  {
    assert Drained(width, width - 2).queued == [width - 1, 0];
  }

  lemma ReachFewMore(width: nat, bound: nat, more: nat)
    requires 3 <= bound <= width && more <= width
    ensures Reached(FewMore(width, more), width, bound)
  {
    ReachTakenOn(width, bound, width - 3);
    TakenNext(width, width - 3);
    FewMoreIssued(width, more);
    var mid := Drained(width, width - 2);
    assert |mid.queued| == 2;
    hide Reached, Collects, Batch, Drained, FewMore;
    assert Issues(mid, FewMore(width, more), width);
    ReachedNext(Drained(width, width - 3), [], mid, FewMore(width, more), width, bound);
  }

  lemma LaggardWaits(width: nat, more: nat)
    requires width >= 2
    ensures Collects(FewMore(width, more), NextOnes(width, more), Laggard(width, more))
    ensures Live(Laggard(width, more), 0)
  {
    var f, done := FewMore(width, more), NextOnes(width, more);
    NextOnesMembers(width, more);
    hide AndMore, NextOnes, NoRepeats, Members, Interval;
    assert f.queued[1..] == [0];
    assert Completed(TakeOne(f), done) == Laggard(width, more);
    assert Laggard(width, more).queued[0] == 0;
  }

  /** The buffers suffice, over all runs, if and only if the beam fits. With a wider one a dispatch can
      reuse the buffer of a page that still waits: there is a run to `FewMore`, from which reads complete
      in such an order that the next beam catches up with the first request. */
  lemma RoomIff(width: nat, bound: nat)
    requires width <= MAX_N_SECTOR_READS && (bound == width / 2 || bound == width / 2 + 1)
    ensures AlwaysRoom(width, bound) <==> FitsRing(width, bound)
  {
    if FitsRing(width, bound) {
      hide Collects;
      forall f, done, mid {:trigger Reached(f, width, bound), Collects(f, done, mid)}
        | Reached(f, width, bound) && Collects(f, done, mid) && MayIssue(mid, bound)
        ensures Within(mid, MAX_N_SECTOR_READS - width)
      {
        ReachedRoom(f, done, mid, width, bound);
      }
    } else {
      CatchesUp(width, bound);
    }
  }

  lemma ReachedRoom(f: Flow, done: seq<nat>, mid: Flow, width: nat, bound: nat)
    requires FitsRing(width, bound) && Reached(f, width, bound) && Collects(f, done, mid) && MayIssue(mid, bound)
    ensures width <= MAX_N_SECTOR_READS && Within(mid, MAX_N_SECTOR_READS - width)
  {
    hide SomeTurn, Collects, FlowInv, Within;
    var run :| FlowRun(run, width, bound) && run != [] && run[|run| - 1] == f;
    ReachedInv(run, width, bound, |run| - 1);
    CollectsKeeps(f, width, done, mid);
    DispatchRoom(mid, width, bound);
  }

  lemma CatchesUp(width: nat, bound: nat)
    requires width <= MAX_N_SECTOR_READS && (bound == width / 2 || bound == width / 2 + 1) && !FitsRing(width, bound)
    ensures !AlwaysRoom(width, bound)
  {
    hide Reached, Collects;
    var more := bound - 2;
    ReachFewMore(width, bound, more);
    LaggardWaits(width, more);
    assert MayIssue(Laggard(width, more), bound);
    assert !Within(Laggard(width, more), MAX_N_SECTOR_READS - width);
  }

  lemma BatchRoom(f0: Flow, f: Flow, round: nat, k: nat, room: nat)
    requires Batch(f0, f, round, k) && Within(f0, room)
    ensures Within(f, room + k)
  {
    forall n: nat {:trigger Live(f, n)} | Live(f, n)
      ensures |f.rounds| - n <= room + k
    {
      assert n in f.queued ==> Live(f0, n);
    }
  }

  lemma BatchGrows(f0: Flow, f: Flow, round: nat, k: nat)
    requires Batch(f0, f, round, k)
    ensures Batch(f0, IssueOne(f, round), round, k + 1)
  {
    IssueRounds(f, round);
    assert Interval(|f0.rounds|, |f0.rounds| + (k + 1)) == Interval(|f0.rounds|, |f0.rounds| + k) + {|f0.rounds| + k};
    hide Interval, Live, RoundOf;
    forall n: nat {:trigger RoundOf(IssueOne(f, round), n)} | n < |f.rounds| + 1
      ensures if n < |f0.rounds| then RoundOf(IssueOne(f, round), n) == RoundOf(f0, n) < round
        else RoundOf(IssueOne(f, round), n) == round
    {
      assert n < |f.rounds| ==> RoundOf(IssueOne(f, round), n) == RoundOf(f, n);
    }
  }

  lemma BatchFits(f0: Flow, f: Flow, width: nat, round: nat, k: nat, batch: nat)
    requires FlowInv(f, width) && Batch(f0, f, round, k)
    requires k < batch <= width && batch <= MAX_N_SECTOR_READS && Within(f0, MAX_N_SECTOR_READS - batch)
    ensures Within(f, MAX_N_SECTOR_READS - 1)
    ensures FlowInv(IssueOne(f, round), width) && Batch(f0, IssueOne(f, round), round, k + 1)
  {
    BatchRoom(f0, f, round, k, MAX_N_SECTOR_READS - batch);
    BatchGrows(f0, f, round, k);
    hide FlowInv, IssueOne;
    forall n: nat | n in f.flying
      ensures RoundOf(f, n) == round
    {
      assert n in Interval(|f0.rounds|, |f0.rounds| + k);
    }
    IssueKeeps(f, width, round);
  }

  /** A round number larger than all before. */
  lemma {:induction false} NewRound(f: Flow, n: nat) returns (round: nat)
    requires n <= |f.rounds|
    ensures forall m: nat {:trigger RoundOf(f, m)} :: m < n ==> RoundOf(f, m) < round
  {
    if n == 0 {
      round := 0;
    } else {
      round := NewRound(f, n - 1);
      if RoundOf(f, n - 1) >= round {
        round := RoundOf(f, n - 1) + 1;
      }
    }
  }

  // The tables of a query: who owns a buffer, and what the kernel is to read into it.

  datatype FrontierNode = FrontierNode(id: nat, pid: nat)

  /** The buffer of request `n`. */
  function Buffer(n: nat): nat {
    n % MAX_N_SECTOR_READS
  }

  lemma BuffersDiffer(m: nat, n: nat)
    requires m < n < m + MAX_N_SECTOR_READS
    ensures Buffer(m) != Buffer(n)
  {
  }

  lemma NextBuffer(n: nat)
    ensures Buffer(n + 1) == (Buffer(n) + 1) % MAX_N_SECTOR_READS
  {
  }

  ghost predicate Owns(f: Flow, b: nat) {
    exists n :: Live(f, n) && Buffer(n) == b
  }

  ghost predicate Reads(f: Flow, b: nat) {
    exists n :: n in f.flying && Buffer(n) == b
  }

  /** `sec_buf2ftr` has the nodes of the live requests, and `io` the pages of those in flight. */
  ghost predicate Tables(f: Flow, nodes: seq<FrontierNode>, owner: map<nat, FrontierNode>, io: map<nat, nat>) {
    && |nodes| == |f.rounds|
    && (forall n: nat {:trigger Live(f, n)} :: Live(f, n) && n < |nodes| ==>
         Buffer(n) in owner && owner[Buffer(n)] == nodes[n])
    && (forall b {:trigger Owns(f, b)} :: b in owner ==> Owns(f, b))
    && (forall n: nat {:trigger n in f.flying} :: n in f.flying && n < |nodes| ==>
         Buffer(n) in io && io[Buffer(n)] == nodes[n].pid)
    && (forall b {:trigger Reads(f, b)} :: b in io ==> Reads(f, b))
  }

  /** A buffer about to be issued belongs to no live request. */
  lemma FreshBuffer(f: Flow, width: nat, nodes: seq<FrontierNode>, owner: map<nat, FrontierNode>, io: map<nat, nat>)
    requires FlowInv(f, width) && Tables(f, nodes, owner, io) && Within(f, MAX_N_SECTOR_READS - 1)
    ensures Buffer(|f.rounds|) !in owner && Buffer(|f.rounds|) !in io
  {
    var b := Buffer(|f.rounds|);
    forall n: nat {:trigger Live(f, n)} | Live(f, n)
      ensures Buffer(n) != b
    {
      BuffersDiffer(n, |f.rounds|);
    }
    assert !Owns(f, b);
    assert forall n: nat :: n in f.flying ==> Live(f, n);
    assert !Reads(f, b);
  }

  lemma SameBuffer(f: Flow, width: nat, m: nat, n: nat)
    requires FlowInv(f, width) && Within(f, MAX_N_SECTOR_READS) && Live(f, m) && Live(f, n) && Buffer(m) == Buffer(n)
    ensures m == n
  {
    if m < n {
      BuffersDiffer(m, n);
    } else if n < m {
      BuffersDiffer(n, m);
    }
  }

  lemma IssueTables(f: Flow, width: nat, nodes: seq<FrontierNode>, owner: map<nat, FrontierNode>, io: map<nat, nat>,
                    round: nat, fn: FrontierNode)
    requires FlowInv(f, width) && Tables(f, nodes, owner, io) && Within(f, MAX_N_SECTOR_READS - 1)
    ensures var b := Buffer(|f.rounds|);
      Tables(IssueOne(f, round), nodes + [fn], owner[b := fn], io[b := fn.pid]) && b !in owner && b !in io
    ensures Within(IssueOne(f, round), MAX_N_SECTOR_READS)
  {
    FreshBuffer(f, width, nodes, owner, io);
    IssueRounds(f, round);
    var f', b := IssueOne(f, round), Buffer(|f.rounds|);
    assert Live(f', |f.rounds|);
    forall c | c in owner[b := fn]
      ensures Owns(f', c)
    {
      if c != b {
        assert Owns(f, c);
        var n :| Live(f, n) && Buffer(n) == c;
        assert Live(f', n);
      }
    }
    forall c | c in io[b := fn.pid]
      ensures Reads(f', c)
    {
      if c != b {
        assert Reads(f, c);
        var n :| n in f.flying && Buffer(n) == c;
        assert n in f'.flying;
      } else {
        assert |f.rounds| in f'.flying;
      }
    }
    forall n: nat | Live(f', n)
      ensures n < |nodes + [fn]| ==> Buffer(n) in owner[b := fn] && owner[b := fn][Buffer(n)] == (nodes + [fn])[n]
      ensures n in f'.flying && n < |nodes + [fn]| ==>
        Buffer(n) in io[b := fn.pid] && io[b := fn.pid][Buffer(n)] == (nodes + [fn])[n].pid
    {
      assert n != |f.rounds| ==> Live(f, n);
    }
  }

  lemma CompleteTables(f: Flow, width: nat, nodes: seq<FrontierNode>, owner: map<nat, FrontierNode>, io: map<nat, nat>,
                       n: nat)
    requires FlowInv(f, width) && Tables(f, nodes, owner, io) && Within(f, MAX_N_SECTOR_READS) && n in f.flying
    ensures Tables(CompleteOne(f, n), nodes, owner, io - {Buffer(n)}) && Within(CompleteOne(f, n), MAX_N_SECTOR_READS)
  {
    CompleteKeeps(f, width, n);
    var f' := CompleteOne(f, n);
    assert Live(f, n);
    forall b | b in owner
      ensures Owns(f', b)
    {
      assert Owns(f, b);
      var m :| Live(f, m) && Buffer(m) == b;
      assert Live(f', m);
    }
    forall b | b in io - {Buffer(n)}
      ensures Reads(f', b)
    {
      assert Reads(f, b);
      var m :| m in f.flying && Buffer(m) == b;
      assert m in f'.flying;
    }
    forall m: nat | m in f'.flying && m < |nodes|
      ensures Buffer(m) in io - {Buffer(n)} && io[Buffer(m)] == nodes[m].pid
    {
      assert Live(f, m) && m in f.flying;
      if Buffer(m) == Buffer(n) {
        SameBuffer(f, width, m, n);
      }
    }
  }

  lemma TakeTables(f: Flow, width: nat, nodes: seq<FrontierNode>, owner: map<nat, FrontierNode>, io: map<nat, nat>)
    requires FlowInv(f, width) && Tables(f, nodes, owner, io) && Within(f, MAX_N_SECTOR_READS) && f.queued != []
    ensures Tables(TakeOne(f), nodes, owner - {Buffer(f.queued[0])}, io) && Within(TakeOne(f), MAX_N_SECTOR_READS)
  {
    TakeKeeps(f, width);
    var f', h := TakeOne(f), f.queued[0];
    assert Live(f, h);
    forall b | b in owner - {Buffer(h)}
      ensures Owns(f', b)
    {
      assert Owns(f, b);
      var m :| Live(f, m) && Buffer(m) == b;
      assert Live(f', m);
    }
    forall b | b in io
      ensures Reads(f', b)
    {
      assert Reads(f, b);
      var m :| m in f.flying && Buffer(m) == b;
      assert m in f'.flying;
    }
    forall m: nat | Live(f', m)
      ensures Buffer(m) != Buffer(h) && Live(f, m)
    {
      assert Live(f, m) && m != h;
      if Buffer(m) == Buffer(h) {
        SameBuffer(f, width, m, h);
      }
    }
  }

  // The pipeline of one query.

  /** How an iteration ends: `BufferLost` if a buffer in use may have been issued again. */
  datatype TurnEnd = GoesOn | Finished | BufferLost

  /** How a traversal ends: `UsedUp` when its reads are, `Overrun` if it would go on with a lost buffer. */
  datatype Traversal = Complete | UsedUp | Overrun

  ghost predicate Appended<T>(before: seq<T>, s: seq<T>, from: nat, to: nat, after: seq<T>) {
    from <= to <= |s| && after == before + s[from..to]
  }

  lemma AppendedNext<T>(before: seq<T>, s: seq<T>, from: nat, to: nat, after: seq<T>)
    requires Appended(before, s, from, to, after) && to < |s|
    ensures Appended(before, s, from, to + 1, after + [s[to]])
  {
    assert s[from..to + 1] == s[from..to] + [s[to]];
  }

  lemma AppendedAll<T>(before: seq<T>, s: seq<T>, from: nat, after: seq<T>)
    requires Appended(before, s, from, |s|, after)
    ensures from <= |s| && after == before + s[from..]
  {
    assert s[from..|s|] == s[from..];
  }

  /** A completed read is found in its buffer until the buffer is issued again. */
  ghost predicate InBuffers<Page>(scratch: seq<Page>, disk: nat -> Page, nodes: seq<FrontierNode>, flying: set<nat>) {
    forall n: nat {:trigger nodes[n]} :: n < |nodes| && n !in flying && |nodes| - n <= MAX_N_SECTOR_READS ==>
      Buffer(n) < |scratch| && scratch[Buffer(n)] == disk(nodes[n].pid)
  }

  lemma InBuffersMore<Page>(scratch: seq<Page>, disk: nat -> Page, nodes: seq<FrontierNode>, flying: set<nat>,
                            fn: FrontierNode)
    requires InBuffers(scratch, disk, nodes, flying)
    ensures InBuffers(scratch, disk, nodes + [fn], flying + {|nodes|})
  {
    forall n: nat | n < |nodes + [fn]| && n !in flying + {|nodes|} && |nodes + [fn]| - n <= MAX_N_SECTOR_READS
      ensures Buffer(n) < |scratch| && scratch[Buffer(n)] == disk((nodes + [fn])[n].pid)
    {
      assert (nodes + [fn])[n] == nodes[n];
    }
  }

  lemma InBuffersRead<Page>(scratch: seq<Page>, disk: nat -> Page, nodes: seq<FrontierNode>, f: Flow, n: nat)
    requires InBuffers(scratch, disk, nodes, f.flying) && |nodes| == |f.rounds| && Buffer(n) < |scratch|
    requires Within(f, MAX_N_SECTOR_READS) && n in f.flying && n < |f.rounds|
    ensures InBuffers(scratch[Buffer(n) := disk(nodes[n].pid)], disk, nodes, f.flying - {n})
  {
    CompletedElsewhere(f, n);
    var scratch' := scratch[Buffer(n) := disk(nodes[n].pid)];
    forall m: nat | m < |nodes| && m !in f.flying - {n} && |nodes| - m <= MAX_N_SECTOR_READS
      ensures Buffer(m) < |scratch'| && scratch'[Buffer(m)] == disk(nodes[m].pid)
    {
      assert m != n ==> Buffer(m) != Buffer(n) && m !in f.flying && nodes[m] == nodes[m];
    }
  }

  /** The buffer of every request that has been read holds a page, that of request `held[b]`. */
  ghost predicate Holds<Page>(scratch: seq<Page>, disk: nat -> Page, nodes: seq<FrontierNode>, flying: set<nat>,
                              held: map<nat, nat>) {
    && (forall n: nat {:trigger Buffer(n)} :: n < |nodes| && n !in flying ==> Buffer(n) in held)
    && (forall b {:trigger held[b]} :: b in held ==>
         b < |scratch| && held[b] < |nodes| && scratch[b] == disk(nodes[held[b]].pid))
  }

  lemma HoldsMore<Page>(scratch: seq<Page>, disk: nat -> Page, nodes: seq<FrontierNode>, flying: set<nat>,
                        held: map<nat, nat>, fn: FrontierNode)
    requires Holds(scratch, disk, nodes, flying, held)
    ensures Holds(scratch, disk, nodes + [fn], flying + {|nodes|}, held)
  {
  }

  lemma HoldsRead<Page>(scratch: seq<Page>, disk: nat -> Page, nodes: seq<FrontierNode>, flying: set<nat>,
                        held: map<nat, nat>, n: nat)
    requires Holds(scratch, disk, nodes, flying, held) && n < |nodes| && Buffer(n) < |scratch|
    ensures Holds(scratch[Buffer(n) := disk(nodes[n].pid)], disk, nodes, flying - {n}, held[Buffer(n) := n])
  {
  }

  /** `ReadError` stands for the exit at a buffer that belongs to no request. */
  datatype Taken = ReadError | Got(node: FrontierNode, buf: nat)

  class Pipeline<Page(0)> {
    const beamWidth: nat
    /** What the pages on disk contain. */
    const disk: nat -> Page
    const scratch: array<Page>
    const sectorBuffers: CircleQueue<nat>
    var sectorIdx: nat
    var frontier: seq<FrontierNode>
    var ftrId: nat
    var secBuf2ftr: map<nat, FrontierNode>
    /** The reads submitted to the kernel, by buffer. */
    var inFlight: map<nat, nat>
    var nIo: nat
    var nProc: nat
    var numIos: nat
    ghost var flow: Flow
    ghost var nodes: seq<FrontierNode>
    /** The request whose page is in each buffer. */
    ghost var held: map<nat, nat>

    constructor (beamWidth: nat, disk: nat -> Page)
      ensures Valid() && Quiet() && this.beamWidth == beamWidth && this.disk == disk
      ensures flow == Flow([], {}, []) && numIos == 0 && nodes == [] && frontier == [] && fresh(scratch)
      ensures fresh(sectorBuffers) && fresh(sectorBuffers.data)
    {
      this.beamWidth, this.disk := beamWidth, disk;
      scratch := new Page[MAX_N_SECTOR_READS];
      sectorBuffers := new CircleQueue(MAX_N_SECTOR_READS);
      sectorIdx, frontier, ftrId, secBuf2ftr, inFlight := 0, [], 0, map[], map[];
      nIo, nProc, numIos := 0, 0, 0;
      flow, nodes, held := Flow([], {}, []), [], map[];
    }

    /** The ring holds the buffers of the waiting requests, in the order of completion. */
    ghost predicate Ring()
      reads this`flow, sectorBuffers, sectorBuffers.data
    {
      && sectorBuffers.Valid() && sectorBuffers.size == MAX_N_SECTOR_READS
      && |sectorBuffers.contents| == |flow.queued|
      && forall i {:trigger flow.queued[i]} :: 0 <= i < |flow.queued| ==>
           sectorBuffers.contents[i] == Buffer(flow.queued[i])
    }

    /** A completed read is found in its buffer until the buffer is issued again. */
    ghost predicate Loaded()
      reads this`flow, this`nodes, scratch
    {
      && scratch.Length == MAX_N_SECTOR_READS && (scratch as object) != (sectorBuffers.data as object)
      && InBuffers(scratch[..], disk, nodes, flow.flying)
    }

    /** Even when a buffer has been issued again, it holds a page. */
    ghost predicate Filled()
      reads this`flow, this`nodes, this`held, scratch
    {
      Holds(scratch[..], disk, nodes, flow.flying, held)
    }

    ghost predicate Valid()
      reads this`sectorIdx, this`frontier, this`ftrId, this`secBuf2ftr, this`inFlight, this`numIos
      reads this`flow, this`nodes, this`held, scratch, sectorBuffers, sectorBuffers.data
    {
      && FlowInv(flow, beamWidth) && Within(flow, MAX_N_SECTOR_READS)
      && Tables(flow, nodes, secBuf2ftr, inFlight)
      && Ring() && Loaded() && Filled()
      && sectorIdx == Buffer(|flow.rounds|) && numIos == |flow.rounds|
      && ftrId <= |frontier|
    }

    /** Between the parts of an iteration: the counters count, and every recorded node has been
        requested or needs no request. */
    ghost predicate Quiet()
      reads this
    {
      nIo == |flow.flying| && nProc == |flow.queued| && ftrId == |frontier|
    }

    /** Record the read of the next recorded node in the tables. */
    method RequestNext()
      requires ftrId < |frontier|
      modifies this`sectorIdx, this`secBuf2ftr, this`inFlight, this`numIos, this`ftrId
      ensures sectorIdx == (old(sectorIdx) + 1) % MAX_N_SECTOR_READS
      ensures secBuf2ftr == if old(sectorIdx) in old(secBuf2ftr) then old(secBuf2ftr)
        else old(secBuf2ftr)[old(sectorIdx) := old(frontier[ftrId])]
      ensures inFlight == old(inFlight)[old(sectorIdx) := old(frontier[ftrId]).pid]
      ensures numIos == old(numIos) + 1 && ftrId == old(ftrId) + 1
    {
      var buf, fn := sectorIdx, frontier[ftrId];
      sectorIdx := (sectorIdx + 1) % MAX_N_SECTOR_READS;
      if buf !in secBuf2ftr {
        secBuf2ftr := secBuf2ftr[buf := fn];
      }
      inFlight := inFlight[buf := fn.pid];
      numIos, ftrId := numIos + 1, ftrId + 1;
    }

    /** Request the pages of all recorded nodes although a buffer in use may be among those issued:
        nothing is known of the tables afterwards. */
    method Overcommit()
      requires ftrId <= |frontier|
      modifies this`nIo, this`sectorIdx, this`secBuf2ftr, this`inFlight, this`numIos, this`ftrId
      ensures ftrId == |frontier| && numIos == old(numIos) + (|frontier| - old(ftrId))
    {
      nIo := nIo + (|frontier| - ftrId);
      while ftrId < |frontier|
        invariant ftrId <= |frontier| && numIos - ftrId == old(numIos) - old(ftrId)
      {
        RequestNext();
      }
    }

    /** Request the page of the next recorded node. */
    method Issue(ghost round: nat)
      requires Valid() && ftrId < |frontier| && Within(flow, MAX_N_SECTOR_READS - 1)
      requires FlowInv(IssueOne(flow, round), beamWidth)
      modifies this`sectorIdx, this`secBuf2ftr, this`inFlight, this`numIos, this`ftrId, this`flow, this`nodes
      ensures Valid() && ftrId == old(ftrId) + 1 && numIos == old(numIos) + 1
      ensures flow == IssueOne(old(flow), round) && nodes == old(nodes) + [old(frontier[ftrId])]
    {
      hide FlowInv, Tables, Within, Holds, InBuffers;
      var buf, fn := sectorIdx, frontier[ftrId];
      IssueTables(flow, beamWidth, nodes, secBuf2ftr, inFlight, round, fn);
      NextBuffer(|flow.rounds|);
      assert |nodes| == |flow.rounds| by { TablesLength(flow, nodes, secBuf2ftr, inFlight); }
      RequestNext();
      HoldsMore(scratch[..], disk, nodes, flow.flying, held, fn);
      InBuffersMore(scratch[..], disk, nodes, flow.flying, fn);
      nodes := nodes + [fn];
      flow := IssueOne(flow, round);
    }

    /** Issue the next request of a round that began with `f0` and goes from `from` to the end. */
    method IssueNext(ghost f0: Flow, ghost round: nat, ghost from: nat, ghost before: seq<FrontierNode>)
      requires Valid() && from <= ftrId < |frontier| && Batch(f0, flow, round, ftrId - from)
      requires |frontier| - from <= beamWidth && |frontier| - from <= MAX_N_SECTOR_READS
      requires Within(f0, MAX_N_SECTOR_READS - (|frontier| - from))
      requires Appended(before, frontier, from, ftrId, nodes)
      modifies this`sectorIdx, this`secBuf2ftr, this`inFlight, this`numIos, this`ftrId, this`flow, this`nodes
      ensures Valid() && ftrId == old(ftrId) + 1 && numIos == old(numIos) + 1
      ensures Batch(f0, flow, round, ftrId - from) && Appended(before, frontier, from, ftrId, nodes)
    {
      hide Tables, Within, Batch, Appended;
      BatchFits(f0, flow, beamWidth, round, ftrId - from, |frontier| - from);
      AppendedNext(before, frontier, from, ftrId, nodes);
      Issue(round);
    }

    /** Issue the recorded requests one after the other, as one round. */
    method IssueAll(ghost round: nat)
      requires Valid() && Batch(flow, flow, round, 0)
      requires |frontier| - ftrId <= beamWidth && |frontier| - ftrId <= MAX_N_SECTOR_READS
      requires Within(flow, MAX_N_SECTOR_READS - (|frontier| - ftrId))
      modifies this`sectorIdx, this`secBuf2ftr, this`inFlight, this`numIos, this`ftrId, this`flow, this`nodes
      ensures Valid() && ftrId == |frontier| && Batch(old(flow), flow, round, |frontier| - old(ftrId))
      ensures nodes == old(nodes) + frontier[old(ftrId)..] && numIos == old(numIos) + (|frontier| - old(ftrId))
    {
      ghost var f0, from, before := flow, ftrId, nodes;
      assert ftrId <= |frontier| && Appended(before, frontier, from, ftrId, nodes);
      hide Pipeline.Valid, Within, Batch, Appended;
      while ftrId < |frontier|
        invariant Valid() && from <= ftrId <= |frontier| && Batch(f0, flow, round, ftrId - from)
        invariant Appended(before, frontier, from, ftrId, nodes) && numIos == old(numIos) + (ftrId - from)
      {
        IssueNext(f0, round, from, before);
      }
      AppendedAll(before, frontier, from, nodes);
    }

    lemma Counters()
      requires Valid()
      ensures ftrId <= |frontier| && numIos == |flow.rounds|
    {
    }

    /** Request the pages of all recorded nodes that are not requested yet. */
    method Submit() returns (ghost round: nat)
      requires Valid() && nIo == 0 && nIo == |flow.flying| && nProc == |flow.queued|
      requires |frontier| - ftrId <= beamWidth && |frontier| - ftrId <= MAX_N_SECTOR_READS
      requires Within(flow, MAX_N_SECTOR_READS - (|frontier| - ftrId))
      modifies this`nIo, this`sectorIdx, this`secBuf2ftr, this`inFlight, this`numIos, this`ftrId, this`flow, this`nodes
      ensures Valid() && Quiet()
      ensures nodes == old(nodes) + old(frontier[ftrId..]) && numIos == old(numIos) + (|frontier| - old(ftrId))
      ensures flow.queued == old(flow.queued) && flow.flying == Interval(old(|flow.rounds|), |flow.rounds|)
      ensures nIo == |frontier| - old(ftrId) && Batch(old(flow), flow, round, nIo)
    {
      hide FlowInv, Tables, Within, IssueOne, Batch, Holds, Live, RoundOf, Interval, Pipeline.Valid;
      Counters();
      ghost var f0, batch := flow, |frontier| - ftrId;
      assert f0.flying == {};
      round := NewRound(flow, |flow.rounds|);
      BatchStart(flow, round);
      nIo := nIo + (|frontier| - ftrId);
      IssueAll(round);
      BatchEnd(f0, flow, round, batch);
    }

    /** One read completes: whichever the kernel has finished. */
    method ReapOne() returns (ghost n: nat)
      requires Valid() && nIo > 0 && flow.flying != {}
      modifies this`inFlight, this`nIo, this`nProc, this`flow, this`held, scratch, sectorBuffers, sectorBuffers.data
      ensures Valid() && nIo == old(nIo) - 1 && nProc == old(nProc) + 1
      ensures |flow.flying| == old(|flow.flying|) - 1 && |flow.queued| == old(|flow.queued|) + 1
      ensures n in old(flow).flying && flow == CompleteOne(old(flow), n)
      ensures forall m: nat {:trigger Live(flow, m)} :: Live(flow, m) <==> old(Live(flow, m))
    {
      hide FlowInv, Tables, Within, Holds, Live, InBuffers, CircleQueue.Valid, Wrap;
      SomeRead(flow, beamWidth, nodes, secBuf2ftr, inFlight);
      var buf :| buf in inFlight;
      n := ReadOf(flow, beamWidth, nodes, secBuf2ftr, inFlight, buf);
      LiveCount(flow, beamWidth, MAX_N_SECTOR_READS);
      CompleteKeeps(flow, beamWidth, n);
      CompleteTables(flow, beamWidth, nodes, secBuf2ftr, inFlight, n);
      InBuffersRead(scratch[..], disk, nodes, flow, n);
      HoldsRead(scratch[..], disk, nodes, flow.flying, held, n);
      scratch[buf] := disk(inFlight[buf]);
      held := held[buf := n];
      inFlight := inFlight - {buf};
      sectorBuffers.Push(buf);
      flow := CompleteOne(flow, n);
      nIo, nProc := nIo - 1, nProc + 1;
    }

    /** Collect completed reads: any number of them, but at least `minR`. */
    method Reap(minR: nat) returns (ghost done: seq<nat>)
      requires Valid() && Quiet() && minR <= nIo
      modifies this`inFlight, this`nIo, this`nProc, this`flow, this`held, scratch, sectorBuffers, sectorBuffers.data
      ensures Valid() && Quiet() && nIo <= old(nIo) - minR && nIo + nProc == old(nIo + nProc)
      ensures flow == Completed(old(flow), done) && |done| == old(nIo) - nIo
      ensures NoRepeats(done) && Members(done) <= old(flow).flying
      ensures forall n: nat {:trigger Live(flow, n)} :: Live(flow, n) <==> old(Live(flow, n))
    {
      hide FlowInv, Tables, Within, Holds, Live, Completed, CompleteOne, Pipeline.Valid;
      ghost var f := flow;
      var blocks :| minR <= blocks <= nIo;
      done := [];
      NothingCompletes(f);
      hide NoRepeats;
      for i := 0 to blocks
        invariant Valid() && Quiet() && nIo == old(nIo) - i && nProc == old(nProc) + i
        invariant flow == Completed(f, done) && NoRepeats(done) && Members(done) <= f.flying && |done| == i
        invariant forall n: nat {:trigger Live(flow, n)} :: Live(flow, n) <==> old(Live(flow, n))
      {
        ghost var n := ReapOne();
        CompletedMore(f, done, n);
        done := done + [n];
      }
    }

    /** The next completed request in line, with the buffer that holds its page. */
    method Take() returns (r: Taken)
      requires Valid() && Quiet() && nProc > 0
      modifies this`nProc, this`secBuf2ftr, this`flow, sectorBuffers`tail, sectorBuffers`contents
      ensures Valid() && Quiet() && nProc == old(nProc) - 1
      ensures flow == TakeOne(old(flow)) && old(flow.queued[0]) < |nodes|
      ensures r == Got(nodes[old(flow.queued[0])], Buffer(old(flow.queued[0])))
      ensures r.buf < scratch.Length && scratch[r.buf] == disk(r.node.pid)
      ensures forall n: nat {:trigger Live(flow, n)} :: Live(flow, n) <==>
        old(Live(flow, n)) && n != old(flow.queued[0])
    {
      hide FlowInv, Tables, Within, Holds;
      ghost var h := flow.queued[0];
      TakenRead(flow, beamWidth, nodes, secBuf2ftr, inFlight);
      TakeKeeps(flow, beamWidth);
      TakeTables(flow, beamWidth, nodes, secBuf2ftr, inFlight);
      var buf := sectorBuffers.Get();
      r := if buf in secBuf2ftr then Got(secBuf2ftr[buf], buf) else ReadError;
      secBuf2ftr := secBuf2ftr - {buf};
      nProc := nProc - 1;
      flow := TakeOne(flow);
    }

    /** Record a node to be requested at the end of the dispatch. */
    method Record(fn: FrontierNode)
      requires Valid()
      modifies this`frontier
      ensures Valid() && frontier == old(frontier) + [fn]
    {
      frontier := frontier + [fn];
    }

    /** Record a node that came with the page of another one and needs no request. */
    method RecordVisited(fn: FrontierNode)
      requires Valid() && Quiet()
      modifies this`frontier, this`ftrId
      ensures Valid() && Quiet() && frontier == old(frontier) + [fn]
    {
      frontier := frontier + [fn];
      ftrId := ftrId + 1;
    }
  }

  lemma TakenRead(f: Flow, width: nat, nodes: seq<FrontierNode>, owner: map<nat, FrontierNode>, io: map<nat, nat>)
    requires FlowInv(f, width) && Within(f, MAX_N_SECTOR_READS) && Tables(f, nodes, owner, io) && f.queued != []
    ensures var h := f.queued[0];
      && h < |nodes| == |f.rounds| && |nodes| - h <= MAX_N_SECTOR_READS && h !in f.flying
      && Buffer(h) in owner && owner[Buffer(h)] == nodes[h]
  {
    assert Live(f, f.queued[0]);
  }

  lemma SomeRead(f: Flow, width: nat, nodes: seq<FrontierNode>, owner: map<nat, FrontierNode>, io: map<nat, nat>)
    requires FlowInv(f, width) && Tables(f, nodes, owner, io) && f.flying != {}
    ensures io != map[]
  {
    var n :| n in f.flying;
    assert Live(f, n);
    assert Buffer(n) in io;
  }

  /** The request whose read is in the kernel's list. */
  lemma ReadOf(f: Flow, width: nat, nodes: seq<FrontierNode>, owner: map<nat, FrontierNode>, io: map<nat, nat>,
               buf: nat) returns (n: nat)
    requires FlowInv(f, width) && Tables(f, nodes, owner, io) && buf in io
    ensures n in f.flying && n !in f.queued && Buffer(n) == buf && n < |nodes| == |f.rounds| && io[buf] == nodes[n].pid
  {
    assert Reads(f, buf);
    n :| n in f.flying && Buffer(n) == buf;
    assert Live(f, n);
  }

  /** Completing a read overwrites no buffer that still holds a page. */
  lemma CompletedElsewhere(f: Flow, n: nat)
    requires Within(f, MAX_N_SECTOR_READS) && n in f.flying && n < |f.rounds|
    ensures forall m: nat :: m < |f.rounds| && m != n && |f.rounds| - m <= MAX_N_SECTOR_READS ==> Buffer(m) != Buffer(n)
  {
    assert Live(f, n);
    forall m: nat | m < |f.rounds| && m != n && |f.rounds| - m <= MAX_N_SECTOR_READS
      ensures Buffer(m) != Buffer(n)
    {
      if m < n {
        BuffersDiffer(m, n);
      } else {
        BuffersDiffer(n, m);
      }
    }
  }

  lemma TablesLength(f: Flow, nodes: seq<FrontierNode>, owner: map<nat, FrontierNode>, io: map<nat, nat>)
    requires Tables(f, nodes, owner, io)
    ensures |nodes| == |f.rounds|
  {
  }
}
