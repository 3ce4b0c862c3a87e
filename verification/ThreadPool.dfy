/** `ThreadPool::runTask` as interleaved atomic steps of the caller, which is also worker 0, and of
    the other workers; and the loop by which the searches share their queries out. */
module ThreadPool {
  import opened Sets

  /** Where a thread is: `Starting` has seen its flag, `Fetching(r)` and `Answering(r, q)` are inside
      the task of round `r`, `Returned` has left it, `Lowered` has taken its flag back. */
  datatype Pc = Spinning | Starting | Fetching(r: nat) | Answering(r: nat, q: nat) | Returned | Lowered

  /** Where the caller of `runTask` is; `Raising(j)` has raised the first `j` flags. */
  datatype Caller = Outside | Counting | Raising(j: nat) | Checking | Running | Waiting | Clearing

  /** One call of `runTask`: how many threads take part, and how many queries the task shares out. */
  datatype Round = Round(parallel: nat, queries: nat)

  /** `counters[r]` is the shared `cur_task` of round `r`; `ran` counts the completed executions of
      a round's task by thread, `answered` the answers of a round by query. */
  datatype State = State(
    caller: Caller,
    task: int,
    notify: int,
    activate: seq<bool>,
    pc: seq<Pc>,
    rounds: seq<Round>,
    counters: seq<nat>,
    ran: multiset<(nat, nat)>,
    answered: multiset<(nat, nat)>
  ) {
    /** The round in progress, or the last one. */
    ghost function Current(): int {
      |rounds| - 1
    }
  }

  const NO_TASK: int := -1

  ghost predicate Init(s: State) {
    && s.caller == Outside && s.task == NO_TASK && s.notify == 0
    && |s.activate| == |s.pc| > 0
    && (forall i :: 0 <= i < |s.pc| ==> s.pc[i] == Spinning && !s.activate[i])
    && s.rounds == [] && s.counters == [] && s.ran == multiset{} && s.answered == multiset{}
  }

  /** A step of thread `i` inside `executeInOneTransaction(i)`. */
  ghost predicate WorkStep(s: State, s': State, i: nat) {
    && i < |s.pc|
    && match s.pc[i]
       case Spinning => false
       case Starting =>
         s.task >= 0 && s' == s.(pc := s.pc[i := Fetching(s.task)])
       case Fetching(r) =>
         && r < |s.counters| && r < |s.rounds|
         && var q := s.counters[r];
            s' == (if q < s.rounds[r].queries then s.(pc := s.pc[i := Answering(r, q)])
                   else s.(pc := s.pc[i := Returned], ran := s.ran + multiset{(r, i)}))
                  .(counters := s.counters[r := q + 1])
       case Answering(r, q) =>
         s' == s.(pc := s.pc[i := Fetching(r)], answered := s.answered + multiset{(r, q)})
       case Returned =>
         i < |s.activate| && s' == s.(pc := s.pc[i := Lowered], activate := s.activate[i := false])
       case Lowered =>
         s' == s.(pc := s.pc[i := Spinning], notify := s.notify - 1, caller := if i == 0 then Waiting else s.caller)
  }

  /** A worker other than the caller leaves its spin loop. */
  ghost predicate WakeStep(s: State, s': State, i: nat) {
    && 0 < i < |s.pc| && i < |s.activate| && s.pc[i] == Spinning && s.activate[i]
    && s' == s.(pc := s.pc[i := Starting])
  }

  ghost predicate CallStep(s: State, s': State, parallel: nat, queries: nat) {
    && s.caller == Outside && parallel <= |s.pc|
    && s' == s.(caller := Counting, task := |s.rounds|, rounds := s.rounds + [Round(parallel, queries)],
      counters := s.counters + [0])
  }

  ghost predicate CallerStep(s: State, s': State) {
    && |s.rounds| > 0 && |s.activate| > 0 && |s.pc| > 0
    && match s.caller
       case Outside => false
       case Counting => s' == s.(notify := s.rounds[s.Current()].parallel, caller := Raising(0))
       case Raising(j) =>
         if j < s.rounds[s.Current()].parallel then
           j < |s.activate| && s' == s.(activate := s.activate[j := true], caller := Raising(j + 1))
         else s' == s.(caller := Checking)
       case Checking =>
         if s.activate[0] then s' == s.(caller := Running, pc := s.pc[0 := Starting]) else s' == s.(caller := Waiting)
       case Running => false
       case Waiting => s.notify <= 0 && s' == s.(caller := Clearing)
       case Clearing => s' == s.(task := NO_TASK, caller := Outside)
  }

  ghost predicate Next(s: State, s': State) {
    || (exists i :: WorkStep(s, s', i))
    || (exists i :: WakeStep(s, s', i))
    || (exists parallel, queries :: CallStep(s, s', parallel, queries))
    || CallerStep(s, s')
  }

  /** The flags raised so far: all of the round's once the caller is past the raising loop. */
  ghost function Raised(s: State): nat
    requires |s.rounds| > 0
  {
    match s.caller
    case Outside => s.rounds[s.Current()].parallel
    case Counting => 0
    case Raising(j) => j
    case _ => s.rounds[s.Current()].parallel
  }

  /** Thread `i` still owes the round a decrement of `notify_cnt`. */
  ghost predicate Owes(s: State, i: nat)
    requires |s.rounds| > 0 && |s.activate| == |s.pc|
  {
    i < s.rounds[s.Current()].parallel && i < |s.pc| && (i >= Raised(s) || s.activate[i] || s.pc[i] == Lowered)
  }

  ghost function Owing(s: State): set<nat>
    requires |s.rounds| > 0 && |s.activate| == |s.pc|
  {
    set i | 0 <= i < |s.pc| && Owes(s, i)
  }

  ghost predicate Inside(p: Pc) {
    p != Spinning && p != Lowered
  }

  /** How often thread `i` has run the task of the round in progress. */
  ghost function Runs(s: State, i: nat): nat
    requires |s.rounds| > 0 && |s.activate| == |s.pc| && i < |s.pc|
  {
    if i < Raised(s) && i < s.rounds[s.Current()].parallel && (!s.activate[i] || s.pc[i] == Returned) then 1 else 0
  }

  ghost predicate Shape(s: State) {
    && |s.activate| == |s.pc| > 0 && |s.counters| == |s.rounds| > 0
    && Raised(s) <= s.rounds[s.Current()].parallel <= |s.pc|
  }

  /** No flag is up and every thread is outside the task. */
  ghost predicate Quiet(s: State)
    requires |s.activate| == |s.pc|
  {
    forall i :: 0 <= i < |s.pc| ==> s.pc[i] == Spinning && !s.activate[i]
  }

  ghost predicate InRound(p: Pc, r: int) {
    match p
    case Fetching(q) => q == r
    case Answering(q, _) => q == r
    case _ => true
  }

  /** `notify_cnt` counts the threads that still owe a decrement; threads are inside the task only
      with their flag up, and only in the task of the round in progress. */
  ghost predicate ThreadsInv(s: State)
    requires Shape(s)
  {
    && (s.caller in {Counting, Clearing, Outside} ==> Quiet(s))
    && s.notify == (if s.caller == Counting then 0 else |Owing(s)|)
    && s.task == (if s.caller == Outside then NO_TASK else s.Current())
    && (forall i :: 0 <= i < |s.pc| ==>
          && InRound(s.pc[i], s.Current())
          && (s.activate[i] ==> i < Raised(s))
          && (Inside(s.pc[i]) ==> s.activate[i])
          && (s.pc[i] == Lowered ==> i < Raised(s) && !s.activate[i]))
    && (s.caller == Running <==> s.pc[0] != Spinning)
    && (s.caller == Waiting ==> !s.activate[0])
  }

  /** Each thread that has taken its flag back has run the task once, and no other has. */
  ghost predicate RunsInv(s: State)
    requires Shape(s)
  {
    && (forall i {:trigger s.ran[(s.Current(), i)]} :: 0 <= i < |s.pc| ==> s.ran[(s.Current(), i)] == Runs(s, i))
    && (forall i {:trigger s.ran[(s.Current(), i)]} :: i >= |s.pc| ==> s.ran[(s.Current(), i)] == 0)
  }

  ghost predicate AnswersNow(p: Pc, q: nat) {
    p.Answering? && p.q == q
  }

  ghost predicate Busy(s: State, q: nat) {
    exists i :: 0 <= i < |s.pc| && AnswersNow(s.pc[i], q)
  }

  /** Thread `i` has left the task of the round in progress. */
  ghost predicate HasLeft(s: State, i: nat)
    requires Shape(s) && i < |s.pc|
  {
    s.pc[i] == Returned || (i < Raised(s) && !s.activate[i])
  }

  /** A query below the shared counter has been answered once or is being answered by one thread. */
  ghost predicate AnswerOnce(s: State, q: nat)
    requires Shape(s)
  {
    var r := s.Current();
    var taken, queries := s.counters[r], s.rounds[r].queries;
    && s.answered[(r, q)] <= 1
    && (s.answered[(r, q)] == 1 ==> q < taken && q < queries && !Busy(s, q))
    && (q < taken && q < queries && s.answered[(r, q)] == 0 ==> Busy(s, q))
  }

  ghost predicate AnswersInv(s: State)
    requires Shape(s)
  {
    var r := s.Current();
    var taken, queries := s.counters[r], s.rounds[r].queries;
    && (forall q: nat :: AnswerOnce(s, q))
    && (forall i :: 0 <= i < |s.pc| && s.pc[i].Answering? ==> s.pc[i].q < taken && s.pc[i].q < queries)
    && (forall i, j :: 0 <= i < |s.pc| && 0 <= j < |s.pc| && s.pc[i].Answering? && s.pc[i] == s.pc[j] ==> i == j)
    && (forall i :: 0 <= i < |s.pc| && HasLeft(s, i) ==> taken >= queries)
    && (s.rounds[r].parallel == 0 ==> taken == 0)
  }

  /** What a finished round leaves behind: each of its threads ran the task once, and if there was
      one, each query was answered once. */
  ghost predicate Complete(s: State, r: nat)
    requires r < |s.rounds|
  {
    && (forall i: nat {:trigger s.ran[(r, i)]} :: s.ran[(r, i)] == if i < s.rounds[r].parallel then 1 else 0)
    && (forall q: nat {:trigger s.answered[(r, q)]} ::
          s.answered[(r, q)] == if q < s.rounds[r].queries && s.rounds[r].parallel > 0 then 1 else 0)
  }

  ghost predicate HistoryInv(s: State) {
    && (forall r :: 0 <= r < s.Current() ==> Complete(s, r))
    && (forall r: nat, i: nat {:trigger s.ran[(r, i)]} :: r >= |s.rounds| ==> s.ran[(r, i)] == 0)
    && (forall r: nat, q: nat {:trigger s.answered[(r, q)]} :: r >= |s.rounds| ==> s.answered[(r, q)] == 0)
  }

  ghost predicate Inv(s: State) {
    Init(s) || (Shape(s) && ThreadsInv(s) && RunsInv(s) && AnswersInv(s) && HistoryInv(s))
  }

  lemma WorkOwing(s: State, s': State, i: nat)
    requires Shape(s) && ThreadsInv(s) && WorkStep(s, s', i)
    ensures Shape(s') && i in Owing(s)
    ensures Owing(s') == if s.pc[i] == Lowered then Owing(s) - {i} else Owing(s)
  {
  }

  lemma WorkKeepsThreads(s: State, s': State, i: nat)
    requires Shape(s) && ThreadsInv(s) && WorkStep(s, s', i)
    ensures Shape(s') && ThreadsInv(s')
  {
    WorkOwing(s, s', i);
    assert s'.notify == |Owing(s')|;
  }

  lemma WakeKeepsThreads(s: State, s': State, i: nat)
    requires Shape(s) && ThreadsInv(s) && WakeStep(s, s', i)
    ensures Shape(s') && ThreadsInv(s')
  {
    assert Owing(s') == Owing(s);
  }

  lemma CallerKeepsThreads(s: State, s': State)
    requires Shape(s) && ThreadsInv(s) && CallerStep(s, s')
    ensures Shape(s') && ThreadsInv(s')
  {
    if s.caller == Counting {
      assert Owing(s') == Below(s.rounds[s.Current()].parallel);
    } else {
      assert Owing(s') == Owing(s);
      if s.caller == Waiting {
        NobodyOwes(s);
      }
    }
  }

  /** The end of the caller's wait: a zero count means that every thread is out of the task. */
  lemma NobodyOwes(s: State)
    requires Shape(s) && ThreadsInv(s) && s.caller == Waiting && s.notify <= 0
    ensures Quiet(s)
  {
    assert Owing(s) == {};
    forall i | 0 <= i < |s.pc|
      ensures s.pc[i] == Spinning && !s.activate[i]
    {
      assert i !in Owing(s);
    }
  }

  lemma CallKeepsThreads(s: State, s': State, parallel: nat, queries: nat)
    requires Init(s) || (Shape(s) && ThreadsInv(s))
    requires CallStep(s, s', parallel, queries)
    ensures Shape(s') && ThreadsInv(s')
  {
  }

  lemma WorkKeepsRuns(s: State, s': State, i: nat)
    requires Shape(s) && ThreadsInv(s) && RunsInv(s) && WorkStep(s, s', i)
    ensures Shape(s') && RunsInv(s')
  {
  }

  lemma WakeKeepsRuns(s: State, s': State, i: nat)
    requires Shape(s) && ThreadsInv(s) && RunsInv(s) && WakeStep(s, s', i)
    ensures Shape(s') && RunsInv(s')
  {
  }

  lemma CallerKeepsRuns(s: State, s': State)
    requires Shape(s) && ThreadsInv(s) && RunsInv(s) && CallerStep(s, s')
    ensures Shape(s') && RunsInv(s')
  {
  }

  /** Only the queries of the thread that moves can become busy or free. */
  lemma BusyUpdate(s: State, s': State, i: nat, q: nat)
    requires |s.pc| == |s'.pc| && i < |s.pc| && forall j :: 0 <= j < |s.pc| && j != i ==> s'.pc[j] == s.pc[j]
    ensures Busy(s, q) && !AnswersNow(s.pc[i], q) ==> Busy(s', q)
    ensures Busy(s', q) && !AnswersNow(s'.pc[i], q) ==> Busy(s, q)
  {
    if Busy(s, q) && !AnswersNow(s.pc[i], q) {
      var j :| 0 <= j < |s.pc| && AnswersNow(s.pc[j], q);
      assert AnswersNow(s'.pc[j], q);
    }
    if Busy(s', q) && !AnswersNow(s'.pc[i], q) {
      var j :| 0 <= j < |s.pc| && AnswersNow(s'.pc[j], q);
      assert AnswersNow(s.pc[j], q);
    }
  }

  lemma WorkKeepsOne(s: State, s': State, i: nat, q: nat)
    requires Shape(s) && ThreadsInv(s) && AnswersInv(s) && WorkStep(s, s', i) && Shape(s')
    ensures AnswerOnce(s', q)
  {
    assert AnswerOnce(s, q);
    BusyUpdate(s, s', i, q);
    if s.pc[i].Answering? && s.pc[i].q == q {
      assert AnswersNow(s.pc[i], q) && Busy(s, q);
    }
    if s'.pc[i].Answering? && s'.pc[i].q == q {
      assert AnswersNow(s'.pc[i], q) && Busy(s', q);
    }
  }

  lemma WorkKeepsLeft(s: State, s': State, i: nat, k: nat)
    requires Shape(s) && ThreadsInv(s) && AnswersInv(s) && WorkStep(s, s', i) && Shape(s')
    requires k < |s'.pc| && HasLeft(s', k)
    ensures s'.counters[s'.Current()] >= s'.rounds[s'.Current()].queries
  {
    hide AnswerOnce;
    assert k != i ==> HasLeft(s, k);
    assert s.pc[i] in {Returned, Lowered} ==> HasLeft(s, i);
  }

  lemma WorkKeepsAnswers(s: State, s': State, i: nat)
    requires Shape(s) && ThreadsInv(s) && AnswersInv(s) && WorkStep(s, s', i)
    ensures Shape(s') && AnswersInv(s')
  {
    hide AnswerOnce, HasLeft, Busy;
    WorkKeepsThreads(s, s', i);
    forall q: nat
      ensures AnswerOnce(s', q)
    {
      WorkKeepsOne(s, s', i, q);
    }
    forall k | 0 <= k < |s'.pc| && HasLeft(s', k)
      ensures s'.counters[s'.Current()] >= s'.rounds[s'.Current()].queries
    {
      WorkKeepsLeft(s, s', i, k);
    }
  }

  lemma WakeKeepsAnswers(s: State, s': State, i: nat)
    requires Shape(s) && ThreadsInv(s) && AnswersInv(s) && WakeStep(s, s', i)
    ensures Shape(s') && AnswersInv(s')
  {
    forall q: nat
      ensures AnswerOnce(s', q)
    {
      assert AnswerOnce(s, q);
      BusyUpdate(s, s', i, q);
    }
    assert forall k :: 0 <= k < |s'.pc| && HasLeft(s', k) ==> HasLeft(s, k);
  }

  lemma CallerKeepsOne(s: State, s': State, q: nat)
    requires Shape(s) && ThreadsInv(s) && AnswerOnce(s, q) && CallerStep(s, s') && Shape(s')
    ensures AnswerOnce(s', q)
  {
    BusyUpdate(s, s', 0, q);
  }

  lemma CallerKeepsLeft(s: State, s': State, k: nat)
    requires Shape(s) && ThreadsInv(s) && CallerStep(s, s') && Shape(s') && k < |s'.pc| == |s.pc| && HasLeft(s', k)
    ensures HasLeft(s, k)
  {
  }

  lemma CallerKeepsAnswers(s: State, s': State)
    requires Shape(s) && ThreadsInv(s) && AnswersInv(s) && CallerStep(s, s')
    ensures Shape(s') && AnswersInv(s')
  {
    hide AnswerOnce, HasLeft, Busy;
    CallerKeepsThreads(s, s');
    forall q: nat
      ensures AnswerOnce(s', q)
    {
      assert AnswerOnce(s, q);
      CallerKeepsOne(s, s', q);
    }
    forall k | 0 <= k < |s'.pc| && HasLeft(s', k)
      ensures HasLeft(s, k)
    {
      CallerKeepsLeft(s, s', k);
    }
  }

  /** Steps within a round leave the earlier and the later rounds alone. */
  lemma StepKeepsHistory(s: State, s': State, i: nat)
    requires Shape(s) && ThreadsInv(s) && HistoryInv(s)
    requires CallerStep(s, s') || WorkStep(s, s', i) || WakeStep(s, s', i)
    ensures HistoryInv(s')
  {
    assert s'.rounds == s.rounds;
    forall r | 0 <= r < s.Current()
      ensures Complete(s', r)
    {
      assert Complete(s, r);
      assert forall i: nat :: s'.ran[(r, i)] == s.ran[(r, i)];
      assert forall q: nat :: s'.answered[(r, q)] == s.answered[(r, q)];
    }
    assert forall r: nat, i: nat :: r >= |s.rounds| ==> s'.ran[(r, i)] == s.ran[(r, i)];
    assert forall r: nat, q: nat :: r >= |s.rounds| ==> s'.answered[(r, q)] == s.answered[(r, q)];
  }

  /** Between rounds the round last called is complete. */
  lemma QuietIsComplete(s: State)
    requires Shape(s) && ThreadsInv(s) && RunsInv(s) && AnswersInv(s) && s.caller in {Outside, Clearing}
    ensures Complete(s, s.Current())
  {
    var r := s.Current();
    if s.rounds[r].parallel > 0 {
      assert HasLeft(s, 0);
    }
    forall q: nat
      ensures s.answered[(r, q)] == if q < s.rounds[r].queries && s.rounds[r].parallel > 0 then 1 else 0
    {
      assert AnswerOnce(s, q);
      assert !Busy(s, q);
    }
  }

  lemma CallKeepsRest(s: State, s': State, parallel: nat, queries: nat)
    requires Inv(s) && CallStep(s, s', parallel, queries)
    ensures Shape(s') && RunsInv(s') && AnswersInv(s') && HistoryInv(s')
  {
    if !Init(s) {
      QuietIsComplete(s);
      forall r | 0 <= r < s'.Current()
        ensures Complete(s', r)
      {
        assert Complete(s, r);
      }
    }
  }

  lemma InvInductive(s: State, s': State)
    requires Inv(s) && Next(s, s')
    ensures Inv(s')
  {
    if i :| WorkStep(s, s', i) {
      WorkKeepsThreads(s, s', i);
      WorkKeepsRuns(s, s', i);
      WorkKeepsAnswers(s, s', i);
      StepKeepsHistory(s, s', i);
    } else if i :| WakeStep(s, s', i) {
      WakeKeepsThreads(s, s', i);
      WakeKeepsRuns(s, s', i);
      WakeKeepsAnswers(s, s', i);
      StepKeepsHistory(s, s', i);
    } else if parallel, queries :| CallStep(s, s', parallel, queries) {
      CallKeepsThreads(s, s', parallel, queries);
      CallKeepsRest(s, s', parallel, queries);
    } else {
      CallerKeepsThreads(s, s');
      CallerKeepsRuns(s, s');
      CallerKeepsAnswers(s, s');
      StepKeepsHistory(s, s', 0);
    }
  }

  ghost predicate IsRun(run: seq<State>) {
    |run| > 0 && Init(run[0]) && forall k, l :: 0 <= k < |run| && 0 <= l < |run| && l == k + 1 ==> Next(run[k], run[l])
  }

  lemma {:induction false} RunInv(run: seq<State>, k: nat)
    requires IsRun(run) && k < |run|
    ensures Inv(run[k])
  {
    if k > 0 {
      RunInv(run, k - 1);
      InvInductive(run[k - 1], run[k]);
    }
  }

  /** Whenever `runTask` stops waiting, its task has been run exactly once by each of the threads
      asked for, every query has been answered exactly once if there was such a thread, and the
      same holds for every earlier call. */
  lemma RunTaskReturns(run: seq<State>, k: nat)
    requires IsRun(run) && k < |run| && run[k].caller in {Clearing, Outside}
    ensures |run[k].activate| == |run[k].pc| && Quiet(run[k])
    ensures forall r :: 0 <= r < |run[k].rounds| ==> Complete(run[k], r)
  {
    RunInv(run, k);
    if !Init(run[k]) {
      QuietIsComplete(run[k]);
    }
  }

  /** No thread is ever inside the task of a call other than the one in progress. */
  lemma OnlyThisRound(run: seq<State>, k: nat, i: nat)
    requires IsRun(run) && k < |run| && i < |run[k].pc| && Inside(run[k].pc[i])
    ensures run[k].caller != Outside && run[k].task == |run[k].rounds| - 1
    ensures run[k].pc[i].Fetching? || run[k].pc[i].Answering? ==> run[k].pc[i].r == run[k].task
  {
    RunInv(run, k);
  }

  /** A step of a thread or of the caller that belongs to the call in progress. */
  ghost predicate RoundStep(s: State, s': State) {
    (exists i :: WorkStep(s, s', i)) || (exists i :: WakeStep(s, s', i)) || CallerStep(s, s')
  }

  /** During a call some thread can always move: nobody waits for ever on a count that cannot drop. */
  lemma SomeoneCanMove(s: State) returns (s': State)
    requires Inv(s) && s.caller != Outside
    ensures RoundStep(s, s')
  {
    var r := s.Current();
    match s.caller {
      case Running =>
        s' := MoveOf(s, 0);
      case Waiting =>
        if s.notify <= 0 {
          s' := s.(caller := Clearing);
          assert CallerStep(s, s');
        } else {
          var i :| i in Owing(s);
          s' := MoveOf(s, i);
        }
      case Counting =>
        s' := s.(notify := s.rounds[r].parallel, caller := Raising(0));
        assert CallerStep(s, s');
      case Raising(j) =>
        s' := if j < s.rounds[r].parallel then s.(activate := s.activate[j := true], caller := Raising(j + 1))
              else s.(caller := Checking);
        assert CallerStep(s, s');
      case Checking =>
        s' := if s.activate[0] then s.(caller := Running, pc := s.pc[0 := Starting]) else s.(caller := Waiting);
        assert CallerStep(s, s');
      case Clearing =>
        s' := s.(task := NO_TASK, caller := Outside);
        assert CallerStep(s, s');
    }
  }

  lemma MoveOf(s: State, i: nat) returns (s': State)
    requires Shape(s) && ThreadsInv(s) && s.caller in {Running, Waiting} && i in Owing(s)
    requires i == 0 ==> s.caller == Running
    ensures RoundStep(s, s')
  {
    match s.pc[i] {
      case Spinning =>
        s' := s.(pc := s.pc[i := Starting]);
        assert WakeStep(s, s', i);
      case Starting =>
        s' := s.(pc := s.pc[i := Fetching(s.task)]);
        assert WorkStep(s, s', i);
      case Fetching(r) =>
        var q := s.counters[r];
        s' := (if q < s.rounds[r].queries then s.(pc := s.pc[i := Answering(r, q)])
               else s.(pc := s.pc[i := Returned], ran := s.ran + multiset{(r, i)}))
              .(counters := s.counters[r := q + 1]);
        assert WorkStep(s, s', i);
      case Answering(r, q) =>
        s' := s.(pc := s.pc[i := Fetching(r)], answered := s.answered + multiset{(r, q)});
        assert WorkStep(s, s', i);
      case Returned =>
        s' := s.(pc := s.pc[i := Lowered], activate := s.activate[i := false]);
        assert WorkStep(s, s', i);
      case Lowered =>
        s' := s.(pc := s.pc[i := Spinning], notify := s.notify - 1, caller := if i == 0 then Waiting else s.caller);
        assert WorkStep(s, s', i);
    }
  }

  /** What is left of a call for one thread to do. */
  ghost function ThreadWork(s: State, i: nat): nat
    requires Shape(s) && i < |s.pc|
  {
    match s.pc[i]
    case Spinning => if Owes(s, i) then 6 else 0
    case Starting => 5
    case Fetching(_) => 3
    case Answering(_, _) => 4
    case Returned => 2
    case Lowered => 1
  }

  ghost function TotalWork(s: State, n: nat): nat
    requires Shape(s) && n <= |s.pc|
  {
    if n == 0 then 0 else TotalWork(s, n - 1) + ThreadWork(s, n - 1)
  }

  /** What is left for the caller itself, outside the task. */
  ghost function CallerWork(s: State): nat
    requires Shape(s)
  {
    var parallel := s.rounds[s.Current()].parallel;
    match s.caller
    case Counting => parallel + 6
    case Raising(j) => parallel - j + 5
    case Checking => 4
    case Running => 3
    case Waiting => 2
    case Clearing => 1
    case Outside => 0
  }

  ghost function QueriesLeft(s: State): nat
    requires Shape(s)
  {
    var r := s.Current();
    if s.counters[r] < s.rounds[r].queries then s.rounds[r].queries - s.counters[r] else 0
  }

  ghost function Remaining(s: State): nat
    requires Shape(s)
  {
    2 * QueriesLeft(s) + TotalWork(s, |s.pc|) + CallerWork(s)
  }

  lemma {:induction false} WorkOfOne(s: State, s': State, i: nat, n: nat)
    requires Shape(s) && Shape(s') && n <= |s.pc| == |s'.pc|
    requires forall j :: 0 <= j < n && j != i ==> ThreadWork(s, j) == ThreadWork(s', j)
    ensures TotalWork(s', n) == TotalWork(s, n) + if i < n then ThreadWork(s', i) - ThreadWork(s, i) else 0
  {
    if n > 0 {
      WorkOfOne(s, s', i, n - 1);
    }
  }

  lemma OthersWork(s: State, s': State, i: nat)
    requires Shape(s) && ThreadsInv(s) && Shape(s') && i < |s.pc| == |s'.pc|
    requires s'.rounds == s.rounds && Raised(s) == Raised(s')
    requires forall j :: 0 <= j < |s.pc| && j != i ==> s'.pc[j] == s.pc[j] && s'.activate[j] == s.activate[j]
    ensures TotalWork(s', |s.pc|) == TotalWork(s, |s.pc|) + ThreadWork(s', i) - ThreadWork(s, i)
  {
    WorkOfOne(s, s', i, |s.pc|);
  }

  lemma WorkTerminates(s: State, s': State, i: nat)
    requires Shape(s) && ThreadsInv(s) && WorkStep(s, s', i)
    ensures Shape(s') && Remaining(s') < Remaining(s)
  {
    hide TotalWork;
    WorkOwing(s, s', i);
    OthersWork(s, s', i);
  }

  lemma CallerTerminates(s: State, s': State)
    requires Shape(s) && ThreadsInv(s) && CallerStep(s, s')
    ensures Shape(s') && Remaining(s') < Remaining(s)
  {
    forall j | 0 < j < |s.pc|
      ensures ThreadWork(s, j) == ThreadWork(s', j)
    {
      assert s.caller == Counting ==> s.pc[j] == Spinning;
    }
    WorkOfOne(s, s', 0, |s.pc|);
  }

  /** Every step of a call brings it nearer to its end; with `SomeoneCanMove`, a call that is not
      starved of steps returns. */
  lemma CallsTerminate(s: State, s': State)
    requires Inv(s) && RoundStep(s, s')
    ensures Shape(s') && Remaining(s') < Remaining(s)
  {
    if i :| WorkStep(s, s', i) {
      WorkTerminates(s, s', i);
    } else if i :| WakeStep(s, s', i) {
      OthersWork(s, s', i);
    } else {
      CallerTerminates(s, s');
    }
  }
}
