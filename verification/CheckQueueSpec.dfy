/**
 The parallel check queue as a state machine. Each critical section of the source is one step;
 one master and any number of workers take steps in any order, and a sleeping thread may also
 wake for no reason. A check is represented by the result it gives.
 */
module CheckQueueSpec {
  import opened Basics
  import opened Powers

  /** What the mutex protects. */
  datatype Shared = Shared(queue: seq<bool>, nIdle: int, nTotal: int, fAllOk: bool, nTodo: int)

  /** How a critical section ends: with a result, asleep, or with a batch to work on. */
  datatype Outcome = Return(result: bool) | Sleep | Work(batch: seq<bool>, ok: bool)


  /** The batch grows smaller as the queue empties; it is never empty and never more than is queued. */
  function BatchSize(nBatchSize: nat, sh: Shared): int
    requires sh.nTotal >= 0 && sh.nIdle >= 0
  {
    Max(1, Min(nBatchSize, |sh.queue| / (sh.nTotal + sh.nIdle + 1)))
  }

  lemma BatchFits(nBatchSize: nat, sh: Shared)
    requires sh.nTotal >= 0 && sh.nIdle >= 0 && sh.queue != []
    ensures 1 <= BatchSize(nBatchSize, sh) <= |sh.queue|
    ensures BatchSize(nBatchSize, sh) <= Max(1, nBatchSize)
  {
  }

  /** A thread takes its share of the queue, rounded down, if that is at least one and no more than the limit. */
  lemma BatchShare(nBatchSize: nat, sh: Shared, share: nat)
    requires sh.nTotal >= 0 && sh.nIdle >= 0 && nBatchSize > 0
    requires share * (sh.nTotal + sh.nIdle + 1) <= |sh.queue| < (share + 1) * (sh.nTotal + sh.nIdle + 1)
    ensures BatchSize(nBatchSize, sh) == if share < 1 then 1 else if share > nBatchSize then nBatchSize else share
  {
    var d := sh.nTotal + sh.nIdle + 1;
    assert (share + 1) * d == share * d + d;
    DivUnique(|sh.queue|, d, share, |sh.queue| - share * d);
  }

  /** The last n checks, last first. */
  function LastOf(queue: seq<bool>, n: nat): seq<bool>
    requires n <= |queue|
  {
    seq(n, i requires 0 <= i < n => queue[|queue| - 1 - i])
  }

  /** The part of a critical section from the queue test on. Nothing ever sets the quit flag. */
  function Decide(nBatchSize: nat, sh: Shared, master: bool): (Shared, Outcome)
    requires sh.nTotal >= 0 && sh.nIdle >= 0
  {
    if sh.queue == [] then
      if master && sh.nTodo == 0 then (sh.(nTotal := sh.nTotal - 1, fAllOk := true), Return(sh.fAllOk))
      else (sh.(nIdle := sh.nIdle + 1), Sleep)
    else
      BatchFits(nBatchSize, sh);
      var n := BatchSize(nBatchSize, sh);
      (sh.(queue := sh.queue[..|sh.queue| - n]), Work(LastOf(sh.queue, n), sh.fAllOk))
  }

  /** Working off a batch: once something failed the rest is skipped. */
  function Execute(ok: bool, batch: seq<bool>): bool {
    ok && false !in batch
  }

  function Account(sh: Shared, batch: seq<bool>, ok: bool): Shared {
    sh.(fAllOk := sh.fAllOk && ok, nTodo := sh.nTodo - |batch|)
  }

  // ----- Threads and steps -----

  /** A thread is Holding only inside a critical section, between steps it is one of the others. */
  datatype Thread = Outside | Waiting(notified: bool) | Running(batch: seq<bool>, ok: bool) | Holding

  /** Thread 0 is the master. */
  datatype State = State(shared: Shared, threads: seq<Thread>)

  datatype Step =
    | Add(checks: seq<bool>, who: nat)
    | Enter(i: nat)
    | Wake(i: nat)
    | Finish(i: nat)

  datatype Event = Added(checks: seq<bool>) | Returned(result: bool)

  function Init(workers: nat): State {
    State(Shared([], 0, 0, true, 0), seq(workers + 1, i => Outside))
  }

  /** A single notification goes to a sleeping worker if there is one. */
  predicate MayNotify(threads: seq<Thread>, who: nat) {
    if who == 0 then forall i :: 0 < i < |threads| ==> threads[i] != Waiting(false)
    else who < |threads| && threads[who] == Waiting(false)
  }

  predicate Enabled(s: State, step: Step) {
    && s.threads != []
    && match step
       case Add(checks, who) => s.threads[0] == Outside && (|checks| == 1 ==> MayNotify(s.threads, who))
       case Enter(i) => i < |s.threads| && s.threads[i] == Outside
       case Wake(i) => i < |s.threads| && s.threads[i].Waiting?
       case Finish(i) => i < |s.threads| && s.threads[i].Running?
  }

  function NotifyOne(threads: seq<Thread>, who: nat): seq<Thread>
    requires who < |threads|
  {
    if threads[who].Waiting? then threads[who := Waiting(true)] else threads
  }

  function NotifyWorkers(threads: seq<Thread>): seq<Thread> {
    seq(|threads|, i requires 0 <= i < |threads| =>
      if i > 0 && threads[i].Waiting? then Waiting(true) else threads[i])
  }

  /** Where a thread stands after a critical section. */
  function Next(o: Outcome): Thread {
    match o
    case Return(_) => Outside
    case Sleep => Waiting(false)
    case Work(batch, ok) => Running(batch, ok)
  }

  function Settle(nBatchSize: nat, sh: Shared, threads: seq<Thread>, i: nat): (State, seq<Event>)
    requires i < |threads| && sh.nTotal >= 0 && sh.nIdle >= 0
  {
    var (sh', o) := Decide(nBatchSize, sh, i == 0);
    (State(sh', threads[i := Next(o)]), if o.Return? then [Returned(o.result)] else [])
  }

  function AddChecks(s: State, checks: seq<bool>, who: nat): State
    requires s.threads != [] && (|checks| == 1 ==> MayNotify(s.threads, who))
  {
    State(s.shared.(queue := s.shared.queue + checks, nTodo := s.shared.nTodo + |checks|),
          if |checks| == 1 then if who == 0 then s.threads else NotifyOne(s.threads, who)
          else if |checks| > 1 then NotifyWorkers(s.threads)
          else s.threads)
  }

  /** The shared state and the threads when the queue test is reached. */
  function Arrive(s: State, step: Step): State
    requires Enabled(s, step) && !step.Add?
  {
    match step
    case Enter(i) => State(s.shared.(nTotal := s.shared.nTotal + 1), s.threads[i := Holding])
    case Wake(i) => State(s.shared.(nIdle := s.shared.nIdle - 1), s.threads[i := Holding])
    case Finish(i) =>
      var Running(batch, ok) := s.threads[i];
      var sh := Account(s.shared, batch, Execute(ok, batch));
      State(sh, (if sh.nTodo == 0 && i != 0 then NotifyOne(s.threads, 0) else s.threads)[i := Holding])
  }

  function Apply(nBatchSize: nat, s: State, step: Step): (State, seq<Event>)
    requires Enabled(s, step)
    requires !step.Add? ==> Arrive(s, step).shared.nTotal >= 0 && Arrive(s, step).shared.nIdle >= 0
  {
    match step
    case Add(checks, who) => (AddChecks(s, checks, who), [Added(checks)])
    case _ => var a := Arrive(s, step); Settle(nBatchSize, a.shared, a.threads, step.i)
  }

  // ----- Counting threads -----

  datatype Measure = Inside | Idle | Load | Away | Notified

  function Weight(m: Measure, t: Thread): nat {
    match m
    case Inside => if t.Outside? then 0 else 1
    case Idle => if t.Waiting? then 1 else 0
    case Load => if t.Running? then |t.batch| else 0
    case Away => if t.Outside? then 1 else 0
    case Notified => if t == Waiting(true) then 1 else 0
  }

  function Total(m: Measure, threads: seq<Thread>): nat {
    if threads == [] then 0 else Total(m, threads[..|threads| - 1]) + Weight(m, threads[|threads| - 1])
  }

  lemma {:induction false} TotalUpdate(m: Measure, threads: seq<Thread>, i: nat, t: Thread)
    requires i < |threads|
    ensures Total(m, threads[i := t]) == Total(m, threads) - Weight(m, threads[i]) + Weight(m, t)
    ensures Weight(m, threads[i]) <= Total(m, threads)
    decreases |threads|
  {
    var n := |threads| - 1;
    if i < n {
      TotalUpdate(m, threads[..n], i, t);
      assert threads[i := t][..n] == threads[..n][i := t];
    } else {
      assert threads[i := t][..n] == threads[..n];
    }
  }

  /** Changes that do not change a thread's weight do not change the total. */
  lemma {:induction false} TotalSame(m: Measure, threads: seq<Thread>, threads': seq<Thread>)
    requires |threads| == |threads'|
    requires forall i :: 0 <= i < |threads| ==> Weight(m, threads[i]) == Weight(m, threads'[i])
    ensures Total(m, threads) == Total(m, threads')
    decreases |threads|
  {
    if threads != [] { TotalSame(m, threads[..|threads| - 1], threads'[..|threads| - 1]); }
  }

  lemma {:induction false} TotalPositive(m: Measure, threads: seq<Thread>) returns (i: nat)
    requires Total(m, threads) > 0
    ensures i < |threads| && Weight(m, threads[i]) > 0
    decreases |threads|
  {
    var n := |threads| - 1;
    if Weight(m, threads[n]) > 0 {
      i := n;
    } else {
      i := TotalPositive(m, threads[..n]);
    }
  }

  lemma {:induction false} TotalZero(m: Measure, n: nat)
    requires m != Away
    ensures Total(m, seq(n, i => Outside)) == 0
  {
    if n > 0 {
      TotalZero(m, n - 1);
      assert seq(n, i => Outside)[..n - 1] == seq(n - 1, i => Outside);
    }
  }

  // ----- The invariant -----

  predicate ThreadOk(s: State, i: nat)
    requires i < |s.threads|
  {
    s.threads[i].Running? ==> s.threads[i].batch != [] && (s.threads[i].ok || !s.shared.fAllOk)
  }

  predicate Passes(t: Thread) {
    t.Running? ==> false !in t.batch
  }

  predicate PassesAt(threads: seq<Thread>, i: nat)
    requires i < |threads|
  {
    Passes(threads[i])
  }

  /** Nothing that is known, queued or being worked on fails. */
  ghost predicate AllPass(s: State) {
    && s.shared.fAllOk && false !in s.shared.queue
    && forall i: nat {:trigger PassesAt(s.threads, i)} :: i < |s.threads| ==> PassesAt(s.threads, i)
  }

  predicate Counted(s: State) {
    && s.shared.nTodo == |s.shared.queue| + Total(Load, s.threads)
    && s.shared.nTotal == Total(Inside, s.threads)
    && s.shared.nIdle == Total(Idle, s.threads)
  }

  /** A sleeping master left nothing queued, and it has been woken exactly when nothing is left to do. */
  predicate MasterOk(s: State)
    requires s.threads != []
  {
    s.threads[0].Waiting? ==> s.shared.queue == [] && (s.threads[0].notified <==> s.shared.nTodo == 0)
  }

  /** pending: the checks added since the last result was returned. */
  ghost predicate Inv(s: State, pending: seq<bool>) {
    && s.threads != []
    && Counted(s)
    && MasterOk(s)
    && (forall i: nat {:trigger ThreadOk(s, i)} :: i < |s.threads| ==> ThreadOk(s, i))
    && (AllPass(s) <==> false !in pending)
  }

  /** What threads may become without any effect on counts and results. */
  lemma InvThreads(s: State, threads: seq<Thread>, pending: seq<bool>)
    requires Inv(s, pending) && |threads| == |s.threads| && threads[0] == s.threads[0]
    requires forall i: nat :: 0 < i < |threads| ==>
      threads[i] == s.threads[i] || (s.threads[i].Waiting? && threads[i].Waiting?)
    ensures Inv(s.(threads := threads), pending)
  {
    var s' := s.(threads := threads);
    TotalSame(Load, s.threads, threads);
    TotalSame(Inside, s.threads, threads);
    TotalSame(Idle, s.threads, threads);
    forall i: nat | i < |threads| ensures ThreadOk(s', i) && (PassesAt(threads, i) <==> PassesAt(s.threads, i)) {
      assert ThreadOk(s, i);
    }
  }

  lemma AddKeeps(s: State, checks: seq<bool>, who: nat, pending: seq<bool>)
    requires Inv(s, pending) && Enabled(s, Add(checks, who))
    ensures Inv(AddChecks(s, checks, who), pending + checks)
  {
    var s1 := s.(shared := s.shared.(queue := s.shared.queue + checks, nTodo := s.shared.nTodo + |checks|));
    forall i: nat | i < |s.threads| ensures ThreadOk(s1, i) { assert ThreadOk(s, i); }
    assert s1.threads == s.threads;
    assert AllPass(s1) <==> AllPass(s) && false !in checks;
    assert Inv(s1, pending + checks);
    InvThreads(s1, AddChecks(s, checks, who).threads, pending + checks);
  }

  /** Replacing one thread, given what that does to the counts. */
  lemma Replace(s: State, i: nat, t: Thread, sh: Shared)
    requires i < |s.threads| && Counted(s)
    ensures var s' := State(sh, s.threads[i := t]);
      Counted(s') <==>
        && sh.nTodo - |sh.queue| == s.shared.nTodo - |s.shared.queue| - Weight(Load, s.threads[i]) + Weight(Load, t)
        && sh.nTotal == s.shared.nTotal - Weight(Inside, s.threads[i]) + Weight(Inside, t)
        && sh.nIdle == s.shared.nIdle - Weight(Idle, s.threads[i]) + Weight(Idle, t)
  {
    TotalUpdate(Load, s.threads, i, t);
    TotalUpdate(Inside, s.threads, i, t);
    TotalUpdate(Idle, s.threads, i, t);
  }

  /** The results still to come, but for those of one thread. */
  ghost predicate OthersPass(threads: seq<Thread>, i: nat) {
    forall j: nat {:trigger PassesAt(threads, j)} :: j < |threads| && j != i ==> PassesAt(threads, j)
  }

  lemma OthersSame(threads: seq<Thread>, i: nat, t: Thread)
    requires i < |threads|
    ensures OthersPass(threads[i := t], i) <==> OthersPass(threads, i)
    ensures (forall j: nat {:trigger PassesAt(threads, j)} :: j < |threads| ==> PassesAt(threads, j))
      <==> OthersPass(threads, i) && Passes(threads[i])
  {
    var threads' := threads[i := t];
    assert forall j: nat {:trigger PassesAt(threads, j)} :: j < |threads| && j != i ==>
      PassesAt(threads, j) == PassesAt(threads', j);
    assert forall j: nat {:trigger PassesAt(threads', j)} :: j < |threads| && j != i ==>
      PassesAt(threads, j) == PassesAt(threads', j);
    assert PassesAt(threads, i) <==> Passes(threads[i]);
  }

  /** AllPass, seen from thread i. */
  lemma PassSplit(s: State, i: nat, t: Thread, sh: Shared)
    requires i < |s.threads|
    ensures AllPass(s) <==>
      s.shared.fAllOk && false !in s.shared.queue && OthersPass(s.threads, i) && Passes(s.threads[i])
    ensures AllPass(State(sh, s.threads[i := t])) <==>
      sh.fAllOk && false !in sh.queue && OthersPass(s.threads, i) && Passes(t)
  {
    var threads' := s.threads[i := t];
    OthersSame(s.threads, i, t);
    OthersSame(threads', i, t);
    assert threads'[i := t] == threads';
  }

  lemma ThreadsOk(s: State, i: nat, t: Thread, sh: Shared)
    requires i < |s.threads| && forall j: nat {:trigger ThreadOk(s, j)} :: j < |s.threads| ==> ThreadOk(s, j)
    requires sh.fAllOk ==> s.shared.fAllOk || Total(Load, s.threads) == 0
    requires t.Running? ==> t.batch != [] && (t.ok || !sh.fAllOk)
    ensures var s' := State(sh, s.threads[i := t]);
      forall j: nat {:trigger ThreadOk(s', j)} :: j < |s.threads| ==> ThreadOk(s', j)
  {
    var s' := State(sh, s.threads[i := t]);
    forall j: nat | j < |s.threads| ensures ThreadOk(s', j) {
      assert ThreadOk(s, j);
      TotalUpdate(Load, s.threads, j, t);
    }
  }

  // ----- Every step keeps the invariant -----

  lemma EnterArrives(s: State, i: nat, pending: seq<bool>)
    requires Inv(s, pending) && Enabled(s, Enter(i))
    ensures Inv(Arrive(s, Enter(i)), pending)
  {
    var sh := s.shared.(nTotal := s.shared.nTotal + 1);
    Replace(s, i, Holding, sh);
    PassSplit(s, i, Holding, sh);
    ThreadsOk(s, i, Holding, sh);
  }

  lemma WakeArrives(s: State, i: nat, pending: seq<bool>)
    requires Inv(s, pending) && Enabled(s, Wake(i))
    ensures Inv(Arrive(s, Wake(i)), pending)
  {
    var sh := s.shared.(nIdle := s.shared.nIdle - 1);
    Replace(s, i, Holding, sh);
    PassSplit(s, i, Holding, sh);
    ThreadsOk(s, i, Holding, sh);
  }

  /** The account of a finished batch, before anyone is notified. */
  lemma FinishCounts(s: State, i: nat, pending: seq<bool>)
    requires Inv(s, pending) && Enabled(s, Finish(i))
    ensures var t := s.threads[i];
      var s1 := State(Account(s.shared, t.batch, Execute(t.ok, t.batch)), s.threads[i := Holding]);
      && Counted(s1)
      && (AllPass(s1) <==> false !in pending)
      && forall j: nat {:trigger ThreadOk(s1, j)} :: j < |s1.threads| ==> ThreadOk(s1, j)
  {
    var t := s.threads[i];
    var sh := Account(s.shared, t.batch, Execute(t.ok, t.batch));
    assert ThreadOk(s, i);
    Replace(s, i, Holding, sh);
    PassSplit(s, i, Holding, sh);
    ThreadsOk(s, i, Holding, sh);
  }

  lemma FinishArrives(s: State, i: nat, pending: seq<bool>)
    requires Inv(s, pending) && Enabled(s, Finish(i))
    ensures Inv(Arrive(s, Finish(i)), pending)
  {
    var t := s.threads[i];
    var s1 := State(Account(s.shared, t.batch, Execute(t.ok, t.batch)), s.threads[i := Holding]);
    FinishCounts(s, i, pending);
    assert ThreadOk(s, i);
    TotalUpdate(Load, s.threads, i, Holding);
    if s1.shared.nTodo == 0 && i != 0 && s.threads[0].Waiting? {
      var t0 := Waiting(true);
      Replace(s1, 0, t0, s1.shared);
      PassSplit(s1, 0, t0, s1.shared);
      ThreadsOk(s1, 0, t0, s1.shared);
      assert s1.threads[0 := t0] == s.threads[0 := t0][i := Holding];
    }
  }

  lemma SettleReturns(nBatchSize: nat, s: State, pending: seq<bool>)
    requires Inv(s, pending) && s.threads[0] == Holding && s.shared.queue == [] && s.shared.nTodo == 0
    ensures var (s', events) := Settle(nBatchSize, s.shared, s.threads, 0);
      Inv(s', []) && events == [Returned(false !in pending)]
  {
    var (s', events) := Settle(nBatchSize, s.shared, s.threads, 0);
    Replace(s, 0, Outside, s'.shared);
    PassSplit(s, 0, Outside, s'.shared);
    ThreadsOk(s, 0, Outside, s'.shared);
    forall j: nat | j < |s.threads| ensures PassesAt(s.threads, j) {
      assert ThreadOk(s, j);
      TotalUpdate(Load, s.threads, j, Outside);
    }
  }

  lemma SettleSleeps(nBatchSize: nat, s: State, i: nat, pending: seq<bool>)
    requires Inv(s, pending) && i < |s.threads| && s.threads[i] == Holding
    requires s.shared.queue == [] && !(i == 0 && s.shared.nTodo == 0)
    ensures var (s', events) := Settle(nBatchSize, s.shared, s.threads, i);
      Inv(s', pending) && events == []
  {
    var (s', events) := Settle(nBatchSize, s.shared, s.threads, i);
    Replace(s, i, Waiting(false), s'.shared);
    PassSplit(s, i, Waiting(false), s'.shared);
    ThreadsOk(s, i, Waiting(false), s'.shared);
  }

  /** A batch and the rest of the queue fail exactly when the queue does. */
  lemma BatchSplits(queue: seq<bool>, n: nat)
    requires n <= |queue|
    ensures false in queue <==> false in queue[..|queue| - n] || false in LastOf(queue, n)
  {
    var rest, batch := queue[..|queue| - n], LastOf(queue, n);
    if false in queue {
      var k :| 0 <= k < |queue| && !queue[k];
      if k < |queue| - n { assert !rest[k]; } else { assert !batch[|queue| - 1 - k]; }
    }
  }

  lemma SettleWorks(nBatchSize: nat, s: State, i: nat, pending: seq<bool>)
    requires Inv(s, pending) && i < |s.threads| && s.threads[i] == Holding && s.shared.queue != []
    ensures var (s', events) := Settle(nBatchSize, s.shared, s.threads, i);
      Inv(s', pending) && events == []
  {
    var (s', events) := Settle(nBatchSize, s.shared, s.threads, i);
    var t := s'.threads[i];
    BatchFits(nBatchSize, s.shared);
    BatchSplits(s.shared.queue, BatchSize(nBatchSize, s.shared));
    Replace(s, i, t, s'.shared);
    PassSplit(s, i, t, s'.shared);
    ThreadsOk(s, i, t, s'.shared);
  }

  // ----- Runs -----

  /** The checks added since the last result. */
  function Since(trace: seq<Event>): seq<bool> {
    if trace == [] then []
    else match trace[|trace| - 1]
      case Added(checks) => Since(trace[..|trace| - 1]) + checks
      case Returned(_) => []
  }

  /** Every result says whether all checks added since the result before it are true. */
  predicate Honest(trace: seq<Event>) {
    trace == [] ||
    var past := trace[..|trace| - 1];
    Honest(past) && (trace[|trace| - 1].Returned? ==> trace[|trace| - 1].result == (false !in Since(past)))
  }

  /** After its invariant holds, an enabled step can be taken. */
  lemma Arrives(s: State, step: Step, pending: seq<bool>)
    requires Inv(s, pending) && Enabled(s, step) && !step.Add?
    ensures Inv(Arrive(s, step), pending) && step.i < |Arrive(s, step).threads| &&
      Arrive(s, step).threads[step.i] == Holding
    ensures Arrive(s, step).shared.nTotal >= 0 && Arrive(s, step).shared.nIdle >= 0
  {
    match step
    case Enter(i) => EnterArrives(s, i, pending);
    case Wake(i) => WakeArrives(s, i, pending);
    case Finish(i) => FinishArrives(s, i, pending);
  }

  lemma StepKeeps(nBatchSize: nat, s: State, step: Step, trace: seq<Event>)
    requires Inv(s, Since(trace)) && Honest(trace) && Enabled(s, step)
    ensures !step.Add? ==> Arrive(s, step).shared.nTotal >= 0 && Arrive(s, step).shared.nIdle >= 0
    ensures var (s', events) := Apply(nBatchSize, s, step);
      Inv(s', Since(trace + events)) && Honest(trace + events)
  {
    var pending := Since(trace);
    if step.Add? {
      AddKeeps(s, step.checks, step.who, pending);
      assert (trace + [Added(step.checks)])[..|trace|] == trace;
    } else {
      Arrives(s, step, pending);
      var a := Arrive(s, step);
      if a.shared.queue != [] {
        SettleWorks(nBatchSize, a, step.i, pending);
        assert trace + [] == trace;
      } else if step.i == 0 && a.shared.nTodo == 0 {
        SettleReturns(nBatchSize, a, pending);
        assert (trace + [Returned(false !in pending)])[..|trace|] == trace;
      } else {
        SettleSleeps(nBatchSize, a, step.i, pending);
        assert trace + [] == trace;
      }
    }
  }

  /** s and trace can be reached from the start by enabled steps in any order. */
  ghost predicate Reached(nBatchSize: nat, workers: nat, steps: seq<Step>, s: State, trace: seq<Event>)
    decreases |steps|
  {
    if steps == [] then s == Init(workers) && trace == []
    else
      var n := |steps| - 1;
      exists s0, trace0 ::
        && Reached(nBatchSize, workers, steps[..n], s0, trace0)
        && Taken(nBatchSize, s0, steps[n], s, trace0, trace)
  }

  ghost predicate Taken(nBatchSize: nat, s0: State, step: Step, s: State, trace0: seq<Event>, trace: seq<Event>) {
    && Enabled(s0, step)
    && (!step.Add? ==> Arrive(s0, step).shared.nTotal >= 0 && Arrive(s0, step).shared.nIdle >= 0)
    && s == Apply(nBatchSize, s0, step).0 && trace == trace0 + Apply(nBatchSize, s0, step).1
  }

  /**
   In every interleaving the counts are exact (nTodo is what is queued plus what is being worked
   on), and every result the master ever gets is the conjunction of what it added since the last.
   */
  lemma {:induction false} EveryRun(nBatchSize: nat, workers: nat, steps: seq<Step>, s: State, trace: seq<Event>)
    requires Reached(nBatchSize, workers, steps, s, trace)
    ensures Inv(s, Since(trace)) && Honest(trace)
    decreases |steps|
  {
    if steps == [] {
      InitOk(workers);
    } else {
      var n := |steps| - 1;
      var s0, trace0 :|
        && Reached(nBatchSize, workers, steps[..n], s0, trace0)
        && Taken(nBatchSize, s0, steps[n], s, trace0, trace);
      EveryRun(nBatchSize, workers, steps[..n], s0, trace0);
      StepKeeps(nBatchSize, s0, steps[n], trace0);
    }
  }

  lemma InitOk(workers: nat)
    ensures Inv(Init(workers), [])
  {
    TotalZero(Load, workers + 1);
    TotalZero(Inside, workers + 1);
    TotalZero(Idle, workers + 1);
    var s := Init(workers);
    forall i: nat | i < |s.threads| ensures PassesAt(s.threads, i) {
    }
  }

  // ----- Waiting ends -----

  /** A step that is not an idle awakening. */
  predicate Proper(s: State, step: Step) {
    && Enabled(s, step) && !step.Add?
    && (step.Wake? ==> s.threads[step.i].notified)
  }

  function ToGo(s: State): int {
    2 * s.shared.nTodo + Total(Away, s.threads) + Total(Notified, s.threads)
  }

  /** While the master waits for its result, somebody can do something: no deadlock. */
  lemma SomeoneMoves(s: State, pending: seq<bool>) returns (step: Step)
    requires Inv(s, pending) && s.threads[0] != Outside && s.threads[0] != Holding
    ensures Proper(s, step)
    ensures s.threads[0] == Waiting(false) ==> step.Finish? && step.i != 0
  {
    match s.threads[0]
    case Running(_, _) => step := Finish(0);
    case Waiting(true) => step := Wake(0);
    case Waiting(false) =>
      var i := TotalPositive(Load, s.threads);
      step := Finish(i);
  }

  lemma MoveCounts(s: State, i: nat, t: Thread)
    requires i < |s.threads|
    ensures Total(Away, s.threads[i := t]) == Total(Away, s.threads) - Weight(Away, s.threads[i]) + Weight(Away, t)
    ensures Total(Notified, s.threads[i := t]) ==
      Total(Notified, s.threads) - Weight(Notified, s.threads[i]) + Weight(Notified, t)
  {
    TotalUpdate(Away, s.threads, i, t);
    TotalUpdate(Notified, s.threads, i, t);
  }

  lemma ArriveShrinks(s: State, step: Step, pending: seq<bool>)
    requires Inv(s, pending) && Proper(s, step)
    ensures ToGo(Arrive(s, step)) < ToGo(s)
  {
    MoveCounts(s, step.i, Holding);
    if step.Finish? {
      assert ThreadOk(s, step.i);
      if s.threads[0].Waiting? && step.i != 0 {
        MoveCounts(s, 0, Waiting(true));
        MoveCounts(s.(threads := s.threads[0 := Waiting(true)]), step.i, Holding);
      }
    }
  }

  /** Every such step brings the result nearer, whoever takes it. */
  lemma MoveShrinks(nBatchSize: nat, s: State, step: Step, pending: seq<bool>)
    requires Inv(s, pending) && Proper(s, step)
    ensures Arrive(s, step).shared.nTotal >= 0 && Arrive(s, step).shared.nIdle >= 0
    ensures var s' := Apply(nBatchSize, s, step).0;
      s'.threads[0] == Outside || ToGo(s') < ToGo(s)
  {
    Arrives(s, step, pending);
    ArriveShrinks(s, step, pending);
    var a := Arrive(s, step);
    MoveCounts(a, step.i, Next(Decide(nBatchSize, a.shared, step.i == 0).1));
  }

  /** A run of such steps during which the master stays in Wait. */
  ghost predicate WaitingRun(nBatchSize: nat, s: State, steps: seq<Step>)
    decreases |steps|
  {
    steps != [] ==>
      && Proper(s, steps[0])
      && Arrive(s, steps[0]).shared.nTotal >= 0 && Arrive(s, steps[0]).shared.nIdle >= 0
      && Apply(nBatchSize, s, steps[0]).0.threads[0] != Outside
      && WaitingRun(nBatchSize, Apply(nBatchSize, s, steps[0]).0, steps[1..])
  }

  /** Wait returns: however the threads are scheduled, the master cannot stay in it longer than this. */
  lemma {:induction false} WaitEnds(nBatchSize: nat, s: State, steps: seq<Step>, trace: seq<Event>)
    requires Inv(s, Since(trace)) && Honest(trace) && WaitingRun(nBatchSize, s, steps)
    ensures |steps| <= ToGo(s)
    decreases |steps|
  {
    if steps != [] {
      var (s', events) := Apply(nBatchSize, s, steps[0]);
      StepKeeps(nBatchSize, s, steps[0], trace);
      MoveShrinks(nBatchSize, s, steps[0], Since(trace));
      WaitEnds(nBatchSize, s', steps[1..], trace + events);
    }
  }
}
