/**
 The check queue's own code. A method here is a stretch that the source runs under the mutex,
 or the work between two such stretches; the state machine says what each does and how threads
 interleave them.
 */
module CheckQueue {
  import opened CheckQueueSpec

  class CheckQueue {
    var queue: seq<bool>
    var nIdle: int
    var nTotal: int
    var fAllOk: bool
    var nTodo: int
    const nBatchSize: nat

    function Abs(): Shared
      reads this
    {
      Shared(queue, nIdle, nTotal, fAllOk, nTodo)
    }

    constructor (nBatchSizeIn: nat)
      ensures nBatchSize == nBatchSizeIn && forall workers :: Abs() == Init(workers).shared
    {
      nBatchSize := nBatchSizeIn;
      queue, nIdle, nTotal, fAllOk, nTodo := [], 0, 0, true, 0;
    }

    /** Adds a batch of checks; the result says whether one or all workers are notified. */
    method Add(vChecks: seq<bool>) returns (notifyOne: bool, notifyAll: bool)
      modifies this
      ensures Abs() == old(Abs()).(queue := old(queue) + vChecks, nTodo := old(nTodo) + |vChecks|)
      ensures notifyOne == (|vChecks| == 1) && notifyAll == (|vChecks| > 1)
    {
      var i := 0;
      while i < |vChecks|
        invariant i <= |vChecks| && Abs() == old(Abs()).(queue := old(queue) + vChecks[..i])
      {
        queue := queue + [vChecks[i]];
        i := i + 1;
      }
      nTodo := nTodo + |vChecks|;
      notifyOne, notifyAll := |vChecks| == 1, |vChecks| > 1;
    }

    /** The first time a thread holds the mutex. */
    method Begin(fMaster: bool) returns (o: Outcome)
      requires nTotal >= 0 && nIdle >= 0
      modifies this
      ensures (Abs(), o) == Decide(nBatchSize, old(Abs()).(nTotal := old(nTotal) + 1), fMaster)
    {
      nTotal := nTotal + 1;
      o := Test(fMaster);
    }

    /** A thread that was asleep holds the mutex again. */
    method Resume(fMaster: bool) returns (o: Outcome)
      requires nTotal >= 0 && nIdle > 0
      modifies this
      ensures (Abs(), o) == Decide(nBatchSize, old(Abs()).(nIdle := old(nIdle) - 1), fMaster)
    {
      nIdle := nIdle - 1;
      o := Test(fMaster);
    }

    /** A thread that has worked off its batch accounts for it; a worker tells the master when nothing is left. */
    method Report(fMaster: bool, vChecks: seq<bool>, fOk: bool) returns (o: Outcome, notifyMaster: bool)
      requires nTotal >= 0 && nIdle >= 0
      modifies this
      ensures (Abs(), o) == Decide(nBatchSize, Account(old(Abs()), vChecks, fOk), fMaster)
      ensures notifyMaster == (old(nTodo) == |vChecks| && !fMaster)
    {
      fAllOk := fAllOk && fOk;
      nTodo := nTodo - |vChecks|;
      notifyMaster := nTodo == 0 && !fMaster;
      o := Test(fMaster);
    }

    method Test(fMaster: bool) returns (o: Outcome)
      requires nTotal >= 0 && nIdle >= 0
      modifies this
      ensures (Abs(), o) == Decide(nBatchSize, old(Abs()), fMaster)
    {
      if |queue| == 0 {
        if fMaster && nTodo == 0 {
          nTotal := nTotal - 1;
          var fRet := fAllOk;
          if fMaster {
            fAllOk := true;
          }
          return Return(fRet);
        }
        nIdle := nIdle + 1;
        return Sleep;
      }
      BatchFits(nBatchSize, Abs());
      var nNow := BatchSize(nBatchSize, Abs());
      var vChecks := TakeBatch(nNow);
      o := Work(vChecks, fAllOk);
    }

    /** Moves checks from the back of the queue into a batch. */
    method TakeBatch(nNow: nat) returns (vChecks: seq<bool>)
      requires nNow <= |queue|
      modifies this`queue
      ensures vChecks == LastOf(old(queue), nNow) && queue == old(queue)[..|old(queue)| - nNow]
    {
      vChecks := [];
      var i := 0;
      while i < nNow
        invariant i <= nNow && vChecks == LastOf(old(queue), i) && queue == old(queue)[..|old(queue)| - i]
      {
        vChecks := vChecks + [queue[|queue| - 1]];
        queue := queue[..|queue| - 1];
        i := i + 1;
      }
    }
  }

  /** The work between two critical sections: once a check fails the rest are skipped. */
  method RunBatch(vChecks: seq<bool>, fOk: bool) returns (ok: bool)
    ensures ok == Execute(fOk, vChecks)
  {
    ok := fOk;
    var i := 0;
    while i < |vChecks|
      invariant i <= |vChecks| && ok == (fOk && false !in vChecks[..i])
    {
      if ok {
        ok := vChecks[i];
      }
      i := i + 1;
    }
  }
}
