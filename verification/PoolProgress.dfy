/**
 Progress of the pool. Every internal step lowers a measure, so a run without new stimuli is finite; and a state in
 which no thread can move is one where the work is done. Together: no deadlock, no lost wakeup and no lost completion
 signal.
 */
module PoolProgress {
  import opened Sums
  import opened PoolModel
  import opened PoolSafety

  // ----- the measure

  /** Steps a worker can take before it needs a new task or sleeps, weighted so that waking others is paid for. */
  function WorkerWeight(w: Worker): nat {
    match w
    case Asleep => 0
    case Exited => 0
    case Block => 1
    case Decide => 1
    case Evaluate => 2
    case Acquire => 3
    case Release => 4
    case Notify => 8
    case Signal => 9
    case Reread => 10
    case Returned => 11
    case Running(_) => 12
    case Popped(_) => 13
  }

  const TASK_WEIGHT := 13

  function CallWeight(c: Call): nat {
    match c.at
    case Accepted => 0
    case Rejected => 0
    case NotifyOne => 4
    case Unlock => 5
    case CountUp => 6
    case Emplace => 20
    case Lock => 21
    case CheckStop => 22
  }

  function WaiterWeight(w: Waiter): nat {
    match w
    case Idle => 0
    case Sleeping => 0
    case Leaving => 1
    case Blocking => 1
    case Reading => 2
    case Locking => 3
  }

  function DestructorWeight(d: Destructor, n: nat): nat {
    match d
    case Destroyed => 0
    case Join(i) => if i <= n then n - i + 1 else 1
    case NotifyAll => 4 * n + 2
    case UnlockMtx => 4 * n + 3
    case StoreStop => 4 * n + 4
    case LockMtx => 4 * n + 5
    case Live => 4 * n + 6
  }

  function Measure(s: State): nat {
    Sum(s.workers, WorkerWeight) + Sum(s.calls, CallWeight) + TASK_WEIGHT * |s.queue|
    + WaiterWeight(s.waiter) + DestructorWeight(s.dtor, |s.workers|) + (if s.aborted then 0 else 1)
  }

  lemma WorkerPays(v: Variant, s: State, w: nat, pick: nat, throws: bool)
    requires !s.aborted && WorkerCan(v, s, w, pick)
    requires s.workers[w].Decide? ==> s.queue != [] || s.stop
    ensures var s' := WorkerStep(v, s, w, pick, throws);
            var o, x := s.workers[w], s'.workers[w];
            && WorkerWeight(x) + TASK_WEIGHT * |s'.queue| + WaiterWeight(s'.waiter) + (if s'.aborted then 0 else 1)
               < WorkerWeight(o) + TASK_WEIGHT * |s.queue| + WaiterWeight(s.waiter) + 1
  {
  }

  lemma CallPays(v: Variant, s: State, c: nat, sleeper: nat)
    requires CallCan(s, c, sleeper)
    ensures var s' := CallStep(v, s, c, sleeper);
            && s'.calls == s.calls[c := s'.calls[c]]
            && s'.waiter == s.waiter && s'.dtor == s.dtor && s'.aborted == s.aborted
            && if s'.workers == s.workers
               then CallWeight(s'.calls[c]) + TASK_WEIGHT * |s'.queue| <
                     CallWeight(s.calls[c]) + TASK_WEIGHT * |s.queue|
               else
                 && sleeper < |s.workers| && s.workers[sleeper].Asleep? && s'.workers == s.workers[sleeper := Acquire]
                 && CallWeight(s'.calls[c]) + 4 == CallWeight(s.calls[c]) && s'.queue == s.queue
  {
  }

  lemma WorkDescends(v: Variant, s: State, w: nat, pick: nat, throws: bool)
    requires Points(s) && !s.aborted && WorkerCan(v, s, w, pick)
    ensures Measure(WorkerStep(v, s, w, pick, throws)) < Measure(s)
  {
    WorkerPays(v, s, w, pick, throws);
    SumUpdate(s.workers, w, WorkerStep(v, s, w, pick, throws).workers[w], WorkerWeight);
  }

  lemma SubmitDescends(v: Variant, s: State, c: nat, sleeper: nat)
    requires CallCan(s, c, sleeper)
    ensures Measure(CallStep(v, s, c, sleeper)) < Measure(s)
  {
    var s' := CallStep(v, s, c, sleeper);
    CallPays(v, s, c, sleeper);
    SumUpdate(s.calls, c, s'.calls[c], CallWeight);
    if s'.workers != s.workers {
      SumUpdate(s.workers, sleeper, Acquire, WorkerWeight);
    }
  }

  lemma DestructDescends(s: State)
    requires Points(s) && DestructorCan(s)
    ensures Measure(DestructorStep(s)) < Measure(s)
  {
    SumCompare(s.workers, WakeAll(s.workers), WorkerWeight, 3);
  }

  /** Every step the pool takes by itself lowers the measure. */
  lemma InternalStepDescends(v: Variant, s: State, a: Action)
    requires Points(s) && Enabled(v, s, a) && Internal(a)
    ensures Measure(Step(v, s, a)) < Measure(s)
  {
    match a
    case Work(w, pick, throws) => WorkDescends(v, s, w, pick, throws);
    case Submit(c, sleeper) => SubmitDescends(v, s, c, sleeper);
    case Await =>
    case Destruct => DestructDescends(s);
  }

  /** A run of internal steps is no longer than the measure of the state it starts in. */
  lemma {:induction false} InternalRunIsFinite(v: Variant, s: State, run: seq<Action>)
    requires Inv(v, s) && IsRun(v, s, run) && forall a :: a in run ==> Internal(a)
    ensures |run| + Measure(Outcome(v, s, run)) <= Measure(s)
    decreases |run|
  {
    if run != [] {
      StepKeepsInv(v, s, run[0]);
      InternalStepDescends(v, s, run[0]);
      InternalRunIsFinite(v, Step(v, s, run[0]), run[1..]);
    }
  }

  // ----- quiescent states

  /** No thread can take a step by itself. */
  ghost predicate Quiescent(v: Variant, s: State) {
    forall a :: Internal(a) ==> !Enabled(v, s, a)
  }

  /** Some element of a nonempty queue is one the queue yields. */
  lemma {:induction false} SomethingYields(v: Variant, s: State, n: nat) returns (i: nat)
    requires 0 < n <= |s.queue|
    ensures i < n && forall j :: 0 <= j < n ==> PriorityOf(s, s.queue[j]) <= PriorityOf(s, s.queue[i])
  {
    if n == 1 {
      i := 0;
    } else {
      i := SomethingYields(v, s, n - 1);
      if PriorityOf(s, s.queue[i]) < PriorityOf(s, s.queue[n - 1]) {
        i := n - 1;
      }
    }
  }

  /** A worker that is not asleep, gone or in want of a lock can move. */
  lemma WorkerMayMove(v: Variant, s: State, w: nat) returns (a: Action)
    requires !s.aborted && w < |s.workers| && !s.workers[w].Asleep? && !s.workers[w].Exited?
    requires s.workers[w].Acquire? ==> s.mtx == Free
    requires s.workers[w].Signal? ==> s.endMtx == Free
    ensures Internal(a) && Enabled(v, s, a)
  {
    var pick: nat := 0;
    if s.workers[w].Decide? && s.queue != [] && v.byPriority {
      pick := SomethingYields(v, s, |s.queue|);
    }
    a := Work(w, pick, false);
  }

  lemma CallMayMove(v: Variant, s: State, c: nat) returns (a: Action)
    requires !s.aborted && c < |s.calls| && !s.calls[c].at.Accepted? && !s.calls[c].at.Rejected?
    requires s.calls[c].at.Lock? ==> s.mtx == Free
    ensures Internal(a) && Enabled(v, s, a)
  {
    var sleeper: nat := 0;
    if Sum(s.workers, AsleepOnCv) > 0 {
      SumPositive(s.workers, AsleepOnCv);
      sleeper :| sleeper < |s.workers| && AsleepOnCv(s.workers[sleeper]) > 0;
    }
    a := Submit(c, sleeper);
  }

  /** Whoever holds a mutex can move: no thread ever waits for anything while holding one. */
  lemma HolderMayMove(v: Variant, s: State) returns (a: Action)
    requires !s.aborted && MtxOwned(s) && EndOwned(s) && (s.mtx != Free || s.endMtx != Free)
    ensures Internal(a) && Enabled(v, s, a)
  {
    if s.endMtx.ByWorker? {
      a := WorkerMayMove(v, s, s.endMtx.worker);
    } else if s.endMtx != Free {
      a := Await;
    } else if s.mtx.ByWorker? {
      a := WorkerMayMove(v, s, s.mtx.worker);
    } else if s.mtx.ByCall? {
      a := CallMayMove(v, s, s.mtx.call);
    } else {
      a := Destruct;
    }
  }

  /** Where the threads of a quiescent pool are. */
  lemma QuiescentPoints(v: Variant, s: State)
    requires !s.aborted && Inv(v, s) && Quiescent(v, s)
    ensures s.mtx == Free && s.endMtx == Free
    ensures forall w :: 0 <= w < |s.workers| ==> s.workers[w].Asleep? || s.workers[w].Exited?
    ensures forall c :: 0 <= c < |s.calls| ==> s.calls[c].at.Accepted? || s.calls[c].at.Rejected?
    ensures s.waiter.Idle? || s.waiter.Sleeping?
    ensures s.dtor.Live? || s.dtor.Destroyed?
  {
    if s.mtx != Free || s.endMtx != Free {
      var a := HolderMayMove(v, s);
      assert false;
    }
    forall w | 0 <= w < |s.workers| ensures s.workers[w].Asleep? || s.workers[w].Exited? {
      if !s.workers[w].Asleep? && !s.workers[w].Exited? {
        var a := WorkerMayMove(v, s, w);
        assert false;
      }
    }
    forall c | 0 <= c < |s.calls| ensures s.calls[c].at.Accepted? || s.calls[c].at.Rejected? {
      if !s.calls[c].at.Accepted? && !s.calls[c].at.Rejected? {
        var a := CallMayMove(v, s, c);
        assert false;
      }
    }
    assert !Enabled(v, s, Await) && !Enabled(v, s, Destruct);
  }

  /** From every state the pool reaches quiescence by itself. */
  lemma {:induction false} QuiescenceReachable(v: Variant, s: State) returns (run: seq<Action>)
    requires Inv(v, s)
    ensures IsRun(v, s, run) && (forall a :: a in run ==> Internal(a))
    ensures Quiescent(v, Outcome(v, s, run))
    decreases Measure(s)
  {
    if Quiescent(v, s) {
      run := [];
    } else {
      var a :| Internal(a) && Enabled(v, s, a);
      StepKeepsInv(v, s, a);
      InternalStepDescends(v, s, a);
      var rest := QuiescenceReachable(v, Step(v, s, a));
      run := [a] + rest;
    }
  }
}
