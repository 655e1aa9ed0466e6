/**
 What the pool promises, for every variant, every number of workers and every reachable state. The statements follow
 from the invariant (PoolSafety) and the measure (PoolProgress).
 */
module PoolTheorems {
  import opened Sums
  import opened PoolModel
  import opened PoolSafety
  import opened PoolProgress

  ghost predicate Reachable(v: Variant, n: nat, s: State) {
    exists run :: IsRun(v, Init(n), run) && Outcome(v, Init(n), run) == s
  }

  lemma ReachableInv(v: Variant, n: nat, s: State)
    requires Reachable(v, n, s)
    ensures Inv(v, s)
  {
    var run :| IsRun(v, Init(n), run) && Outcome(v, Init(n), run) == s;
    InitInv(v, n);
    RunKeepsInv(v, Init(n), run);
  }

  /** At most one thread holds a mutex, and no thread holds both. */
  lemma MutualExclusion(v: Variant, n: nat, s: State)
    requires Reachable(v, n, s)
    ensures forall w, x :: 0 <= w < x < |s.workers| ==> !(HoldsMtx(s.workers[w]) && HoldsMtx(s.workers[x]))
    ensures forall w, x :: 0 <= w < x < |s.workers| ==> !(HoldsEnd(s.workers[w]) && HoldsEnd(s.workers[x]))
    ensures forall w, c :: 0 <= w < |s.workers| && 0 <= c < |s.calls| ==>
              !(HoldsMtx(s.workers[w]) && CallHolds(s.calls[c].at))
    ensures forall c, d :: 0 <= c < d < |s.calls| ==> !(CallHolds(s.calls[c].at) && CallHolds(s.calls[d].at))
    ensures s.dtor.StoreStop? || s.dtor.UnlockMtx? ==>
              && (forall w :: 0 <= w < |s.workers| ==> !HoldsMtx(s.workers[w]))
              && (forall c :: 0 <= c < |s.calls| ==> !CallHolds(s.calls[c].at))
    ensures s.waiter.Reading? || s.waiter.Blocking? || s.waiter.Leaving? ==>
              forall w :: 0 <= w < |s.workers| ==> !HoldsEnd(s.workers[w])
    ensures s.mtx == s.endMtx ==> s.mtx == Free
  {
    ReachableInv(v, n, s);
  }

  /** No task waits beside a sleeping worker without a wakeup on its way. */
  lemma NoTaskBesideSleeper(v: Variant, n: nat, s: State, w: nat)
    requires Reachable(v, n, s) && w < |s.workers| && s.workers[w].Asleep?
    ensures |s.queue| <= Sum(s.calls, Unnotified) + Sum(s.workers, Heading)
  {
    ReachableInv(v, n, s);
    SumPositive(s.workers, AsleepOnCv);
    assert AsleepOnCv(s.workers[w]) > 0;
  }

  /** What the switches of a variant rule out, along every run. */
  ghost predicate Ruled(v: Variant, n: nat, s: State) {
    && |s.workers| == n
    && (v.atomicCheck ==> forall w :: 0 <= w < n ==> !s.workers[w].Reread?)
    && (v.absorbsExceptions ==> !s.aborted)
    && (forall c :: 0 <= c < |s.calls| && s.calls[c].at.Rejected? ==> v.rejectsAfterStop && s.stop)
  }

  lemma WorkKeepsRuled(v: Variant, n: nat, s: State, w: nat, pick: nat, throws: bool)
    requires Ruled(v, n, s) && WorkerCan(v, s, w, pick)
    ensures Ruled(v, n, WorkerStep(v, s, w, pick, throws))
  {
  }

  lemma SubmitKeepsRuled(v: Variant, n: nat, s: State, c: nat, sleeper: nat)
    requires Ruled(v, n, s) && CallCan(s, c, sleeper)
    ensures Ruled(v, n, CallStep(v, s, c, sleeper))
  {
  }

  lemma DestructKeepsRuled(v: Variant, n: nat, s: State)
    requires Ruled(v, n, s) && DestructorCan(s)
    ensures Ruled(v, n, DestructorStep(s))
  {
  }

  lemma StepKeepsRuled(v: Variant, n: nat, s: State, a: Action)
    requires Ruled(v, n, s) && Enabled(v, s, a)
    ensures Ruled(v, n, Step(v, s, a))
  {
    hide WorkerStep, CallStep, DestructorStep;
    match a
    case Work(w, pick, throws) => WorkKeepsRuled(v, n, s, w, pick, throws);
    case Submit(c, sleeper) => SubmitKeepsRuled(v, n, s, c, sleeper);
    case Destruct => DestructKeepsRuled(v, n, s);
    case _ =>
  }

  lemma {:induction false} RunKeepsRuled(v: Variant, n: nat, s: State, run: seq<Action>)
    requires Ruled(v, n, s) && IsRun(v, s, run)
    ensures Ruled(v, n, Outcome(v, s, run))
    decreases |run|
  {
    if run != [] {
      StepKeepsRuled(v, n, s, run[0]);
      RunKeepsRuled(v, n, Step(v, s, run[0]), run[1..]);
    }
  }

  /**
   The number of workers is constant; a fused decrement has no point between decrement and test; a pool that absorbs
   exceptions is never torn down by one; a call is rejected only by a pool that does so, and only after stop.
   */
  lemma ReachableRuled(v: Variant, n: nat, s: State)
    requires Reachable(v, n, s)
    ensures Ruled(v, n, s)
  {
    var run :| IsRun(v, Init(n), run) && Outcome(v, Init(n), run) == s;
    RunKeepsRuled(v, n, Init(n), run);
  }

  /** A waiter asleep, or about to be, while the count is zero has some worker on its way to notify it. */
  lemma NoLostSignal(v: Variant, n: nat, s: State) returns (w: nat)
    requires Reachable(v, n, s) && (s.waiter.Blocking? || s.waiter.Sleeping?) && s.count == 0
    ensures w < |s.workers| && (s.workers[w].Reread? || s.workers[w].Signal? || s.workers[w].Notify?)
    ensures v.atomicCheck ==> !s.workers[w].Reread?
  {
    ReachableInv(v, n, s);
    SumPositive(s.workers, Committed);
    w :| w < |s.workers| && Committed(s.workers[w]) > 0;
    ReachableRuled(v, n, s);
  }

  /** The three pools of the repository: what cannot happen in each. */
  lemma PoolsRuled(n: nat, s: State)
    ensures Reachable(NETWORK_POOL, n, s) ==> forall w :: 0 <= w < |s.workers| ==> !s.workers[w].Reread?
    ensures Reachable(PRIORITY_POOL, n, s) ==> !s.aborted
    ensures Reachable(FIFO_POOL, n, s) || Reachable(PRIORITY_POOL, n, s) ==>
              forall c :: 0 <= c < |s.calls| ==> !s.calls[c].at.Rejected?
    ensures Reachable(NETWORK_POOL, n, s) || Reachable(FIFO_POOL, n, s) ==> s.popped + s.queue == s.enqueued
  {
    forall v | Reachable(v, n, s) ensures Ruled(v, n, s) && (!v.byPriority ==> s.popped + s.queue == s.enqueued) {
      ReachableRuled(v, n, s);
      ReachableInv(v, n, s);
    }
  }

  /** The three pools once more: what they do where they differ. */
  lemma PoolsDiffer(s: State, c: nat, w: nat, pick: nat)
    requires c < |s.calls| && w < |s.workers|
    ensures s.calls[c].at.CheckStop? && s.stop ==> CallStep(NETWORK_POOL, s, c, 0).calls[c].at.Rejected?
    ensures WorkerCan(PRIORITY_POOL, s, w, pick) && s.workers[w].Decide? && s.queue != [] ==>
              var s' := WorkerStep(PRIORITY_POOL, s, w, pick, false);
              && |s'.popped| == |s.popped| + 1
              && forall j :: 0 <= j < |s.queue| ==>
                   PriorityOf(s, s.queue[j]) <= PriorityOf(s, s'.popped[|s.popped|])
    ensures s.workers[w].Returned? ==>
              && WorkerStep(FIFO_POOL, s, w, pick, false).workers[w].Reread?
              && WorkerStep(PRIORITY_POOL, s, w, pick, false).workers[w].Reread?
  {
  }

  /**
   A worker sets out to notify the waiter exactly when its decrement, or its later reading, has met a zero count.
   */
  lemma SignalIffZero(v: Variant, s: State, w: nat, pick: nat, throws: bool)
    requires WorkerCan(v, s, w, pick) && !s.workers[w].Signal?
    ensures var s' := WorkerStep(v, s, w, pick, throws);
            s'.workers[w].Signal? <==>
              s'.count == 0 && (s.workers[w].Reread? || (v.atomicCheck && s.workers[w].Returned?))
  {
  }

  /**
   An exception of a task goes unnoticed where tasks run inside try/catch, and is the end of everything elsewhere.
   */
  lemma ThrowIff(v: Variant, s: State, w: nat, task: nat)
    requires !s.aborted && w < |s.workers| && s.workers[w] == Running(task)
    ensures v.absorbsExceptions ==>
              WorkerStep(v, s, w, 0, true) == WorkerStep(v, s, w, 0, false)
    ensures !v.absorbsExceptions ==>
              WorkerStep(v, s, w, 0, true).aborted && forall a :: !Enabled(v, WorkerStep(v, s, w, 0, true), a)
    ensures !WorkerStep(v, s, w, 0, false).aborted && task in WorkerStep(v, s, w, 0, false).finished
  {
  }

  /** The environment is free: calls, waits and the destructor can come at any time, and so can spurious wakeups. */
  lemma EnvironmentIsFree(v: Variant, s: State, priority: int)
    requires !s.aborted
    ensures Enabled(v, s, NewCall(priority))
    ensures Step(v, s, NewCall(priority)).calls == s.calls + [Call(priority, CheckStop)]
    ensures s.waiter.Idle? ==> Enabled(v, s, NewWait) && Step(v, s, NewWait).waiter.Locking?
    ensures s.dtor.Live? ==> Enabled(v, s, NewDestruct) && Step(v, s, NewDestruct).dtor.LockMtx?
    ensures s.waiter.Sleeping? ==> Enabled(v, s, SpuriousWaiter) && Step(v, s, SpuriousWaiter).waiter.Locking?
    ensures forall w :: 0 <= w < |s.workers| && s.workers[w].Asleep? ==>
              Enabled(v, s, SpuriousWorker(w)) && Step(v, s, SpuriousWorker(w)).workers[w].Acquire?
  {
  }

  /** A rejected call leaves no trace. */
  lemma RejectedLeavesNoTrace(v: Variant, n: nat, s: State, c: nat)
    requires Reachable(v, n, s) && c < |s.calls| && s.calls[c].at.Rejected?
    ensures c !in s.enqueued && c !in s.queue && c !in s.popped && c !in s.finished
  {
    ReachableInv(v, n, s);
    assert Times(s.enqueued, c) == 0;
  }

  lemma LateCallStays(v: Variant, s: State, a: Action, c: nat)
    requires v.rejectsAfterStop && s.stop && Enabled(v, s, a) && c < |s.calls|
    requires s.calls[c].at.CheckStop? || s.calls[c].at.Rejected?
    ensures var e := Step(v, s, a); e.stop && c < |e.calls| && (e.calls[c].at.CheckStop? || e.calls[c].at.Rejected?)
  {
  }

  /** In a pool that tests the flag, a call that has not tested it when stop is set never gets past the test. */
  lemma {:induction false} LateCallIsRejected(v: Variant, s: State, run: seq<Action>, c: nat)
    requires v.rejectsAfterStop && s.stop && IsRun(v, s, run) && c < |s.calls|
    requires s.calls[c].at.CheckStop? || s.calls[c].at.Rejected?
    ensures var e := Outcome(v, s, run);
            e.stop && c < |e.calls| && (e.calls[c].at.CheckStop? || e.calls[c].at.Rejected?)
    decreases |run|
  {
    if run != [] {
      LateCallStays(v, s, run[0], c);
      LateCallIsRejected(v, Step(v, s, run[0]), run[1..], c);
    }
  }

  /** What the counter counts, in the middle of any step. */
  lemma CounterConservation(v: Variant, n: nat, s: State)
    requires Reachable(v, n, s)
    ensures s.count + Sum(s.calls, MidCall) == |s.queue| + Sum(s.workers, InFlight)
    ensures Sum(s.calls, MidCall) <= 1 && s.count >= 0
  {
    ReachableInv(v, n, s);
    MidCallQueued(s);
  }

  /** An enqueued task is in exactly one place: the queue, the hands of one worker, or among the finished. */
  lemma TaskIsInOnePlace(v: Variant, n: nat, s: State, c: nat)
    requires Reachable(v, n, s) && c in s.enqueued
    ensures Times(s.queue, c) + Sum(s.workers, Holding(c)) + Times(s.finished, c) == 1
    ensures c < |s.calls| && HasEmplaced(s.calls[c].at)
  {
    ReachableInv(v, n, s);
    assert Times(s.enqueued, c) == 1;
  }

  /** A nonempty queue beside a zero count holds just the task of the call that is about to count it. */
  lemma ZeroCountQueue(s: State)
    requires MtxOwned(s) && Points(s) && Counted(s) && s.count == 0
    ensures Sum(s.workers, InFlight) == 0
    ensures forall c :: c in s.queue <==> 0 <= c < |s.calls| && s.calls[c].at.CountUp?
  {
    MidCallQueued(s);
    hide ShutdownPoints;
    if s.queue != [] {
      SumPositive(s.calls, MidCall);
      var k :| 0 <= k < |s.calls| && MidCall(s.calls[k]) > 0;
      assert |s.queue| == 1 && k in s.queue;
      assert s.queue == [k];
    }
  }

  lemma ZeroCountFinished(v: Variant, s: State, c: nat)
    requires Inv(v, s) && s.count == 0 && c in s.enqueued
    ensures c < |s.calls|
    ensures c in s.finished <==> !s.calls[c].at.CountUp?
  {
    assert Times(s.enqueued, c) == 1;
    ZeroCountQueue(s);
    SumMonotone(s.workers, Holding(c), InFlight);
  }

  /** What a zero count tells the thread that reads it. */
  lemma ZeroCountMeansFinished(v: Variant, n: nat, s: State, c: nat)
    requires Reachable(v, n, s) && s.count == 0 && c in s.enqueued
    ensures c < |s.calls|
    ensures c in s.finished <==> !s.calls[c].at.CountUp?
  {
    ReachableInv(v, n, s);
    ZeroCountFinished(v, s, c);
  }

  /** Task c is enqueued and counted, and is finished unless the waiter is still waiting. */
  ghost predicate Awaited(s: State, c: nat) {
    && c in s.enqueued && c < |s.calls| && !s.calls[c].at.CountUp? && HasEmplaced(s.calls[c].at)
    && (s.waiter.Idle? || s.waiter.Leaving? ==> c in s.finished)
  }

  /** Histories only grow, and a call that has counted its task has done so for good. */
  ghost predicate Grown(s: State, s': State) {
    && s.enqueued <= s'.enqueued && s.finished <= s'.finished && |s.calls| <= |s'.calls|
    && forall c :: 0 <= c < |s.calls| && !s.calls[c].at.CountUp? && HasEmplaced(s.calls[c].at) ==>
         !s'.calls[c].at.CountUp? && HasEmplaced(s'.calls[c].at)
  }

  lemma WorkerGrows(v: Variant, s: State, w: nat, pick: nat, throws: bool)
    requires WorkerCan(v, s, w, pick)
    ensures Grown(s, WorkerStep(v, s, w, pick, throws))
  {
  }

  lemma CallGrows(v: Variant, s: State, c: nat, sleeper: nat)
    requires CallCan(s, c, sleeper)
    ensures Grown(s, CallStep(v, s, c, sleeper))
  {
  }

  lemma HistoriesGrow(v: Variant, s: State, a: Action)
    requires Enabled(v, s, a)
    ensures Grown(s, Step(v, s, a))
  {
    hide WorkerStep, CallStep;
    match a
    case Work(w, pick, throws) => WorkerGrows(v, s, w, pick, throws);
    case Submit(c, sleeper) => CallGrows(v, s, c, sleeper);
    case _ =>
  }

  /** A wait ends by reading a zero count, and not otherwise. */
  lemma WaitEndsAtZero(v: Variant, s: State, a: Action)
    requires Enabled(v, s, a) && !s.waiter.Idle? && !s.waiter.Leaving?
    ensures !Step(v, s, a).waiter.Idle?
    ensures Step(v, s, a).waiter.Leaving? ==> s.count == 0 && Step(v, s, a).finished == s.finished
  {
  }

  lemma StepKeepsAwaited(v: Variant, s: State, a: Action, c: nat)
    requires Inv(v, s) && Enabled(v, s, a) && Awaited(s, c)
    ensures Awaited(Step(v, s, a), c)
  {
    HistoriesGrow(v, s, a);
    if !s.waiter.Idle? && !s.waiter.Leaving? {
      WaitEndsAtZero(v, s, a);
      if Step(v, s, a).waiter.Leaving? {
        ZeroCountFinished(v, s, c);
      }
    }
  }

  lemma {:induction false} RunKeepsAwaited(v: Variant, s: State, run: seq<Action>, c: nat)
    requires Inv(v, s) && IsRun(v, s, run) && Awaited(s, c)
    ensures Awaited(Outcome(v, s, run), c)
    decreases |run|
  {
    hide Inv, Enabled, Step, Awaited;
    if run != [] {
      StepKeepsInv(v, s, run[0]);
      StepKeepsAwaited(v, s, run[0], c);
      RunKeepsAwaited(v, Step(v, s, run[0]), run[1..], c);
    }
  }

  /** What the wait is for: when it is over, every task that has been counted while it lasted has been finished. */
  lemma WaitedForIsFinished(v: Variant, n: nat, s: State, run: seq<Action>, c: nat)
    requires Reachable(v, n, s) && c in s.enqueued && (c < |s.calls| ==> !s.calls[c].at.CountUp?)
    requires !s.waiter.Idle? && !s.waiter.Leaving? && IsRun(v, s, run)
    ensures var e := Outcome(v, s, run); e.waiter.Leaving? || e.waiter.Idle? ==> c in e.finished
  {
    TaskIsInOnePlace(v, n, s, c);
    ReachableInv(v, n, s);
    RunKeepsAwaited(v, s, run, c);
  }

  /** Every submitted task is started at most once and finished at most once; a plain queue starts them in order. */
  lemma ExactlyOnce(v: Variant, n: nat, s: State, c: nat)
    requires Reachable(v, n, s)
    ensures Times(s.finished, c) <= Times(s.popped, c) <= Times(s.enqueued, c) <= 1
    ensures Times(s.popped, c) + Times(s.queue, c) == Times(s.enqueued, c)
    ensures Times(s.enqueued, c) == 1 <==> c < |s.calls| && HasEmplaced(s.calls[c].at)
    ensures !v.byPriority ==> s.popped + s.queue == s.enqueued
  {
    ReachableInv(v, n, s);
  }

  lemma QueueIsTheRest(v: Variant, s: State, k: nat)
    requires Traced(v, s) && AllExited(s) && k < |s.enqueued| && s.exitMark <= |s.enqueued|
    requires s.queue == s.enqueued[s.exitMark..]
    ensures s.enqueued[k] in s.finished <==> k < s.exitMark
  {
    var c := s.enqueued[k];
    SumPositive(s.workers, Holding(c));
    assert Sum(s.workers, Holding(c)) == 0;
    assert Times(s.enqueued, c) == 1;
    assert s.enqueued == s.enqueued[..s.exitMark] + s.enqueued[s.exitMark..];
    assert Times(s.enqueued, c) == Times(s.enqueued[..s.exitMark], c) + Times(s.queue, c);
    if k < s.exitMark {
      assert s.enqueued[..s.exitMark][k] == c;
    } else {
      assert s.queue[k - s.exitMark] == c;
    }
  }

  /** When all workers are gone, exactly the tasks enqueued before the last of them left have been finished. */
  lemma ShutdownDrainsQueue(v: Variant, n: nat, s: State, k: nat)
    requires Reachable(v, n, s) && AllExited(s) && k < |s.enqueued|
    ensures s.exitMark <= |s.enqueued|
    ensures s.enqueued[k] in s.finished <==> k < s.exitMark
    ensures s.queue == s.enqueued[s.exitMark..]
    ensures n > 0 ==> s.stopMark <= s.exitMark
  {
    ReachableInv(v, n, s);
    QueueIsTheRest(v, s, k);
    if n > 0 {
      ReachableRuled(v, n, s);
      SumPositive(s.workers, Gone);
      assert Gone(s.workers[0]) > 0;
    }
  }

  /** Tasks enqueued before the destructor stores stop have all run by the time every worker can be joined. */
  lemma NothingDroppedBeforeStop(v: Variant, n: nat, s: State, k: nat)
    requires Reachable(v, n, s) && n > 0 && s.dtor.Destroyed? && k < s.stopMark
    ensures s.stopMark <= |s.enqueued| && s.enqueued[k] in s.finished
  {
    ReachableInv(v, n, s);
    ShutdownDrainsQueue(v, n, s, k);
  }

  /** Once all workers are gone nothing is ever finished again. */
  lemma {:induction false} GoneForGood(v: Variant, s: State, run: seq<Action>)
    requires AllExited(s) && IsRun(v, s, run)
    ensures AllExited(Outcome(v, s, run)) && Outcome(v, s, run).finished == s.finished
    decreases |run|
  {
    if run != [] {
      var s' := Step(v, s, run[0]);
      assert AllExited(s') && s'.finished == s.finished;
      GoneForGood(v, s', run[1..]);
    }
  }

  /** What a step does to the history of enqueued tasks, and to the mark of the last worker to leave. */
  ghost predicate Marks(s: State, s': State) {
    && s.enqueued <= s'.enqueued
    && (!AllExited(s) && AllExited(s') ==> s'.exitMark == |s.enqueued|)
    && (AllExited(s) ==> AllExited(s') && s'.exitMark == s.exitMark)
  }

  lemma WorkerMarks(v: Variant, s: State, w: nat, pick: nat, throws: bool)
    requires WorkerCan(v, s, w, pick)
    ensures Marks(s, WorkerStep(v, s, w, pick, throws))
  {
    var s' := WorkerStep(v, s, w, pick, throws);
    assert !s.workers[w].Exited?;
    assert s'.workers == s.workers[w := s'.workers[w]];
  }

  /** A step in which no worker moves, save to wake up. */
  lemma OthersMark(s: State, s': State)
    requires s.enqueued <= s'.enqueued && s'.exitMark == s.exitMark && |s'.workers| == |s.workers|
    requires forall w :: 0 <= w < |s.workers| ==> (s'.workers[w].Exited? <==> s.workers[w].Exited?)
    ensures Marks(s, s')
  {
  }

  lemma EnqueuedStays(v: Variant, s: State, a: Action)
    requires Enabled(v, s, a)
    ensures Marks(s, Step(v, s, a))
  {
    if a.Work? {
      WorkerMarks(v, s, a.worker, a.pick, a.throws);
    } else {
      OthersMark(s, Step(v, s, a));
    }
  }

  /** The mark of stop is taken when stop is stored. */
  lemma StopMarkTaken(v: Variant, s: State, a: Action)
    requires Enabled(v, s, a)
    ensures var s' := Step(v, s, a); !s.stop && s'.stop ==> s'.stopMark == |s'.enqueued|
    ensures s.stop && s.dtor.UnlockMtx? ==> Step(v, s, a).stopMark == s.stopMark
  {
  }

  /** The last worker to leave does so after everything enqueued while it was there. */
  lemma {:induction false} LastToLeave(v: Variant, s: State, run: seq<Action>)
    requires IsRun(v, s, run)
    ensures var e := Outcome(v, s, run);
            && s.enqueued <= e.enqueued
            && (AllExited(s) ==> AllExited(e) && e.exitMark == s.exitMark)
            && (!AllExited(s) && AllExited(e) ==> |s.enqueued| <= e.exitMark)
    decreases |run|
  {
    hide Enabled, Step;
    if run != [] {
      EnqueuedStays(v, s, run[0]);
      LastToLeave(v, Step(v, s, run[0]), run[1..]);
    }
  }

  lemma {:induction false} RunsConcatenate(v: Variant, s: State, p: seq<Action>, q: seq<Action>)
    requires IsRun(v, s, p) && IsRun(v, Outcome(v, s, p), q)
    ensures IsRun(v, s, p + q) && Outcome(v, s, p + q) == Outcome(v, Outcome(v, s, p), q)
    decreases |p|
  {
    if p == [] {
      assert p + q == q;
    } else {
      assert (p + q)[1..] == p[1..] + q;
      RunsConcatenate(v, Step(v, s, p[0]), p[1..], q);
    }
  }

  /** Whatever has been enqueued before stop is stored has been run once all workers are gone. */
  lemma EnqueuedBeforeStopIsRun(v: Variant, n: nat, s: State, run: seq<Action>, c: nat)
    requires Reachable(v, n, s) && n > 0 && !s.stop && c in s.enqueued
    requires IsRun(v, s, run) && AllExited(Outcome(v, s, run))
    ensures c in Outcome(v, s, run).finished
  {
    var e := Outcome(v, s, run);
    ReachableInv(v, n, s);
    ReachableRuled(v, n, s);
    assert !s.workers[0].Exited?;
    var k :| 0 <= k < |s.enqueued| && s.enqueued[k] == c;
    LastToLeave(v, s, run);
    var before :| IsRun(v, Init(n), before) && Outcome(v, Init(n), before) == s;
    RunsConcatenate(v, Init(n), before, run);
    ShutdownDrainsQueue(v, n, e, k);
  }

  /**
   Which tasks are run, told when they are enqueued: whatever happens afterwards, when all workers are gone the task
   has been finished exactly if at that moment some worker was still there.
   */
  lemma FinishedIffWorkerLeft(v: Variant, n: nat, s: State, run: seq<Action>, c: nat)
    requires Reachable(v, n, s) && c < |s.calls| && s.calls[c].at.CountUp?
    requires IsRun(v, s, run) && AllExited(Outcome(v, s, run))
    ensures c in Outcome(v, s, run).finished <==> !AllExited(s)
  {
    var e := Outcome(v, s, run);
    ReachableInv(v, n, s);
    assert c in s.queue && Times(s.enqueued, c) == 1;
    if AllExited(s) {
      GoneForGood(v, s, run);
      TaskIsInOnePlace(v, n, s, c);
    } else {
      var k :| 0 <= k < |s.enqueued| && s.enqueued[k] == c;
      LastToLeave(v, s, run);
      var before :| IsRun(v, Init(n), before) && Outcome(v, Init(n), before) == s;
      RunsConcatenate(v, Init(n), before, run);
      ShutdownDrainsQueue(v, n, e, k);
    }
  }

  /** After notify_all no worker sleeps and none will. */
  lemma NobodySleepsAfterNotifyAll(v: Variant, n: nat, s: State, w: nat)
    requires Reachable(v, n, s) && (s.dtor.Join? || s.dtor.Destroyed?) && w < |s.workers|
    ensures !s.workers[w].Asleep? && !s.workers[w].Block?
  {
    ReachableInv(v, n, s);
  }

  lemma QuiescentSums(v: Variant, s: State)
    requires !s.aborted && Inv(v, s) && Quiescent(v, s)
    ensures Sum(s.workers, InFlight) == Sum(s.workers, Heading) == Sum(s.workers, Committed) == 0
    ensures Sum(s.calls, Unnotified) == Sum(s.calls, MidCall) == 0
  {
    QuiescentPoints(v, s);
    SumPositive(s.workers, InFlight);
    SumPositive(s.workers, Heading);
    SumPositive(s.workers, Committed);
    SumPositive(s.calls, Unnotified);
    SumPositive(s.calls, MidCall);
  }

  /** A pool with a worker, left alone with no exception escaping, comes to rest only when its work is done. */
  lemma RestMeansDone(v: Variant, n: nat, s: State)
    requires Reachable(v, n, s) && n > 0 && !s.aborted && Quiescent(v, s)
    ensures forall c :: 0 <= c < |s.calls| ==> s.calls[c].at.Accepted? || s.calls[c].at.Rejected?
    ensures s.dtor.Live? ==> s.queue == [] && s.count == 0 && s.waiter.Idle?
    ensures s.dtor.Live? ==> forall c :: 0 <= c < |s.calls| && s.calls[c].at.Accepted? ==> c in s.finished
    ensures !s.dtor.Live? ==> s.dtor.Destroyed? && AllExited(s) && s.count == |s.queue|
    ensures !s.dtor.Live? && s.queue == [] ==> s.waiter.Idle?
  {
    ReachableInv(v, n, s);
    QuiescentPoints(v, s);
    ReachableRuled(v, n, s);
    QuiescentSums(v, s);
    if s.dtor.Live? {
      assert s.workers[0].Asleep?;
      SumPositive(s.workers, AsleepOnCv);
      assert AsleepOnCv(s.workers[0]) > 0;
      forall c | 0 <= c < |s.calls| && s.calls[c].at.Accepted? ensures c in s.finished {
        SumPositive(s.workers, Holding(c));
        assert Times(s.enqueued, c) == 1 && Times(s.queue, c) == 0;
      }
    }
  }

  /** Any maximal run of internal steps is bounded in length and ends with the work done. */
  lemma LeftAloneItFinishes(v: Variant, n: nat, s: State, run: seq<Action>)
    requires Reachable(v, n, s) && n > 0 && IsRun(v, s, run) && (forall a :: a in run ==> Internal(a))
    ensures |run| <= Measure(s)
    ensures var e := Outcome(v, s, run);
            !e.aborted && Quiescent(v, e) && e.dtor.Live? ==>
              e.waiter.Idle? && forall c :: 0 <= c < |e.calls| && e.calls[c].at.Accepted? ==> c in e.finished
    ensures var e := Outcome(v, s, run);
            !e.aborted && Quiescent(v, e) && !e.dtor.Live? ==> e.dtor.Destroyed? && AllExited(e)
  {
    ReachableInv(v, n, s);
    InternalRunIsFinite(v, s, run);
    var e := Outcome(v, s, run);
    if !e.aborted && Quiescent(v, e) {
      var before :| IsRun(v, Init(n), before) && Outcome(v, Init(n), before) == s;
      RunsConcatenate(v, Init(n), before, run);
      RestMeansDone(v, n, e);
    }
  }

  // ----- a task that is accepted and lost

  /** A pool of one worker in the course of the run below. */
  function Snapshot(w: Worker, calls: seq<Call>, dtor: Destructor, mtx: Owner, stop: bool): State {
    State([w], calls, dtor, Idle, mtx, Free, stop, [], 0, false, [], [], [], 0, 0)
  }

  const GO := Work(0, 0, false)
  const CALL := Submit(0, 0)

  lemma ReachStep(v: Variant, n: nat, s: State, a: Action)
    requires Reachable(v, n, s) && Enabled(v, s, a)
    ensures Reachable(v, n, Step(v, s, a))
  {
    var run :| IsRun(v, Init(n), run) && Outcome(v, Init(n), run) == s;
    var s' := Step(v, s, a);
    assert [a][1..] == [];
    assert IsRun(v, s', []) && Outcome(v, s', []) == s';
    assert IsRun(v, s, [a]) && Outcome(v, s, [a]) == Outcome(v, s', []);
    RunsConcatenate(v, Init(n), run, [a]);
  }

  lemma WorkerFallsAsleep()
    ensures Reachable(NETWORK_POOL, 1, Snapshot(Asleep, [], Live, Free, false))
  {
    var v := NETWORK_POOL;
    var s := Init(1);
    assert s == Snapshot(Acquire, [], Live, Free, false);
    assert IsRun(v, s, []) && Outcome(v, s, []) == s;
    ReachStep(v, 1, s, GO);
    var s1 := Snapshot(Evaluate, [], Live, ByWorker(0), false);
    assert Step(v, s, GO) == s1;
    ReachStep(v, 1, s1, GO);
    var s2 := Snapshot(Block, [], Live, ByWorker(0), false);
    assert Step(v, s1, GO) == s2;
    ReachStep(v, 1, s2, GO);
    var s3 := Snapshot(Asleep, [], Live, Free, false);
    assert Step(v, s2, GO) == s3;
  }

  lemma CallSeesNoStop()
    ensures Reachable(NETWORK_POOL, 1, Snapshot(Asleep, [Call(0, Lock)], LockMtx, Free, false))
  {
    var v := NETWORK_POOL;
    WorkerFallsAsleep();
    var s := Snapshot(Asleep, [], Live, Free, false);
    ReachStep(v, 1, s, NewCall(0));
    var s1 := Snapshot(Asleep, [Call(0, CheckStop)], Live, Free, false);
    assert Step(v, s, NewCall(0)) == s1;
    ReachStep(v, 1, s1, CALL);
    var s2 := Snapshot(Asleep, [Call(0, Lock)], Live, Free, false);
    assert Step(v, s1, CALL) == s2;
    ReachStep(v, 1, s2, NewDestruct);
    var s3 := Snapshot(Asleep, [Call(0, Lock)], LockMtx, Free, false);
    assert Step(v, s2, NewDestruct) == s3;
  }

  lemma StopIsStored()
    ensures Reachable(NETWORK_POOL, 1, Snapshot(Asleep, [Call(0, Lock)], NotifyAll, Free, true))
  {
    var v := NETWORK_POOL;
    CallSeesNoStop();
    var s := Snapshot(Asleep, [Call(0, Lock)], LockMtx, Free, false);
    ReachStep(v, 1, s, Destruct);
    var s1 := Snapshot(Asleep, [Call(0, Lock)], StoreStop, ByDestructor, false);
    assert Step(v, s, Destruct) == s1;
    ReachStep(v, 1, s1, Destruct);
    var s2 := Snapshot(Asleep, [Call(0, Lock)], UnlockMtx, ByDestructor, true);
    assert Step(v, s1, Destruct) == s2;
    ReachStep(v, 1, s2, Destruct);
    var s3 := Snapshot(Asleep, [Call(0, Lock)], NotifyAll, Free, true);
    assert Step(v, s2, Destruct) == s3;
  }

  lemma LastWorkerLeaves()
    ensures Reachable(NETWORK_POOL, 1, Snapshot(Exited, [Call(0, Lock)], Join(0), Free, true))
  {
    var v := NETWORK_POOL;
    StopIsStored();
    var s := Snapshot(Asleep, [Call(0, Lock)], NotifyAll, Free, true);
    ReachStep(v, 1, s, Destruct);
    var s1 := Snapshot(Acquire, [Call(0, Lock)], Join(0), Free, true);
    assert Step(v, s, Destruct) == s1;
    ReachStep(v, 1, s1, GO);
    var s2 := Snapshot(Evaluate, [Call(0, Lock)], Join(0), ByWorker(0), true);
    assert Step(v, s1, GO) == s2;
    ReachStep(v, 1, s2, GO);
    var s3 := Snapshot(Decide, [Call(0, Lock)], Join(0), ByWorker(0), true);
    assert Step(v, s2, GO) == s3;
    ReachStep(v, 1, s3, GO);
    var s4 := Snapshot(Exited, [Call(0, Lock)], Join(0), Free, true);
    assert Step(v, s3, GO) == s4;
  }

  lemma TaskIsEmplaced()
    ensures Reachable(NETWORK_POOL, 1,
                      Snapshot(Exited, [Call(0, CountUp)], Join(0), ByCall(0), true).(queue := [0], enqueued := [0]))
  {
    var v := NETWORK_POOL;
    LastWorkerLeaves();
    var s := Snapshot(Exited, [Call(0, Lock)], Join(0), Free, true);
    ReachStep(v, 1, s, CALL);
    var s1 := Snapshot(Exited, [Call(0, Emplace)], Join(0), ByCall(0), true);
    assert Step(v, s, CALL) == s1;
    ReachStep(v, 1, s1, CALL);
    var s2 := Snapshot(Exited, [Call(0, CountUp)], Join(0), ByCall(0), true).(queue := [0], enqueued := [0]);
    assert Step(v, s1, CALL) == s2;
  }

  /**
   Between its test of the stop flag and its lock, a submit call can be overtaken by the whole shutdown: the call
   returns as accepted, the last worker has left, and by FinishedIffWorkerLeft the task will never run.
   */
  lemma AcceptedTaskCanBeLost() returns (s: State)
    ensures Reachable(NETWORK_POOL, 1, s)
    ensures s.calls == [Call(0, Accepted)] && s.queue == [0] && s.finished == [] && AllExited(s)
  {
    var v := NETWORK_POOL;
    TaskIsEmplaced();
    var left := Snapshot(Exited, [Call(0, CountUp)], Join(0), ByCall(0), true).(queue := [0], enqueued := [0]);
    SumPositive(left.workers, AsleepOnCv);
    ReachStep(v, 1, left, CALL);
    var s1 := Step(v, left, CALL);
    ReachStep(v, 1, s1, CALL);
    var s2 := Step(v, s1, CALL);
    ReachStep(v, 1, s2, CALL);
    s := Step(v, s2, CALL);
  }

  // ----- priority order

  /**
   The tasks popped since position b came in order of priority, and none of them was less urgent than a task still
   queued.
   */
  ghost predicate Ordered(s: State, b: nat) {
    && b <= |s.popped|
    && (forall i, j :: b <= i < j < |s.popped| ==> PriorityOf(s, s.popped[j]) <= PriorityOf(s, s.popped[i]))
    && (forall i, j :: b <= i < |s.popped| && 0 <= j < |s.queue| ==>
        PriorityOf(s, s.queue[j]) <= PriorityOf(s, s.popped[i]))
  }

  lemma {:induction false} EnqueuedGrows(v: Variant, s: State, run: seq<Action>)
    requires IsRun(v, s, run)
    ensures |s.enqueued| <= |Outcome(v, s, run).enqueued|
    decreases |run|
  {
    if run != [] {
      EnqueuedGrows(v, Step(v, s, run[0]), run[1..]);
    }
  }

  lemma PopKeepsOrdered(v: Variant, s: State, a: Action, b: nat)
    requires v.byPriority && Enabled(v, s, a) && Ordered(s, b)
    requires a.Work? && s.workers[a.worker].Decide? && s.queue != []
    ensures Ordered(Step(v, s, a), b)
  {
    var s' := Step(v, s, a);
    var x := s.queue[a.pick];
    assert s'.popped == s.popped + [x] && s'.queue == RemoveAt(s.queue, a.pick) && s'.calls == s.calls;
    forall j | 0 <= j < |s'.queue|
      ensures s'.queue[j] in s.queue && PriorityOf(s', s'.queue[j]) <= PriorityOf(s', x)
    {
      assert s'.queue[j] == s.queue[if j < a.pick then j else j + 1];
    }
  }

  predicate SameTasks(s: State, s': State) {
    && s'.popped == s.popped && s'.queue == s.queue && |s'.calls| >= |s.calls|
    && forall c :: 0 <= c < |s.calls| ==> s'.calls[c].priority == s.calls[c].priority
  }

  lemma WorkerLeavesTasks(v: Variant, s: State, w: nat, pick: nat, throws: bool)
    requires WorkerCan(v, s, w, pick) && !(s.workers[w].Decide? && s.queue != [])
    ensures SameTasks(s, WorkerStep(v, s, w, pick, throws))
  {
  }

  lemma CallLeavesTasks(v: Variant, s: State, c: nat, sleeper: nat)
    requires CallCan(s, c, sleeper) && CallStep(v, s, c, sleeper).enqueued == s.enqueued
    ensures SameTasks(s, CallStep(v, s, c, sleeper))
  {
  }

  /** A step that neither enqueues nor pops leaves the queue and the priorities of the tasks as they are. */
  lemma TasksStay(v: Variant, s: State, a: Action)
    requires Enabled(v, s, a) && Step(v, s, a).enqueued == s.enqueued
    requires !(a.Work? && s.workers[a.worker].Decide? && s.queue != [])
    ensures SameTasks(s, Step(v, s, a))
  {
    hide WorkerStep, CallStep;
    match a
    case Work(w, pick, throws) => WorkerLeavesTasks(v, s, w, pick, throws);
    case Submit(c, sleeper) => CallLeavesTasks(v, s, c, sleeper);
    case _ =>
  }

  lemma StepKeepsOrdered(v: Variant, s: State, a: Action, b: nat)
    requires v.byPriority && Inv(v, s) && Enabled(v, s, a) && Ordered(s, b)
    requires Step(v, s, a).enqueued == s.enqueued
    ensures Ordered(Step(v, s, a), b)
  {
    if a.Work? && s.workers[a.worker].Decide? && s.queue != [] {
      PopKeepsOrdered(v, s, a, b);
    } else {
      var s' := Step(v, s, a);
      TasksStay(v, s, a);
      forall c | c in s.popped || c in s.queue ensures PriorityOf(s', c) == PriorityOf(s, c) {
        assert Times(s.popped, c) + Times(s.queue, c) == Times(s.enqueued, c) > 0;
      }
    }
  }

  /** While nothing new is enqueued, a priority pool starts its tasks in order of priority. */
  lemma {:induction false} PopsByPriority(v: Variant, s: State, run: seq<Action>, b: nat)
    requires v.byPriority && Inv(v, s) && IsRun(v, s, run) && Ordered(s, b)
    requires Outcome(v, s, run).enqueued == s.enqueued
    ensures Ordered(Outcome(v, s, run), b)
    decreases |run|
  {
    if run != [] {
      var s' := Step(v, s, run[0]);
      EnqueuedGrows(v, s', run[1..]);
      StepKeepsInv(v, s, run[0]);
      StepKeepsOrdered(v, s, run[0], b);
      PopsByPriority(v, s', run[1..], b);
    }
  }
}
