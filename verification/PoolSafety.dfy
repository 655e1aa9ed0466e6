/**
 The inductive invariant of the pool. It has five parts, each kept by every step of every thread:
 who holds which mutex, what the counter counts, why no task waits beside a sleeping worker, why the completion signal
 is not lost, and where each submitted task is.
 */
module PoolSafety {
  import opened Sums
  import opened PoolModel

  // ----- weights: 1 for the threads that matter to a count

  predicate HoldsMtx(w: Worker) { w.Evaluate? || w.Block? || w.Decide? || w.Popped? }

  predicate HoldsEnd(w: Worker) { w.Notify? || w.Release? }

  predicate CallHolds(p: CallPoint) { p.Emplace? || p.CountUp? || p.Unlock? }

  predicate HasEmplaced(p: CallPoint) { p.CountUp? || p.Unlock? || p.NotifyOne? || p.Accepted? }

  /** Has taken a task and not yet decremented the counter for it. */
  function InFlight(w: Worker): nat { if w.Popped? || w.Running? || w.Returned? then 1 else 0 }

  /** On the way to the wait predicate, inside it, or past it with a task to take. */
  function Heading(w: Worker): nat { if w.Acquire? || w.Evaluate? || w.Decide? then 1 else 0 }

  /** Bound to notify end_cv, unless a two-step reader finds the count changed. */
  function Committed(w: Worker): nat { if w.Reread? || w.Signal? || w.Notify? then 1 else 0 }

  function Gone(w: Worker): nat { if w.Exited? then 1 else 0 }

  /** Between emplace and fetch_add. */
  function MidCall(c: Call): nat { if c.at.CountUp? then 1 else 0 }

  /** Between emplace and notify_one. */
  function Unnotified(c: Call): nat { if c.at.CountUp? || c.at.Unlock? || c.at.NotifyOne? then 1 else 0 }

  /** 1 for a worker that holds task c and has not yet ended it. */
  function Holding(c: nat): Worker -> nat {
    (w: Worker) => if (w.Popped? || w.Running?) && w.task == c then 1 else 0
  }

  /** How often a task occurs in a history. */
  function Times(s: seq<nat>, c: nat): nat { multiset(s)[c] }

  // ----- the invariant

  /** The owner field of mtx names exactly the thread whose program point holds it. */
  ghost predicate MtxOwned(s: State) {
    && (forall w :: 0 <= w < |s.workers| ==> (HoldsMtx(s.workers[w]) <==> s.mtx == ByWorker(w)))
    && (forall c :: 0 <= c < |s.calls| ==> (CallHolds(s.calls[c].at) <==> s.mtx == ByCall(c)))
    && (s.dtor.StoreStop? || s.dtor.UnlockMtx? <==> s.mtx == ByDestructor)
    && s.mtx != ByWaiter
    && (s.mtx.ByWorker? ==> s.mtx.worker < |s.workers|)
    && (s.mtx.ByCall? ==> s.mtx.call < |s.calls|)
  }

  /** The same for end_mtx, which only workers and the waiter take. */
  ghost predicate EndOwned(s: State) {
    && (forall w :: 0 <= w < |s.workers| ==> (HoldsEnd(s.workers[w]) <==> s.endMtx == ByWorker(w)))
    && (s.waiter.Reading? || s.waiter.Blocking? || s.waiter.Leaving? <==> s.endMtx == ByWaiter)
    && !s.endMtx.ByCall? && s.endMtx != ByDestructor
    && (s.endMtx.ByWorker? ==> s.endMtx.worker < |s.workers|)
  }

  /** What a thread that holds mtx knows about the queue. */
  ghost predicate QueuePoints(s: State) {
    && (forall w :: 0 <= w < |s.workers| && s.workers[w].Block? ==> s.queue == [] && !s.stop)
    && (forall w :: 0 <= w < |s.workers| && s.workers[w].Decide? ==> s.queue != [] || s.stop)
    && (forall c :: 0 <= c < |s.calls| && s.calls[c].at.CountUp? ==> c in s.queue)
  }

  predicate AllExited(s: State) {
    forall w :: 0 <= w < |s.workers| ==> s.workers[w].Exited?
  }

  /** What is known during shutdown: nobody leaves before stop is set, nobody sleeps after notify_all. */
  ghost predicate ShutdownPoints(s: State) {
    && (forall w :: 0 <= w < |s.workers| && s.workers[w].Exited? ==> s.stop)
    && (forall w :: 0 <= w < |s.workers| && s.workers[w].Asleep? ==> !s.dtor.Join? && !s.dtor.Destroyed?)
    && (s.stop <==> s.dtor.UnlockMtx? || s.dtor.NotifyAll? || s.dtor.Join? || s.dtor.Destroyed?)
    && (s.dtor.Join? ==> s.dtor.next <= |s.workers| && forall w :: 0 <= w < s.dtor.next ==> s.workers[w].Exited?)
    && (s.dtor.Destroyed? ==> AllExited(s))
  }

  ghost predicate Points(s: State) { QueuePoints(s) && ShutdownPoints(s) }

  /** The counter, corrected by the one call that may stand between emplace and fetch_add. */
  ghost predicate Counted(s: State) {
    s.count + Sum(s.calls, MidCall) == |s.queue| + Sum(s.workers, InFlight)
  }

  /** While a worker sleeps, every queued task has a notification or an awake worker coming for it. */
  ghost predicate WorkConserved(s: State) {
    Sum(s.workers, AsleepOnCv) > 0 ==> |s.queue| <= Sum(s.calls, Unnotified) + Sum(s.workers, Heading)
  }

  /** A waiter that sleeps, or is bound to, beside a zero count has a worker coming to wake it. */
  ghost predicate SignalPending(s: State) {
    (s.waiter.Blocking? || s.waiter.Sleeping?) && s.count == 0 ==> Sum(s.workers, Committed) > 0
  }

  /** A task is enqueued by its own call, once, and by nobody else. */
  ghost predicate EnqueuedOnce(s: State) {
    forall c: nat :: Times(s.enqueued, c) == if c < |s.calls| && HasEmplaced(s.calls[c].at) then 1 else 0
  }

  /** Where each task is. */
  ghost predicate Traced(v: Variant, s: State) {
    && (!v.byPriority ==> s.popped + s.queue == s.enqueued)
    && (forall c: nat :: Times(s.popped, c) + Times(s.queue, c) == Times(s.enqueued, c))
    && (forall c: nat :: Sum(s.workers, Holding(c)) + Times(s.finished, c) == Times(s.popped, c))
    && EnqueuedOnce(s)
  }

  /** What the last worker to leave has left behind. */
  ghost predicate Marked(s: State) {
    && s.stopMark <= |s.enqueued|
    && s.exitMark <= |s.enqueued|
    && (Sum(s.workers, Gone) > 0 ==> s.stopMark <= s.exitMark)
    && (AllExited(s) ==> s.queue == s.enqueued[s.exitMark..])
  }

  ghost predicate Inv(v: Variant, s: State) {
    && MtxOwned(s) && EndOwned(s) && Points(s) && Counted(s) && WorkConserved(s) && SignalPending(s)
    && Traced(v, s) && Marked(s)
  }

  lemma InitInv(v: Variant, n: nat)
    ensures Inv(v, Init(n))
  {
    var ws := Init(n).workers;
    SumPositive(ws, InFlight);
    SumPositive(ws, AsleepOnCv);
    SumPositive(ws, Gone);
    forall c: nat ensures Sum(ws, Holding(c)) == 0 {
      SumPositive(ws, Holding(c));
    }
  }

  // ----- workers

  /** A thread leaves a mutex alone, takes it when it is free, or gives up its own. */
  predicate Passes(before: Owner, after: Owner, me: Owner) {
    after == before || (before == Free && after == me) || (before == me && after == Free)
  }

  /** What a step of worker w leaves alone, and how it treats the locks. */
  predicate WorkerTouches(s: State, s': State, w: nat) {
    && w < |s.workers| == |s'.workers|
    && s'.workers == s.workers[w := s'.workers[w]]
    && s'.calls == s.calls && s'.dtor == s.dtor
    && Passes(s.mtx, s'.mtx, ByWorker(w)) && (HoldsMtx(s'.workers[w]) <==> s'.mtx == ByWorker(w))
    && Passes(s.endMtx, s'.endMtx, ByWorker(w)) && (HoldsEnd(s'.workers[w]) <==> s'.endMtx == ByWorker(w))
    && (s'.waiter == s.waiter || (s.waiter.Sleeping? && s'.waiter.Locking?))
  }

  lemma WorkerFrame(v: Variant, s: State, w: nat, pick: nat, throws: bool)
    requires WorkerCan(v, s, w, pick)
    requires HoldsMtx(s.workers[w]) <==> s.mtx == ByWorker(w)
    requires HoldsEnd(s.workers[w]) <==> s.endMtx == ByWorker(w)
    ensures WorkerTouches(s, WorkerStep(v, s, w, pick, throws), w)
  {
  }

  lemma LocksAfterWorker(s: State, s': State, w: nat)
    requires MtxOwned(s) && EndOwned(s) && WorkerTouches(s, s', w)
    ensures MtxOwned(s') && EndOwned(s')
  {
  }

  lemma WorkerKeepsLocks(v: Variant, s: State, w: nat, pick: nat, throws: bool)
    requires MtxOwned(s) && EndOwned(s) && WorkerCan(v, s, w, pick)
    ensures var s' := WorkerStep(v, s, w, pick, throws); MtxOwned(s') && EndOwned(s')
  {
    WorkerFrame(v, s, w, pick, throws);
    LocksAfterWorker(s, WorkerStep(v, s, w, pick, throws), w);
  }

  /** Only the holder of mtx takes from the queue, and it knows what it has seen. */
  predicate WorkerQueues(s: State, s': State, w: nat) {
    && w < |s.workers| == |s'.workers|
    && s'.workers == s.workers[w := s'.workers[w]] && s'.calls == s.calls && s'.stop == s.stop
    && (s'.queue == s.queue || s.mtx == ByWorker(w))
    && (s'.workers[w].Block? ==> s'.queue == [] && !s'.stop)
    && (s'.workers[w].Decide? ==> s'.queue != [] || s'.stop)
  }

  lemma QueuePointsAfterWorker(s: State, s': State, w: nat)
    requires MtxOwned(s) && QueuePoints(s) && WorkerQueues(s, s', w)
    ensures QueuePoints(s')
  {
  }

  lemma WorkerKeepsQueuePoints(v: Variant, s: State, w: nat, pick: nat, throws: bool)
    requires MtxOwned(s) && QueuePoints(s) && WorkerCan(v, s, w, pick)
    ensures QueuePoints(WorkerStep(v, s, w, pick, throws))
  {
    QueuePointsAfterWorker(s, WorkerStep(v, s, w, pick, throws), w);
  }

  lemma WorkerKeepsShutdownPoints(v: Variant, s: State, w: nat, pick: nat, throws: bool)
    requires QueuePoints(s) && ShutdownPoints(s) && WorkerCan(v, s, w, pick)
    ensures ShutdownPoints(WorkerStep(v, s, w, pick, throws))
  {
  }

  /** The counter and the queue change together with the worker's own share of the tasks in flight. */
  lemma WorkerCounts(v: Variant, s: State, w: nat, pick: nat, throws: bool)
    requires WorkerCan(v, s, w, pick)
    ensures var s' := WorkerStep(v, s, w, pick, throws);
            s'.count - |s'.queue| - InFlight(s'.workers[w]) == s.count - |s.queue| - InFlight(s.workers[w])
  {
  }

  /** A worker that stops heading for the queue takes a task along, or leaves the queue empty. */
  lemma WorkerHeads(v: Variant, s: State, w: nat, pick: nat, throws: bool)
    requires WorkerCan(v, s, w, pick)
    requires s.workers[w].Block? ==> s.queue == []
    ensures var s' := WorkerStep(v, s, w, pick, throws);
            var o, x := s.workers[w], s'.workers[w];
            && AsleepOnCv(o) == 0
            && (s'.queue == [] || (AsleepOnCv(x) == 0 && |s'.queue| - Heading(x) <= |s.queue| - Heading(o)))
  {
  }

  lemma WorkerKeepsCounted(v: Variant, s: State, w: nat, pick: nat, throws: bool)
    requires Counted(s) && WorkerCan(v, s, w, pick)
    ensures Counted(WorkerStep(v, s, w, pick, throws))
  {
    var s' := WorkerStep(v, s, w, pick, throws);
    WorkerCounts(v, s, w, pick, throws);
    SumUpdate(s.workers, w, s'.workers[w], InFlight);
  }

  lemma WorkerKeepsWorkConserved(v: Variant, s: State, w: nat, pick: nat, throws: bool)
    requires WorkConserved(s) && WorkerCan(v, s, w, pick)
    requires s.workers[w].Block? ==> s.queue == []
    ensures WorkConserved(WorkerStep(v, s, w, pick, throws))
  {
    var s' := WorkerStep(v, s, w, pick, throws);
    WorkerHeads(v, s, w, pick, throws);
    SumUpdate(s.workers, w, s'.workers[w], Heading);
    SumUpdate(s.workers, w, s'.workers[w], AsleepOnCv);
  }

  /** A step that leaves a zero count under a waiting waiter leaves the worker, or another, committed. */
  lemma WorkerSignals(v: Variant, s: State, w: nat, pick: nat, throws: bool)
    requires WorkerCan(v, s, w, pick)
    requires s.workers[w].Notify? ==> !s.waiter.Blocking?
    ensures var s' := WorkerStep(v, s, w, pick, throws);
            && ((s'.waiter.Blocking? || s'.waiter.Sleeping?) && s'.count == 0 ==>
                  Committed(s'.workers[w]) == 1 ||
                      (s.count == 0 && s'.waiter == s.waiter && Committed(s.workers[w]) == 0))
  {
  }

  lemma WorkerKeepsSignalPending(v: Variant, s: State, w: nat, pick: nat, throws: bool)
    requires SignalPending(s) && WorkerCan(v, s, w, pick)
    requires s.workers[w].Notify? ==> !s.waiter.Blocking?
    ensures SignalPending(WorkerStep(v, s, w, pick, throws))
  {
    var s' := WorkerStep(v, s, w, pick, throws);
    WorkerSignals(v, s, w, pick, throws);
    SumUpdate(s.workers, w, s'.workers[w], Committed);
    SumAtLeast(s'.workers, w, Committed);
  }

  lemma RemoveAtTimes(q: seq<nat>, i: nat, c: nat)
    requires i < |q|
    ensures Times(q, c) == Times(RemoveAt(q, i), c) + if q[i] == c then 1 else 0
  {
    assert q == q[..i] + [q[i]] + q[i + 1..];
  }

  /** A worker step moves at most one task: from the queue to its hands, or from its hands to the finished ones. */
  predicate WorkerMovesTask(s: State, s': State, w: nat, c: nat) {
    && w < |s.workers| == |s'.workers|
    && s'.workers == s.workers[w := s'.workers[w]]
    && Times(s'.popped, c) + Times(s'.queue, c) == Times(s.popped, c) + Times(s.queue, c)
    && Holding(c)(s'.workers[w]) + Times(s'.finished, c) + Times(s.popped, c)
       == Holding(c)(s.workers[w]) + Times(s.finished, c) + Times(s'.popped, c)
  }

  lemma WorkerPops(v: Variant, s: State, w: nat, pick: nat, throws: bool, c: nat)
    requires WorkerCan(v, s, w, pick) && s.workers[w].Decide?
    ensures WorkerMovesTask(s, WorkerStep(v, s, w, pick, throws), w, c)
  {
    if s.queue != [] {
      RemoveAtTimes(s.queue, pick, c);
    }
  }

  lemma WorkerEnds(v: Variant, s: State, w: nat, pick: nat, throws: bool, c: nat)
    requires WorkerCan(v, s, w, pick) && s.workers[w].Running?
    ensures WorkerMovesTask(s, WorkerStep(v, s, w, pick, throws), w, c)
  {
  }

  lemma WorkerMoves(v: Variant, s: State, w: nat, pick: nat, throws: bool, c: nat)
    requires WorkerCan(v, s, w, pick)
    ensures WorkerMovesTask(s, WorkerStep(v, s, w, pick, throws), w, c)
  {
    if s.workers[w].Decide? {
      WorkerPops(v, s, w, pick, throws, c);
    } else if s.workers[w].Running? {
      WorkerEnds(v, s, w, pick, throws, c);
    }
  }

  lemma WorkerKeepsOrder(v: Variant, s: State, w: nat, pick: nat, throws: bool)
    requires WorkerCan(v, s, w, pick) && !v.byPriority
    ensures var s' := WorkerStep(v, s, w, pick, throws); s'.popped + s'.queue == s.popped + s.queue
  {
    if s.workers[w].Decide? && s.queue != [] {
      assert s.queue == [s.queue[0]] + RemoveAt(s.queue, 0);
    }
  }

  lemma TracedAfterWorker(s: State, s': State, w: nat, c: nat)
    requires WorkerMovesTask(s, s', w, c) && s'.enqueued == s.enqueued
    requires Times(s.popped, c) + Times(s.queue, c) == Times(s.enqueued, c)
    requires Sum(s.workers, Holding(c)) + Times(s.finished, c) == Times(s.popped, c)
    ensures Times(s'.popped, c) + Times(s'.queue, c) == Times(s'.enqueued, c)
    ensures Sum(s'.workers, Holding(c)) + Times(s'.finished, c) == Times(s'.popped, c)
  {
    SumUpdate(s.workers, w, s'.workers[w], Holding(c));
  }

  lemma WorkerKeepsTraced(v: Variant, s: State, w: nat, pick: nat, throws: bool)
    requires Traced(v, s) && WorkerCan(v, s, w, pick)
    ensures Traced(v, WorkerStep(v, s, w, pick, throws))
  {
    var s' := WorkerStep(v, s, w, pick, throws);
    forall c: nat
      ensures Times(s'.popped, c) + Times(s'.queue, c) == Times(s'.enqueued, c)
      ensures Sum(s'.workers, Holding(c)) + Times(s'.finished, c) == Times(s'.popped, c)
    {
      WorkerMoves(v, s, w, pick, throws, c);
      TracedAfterWorker(s, s', w, c);
    }
    if !v.byPriority {
      WorkerKeepsOrder(v, s, w, pick, throws);
    }
  }

  lemma WorkerLeaves(v: Variant, s: State, w: nat, pick: nat, throws: bool)
    requires WorkerCan(v, s, w, pick)
    ensures var s' := WorkerStep(v, s, w, pick, throws);
            && !s.workers[w].Exited?
            && if s'.workers[w].Exited? then s'.queue == [] && s'.exitMark == |s.enqueued|
               else s'.exitMark == s.exitMark
  {
  }

  lemma WorkerKeepsMarked(v: Variant, s: State, w: nat, pick: nat, throws: bool)
    requires Marked(s) && WorkerCan(v, s, w, pick)
    ensures Marked(WorkerStep(v, s, w, pick, throws))
  {
    var s' := WorkerStep(v, s, w, pick, throws);
    WorkerLeaves(v, s, w, pick, throws);
    SumUpdate(s.workers, w, s'.workers[w], Gone);
    if !s'.workers[w].Exited? {
      assert !AllExited(s');
    }
  }

  // ----- a sleeping worker is woken

  /** Waking is harmless anywhere: the woken worker evaluates its predicate again. */
  lemma WakeKeepsInv(v: Variant, s: State, w: nat)
    requires Inv(v, s) && w < |s.workers| && s.workers[w].Asleep?
    ensures Inv(v, Move(s, w, Acquire))
    ensures Sum(Move(s, w, Acquire).workers, Heading) == Sum(s.workers, Heading) + 1
  {
    var s' := Move(s, w, Acquire);
    SumUpdate(s.workers, w, Acquire, InFlight);
    SumUpdate(s.workers, w, Acquire, Heading);
    SumUpdate(s.workers, w, Acquire, AsleepOnCv);
    SumUpdate(s.workers, w, Acquire, Committed);
    SumUpdate(s.workers, w, Acquire, Gone);
    forall c: nat ensures Sum(s'.workers, Holding(c)) == Sum(s.workers, Holding(c)) {
      SumUpdate(s.workers, w, Acquire, Holding(c));
    }
    assert s'.workers[w] == Acquire;
    assert !AllExited(s');
  }

  // ----- submit

  lemma CallKeepsLocks(v: Variant, s: State, c: nat, sleeper: nat)
    requires MtxOwned(s) && EndOwned(s) && CallCan(s, c, sleeper) && !s.calls[c].at.NotifyOne?
    ensures var s' := CallStep(v, s, c, sleeper); MtxOwned(s') && EndOwned(s')
  {
  }

  lemma CallKeepsPoints(v: Variant, s: State, c: nat, sleeper: nat)
    requires MtxOwned(s) && Points(s) && CallCan(s, c, sleeper) && !s.calls[c].at.NotifyOne?
    ensures Points(CallStep(v, s, c, sleeper))
  {
  }

  lemma CallKeepsCounts(v: Variant, s: State, c: nat, sleeper: nat)
    requires Counted(s) && WorkConserved(s) && CallCan(s, c, sleeper) && !s.calls[c].at.NotifyOne?
    ensures var s' := CallStep(v, s, c, sleeper); Counted(s') && WorkConserved(s')
  {
    var x := CallStep(v, s, c, sleeper).calls[c];
    SumUpdate(s.calls, c, x, MidCall);
    SumUpdate(s.calls, c, x, Unnotified);
  }

  lemma CallKeepsSignalPending(v: Variant, s: State, c: nat, sleeper: nat)
    requires SignalPending(s) && s.count >= 0 && CallCan(s, c, sleeper) && !s.calls[c].at.NotifyOne?
    ensures SignalPending(CallStep(v, s, c, sleeper))
  {
  }

  lemma EmplaceKeepsTraced(v: Variant, s: State, c: nat, sleeper: nat)
    requires Traced(v, s) && CallCan(s, c, sleeper) && s.calls[c].at.Emplace?
    ensures Traced(v, CallStep(v, s, c, sleeper))
  {
    var s' := CallStep(v, s, c, sleeper);
    assert s.popped + (s.queue + [c]) == (s.popped + s.queue) + [c];
    forall d: nat
      ensures Times(s'.queue, d) == Times(s.queue, d) + (if d == c then 1 else 0)
      ensures Times(s'.enqueued, d) == Times(s.enqueued, d) + (if d == c then 1 else 0)
    {
    }
  }

  /** The histories do not care about a step that moves no task. */
  lemma TracedAfterCall(v: Variant, s: State, s': State, c: nat)
    requires Traced(v, s) && c < |s.calls| == |s'.calls| && s'.calls == s.calls[c := s'.calls[c]]
    requires HasEmplaced(s'.calls[c].at) == HasEmplaced(s.calls[c].at)
    requires s'.workers == s.workers && s'.queue == s.queue
    requires s'.popped == s.popped && s'.enqueued == s.enqueued && s'.finished == s.finished
    ensures Traced(v, s')
  {
  }

  lemma CallKeepsTraced(v: Variant, s: State, c: nat, sleeper: nat)
    requires Traced(v, s) && CallCan(s, c, sleeper) && !s.calls[c].at.NotifyOne?
    ensures Traced(v, CallStep(v, s, c, sleeper))
  {
    if s.calls[c].at.Emplace? {
      EmplaceKeepsTraced(v, s, c, sleeper);
    } else {
      TracedAfterCall(v, s, CallStep(v, s, c, sleeper), c);
    }
  }

  lemma CallKeepsMarked(v: Variant, s: State, c: nat, sleeper: nat)
    requires Marked(s) && CallCan(s, c, sleeper) && !s.calls[c].at.NotifyOne?
    ensures Marked(CallStep(v, s, c, sleeper))
  {
    var s' := CallStep(v, s, c, sleeper);
    if s.calls[c].at.Emplace? {
      assert (s.enqueued + [c])[s.exitMark..] == s.enqueued[s.exitMark..] + [c];
    }
  }

  lemma AcceptKeepsPoints(s: State, c: nat)
    requires MtxOwned(s) && EndOwned(s) && Points(s) && c < |s.calls| && s.calls[c].at.NotifyOne?
    ensures var s' := Advance(s, c, Accepted); MtxOwned(s') && EndOwned(s') && Points(s')
  {
  }

  /** Returning from submit; a sleeper that should have been notified may already be on its way. */
  lemma AcceptKeepsInv(v: Variant, s: State, c: nat)
    requires Inv(v, s) && c < |s.calls| && s.calls[c].at.NotifyOne?
    requires Sum(s.workers, AsleepOnCv) > 0 ==> |s.queue| < Sum(s.calls, Unnotified) + Sum(s.workers, Heading)
    ensures Inv(v, Advance(s, c, Accepted))
  {
    var s' := Advance(s, c, Accepted);
    SumUpdate(s.calls, c, s'.calls[c], MidCall);
    SumUpdate(s.calls, c, s'.calls[c], Unnotified);
    TracedAfterCall(v, s, s', c);
    AcceptKeepsPoints(s, c);
  }

  /** The last step of submit wakes a sleeper when there is one. */
  lemma NotifyKeepsInv(v: Variant, s: State, c: nat, sleeper: nat)
    requires Inv(v, s) && CallCan(s, c, sleeper) && s.calls[c].at.NotifyOne?
    ensures Inv(v, CallStep(v, s, c, sleeper))
  {
    if Sum(s.workers, AsleepOnCv) == 0 {
      AcceptKeepsInv(v, s, c);
    } else {
      var woken := Move(s, sleeper, Acquire);
      WakeKeepsInv(v, s, sleeper);
      AcceptKeepsInv(v, woken, c);
      assert CallStep(v, s, c, sleeper) == Advance(woken, c, Accepted);
    }
  }

  /** At most one call stands between emplace and fetch_add, and its task is still in the queue. */
  lemma MidCallQueued(s: State)
    requires MtxOwned(s) && Points(s)
    ensures Sum(s.calls, MidCall) <= 1
    ensures forall c :: 0 <= c < |s.calls| && s.calls[c].at.CountUp? ==> Sum(s.calls, MidCall) == 1 && c in s.queue
    ensures Sum(s.calls, MidCall) == 1 ==> s.queue != []
  {
    SumPositive(s.calls, MidCall);
    if Sum(s.calls, MidCall) > 0 {
      var c :| 0 <= c < |s.calls| && MidCall(s.calls[c]) > 0;
      assert s.mtx == ByCall(c);
      SumSingle(s.calls, c, MidCall);
    }
  }

  lemma CountNonNegative(s: State)
    requires MtxOwned(s) && Points(s) && Counted(s)
    ensures s.count >= 0
  {
    MidCallQueued(s);
  }

  lemma CallKeepsInv(v: Variant, s: State, c: nat, sleeper: nat)
    requires Inv(v, s) && CallCan(s, c, sleeper)
    ensures Inv(v, CallStep(v, s, c, sleeper))
  {
    if s.calls[c].at.NotifyOne? {
      NotifyKeepsInv(v, s, c, sleeper);
    } else {
      CallKeepsLocks(v, s, c, sleeper);
      CallKeepsPoints(v, s, c, sleeper);
      CallKeepsCounts(v, s, c, sleeper);
      CountNonNegative(s);
      CallKeepsSignalPending(v, s, c, sleeper);
      CallKeepsTraced(v, s, c, sleeper);
      CallKeepsMarked(v, s, c, sleeper);
    }
  }

  lemma WorkerKeepsInv(v: Variant, s: State, w: nat, pick: nat, throws: bool)
    requires Inv(v, s) && WorkerCan(v, s, w, pick)
    ensures Inv(v, WorkerStep(v, s, w, pick, throws))
  {
    WorkerKeepsLocks(v, s, w, pick, throws);
    WorkerKeepsQueuePoints(v, s, w, pick, throws);
    WorkerKeepsShutdownPoints(v, s, w, pick, throws);
    WorkerKeepsCounted(v, s, w, pick, throws);
    WorkerKeepsWorkConserved(v, s, w, pick, throws);
    WorkerKeepsSignalPending(v, s, w, pick, throws);
    WorkerKeepsTraced(v, s, w, pick, throws);
    WorkerKeepsMarked(v, s, w, pick, throws);
  }

  // ----- the waiter, the destructor and the environment

  /** A step that only moves locks, the waiter or the destructor leaves the tasks and the counter where they are. */
  lemma TasksUntouched(v: Variant, s: State, s': State)
    requires Counted(s) && WorkConserved(s) && Traced(v, s)
    requires s'.workers == s.workers && s'.calls == s.calls && s'.queue == s.queue && s'.count == s.count
    requires s'.enqueued == s.enqueued && s'.popped == s.popped && s'.finished == s.finished
    ensures Counted(s') && WorkConserved(s') && Traced(v, s')
  {
  }

  lemma WaiterKeepsLocks(s: State)
    requires MtxOwned(s) && EndOwned(s) && SignalPending(s) && WaiterCan(s)
    ensures var s' := WaiterStep(s); MtxOwned(s') && EndOwned(s') && SignalPending(s')
  {
  }

  lemma PointsUntouched(s: State, s': State)
    requires Points(s) && Marked(s)
    requires s'.workers == s.workers && s'.calls == s.calls && s'.queue == s.queue && s'.enqueued == s.enqueued
    requires s'.stop == s.stop && s'.stopMark == s.stopMark && s'.exitMark == s.exitMark
    requires s'.dtor == s.dtor || (s.dtor.Live? && s'.dtor.LockMtx?)
    ensures Points(s') && Marked(s')
  {
  }

  lemma WaiterKeepsInv(v: Variant, s: State)
    requires Inv(v, s) && WaiterCan(s)
    ensures Inv(v, WaiterStep(s))
  {
    var s' := WaiterStep(s);
    WaiterKeepsLocks(s);
    TasksUntouched(v, s, s');
    PointsUntouched(s, s');
  }

  /** notify_all leaves nobody asleep and changes nothing else that is counted. */
  lemma WakeAllSums(ws: seq<Worker>)
    ensures var ws' := WakeAll(ws);
            && Sum(ws', InFlight) == Sum(ws, InFlight) && Sum(ws', Committed) == Sum(ws, Committed)
            && Sum(ws', Gone) == Sum(ws, Gone) && Sum(ws', AsleepOnCv) == 0
            && forall c: nat :: Sum(ws', Holding(c)) == Sum(ws, Holding(c))
  {
    var ws' := WakeAll(ws);
    SumSame(ws, ws', InFlight);
    SumSame(ws, ws', Committed);
    SumSame(ws, ws', Gone);
    SumPositive(ws', AsleepOnCv);
    forall c: nat ensures Sum(ws', Holding(c)) == Sum(ws, Holding(c)) {
      SumSame(ws, ws', Holding(c));
    }
  }

  lemma WakeAllKeepsLocks(s: State)
    requires MtxOwned(s) && EndOwned(s) && Points(s) && s.dtor.NotifyAll?
    ensures var s' := DestructorStep(s); MtxOwned(s') && EndOwned(s') && Points(s')
    ensures AllExited(DestructorStep(s)) ==> AllExited(s)
  {
    var ws' := DestructorStep(s).workers;
    assert forall w :: 0 <= w < |s.workers| ==> ws'[w] == Awakened(s.workers[w]);
  }

  lemma NotifyAllKeepsInv(v: Variant, s: State)
    requires Inv(v, s) && s.dtor.NotifyAll?
    ensures Inv(v, DestructorStep(s))
  {
    WakeAllSums(s.workers);
    WakeAllKeepsLocks(s);
  }

  lemma DestructorKeepsPoints(s: State)
    requires MtxOwned(s) && EndOwned(s) && Points(s) && DestructorCan(s) && !s.dtor.NotifyAll?
    ensures var s' := DestructorStep(s); MtxOwned(s') && EndOwned(s') && Points(s')
  {
  }

  lemma DestructorKeepsMarked(s: State)
    requires Marked(s) && Points(s) && DestructorCan(s) && !s.dtor.NotifyAll?
    ensures Marked(DestructorStep(s))
  {
    SumPositive(s.workers, Gone);
  }

  lemma DestructorKeepsInv(v: Variant, s: State)
    requires Inv(v, s) && DestructorCan(s)
    ensures Inv(v, DestructorStep(s))
  {
    if s.dtor.NotifyAll? {
      NotifyAllKeepsInv(v, s);
    } else {
      DestructorKeepsPoints(s);
      DestructorKeepsMarked(s);
      TasksUntouched(v, s, DestructorStep(s));
    }
  }

  lemma NewCallKeepsInv(v: Variant, s: State, priority: int)
    requires Inv(v, s)
    ensures Inv(v, s.(calls := s.calls + [Call(priority, CheckStop)]))
  {
    var x := Call(priority, CheckStop);
    var s' := s.(calls := s.calls + [x]);
    SumAppend(s.calls, x, MidCall);
    SumAppend(s.calls, x, Unnotified);
    assert Traced(v, s');
  }

  /** A waiter that starts or is woken for no reason, a destructor that starts. */
  lemma StimulusKeepsInv(v: Variant, s: State, a: Action)
    requires Inv(v, s) && Enabled(v, s, a) && (a.NewWait? || a.NewDestruct? || a.SpuriousWaiter?)
    ensures Inv(v, Step(v, s, a))
  {
    var s' := Step(v, s, a);
    TasksUntouched(v, s, s');
    PointsUntouched(s, s');
  }

  /** Every step of every thread keeps the invariant. */
  lemma StepKeepsInv(v: Variant, s: State, a: Action)
    requires Inv(v, s) && Enabled(v, s, a)
    ensures Inv(v, Step(v, s, a))
  {
    match a
    case Work(w, pick, throws) => WorkerKeepsInv(v, s, w, pick, throws);
    case Submit(c, sleeper) => CallKeepsInv(v, s, c, sleeper);
    case Await => WaiterKeepsInv(v, s);
    case Destruct => DestructorKeepsInv(v, s);
    case NewCall(p) => NewCallKeepsInv(v, s, p);
    case SpuriousWorker(w) => WakeKeepsInv(v, s, w);
    case _ => StimulusKeepsInv(v, s, a);
  }

  /** Safety over whole runs: the invariant holds at the end of every run, hence throughout. */
  lemma {:induction false} RunKeepsInv(v: Variant, s: State, run: seq<Action>)
    requires Inv(v, s) && IsRun(v, s, run)
    ensures Inv(v, Outcome(v, s, run))
    decreases |run|
  {
    if run != [] {
      StepKeepsInv(v, s, run[0]);
      RunKeepsInv(v, Step(v, s, run[0]), run[1..]);
    }
  }
}
