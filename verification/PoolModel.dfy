/**
 The thread pool as a transition system. Every atomic action of a worker, a submit call, the completion waiter and the
 destructor is one step; the steps of different threads interleave freely. A thread's program point is the value
 of its datatype, so a step is determined by the thread that takes it, apart from the choices the library makes: which
 sleeper a notification wakes, which of several equally urgent tasks a priority queue yields, whether a task throws.
 */
module PoolModel {
  import opened Sums

  /** What distinguishes the pools of the repository. */
  datatype Variant = Variant(
    atomicCheck: bool,        // fetch_sub(1) == 1, rather than a decrement followed by a separate read
    byPriority: bool,         // std::priority_queue rather than std::queue
    rejectsAfterStop: bool,   // submit tests the stop flag, before it takes the lock
    absorbsExceptions: bool)  // the task runs inside try/catch

  const NETWORK_POOL := Variant(true, false, true, false)
  const FIFO_POOL := Variant(false, false, false, false)
  const PRIORITY_POOL := Variant(false, true, false, true)

  /** Program points of a worker. */
  datatype Worker =
    | Acquire             // about to lock mtx: at the top of the loop, or woken inside cv.wait
    | Evaluate            // holds mtx, about to evaluate the wait predicate
    | Block               // holds mtx, predicate was false, about to release mtx and sleep
    | Asleep              // in the wait set of cv
    | Decide              // holds mtx, predicate was true
    | Popped(task: nat)   // holds mtx, task taken off the queue
    | Running(task: nat)  // holds no lock, executing the task
    | Returned            // task over, count not yet decremented
    | Reread              // two-step variants: decremented, count not yet read
    | Signal              // saw completion, about to lock end_mtx
    | Notify              // holds end_mtx, about to notify
    | Release             // holds end_mtx, has notified
    | Exited

  /** Program points of one call of submit. */
  datatype CallPoint =
    | CheckStop  // about to read the stop flag
    | Lock       // about to lock mtx
    | Emplace    // holds mtx
    | CountUp    // holds mtx, task emplaced, count not yet incremented
    | Unlock     // holds mtx
    | NotifyOne  // lock released, cv not yet notified
    | Accepted   // returned, task handed over
    | Rejected   // returned without a trace

  /** The index of a call serves as the identity of its task. */
  datatype Call = Call(priority: int, at: CallPoint)

  datatype Destructor = Live | LockMtx | StoreStop | UnlockMtx | NotifyAll | Join(next: nat) | Destroyed

  /** The thread that waits on end_cv for completion. */
  datatype Waiter =
    | Idle
    | Locking      // wants end_mtx: at the start of the wait or woken
    | Reading      // holds end_mtx, about to read count
    | Blocking     // holds end_mtx, has read a nonzero count
    | Sleeping     // in the wait set of end_cv
    | Leaving      // holds end_mtx, has read zero

  datatype Owner = Free | ByWorker(worker: nat) | ByCall(call: nat) | ByDestructor | ByWaiter

  datatype State = State(
    workers: seq<Worker>, calls: seq<Call>, dtor: Destructor, waiter: Waiter,
    mtx: Owner, endMtx: Owner, stop: bool, queue: seq<nat>, count: int,
    aborted: bool,        // an exception left a worker: std::terminate
    // histories
    enqueued: seq<nat>,   // tasks in the order they were emplaced
    popped: seq<nat>,     // tasks in the order they were taken off the queue
    finished: seq<nat>,   // tasks in the order they ended
    stopMark: nat,        // number of tasks enqueued when stop was stored
    exitMark: nat)        // number of tasks enqueued when the latest worker to exit did so

  datatype Action =
    | Work(worker: nat, pick: nat, throws: bool)
    | Submit(call: nat, sleeper: nat)
    | Await
    | Destruct
    // Stimuli from outside the pool
    | NewCall(priority: int)
    | NewWait
    | NewDestruct
    | SpuriousWorker(worker: nat)
    | SpuriousWaiter

  /** The steps the pool takes by itself. */
  predicate Internal(a: Action) {
    a.Work? || a.Submit? || a.Await? || a.Destruct?
  }

  function AsleepOnCv(w: Worker): nat { if w.Asleep? then 1 else 0 }

  function Init(n: nat): State {
    State(seq(n, _ => Acquire), [], Live, Idle, Free, Free, false, [], 0, false, [], [], [], 0, 0)
  }

  // ----- workers

  function PriorityOf(s: State, c: nat): int {
    if c < |s.calls| then s.calls[c].priority else 0
  }

  /** A queue yields its oldest element, a priority queue any element of highest priority. */
  predicate Yields(v: Variant, s: State, i: nat) {
    && i < |s.queue|
    && if v.byPriority
       then forall j :: 0 <= j < |s.queue| ==> PriorityOf(s, s.queue[j]) <= PriorityOf(s, s.queue[i])
       else i == 0
  }

  predicate WorkerCan(v: Variant, s: State, w: nat, pick: nat) {
    && w < |s.workers|
    && match s.workers[w]
       case Acquire => s.mtx == Free
       case Signal => s.endMtx == Free
       case Decide => s.queue == [] || Yields(v, s, pick)
       case Asleep => false
       case Exited => false
       case _ => true
  }

  function Move(s: State, w: nat, x: Worker): State
    requires w < |s.workers|
  {
    s.(workers := s.workers[w := x])
  }

  function RemoveAt(q: seq<nat>, i: nat): seq<nat>
    requires i < |q|
  {
    q[..i] + q[i + 1..]
  }

  /** The program point a worker goes to. */
  function WorkerNext(v: Variant, s: State, w: nat, pick: nat, throws: bool): Worker
    requires WorkerCan(v, s, w, pick)
  {
    match s.workers[w]
    case Acquire => Evaluate
    case Evaluate => if s.queue != [] || s.stop then Decide else Block
    case Block => Asleep
    case Decide =>
      if s.stop && s.queue == [] then Exited
      else if s.queue == [] then Acquire
      else Popped(s.queue[pick])
    case Popped(t) => Running(t)
    case Running(t) => if throws && !v.absorbsExceptions then Running(t) else Returned
    case Returned => if !v.atomicCheck then Reread else if s.count == 1 then Signal else Acquire
    case Reread => if s.count == 0 then Signal else Acquire
    case Signal => Notify
    case Notify => Release
    case Release => Acquire
  }

  /** What the step does to the shared state. */
  function WorkerStep(v: Variant, s: State, w: nat, pick: nat, throws: bool): State
    requires WorkerCan(v, s, w, pick)
  {
    var x := WorkerNext(v, s, w, pick, throws);
    var s' := Move(s, w, x);
    match s.workers[w]
    case Acquire => s'.(mtx := ByWorker(w))
    case Block => s'.(mtx := Free)
    case Decide =>
      if x.Popped? then s'.(queue := RemoveAt(s.queue, pick), popped := s.popped + [s.queue[pick]])
      else if x.Exited? then s'.(mtx := Free, exitMark := |s.enqueued|)
      else s'.(mtx := Free)
    case Popped(t) => s'.(mtx := Free)
    case Running(t) => if x.Returned? then s'.(finished := s.finished + [t]) else s'.(aborted := true)
    case Returned => s'.(count := s.count - 1)
    case Signal => s'.(endMtx := ByWorker(w))
    case Notify => s'.(waiter := if s.waiter.Sleeping? then Locking else s.waiter)
    case Release => s'.(endMtx := Free)
    case _ => s'
  }

  // ----- submit

  predicate CallCan(s: State, c: nat, sleeper: nat) {
    && c < |s.calls|
    && match s.calls[c].at
       case Lock => s.mtx == Free
       case NotifyOne => Sum(s.workers, AsleepOnCv) == 0 || (sleeper < |s.workers| && s.workers[sleeper].Asleep?)
       case Accepted => false
       case Rejected => false
       case _ => true
  }

  function Advance(s: State, c: nat, p: CallPoint): State
    requires c < |s.calls|
  {
    s.(calls := s.calls[c := s.calls[c].(at := p)])
  }

  function CallStep(v: Variant, s: State, c: nat, sleeper: nat): State
    requires CallCan(s, c, sleeper)
  {
    match s.calls[c].at
    case CheckStop => Advance(s, c, if v.rejectsAfterStop && s.stop then Rejected else Lock)
    case Lock => Advance(s, c, Emplace).(mtx := ByCall(c))
    case Emplace => Advance(s, c, CountUp).(queue := s.queue + [c], enqueued := s.enqueued + [c])
    case CountUp => Advance(s, c, Unlock).(count := s.count + 1)
    case Unlock => Advance(s, c, NotifyOne).(mtx := Free)
    case NotifyOne =>
      var s' := Advance(s, c, Accepted);
      if Sum(s.workers, AsleepOnCv) == 0 then s' else Move(s', sleeper, Acquire)
  }

  // ----- completion waiter

  predicate WaiterCan(s: State) {
    match s.waiter
    case Idle => false
    case Sleeping => false
    case Locking => s.endMtx == Free
    case _ => true
  }

  function WaiterStep(s: State): State
    requires WaiterCan(s)
  {
    match s.waiter
    case Locking => s.(waiter := Reading, endMtx := ByWaiter)
    case Reading => s.(waiter := if s.count == 0 then Leaving else Blocking)
    case Blocking => s.(waiter := Sleeping, endMtx := Free)
    case Leaving => s.(waiter := Idle, endMtx := Free)
  }

  // ----- destructor

  predicate DestructorCan(s: State) {
    match s.dtor
    case Live => false
    case Destroyed => false
    case LockMtx => s.mtx == Free
    case Join(i) => i < |s.workers| ==> s.workers[i].Exited?
    case _ => true
  }

  function Awakened(w: Worker): Worker { if w.Asleep? then Acquire else w }

  function WakeAll(workers: seq<Worker>): (r: seq<Worker>) {
    seq(|workers|, i requires 0 <= i < |workers| => Awakened(workers[i]))
  }

  function DestructorStep(s: State): State
    requires DestructorCan(s)
  {
    match s.dtor
    case LockMtx => s.(dtor := StoreStop, mtx := ByDestructor)
    case StoreStop => s.(dtor := UnlockMtx, stop := true, stopMark := |s.enqueued|)
    case UnlockMtx => s.(dtor := NotifyAll, mtx := Free)
    case NotifyAll => s.(dtor := Join(0), workers := WakeAll(s.workers))
    case Join(i) => s.(dtor := if i < |s.workers| then Join(i + 1) else Destroyed)
  }

  // ----- the whole pool

  predicate Enabled(v: Variant, s: State, a: Action) {
    && !s.aborted
    && match a
       case Work(w, pick, _) => WorkerCan(v, s, w, pick)
       case Submit(c, sleeper) => CallCan(s, c, sleeper)
       case Await => WaiterCan(s)
       case Destruct => DestructorCan(s)
       case NewCall(_) => true
       case NewWait => s.waiter.Idle?
       case NewDestruct => s.dtor.Live?
       case SpuriousWorker(w) => w < |s.workers| && s.workers[w].Asleep?
       case SpuriousWaiter => s.waiter.Sleeping?
  }

  function Step(v: Variant, s: State, a: Action): State
    requires Enabled(v, s, a)
  {
    match a
    case Work(w, pick, throws) => WorkerStep(v, s, w, pick, throws)
    case Submit(c, sleeper) => CallStep(v, s, c, sleeper)
    case Await => WaiterStep(s)
    case Destruct => DestructorStep(s)
    case NewCall(p) => s.(calls := s.calls + [Call(p, CheckStop)])
    case NewWait => s.(waiter := Locking)
    case NewDestruct => s.(dtor := LockMtx)
    case SpuriousWorker(w) => Move(s, w, Acquire)
    case SpuriousWaiter => s.(waiter := Locking)
  }

  /** A run: a list of actions, each enabled in the state the previous ones lead to. */
  predicate IsRun(v: Variant, s: State, run: seq<Action>)
    decreases |run|
  {
    run == [] || (Enabled(v, s, run[0]) && IsRun(v, Step(v, s, run[0]), run[1..]))
  }

  function Outcome(v: Variant, s: State, run: seq<Action>): State
    requires IsRun(v, s, run)
    decreases |run|
  {
    if run == [] then s else Outcome(v, Step(v, s, run[0]), run[1..])
  }
}
