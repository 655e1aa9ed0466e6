/**
 What the event loops share: the log of a pass over ready descriptors, the calls it stands for, and rounds of passes.
 */
module Descriptors {
  import opened Sets
  import opened SystemCalls

  function Max(a: int, b: int): int { if a < b then b else a }

  /** *client_fds.begin(): the set is ordered with the greatest element first. */
  method Begin(s: set<int>) returns (m: int)
    requires s != {}
    ensures IsMax(m, s)
  {
    MaxExists(s);
    m :| m in s && forall x :: x in s ==> x <= m;
  }

  /** What happened at one ready descriptor. */
  datatype Event =
    | Accepted(listener: int, fd: int)
    | AcceptFailed(listener: int)
    | Served(fd: int, len: int)     // answered on the spot
    | Queued(fd: int, len: int)     // the answer is left to the thread pool
    | Closed(fd: int, len: int)     // after recv has reported the end or an error
    | Dropped(fd: int)              // closed without asking recv
    | ShutDown(fd: int)             // closed because the flag was found cleared

  /** The ready descriptor the event was about. */
  function Subject(e: Event): int {
    match e
    case Accepted(l, _) => l
    case AcceptFailed(l) => l
    case Served(fd, _) => fd
    case Queued(fd, _) => fd
    case Closed(fd, _) => fd
    case Dropped(fd) => fd
    case ShutDown(fd) => fd
  }

  /** What the event does to the set of clients. */
  function Effect(clients: set<int>, e: Event): set<int> {
    match e
    case Accepted(_, fd) => clients + {fd}
    case AcceptFailed(_) => clients
    case Served(_, _) => clients
    case Queued(_, _) => clients
    case Closed(fd, _) => clients - {fd}
    case Dropped(fd) => clients - {fd}
    case ShutDown(fd) => clients - {fd}
  }

  function ClientsAfter(clients: set<int>, log: seq<Event>): set<int> {
    if log == [] then clients else Effect(ClientsAfter(clients, log[..|log| - 1]), log[|log| - 1])
  }

  lemma ClientsAfterNone(clients: set<int>)
    ensures ClientsAfter(clients, []) == clients
  {
  }

  lemma ClientsAfterOneMore(clients: set<int>, log: seq<Event>, e: Event)
    ensures ClientsAfter(clients, log + [e]) == Effect(ClientsAfter(clients, log), e)
  {
    assert (log + [e])[..|log|] == log;
  }

  /** The calls an event consists of. */
  function Calls(e: Event): seq<KernelCall> {
    match e
    case Accepted(l, fd) => [AcceptCall(l, fd)]
    case AcceptFailed(l) => [AcceptCall(l, -1)]
    case Served(fd, len) => [RecvCall(fd, len), SendCall(fd)]
    case Queued(fd, len) => [RecvCall(fd, len), SubmitCall(fd)]
    case Closed(fd, len) => [RecvCall(fd, len), CloseCall(fd)]
    case Dropped(fd) => [CloseCall(fd)]
    case ShutDown(fd) => [StopSeen, CloseCall(fd)]
  }

  function Trace(log: seq<Event>): seq<KernelCall> {
    if log == [] then [] else Trace(log[..|log| - 1]) + Calls(log[|log| - 1])
  }

  /** Data is answered, and the end of a stream or an error closes it. */
  predicate Justified(e: Event) {
    match e
    case Accepted(_, fd) => fd >= 0
    case Served(_, len) => len > 0
    case Queued(_, len) => len > 0
    case Closed(_, len) => len <= 0
    case _ => true
  }

  /** The descriptors the log is about, in its order. */
  function Subjects(log: seq<Event>): seq<int> {
    seq(|log|, i requires 0 <= i < |log| => Subject(log[i]))
  }

  /** The calls since then serve the subjects of the log. */
  ghost predicate AllServed(listener: int, manner: Manner, log: seq<Event>, before: seq<KernelCall>,
                            after: seq<KernelCall>) {
    before <= after && ServesAll(listener, manner, Subjects(log), Since(before, after))
  }

  /** The events of the log are what has been called between two moments: these calls in this order and no others. */
  ghost predicate Performed(log: seq<Event>, before: seq<KernelCall>, after: seq<KernelCall>) {
    after == before + Trace(log) && forall e :: e in log ==> Justified(e)
  }

  /** An event of a client that is fit for the manner of the server serves its subject. */
  lemma ClientServed(listener: int, manner: Manner, e: Event, before: seq<KernelCall>, after: seq<KernelCall>)
    requires Justified(e) && after == before + Calls(e) && Subject(e) != listener
    requires e.Closed? || (e.Served? && !manner.Pooling?) || (e.Queued? && manner.Pooling?) ||
             (e.ShutDown? && manner.Stoppable?)
    ensures before <= after && Serves(listener, manner, Subject(e), Since(before, after))
    ensures Performed([e], before, after)
  {
    assert Since(before, after) == Calls(e);
    assert [e][..0] == [];
  }

  lemma ServedNone(listener: int, manner: Manner, calls: seq<KernelCall>)
    ensures AllServed(listener, manner, [], calls, calls)
  {
    ServesNone(listener, manner);
    assert Subjects([]) == [] && Since(calls, calls) == [];
  }

  lemma ServedOneMore(listener: int, manner: Manner, log: seq<Event>, e: Event,
                      x: seq<KernelCall>, y: seq<KernelCall>, z: seq<KernelCall>)
    requires AllServed(listener, manner, log, x, y)
    requires y <= z && Serves(listener, manner, Subject(e), Since(y, z))
    ensures AllServed(listener, manner, log + [e], x, z)
  {
    ServesOneMore(listener, manner, Subjects(log), Since(x, y), Subject(e), Since(y, z));
    assert Subjects(log + [e]) == Subjects(log) + [Subject(e)];
    assert Since(x, z) == Since(x, y) + Since(y, z);
  }

  predicate AtListener(e: Event) { e.Accepted? || e.AcceptFailed? }

  /** A server that answers on the spot: the listener accepts, a client is served or closed. */
  predicate OnTheSpot(listener: int, e: Event) {
    if Subject(e) == listener then AtListener(e) else e.Served? || e.Closed?
  }

  /** A server that leaves the answers to its pool. */
  predicate LeftToPool(listener: int, e: Event) {
    if Subject(e) == listener then AtListener(e) else e.Queued? || e.Closed?
  }

  lemma PerformedTrace(log: seq<Event>, before: seq<KernelCall>, after: seq<KernelCall>)
    requires Performed(log, before, after)
    ensures before <= after && Since(before, after) == Trace(log)
  {
  }

  lemma PerformedNone(calls: seq<KernelCall>)
    ensures Performed([], calls, calls)
  {
  }

  lemma NoTrace()
    ensures Trace([]) == []
  {
  }

  lemma PerformedOne(e: Event, calls: seq<KernelCall>)
    requires Justified(e)
    ensures Performed([e], calls, calls + Calls(e))
  {
    assert [e][..0] == [];
  }

  lemma {:induction false} TraceAppend(a: seq<Event>, b: seq<Event>)
    ensures Trace(a + b) == Trace(a) + Trace(b)
  {
    hide Calls;
    if b == [] {
      assert a + b == a;
    } else {
      var n := |b| - 1;
      assert (a + b)[..|a + b| - 1] == a + b[..n];
      TraceAppend(a, b[..n]);
    }
  }

  lemma PerformedInTurn(a: seq<Event>, b: seq<Event>, x: seq<KernelCall>, y: seq<KernelCall>, z: seq<KernelCall>)
    requires Performed(a, x, y) && Performed(b, y, z)
    ensures Performed(a + b, x, z)
  {
    hide Trace, Justified;
    TraceAppend(a, b);
  }

  /** The subjects are the descriptors of ready, each once, in ascending order. */
  ghost predicate HandlesExactly(log: seq<Event>, ready: set<int>) {
    && (forall i, j :: 0 <= i < j < |log| ==> Subject(log[i]) < Subject(log[j]))
    && (forall i :: 0 <= i < |log| ==> Subject(log[i]) in ready)
    && (forall x :: x in ready ==> exists i :: 0 <= i < |log| && Subject(log[i]) == x)
  }

  /** A connection accepted in the pass is not handled in it, even under a number that was ready before. */
  ghost predicate NewcomersWait(log: seq<Event>) {
    forall i, j :: 0 <= i < j < |log| && log[i].Accepted? ==> Subject(log[j]) != log[i].fd
  }

  /** Handling one more descriptor, beyond all handled so far. */
  lemma HandlesOneMore(log: seq<Event>, ready: set<int>, e: Event)
    requires HandlesExactly(log, ready) && forall x :: x in ready ==> x < Subject(e)
    ensures HandlesExactly(log + [e], ready + {Subject(e)})
  {
    var log', ready' := log + [e], ready + {Subject(e)};
    forall x | x in ready' ensures exists i :: 0 <= i < |log'| && Subject(log'[i]) == x {
      if x in ready {
        var i :| 0 <= i < |log| && Subject(log[i]) == x;
        assert Subject(log'[i]) == x;
      } else {
        assert Subject(log'[|log|]) == x;
      }
    }
  }

  ghost function Below(ready: set<int>, fd: int): set<int> {
    set x | x in ready && x < fd
  }

  /** What the log says when an ascending scan over ready has come to fd. */
  ghost predicate Scanned(log: seq<Event>, ready: set<int>, fd: int) {
    && HandlesExactly(log, Below(ready, fd)) && NewcomersWait(log)
    && forall i :: 0 <= i < |log| && log[i].Accepted? ==> log[i].fd < fd || log[i].fd !in ready
  }

  lemma ScannedNone(ready: set<int>, fd: int)
    requires forall x :: x in ready ==> x >= fd
    ensures Scanned([], ready, fd)
  {
  }

  lemma NewcomersStillWait(log: seq<Event>, e: Event)
    requires NewcomersWait(log) && forall i :: 0 <= i < |log| && log[i].Accepted? ==> log[i].fd != Subject(e)
    ensures NewcomersWait(log + [e])
  {
  }

  lemma ScannedOneMore(log: seq<Event>, ready: set<int>, fd: int, e: Event)
    requires Scanned(log, ready, fd) && fd in ready && Subject(e) == fd
    requires e.Accepted? ==> e.fd < fd || e.fd !in ready
    ensures Scanned(log + [e], ready, fd + 1)
  {
    assert Below(ready, fd + 1) == Below(ready, fd) + {fd};
    HandlesOneMore(log, Below(ready, fd), e);
    NewcomersStillWait(log, e);
  }

  lemma ScannedPast(log: seq<Event>, ready: set<int>, fd: int)
    requires Scanned(log, ready, fd) && fd !in ready
    ensures Scanned(log, ready, fd + 1)
  {
    assert Below(ready, fd + 1) == Below(ready, fd);
  }

  lemma ScannedAll(log: seq<Event>, ready: set<int>, fd: int)
    requires Scanned(log, ready, fd) && forall x :: x in ready ==> x < fd
    ensures HandlesExactly(log, ready) && NewcomersWait(log)
  {
    assert Below(ready, fd) == ready;
  }

  lemma {:induction false} EventIsTraced(log: seq<Event>, e: Event, c: KernelCall)
    requires e in log && c in Calls(e)
    ensures c in Trace(log)
    decreases |log|
  {
    if e != log[|log| - 1] {
      EventIsTraced(log[..|log| - 1], e, c);
    }
  }

  /** Only an event about a descriptor closes it. */
  lemma {:induction false} ClosedByEvent(log: seq<Event>, fd: int) returns (e: Event)
    requires CloseCall(fd) in Trace(log)
    ensures e in log && Subject(e) == fd && CloseCall(fd) in Calls(e)
    decreases |log|
  {
    e := log[|log| - 1];
    if CloseCall(fd) !in Calls(e) {
      e := ClosedByEvent(log[..|log| - 1], fd);
    }
  }

  /** A pass that handles each descriptor once does not close one it has just left to the pool. */
  lemma QueuedIsNotClosed(log: seq<Event>, ready: set<int>, e: Event)
    requires HandlesExactly(log, ready) && e in log && e.Queued?
    ensures CloseCall(e.fd) !in Trace(log)
  {
    if CloseCall(e.fd) in Trace(log) {
      var c := ClosedByEvent(log, e.fd);
    }
  }

  // ----- rounds

  /** One round of a server: the call that waits for events, and what was done about them. */
  datatype Round = Round(call: KernelCall, log: seq<Event>)

  /** What has been called in these rounds. */
  function RoundsTrace(rounds: seq<Round>): seq<KernelCall> {
    if rounds == [] then []
    else
      var r := rounds[|rounds| - 1];
      RoundsTrace(rounds[..|rounds| - 1]) + [r.call] + Trace(r.log)
  }

  function ClientsAfterRounds(clients: set<int>, rounds: seq<Round>): set<int> {
    if rounds == [] then clients
    else ClientsAfter(ClientsAfterRounds(clients, rounds[..|rounds| - 1]), rounds[|rounds| - 1].log)
  }

  /** Every round is right for the clients of its moment. */
  ghost predicate AllRight(right: (set<int>, Round) -> bool, clients: set<int>, rounds: seq<Round>) {
    forall i :: 0 <= i < |rounds| ==> right(ClientsAfterRounds(clients, rounds[..i]), rounds[i])
  }

  lemma RoundsNone(clients: set<int>, right: (set<int>, Round) -> bool)
    ensures ClientsAfterRounds(clients, []) == clients && RoundsTrace([]) == [] && AllRight(right, clients, [])
  {
  }

  lemma RoundsOneMore(right: (set<int>, Round) -> bool, clients: set<int>, rounds: seq<Round>, r: Round)
    requires AllRight(right, clients, rounds) && right(ClientsAfterRounds(clients, rounds), r)
    ensures AllRight(right, clients, rounds + [r])
    ensures ClientsAfterRounds(clients, rounds + [r]) == ClientsAfter(ClientsAfterRounds(clients, rounds), r.log)
    ensures RoundsTrace(rounds + [r]) == RoundsTrace(rounds) + [r.call] + Trace(r.log)
  {
    hide ClientsAfter;
    var more := rounds + [r];
    assert more[..|rounds|] == rounds;
    forall i | 0 <= i < |more| ensures right(ClientsAfterRounds(clients, more[..i]), more[i]) {
      assert i < |rounds| ==> more[..i] == rounds[..i];
    }
  }
}
