/**
 The poll server whose table is indexed by descriptor. poll reports how many entries have events; the scan counts down
 the entries it dispatches and stops early, although entries with other events were counted too.
 */
module PollServer {
  import opened Sets
  import opened SystemCalls
  import opened Descriptors

  const FILLER := PollFd(0, false, false, false)    // value-initialised by resize
  const RELEASED := PollFd(-1, false, false, false)

  predicate Readable(p: PollFd) { p.pollIn }

  lemma {:induction false} CountImplied(table: seq<PollFd>, lo: nat, hi: nat, p: PollFd -> bool, q: PollFd -> bool)
    requires lo <= hi <= |table| && forall x :: p(x) ==> q(x)
    ensures Count(table, lo, hi, p) <= Count(table, lo, hi, q)
    decreases hi - lo
  {
    if lo < hi {
      CountImplied(table, lo + 1, hi, p, q);
    }
  }

  /** A zero count leaves no such entry. */
  lemma {:induction false} CountZero(table: seq<PollFd>, lo: nat, hi: nat, p: PollFd -> bool, k: nat)
    requires lo <= k < hi <= |table| && Count(table, lo, hi, p) == 0
    ensures !p(table[k])
    decreases hi - lo
  {
    if lo < k {
      CountZero(table, lo + 1, hi, p, k);
    }
  }

  /** The descriptors whose entries are readable. */
  ghost function ReadableIn(answers: seq<PollFd>): set<int> {
    set i | 0 <= i < |answers| && answers[i].pollIn
  }

  /** The listener accepts; a client is served or closed, or disconnected by a server that has been stopped. */
  predicate InTheOpen(listener: int, e: Event) {
    if Subject(e) == listener then AtListener(e) else e.Served? || e.Closed? || e.ShutDown?
  }

  /** The table watches the listener and the clients, each at its own index, and nothing else. */
  ghost predicate Tabled(fds: seq<PollFd>, clients: set<int>, serverFd: int) {
    && serverFd !in clients && 0 <= serverFd < |fds| && (forall c :: c in clients ==> 0 <= c < |fds|)
    && (forall i :: 0 <= i < |fds| ==> (fds[i].watchIn <==> i in clients + {serverFd}))
    && (forall i :: 0 <= i < |fds| && fds[i].watchIn ==> fds[i].fd == i)
    && (forall i :: 0 <= i < |fds| && fds[i].pollIn ==> fds[i].watchIn)
  }

  lemma ReadableAt(fds: seq<PollFd>, clients: set<int>, serverFd: int, i: nat)
    requires Tabled(fds, clients, serverFd) && i < |fds| && fds[i].pollIn
    ensures i in clients + {serverFd} && fds[i].fd == i
  {
  }

  /** The table after poll has looked at all that is watched. */
  lemma TabledAfterPoll(fds: seq<PollFd>, clients: set<int>, serverFd: int, max: int, cnt: int, after: seq<PollFd>)
    requires Tabled(fds, clients, serverFd) && IsMax(max, clients + {serverFd})
    ensures 0 <= max < |fds|
    ensures Polled(fds, max + 1, cnt, after) ==>
              Tabled(after, clients, serverFd) && forall i :: max < i < |after| ==> !after[i].pollIn
    ensures Polled(fds, max + 1, cnt, after) && cnt != -1 ==> Count(after, 0, max + 1, Readable) <= cnt
  {
    if Polled(fds, max + 1, cnt, after) && cnt != -1 {
      CountImplied(after, 0, max + 1, Readable, HasEvents);
    }
  }

  /** Clients are turned away only by a server that has been stopped, and then so are all clients that follow. */
  ghost predicate TurnedAway(listener: int, log: seq<Event>, running: bool) {
    && (forall e :: e in log && e.ShutDown? ==> !running)
    && forall i, j :: 0 <= i < j < |log| && log[i].ShutDown? && Subject(log[j]) != listener ==> log[j].ShutDown?
  }

  lemma TurnedAwayNone(listener: int, running: bool)
    ensures TurnedAway(listener, [], running)
  {
  }

  lemma TurnedAwayOneMore(listener: int, log: seq<Event>, running: bool, e: Event, still: bool)
    requires TurnedAway(listener, log, running) && (still ==> running)
    requires InTheOpen(listener, e) && (Subject(e) != listener ==> (e.ShutDown? <==> !still))
    ensures TurnedAway(listener, log + [e], still)
  {
  }

  class TCPServer {
    const kernel: Kernel
    const serverFd: int
    ghost const others: set<int>  // descriptors of the process that are none of the server's business
    var fds: seq<PollFd>
    var clientFds: set<int>
    var maxFd: int

    /** The table and the set agree with each other and with the kernel; no descriptor is leaked. */
    ghost predicate TableAgrees()
      reads this, kernel
    {
      && kernel.Honest() && Tabled(fds, clientFds, serverFd)
      && kernel.open == clientFds + {serverFd} + others && clientFds + {serverFd} !! others
    }

    ghost predicate Agree()
      reads this, kernel
    {
      TableAgrees() && IsMax(maxFd, clientFds + {serverFd})
    }

    /** Once the server has been stopped it no longer keeps the maximum. */
    ghost predicate AgreeWhileRunning()
      reads this, kernel
    {
      TableAgrees() && (kernel.running ==> IsMax(maxFd, clientFds + {serverFd}))
    }

    constructor (kernel: Kernel, serverFd: int)
      requires kernel.Honest() && serverFd >= 0 && serverFd in kernel.open
      ensures Agree() && this.kernel == kernel && this.serverFd == serverFd && clientFds == {}
    {
      this.kernel, this.serverFd, others := kernel, serverFd, kernel.open - {serverFd};
      fds := seq(serverFd, _ => FILLER) + [Listening(serverFd)];
      clientFds, maxFd := {}, serverFd;
    }

    method NewClient() returns (e: Event)
      requires TableAgrees()
      modifies this, kernel`open, kernel`calls
      ensures TableAgrees() && (e.Accepted? || e.AcceptFailed?) && Subject(e) == serverFd
      ensures clientFds == Effect(old(clientFds), e) && Performed([e], old(kernel.calls), kernel.calls)
      ensures old(kernel.calls) <= kernel.calls
      ensures Serves(serverFd, Stoppable, serverFd, Since(old(kernel.calls), kernel.calls))
      ensures e.AcceptFailed? ==> fds == old(fds) && maxFd == old(maxFd)
      ensures e.Accepted? ==> e.fd !in old(kernel.open)
      ensures e.Accepted? ==> IsMax(maxFd, clientFds + {serverFd})
      ensures e.Accepted? ==> 0 <= e.fd < |fds| && fds[e.fd] == Listening(e.fd)
      ensures |fds| >= |old(fds)|
      ensures forall i :: |old(fds)| <= i < |fds| && !(e.Accepted? && i == e.fd) ==>
                fds[i] == PollFd(0, false, false, false)
      ensures forall i :: 0 <= i < |old(fds)| && !(e.Accepted? && i == e.fd) ==> fds[i] == old(fds)[i]
    {
      var clientFd := kernel.Accept(serverFd);
      if clientFd == -1 {
        PerformedOne(AcceptFailed(serverFd), old(kernel.calls));
        return AcceptFailed(serverFd);
      }
      if clientFd >= |fds| {
        fds := fds + seq(clientFd + 1 - |fds|, _ => FILLER);
      }
      fds := fds[clientFd := Listening(clientFd)];
      clientFds := clientFds + {clientFd};
      var first := Begin(clientFds);
      maxFd := Max(serverFd, first);
      PerformedOne(Accepted(serverFd, clientFd), old(kernel.calls));
      return Accepted(serverFd, clientFd);
    }

    /** Closes a client and releases its entry; the maximum is left to the caller. */
    method Disconnect(fd: int)
      requires TableAgrees() && fd in clientFds
      modifies this`fds, this`clientFds, kernel`open, kernel`calls
      ensures TableAgrees() && clientFds == old(clientFds) - {fd}
      ensures |fds| == |old(fds)| && fds[fd] == PollFd(-1, false, false, false)
      ensures forall i :: 0 <= i < |fds| && i != fd ==> fds[i] == old(fds)[i]
      ensures kernel.calls == old(kernel.calls) + [CloseCall(fd)]
    {
      fds := fds[fd := RELEASED];
      kernel.Close(fd);
      clientFds := clientFds - {fd};
    }

    method UpdateMax()
      requires TableAgrees()
      modifies this`maxFd
      ensures Agree()
    {
      if clientFds == {} {
        maxFd := serverFd;
      } else {
        var first := Begin(clientFds);
        maxFd := Max(serverFd, first);
      }
    }

    /** Closes a client of a running server. */
    method Lose(fd: int)
      requires TableAgrees() && fd in clientFds
      modifies this, kernel`open, kernel`calls
      ensures Agree() && clientFds == old(clientFds) - {fd}
      ensures |fds| == |old(fds)| && forall i :: 0 <= i < |fds| && i != fd ==> fds[i] == old(fds)[i]
      ensures kernel.calls == old(kernel.calls) + [CloseCall(fd)]
    {
      hide Tabled;
      Disconnect(fd);
      UpdateMax();
    }

    /** While the server runs the maximum stays exact; a server that is stopping no longer keeps it. */
    method ClientCommunicate(fd: int) returns (e: Event)
      requires AgreeWhileRunning() && fd in clientFds
      modifies this, kernel
      ensures AgreeWhileRunning() && (kernel.running ==> old(kernel.running))
      ensures (if kernel.running then e.Served? || e.Closed? else e.ShutDown?) && Subject(e) == fd
      ensures clientFds == Effect(old(clientFds), e) && Performed([e], old(kernel.calls), kernel.calls)
      ensures old(kernel.calls) <= kernel.calls
      ensures Serves(serverFd, Stoppable, fd, Since(old(kernel.calls), kernel.calls))
      ensures |fds| == |old(fds)| && forall i :: 0 <= i < |fds| && i != fd ==> fds[i] == old(fds)[i]
    {
      assert fd != serverFd;
      hide Tabled, IsMax, Performed, Serves, Since;
      var running := kernel.StillRunning();
      if !running {
        Disconnect(fd);
        e := ShutDown(fd);
      } else {
        var len := kernel.Recv(fd);
        if len > 0 {
          kernel.Send(fd);
          e := Served(fd, len);
        } else {
          Lose(fd);
          e := Closed(fd, len);
        }
      }
      assert kernel.calls == old(kernel.calls) + Calls(e);
      hide Calls;
      ClientServed(serverFd, Stoppable, e, old(kernel.calls), kernel.calls);
    }

    /** One readable entry: the listener accepts, a client is served. Other entries that are readable stay so. */
    method Dispatch(fd: nat) returns (e: Event)
      requires AgreeWhileRunning() && fd < |fds| && fds[fd].pollIn
      modifies this, kernel
      ensures AgreeWhileRunning() && (kernel.running ==> old(kernel.running))
      ensures Subject(e) == fd && InTheOpen(serverFd, e) && |fds| >= |old(fds)|
      ensures fd != serverFd ==> (e.ShutDown? <==> !kernel.running)
      ensures clientFds == Effect(old(clientFds), e) && Performed([e], old(kernel.calls), kernel.calls)
      ensures old(kernel.calls) <= kernel.calls
      ensures Serves(serverFd, Stoppable, fd, Since(old(kernel.calls), kernel.calls))
      ensures forall i :: 0 <= i < |old(fds)| && i != fd ==> fds[i].pollIn == old(fds)[i].pollIn
      ensures e.Accepted? ==> e.fd != fd && 0 <= e.fd && (e.fd < |old(fds)| ==> !old(fds)[e.fd].pollIn)
    {
      if fd == serverFd {
        e := NewClient();
      } else {
        e := ClientCommunicate(fd);
      }
    }

    /**
     The scan after poll has answered. answers is the table as poll leaves it, cnt the number poll returns. The scan
     stops when cnt is used up, and has then dispatched every readable entry. A client is turned away only after the
     flag has been found cleared, and then so are all clients that follow.
     */
    method PollPass(answers: seq<PollFd>, cnt: nat) returns (log: seq<Event>)
      requires Agree() && 0 <= maxFd < |fds| && Polled(fds, maxFd + 1, cnt, answers)
      modifies this, kernel
      ensures AgreeWhileRunning() && (kernel.running ==> old(kernel.running))
      ensures clientFds == ClientsAfter(old(clientFds), log)
      ensures HandlesExactly(log, ReadableIn(answers)) && NewcomersWait(log)
      ensures Performed(log, old(kernel.calls), kernel.calls)
      ensures AllServed(serverFd, Stoppable, log, old(kernel.calls), kernel.calls)
      ensures forall e :: e in log ==> InTheOpen(serverFd, e)
      ensures TurnedAway(serverFd, log, kernel.running)
    {
      hide Tabled, Polled, TurnedAway, ClientsAfter, Performed, AllServed, Serves;
      hide Scanned, HandlesExactly, NewcomersWait;
      log := [];
      ghost var before := clientFds;
      ClientsAfterNone(before);
      PerformedNone(kernel.calls);
      ServedNone(serverFd, Stoppable, kernel.calls);
      var curMaxFd, left, fd := maxFd, cnt, 0;
      ghost var ready := ReadableIn(answers);
      TabledAfterPoll(fds, clientFds, serverFd, maxFd, cnt, answers);
      fds := answers;
      ScannedNone(ready, 0);
      TurnedAwayNone(serverFd, kernel.running);
      while fd <= curMaxFd && left > 0
        invariant 0 <= fd <= curMaxFd + 1 <= |answers| <= |fds|
        invariant AgreeWhileRunning() && (kernel.running ==> old(kernel.running))
        invariant forall e :: e in log ==> InTheOpen(serverFd, e)
        invariant AllServed(serverFd, Stoppable, log, old(kernel.calls), kernel.calls)
        invariant TurnedAway(serverFd, log, kernel.running)
        invariant clientFds == ClientsAfter(before, log)
        invariant Scanned(log, ready, fd) && Performed(log, old(kernel.calls), kernel.calls)
        invariant forall i :: fd <= i < |answers| ==> fds[i].pollIn == answers[i].pollIn
        invariant Count(answers, fd, curMaxFd + 1, Readable) <= left
        decreases curMaxFd - fd
      {
        if fds[fd].pollIn {
          ReadableAt(fds, clientFds, serverFd, fd);
        }
        if !(fds[fd].fd == -1 || !HasEvents(fds[fd])) && fds[fd].pollIn {
          ghost var calls, running := kernel.calls, kernel.running;
          var e := Dispatch(fd);
          TurnedAwayOneMore(serverFd, log, running, e, kernel.running);
          ScannedOneMore(log, ready, fd, e);
          ClientsAfterOneMore(before, log, e);
          ServedOneMore(serverFd, Stoppable, log, e, old(kernel.calls), calls, kernel.calls);
          PerformedInTurn(log, [e], old(kernel.calls), calls, kernel.calls);
          log := log + [e];
          left := left - 1;
        } else {
          ScannedPast(log, ready, fd);
        }
        fd := fd + 1;
      }
      forall i | fd <= i <= curMaxFd ensures !answers[i].pollIn {
        CountZero(answers, fd, curMaxFd + 1, Readable, i);
      }
      ScannedAll(log, ready, fd);
    }
  }

  /**
   A round with these clients: poll watches them and the listener, and the entries it finds readable are dispatched.
   */
  ghost predicate RoundRight(listener: int, clients: set<int>, r: Round) {
    && r.call.PollCall? && Polled(r.call.table, r.call.n, r.call.cnt, r.call.after)
    && (forall x :: x in clients + {listener} <==> 0 <= x < r.call.n && r.call.table[x].watchIn)
    && (forall e :: e in r.log ==> Justified(e))
    && if r.call.cnt == -1 then r.log == []
       else
         && HandlesExactly(r.log, ReadableIn(r.call.after)) && NewcomersWait(r.log)
         && (forall e :: e in r.log ==> InTheOpen(listener, e))
         && ServesAll(listener, Stoppable, Subjects(r.log), Trace(r.log))
  }

  ghost function Right(listener: int): (set<int>, Round) -> bool {
    (clients, r) => RoundRight(listener, clients, r)
  }

  lemma Watched(server: TCPServer)
    requires server.Agree()
    ensures 0 <= server.maxFd < |server.fds|
    ensures forall x :: x in server.clientFds + {server.serverFd} <==> 0 <= x <= server.maxFd && server.fds[x].watchIn
  {
  }

  /** One round: poll, and the pass if it has answered. */
  method PollRound(server: TCPServer) returns (r: Round)
    requires server.Agree()
    modifies server, server.kernel
    ensures server.AgreeWhileRunning() && (server.kernel.running ==> old(server.kernel.running))
    ensures r.call.PollCall? && r.call.table == old(server.fds) &&
              RoundRight(server.serverFd, old(server.clientFds), r)
    ensures server.clientFds == ClientsAfter(old(server.clientFds), r.log)
    ensures server.kernel.calls == old(server.kernel.calls) + [r.call] + Trace(r.log)
  {
    hide HandlesExactly, NewcomersWait, ClientsAfter, Trace;
    var table, n := server.fds, server.maxFd + 1;
    Watched(server);
    var cnt, after := server.kernel.Poll(table, n);
    ghost var calls := server.kernel.calls;
    var log := [];
    ClientsAfterNone(server.clientFds);
    NoTrace();
    if cnt != -1 {
      log := server.PollPass(after, cnt);
      PerformedTrace(log, calls, server.kernel.calls);
    }
    r := Round(PollCall(table, n, cnt, after), log);
  }

  /** Rounds of poll and pass, until the flag is cleared; a failing poll is tried again. */
  method RunPollLoop(server: TCPServer, limit: nat) returns (rounds: seq<Round>, stopped: bool)
    requires server.Agree()
    modifies server, server.kernel
    ensures server.AgreeWhileRunning() && server.clientFds == ClientsAfterRounds(old(server.clientFds), rounds)
    ensures |rounds| <= limit && (if stopped then !server.kernel.running else |rounds| == limit)
    ensures AllRight(Right(server.serverFd), old(server.clientFds), rounds)
    ensures server.kernel.calls == old(server.kernel.calls) + RoundsTrace(rounds) + if stopped then [StopSeen] else []
  {
    hide RoundRight, ClientsAfter, AllRight, ClientsAfterRounds, RoundsTrace, Trace;
    rounds, stopped := [], false;
    ghost var clients, right := server.clientFds, Right(server.serverFd);
    RoundsNone(clients, right);
    NoTrace();
    while |rounds| < limit
      invariant server.AgreeWhileRunning() && |rounds| <= limit
      invariant server.clientFds == ClientsAfterRounds(clients, rounds) && AllRight(right, clients, rounds)
      invariant server.kernel.calls == old(server.kernel.calls) + RoundsTrace(rounds)
    {
      var running := server.kernel.StillRunning();
      if !running {
        return rounds, true;
      }
      var round := PollRound(server);
      RoundsOneMore(right, clients, rounds, round);
      rounds := rounds + [round];
      if round.call.cnt == -1 {
        running := server.kernel.StillRunning();
        if !running {
          return rounds, true;
        }
      }
    }
  }
}
