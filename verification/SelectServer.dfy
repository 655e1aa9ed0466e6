/**
 The select servers. Three records of the same descriptors must agree while the loop over a snapshot changes them: the
 read set, the ordered set of clients, and the greatest descriptor, which also bounds the loop.
 */
module SelectServer {
  import opened Sets
  import opened SystemCalls
  import opened Descriptors

  lemma ClosingNone()
    ensures Closing(Subjects([])) == []
  {
  }

  lemma ClosingOneMore(log: seq<Event>, fd: int)
    ensures Closing(Subjects(log + [Dropped(fd)])) == Closing(Subjects(log)) + [CloseCall(fd)]
  {
  }

  class TCPServer {
    const kernel: Kernel
    const serverFd: int
    ghost const others: set<int>  // descriptors of the process that are none of the server's business
    var readFds: set<int>
    var clientFds: set<int>
    var maxFd: int

    /** The three records agree with each other and with the kernel; no descriptor is leaked. */
    ghost predicate Agree()
      reads this, kernel
    {
      && kernel.Honest() && serverFd >= 0 && serverFd !in clientFds
      && (forall c :: c in clientFds ==> c >= 0)
      && readFds == clientFds + {serverFd}
      && kernel.open == readFds + others && readFds !! others
      && IsMax(maxFd, readFds)
    }

    /** The server after init(): it listens and has no clients. */
    constructor (kernel: Kernel, serverFd: int)
      requires kernel.Honest() && serverFd >= 0 && serverFd in kernel.open
      ensures Agree() && this.kernel == kernel && this.serverFd == serverFd && clientFds == {}
    {
      this.kernel, this.serverFd, others := kernel, serverFd, kernel.open - {serverFd};
      readFds, clientFds, maxFd := {serverFd}, {}, serverFd;
    }

    method AcceptClient() returns (e: Event)
      requires Agree()
      modifies this, kernel
      ensures Agree() && (e.Accepted? || e.AcceptFailed?) && Subject(e) == serverFd
      ensures e.Accepted? ==> e.fd !in old(kernel.open)
      ensures clientFds == Effect(old(clientFds), e) && Performed([e], old(kernel.calls), kernel.calls)
      ensures old(kernel.calls) <= kernel.calls
      ensures Serves(serverFd, Answering, serverFd, Since(old(kernel.calls), kernel.calls))
    {
      var newFd := kernel.Accept(serverFd);
      if newFd == -1 {
        PerformedOne(AcceptFailed(serverFd), old(kernel.calls));
        return AcceptFailed(serverFd);
      }
      readFds := readFds + {newFd};
      clientFds := clientFds + {newFd};
      var first := Begin(clientFds);
      maxFd := Max(serverFd, first);
      PerformedOne(Accepted(serverFd, newFd), old(kernel.calls));
      return Accepted(serverFd, newFd);
    }

    /** Closing a client and forgetting it in all three records. */
    method Disconnect(fd: int)
      requires Agree() && fd in clientFds
      modifies this, kernel
      ensures Agree() && clientFds == old(clientFds) - {fd}
      ensures kernel.calls == old(kernel.calls) + [CloseCall(fd)]
    {
      readFds := readFds - {fd};
      kernel.Close(fd);
      clientFds := clientFds - {fd};
      if clientFds == {} {
        maxFd := serverFd;
      } else {
        var first := Begin(clientFds);
        maxFd := Max(serverFd, first);
      }
    }

    /** Data is answered at once; anything else ends the connection. */
    method ServeClient(fd: int) returns (e: Event)
      requires Agree() && fd in clientFds
      modifies this, kernel
      ensures Agree() && (e.Served? || e.Closed?) && Subject(e) == fd
      ensures clientFds == Effect(old(clientFds), e) && Performed([e], old(kernel.calls), kernel.calls)
      ensures old(kernel.calls) <= kernel.calls
      ensures Serves(serverFd, Answering, fd, Since(old(kernel.calls), kernel.calls))
    {
      var len := kernel.Recv(fd);
      if len > 0 {
        kernel.Send(fd);
        e := Served(fd, len);
      } else {
        Disconnect(fd);
        e := Closed(fd, len);
      }
      PerformedOne(e, old(kernel.calls));
    }

    /**
     One pass over what select has reported. The bound of the loop is the live maxFd, which accepting raises and
     disconnecting lowers; still every ready descriptor is handled, once, and nothing accepted meanwhile is.
     */
    method SelectPass(ready: set<int>) returns (log: seq<Event>)
      requires Agree() && ready <= readFds
      modifies this, kernel
      ensures Agree() && clientFds == ClientsAfter(old(clientFds), log)
      ensures HandlesExactly(log, ready) && NewcomersWait(log)
      ensures Performed(log, old(kernel.calls), kernel.calls)
      ensures forall e :: e in log ==> OnTheSpot(serverFd, e)
      ensures AllServed(serverFd, Answering, log, old(kernel.calls), kernel.calls)
    {
      hide ClientsAfter, Scanned, HandlesExactly, NewcomersWait, Performed, AllServed, Serves;
      log := [];
      ghost var before := clientFds;
      ClientsAfterNone(before);
      PerformedNone(kernel.calls);
      ServedNone(serverFd, Answering, kernel.calls);
      ScannedNone(ready, 0);
      var fd := 0;
      while fd <= maxFd
        invariant 0 <= fd && Agree() && clientFds == ClientsAfter(before, log)
        invariant Scanned(log, ready, fd) && Performed(log, old(kernel.calls), kernel.calls)
        invariant forall e :: e in log ==> OnTheSpot(serverFd, e)
        invariant AllServed(serverFd, Answering, log, old(kernel.calls), kernel.calls)
        invariant forall x :: x in ready && x >= fd ==> x in readFds
        decreases if fd <= serverFd then 1 else 0, maxFd - fd
      {
        if fd in ready {
          var e;
          ghost var calls := kernel.calls;
          if fd == serverFd {
            e := AcceptClient();
          } else {
            e := ServeClient(fd);
          }
          ScannedOneMore(log, ready, fd, e);
          ClientsAfterOneMore(before, log, e);
          ServedOneMore(serverFd, Answering, log, e, old(kernel.calls), calls, kernel.calls);
          PerformedInTurn(log, [e], old(kernel.calls), calls, kernel.calls);
          log := log + [e];
        } else {
          ScannedPast(log, ready, fd);
        }
        fd := fd + 1;
      }
      ScannedAll(log, ready, fd);
    }

    /** The pooled server's way: max(max_fd, cfd) is what recomputing from the set would give, the exact maximum. */
    method AcceptIncrementally() returns (e: Event)
      requires Agree()
      modifies this, kernel
      ensures Agree() && (e.Accepted? || e.AcceptFailed?) && Subject(e) == serverFd
      ensures e.Accepted? ==> e.fd !in old(kernel.open)
      ensures clientFds == Effect(old(clientFds), e) && Performed([e], old(kernel.calls), kernel.calls)
      ensures old(kernel.calls) <= kernel.calls
      ensures Serves(serverFd, Pooling, serverFd, Since(old(kernel.calls), kernel.calls))
    {
      var cfd := kernel.Accept(serverFd);
      if cfd < 0 {
        PerformedOne(AcceptFailed(serverFd), old(kernel.calls));
        return AcceptFailed(serverFd);
      }
      readFds := readFds + {cfd};
      clientFds := clientFds + {cfd};
      maxFd := Max(maxFd, cfd);
      PerformedOne(Accepted(serverFd, cfd), old(kernel.calls));
      return Accepted(serverFd, cfd);
    }

    /** The pooled server leaves the answer to its pool. */
    method HandleClientIo(fd: int) returns (e: Event)
      requires Agree() && fd in clientFds
      modifies this, kernel
      ensures Agree() && (e.Queued? || e.Closed?) && Subject(e) == fd
      ensures clientFds == Effect(old(clientFds), e) && Performed([e], old(kernel.calls), kernel.calls)
      ensures old(kernel.calls) <= kernel.calls
      ensures Serves(serverFd, Pooling, fd, Since(old(kernel.calls), kernel.calls))
    {
      var len := kernel.Recv(fd);
      if len <= 0 {
        Disconnect(fd);
        e := Closed(fd, len);
      } else {
        kernel.Submit(fd);
        e := Queued(fd, len);
      }
      PerformedOne(e, old(kernel.calls));
    }

    /** The pooled server's pass, bounded by the maximum read before select was called. */
    method BoundedPass(ready: set<int>) returns (log: seq<Event>)
      requires Agree() && ready <= readFds
      modifies this, kernel
      ensures Agree() && clientFds == ClientsAfter(old(clientFds), log)
      ensures HandlesExactly(log, ready) && NewcomersWait(log)
      ensures Performed(log, old(kernel.calls), kernel.calls)
      ensures forall e :: e in log ==> LeftToPool(serverFd, e)
      ensures AllServed(serverFd, Pooling, log, old(kernel.calls), kernel.calls)
      ensures forall e :: e in log && e.Queued? ==> CloseCall(e.fd) !in Since(old(kernel.calls), kernel.calls)
    {
      hide ClientsAfter, Scanned, HandlesExactly, NewcomersWait, Performed, AllServed, Serves;
      log := [];
      ghost var before := clientFds;
      ClientsAfterNone(before);
      PerformedNone(kernel.calls);
      ServedNone(serverFd, Pooling, kernel.calls);
      ScannedNone(ready, 0);
      var currentMaxFd := maxFd;
      for fd := 0 to currentMaxFd + 1
        invariant Agree() && clientFds == ClientsAfter(before, log)
        invariant Scanned(log, ready, fd) && Performed(log, old(kernel.calls), kernel.calls)
        invariant forall e :: e in log ==> LeftToPool(serverFd, e)
        invariant AllServed(serverFd, Pooling, log, old(kernel.calls), kernel.calls)
        invariant forall x :: x in ready && x >= fd ==> x in readFds
      {
        if fd in ready {
          var e;
          ghost var calls := kernel.calls;
          if fd == serverFd {
            e := AcceptIncrementally();
          } else {
            e := HandleClientIo(fd);
          }
          ScannedOneMore(log, ready, fd, e);
          ClientsAfterOneMore(before, log, e);
          ServedOneMore(serverFd, Pooling, log, e, old(kernel.calls), calls, kernel.calls);
          PerformedInTurn(log, [e], old(kernel.calls), calls, kernel.calls);
          log := log + [e];
        } else {
          ScannedPast(log, ready, fd);
        }
      }
      ScannedAll(log, ready, currentMaxFd + 1);
      PerformedTrace(log, old(kernel.calls), kernel.calls);
      forall e | e in log && e.Queued? ensures CloseCall(e.fd) !in Trace(log) {
        QueuedIsNotClosed(log, ready, e);
      }
    }

    /** The error handler closes every client, the greatest first, and keeps the listener. */
    method CloseAll() returns (log: seq<Event>)
      requires Agree()
      modifies this`clientFds, kernel
      ensures kernel.Honest() && clientFds == {} && kernel.open == others + {serverFd}
      ensures Performed(log, old(kernel.calls), kernel.calls)
      ensures forall e :: e in log <==> e.Dropped? && e.fd in old(clientFds)
      ensures forall i, j :: 0 <= i < j < |log| ==> Subject(log[i]) > Subject(log[j])
      ensures kernel.calls == old(kernel.calls) + Closing(Subjects(log))
    {
      hide Performed, Closing, Subjects;
      log := [];
      PerformedNone(kernel.calls);
      ClosingNone();
      while clientFds != {}
        invariant kernel.Honest() && clientFds <= old(clientFds) && kernel.open == clientFds + others + {serverFd}
        invariant Performed(log, old(kernel.calls), kernel.calls)
        invariant forall e :: e in log <==> e.Dropped? && e.fd in old(clientFds) - clientFds
        invariant forall e, c :: e in log && c in clientFds ==> Subject(e) > c
        invariant forall i, j :: 0 <= i < j < |log| ==> Subject(log[i]) > Subject(log[j])
        invariant kernel.calls == old(kernel.calls) + Closing(Subjects(log))
        decreases clientFds
      {
        var fd := Begin(clientFds);
        PerformedOne(Dropped(fd), kernel.calls);
        ghost var calls := kernel.calls;
        kernel.Close(fd);
        clientFds := clientFds - {fd};
        PerformedInTurn(log, [Dropped(fd)], old(kernel.calls), calls, kernel.calls);
        ClosingOneMore(log, fd);
        log := log + [Dropped(fd)];
      }
    }
  }

  /**
   A round with these clients: select watches them and the listener, and exactly what it reports is handled, in the
   server's way. When select fails the error handler closes the clients.
   */
  ghost predicate RoundRight(listener: int, clients: set<int>, r: Round) {
    && r.call.SelectCall? && r.call.watched == clients + {listener}
    && (forall e :: e in r.log ==> Justified(e))
    && if r.call.ok then
         && HandlesExactly(r.log, r.call.ready) && NewcomersWait(r.log)
         && (forall e :: e in r.log ==> OnTheSpot(listener, e))
         && ServesAll(listener, Answering, Subjects(r.log), Trace(r.log))
       else
         && (forall e :: e in r.log <==> e.Dropped? && e.fd in clients)
         && Trace(r.log) == Closing(Subjects(r.log))
  }

  ghost function Right(listener: int): (set<int>, Round) -> bool {
    (clients, r) => RoundRight(listener, clients, r)
  }

  /** One round: select, and the pass or the error handler. */
  method SelectRound(server: TCPServer) returns (r: Round)
    requires server.Agree()
    modifies server, server.kernel
    ensures r.call.SelectCall? && RoundRight(server.serverFd, old(server.clientFds), r)
    ensures r.call.ok ==> server.Agree() && server.clientFds == ClientsAfter(old(server.clientFds), r.log)
    ensures !r.call.ok ==> server.clientFds == {} && server.kernel.open == server.others + {server.serverFd}
    ensures server.kernel.calls == old(server.kernel.calls) + [r.call] + Trace(r.log)
  {
    hide HandlesExactly, NewcomersWait, ClientsAfter, Trace, ServesAll, Subjects, Closing;
    var watched := server.readFds;
    var ok, ready := server.kernel.Select(watched);
    ghost var calls := server.kernel.calls;
    var log;
    if ok {
      log := server.SelectPass(ready);
    } else {
      log := server.CloseAll();
    }
    PerformedTrace(log, calls, server.kernel.calls);
    r := Round(SelectCall(watched, ok, ready), log);
  }

  /**
   Rounds of select and pass. Only a failing select ends the loop early, and the error handler then leaks nothing.
   */
  method RunSelectLoop(server: TCPServer, limit: nat) returns (rounds: seq<Round>, failed: bool)
    requires server.Agree()
    modifies server, server.kernel
    ensures !failed ==> server.Agree() && |rounds| == limit
    ensures !failed ==> server.clientFds == ClientsAfterRounds(old(server.clientFds), rounds)
    ensures failed ==> 0 < |rounds| <= limit && server.clientFds == {}
    ensures failed ==> server.kernel.open == server.others + {server.serverFd}
    ensures AllRight(Right(server.serverFd), old(server.clientFds), rounds)
    ensures forall i :: 0 <= i < |rounds| ==>
              rounds[i].call.SelectCall? && (rounds[i].call.ok <==> !(failed && i == |rounds| - 1))
    ensures server.kernel.calls == old(server.kernel.calls) + RoundsTrace(rounds)
  {
    hide RoundRight, ClientsAfter, AllRight, ClientsAfterRounds, RoundsTrace, Trace;
    rounds, failed := [], false;
    ghost var clients, right := server.clientFds, Right(server.serverFd);
    RoundsNone(clients, right);
    while |rounds| < limit
      invariant server.Agree() && |rounds| <= limit && server.clientFds == ClientsAfterRounds(clients, rounds)
      invariant forall i :: 0 <= i < |rounds| ==> rounds[i].call.SelectCall? && rounds[i].call.ok
      invariant AllRight(right, clients, rounds)
      invariant server.kernel.calls == old(server.kernel.calls) + RoundsTrace(rounds)
    {
      var round := SelectRound(server);
      RoundsOneMore(right, clients, rounds, round);
      rounds := rounds + [round];
      if !round.call.ok {
        return rounds, true;
      }
    }
  }

  /** The same for the pooled server, whose failing select is a round without events. */
  ghost predicate PooledRoundRight(listener: int, clients: set<int>, r: Round) {
    && r.call.SelectCall? && r.call.watched == clients + {listener}
    && (forall e :: e in r.log ==> Justified(e))
    && if r.call.ok then
         && HandlesExactly(r.log, r.call.ready) && NewcomersWait(r.log)
         && (forall e :: e in r.log ==> LeftToPool(listener, e))
         && ServesAll(listener, Pooling, Subjects(r.log), Trace(r.log))
       else r.log == []
  }

  ghost function PooledRight(listener: int): (set<int>, Round) -> bool {
    (clients, r) => PooledRoundRight(listener, clients, r)
  }

  /** One round of the pooled server: select, and the pass if it has answered. */
  method PooledRound(server: TCPServer) returns (r: Round)
    requires server.Agree()
    modifies server, server.kernel
    ensures server.Agree() && r.call.SelectCall? && PooledRoundRight(server.serverFd, old(server.clientFds), r)
    ensures server.clientFds == ClientsAfter(old(server.clientFds), r.log)
    ensures server.kernel.calls == old(server.kernel.calls) + [r.call] + Trace(r.log)
  {
    hide HandlesExactly, NewcomersWait, ClientsAfter, Trace, ServesAll, Subjects;
    var watched := server.readFds;
    var ok, ready := server.kernel.Select(watched);
    ghost var calls := server.kernel.calls;
    var log := [];
    ClientsAfterNone(server.clientFds);
    NoTrace();
    if ok {
      log := server.BoundedPass(ready);
      PerformedTrace(log, calls, server.kernel.calls);
    }
    r := Round(SelectCall(watched, ok, ready), log);
  }

  /** The pooled server's rounds, until its flag is cleared or select fails without having been interrupted. */
  method RunPooledLoop(server: TCPServer, limit: nat) returns (rounds: seq<Round>, stopped: bool, failed: bool)
    requires server.Agree()
    modifies server, server.kernel
    ensures server.Agree() && server.clientFds == ClientsAfterRounds(old(server.clientFds), rounds)
    ensures |rounds| <= limit && (stopped || failed || |rounds| == limit)
    ensures AllRight(PooledRight(server.serverFd), old(server.clientFds), rounds)
    ensures stopped ==> !server.kernel.running
    ensures failed ==> rounds != [] && rounds[|rounds| - 1].call.SelectCall? && !rounds[|rounds| - 1].call.ok
    ensures server.kernel.calls == old(server.kernel.calls) + RoundsTrace(rounds) + if stopped then [StopSeen] else []
  {
    hide PooledRoundRight, ClientsAfter, AllRight, ClientsAfterRounds, RoundsTrace, Trace;
    rounds, stopped, failed := [], false, false;
    ghost var clients, right := server.clientFds, PooledRight(server.serverFd);
    RoundsNone(clients, right);
    while |rounds| < limit
      invariant server.Agree() && |rounds| <= limit && server.clientFds == ClientsAfterRounds(clients, rounds)
      invariant AllRight(right, clients, rounds)
      invariant server.kernel.calls == old(server.kernel.calls) + RoundsTrace(rounds)
    {
      var running := server.kernel.StillRunning();
      if !running {
        return rounds, true, false;
      }
      var round := PooledRound(server);
      RoundsOneMore(right, clients, rounds, round);
      rounds := rounds + [round];
      if !round.call.ok {
        var interrupted := *;
        if !interrupted {
          return rounds, false, true;
        }
      }
    }
  }
}
