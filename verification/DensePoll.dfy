/**
 The poll server that keeps its table dense: the listener first, then one entry per client. A pass works on a copy of
 the table while entries are appended to and erased from the original.
 */
module DensePoll {
  import opened SystemCalls
  import opened Descriptors

  function Listed(t: seq<PollFd>): set<int> {
    set i | 0 <= i < |t| :: t[i].fd
  }

  /** poll is asked for the data of every entry. */
  ghost predicate AsksForData(t: seq<PollFd>) {
    forall i :: 0 <= i < |t| ==> t[i].watchIn && t[i].fd >= 0
  }

  ghost predicate Distinct(t: seq<PollFd>) {
    forall i, j :: 0 <= i < j < |t| ==> t[i].fd != t[j].fd
  }

  /** The table without the entries of one descriptor. */
  function Without(t: seq<PollFd>, fd: int): seq<PollFd> {
    if t == [] then []
    else if t[|t| - 1].fd == fd then Without(t[..|t| - 1], fd)
    else Without(t[..|t| - 1], fd) + [t[|t| - 1]]
  }

  lemma {:induction false} WithoutAbsent(t: seq<PollFd>, fd: int)
    requires forall i :: 0 <= i < |t| ==> t[i].fd != fd
    ensures Without(t, fd) == t
  {
    if t != [] {
      WithoutAbsent(t[..|t| - 1], fd);
    }
  }

  /** Erasing at the index of a descriptor removes it altogether. */
  lemma {:induction false} EraseIsWithout(t: seq<PollFd>, i: nat)
    requires i < |t| && Distinct(t)
    ensures t[..i] + t[i + 1..] == Without(t, t[i].fd)
  {
    var n := |t| - 1;
    if i == n {
      WithoutAbsent(t[..n], t[i].fd);
    } else {
      EraseIsWithout(t[..n], i);
      assert t[..i] + t[i + 1..] == t[..n][..i] + t[..n][i + 1..] + [t[n]];
    }
  }

  lemma {:induction false} WithoutMembers(t: seq<PollFd>, fd: int)
    ensures forall x :: x in Without(t, fd) <==> x in t && x.fd != fd
  {
    if t != [] {
      var n := |t| - 1;
      WithoutMembers(t[..n], fd);
      assert t == t[..n] + [t[n]];
    }
  }

  lemma {:induction false} WithoutDistinct(t: seq<PollFd>, fd: int)
    requires Distinct(t)
    ensures Distinct(Without(t, fd))
  {
    if t != [] {
      var n := |t| - 1;
      WithoutDistinct(t[..n], fd);
      WithoutMembers(t[..n], fd);
      var r := Without(t[..n], fd);
      forall i | 0 <= i < |r| ensures r[i].fd != t[n].fd {
        assert r[i] in t[..n];
      }
    }
  }

  lemma WithoutAsks(t: seq<PollFd>, fd: int)
    requires AsksForData(t)
    ensures AsksForData(Without(t, fd))
  {
    WithoutMembers(t, fd);
    var r := Without(t, fd);
    forall i | 0 <= i < |r| ensures r[i].watchIn && r[i].fd >= 0 {
      assert r[i] in t;
    }
  }

  lemma WithoutListed(t: seq<PollFd>, fd: int)
    ensures Listed(Without(t, fd)) == Listed(t) - {fd}
  {
    WithoutMembers(t, fd);
    var r := Without(t, fd);
    forall x ensures x in Listed(r) <==> x in Listed(t) - {fd} {
      if x in Listed(r) {
        var i :| 0 <= i < |r| && r[i].fd == x;
        assert r[i] in t;
      }
      if x in Listed(t) && x != fd {
        var i :| 0 <= i < |t| && t[i].fd == x;
        assert t[i] in r;
      }
    }
  }

  /** Cleaning up a second time changes nothing. */
  lemma WithoutTwice(t: seq<PollFd>, fd: int)
    ensures Without(Without(t, fd), fd) == Without(t, fd)
  {
    WithoutMembers(t, fd);
    WithoutAbsent(Without(t, fd), fd);
  }

  /** The listener keeps its place unless it is the one removed. */
  lemma {:induction false} WithoutFirst(t: seq<PollFd>, fd: int)
    requires t != [] && t[0].fd != fd
    ensures Without(t, fd) != [] && Without(t, fd)[0] == t[0]
  {
    if |t| > 1 {
      WithoutFirst(t[..|t| - 1], fd);
    }
  }

  /** What an event does to the table. */
  function TableEffect(t: seq<PollFd>, e: Event): seq<PollFd> {
    match e
    case Accepted(_, fd) => t + [Listening(fd)]
    case AcceptFailed(_) => t
    case Served(_, _) => t
    case Queued(_, _) => t
    case Closed(fd, _) => Without(t, fd)
    case Dropped(fd) => Without(t, fd)
    case ShutDown(fd) => Without(t, fd)
  }

  function TableAfter(t: seq<PollFd>, log: seq<Event>): seq<PollFd> {
    if log == [] then t else TableEffect(TableAfter(t, log[..|log| - 1]), log[|log| - 1])
  }

  lemma TableAfterOneMore(t: seq<PollFd>, log: seq<Event>, e: Event)
    ensures TableAfter(t, log + [e]) == TableEffect(TableAfter(t, log), e)
  {
    assert (log + [e])[..|log|] == log;
  }

  /** The calls for one entry: those for its data, if there is any, and a close after an error event. */
  predicate EntryServed(p: PollFd, listener: int, calls: seq<KernelCall>) {
    var tail := if p.pollErr then [CloseCall(p.fd)] else [];
    && |calls| >= |tail| && calls[|calls| - |tail|..] == tail
    && var data := calls[..|calls| - |tail|];
       if p.pollIn then Serves(listener, Pooling, p.fd, data) else data == []
  }

  /** The calls for all entries, one after the other. */
  ghost predicate TableServed(table: seq<PollFd>, listener: int, calls: seq<KernelCall>)
    decreases |table|
  {
    if table == [] then calls == []
    else
      exists i :: 0 <= i <= |calls| && TableServed(table[..|table| - 1], listener, calls[..i])
                  && EntryServed(table[|table| - 1], listener, calls[i..])
  }

  lemma TableServedOneMore(table: seq<PollFd>, p: PollFd, listener: int, calls: seq<KernelCall>,
                           more: seq<KernelCall>)
    requires TableServed(table, listener, calls) && EntryServed(p, listener, more)
    ensures TableServed(table + [p], listener, calls + more)
  {
    hide EntryServed;
    assert (table + [p])[..|table|] == table;
    assert (calls + more)[..|calls|] == calls && (calls + more)[|calls|..] == more;
  }

  lemma TableServedMore(table: seq<PollFd>, k: nat, listener: int,
                        x: seq<KernelCall>, y: seq<KernelCall>, z: seq<KernelCall>)
    requires k < |table| && x <= y <= z && TableServed(table[..k], listener, Since(x, y))
    requires EntryServed(table[k], listener, Since(y, z))
    ensures TableServed(table[..k + 1], listener, Since(x, z))
  {
    hide EntryServed, TableServed;
    TableServedOneMore(table[..k], table[k], listener, Since(x, y), Since(y, z));
    assert table[..k + 1] == table[..k] + [table[k]];
    assert Since(x, z) == Since(x, y) + Since(y, z);
  }

  lemma EntryDone(p: PollFd, listener: int, data: seq<KernelCall>, calls: seq<KernelCall>)
    requires if p.pollIn then Serves(listener, Pooling, p.fd, data) else data == []
    requires calls == data + if p.pollErr then [CloseCall(p.fd)] else []
    ensures EntryServed(p, listener, calls)
  {
    hide Serves;
    var tail := if p.pollErr then [CloseCall(p.fd)] else [];
    assert calls[..|data|] == data && calls[|data|..] == tail;
  }

  lemma TableServedAtFirst(table: seq<PollFd>, listener: int, calls: seq<KernelCall>)
    ensures TableServed(table[..0], listener, Since(calls, calls))
  {
    assert Since(calls, calls) == [];
  }

  /** The events of one entry: none without cause, the data event first, the cleanup last. */
  ghost predicate EntryHandled(p: PollFd, serverFd: int, events: seq<Event>) {
    && |events| == (if p.pollIn then 1 else 0) + (if p.pollErr then 1 else 0)
    && (p.pollIn ==> LeftToPool(serverFd, events[0]) && Subject(events[0]) == p.fd)
    && (p.pollErr ==> events[|events| - 1] == Dropped(p.fd))
  }

  function Flat(logs: seq<seq<Event>>): seq<Event> {
    if logs == [] then [] else Flat(logs[..|logs| - 1]) + logs[|logs| - 1]
  }

  lemma NothingYet(t: seq<PollFd>, clients: set<int>)
    ensures Flat([]) == [] && TableAfter(t, []) == t && ClientsAfter(clients, []) == clients
  {
  }

  lemma FlatOneMore(logs: seq<seq<Event>>, events: seq<Event>)
    ensures Flat(logs + [events]) == Flat(logs) + events
  {
    assert (logs + [events])[..|logs|] == logs;
  }

  lemma {:induction false} TableAfterAppend(t: seq<PollFd>, a: seq<Event>, b: seq<Event>)
    ensures TableAfter(t, a + b) == TableAfter(TableAfter(t, a), b)
  {
    if b == [] {
      assert a + b == a;
    } else {
      var n := |b| - 1;
      assert (a + b)[..|a + b| - 1] == a + b[..n];
      TableAfterAppend(t, a, b[..n]);
    }
  }

  lemma {:induction false} ClientsAfterAppend(clients: set<int>, a: seq<Event>, b: seq<Event>)
    ensures ClientsAfter(clients, a + b) == ClientsAfter(ClientsAfter(clients, a), b)
  {
    if b == [] {
      assert a + b == a;
    } else {
      var n := |b| - 1;
      assert (a + b)[..|a + b| - 1] == a + b[..n];
      ClientsAfterAppend(clients, a, b[..n]);
    }
  }

  lemma ListedAppend(t: seq<PollFd>, p: PollFd)
    ensures Listed(t + [p]) == Listed(t) + {p.fd}
  {
    var r := t + [p];
    forall x ensures x in Listed(r) <==> x in Listed(t) + {p.fd} {
      if x in Listed(t) {
        var i :| 0 <= i < |t| && t[i].fd == x;
        assert r[i].fd == x;
      }
      assert r[|t|].fd == p.fd;
    }
  }

  lemma {:induction false} FlatMember(logs: seq<seq<Event>>, e: Event)
    ensures e in Flat(logs) <==> exists k :: 0 <= k < |logs| && e in logs[k]
  {
    if logs != [] {
      var n := |logs| - 1;
      FlatMember(logs[..n], e);
      assert logs[n] == logs[|logs| - 1];
      if k :| 0 <= k < |logs| && e in logs[k] && k < n {
        assert e in logs[..n][k];
      }
    }
  }

  lemma EntryEvents(p: PollFd, listener: int, events: seq<Event>, e: Event)
    requires EntryHandled(p, listener, events) && e in events
    ensures Subject(e) == p.fd
    ensures if p.pollErr then Dropped(p.fd) in events else events == [e]
  {
  }

  lemma QueuedClosed(table: seq<PollFd>, listener: int, logs: seq<seq<Event>>, k: nat, e: Event)
    requires Distinct(table) && |logs| == |table| && k < |logs| && e in logs[k] && e.Queued?
    requires forall j :: 0 <= j < |logs| ==> EntryHandled(table[j], listener, logs[j])
    ensures CloseCall(e.fd) in Trace(Flat(logs)) <==> table[k].pollErr
  {
    hide Flat, Trace, EntryHandled;
    EntryEvents(table[k], listener, logs[k], e);
    if table[k].pollErr {
      FlatMember(logs, Dropped(e.fd));
      EventIsTraced(Flat(logs), Dropped(e.fd), CloseCall(e.fd));
    } else if CloseCall(e.fd) in Trace(Flat(logs)) {
      var c := ClosedByEvent(Flat(logs), e.fd);
      FlatMember(logs, c);
      var j :| 0 <= j < |logs| && c in logs[j];
      EntryEvents(table[j], listener, logs[j], c);
    }
  }

  /** Among these events just those of the error event close a client whose answer has been left to the pool. */
  lemma QueuedClosedIff(table: seq<PollFd>, listener: int, logs: seq<seq<Event>>)
    requires Distinct(table) && |logs| == |table|
    requires forall k :: 0 <= k < |logs| ==> EntryHandled(table[k], listener, logs[k])
    ensures forall k, e :: 0 <= k < |logs| && e in logs[k] && e.Queued? ==>
              (CloseCall(e.fd) in Trace(Flat(logs)) <==> table[k].pollErr)
  {
    hide Flat, Trace, EntryHandled;
    forall k, e | 0 <= k < |logs| && e in logs[k] && e.Queued?
      ensures CloseCall(e.fd) in Trace(Flat(logs)) <==> table[k].pollErr
    {
      QueuedClosed(table, listener, logs, k, e);
    }
  }

  lemma ListenerIsFirst(listener: int, after: seq<PollFd>)
    requires Distinct(after) && after != [] && after[0].fd == listener
    ensures (exists p :: p in after && p.fd == listener && p.pollErr) <==> after[0].pollErr
  {
    if after[0].pollErr {
      assert after[0] in after;
    }
  }

  class TCPServer {
    const kernel: Kernel
    const serverFd: int
    ghost const others: set<int>  // descriptors of the process that are none of the server's business
    var fds: seq<PollFd>
    var clientFds: set<int>

    /**
     The table lists each client once and asks for its data, and no client is leaked, whatever has become of the
     listener.
     */
    ghost predicate TablesAgree()
      reads this, kernel
    {
      && kernel.Honest() && serverFd !in clientFds + others && clientFds !! others
      && kernel.open - {serverFd} == clientFds + others
      && Distinct(fds) && Listed(fds) - {serverFd} == clientFds
      && AsksForData(fds)
    }

    /** And the listener comes first. */
    ghost predicate Agree()
      reads this, kernel
    {
      TablesAgree() && serverFd in kernel.open && fds != [] && fds[0].fd == serverFd
    }

    /** Or it is gone, and nobody new can connect. */
    ghost predicate Deaf()
      reads this, kernel
    {
      TablesAgree() && serverFd !in Listed(fds)
    }

    lemma AgreeOrDeaf()
      ensures !(Agree() && Deaf())
    {
      if Agree() {
        assert fds[0].fd in Listed(fds);
      }
    }

    constructor (kernel: Kernel, serverFd: int)
      requires kernel.Honest() && serverFd >= 0 && serverFd in kernel.open
      ensures Agree() && this.kernel == kernel && this.serverFd == serverFd && clientFds == {}
    {
      this.kernel, this.serverFd, others := kernel, serverFd, kernel.open - {serverFd};
      fds, clientFds := [Listening(serverFd)], {};
    }

    method FindClientFdIdx(fd: int) returns (idx: int)
      ensures if fd in Listed(fds) then 0 <= idx < |fds| && fds[idx].fd == fd else idx == -1
    {
      for i := 0 to |fds|
        invariant forall j :: 0 <= j < i ==> fds[j].fd != fd
      {
        if fds[i].fd == fd {
          return i;
        }
      }
      return -1;
    }

    method NewClient() returns (e: Event)
      requires Agree()
      modifies this, kernel`open, kernel`calls
      ensures Agree() && (e.Accepted? || e.AcceptFailed?) && Subject(e) == serverFd
      ensures e.Accepted? ==> e.fd !in old(kernel.open)
      ensures fds == TableEffect(old(fds), e) && clientFds == Effect(old(clientFds), e)
      ensures kernel.open >= old(kernel.open) && Performed([e], old(kernel.calls), kernel.calls)
      ensures old(kernel.calls) <= kernel.calls
      ensures Serves(serverFd, Pooling, serverFd, Since(old(kernel.calls), kernel.calls))
    {
      var clientFd := kernel.Accept(serverFd);
      if clientFd == -1 {
        PerformedOne(AcceptFailed(serverFd), old(kernel.calls));
        return AcceptFailed(serverFd);
      }
      assert forall i :: 0 <= i < |fds| ==> fds[i].fd in Listed(fds);
      ListedAppend(fds, Listening(clientFd));
      fds := fds + [Listening(clientFd)];
      clientFds := clientFds + {clientFd};
      PerformedOne(Accepted(serverFd, clientFd), old(kernel.calls));
      return Accepted(serverFd, clientFd);
    }

    /** Closing a descriptor and forgetting it, as done after a failed recv and after an error event. */
    method CleanUp(fd: int)
      requires TablesAgree() && fd !in others
      modifies this, kernel`open, kernel`calls
      ensures TablesAgree()
      ensures fds == Without(old(fds), fd) && clientFds == old(clientFds) - {fd}
      ensures kernel.calls == old(kernel.calls) + [CloseCall(fd)]
      ensures fd != serverFd && old(Agree()) ==> Agree()
      ensures kernel.open == old(kernel.open) - {fd}
    {
      kernel.Close(fd);
      var idx := FindClientFdIdx(fd);
      WithoutListed(fds, fd);
      WithoutDistinct(fds, fd);
      WithoutAsks(fds, fd);
      if idx != -1 {
        EraseIsWithout(fds, idx);
        if fds[0].fd != fd {
          WithoutFirst(fds, fd);
        }
        fds := fds[..idx] + fds[idx + 1..];
      } else {
        WithoutAbsent(fds, fd);
      }
      clientFds := clientFds - {fd};
    }

    method ClientCommunicate(fd: int) returns (e: Event)
      requires TablesAgree() && fd !in others && fd != serverFd
      modifies this, kernel`open, kernel`calls
      ensures TablesAgree() && (e.Queued? || e.Closed?) && Subject(e) == fd
      ensures fds == TableEffect(old(fds), e) && clientFds == Effect(old(clientFds), e)
      ensures Performed([e], old(kernel.calls), kernel.calls)
      ensures old(kernel.calls) <= kernel.calls
      ensures Serves(serverFd, Pooling, fd, Since(old(kernel.calls), kernel.calls))
      ensures old(Agree()) ==> Agree()
    {
      var len := kernel.Recv(fd);
      if len <= 0 {
        CleanUp(fd);
        e := Closed(fd, len);
      } else {
        kernel.Submit(fd);
        e := Queued(fd, len);
      }
      PerformedOne(e, old(kernel.calls));
    }

    /** The data event of an entry: the listener accepts, a client is left to the pool or cleaned up. */
    method HandleData(p: PollFd) returns (e: Event)
      requires TablesAgree() && p.fd !in others && (p.fd == serverFd ==> Agree())
      modifies this, kernel`open, kernel`calls
      ensures TablesAgree() && LeftToPool(serverFd, e) && Subject(e) == p.fd
      ensures fds == TableEffect(old(fds), e) && clientFds == Effect(old(clientFds), e)
      ensures Performed([e], old(kernel.calls), kernel.calls) && old(kernel.calls) <= kernel.calls
      ensures Serves(serverFd, Pooling, p.fd, Since(old(kernel.calls), kernel.calls))
      ensures old(Agree()) ==> Agree()
      ensures e.Accepted? ==> e.fd !in old(kernel.open)
      ensures serverFd !in old(Listed(fds)) && p.fd != serverFd ==> serverFd !in Listed(fds)
    {
      ghost var t := fds;
      if p.fd == serverFd {
        e := NewClient();
      } else {
        e := ClientCommunicate(p.fd);
        WithoutListed(t, p.fd);
      }
    }

    /** One entry of the copy: its data first, then its error event. */
    method HandleEntry(p: PollFd) returns (events: seq<Event>)
      requires TablesAgree() && p.fd !in others && (p.fd == serverFd && p.pollIn ==> Agree())
      modifies this, kernel`open, kernel`calls
      ensures TablesAgree() && EntryHandled(p, serverFd, events)
      ensures Performed(events, old(kernel.calls), kernel.calls)
      ensures old(kernel.calls) <= kernel.calls
      ensures EntryServed(p, serverFd, Since(old(kernel.calls), kernel.calls))
      ensures fds == TableAfter(old(fds), events) && clientFds == ClientsAfter(old(clientFds), events)
      ensures old(Agree()) && !(p.fd == serverFd && p.pollErr) ==> Agree()
      ensures p.fd == serverFd && p.pollErr ==> serverFd !in Listed(fds)
      ensures forall e :: e in events && e.Accepted? ==> e.fd !in old(kernel.open)
      ensures serverFd !in old(Listed(fds)) && !(p.fd == serverFd && p.pollIn) ==> serverFd !in Listed(fds)
    {
      hide TableAfter, ClientsAfter, Without, Performed, Serves, EntryServed;
      events := [];
      ghost var t, c, calls := fds, clientFds, kernel.calls;
      NothingYet(t, c);
      PerformedNone(calls);
      if p.pollIn {
        var e := HandleData(p);
        assert [] + [e] == [e];
        TableAfterOneMore(t, [], e);
        ClientsAfterOneMore(c, [], e);
        events := [e];
      }
      ghost var data := Since(calls, kernel.calls);
      if p.pollErr {
        var e := Dropped(p.fd);
        TableAfterOneMore(t, events, e);
        ClientsAfterOneMore(c, events, e);
        WithoutListed(fds, p.fd);
        PerformedOne(e, kernel.calls);
        PerformedInTurn(events, [e], calls, kernel.calls, kernel.calls + Calls(e));
        CleanUp(p.fd);
        events := events + [e];
      }
      EntryDone(p, serverFd, data, Since(calls, kernel.calls));
    }

    /**
     The pass over a copy of the table. Every entry with events is handled, clients accepted meanwhile are named by no
     entry, and the tables agree afterwards exactly if they did and the listener had no error event; otherwise the
     server has gone deaf. A client whose answer has been left to the pool is closed in the pass exactly if it had an
     error event too.
     */
    method PollPass() returns (logs: seq<seq<Event>>)
      requires Agree() || Deaf()
      modifies this, kernel`open, kernel`calls
      ensures Agree() || Deaf()
      ensures Agree() <==> old(Agree() && !fds[0].pollErr)
      ensures |logs| == |old(fds)| && forall k :: 0 <= k < |logs| ==> EntryHandled(old(fds)[k], serverFd, logs[k])
      ensures forall k, e :: 0 <= k < |logs| && e in logs[k] && e.Accepted? ==> e.fd !in old(Listed(fds))
      ensures fds == TableAfter(old(fds), Flat(logs)) && clientFds == ClientsAfter(old(clientFds), Flat(logs))
      ensures Performed(Flat(logs), old(kernel.calls), kernel.calls)
      ensures old(kernel.calls) <= kernel.calls
      ensures TableServed(old(fds), serverFd, Since(old(kernel.calls), kernel.calls))
      ensures forall k, e :: 0 <= k < |logs| && e in logs[k] && e.Queued? ==>
                (CloseCall(e.fd) in Since(old(kernel.calls), kernel.calls) <==> old(fds)[k].pollErr)
    {
      hide TableAfter, ClientsAfter, Flat, Without, Performed, TableServed, EntryServed;
      var copy := fds;
      ghost var clients, agreed, listed := clientFds, Agree(), Listed(copy);
      logs := [];
      NothingYet(copy, clients);
      PerformedNone(kernel.calls);
      TableServedAtFirst(copy, serverFd, kernel.calls);
      assert listed <= clientFds + {serverFd} && listed !! others;
      assert agreed ==> listed <= kernel.open;
      for k := 0 to |copy|
        invariant TablesAgree() && |logs| == k
        invariant agreed && (k == 0 || !copy[0].pollErr) ==> Agree()
        invariant !agreed || (k > 0 && copy[0].pollErr) ==> Deaf()
        invariant k == 0 ==> fds == copy && (agreed ==> listed <= kernel.open)
        invariant forall j :: 0 <= j < k ==> EntryHandled(copy[j], serverFd, logs[j])
        invariant forall j, e :: 0 <= j < k && e in logs[j] && e.Accepted? ==> e.fd !in listed
        invariant fds == TableAfter(copy, Flat(logs)) && clientFds == ClientsAfter(clients, Flat(logs))
        invariant Performed(Flat(logs), old(kernel.calls), kernel.calls)
        invariant old(kernel.calls) <= kernel.calls
        invariant TableServed(copy[..k], serverFd, Since(old(kernel.calls), kernel.calls))
      {
        assert copy[k].fd in listed;
        ghost var calls := kernel.calls;
        var events := HandleEntry(copy[k]);
        FlatOneMore(logs, events);
        TableServedMore(copy, k, serverFd, old(kernel.calls), calls, kernel.calls);
        PerformedInTurn(Flat(logs), events, old(kernel.calls), calls, kernel.calls);
        TableAfterAppend(copy, Flat(logs), events);
        ClientsAfterAppend(clients, Flat(logs), events);
        logs := logs + [events];
      }
      AgreeOrDeaf();
      assert copy[..|copy|] == copy;
      PerformedTrace(Flat(logs), old(kernel.calls), kernel.calls);
      QueuedClosedIff(copy, serverFd, logs);
    }
  }

  ghost predicate AllHandled(listener: int, table: seq<PollFd>, logs: seq<seq<Event>>) {
    |logs| == |table| && forall k :: 0 <= k < |logs| ==> EntryHandled(table[k], listener, logs[k])
  }

  /**
   A round with these clients: poll looks at them all, at the listener if there still is one, and every answer is
   handled.
   */
  ghost predicate RoundRight(listener: int, clients: set<int>, r: Round) {
    && r.call.PollCall? && Polled(r.call.table, r.call.n, r.call.cnt, r.call.after)
    && r.call.n == |r.call.table| && Distinct(r.call.table) && Listed(r.call.table) - {listener} == clients
    && AsksForData(r.call.table)
    && (forall e :: e in r.log ==> Justified(e))
    && if r.call.cnt <= 0 then r.log == []
       else
         && (exists logs :: AllHandled(listener, r.call.after, logs) && r.log == Flat(logs))
         && TableServed(r.call.after, listener, Trace(r.log))
  }

  ghost function Right(listener: int): (set<int>, Round) -> bool {
    (clients, r) => RoundRight(listener, clients, r)
  }

  /** poll has reported an error event of the listener. */
  predicate ListenerFails(listener: int, r: Round) {
    r.call.PollCall? && r.call.cnt > 0 && exists p :: p in r.call.after && p.fd == listener && p.pollErr
  }

  lemma ListedAfterPoll(table: seq<PollFd>, cnt: int, after: seq<PollFd>)
    requires Polled(table, |table|, cnt, after)
    ensures Listed(after) == Listed(table) && (Distinct(table) ==> Distinct(after))
    ensures AsksForData(table) ==> AsksForData(after)
    ensures table != [] ==> after != [] && after[0].fd == table[0].fd
  {
    assert forall i :: 0 <= i < |table| ==> after[i].fd == table[i].fd && after[i].watchIn == table[i].watchIn;
    forall x ensures x in Listed(after) <==> x in Listed(table) {
      if x in Listed(after) {
        var i :| 0 <= i < |after| && after[i].fd == x;
        assert table[i].fd == x;
      }
      if x in Listed(table) {
        var i :| 0 <= i < |table| && table[i].fd == x;
        assert after[i].fd == x;
      }
    }
  }

  /** One round: poll, and the pass if it has found events. */
  method PollRound(server: TCPServer) returns (r: Round)
    requires server.Agree() || server.Deaf()
    modifies server, server.kernel`open, server.kernel`calls
    ensures server.Agree() || server.Deaf()
    ensures server.Agree() <==> old(server.Agree()) && !ListenerFails(server.serverFd, r)
    ensures r.call.PollCall? && r.call.table == old(server.fds) &&
              RoundRight(server.serverFd, old(server.clientFds), r)
    ensures server.clientFds == ClientsAfter(old(server.clientFds), r.log)
    ensures server.kernel.calls == old(server.kernel.calls) + [r.call] + Trace(r.log)
  {
    hide ClientsAfter, Trace, TableAfter, EntryHandled, Flat, TableServed;
    var table := server.fds;
    var cnt, after := server.kernel.Poll(table, |table|);
    ListedAfterPoll(table, cnt, after);
    server.fds := after;
    var log := [];
    ClientsAfterNone(server.clientFds);
    NoTrace();
    ghost var agreed := server.Agree();
    if cnt > 0 {
      ghost var calls := server.kernel.calls;
      var logs := server.PollPass();
      log := Flat(logs);
      PerformedTrace(log, calls, server.kernel.calls);
      assert AllHandled(server.serverFd, after, logs);
    }
    r := Round(PollCall(table, |table|, cnt, after), log);
    if agreed {
      ListenerIsFirst(server.serverFd, after);
    }
  }

  /** Rounds of poll and pass, until the flag is cleared; a failing poll is tried again. */
  method RunPollLoop(server: TCPServer, limit: nat) returns (rounds: seq<Round>, stopped: bool)
    requires server.Agree() || server.Deaf()
    modifies server, server.kernel
    ensures server.Agree() || server.Deaf()
    ensures server.Agree() <==> old(server.Agree()) && forall r :: r in rounds ==> !ListenerFails(server.serverFd, r)
    ensures server.clientFds == ClientsAfterRounds(old(server.clientFds), rounds)
    ensures |rounds| <= limit && (if stopped then !server.kernel.running else |rounds| == limit)
    ensures AllRight(Right(server.serverFd), old(server.clientFds), rounds)
    ensures server.kernel.calls == old(server.kernel.calls) + RoundsTrace(rounds) + if stopped then [StopSeen] else []
  {
    hide RoundRight, ClientsAfter, AllRight, ClientsAfterRounds, RoundsTrace, Trace, ListenerFails;
    hide Distinct, Listed, AsksForData;
    rounds, stopped := [], false;
    ghost var clients, right, agreed := server.clientFds, Right(server.serverFd), server.Agree();
    RoundsNone(clients, right);
    server.AgreeOrDeaf();
    while |rounds| < limit
      invariant (server.Agree() || server.Deaf()) && |rounds| <= limit
      invariant server.Agree() <==> agreed && forall r :: r in rounds ==> !ListenerFails(server.serverFd, r)
      invariant server.clientFds == ClientsAfterRounds(clients, rounds) && AllRight(right, clients, rounds)
      invariant server.kernel.calls == old(server.kernel.calls) + RoundsTrace(rounds)
    {
      var running := server.kernel.StillRunning();
      if !running {
        return rounds, true;
      }
      var round := PollRound(server);
      RoundsOneMore(right, clients, rounds, round);
      rounds := rounds + [round];
      if round.call.cnt == -1 {
        running := server.kernel.StillRunning();
        if !running {
          return rounds, true;
        }
      }
    }
  }
}
