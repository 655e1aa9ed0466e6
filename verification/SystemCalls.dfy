/**
 What lies outside the tables of a server: the kernel's descriptors, the stop flag that a signal handler clears, and
 the thread pool that sends replies. Every call is recorded with its answer.
 */
module SystemCalls {
  import opened Sets
  import opened Wrappers

  /** An entry of a poll table: what is asked for and what poll has answered. */
  datatype PollFd = PollFd(fd: int, watchIn: bool, pollIn: bool, pollErr: bool)

  function Listening(fd: int): PollFd { PollFd(fd, true, false, false) }

  predicate HasEvents(p: PollFd) { p.pollIn || p.pollErr }

  /** How many of the entries lo..hi satisfy p. */
  function Count(table: seq<PollFd>, lo: nat, hi: nat, p: PollFd -> bool): nat
    requires lo <= hi <= |table|
    decreases hi - lo
  {
    if lo == hi then 0 else (if p(table[lo]) then 1 else 0) + Count(table, lo + 1, hi, p)
  }

  /** What poll may answer for an entry. */
  predicate Answers(before: PollFd, after: PollFd) {
    && after.fd == before.fd && after.watchIn == before.watchIn
    && (after.pollIn ==> before.watchIn && before.fd >= 0)
    && (after.pollErr ==> before.fd >= 0)
  }

  /**
   poll(table, n) returns cnt and leaves the table as after: -1 for a failure, or the number of entries with events.
   */
  predicate Polled(table: seq<PollFd>, n: nat, cnt: int, after: seq<PollFd>) {
    && n <= |table| == |after|
    && (forall i :: n <= i < |table| ==> after[i] == table[i])
    && (cnt == -1 ==> after == table)
    && (cnt != -1 ==> cnt == Count(after, 0, n, HasEvents) && forall i :: 0 <= i < n ==> Answers(table[i], after[i]))
  }

  datatype KernelCall =
    | AcceptCall(listener: int, answer: int)
    | RecvCall(fd: int, answer: int)
    | SendCall(fd: int)
    | SubmitCall(fd: int)    // hands the reply to the thread pool
    | CloseCall(fd: int)
    | SelectCall(watched: set<int>, ok: bool, ready: set<int>)
    | PollCall(table: seq<PollFd>, n: nat, cnt: int, after: seq<PollFd>)
    | StopSeen               // the flag was read and found cleared

  // ----- what a history of calls tells

  /** The descriptors open after these calls. */
  function OpenAfter(initial: set<int>, calls: seq<KernelCall>): set<int> {
    if calls == [] then initial
    else
      var before := OpenAfter(initial, calls[..|calls| - 1]);
      match calls[|calls| - 1]
      case AcceptCall(_, fd) => if fd >= 0 then before + {fd} else before
      case CloseCall(fd) => before - {fd}
      case _ => before
  }

  /** accept answers with a descriptor that is not open, or -1. */
  predicate HonestCalls(initial: set<int>, calls: seq<KernelCall>) {
    calls == [] ||
    var before, c := calls[..|calls| - 1], calls[|calls| - 1];
    && HonestCalls(initial, before)
    && (c.AcceptCall? ==> c.answer == -1 || (c.answer >= 0 && c.answer !in OpenAfter(initial, before)))
  }

  lemma OneCallMore(initial: set<int>, calls: seq<KernelCall>, c: KernelCall)
    requires HonestCalls(initial, calls)
    requires c.AcceptCall? ==> c.answer == -1 || (c.answer >= 0 && c.answer !in OpenAfter(initial, calls))
    ensures HonestCalls(initial, calls + [c])
    ensures OpenAfter(initial, calls + [c]) == (
              var before := OpenAfter(initial, calls);
              if c.AcceptCall? && c.answer >= 0 then before + {c.answer}
              else if c.CloseCall? then before - {c.fd}
              else before)
  {
    assert (calls + [c])[..|calls|] == calls;
  }

  /** How often accept has answered with this number. */
  function Generation(calls: seq<KernelCall>, fd: int): nat {
    if calls == [] then 0
    else
      var c := calls[|calls| - 1];
      Generation(calls[..|calls| - 1], fd) + if c.AcceptCall? && c.answer == fd >= 0 then 1 else 0
  }

  /** Which connection the number stands for after these calls. Numbers are used again, connections are not. */
  function Connection(initial: set<int>, calls: seq<KernelCall>, fd: int): Option<nat> {
    if fd in OpenAfter(initial, calls) then Some(Generation(calls, fd)) else None
  }

  lemma {:induction false} GenerationGrows(calls: seq<KernelCall>, i: nat, j: nat, fd: int)
    requires i <= j <= |calls|
    ensures Generation(calls[..i], fd) <= Generation(calls[..j], fd)
    decreases j
  {
    if i < j {
      assert calls[..j][..j - 1] == calls[..j - 1];
      GenerationGrows(calls, i, j - 1, fd);
    }
  }

  lemma HonestPrefix(initial: set<int>, calls: seq<KernelCall>)
    requires calls != [] && HonestCalls(initial, calls)
    ensures HonestCalls(initial, calls[..|calls| - 1])
  {
  }

  /** As long as nobody closes it, a number stands for the same connection; closed, for none or a later one. */
  lemma {:induction false} ConnectionStays(initial: set<int>, calls: seq<KernelCall>, i: nat, fd: int)
    requires HonestCalls(initial, calls) && i <= |calls| && fd in OpenAfter(initial, calls[..i])
    ensures CloseCall(fd) !in calls[i..] ==> Connection(initial, calls, fd) == Connection(initial, calls[..i], fd)
    ensures CloseCall(fd) in calls[i..] ==>
              fd !in OpenAfter(initial, calls) || Generation(calls[..i], fd) < Generation(calls, fd)
    decreases |calls|
  {
    var n := |calls| - 1;
    if i == |calls| {
      assert calls[..i] == calls;
    } else {
      var before := calls[..n];
      assert before[..i] == calls[..i] && calls[i..] == before[i..] + [calls[n]];
      assert CloseCall(fd) in calls[i..] <==> CloseCall(fd) in before[i..] || calls[n] == CloseCall(fd);
      ConnectionStays(initial, before, i, fd);
      GenerationGrows(calls, i, n, fd);
    }
  }

  /**
   A reply is sent by the pool to the number its message came from. Sent after j calls, it reaches the connection
   that the number stood for after i calls, when it was submitted, exactly if nobody has closed the number in between.
   */
  lemma ReplyReachesIff(initial: set<int>, calls: seq<KernelCall>, i: nat, j: nat, fd: int)
    requires i <= j <= |calls| && HonestCalls(initial, calls[..j]) && fd in OpenAfter(initial, calls[..i])
    ensures Connection(initial, calls[..j], fd) == Connection(initial, calls[..i], fd) <==>
              CloseCall(fd) !in calls[i..j]
  {
    assert calls[..j][..i] == calls[..i] && calls[..j][i..] == calls[i..j];
    ConnectionStays(initial, calls[..j], i, fd);
  }

  /** Client 5 goes before its reply is sent and another client is given its number: the reply is the other's. */
  lemma ReplyGoesAstray() returns (calls: seq<KernelCall>)
    ensures HonestCalls({3}, calls) && |calls| == 6 && calls[2] == SubmitCall(5)
    ensures Connection({3}, calls[..3], 5) == Some(1) && Connection({3}, calls, 5) == Some(2)
  {
    calls := [AcceptCall(3, 5), RecvCall(5, 10), SubmitCall(5), RecvCall(5, 0), CloseCall(5), AcceptCall(3, 5)];
    for i := 0 to 6
      invariant HonestCalls({3}, calls[..i])
      invariant OpenAfter({3}, calls[..i]) == if i == 0 || i == 5 then {3} else {3, 5}
      invariant Generation(calls[..i], 5) == if i == 0 then 0 else if i <= 5 then 1 else 2
      invariant i >= 3 ==> Connection({3}, calls[..3], 5) == Some(1)
    {
      assert calls[..i + 1][..i] == calls[..i];
    }
    assert calls[..6] == calls;
  }

  // ----- serving, told in calls alone

  /**
   How a server treats its clients: it answers itself, leaves that to its pool, or answers unless it has been stopped.
   */
  datatype Manner = Answering | Pooling | Stoppable

  /**
   The calls for one ready descriptor: accept, or one recv whose data is answered and whose end or error is closed.
   */
  predicate Serves(listener: int, manner: Manner, fd: int, calls: seq<KernelCall>) {
    if fd == listener then |calls| == 1 && calls[0].AcceptCall? && calls[0].listener == listener
    else
      || (&& |calls| == 2 && calls[0].RecvCall? && calls[0].fd == fd
          && calls[1] == if calls[0].answer <= 0 then CloseCall(fd)
                         else if manner.Pooling? then SubmitCall(fd)
                         else SendCall(fd))
      || (manner.Stoppable? && calls == [StopSeen, CloseCall(fd)])
  }

  /** The calls serve these descriptors, one after the other, and there are no others. */
  ghost predicate ServesAll(listener: int, manner: Manner, fds: seq<int>, calls: seq<KernelCall>)
    decreases |fds|
  {
    if fds == [] then calls == []
    else
      exists i :: 0 <= i <= |calls| && ServesAll(listener, manner, fds[..|fds| - 1], calls[..i])
                  && Serves(listener, manner, fds[|fds| - 1], calls[i..])
  }

  lemma ServesNone(listener: int, manner: Manner)
    ensures ServesAll(listener, manner, [], [])
  {
  }

  lemma ServesOneMore(listener: int, manner: Manner, fds: seq<int>, calls: seq<KernelCall>, fd: int,
                      more: seq<KernelCall>)
    requires ServesAll(listener, manner, fds, calls) && Serves(listener, manner, fd, more)
    ensures ServesAll(listener, manner, fds + [fd], calls + more)
  {
    assert (fds + [fd])[..|fds|] == fds;
    assert (calls + more)[..|calls|] == calls && (calls + more)[|calls|..] == more;
  }

  function Closing(fds: seq<int>): seq<KernelCall> {
    seq(|fds|, i requires 0 <= i < |fds| => CloseCall(fds[i]))
  }

  /** What has been called between two moments. */
  function Since(before: seq<KernelCall>, after: seq<KernelCall>): seq<KernelCall>
    requires before <= after
  {
    after[|before|..]
  }

  // ----- the kernel as an oracle

  /** Some descriptor is free. */
  lemma FreeExists(open: set<int>)
    ensures exists fd :: fd >= 0 && fd !in open
  {
    if open == {} {
      assert 0 !in open;
    } else {
      MaxExists(open);
      var m :| IsMax(m, open);
      var fd := (if m < -1 then -1 else m) + 1;
      assert fd >= 0 && fd !in open;
    }
  }

  /** The table without any events. */
  function Quiet(table: seq<PollFd>, n: nat): seq<PollFd>
    requires n <= |table|
  {
    seq(|table|, i requires 0 <= i < |table| =>
      if i < n then table[i].(pollIn := false, pollErr := false) else table[i])
  }

  lemma {:induction false} QuietCount(table: seq<PollFd>, lo: nat, n: nat)
    requires lo <= n <= |table|
    ensures Count(Quiet(table, n), lo, n, HasEvents) == 0
    decreases n - lo
  {
    if lo < n {
      QuietCount(table, lo + 1, n);
    }
  }

  lemma SomeAnswer(table: seq<PollFd>, n: nat)
    requires n <= |table|
    ensures exists after: seq<PollFd> :: n <= |after| && Polled(table, n, Count(after, 0, n, HasEvents), after)
  {
    QuietCount(table, 0, n);
    assert Polled(table, n, Count(Quiet(table, n), 0, n, HasEvents), Quiet(table, n));
  }

  class Kernel {
    var open: set<int>
    var running: bool  // the server's flag; a signal handler may clear it at any time
    ghost const initial: set<int>
    ghost var calls: seq<KernelCall>

    ghost predicate Honest()
      reads this
    {
      HonestCalls(initial, calls) && open == OpenAfter(initial, calls)
    }

    constructor (open: set<int>)
      ensures Honest() && this.open == open && running && calls == []
    {
      this.open, this.running, this.initial, this.calls := open, true, open, [];
    }

    /** A descriptor that is not open, or -1. */
    method Accept(listener: int) returns (fd: int)
      requires Honest()
      modifies this`open, this`calls
      ensures Honest() && (fd == -1 || fd >= 0)
      ensures fd == -1 ==> open == old(open)
      ensures fd >= 0 ==> fd !in old(open) && open == old(open) + {fd}
      ensures calls == old(calls) + [AcceptCall(listener, fd)]
    {
      if * {
        fd := -1;
      } else {
        FreeExists(open);
        fd :| fd >= 0 && fd !in open;
        open := open + {fd};
      }
      OneCallMore(initial, calls, AcceptCall(listener, fd));
      calls := calls + [AcceptCall(listener, fd)];
    }

    /** A positive length, 0 at the end of the stream, or -1. */
    method Recv(fd: int) returns (len: int)
      requires Honest()
      modifies this`calls
      ensures Honest() && len >= -1
      ensures calls == old(calls) + [RecvCall(fd, len)]
    {
      len :| len >= -1;
      OneCallMore(initial, calls, RecvCall(fd, len));
      calls := calls + [RecvCall(fd, len)];
    }

    method Send(fd: int)
      requires Honest()
      modifies this`calls
      ensures Honest() && calls == old(calls) + [SendCall(fd)]
    {
      OneCallMore(initial, calls, SendCall(fd));
      calls := calls + [SendCall(fd)];
    }

    method Submit(fd: int)
      requires Honest()
      modifies this`calls
      ensures Honest() && calls == old(calls) + [SubmitCall(fd)]
    {
      OneCallMore(initial, calls, SubmitCall(fd));
      calls := calls + [SubmitCall(fd)];
    }

    /** Closing what is not open has no effect. */
    method Close(fd: int)
      requires Honest()
      modifies this`open, this`calls
      ensures Honest() && open == old(open) - {fd}
      ensures calls == old(calls) + [CloseCall(fd)]
    {
      OneCallMore(initial, calls, CloseCall(fd));
      open := open - {fd};
      calls := calls + [CloseCall(fd)];
    }

    /** Blocks until some of the watched descriptors are ready, or fails. */
    method Select(watched: set<int>) returns (ok: bool, ready: set<int>)
      requires Honest()
      modifies this`calls
      ensures Honest() && ready <= watched
      ensures calls == old(calls) + [SelectCall(watched, ok, ready)]
    {
      ok := *;
      ready :| ready <= watched;
      OneCallMore(initial, calls, SelectCall(watched, ok, ready));
      calls := calls + [SelectCall(watched, ok, ready)];
    }

    /** Blocks until some of the first n entries have events, or a timeout, or fails. */
    method Poll(table: seq<PollFd>, n: nat) returns (cnt: int, after: seq<PollFd>)
      requires Honest() && n <= |table|
      modifies this`calls
      ensures Honest() && Polled(table, n, cnt, after)
      ensures calls == old(calls) + [PollCall(table, n, cnt, after)]
    {
      if * {
        cnt, after := -1, table;
      } else {
        SomeAnswer(table, n);
        after :| n <= |after| && Polled(table, n, Count(after, 0, n, HasEvents), after);
        cnt := Count(after, 0, n, HasEvents);
      }
      OneCallMore(initial, calls, PollCall(table, n, cnt, after));
      calls := calls + [PollCall(table, n, cnt, after)];
    }

    /** Reads the flag, which may have been cleared since it was last read. */
    method StillRunning() returns (yes: bool)
      requires Honest()
      modifies this`running, this`calls
      ensures Honest() && yes == running && (running ==> old(running))
      ensures calls == old(calls) + if yes then [] else [StopSeen]
    {
      if * {
        running := false;
      }
      yes := running;
      if !yes {
        OneCallMore(initial, calls, StopSeen);
        calls := calls + [StopSeen];
      }
    }
  }
}
