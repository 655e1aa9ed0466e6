/**
 Length-prefixed packets over a byte stream. The kernel is an oracle: each send takes, and each recv yields, as few of
 the bytes as it likes. The prefix is a 32-bit length in network byte order (Appendix B of RFC 791).
 */
module Framing {
  type byte = x: int | 0 <= x < 0x100
  type bytes = seq<byte>

  const WORD := 0x1_0000_0000
  newtype uint32 = x: int | 0 <= x < WORD

  const LIMIT := 1024 * 1024  // the longest body the client accepts

  // ----- the wire format

  function BigEndian(n: nat): (r: bytes)
    requires n < WORD
    ensures |r| == 4
  {
    [n / 0x100_0000, n / 0x1_0000 % 0x100, n / 0x100 % 0x100, n % 0x100]
  }

  function FromBigEndian(b: bytes): (n: nat)
    requires |b| == 4
    ensures n < WORD
  {
    0x100_0000 * (b[0] as int) + 0x1_0000 * (b[1] as int) + 0x100 * (b[2] as int) + b[3] as int
  }

  lemma ReadsBack(n: nat)
    requires n < WORD
    ensures FromBigEndian(BigEndian(n)) == n
  {
    assert n / 0x1_0000 == 0x100 * (n / 0x100_0000) + n / 0x1_0000 % 0x100;
    assert n / 0x100 == 0x100 * (n / 0x1_0000) + n / 0x100 % 0x100;
  }

  /**
   The first byte counts most: of two prefixes the one with the smaller byte at the first difference encodes the
   smaller length. With the two lemmas around this one, that leaves no other encoding.
   */
  lemma NetworkOrder(a: bytes, b: bytes, i: nat)
    requires |a| == |b| == 4 && i < 4 && a[..i] == b[..i] && a[i] < b[i]
    ensures FromBigEndian(a) < FromBigEndian(b)
  {
    forall j | 0 <= j < i ensures a[j] == b[j] {
      assert a[j] == a[..i][j] == b[..i][j];
    }
  }

  lemma WritesBack(b: bytes)
    requires |b| == 4
    ensures BigEndian(FromBigEndian(b)) == b
  {
    var n := FromBigEndian(b);
    var b0: int, b1: int, b2: int := b[0], b[1], b[2];
    assert n / 0x100 == 0x1_0000 * b0 + 0x100 * b1 + b2;
    assert n / 0x1_0000 == 0x100 * b0 + b1;
    assert n / 0x100_0000 == b0;
  }

  /**
   What the client's send_packet puts on the wire: sizes are cast to 32 bits, for the prefix and for the body alike.
   */
  function ClientWire(data: bytes): bytes {
    BigEndian(|data| % WORD) + data[..|data| % WORD]
  }

  /** The server's send_packet truncates the prefix only. */
  function ServerWire(data: bytes): bytes {
    BigEndian(|data| % WORD) + data
  }

  datatype Outcome = Frame(body: bytes, rest: bytes) | Truncated | TooLong

  /** What a reader makes of a stream that starts with k bytes of prefix. */
  function Body(s: bytes, k: nat, len: nat): Outcome
    requires k <= |s|
  {
    if |s| - k < len then Truncated else Frame(s[k..k + len], s[k + len..])
  }

  const WORD_MAX := WORD - 1

  /**
   A reader with a limit, seen from the stream alone. The client's limit is LIMIT; the server has none but WORD_MAX.
   */
  function Decode(s: bytes, limit: nat := LIMIT): Outcome {
    if |s| < 4 then Truncated
    else if FromBigEndian(s[..4]) > limit then TooLong
    else Body(s, 4, FromBigEndian(s[..4]))
  }

  const ZEROS: bytes := [0, 0, 0, 0]

  /** The length the server computes from the k bytes its single header recv has yielded. */
  function PartialLength(s: bytes, k: nat): nat
    requires k <= 4 && k <= |s|
  {
    FromBigEndian(s[..k] + ZEROS[k..])
  }

  function ServerDecode(s: bytes, k: nat): Outcome
    requires k <= 4 && k <= |s|
  {
    Body(s, k, PartialLength(s, k))
  }

  lemma EncodedDecodes(body: bytes, rest: bytes, limit: nat)
    requires |body| <= limit < WORD
    ensures Decode(ClientWire(body) + rest, limit) == Frame(body, rest)
  {
    var s := ClientWire(body) + rest;
    ReadsBack(|body|);
    assert s[..4] == BigEndian(|body|);
    assert s[4..4 + |body|] == body && s[4 + |body|..] == rest;
  }

  lemma DecodedEncodes(s: bytes, body: bytes, rest: bytes, limit: nat)
    requires Decode(s, limit) == Frame(body, rest) && limit < WORD
    ensures |body| <= limit && s == ClientWire(body) + rest
  {
    WritesBack(s[..4]);
    assert s[..4] == BigEndian(|body|) && s[4..4 + |body|] == body && s[4 + |body|..] == rest;
    assert ClientWire(body) == s[..4] + body;
    hide BigEndian, FromBigEndian, ClientWire, Decode;
    assert s == s[..4] + s[4..4 + |body|] + s[4 + |body|..];
  }

  /** Decoding and encoding are inverse: a reader reads a frame exactly when the stream starts with its encoding. */
  lemma DecodeIff(s: bytes, body: bytes, rest: bytes, limit: nat)
    requires limit < WORD
    ensures Decode(s, limit) == Frame(body, rest) <==> |body| <= limit && s == ClientWire(body) + rest
  {
    if |body| <= limit && s == ClientWire(body) + rest {
      EncodedDecodes(body, rest, limit);
    }
    if Decode(s, limit) == Frame(body, rest) {
      DecodedEncodes(s, body, rest, limit);
    }
  }

  /**
   The round trip succeeds for exactly the messages within the limit; the 32-bit casts make no exception for huge
   ones.
   */
  lemma RoundTripIff(data: bytes, rest: bytes, limit: nat)
    requires limit < WORD
    ensures Decode(ClientWire(data) + rest, limit) == Frame(data, rest) <==> |data| <= limit
    ensures Decode(ClientWire(data) + rest) == Frame(data, rest) <==> |data| <= 1048576
  {
    DecodeIff(ClientWire(data) + rest, data, rest, limit);
    DecodeIff(ClientWire(data) + rest, data, rest, LIMIT);
  }

  /** A message of 4 GiB or more is cut to what 32 bits can tell; the stream stays in step. */
  lemma HugeMessageIsCut(data: bytes, rest: bytes)
    ensures Decode(ClientWire(data) + rest, WORD_MAX) == Frame(data[..|data| % WORD], rest)
  {
    var cut := data[..|data| % WORD];
    assert ClientWire(cut) == ClientWire(data) by {
      assert cut[..|cut|] == cut;
    }
    EncodedDecodes(cut, rest, WORD_MAX);
  }

  /**
   The server sends all of it under the cut prefix: what the prefix does not count is left over before the next
   packet.
   */
  lemma ServerWireDecodes(data: bytes, rest: bytes)
    ensures Decode(ServerWire(data) + rest, WORD_MAX) == Frame(data[..|data| % WORD], data[|data| % WORD..] + rest)
  {
    var n := |data| % WORD;
    assert data == data[..n] + data[n..];
    assert ServerWire(data) + rest == ClientWire(data) + (data[n..] + rest);
    HugeMessageIsCut(data, data[n..] + rest);
  }

  /** What the server sends is read back by a reader of any limit exactly if the message is within it. */
  lemma ServerRoundTripIff(data: bytes, rest: bytes, limit: nat)
    requires |data| < WORD && limit < WORD
    ensures Decode(ServerWire(data) + rest, limit) == Frame(data, rest) <==> |data| <= limit
  {
    assert ServerWire(data) == ClientWire(data);
    RoundTripIff(data, rest, limit);
  }

  // ----- streams of packets

  function EncodeAll(messages: seq<bytes>): bytes {
    if messages == [] then [] else ClientWire(messages[0]) + EncodeAll(messages[1..])
  }

  ghost predicate WithinLimit(messages: seq<bytes>, limit: nat := LIMIT) {
    forall i :: 0 <= i < |messages| ==> |messages[i]| <= limit
  }

  /** Repeated decoding until no further frame can be read. */
  function DecodeAll(s: bytes, limit: nat := LIMIT): (seq<bytes>, bytes)
    decreases |s|
  {
    match Decode(s, limit)
    case Frame(body, rest) => var (bodies, end) := DecodeAll(rest, limit); ([body] + bodies, end)
    case _ => ([], s)
  }

  lemma {:induction false} EncodeAllAppend(messages: seq<bytes>, m: bytes)
    ensures EncodeAll(messages + [m]) == EncodeAll(messages) + ClientWire(m)
  {
    if messages == [] {
      assert [m][1..] == [];
      assert messages + [m] == [m];
    } else {
      EncodeAllAppend(messages[1..], m);
      assert (messages + [m])[1..] == messages[1..] + [m];
    }
  }

  lemma DecodeAllNext(s: bytes, m: bytes, rest: bytes, limit: nat)
    requires Decode(s, limit) == Frame(m, rest)
    ensures DecodeAll(s, limit) == ([m] + DecodeAll(rest, limit).0, DecodeAll(rest, limit).1) && |rest| < |s|
  {
    assert |rest| < |s|;
    hide Decode;
  }

  /**
   A concatenation of packets decodes to exactly its messages, in order; decoding goes on with what follows them.
   */
  lemma {:induction false} StreamRoundTrip(messages: seq<bytes>, rest: bytes, limit: nat)
    requires WithinLimit(messages, limit) && limit < WORD
    ensures DecodeAll(EncodeAll(messages) + rest, limit) ==
              (messages + DecodeAll(rest, limit).0, DecodeAll(rest, limit).1)
  {
    hide DecodeAll, ClientWire, Decode;
    if messages == [] {
      assert EncodeAll(messages) + rest == rest;
      assert messages + DecodeAll(rest, limit).0 == DecodeAll(rest, limit).0;
    } else {
      var m, more := messages[0], EncodeAll(messages[1..]) + rest;
      assert EncodeAll(messages) + rest == ClientWire(m) + more;
      DecodeIff(ClientWire(m) + more, m, more, limit);
      DecodeAllNext(ClientWire(m) + more, m, more, limit);
      StreamRoundTrip(messages[1..], rest, limit);
      assert [m] + (messages[1..] + DecodeAll(rest, limit).0) == messages + DecodeAll(rest, limit).0;
    }
  }

  lemma WholeStream(messages: seq<bytes>, limit: nat)
    requires WithinLimit(messages, limit) && limit < WORD
    ensures DecodeAll(EncodeAll(messages), limit) == (messages, [])
  {
    StreamRoundTrip(messages, [], limit);
    assert Decode([], limit).Truncated? && DecodeAll([], limit) == ([], []);
    hide DecodeAll;
    assert EncodeAll(messages) + [] == EncodeAll(messages) && messages + [] == messages;
  }

  /** So the concatenation determines the messages. */
  lemma UniquelyDecodable(a: seq<bytes>, b: seq<bytes>)
    requires WithinLimit(a, WORD_MAX) && WithinLimit(b, WORD_MAX) && EncodeAll(a) == EncodeAll(b)
    ensures a == b
  {
    WholeStream(a, WORD_MAX);
    WholeStream(b, WORD_MAX);
  }

  // ----- the two readers

  lemma BytewiseBelow(a: bytes, b: bytes)
    requires |a| == |b| == 4 && a[0] <= b[0] && a[1] <= b[1] && a[2] <= b[2] && a[3] <= b[3]
    ensures FromBigEndian(a) <= FromBigEndian(b)
  {
  }

  lemma PartialLengthBelow(s: bytes, k: nat)
    requires k <= 4 <= |s|
    ensures PartialLength(s, k) <= FromBigEndian(s[..4])
    ensures k == 4 ==> PartialLength(s, k) == FromBigEndian(s[..4])
  {
    var h := s[..k] + ZEROS[k..];
    if k == 4 {
      assert h == s[..4];
    } else {
      forall i | 0 <= i < 4 ensures h[i] <= s[..4][i] {
        assert h[i] == if i < k then s[i] else 0;
      }
      BytewiseBelow(h, s[..4]);
    }
  }

  /** With a whole prefix the server is the client's reader without the client's limit. */
  lemma WholePrefix(s: bytes)
    requires |s| >= 4
    ensures ServerDecode(s, 4) == Decode(s, WORD_MAX)
  {
    PartialLengthBelow(s, 4);
  }

  /**
   On any stream the server's reader, whose header recv yields k bytes, and the client's agree exactly if these are
   all four and the length is within the limit, or both miss some of the body.
   */
  lemma ReadersAgreeIff(s: bytes, k: nat)
    requires 1 <= k <= 4 && k <= |s|
    ensures ServerDecode(s, k) == Decode(s) <==>
            (k == 4 && !Decode(s).TooLong?) || (Decode(s).Truncated? && |s| - k < PartialLength(s, k))
  {
    if |s| >= 4 {
      PartialLengthBelow(s, k);
    }
    if k < 4 && Decode(s).Frame? && ServerDecode(s, k).Frame? {
      // at least one byte of the packet is left over
      assert |ServerDecode(s, k).rest| == |s| - k - PartialLength(s, k) > |s| - 4 - FromBigEndian(s[..4]);
      assert |Decode(s).rest| == |s| - 4 - FromBigEndian(s[..4]);
    }
  }

  // ----- the socket

  /** A recv of up to size bytes that found left bytes in the stream, and what it returned. */
  datatype Reading = Reading(left: nat, size: nat, len: int)

  /** A send of size bytes after at bytes had gone out, and what it returned. */
  datatype Sending = Sending(at: nat, size: nat, len: int)

  class Socket {
    var incoming: bytes  // everything the peer sends from now on
    var outgoing: bytes  // everything handed to the kernel so far
    var broken: bool     // some recv has reported an error
    ghost var readings: seq<Reading>
    ghost var sendings: seq<Sending>

    /** Yields between 1 and n bytes, 0 at the end of the stream, -1 on an error. */
    method Recv(n: uint32) returns (len: int, data: bytes)
      requires n > 0
      modifies this`incoming, this`broken, this`readings
      ensures -1 <= len <= n as int
      ensures old(incoming) == data + incoming && |data| == if len > 0 then len else 0
      ensures len == 0 ==> incoming == []
      ensures broken == (old(broken) || len < 0)
      ensures readings == old(readings) + [Reading(|old(incoming)|, n as nat, len)]
    {
      ghost var left := |incoming|;
      len, data := 0, [];
      if * {
        broken, len := true, -1;
      } else if incoming != [] {
        len :| 1 <= len <= |incoming| && len <= n as int;
        data, incoming := incoming[..len], incoming[len..];
      }
      readings := readings + [Reading(left, n as nat, len)];
    }

    /** Takes between 0 and all of the bytes, or reports an error. */
    method Send(data: bytes) returns (len: int)
      modifies this`outgoing, this`sendings
      ensures -1 <= len <= |data|
      ensures outgoing == old(outgoing) + data[..if len > 0 then len else 0]
      ensures sendings == old(sendings) + [Sending(|old(outgoing)|, |data|, len)]
    {
      len :| -1 <= len <= |data|;
      sendings := sendings + [Sending(|outgoing|, |data|, len)];
      outgoing := outgoing + data[..if len > 0 then len else 0];
    }
  }

  // ----- the client

  /** The sends of one packet by the client: the prefix goes out at once, the body in as many pieces as it takes. */
  predicate AllTaken(sends: seq<Sending>) {
    && sends != [] && sends[0].len == 4
    && forall i :: 1 <= i < |sends| ==> sends[i].len > 0
  }

  /** The first of these sends offers the prefix of a packet, the others all that is left of it at their moment. */
  predicate SentWithin(sends: seq<Sending>, from: nat, to: nat) {
    && sends != [] && sends[0].at == from && sends[0].size == 4 && sends[0].len <= 4
    && forall i :: 1 <= i < |sends| ==> from < sends[i].at < to && sends[i].at + sends[i].size == to
  }

  /**
   Succeeds exactly when no send fails and the prefix is not cut short, and exactly when the whole packet has been
   handed over; otherwise a proper prefix of it has.
   */
  method SendPacket(sock: Socket, data: bytes) returns (ok: bool, ghost sends: seq<Sending>)
    modifies sock`outgoing, sock`sendings
    ensures ok <==> sock.outgoing == old(sock.outgoing) + ClientWire(data)
    ensures old(sock.outgoing) <= sock.outgoing <= old(sock.outgoing) + ClientWire(data)
    ensures sock.sendings == old(sock.sendings) + sends && (ok <==> AllTaken(sends))
    ensures SentWithin(sends, |old(sock.outgoing)|, |old(sock.outgoing) + ClientWire(data)|)
  {
    ghost var before, wire := sock.outgoing, ClientWire(data);
    var size := (|data| % WORD) as uint32;
    var sent := sock.Send(BigEndian(size as nat));
    sends := [Sending(|before|, 4, sent)];
    if sent != 4 {
      return false, sends;
    }
    var remaining, position := size, 0;
    while remaining > 0
      invariant 0 <= position && position + remaining as int == size as int
      invariant sock.outgoing == before + wire[..4 + position]
      invariant sock.sendings == old(sock.sendings) + sends && AllTaken(sends)
      invariant SentWithin(sends, |before|, |before + wire|)
    {
      sends := sends + [Sending(|sock.outgoing|, remaining as nat, 0)];
      sent := sock.Send(data[position..position + remaining as int]);
      sends := sends[|sends| - 1 := sends[|sends| - 1].(len := sent)];
      if sent <= 0 {
        assert sends[|sends| - 1].len <= 0;
        return false, sends;
      }
      assert wire[..4 + position + sent] == wire[..4 + position] + data[position..position + sent];
      remaining := remaining - sent as uint32;
      position := position + sent;
    }
    assert wire[..4 + position] == wire;
    return true, sends;
  }

  /**
   Reads one packet, however the kernel splits it. Without a socket error the result depends on the stream alone: it
   is the one Decode gives, and exactly the bytes of the packet are consumed.
   */
  method RecvPacket(sock: Socket) returns (ok: bool, out: bytes)
    requires !sock.broken
    modifies sock`incoming, sock`broken, sock`readings
    ensures ok ==> Decode(old(sock.incoming)) == Frame(out, sock.incoming) && !sock.broken
    ensures !sock.broken ==> (ok <==> Decode(old(sock.incoming)).Frame?)
    ensures !sock.broken && Decode(old(sock.incoming)).TooLong? ==> sock.incoming == old(sock.incoming)[4..]
    ensures !sock.broken && Decode(old(sock.incoming)).Truncated? ==> sock.incoming == []
  {
    ghost var s := sock.incoming;
    out := [];
    var header: bytes, lenRemaining: uint32 := [], 4;
    while lenRemaining > 0
      invariant |header| + lenRemaining as int == 4
      invariant s == header + sock.incoming && !sock.broken
    {
      var len, data := sock.Recv(lenRemaining);
      if len <= 0 {
        return false, out;
      }
      header := header + data;
      lenRemaining := lenRemaining - len as uint32;
    }
    assert s[..4] == header;
    var dataLen := FromBigEndian(header) as uint32;
    if dataLen as int > LIMIT {
      return false, out;
    }
    ghost var readings;
    ok, out, readings := RecvBody(sock, dataLen, 1024);
    assert ok ==> s[4..4 + dataLen as int] == out && s[4 + dataLen as int..] == sock.incoming;
  }

  /** The body loop of both readers, with their buffer sizes. */
  method RecvBody(sock: Socket, dataLen: uint32, bufferSize: uint32)
    returns (ok: bool, out: bytes, ghost readings: seq<Reading>)
    requires !sock.broken && bufferSize > 0
    modifies sock`incoming, sock`broken, sock`readings
    ensures ok ==> !sock.broken && |out| == dataLen as int && old(sock.incoming) == out + sock.incoming
    ensures !ok && !sock.broken ==> |old(sock.incoming)| < dataLen as int && sock.incoming == []
    ensures sock.readings == old(sock.readings) + readings
    ensures ok ==> forall r :: r in readings ==> |sock.incoming| < r.left <= |old(sock.incoming)|
  {
    out, readings := [], [];
    var totalRead: uint32 := 0;
    while totalRead < dataLen
      invariant totalRead <= dataLen && |out| == totalRead as int
      invariant old(sock.incoming) == out + sock.incoming && !sock.broken
      invariant sock.readings == old(sock.readings) + readings
      invariant forall r :: r in readings ==> |sock.incoming| < r.left <= |old(sock.incoming)|
    {
      var readSize := if bufferSize < dataLen - totalRead then bufferSize else dataLen - totalRead;
      ghost var left := |sock.incoming|;
      var len, data := sock.Recv(readSize);
      readings := readings + [Reading(left, readSize as nat, len)];
      if len <= 0 {
        return false, out, readings;
      }
      out := out + data;
      totalRead := totalRead + len as uint32;
    }
    return true, out, readings;
  }

  lemma NothingMore(s: bytes)
    requires !Decode(s).Frame?
    ensures DecodeAll(s) == ([], s) && (Decode(s).TooLong? ==> s != [])
  {
  }

  /** Reads packets until one cannot be read: unless the socket fails these are exactly the messages of the stream. */
  method ReceiveAll(sock: Socket) returns (received: seq<bytes>)
    requires !sock.broken
    modifies sock`incoming, sock`broken, sock`readings
    ensures received <= DecodeAll(old(sock.incoming)).0
    ensures !sock.broken ==> received == DecodeAll(old(sock.incoming)).0
    ensures !sock.broken && DecodeAll(old(sock.incoming)).1 == [] ==> sock.incoming == []
  {
    hide DecodeAll, Decode;
    received := [];
    ghost var all := DecodeAll(sock.incoming);
    assert [] + all.0 == all.0;
    while true
      invariant !sock.broken && all.0 == received + DecodeAll(sock.incoming).0 && all.1 == DecodeAll(sock.incoming).1
      decreases |sock.incoming|
    {
      ghost var s := sock.incoming;
      var ok, message := RecvPacket(sock);
      if !ok {
        if !sock.broken {
          NothingMore(s);
        }
        return;
      }
      DecodeAllNext(s, message, sock.incoming, LIMIT);
      assert all.0 == received + [message] + DecodeAll(sock.incoming).0;
      received := received + [message];
    }
  }

  /** A send of the prefix of one of these packets. */
  ghost predicate AtPrefix(base: nat, inputs: seq<bytes>, at: nat) {
    exists j :: 0 <= j < |inputs| && at == base + |EncodeAll(inputs[..j])|
  }

  /** A send of something that has failed, or a prefix that was offered whole and cut short. */
  ghost predicate Refused(base: nat, inputs: seq<bytes>, x: Sending) {
    || (x.size > 0 && x.len <= 0)
    || (AtPrefix(base, inputs, x.at) && x.size == 4 && x.len < 4)
  }

  predicate OfPacket(from: nat, to: nat, x: Sending) {
    (x.at == from && x.size == 4) || (from < x.at < to && x.at + x.size == to)
  }

  /** A send the client makes: the prefix of one of these packets, or all that is left of one. */
  ghost predicate Offered(base: nat, inputs: seq<bytes>, x: Sending) {
    exists k :: 0 <= k < |inputs| && OfPacket(base + |EncodeAll(inputs[..k])|, base + |EncodeAll(inputs[..k + 1])|, x)
  }

  ghost predicate NothingRefused(base: nat, inputs: seq<bytes>, sends: seq<Sending>) {
    forall x :: x in sends ==> !Refused(base, inputs, x)
  }

  lemma {:induction false} EncodedGrows(inputs: seq<bytes>, i: nat, j: nat)
    requires i <= j <= |inputs|
    ensures |EncodeAll(inputs[..i])| + 4 * (j - i) <= |EncodeAll(inputs[..j])|
    decreases j
  {
    if i < j {
      EncodedGrows(inputs, i, j - 1);
      assert inputs[..j] == inputs[..j - 1] + [inputs[j - 1]];
      EncodeAllAppend(inputs[..j - 1], inputs[j - 1]);
    }
  }

  /** The sends of packet k are whole exactly if nothing in them was refused. */
  lemma PacketRefused(base: nat, inputs: seq<bytes>, k: nat, sends: seq<Sending>)
    requires k < |inputs|
    requires SentWithin(sends, base + |EncodeAll(inputs[..k])|, base + |EncodeAll(inputs[..k + 1])|)
    ensures NothingRefused(base, inputs, sends) <==> AllTaken(sends)
    ensures forall x :: x in sends ==> Offered(base, inputs, x)
  {
    forall x | x in sends ensures Offered(base, inputs, x) {
      assert OfPacket(base + |EncodeAll(inputs[..k])|, base + |EncodeAll(inputs[..k + 1])|, x);
    }
    assert AtPrefix(base, inputs, sends[0].at) && sends[0] in sends;
    forall i | 1 <= i < |sends| ensures !AtPrefix(base, inputs, sends[i].at) && sends[i] in sends {
      if j :| 0 <= j < |inputs| && sends[i].at == base + |EncodeAll(inputs[..j])| {
        if j <= k {
          EncodedGrows(inputs, j, k);
        } else {
          EncodedGrows(inputs, k + 1, j);
        }
      }
    }
  }

  /** The part of a stream before its rest consists of the packets of these messages. */
  ghost predicate Exchanged(stream: bytes, rest: bytes, messages: seq<bytes>) {
    && stream == EncodeAll(messages) + rest
    && DecodeAll(stream).0 == messages + DecodeAll(rest).0
  }

  lemma ConversationStarts(stream: bytes, before: bytes, inputs: seq<bytes>)
    ensures Exchanged(stream, stream, [])
    ensures before == before + EncodeAll(inputs[..0]) && NothingRefused(|before|, inputs, [])
  {
    hide DecodeAll;
  }

  lemma ConversationEnds(stream: bytes, rest: bytes, replies: seq<bytes>)
    requires Exchanged(stream, rest, replies)
    ensures stream == EncodeAll(replies) + rest && replies <= DecodeAll(stream).0
    ensures !Decode(rest).Frame? ==> replies == DecodeAll(stream).0
  {
    if !Decode(rest).Frame? {
      NothingMore(rest);
    }
    hide DecodeAll, Decode;
  }

  lemma RefusedAppend(base: nat, inputs: seq<bytes>, a: seq<Sending>, b: seq<Sending>)
    ensures NothingRefused(base, inputs, a + b) <==>
              NothingRefused(base, inputs, a) && NothingRefused(base, inputs, b)
  {
    assert forall x :: x in a + b <==> x in a || x in b;
  }

  lemma ExchangedMore(before: bytes, inputs: seq<bytes>, k: nat)
    requires k < |inputs|
    ensures before + EncodeAll(inputs[..k + 1]) == before + EncodeAll(inputs[..k]) + ClientWire(inputs[k])
  {
    assert inputs[..k + 1] == inputs[..k] + [inputs[k]];
    EncodeAllAppend(inputs[..k], inputs[k]);
  }

  lemma RepliedMore(stream: bytes, s: bytes, rest: bytes, replies: seq<bytes>, reply: bytes)
    requires Exchanged(stream, s, replies) && Decode(s) == Frame(reply, rest)
    ensures Exchanged(stream, rest, replies + [reply])
  {
    hide ClientWire, DecodeAll, Decode;
    DecodedEncodes(s, reply, rest, LIMIT);
    DecodeAllNext(s, reply, rest, LIMIT);
    assert replies + ([reply] + DecodeAll(rest).0) == replies + [reply] + DecodeAll(rest).0;
    EncodeAllAppend(replies, reply);
    assert EncodeAll(replies) + (ClientWire(reply) + rest) == EncodeAll(replies) + ClientWire(reply) + rest;
  }

  /**
   The client's conversation: every input is sent as a packet and answered by one, until something fails. It lasts to
   the end exactly if no send is refused, no recv fails and the peer has sent enough; without failures the replies are
   the peer's messages.
   */
  method Converse(sock: Socket, inputs: seq<bytes>) returns (replies: seq<bytes>, ghost sends: seq<Sending>)
    requires !sock.broken
    modifies sock
    ensures |replies| <= |inputs| && replies <= DecodeAll(old(sock.incoming)).0
    ensures |replies| == |inputs| ==> sock.outgoing == old(sock.outgoing) + EncodeAll(inputs)
    ensures |replies| == |inputs| ==> old(sock.incoming) == EncodeAll(replies) + sock.incoming
    ensures old(sock.outgoing) + EncodeAll(inputs[..|replies|]) <= sock.outgoing
    ensures sock.sendings == old(sock.sendings) + sends
    ensures forall x :: x in sends ==> Offered(|old(sock.outgoing)|, inputs, x)
    ensures |replies| == |inputs| <==>
            !sock.broken && NothingRefused(|old(sock.outgoing)|, inputs, sends) &&
                |inputs| <= |DecodeAll(old(sock.incoming)).0|
    ensures !sock.broken && NothingRefused(|old(sock.outgoing)|, inputs, sends) ==>
            |replies| == |inputs| || replies == DecodeAll(old(sock.incoming)).0
  {
    hide *;
    replies, sends := [], [];
    ghost var stream, before := sock.incoming, sock.outgoing;
    ConversationStarts(stream, before, inputs);
    while |replies| < |inputs|
      invariant |replies| <= |inputs| && !sock.broken && Exchanged(stream, sock.incoming, replies)
      invariant sock.outgoing == before + EncodeAll(inputs[..|replies|])
      invariant sock.sendings == old(sock.sendings) + sends && NothingRefused(|before|, inputs, sends)
      invariant forall x :: x in sends ==> Offered(|before|, inputs, x)
    {
      var k := |replies|;
      ExchangedMore(before, inputs, k);
      ConversationEnds(stream, sock.incoming, replies);
      ghost var packet;
      var ok;
      ok, packet := SendPacket(sock, inputs[k]);
      PacketRefused(|before|, inputs, k, packet);
      RefusedAppend(|before|, inputs, sends, packet);
      sends := sends + packet;
      if !ok {
        return;
      }
      ghost var s := sock.incoming;
      var reply;
      ok, reply := RecvPacket(sock);
      if !ok {
        return;
      }
      RepliedMore(stream, s, sock.incoming, replies, reply);
      replies := replies + [reply];
    }
    assert inputs[..|replies|] == inputs;
    ConversationEnds(stream, sock.incoming, replies);
  }

  /** Whatever follows them, the messages a peer has sent are the replies. */
  lemma RepliesAreSent(messages: seq<bytes>, rest: bytes, replies: seq<bytes>)
    requires WithinLimit(messages) && |replies| <= |messages|
    requires replies <= DecodeAll(EncodeAll(messages) + rest).0
    ensures replies == messages[..|replies|]
  {
    StreamRoundTrip(messages, rest, LIMIT);
  }

  // ----- the server

  /** One send for the prefix, one for the body, no second try: the packet is out exactly if both take everything. */
  method ServerSendPacket(sock: Socket, data: bytes) returns (ok: bool, ghost sends: seq<Sending>)
    modifies sock`outgoing, sock`sendings
    ensures ok ==> sock.outgoing == old(sock.outgoing) + ServerWire(data)
    ensures !ok && data != [] ==> sock.outgoing < old(sock.outgoing) + ServerWire(data)
    ensures old(sock.outgoing) <= sock.outgoing <= old(sock.outgoing) + ServerWire(data)
    ensures sock.sendings == old(sock.sendings) + sends
    ensures ok <==> forall x :: x in sends ==> x.len == x.size
  {
    ghost var base := |sock.outgoing|;
    var sent := sock.Send(BigEndian(|data| % WORD));
    sends := [Sending(base, 4, sent)];
    if sent != 4 {
      assert sends[0] in sends;
      return false, sends;
    }
    sent := sock.Send(data);
    sends := sends + [Sending(base + 4, |data|, sent)];
    assert sends[1] in sends;
    return sent == |data|, sends;
  }

  /** Reads the prefix with a single recv, the first of the readings; what is missing of it stays zero. */
  method ServerRecvPacket(sock: Socket) returns (ok: bool, out: bytes, ghost readings: seq<Reading>)
    requires !sock.broken
    modifies sock`incoming, sock`broken, sock`readings
    ensures sock.readings == old(sock.readings) + readings && readings != [] && readings[0].size == 4
    ensures var got := readings[0].len; got <= 4 && got <= |old(sock.incoming)| == readings[0].left
    ensures var got := readings[0].len;
            ok ==> got >= 1 && ServerDecode(old(sock.incoming), got) == Frame(out, sock.incoming) && !sock.broken
    ensures var got := readings[0].len; !sock.broken && got >= 1 ==>
              (ok <==> ServerDecode(old(sock.incoming), got).Frame?)
    ensures !sock.broken && readings[0].len < 1 ==> old(sock.incoming) == [] && |readings| == 1
    ensures ok ==> forall i :: 1 <= i < |readings| ==> |sock.incoming| < readings[i].left < |old(sock.incoming)|
    ensures ok ==> |sock.incoming| < |old(sock.incoming)|
  {
    ghost var s := sock.incoming;
    out := [];
    var got, data := sock.Recv(4);
    readings := [Reading(|s|, 4, got)];
    if got <= 0 {
      return false, out, readings;
    }
    assert s[..got] == data && s[got..] == sock.incoming;
    var dataLen := FromBigEndian(data + ZEROS[got..]) as uint32;
    ghost var afterHeader, body := sock.incoming, [];
    ok, out, body := RecvBody(sock, dataLen, 4096);
    readings := readings + body;
    if ok {
      assert afterHeader == out + sock.incoming && s == data + out + sock.incoming;
    }
  }

  /** A recv at the beginning of one of these packets, or behind the last. */
  ghost predicate AtPacket(messages: seq<bytes>, left: nat) {
    exists j :: 0 <= j <= |messages| && left == |EncodeAll(messages[j..])|
  }

  /** A recv that asked for a prefix and got only a part of it. */
  ghost predicate CutsPrefix(messages: seq<bytes>, r: Reading) {
    AtPacket(messages, r.left) && r.size == 4 && 0 < r.len < 4
  }

  ghost predicate PrefixesWhole(messages: seq<bytes>, readings: seq<Reading>) {
    forall r :: r in readings ==> !CutsPrefix(messages, r)
  }

  lemma WholeAppend(messages: seq<bytes>, a: seq<Reading>, b: seq<Reading>)
    ensures PrefixesWhole(messages, a + b) <==> PrefixesWhole(messages, a) && PrefixesWhole(messages, b)
  {
    assert forall r :: r in a + b <==> r in a || r in b;
  }

  lemma {:induction false} EncodedShrinks(messages: seq<bytes>, i: nat, j: nat)
    requires i <= j <= |messages|
    ensures |EncodeAll(messages[j..])| + 4 * (j - i) <= |EncodeAll(messages[i..])|
    decreases j - i
  {
    if i < j {
      EncodedShrinks(messages, i + 1, j);
      assert messages[i..][1..] == messages[i + 1..];
    }
  }

  function Zeros(d: nat): bytes { seq(d, _ => 0) }

  /** A message behind some zeros. */
  predicate Behind(s: bytes, d: nat, m: bytes, rest: bytes) {
    && |m| < WORD && |s| == d + 4 + |m| + |rest|
    && (forall t :: 0 <= t < d ==> s[t] == 0)
    && s[d..d + 4] == BigEndian(|m|) && s[d + 4..d + 4 + |m|] == m && s[d + 4 + |m|..] == rest
  }

  lemma FourParts(z: bytes, h: bytes, m: bytes, rest: bytes)
    ensures var s := z + (h + m + rest); var k := |z| + |h|;
            && |s| == k + |m| + |rest| && s[..|z|] == z && s[|z|..k] == h
            && s[k..k + |m|] == m && s[k + |m|..] == rest
  {
    var s, k := z + (h + m + rest), |z| + |h|;
    assert s == z + h + m + rest;
    assert s[|z|..k] == h;
    assert s[k..k + |m|] == m;
  }

  lemma PutBehind(d: nat, m: bytes, rest: bytes)
    requires |m| < WORD
    ensures Behind(Zeros(d) + (ClientWire(m) + rest), d, m, rest)
  {
    assert ClientWire(m) == BigEndian(|m|) + m;
    FourParts(Zeros(d), BigEndian(|m|), m, rest);
    hide BigEndian, ClientWire;
    var s := Zeros(d) + (ClientWire(m) + rest);
    forall t | 0 <= t < d ensures s[t] == 0 {
      assert s[t] == s[..d][t];
    }
  }

  lemma DecodedPart(s: bytes, k: nat, m: bytes, left: bytes)
    requires k <= 4 && k <= |s| && ServerDecode(s, k) == Frame(m, left)
    ensures PartialLength(s, k) == |m| <= |s| - k && m == s[k..k + |m|] && left == s[k + |m|..]
  {
  }

  /** The prefix as read is the prefix as sent. */
  lemma ShiftedHeader(s: bytes, d: nat, m: bytes, rest: bytes, k: nat)
    requires Behind(s, d, m, rest) && 1 <= k <= 4 && PartialLength(s, k) == |m|
    ensures s[d..d + 4] == s[..k] + ZEROS[k..]
  {
    WritesBack(s[..k] + ZEROS[k..]);
  }

  /** When the prefix is the same d places on, all of both is zero. */
  lemma HeaderZeros(s: bytes, d: nat, k: nat)
    requires 1 <= k <= 4 && (d > 0 || k < 4) && d + 4 <= |s|
    requires forall t :: 0 <= t < d ==> s[t] == 0
    requires s[d..d + 4] == s[..k] + ZEROS[k..]
    ensures forall i :: k <= i < d + 4 ==> s[i] == 0
  {
    var h := s[..k] + ZEROS[k..];
    if d == 0 {
      forall i | k <= i < 4 ensures s[i] == 0 {
        assert s[0..4][i] == s[i] && h[i] == ZEROS[i];
      }
    } else {
      for t := 0 to 4
        invariant forall i :: 0 <= i < d + t ==> s[i] == 0
      {
        assert s[d..d + 4][t] == s[d + t] && h[t] == if t < k then s[t] else ZEROS[t];
      }
    }
  }

  /** When a body is the same d + 4 - k places on, and what it is moved over is zero, all of it is. */
  lemma BodyZeros(s: bytes, d: nat, k: nat, n: nat)
    requires k < d + 4 && d + 4 + n <= |s|
    requires forall i :: k <= i < d + 4 ==> s[i] == 0
    requires s[k..k + n] == s[d + 4..d + 4 + n]
    ensures s[k + n..d + 4 + n] == Zeros(d + 4 - k)
  {
    for j := 0 to n
      invariant forall i :: k <= i < j + d + 4 ==> s[i] == 0
    {
      assert s[k..k + n][j] == s[k + j];
      assert s[d + 4..d + 4 + n][j] == s[d + 4 + j];
    }
  }

  /**
   A reader that sees a message behind zeros, or gets only a part of its prefix, and still takes it for itself can do
   so only because everything it has skipped is zero. So the zeros are still before what follows.
   */
  lemma Slip(s: bytes, d: nat, m: bytes, rest: bytes, k: nat, left: bytes)
    requires Behind(s, d, m, rest) && 1 <= k <= 4 && (d > 0 || k < 4)
    requires ServerDecode(s, k) == Frame(m, left)
    ensures left == Zeros(d + 4 - k) + rest
  {
    var n := |m|;
    DecodedPart(s, k, m, left);
    ShiftedHeader(s, d, m, rest, k);
    hide ServerDecode, BigEndian, PartialLength;
    HeaderZeros(s, d, k);
    BodyZeros(s, d, k, n);
    assert s[k + n..] == s[k + n..d + 4 + n] + s[d + 4 + n..];
  }

  ghost predicate InStep(messages: seq<bytes>, received: seq<bytes>, rest: bytes, readings: seq<Reading>) {
    PrefixesWhole(messages, readings) && received <= messages && rest == EncodeAll(messages[|received|..])
  }

  ghost predicate SlippedBy(d: nat, messages: seq<bytes>, received: seq<bytes>, rest: bytes) {
    d > 0 && received <= messages && rest == Zeros(d) + EncodeAll(messages[|received|..])
  }

  /** Where the server is in the stream of these messages: in step, slipped behind by some zeros, or astray. */
  ghost predicate Follows(messages: seq<bytes>, received: seq<bytes>, rest: bytes, readings: seq<Reading>) {
    || InStep(messages, received, rest, readings)
    || (&& !PrefixesWhole(messages, readings)
        && (!(received <= messages) || exists d :: SlippedBy(d, messages, received, rest)))
  }

  /** The readings of one packet: the prefix at its beginning, all others inside. */
  predicate ReadWithin(readings: seq<Reading>, from: nat, to: nat) {
    && readings != [] && readings[0].left == from > to && readings[0].size == 4
    && forall i :: 1 <= i < |readings| ==> to < readings[i].left < from
  }

  lemma NextInStep(messages: seq<bytes>, received: seq<bytes>, s: bytes, readings: seq<Reading>, m: bytes,
                   rest: bytes, more: seq<Reading>)
    requires WithinLimit(messages, WORD_MAX) && InStep(messages, received, s, readings) && received < messages
    requires ReadWithin(more, |s|, |rest|) && more[0].len == 4 && |s| >= 4 && ServerDecode(s, 4) == Frame(m, rest)
    ensures InStep(messages, received + [m], rest, readings + more)
  {
    var n := |received|;
    var tail := EncodeAll(messages[n + 1..]);
    assert messages[n..][1..] == messages[n + 1..];
    WholePrefix(s);
    DecodeIff(s, messages[n], tail, WORD_MAX);
    assert m == messages[n] && rest == tail;
    forall i | 1 <= i < |more| ensures !AtPacket(messages, more[i].left) {
      if j :| 0 <= j <= |messages| && more[i].left == |EncodeAll(messages[j..])| {
        if j <= n {
          EncodedShrinks(messages, j, n);
        } else {
          EncodedShrinks(messages, n + 1, j);
        }
      }
    }
    WholeAppend(messages, readings, more);
  }

  lemma NextSlipped(messages: seq<bytes>, received: seq<bytes>, d: nat, s: bytes, k: nat, rest: bytes)
    requires WithinLimit(messages, WORD_MAX) && received < messages
    requires s == Zeros(d) + EncodeAll(messages[|received|..])
    requires 1 <= k <= 4 && k <= |s| && (d > 0 || k < 4) && ServerDecode(s, k) == Frame(messages[|received|], rest)
    ensures SlippedBy(d + 4 - k, messages, received + [messages[|received|]], rest)
  {
    var n := |received|;
    var tail := EncodeAll(messages[n + 1..]);
    assert messages[n..][1..] == messages[n + 1..];
    PutBehind(d, messages[n], tail);
    Slip(s, d, messages[n], tail, k, rest);
  }

  lemma CutShort(messages: seq<bytes>, received: seq<bytes>, s: bytes, more: seq<Reading>)
    requires received <= messages && s == EncodeAll(messages[|received|..])
    requires more != [] && more[0].left == |s| && more[0].size == 4 && 1 <= more[0].len < 4
    ensures !PrefixesWhole(messages, more)
  {
    assert more[0] in more && AtPacket(messages, more[0].left);
  }

  /** Reading a packet. */
  lemma Following(messages: seq<bytes>, received: seq<bytes>, s: bytes, readings: seq<Reading>, m: bytes,
                  rest: bytes, more: seq<Reading>)
    requires WithinLimit(messages, WORD_MAX) && Follows(messages, received, s, readings)
    requires ReadWithin(more, |s|, |rest|) && 1 <= more[0].len <= 4 && more[0].len <= |s|
    requires ServerDecode(s, more[0].len) == Frame(m, rest)
    ensures Follows(messages, received + [m], rest, readings + more)
  {
    hide ServerDecode, PrefixesWhole;
    var n, k := |received|, more[0].len;
    WholeAppend(messages, readings, more);
    if InStep(messages, received, s, readings) {
      if k == 4 {
        NextInStep(messages, received, s, readings, m, rest, more);
      } else {
        CutShort(messages, received, s, more);
        if m == messages[n] {
          assert s == Zeros(0) + s;
          NextSlipped(messages, received, 0, s, k, rest);
        }
      }
    } else if received < messages && m == messages[n] {
      var d :| SlippedBy(d, messages, received, s);
      NextSlipped(messages, received, d, s, k, rest);
    }
  }

  lemma OnlyZeros(d: nat, k: nat)
    requires k <= 4 && k <= d
    ensures ServerDecode(Zeros(d), k).Frame?
  {
    assert Zeros(d)[..k] + ZEROS[k..] == ZEROS;
  }

  /**
   Where there is nothing to be read any more, the server has all messages exactly if every prefix arrived whole.
   */
  lemma FollowedToTheEnd(messages: seq<bytes>, received: seq<bytes>, s: bytes, readings: seq<Reading>,
                         more: seq<Reading>)
    requires WithinLimit(messages, WORD_MAX) && Follows(messages, received, s, readings)
    requires more != [] && more[0].left == |s| && more[0].size == 4 && more[0].len <= 4 && more[0].len <= |s|
    requires if more[0].len < 1 then s == [] && |more| == 1 else !ServerDecode(s, more[0].len).Frame?
    ensures received == messages <==> PrefixesWhole(messages, readings + more)
  {
    var n := |received|;
    WholeAppend(messages, readings, more);
    if InStep(messages, received, s, readings) {
      if n < |messages| {
        var tail := EncodeAll(messages[n + 1..]);
        assert messages[n..][1..] == messages[n + 1..];
        DecodeIff(s, messages[n], tail, WORD_MAX);
        WholePrefix(s);
        CutShort(messages, received, s, more);
      }
    } else if received == messages {
      var d :| SlippedBy(d, messages, received, s);
      OnlyZeros(d, more[0].len);
    }
  }

  /** The replies to these messages as they go out when nothing is cut short. */
  function Replies(greeting: bytes, received: seq<bytes>): bytes {
    if received == [] then []
    else Replies(greeting, received[..|received| - 1]) + ServerWire(greeting + received[|received| - 1])
  }

  lemma ServiceStarts(messages: seq<bytes>, s: bytes, greeting: bytes)
    ensures s == EncodeAll(messages) ==> Follows(messages, [], s, [])
    ensures Replies(greeting, []) == []
  {
    assert messages[0..] == messages;
  }

  lemma PacketRead(readings: seq<Reading>, s: bytes, rest: bytes)
    requires readings != [] && readings[0].left == |s| > |rest| && readings[0].size == 4
    requires forall i :: 1 <= i < |readings| ==> |rest| < readings[i].left < |s|
    ensures ReadWithin(readings, |s|, |rest|)
  {
  }

  /** The messages the server answers with. */
  function Greeted(greeting: bytes, received: seq<bytes>): seq<bytes> {
    seq(|received|, i requires 0 <= i < |received| => greeting + received[i])
  }

  lemma SameWires(data: bytes)
    requires |data| < WORD
    ensures ServerWire(data) == ClientWire(data)
  {
  }

  lemma GreetedButLast(greeting: bytes, received: seq<bytes>)
    requires received != [] && WithinLimit(Greeted(greeting, received))
    ensures var n := |received| - 1; var m := greeting + received[n];
            && Greeted(greeting, received) == Greeted(greeting, received[..n]) + [m]
            && WithinLimit(Greeted(greeting, received[..n])) && |m| <= LIMIT
  {
    var n := |received| - 1;
    var some, all := Greeted(greeting, received[..n]), Greeted(greeting, received);
    assert all == some + [greeting + received[n]];
    forall i | 0 <= i < |some| ensures |some[i]| <= LIMIT {
      assert some[i] == all[i];
    }
    assert |all[n]| <= LIMIT;
  }

  lemma EmptyEncodes()
    ensures EncodeAll([]) == []
  {
  }

  lemma {:induction false} RepliesEncode(greeting: bytes, received: seq<bytes>)
    requires WithinLimit(Greeted(greeting, received))
    ensures Replies(greeting, received) == EncodeAll(Greeted(greeting, received))
    decreases |received|
  {
    hide ServerWire, ClientWire, EncodeAll;
    if received == [] {
      EmptyEncodes();
    } else {
      var n := |received| - 1;
      GreetedButLast(greeting, received);
      RepliesEncode(greeting, received[..n]);
      EncodeAllAppend(Greeted(greeting, received[..n]), greeting + received[n]);
      SameWires(greeting + received[n]);
    }
  }

  /** The client reads the replies back: the greeting followed by its own message, for each message in order. */
  lemma RepliesDecode(greeting: bytes, received: seq<bytes>)
    requires WithinLimit(Greeted(greeting, received))
    ensures DecodeAll(Replies(greeting, received)) == (Greeted(greeting, received), [])
  {
    RepliesEncode(greeting, received);
    WholeStream(Greeted(greeting, received), LIMIT);
  }

  lemma RepliesOneMore(greeting: bytes, received: seq<bytes>, m: bytes)
    ensures Replies(greeting, received + [m]) == Replies(greeting, received) + ServerWire(greeting + m)
  {
    assert (received + [m])[..|received|] == received;
  }

  /**
   The server's main loop: it stops at the first packet it cannot read. Whatever the peer has sent, the server
   receives exactly these messages if and only if no recv of a prefix was cut short.
   */
  method Serve(sock: Socket, greeting: bytes, ghost messages: seq<bytes>)
    returns (received: seq<bytes>, ghost readings: seq<Reading>, ghost sends: seq<Sending>)
    requires !sock.broken
    modifies sock
    ensures sock.readings == old(sock.readings) + readings && sock.sendings == old(sock.sendings) + sends
    ensures !sock.broken && WithinLimit(messages, WORD_MAX) && old(sock.incoming) == EncodeAll(messages) ==>
              (received == messages <==> PrefixesWhole(messages, readings))
    ensures old(sock.outgoing) <= sock.outgoing
    ensures (forall x :: x in sends ==> x.len == x.size) ==>
              sock.outgoing == old(sock.outgoing) + Replies(greeting, received)
    ensures (forall x :: x in sends ==> x.len == x.size) && WithinLimit(Greeted(greeting, received)) ==>
              DecodeAll(sock.outgoing[|old(sock.outgoing)|..]) == (Greeted(greeting, received), [])
  {
    hide Follows, Replies, ServerWire, ServerDecode, EncodeAll, PrefixesWhole, WithinLimit;
    received, readings, sends := [], [], [];
    ghost var sent := WithinLimit(messages, WORD_MAX) && sock.incoming == EncodeAll(messages);
    ServiceStarts(messages, sock.incoming, greeting);
    while true
      invariant !sock.broken && old(sock.outgoing) <= sock.outgoing
      invariant sock.readings == old(sock.readings) + readings && sock.sendings == old(sock.sendings) + sends
      invariant sent ==> Follows(messages, received, sock.incoming, readings)
      invariant (forall x :: x in sends ==> x.len == x.size) ==>
                sock.outgoing == old(sock.outgoing) + Replies(greeting, received)
      decreases |sock.incoming|
    {
      ghost var s, before := sock.incoming, sock.outgoing;
      ghost var more, packet;
      var ok, message;
      ok, message, more := ServerRecvPacket(sock);
      if !ok {
        if sent && !sock.broken {
          FollowedToTheEnd(messages, received, s, readings, more);
        }
        if WithinLimit(Greeted(greeting, received)) {
          RepliesDecode(greeting, received);
        }
        readings := readings + more;
        return;
      }
      if sent {
        PacketRead(more, s, sock.incoming);
        Following(messages, received, s, readings, message, sock.incoming, more);
      }
      var replied;
      replied, packet := ServerSendPacket(sock, greeting + message);
      RepliesOneMore(greeting, received, message);
      assert forall x :: x in sends + packet <==> x in sends || x in packet;
      received, readings, sends := received + [message], readings + more, sends + packet;
    }
  }
}
