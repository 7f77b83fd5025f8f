/** The connection to the GDB client: acknowledgements, interrupts and packets taken from what has been
    read, and replies kept until they are acknowledged. */
module GdbTransport {
  import opened Common
  import opened GdbPacket

  const ACK: byte := 0x2B
  const NACK: byte := 0x2D

  predicate IsControl(c: byte) { c == ACK || c == NACK || c == INTERRUPT }

  /** Bytes handled before anything is decoded: the leading control bytes of a read. */
  function Controls(b: Bytes): (n: nat)
    ensures n <= |b| && (forall i | 0 <= i < n :: IsControl(b[i])) && (n < |b| ==> !IsControl(b[n]))
  {
    if b == [] || !IsControl(b[0]) then 0 else 1 + Controls(b[1..])
  }

  /** Replies not acknowledged yet, what has been sent, and decoded bytes waiting to be delivered. */
  datatype Line = Line(unacknowledged: seq<Bytes>, sent: seq<Bytes>, waiting: Bytes)

  function Control(l: Line, c: byte): Line
  {
    if c == ACK then if l.unacknowledged == [] then l else l.(unacknowledged := l.unacknowledged[1..])
    else if c == NACK then if l.unacknowledged == [] then l else l.(sent := l.sent + [l.unacknowledged[0]])
    else if c == INTERRUPT then l.(waiting := l.waiting + [INTERRUPT])
    else l
  }

  function ControlAll(l: Line, cs: Bytes): Line
    decreases |cs|
  {
    if cs == [] then l else ControlAll(Control(l, cs[0]), cs[1..])
  }

  function Count(cs: Bytes, c: byte): nat
  {
    if cs == [] then 0 else (if cs[0] == c then 1 else 0) + Count(cs[1..], c)
  }

  function Least(a: nat, b: nat): nat { if a < b then a else b }

  /** Each acknowledgement settles the oldest reply, in order. */
  lemma {:induction false} AcknowledgedInOrder(l: Line, cs: Bytes)
    ensures ControlAll(l, cs).unacknowledged == l.unacknowledged[Least(Count(cs, ACK), |l.unacknowledged|)..]
    decreases |cs|
  {
    if cs != [] {
      var next := Control(l, cs[0]);
      AcknowledgedInOrder(next, cs[1..]);
      if cs[0] == ACK && l.unacknowledged != [] {
        var n := Least(Count(cs[1..], ACK), |next.unacknowledged|);
        assert next.unacknowledged[n..] == l.unacknowledged[n + 1..];
      }
    }
  }

  function Interrupts(n: nat): Bytes { if n == 0 then [] else [INTERRUPT] + Interrupts(n - 1) }

  /** Interrupts are passed on one by one. */
  lemma {:induction false} InterruptsPassedOn(l: Line, cs: Bytes)
    ensures ControlAll(l, cs).waiting == l.waiting + Interrupts(Count(cs, INTERRUPT))
    decreases |cs|
  {
    if cs != [] {
      InterruptsPassedOn(Control(l, cs[0]), cs[1..]);
      Associative(l.waiting, [INTERRUPT], Interrupts(Count(cs[1..], INTERRUPT)));
    }
  }

  lemma {:induction false} ControlLast(l: Line, cs: Bytes, c: byte)
    ensures ControlAll(l, cs + [c]) == Control(ControlAll(l, cs), c)
    decreases |cs|
  {
    if cs == [] {
      assert [c][1..] == [];
    } else {
      assert (cs + [c])[1..] == cs[1..] + [c];
      ControlLast(Control(l, cs[0]), cs[1..], c);
    }
  }

  /** What is sent again: each refusal asks for the reply that as many acknowledgements have reached, if
      there is one. */
  function Resent(replies: seq<Bytes>, cs: Bytes): seq<Bytes>
  {
    if cs == [] then []
    else
      var before, k := cs[..|cs| - 1], Count(cs[..|cs| - 1], ACK);
      Resent(replies, before) + if cs[|cs| - 1] == NACK && k < |replies| then [replies[k]] else []
  }

  /** Whatever is sent again is the oldest reply still unacknowledged: the one at the number of
      acknowledgements before it. */
  lemma {:induction false} OnlyRepliesAreResent(l: Line, cs: Bytes)
    ensures ControlAll(l, cs).sent == l.sent + Resent(l.unacknowledged, cs)
    ensures forall x | x in Resent(l.unacknowledged, cs) :: x in l.unacknowledged
    decreases |cs|
  {
    if cs != [] {
      var before, c := cs[..|cs| - 1], cs[|cs| - 1];
      assert cs == before + [c];
      ControlLast(l, before, c);
      OnlyRepliesAreResent(l, before);
      AcknowledgedInOrder(l, before);
      var k := Count(before, ACK);
      if c == NACK && k < |l.unacknowledged| {
        Associative(l.sent, Resent(l.unacknowledged, before), [l.unacknowledged[k]]);
      }
    }
  }

  /** One acknowledgement for each packet handed on. */
  function Acks(count: nat): seq<Bytes> { seq(count, _ => [ACK]) }

  lemma AcksGrow(count: nat)
    ensures Acks(count + 1) == Acks(count) + [[ACK]]
  {
  }

  /** One packet is taken off the decoded bytes. `next` is the packet object as it is left behind, which a
      malformed packet does not change. */
  method NextPacket(buffer: Bytes, last: Packet) returns (found: Option<Packet>, next: Packet, rest: Bytes)
    requires buffer != []
    ensures found.None? ==> Delivered(buffer, last) == [] && Left(buffer) == buffer
    ensures found.Some? ==> && Delivered(buffer, last) == [found.value] + Delivered(rest, next)
                            && Left(buffer) == Left(rest) && |rest| < |buffer|
  {
    if buffer[0] == INTERRUPT {
      return Some(Packet([INTERRUPT], false)), last, buffer[1..];
    }
    var parsed := Parse(buffer);
    match parsed
    case More => return None, last, buffer;
    case Malformed(n) => return Some(last), last, buffer[n..];
    case Found(body, ok, n) => return Some(Packet(body, ok)), Packet(body, ok), buffer[n..];
  }

  class GDBTransport {
    var readBuffer: Bytes
    var unescapedReadBuffer: Bytes
    var ackBuffer: seq<Bytes>
    var sent: seq<Bytes>
    var noAckMode: bool
    var received: seq<Packet>

    ghost function Value(): Line
      reads this
    {
      Line(ackBuffer, sent, unescapedReadBuffer)
    }

    constructor ()
      ensures readBuffer == [] && Value() == Line([], [], []) && !noAckMode && received == []
    {
      readBuffer, unescapedReadBuffer, ackBuffer, sent := [], [], [], [];
      noAckMode, received := false, [];
    }

    method Send(body: Bytes)
      modifies `ackBuffer, `sent
      ensures ackBuffer == old(ackBuffer) + [Serialize(body)] && sent == old(sent) + [Serialize(body)]
    {
      ackBuffer := ackBuffer + [Serialize(body)];
      sent := sent + [ackBuffer[|ackBuffer| - 1]];
    }

    method HandleControl(c: byte)
      requires IsControl(c)
      modifies `ackBuffer, `sent, `unescapedReadBuffer
      ensures Value() == Control(old(Value()), c)
    {
      if c == ACK {
        if ackBuffer != [] { ackBuffer := ackBuffer[1..]; }
      } else if c == NACK {
        if ackBuffer != [] { sent := sent + [ackBuffer[0]]; }
      } else {
        unescapedReadBuffer := unescapedReadBuffer + [INTERRUPT];
      }
    }

    method HandleControls() returns (n: nat)
      modifies `ackBuffer, `sent, `unescapedReadBuffer
      ensures n == Controls(readBuffer) && Value() == ControlAll(old(Value()), readBuffer[..n])
    {
      n := 0;
      ghost var rest, result := readBuffer, ControlAll(Value(), readBuffer[..Controls(readBuffer)]);
      while n < |readBuffer| && IsControl(readBuffer[n])
        invariant 0 <= n <= |readBuffer| && rest == readBuffer[n..]
        invariant n + Controls(rest) == Controls(readBuffer)
        invariant ControlAll(Value(), rest[..Controls(rest)]) == result
      {
        var c := readBuffer[n];
        ghost var k := Controls(rest);
        assert rest[..k][0] == c && rest[..k][1..] == rest[1..][..k - 1];
        HandleControl(c);
        rest := rest[1..];
        n := n + 1;
      }
      assert rest[..0] == [];
    }

    method ShiftReadBuffer(count: nat)
      modifies `readBuffer
      ensures readBuffer == if count <= |old(readBuffer)| then old(readBuffer)[count..] else old(readBuffer)
    {
      if count == 0 || count > |readBuffer| { return; }
      readBuffer := readBuffer[count..];
    }

    method ProcessUnescapedReadBuffer()
      modifies `unescapedReadBuffer, `sent, `received
      ensures var packets := Delivered(old(unescapedReadBuffer), Packet([], false));
              && received == old(received) + packets
              && sent == old(sent) + Acks(if noAckMode then 0 else |packets|)
      ensures unescapedReadBuffer == Left(old(unescapedReadBuffer))
    {
      ghost var all := Delivered(unescapedReadBuffer, Packet([], false));
      ghost var left := Left(unescapedReadBuffer);
      var buffer, packet, packets := unescapedReadBuffer, Packet([], false), [];
      while buffer != []
        invariant packets + Delivered(buffer, packet) == all && Left(buffer) == left
        invariant unescapedReadBuffer == old(unescapedReadBuffer) && received == old(received)
        invariant sent == old(sent) + Acks(if noAckMode then 0 else |packets|)
        decreases |buffer|
      {
        var found, next, rest := NextPacket(buffer, packet);
        if found.None? { break; }
        AcksGrow(|packets|);
        ghost var before := packets;
        packets := packets + [found.value];
        assert before + ([found.value] + Delivered(rest, next)) == packets + Delivered(rest, next);
        packet, buffer := next, rest;
        if !noAckMode { sent := sent + [[ACK]]; }
      }
      unescapedReadBuffer := buffer;
      received := received + packets;
    }

    /** The control bytes at the head of a read are handled and taken off. */
    method TakeControls(bytes: Bytes)
      modifies `readBuffer, `unescapedReadBuffer, `ackBuffer, `sent
      ensures var all := old(readBuffer) + bytes;
              && readBuffer == all[Controls(all)..]
              && Value() == ControlAll(old(Value()), all[..Controls(all)])
    {
      readBuffer := readBuffer + bytes;
      var n := HandleControls();
      ShiftReadBuffer(n);
    }

    /** The rest is decoded behind what is waiting, and taken off by the count reported. */
    method DecodeRest()
      modifies `readBuffer, `unescapedReadBuffer
      ensures var rest := old(readBuffer);
              && Reported(rest) <= |rest| && readBuffer == rest[Reported(rest)..]
              && unescapedReadBuffer == old(unescapedReadBuffer) + Decode(rest)
    {
      ReportedIs(readBuffer);
      var count, decoded := UnescapeBuffer(readBuffer, unescapedReadBuffer);
      unescapedReadBuffer := decoded;
      ShiftReadBuffer(count);
    }

    /** Control bytes are handled, and the rest of the read is decoded behind what is waiting. */
    method DecodeRead(bytes: Bytes)
      modifies `readBuffer, `unescapedReadBuffer, `ackBuffer, `sent
      ensures var all := old(readBuffer) + bytes;
              var controlled := ControlAll(old(Value()), all[..Controls(all)]);
              var rest := all[Controls(all)..];
              && Reported(rest) <= |rest| && readBuffer == rest[Reported(rest)..]
              && Value() == controlled.(waiting := controlled.waiting + Decode(rest))
              && old(unescapedReadBuffer) <= unescapedReadBuffer
    {
      ghost var before, all := Value(), readBuffer + bytes;
      WaitingGrows(before, all[..Controls(all)]);
      TakeControls(bytes);
      DecodeRest();
    }

    method OnBytesRead(bytes: Bytes)
      modifies `readBuffer, `unescapedReadBuffer, `ackBuffer, `sent, `received
      ensures var all := old(readBuffer) + bytes;
              var controlled := ControlAll(old(Value()), all[..Controls(all)]);
              var rest := all[Controls(all)..];
              var waiting := controlled.waiting + Decode(rest);
              var packets := if waiting == old(unescapedReadBuffer) then [] else Delivered(waiting, Packet([], false));
              && Reported(rest) <= |rest| && readBuffer == rest[Reported(rest)..]
              && ackBuffer == controlled.unacknowledged
              && received == old(received) + packets
              && sent == controlled.sent + Acks(if noAckMode then 0 else |packets|)
              && unescapedReadBuffer == (if waiting == old(unescapedReadBuffer) then waiting else Left(waiting))
    {
      var size := |unescapedReadBuffer|;
      DecodeRead(bytes);
      if |unescapedReadBuffer| == size { return; }
      ProcessUnescapedReadBuffer();
    }
  }

  lemma WaitingGrows(l: Line, cs: Bytes)
    ensures l.waiting <= ControlAll(l, cs).waiting
  {
    InterruptsPassedOn(l, cs);
  }

  /** Packets that arrive in one read, on a connection with nothing pending, are handed on as sent exactly
      when no body holds a trailer byte; and the read buffer is then empty exactly when nothing in them had
      to be escaped. */
  lemma ReadRoundTripIff(bodies: seq<Bytes>)
    requires bodies != []
    ensures var all := SerializedAll(bodies);
            && Controls(all) == 0
            && (Delivered(Decode(all), Packet([], false)) == Expected(bodies) && Left(Decode(all)) == []
                <==> NoTrailers(bodies))
            && Reported(all) <= |all|
            && (all[Reported(all)..] == [] <==> forall b | b in bodies :: NothingEscaped(b))
  {
    var all := SerializedAll(bodies);
    assert all[0] == Serialize(bodies[0])[0] == LEADER;
    PacketsRoundTripIff(bodies);
    ShiftIsExactIff(all);
    SerializedPairs(bodies);
    assert !Dangling(all);
  }

  ghost predicate NothingEscaped(body: Bytes) { forall b | b in body :: !IsSpecial(b) }

  lemma {:induction false} PairsSplit(a: Bytes, b: Bytes)
    requires !Dangling(a)
    ensures Pairs(a + b) == Pairs(a) + Pairs(b)
    decreases |a|
  {
    if a == [] {
      assert a + b == b;
    } else if a[0] != ESCAPE {
      assert (a + b)[1..] == a[1..] + b;
      PairsSplit(a[1..], b);
    } else {
      assert (a + b)[2..] == a[2..] + b;
      PairsSplit(a[2..], b);
    }
  }

  lemma {:induction false} EscapedPairs(body: Bytes)
    ensures Pairs(EscapeBuffer(body)) == 0 <==> NothingEscaped(body)
  {
    if body != [] {
      EscapedPairs(body[1..]);
      var rest := EscapeBuffer(body[1..]);
      var all := EscapedByte(body[0]) + rest;
      assert body[0] in body;
      assert forall b | b in body :: b == body[0] || b in body[1..];
      if IsSpecial(body[0]) { assert all[2..] == rest; } else { assert all[1..] == rest; }
    }
  }

  lemma PacketPairs(body: Bytes)
    ensures Pairs(Serialize(body)) == 0 <==> NothingEscaped(body)
    ensures !Dangling(Serialize(body))
  {
    var e, t := EscapeBuffer(body), Trailer(Checksum(body));
    EscapeRoundTrip(body);
    EscapedPairs(body);
    DecodePacket(body);
    assert [LEADER][1..] == [] && t[1..][1..][1..] == [];
    assert Pairs(t) == 0 by { assert Pairs(t[1..][1..]) == 0; }
    PairsSplit([LEADER], e);
    Undangled([LEADER], e);
    PairsSplit([LEADER] + e, t);
  }

  lemma {:induction false} SerializedPairs(bodies: seq<Bytes>)
    ensures Pairs(SerializedAll(bodies)) == 0 <==> forall b | b in bodies :: NothingEscaped(b)
    ensures !Dangling(SerializedAll(bodies))
  {
    if bodies != [] {
      var first, rest := Serialize(bodies[0]), SerializedAll(bodies[1..]);
      PacketPairs(bodies[0]);
      SerializedPairs(bodies[1..]);
      PairsSplit(first, rest);
      Undangled(first, rest);
      assert bodies == [bodies[0]] + bodies[1..];
    }
  }
}
