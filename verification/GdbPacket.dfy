/** Packets of the GDB remote serial protocol: `$`, an escaped body, `#` and two checksum digits. The
    receiver takes the escapes out of whatever has arrived before it looks for packets. */
module GdbPacket {
  import opened Common

  const LEADER: byte := 0x24
  const TRAILER: byte := 0x23
  const ESCAPE: byte := 0x7D
  const INTERRUPT: byte := 0x03

  predicate IsSpecial(b: byte) { b == LEADER || b == TRAILER || b == ESCAPE }

  /** Bit five inverted. */
  function Flip(b: byte): (r: byte)
    ensures r != b && (r < b ==> r == b - 32) && (r > b ==> r == b + 32)
  {
    if b / 32 % 2 == 1 then b - 32 else b + 32
  }

  lemma FlipTwice(b: byte)
    ensures Flip(Flip(b)) == b
  {
  }

  // ---------------------------------------------------------------- escaping

  function EscapedByte(b: byte): Bytes { if IsSpecial(b) then [ESCAPE, Flip(b)] else [b] }

  function EscapeBuffer(body: Bytes): Bytes
  {
    if body == [] then [] else EscapedByte(body[0]) + EscapeBuffer(body[1..])
  }

  /** The meaning of escaped bytes; an escape without its byte means nothing yet. */
  function Decode(b: Bytes): Bytes
  {
    if b == [] then []
    else if b[0] != ESCAPE then [b[0]] + Decode(b[1..])
    else if |b| == 1 then []
    else [Flip(b[1])] + Decode(b[2..])
  }

  /** Complete escape pairs. */
  function Pairs(b: Bytes): nat
  {
    if b == [] then 0
    else if b[0] != ESCAPE then Pairs(b[1..])
    else if |b| == 1 then 0
    else 1 + Pairs(b[2..])
  }

  /** Whether the bytes end in the middle of an escape. */
  predicate Dangling(b: Bytes)
  {
    if b == [] then false
    else if b[0] != ESCAPE then Dangling(b[1..])
    else if |b| == 1 then true
    else Dangling(b[2..])
  }

  lemma {:induction false} DecodeSplits(a: Bytes, b: Bytes)
    requires !Dangling(a)
    ensures Decode(a + b) == Decode(a) + Decode(b)
    decreases |a|
  {
    if a == [] {
      assert a + b == b;
    } else if a[0] != ESCAPE {
      assert (a + b)[1..] == a[1..] + b;
      DecodeSplits(a[1..], b);
    } else {
      assert (a + b)[2..] == a[2..] + b;
      DecodeSplits(a[2..], b);
    }
  }

  lemma {:induction false} Undangled(a: Bytes, b: Bytes)
    requires !Dangling(a)
    ensures Dangling(a + b) == Dangling(b)
    decreases |a|
  {
    if a == [] {
      assert a + b == b;
    } else if a[0] != ESCAPE {
      assert (a + b)[1..] == a[1..] + b;
      Undangled(a[1..], b);
    } else {
      assert (a + b)[2..] == a[2..] + b;
      Undangled(a[2..], b);
    }
  }

  lemma DecodeByte(b: byte, rest: Bytes)
    ensures Decode(EscapedByte(b) + rest) == [b] + Decode(rest)
    ensures Dangling(EscapedByte(b) + rest) == Dangling(rest)
  {
    var all := EscapedByte(b) + rest;
    FlipTwice(b);
    if IsSpecial(b) { assert all[2..] == rest; } else { assert all[1..] == rest; }
  }

  /** Escaping is undone, and hides every byte that could be taken for the frame of a packet. */
  lemma {:induction false} EscapeRoundTrip(body: Bytes)
    ensures Decode(EscapeBuffer(body)) == body && !Dangling(EscapeBuffer(body))
    ensures forall b | b in EscapeBuffer(body) :: b != LEADER && b != TRAILER
  {
    if body != [] {
      EscapeRoundTrip(body[1..]);
      DecodeByte(body[0], EscapeBuffer(body[1..]));
      assert forall b | b in EscapedByte(body[0]) :: b != LEADER && b != TRAILER;
    }
  }

  // ---------------------------------------------------------------- how much was consumed

  /** Every byte is copied, half of a pair, or a dangling escape. */
  lemma {:induction false} DecodeCounts(b: Bytes)
    ensures |Decode(b)| + Pairs(b) + (if Dangling(b) then 1 else 0) == |b|
  {
    if b != [] {
      if b[0] != ESCAPE { DecodeCounts(b[1..]); } else if |b| > 1 { DecodeCounts(b[2..]); }
    }
  }

  /** The count the decoder reports: bytes copied, not counting pairs. */
  function Reported(b: Bytes): nat
  {
    if b == [] then 0
    else if b[0] != ESCAPE then 1 + Reported(b[1..])
    else if |b| == 1 then 0
    else Reported(b[2..])
  }

  lemma {:induction false} ReportedIs(b: Bytes)
    ensures Reported(b) + 2 * Pairs(b) + (if Dangling(b) then 1 else 0) == |b|
  {
    if b != [] {
      if b[0] != ESCAPE { ReportedIs(b[1..]); } else if |b| > 1 { ReportedIs(b[2..]); }
    }
  }

  lemma {:induction false} DanglingIsLast(b: Bytes)
    requires Dangling(b)
    ensures b[|b| - 1] == ESCAPE
  {
    if b[0] != ESCAPE {
      DanglingIsLast(b[1..]);
    } else if |b| > 1 {
      DanglingIsLast(b[2..]);
    }
  }

  /** Dropping the reported number of bytes leaves exactly the undecoded rest if and only if there was no
      complete escape pair; otherwise bytes that were decoded are seen again. */
  lemma ShiftIsExactIff(b: Bytes)
    ensures Reported(b) <= |b|
    ensures b[Reported(b)..] == (if Dangling(b) then [ESCAPE] else []) <==> Pairs(b) == 0
  {
    ReportedIs(b);
    if Dangling(b) { DanglingIsLast(b); }
  }

  // ---------------------------------------------------------------- escapes taken out in a loop

  function FindEscape(b: Bytes, start: nat): (i: nat)
    requires start <= |b|
    ensures start <= i <= |b| && (forall j | start <= j < i :: b[j] != ESCAPE) && (i < |b| ==> b[i] == ESCAPE)
    decreases |b| - start
  {
    if start == |b| || b[start] == ESCAPE then start else FindEscape(b, start + 1)
  }

  lemma {:induction false} PlainPrefix(b: Bytes, n: nat)
    requires n <= |b| && forall j | 0 <= j < n :: b[j] != ESCAPE
    ensures Decode(b) == b[..n] + Decode(b[n..]) && Reported(b) == n + Reported(b[n..])
    ensures Dangling(b) == Dangling(b[n..])
    decreases n
  {
    if n == 0 {
      assert b[0..] == b;
    } else {
      PlainPrefix(b[1..], n - 1);
      assert b[1..][n - 1..] == b[n..] && b[..n] == [b[0]] + b[1..][..n - 1];
    }
  }

  /** Bytes up to the next escape, and the byte it stands for if that is there. */
  lemma UnescapeStep(b: Bytes, n: nat)
    requires n < |b| && b[n] == ESCAPE && forall j | 0 <= j < n :: b[j] != ESCAPE
    ensures n + 1 == |b| ==> Decode(b) == b[..n] && Reported(b) == n
    ensures n + 1 < |b| ==> && Decode(b) == (b[..n] + [Flip(b[n + 1])]) + Decode(b[n + 2..])
                            && Reported(b) == n + Reported(b[n + 2..])
  {
    PlainPrefix(b, n);
    if n + 1 < |b| {
      assert b[n..][1] == b[n + 1] && b[n..][2..] == b[n + 2..];
    }
  }

  lemma UnescapeAt(buffer: Bytes, start: nat, at: nat)
    requires start <= at < |buffer| && buffer[at] == ESCAPE && forall j | start <= j < at :: buffer[j] != ESCAPE
    ensures var rest := buffer[start..];
            && (at + 1 == |buffer| ==> Decode(rest) == buffer[start..at] && Reported(rest) == at - start)
            && (at + 1 < |buffer| ==>
                  && Decode(rest) == (buffer[start..at] + [Flip(buffer[at + 1])]) + Decode(buffer[at + 2..])
                  && Reported(rest) == at - start + Reported(buffer[at + 2..]))
  {
    var rest, n := buffer[start..], at - start;
    assert rest[..n] == buffer[start..at];
    UnescapeStep(rest, n);
    if at + 1 < |buffer| { assert rest[n + 2..] == buffer[at + 2..]; }
  }

  method UnescapeBuffer(buffer: Bytes, target: Bytes) returns (count: nat, out: Bytes)
    ensures count == Reported(buffer) && out == target + Decode(buffer)
  {
    out, count := target, 0;
    if buffer == [] { return; }
    var start := 0;
    assert buffer[0..] == buffer;
    ghost var decoded, reported := Decode(buffer), Reported(buffer);
    ghost var result, total := out + decoded, reported;
    var at := FindEscape(buffer, start);
    while at < |buffer|
      invariant 0 <= start <= |buffer| && at == FindEscape(buffer, start)
      invariant decoded == Decode(buffer[start..]) && reported == Reported(buffer[start..])
      invariant out + decoded == result && count + reported == total
      decreases |buffer| - start
    {
      var copied := buffer[start..at];
      UnescapeAt(buffer, start, at);
      count := count + (at - start);
      at := at + 1;
      if at == |buffer| {
        out := out + copied;
        return;
      }
      copied := copied + [Flip(buffer[at])];
      decoded, reported := Decode(buffer[at + 1..]), Reported(buffer[at + 1..]);
      Associative(out, copied, decoded);
      out := out + copied;
      start := at + 1;
      at := FindEscape(buffer, start);
    }
    AllPlain(buffer[start..]);
    count := count + (|buffer| - start);
    out := out + buffer[start..];
  }

  lemma AllPlain(b: Bytes)
    requires forall j | 0 <= j < |b| :: b[j] != ESCAPE
    ensures Decode(b) == b && Reported(b) == |b|
  {
    PlainPrefix(b, |b|);
    assert b[..|b|] == b && b[|b|..] == [];
  }

  // ---------------------------------------------------------------- packets

  function Checksum(body: Bytes): (c: byte)
  {
    if body == [] then 0 else (Checksum(body[..|body| - 1]) + body[|body| - 1]) % 256
  }

  method Mod256Checksum(body: Bytes) returns (c: byte)
    ensures c == Checksum(body)
  {
    c := 0;
    for i := 0 to |body|
      invariant c == Checksum(body[..i])
    {
      assert body[..i + 1][..i] == body[..i];
      c := (c + body[i]) % 256;
    }
    assert body[..|body|] == body;
  }

  function Total(body: Bytes): nat { if body == [] then 0 else body[0] + Total(body[1..]) }

  lemma {:induction false} TotalAppended(body: Bytes, b: byte)
    ensures Total(body + [b]) == Total(body) + b
  {
    if body == [] {
      assert [b][1..] == [];
    } else {
      assert (body + [b])[1..] == body[1..] + [b];
      TotalAppended(body[1..], b);
    }
  }

  /** The checksum is the sum of the bytes, cut to eight bits at the end. */
  lemma {:induction false} ChecksumIsTotal(body: Bytes)
    ensures Checksum(body) == Total(body) % 256
  {
    if body != [] {
      var front, last := body[..|body| - 1], body[|body| - 1];
      assert body == front + [last];
      ChecksumIsTotal(front);
      TotalAppended(front, last);
      CutLater(Total(front), last);
    }
  }

  lemma CutLater(x: nat, b: byte)
    ensures (x % 256 + b) % 256 == (x + b) % 256
  {
    assert x + b == (x % 256 + b) + x / 256 * 256;
  }

  function HexDigit(n: nat): byte
    requires n < 16
  {
    if n < 10 then 0x30 + n else 0x57 + n
  }

  /** The value of a hexadecimal digit, or nothing. */
  function HexValue(c: byte): Option<nat>
  {
    if 0x30 <= c <= 0x39 then Some(c - 0x30)
    else if 0x41 <= c <= 0x46 then Some(c - 0x37)
    else if 0x61 <= c <= 0x66 then Some(c - 0x57)
    else None
  }

  predicate IsBlank(c: byte) { c == 0x20 || 9 <= c <= 13 }

  /** Two characters read as a hexadecimal number in the manner of `strtol`, if both are used up. */
  function ReadHex(c: byte, d: byte): Option<int>
  {
    if HexValue(d).None? then None
    else if HexValue(c).Some? then Some(16 * HexValue(c).value + HexValue(d).value)
    else if IsBlank(c) || c == 0x2B then Some(HexValue(d).value)
    else if c == 0x2D then Some(0 - HexValue(d).value)
    else None
  }

  lemma HexRoundTrip(n: byte)
    ensures ReadHex(HexDigit(n / 16), HexDigit(n % 16)) == Some(n)
  {
  }

  function Trailer(c: byte): Bytes { [TRAILER, HexDigit(c / 16), HexDigit(c % 16)] }

  function Serialize(body: Bytes): Bytes
  {
    [LEADER] + EscapeBuffer(body) + Trailer(Checksum(body))
  }

  /** The first occurrence of a byte, or the length. */
  function Index(b: Bytes, x: byte): (i: nat)
    ensures i <= |b| && (forall j | 0 <= j < i :: b[j] != x) && (i < |b| ==> b[i] == x)
  {
    if b == [] || b[0] == x then 0 else 1 + Index(b[1..], x)
  }

  /** A packet found in decoded bytes; one with a malformed checksum is passed over up to its trailer. */
  datatype Parsed = More | Malformed(count: nat) | Found(body: Bytes, ok: bool, count: nat)

  function Parse(b: Bytes): (r: Parsed)
    ensures !r.More? ==> 0 < r.count <= |b|
  {
    var start := Index(b, LEADER);
    if start == |b| then More
    else
      var rest := b[start + 1..];
      var size := Index(rest, TRAILER);
      if size + 3 > |rest| then More
      else
        var sum := ReadHex(rest[size + 1], rest[size + 2]);
        if sum.None? then Malformed(start + 1 + size + 1)
        else Found(rest[..size], sum.value == Checksum(rest[..size]), start + 1 + size + 3)
  }

  // ---------------------------------------------------------------- delivery

  datatype Packet = Packet(data: Bytes, checksumOk: bool)

  /** The packets handed on from decoded bytes. A malformed packet hands on the previous one again. */
  function Delivered(b: Bytes, last: Packet): seq<Packet>
    decreases |b|
  {
    if b == [] then []
    else if b[0] == INTERRUPT then [Packet([INTERRUPT], false)] + Delivered(b[1..], last)
    else
      match Parse(b)
      case More => []
      case Malformed(n) => [last] + Delivered(b[n..], last)
      case Found(body, ok, n) => [Packet(body, ok)] + Delivered(b[n..], Packet(body, ok))
  }

  /** What is left for later. */
  function Left(b: Bytes): Bytes
    decreases |b|
  {
    if b == [] then []
    else if b[0] == INTERRUPT then Left(b[1..])
    else
      match Parse(b)
      case More => b
      case Malformed(n) => Left(b[n..])
      case Found(_, _, n) => Left(b[n..])
  }

  // ---------------------------------------------------------------- round trips

  function Framed(body: Bytes): Bytes { [LEADER] + body + Trailer(Checksum(body)) }

  function FramedAll(bodies: seq<Bytes>): Bytes
  {
    if bodies == [] then [] else Framed(bodies[0]) + FramedAll(bodies[1..])
  }

  function SerializedAll(bodies: seq<Bytes>): Bytes
  {
    if bodies == [] then [] else Serialize(bodies[0]) + SerializedAll(bodies[1..])
  }

  lemma DecodePacket(body: Bytes)
    ensures Decode(Serialize(body)) == Framed(body) && !Dangling(Serialize(body))
  {
    EscapeRoundTrip(body);
    var t := Trailer(Checksum(body));
    PlainPrefix(t, 3);
    assert t[3..] == [] && t[..3] == t;
    assert Decode([LEADER]) == [LEADER];
    DecodeSplits([LEADER], EscapeBuffer(body));
    Undangled([LEADER], EscapeBuffer(body));
    DecodeSplits([LEADER] + EscapeBuffer(body), t);
    Undangled([LEADER] + EscapeBuffer(body), t);
  }

  lemma {:induction false} DecodeAll(bodies: seq<Bytes>)
    ensures Decode(SerializedAll(bodies)) == FramedAll(bodies)
  {
    if bodies != [] {
      DecodePacket(bodies[0]);
      DecodeAll(bodies[1..]);
      DecodeSplits(Serialize(bodies[0]), SerializedAll(bodies[1..]));
    }
  }

  lemma IndexIs(b: Bytes, x: byte, i: nat)
    requires i < |b| && b[i] == x && forall j | 0 <= j < i :: b[j] != x
    ensures Index(b, x) == i
  {
  }

  /** A framed body without trailer bytes is found whole. */
  lemma ParseFramed(body: Bytes, rest: Bytes)
    requires TRAILER !in body
    ensures Parse(Framed(body) + rest) == Found(body, true, |body| + 4)
    ensures (Framed(body) + rest)[|body| + 4..] == rest
  {
    var b := Framed(body) + rest;
    var t := Trailer(Checksum(body));
    IndexIs(b, LEADER, 0);
    assert b[1..] == body + t + rest;
    IndexIs(b[1..], TRAILER, |body|);
    assert b[1..][..|body|] == body;
    HexRoundTrip(Checksum(body));
  }

  /** Otherwise something shorter is found, or nothing usable. */
  lemma ParseBroken(body: Bytes, rest: Bytes)
    requires TRAILER in body
    ensures var r := Parse(Framed(body) + rest); !r.More? && (r.Found? ==> r.body != body)
  {
    var b := Framed(body) + rest;
    var t := Trailer(Checksum(body));
    IndexIs(b, LEADER, 0);
    assert b[1..] == body + (t + rest);
    var size := Index(body, TRAILER);
    assert size < |body|;
    IndexIs(b[1..], TRAILER, size);
  }

  function Expected(bodies: seq<Bytes>): seq<Packet>
  {
    if bodies == [] then [] else [Packet(bodies[0], true)] + Expected(bodies[1..])
  }

  ghost predicate NoTrailers(bodies: seq<Bytes>) { forall b | b in bodies :: TRAILER !in b }

  lemma FirstDelivered(body: Bytes, rest: Bytes, last: Packet)
    requires TRAILER !in last.data
    ensures var b := Framed(body) + rest;
            var d := Delivered(b, last);
            if TRAILER in body then d != [] && d[0] != Packet(body, true)
            else d == [Packet(body, true)] + Delivered(rest, Packet(body, true)) && Left(b) == Left(rest)
  {
    var b := Framed(body) + rest;
    assert b[0] == LEADER;
    if TRAILER in body { ParseBroken(body, rest); } else { ParseFramed(body, rest); }
  }

  lemma {:induction false} FramedDelivered(bodies: seq<Bytes>, last: Packet)
    requires TRAILER !in last.data
    ensures Delivered(FramedAll(bodies), last) == Expected(bodies) && Left(FramedAll(bodies)) == []
            <==> NoTrailers(bodies)
    decreases |bodies|
  {
    if bodies != [] {
      var body, rest := bodies[0], bodies[1..];
      assert bodies == [body] + rest && body in bodies;
      FirstDelivered(body, FramedAll(rest), last);
      if TRAILER !in body {
        FramedDelivered(rest, Packet(body, true));
        var d := Delivered(FramedAll(bodies), last);
        assert d[1..] == Delivered(FramedAll(rest), Packet(body, true));
        assert Expected(bodies)[1..] == Expected(rest);
      }
    }
  }

  /** Packets sent one after the other arrive as sent, checksums right and nothing left over, exactly when
      no body holds a trailer byte: escapes are gone by the time packets are looked for. */
  lemma PacketsRoundTripIff(bodies: seq<Bytes>)
    ensures var b := Decode(SerializedAll(bodies));
            Delivered(b, Packet([], false)) == Expected(bodies) && Left(b) == [] <==> NoTrailers(bodies)
  {
    DecodeAll(bodies);
    FramedDelivered(bodies, Packet([], false));
  }

  /** A body that is a single trailer byte does not arrive. */
  lemma TrailerInBodyIsLost()
    ensures var bodies: seq<Bytes> := [[TRAILER]];
            Delivered(Decode(SerializedAll(bodies)), Packet([], false)) != Expected(bodies)
            || Left(Decode(SerializedAll(bodies))) != []
  {
    var bodies: seq<Bytes> := [[TRAILER]];
    PacketsRoundTripIff(bodies);
    assert bodies[0] in bodies && TRAILER in bodies[0];
  }

  /** An escape pair alone is decoded and then left in the buffer, to be decoded again. */
  lemma PairIsSeenAgain()
    ensures var b: Bytes := [ESCAPE, Flip(TRAILER)]; Decode(b) == [TRAILER] && Reported(b) == 0
  {
    var b: Bytes := [ESCAPE, Flip(TRAILER)];
    assert b[2..] == [];
    FlipTwice(TRAILER);
  }

  lemma EscapeTwo(a: byte, b: byte)
    ensures EscapeBuffer([a, b]) == EscapedByte(a) + EscapedByte(b)
    ensures Checksum([a, b]) == (a + b) % 256
  {
    var body: Bytes := [a, b];
    assert body[1..] == [b] && body[1..][1..] == [] && [b][1..] == [];
    assert EscapeBuffer([b]) == EscapedByte(b) + EscapeBuffer([]);
    assert EscapedByte(b) + [] == EscapedByte(b);
    assert Total([b]) == b + Total([]);
    ChecksumIsTotal(body);
  }

  lemma SerializeTwo(a: byte, b: byte, c: byte)
    requires c == (a + b) % 256
    ensures Serialize([a, b]) == [0x24] + (EscapedByte(a) + EscapedByte(b)) + [0x23, HexDigit(c / 16), HexDigit(c % 16)]
  {
    EscapeTwo(a, b);
  }

  /** On the wire: the body `OK`, and the body `#}`, of which both bytes are escaped. */
  lemma PacketsOnTheWire()
    ensures Serialize([0x4F, 0x4B]) == [0x24, 0x4F, 0x4B, 0x23, 0x39, 0x61]
    ensures Serialize([0x23, 0x7D]) == [0x24, 0x7D, 0x03, 0x7D, 0x5D, 0x23, 0x61, 0x30]
  {
    SerializeTwo(0x4F, 0x4B, 0x9A);
    SerializeTwo(0x23, 0x7D, 0xA0);
  }
}
