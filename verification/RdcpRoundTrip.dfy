/** Responses written out and decoded again. */
module RdcpRoundTrip {
  import opened Common
  import opened RdcpResponse

  function Code(status: nat): Bytes
    requires status < 1000
  {
    [48 + status / 100, 48 + status / 10 % 10, 48 + status % 10]
  }

  function Header(status: nat, message: Bytes): Bytes
    requires status < 1000
  {
    Code(status) + [DASH, SPACE] + message
  }

  /** The message does not look as if the line ended in it. */
  ghost predicate OneLine(message: Bytes) { forall i: nat :: !At(message, TERMINATOR, i) }

  lemma ThreeDigits(a: nat, b: nat, c: nat)
    requires a < 10 && b < 10 && c < 10
    ensures ToLong([48 + a, 48 + b, 48 + c]) == 100 * a + 10 * b + c
  {
    var s: Bytes := [48 + a, 48 + b, 48 + c];
    assert s[1..] == [48 + b, 48 + c] && s[1..][1..] == [48 + c] && s[1..][1..][1..] == [];
    assert Digits(s, 0) == Digits(s[1..], a);
    assert Digits(s[1..], a) == Digits(s[1..][1..], 10 * a + b);
    assert Digits(s[1..][1..], 10 * a + b) == Digits(s[1..][1..][1..], 10 * (10 * a + b) + c);
  }

  lemma CodeReads(status: nat, s: Bytes)
    requires status < 1000 && |s| >= 3 && s[..3] == Code(status)
    ensures ToLong(s[..3]) % TWO_32 == status
  {
    var a, b, c := status / 100, status / 10 % 10, status % 10;
    DecimalDigits(status);
    ThreeDigits(a, b, c);
    assert s[..3] == [48 + a, 48 + b, 48 + c];
  }

  lemma DecimalDigits(n: nat)
    requires n < 1000
    ensures n == 100 * (n / 100) + 10 * (n / 10 % 10) + n % 10 && n / 100 < 10
  {
  }

  lemma LineEnds(line: Bytes, rest: Bytes)
    requires OneLine(line)
    ensures Find(line + TERMINATOR + rest, TERMINATOR, 0) == Some(|line|)
  {
    var s := line + TERMINATOR + rest;
    forall j | 0 <= j < |line|
      ensures !At(s, TERMINATOR, j)
    {
      if At(s, TERMINATOR, j) {
        assert s[j..j + 2][0] == CR && s[j..j + 2][1] == LF;
        assert j + 1 < |line|;
        assert line[j..j + 2] == TERMINATOR;
        assert At(line, TERMINATOR, j);
      }
    }
    assert s[|line|..|line| + 2] == TERMINATOR;
    FindIs(s, TERMINATOR, 0, |line|);
  }

  lemma HeaderIsOneLine(status: nat, message: Bytes)
    requires status < 1000 && OneLine(message)
    ensures OneLine(Header(status, message))
  {
    var line := Header(status, message);
    forall i: nat
      ensures !At(line, TERMINATOR, i)
    {
      if At(line, TERMINATOR, i) {
        assert line[i..i + 2][0] == CR;
        assert i >= 5;
        assert message[i - 5..i - 3] == line[i..i + 2];
        assert At(message, TERMINATOR, i - 5);
      }
    }
  }

  lemma HeaderShape(status: nat, message: Bytes, tail: Bytes)
    requires status < 1000
    ensures var line := Header(status, message);
            && |line| == |message| + 5 && line[5..] == message
            && (line + tail)[..3] == Code(status) && (line + tail)[3] == DASH
            && (line + tail)[..|line|] == line && (line + tail)[|line|..] == tail
  {
  }

  lemma ParseFrom(s: Bytes, t: nat, status: u32, p: SizeParser)
    requires |s| >= 4 && Find(s, TERMINATOR, 0) == Some(t) && t >= 2 && s[3] == DASH
    requires ToLong(s[..3]) % TWO_32 == status
    ensures Parse(s, p) == ParseBody(s[..t], s[t..], status, p)
  {
  }

  /** Decoding whatever follows a status line. */
  lemma ParseEncoded(status: nat, message: Bytes, rest: Bytes, p: SizeParser)
    requires status < 1000 && OneLine(message)
    ensures var line := Header(status, message);
            && |line| == |message| + 5 && line[5..] == message
            && Parse(line + TERMINATOR + rest, p) == ParseBody(line, TERMINATOR + rest, status, p)
  {
    var line, tail := Header(status, message), TERMINATOR + rest;
    HeaderIsOneLine(status, message);
    LineEnds(line, rest);
    Associative(line, TERMINATOR, rest);
    HeaderShape(status, message, tail);
    CodeReads(status, line + tail);
    ParseFrom(line + tail, |line|, status, p);
  }

  /** A response on one line comes back as it was, whatever follows it. */
  lemma LineRoundTrip(status: nat, message: Bytes, rest: Bytes, p: SizeParser)
    requires status < 1000 && OneLine(message)
    requires status != OK_MULTILINE_RESPONSE && status != OK_BINARY_RESPONSE
    ensures Parse(Header(status, message) + TERMINATOR + rest, p)
            == Packet(Response(status, message, message), |message| + 7)
  {
    ParseEncoded(status, message, rest, p);
  }

  /** The terminator first occurs at its own place, counting the end of the status line as a place where
      it might begin. */
  ghost predicate TerminatedAtEnd(body: Bytes)
  {
    Find(TERMINATOR + body + MULTILINE_TERMINATOR, MULTILINE_TERMINATOR, 0) == Some(|body| + 2)
  }

  /** A multiline response comes back as it was exactly when the terminator first occurs at its end. */
  lemma MultilineRoundTripIff(message: Bytes, body: Bytes, rest: Bytes, p: SizeParser)
    requires OneLine(message)
    ensures Parse(Header(OK_MULTILINE_RESPONSE, message) + TERMINATOR + (body + MULTILINE_TERMINATOR + rest), p)
            == Packet(Response(OK_MULTILINE_RESPONSE, message, body), |message| + |body| + 12)
            <==> TerminatedAtEnd(body)
  {
    var tail := body + MULTILINE_TERMINATOR + rest;
    ParseEncoded(OK_MULTILINE_RESPONSE, message, tail, p);
    assert (TERMINATOR + tail)[2..] == tail;
    FirstTerminator(body, rest);
    assert tail[..|body|] == body;
  }

  /** A body that is a lone dot ends in the middle of what should end it. */
  lemma LoneDotEndsEarly()
    ensures !TerminatedAtEnd([DOT])
  {
    var own := TERMINATOR + [DOT] + MULTILINE_TERMINATOR;
    assert own[0..5] == MULTILINE_TERMINATOR;
    FindIs(own, MULTILINE_TERMINATOR, 0, 0);
  }

  lemma FirstTerminator(body: Bytes, rest: Bytes)
    ensures var tail := body + MULTILINE_TERMINATOR + rest;
            && Find(tail, MULTILINE_TERMINATOR, 0).Some?
            && (TerminatedAtEnd(body) <==> !At(TERMINATOR + tail, MULTILINE_TERMINATOR, 0)
                                           && Find(tail, MULTILINE_TERMINATOR, 0) == Some(|body|))
  {
    var own := TERMINATOR + body + MULTILINE_TERMINATOR;
    var tail := body + MULTILINE_TERMINATOR + rest;
    var all := TERMINATOR + tail;
    assert all == own + rest;
    assert own[|body| + 2..|body| + 7] == MULTILINE_TERMINATOR;
    assert At(own, MULTILINE_TERMINATOR, |body| + 2);
    FindExtends(own, rest, MULTILINE_TERMINATOR, 0);
    assert tail[|body|..|body| + 5] == MULTILINE_TERMINATOR;
    assert At(tail, MULTILINE_TERMINATOR, |body|);
    FindAfterLine(tail);
  }

  /** A multiline terminator cannot begin at the second byte of a line end. */
  lemma FindAfterLine(tail: Bytes)
    requires Find(tail, MULTILINE_TERMINATOR, 0).Some?
    ensures var all := TERMINATOR + tail;
            Find(all, MULTILINE_TERMINATOR, 0) ==
            if At(all, MULTILINE_TERMINATOR, 0) then Some(0) else Some(Find(tail, MULTILINE_TERMINATOR, 0).value + 2)
  {
    var all := TERMINATOR + tail;
    var k := Find(tail, MULTILINE_TERMINATOR, 0).value;
    if At(all, MULTILINE_TERMINATOR, 0) {
      FindIs(all, MULTILINE_TERMINATOR, 0, 0);
    } else {
      forall j: nat | j < k + 2
        ensures !At(all, MULTILINE_TERMINATOR, j)
      {
        if j == 1 { assert all[1] == LF; }
        if j >= 2 { ShiftedAt(tail, j - 2); }
      }
      ShiftedAt(tail, k);
      FindIs(all, MULTILINE_TERMINATOR, 0, k + 2);
    }
  }

  lemma ShiftedAt(tail: Bytes, i: nat)
    ensures At(TERMINATOR + tail, MULTILINE_TERMINATOR, i + 2) <==> At(tail, MULTILINE_TERMINATOR, i)
  {
    if i + 5 <= |tail| { assert (TERMINATOR + tail)[i + 2..i + 7] == tail[i..i + 5]; }
  }

  /** An empty multiline response may share the end of its status line with the terminator. */
  lemma EmptyMultilineRoundTrip(message: Bytes, rest: Bytes, p: SizeParser)
    requires OneLine(message)
    ensures Parse(Header(OK_MULTILINE_RESPONSE, message) + TERMINATOR + ([DOT, CR, LF] + rest), p)
            == Packet(Response(OK_MULTILINE_RESPONSE, message, []), |message| + 10)
  {
    ParseEncoded(OK_MULTILINE_RESPONSE, message, [DOT, CR, LF] + rest, p);
    assert (TERMINATOR + ([DOT, CR, LF] + rest))[..5] == MULTILINE_TERMINATOR;
  }

  /** What a request's size parser needs in front of the data. */
  ghost predicate Announces(p: SizeParser, prefix: Bytes, data: Bytes)
  {
    ParseSize(p, prefix + data) == Some((|data|, |prefix|))
  }

  lemma BinaryParses(prefix: Bytes, data: Bytes, rest: Bytes, p: SizeParser)
    requires Announces(p, prefix, data) && |prefix + data + rest| < TWO_32
    ensures ParseBinary(prefix + data + rest, p) == Some((data, |prefix| + |data|))
  {
    var body := prefix + data + rest;
    SizeExtends(p, prefix + data, rest);
    assert body == (prefix + data) + rest;
    assert body[|prefix|..|prefix| + |data|] == data;
  }

  /** Binary data comes back as it was; the message does not. */
  lemma BinaryRoundTrip(message: Bytes, prefix: Bytes, data: Bytes, rest: Bytes, p: SizeParser)
    requires OneLine(message) && Announces(p, prefix, data) && |prefix + data + rest| < TWO_32
    ensures Parse(Header(OK_BINARY_RESPONSE, message) + TERMINATOR + (prefix + data + rest), p)
            == Packet(Response(OK_BINARY_RESPONSE, [], data), |message| + 7 + |prefix| + |data|)
  {
    var body := prefix + data + rest;
    ParseEncoded(OK_BINARY_RESPONSE, message, body, p);
    BinaryParses(prefix, data, rest, p);
    assert (TERMINATOR + body)[2..] == body;
  }

  lemma FixedAnnounces(n: u32, data: Bytes)
    ensures Announces(Fixed(n), [], data) <==> |data| == n
  {
    assert [] + data == data;
  }

  lemma PrefixAnnounces(prefix: Bytes, data: Bytes)
    requires |prefix| == 4
    ensures Announces(Int32Prefix, prefix, data) <==> LittleEndian(prefix) == |data|
  {
    assert (prefix + data)[..4] == prefix;
  }

  lemma LineAnnounces(line: Bytes, data: Bytes, size_of: Bytes -> u32)
    requires OneLine(line) && |line| + |data| >= 2
    ensures Announces(Line(size_of), line + TERMINATOR, data) <==> size_of(line) == |data|
  {
    LineEnds(line, data);
    assert (line + TERMINATOR + data)[..|line|] == line;
  }
}
