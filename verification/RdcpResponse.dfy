/** RDCP responses: a status line, then possibly lines ended by a lone dot, or binary data whose size the
    pending request knows how to find. The decoder looks at whatever has arrived so far. */
module RdcpResponse {
  import opened Common

  const CR: byte := 13
  const LF: byte := 10
  const DOT: byte := 46
  const DASH: byte := 45
  const SPACE: byte := 32
  const TERMINATOR: Bytes := [CR, LF]
  const MULTILINE_TERMINATOR: Bytes := [CR, LF, DOT, CR, LF]

  const OK_MULTILINE_RESPONSE: u32 := 202
  const OK_BINARY_RESPONSE: u32 := 203

  datatype Response = Response(status: u32, message: Bytes, data: Bytes)

  /** `Undefined` is a status line too short to hold a message, from which the decoder copies a negative
      range. */
  datatype Outcome = More | Discard(count: nat) | Packet(response: Response, count: nat) | Undefined

  // ---------------------------------------------------------------- searching

  predicate At(s: Bytes, pattern: Bytes, i: nat)
  {
    i + |pattern| <= |s| && s[i..i + |pattern|] == pattern
  }

  /** The first occurrence of the pattern at or after `i`. */
  function Find(s: Bytes, pattern: Bytes, i: nat): (r: Option<nat>)
    ensures r.Some? ==> i <= r.value && At(s, pattern, r.value)
    ensures forall j | i <= j && (r.Some? ==> j < r.value) :: !At(s, pattern, j)
    decreases |s| - i
  {
    if i + |pattern| > |s| then None
    else if At(s, pattern, i) then Some(i)
    else Find(s, pattern, i + 1)
  }

  lemma FindIs(s: Bytes, pattern: Bytes, i: nat, k: nat)
    requires i <= k && At(s, pattern, k) && forall j | i <= j < k :: !At(s, pattern, j)
    ensures Find(s, pattern, i) == Some(k)
  {
    var r := Find(s, pattern, i);
    assert r.Some?;
    assert r.value == k;
  }

  lemma AtExtends(s: Bytes, ext: Bytes, pattern: Bytes, i: nat)
    requires i + |pattern| <= |s|
    ensures At(s + ext, pattern, i) <==> At(s, pattern, i)
  {
    assert (s + ext)[i..i + |pattern|] == s[i..i + |pattern|];
  }

  lemma FindExtends(s: Bytes, ext: Bytes, pattern: Bytes, i: nat)
    requires Find(s, pattern, i).Some?
    ensures Find(s + ext, pattern, i) == Find(s, pattern, i)
  {
    var k := Find(s, pattern, i).value;
    AtExtends(s, ext, pattern, k);
    forall j | i <= j < k
      ensures !At(s + ext, pattern, j)
    {
      AtExtends(s, ext, pattern, j);
    }
    FindIs(s + ext, pattern, i, k);
  }

  // ---------------------------------------------------------------- the status code

  predicate IsDigit(c: byte) { 48 <= c <= 57 }

  predicate IsBlank(c: byte) { c == SPACE || 9 <= c <= 13 }

  function Digits(s: Bytes, value: nat): nat
  {
    if s == [] || !IsDigit(s[0]) then value else Digits(s[1..], 10 * value + (s[0] - 48))
  }

  /** Decimal conversion in the manner of `strtol`: leading blanks, a sign, then digits. */
  function ToLong(s: Bytes): int
  {
    if s == [] then 0
    else if IsBlank(s[0]) then ToLong(s[1..])
    else if s[0] == DASH then 0 - Digits(s[1..], 0)
    else if s[0] == 43 then Digits(s[1..], 0)
    else Digits(s, 0)
  }

  // ---------------------------------------------------------------- size parsers

  /** How a request finds the size of its binary response: not at all, a size known beforehand, a 32-bit
      prefix, or a descriptive line from which the framebuffer size is read. */
  datatype SizeParser = NoParser | Fixed(size: u32) | Int32Prefix | Line(size_of: Bytes -> u32)

  /** The size and the bytes consumed in finding it, or nothing if more bytes are needed. */
  function ParseSize(p: SizeParser, body: Bytes): (r: Option<(nat, nat)>)
    ensures r.Some? ==> r.value.1 <= |body|
  {
    match p
    case NoParser => None
    case Fixed(n) => Some((n, 0))
    case Int32Prefix => if |body| < 4 then None else Some((LittleEndian(body[..4]), 4))
    case Line(size_of) =>
      if |body| < 4 then None
      else
        var t := Find(body, TERMINATOR, 0);
        if t.None? then None else Some((size_of(body[..t.value]), t.value + 2))
  }

  // ---------------------------------------------------------------- the decoder

  /** The data and the bytes it takes up, or nothing if more bytes are needed. */
  function ParseMultiline(body: Bytes): (r: Option<(Bytes, nat)>)
  {
    var t := Find(body, MULTILINE_TERMINATOR, 0);
    if t.None? then None else Some((body[..t.value], t.value + 5))
  }

  /** Sizes are counted in 32 bits. */
  function Available(body: Bytes): Bytes
  {
    if |body| < TWO_32 then body else body[..|body| % TWO_32]
  }

  function ParseBinary(body: Bytes, p: SizeParser): (r: Option<(Bytes, nat)>)
  {
    var available := Available(body);
    var size := ParseSize(p, available);
    if size.None? then None
    else
      var (n, consumed) := size.value;
      if |available| - consumed < n then None
      else Some((available[consumed..consumed + n], consumed + n))
  }

  function Received(status: u32, message: Bytes, start: nat, body: Option<(Bytes, nat)>): Outcome
  {
    if body.None? then More else Packet(Response(status, message, body.value.0), start + body.value.1)
  }

  function Parse(buffer: Bytes, p: SizeParser): Outcome
  {
    if |buffer| < 4 then More
    else
      var t := Find(buffer, TERMINATOR, 0);
      if t.None? then More
      else if t.value + 2 < 4 || buffer[3] != DASH then Discard(t.value + 2)
      else ParseBody(buffer[..t.value], buffer[t.value..], ToLong(buffer[..3]) % TWO_32, p)
  }

  /** `line` is the status line, `tail` begins with its terminator. */
  function ParseBody(line: Bytes, tail: Bytes, status: u32, p: SizeParser): Outcome
    requires |tail| >= 2
  {
    if status == OK_BINARY_RESPONSE then Received(status, [], |line| + 2, ParseBinary(tail[2..], p))
    else if |line| < 5 then Undefined
    else if status == OK_MULTILINE_RESPONSE then
      if At(tail, MULTILINE_TERMINATOR, 0) then Packet(Response(status, line[5..], []), |line| + 5)
      else Received(status, line[5..], |line| + 2, ParseMultiline(tail[2..]))
    else Packet(Response(status, line[5..], line[5..]), |line| + 2)
  }

  /** A packet never reaches beyond what has arrived. */
  lemma PacketFits(buffer: Bytes, p: SizeParser)
    ensures Parse(buffer, p).Packet? ==> 0 < Parse(buffer, p).count <= |buffer|
  {
    var t := Find(buffer, TERMINATOR, 0);
    if |buffer| >= 4 && t.Some? {
      var tail := buffer[t.value..];
      assert |tail[2..]| == |buffer| - t.value - 2;
    }
  }

  // ---------------------------------------------------------------- prefix stability

  lemma SizeExtends(p: SizeParser, body: Bytes, ext: Bytes)
    requires ParseSize(p, body).Some?
    ensures ParseSize(p, body + ext) == ParseSize(p, body)
  {
    match p
    case Int32Prefix => assert (body + ext)[..4] == body[..4];
    case Line(size_of) =>
      FindExtends(body, ext, TERMINATOR, 0);
      var t := Find(body, TERMINATOR, 0).value;
      assert (body + ext)[..t] == body[..t];
    case _ =>
  }

  lemma BinaryExtends(body: Bytes, ext: Bytes, p: SizeParser)
    requires |body + ext| < TWO_32 && ParseBinary(body, p).Some?
    ensures ParseBinary(body + ext, p) == ParseBinary(body, p)
  {
    SizeExtends(p, body, ext);
    var (n, consumed) := ParseSize(p, body).value;
    assert (body + ext)[consumed..consumed + n] == body[consumed..consumed + n];
  }

  lemma MultilineExtends(body: Bytes, ext: Bytes)
    requires ParseMultiline(body).Some?
    ensures ParseMultiline(body + ext) == ParseMultiline(body)
  {
    FindExtends(body, ext, MULTILINE_TERMINATOR, 0);
    var t := Find(body, MULTILINE_TERMINATOR, 0).value;
    assert (body + ext)[..t] == body[..t];
  }

  lemma BodyExtends(line: Bytes, tail: Bytes, ext: Bytes, status: u32, p: SizeParser)
    requires |tail| >= 2 && |tail + ext| < TWO_32
    requires ParseBody(line, tail, status, p) != More
    ensures ParseBody(line, tail + ext, status, p) == ParseBody(line, tail, status, p)
  {
    assert (tail + ext)[2..] == tail[2..] + ext;
    if status == OK_BINARY_RESPONSE {
      BinaryExtends(tail[2..], ext, p);
    } else if |line| >= 5 && status == OK_MULTILINE_RESPONSE {
      assert |tail| >= 5;
      AtExtends(tail, ext, MULTILINE_TERMINATOR, 0);
      if !At(tail, MULTILINE_TERMINATOR, 0) { MultilineExtends(tail[2..], ext); }
    }
  }

  /** Once the decoder has an answer, no further bytes change it: chunks cannot matter. */
  lemma ParseIsPrefixStable(buffer: Bytes, ext: Bytes, p: SizeParser)
    requires |buffer + ext| < TWO_32
    requires Parse(buffer, p) != More
    ensures Parse(buffer + ext, p) == Parse(buffer, p)
  {
    FindExtends(buffer, ext, TERMINATOR, 0);
    var t := Find(buffer, TERMINATOR, 0).value;
    assert (buffer + ext)[..3] == buffer[..3];
    assert (buffer + ext)[..t] == buffer[..t];
    assert (buffer + ext)[t..] == buffer[t..] + ext;
    if t + 2 >= 4 && buffer[3] == DASH {
      BodyExtends(buffer[..t], buffer[t..], ext, ToLong(buffer[..3]) % TWO_32, p);
    }
  }
}
