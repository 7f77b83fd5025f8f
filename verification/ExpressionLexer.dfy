/** The tokenizer of the expression language, and the round trip through printed tokens. */
module ExpressionLexer {
  import opened Common
  import opened ExpressionGrammar

  datatype Class = Digit | HexDigit | Alpha

  predicate In(cls: Class, c: char)
  {
    match cls
    case Digit => '0' <= c <= '9'
    case HexDigit => '0' <= c <= '9' || 'a' <= c <= 'f' || 'A' <= c <= 'F'
    case Alpha => 'a' <= c <= 'z' || 'A' <= c <= 'Z'
  }

  predicate IsSpace(c: char)
  {
    c == ' ' || 9 <= c as int <= 13
  }

  /** Length of the longest prefix of characters of one class. */
  function Run(s: string, cls: Class): (n: nat)
    ensures n <= |s|
  {
    if s == [] || !In(cls, s[0]) then 0 else 1 + Run(s[1..], cls)
  }

  function DigitValue(c: char): nat
  {
    if '0' <= c <= '9' then c as int - '0' as int
    else if 'a' <= c <= 'f' then c as int - 'a' as int + 10
    else if 'A' <= c <= 'F' then c as int - 'A' as int + 10
    else 0
  }

  function Value(s: string, hex: bool): nat
  {
    if s == [] then 0
    else
      var high := Value(s[..|s| - 1], hex);
      (if hex then 16 * high else 10 * high) + DigitValue(s[|s| - 1])
  }

  /** `std::stoul` of a 64-bit host, cut down to 32 bits by the assignment. */
  function Number(s: string, hex: bool): Result<Token>
  {
    var v := Value(s, hex);
    if v >= 0x1_0000_0000_0000_0000 then Err else Ok(Int(v % TWO_32))
  }

  datatype Scanned = Bad | Good(token: Token, length: nat)

  /** `second` turns the one-character operator into the two-character one. */
  function Two(s: string, second: char, double: Token, single: Scanned): Scanned
  {
    if |s| > 1 && s[1] == second then Good(double, 2) else single
  }

  function Numeral(s: string, from: nat, n: nat, hex: bool): (r: Scanned)
    requires from + n <= |s|
    ensures r.Good? ==> r.length == from + n && n > 0
  {
    var t := Number(s[from..from + n], hex);
    if n == 0 || t.Err? then Bad else Good(t.value, from + n)
  }

  function Variable(s: string, n: nat): (r: Scanned)
    requires 1 + n <= |s|
    ensures r.Good? ==> r.length == 1 + n
  {
    if n == 0 then Bad else Good(Register(s[1..1 + n]), 1 + n)
  }

  predicate HexPrefix(s: string)
  {
    |s| > 1 && s[0] == '0' && (s[1] == 'x' || s[1] == 'X')
  }

  /** The token at the front of `s`, which does not start with a space. */
  function Scan(s: string): (r: Scanned)
    requires s != [] && !IsSpace(s[0])
    ensures r.Good? ==> 0 < r.length <= |s|
  {
    if HexPrefix(s) then Numeral(s, 2, Run(s[2..], HexDigit), true)
    else if In(Digit, s[0]) then Numeral(s, 0, Run(s, Digit), false)
    else if s[0] == '$' then Variable(s, Run(s[1..], Alpha))
    else if In(Alpha, s[0]) then Word(Lower(s[..Run(s, Alpha)]), Run(s, Alpha))
    else Symbol(s)
  }

  function Word(literal: string, n: nat): (r: Scanned)
    ensures r.Good? ==> r.length == n
  {
    if literal == "tid" then Good(Identifier(literal), n)
    else if literal == "and" then Good(Operator(And), n)
    else if literal == "or" then Good(Operator(Or), n)
    else Bad
  }

  function Symbol(s: string): (r: Scanned)
    requires s != []
    ensures r.Good? ==> 0 < r.length <= |s|
  {
    match s[0]
    case '+' => Good(Operator(Plus), 1)
    case '-' => Good(Operator(Minus), 1)
    case '*' => Good(Operator(Asterisk), 1)
    case '(' => Good(LParen, 1)
    case ')' => Good(RParen, 1)
    case '[' => Good(LBracket, 1)
    case ']' => Good(RBracket, 1)
    case ',' => Good(Comma, 1)
    case '@' => Good(At, 1)
    case '=' => Two(s, '=', Operator(Eq), Bad)
    case '!' => Two(s, '=', Operator(NotEq), Bad)
    case '<' => Two(s, '=', Operator(Lte), Good(Operator(Lt), 1))
    case '>' => Two(s, '=', Operator(Gte), Good(Operator(Gt), 1))
    case '&' => Two(s, '&', Operator(And), Bad)
    case '|' => Two(s, '|', Operator(Or), Bad)
    case _ => Bad
  }

  /** The token list of a whole text, closed by an end-of-file token. */
  function Lex(s: string): Result<seq<Token>>
    decreases |s|
  {
    if s == [] then Ok([EndOfFile])
    else if IsSpace(s[0]) then Lex(s[1..])
    else
      var t := Scan(s);
      if t.Bad? then Err
      else Prepend([t.token], Lex(s[t.length..]))
  }

  function Prepend(front: seq<Token>, r: Result<seq<Token>>): Result<seq<Token>>
  {
    if r.Err? then Err else Ok(front + r.value)
  }

  lemma PrependTwice(a: seq<Token>, b: seq<Token>, r: Result<seq<Token>>)
    ensures Prepend(a + b, r) == Prepend(a, Prepend(b, r))
  {
    if r.Ok? { assert (a + b) + r.value == a + (b + r.value); }
  }

  // ---------------------------------------------------------------- the loops

  method ScanRun(expr: string, start: nat, cls: Class) returns (i: nat)
    requires start <= |expr|
    ensures i == start + Run(expr[start..], cls)
  {
    i := start;
    while i < |expr| && In(cls, expr[i])
      invariant start <= i <= |expr|
      invariant start + Run(expr[start..], cls) == i + Run(expr[i..], cls)
    {
      assert expr[i..][1..] == expr[i + 1..];
      i := i + 1;
    }
  }

  /** The literal starting at index `start`: hexadecimal, decimal, register, word or symbol. */
  method ScanAt(expr: string, start: nat) returns (r: Scanned)
    requires start < |expr| && !IsSpace(expr[start])
    ensures r == Scan(expr[start..]) && (r.Good? ==> 0 < r.length <= |expr| - start)
  {
    var c := expr[start];
    var s := expr[start..];
    if c == '0' && start + 1 < |expr| && (expr[start + 1] == 'x' || expr[start + 1] == 'X') {
      assert expr[start + 2..] == s[2..];
      var i := ScanRun(expr, start + 2, HexDigit);
      return Numeral(s, 2, i - start - 2, true);
    }
    if In(Digit, c) {
      var i := ScanRun(expr, start, Digit);
      return Numeral(s, 0, i - start, false);
    }
    if c == '$' {
      assert expr[start + 1..] == s[1..];
      var i := ScanRun(expr, start + 1, Alpha);
      return Variable(s, i - start - 1);
    }
    if In(Alpha, c) {
      var i := ScanRun(expr, start, Alpha);
      return Word(Lower(s[..i - start]), i - start);
    }
    return Symbol(s);
  }

  lemma LexStep(expr: string, i: nat, t: Scanned, ok: bool, read: seq<Token>, end: nat)
      returns (rest: Result<seq<Token>>)
    requires i < |expr| && !IsSpace(expr[i]) && t == Scan(expr[i..]) && ok == t.Good?
    requires ok ==> read == [t.token] && end == i + t.length
    ensures ok ==> i < end <= |expr| && rest == Lex(expr[end..])
    ensures Lex(expr[i..]) == if ok then Prepend(read, rest) else Err
  {
    rest := Err;
    if ok {
      assert expr[i..][t.length..] == expr[end..];
      rest := Lex(expr[end..]);
    }
  }

  /** A space or one token, and what the text after it amounts to. */
  method TokenAt(expr: string, i: nat) returns (ok: bool, read: seq<Token>, end: nat, ghost rest: Result<seq<Token>>)
    requires i < |expr|
    ensures ok ==> i < end <= |expr| && rest == Lex(expr[end..])
    ensures Lex(expr[i..]) == if ok then Prepend(read, rest) else Err
  {
    if IsSpace(expr[i]) {
      rest := SpaceStep(expr, i);
      ok, read, end := true, [], i + 1;
    } else {
      ok, read, end, rest := WordAt(expr, i);
    }
  }

  lemma SpaceStep(expr: string, i: nat) returns (rest: Result<seq<Token>>)
    requires i < |expr| && IsSpace(expr[i])
    ensures rest == Lex(expr[i + 1..]) && Lex(expr[i..]) == Prepend([], rest)
  {
    assert expr[i..][1..] == expr[i + 1..];
    rest := Lex(expr[i + 1..]);
    PrependNothing(rest);
  }

  method WordAt(expr: string, i: nat) returns (ok: bool, read: seq<Token>, end: nat, ghost rest: Result<seq<Token>>)
    requires i < |expr| && !IsSpace(expr[i])
    ensures ok ==> i < end <= |expr| && rest == Lex(expr[end..])
    ensures Lex(expr[i..]) == if ok then Prepend(read, rest) else Err
  {
    var t := ScanAt(expr, i);
    ok, read, end := t.Good?, [], i;
    if ok { read, end := [t.token], i + t.length; }
    rest := LexStep(expr, i, t, ok, read, end);
  }

  lemma PrependNothing(r: Result<seq<Token>>)
    ensures Prepend([], r) == r
  {
    if r.Ok? { assert [] + r.value == r.value; }
  }

  lemma LexWhole(expr: string)
    ensures Lex(expr[0..]) == Prepend([], Lex(expr)) && Lex(expr[|expr|..]) == Ok([EndOfFile])
  {
    assert expr[0..] == expr;
    PrependNothing(Lex(expr));
  }

  method Tokenize(expr: string) returns (r: Result<seq<Token>>)
    ensures r == Lex(expr)
  {
    var tokens: seq<Token> := [];
    var i := 0;
    ghost var all, rest := Lex(expr), Lex(expr[0..]);
    LexWhole(expr);
    PrependNothing(rest);
    while i < |expr|
      invariant 0 <= i <= |expr|
      invariant all == Prepend(tokens, rest) && rest == Lex(expr[i..])
    {
      var ok, read, end;
      ghost var next;
      ok, read, end, next := TokenAt(expr, i);
      if !ok {
        return Err;
      }
      PrependTwice(tokens, read, next);
      tokens, rest, i := tokens + read, next, end;
    }
    return Ok(tokens + [EndOfFile]);
  }

  // ---------------------------------------------------------------- printing

  function Digits(v: nat): string
  {
    if v < 10 then [('0' as int + v) as char]
    else Digits(v / 10) + [('0' as int + v % 10) as char]
  }

  function OpText(op: Op): string
  {
    match op
    case Or => "||" case And => "&&" case Eq => "==" case NotEq => "!="
    case Lt => "<" case Gt => ">" case Lte => "<=" case Gte => ">="
    case Plus => "+" case Minus => "-" case Asterisk => "*"
  }

  function Text(t: Token): string
  {
    match t
    case EndOfFile => ""
    case Identifier(s) => s
    case Int(v) => Digits(v)
    case Register(s) => "$" + s
    case Operator(op) => OpText(op)
    case At => "@" case LParen => "(" case RParen => ")" case Comma => ","
    case LBracket => "[" case RBracket => "]"
  }

  /** Every token that can be written down: `tid` is the only name, and registers are words. */
  predicate Writable(t: Token)
  {
    match t
    case EndOfFile => false
    case Identifier(s) => s == "tid"
    case Register(s) => s != [] && forall i | 0 <= i < |s| :: In(Alpha, s[i])
    case _ => true
  }

  function Print(toks: seq<Token>): string
  {
    if toks == [] then "" else Text(toks[0]) + " " + Print(toks[1..])
  }

  lemma {:induction false} DigitsValue(v: nat)
    ensures Digits(v) != [] && Value(Digits(v), false) == v
    ensures forall i | 0 <= i < |Digits(v)| :: In(Digit, Digits(v)[i])
  {
    if v >= 10 {
      DigitsValue(v / 10);
      var d := ('0' as int + v % 10) as char;
      assert Digits(v)[..|Digits(v)| - 1] == Digits(v / 10);
      assert DigitValue(d) == v % 10;
    } else {
      assert Digits(v)[..0] == "";
    }
  }

  /** A run of one class ends where the class ends. */
  lemma {:induction false} RunStops(word: string, rest: string, cls: Class)
    requires forall i | 0 <= i < |word| :: In(cls, word[i])
    requires rest != [] && !In(cls, rest[0])
    ensures Run(word + rest, cls) == |word|
  {
    if word != [] {
      assert (word + rest)[1..] == word[1..] + rest;
      RunStops(word[1..], rest, cls);
    } else {
      assert word + rest == rest;
    }
  }

  /** A printed token followed by a space is scanned back. */
  lemma ScanText(t: Token, rest: string)
    requires Writable(t)
    ensures var s := Text(t) + (" " + rest);
            && !IsSpace(s[0])
            && Scan(s) == Good(t, |Text(t)|)
  {
    match t
    case Int(v) => ScanInt(v, rest);
    case Identifier(_) => ScanTid(rest);
    case Register(name) => ScanRegister(name, rest);
    case Operator(op) => ScanOperator(op, rest);
    case EndOfFile =>
    case _ =>
      var s := Text(t) + (" " + rest);
      assert |Text(t)| == 1 && s[0] == Text(t)[0];
  }

  lemma ScanInt(v: u32, rest: string)
    ensures var s := Digits(v) + (" " + rest);
            !IsSpace(s[0]) && Scan(s) == Good(Int(v), |Digits(v)|)
  {
    DigitsValue(v);
    NumberOf(Digits(v), v);
    ScanDigits(Digits(v), Int(v), rest);
  }

  lemma NumberOf(d: string, v: u32)
    requires Value(d, false) == v
    ensures Number(d, false) == Ok(Int(v))
  {
  }

  lemma ScanDigits(d: string, t: Token, rest: string)
    requires d != [] && Number(d, false) == Ok(t)
    requires forall i | 0 <= i < |d| :: In(Digit, d[i])
    ensures var s := d + (" " + rest);
            !IsSpace(s[0]) && Scan(s) == Good(t, |d|)
  {
    var s := d + (" " + rest);
    RunStops(d, " " + rest, Digit);
    assert s[0] == d[0] && In(Digit, d[0]);
    assert s[1] == if |d| > 1 then d[1] else ' ';
    assert !HexPrefix(s);
    NumeralOf(s, d, t);
  }

  lemma NumeralOf(s: string, d: string, t: Token)
    requires d <= s && d != [] && Number(d, false) == Ok(t)
    ensures Numeral(s, 0, |d|, false) == Good(t, |d|)
  {
    assert s[0..0 + |d|] == d;
  }

  lemma ScanTid(rest: string)
    ensures Scan("tid" + (" " + rest)) == Good(Identifier("tid"), 3)
  {
    var s := "tid" + (" " + rest);
    RunStops("tid", " " + rest, Alpha);
    assert s[..3] == "tid" && Lower("tid") == "tid";
  }

  lemma ScanRegister(name: string, rest: string)
    requires name != [] && forall i | 0 <= i < |name| :: In(Alpha, name[i])
    ensures Scan("$" + name + (" " + rest)) == Good(Register(name), 1 + |name|)
  {
    var s := "$" + name + (" " + rest);
    assert s[0] == '$';
    assert s[1..] == name + (" " + rest);
    RunStops(name, " " + rest, Alpha);
    assert s[1..1 + |name|] == name;
  }

  lemma ScanOperator(op: Op, rest: string)
    ensures Scan(OpText(op) + (" " + rest)) == Good(Operator(op), |OpText(op)|)
  {
    var s := OpText(op) + (" " + rest);
    assert s[0] == OpText(op)[0];
    assert s[1] == if |OpText(op)| == 2 then OpText(op)[1] else ' ';
  }

  /** Printing a list of writable tokens and tokenizing the text gives the list back. */
  lemma {:induction false} LexPrint(toks: seq<Token>)
    requires forall i | 0 <= i < |toks| :: Writable(toks[i])
    ensures Lex(Print(toks)) == Ok(toks + [EndOfFile])
  {
    if toks == [] {
      assert toks + [EndOfFile] == [EndOfFile];
    } else {
      LexPrint(toks[1..]);
      LexOne(toks[0], Print(toks[1..]));
      assert Print(toks) == Text(toks[0]) + (" " + Print(toks[1..]));
      assert [toks[0]] + (toks[1..] + [EndOfFile]) == toks + [EndOfFile];
    }
  }

  lemma LexOne(t: Token, rest: string)
    requires Writable(t)
    ensures Lex(Text(t) + (" " + rest)) == Prepend([t], Lex(rest))
  {
    var s := Text(t) + (" " + rest);
    ScanText(t, rest);
    assert s[|Text(t)|..] == " " + rest;
    assert (" " + rest)[1..] == rest;
  }

  // ---------------------------------------------------------------- spelling

  lemma Alone(s: string, t: Token)
    requires s != [] && !IsSpace(s[0]) && Scan(s) == Good(t, |s|)
    ensures Lex(s) == Ok([t, EndOfFile])
  {
    assert s[|s|..] == "";
    assert [t] + [EndOfFile] == [t, EndOfFile];
  }

  /** How the operators are written. */
  lemma OperatorSpelling(s: string, op: Op)
    requires (s, op) in {("+", Plus), ("-", Minus), ("*", Asterisk), ("<", Lt), ("<=", Lte), (">", Gt), (">=", Gte),
                         ("==", Eq), ("!=", NotEq), ("&&", And), ("||", Or)}
    ensures Lex(s) == Ok([Operator(op), EndOfFile])
  {
    assert Symbol(s) == Good(Operator(op), |s|);
    Alone(s, Operator(op));
  }

  /** How the marks are written. */
  lemma MarkSpelling(s: string, t: Token)
    requires (s, t) in {("(", LParen), (")", RParen), ("[", LBracket), ("]", RBracket), (",", Comma), ("@", At)}
    ensures Lex(s) == Ok([t, EndOfFile])
  {
    assert Symbol(s) == Good(t, |s|);
    Alone(s, t);
  }

  /** How the words are written, in either case. */
  lemma WordSpelling(s: string, t: Token)
    requires (Lower(s), t) in {("and", Operator(And)), ("or", Operator(Or)), ("tid", Identifier("tid"))}
    requires forall i | 0 <= i < |s| :: In(Alpha, s[i])
    ensures Lex(s) == Ok([t, EndOfFile])
  {
    WholeRun(s, Alpha);
    assert s[..|s|] == s && s != [] && In(Alpha, s[0]);
    assert Word(Lower(s), |s|) == Good(t, |s|);
    Alone(s, t);
  }

  /** How registers are written. */
  lemma RegisterSpelling(name: string)
    requires name != [] && forall i | 0 <= i < |name| :: In(Alpha, name[i])
    ensures Lex("$" + name) == Ok([Register(name), EndOfFile])
  {
    ScanDollar("$" + name, name);
    Alone("$" + name, Register(name));
  }

  lemma ScanDollar(s: string, name: string)
    requires |s| == 1 + |name| && s[0] == '$' && s[1..] == name && name != []
    requires forall i | 0 <= i < |name| :: In(Alpha, name[i])
    ensures !IsSpace(s[0]) && Scan(s) == Good(Register(name), |s|)
  {
    WholeRun(name, Alpha);
    assert s[1..1 + |name|] == name;
  }

  /** Half an operator is none. */
  lemma HalfOperator(s: string)
    requires s in {"=", "!", "&", "|"}
    ensures Lex(s) == Err
  {
    assert Symbol(s) == Bad;
  }

  // ---------------------------------------------------------------- hexadecimal numbers

  function Hex(v: nat): string
  {
    var d := ["0123456789abcdef"[v % 16]];
    if v < 16 then d else Hex(v / 16) + d
  }

  lemma HexDigitValue(v: nat)
    requires v < 16
    ensures DigitValue("0123456789abcdef"[v]) == DigitValue("0123456789ABCDEF"[v]) == v
    ensures In(HexDigit, "0123456789abcdef"[v]) && In(HexDigit, "0123456789ABCDEF"[v])
  {
  }

  lemma {:induction false} HexValue(v: nat)
    ensures Hex(v) != [] && Value(Hex(v), true) == v
    ensures forall i | 0 <= i < |Hex(v)| :: In(HexDigit, Hex(v)[i])
  {
    HexDigitValue(v % 16);
    if v < 16 {
      assert Hex(v)[..0] == "";
    } else {
      HexValue(v / 16);
      assert Hex(v)[..|Hex(v)| - 1] == Hex(v / 16);
    }
  }

  /** A number written in base sixteen is read back, for all 32-bit values. */
  lemma HexRoundTrip(v: u32)
    ensures Lex("0x" + Hex(v)) == Ok([Int(v), EndOfFile])
  {
    HexValue(v);
    ScanHex("0x" + Hex(v), Hex(v), v);
    Alone("0x" + Hex(v), Int(v));
  }

  lemma ScanHex(s: string, h: string, v: u32)
    requires |s| == 2 + |h| && s[0] == '0' && s[1] == 'x' && s[2..] == h && h != [] && Value(h, true) == v
    requires forall i | 0 <= i < |h| :: In(HexDigit, h[i])
    ensures !IsSpace(s[0]) && Scan(s) == Good(Int(v), |s|)
  {
    WholeRun(h, HexDigit);
    assert s[2..2 + |h|] == h;
    assert Number(h, true) == Ok(Int(v));
  }

  lemma {:induction false} WholeRun(word: string, cls: Class)
    requires forall i | 0 <= i < |word| :: In(cls, word[i])
    ensures Run(word, cls) == |word|
  {
    if word != [] { WholeRun(word[1..], cls); }
  }
}
