/** How a shell line falls into arguments: bare words, quoted strings and parenthesized expressions. */
module ArgTokens {
  import opened Common

  datatype ArgType = Basic | Parenthesized | Quoted

  datatype Argument = Argument(value: string, kind: ArgType)

  /** The token being collected. `strip` says whether the outermost parentheses are being dropped. */
  datatype State = State(token: string, quote: bool, depth: nat, strip: bool, dirty: bool, kind: ArgType)

  const START := State("", false, 0, false, false, Basic)

  predicate IsBlank(c: char) { c == ' ' || c == '\t' }

  /** Whether a blank would end the token here. */
  predicate Plain(s: State) { !s.quote && s.depth == 0 }

  function Append(s: State, c: char): State { s.(token := s.token + [c]) }

  /** A flushed token leaves nothing behind but the memory of the last parenthesis. */
  function Cleared(s: State): State
  {
    if s.dirty then State("", s.quote, s.depth, s.strip, false, Basic) else s
  }

  /** What one character does to the token, unless it ends it or is part of an escape. */
  function Step(s: State, c: char): State
  {
    if s.quote then
      if c == '"' then s.(quote := false) else Append(s, c)
    else if s.depth > 0 then
      if c == '(' then Append(s, c).(depth := s.depth + 1)
      else if c == ')' then
        var s' := s.(depth := s.depth - 1);
        if s'.depth > 0 || !s.strip then Append(s', c) else s'
      else Append(s, c)
    else if c == '"' then
      if s.token == "" then s.(quote := true, dirty := true, kind := Quoted) else Append(s, c).(dirty := true)
    else if c == '(' then
      var s' := s.(depth := 1, dirty := true, kind := Parenthesized);
      if s.token == "" then s'.(strip := true) else Append(s', c).(strip := false)
    else Append(s, c).(dirty := true)
  }

  predicate Escape(s: State, input: string)
  {
    s.quote && |input| > 1 && input[0] == '\\' && input[1] == '"'
  }

  predicate Ends(s: State, c: char) { Plain(s) && IsBlank(c) }

  function Before(s: State, rest: seq<Argument>): seq<Argument>
  {
    if s.dirty then [Argument(s.token, s.kind)] + rest else rest
  }

  /** The arguments of the rest of a line. */
  function Scan(s: State, input: string): seq<Argument>
    decreases |input|
  {
    if input == "" then Before(s, [])
    else if Escape(s, input) then Scan(Append(s, '"'), input[2..])
    else if Ends(s, input[0]) then Before(s, Scan(Cleared(s), input[1..]))
    else Scan(Step(s, input[0]), input[1..])
  }

  method Tokenize(input: string) returns (args: seq<Argument>)
    ensures args == Scan(START, input)
  {
    args := [];
    var s := START;
    var i := 0;
    while i < |input|
      invariant 0 <= i <= |input|
      invariant args + Scan(s, input[i..]) == Scan(START, input)
    {
      var c := input[i];
      ghost var rest := input[i..];
      assert rest[1..] == input[i + 1..];
      if s.quote && c == '\\' && i + 1 < |input| && input[i + 1] == '"' {
        assert rest[2..] == input[i + 2..];
        s := Append(s, '"');
        i := i + 1;
      } else if Ends(s, c) {
        if s.dirty { args := args + [Argument(s.token, s.kind)]; }
        s := Cleared(s);
      } else {
        s := Step(s, c);
      }
      i := i + 1;
    }
    if s.dirty { args := args + [Argument(s.token, s.kind)]; }
  }

  // ---------------------------------------------------------------- tokens only grow

  lemma Unfold(s: State, input: string)
    requires input != "" && !Escape(s, input) && !Ends(s, input[0])
    ensures Scan(s, input) == Scan(Step(s, input[0]), input[1..])
  {
  }

  /** The token at hand is a prefix of the next argument. */
  lemma {:induction false} FirstGrows(s: State, input: string)
    requires s.dirty
    ensures var r := Scan(s, input); r != [] && s.token <= r[0].value
    decreases |input|
  {
    if input != "" {
      if Escape(s, input) { FirstGrows(Append(s, '"'), input[2..]); }
      else if !Ends(s, input[0]) { FirstGrows(Step(s, input[0]), input[1..]); }
    }
  }

  // ---------------------------------------------------------------- canonical arguments

  predicate PlainWord(v: string) { forall c | c in v :: !IsBlank(c) && c != '(' }

  /** What a bare word must look like to be read as one. */
  predicate Bare(v: string) { v != "" && v[0] != '"' && PlainWord(v) }

  /** The nesting after `s`, if it never closes what it did not open. */
  function Level(s: string, depth: nat): (r: int)
    requires depth >= 1
    ensures r == 0 || r >= 1
  {
    if s == "" then depth
    else if s[0] == '(' then Level(s[1..], depth + 1)
    else if s[0] == ')' then if depth == 1 then 0 else Level(s[1..], depth - 1)
    else Level(s[1..], depth)
  }

  predicate Balanced(s: string) { Level(s, 1) == 1 }

  predicate Closing(s: string) { forall i | 0 <= i < |s| :: s[i] == ')' }

  ghost predicate Canonical(a: Argument)
  {
    match a.kind
    case Basic => Bare(a.value)
    case Quoted => a.value == "" || a.value[|a.value| - 1] != '\\'
    case Parenthesized => exists k | 0 <= k <= |a.value| :: Balanced(a.value[..k]) && Closing(a.value[k..])
  }

  // ---------------------------------------------------------------- bare words

  /** What every bare word being collected looks like. */
  ghost predicate WordSoFar(s: State)
  {
    s.kind == Basic ==> Plain(s) && PlainWord(s.token) && (s.token != "" ==>
        s.token[0] != '"') && (s.dirty <==> s.token != "")
  }

  ghost predicate WordsBare(r: seq<Argument>)
  {
    forall a | a in r && a.kind == Basic :: Bare(a.value)
  }

  lemma StepKeepsWord(s: State, c: char)
    requires WordSoFar(s) && !Ends(s, c)
    ensures WordSoFar(Step(s, c))
  {
    if s.kind == Basic && c != '(' && !(c == '"' && s.token == "") {
      var t := s.token + [c];
      assert forall x | x in t :: x in s.token || x == c;
    }
  }

  /** Every bare word read from any line is a word that can be written back bare. */
  lemma {:induction false} ScanYieldsBareWords(s: State, input: string)
    requires WordSoFar(s)
    ensures WordsBare(Scan(s, input))
    decreases |input|
  {
    if input != "" {
      if Escape(s, input) {
        ScanYieldsBareWords(Append(s, '"'), input[2..]);
      } else if Ends(s, input[0]) {
        ScanYieldsBareWords(Cleared(s), input[1..]);
      } else {
        StepKeepsWord(s, input[0]);
        ScanYieldsBareWords(Step(s, input[0]), input[1..]);
      }
    }
  }

  /** A bare word is collected whole. */
  lemma {:induction false} ScanWord(s: State, v: string, tail: string)
    requires Plain(s) && PlainWord(v) && (s.token == "" ==> v != "" && v[0] != '"')
    ensures v != "" ==> Scan(s, v + tail) == Scan(s.(token := s.token + v, dirty := true), tail)
    decreases |v|
  {
    if v != "" {
      var input := v + tail;
      assert input[0] == v[0] && input[1..] == v[1..] + tail;
      assert v[0] in v;
      Unfold(s, input);
      var s' := Step(s, v[0]);
      assert s' == s.(token := s.token + [v[0]], dirty := true);
      assert s.token + v == s'.token + v[1..];
      if v[1..] == "" { assert v[1..] + tail == tail && s'.token + v[1..] == s'.token; }
      else { ScanWord(s', v[1..], tail); }
    }
  }

  // ---------------------------------------------------------------- quoted strings

  function EscapedChar(c: char): string { if c == '"' then ['\\', '"'] else [c] }

  function Escaped(v: string): string
  {
    if v == "" then "" else EscapedChar(v[0]) + Escaped(v[1..])
  }

  lemma {:induction false} EscapedSplits(v: string, w: string)
    ensures Escaped(v + w) == Escaped(v) + Escaped(w)
  {
    if v == "" {
      assert v + w == w;
    } else {
      EscapedSplits(v[1..], w);
      assert (v + w)[0] == v[0] && (v + w)[1..] == v[1..] + w;
      Associative(EscapedChar(v[0]), Escaped(v[1..]), Escaped(w));
    }
  }

  /** Inside quotes an escaped string is collected whole, unless a backslash at its end meets a quote. */
  lemma {:induction false} ScanEscaped(s: State, v: string, tail: string)
    requires s.quote && tail != ""
    requires v != "" && v[|v| - 1] == '\\' ==> tail[0] != '"'
    ensures Scan(s, Escaped(v) + tail) == Scan(s.(token := s.token + v), tail)
    decreases |v|
  {
    if v == "" {
      assert Escaped(v) + tail == tail && s.token + v == s.token;
    } else {
      var c, rest := v[0], Escaped(v[1..]) + tail;
      var input := Escaped(v) + tail;
      assert s.token + v == (s.token + [c]) + v[1..];
      Associative(EscapedChar(c), Escaped(v[1..]), tail);
      assert input == EscapedChar(c) + rest;
      if c == '"' {
        assert input[2..] == rest;
      } else {
        assert input[1..] == rest;
        if v[1..] == "" { assert rest == tail; }
        assert !Escape(s, input);
        Unfold(s, input);
      }
      ScanEscaped(Append(s, c), v[1..], tail);
    }
  }

  // ---------------------------------------------------------------- parentheses

  /** Inside parentheses everything is collected, as long as the outermost ones stay open. */
  lemma {:induction false} ScanNested(s: State, b: string, tail: string)
    requires !s.quote && s.depth >= 1 && Level(b, s.depth) >= 1
    ensures Scan(s, b + tail) == Scan(s.(token := s.token + b, depth := Level(b, s.depth)), tail)
    decreases |b|
  {
    if b == "" {
      assert b + tail == tail && s.token + b == s.token;
    } else {
      var input := b + tail;
      assert input[0] == b[0] && input[1..] == b[1..] + tail;
      Unfold(s, input);
      var s' := Step(s, b[0]);
      assert s'.token == s.token + [b[0]];
      ScanNested(s', b[1..], tail);
      assert s'.token + b[1..] == s.token + b;
    }
  }

  /** Outside parentheses a closing one is a letter like any other. */
  lemma {:induction false} ScanClosing(s: State, k: string, tail: string)
    requires Plain(s) && s.dirty && Closing(k)
    ensures Scan(s, k + tail) == Scan(s.(token := s.token + k), tail)
    decreases |k|
  {
    if k == "" {
      assert k + tail == tail && s.token + k == s.token;
    } else {
      var input := k + tail;
      assert input[0] == k[0] && input[1..] == k[1..] + tail;
      Unfold(s, input);
      ScanClosing(Append(s, ')'), k[1..], tail);
      assert (s.token + [')']) + k[1..] == s.token + k;
    }
  }
}
