/** Whole commands printed and read back: exactly which of them survive. */
module ArgCommand {
  import opened Common
  import opened ArgTokens
  import opened ArgParser

  datatype Command = Command(name: string, arguments: seq<Argument>)

  function Assembled(tokens: seq<Argument>): Command
  {
    if tokens == [] then Command("", []) else Command(Lower(tokens[0].value), tokens[1..])
  }

  method Parse(line: string) returns (c: Command)
    ensures c == Assembled(Scan(START, line))
  {
    var tokens := Tokenize(line);
    c := Command("", []);
    if |tokens| > 0 {
      c := Command(Lower(tokens[0].value), []);
      if |tokens| > 1 { c := c.(arguments := tokens[1..]); }
    }
  }

  // ---------------------------------------------------------------- names

  /** The nesting after `s` begun at some depth, or -1 if a blank stands outside parentheses. */
  function Nest(s: string, depth: nat): (r: int)
    ensures r >= -1
  {
    if s == "" then depth
    else if depth > 0 then Nest(s[1..], if s[0] == '(' then depth + 1 else if s[0] == ')' then depth - 1 else depth)
    else if IsBlank(s[0]) then -1
    else Nest(s[1..], if s[0] == '(' then 1 else 0)
  }

  /** The name is collected whole: it does not begin like another kind of argument, and no blank ends it. */
  predicate Solid(name: string)
  {
    name != "" && name[0] != '"' && name[0] != '(' && Nest(name, 0) >= 0
  }

  /** Parentheses that stay open swallow the arguments, if there are any. */
  predicate Readable(c: Command)
  {
    if c.name == "" then c.arguments == []
    else Solid(c.name) && (c.arguments == [] || Nest(c.name, 0) == 0) && Lower(c.name) == c.name
  }

  // ---------------------------------------------------------------- scanning up to a separator

  /** The arguments finished within a text, and the token at hand at its end. */
  function Inside(s: State, w: string): (seq<Argument>, State)
    decreases |w|
  {
    if w == "" then ([], s)
    else if Escape(s, w) then Inside(Append(s, '"'), w[2..])
    else if Ends(s, w[0]) then
      var (r, e) := Inside(Cleared(s), w[1..]);
      (Before(s, r), e)
    else Inside(Step(s, w[0]), w[1..])
  }

  lemma {:induction false} Cut(s: State, w: string, tail: string)
    requires Separated(tail)
    ensures Scan(s, w + tail) == Inside(s, w).0 + Scan(Inside(s, w).1, tail)
    decreases |w|
  {
    var input := w + tail;
    if w == "" {
      assert input == tail;
    } else {
      assert input[0] == w[0] && input[1..] == w[1..] + tail;
      assert Escape(s, input) <==> Escape(s, w);
      if Escape(s, w) {
        assert input[2..] == w[2..] + tail;
        Cut(Append(s, '"'), w[2..], tail);
      } else if Ends(s, w[0]) {
        Cut(Cleared(s), w[1..], tail);
      } else {
        Cut(Step(s, w[0]), w[1..], tail);
      }
    }
  }

  lemma CutEnd(s: State, w: string)
    ensures Scan(s, w) == Inside(s, w).0 + Before(Inside(s, w).1, [])
  {
    assert w + "" == w;
    Cut(s, w, "");
  }

  /** What a separator does to the token at hand. */
  lemma Separates(s: State, rest: string)
    ensures Scan(s, " " + rest) ==
            if !Plain(s) then Scan(Append(s, ' '), rest)
            else if s.dirty then [Argument(s.token, s.kind)] + Scan(START, rest)
            else Scan(s, rest)
  {
    var input := " " + rest;
    assert input[0] == ' ' && input[1..] == rest;
    if Plain(s) && s.dirty { TokenEnds(s, input); }
  }

  // ---------------------------------------------------------------- arguments are no longer than their text

  ghost predicate NoLonger(r: seq<Argument>, text: string)
  {
    forall a | a in r :: |a.value| <= |text| && (|a.value| == |text| ==> a.value == text)
  }

  /** Characters are only ever dropped: an argument as long as its text is its text. */
  lemma {:induction false} ScanShrinks(s: State, input: string)
    ensures NoLonger(Scan(s, input), s.token + input)
    decreases |input|
  {
    if input == "" {
      assert s.token + input == s.token;
    } else if Escape(s, input) {
      ScanShrinks(Append(s, '"'), input[2..]);
    } else if Ends(s, input[0]) {
      ScanShrinks(Cleared(s), input[1..]);
    } else {
      var s' := Step(s, input[0]);
      ScanShrinks(s', input[1..]);
      if s'.token != s.token { assert s'.token + input[1..] == s.token + input; }
    }
  }

  lemma {:induction false} InsideShrinks(s: State, w: string)
    ensures |Inside(s, w).1.token| <= |s.token| + |w|
    ensures forall a | a in Inside(s, w).0 :: |a.value| < |s.token| + |w|
    decreases |w|
  {
    if w != "" {
      if Escape(s, w) { InsideShrinks(Append(s, '"'), w[2..]); }
      else if Ends(s, w[0]) { InsideShrinks(Cleared(s), w[1..]); }
      else { InsideShrinks(Step(s, w[0]), w[1..]); }
    }
  }

  // ---------------------------------------------------------------- an argument does not hide in its own text

  /** A quote can only open a string if it is the last character. */
  ghost predicate Guarded(s: State, u: string)
  {
    && !s.quote && s.kind != Quoted
    && (forall i | 0 < i < |u| - 1 && u[i] == '"' :: u[i - 1] == '\\')
    && (|u| > 1 && u[0] == '"' ==> s.token != "" || s.depth > 0)
  }

  lemma {:induction false} NoStringsInside(s: State, u: string)
    requires Guarded(s, u)
    ensures forall a | a in Scan(s, u) && a.kind == Quoted :: a.value == ""
    decreases |u|
  {
    if u != "" {
      var next := if Ends(s, u[0]) then Cleared(s) else Step(s, u[0]);
      if next.quote {
        assert |u| == 1 && u[1..] == "";
      } else {
        assert Guarded(next, u[1..]);
        NoStringsInside(next, u[1..]);
      }
    }
  }

  lemma {:induction false} QuotesAreEscaped(v: string, i: nat)
    requires i < |Escaped(v)| && Escaped(v)[i] == '"'
    ensures i > 0 && Escaped(v)[i - 1] == '\\'
    decreases |v|
  {
    var n := |EscapedChar(v[0])|;
    if i >= n { QuotesAreEscaped(v[1..], i - n); }
  }

  ghost predicate Clean(s: State) { Plain(s) && s.token == "" && !s.dirty && s.kind == Basic }

  lemma ParenNotAfterBlank(s: State, v: string, k: nat)
    requires Clean(s) && 0 < k <= |v| && IsBlank(v[k - 1])
    ensures forall a | a in Scan(s, v[k..] + ")") :: a.value != v
  {
    var u := v[k..] + ")";
    ScanShrinks(s, u);
    assert s.token + u == u;
    if k == 1 { RepeatsIfShifted(v, u); }
  }

  lemma QuotedNotAfterBlank(s: State, v: string, k: nat)
    requires Clean(s) && 0 < k <= |Escaped(v)| && IsBlank(Escaped(v)[k - 1])
    ensures forall a | a in Scan(s, Escaped(v)[k..] + "\"") && a.kind == Quoted :: a.value == ""
  {
    var e := Escaped(v);
    var u := e[k..] + "\"";
    forall i | 0 <= i < |u| - 1 && u[i] == '"'
      ensures e[k + i - 1] == '\\'
    {
      assert e[k + i] == u[i];
      QuotesAreEscaped(v, k + i);
    }
    assert Guarded(s, u);
    NoStringsInside(s, u);
  }

  /** The text after a blank within a printed argument does not contain the argument. */
  lemma NotAfterBlank(s: State, a: Argument, k: nat)
    requires Clean(s) && k < |Written(a)| && IsBlank(Written(a)[k])
    ensures a !in Scan(s, Written(a)[k + 1..])
  {
    var w := Written(a);
    match a.kind
    case Basic =>
      ScanShrinks(s, w[k + 1..]);
    case Parenthesized =>
      assert w[0] == '(' && w[|w| - 1] == ')';
      assert w[k + 1..] == a.value[k..] + ")" && w[k] == a.value[k - 1];
      ParenNotAfterBlank(s, a.value, k);
    case Quoted =>
      var e := Escaped(a.value);
      assert w[0] == '"' && w[|w| - 1] == '"';
      assert w[k + 1..] == e[k..] + "\"" && w[k] == e[k - 1];
      QuotedNotAfterBlank(s, a.value, k);
  }

  /** A text that equals itself moved on by one character repeats its last one. */
  lemma RepeatsIfShifted(v: string, u: string)
    requires v != "" && |u| == |v| && u[|u| - 1] == ')' && forall i | 0 <= i < |v| - 1 :: u[i] == v[i + 1]
    ensures IsBlank(v[0]) ==> u != v
  {
    if u == v {
      var i := |v| - 1;
      while i > 0
        invariant 0 <= i < |v| && v[i] == ')'
      {
        assert u[i - 1] == v[i];
        i := i - 1;
      }
    }
  }

  /** However a printed argument is scanned, only the first argument read can be the argument itself. */
  lemma {:induction false} OnlyFirst(s: State, a: Argument, k: nat, i: nat)
    requires k <= |Written(a)| && 1 <= i < |Scan(s, Written(a)[k..])|
    ensures Scan(s, Written(a)[k..])[i] != a
    decreases |Written(a)| - k
  {
    var u := Written(a)[k..];
    if u != "" {
      assert u[1..] == Written(a)[k + 1..];
      if Escape(s, u) {
        assert u[2..] == Written(a)[k + 2..];
        OnlyFirst(Append(s, '"'), a, k + 2, i);
      } else if !Ends(s, u[0]) {
        OnlyFirst(Step(s, u[0]), a, k + 1, i);
      } else if !s.dirty {
        OnlyFirst(Cleared(s), a, k + 1, i);
      } else {
        var later := Scan(Cleared(s), u[1..]);
        NotAfterBlank(Cleared(s), a, k);
        assert Scan(s, u)[i] == later[i - 1];
      }
    }
  }

  // ---------------------------------------------------------------- arguments do not move up

  ghost predicate EndsWith(r: seq<Argument>, args: seq<Argument>)
  {
    |r| >= |args| && r[|r| - |args|..] == args
  }

  /** Whatever state printed arguments are met in, reading them does not give the same arguments behind
      others: none of them can make room for one more. */
  lemma {:induction false} NoRoomInFront(s: State, args: seq<Argument>)
    requires args != []
    ensures var r := Scan(s, After(args)); !(|r| > |args| && EndsWith(r, args))
    decreases |args|, 0
  {
    var a, rest := args[0], args[1..];
    var w := Written(a);
    var r := Scan(s, After(args));
    var m := |r| - |args|;
    if |r| > |args| && EndsWith(r, args) {
      assert r[m] == r[m..][0] == a;
      assert r[m + 1..] == r[m..][1..] == rest;
      var done, e := Inside(s, w).0, Inside(s, w).1;
      Cut(s, w, Tail(rest));
      CutEnd(s, w);
      assert w[0..] == w;
      LaterTokens(e, rest, done, r);
      assert Scan(s, w)[m] == a;
      OnlyFirst(s, a, 0, m);
    }
  }

  /** The arguments after the first one are not displaced, so the first is among what its own text gave. */
  lemma {:induction false} LaterTokens(e: State, rest: seq<Argument>, done: seq<Argument>, r: seq<Argument>)
    requires r == done + Scan(e, Tail(rest))
    requires |r| > |rest| + 1 && r[|r| - |rest|..] == rest
    ensures var m := |r| - |rest| - 1; m < |done + Before(e, [])| && (done + Before(e, []))[m] == r[m]
    decreases |rest|, 1
  {
    var later := Scan(e, Tail(rest));
    if rest != [] {
      assert Tail(rest) == " " + After(rest);
      Separates(e, After(rest));
      var s' := if !Plain(e) then Append(e, ' ') else if e.dirty then START else e;
      var y := Scan(s', After(rest));
      if |y| > |rest| {
        assert y[|y| - |rest|..] == r[|r| - |rest|..];
      }
      NoRoomInFront(s', rest);
    }
  }

  // ---------------------------------------------------------------- names are collected whole or not at all

  /** A state in which everything but a blank outside parentheses is collected. */
  ghost predicate Collecting(s: State) { !s.quote && s.token != "" && s.dirty && (s.depth > 0 ==> !s.strip) }

  lemma StepCollects(s: State, c: char)
    requires Collecting(s) && !Ends(s, c)
    ensures Collecting(Step(s, c)) && Step(s, c).token == s.token + [c]
  {
  }

  lemma {:induction false} NameInside(s: State, c: string)
    requires Collecting(s)
    ensures var r := Inside(s, c);
            if Nest(c, s.depth) >= 0 then
              r.0 == [] && Collecting(r.1) && r.1.token == s.token + c && r.1.depth == Nest(c, s.depth)
            else
              |r.1.token| < |s.token| + |c| && forall a | a in r.0 :: |a.value| < |s.token| + |c|
    decreases |c|
  {
    if c == "" {
      assert s.token + c == s.token;
    } else if Ends(s, c[0]) {
      InsideShrinks(Cleared(s), c[1..]);
    } else {
      StepCollects(s, c[0]);
      NameInside(Step(s, c[0]), c[1..]);
      assert (s.token + [c[0]]) + c[1..] == s.token + c;
    }
  }

  /** A solid name is the token at its end; of any other, every token is shorter. */
  lemma NameCollected(c: string)
    requires c != ""
    ensures var r := Inside(START, c);
            if Solid(c) then r.0 == [] && Collecting(r.1) && r.1.token == c && r.1.depth == Nest(c, 0)
            else |r.1.token| < |c| && forall a | a in r.0 :: |a.value| < |c|
  {
    var s := if Ends(START, c[0]) then START else Step(START, c[0]);
    assert Inside(START, c) == Inside(s, c[1..]);
    if c[0] == '"' || c[0] == '(' || IsBlank(c[0]) {
      InsideShrinks(s, c[1..]);
    } else {
      NameInside(s, c[1..]);
      assert "" + [c[0]] == [c[0]] && [c[0]] + c[1..] == c;
    }
  }

  // ---------------------------------------------------------------- commands

  lemma LowerIdempotent(s: string)
    ensures Lower(Lower(s)) == Lower(s)
  {
  }

  lemma ReadBack(r: seq<Argument>, c: Command)
    requires Assembled(r) == c && c.name != ""
    ensures r != [] && |r[0].value| == |c.name| && Lower(c.name) == c.name
    ensures |r| == |c.arguments| + 1 && EndsWith(r, c.arguments)
  {
    LowerIdempotent(r[0].value);
  }

  lemma SolidRoundTrips(c: Command)
    requires c.name != "" && Readable(c)
    ensures Assembled(Scan(START, c.name + Tail(c.arguments))) == c <==> AllCanonical(c.arguments)
  {
    var tail := Tail(c.arguments);
    NameCollected(c.name);
    Cut(START, c.name, tail);
    var e := Inside(START, c.name).1;
    AfterIff(c.arguments);
    if c.arguments != [] {
      assert tail == " " + After(c.arguments);
      Separates(e, After(c.arguments));
    }
    assert Scan(START, c.name + tail) == [Argument(c.name, e.kind)] + Scan(START, After(c.arguments));
  }

  /** Any other name comes back changed, or the arguments do. */
  lemma UnreadableIsLost(c: Command)
    requires c.name != "" && !Readable(c)
    ensures Assembled(Scan(START, c.name + Tail(c.arguments))) != c
  {
    var args := c.arguments;
    var r := Scan(START, c.name + Tail(args));
    var e := Inside(START, c.name).1;
    if Assembled(r) == c { ReadBack(r, c); }
    Cut(START, c.name, Tail(args));
    NameCollected(c.name);
    if args != [] {
      assert Tail(args) == " " + After(args);
      Separates(e, After(args));
      NoRoomInFront(if Plain(e) then e else Append(e, ' '), args);
    }
  }

  /** A printed command reads back as itself exactly when its name is solid and in lower case, with closed
      parentheses if arguments follow, and every argument is canonical; without a name, when it is empty. */
  lemma FlattenRoundTripIff(c: Command)
    ensures Assembled(Scan(START, Continued(c.name, c.arguments))) == c
            <==> Readable(c) && AllCanonical(c.arguments)
  {
    if c.name == "" {
      NamelessRoundTripIff(c.arguments);
    } else {
      ContinuedIs(c.name, c.arguments);
      if Readable(c) { SolidRoundTrips(c); } else { UnreadableIsLost(c); }
    }
  }

  /** Without a name the first argument takes its place. */
  lemma NamelessRoundTripIff(args: seq<Argument>)
    ensures Assembled(Scan(START, Continued("", args))) == Command("", args) <==> args == []
  {
    var r := Scan(START, Continued("", args));
    if args != [] {
      if Assembled(r) == Command("", args) {
        assert r == [r[0]] + args && EndsWith(r, args) && r[1] == args[0];
      }
      var w := Written(args[0]);
      assert "" + w == w;
      if w == "" {
        ScanYieldsBareWords(START, Continued("", args));
      } else {
        ContinuedIs(w, args[1..]);
        NoRoomInFront(START, args);
      }
    }
  }

  /** A name with a parenthesized part survives. */
  lemma ParenthesesInNameSurvive()
    ensures var c := Command("a(b c)", []); Assembled(Scan(START, Continued(c.name, c.arguments))) == c
  {
    var c := Command("a(b c)", []);
    assert "a(b c)"[1..] == "(b c)" && "(b c)"[1..] == "b c)" && "b c)"[1..] == " c)";
    assert " c)"[1..] == "c)" && "c)"[1..] == ")" && ")"[1..] == "";
    assert Nest("b c)", 1) == 0;
    assert Nest("a(b c)", 0) == 0;
    assert Lower(c.name) == c.name;
    FlattenRoundTripIff(c);
  }

  /** A name with a blank does not. */
  lemma BlankInNameIsLost()
    ensures var c := Command("a b", []); Assembled(Scan(START, Continued(c.name, c.arguments))) != c
  {
    var c := Command("a b", []);
    assert "a b"[1..] == " b";
    assert Nest(" b", 0) == -1;
    FlattenRoundTripIff(c);
  }

  // ---------------------------------------------------------------- printing

  method FlattenArgs(c: Command) returns (line: string)
    ensures Scan(START, line) == c.arguments <==> AllCanonical(c.arguments)
    ensures line == Continued("", c.arguments)
  {
    line := PrintOnto("", c.arguments);
    FlattenArgsRoundTripIff(c.arguments);
  }

  method Flatten(c: Command) returns (line: string)
    ensures Assembled(Scan(START, line)) == c <==> Readable(c) && AllCanonical(c.arguments)
    ensures line == Continued(c.name, c.arguments)
  {
    line := PrintOnto(c.name, c.arguments);
    FlattenRoundTripIff(c);
  }
}
