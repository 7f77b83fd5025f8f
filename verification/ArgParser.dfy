/** Printing arguments so that they read back, and exactly when they do. */
module ArgParser {
  import opened Common
  import opened ArgTokens

  function Written(a: Argument): string
  {
    match a.kind
    case Basic => a.value
    case Quoted => "\"" + (Escaped(a.value) + "\"")
    case Parenthesized => "(" + (a.value + ")")
  }

  function Tail(args: seq<Argument>): string
  {
    if args == [] then "" else " " + (Written(args[0]) + Tail(args[1..]))
  }

  /** The line printed so far, continued; an empty line gets no blank. */
  function Continued(out: string, args: seq<Argument>): string
    decreases |args|
  {
    if args == [] then out
    else Continued((if out == "" then "" else out + " ") + Written(args[0]), args[1..])
  }

  predicate Separated(tail: string) { tail == "" || tail[0] == ' ' }

  // ---------------------------------------------------------------- a clean start

  /** Outside parentheses it is forgotten how the last ones were treated. */
  lemma {:induction false} StripForgotten(s: State, strip: bool, input: string)
    requires s.depth == 0
    ensures Scan(s, input) == Scan(s.(strip := strip), input)
    decreases |input|
  {
    var s' := s.(strip := strip);
    if input != "" {
      if Escape(s, input) {
        StripForgotten(Append(s, '"'), strip, input[2..]);
      } else if Ends(s, input[0]) {
        StripForgotten(Cleared(s), strip, input[1..]);
      } else if s.quote || input[0] != '(' {
        StripForgotten(Step(s, input[0]), strip, input[1..]);
      }
    }
  }

  /** A finished token followed by a blank or by nothing. */
  lemma TokenEnds(s: State, tail: string)
    requires Plain(s) && s.dirty && Separated(tail)
    ensures Scan(s, tail) == [Argument(s.token, s.kind)] + Scan(START, if tail == "" then "" else tail[1..])
  {
    if tail != "" {
      assert Cleared(s) == START.(strip := s.strip);
      StripForgotten(START, s.strip, tail[1..]);
    }
  }

  // ---------------------------------------------------------------- canonical arguments are read back

  /** Where a parenthesized value stands once its opening parenthesis is read. */
  const OPENED := State("", false, 1, true, true, Parenthesized)

  const QUOTING := State("", true, 0, false, true, Quoted)

  lemma StartParen(v: string, tail: string)
    ensures Scan(START, Written(Argument(v, Parenthesized)) + tail) == Scan(OPENED, v + (")" + tail))
  {
    var rest := v + (")" + tail);
    Associative("(", v + ")", tail);
    Associative(v, ")", tail);
    StepsInto(START, '(', rest);
  }

  lemma StartQuote(v: string, tail: string)
    ensures Scan(START, Written(Argument(v, Quoted)) + tail) == Scan(QUOTING, Escaped(v) + ("\"" + tail))
  {
    var rest := Escaped(v) + ("\"" + tail);
    Associative("\"", Escaped(v) + "\"", tail);
    Associative(Escaped(v), "\"", tail);
    StepsInto(START, '"', rest);
  }

  lemma StepsInto(s: State, c: char, rest: string)
    requires !Ends(s, c) && c != '\\'
    ensures Scan(s, [c] + rest) == Scan(Step(s, c), rest)
  {
    assert ([c] + rest)[1..] == rest;
    Unfold(s, [c] + rest);
  }

  lemma QuotedRead(v: string, tail: string)
    requires Canonical(Argument(v, Quoted)) && Separated(tail)
    ensures Scan(QUOTING, Escaped(v) + ("\"" + tail))
            == [Argument(v, Quoted)] + Scan(START, if tail == "" then "" else tail[1..])
  {
    var input := "\"" + tail;
    ScanEscaped(QUOTING, v, input);
    var s := QUOTING.(token := QUOTING.token + v);
    assert s.token == v;
    assert input[1..] == tail;
    Unfold(s, input);
    TokenEnds(Step(s, '"'), tail);
  }

  /** The opening parenthesis is dropped, and the first closing one that matches it. */
  lemma ClosesAfter(b: string, tail: string)
    requires Balanced(b)
    ensures Scan(OPENED, b + (")" + tail)) == Scan(State(b, false, 0, true, true, Parenthesized), tail)
  {
    var input := ")" + tail;
    ScanNested(OPENED, b, input);
    var s := OPENED.(token := OPENED.token + b, depth := 1);
    assert s.token == b;
    assert input[1..] == tail;
    Unfold(s, input);
  }

  lemma ClosingMoves(c: string, tail: string)
    requires Closing(c)
    ensures c + (")" + tail) == ")" + (c + tail)
  {
    var l, r := c + (")" + tail), ")" + (c + tail);
    assert forall i | 0 <= i < |l| :: l[i] == r[i];
  }

  lemma ParenRead(v: string, tail: string)
    requires Canonical(Argument(v, Parenthesized)) && Separated(tail)
    ensures Scan(OPENED, v + (")" + tail))
            == [Argument(v, Parenthesized)] + Scan(START, if tail == "" then "" else tail[1..])
  {
    var k :| 0 <= k <= |v| && Balanced(v[..k]) && Closing(v[k..]);
    var b, c := v[..k], v[k..];
    assert v == b + c;
    Associative(b, c, ")" + tail);
    ClosingMoves(c, tail);
    ClosesAfter(b, c + tail);
    var s := State(b, false, 0, true, true, Parenthesized);
    ScanClosing(s, c, tail);
    TokenEnds(s.(token := b + c), tail);
  }

  lemma ArgumentRead(a: Argument, tail: string)
    requires Canonical(a) && Separated(tail)
    ensures Scan(START, Written(a) + tail) == [a] + Scan(START, if tail == "" then "" else tail[1..])
  {
    match a.kind
    case Basic =>
      ScanWord(START, a.value, tail);
      assert START.token + a.value == a.value;
      TokenEnds(START.(token := a.value, dirty := true), tail);
    case Quoted =>
      StartQuote(a.value, tail);
      QuotedRead(a.value, tail);
    case Parenthesized =>
      StartParen(a.value, tail);
      ParenRead(a.value, tail);
  }

  // ---------------------------------------------------------------- other arguments are not

  ghost predicate ReadsFirst(s: State, input: string, v: string)
  {
    var r := Scan(s, input);
    r != [] && r[0].value == v
  }

  lemma BackslashStays(w: string)
    ensures Escaped(w + "\\") == Escaped(w) + "\\"
  {
    EscapedSplits(w, "\\");
    assert Escaped("\\") == "\\";
  }

  lemma ScanEscape(s: State, tail: string)
    requires s.quote
    ensures Scan(s, "\\" + ("\"" + tail)) == Scan(Append(s, '"'), tail)
  {
    var input := "\\" + ("\"" + tail);
    assert input[0] == '\\' && input[1] == '"' && input[2..] == tail;
  }

  lemma QuotedLost(v: string, tail: string)
    requires v != "" && v[|v| - 1] == '\\'
    ensures !ReadsFirst(QUOTING, Escaped(v) + ("\"" + tail), v)
  {
    var w := v[..|v| - 1];
    assert v == w + "\\";
    QuoteIsTaken(w, tail);
    FirstGrows(Append(QUOTING.(token := w), '"'), tail);
  }

  /** A closing quote behind a backslash is read as part of the value. */
  lemma QuoteIsTaken(w: string, tail: string)
    ensures Scan(QUOTING, Escaped(w + "\\") + ("\"" + tail)) == Scan(Append(QUOTING.(token := w), '"'), tail)
  {
    BackslashStays(w);
    Associative(Escaped(w), "\\", "\"" + tail);
    ScanEscaped(QUOTING, w, "\\" + ("\"" + tail));
    assert QUOTING.token + w == w;
    ScanEscape(QUOTING.(token := w), tail);
  }

  predicate Marks(s: string) { forall i | 0 <= i < |s| :: s[i] == '(' || s[i] == ')' || s[i] == '"' || s[i] == '\\' }

  /** A token that has fallen two characters behind the value it should become, with only marks read so
      far, never catches up: only the blank after the value could be collected, and it is no mark. */
  lemma {:induction false} LagFails(s: State, v: string, p: nat, tail: string)
    requires s.dirty && |s.token| + 2 <= p <= |v| && Marks(v[..p]) && Separated(tail)
    ensures !ReadsFirst(s, v[p..] + (")" + tail), v)
    decreases |v| - p
  {
    var input := v[p..] + (")" + tail);
    if p == |v| {
      assert input == ")" + tail && v[..p] == v;
      LagEnds(s, v, tail);
    } else {
      assert input[0] == v[p] && input[1..] == v[p + 1..] + (")" + tail);
      if Escape(s, input) {
        assert p + 1 < |v| && v[p + 1] == '"';
        assert input[2..] == v[p + 2..] + (")" + tail);
        LagFails(Append(s, '"'), v, p + 2, tail);
      } else if !Ends(s, v[p]) {
        Unfold(s, input);
        var s' := Step(s, v[p]);
        if StillMarks(s, v, p) {
          LagFails(s', v, p + 1, tail);
        } else {
          FirstGrows(s', input[1..]);
        }
      }
    }
  }

  /** A character that is dropped is a mark, and one that is collected is either wrong or repeats a mark. */
  ghost predicate StillMarks(s: State, v: string, p: nat)
    requires |s.token| < p < |v| && Marks(v[..p]) && !Ends(s, v[p])
    ensures !StillMarks(s, v, p) ==> !(Step(s, v[p]).token <= v)
  {
    if Step(s, v[p]).token <= v then
      assert Step(s, v[p]).token != s.token ==> Step(s, v[p]).token[|s.token|] == v[p] == v[..p][|s.token|];
      Marks(v[..p + 1])
    else false
  }

  lemma LagEnds(s: State, v: string, tail: string)
    requires s.dirty && |s.token| + 2 <= |v| && Marks(v) && Separated(tail)
    ensures !ReadsFirst(s, ")" + tail, v)
  {
    StepsInto(s, ')', tail);
    var s' := Step(s, ')');
    var n := |s'.token|;
    assert n < |v| && v[n] != ' ';
    if tail != "" && !Ends(s', ' ') {
      Unfold(s', tail);
      var s'' := Append(s', ' ');
      assert s''.token[n] == ' ';
      FirstGrows(s'', tail[1..]);
    }
  }

  /** The place where the outermost parenthesis is closed too early, if there is one. */
  lemma {:induction false} ClosedEarly(v: string, depth: nat) returns (i: nat)
    requires depth >= 1 && Level(v, depth) == 0
    ensures i < |v| && Level(v[..i], depth) == 1 && v[i] == ')'
  {
    if v[0] == ')' && depth == 1 {
      i := 0;
    } else {
      var d := if v[0] == '(' then depth + 1 else if v[0] == ')' then depth - 1 else depth;
      var j := ClosedEarly(v[1..], d);
      i := j + 1;
      assert v[..i][0] == v[0] && v[..i][1..] == v[1..][..j];
    }
  }

  lemma ParenLeftOpen(v: string, tail: string)
    requires Level(v, 1) > 1
    ensures !ReadsFirst(OPENED, v + (")" + tail), v)
  {
    ScanNested(OPENED, v, ")" + tail);
    var s := OPENED.(token := OPENED.token + v, depth := Level(v, 1));
    assert s.token == v;
    StepsInto(s, ')', tail);
    FirstGrows(Step(s, ')'), tail);
  }

  lemma FirstNotClosing(v: string, i: nat) returns (j: nat)
    requires i <= |v| && !Closing(v[i..])
    ensures i <= j < |v| && v[j] != ')' && forall x | i <= x < j :: v[x] == ')'
  {
    j := i;
    while j < |v| && v[j] == ')'
      invariant i <= j <= |v| && forall x | i <= x < j :: v[x] == ')'
    {
      j := j + 1;
    }
  }

  lemma ParenLost(v: string, tail: string)
    requires !Canonical(Argument(v, Parenthesized)) && Separated(tail)
    ensures !ReadsFirst(OPENED, v + (")" + tail), v)
  {
    assert v[..|v|] == v && Closing(v[|v|..]);
    assert !Balanced(v);
    if Level(v, 1) >= 1 {
      ParenLeftOpen(v, tail);
    } else {
      var i := ClosedEarly(v, 1);
      var j := FirstNotClosing(v, i);
      var after := v[i + 1..] + (")" + tail);
      assert v == v[..i] + (")" + v[i + 1..]);
      Associative(v[..i], ")" + v[i + 1..], ")" + tail);
      Associative(")", v[i + 1..], ")" + tail);
      ClosesAfter(v[..i], after);
      StuckAfter(v, i, j, tail);
    }
  }

  /** The parentheses closed at `i`, only closing ones follow until `j`. */
  lemma StuckAfter(v: string, i: nat, j: nat, tail: string)
    requires i < j < |v| && v[j] != ')' && (forall x | i <= x < j :: v[x] == ')') && Separated(tail)
    ensures !ReadsFirst(State(v[..i], false, 0, true, true, Parenthesized), v[i + 1..] + (")" + tail), v)
  {
    var rest := v[j..] + (")" + tail);
    var closing := v[i + 1..j];
    assert v[i + 1..] == closing + v[j..];
    Associative(closing, v[j..], ")" + tail);
    var s := State(v[..i], false, 0, true, true, Parenthesized);
    ScanClosing(s, closing, rest);
    assert v[..i] + closing == v[..j - 1];
    Stuck(s.(token := v[..j - 1]), v, j, tail);
  }

  lemma Stuck(s: State, v: string, j: nat, tail: string)
    requires 0 < j < |v| && v[j - 1] == ')' && v[j] != ')' && Separated(tail)
    requires Plain(s) && s.dirty && s.token == v[..j - 1]
    ensures !ReadsFirst(s, v[j..] + (")" + tail), v)
  {
    var rest := v[j..] + (")" + tail);
    assert rest[0] == v[j] && rest[1..] == v[j + 1..] + (")" + tail);
    if !Ends(s, v[j]) {
      Unfold(s, rest);
      var s' := Step(s, v[j]);
      FirstGrows(s', rest[1..]);
      if s'.token <= v {
        assert j == 1 && Marks(v[..2]);
        LagFails(s', v, 2, tail);
      }
    }
  }

  lemma ArgumentLost(a: Argument, tail: string)
    requires !Canonical(a) && Separated(tail)
    ensures var r := Scan(START, Written(a) + tail); r == [] || r[0] != a
  {
    match a.kind
    case Basic => ScanYieldsBareWords(START, Written(a) + tail);
    case Quoted =>
      StartQuote(a.value, tail);
      QuotedLost(a.value, tail);
    case Parenthesized =>
      StartParen(a.value, tail);
      ParenLost(a.value, tail);
  }

  // ---------------------------------------------------------------- whole lines

  ghost predicate AllCanonical(args: seq<Argument>) { forall a | a in args :: Canonical(a) }

  function After(args: seq<Argument>): string
  {
    if args == [] then "" else Written(args[0]) + Tail(args[1..])
  }

  lemma {:induction false} AfterIff(args: seq<Argument>)
    ensures Scan(START, After(args)) == args <==> AllCanonical(args)
    decreases |args|
  {
    if args != [] {
      var a, rest := args[0], args[1..];
      var tail := Tail(rest);
      assert args == [a] + rest;
      if Canonical(a) {
        ArgumentRead(a, tail);
        AfterIff(rest);
        assert (if tail == "" then "" else tail[1..]) == After(rest);
      } else {
        ArgumentLost(a, tail);
        assert a in args;
      }
    }
  }

  lemma {:induction false} ContinuedIs(out: string, args: seq<Argument>)
    requires out != ""
    ensures Continued(out, args) == out + Tail(args)
    decreases |args|
  {
    if args == [] {
      assert out + "" == out;
    } else {
      ContinuedIs(out + " " + Written(args[0]), args[1..]);
      Associative(out, " ", Written(args[0]));
      Associative(out, " " + Written(args[0]), Tail(args[1..]));
      Associative(" ", Written(args[0]), Tail(args[1..]));
    }
  }

  /** Printed arguments read back as themselves exactly when each of them is canonical. */
  lemma FlattenArgsRoundTripIff(args: seq<Argument>)
    ensures Scan(START, Continued("", args)) == args <==> AllCanonical(args)
  {
    if args != [] {
      var w := Written(args[0]);
      assert "" + w == w;
      if w == "" {
        ScanYieldsBareWords(START, Continued("", args));
        assert args[0] in args;
        assert !Bare(args[0].value);
      } else {
        ContinuedIs(w, args[1..]);
        AfterIff(args);
      }
    }
  }

  /** A quoted value that ends in a backslash escapes its own closing quote. */
  lemma TrailingBackslashIsLost()
    ensures var args := [Argument("\\", Quoted)]; Scan(START, Continued("", args)) != args
  {
    var args := [Argument("\\", Quoted)];
    FlattenArgsRoundTripIff(args);
    assert args[0] in args;
  }

  // ---------------------------------------------------------------- printing

  function NextQuote(s: string, from: nat): (i: nat)
    requires from <= |s|
    ensures from <= i <= |s| && (forall j | from <= j < i :: s[j] != '"') && (i < |s| ==> s[i] == '"')
    decreases |s| - from
  {
    if from == |s| || s[from] == '"' then from else NextQuote(s, from + 1)
  }

  lemma {:induction false} NothingToEscape(v: string)
    requires forall i | 0 <= i < |v| :: v[i] != '"'
    ensures Escaped(v) == v
  {
    if v != "" { NothingToEscape(v[1..]); }
  }

  const ESCAPED_QUOTE := ['\\', '"']

  lemma EscapedQuote(rest: string)
    ensures Escaped(['"'] + rest) == ESCAPED_QUOTE + Escaped(rest)
  {
    var v := ['"'] + rest;
    assert v[0] == '"' && v[1..] == rest;
  }

  /** What escaping does up to and including the next quote. */
  lemma EscapesNext(v: string, m: nat)
    requires m < |v| && v[m] == '"' && forall j | 0 <= j < m :: v[j] != '"'
    ensures Escaped(v) == (v[..m] + ESCAPED_QUOTE) + Escaped(v[m + 1..])
  {
    var word, rest := v[..m], v[m + 1..];
    var quoted := ['"'] + rest;
    assert v == word + quoted;
    EscapedSplits(word, quoted);
    NothingToEscape(word);
    EscapedQuote(rest);
    Associative(word, ESCAPED_QUOTE, Escaped(rest));
  }

  lemma ReplaceNext(done: string, rest: string, m: nat)
    requires m < |rest|
    ensures var e, at := done + rest, |done| + m;
            e[..at] + ESCAPED_QUOTE + e[at + 1..] == (done + (rest[..m] + ESCAPED_QUOTE)) + rest[m + 1..]
  {
    var e, at := done + rest, |done| + m;
    assert e[..at] == done + rest[..m];
    assert e[at + 1..] == rest[m + 1..];
    Associative(done, rest[..m], ESCAPED_QUOTE);
  }

  lemma QuoteAhead(done: string, rest: string)
    ensures var at := NextQuote(done + rest, |done|);
            && |done| <= at && (forall j | 0 <= j < at - |done| :: rest[j] != '"')
            && (at < |done + rest| ==> rest[at - |done|] == '"')
  {
    var e := done + rest;
    assert forall j | 0 <= j < |rest| :: rest[j] == e[|done| + j];
  }

  method EscapeQuotes(value: string) returns (escaped: string)
    ensures escaped == Escaped(value)
  {
    escaped := value;
    var pos := 0;
    ghost var done, rest := "", value;
    while NextQuote(escaped, pos) < |escaped|
      invariant pos == |done| && escaped == done + rest
      invariant done + Escaped(rest) == Escaped(value)
      decreases |rest|
    {
      var at := NextQuote(escaped, pos);
      ghost var m := at - pos;
      QuoteAhead(done, rest);
      EscapesNext(rest, m);
      ReplaceNext(done, rest, m);
      Associative(done, rest[..m] + ESCAPED_QUOTE, Escaped(rest[m + 1..]));
      escaped := escaped[..at] + ESCAPED_QUOTE + escaped[at + 1..];
      pos := at + 2;
      done, rest := done + (rest[..m] + ESCAPED_QUOTE), rest[m + 1..];
    }
    QuoteAhead(done, rest);
    NothingToEscape(rest);
  }

  method PrintOnto(line: string, args: seq<Argument>) returns (out: string)
    ensures out == Continued(line, args)
  {
    out := line;
    var i := 0;
    while i < |args|
      invariant 0 <= i <= |args|
      invariant Continued(out, args[i..]) == Continued(line, args)
    {
      var arg := args[i];
      assert args[i..][1..] == args[i + 1..];
      if out != "" { out := out + " "; }
      if arg.kind == Quoted {
        var escaped := EscapeQuotes(arg.value);
        out := out + ("\"" + (escaped + "\""));
      } else if arg.kind == Parenthesized {
        out := out + ("(" + (arg.value + ")"));
      } else {
        out := out + arg.value;
      }
      i := i + 1;
    }
  }
}
