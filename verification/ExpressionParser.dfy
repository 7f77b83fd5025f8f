/** The one-pass evaluator: values are computed while the tokens are consumed, and no tree is
    ever built. Each method is proved against the tree that precedence climbing would return. */
module ExpressionParser {
  import opened Common
  import opened ExpressionGrammar
  import opened ExpressionClimb
  import opened ExpressionProof
  import Lexer = ExpressionLexer

  function Outcome(env: Env, p: Parsed): Result<u32>
  {
    if p.Done? then Eval(env, p.tree) else Err
  }

  /** A failed left operand fails whatever is built on top of it. */
  lemma {:induction false} ContinueStrict(env: Env, left: Tree, toks: seq<Token>, prec: nat)
    requires Eval(env, left).Err?
    ensures Outcome(env, Continue(left, toks, prec)).Err?
    decreases |toks|
  {
    if prec < Precedence(Head(toks)) && Head(toks).Operator? {
      var right := Climb(toks[1..], Precedence(toks[0]));
      if right.Done? {
        ContinueStrict(env, Binary(left, toks[0].op, right.tree), right.rest, prec);
      }
    }
  }

  /** What one turn of the operator loop must deliver. */
  lemma InfixStep(env: Env, left: Tree, toks: seq<Token>, prec: nat)
    requires LOWEST <= prec < Precedence(Head(toks)) && Eval(env, left).Ok?
    ensures var op := Head(toks);
            var right := Climb(toks[1..], Precedence(op));
            var whole := Continue(left, toks, prec);
            if op.Operator? && Outcome(env, right).Ok? then
              var t := Binary(left, op.op, right.tree);
              && Eval(env, t) == Ok(Apply(op.op, Eval(env, left).value, Eval(env, right.tree).value))
              && whole == Continue(t, right.rest, prec)
            else
              Outcome(env, whole).Err?
  {
    var op := Head(toks);
    var right := Climb(toks[1..], Precedence(op));
    if op.Operator? && right.Done? && Eval(env, right.tree).Err? {
      ContinueStrict(env, Binary(left, op.op, right.tree), right.rest, prec);
    }
  }

  /** What the operand before the operator loop must deliver. */
  lemma ClimbStep(env: Env, toks: seq<Token>, prec: nat)
    ensures if Outcome(env, Prefix(toks)).Ok? then
              Climb(toks, prec) == Continue(Prefix(toks).tree, Prefix(toks).rest, prec)
            else Outcome(env, Climb(toks, prec)).Err?
  {
    if Prefix(toks).Done? && Eval(env, Prefix(toks).tree).Err? {
      ContinueStrict(env, Prefix(toks).tree, Prefix(toks).rest, prec);
    }
  }

  /** What the two shapes of a bare dereference must deliver. */
  lemma BareStep(env: Env, toks: seq<Token>)
    ensures var p := Climb(toks, HIGHEST);
            var r := Bare(toks);
            if Outcome(env, p).Err? then Outcome(env, r).Err?
            else
              var base := Outcome(env, p).value;
              if Head(p.rest) != LBracket then
                r.Done? && r.rest == p.rest && Outcome(env, r) == PerformRead(env, base, 4)
              else
                var e := Climb(p.rest[1..], LOWEST);
                if Outcome(env, e).Err? || Head(e.rest) != RBracket then Outcome(env, r).Err?
                else
                  && r.Done? && r.rest == e.rest[1..]
                  && Outcome(env, r) == PerformRead(env, (base + Outcome(env, e).value) % TWO_32, 4)
  {
  }

  class DebuggerExpressionParser {
    const env: Env
    var tokens: seq<Token>
    var pos: nat

    constructor (env: Env)
      ensures this.env == env && tokens == [] && pos == 0
    {
      this.env := env;
      tokens, pos := [], 0;
    }

    function Remaining(): seq<Token>
      requires pos <= |tokens|
      reads this
    {
      tokens[pos..]
    }

    function Peek(): (t: Token)
      requires pos <= |tokens|
      reads this
      ensures t == Head(Remaining())
    {
      if pos >= |tokens| then EndOfFile else tokens[pos]
    }

    method Consume() returns (t: Token)
      requires pos <= |tokens|
      modifies this`pos
      ensures pos <= |tokens| && t == old(Peek())
      ensures old(pos) == |tokens| ==> pos == old(pos)
      ensures old(pos) < |tokens| ==> pos == old(pos) + 1 && Remaining() == old(Remaining())[1..]
    {
      if pos >= |tokens| {
        return EndOfFile;
      }
      t := tokens[pos];
      pos := pos + 1;
    }

    /** Reads up to four bytes and assembles them least significant byte first. */
    method ReadMemory(addr: u32, size: u32) returns (r: Result<u32>)
      ensures r == PerformRead(env, addr, size)
    {
      if env.reader.None? || size > 4 {
        return Err;
      }
      var data := env.reader.value(addr, size);
      if data.Err? || |data.value| != size {
        return Err;
      }
      var val, scale, i := 0, 1, 0;
      while i < |data.value|
        invariant 0 <= i <= |data.value|
        invariant LittleEndian(data.value) == val + scale * LittleEndian(data.value[i..])
      {
        assert data.value[i..][1..] == data.value[i + 1..];
        var b, rest := data.value[i] as int, LittleEndian(data.value[i + 1..]);
        assert scale * (b + 256 * rest) == scale * b + (scale * 256) * rest;
        val, scale, i := val + scale * b, scale * 256, i + 1;
      }
      LittleEndianBound(data.value);
      return Ok(val);
    }

    method ParseExpression(prec: nat) returns (r: Result<u32>)
      requires LOWEST <= prec && pos <= |tokens|
      modifies this`pos
      ensures old(pos) <= pos <= |tokens|
      ensures r == Outcome(env, Climb(old(Remaining()), prec))
      ensures r.Ok? ==> pos > old(pos) && Remaining() == Climb(old(Remaining()), prec).rest
      decreases |tokens| - pos, 2
    {
      ghost var start := Remaining();
      ClimbStep(env, start, prec);
      var token := Consume();
      if token == EndOfFile {
        return Err;
      }
      assert start == [token] + start[1..];
      r := ParsePrefix(token);
      if r.Err? {
        return;
      }
      ghost var left := Prefix(start).tree;
      while prec < Precedence(Peek())
        invariant old(pos) < pos <= |tokens|
        invariant Eval(env, left) == r && r.Ok?
        invariant Continue(left, Remaining(), prec) == Climb(start, prec)
        decreases |tokens| - pos
      {
        ghost var toks := Remaining();
        InfixStep(env, left, toks, prec);
        var op := Consume();
        var infix := ParseInfix(op, r.value);
        if infix.Err? {
          return Err;
        }
        left := Binary(left, op.op, Climb(toks[1..], Precedence(op)).tree);
        r := infix;
      }
    }

    /** `token` has just been consumed. */
    method ParsePrefix(token: Token) returns (r: Result<u32>)
      requires pos <= |tokens|
      modifies this`pos
      ensures old(pos) <= pos <= |tokens|
      ensures r == Outcome(env, Prefix([token] + old(Remaining())))
      ensures r.Ok? ==> Remaining() == Prefix([token] + old(Remaining())).rest
      decreases |tokens| - pos, 5
    {
      ghost var start := Remaining();
      assert ([token] + start)[1..] == start;
      match token
      case Int(v) => r := Ok(v);
      case Identifier(s) =>
        if s == "tid" {
          r := if env.threadId.None? then Err else Ok(env.threadId.value);
        } else {
          r := Err;
        }
      case Register(s) => r := Resolve(env, s);
      case LParen =>
        r := ParseExpression(LOWEST);
        if r.Err? {
          return;
        }
        if Peek() != RParen {
          return Err;
        }
        var _ := Consume();
      case At =>
        if Peek() == LParen {
          var _ := Consume();
          assert ([token] + start)[2..] == start[1..] == Remaining();
          r := ParseSized();
        } else {
          r := ParseBare();
        }
      case _ => r := Err;
    }

    /** After `@(`: an address, optionally a comma and a size, and the closing parenthesis. */
    method ParseSized() returns (r: Result<u32>)
      requires pos <= |tokens|
      modifies this`pos
      ensures old(pos) <= pos <= |tokens|
      ensures r == Outcome(env, Sized(old(Remaining())))
      ensures r.Ok? ==> Remaining() == Sized(old(Remaining())).rest
      decreases |tokens| - pos, 3
    {
      var addr := ParseExpression(LOWEST);
      if addr.Err? {
        return Err;
      }
      var size := 4;
      if Peek() == Comma {
        var _ := Consume();
        var s := ParseExpression(LOWEST);
        if s.Err? {
          return Err;
        }
        size := s.value;
      }
      if Peek() != RParen {
        return Err;
      }
      var _ := Consume();
      r := ReadMemory(addr.value, size);
    }

    /** After a bare `@`: an operand and an optional bracketed offset. */
    method ParseBare() returns (r: Result<u32>)
      requires pos <= |tokens|
      modifies this`pos
      ensures old(pos) <= pos <= |tokens|
      ensures r == Outcome(env, Bare(old(Remaining())))
      ensures r.Ok? ==> Remaining() == Bare(old(Remaining())).rest
      decreases |tokens| - pos, 4
    {
      ghost var start := Remaining();
      var base := ParseExpression(HIGHEST);
      BareStep(env, start);
      if base.Err? {
        return Err;
      }
      var addr: u32 := base.value;
      if Peek() == LBracket {
        var _ := Consume();
        var offset := ParseExpression(LOWEST);
        if offset.Err? {
          return Err;
        }
        if Peek() != RBracket {
          return Err;
        }
        var _ := Consume();
        addr := (addr + offset.value) % TWO_32;
      }
      r := ReadMemory(addr, 4);
    }

    /** `token` is the operator just consumed and `left` the value before it. */
    method ParseInfix(token: Token, left: u32) returns (r: Result<u32>)
      requires pos <= |tokens|
      modifies this`pos
      ensures old(pos) <= pos <= |tokens|
      ensures var right := Climb(old(Remaining()), Precedence(token));
              && (r.Ok? ==> token.Operator? && right.Done? && Remaining() == right.rest)
              && (token.Operator? ==>
                    r == match Outcome(env, right)
                         case Ok(v) => Ok(Apply(token.op, left, v))
                         case Err => Err)
      decreases |tokens| - pos, 3
    {
      var right := ParseExpression(Precedence(token));
      if right.Err? {
        return Err;
      }
      if token.Operator? {
        r := Ok(Apply(token.op, left, right.value));
      } else {
        r := Err;
      }
    }

    /** Tokenizes and evaluates a whole text. */
    method Parse(expr: string) returns (r: Result<u32>)
      modifies this
      ensures r == EvaluateText(env, expr)
    {
      var toks := Lexer.Tokenize(expr);
      if toks.Err? {
        return Err;
      }
      tokens, pos := toks.value, 0;
      assert Remaining() == toks.value;
      if Peek() == EndOfFile {
        assert Prefix(toks.value).Fail?;
        return Err;
      }
      r := ParseExpression(LOWEST);
      if r.Ok? && Peek() != EndOfFile {
        return Err;
      }
    }
  }

  /** What parsing a text must deliver. */
  function EvaluateText(env: Env, expr: string): Result<u32>
  {
    var toks := Lexer.Lex(expr);
    if toks.Err? then Err else Evaluate(env, toks.value)
  }

  /** Printing any sentence and parsing the text yields the meaning of its tree, error or value. */
  lemma ParsePrint(env: Env, t: Tree)
    requires Stratified(t)
    requires forall i | 0 <= i < |Yield(t)| :: Lexer.Writable(Yield(t)[i])
    ensures EvaluateText(env, Lexer.Print(Yield(t))) == Eval(env, t)
  {
    Lexer.LexPrint(Yield(t));
    ClimbIffSentence(Yield(t) + [EndOfFile], t, [EndOfFile]);
  }
}
