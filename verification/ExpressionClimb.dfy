/** Precedence climbing as a function from token lists to trees. */
module ExpressionClimb {
  import opened Common
  import opened ExpressionGrammar

  datatype Parsed = Fail | Done(tree: Tree, rest: seq<Token>)

  /** The next token; past the end there is only end of file. */
  function Head(toks: seq<Token>): Token
  {
    if toks == [] then EndOfFile else toks[0]
  }

  function Precedence(tok: Token): nat
  {
    match tok
    case Operator(op) => OpPrecedence(op)
    case LParen => CALL
    case _ => LOWEST
  }

  /** One operand, then as many operators as bind tighter than `prec`. */
  function Climb(toks: seq<Token>, prec: nat): (r: Parsed)
    ensures r.Done? ==> |r.rest| < |toks|
    decreases |toks|, 2
  {
    var p := Prefix(toks);
    if p.Fail? then Fail else Continue(p.tree, p.rest, prec)
  }

  function Continue(left: Tree, toks: seq<Token>, prec: nat): (r: Parsed)
    ensures r.Done? ==> |r.rest| <= |toks|
    decreases |toks|, 1
  {
    if prec >= Precedence(Head(toks)) then Done(left, toks)
    else if !Head(toks).Operator? then Fail  // an opening parenthesis after an operand
    else
      var right := Climb(toks[1..], Precedence(toks[0]));
      if right.Fail? then Fail
      else Continue(Binary(left, toks[0].op, right.tree), right.rest, prec)
  }

  function Prefix(toks: seq<Token>): (r: Parsed)
    ensures r.Done? ==> |r.rest| < |toks|
    decreases |toks|, 1
  {
    match Head(toks)
    case Int(v) => Done(Literal(v), toks[1..])
    case Identifier(s) => Done(Name(s), toks[1..])
    case Register(s) => Done(Reg(s), toks[1..])
    case LParen =>
      var e := Climb(toks[1..], LOWEST);
      if e.Fail? || Head(e.rest) != RParen then Fail else Done(Paren(e.tree), e.rest[1..])
    case At =>
      if Head(toks[1..]) == LParen then Sized(toks[2..]) else Bare(toks[1..])
    case _ => Fail
  }

  /** What follows `@(`. */
  function Sized(toks: seq<Token>): (r: Parsed)
    ensures r.Done? ==> |r.rest| < |toks|
    decreases |toks|, 3
  {
    var a := Climb(toks, LOWEST);
    if a.Fail? then Fail
    else if Head(a.rest) == RParen then Done(Read(a.tree, None), a.rest[1..])
    else if Head(a.rest) != Comma then Fail
    else
      var s := Climb(a.rest[1..], LOWEST);
      if s.Fail? || Head(s.rest) != RParen then Fail
      else Done(Read(a.tree, Some(s.tree)), s.rest[1..])
  }

  /** What follows `@` when no parenthesis does. */
  function Bare(toks: seq<Token>): (r: Parsed)
    ensures r.Done? ==> |r.rest| < |toks|
    decreases |toks|, 3
  {
    var p := Climb(toks, HIGHEST);
    if p.Fail? then Fail
    else if Head(p.rest) != LBracket then Done(Deref(p.tree, None), p.rest)
    else
      var e := Climb(p.rest[1..], LOWEST);
      if e.Fail? || Head(e.rest) != RBracket then Fail
      else Done(Deref(p.tree, Some(e.tree)), e.rest[1..])
  }
}
