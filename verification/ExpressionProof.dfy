/** The proof that precedence climbing accepts exactly the grammar: every tree it returns is a sentence of
    the consumed tokens, and every sentence is returned. */
module ExpressionProof {
  import opened Common
  import opened ExpressionGrammar
  import opened ExpressionClimb

  // ---------------------------------------------------------------- sentences in front of a rest

  /** `Yield(t) + rest`, built one token at a time. */
  function Before(t: Tree, rest: seq<Token>): seq<Token>
  {
    match t
    case Literal(v) => [Int(v)] + rest
    case Name(s) => [Identifier(s)] + rest
    case Reg(s) => [Register(s)] + rest
    case Paren(e) => [LParen] + Before(e, [RParen] + rest)
    case Read(a, None) => [At] + ([LParen] + Before(a, [RParen] + rest))
    case Read(a, Some(s)) => [At] + ([LParen] + Before(a, [Comma] + Before(s, [RParen] + rest)))
    case Deref(p, None) => [At] + Before(p, rest)
    case Deref(p, Some(e)) => [At] + Before(p, [LBracket] + Before(e, [RBracket] + rest))
    case Binary(l, op, r) => Before(l, [Operator(op)] + Before(r, rest))
  }

  lemma {:induction false} BeforeIsYield(t: Tree, rest: seq<Token>)
    ensures Before(t, rest) == Yield(t) + rest
  {
    match t
    case Literal(_) =>
    case Name(_) =>
    case Reg(_) =>
    case Paren(e) =>
      BeforeIsYield(e, [RParen] + rest);
      Enclosed([LParen], Yield(e), [RParen], rest);
    case Read(a, None) =>
      BeforeIsYield(a, [RParen] + rest);
      TwoInFront(Yield(a) + ([RParen] + rest));
      Enclosed([At, LParen], Yield(a), [RParen], rest);
    case Read(a, Some(s)) =>
      BeforeIsYield(s, [RParen] + rest);
      BeforeIsYield(a, [Comma] + Before(s, [RParen] + rest));
      TwoInFront(Yield(a) + ([Comma] + (Yield(s) + ([RParen] + rest))));
      Flat([At, LParen], Yield(a), [Comma], Yield(s), [RParen], rest);
    case Deref(p, None) =>
      BeforeIsYield(p, rest);
      Associative([At], Yield(p), rest);
    case Deref(p, Some(e)) =>
      BeforeIsYield(e, [RBracket] + rest);
      BeforeIsYield(p, [LBracket] + Before(e, [RBracket] + rest));
      Flat([At], Yield(p), [LBracket], Yield(e), [RBracket], rest);
    case Binary(l, op, r) =>
      BeforeIsYield(r, rest);
      BeforeIsYield(l, [Operator(op)] + Before(r, rest));
      Enclosed(Yield(l), [Operator(op)], Yield(r), rest);
  }

  lemma TwoInFront(tail: seq<Token>)
    ensures [At] + ([LParen] + tail) == [At, LParen] + tail
  {
  }

  lemma Enclosed(u: seq<Token>, v: seq<Token>, w: seq<Token>, z: seq<Token>)
    ensures u + (v + (w + z)) == (u + v + w) + z
  {
  }

  lemma Flat(u: seq<Token>, v: seq<Token>, w: seq<Token>, x: seq<Token>, y: seq<Token>, z: seq<Token>)
    ensures u + (v + (w + (x + (y + z)))) == (u + v + w + x + y) + z
  {
    Enclosed(u, v, w, x + (y + z));
    Enclosed(u + v + w, x, y, z);
  }

  lemma Split(toks: seq<Token>)
    requires Head(toks) != EndOfFile
    ensures toks == [Head(toks)] + toks[1..]
  {
  }

  lemma Push(tok: Token, toks: seq<Token>)
    ensures Head([tok] + toks) == tok && ([tok] + toks)[1..] == toks
  {
  }

  // ---------------------------------------------------------------- soundness

  /** The rightmost part of the tree is an `@p` that could still take an offset. */
  predicate EndsOpen(t: Tree)
  {
    match t
    case Deref(_, None) => true
    case Binary(_, _, r) => EndsOpen(r)
    case _ => false
  }

  /** `rest` does not extend the tree: no tighter operator and no offset for an open end. */
  predicate Stops(t: Tree, rest: seq<Token>, prec: nat)
  {
    Precedence(Head(rest)) <= prec && (EndsOpen(t) ==> Head(rest) != LBracket)
  }

  lemma {:induction false} ClimbSound(toks: seq<Token>, prec: nat)
    requires LOWEST <= prec <= HIGHEST
    ensures var r := Climb(toks, prec);
            r.Done? ==> && Stratified(r.tree) && Strength(r.tree) > prec
                        && toks == Before(r.tree, r.rest)
                        && Stops(r.tree, r.rest, prec)
    decreases |toks|, 2
  {
    PrefixSound(toks);
    var p := Prefix(toks);
    if p.Done? {
      ContinueSound(p.tree, p.rest, prec);
    }
  }

  lemma {:induction false} ContinueSound(left: Tree, toks: seq<Token>, prec: nat)
    requires LOWEST <= prec <= HIGHEST
    requires Stratified(left) && Strength(left) > prec
    requires Precedence(Head(toks)) <= Strength(left)
    requires EndsOpen(left) ==> Head(toks) != LBracket
    ensures var r := Continue(left, toks, prec);
            r.Done? ==> && Stratified(r.tree) && Strength(r.tree) > prec
                        && Before(left, toks) == Before(r.tree, r.rest)
                        && Stops(r.tree, r.rest, prec)
    decreases |toks|, 1
  {
    if prec < Precedence(Head(toks)) && Head(toks).Operator? {
      var q := Precedence(toks[0]);
      ClimbSound(toks[1..], q);
      var right := Climb(toks[1..], q);
      if right.Done? {
        Split(toks);
        ContinueSound(Binary(left, toks[0].op, right.tree), right.rest, prec);
      }
    }
  }

  lemma {:induction false} PrefixSound(toks: seq<Token>)
    ensures var r := Prefix(toks);
            r.Done? ==> && Stratified(r.tree) && !r.tree.Binary?
                        && toks == Before(r.tree, r.rest)
                        && (EndsOpen(r.tree) ==> Head(r.rest) != LBracket)
                        && (r.tree.Paren? ==> Head(toks) == LParen)
    decreases |toks|, 1
  {
    match Head(toks)
    case LParen =>
      ClimbSound(toks[1..], LOWEST);
      var e := Climb(toks[1..], LOWEST);
      if e.Done? && Head(e.rest) == RParen {
        Split(toks);
        Split(e.rest);
      }
    case At =>
      Split(toks);
      if Head(toks[1..]) == LParen {
        Split(toks[1..]);
        assert toks[1..][1..] == toks[2..];
        SizedSound(toks[2..]);
      } else {
        BareSound(toks[1..]);
      }
    case _ =>
      if Head(toks) != EndOfFile { Split(toks); }
  }

  lemma {:induction false} SizedSound(toks: seq<Token>)
    ensures var r := Sized(toks);
            r.Done? ==> && Stratified(r.tree) && r.tree.Read?
                        && [At] + ([LParen] + toks) == Before(r.tree, r.rest)
    decreases |toks|, 3
  {
    ClimbSound(toks, LOWEST);
    var a := Climb(toks, LOWEST);
    if a.Fail? {
    } else if Head(a.rest) == RParen {
      Split(a.rest);
    } else if Head(a.rest) == Comma {
      Split(a.rest);
      ClimbSound(a.rest[1..], LOWEST);
      var s := Climb(a.rest[1..], LOWEST);
      if s.Done? && Head(s.rest) == RParen { Split(s.rest); }
    }
  }

  lemma {:induction false} BareSound(toks: seq<Token>)
    requires Head(toks) != LParen
    ensures var r := Bare(toks);
            r.Done? ==> && Stratified(r.tree) && r.tree.Deref?
                        && [At] + toks == Before(r.tree, r.rest)
                        && (EndsOpen(r.tree) ==> Head(r.rest) != LBracket)
    decreases |toks|, 3
  {
    ClimbSound(toks, HIGHEST);
    var p := Climb(toks, HIGHEST);
    if p.Done? {
      OperandStart(p.tree, p.rest);
      if Head(p.rest) == LBracket {
        Split(p.rest);
        ClimbSound(p.rest[1..], LOWEST);
        var e := Climb(p.rest[1..], LOWEST);
        if e.Done? && Head(e.rest) == RBracket { Split(e.rest); }
      }
    }
  }

  lemma OperandStart(p: Tree, rest: seq<Token>)
    requires !p.Binary?
    ensures Head(Before(p, rest)) == LParen <==> p.Paren?
  {
  }

  // ---------------------------------------------------------------- completeness

  /** Climbing over a sentence reaches the point where that sentence is the left operand. */
  lemma {:induction false} ClimbReaches(t: Tree, rest: seq<Token>, prec: nat)
    requires LOWEST <= prec <= HIGHEST
    requires Stratified(t) && Strength(t) > prec
    requires Stops(t, rest, Strength(t))
    ensures Climb(Before(t, rest), prec) == Continue(t, rest, prec)
    decreases t, 2
  {
    if t.Binary? {
      var Binary(l, op, r) := t;
      var tail := [Operator(op)] + Before(r, rest);
      Push(Operator(op), Before(r, rest));
      ClimbReaches(l, tail, prec);
      ClimbReaches(r, rest, OpPrecedence(op));
    } else {
      PrefixReaches(t, rest);
    }
  }

  /** A sentence closed by a token that is no operator is parsed whole. */
  lemma {:induction false} ClosedReaches(t: Tree, close: Token, rest: seq<Token>)
    requires Stratified(t) && close in {RParen, Comma, RBracket}
    ensures Climb(Before(t, [close] + rest), LOWEST) == Done(t, [close] + rest)
    ensures Head([close] + rest) == close && ([close] + rest)[1..] == rest
    decreases t, 3
  {
    Push(close, rest);
    ClimbReaches(t, [close] + rest, LOWEST);
  }

  lemma {:induction false} PrefixReaches(t: Tree, rest: seq<Token>)
    requires Stratified(t) && !t.Binary?
    requires EndsOpen(t) ==> Head(rest) != LBracket
    ensures Prefix(Before(t, rest)) == Done(t, rest)
    decreases t, 1
  {
    match t
    case Literal(v) => Push(Int(v), rest);
    case Name(s) => Push(Identifier(s), rest);
    case Reg(s) => Push(Register(s), rest);
    case Paren(e) =>
      Push(LParen, Before(e, [RParen] + rest));
      ClosedReaches(e, RParen, rest);
    case Read(a, s) => ReadReaches(a, s, rest);
    case Deref(p, o) => DerefReaches(p, o, rest);
  }

  lemma {:induction false} ReadReaches(a: Tree, s: Option<Tree>, rest: seq<Token>)
    requires Stratified(Read(a, s))
    ensures Prefix(Before(Read(a, s), rest)) == Done(Read(a, s), rest)
    decreases Read(a, s), 0
  {
    var body := if s.None? then Before(a, [RParen] + rest)
                else Before(a, [Comma] + Before(s.value, [RParen] + rest));
    AtParen(body);
    match s
    case None => ClosedReaches(a, RParen, rest);
    case Some(e) =>
      ClosedReaches(a, Comma, Before(e, [RParen] + rest));
      ClosedReaches(e, RParen, rest);
  }

  lemma AtParen(body: seq<Token>)
    ensures Prefix([At] + ([LParen] + body)) == Sized(body)
  {
    Push(At, [LParen] + body);
    Push(LParen, body);
    assert ([At] + ([LParen] + body))[2..] == body;
  }

  lemma {:induction false} DerefReaches(p: Tree, o: Option<Tree>, rest: seq<Token>)
    requires Stratified(Deref(p, o))
    requires o.None? ==> Head(rest) != LBracket
    ensures Prefix(Before(Deref(p, o), rest)) == Done(Deref(p, o), rest)
    decreases Deref(p, o), 0
  {
    var after := if o.None? then rest else [LBracket] + Before(o.value, [RBracket] + rest);
    Push(At, Before(p, after));
    OperandStart(p, after);
    if o.Some? {
      Push(LBracket, Before(o.value, [RBracket] + rest));
      ClosedReaches(o.value, RBracket, rest);
    }
    ClimbReaches(p, after, HIGHEST);
  }

  // ---------------------------------------------------------------- main results

  /** The parser returns a tree exactly when the tree is the sentence in front of it. */
  lemma ClimbIffSentence(toks: seq<Token>, t: Tree, rest: seq<Token>)
    ensures Climb(toks, LOWEST) == Done(t, rest) <==>
            Stratified(t) && toks == Yield(t) + rest && Stops(t, rest, LOWEST)
  {
    ClimbSound(toks, LOWEST);
    BeforeIsYield(t, rest);
    if Stratified(t) && toks == Yield(t) + rest && Stops(t, rest, LOWEST) {
      ClimbReaches(t, rest, LOWEST);
    }
  }

  /** The grammar is unambiguous. */
  lemma Unambiguous(t: Tree, u: Tree)
    requires Stratified(t) && Stratified(u) && Yield(t) == Yield(u)
    ensures t == u
  {
    ClimbIffSentence(Yield(t) + [], t, []);
    ClimbIffSentence(Yield(t) + [], u, []);
  }

  /** What the one-pass evaluator must deliver for a whole token list. */
  function Evaluate(env: Env, toks: seq<Token>): Result<u32>
  {
    var p := Climb(toks, LOWEST);
    if p.Done? && Head(p.rest) == EndOfFile then Eval(env, p.tree) else Err
  }

  /** The tokens before the first end of file. */
  function Body(toks: seq<Token>): (r: seq<Token>)
    ensures r <= toks && EndOfFile !in r
    ensures r == toks || toks[|r|] == EndOfFile
  {
    if toks == [] || toks[0] == EndOfFile then [] else [toks[0]] + Body(toks[1..])
  }

  lemma {:induction false} YieldHasNoEnd(t: Tree)
    ensures EndOfFile !in Yield(t)
  {
    match t
    case Literal(_) =>
    case Name(_) =>
    case Reg(_) =>
    case Paren(e) => YieldHasNoEnd(e);
    case Read(a, None) => YieldHasNoEnd(a);
    case Read(a, Some(s)) => YieldHasNoEnd(a); YieldHasNoEnd(s);
    case Deref(p, None) => YieldHasNoEnd(p);
    case Deref(p, Some(e)) => YieldHasNoEnd(p); YieldHasNoEnd(e);
    case Binary(l, op, r) => YieldHasNoEnd(l); YieldHasNoEnd(r);
  }

  lemma BodyUnique(toks: seq<Token>, a: seq<Token>, rest: seq<Token>)
    requires toks == a + rest && EndOfFile !in a && Head(rest) == EndOfFile
    ensures a == Body(toks)
  {
    var b := Body(toks);
    assert |a| < |toks| ==> toks[|a|] == EndOfFile;
    assert forall i | 0 <= i < |a| :: a[i] == toks[i];
    assert forall i | 0 <= i < |b| :: b[i] == toks[i];
    assert |a| == |b|;
  }

  /** Main theorem: evaluation succeeds with `v` exactly when the tokens before the end of file
      are a sentence of the grammar whose meaning is `v`. */
  lemma EvaluateIffMeans(env: Env, toks: seq<Token>, v: u32)
    ensures Evaluate(env, toks) == Ok(v) <==> Means(env, Body(toks), v)
  {
    if Evaluate(env, toks) == Ok(v) {
      var p := Climb(toks, LOWEST);
      ClimbIffSentence(toks, p.tree, p.rest);
      YieldHasNoEnd(p.tree);
      BodyUnique(toks, Yield(p.tree), p.rest);
    }
    if Means(env, Body(toks), v) {
      var t :| Stratified(t) && Yield(t) == Body(toks) && Eval(env, t) == Ok(v);
      var rest := toks[|Body(toks)|..];
      assert toks == Yield(t) + rest && Head(rest) == EndOfFile;
      ClimbIffSentence(toks, t, rest);
    }
  }
}
