/** What expressions mean, said without ranks, trees or tables: the grammar written out level by level, and the
    values of written expressions as arithmetic. */
module ExpressionLaws {
  import opened Common
  import opened ExpressionGrammar
  import opened ExpressionClimb
  import opened ExpressionProof

  // ---------------------------------------------------------------- the grammar, level by level

  // expr       ::= and  | expr or and
  // and        ::= equality | and and equality
  // equality   ::= relation | equality (== | !=) relation
  // relation   ::= sum | relation (< | > | <= | >=) sum
  // sum        ::= product | sum (+ | -) product
  // product    ::= operand | product * operand

  predicate OrExpr(t: Tree)
    decreases t, 6
  {
    AndExpr(t) || (t.Binary? && t.op == Or && OrExpr(t.left) && AndExpr(t.right))
  }

  predicate AndExpr(t: Tree)
    decreases t, 5
  {
    Equality(t) || (t.Binary? && t.op == And && AndExpr(t.left) && Equality(t.right))
  }

  predicate Equality(t: Tree)
    decreases t, 4
  {
    Relation(t) || (t.Binary? && (t.op == Eq || t.op == NotEq) && Equality(t.left) && Relation(t.right))
  }

  predicate Relation(t: Tree)
    decreases t, 3
  {
    || Sum(t)
    || (t.Binary? && (t.op == Lt || t.op == Gt || t.op == Lte || t.op == Gte) && Relation(t.left) && Sum(t.right))
  }

  predicate Sum(t: Tree)
    decreases t, 2
  {
    Product(t) || (t.Binary? && (t.op == Plus || t.op == Minus) && Sum(t.left) && Product(t.right))
  }

  predicate Product(t: Tree)
    decreases t, 1
  {
    Operand(t) || (t.Binary? && t.op == Asterisk && Product(t.left) && Operand(t.right))
  }

  predicate Operand(t: Tree)
    decreases t, 0
  {
    match t
    case Literal(_) | Name(_) | Reg(_) => true
    case Paren(e) => OrExpr(e)
    case Read(a, s) => OrExpr(a) && (s.Some? ==> OrExpr(s.value))
    case Deref(p, o) =>
      Operand(p) && !p.Paren? && (o.Some? ==> OrExpr(o.value) && !(p.Deref? && p.offset.None?))
    case Binary(_, _, _) => false
  }

  /** The trees of the written-out grammar are exactly the stratified ones. */
  lemma {:induction false} GrammarIff(t: Tree)
    ensures OrExpr(t) <==> Stratified(t)
    ensures AndExpr(t) <==> Stratified(t) && (t.Binary? ==> t.op != Or)
    ensures Equality(t) <==> Stratified(t) && (t.Binary? ==> t.op != Or && t.op != And)
    ensures Relation(t) <==> Stratified(t) && (t.Binary? ==> t.op !in {Or, And, Eq, NotEq})
    ensures Sum(t) <==> Stratified(t) && (t.Binary? ==> t.op in {Plus, Minus, Asterisk})
    ensures Product(t) <==> Stratified(t) && (t.Binary? ==> t.op == Asterisk)
    ensures Operand(t) <==> Stratified(t) && !t.Binary?
  {
    match t {
      case Literal(_) =>
      case Name(_) =>
      case Reg(_) =>
      case Paren(e) => GrammarIff(e);
      case Read(a, s) =>
        GrammarIff(a);
        if s.Some? { GrammarIff(s.value); }
      case Deref(p, o) =>
        GrammarIff(p);
        if o.Some? { GrammarIff(o.value); }
      case Binary(l, op, r) =>
        GrammarIff(l);
        GrammarIff(r);
    }
    assert Product(t) <==> Stratified(t) && (t.Binary? ==> t.op == Asterisk);
    assert Sum(t) <==> Stratified(t) && (t.Binary? ==> t.op in {Plus, Minus, Asterisk});
    assert Relation(t) <==> Stratified(t) && (t.Binary? ==> t.op !in {Or, And, Eq, NotEq});
    assert Equality(t) <==> Stratified(t) && (t.Binary? ==> t.op != Or && t.op != And);
    assert AndExpr(t) <==> Stratified(t) && (t.Binary? ==> t.op != Or);
  }

  /** A token list evaluates to a value exactly when the written-out grammar derives it with that value. */
  lemma EvaluateIffDerived(env: Env, toks: seq<Token>, v: u32)
    ensures Evaluate(env, toks) == Ok(v) <==>
            exists t :: OrExpr(t) && Yield(t) == Body(toks) && Eval(env, t) == Ok(v)
  {
    EvaluateIffMeans(env, toks, v);
    if Means(env, Body(toks), v) {
      var t :| Stratified(t) && Yield(t) == Body(toks) && Eval(env, t) == Ok(v);
      GrammarIff(t);
    }
    if t :| OrExpr(t) && Yield(t) == Body(toks) && Eval(env, t) == Ok(v) {
      GrammarIff(t);
    }
  }

  // ---------------------------------------------------------------- values as arithmetic

  function Two(a: u32, p: Op, b: u32): seq<Token> { [Int(a), Operator(p), Int(b)] }

  function Three(a: u32, p: Op, b: u32, q: Op, c: u32): seq<Token>
  {
    [Int(a), Operator(p), Int(b), Operator(q), Int(c)]
  }

  lemma Whole(env: Env, toks: seq<Token>, t: Tree)
    requires Stratified(t) && Yield(t) == toks
    ensures Evaluate(env, toks) == Eval(env, t)
  {
    assert toks == Yield(t) + [];
    ClimbIffSentence(toks, t, []);
  }

  lemma TwoIs(env: Env, a: u32, p: Op, b: u32)
    ensures Evaluate(env, Two(a, p, b)) == Ok(Apply(p, a, b))
  {
    Whole(env, Two(a, p, b), Binary(Literal(a), p, Literal(b)));
  }

  lemma ThreeIs(env: Env, a: u32, p: Op, b: u32, q: Op, c: u32)
    ensures Evaluate(env, Three(a, p, b, q, c)) ==
            if OpPrecedence(p) >= OpPrecedence(q) then Ok(Apply(q, Apply(p, a, b), c))
            else Ok(Apply(p, a, Apply(q, b, c)))
  {
    var x, y, z := Literal(a), Literal(b), Literal(c);
    if OpPrecedence(p) >= OpPrecedence(q) {
      var left := Binary(x, p, y);
      assert Yield(left) == Two(a, p, b);
      assert Yield(Binary(left, q, z)) == Two(a, p, b) + [Operator(q)] + [Int(c)];
      assert Eval(env, left) == Ok(Apply(p, a, b));
      Whole(env, Three(a, p, b, q, c), Binary(left, q, z));
    } else {
      var right := Binary(y, q, z);
      assert Yield(right) == Two(b, q, c);
      assert Yield(Binary(x, p, right)) == [Int(a)] + [Operator(p)] + Two(b, q, c);
      assert Eval(env, right) == Ok(Apply(q, b, c));
      Whole(env, Three(a, p, b, q, c), Binary(x, p, right));
    }
  }

  /** Each operator, for all operands. */
  lemma OperatorValues(env: Env, a: u32, b: u32)
    ensures Evaluate(env, Two(a, Plus, b)) == Ok((a + b) % 0x1_0000_0000)
    ensures Evaluate(env, Two(a, Minus, b)) == Ok((a - b) % 0x1_0000_0000)
    ensures Evaluate(env, Two(a, Asterisk, b)) == Ok((a * b) % 0x1_0000_0000)
    ensures Evaluate(env, Two(a, Lt, b)) == Ok(if a < b then 1 else 0)
    ensures Evaluate(env, Two(a, Gt, b)) == Ok(if a > b then 1 else 0)
    ensures Evaluate(env, Two(a, Lte, b)) == Ok(if a <= b then 1 else 0)
    ensures Evaluate(env, Two(a, Gte, b)) == Ok(if a >= b then 1 else 0)
    ensures Evaluate(env, Two(a, Eq, b)) == Ok(if a == b then 1 else 0)
    ensures Evaluate(env, Two(a, NotEq, b)) == Ok(if a != b then 1 else 0)
    ensures Evaluate(env, Two(a, And, b)) == Ok(if a == 0 || b == 0 then 0 else 1)
    ensures Evaluate(env, Two(a, Or, b)) == Ok(if a == 0 && b == 0 then 0 else 1)
  {
    forall p
      ensures Evaluate(env, Two(a, p, b)) == Ok(Apply(p, a, b))
    {
      TwoIs(env, a, p, b);
    }
  }

  lemma AddInside(x: int, y: int)
    ensures (x + y % TWO_32) % TWO_32 == (x + y) % TWO_32 == (x % TWO_32 + y) % TWO_32
  {
    var p, q := x / TWO_32, y / TWO_32;
    assert x + y == (x + y % TWO_32) + q * TWO_32;
    assert x + y == (x % TWO_32 + y) + p * TWO_32;
  }

  lemma SubtractInside(x: int, y: int)
    ensures (x - y % TWO_32) % TWO_32 == (x - y) % TWO_32 == (x % TWO_32 - y) % TWO_32
  {
    var p, q := x / TWO_32, y / TWO_32;
    assert x - y == (x - y % TWO_32) - q * TWO_32;
    assert x - y == (x % TWO_32 - y) + p * TWO_32;
  }

  /** Products before sums and differences. */
  lemma SumsOfProducts(env: Env, a: u32, b: u32, c: u32)
    ensures Evaluate(env, Three(a, Plus, b, Asterisk, c)) == Ok((a + b * c) % 0x1_0000_0000)
    ensures Evaluate(env, Three(a, Minus, b, Asterisk, c)) == Ok((a - b * c) % 0x1_0000_0000)
    ensures Evaluate(env, Three(a, Asterisk, b, Plus, c)) == Ok((a * b + c) % 0x1_0000_0000)
    ensures Evaluate(env, Three(a, Asterisk, b, Minus, c)) == Ok((a * b - c) % 0x1_0000_0000)
  {
    AddInside(a, b * c);
    SubtractInside(a, b * c);
    AddInside(a * b, c);
    SubtractInside(a * b, c);
    ThreeIs(env, a, Plus, b, Asterisk, c);
    ThreeIs(env, a, Minus, b, Asterisk, c);
    ThreeIs(env, a, Asterisk, b, Plus, c);
    ThreeIs(env, a, Asterisk, b, Minus, c);
  }

  /** Sums and differences from the left. */
  lemma SumsFromTheLeft(env: Env, a: u32, b: u32, c: u32)
    ensures Evaluate(env, Three(a, Minus, b, Minus, c)) == Ok((a - b - c) % 0x1_0000_0000)
    ensures Evaluate(env, Three(a, Minus, b, Plus, c)) == Ok((a - b + c) % 0x1_0000_0000)
    ensures Evaluate(env, Three(a, Plus, b, Minus, c)) == Ok((a + b - c) % 0x1_0000_0000)
  {
    SubtractInside(a - b, c);
    AddInside(a - b, c);
    SubtractInside(a + b, c);
    ThreeIs(env, a, Minus, b, Minus, c);
    ThreeIs(env, a, Minus, b, Plus, c);
    ThreeIs(env, a, Plus, b, Minus, c);
  }

  lemma AllThree(env: Env, a: u32, b: u32, c: u32)
    ensures forall p, q :: Evaluate(env, Three(a, p, b, q, c)) ==
              if OpPrecedence(p) >= OpPrecedence(q) then Ok(Apply(q, Apply(p, a, b), c))
              else Ok(Apply(p, a, Apply(q, b, c)))
  {
    forall p, q
      ensures Evaluate(env, Three(a, p, b, q, c)) ==
              if OpPrecedence(p) >= OpPrecedence(q) then Ok(Apply(q, Apply(p, a, b), c))
              else Ok(Apply(p, a, Apply(q, b, c)))
    {
      ThreeIs(env, a, p, b, q, c);
    }
  }

  /** Sums before relations, and these from the left. */
  lemma RelationsOfSums(env: Env, a: u32, b: u32, c: u32)
    ensures Evaluate(env, Three(a, Lt, b, Plus, c)) == Ok(if a < (b + c) % 0x1_0000_0000 then 1 else 0)
    ensures Evaluate(env, Three(a, Gt, b, Minus, c)) == Ok(if a > (b - c) % 0x1_0000_0000 then 1 else 0)
    ensures Evaluate(env, Three(a, Plus, b, Lte, c)) == Ok(if (a + b) % 0x1_0000_0000 <= c then 1 else 0)
    ensures Evaluate(env, Three(a, Minus, b, Gte, c)) == Ok(if (a - b) % 0x1_0000_0000 >= c then 1 else 0)
    ensures Evaluate(env, Three(a, Lte, b, Plus, c)) == Ok(if a <= (b + c) % 0x1_0000_0000 then 1 else 0)
    ensures Evaluate(env, Three(a, Gte, b, Minus, c)) == Ok(if a >= (b - c) % 0x1_0000_0000 then 1 else 0)
    ensures Evaluate(env, Three(a, Lt, b, Lt, c)) == Ok(if (if a < b then 1 else 0) < c then 1 else 0)
    ensures Evaluate(env, Three(a, Gt, b, Gte, c)) == Ok(if (if a > b then 1 else 0) >= c then 1 else 0)
  {
    AllThree(env, a, b, c);
  }

  /** Relations before equalities, and these from the left. */
  lemma EqualitiesOfRelations(env: Env, a: u32, b: u32, c: u32)
    ensures Evaluate(env, Three(a, Eq, b, Lt, c)) == Ok(if a == (if b < c then 1 else 0) then 1 else 0)
    ensures Evaluate(env, Three(a, NotEq, b, Gt, c)) == Ok(if a != (if b > c then 1 else 0) then 1 else 0)
    ensures Evaluate(env, Three(a, Lte, b, Eq, c)) == Ok(if (if a <= b then 1 else 0) == c then 1 else 0)
    ensures Evaluate(env, Three(a, Eq, b, Gte, c)) == Ok(if a == (if b >= c then 1 else 0) then 1 else 0)
    ensures Evaluate(env, Three(a, NotEq, b, Lte, c)) == Ok(if a != (if b <= c then 1 else 0) then 1 else 0)
    ensures Evaluate(env, Three(a, Eq, b, Eq, c)) == Ok(if (if a == b then 1 else 0) == c then 1 else 0)
    ensures Evaluate(env, Three(a, Eq, b, NotEq, c)) == Ok(if (if a == b then 1 else 0) != c then 1 else 0)
  {
    AllThree(env, a, b, c);
  }

  /** Equalities before conjunctions, and conjunctions before disjunctions. */
  lemma LogicOfEqualities(env: Env, a: u32, b: u32, c: u32)
    ensures Evaluate(env, Three(a, And, b, Eq, c)) == Ok(if a != 0 && b == c then 1 else 0)
    ensures Evaluate(env, Three(a, And, b, NotEq, c)) == Ok(if a != 0 && b != c then 1 else 0)
    ensures Evaluate(env, Three(a, Eq, b, And, c)) == Ok(if a == b && c != 0 then 1 else 0)
    ensures Evaluate(env, Three(a, Or, b, And, c)) == Ok(if a != 0 || (b != 0 && c != 0) then 1 else 0)
    ensures Evaluate(env, Three(a, And, b, Or, c)) == Ok(if (a != 0 && b != 0) || c != 0 then 1 else 0)
  {
    AllThree(env, a, b, c);
  }

  // ---------------------------------------------------------------- memory, registers, the thread

  /** The reader delivers these bytes for this address. */
  ghost predicate Holds(env: Env, address: u32, data: seq<byte>)
  {
    env.reader.Some? && |data| < TWO_32 && env.reader.value(address, |data|) == Ok(data)
  }

  lemma FourBytes(a: byte, b: byte, c: byte, d: byte)
    ensures LittleEndian([a, b, c, d]) == a + 0x100 * b + 0x1_0000 * c + 0x100_0000 * d
    ensures LittleEndian([a, b]) == a + 0x100 * b && LittleEndian([a]) == a
  {
    assert [a, b, c, d][1..] == [b, c, d] && [b, c, d][1..] == [c, d] && [c, d][1..] == [d] && [d][1..] == [];
    assert [a, b][1..] == [b] && [b][1..] == [] && [a][1..] == [];
    assert LittleEndian([d]) == d && LittleEndian([b]) == b;
    assert LittleEndian([c, d]) == c + 0x100 * d;
    assert LittleEndian([b, c, d]) == b + 0x100 * LittleEndian([c, d]);
  }

  /** All forms of a dereference, for all addresses: four bytes unless told otherwise, the least significant
      first, from the sum of base and offset modulo 2^32. */
  lemma DereferenceValues(env: Env, address: u32, offset: u32, a: byte, b: byte, c: byte, d: byte)
    ensures Holds(env, address, [a, b, c, d]) ==>
              && Evaluate(env, [At, Int(address)]) == Ok(a + 0x100 * b + 0x1_0000 * c + 0x100_0000 * d)
              && Evaluate(env, [At, LParen, Int(address), RParen]) == Evaluate(env, [At, Int(address)])
              && Evaluate(env, [At, LParen, Int(address), Comma, Int(4), RParen]) == Evaluate(env, [At, Int(address)])
    ensures Holds(env, address, [a, b]) ==>
              Evaluate(env, [At, LParen, Int(address), Comma, Int(2), RParen]) == Ok(a + 0x100 * b)
    ensures Holds(env, address, [a]) ==>
              Evaluate(env, [At, LParen, Int(address), Comma, Int(1), RParen]) == Ok(a)
    ensures Evaluate(env, [At, Int(address), LBracket, Int(offset), RBracket]) ==
            Evaluate(env, [At, Int((address + offset) % 0x1_0000_0000)])
  {
    FourBytes(a, b, c, d);
    BareForms(env, address, offset);
    SizedForms(env, address, 1);
    SizedForms(env, address, 2);
    SizedForms(env, address, 4);
  }

  lemma BareForms(env: Env, address: u32, offset: u32)
    ensures Evaluate(env, [At, Int(address)]) == PerformRead(env, address, 4)
    ensures Evaluate(env, [At, Int(address), LBracket, Int(offset), RBracket]) ==
            Evaluate(env, [At, Int((address + offset) % TWO_32)])
  {
    var sum := (address + offset) % TWO_32;
    Whole(env, [At, Int(address)], Deref(Literal(address), None));
    Whole(env, [At, Int(sum)], Deref(Literal(sum), None));
    Whole(env, [At, Int(address), LBracket, Int(offset), RBracket], Deref(Literal(address), Some(Literal(offset))));
  }

  lemma SizedForms(env: Env, address: u32, size: u32)
    ensures Evaluate(env, [At, LParen, Int(address), RParen]) == PerformRead(env, address, 4)
    ensures Evaluate(env, [At, LParen, Int(address), Comma, Int(size), RParen]) == PerformRead(env, address, size)
  {
    Whole(env, [At, LParen, Int(address), RParen], Read(Literal(address), None));
    Whole(env, [At, LParen, Int(address), Comma, Int(size), RParen], Read(Literal(address), Some(Literal(size))));
  }

  /** Parentheses around any sentence change nothing. */
  lemma ParenthesesValue(env: Env, t: Tree)
    requires OrExpr(t)
    ensures Evaluate(env, [LParen] + Yield(t) + [RParen]) == Evaluate(env, Yield(t))
  {
    GrammarIff(t);
    Whole(env, Yield(t), t);
    Whole(env, [LParen] + Yield(t) + [RParen], Paren(t));
  }

  lemma LowerIs(s: string)
    requires forall i | 0 <= i < |s| :: 'a' <= s[i] <= 'z'
    ensures Lower(s) == s
  {
  }

  /** The views of a general register `e?x`: the whole of it, its low half, and the two bytes of that. */
  lemma RegisterViews(env: Env, c: char)
    requires c in "abcd"
    ensures var whole := ['e', c, 'x'];
            var v := if whole in env.context then Ok(env.context[whole]) else Err;
            && Evaluate(env, [Register(whole)]) == v
            && Evaluate(env, [Register([c, 'x'])]) == (if v.Ok? then Ok(v.value % 0x1_0000) else Err)
            && Evaluate(env, [Register([c, 'h'])]) == (if v.Ok? then Ok(v.value / 0x100 % 0x100) else Err)
            && Evaluate(env, [Register([c, 'l'])]) == (if v.Ok? then Ok(v.value % 0x100) else Err)
  {
    WholeRegister(env, ['e', c, 'x']);
    WholeRegister(env, [c, 'x']);
    WholeRegister(env, [c, 'h']);
    WholeRegister(env, [c, 'l']);
    ResolveWords(env, c);
    ResolveBytes(env, c);
  }

  lemma ResolveWords(env: Env, c: char)
    requires c in "abcd"
    ensures Resolve(env, ['e', c, 'x']) == Full(env, ['e', c, 'x'])
    ensures Resolve(env, [c, 'x']) == Part(Full(env, ['e', c, 'x']), 1, 0x1_0000)
  {
    LowerIs(['e', c, 'x']);
    LowerIs([c, 'x']);
    assert ['e', c, 'x'] in {"eax", "ebx", "ecx", "edx"};
    assert [c, 'x'] in {"ax", "bx", "cx", "dx"} && "e" + [c, 'x'] == ['e', c, 'x'];
  }

  lemma ResolveBytes(env: Env, c: char)
    requires c in "abcd"
    ensures Resolve(env, [c, 'h']) == Part(Full(env, ['e', c, 'x']), 0x100, 0x100)
    ensures Resolve(env, [c, 'l']) == Part(Full(env, ['e', c, 'x']), 1, 0x100)
  {
    LowerIs([c, 'h']);
    LowerIs([c, 'l']);
    assert [c, 'h'] in {"ah", "bh", "ch", "dh"} && "e" + [c, 'h'][..1] + "x" == ['e', c, 'x'];
    assert [c, 'l'] in {"al", "bl", "cl", "dl"} && "e" + [c, 'l'][..1] + "x" == ['e', c, 'x'];
  }

  lemma WholeRegister(env: Env, name: string)
    requires forall i | 0 <= i < |name| :: 'a' <= name[i] <= 'z'
    ensures Evaluate(env, [Register(name)]) == Resolve(env, name) && Lower(name) == name
  {
    LowerIs(name);
    Whole(env, [Register(name)], Reg(name));
  }

  /** The thread's id has a name. */
  lemma ThreadValue(env: Env)
    ensures Evaluate(env, [Identifier("tid")]) == (if env.threadId.Some? then Ok(env.threadId.value) else Err)
  {
    Whole(env, [Identifier("tid")], Name("tid"));
  }
}
