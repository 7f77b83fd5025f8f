/** The expression language of breakpoint conditions and shell arguments: its tokens, its
    grammar, and the meaning of a sentence. Nothing here mentions how the parser works. */
module ExpressionGrammar {
  import opened Common

  datatype Op = Or | And | Eq | NotEq | Lt | Gt | Lte | Gte | Plus | Minus | Asterisk

  datatype Token =
    | EndOfFile
    | Identifier(literal: string)
    | Int(value: u32)
    | Register(name: string)
    | Operator(op: Op)
    | At | LParen | RParen | Comma | LBracket | RBracket

  // Binding strengths, numbered as in the source.
  const LOWEST := 1
  const CALL := 9
  const HIGHEST := 10
  // Strength of an operand; no context binds tighter.
  const OPERAND := 11

  function OpPrecedence(op: Op): (p: nat)
    ensures LOWEST < p < CALL
  {
    match op
    case Or => 2
    case And => 3
    case Eq | NotEq => 4
    case Lt | Gt | Lte | Gte => 5
    case Plus | Minus => 6
    case Asterisk => 7
  }

  /** Sentences of the grammar, as trees. */
  datatype Tree =
    | Literal(value: u32)
    | Name(literal: string)
    | Reg(name: string)
    | Paren(inner: Tree)                               // ( e )
    | Read(addr: Tree, size: Option<Tree>)             // @( e )  or  @( e , e )
    | Deref(base: Tree, offset: Option<Tree>)          // @p  or  @p[ e ]
    | Binary(left: Tree, op: Op, right: Tree)

  /** The token list a tree stands for. */
  function Yield(t: Tree): seq<Token>
  {
    match t
    case Literal(v) => [Int(v)]
    case Name(s) => [Identifier(s)]
    case Reg(s) => [Register(s)]
    case Paren(e) => [LParen] + Yield(e) + [RParen]
    case Read(a, None) => [At, LParen] + Yield(a) + [RParen]
    case Read(a, Some(s)) => [At, LParen] + Yield(a) + [Comma] + Yield(s) + [RParen]
    case Deref(p, None) => [At] + Yield(p)
    case Deref(p, Some(e)) => [At] + Yield(p) + [LBracket] + Yield(e) + [RBracket]
    case Binary(l, op, r) => Yield(l) + [Operator(op)] + Yield(r)
  }

  function Strength(t: Tree): nat
  {
    if t.Binary? then OpPrecedence(t.op) else OPERAND
  }

  /** Operators are stratified and associate to the left; a bare `@` takes an operand that does
      not open with a parenthesis, and an offset belongs to the innermost `@` that can take it. */
  predicate Stratified(t: Tree)
  {
    match t
    case Literal(_) | Name(_) | Reg(_) => true
    case Paren(e) => Stratified(e)
    case Read(a, s) => Stratified(a) && (s.Some? ==> Stratified(s.value))
    case Deref(p, o) =>
      && Stratified(p) && !p.Binary? && !p.Paren?
      && (o.Some? ==> Stratified(o.value) && !(p.Deref? && p.offset.None?))
    case Binary(l, op, r) =>
      && Stratified(l) && Stratified(r)
      && Strength(l) >= OpPrecedence(op) && Strength(r) > OpPrecedence(op)
  }

  // ---------------------------------------------------------------- meaning

  /** What an expression is evaluated against. */
  datatype Env = Env(
    context: map<string, u32>,
    threadId: Option<u32>,
    reader: Option<(u32, u32) -> Result<seq<byte>>>)

  function Truth(b: bool): u32 { if b then 1 else 0 }

  function Apply(op: Op, a: u32, b: u32): u32
  {
    match op
    case Or => Truth(a != 0 || b != 0)
    case And => Truth(a != 0 && b != 0)
    case Eq => Truth(a == b)
    case NotEq => Truth(a != b)
    case Lt => Truth(a < b)
    case Gt => Truth(a > b)
    case Lte => Truth(a <= b)
    case Gte => Truth(a >= b)
    case Plus => (a + b) % TWO_32
    case Minus => (a - b) % TWO_32
    case Asterisk => (a * b) % TWO_32
  }

  function Full(env: Env, name: string): Result<u32>
  {
    if name in env.context then Ok(env.context[name]) else Err
  }

  function Part(r: Result<u32>, shift: nat, width: nat): Result<u32>
    requires shift > 0 && width > 0
  {
    if r.Err? then Err
    else if r.value / shift % width < TWO_32 then Ok(r.value / shift % width) else Err
  }

  /** Register lookup, with the 16- and 8-bit views of the 32-bit registers. */
  function Resolve(env: Env, reg: string): Result<u32>
  {
    var lower := Lower(reg);
    if lower in {"eax", "ebx", "ecx", "edx", "esi", "edi", "ebp", "esp", "eip", "eflags"} then
      Full(env, lower)
    else if lower in {"ax", "bx", "cx", "dx", "si", "di"} then
      Part(Full(env, "e" + lower), 1, 0x10000)
    else if lower in {"ah", "bh", "ch", "dh"} then
      Part(Full(env, "e" + lower[..1] + "x"), 0x100, 0x100)
    else if lower in {"al", "bl", "cl", "dl"} then
      Part(Full(env, "e" + lower[..1] + "x"), 1, 0x100)
    else Err
  }

  /** A read of up to four bytes, least significant first. */
  function PerformRead(env: Env, addr: u32, size: u32): Result<u32>
  {
    if env.reader.None? || size > 4 then Err
    else
      var data := env.reader.value(addr, size);
      if data.Err? || |data.value| != size then Err
      else
        var v := LittleEndian(data.value);
        if v < TWO_32 then Ok(v) else Err
  }

  function Lookup(env: Env, literal: string): Result<u32>
  {
    if literal == "tid" && env.threadId.Some? then Ok(env.threadId.value) else Err
  }

  /** Evaluation modulo 2^32. Any failing part fails the whole; `&&` and `||` do not shield. */
  function Eval(env: Env, t: Tree): Result<u32>
  {
    match t
    case Literal(v) => Ok(v)
    case Name(s) => Lookup(env, s)
    case Reg(s) => Resolve(env, s)
    case Paren(e) => Eval(env, e)
    case Read(a, None) =>
      var x := Eval(env, a);
      if x.Err? then Err else PerformRead(env, x.value, 4)
    case Read(a, Some(s)) =>
      var x, n := Eval(env, a), Eval(env, s);
      if x.Err? || n.Err? then Err else PerformRead(env, x.value, n.value)
    case Deref(p, None) =>
      var x := Eval(env, p);
      if x.Err? then Err else PerformRead(env, x.value, 4)
    case Deref(p, Some(e)) =>
      var x, o := Eval(env, p), Eval(env, e);
      if x.Err? || o.Err? then Err else PerformRead(env, (x.value + o.value) % TWO_32, 4)
    case Binary(l, op, r) =>
      var x, y := Eval(env, l), Eval(env, r);
      if x.Err? || y.Err? then Err else Ok(Apply(op, x.value, y.value))
  }

  /** The sentence `tokens` means `v` in `env`. */
  ghost predicate Means(env: Env, tokens: seq<Token>, v: u32)
  {
    exists t :: Stratified(t) && Yield(t) == tokens && Eval(env, t) == Ok(v)
  }

  // ---------------------------------------------------------------- reads

  /** Four bytes always fit in a word, so a read of the requested size never overflows. */
  lemma {:induction false} LittleEndianBound(data: seq<byte>)
    requires |data| <= 4
    ensures LittleEndian(data) < TWO_32
    ensures |data| <= 3 ==> LittleEndian(data) < 0x100_0000
    ensures |data| <= 2 ==> LittleEndian(data) < 0x1_0000
    ensures |data| <= 1 ==> LittleEndian(data) < 0x100
    ensures |data| == 0 ==> LittleEndian(data) == 0
  {
    if data != [] { LittleEndianBound(data[1..]); }
  }

  /** A read succeeds exactly when a reader is present, at most four bytes are asked for and
      exactly that many come back. */
  lemma ReadSucceedsIff(env: Env, addr: u32, size: u32)
    ensures PerformRead(env, addr, size).Ok? <==>
            && env.reader.Some? && size <= 4
            && env.reader.value(addr, size).Ok?
            && |env.reader.value(addr, size).value| == size
  {
    if env.reader.Some? && size <= 4 && env.reader.value(addr, size).Ok?
       && |env.reader.value(addr, size).value| == size {
      LittleEndianBound(env.reader.value(addr, size).value);
    }
  }
}
