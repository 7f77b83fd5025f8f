/** Swizzled (Morton order) offsets: mask generation and the masked increment, on unbounded
    integers with two's complement bitwise operators. */
module Morton {

  // ---------------------------------------------------------------- bit operators

  /** `a & m` for a non-negative mask; a negative `a` has infinitely many leading ones. */
  function And(a: int, m: nat): nat
    decreases m
  {
    if m == 0 then 0
    else (if a % 2 == 1 && m % 2 == 1 then 1 else 0) + 2 * And(a / 2, m / 2)
  }

  function Or(a: nat, b: nat): nat
    decreases a + b
  {
    if a == 0 && b == 0 then 0
    else (if a % 2 == 1 || b % 2 == 1 then 1 else 0) + 2 * Or(a / 2, b / 2)
  }

  function Xor(a: nat, b: nat): nat
    decreases a + b
  {
    if a == 0 && b == 0 then 0
    else (if a % 2 != b % 2 then 1 else 0) + 2 * Xor(a / 2, b / 2)
  }

  function Pow2(n: nat): (p: nat)
    ensures p >= 1
  {
    if n == 0 then 1 else 2 * Pow2(n - 1)
  }

  // ---------------------------------------------------------------- masks as sets of bit positions

  /** The bits of `k` placed, in order, on the set bits of `m`. */
  function Deposit(k: nat, m: nat): nat
    decreases m
  {
    if m == 0 then 0
    else if m % 2 == 0 then 2 * Deposit(k, m / 2)
    else k % 2 + 2 * Deposit(k / 2, m / 2)
  }

  /** The bits of `v` found on the set bits of `m`, packed together. */
  function Extract(v: nat, m: nat): nat
    decreases m
  {
    if m == 0 then 0
    else if m % 2 == 0 then Extract(v / 2, m / 2)
    else v % 2 + 2 * Extract(v / 2, m / 2)
  }

  /** How many values fit on the set bits of `m`. */
  function Slots(m: nat): (n: nat)
    ensures n >= 1
    decreases m
  {
    if m == 0 then 1
    else if m % 2 == 0 then Slots(m / 2)
    else 2 * Slots(m / 2)
  }

  // One bit at a time: each function on `low + 2 * high`.

  lemma AndBit(a: int, h: int, m: nat, mh: nat)
    requires h == a / 2 && mh == m / 2
    ensures And(a, m) == (if a % 2 == 1 && m % 2 == 1 then 1 else 0) + 2 * And(h, mh)
  {
  }

  lemma DepositBit(k: nat, m: nat, mh: nat)
    requires mh == m / 2
    ensures m % 2 == 0 ==> Deposit(k, m) == 2 * Deposit(k, mh)
    ensures m % 2 == 1 ==> Deposit(k, m) == k % 2 + 2 * Deposit(k / 2, mh)
  {
  }

  lemma ExtractBit(v: nat, m: nat, mh: nat)
    requires mh == m / 2
    ensures m % 2 == 0 ==> Extract(v, m) == Extract(v / 2, mh)
    ensures m % 2 == 1 ==> Extract(v, m) == v % 2 + 2 * Extract(v / 2, mh)
  {
  }

  lemma SlotsBit(m: nat, mh: nat)
    requires mh == m / 2
    ensures Slots(m) == if m % 2 == 0 then Slots(mh) else 2 * Slots(mh)
  {
  }

  /** The low bit and the rest of a number written as `low + 2 * high`. */
  lemma Halve(v: int, low: int, high: int)
    requires v == low + 2 * high && 0 <= low <= 1
    ensures v / 2 == high && v % 2 == low
  {
  }

  lemma {:induction false} ExtractDeposit(k: nat, m: nat)
    requires k < Slots(m)
    ensures Extract(Deposit(k, m), m) == k
    decreases m
  {
    if m != 0 {
      var mh := m / 2;
      var d := Deposit(k, m);
      DepositBit(k, m, mh);
      ExtractBit(d, m, mh);
      SlotsBit(m, mh);
      if m % 2 == 0 {
        Halve(d, 0, Deposit(k, mh));
        ExtractDeposit(k, mh);
      } else {
        Halve(d, k % 2, Deposit(k / 2, mh));
        ExtractDeposit(k / 2, mh);
      }
    }
  }

  /** Adding the complement of the mask does not disturb the bits on it. */
  lemma {:induction false} ComplementIsOff(k: nat, m: nat)
    ensures And(Deposit(k, m) - m - 1, m) == Deposit(k, m)
    decreases m
  {
    if m != 0 {
      var mh := m / 2;
      var a := Deposit(k, m) - m - 1;
      DepositBit(k, m, mh);
      if m % 2 == 0 {
        var h := Deposit(k, mh) - mh - 1;
        Halve(a, 1, h);
        AndBit(a, h, m, mh);
        ComplementIsOff(k, mh);
      } else {
        var h := Deposit(k / 2, mh) - mh - 1;
        Halve(a, k % 2, h);
        AndBit(a, h, m, mh);
        ComplementIsOff(k / 2, mh);
      }
    }
  }

  /** The masked increment counts on the mask's bits. */
  lemma {:induction false} MaskedIncrement(k: nat, m: nat)
    ensures And(Deposit(k, m) - m, m) == Deposit(k + 1, m)
    decreases m
  {
    if m != 0 {
      var mh := m / 2;
      var a := Deposit(k, m) - m;
      DepositBit(k, m, mh);
      DepositBit(k + 1, m, mh);
      if m % 2 == 0 {
        Halve(a, 0, Deposit(k, mh) - mh);
        AndBit(a, Deposit(k, mh) - mh, m, mh);
        MaskedIncrement(k, mh);
      } else if k % 2 == 1 {
        Halve(k + 1, 0, k / 2 + 1);
        Halve(a, 0, Deposit(k / 2, mh) - mh);
        AndBit(a, Deposit(k / 2, mh) - mh, m, mh);
        MaskedIncrement(k / 2, mh);
      } else {
        Halve(k + 1, 1, k / 2);
        Halve(a, 1, Deposit(k / 2, mh) - mh - 1);
        AndBit(a, Deposit(k / 2, mh) - mh - 1, m, mh);
        ComplementIsOff(k / 2, mh);
      }
    }
  }

  // ---------------------------------------------------------------- three masks that share the bits out

  /** Each of the low `n` bits belongs to exactly one mask, and no other bit to any. */
  ghost predicate Partition(x: nat, y: nat, z: nat, n: nat)
    decreases n
  {
    if n == 0 then x == 0 && y == 0 && z == 0
    else x % 2 + y % 2 + z % 2 == 1 && Partition(x / 2, y / 2, z / 2, n - 1)
  }

  /** The swizzled index of a pixel. */
  function Index(mx: nat, my: nat, mz: nat, x: nat, y: nat, z: nat): nat
  {
    Deposit(x, mx) + Deposit(y, my) + Deposit(z, mz)
  }

  /** A mask holding bit 0 takes a coordinate's low bit; another mask leaves it whole. */
  function Rest(k: nat, m: nat): nat { if m % 2 == 1 then k / 2 else k }

  function Low(k: nat, m: nat): nat { if m % 2 == 1 then k % 2 else 0 }

  lemma DepositLow(k: nat, m: nat)
    ensures Deposit(k, m) == Low(k, m) + 2 * Deposit(Rest(k, m), m / 2)
  {
    DepositBit(k, m, m / 2);
  }

  /** A pixel's coordinates can be read back from its swizzled index. */
  lemma {:induction false} IndexExtract(mx: nat, my: nat, mz: nat, n: nat, x: nat, y: nat, z: nat)
    requires Partition(mx, my, mz, n)
    requires x < Slots(mx) && y < Slots(my) && z < Slots(mz)
    ensures var v := Index(mx, my, mz, x, y, z);
            v < Pow2(n) && Extract(v, mx) == x && Extract(v, my) == y && Extract(v, mz) == z
    decreases n
  {
    if n > 0 {
      var x', y', z' := Rest(x, mx), Rest(y, my), Rest(z, mz);
      var v, high := Index(mx, my, mz, x, y, z), Index(mx / 2, my / 2, mz / 2, x', y', z');
      var low := Low(x, mx) + Low(y, my) + Low(z, mz);
      DepositLow(x, mx);
      DepositLow(y, my);
      DepositLow(z, mz);
      assert v == low + 2 * high;
      Halve(v, low, high);
      SlotsBit(mx, mx / 2);
      SlotsBit(my, my / 2);
      SlotsBit(mz, mz / 2);
      IndexExtract(mx / 2, my / 2, mz / 2, n - 1, x', y', z');
      ExtractBit(v, mx, mx / 2);
      ExtractBit(v, my, my / 2);
      ExtractBit(v, mz, mz / 2);
    }
  }

  /** Every index below 2^n is the index of the coordinates read from it. */
  lemma {:induction false} IndexOnto(mx: nat, my: nat, mz: nat, n: nat, v: nat)
    requires Partition(mx, my, mz, n) && v < Pow2(n)
    ensures Index(mx, my, mz, Extract(v, mx), Extract(v, my), Extract(v, mz)) == v
    ensures Extract(v, mx) < Slots(mx) && Extract(v, my) < Slots(my) && Extract(v, mz) < Slots(mz)
    decreases n
  {
    if n > 0 {
      IndexOnto(mx / 2, my / 2, mz / 2, n - 1, v / 2);
      RoundTripStep(v, mx);
      RoundTripStep(v, my);
      RoundTripStep(v, mz);
    }
  }

  lemma RoundTripStep(v: nat, m: nat)
    ensures Deposit(Extract(v, m), m) == Low(v, m) + 2 * Deposit(Extract(v / 2, m / 2), m / 2)
    ensures Extract(v / 2, m / 2) < Slots(m / 2) ==> Extract(v, m) < Slots(m)
  {
    var e := Extract(v, m);
    ExtractBit(v, m, m / 2);
    SlotsBit(m, m / 2);
    DepositBit(e, m, m / 2);
    if m % 2 == 1 { Halve(e, v % 2, Extract(v / 2, m / 2)); }
  }

  /** The three coordinate ranges multiply to the number of indices. */
  lemma {:induction false} SlotsProduct(mx: nat, my: nat, mz: nat, n: nat)
    requires Partition(mx, my, mz, n)
    ensures Slots(mx) * Slots(my) * Slots(mz) == Pow2(n)
    decreases n
  {
    if n > 0 {
      SlotsProduct(mx / 2, my / 2, mz / 2, n - 1);
      SlotsBit(mx, mx / 2);
      SlotsBit(my, my / 2);
      SlotsBit(mz, mz / 2);
      Double(Slots(mx / 2), Slots(my / 2), Slots(mz / 2));
    }
  }

  lemma Double(a: nat, b: nat, c: nat)
    ensures (2 * a) * b * c == 2 * (a * b * c)
    ensures a * (2 * b) * c == 2 * (a * b * c)
    ensures a * b * (2 * c) == 2 * (a * b * c)
  {
    assert a * (2 * b) == 2 * (a * b);
    assert (2 * (a * b)) * c == 2 * ((a * b) * c);
    assert (a * b) * (2 * c) == 2 * ((a * b) * c);
  }

  // ---------------------------------------------------------------- which bit belongs to which mask

  function One(bit: nat, w: nat): nat { if bit < w then 1 else 0 }

  /** How many of the first `i` address bits a dimension of size `w` uses. */
  function Used(i: nat, w: nat): nat
  {
    if i == 0 then 0 else Used(i - 1, w) + One(Pow2(i - 1), w)
  }

  datatype Dims = Dims(width: nat, height: nat, depth: nat)

  datatype Axis = X | Y | Z

  function Size(d: Dims, axis: Axis): nat
  {
    match axis case X => d.width case Y => d.height case Z => d.depth
  }

  /** Where bit `i` of a coordinate goes: after all lower bits of the three coordinates, and within
      a round in the order x, y, z. */
  function Position(i: nat, axis: Axis, d: Dims): nat
  {
    Used(i, d.width) + Used(i, d.height) + Used(i, d.depth)
    + (if axis == X then 0 else One(Pow2(i), d.width))
    + (if axis == Z then One(Pow2(i), d.height) else 0)
  }

  function MaskOf(bits: seq<nat>): nat
  {
    if bits == [] then 0 else MaskOf(bits[..|bits| - 1]) + Pow2(bits[|bits| - 1])
  }

  /** The mask consists of its coordinate's bits, each at its interleaved position. */
  ghost predicate Interleaved(m: nat, bits: seq<nat>, axis: Axis, d: Dims)
  {
    m == MaskOf(bits) && forall i | 0 <= i < |bits| :: bits[i] == Position(i, axis, d)
  }

  /** After `r` rounds the list is full for its dimension or has one entry per round. */
  ghost predicate InStep(bits: seq<nat>, r: nat, w: nat)
  {
    |bits| <= r && (Pow2(|bits|) < w ==> |bits| == r)
  }

  /** One round extends the list of a dimension that still needs a bit. */
  lemma AxisStep(m: nat, m': nat, bits: seq<nat>, r: nat, axis: Axis, d: Dims) returns (bits': seq<nat>)
    requires Interleaved(m, bits, axis, d) && InStep(bits, r, Size(d, axis))
    requires m' == if Pow2(r) < Size(d, axis) then m + Pow2(Position(r, axis, d)) else m
    ensures Interleaved(m', bits', axis, d) && InStep(bits', r + 1, Size(d, axis))
  {
    Pow2Monotone(|bits|, r);
    bits' := bits;
    if Pow2(r) < Size(d, axis) {
      var n := Position(r, axis, d);
      bits' := bits + [n];
      assert bits'[..|bits|] == bits;
    }
  }

  lemma {:induction false} Pow2Monotone(a: nat, b: nat)
    requires a <= b
    ensures Pow2(a) <= Pow2(b)
    decreases b
  {
    if a < b { Pow2Monotone(a, b - 1); }
  }

  // ---------------------------------------------------------------- growing the masks

  /** A mask below 2^n gains the bit 2^n. */
  lemma {:induction false} TopBit(m: nat, n: nat)
    requires m < Pow2(n)
    ensures Or(m, Pow2(n)) == m + Pow2(n) && Slots(m + Pow2(n)) == 2 * Slots(m)
    decreases n
  {
    if n > 0 {
      TopBit(m / 2, n - 1);
      HalveGrown(m, n);
      HalveGrown(0, n);
    } else {
      assert Slots(1) == 2 * Slots(0);
      assert Or(0, 1) == 1 + 2 * Or(0, 0);
    }
  }

  lemma {:induction false} PartitionBelow(x: nat, y: nat, z: nat, n: nat)
    requires Partition(x, y, z, n)
    ensures x < Pow2(n) && y < Pow2(n) && z < Pow2(n)
    decreases n
  {
    if n > 0 { PartitionBelow(x / 2, y / 2, z / 2, n - 1); }
  }

  lemma HalveGrown(m: nat, n: nat)
    requires n > 0
    ensures (m + Pow2(n)) / 2 == m / 2 + Pow2(n - 1) && (m + Pow2(n)) % 2 == m % 2
  {
    Halve(m + Pow2(n), m % 2, m / 2 + Pow2(n - 1));
  }

  lemma {:induction false} PartitionGrow(x: nat, y: nat, z: nat, n: nat)
    requires Partition(x, y, z, n)
    ensures Partition(x + Pow2(n), y, z, n + 1)
    ensures Partition(x, y + Pow2(n), z, n + 1)
    ensures Partition(x, y, z + Pow2(n), n + 1)
    decreases n
  {
    if n > 0 {
      PartitionGrow(x / 2, y / 2, z / 2, n - 1);
      HalveGrown(x, n);
      HalveGrown(y, n);
      HalveGrown(z, n);
    } else {
      assert Partition(0, 0, 0, 0);
      assert 1 % 2 == 1 && 1 / 2 == 0;
    }
  }

  /** Exclusive masks that cover all bits xor to all ones. */
  lemma {:induction false} PartitionXor(x: nat, y: nat, z: nat, n: nat)
    requires Partition(x, y, z, n)
    ensures Xor(Xor(x, y), z) == Pow2(n) - 1
    decreases n
  {
    if n > 0 {
      PartitionXor(x / 2, y / 2, z / 2, n - 1);
      XorBits(x, y);
      XorBits(Xor(x, y), z);
      assert Xor(Xor(x, y), z) % 2 == 1;
      assert Xor(Xor(x, y), z) / 2 == Pow2(n - 1) - 1;
    }
  }

  lemma XorBits(x: nat, y: nat)
    ensures Xor(x, y) / 2 == Xor(x / 2, y / 2)
    ensures Xor(x, y) % 2 == if x % 2 == y % 2 then 0 else 1
  {
  }

  /** `s` is the power of two the mask provides for a dimension of size `w`. */
  predicate RoundsUp(s: nat, w: nat)
  {
    w <= s && (s == 1 || s < 2 * w)
  }

  function Max3(a: nat, b: nat, c: nat): nat
  {
    if a >= b && a >= c then a else if b >= c then b else c
  }

  /** A dimension's mask keeps pace with `bit` until it is large enough. */
  predicate Growing(s: nat, w: nat, bit: nat)
  {
    s <= bit && if s < bit then RoundsUp(s, w) else s == 1 || s < 2 * w
  }

  /** `bit` has passed the dimension, or the mask takes one more bit. */
  lemma GrowStep(s: nat, w: nat, bit: nat)
    requires Growing(s, w, bit) && bit >= 1
    ensures Growing(if bit < w then 2 * s else s, w, 2 * bit)
    ensures bit >= w ==> RoundsUp(s, w)
  {
  }

  /** The masks of a volume: they share out the low `n` bits in round-robin order, and each provides
      the next power of two for its dimension. */
  ghost predicate SwizzleMasks(x: nat, y: nat, z: nat, n: nat, d: Dims)
  {
    && Partition(x, y, z, n)
    && RoundsUp(Slots(x), d.width) && RoundsUp(Slots(y), d.height) && RoundsUp(Slots(z), d.depth)
    && (exists bits :: Interleaved(x, bits, X, d))
    && (exists bits :: Interleaved(y, bits, Y, d))
    && (exists bits :: Interleaved(z, bits, Z, d))
  }

  /** Masks for all dimensions; the final consistency check never raises. */
  method GenerateSwizzleMasks(width: nat, height: nat, depth: nat)
      returns (x: nat, y: nat, z: nat, raised: bool, ghost n: nat)
    ensures !raised && SwizzleMasks(x, y, z, n, Dims(width, height, depth))
  {
    x, y, z, n := 0, 0, 0, 0;
    ghost var px, py, pz: seq<nat> := [], [], [];
    var bit, maskBit, done := 1, 1, false;
    ghost var d, r, s := Dims(width, height, depth), 0, (1, 1, 1);
    ghost var top := Max3(width, height, depth);
    while !done
      invariant maskBit == Pow2(n) && bit == Pow2(r) && n == Position(r, X, d)
      invariant Masks(x, y, z, n, s)
      invariant Interleaved(x, px, X, d) && Interleaved(y, py, Y, d) && Interleaved(z, pz, Z, d)
      invariant InStep(px, r, width) && InStep(py, r, height) && InStep(pz, r, depth)
      invariant Growing(s.0, width, bit) && Growing(s.1, height, bit) && Growing(s.2, depth, bit)
      invariant done ==> RoundsUp(s.0, width) && RoundsUp(s.1, height) && RoundsUp(s.2, depth)
      decreases if done then 0 else if bit < top then 2 + top - bit else 1
    {
      ghost var m0, n0 := (x, y, z), n;
      x, y, z, maskBit, done, n, s := Round(x, y, z, maskBit, bit, width, height, depth, n, s);
      px, py, pz := ListStep(m0, (x, y, z), px, py, pz, r, n0, d);
      bit, r := 2 * bit, r + 1;
    }
    PartitionXor(x, y, z, n);
    raised := Xor(Xor(x, y), z) != maskBit - 1;
  }

  lemma ListStep(m: (nat, nat, nat), m': (nat, nat, nat), px: seq<nat>, py: seq<nat>, pz: seq<nat>, r: nat, n: nat,
                 d: Dims)
      returns (px': seq<nat>, py': seq<nat>, pz': seq<nat>)
    requires Interleaved(m.0, px, X, d) && Interleaved(m.1, py, Y, d) && Interleaved(m.2, pz, Z, d)
    requires InStep(px, r, d.width) && InStep(py, r, d.height) && InStep(pz, r, d.depth)
    requires n == Position(r, X, d)
    requires m' == Rounded(m, Pow2(n), Pow2(r), d)
    ensures Interleaved(m'.0, px', X, d) && Interleaved(m'.1, py', Y, d) && Interleaved(m'.2, pz', Z, d)
    ensures InStep(px', r + 1, d.width) && InStep(py', r + 1, d.height) && InStep(pz', r + 1, d.depth)
    ensures Position(r + 1, X, d) == n + One(Pow2(r), d.width) + One(Pow2(r), d.height) + One(Pow2(r), d.depth)
  {
    PositionPowers(r, n, d);
    px' := AxisStep(m.0, m'.0, px, r, X, d);
    py' := AxisStep(m.1, m'.1, py, r, Y, d);
    pz' := AxisStep(m.2, m'.2, pz, r, Z, d);
  }

  lemma PositionPowers(r: nat, n: nat, d: Dims)
    requires n == Position(r, X, d)
    ensures Pow2(Position(r, Y, d)) == Twice(Pow2(n), Pow2(r) < d.width)
    ensures Pow2(Position(r, Z, d)) == Twice(Twice(Pow2(n), Pow2(r) < d.width), Pow2(r) < d.height)
  {
    var ny := Position(r, Y, d);
    assert ny == n + One(Pow2(r), d.width);
    assert Position(r, Z, d) == ny + One(Pow2(r), d.height);
    assert Pow2(n + 1) == 2 * Pow2(n) && Pow2(ny + 1) == 2 * Pow2(ny);
  }

  function Twice(k: nat, b: bool): nat { if b then 2 * k else k }

  /** The masks after one round that starts with mask bit `maskBit`. */
  function Rounded(m: (nat, nat, nat), maskBit: nat, bit: nat, d: Dims): (nat, nat, nat)
  {
    var second := Twice(maskBit, bit < d.width);
    var third := Twice(second, bit < d.height);
    (if bit < d.width then m.0 + maskBit else m.0,
     if bit < d.height then m.1 + second else m.1,
     if bit < d.depth then m.2 + third else m.2)
  }

  ghost predicate Masks(x: nat, y: nat, z: nat, n: nat, s: (nat, nat, nat))
  {
    Partition(x, y, z, n) && s == (Slots(x), Slots(y), Slots(z))
  }

  /** One round: every dimension larger than `bit` takes the next mask bit. */
  method Round(x: nat, y: nat, z: nat, maskBit: nat, bit: nat, width: nat, height: nat, depth: nat, ghost n: nat,
               ghost s: (nat, nat, nat))
      returns (x': nat, y': nat, z': nat, maskBit': nat, done: bool, ghost n': nat, ghost s': (nat, nat, nat))
    requires maskBit == Pow2(n) && bit >= 1 && Masks(x, y, z, n, s)
    requires Growing(s.0, width, bit) && Growing(s.1, height, bit) && Growing(s.2, depth, bit)
    ensures maskBit' == Pow2(n') && Masks(x', y', z', n', s')
    ensures (x', y', z') == Rounded((x, y, z), maskBit, bit, Dims(width, height, depth))
    ensures n' == n + One(bit, width) + One(bit, height) + One(bit, depth)
    ensures Growing(s'.0, width, 2 * bit) && Growing(s'.1, height, 2 * bit) && Growing(s'.2, depth, 2 * bit)
    ensures done <==> bit >= Max3(width, height, depth)
    ensures done ==> RoundsUp(s'.0, width) && RoundsUp(s'.1, height) && RoundsUp(s'.2, depth)
  {
    GrowStep(s.0, width, bit);
    GrowStep(s.1, height, bit);
    GrowStep(s.2, depth, bit);
    ghost var n1, n2, s1, s2;
    x', maskBit', n1, s1 := StepX(x, y, z, maskBit, bit, width, n, s);
    y', maskBit', n2, s2 := StepY(x', y, z, maskBit', bit, height, n1, s1);
    z', maskBit', n', s' := StepZ(x', y', z, maskBit', bit, depth, n2, s2);
    done := !(bit < width) && !(bit < height) && !(bit < depth);
  }

  method StepX(x: nat, y: nat, z: nat, maskBit: nat, bit: nat, size: nat, ghost n: nat, ghost s: (nat, nat, nat))
      returns (m: nat, maskBit': nat, ghost n': nat, ghost s': (nat, nat, nat))
    requires maskBit == Pow2(n) && Masks(x, y, z, n, s)
    ensures maskBit' == Pow2(n') && n' == n + One(bit, size) && maskBit' == Twice(maskBit, bit < size)
    ensures m == (if bit < size then x + maskBit else x) && s' == (Twice(s.0, bit < size), s.1, s.2)
    ensures Masks(m, y, z, n', s')
  {
    m, maskBit', n', s' := x, maskBit, n, s;
    if bit < size {
      GrowX(x, y, z, n, s);
      m, maskBit', n', s' := Or(x, maskBit), 2 * maskBit, n + 1, (Twice(s.0, bit < size), s.1, s.2);
    }
  }

  method StepY(x: nat, y: nat, z: nat, maskBit: nat, bit: nat, size: nat, ghost n: nat, ghost s: (nat, nat, nat))
      returns (m: nat, maskBit': nat, ghost n': nat, ghost s': (nat, nat, nat))
    requires maskBit == Pow2(n) && Masks(x, y, z, n, s)
    ensures maskBit' == Pow2(n') && n' == n + One(bit, size) && maskBit' == Twice(maskBit, bit < size)
    ensures m == (if bit < size then y + maskBit else y) && s' == (s.0, Twice(s.1, bit < size), s.2)
    ensures Masks(x, m, z, n', s')
  {
    m, maskBit', n', s' := y, maskBit, n, s;
    if bit < size {
      GrowY(x, y, z, n, s);
      m, maskBit', n', s' := Or(y, maskBit), 2 * maskBit, n + 1, (s.0, Twice(s.1, bit < size), s.2);
    }
  }

  method StepZ(x: nat, y: nat, z: nat, maskBit: nat, bit: nat, size: nat, ghost n: nat, ghost s: (nat, nat, nat))
      returns (m: nat, maskBit': nat, ghost n': nat, ghost s': (nat, nat, nat))
    requires maskBit == Pow2(n) && Masks(x, y, z, n, s)
    ensures maskBit' == Pow2(n') && n' == n + One(bit, size) && maskBit' == Twice(maskBit, bit < size)
    ensures m == (if bit < size then z + maskBit else z) && s' == (s.0, s.1, Twice(s.2, bit < size))
    ensures Masks(x, y, m, n', s')
  {
    m, maskBit', n', s' := z, maskBit, n, s;
    if bit < size {
      GrowZ(x, y, z, n, s);
      m, maskBit', n', s' := Or(z, maskBit), 2 * maskBit, n + 1, (s.0, s.1, Twice(s.2, bit < size));
    }
  }

  /** Whichever mask takes the next bit, the masks still share out all bits. */
  lemma GrowX(x: nat, y: nat, z: nat, n: nat, s: (nat, nat, nat))
    requires Masks(x, y, z, n, s)
    ensures Or(x, Pow2(n)) == x + Pow2(n)
    ensures Masks(Or(x, Pow2(n)), y, z, n + 1, (2 * s.0, s.1, s.2)) && Pow2(n + 1) == 2 * Pow2(n)
  {
    PartitionBelow(x, y, z, n);
    PartitionGrow(x, y, z, n);
    TopBit(x, n);
  }

  lemma GrowY(x: nat, y: nat, z: nat, n: nat, s: (nat, nat, nat))
    requires Masks(x, y, z, n, s)
    ensures Or(y, Pow2(n)) == y + Pow2(n)
    ensures Masks(x, Or(y, Pow2(n)), z, n + 1, (s.0, 2 * s.1, s.2)) && Pow2(n + 1) == 2 * Pow2(n)
  {
    PartitionBelow(x, y, z, n);
    PartitionGrow(x, y, z, n);
    TopBit(y, n);
  }

  lemma GrowZ(x: nat, y: nat, z: nat, n: nat, s: (nat, nat, nat))
    requires Masks(x, y, z, n, s)
    ensures Or(z, Pow2(n)) == z + Pow2(n)
    ensures Masks(x, y, Or(z, Pow2(n)), n + 1, (s.0, s.1, 2 * s.2)) && Pow2(n + 1) == 2 * Pow2(n)
  {
    PartitionBelow(x, y, z, n);
    PartitionGrow(x, y, z, n);
    TopBit(z, n);
  }

  // ---------------------------------------------------------------- what the masks achieve together

  /** For all dimensions: different pixels have different indices. */
  lemma IndexInjective(mx: nat, my: nat, mz: nat, n: nat, d: Dims, x: nat, y: nat, z: nat, x': nat, y': nat, z': nat)
    requires Partition(mx, my, mz, n)
    requires RoundsUp(Slots(mx), d.width) && RoundsUp(Slots(my), d.height) && RoundsUp(Slots(mz), d.depth)
    requires x < d.width && y < d.height && z < d.depth && x' < d.width && y' < d.height && z' < d.depth
    requires Index(mx, my, mz, x, y, z) == Index(mx, my, mz, x', y', z')
    ensures x == x' && y == y' && z == z'
  {
    IndexExtract(mx, my, mz, n, x, y, z);
    IndexExtract(mx, my, mz, n, x', y', z');
  }

  lemma {:induction false} SlotsPower(m: nat) returns (e: nat)
    ensures Slots(m) == Pow2(e)
    decreases m
  {
    if m == 0 {
      e := 0;
    } else {
      e := SlotsPower(m / 2);
      SlotsBit(m, m / 2);
      if m % 2 == 1 { e := e + 1; }
    }
  }

  /** A power-of-two dimension gets exactly its own size. */
  lemma RoundsUpExact(m: nat, a: nat)
    requires RoundsUp(Slots(m), Pow2(a))
    ensures Slots(m) == Pow2(a)
  {
    var e := SlotsPower(m);
    if e < a {
      Pow2Monotone(e + 1, a);
    } else if a < e {
      Pow2Monotone(a + 1, e);
    }
  }

  /** For power-of-two dimensions: the index is a bijection from the pixels onto `[0, w*h*d)`, with
      `Extract` as its inverse. */
  lemma IndexBijection(mx: nat, my: nat, mz: nat, n: nat, a: nat, b: nat, c: nat, x: nat, y: nat, z: nat, v: nat)
    requires Partition(mx, my, mz, n)
    requires RoundsUp(Slots(mx), Pow2(a)) && RoundsUp(Slots(my), Pow2(b)) && RoundsUp(Slots(mz), Pow2(c))
    requires x < Pow2(a) && y < Pow2(b) && z < Pow2(c)
    requires v < Pow2(a) * Pow2(b) * Pow2(c)
    ensures Index(mx, my, mz, x, y, z) < Pow2(a) * Pow2(b) * Pow2(c)
    ensures var i := Index(mx, my, mz, x, y, z);
            Extract(i, mx) == x && Extract(i, my) == y && Extract(i, mz) == z
    ensures Extract(v, mx) < Pow2(a) && Extract(v, my) < Pow2(b) && Extract(v, mz) < Pow2(c)
    ensures Index(mx, my, mz, Extract(v, mx), Extract(v, my), Extract(v, mz)) == v
  {
    VolumeIsPower(mx, my, mz, n, a, b, c);
    IndexExtract(mx, my, mz, n, x, y, z);
    IndexOnto(mx, my, mz, n, v);
  }

  lemma VolumeIsPower(mx: nat, my: nat, mz: nat, n: nat, a: nat, b: nat, c: nat)
    requires Partition(mx, my, mz, n)
    requires RoundsUp(Slots(mx), Pow2(a)) && RoundsUp(Slots(my), Pow2(b)) && RoundsUp(Slots(mz), Pow2(c))
    ensures Slots(mx) == Pow2(a) && Slots(my) == Pow2(b) && Slots(mz) == Pow2(c)
    ensures Pow2(a) * Pow2(b) * Pow2(c) == Pow2(n)
  {
    RoundsUpExact(mx, a);
    RoundsUpExact(my, b);
    RoundsUpExact(mz, c);
    SlotsProduct(mx, my, mz, n);
  }
}
