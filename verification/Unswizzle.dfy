/** `unswizzle_box`: copying a swizzled volume into a linear buffer in place. */
module Unswizzle {
  import opened Common
  import opened Morton

  /** Dimensions in pixels; pitches and the pixel size in bytes. */
  datatype Layout = Layout(dims: Dims, row: nat, slice: nat, bpp: nat)

  datatype Masks3 = Masks3(x: nat, y: nat, z: nat)

  function PixelIndex(m: Masks3, x: nat, y: nat, z: nat): nat { Index(m.x, m.y, m.z, x, y, z) }

  /** Byte offset of the `i`-th pixel of a packed buffer. */
  function Bytes(i: nat, bpp: nat): nat
  {
    if i == 0 then 0 else Bytes(i - 1, bpp) + bpp
  }

  lemma {:induction false} BytesIsProduct(i: nat, bpp: nat)
    ensures Bytes(i, bpp) == i * bpp
  {
    if i > 0 {
      BytesIsProduct(i - 1, bpp);
      assert i * bpp == (i - 1) * bpp + bpp;
    }
  }

  function Source(l: Layout, m: Masks3, x: nat, y: nat, z: nat): nat { Bytes(PixelIndex(m, x, y, z), l.bpp) }

  function Target(l: Layout, x: nat, y: nat, z: nat): nat { z * l.slice + y * l.row + x * l.bpp }

  /** Both buffers hold the pixel. */
  predicate Fits(l: Layout, m: Masks3, srcLen: nat, dstLen: nat, x: nat, y: nat, z: nat)
  {
    Source(l, m, x, y, z) + l.bpp <= srcLen && Target(l, x, y, z) + l.bpp <= dstLen
  }

  ghost predicate RowFits(l: Layout, m: Masks3, srcLen: nat, dstLen: nat, y: nat, z: nat)
  {
    forall x | 0 <= x < l.dims.width :: Fits(l, m, srcLen, dstLen, x, y, z)
  }

  ghost predicate SliceFits(l: Layout, m: Masks3, srcLen: nat, dstLen: nat, z: nat)
  {
    forall y | 0 <= y < l.dims.height :: RowFits(l, m, srcLen, dstLen, y, z)
  }

  ghost predicate BoxFits(l: Layout, m: Masks3, srcLen: nat, dstLen: nat)
  {
    forall z | 0 <= z < l.dims.depth :: SliceFits(l, m, srcLen, dstLen, z)
  }

  /** Rows and slices of the destination do not run into each other. */
  predicate Spread(l: Layout)
  {
    && (l.dims.height > 1 ==> l.row >= l.dims.width * l.bpp)
    && (l.dims.depth > 1 ==> l.slice >= SliceSpan(l))
  }

  function SliceSpan(l: Layout): nat
  {
    if l.dims.height == 0 then 0 else (l.dims.height - 1) * l.row + l.dims.width * l.bpp
  }

  // ---------------------------------------------------------------- what has been copied

  ghost predicate PixelDone(d: seq<byte>, src: seq<byte>, l: Layout, m: Masks3, x: nat, y: nat, z: nat)
  {
    && Fits(l, m, |src|, |d|, x, y, z)
    && d[Target(l, x, y, z)..Target(l, x, y, z) + l.bpp] == src[Source(l, m, x, y, z)..Source(l, m, x, y, z) + l.bpp]
  }

  ghost predicate RowDone(d: seq<byte>, src: seq<byte>, l: Layout, m: Masks3, n: nat, y: nat, z: nat)
  {
    forall x | 0 <= x < n :: PixelDone(d, src, l, m, x, y, z)
  }

  ghost predicate SliceDone(d: seq<byte>, src: seq<byte>, l: Layout, m: Masks3, n: nat, z: nat)
  {
    forall y | 0 <= y < n :: RowDone(d, src, l, m, l.dims.width, y, z)
  }

  ghost predicate BoxDone(d: seq<byte>, src: seq<byte>, l: Layout, m: Masks3, n: nat)
  {
    forall z | 0 <= z < n :: SliceDone(d, src, l, m, l.dims.height, z)
  }

  /** Nothing outside `[lo, hi)` differs. */
  ghost predicate SameOutside(d: seq<byte>, d': seq<byte>, lo: int, hi: int)
  {
    |d| == |d'| && forall k | 0 <= k < |d| && !(lo <= k < hi) :: d[k] == d'[k]
  }

  /** The byte belongs to row `y` of slice `z` of the destination. */
  predicate Touched(l: Layout, k: nat, y: nat, z: nat)
  {
    Target(l, 0, y, z) <= k < Target(l, 0, y, z) + l.dims.width * l.bpp
  }

  /** Nothing but one row differs. */
  ghost predicate OnlyRow(d: seq<byte>, d': seq<byte>, l: Layout, y: nat, z: nat)
  {
    SameOutside(d, d', Target(l, 0, y, z), Target(l, 0, y, z) + l.dims.width * l.bpp)
  }

  /** Nothing but the rows of slice `z` differs. */
  ghost predicate RowsOnly(d: seq<byte>, d': seq<byte>, l: Layout, z: nat)
  {
    && |d| == |d'|
    && forall k | 0 <= k < |d| && (forall y | 0 <= y < l.dims.height :: !Touched(l, k, y, z)) :: d[k] == d'[k]
  }

  /** Nothing but the rows of the volume differs: what lies between rows and slices is kept. */
  ghost predicate BoxOnly(d: seq<byte>, d': seq<byte>, l: Layout)
  {
    && |d| == |d'|
    && forall k | 0 <= k < |d| && d[k] != d'[k] ::
         exists y, z :: 0 <= y < l.dims.height && 0 <= z < l.dims.depth && Touched(l, k, y, z)
  }

  lemma RowsOnlyStep(d0: seq<byte>, d: seq<byte>, d': seq<byte>, l: Layout, y: nat, z: nat)
    requires RowsOnly(d0, d, l, z) && y < l.dims.height && OnlyRow(d, d', l, y, z)
    ensures RowsOnly(d0, d', l, z)
  {
    forall k | 0 <= k < |d| && (forall y' | 0 <= y' < l.dims.height :: !Touched(l, k, y', z))
      ensures d0[k] == d'[k]
    {
      assert !Touched(l, k, y, z);
    }
  }

  lemma BoxOnlyStep(d0: seq<byte>, d: seq<byte>, d': seq<byte>, l: Layout, z: nat)
    requires BoxOnly(d0, d, l) && RowsOnly(d, d', l, z) && z < l.dims.depth
    ensures BoxOnly(d0, d', l)
  {
    forall k | 0 <= k < |d0| && d0[k] != d'[k]
      ensures exists y, z :: 0 <= y < l.dims.height && 0 <= z < l.dims.depth && Touched(l, k, y, z)
    {
      if d[k] != d'[k] {
        var y :| 0 <= y < l.dims.height && Touched(l, k, y, z);
      }
    }
  }

  lemma PixelKept(d: seq<byte>, d': seq<byte>, src: seq<byte>, l: Layout, m: Masks3, x: nat, y: nat, z: nat, lo: nat,
                  hi: nat)
    requires PixelDone(d, src, l, m, x, y, z) && SameOutside(d, d', lo, hi)
    requires Target(l, x, y, z) + l.bpp <= lo
    ensures PixelDone(d', src, l, m, x, y, z)
  {
    var t := Target(l, x, y, z);
    assert d'[t..t + l.bpp] == d[t..t + l.bpp];
  }

  lemma {:induction false} MulStep(a: nat, b: nat, c: nat)
    requires a < b
    ensures a * c + c <= b * c
    decreases b
  {
    assert b * c == (b - 1) * c + c;
    if a < b - 1 { MulStep(a, b - 1, c); }
  }

  // ---------------------------------------------------------------- the loops

  method CopyPixel(src: seq<byte>, dst: array<byte>, from: nat, to: nat, bpp: nat)
    requires from + bpp <= |src| && to + bpp <= dst.Length
    modifies dst
    ensures dst[to..to + bpp] == src[from..from + bpp]
    ensures SameOutside(old(dst[..]), dst[..], to, to + bpp)
  {
    for i := 0 to bpp
      invariant dst[to..to + i] == src[from..from + i]
      invariant SameOutside(old(dst[..]), dst[..], to, to + bpp)
    {
      ghost var before := dst[..];
      dst[to + i] := src[from + i];
      assert dst[to..to + i] == before[to..to + i];
      assert dst[to..to + i + 1] == dst[to..to + i] + [dst[to + i]];
      assert src[from..from + i + 1] == src[from..from + i] + [src[from + i]];
    }
  }

  /** One pixel, given its byte offsets; refused when a buffer is too small. */
  method CopyAt(src: seq<byte>, dst: array<byte>, l: Layout, m: Masks3, ghost x: nat, ghost y: nat, ghost z: nat,
                from: nat, to: nat)
      returns (ok: bool)
    requires from == Source(l, m, x, y, z) && to == Target(l, x, y, z)
    modifies dst
    ensures ok <==> Fits(l, m, |src|, dst.Length, x, y, z)
    ensures ok ==> PixelDone(dst[..], src, l, m, x, y, z)
    ensures ok ==> SameOutside(old(dst[..]), dst[..], to, to + l.bpp)
    ensures !ok ==> dst[..] == old(dst[..])
  {
    ok := from + l.bpp <= |src| && to + l.bpp <= dst.Length;
    if ok {
      CopyPixel(src, dst, from, to, l.bpp);
      assert dst[..][to..to + l.bpp] == dst[to..to + l.bpp];
    }
  }

  method Offsets(l: Layout, ghost m: Masks3, x: nat, y: nat, z: nat, index: nat) returns (from: nat, to: nat)
    requires index == PixelIndex(m, x, y, z)
    ensures from == Source(l, m, x, y, z) && to == Target(l, x, y, z)
  {
    BytesIsProduct(index, l.bpp);
    from, to := index * l.bpp, z * l.slice + y * l.row + x * l.bpp;
  }

  lemma RowStep(d: seq<byte>, d': seq<byte>, src: seq<byte>, l: Layout, m: Masks3, x: nat, y: nat, z: nat)
    requires RowDone(d, src, l, m, x, y, z) && PixelDone(d', src, l, m, x, y, z)
    requires SameOutside(d, d', Target(l, x, y, z), Target(l, x, y, z) + l.bpp)
    ensures RowDone(d', src, l, m, x + 1, y, z)
  {
    forall k | 0 <= k < x
      ensures PixelDone(d', src, l, m, k, y, z)
    {
      MulStep(k, x, l.bpp);
      PixelKept(d, d', src, l, m, k, y, z, Target(l, x, y, z), Target(l, x, y, z) + l.bpp);
    }
  }

  lemma OutsideTrans(d: seq<byte>, d': seq<byte>, d'': seq<byte>, lo: int, hi: int, lo': int, hi': int)
    requires SameOutside(d, d', lo, hi) && SameOutside(d', d'', lo', hi') && lo <= lo' && hi' <= hi
    ensures SameOutside(d, d'', lo, hi)
  {
  }

  lemma InRow(l: Layout, x: nat, y: nat, z: nat)
    requires x < l.dims.width
    ensures Target(l, 0, y, z) <= Target(l, x, y, z)
    ensures Target(l, x, y, z) + l.bpp <= Target(l, 0, y, z) + l.dims.width * l.bpp
  {
    MulStep(x, l.dims.width, l.bpp);
  }

  lemma RowMisses(l: Layout, m: Masks3, srcLen: nat, dstLen: nat, x: nat, y: nat, z: nat)
    requires x < l.dims.width && !Fits(l, m, srcLen, dstLen, x, y, z)
    ensures !RowFits(l, m, srcLen, dstLen, y, z)
  {
  }

  lemma RowHolds(d: seq<byte>, src: seq<byte>, l: Layout, m: Masks3, y: nat, z: nat)
    requires RowDone(d, src, l, m, l.dims.width, y, z)
    ensures RowFits(l, m, |src|, |d|, y, z)
  {
    forall x | 0 <= x < l.dims.width
      ensures Fits(l, m, |src|, |d|, x, y, z)
    {
      assert PixelDone(d, src, l, m, x, y, z);
    }
  }

  /** The masked increment: from the offset of `k` to that of `k + 1`. */
  method NextOffset(off: nat, mask: nat, ghost k: nat) returns (next: nat)
    requires off == Deposit(k, mask)
    ensures next == Deposit(k + 1, mask)
  {
    MaskedIncrement(k, mask);
    next := And(off - mask, mask);
  }

  /** One row; `offY` and `offZ` are its swizzled offsets. */
  method CopyRow(src: seq<byte>, dst: array<byte>, l: Layout, m: Masks3, y: nat, z: nat, offY: nat, offZ: nat)
        returns (ok: bool)
    requires offY == Deposit(y, m.y) && offZ == Deposit(z, m.z)
    modifies dst
    ensures ok <==> RowFits(l, m, |src|, dst.Length, y, z)
    ensures ok ==> RowDone(dst[..], src, l, m, l.dims.width, y, z)
    ensures OnlyRow(old(dst[..]), dst[..], l, y, z)
  {
    var offX := 0;
    ghost var start := Target(l, 0, y, z);
    ghost var end := start + l.dims.width * l.bpp;
    DepositZero(m.x);
    for x := 0 to l.dims.width
      invariant offX == Deposit(x, m.x)
      invariant RowDone(dst[..], src, l, m, x, y, z)
      invariant SameOutside(old(dst[..]), dst[..], start, end)
    {
      ghost var before := dst[..];
      var from, to := Offsets(l, m, x, y, z, offX + offY + offZ);
      ok := CopyAt(src, dst, l, m, x, y, z, from, to);
      if !ok {
        RowMisses(l, m, |src|, dst.Length, x, y, z);
        return;
      }
      RowStep(before, dst[..], src, l, m, x, y, z);
      InRow(l, x, y, z);
      OutsideTrans(old(dst[..]), before, dst[..], start, end, Target(l, x, y, z), Target(l, x, y, z) + l.bpp);
      offX := NextOffset(offX, m.x, x);
    }
    RowHolds(dst[..], src, l, m, y, z);
    ok := true;
  }

  lemma SliceStep(d: seq<byte>, d': seq<byte>, src: seq<byte>, l: Layout, m: Masks3, y: nat, z: nat)
    requires Spread(l) && y < l.dims.height
    requires SliceDone(d, src, l, m, y, z) && RowDone(d', src, l, m, l.dims.width, y, z)
    requires OnlyRow(d, d', l, y, z)
    ensures SliceDone(d', src, l, m, y + 1, z)
  {
    forall k | 0 <= k < y
      ensures RowDone(d', src, l, m, l.dims.width, k, z)
    {
      forall x | 0 <= x < l.dims.width
        ensures PixelDone(d', src, l, m, x, k, z)
      {
        assert RowDone(d, src, l, m, l.dims.width, k, z);
        InRow(l, x, k, z);
        MulStep(k, y, l.row);
        PixelKept(d, d', src, l, m, x, k, z, Target(l, 0, y, z), Target(l, 0, y, z) + l.dims.width * l.bpp);
      }
    }
  }

  lemma InSlice(l: Layout, y: nat, z: nat)
    requires y < l.dims.height
    ensures z * l.slice <= Target(l, 0, y, z)
    ensures Target(l, 0, y, z) + l.dims.width * l.bpp <= z * l.slice + SliceSpan(l)
  {
    if y < l.dims.height - 1 { MulStep(y, l.dims.height - 1, l.row); }
  }

  /** Nothing but slice `z` differs, and within it nothing but its rows. */
  ghost predicate OnlySlice(d: seq<byte>, d': seq<byte>, l: Layout, z: nat)
  {
    SameOutside(d, d', z * l.slice, z * l.slice + SliceSpan(l)) && RowsOnly(d, d', l, z)
  }

  lemma RowInSlice(d0: seq<byte>, d: seq<byte>, d': seq<byte>, l: Layout, y: nat, z: nat)
    requires OnlySlice(d0, d, l, z) && OnlyRow(d, d', l, y, z) && y < l.dims.height
    ensures OnlySlice(d0, d', l, z)
  {
    InSlice(l, y, z);
    RowsOnlyStep(d0, d, d', l, y, z);
    var from := Target(l, 0, y, z);
    OutsideTrans(d0, d, d', z * l.slice, z * l.slice + SliceSpan(l), from, from + l.dims.width * l.bpp);
  }

  /** One slice; `offZ` is its swizzled offset. */
  method CopySlice(src: seq<byte>, dst: array<byte>, l: Layout, m: Masks3, z: nat, offZ: nat) returns (ok: bool)
    requires offZ == Deposit(z, m.z)
    modifies dst
    ensures ok <==> SliceFits(l, m, |src|, dst.Length, z)
    ensures ok && Spread(l) ==> SliceDone(dst[..], src, l, m, l.dims.height, z)
    ensures OnlySlice(old(dst[..]), dst[..], l, z)
  {
    var offY := 0;
    DepositZero(m.y);
    for y := 0 to l.dims.height
      invariant offY == Deposit(y, m.y)
      invariant forall k | 0 <= k < y :: RowFits(l, m, |src|, dst.Length, k, z)
      invariant Spread(l) ==> SliceDone(dst[..], src, l, m, y, z)
      invariant OnlySlice(old(dst[..]), dst[..], l, z)
    {
      ghost var before := dst[..];
      ok := CopyRow(src, dst, l, m, y, z, offY, offZ);
      RowInSlice(old(dst[..]), before, dst[..], l, y, z);
      if !ok {
        return;
      }
      if Spread(l) { SliceStep(before, dst[..], src, l, m, y, z); }
      offY := NextOffset(offY, m.y, y);
    }
    ok := true;
  }

  lemma BoxStep(d: seq<byte>, d': seq<byte>, src: seq<byte>, l: Layout, m: Masks3, z: nat)
    requires Spread(l) && z < l.dims.depth
    requires BoxDone(d, src, l, m, z) && SliceDone(d', src, l, m, l.dims.height, z)
    requires SameOutside(d, d', z * l.slice, z * l.slice + SliceSpan(l))
    ensures BoxDone(d', src, l, m, z + 1)
  {
    forall k | 0 <= k < z
      ensures SliceDone(d', src, l, m, l.dims.height, k)
    {
      assert SliceDone(d, src, l, m, l.dims.height, k);
      MulStep(k, z, l.slice);
      forall y | 0 <= y < l.dims.height
        ensures RowDone(d', src, l, m, l.dims.width, y, k)
      {
        assert RowDone(d, src, l, m, l.dims.width, y, k);
        InSlice(l, y, k);
        forall x | 0 <= x < l.dims.width
          ensures PixelDone(d', src, l, m, x, y, k)
        {
          InRow(l, x, y, k);
          PixelKept(d, d', src, l, m, x, y, k, z * l.slice, z * l.slice + SliceSpan(l));
        }
      }
    }
  }

  /** The whole volume. It completes exactly when both buffers hold every pixel, and then, if rows and
      slices of the destination do not overlap, every linear pixel is the swizzled pixel of the same
      coordinates. */
  method UnswizzleBox(src: seq<byte>, dst: array<byte>, l: Layout) returns (ok: bool, m: Masks3, ghost n: nat)
    modifies dst
    ensures SwizzleMasks(m.x, m.y, m.z, n, l.dims)
    ensures ok <==> BoxFits(l, m, |src|, dst.Length)
    ensures ok && Spread(l) ==> BoxDone(dst[..], src, l, m, l.dims.depth)
    ensures BoxOnly(old(dst[..]), dst[..], l)
  {
    var mx, my, mz, raised;
    mx, my, mz, raised, n := GenerateSwizzleMasks(l.dims.width, l.dims.height, l.dims.depth);
    m := Masks3(mx, my, mz);
    var offZ := 0;
    DepositZero(m.z);
    for z := 0 to l.dims.depth
      invariant offZ == Deposit(z, m.z)
      invariant forall k | 0 <= k < z :: SliceFits(l, m, |src|, dst.Length, k)
      invariant Spread(l) ==> BoxDone(dst[..], src, l, m, z)
      invariant BoxOnly(old(dst[..]), dst[..], l)
    {
      ghost var before := dst[..];
      ok := CopySlice(src, dst, l, m, z, offZ);
      BoxOnlyStep(old(dst[..]), before, dst[..], l, z);
      if !ok {
        return;
      }
      if Spread(l) { BoxStep(before, dst[..], src, l, m, z); }
      offZ := NextOffset(offZ, m.z, z);
    }
    ok := true;
  }

  /** Byte for byte: each linear pixel is the one at its Morton index. */
  lemma PixelBytes(d: seq<byte>, src: seq<byte>, l: Layout, m: Masks3, x: nat, y: nat, z: nat, i: nat)
    requires BoxDone(d, src, l, m, l.dims.depth)
    requires x < l.dims.width && y < l.dims.height && z < l.dims.depth && i < l.bpp
    ensures var to: nat := z * l.slice + y * l.row + x * l.bpp;
            var from: nat := Index(m.x, m.y, m.z, x, y, z) * l.bpp;
            to + i < |d| && from + i < |src| && d[to + i] == src[from + i]
  {
    assert SliceDone(d, src, l, m, l.dims.height, z);
    assert RowDone(d, src, l, m, l.dims.width, y, z);
    assert PixelDone(d, src, l, m, x, y, z);
    BytesIsProduct(PixelIndex(m, x, y, z), l.bpp);
    var to, from := Target(l, x, y, z), Source(l, m, x, y, z);
    assert d[to..to + l.bpp][i] == src[from..from + l.bpp][i];
  }

  lemma {:induction false} DepositZero(m: nat)
    ensures Deposit(0, m) == 0
    decreases m
  {
    if m != 0 { DepositZero(m / 2); }
  }

  lemma {:induction false} BytesMonotone(i: nat, j: nat, bpp: nat)
    requires i < j
    ensures Bytes(i, bpp) + bpp <= Bytes(j, bpp)
    decreases j
  {
    if i < j - 1 { BytesMonotone(i, j - 1, bpp); }
  }

  lemma SourceFits(l: Layout, m: Masks3, n: nat, srcLen: nat, x: nat, y: nat, z: nat)
    requires Partition(m.x, m.y, m.z, n) && srcLen >= Bytes(Pow2(n), l.bpp)
    requires x < Slots(m.x) && y < Slots(m.y) && z < Slots(m.z)
    ensures Source(l, m, x, y, z) + l.bpp <= srcLen
  {
    IndexExtract(m.x, m.y, m.z, n, x, y, z);
    BytesMonotone(PixelIndex(m, x, y, z), Pow2(n), l.bpp);
  }

  lemma TargetFits(l: Layout, dstLen: nat, x: nat, y: nat, z: nat)
    requires x < l.dims.width && y < l.dims.height && z < l.dims.depth
    requires dstLen >= (l.dims.depth - 1) * l.slice + SliceSpan(l)
    ensures Target(l, x, y, z) + l.bpp <= dstLen
  {
    if z < l.dims.depth - 1 { MulStep(z, l.dims.depth - 1, l.slice); }
    InSlice(l, y, z);
    InRow(l, x, y, z);
  }

  /** Buffers of the full power-of-two volume are always large enough. */
  lemma FullVolumeFits(l: Layout, m: Masks3, n: nat, a: nat, b: nat, c: nat, srcLen: nat, dstLen: nat)
    requires l.dims == Dims(Pow2(a), Pow2(b), Pow2(c)) && Partition(m.x, m.y, m.z, n)
    requires RoundsUp(Slots(m.x), Pow2(a)) && RoundsUp(Slots(m.y), Pow2(b)) && RoundsUp(Slots(m.z), Pow2(c))
    requires srcLen >= Pow2(a) * Pow2(b) * Pow2(c) * l.bpp
    requires dstLen >= (l.dims.depth - 1) * l.slice + SliceSpan(l)
    ensures BoxFits(l, m, srcLen, dstLen)
  {
    assert srcLen >= Bytes(Pow2(n), l.bpp) by {
      VolumeIsPower(m.x, m.y, m.z, n, a, b, c);
      BytesIsProduct(Pow2(n), l.bpp);
    }
    BoxHolds(l, m, n, srcLen, dstLen);
  }

  lemma BoxHolds(l: Layout, m: Masks3, n: nat, srcLen: nat, dstLen: nat)
    requires Partition(m.x, m.y, m.z, n) && srcLen >= Bytes(Pow2(n), l.bpp)
    requires l.dims.width <= Slots(m.x) && l.dims.height <= Slots(m.y) && l.dims.depth <= Slots(m.z)
    requires dstLen >= (if l.dims.depth == 0 then 0 else (l.dims.depth - 1) * l.slice + SliceSpan(l))
    ensures BoxFits(l, m, srcLen, dstLen)
  {
    forall z | 0 <= z < l.dims.depth
      ensures SliceFits(l, m, srcLen, dstLen, z)
    {
      forall y | 0 <= y < l.dims.height
        ensures RowFits(l, m, srcLen, dstLen, y, z)
      {
        forall x | 0 <= x < l.dims.width
          ensures Fits(l, m, srcLen, dstLen, x, y, z)
        {
          TargetFits(l, dstLen, x, y, z);
          SourceFits(l, m, n, srcLen, x, y, z);
        }
      }
    }
  }
}
