/** Base relocation of a loaded library image and the patching of its import slots. */
module Relocation {
  import opened Common

  type Image = seq<byte>

  // ---------------------------------------------------------------- little-endian fields

  function Word16(img: Image, p: nat): nat
    requires p + 2 <= |img|
  {
    img[p] as int + 0x100 * img[p + 1] as int
  }

  function Word32(img: Image, p: nat): (w: u32)
    requires p + 4 <= |img|
  {
    img[p] as int + 0x100 * img[p + 1] as int + 0x1_0000 * img[p + 2] as int + 0x100_0000 * img[p + 3] as int
  }

  function Encode(v: u32): (s: seq<byte>)
    ensures |s| == 4
  {
    [v % 0x100, v / 0x100 % 0x100, v / 0x1_0000 % 0x100, v / 0x100_0000]
  }

  function Store(img: Image, p: nat, v: u32): (r: Image)
    requires p + 4 <= |img|
    ensures |r| == |img|
  {
    img[..p] + Encode(v) + img[p + 4..]
  }

  lemma LowByte(low: nat, high: nat)
    requires low < 0x100
    ensures (low + 0x100 * high) / 0x100 == high && (low + 0x100 * high) % 0x100 == low
  {
  }

  lemma LowHalf(low: nat, high: nat)
    requires low < 0x1_0000
    ensures (low + 0x1_0000 * high) / 0x1_0000 == high
  {
  }

  lemma AllButHighByte(low: nat, high: nat)
    requires low < 0x100_0000
    ensures (low + 0x100_0000 * high) / 0x100_0000 == high
  {
  }

  lemma EncodeBytes(a: byte, b: byte, c: byte, d: byte)
    ensures Encode(a as int + 0x100 * b as int + 0x1_0000 * c as int + 0x100_0000 * d as int) == [a, b, c, d]
  {
    var x := c + 0x100 * d;
    LowByte(a, b + 0x100 * x);
    LowByte(b, x);
    LowByte(c, d);
    LowHalf(a + 0x100 * b, x);
    AllButHighByte(a + 0x100 * b + 0x1_0000 * c, d);
  }

  lemma WordOfEncode(v: u32)
    ensures Word32(Encode(v), 0) == v
  {
    var q := v / 0x100;
    var r := q / 0x100;
    assert v / 0x1_0000 == r && v / 0x100_0000 == r / 0x100;
    assert v == v % 0x100 + 0x100 * (q % 0x100) + 0x1_0000 * (r % 0x100) + 0x100_0000 * (r / 0x100);
  }

  lemma StoreAt(img: Image, p: nat, v: u32)
    requires p + 4 <= |img|
    ensures Word32(Store(img, p, v), p) == v
    ensures forall k | 0 <= k < |img| && !(p <= k < p + 4) :: Store(img, p, v)[k] == img[k]
  {
    WordOfEncode(v);
    var r := Store(img, p, v);
    assert r[p] == Encode(v)[0] && r[p + 1] == Encode(v)[1] && r[p + 2] == Encode(v)[2] && r[p + 3] == Encode(v)[3];
  }

  lemma StoreSame(img: Image, p: nat)
    requires p + 4 <= |img|
    ensures Store(img, p, Word32(img, p)) == img
  {
    EncodeBytes(img[p], img[p + 1], img[p + 2], img[p + 3]);
    assert img == img[..p] + [img[p], img[p + 1], img[p + 2], img[p + 3]] + img[p + 4..];
  }

  lemma StoreTwice(img: Image, p: nat, v: u32, w: u32)
    requires p + 4 <= |img|
    ensures Store(Store(img, p, v), p, w) == Store(img, p, w)
  {
  }

  lemma StoreSwap(img: Image, p: nat, q: nat, v: u32, w: u32)
    requires p + 4 <= |img| && q + 4 <= |img| && Apart(p, q)
    ensures Store(Store(img, p, v), q, w) == Store(Store(img, q, w), p, v)
    ensures Word32(Store(img, p, v), q) == Word32(img, q)
  {
    StoreAt(img, p, v);
    StoreAt(img, q, w);
    var a, b := Store(Store(img, p, v), q, w), Store(Store(img, q, w), p, v);
    forall k | 0 <= k < |img|
      ensures a[k] == b[k]
    {
    }
  }

  predicate Apart(p: nat, q: nat) { p + 4 <= q || q + 4 <= p }

  // ---------------------------------------------------------------- one relocation

  /** The difference of the bases, as 32-bit arithmetic adds it. */
  function Delta(from: u32, to: u32): u32 { (to - from) % TWO_32 }

  function Shift(img: Image, t: nat, delta: u32): (r: Image)
    requires t + 4 <= |img|
    ensures |r| == |img|
  {
    Store(img, t, (Word32(img, t) + delta) % TWO_32)
  }

  lemma ShiftZero(img: Image, t: nat)
    requires t + 4 <= |img|
    ensures Shift(img, t, 0) == img
  {
    AddTwice(Word32(img, t), 0);
    StoreSame(img, t);
  }

  lemma ShiftTwice(img: Image, t: nat, a: u32, b: u32)
    requires t + 4 <= |img|
    ensures Shift(Shift(img, t, a), t, b) == Shift(img, t, (a + b) % TWO_32)
  {
    var w := Word32(img, t);
    StoreAt(img, t, (w + a) % TWO_32);
    StoreTwice(img, t, (w + a) % TWO_32, ((w + a) % TWO_32 + b) % TWO_32);
    AddThrice(w, a, b);
  }

  lemma AddTwice(x: u32, y: u32)
    ensures (x + y) % TWO_32 == if x + y < TWO_32 then x + y else x + y - TWO_32
  {
  }

  lemma AddThrice(w: u32, a: u32, b: u32)
    ensures ((w + a) % TWO_32 + b) % TWO_32 == (w + (a + b) % TWO_32) % TWO_32
  {
    AddTwice(w, a);
    AddTwice(a, b);
    AddTwice((w + a) % TWO_32, b);
    AddTwice(w, (a + b) % TWO_32);
  }

  lemma ShiftSwap(img: Image, s: nat, t: nat, a: u32, b: u32)
    requires s + 4 <= |img| && t + 4 <= |img| && Apart(s, t)
    ensures Shift(Shift(img, s, a), t, b) == Shift(Shift(img, t, b), s, a)
  {
    var ws, wt := (Word32(img, s) + a) % TWO_32, (Word32(img, t) + b) % TWO_32;
    StoreSwap(img, s, t, ws, wt);
    StoreSwap(img, t, s, wt, ws);
  }

  // ---------------------------------------------------------------- the table

  datatype Entry = Padding | HighLow(target: nat) | Unknown

  function Decode(va: nat, raw: nat): Entry
  {
    var kind := raw / 0x1000;
    if kind == 0 then Padding else if kind == 3 then HighLow(va + raw % 0x1000) else Unknown
  }

  /** The entries between `p` and `end` of a block for page `va`. */
  function BlockEntries(img: Image, p: nat, end: nat, va: nat): (r: seq<Entry>)
    requires p <= end <= |img| && (end - p) % 2 == 0
    ensures 2 * |r| == end - p
    decreases end - p
  {
    if p == end then [] else [Decode(va, Word16(img, p))] + BlockEntries(img, p + 2, end, va)
  }

  lemma {:induction false} BlockAt(img: Image, p: nat, end: nat, va: nat, i: nat)
    requires p <= end <= |img| && (end - p) % 2 == 0 && p + 2 * i < end
    ensures i < |BlockEntries(img, p, end, va)|
    ensures BlockEntries(img, p, end, va)[i] == Decode(va, Word16(img, p + 2 * i))
    decreases end - p
  {
    if i > 0 { BlockAt(img, p + 2, end, va, i - 1); }
  }

  /** Blocks follow each other up to one with a zero page address. */
  predicate Chain(img: Image, p: nat)
    decreases |img| - p
  {
    && p + 4 <= |img|
    && (Word32(img, p) > 0 ==>
          && p + 8 <= |img|
          && var size := Word32(img, p + 4);
             size >= 8 && size % 2 == 0 && p + size <= |img| && Chain(img, p + size))
  }

  /** First byte after the terminating page address. */
  function ChainEnd(img: Image, p: nat): (e: nat)
    requires Chain(img, p)
    ensures p + 4 <= e <= |img|
    decreases |img| - p
  {
    if Word32(img, p) == 0 then p + 4 else ChainEnd(img, p + Word32(img, p + 4))
  }

  function TableEntries(img: Image, p: nat): seq<Entry>
    requires Chain(img, p)
    decreases |img| - p
  {
    if Word32(img, p) == 0 then []
    else
      var size := Word32(img, p + 4);
      BlockEntries(img, p + 8, p + size, Word32(img, p)) + TableEntries(img, p + size)
  }

  ghost predicate SameBetween(a: Image, b: Image, lo: nat, hi: nat)
  {
    |a| == |b| && forall k | lo <= k < hi && k < |a| :: a[k] == b[k]
  }

  lemma {:induction false} SameBlock(a: Image, b: Image, p: nat, end: nat, va: nat)
    requires p <= end <= |a| && (end - p) % 2 == 0 && SameBetween(a, b, p, end)
    ensures BlockEntries(a, p, end, va) == BlockEntries(b, p, end, va)
    decreases end - p
  {
    if p < end { SameBlock(a, b, p + 2, end, va); }
  }

  lemma SameWord(a: Image, b: Image, p: nat, lo: nat, hi: nat)
    requires SameBetween(a, b, lo, hi) && lo <= p && p + 4 <= hi <= |a|
    ensures Word32(a, p) == Word32(b, p)
  {
  }

  /** A block that can be read: its size is even, holds its header and keeps to the image. */
  predicate BlockFits(img: Image, p: nat, size: nat)
  {
    && p + 8 <= |img| && Word32(img, p) > 0 && Word32(img, p + 4) == size
    && size >= 8 && size % 2 == 0 && p + size <= |img|
  }

  lemma EvenBlock(p: nat, size: nat)
    requires size % 2 == 0 && size >= 8
    ensures (p + size - (p + 8)) % 2 == 0
  {
  }

  function BlockOf(img: Image, p: nat, size: nat): seq<Entry>
    requires BlockFits(img, p, size)
  {
    EvenBlock(p, size);
    BlockEntries(img, p + 8, p + size, Word32(img, p))
  }

  /** One block in front of a table. */
  lemma BlockInFront(img: Image, p: nat, size: nat)
    requires BlockFits(img, p, size) && Chain(img, p + size)
    ensures Chain(img, p) && ChainEnd(img, p) == ChainEnd(img, p + size)
    ensures TableEntries(img, p) == BlockOf(img, p, size) + TableEntries(img, p + size)
  {
  }

  lemma ChainStarts(img: Image, p: nat) returns (size: nat)
    requires Chain(img, p) && Word32(img, p) > 0
    ensures BlockFits(img, p, size) && Chain(img, p + size) && p + size <= ChainEnd(img, p) == ChainEnd(img, p + size)
  {
    size := Word32(img, p + 4);
  }

  lemma SameFront(a: Image, b: Image, p: nat, size: nat, end: nat)
    requires BlockFits(a, p, size) && SameBetween(a, b, p, end) && p + size <= end <= |a|
    ensures BlockFits(b, p, size) && BlockOf(b, p, size) == BlockOf(a, p, size)
  {
    SameWord(a, b, p, p, end);
    SameWord(a, b, p + 4, p, end);
    EvenBlock(p, size);
    SameBlock(a, b, p + 8, p + size, Word32(a, p));
  }

  /** The table only depends on its own bytes. */
  lemma {:induction false} SameTable(a: Image, b: Image, p: nat)
    requires Chain(a, p) && SameBetween(a, b, p, ChainEnd(a, p))
    ensures Chain(b, p) && ChainEnd(b, p) == ChainEnd(a, p) && TableEntries(b, p) == TableEntries(a, p)
    decreases |a| - p
  {
    if Word32(a, p) == 0 {
      SameWord(a, b, p, p, p + 4);
    } else {
      var size := ChainStarts(a, p);
      SameFront(a, b, p, size, ChainEnd(a, p));
      SameTable(a, b, p + size);
      BlockInFront(a, p, size);
      BlockInFront(b, p, size);
    }
  }

  // ---------------------------------------------------------------- the whole table applied

  datatype Outcome = Outcome(ok: bool, image: Image)

  predicate InBounds(entries: seq<Entry>, n: nat)
  {
    forall e | e in entries && e.HighLow? :: e.target + 4 <= n
  }

  /** Entries are applied in order; an unknown one stops the run and leaves what was done. */
  function Run(img: Image, entries: seq<Entry>, delta: u32): (r: Outcome)
    requires InBounds(entries, |img|)
    ensures |r.image| == |img|
    decreases |entries|
  {
    if entries == [] then Outcome(true, img)
    else
      match entries[0]
      case Padding => Run(img, entries[1..], delta)
      case HighLow(t) => Run(Shift(img, t, delta), entries[1..], delta)
      case Unknown => Outcome(false, img)
  }

  predicate Known(entries: seq<Entry>)
  {
    forall e | e in entries :: !e.Unknown?
  }

  /** No two relocated words overlap. */
  predicate Disjoint(entries: seq<Entry>)
  {
    forall i, j | 0 <= i < j < |entries| && entries[i].HighLow? && entries[j].HighLow? ::
      Apart(entries[i].target, entries[j].target)
  }

  ghost predicate Clear(entries: seq<Entry>, t: nat)
  {
    forall i | 0 <= i < |entries| && entries[i].HighLow? :: Apart(entries[i].target, t)
  }

  /** A run succeeds exactly when it meets no unknown entry type. */
  lemma {:induction false} RunSucceedsIff(img: Image, entries: seq<Entry>, delta: u32)
    requires InBounds(entries, |img|)
    ensures Run(img, entries, delta).ok <==> Known(entries)
    decreases |entries|
  {
    if entries != [] {
      var e, rest := entries[0], entries[1..];
      assert entries == [e] + rest;
      match e
      case Padding => RunSucceedsIff(img, rest, delta);
      case HighLow(t) => RunSucceedsIff(Shift(img, t, delta), rest, delta);
      case Unknown => assert e in entries;
    }
  }

  /** A shift outside the run's words commutes with the run. */
  lemma {:induction false} RunSwap(img: Image, entries: seq<Entry>, a: u32, t: nat, b: u32)
    requires InBounds(entries, |img|) && t + 4 <= |img| && Clear(entries, t)
    ensures Shift(Run(img, entries, a).image, t, b) == Run(Shift(img, t, b), entries, a).image
    decreases |entries|
  {
    if entries != [] {
      var rest := entries[1..];
      match entries[0]
      case Padding => RunSwap(img, rest, a, t, b);
      case HighLow(s) =>
        RunSwap(Shift(img, s, a), rest, a, t, b);
        ShiftSwap(img, s, t, a, b);
      case Unknown =>
    }
  }

  /** Two runs add up: relocation is an action of 32-bit addition on images. */
  lemma {:induction false} RunTwice(img: Image, entries: seq<Entry>, a: u32, b: u32)
    requires InBounds(entries, |img|) && Disjoint(entries)
    ensures Run(Run(img, entries, a).image, entries, b).image == Run(img, entries, (a + b) % TWO_32).image
    decreases |entries|
  {
    if entries != [] {
      var rest := entries[1..];
      match entries[0]
      case Padding => RunTwice(img, rest, a, b);
      case HighLow(t) =>
        var once := Shift(img, t, a);
        RunSwap(once, rest, a, t, b);
        ShiftTwice(img, t, a, b);
        RunTwice(Shift(img, t, (a + b) % TWO_32), rest, a, b);
      case Unknown =>
    }
  }

  lemma {:induction false} RunZero(img: Image, entries: seq<Entry>)
    requires InBounds(entries, |img|)
    ensures Run(img, entries, 0).image == img
    decreases |entries|
  {
    if entries != [] {
      match entries[0]
      case Padding => RunZero(img, entries[1..]);
      case HighLow(t) =>
        ShiftZero(img, t);
        RunZero(img, entries[1..]);
      case Unknown =>
    }
  }

  /** Bytes outside the listed words never change. */
  lemma {:induction false} RunUntouched(img: Image, entries: seq<Entry>, delta: u32, k: nat)
    requires InBounds(entries, |img|) && k < |img|
    requires forall j | 0 <= j < |entries| && entries[j].HighLow? :: !(entries[j].target <= k < entries[j].target + 4)
    ensures Run(img, entries, delta).image[k] == img[k]
    decreases |entries|
  {
    if entries != [] {
      match entries[0]
      case Padding => RunUntouched(img, entries[1..], delta, k);
      case HighLow(t) =>
        StoreAt(img, t, (Word32(img, t) + delta) % TWO_32);
        RunUntouched(Shift(img, t, delta), entries[1..], delta, k);
      case Unknown =>
    }
  }

  lemma RunKeepsBytes(img: Image, entries: seq<Entry>, delta: u32, t: nat)
    requires InBounds(entries, |img|) && t + 4 <= |img| && Clear(entries, t)
    ensures Run(img, entries, delta).image[t..t + 4] == img[t..t + 4]
  {
    forall k | t <= k < t + 4
      ensures Run(img, entries, delta).image[k] == img[k]
    {
      RunUntouched(img, entries, delta, k);
    }
  }

  /** The first entry done, and what is known of the others. */
  lemma RunStarts(img: Image, entries: seq<Entry>, delta: u32) returns (next: Image)
    requires InBounds(entries, |img|) && Disjoint(entries) && Known(entries) && entries != []
    ensures var e, rest := entries[0], entries[1..];
            && InBounds(rest, |img|) && Disjoint(rest) && Known(rest) && |next| == |img|
            && (e.HighLow? ==> e.target + 4 <= |img| && next == Shift(img, e.target, delta) && Clear(rest, e.target))
            && (!e.HighLow? ==> next == img)
            && Run(img, entries, delta) == Run(next, rest, delta)
  {
    var e := entries[0];
    assert e in entries;
    next := if e.HighLow? then Shift(img, e.target, delta) else img;
  }

  /** Every listed word moves by exactly the delta. */
  lemma {:induction false} RunMoves(img: Image, entries: seq<Entry>, delta: u32, i: nat)
    requires InBounds(entries, |img|) && Disjoint(entries) && Known(entries)
    requires i < |entries| && entries[i].HighLow?
    ensures var t := entries[i].target;
            t + 4 <= |img| && Run(img, entries, delta).image[t..t + 4] == Shift(img, t, delta)[t..t + 4]
    decreases |entries|
  {
    var e, rest := entries[0], entries[1..];
    var next := RunStarts(img, entries, delta);
    if i == 0 {
      RunKeepsBytes(next, rest, delta, e.target);
    } else {
      RunMoves(next, rest, delta, i - 1);
      if e.HighLow? { ShiftLocal(img, e.target, entries[i].target, delta); }
    }
  }

  lemma ShiftLocal(img: Image, s: nat, t: nat, delta: u32)
    requires s + 4 <= |img| && t + 4 <= |img| && Apart(s, t)
    ensures Shift(Shift(img, s, delta), t, delta)[t..t + 4] == Shift(img, t, delta)[t..t + 4]
  {
    StoreAt(img, s, (Word32(img, s) + delta) % TWO_32);
    assert Word32(Shift(img, s, delta), t) == Word32(img, t);
  }

  lemma ShiftMoves(img: Image, t: nat, u: nat, delta: u32)
    requires t + 4 <= |img| && u + 4 <= |img|
    ensures Word32(Shift(img, t, delta), t) == (Word32(img, t) + delta) % TWO_32
    ensures Apart(t, u) ==> Word32(Shift(img, t, delta), u) == Word32(img, u)
  {
    StoreAt(img, t, (Word32(img, t) + delta) % TWO_32);
  }

  // ---------------------------------------------------------------- import slots

  datatype Import = Import(slot: nat, address: u32)

  predicate SlotsIn(imports: seq<Import>, n: nat)
  {
    forall i | 0 <= i < |imports| :: imports[i].slot + 4 <= n
  }

  predicate Resolved(imports: seq<Import>)
  {
    forall i | 0 <= i < |imports| :: imports[i].address != 0
  }

  /** Slots are filled in order; an unresolved import stops the run. */
  function Patch(img: Image, imports: seq<Import>): (r: Outcome)
    requires SlotsIn(imports, |img|)
    ensures |r.image| == |img|
    decreases |imports|
  {
    if imports == [] then Outcome(true, img)
    else if imports[0].address == 0 then Outcome(false, img)
    else Patch(Store(img, imports[0].slot, imports[0].address), imports[1..])
  }

  predicate InSlot(imports: seq<Import>, k: nat)
  {
    exists i | 0 <= i < |imports| :: imports[i].slot <= k < imports[i].slot + 4
  }

  lemma {:induction false} PatchSucceedsIff(img: Image, imports: seq<Import>)
    requires SlotsIn(imports, |img|)
    ensures Patch(img, imports).ok <==> Resolved(imports)
    decreases |imports|
  {
    if imports != [] && imports[0].address != 0 {
      PatchSucceedsIff(Store(img, imports[0].slot, imports[0].address), imports[1..]);
      assert forall i | 0 < i < |imports| :: imports[i] == imports[1..][i - 1];
    }
  }

  lemma {:induction false} PatchOutside(img: Image, imports: seq<Import>, k: nat)
    requires SlotsIn(imports, |img|) && k < |img| && !InSlot(imports, k)
    ensures Patch(img, imports).image[k] == img[k]
    decreases |imports|
  {
    if imports != [] && imports[0].address != 0 {
      StoreAt(img, imports[0].slot, imports[0].address);
      assert forall i | 0 <= i < |imports| - 1 :: imports[1..][i] == imports[i + 1];
      PatchOutside(Store(img, imports[0].slot, imports[0].address), imports[1..], k);
    }
  }

  /** When slots do not overlap each receives its import's address. */
  lemma {:induction false} PatchFills(img: Image, imports: seq<Import>, i: nat)
    requires SlotsIn(imports, |img|) && Resolved(imports) && i < |imports|
    requires forall a, b | 0 <= a < b < |imports| :: Apart(imports[a].slot, imports[b].slot)
    ensures Word32(Patch(img, imports).image, imports[i].slot) == imports[i].address
    decreases |imports|
  {
    var once, rest := Store(img, imports[0].slot, imports[0].address), imports[1..];
    StoreAt(img, imports[0].slot, imports[0].address);
    if i == 0 {
      var t := imports[0].slot;
      forall k | t <= k < t + 4
        ensures Patch(once, rest).image[k] == once[k]
      {
        PatchOutside(once, rest, k);
      }
    } else {
      PatchFills(once, rest, i - 1);
    }
  }
}
