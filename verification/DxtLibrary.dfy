/** A loaded library: `Relocate` and `PatchImports` on the image in place. */
module DxtLibrary {
  import opened Common
  import opened Relocation

  /** The state of a library as a value. */
  datatype Library = Library(image: Image, base: u32, relocAddress: nat, relocSize: nat, imports: seq<Import>)

  /** The table is a proper chain, everything it names lies in the image, and neither relocated words
      nor import slots touch the table or each other. */
  ghost predicate WellFormed(lib: Library)
  {
    && SlotsIn(lib.imports, |lib.image|)
    && (lib.relocSize != 0 ==>
          && Chain(lib.image, lib.relocAddress)
          && var entries, end := TableEntries(lib.image, lib.relocAddress), ChainEnd(lib.image, lib.relocAddress);
             && InBounds(entries, |lib.image|)
             && AllOutside(entries, lib.relocAddress, end)
             && (forall i | 0 <= i < |lib.imports| :: Outside(lib.imports[i].slot, lib.relocAddress, end)
                                                     && Clear(entries, lib.imports[i].slot)))
  }

  predicate Outside(t: nat, lo: nat, hi: nat) { t + 4 <= lo || hi <= t }

  predicate AllOutside(entries: seq<Entry>, lo: nat, hi: nat)
  {
    forall i | 0 <= i < |entries| && entries[i].HighLow? :: Outside(entries[i].target, lo, hi)
  }

  ghost function Entries(lib: Library): seq<Entry>
    requires WellFormed(lib) && lib.relocSize != 0
  {
    TableEntries(lib.image, lib.relocAddress)
  }

  datatype Relocated = Relocated(ok: bool, lib: Library)

  /** What relocation must deliver. */
  ghost function RelocateTo(lib: Library, base: u32): (r: Relocated)
    requires WellFormed(lib)
  {
    if base == lib.base then Relocated(true, lib)
    else if lib.relocSize == 0 then Relocated(false, lib)
    else
      var run := Run(lib.image, Entries(lib), Delta(lib.base, base));
      if !run.ok then Relocated(false, lib.(image := run.image))
      else
        var patched := Patch(run.image, lib.imports);
        Relocated(patched.ok, lib.(image := patched.image, base := base))
  }

  lemma SameTableAfterRun(img: Image, p: nat, entries: seq<Entry>, delta: u32)
    requires Chain(img, p) && InBounds(entries, |img|)
    requires AllOutside(entries, p, ChainEnd(img, p))
    ensures var r := Run(img, entries, delta).image;
            Chain(r, p) && ChainEnd(r, p) == ChainEnd(img, p) && TableEntries(r, p) == TableEntries(img, p)
  {
    var r := Run(img, entries, delta).image;
    forall k | p <= k < ChainEnd(img, p)
      ensures r[k] == img[k]
    {
      RunUntouched(img, entries, delta, k);
    }
    SameTable(img, r, p);
  }

  lemma SameTableAfterPatch(img: Image, p: nat, imports: seq<Import>)
    requires Chain(img, p) && SlotsIn(imports, |img|)
    requires forall i | 0 <= i < |imports| :: Outside(imports[i].slot, p, ChainEnd(img, p))
    ensures var r := Patch(img, imports).image;
            Chain(r, p) && ChainEnd(r, p) == ChainEnd(img, p) && TableEntries(r, p) == TableEntries(img, p)
  {
    var r := Patch(img, imports).image;
    forall k | p <= k < ChainEnd(img, p)
      ensures r[k] == img[k]
    {
      PatchOutside(img, imports, k);
    }
    SameTable(img, r, p);
  }

  /** Relocation keeps the library well formed and its table unchanged. */
  lemma RelocateKeeps(lib: Library, base: u32)
    requires WellFormed(lib)
    ensures WellFormed(RelocateTo(lib, base).lib)
    ensures lib.relocSize != 0 ==> Entries(RelocateTo(lib, base).lib) == Entries(lib)
  {
    if base != lib.base && lib.relocSize != 0 {
      var entries := Entries(lib);
      var run := Run(lib.image, entries, Delta(lib.base, base));
      SameTableAfterRun(lib.image, lib.relocAddress, entries, Delta(lib.base, base));
      SameTableAfterPatch(run.image, lib.relocAddress, lib.imports);
    }
  }

  // ---------------------------------------------------------------- laws of relocation

  /** Two images agree everywhere but in the import slots. */
  ghost predicate AgreeOutsideSlots(a: Image, b: Image, imports: seq<Import>)
  {
    |a| == |b| && forall k | 0 <= k < |a| && !InSlot(imports, k) :: a[k] == b[k]
  }

  lemma {:induction false} RunAgrees(a: Image, b: Image, imports: seq<Import>, entries: seq<Entry>, delta: u32)
    requires AgreeOutsideSlots(a, b, imports) && InBounds(entries, |a|)
    requires forall i | 0 <= i < |imports| :: Clear(entries, imports[i].slot)
    ensures AgreeOutsideSlots(Run(a, entries, delta).image, Run(b, entries, delta).image, imports)
    decreases |entries|
  {
    if entries != [] {
      var rest := entries[1..];
      match entries[0]
      case Padding => RunAgrees(a, b, imports, rest, delta);
      case HighLow(t) =>
        ShiftAgrees(a, b, imports, t, delta);
        RunAgrees(Shift(a, t, delta), Shift(b, t, delta), imports, rest, delta);
      case Unknown =>
    }
  }

  lemma ShiftAgrees(a: Image, b: Image, imports: seq<Import>, t: nat, delta: u32)
    requires AgreeOutsideSlots(a, b, imports) && t + 4 <= |a|
    requires forall i | 0 <= i < |imports| :: Apart(t, imports[i].slot)
    ensures AgreeOutsideSlots(Shift(a, t, delta), Shift(b, t, delta), imports)
  {
    assert forall k | t <= k < t + 4 :: !InSlot(imports, k);
    assert Word32(a, t) == Word32(b, t);
    StoreAt(a, t, (Word32(a, t) + delta) % TWO_32);
    StoreAt(b, t, (Word32(b, t) + delta) % TWO_32);
  }

  lemma PatchAgrees(img: Image, imports: seq<Import>)
    requires SlotsIn(imports, |img|)
    ensures AgreeOutsideSlots(Patch(img, imports).image, img, imports)
  {
    forall k | 0 <= k < |img| && !InSlot(imports, k)
      ensures Patch(img, imports).image[k] == img[k]
    {
      PatchOutside(img, imports, k);
    }
  }

  lemma DeltasAdd(x: u32, y: u32, z: u32)
    ensures (Delta(x, y) + Delta(y, z)) % TWO_32 == Delta(x, z)
    ensures Delta(x, x) == 0
  {
  }

  /** Nothing prevents the library from being moved. */
  ghost predicate Movable(lib: Library)
  {
    WellFormed(lib) && lib.relocSize != 0 && Known(Entries(lib)) && Resolved(lib.imports)
  }

  /** `to` is `from` moved to another base: up to import slots its image is one run of the table over
      the original image with the difference of the bases. */
  ghost predicate Moved(from: Library, to: Library, entries: seq<Entry>)
  {
    && InBounds(entries, |from.image|) && to.imports == from.imports
    && AgreeOutsideSlots(to.image, Run(from.image, entries, Delta(from.base, to.base)).image, from.imports)
  }

  /** A movable library always ends up at the requested base. */
  lemma RelocateMoves(lib: Library, base: u32)
    requires Movable(lib)
    ensures var r := RelocateTo(lib, base);
            && r.ok && r.lib.base == base && Movable(r.lib)
            && Entries(r.lib) == Entries(lib) && Moved(lib, r.lib, Entries(lib))
  {
    RelocateKeeps(lib, base);
    var delta := Delta(lib.base, base);
    RunSucceedsIff(lib.image, Entries(lib), delta);
    if base == lib.base {
      RunZero(lib.image, Entries(lib));
    } else {
      var run := Run(lib.image, Entries(lib), delta).image;
      PatchSucceedsIff(run, lib.imports);
      PatchAgrees(run, lib.imports);
    }
  }

  /** Relocation succeeds exactly where the library already is, or if it can be moved. */
  lemma RelocateSucceedsIff(lib: Library, base: u32)
    requires WellFormed(lib)
    ensures RelocateTo(lib, base).ok <==> base == lib.base || Movable(lib)
    ensures !RelocateTo(lib, base).ok && (lib.relocSize == 0 || !Known(Entries(lib))) ==>
              RelocateTo(lib, base).lib.base == lib.base
  {
    if base != lib.base && lib.relocSize != 0 {
      var run := Run(lib.image, Entries(lib), Delta(lib.base, base));
      RunSucceedsIff(lib.image, Entries(lib), Delta(lib.base, base));
      PatchSucceedsIff(run.image, lib.imports);
    }
  }

  /** In its new place the library finds its imports: each slot holds the address of its import. */
  lemma RelocatedImports(lib: Library, base: u32, i: nat)
    requires Movable(lib) && base != lib.base && i < |lib.imports|
    requires forall a, b | 0 <= a < b < |lib.imports| :: Apart(lib.imports[a].slot, lib.imports[b].slot)
    ensures var r, slot := RelocateTo(lib, base).lib.image, lib.imports[i].slot;
            slot + 4 <= |r| && Word32(r, slot) == lib.imports[i].address
  {
    var run := Run(lib.image, Entries(lib), Delta(lib.base, base));
    RunSucceedsIff(lib.image, Entries(lib), Delta(lib.base, base));
    PatchFills(run.image, lib.imports, i);
  }

  /** Two moves are one move. */
  lemma MovedTwice(lib: Library, mid: Library, end: Library, entries: seq<Entry>)
    requires Moved(lib, mid, entries) && Moved(mid, end, entries) && Disjoint(entries)
    requires forall i | 0 <= i < |lib.imports| :: Clear(entries, lib.imports[i].slot)
    ensures Moved(lib, end, entries)
  {
    ActTwice(lib.image, mid.image, end.image, lib.imports, entries, Delta(lib.base, mid.base), Delta(mid.base,
        end.base));
    DeltasAdd(lib.base, mid.base, end.base);
  }

  lemma ActTwice(img: Image, mid: Image, end: Image, imports: seq<Import>, entries: seq<Entry>, a: u32, b: u32)
    requires InBounds(entries, |img|) && Disjoint(entries) && |mid| == |img|
    requires forall i | 0 <= i < |imports| :: Clear(entries, imports[i].slot)
    requires AgreeOutsideSlots(mid, Run(img, entries, a).image, imports)
    requires AgreeOutsideSlots(end, Run(mid, entries, b).image, imports)
    ensures AgreeOutsideSlots(end, Run(img, entries, (a + b) % TWO_32).image, imports)
  {
    RunAgrees(mid, Run(img, entries, a).image, imports, entries, b);
    RunTwice(img, entries, a, b);
  }

  lemma SlotsClear(lib: Library)
    requires WellFormed(lib) && lib.relocSize != 0
    ensures InBounds(Entries(lib), |lib.image|)
    ensures forall i | 0 <= i < |lib.imports| :: Clear(Entries(lib), lib.imports[i].slot)
  {
  }

  /** Moving twice is the same as moving once to the final base, import slots aside. */
  lemma RelocateTwice(lib: Library, a: u32, b: u32)
    requires Movable(lib) && Disjoint(Entries(lib))
    ensures WellFormed(RelocateTo(lib, a).lib)
    ensures var once, twice := RelocateTo(lib, b), RelocateTo(RelocateTo(lib, a).lib, b);
            && once.ok && twice.ok && twice.lib.base == once.lib.base == b
            && AgreeOutsideSlots(twice.lib.image, once.lib.image, lib.imports)
  {
    RelocateMoves(lib, a);
    RelocateMoves(lib, b);
    RelocateMoves(RelocateTo(lib, a).lib, b);
    SlotsClear(lib);
    MovedTwice(lib, RelocateTo(lib, a).lib, RelocateTo(RelocateTo(lib, a).lib, b).lib, Entries(lib));
  }

  /** Moving away and back restores the image, import slots aside. */
  lemma RelocateBack(lib: Library, a: u32)
    requires Movable(lib) && Disjoint(Entries(lib))
    ensures WellFormed(RelocateTo(lib, a).lib)
    ensures var back := RelocateTo(RelocateTo(lib, a).lib, lib.base).lib;
            back.base == lib.base && AgreeOutsideSlots(back.image, lib.image, lib.imports)
  {
    RelocateTwice(lib, a, lib.base);
  }

  /** In a move every word the table names moves by the difference of the bases. */
  lemma MovedWord(from: Library, to: Library, entries: seq<Entry>, i: nat)
    requires Moved(from, to, entries) && Disjoint(entries) && Known(entries)
    requires forall j | 0 <= j < |from.imports| :: Clear(entries, from.imports[j].slot)
    requires i < |entries| && entries[i].HighLow?
    ensures var t := entries[i].target;
            && t + 4 <= |from.image| == |to.image|
            && Word32(to.image, t) == (Word32(from.image, t) + to.base - from.base) % TWO_32
  {
    WordMoves(from.image, to.image, from.imports, entries, Delta(from.base, to.base), i);
    DeltaAdds(Word32(from.image, entries[i].target), from.base, to.base);
  }

  lemma DeltaAdds(w: u32, from: u32, to: u32)
    ensures (w + Delta(from, to)) % TWO_32 == (w + to - from) % TWO_32
  {
    var d := to - from;
    assert w + d == w + d % TWO_32 + d / TWO_32 * TWO_32;
  }

  /** The word at `t` has moved with the library: it differs by the difference of the bases, and the address of
      `k` bytes into the library has become that at its new place. */
  ghost predicate WordFollows(from: Image, to: Image, t: nat, base: u32, base': u32, k: int)
  {
    && t + 4 <= |from| == |to|
    && (Word32(to, t) - Word32(from, t)) % TWO_32 == (base' - base) % TWO_32
    && (Word32(from, t) == (base + k) % TWO_32 ==> Word32(to, t) == (base' + k) % TWO_32)
  }

  lemma MovedPlace(from: Library, to: Library, entries: seq<Entry>, i: nat, k: int)
    requires Moved(from, to, entries) && Disjoint(entries) && Known(entries)
    requires forall j | 0 <= j < |from.imports| :: Clear(entries, from.imports[j].slot)
    requires i < |entries| && entries[i].HighLow?
    ensures WordFollows(from.image, to.image, entries[i].target, from.base, to.base, k)
  {
    var t := entries[i].target;
    MovedWord(from, to, entries, i);
    Displaced(Word32(from.image, t), Word32(to.image, t), from.base, to.base, k);
  }

  /** Relocation carries every word the table names along with the library. */
  lemma RelocatedWord(lib: Library, base: u32, entries: seq<Entry>, i: nat, k: int)
    requires Movable(lib) && entries == Entries(lib) && Disjoint(entries) && i < |entries| && entries[i].HighLow?
    ensures WordFollows(lib.image, RelocateTo(lib, base).lib.image, entries[i].target, lib.base, base, k)
  {
    RelocateMoves(lib, base);
    SlotsClear(lib);
    MovedPlace(lib, RelocateTo(lib, base).lib, entries, i, k);
  }

  lemma Displaced(w: u32, w': u32, from: u32, to: u32, k: int)
    requires w' == (w + to - from) % TWO_32
    ensures (w' - w) % TWO_32 == (to - from) % TWO_32
    ensures w == (from + k) % TWO_32 ==> w' == (to + k) % TWO_32
  {
    var q := (w + to - from) / TWO_32;
    assert w' - w == to - from - q * TWO_32;
    if w == (from + k) % TWO_32 {
      var p := (from + k) / TWO_32;
      assert w + to - from == to + k - p * TWO_32;
    }
  }

  lemma WordMoves(img: Image, to: Image, imports: seq<Import>, entries: seq<Entry>, delta: u32, i: nat)
    requires InBounds(entries, |img|) && Disjoint(entries) && Known(entries)
    requires forall j | 0 <= j < |imports| :: Clear(entries, imports[j].slot)
    requires AgreeOutsideSlots(to, Run(img, entries, delta).image, imports)
    requires i < |entries| && entries[i].HighLow?
    ensures var t := entries[i].target;
            t + 4 <= |img| && Word32(to, t) == (Word32(img, t) + delta) % TWO_32
  {
    var t, ran := entries[i].target, Run(img, entries, delta).image;
    RunMoves(img, entries, delta, i);
    OutOfSlots(imports, t);
    WordFromBytes(to, ran, Shift(img, t, delta), t);
    ShiftMoves(img, t, t, delta);
  }

  lemma WordFromBytes(a: Image, b: Image, c: Image, t: nat)
    requires |a| == |b| == |c| && t + 4 <= |a|
    requires a[t] == b[t] && a[t + 1] == b[t + 1] && a[t + 2] == b[t + 2] && a[t + 3] == b[t + 3]
    requires b[t..t + 4] == c[t..t + 4]
    ensures Word32(a, t) == Word32(c, t)
  {
    var x, y := b[t..t + 4], c[t..t + 4];
    assert x[0] == y[0] && x[1] == y[1] && x[2] == y[2] && x[3] == y[3];
  }

  lemma OutOfSlots(imports: seq<Import>, t: nat)
    requires forall j | 0 <= j < |imports| :: Apart(t, imports[j].slot)
    ensures !InSlot(imports, t) && !InSlot(imports, t + 1) && !InSlot(imports, t + 2) && !InSlot(imports, t + 3)
  {
  }

  /** No other byte changes, import slots aside. */
  lemma MovedByte(from: Library, to: Library, entries: seq<Entry>, k: nat)
    requires Moved(from, to, entries) && k < |from.image| && !InSlot(from.imports, k)
    requires forall j | 0 <= j < |entries| && entries[j].HighLow? :: !(entries[j].target <= k < entries[j].target + 4)
    ensures |to.image| == |from.image| && to.image[k] == from.image[k]
  {
    RunUntouched(from.image, entries, Delta(from.base, to.base), k);
  }

  // ---------------------------------------------------------------- the library in place

  class DXTLibrary {
    const image: array<byte>
    var imageBase: u32
    const relocAddress: nat
    const relocSize: nat
    var imports: seq<Import>

    constructor (image: array<byte>, base: u32, relocAddress: nat, relocSize: nat, imports: seq<Import>)
      ensures this.image == image && Value() == Library(image[..], base, relocAddress, relocSize, imports)
    {
      this.image, this.imageBase := image, base;
      this.relocAddress, this.relocSize, this.imports := relocAddress, relocSize, imports;
    }

    ghost function Value(): Library
      reads this, image
    {
      Library(image[..], imageBase, relocAddress, relocSize, imports)
    }

    method Write32(p: nat, v: u32)
      requires p + 4 <= image.Length
      modifies image
      ensures image[..] == Store(old(image[..]), p, v)
    {
      image[p], image[p + 1], image[p + 2], image[p + 3] :=
        v % 0x100, v / 0x100 % 0x100, v / 0x1_0000 % 0x100, v / 0x100_0000;
      assert image[..] == old(image[..])[..p] + Encode(v) + old(image[..])[p + 4..];
    }

    method PatchImports() returns (ok: bool)
      requires SlotsIn(imports, image.Length)
      modifies image
      ensures Outcome(ok, image[..]) == Patch(old(image[..]), imports)
    {
      for i := 0 to |imports|
        invariant Patch(image[..], imports[i..]) == Patch(old(image[..]), imports)
      {
        assert imports[i..][1..] == imports[i + 1..] && imports[i..][0] == imports[i];
        if imports[i].address == 0 {
          return false;
        }
        Write32(imports[i].slot, imports[i].address);
      }
      ok := true;
    }

    /** The first of the entries `now`; `next` are the others. */
    method ApplyEntry(e: Entry, delta: u32, ghost now: seq<Entry>, ghost next: seq<Entry>, ghost img: Image,
                      ghost lo: nat, ghost hi: nat)
        returns (ok: bool)
      requires InBounds(now, image.Length) && now == [e] + next
      requires SameBetween(img, image[..], lo, hi) && (e.HighLow? ==> Outside(e.target, lo, hi))
      modifies image
      ensures SameBetween(img, image[..], lo, hi) && InBounds(next, image.Length)
      ensures ok ==> Run(old(image[..]), now, delta) == Run(image[..], next, delta)
      ensures !ok ==> Run(old(image[..]), now, delta) == Outcome(false, image[..])
    {
      ghost var before := image[..];
      RunHead(before, now, next, delta);
      if e.HighLow? {
        var t := e.target;
        Write32(t, (Read32(t) + delta) % TWO_32);
      }
      ShiftKeeps(img, before, image[..], lo, hi, e, delta);
      ok := !e.Unknown?;
    }

    /** The entries of one block, from byte `p` to byte `end`; `later` are the entries of the blocks
        after it, and the table, found at `[lo, hi)` in `img`, stays as it is. */
    method RelocateBlock(p: nat, end: nat, va: nat, delta: u32, ghost img: Image, ghost later: seq<Entry>,
                         ghost lo: nat, ghost hi: nat)
        returns (ok: bool)
      requires lo <= p <= end <= hi <= image.Length && (end - p) % 2 == 0
      requires SameBetween(img, image[..], lo, hi)
      requires InBounds(BlockEntries(img, p, end, va) + later, image.Length)
      requires AllOutside(BlockEntries(img, p, end, va), lo, hi)
      modifies image
      ensures SameBetween(img, image[..], lo, hi)
      ensures ok ==> Run(old(image[..]), BlockEntries(img, p, end, va) + later, delta) == Run(image[..], later, delta)
      ensures !ok ==> Run(old(image[..]), BlockEntries(img, p, end, va) + later, delta) == Outcome(false, image[..])
    {
      ghost var all := BlockEntries(img, p, end, va);
      ghost var i := 0;
      assert all[0..] == all;
      var entry := p;
      while entry < end
        invariant entry == p + 2 * i && i <= |all|
        invariant SameBetween(img, image[..], lo, hi)
        invariant InBounds(all[i..] + later, image.Length)
        invariant Run(old(image[..]), all + later, delta) == Run(image[..], all[i..] + later, delta)
      {
        var e := ReadEntry(entry, va, img, p, end, i);
        ghost var now, next := all[i..] + later, all[i + 1..] + later;
        assert now == [all[i]] + next;
        ok := ApplyEntry(e, delta, now, next, img, lo, hi);
        if !ok {
          return;
        }
        entry, i := entry + 2, i + 1;
      }
      assert all[i..] + later == later;
      ok := true;
    }

    function Read32(p: nat): u32
      requires p + 4 <= image.Length
      reads image
      ensures Read32(p) == Word32(image[..], p)
    {
      image[p] as int + 0x100 * image[p + 1] as int + 0x1_0000 * image[p + 2] as int + 0x100_0000 * image[p + 3] as int
    }

    /** The block at `p` of the table found at `[lo, hi)` in `img`. */
    method RelocateNext(p: nat, delta: u32, ghost img: Image, ghost lo: nat, ghost hi: nat) returns (ok: bool, p': nat)
      requires lo <= p && Chain(img, p) && ChainEnd(img, p) == hi && Word32(img, p) > 0
      requires SameBetween(img, image[..], lo, hi)
      requires InBounds(TableEntries(img, p), image.Length) && AllOutside(TableEntries(img, p), lo, hi)
      modifies image
      ensures p < p' <= hi && Chain(img, p') && ChainEnd(img, p') == hi && SameBetween(img, image[..], lo, hi)
      ensures InBounds(TableEntries(img, p'), image.Length) && AllOutside(TableEntries(img, p'), lo, hi)
      ensures ok ==> Run(old(image[..]), TableEntries(img, p), delta) == Run(image[..], TableEntries(img, p'), delta)
      ensures !ok ==> Run(old(image[..]), TableEntries(img, p), delta) == Outcome(false, image[..])
    {
      ChainStep(img, p);
      SameWord(img, image[..], p, lo, hi);
      SameWord(img, image[..], p + 4, lo, hi);
      var va: nat, size: nat := Read32(p), Read32(p + 4);
      p' := p + size;
      ghost var block, later := BlockEntries(img, p + 8, p', va), TableEntries(img, p');
      SplitTable(TableEntries(img, p), block, later, image.Length, lo, hi);
      ok := RelocateBlock(p + 8, p', va, delta, img, later, lo, hi);
    }

    /** All blocks of the table. */
    method RelocateTable(delta: u32) returns (ok: bool)
      requires relocSize != 0 && WellFormed(Value())
      modifies image
      ensures Outcome(ok, image[..]) == Run(old(image[..]), Entries(old(Value())), delta)
    {
      ghost var img := image[..];
      ghost var lo, hi := relocAddress, ChainEnd(img, relocAddress);
      ghost var goal := Run(img, TableEntries(img, relocAddress), delta);
      var p: nat := relocAddress;
      while Read32(p) > 0
        invariant lo <= p <= hi && Chain(img, p) && ChainEnd(img, p) == hi
        invariant SameBetween(img, image[..], lo, hi)
        invariant InBounds(TableEntries(img, p), image.Length) && AllOutside(TableEntries(img, p), lo, hi)
        invariant goal == Run(image[..], TableEntries(img, p), delta)
        decreases hi - p
      {
        SameWord(img, image[..], p, lo, hi);
        ok, p := RelocateNext(p, delta, img, lo, hi);
        if !ok {
          return;
        }
      }
      SameWord(img, image[..], p, lo, hi);
      ok := true;
    }

    static method ImageDelta(from: u32, to: u32) returns (delta: u32)
      requires from != to
      ensures delta == Delta(from, to) == (to - from) % TWO_32
    {
      delta := if to > from then to - from else TWO_32 - (from - to);
    }

    /** Moves the library to a new base; an unknown relocation type leaves the image half moved and the
        base unchanged, an unresolved import leaves the slots half filled. */
    method Relocate(base: u32) returns (ok: bool)
      requires WellFormed(Value())
      modifies this`imageBase, image
      ensures WellFormed(Value())
      ensures Relocated(ok, Value()) == RelocateTo(old(Value()), base)
    {
      ghost var before := Value();
      RelocateKeeps(before, base);
      if base == imageBase {
        return true;
      }
      var delta := ImageDelta(imageBase, base);
      if relocSize == 0 {
        return false;
      }
      ok := RelocateTable(delta);
      if !ok {
        return;
      }
      imageBase := base;
      ok := PatchImports();
    }

    method ReadEntry(at: nat, va: nat, ghost img: Image, ghost p: nat, ghost end: nat, ghost i: nat) returns (e: Entry)
      requires p <= end <= image.Length && (end - p) % 2 == 0 && SameBetween(img, image[..], p, end)
      requires at == p + 2 * i < end
      ensures i < |BlockEntries(img, p, end, va)| && e == BlockEntries(img, p, end, va)[i]
    {
      BlockAt(img, p, end, va, i);
      e := Decode(va, image[at] as int + 0x100 * image[at + 1] as int);
    }
  }

  lemma ChainStep(img: Image, p: nat)
    requires Chain(img, p) && Word32(img, p) > 0
    ensures p + 8 <= |img|
    ensures var size := Word32(img, p + 4);
            && size >= 8 && (size - 8) % 2 == 0 && p + size + 4 <= ChainEnd(img, p)
            && Chain(img, p + size) && ChainEnd(img, p + size) == ChainEnd(img, p)
            && TableEntries(img, p) == BlockEntries(img, p + 8, p + size, Word32(img, p)) + TableEntries(img, p + size)
  {
  }

  lemma SplitTable(rest: seq<Entry>, block: seq<Entry>, later: seq<Entry>, n: nat, lo: nat, hi: nat)
    requires rest == block + later && InBounds(rest, n) && AllOutside(rest, lo, hi)
    ensures InBounds(later, n) && AllOutside(block, lo, hi) && AllOutside(later, lo, hi)
  {
    assert forall e | e in later :: e in rest;
    assert forall i | 0 <= i < |block| :: block[i] == rest[i];
    assert forall i | 0 <= i < |later| :: later[i] == rest[|block| + i];
  }

  lemma ShiftKeeps(img: Image, before: Image, after: Image, p: nat, end: nat, e: Entry, delta: u32)
    requires SameBetween(img, before, p, end)
    requires e.HighLow? ==> e.target + 4 <= |before| && Outside(e.target, p, end)
    requires after == if e.HighLow? then Shift(before, e.target, delta) else before
    ensures SameBetween(img, after, p, end)
  {
    if e.HighLow? { StoreAt(before, e.target, (Word32(before, e.target) + delta) % TWO_32); }
  }

  lemma RunHead(img: Image, now: seq<Entry>, next: seq<Entry>, delta: u32)
    requires InBounds(now, |img|) && now != [] && now == [now[0]] + next
    ensures now[0].HighLow? ==> now[0].target + 4 <= |img|
    ensures InBounds(next, |img|)
    ensures Run(img, now, delta) ==
            match now[0]
            case Padding => Run(img, next, delta)
            case HighLow(t) => Run(Shift(img, t, delta), next, delta)
            case Unknown => Outcome(false, img)
  {
    assert now[0] in now && now[1..] == next;
    assert forall e | e in next :: e in now;
  }
}
