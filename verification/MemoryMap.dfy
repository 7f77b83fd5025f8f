/** The debugger's picture of mapped memory, and the greedy walk that decides whether an access stays
    inside it. */
module MemoryMap {
  import opened Common

  const TOP: u32 := 0xFFFF_FFFF

  datatype MemoryRegion = MemoryRegion(start: u32, size: u32, protect: u32)

  /** The first address beyond the region, in 32 bits. */
  function End(r: MemoryRegion): u32 { (r.start + r.size) % TWO_32 }

  predicate Contains(r: MemoryRegion, a: u32)
  {
    a >= r.start && (a + 1) % TWO_32 <= End(r)
  }

  predicate HasFlag(protect: u32, flag: u32)
    requires flag > 0
  {
    protect / flag % 2 == 1
  }

  /** Any of the write, copy and execute protections. */
  predicate IsWritable(r: MemoryRegion)
  {
    || HasFlag(r.protect, 0x04) || HasFlag(r.protect, 0x08) || HasFlag(r.protect, 0x10)
    || HasFlag(r.protect, 0x20) || HasFlag(r.protect, 0x40) || HasFlag(r.protect, 0x80)
  }

  /** The six flags are the upper ones of the lowest eight; no access and read only are below them, guard and
      caching above. */
  lemma WritableIff(r: MemoryRegion)
    ensures IsWritable(r) <==> r.protect % 0x100 >= 4
  {
    var p := r.protect;
    HalvedTwice(p);
    HalvedAgain(p);
    UpperBits(p, p / 4, p / 0x08, p / 0x10, p / 0x20, p / 0x40, p / 0x80);
  }

  lemma HalvedTwice(x: nat)
    ensures x / 0x08 == x / 4 / 2 && x / 0x10 == x / 0x08 / 2
  {
  }

  lemma HalvedAgain(x: nat)
    ensures x / 0x20 == x / 0x10 / 2 && x / 0x40 == x / 0x20 / 2 && x / 0x80 == x / 0x40 / 2
  {
  }

  lemma Halved(x: nat, h: nat)
    requires h == x / 2
    ensures x == 2 * h + x % 2 && 0 <= x % 2 <= 1
  {
  }

  lemma UpperBits(p: nat, a: nat, b: nat, c: nat, d: nat, e: nat, f: nat)
    requires a == p / 4 && b == a / 2 && c == b / 2 && d == c / 2 && e == d / 2 && f == e / 2
    ensures p % 0x100 >= 4 <==> a % 2 == 1 || b % 2 == 1 || c % 2 == 1 || d % 2 == 1 || e % 2 == 1 || f % 2 == 1
  {
    Halved(a, b);
    Halved(b, c);
    Halved(c, d);
    Halved(d, e);
    Halved(e, f);
    Halved(f, f / 2);
    var low := a % 2 + 2 * (b % 2) + 4 * (c % 2) + 8 * (d % 2) + 16 * (e % 2) + 32 * (f % 2);
    Cut(p, a, f / 2, low);
  }

  lemma Cut(p: nat, a: nat, g: nat, low: nat)
    requires a == p / 4 && a == 64 * g + low && low < 64
    ensures p % 0x100 >= 4 <==> low > 0
  {
    assert p == 4 * a + p % 4;
    assert p == 0x100 * g + (4 * low + p % 4);
  }

  // ---------------------------------------------------------------- what the walk should decide

  /** The region really holds the address. */
  predicate Within(r: MemoryRegion, a: int) { r.start <= a < r.start + r.size }

  /** The region is known to hold the address: one that reaches the top of the address space has its end
      computed as an address before its start, and counts as empty. */
  predicate Holds(r: MemoryRegion, a: int) { Within(r, a) && r.start + r.size < TWO_32 }

  ghost predicate Mapped(regions: seq<MemoryRegion>, a: int)
  {
    exists r :: r in regions && Holds(r, a)
  }

  ghost predicate AllMapped(regions: seq<MemoryRegion>, first: int, last: int)
  {
    forall a | first <= a <= last :: Mapped(regions, a)
  }

  ghost predicate LastWritable(regions: seq<MemoryRegion>, last: int)
  {
    forall r | r in regions && Holds(r, last) :: IsWritable(r)
  }

  ghost predicate Sorted(regions: seq<MemoryRegion>)
  {
    forall i, j | 0 <= i < j < |regions| :: regions[i].start <= regions[j].start
  }

  ghost predicate Disjoint(regions: seq<MemoryRegion>)
  {
    forall i, j, a | 0 <= i < j < |regions| && Holds(regions[i], a) :: !Holds(regions[j], a)
  }

  // ---------------------------------------------------------------- the walk

  function Walk(regions: seq<MemoryRegion>, start: u32, last: u32, write: bool): bool
    decreases |regions|
  {
    if regions == [] then false
    else
      var r := regions[0];
      if !Contains(r, start) then Walk(regions[1..], start, last, write)
      else if Contains(r, last) then !write || IsWritable(r)
      else Walk(regions[1..], End(r), last, write)
  }

  lemma ContainsIff(r: MemoryRegion, a: u32)
    ensures Contains(r, a) <==> Holds(r, a) || a == TOP
    ensures Holds(r, a) ==> End(r) == r.start + r.size
  {
    assert End(r) == r.start + r.size || End(r) == r.start + r.size - TWO_32;
  }

  lemma TailOf(regions: seq<MemoryRegion>)
    requires regions != []
    ensures Sorted(regions) ==> Sorted(regions[1..]) && forall r | r in regions[1..] :: regions[0].start <= r.start
    ensures Disjoint(regions) ==> Disjoint(regions[1..])
    ensures forall a :: Mapped(regions, a) <==> Holds(regions[0], a) || Mapped(regions[1..], a)
  {
    assert regions == [regions[0]] + regions[1..];
    assert regions[0] in regions;
    forall a | Mapped(regions[1..], a)
      ensures Mapped(regions, a)
    {
      var r :| r in regions[1..] && Holds(r, a);
      assert r in regions;
    }
  }

  /** Below the top of the address space a read is granted exactly when every address is mapped. */
  lemma {:induction false} WalkIff(regions: seq<MemoryRegion>, start: u32, last: u32)
    requires Sorted(regions)
    requires start <= last < TOP
    ensures Walk(regions, start, last, false) <==> AllMapped(regions, start, last)
    decreases |regions|
  {
    if regions == [] {
      assert !Mapped(regions, start);
    } else {
      var r, rest := regions[0], regions[1..];
      TailOf(regions);
      ContainsIff(r, start);
      ContainsIff(r, last);
      if !Contains(r, start) {
        WalkIff(rest, start, last);
        if r.start > start {
          assert !Mapped(rest, start);
          assert !Mapped(regions, start);
        } else {
          forall a | start <= a <= last
            ensures Mapped(regions, a) <==> Mapped(rest, a)
          {
            assert !Holds(r, a);
          }
        }
      } else if Contains(r, last) {
        forall a | start <= a <= last
          ensures Mapped(regions, a)
        {
          assert Holds(r, a);
        }
      } else {
        WalkIff(rest, End(r), last);
        Advance(regions, start, last);
      }
    }
  }

  /** What the first region covers need not be looked for again. */
  lemma Advance(regions: seq<MemoryRegion>, start: u32, last: u32)
    requires regions != [] && Holds(regions[0], start) && last < TOP
    ensures AllMapped(regions, start, last) <==> AllMapped(regions[1..], End(regions[0]), last)
  {
    var r, rest := regions[0], regions[1..];
    TailOf(regions);
    ContainsIff(r, start);
    if AllMapped(regions, start, last) {
      forall a | End(r) <= a <= last
        ensures Mapped(rest, a)
      {
        assert Mapped(regions, a) && !Holds(r, a);
      }
    }
    if AllMapped(rest, End(r), last) {
      forall a | start <= a <= last
        ensures Mapped(regions, a)
      {
        assert Holds(r, a) || Mapped(rest, a);
      }
    }
  }

  /** A write is granted exactly when the read is and the region of the last byte is writable; the other
      regions' protection is not looked at. */
  lemma {:induction false} WalkWriteIff(regions: seq<MemoryRegion>, start: u32, last: u32)
    requires Sorted(regions) && Disjoint(regions)
    requires start <= last < TOP
    ensures Walk(regions, start, last, true) <==> AllMapped(regions, start, last) && LastWritable(regions, last)
    decreases |regions|
  {
    WalkIff(regions, start, last);
    if regions != [] {
      var r, rest := regions[0], regions[1..];
      TailOf(regions);
      ContainsIff(r, start);
      ContainsIff(r, last);
      WalkWriteIff(rest, if Contains(r, start) && !Contains(r, last) then End(r) else start, last);
      if Contains(r, start) && Contains(r, last) {
        assert forall q | q in regions && Holds(q, last) :: q == r;
      } else {
        SameLast(regions, last);
        if !Contains(r, start) && Contains(r, last) { assert !Mapped(rest, start) && !Mapped(regions, start); }
        else if !Contains(r, start) { WalkIff(rest, start, last); }
        else { Advance(regions, start, last); }
      }
    }
  }

  lemma SameLast(regions: seq<MemoryRegion>, last: u32)
    requires regions != []
    ensures !Holds(regions[0], last) ==> (LastWritable(regions, last) <==> LastWritable(regions[1..], last))
  {
    assert regions == [regions[0]] + regions[1..];
  }

  // ---------------------------------------------------------------- at the top and past it

  /** The first region that contains the address, or the number of regions. */
  function First(regions: seq<MemoryRegion>, a: u32): (i: nat)
    ensures i <= |regions| && (forall j | 0 <= j < i :: !Contains(regions[j], a))
    ensures i < |regions| ==> Contains(regions[i], a)
  {
    if regions == [] || Contains(regions[0], a) then 0 else 1 + First(regions[1..], a)
  }

  /** The last address of all counts as held by every region, so an access that ends there is decided by the
      first region that contains its first byte. */
  lemma {:induction false} WalkToTop(regions: seq<MemoryRegion>, start: u32, write: bool)
    ensures var i := First(regions, start);
            Walk(regions, start, TOP, write) <==> i < |regions| && (!write || IsWritable(regions[i]))
    decreases |regions|
  {
    if regions != [] {
      ContainsIff(regions[0], TOP);
      if !Contains(regions[0], start) { WalkToTop(regions[1..], start, write); }
    }
  }

  /** An access that wraps past the top is decided by the first region that contains its first byte: it must
      hold the last one too. */
  lemma {:induction false} WalkWrapped(regions: seq<MemoryRegion>, start: u32, last: u32, write: bool)
    requires Sorted(regions) && last < start < TOP
    ensures var i := First(regions, start);
            Walk(regions, start, last, write) <==>
            i < |regions| && Holds(regions[i], last) && (!write || IsWritable(regions[i]))
    decreases |regions|
  {
    if regions != [] {
      var r, rest := regions[0], regions[1..];
      TailOf(regions);
      ContainsIff(r, start);
      ContainsIff(r, last);
      if !Contains(r, start) {
        WalkWrapped(rest, start, last, write);
      } else if !Contains(r, last) {
        BeyondLast(rest, End(r), last, write);
      }
    }
  }

  /** One that starts at the last address, which every region seems to contain, goes on behind the first. */
  lemma WalkFromTop(regions: seq<MemoryRegion>, last: u32, write: bool)
    requires Sorted(regions) && regions != [] && last < TOP && (write ==> Disjoint(regions))
    ensures var r, rest := regions[0], regions[1..];
            Walk(regions, TOP, last, write) <==>
            if Holds(r, last) then !write || IsWritable(r)
            else End(r) <= last && AllMapped(rest, End(r), last) && (!write || LastWritable(rest, last))
  {
    var r := regions[0];
    TailOf(regions);
    ContainsIff(r, TOP);
    ContainsIff(r, last);
    if End(r) <= last {
      WalkIff(regions[1..], End(r), last);
      if write { WalkWriteIff(regions[1..], End(r), last); }
    } else if !Holds(r, last) {
      assert last < r.start;
      BeyondLast(regions[1..], End(r), last, write);
    }
  }

  lemma {:induction false} BeyondLast(regions: seq<MemoryRegion>, start: u32, last: u32, write: bool)
    requires forall r | r in regions :: r.start > last
    ensures last < TOP ==> !Walk(regions, start, last, write)
    decreases |regions|
  {
    if regions != [] {
      assert regions[0] in regions;
      BeyondLast(regions[1..], start, last, write);
      BeyondLast(regions[1..], End(regions[0]), last, write);
    }
  }

  // ---------------------------------------------------------------- the operations

  /** The list is kept sorted by start; equal starts keep their order. */
  function Insert(regions: seq<MemoryRegion>, r: MemoryRegion): seq<MemoryRegion>
  {
    if regions == [] || r.start <= regions[0].start then [r] + regions
    else [regions[0]] + Insert(regions[1..], r)
  }

  lemma {:induction false} InsertKeeps(regions: seq<MemoryRegion>, r: MemoryRegion)
    ensures multiset(Insert(regions, r)) == multiset(regions) + multiset{r}
  {
    if regions != [] && r.start > regions[0].start {
      assert regions == [regions[0]] + regions[1..];
      InsertKeeps(regions[1..], r);
    }
  }

  lemma SortedBefore(first: MemoryRegion, rest: seq<MemoryRegion>)
    requires Sorted(rest)
    requires forall q | q in rest :: first.start <= q.start
    ensures Sorted([first] + rest)
  {
  }

  lemma {:induction false} InsertSorts(regions: seq<MemoryRegion>, r: MemoryRegion)
    requires Sorted(regions)
    ensures Sorted(Insert(regions, r))
  {
    if regions == [] || r.start <= regions[0].start {
      SortedBefore(r, regions);
    } else {
      var rest := regions[1..];
      InsertSorts(rest, r);
      InsertKeeps(rest, r);
      forall q | q in Insert(rest, r)
        ensures regions[0].start <= q.start
      {
        assert q in multiset(Insert(rest, r));
        assert q == r || q in rest;
      }
      SortedBefore(regions[0], Insert(rest, r));
    }
  }

  method SortRegions(reported: seq<MemoryRegion>) returns (regions: seq<MemoryRegion>)
    ensures Sorted(regions) && multiset(regions) == multiset(reported)
  {
    regions := [];
    var i := |reported|;
    while i > 0
      invariant 0 <= i <= |reported|
      invariant Sorted(regions) && multiset(regions) == multiset(reported[i..])
    {
      i := i - 1;
      assert reported[i..] == [reported[i]] + reported[i + 1..];
      InsertSorts(regions, reported[i]);
      InsertKeeps(regions, reported[i]);
      regions := Insert(regions, reported[i]);
    }
    assert reported[0..] == reported;
  }

  ghost predicate Granted(regions: seq<MemoryRegion>, address: u32, length: u32, write: bool)
    requires length > 0
  {
    regions == [] || Walk(regions, address, (address + length - 1) % TWO_32, write)
  }

  /** Every access, decided. Below the top of the address space the greedy walk finds every region it needs.
      What reaches the top is decided by the first region that contains its first byte. */
  lemma GrantedIff(regions: seq<MemoryRegion>, address: u32, length: u32, write: bool)
    requires regions != [] && Sorted(regions) && length > 0 && (address < TOP || length == 1)
    ensures var end := address + length;
            var i := First(regions, address);
            && (end < TWO_32 && !write ==>
                  (Granted(regions, address, length, write) <==> AllMapped(regions, address, end - 1)))
            && (end < TWO_32 && write && Disjoint(regions) ==>
                  (Granted(regions, address, length, write) <==>
                   AllMapped(regions, address, end - 1) && LastWritable(regions, end - 1)))
            && (end >= TWO_32 ==>
                  (Granted(regions, address, length, write) <==>
                   && i < |regions| && (end > TWO_32 ==> Holds(regions[i], end - 1 - TWO_32))
                   && (!write || IsWritable(regions[i]))))
  {
    if address + length < TWO_32 {
      GrantedBelow(regions, address, length);
    } else {
      GrantedAtTop(regions, address, length, write);
    }
  }

  lemma GrantedBelow(regions: seq<MemoryRegion>, address: u32, length: u32)
    requires regions != [] && Sorted(regions) && length > 0 && address + length < TWO_32
    ensures Granted(regions, address, length, false) <==> AllMapped(regions, address, address + length - 1)
    ensures Disjoint(regions) ==>
              (Granted(regions, address, length, true) <==>
               AllMapped(regions, address, address + length - 1) && LastWritable(regions, address + length - 1))
  {
    WalkIff(regions, address, address + length - 1);
    if Disjoint(regions) { WalkWriteIff(regions, address, address + length - 1); }
  }

  lemma GrantedAtTop(regions: seq<MemoryRegion>, address: u32, length: u32, write: bool)
    requires regions != [] && Sorted(regions) && length > 0 && (address < TOP || length == 1)
    requires address + length >= TWO_32
    ensures var i := First(regions, address);
            Granted(regions, address, length, write) <==>
            && i < |regions| && (address + length > TWO_32 ==> Holds(regions[i], address + length - 1 - TWO_32))
            && (!write || IsWritable(regions[i]))
  {
    if address + length == TWO_32 {
      WalkToTop(regions, address, write);
    } else {
      var last := address + length - 1 - TWO_32;
      assert (address + length - 1) % TWO_32 == last;
      WalkWrapped(regions, address, last, write);
    }
  }

  // ---------------------------------------------------------------- the decision and the memory really there

  /** Some region really holds the address, whether or not the region reaches the top. */
  ghost predicate Present(regions: seq<MemoryRegion>, a: int)
  {
    exists r :: r in regions && Within(r, a)
  }

  ghost predicate AllPresent(regions: seq<MemoryRegion>, first: int, last: int)
  {
    forall a | first <= a <= last :: Present(regions, a)
  }

  predicate ReachesTop(r: MemoryRegion) { r.start + r.size >= TWO_32 }

  /** A region that reaches the top holds the address. */
  ghost predicate TopHolds(regions: seq<MemoryRegion>, a: int)
  {
    exists r :: r in regions && Within(r, a) && ReachesTop(r)
  }

  lemma PresentIff(regions: seq<MemoryRegion>, a: int)
    ensures Present(regions, a) <==> Mapped(regions, a) || TopHolds(regions, a)
    ensures TopHolds(regions, a) && a <= TOP ==> AllPresent(regions, a, TOP)
  {
    if Present(regions, a) {
      var r :| r in regions && Within(r, a);
      assert Holds(r, a) || ReachesTop(r);
    }
    if TopHolds(regions, a) && a <= TOP {
      var r :| r in regions && Within(r, a) && ReachesTop(r);
      forall b | a <= b <= TOP
        ensures Present(regions, b)
      {
        assert Within(r, b);
      }
    }
  }

  /** Below the top of the address space a read is granted exactly when all of it is there and none of it is
      held by a region that reaches the top alone. Without such a region the decision is right. */
  lemma ReadIsPresentIff(regions: seq<MemoryRegion>, address: u32, length: u32)
    requires regions != [] && Sorted(regions) && length > 0 && address + length < TWO_32
    ensures var end := address + length;
            && (Granted(regions, address, length, false) <==>
                AllPresent(regions, address, end - 1)
                && forall a | address <= a < end && TopHolds(regions, a) :: Mapped(regions, a))
            && ((forall r | r in regions :: !ReachesTop(r)) ==>
                  (Granted(regions, address, length, false) <==> AllPresent(regions, address, end - 1)))
  {
    GrantedIff(regions, address, length, false);
    forall a
      ensures Present(regions, a) <==> Mapped(regions, a) || TopHolds(regions, a)
    {
      PresentIff(regions, a);
    }
  }

  lemma FirstIff(regions: seq<MemoryRegion>, a: u32)
    requires regions != []
    ensures First(regions, a) < |regions| <==> a == TOP || Mapped(regions, a)
  {
    var i := First(regions, a);
    if i < |regions| {
      ContainsIff(regions[i], a);
    } else {
      forall r | r in regions
        ensures a < TOP && !Holds(r, a)
      {
        ContainsIff(r, a);
      }
      assert regions[0] in regions;
    }
  }

  /** A read that ends at the last address is granted exactly when a region below the top holds its first byte.
      That errs both ways: it is granted with a part missing when nothing holds some later byte, and refused
      with all of it there exactly when its first byte is held by a region that reaches the top alone. The last
      byte by itself is always granted. */
  lemma TopReadIsPresentIff(regions: seq<MemoryRegion>, address: u32, length: u32)
    requires regions != [] && Sorted(regions) && length > 0 && address + length == TWO_32
    ensures var granted, present := Granted(regions, address, length, false), AllPresent(regions, address, TOP);
            && (granted <==> address == TOP || Mapped(regions, address))
            && (address < TOP ==>
                  (granted && !present <==> Mapped(regions, address) && !AllPresent(regions, address + 1, TOP)))
            && (!granted && present <==> address < TOP && TopHolds(regions, address) && !Mapped(regions, address))
            && (address == TOP ==> (present <==> TopHolds(regions, TOP)))
            && ((forall r | r in regions :: !ReachesTop(r)) ==> !present)
  {
    GrantedIff(regions, address, length, false);
    FirstIff(regions, address);
    PresentIff(regions, address);
    PresentIff(regions, TOP);
    if AllPresent(regions, address, TOP) {
      assert Present(regions, address) && Present(regions, TOP);
    }
  }

  /** An unmapped access that is granted: only the first byte is looked at. */
  lemma TopIsNotChecked()
    ensures var regions := [MemoryRegion(0x1000, 0x1000, 0x04)];
            Sorted(regions) && Granted(regions, 0x1FFF, 0xFFFF_E001, true) && !Present(regions, 0x2000)
  {
  }

  /** A mapped access that is refused: the region reaches the top and is met at its first byte. */
  lemma TopRegionCountsAsEmpty()
    ensures var regions := [MemoryRegion(0xFFFF_0000, 0x1_0000, 0x04)];
            && AllPresent(regions, 0xFFFF_0000, TOP)
            && !Granted(regions, 0xFFFF_0000, 0x1_0000, false) && !Granted(regions, 0xFFFF_0000, 1, false)
  {
    var r := MemoryRegion(0xFFFF_0000, 0x1_0000, 0x04);
    assert forall a | 0xFFFF_0000 <= a <= TOP :: r in [r] && Within(r, a);
    ContainsIff(r, 0xFFFF_0000);
  }

  /** One that is granted and mapped: the region that reaches the top is met behind another. */
  lemma TopRegionBehindAnother()
    ensures var regions := [MemoryRegion(0xFFFE_0000, 0x1_0000, 0x04), MemoryRegion(0xFFFF_0000, 0x1_0000, 0x04)];
            AllPresent(regions, 0xFFFE_0000, TOP) && Granted(regions, 0xFFFE_0000, 0x2_0000, false)
  {
    var q, r := MemoryRegion(0xFFFE_0000, 0x1_0000, 0x04), MemoryRegion(0xFFFF_0000, 0x1_0000, 0x04);
    assert q in [q, r] && r in [q, r];
    assert forall a | 0xFFFE_0000 <= a <= TOP :: Within(q, a) || Within(r, a);
  }

  method ValidateMemoryAccess(regions: seq<MemoryRegion>, address: u32, length: u32, write: bool)
    returns (granted: bool)
    requires length > 0
    ensures granted <==> Granted(regions, address, length, write)
    ensures regions == [] ==> granted
  {
    if regions == [] { return true; }
    var start, last: u32 := address, (address + length - 1) % TWO_32;
    var i := 0;
    while i < |regions|
      invariant 0 <= i <= |regions|
      invariant Walk(regions, address, last, write) == Walk(regions[i..], start, last, write)
    {
      var region := regions[i];
      assert regions[i..][1..] == regions[i + 1..];
      if Contains(region, start) {
        if Contains(region, last) {
          return !(write && !IsWritable(region));
        }
        start := End(region);
      }
      i := i + 1;
    }
    return false;
  }
}
