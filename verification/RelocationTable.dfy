/** Relocation tables written out byte by byte, and read back. */
module RelocationTable {
  import opened Common
  import opened Relocation

  /** One entry of a block: four bits of type and twelve of offset. */
  datatype Slot = Slot(kind: nat, offset: nat)

  datatype Page = Page(va: u32, slots: seq<Slot>)

  predicate Proper(p: Page)
  {
    p.va > 0 && 8 + 2 * |p.slots| < TWO_32 && forall s | s in p.slots :: s.kind < 16 && s.offset < 0x1000
  }

  function WriteSlots(slots: seq<Slot>): (r: seq<byte>)
    ensures |r| == 2 * |slots|
  {
    if slots == [] then [] else LeastFirst(slots[0].kind * 0x1000 + slots[0].offset, 2) + WriteSlots(slots[1..])
  }

  function WritePage(p: Page): (r: seq<byte>)
    ensures |r| == 8 + 2 * |p.slots|
  {
    LeastFirst(p.va, 4) + LeastFirst(8 + 2 * |p.slots|, 4) + WriteSlots(p.slots)
  }

  /** The pages one after the other, closed by a page address of zero. */
  function WriteTable(pages: seq<Page>): seq<byte>
  {
    if pages == [] then [0, 0, 0, 0] else WritePage(pages[0]) + WriteTable(pages[1..])
  }

  /** Type 0 only fills up, type 3 names a word of the page, and nothing else is known. */
  function Means(va: u32, s: Slot): Entry
  {
    if s.kind == 0 then Padding else if s.kind == 3 then HighLow(va + s.offset) else Unknown
  }

  function PageMeans(va: u32, slots: seq<Slot>): seq<Entry>
  {
    if slots == [] then [] else [Means(va, slots[0])] + PageMeans(va, slots[1..])
  }

  function TableMeans(pages: seq<Page>): seq<Entry>
  {
    if pages == [] then [] else PageMeans(pages[0].va, pages[0].slots) + TableMeans(pages[1..])
  }

  // ---------------------------------------------------------------- words

  /** The image holds these bytes at `p`. */
  ghost predicate At(img: Image, p: nat, w: seq<byte>)
  {
    p + |w| <= |img| && img[p..p + |w|] == w
  }

  lemma Parts(img: Image, p: nat, a: seq<byte>, b: seq<byte>)
    requires At(img, p, a + b)
    ensures At(img, p, a) && At(img, p + |a|, b)
  {
    assert img[p..p + |a|] == img[p..p + |a + b|][..|a|] == a;
    assert img[p + |a|..p + |a + b|] == img[p..p + |a + b|][|a|..] == b;
  }

  lemma ByteAt(img: Image, p: nat, w: seq<byte>, i: nat)
    requires At(img, p, w) && i < |w|
    ensures img[p + i] == w[i]
  {
    assert img[p..p + |w|][i] == w[i];
  }

  lemma FourBytes(v: u32)
    ensures LeastFirst(v, 4) == Encode(v)
  {
    var a := v / 256;
    var b := a / 256;
    assert LeastFirst(v, 4) == [v % 256] + LeastFirst(a, 3);
    assert LeastFirst(a, 3) == [a % 256] + LeastFirst(b, 2);
    assert LeastFirst(b, 2) == [b % 256] + LeastFirst(b / 256, 1);
    assert v / 0x1_0000 == b && v / 0x100_0000 == b / 256;
  }

  lemma ReadWord(img: Image, p: nat, v: u32)
    requires At(img, p, LeastFirst(v, 4))
    ensures p + 4 <= |img| && Word32(img, p) == v
  {
    var e := Encode(v);
    FourBytes(v);
    WordOfEncode(v);
    ByteAt(img, p, e, 0);
    ByteAt(img, p, e, 1);
    ByteAt(img, p, e, 2);
    ByteAt(img, p, e, 3);
  }

  lemma TwoBytes(v: nat)
    requires v < 0x1_0000
    ensures LeastFirst(v, 2) == [v % 256, v / 256]
  {
    assert LeastFirst(v, 2) == [v % 256] + LeastFirst(v / 256, 1);
    assert LeastFirst(v / 256, 1) == [v / 256 % 256] + LeastFirst(v / 256 / 256, 0);
  }

  lemma ReadSlot(img: Image, p: nat, va: u32, s: Slot)
    requires s.kind < 16 && s.offset < 0x1000 && At(img, p, LeastFirst(s.kind * 0x1000 + s.offset, 2))
    ensures p + 2 <= |img| && Decode(va, Word16(img, p)) == Means(va, s)
  {
    var raw := s.kind * 0x1000 + s.offset;
    TwoBytes(raw);
    ByteAt(img, p, LeastFirst(raw, 2), 0);
    ByteAt(img, p, LeastFirst(raw, 2), 1);
    assert Word16(img, p) == raw;
    assert raw / 0x1000 == s.kind && raw % 0x1000 == s.offset;
  }

  // ---------------------------------------------------------------- pages and tables

  lemma {:induction false} ReadSlots(img: Image, p: nat, end: nat, va: u32, slots: seq<Slot>)
    requires At(img, p, WriteSlots(slots)) && forall s | s in slots :: s.kind < 16 && s.offset < 0x1000
    requires end == p + 2 * |slots| && (end - p) % 2 == 0
    ensures end <= |img| && BlockEntries(img, p, end, va) == PageMeans(va, slots)
    decreases |slots|
  {
    if slots != [] {
      var s, rest := slots[0], slots[1..];
      Parts(img, p, LeastFirst(s.kind * 0x1000 + s.offset, 2), WriteSlots(rest));
      ReadSlot(img, p, va, s);
      ReadSlots(img, p + 2, end, va, rest);
      assert BlockEntries(img, p, end, va) == [Means(va, s)] + PageMeans(va, rest);
    }
  }

  lemma PageHeader(img: Image, p: nat, page: Page, size: nat)
    requires At(img, p, WritePage(page)) && size == 8 + 2 * |page.slots| < TWO_32
    ensures p + size <= |img| && Word32(img, p) == page.va && Word32(img, p + 4) == size
    ensures At(img, p + 8, WriteSlots(page.slots))
  {
    var va, length := LeastFirst(page.va, 4), LeastFirst(size, 4);
    Parts(img, p, va + length, WriteSlots(page.slots));
    Parts(img, p, va, length);
    ReadWord(img, p, page.va);
    ReadWord(img, p + 4, size);
  }

  lemma PageFits(img: Image, p: nat, size: nat, k: nat)
    requires size == 8 + 2 * k && p + size <= |img| && Word32(img, p) > 0 && Word32(img, p + 4) == size
    ensures BlockFits(img, p, size) && (p + size - (p + 8)) % 2 == 0
  {
    assert size % 2 == 0;
    EvenBlock(p, size);
  }

  lemma ReadPage(img: Image, p: nat, page: Page, size: nat)
    requires Proper(page) && At(img, p, WritePage(page)) && size == 8 + 2 * |page.slots|
    ensures BlockFits(img, p, size) && BlockOf(img, p, size) == PageMeans(page.va, page.slots)
  {
    PageHeader(img, p, page, size);
    PageFits(img, p, size, |page.slots|);
    ReadSlots(img, p + 8, p + size, page.va, page.slots);
  }

  lemma PageInFront(img: Image, p: nat, page: Page, next: nat)
    requires At(img, p, WritePage(page)) && Proper(page) && next == p + 8 + 2 * |page.slots| && Chain(img, next)
    ensures Chain(img, p) && ChainEnd(img, p) == ChainEnd(img, next)
    ensures TableEntries(img, p) == PageMeans(page.va, page.slots) + TableEntries(img, next)
  {
    ReadPage(img, p, page, next - p);
    BlockInFront(img, p, next - p);
  }

  /** A table written anywhere in an image is read back entry by entry, and ends where it was written to. */
  lemma {:induction false} TableRoundTrip(img: Image, p: nat, pages: seq<Page>)
    requires At(img, p, WriteTable(pages)) && forall page | page in pages :: Proper(page)
    ensures Chain(img, p) && ChainEnd(img, p) == p + |WriteTable(pages)| && TableEntries(img, p) == TableMeans(pages)
    decreases |pages|
  {
    if pages == [] {
      TableEnds(img, p);
    } else {
      var page, rest, next := pages[0], pages[1..], p + 8 + 2 * |pages[0].slots|;
      Parts(img, p, WritePage(page), WriteTable(rest));
      TableRoundTrip(img, next, rest);
      PageInFront(img, p, page, next);
    }
  }

  lemma TableEnds(img: Image, p: nat)
    requires At(img, p, [0, 0, 0, 0])
    ensures Chain(img, p) && ChainEnd(img, p) == p + 4 && TableEntries(img, p) == []
  {
    ByteAt(img, p, [0, 0, 0, 0], 0);
    ByteAt(img, p, [0, 0, 0, 0], 1);
    ByteAt(img, p, [0, 0, 0, 0], 2);
    ByteAt(img, p, [0, 0, 0, 0], 3);
  }
}
