/** The two streams of a GPU trace, cut into packets: graphics commands with out-of-line parameters, and
    blocks of auxiliary data. Both arrive in arbitrary pieces. */
module TraceStream {
  import opened Common

  const PACKET_WORDS := 17
  const PACKET_SIZE := 68
  const HEADER_SIZE := 16

  /** Positions of 32-bit fields in a packet. */
  const COMMAND_VALID := 4
  const PARAMETER_COUNT := 8
  const DATA_STATE := 11
  const DATA_ID := 12

  const HEAP_BUFFER: u32 := 2

  /** The length field of an auxiliary header. */
  const DATA_LENGTH := 3

  lemma WordBound(b: Bytes)
    requires |b| == 4
    ensures LittleEndian(b) < TWO_32
  {
    assert b[1..][1..][1..][1..] == [];
    assert LittleEndian(b[1..][1..][1..]) < 0x100;
    assert LittleEndian(b[1..][1..]) < 0x1_0000;
    assert LittleEndian(b[1..]) < 0x100_0000;
  }

  function Word(b: Bytes, i: nat): (w: u32)
    requires 4 * i + 4 <= |b|
  {
    WordBound(b[4 * i..4 * i + 4]);
    LittleEndian(b[4 * i..4 * i + 4])
  }

  /** `count` words from the start of a byte string. */
  function Words(b: Bytes, count: nat): (r: seq<u32>)
    requires 4 * count <= |b|
    ensures |r| == count
  {
    seq<u32>(count, i requires 0 <= i < count => Word(b, i))
  }

  lemma WordsExtend(b: Bytes, ext: Bytes, count: nat)
    requires 4 * count <= |b|
    ensures Words(b + ext, count) == Words(b, count)
  {
    forall i | 0 <= i < count
      ensures Word(b + ext, i) == Word(b, i)
    {
      assert (b + ext)[4 * i..4 * i + 4] == b[4 * i..4 * i + 4];
    }
  }

  type Header = h: seq<u32> | |h| == PACKET_WORDS witness seq(PACKET_WORDS, _ => 0)

  /** A packet with the parameters that followed it. */
  datatype Traced = Traced(header: Header, parameters: seq<u32>)

  /** Parameters follow a valid command that keeps them on the heap. */
  predicate HasParameters(h: Header)
  {
    h[COMMAND_VALID] != 0 && h[DATA_STATE] == HEAP_BUFFER && h[PARAMETER_COUNT] != 0
  }

  /** The bytes of the parameters, counted in 32 bits. */
  function ParameterBytes(h: Header): u32
  {
    if HasParameters(h) then 4 * h[PARAMETER_COUNT] % TWO_32 else 0
  }

  // ---------------------------------------------------------------- cutting off whole packets

  function HeaderOf(b: Bytes): Header
    requires |b| >= PACKET_SIZE
  {
    Words(b, PACKET_WORDS)
  }

  /** The size of the command packet at the front, or zero if not all of it has arrived. */
  function PacketSize(b: Bytes): (n: nat)
    ensures n <= |b|
    ensures n > 0 ==> |b| >= PACKET_SIZE && n == PACKET_SIZE + ParameterBytes(HeaderOf(b))
  {
    if |b| < PACKET_SIZE || |b| < PACKET_SIZE + ParameterBytes(HeaderOf(b)) then 0
    else PACKET_SIZE + ParameterBytes(HeaderOf(b))
  }

  function Front(b: Bytes): Traced
    requires PacketSize(b) > 0
  {
    var n := PacketSize(b);
    Traced(HeaderOf(b), Words(b[PACKET_SIZE..n], (n - PACKET_SIZE) / 4))
  }

  function Packets(b: Bytes): seq<Traced>
    decreases |b|
  {
    var n := PacketSize(b);
    if n == 0 then [] else [Front(b)] + Packets(b[n..])
  }

  function Residue(b: Bytes): (r: Bytes)
    ensures PacketSize(r) == 0
    decreases |b|
  {
    var n := PacketSize(b);
    if n == 0 then b else Residue(b[n..])
  }

  lemma FrontExtends(b: Bytes, ext: Bytes)
    requires PacketSize(b) > 0
    ensures PacketSize(b + ext) == PacketSize(b) && Front(b + ext) == Front(b)
  {
    WordsExtend(b, ext, PACKET_WORDS);
    var n := PacketSize(b);
    assert (b + ext)[PACKET_SIZE..n] == b[PACKET_SIZE..n];
  }

  /** What has been cut off is not cut differently for the bytes that come later. */
  lemma {:induction false} CutAnywhere(b: Bytes, ext: Bytes)
    ensures Packets(b + ext) == Packets(b) + Packets(Residue(b) + ext)
    ensures Residue(b + ext) == Residue(Residue(b) + ext)
    decreases |b|
  {
    var n := PacketSize(b);
    if n > 0 {
      FrontCutOff(b, ext, n);
      CutAnywhere(b[n..], ext);
      Associative([Front(b)], Packets(b[n..]), Packets(Residue(b) + ext));
    }
  }

  lemma FrontCutOff(b: Bytes, ext: Bytes, n: nat)
    requires PacketSize(b) == n > 0
    ensures Packets(b + ext) == [Front(b)] + Packets(b[n..] + ext) && Packets(b) == [Front(b)] + Packets(b[n..])
    ensures Residue(b + ext) == Residue(b[n..] + ext) && Residue(b) == Residue(b[n..])
  {
    FrontExtends(b, ext);
    assert (b + ext)[n..] == b[n..] + ext;
  }

  /** A packet carries exactly as many words as it counts, if and only if it counts fewer than 2^30 of
      them; beyond that the byte size no longer fits. */
  lemma ParametersFitIff(b: Bytes)
    requires PacketSize(b) > 0 && HasParameters(HeaderOf(b))
    ensures |Front(b).parameters| == HeaderOf(b)[PARAMETER_COUNT] <==> HeaderOf(b)[PARAMETER_COUNT] < 0x4000_0000
  {
    var count := HeaderOf(b)[PARAMETER_COUNT];
    assert (4 * count % TWO_32) / 4 == count % 0x4000_0000;
  }

  /** A packet that counts 2^30 words carries none. */
  lemma HugeCountCarriesNothing()
    ensures var h: Header := seq(PACKET_WORDS, _ => 0)[COMMAND_VALID := 1][DATA_STATE := HEAP_BUFFER];
            var huge: Header := h[PARAMETER_COUNT := 0x4000_0000];
            HasParameters(huge) && ParameterBytes(huge) == 0
  {
  }

  // ---------------------------------------------------------------- auxiliary data

  function BlockSize(b: Bytes): (n: nat)
    ensures n <= |b|
    ensures n > 0 ==> n >= HEADER_SIZE
  {
    if |b| < HEADER_SIZE || |b| < HEADER_SIZE + Word(b, DATA_LENGTH) then 0 else HEADER_SIZE + Word(b, DATA_LENGTH)
  }

  function Blocks(b: Bytes): seq<Bytes>
    decreases |b|
  {
    var n := BlockSize(b);
    if n == 0 then [] else [b[..n]] + Blocks(b[n..])
  }

  function BlockResidue(b: Bytes): (r: Bytes)
    ensures BlockSize(r) == 0
    decreases |b|
  {
    var n := BlockSize(b);
    if n == 0 then b else BlockResidue(b[n..])
  }

  lemma BlockExtends(b: Bytes, ext: Bytes)
    requires BlockSize(b) > 0
    ensures BlockSize(b + ext) == BlockSize(b) && (b + ext)[..BlockSize(b)] == b[..BlockSize(b)]
  {
    assert (b + ext)[12..16] == b[12..16];
  }

  lemma {:induction false} CutBlocksAnywhere(b: Bytes, ext: Bytes)
    ensures Blocks(b + ext) == Blocks(b) + Blocks(BlockResidue(b) + ext)
    ensures BlockResidue(b + ext) == BlockResidue(BlockResidue(b) + ext)
    decreases |b|
  {
    var n := BlockSize(b);
    if n > 0 {
      BlockExtends(b, ext);
      CutBlocksAnywhere(b[n..], ext);
      assert (b + ext)[n..] == b[n..] + ext;
    }
  }
}
