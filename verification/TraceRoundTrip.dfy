/** Traces written out byte by byte, and cut again. */
module TraceRoundTrip {
  import opened Common
  import opened TraceStream
  import opened TraceCapture

  function WriteWords(ws: seq<u32>): (r: Bytes)
    ensures |r| == 4 * |ws|
  {
    if ws == [] then [] else LeastFirst(ws[0], 4) + WriteWords(ws[1..])
  }

  /** A packet as the tracer writes it: 17 words, and as many more as it counts if it is a valid command that keeps
      its parameters on the heap. */
  predicate Proper(t: Traced)
  {
    if t.header[4] != 0 && t.header[11] == 2 && t.header[8] != 0
    then |t.parameters| == t.header[8] < 0x4000_0000
    else t.parameters == []
  }

  function WritePacket(t: Traced): Bytes { WriteWords(t.header) + WriteWords(t.parameters) }

  function WriteAll(ts: seq<Traced>): Bytes
  {
    if ts == [] then [] else WritePacket(ts[0]) + WriteAll(ts[1..])
  }

  // ---------------------------------------------------------------- words

  lemma {:induction false} WordAt(ws: seq<u32>, rest: Bytes, i: nat)
    requires i < |ws|
    ensures Word(WriteWords(ws) + rest, i) == ws[i]
    decreases |ws|
  {
    var b, tail := WriteWords(ws) + rest, WriteWords(ws[1..]) + rest;
    assert b == LeastFirst(ws[0], 4) + tail;
    if i == 0 {
      assert b[0..4] == LeastFirst(ws[0], 4);
      ReadFour(ws[0]);
    } else {
      WordAt(ws[1..], rest, i - 1);
      assert b[4 * i..4 * i + 4] == tail[4 * (i - 1)..4 * (i - 1) + 4];
    }
  }

  lemma WordsAre(ws: seq<u32>, rest: Bytes)
    ensures Words(WriteWords(ws) + rest, |ws|) == ws
  {
    forall i | 0 <= i < |ws|
      ensures Word(WriteWords(ws) + rest, i) == ws[i]
    {
      WordAt(ws, rest, i);
    }
  }

  // ---------------------------------------------------------------- packets

  lemma PacketReads(t: Traced, rest: Bytes)
    requires Proper(t)
    ensures var b := WritePacket(t) + rest;
            PacketSize(b) == |WritePacket(t)| > 0 && Front(b) == t && b[|WritePacket(t)|..] == rest
  {
    var h, ps := WriteWords(t.header), WriteWords(t.parameters);
    var b, n := WritePacket(t) + rest, |WritePacket(t)|;
    assert b == h + (ps + rest);
    WordsAre(t.header, ps + rest);
    assert HeaderOf(b) == t.header && ParameterBytes(t.header) == |ps|;
    assert b[PACKET_SIZE..n] == ps && ps + [] == ps;
    WordsAre(t.parameters, []);
  }

  /** A stream of proper packets, whatever incomplete rest it ends in, is cut into exactly these packets. */
  lemma {:induction false} PacketsRoundTrip(ts: seq<Traced>, rest: Bytes)
    requires PacketSize(rest) == 0 && forall t | t in ts :: Proper(t)
    ensures Packets(WriteAll(ts) + rest) == ts && Residue(WriteAll(ts) + rest) == rest
    decreases |ts|
  {
    if ts == [] {
      assert WriteAll(ts) + rest == rest;
    } else {
      var tail := WriteAll(ts[1..]) + rest;
      Associative(WritePacket(ts[0]), WriteAll(ts[1..]), rest);
      PacketReads(ts[0], tail);
      PacketsRoundTrip(ts[1..], rest);
    }
  }

  // ---------------------------------------------------------------- auxiliary blocks

  /** Three words of description, the length, and the data. */
  datatype Aux = Aux(description: seq<u32>, data: Bytes)

  predicate ProperAux(a: Aux) { |a.description| == 3 && |a.data| < TWO_32 }

  function WriteAux(a: Aux): Bytes
    requires ProperAux(a)
  {
    WriteWords(a.description + [|a.data|]) + a.data
  }

  function WriteBlocks(bs: seq<Aux>): seq<Bytes>
    requires forall a | a in bs :: ProperAux(a)
  {
    if bs == [] then [] else [WriteAux(bs[0])] + WriteBlocks(bs[1..])
  }

  lemma BlockReads(a: Aux, rest: Bytes)
    requires ProperAux(a)
    ensures var w := WriteAux(a);
            BlockSize(w + rest) == |w| > 0 && (w + rest)[..|w|] == w && (w + rest)[|w|..] == rest
  {
    var w := WriteAux(a);
    var head := a.description + [|a.data|];
    assert w + rest == WriteWords(head) + (a.data + rest);
    WordAt(head, a.data + rest, 3);
  }

  lemma {:induction false} BlocksRoundTrip(bs: seq<Aux>, rest: Bytes)
    requires BlockSize(rest) == 0 && forall a | a in bs :: ProperAux(a)
    ensures var w := Concat(WriteBlocks(bs)); Blocks(w + rest) == WriteBlocks(bs) && BlockResidue(w + rest) == rest
    decreases |bs|
  {
    if bs == [] {
      assert Concat(WriteBlocks(bs)) + rest == rest;
    } else {
      var first, others := WriteAux(bs[0]), WriteBlocks(bs[1..]);
      assert WriteBlocks(bs)[0] == first && WriteBlocks(bs)[1..] == others;
      Associative(first, Concat(others), rest);
      BlockReads(bs[0], Concat(others) + rest);
      BlocksRoundTrip(bs[1..], rest);
    }
  }
}
