/** What the packets of a trace leave behind: the commands in order, and their parameters by id. */
module TraceCapture {
  import opened Common
  import opened TraceStream

  datatype Capture = Capture(commands: seq<Header>, parameters: map<u32, seq<u32>>, nextId: u32)

  /** A packet is recorded; one with parameters is linked to them by the next id. */
  function Record(c: Capture, t: Traced): Capture
  {
    if HasParameters(t.header) then
      Capture(c.commands + [t.header[DATA_ID := c.nextId]],
              if c.nextId in c.parameters then c.parameters else c.parameters[c.nextId := t.parameters],
              (c.nextId + 1) % TWO_32)
    else c.(commands := c.commands + [t.header])
  }

  function RecordAll(c: Capture, ts: seq<Traced>): Capture
    decreases |ts|
  {
    if ts == [] then c else RecordAll(Record(c, ts[0]), ts[1..])
  }

  lemma {:induction false} RecordAllSplits(c: Capture, ts: seq<Traced>, us: seq<Traced>)
    ensures RecordAll(c, ts + us) == RecordAll(RecordAll(c, ts), us)
    decreases |ts|
  {
    if ts == [] {
      assert ts + us == us;
    } else {
      assert (ts + us)[0] == ts[0] && (ts + us)[1..] == ts[1..] + us;
      RecordAllSplits(Record(c, ts[0]), ts[1..], us);
    }
  }

  // ---------------------------------------------------------------- chunks do not matter

  datatype Decoder = Decoder(buffer: Bytes, capture: Capture)

  /** One chunk arrives. */
  function Fed(d: Decoder, chunk: Bytes): Decoder
  {
    var all := d.buffer + chunk;
    Decoder(Residue(all), RecordAll(d.capture, Packets(all)))
  }

  function FedAll(d: Decoder, chunks: seq<Bytes>): Decoder
    decreases |chunks|
  {
    if chunks == [] then d else FedAll(Fed(d, chunks[0]), chunks[1..])
  }

  function Concat(chunks: seq<Bytes>): Bytes
  {
    if chunks == [] then [] else chunks[0] + Concat(chunks[1..])
  }

  lemma FedTwice(d: Decoder, a: Bytes, b: Bytes)
    ensures Fed(Fed(d, a), b) == Fed(d, a + b)
  {
    var all := d.buffer + a;
    assert d.buffer + (a + b) == all + b;
    CutAnywhere(all, b);
    RecordAllSplits(d.capture, Packets(all), Packets(Residue(all) + b));
  }

  /** However a stream is cut into chunks, the commands, the parameters and what is left over are those of
      the whole stream at once. */
  lemma {:induction false} ChunksDoNotMatter(d: Decoder, chunks: seq<Bytes>)
    requires PacketSize(d.buffer) == 0
    ensures FedAll(d, chunks) == Fed(d, Concat(chunks))
    decreases |chunks|
  {
    if chunks == [] {
      assert d.buffer + [] == d.buffer;
    } else {
      ChunksDoNotMatter(Fed(d, chunks[0]), chunks[1..]);
      FedTwice(d, chunks[0], Concat(chunks[1..]));
    }
  }

  /** The blocks handed on from auxiliary chunks, and what is left over. */
  function AuxFedAll(buffer: Bytes, chunks: seq<Bytes>): (seq<Bytes>, Bytes)
    decreases |chunks|
  {
    if chunks == [] then ([], buffer)
    else
      var all := buffer + chunks[0];
      var later := AuxFedAll(BlockResidue(all), chunks[1..]);
      (Blocks(all) + later.0, later.1)
  }

  lemma {:induction false} AuxChunksDoNotMatter(buffer: Bytes, chunks: seq<Bytes>)
    requires BlockSize(buffer) == 0
    ensures var all := buffer + Concat(chunks); AuxFedAll(buffer, chunks) == (Blocks(all), BlockResidue(all))
    decreases |chunks|
  {
    if chunks == [] {
      assert buffer + [] == buffer;
    } else {
      var all, later := buffer + chunks[0], Concat(chunks[1..]);
      AuxChunksDoNotMatter(BlockResidue(all), chunks[1..]);
      CutBlocksAnywhere(all, later);
      assert buffer + (chunks[0] + later) == all + later;
    }
  }

  // ---------------------------------------------------------------- every packet finds its parameters

  /** Packets with parameters among the first `i`. */
  function Heaps(ts: seq<Traced>, i: nat): nat
    requires i <= |ts|
  {
    if i == 0 then 0 else Heaps(ts, i - 1) + if HasParameters(ts[i - 1].header) then 1 else 0
  }

  lemma {:induction false} HeapsGrow(ts: seq<Traced>, i: nat, n: nat)
    requires i <= n <= |ts|
    ensures Heaps(ts, i) <= Heaps(ts, n)
    ensures i < n && HasParameters(ts[i].header) ==> Heaps(ts, i) < Heaps(ts, n)
    decreases n
  {
    if i < n { HeapsGrow(ts, i, n - 1); }
  }

  ghost predicate IdsBelow(c: Capture) { forall id | id in c.parameters :: id < c.nextId }

  /** Packet `i` was recorded in its place, and if it has parameters, under an id that leads to them. */
  ghost predicate Linked(c: Capture, r: Capture, ts: seq<Traced>, i: nat)
    requires i < |ts|
  {
    var id, at := c.nextId + Heaps(ts, i), |c.commands| + i;
    && at < |r.commands|
    && if HasParameters(ts[i].header) then
         && id < TWO_32 && r.commands[at] == ts[i].header[DATA_ID := id]
         && id in r.parameters && r.parameters[id] == ts[i].parameters
       else r.commands[at] == ts[i].header
  }

  /** The first `n` packets are linked, and nothing recorded before has changed. */
  ghost predicate AllLinked(c: Capture, r: Capture, ts: seq<Traced>, n: nat)
    requires n <= |ts|
  {
    && IdsBelow(r) && r.nextId == c.nextId + Heaps(ts, n)
    && |r.commands| == |c.commands| + n && r.commands[..|c.commands|] == c.commands
    && (forall id | id in c.parameters :: id in r.parameters && r.parameters[id] == c.parameters[id])
    && forall i | 0 <= i < n :: Linked(c, r, ts, i)
  }

  lemma StaysLinked(c: Capture, r: Capture, ts: seq<Traced>, i: nat, t: Traced)
    requires i < |ts| && Linked(c, r, ts, i) && IdsBelow(r)
    ensures Linked(c, Record(r, t), ts, i)
  {
  }

  lemma NewlyLinked(c: Capture, r: Capture, ts: seq<Traced>, n: nat)
    requires n < |ts| && IdsBelow(r) && r.nextId == c.nextId + Heaps(ts, n) && |r.commands| == |c.commands| + n
    ensures Linked(c, Record(r, ts[n]), ts, n)
  {
  }

  lemma RecordLinks(c: Capture, r: Capture, ts: seq<Traced>, n: nat)
    requires n < |ts| && AllLinked(c, r, ts, n) && (HasParameters(ts[n].header) ==> r.nextId < 0xFFFF_FFFF)
    ensures AllLinked(c, Record(r, ts[n]), ts, n + 1)
  {
    NewlyLinked(c, r, ts, n);
    forall i | 0 <= i < n
      ensures Linked(c, Record(r, ts[n]), ts, i)
    {
      StaysLinked(c, r, ts, i, ts[n]);
    }
  }

  lemma TakeOneMore(c: Capture, ts: seq<Traced>, n: nat)
    requires n < |ts|
    ensures RecordAll(c, ts[..n + 1]) == Record(RecordAll(c, ts[..n]), ts[n])
  {
    assert ts[..n + 1] == ts[..n] + [ts[n]];
    RecordAllSplits(c, ts[..n], [ts[n]]);
  }

  /** Every command is recorded in order, and one with parameters holds an id of its own that leads to
      exactly the words that followed it. */
  lemma {:induction false} RecordingLinks(c: Capture, ts: seq<Traced>, n: nat)
    requires IdsBelow(c) && n <= |ts| && c.nextId + Heaps(ts, n) <= 0xFFFF_FFFF
    ensures AllLinked(c, RecordAll(c, ts[..n]), ts, n)
  {
    if n == 0 {
      assert ts[..0] == [];
    } else {
      HeapsGrow(ts, n - 1, n);
      RecordingLinks(c, ts, n - 1);
      TakeOneMore(c, ts, n - 1);
      RecordLinks(c, RecordAll(c, ts[..n - 1]), ts, n - 1);
    }
  }

  /** No two packets share an id. */
  lemma IdsDiffer(c: Capture, ts: seq<Traced>, i: nat, j: nat)
    requires IdsBelow(c) && c.nextId + Heaps(ts, |ts|) <= 0xFFFF_FFFF
    requires i < j < |ts| && HasParameters(ts[i].header) && HasParameters(ts[j].header)
    ensures var r := RecordAll(c, ts);
            && |r.commands| == |c.commands| + |ts|
            && r.commands[|c.commands| + i][DATA_ID] != r.commands[|c.commands| + j][DATA_ID]
  {
    assert ts[..|ts|] == ts;
    RecordingLinks(c, ts, |ts|);
    HeapsGrow(ts, i, j);
    var r := RecordAll(c, ts);
    assert Linked(c, r, ts, i) && Linked(c, r, ts, j);
  }
}
