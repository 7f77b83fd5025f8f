/** The object that decodes both streams as they come in. */
module TraceDecoder {
  import opened Common
  import opened TraceStream
  import opened TraceCapture

  class FrameCapture {
    var pgraphTraceBuffer: Bytes
    var auxTraceBuffer: Bytes
    var commands: seq<Header>
    var parameterMap: map<u32, seq<u32>>
    var nextFreeId: u32
    var dispatched: seq<Bytes>

    ghost function Value(): Capture
      reads this
    {
      Capture(commands, parameterMap, nextFreeId)
    }

    constructor ()
      ensures pgraphTraceBuffer == [] && auxTraceBuffer == [] && dispatched == []
      ensures Value() == Capture([], map[], 0)
    {
      pgraphTraceBuffer, auxTraceBuffer, dispatched := [], [], [];
      commands, parameterMap, nextFreeId := [], map[], 0;
    }

    method AddPacket(header: Header, parameters: seq<u32>)
      modifies `commands, `parameterMap, `nextFreeId
      ensures Value() == Record(old(Value()), Traced(header, parameters))
    {
      var packet := header;
      if HasParameters(header) {
        var id := nextFreeId;
        nextFreeId := (nextFreeId + 1) % TWO_32;
        if id !in parameterMap { parameterMap := parameterMap[id := parameters]; }
        packet := packet[DATA_ID := id];
      }
      commands := commands + [packet];
    }

    method ProcessPGRAPHBuffer()
      modifies `pgraphTraceBuffer, `commands, `parameterMap, `nextFreeId
      ensures Value() == RecordAll(old(Value()), Packets(old(pgraphTraceBuffer)))
      ensures pgraphTraceBuffer == Residue(old(pgraphTraceBuffer))
    {
      ghost var rest := pgraphTraceBuffer;
      ghost var result := RecordAll(Value(), Packets(rest));
      ghost var left := Residue(rest);
      var consumed := 0;
      while |pgraphTraceBuffer| - consumed >= PACKET_SIZE
        invariant pgraphTraceBuffer == old(pgraphTraceBuffer)
        invariant 0 <= consumed <= |pgraphTraceBuffer| && rest == pgraphTraceBuffer[consumed..]
        invariant RecordAll(Value(), Packets(rest)) == result && Residue(rest) == left
        decreases |pgraphTraceBuffer| - consumed
      {
        var header, parameters, end := PacketAt(pgraphTraceBuffer, consumed);
        if end == consumed { break; }
        rest := rest[end - consumed..];
        AddPacket(header, parameters);
        consumed := end;
      }
      if consumed > 0 { pgraphTraceBuffer := pgraphTraceBuffer[consumed..]; }
    }

    method ProcessAuxBuffer()
      modifies `auxTraceBuffer, `dispatched
      ensures dispatched == old(dispatched) + Blocks(old(auxTraceBuffer))
      ensures auxTraceBuffer == BlockResidue(old(auxTraceBuffer))
    {
      ghost var rest := auxTraceBuffer;
      ghost var result := dispatched + Blocks(rest);
      ghost var left := BlockResidue(rest);
      var consumed := 0;
      while |auxTraceBuffer| - consumed >= HEADER_SIZE
        invariant auxTraceBuffer == old(auxTraceBuffer)
        invariant 0 <= consumed <= |auxTraceBuffer| && rest == auxTraceBuffer[consumed..]
        invariant dispatched + Blocks(rest) == result && BlockResidue(rest) == left
        decreases |auxTraceBuffer| - consumed
      {
        var end := BlockAt(auxTraceBuffer, consumed);
        if end == consumed { break; }
        dispatched := dispatched + [auxTraceBuffer[consumed..end]];
        rest := rest[end - consumed..];
        consumed := end;
      }
      if consumed > 0 { auxTraceBuffer := auxTraceBuffer[consumed..]; }
    }
  }

  /** The packet that begins at an offset, and where it ends; or the offset itself if more must arrive. */
  method PacketAt(buffer: Bytes, consumed: nat) returns (header: Header, parameters: seq<u32>, end: nat)
    requires consumed + PACKET_SIZE <= |buffer|
    ensures var rest := buffer[consumed..];
            && end == consumed + PacketSize(rest)
            && (end > consumed ==> Traced(header, parameters) == Front(rest))
  {
    ghost var rest := buffer[consumed..];
    header := Words(buffer[consumed..consumed + PACKET_SIZE], PACKET_WORDS);
    WordsExtend(buffer[consumed..consumed + PACKET_SIZE], rest[PACKET_SIZE..], PACKET_WORDS);
    assert buffer[consumed..consumed + PACKET_SIZE] + rest[PACKET_SIZE..] == rest;
    end := consumed + PACKET_SIZE;
    parameters := [];
    if HasParameters(header) {
      var additional := 4 * header[PARAMETER_COUNT] % TWO_32;
      if |buffer| - consumed < PACKET_SIZE + additional { return header, [], consumed; }
      assert rest[PACKET_SIZE..PACKET_SIZE + additional] == buffer[end..end + additional];
      parameters := Words(buffer[end..end + additional], additional / 4);
      end := end + additional;
    }
  }

  method BlockAt(buffer: Bytes, consumed: nat) returns (end: nat)
    requires consumed + HEADER_SIZE <= |buffer|
    ensures var rest := buffer[consumed..];
            end == consumed + BlockSize(rest) && buffer[consumed..end] == rest[..BlockSize(rest)]
  {
    ghost var rest := buffer[consumed..];
    var header := buffer[consumed..consumed + HEADER_SIZE];
    assert header == rest[..HEADER_SIZE];
    assert header[12..16] == rest[12..16];
    var length := Word(header, DATA_LENGTH);
    if |buffer| - consumed < HEADER_SIZE + length { return consumed; }
    end := consumed + HEADER_SIZE + length;
  }
}
