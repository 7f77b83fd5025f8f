/** Export lookups for many imports are sent in bulk; the table of lookups is split so that each command
    fits the console's line limit. */
module ImportSplit {
  import opened Common

  const MAXIMUM_SEND_LENGTH := 512
  /** The command with its terminating zero. */
  const COMMAND_LENGTH := 7
  /** A base or ordinal field. */
  const FIELD_LENGTH := 13
  const ROOM := MAXIMUM_SEND_LENGTH - COMMAND_LENGTH

  /** Look up an ordinal for the import at index `out`. */
  datatype Request = Request(ordinal: u32, out: nat)

  /** The lookups below one module base. */
  datatype Block = Block(base: u32, requests: seq<Request>)

  /** A table is walked in the order of its bases. */
  type Table = seq<Block>

  datatype Item = Item(base: u32, request: Request)

  // ---------------------------------------------------------------- what a table asks for

  function Tagged(base: u32, requests: seq<Request>): seq<Item>
  {
    if requests == [] then [] else [Item(base, requests[0])] + Tagged(base, requests[1..])
  }

  function Items(table: Table): seq<Item>
  {
    if table == [] then [] else Tagged(table[0].base, table[0].requests) + Items(table[1..])
  }

  function AllItems(pieces: seq<Table>): seq<Item>
  {
    if pieces == [] then [] else Items(pieces[0]) + AllItems(pieces[1..])
  }

  lemma {:induction false} TaggedSplits(base: u32, a: seq<Request>, b: seq<Request>)
    ensures Tagged(base, a + b) == Tagged(base, a) + Tagged(base, b)
    decreases |a|
  {
    if a == [] {
      assert a + b == b;
    } else {
      assert (a + b)[0] == a[0] && (a + b)[1..] == a[1..] + b;
      TaggedSplits(base, a[1..], b);
    }
  }

  lemma {:induction false} TaggedLength(base: u32, rs: seq<Request>)
    ensures |Tagged(base, rs)| == |rs|
  {
    if rs != [] { TaggedLength(base, rs[1..]); }
  }

  lemma {:induction false} ItemsSplit(a: Table, b: Table)
    ensures Items(a + b) == Items(a) + Items(b)
    decreases |a|
  {
    if a == [] {
      assert a + b == b;
    } else {
      assert (a + b)[0] == a[0] && (a + b)[1..] == a[1..] + b;
      ItemsSplit(a[1..], b);
    }
  }

  lemma {:induction false} AllItemsSplit(a: seq<Table>, b: seq<Table>)
    ensures AllItems(a + b) == AllItems(a) + AllItems(b)
    decreases |a|
  {
    if a == [] {
      assert a + b == b;
    } else {
      assert (a + b)[0] == a[0] && (a + b)[1..] == a[1..] + b;
      AllItemsSplit(a[1..], b);
    }
  }

  lemma ItemsOfOne(b: Block)
    ensures Items([b]) == Tagged(b.base, b.requests)
  {
  }

  lemma AllItemsOfOne(t: Table)
    ensures AllItems([t]) == Items(t)
  {
  }

  // ---------------------------------------------------------------- splitting

  datatype Splitter = Splitter(done: seq<Table>, current: Table, remaining: u32)

  /** Room is counted in 32 bits, without a sign. */
  function Less(remaining: u32): u32 { (remaining - FIELD_LENGTH) % TWO_32 }

  function NewEntry(s: Splitter, base: u32): Splitter { s.(current := s.current + [Block(base, [])]) }

  function NewTable(s: Splitter): Splitter { Splitter(s.done + [s.current], [], ROOM) }

  function Placed(s: Splitter, r: Request): Splitter
    requires s.current != []
  {
    var last := s.current[|s.current| - 1];
    var grown := last.(requests := last.requests + [r]);
    s.(current := s.current[..|s.current| - 1] + [grown], remaining := Less(s.remaining))
  }

  function AddRequest(s: Splitter, base: u32, r: Request): (s': Splitter)
    requires s.current != []
    ensures s'.current != []
  {
    var s := Placed(s, r);
    if s.remaining <= FIELD_LENGTH then NewEntry(NewTable(s), base) else s
  }

  function AddRequests(s: Splitter, base: u32, rs: seq<Request>): (s': Splitter)
    requires s.current != []
    ensures s'.current != []
    decreases |rs|
  {
    if rs == [] then s else AddRequests(AddRequest(s, base, rs[0]), base, rs[1..])
  }

  function Opened(s: Splitter, base: u32): (s': Splitter)
    ensures s'.current != []
  {
    NewEntry(s.(remaining := Less(s.remaining)), base)
  }

  function AddBlocks(s: Splitter, table: Table): Splitter
    decreases |table|
  {
    if table == [] then s
    else AddBlocks(AddRequests(Opened(s, table[0].base), table[0].base, table[0].requests), table[1..])
  }

  const EMPTY := Splitter([], [], ROOM)

  function Pieces(s: Splitter): seq<Table> { s.done + [s.current] }

  method SplitResolutionTable(table: Table) returns (pieces: seq<Table>)
    ensures pieces == Pieces(AddBlocks(EMPTY, table))
  {
    var s := EMPTY;
    var i := 0;
    while i < |table|
      invariant 0 <= i <= |table|
      invariant AddBlocks(s, table[i..]) == AddBlocks(EMPTY, table)
    {
      var base, requests := table[i].base, table[i].requests;
      assert table[i..][1..] == table[i + 1..];
      s := Opened(s, base);
      ghost var whole := AddRequests(s, base, requests);
      var j := 0;
      while j < |requests|
        invariant 0 <= j <= |requests| && s.current != []
        invariant AddRequests(s, base, requests[j..]) == whole
      {
        assert requests[j..][1..] == requests[j + 1..];
        s := Placed(s, requests[j]);
        if s.remaining <= FIELD_LENGTH { s := NewEntry(NewTable(s), base); }
        j := j + 1;
      }
      i := i + 1;
    }
    pieces := s.done + [s.current];
  }

  // ---------------------------------------------------------------- nothing is lost

  function Asked(s: Splitter): seq<Item> { AllItems(s.done) + Items(s.current) }

  ghost predicate OpenAt(s: Splitter, base: u32) { s.current != [] && s.current[|s.current| - 1].base == base }

  lemma NewEntryAsks(s: Splitter, base: u32)
    ensures Asked(NewEntry(s, base)) == Asked(s) && OpenAt(NewEntry(s, base), base)
  {
    ItemsSplit(s.current, [Block(base, [])]);
    ItemsOfOne(Block(base, []));
    assert Items(s.current) + [] == Items(s.current);
  }

  lemma NewTableAsks(s: Splitter)
    ensures Asked(NewTable(s)) == Asked(s)
  {
    AllItemsSplit(s.done, [s.current]);
    AllItemsOfOne(s.current);
    assert (AllItems(s.done) + Items(s.current)) + [] == Asked(s);
  }

  lemma PlacedItems(s: Splitter, base: u32, r: Request)
    requires OpenAt(s, base)
    ensures OpenAt(Placed(s, r), base) && |Placed(s, r).current| == |s.current|
    ensures Items(Placed(s, r).current) == Items(s.current) + [Item(base, r)]
  {
    var n := |s.current| - 1;
    var front, last := s.current[..n], s.current[n];
    var grown := last.(requests := last.requests + [r]);
    assert s.current == front + [last];
    ItemsSplit(front, [last]);
    ItemsSplit(front, [grown]);
    ItemsOfOne(last);
    ItemsOfOne(grown);
    TaggedSplits(base, last.requests, [r]);
    assert Tagged(base, [r]) == [Item(base, r)];
  }

  lemma PlacedAsks(s: Splitter, base: u32, r: Request)
    requires OpenAt(s, base)
    ensures OpenAt(Placed(s, r), base) && Asked(Placed(s, r)) == Asked(s) + [Item(base, r)]
  {
    PlacedItems(s, base, r);
    Associative(AllItems(s.done), Items(s.current), [Item(base, r)]);
  }

  lemma AddRequestAsks(s: Splitter, base: u32, r: Request)
    requires OpenAt(s, base)
    ensures OpenAt(AddRequest(s, base, r), base) && Asked(AddRequest(s, base, r)) == Asked(s) + [Item(base, r)]
  {
    var s' := Placed(s, r);
    PlacedAsks(s, base, r);
    NewTableAsks(s');
    NewEntryAsks(NewTable(s'), base);
  }

  lemma {:induction false} AddRequestsAsks(s: Splitter, base: u32, rs: seq<Request>)
    requires OpenAt(s, base)
    ensures Asked(AddRequests(s, base, rs)) == Asked(s) + Tagged(base, rs)
    decreases |rs|
  {
    if rs == [] {
      assert Asked(s) + [] == Asked(s);
    } else {
      var next := AddRequest(s, base, rs[0]);
      AddRequestAsks(s, base, rs[0]);
      AddRequestsAsks(next, base, rs[1..]);
      Associative(Asked(s), [Item(base, rs[0])], Tagged(base, rs[1..]));
    }
  }

  lemma AddBlockAsks(s: Splitter, b: Block)
    ensures Asked(AddRequests(Opened(s, b.base), b.base, b.requests)) == Asked(s) + Tagged(b.base, b.requests)
  {
    NewEntryAsks(s.(remaining := Less(s.remaining)), b.base);
    AddRequestsAsks(Opened(s, b.base), b.base, b.requests);
  }

  lemma {:induction false} AddBlocksAsks(s: Splitter, table: Table)
    ensures Asked(AddBlocks(s, table)) == Asked(s) + Items(table)
    decreases |table|
  {
    if table == [] {
      assert Asked(s) + [] == Asked(s);
    } else {
      var b := table[0];
      var next := AddRequests(Opened(s, b.base), b.base, b.requests);
      AddBlockAsks(s, b);
      AddBlocksAsks(next, table[1..]);
      Associative(Asked(s), Tagged(b.base, b.requests), Items(table[1..]));
    }
  }

  /** The pieces together ask for what the table asked for, in the same order. */
  lemma SplitConserves(table: Table)
    ensures AllItems(Pieces(AddBlocks(EMPTY, table))) == Items(table)
  {
    var s := AddBlocks(EMPTY, table);
    AddBlocksAsks(EMPTY, table);
    AllItemsSplit(s.done, [s.current]);
    AllItemsOfOne(s.current);
  }
}
