/** How long the commands get that a table of lookups is split into: exactly when the count of the room
    left goes wrong, and what happens then. */
module ImportLimits {
  import opened Common
  import opened ImportSplit

  /** Fields charged for in an empty piece before it counts as full. */
  const CAPACITY := 38

  /** Base and ordinal fields of a piece. */
  function Size(piece: Table): nat { |piece| + |Items(piece)| }

  /** The text of a command, without its terminating zero. */
  function TextLength(piece: Table): nat
  {
    COMMAND_LENGTH - 1 + FIELD_LENGTH * Size(piece)
  }

  /** Fields of a table: one for each base and one for each lookup. */
  function Fields(table: Table): nat
  {
    if table == [] then 0 else 1 + |table[0].requests| + Fields(table[1..])
  }

  /** Fields before block `i`. */
  function FieldsBefore(table: Table, i: nat): nat
    requires i <= |table|
  {
    if i == 0 then 0 else 1 + |table[0].requests| + FieldsBefore(table[1..], i - 1)
  }

  // ---------------------------------------------------------------- when the counter wraps

  /** Some field is charged for while less than its length is left. */
  predicate RequestsWrap(s: Splitter, base: u32, rs: seq<Request>)
    requires s.current != []
    decreases |rs|
  {
    rs != [] && (s.remaining < FIELD_LENGTH || RequestsWrap(AddRequest(s, base, rs[0]), base, rs[1..]))
  }

  predicate Wraps(s: Splitter, table: Table)
    decreases |table|
  {
    table != [] &&
    var b := table[0];
    || s.remaining < FIELD_LENGTH
    || RequestsWrap(Opened(s, b.base), b.base, b.requests)
    || Wraps(AddRequests(Opened(s, b.base), b.base, b.requests), table[1..])
  }

  /** A block whose base takes the last place of a piece, with something still to follow. Lookups are only
      checked for room after they are placed, and bases not at all. */
  ghost predicate Risky(table: Table, fields: nat, i: nat)
    requires i < |table|
  {
    (fields + FieldsBefore(table, i)) % CAPACITY == CAPACITY - 1 && (table[i].requests != [] || i + 1 < |table|)
  }

  ghost predicate AnyRisky(table: Table, fields: nat)
  {
    exists i | 0 <= i < |table| :: Risky(table, fields, i)
  }

  lemma {:induction false} RiskyStep(table: Table, fields: nat)
    requires table != []
    ensures AnyRisky(table, fields) <==>
            Risky(table, fields, 0) || AnyRisky(table[1..], fields + 1 + |table[0].requests|)
  {
    var rest, more := table[1..], fields + 1 + |table[0].requests|;
    forall i | 0 <= i < |rest|
      ensures Risky(rest, more, i) <==> Risky(table, fields, i + 1)
    {
      assert FieldsBefore(table, i + 1) == 1 + |table[0].requests| + FieldsBefore(rest, i);
    }
    if AnyRisky(rest, more) {
      var i :| 0 <= i < |rest| && Risky(rest, more, i);
      assert Risky(table, fields, i + 1);
    }
    if AnyRisky(table, fields) && !Risky(table, fields, 0) {
      var i :| 0 <= i < |table| && Risky(table, fields, i);
      assert Risky(rest, more, i - 1);
    }
  }

  // ---------------------------------------------------------------- while it does not

  /** Charged fields of the piece at hand. */
  function Level(s: Splitter, fields: nat): int { fields - CAPACITY * |s.done| }

  /** Later pieces are not charged for their first base. */
  function Full(piece: nat): nat { if piece == 0 then CAPACITY else CAPACITY + 1 }

  ghost predicate AllFull(done: seq<Table>)
  {
    forall i | 0 <= i < |done| :: Size(done[i]) == Full(i)
  }

  /** After `fields` fields the room left is what it should be, and all pieces but the last are full. */
  ghost predicate Tidy(s: Splitter, fields: nat)
  {
    var level := Level(s, fields);
    && 0 <= level <= CAPACITY && s.remaining == ROOM - FIELD_LENGTH * level
    && Size(s.current) == level + (if |s.done| == 0 then 0 else 1)
    && AllFull(s.done)
  }

  lemma NewEntrySize(s: Splitter, base: u32)
    ensures Size(NewEntry(s, base).current) == Size(s.current) + 1
  {
    ItemsSplit(s.current, [Block(base, [])]);
    ItemsOfOne(Block(base, []));
  }

  lemma PlacedSize(s: Splitter, base: u32, r: Request)
    requires OpenAt(s, base)
    ensures Size(Placed(s, r).current) == Size(s.current) + 1 && OpenAt(Placed(s, r), base)
  {
    PlacedItems(s, base, r);
  }

  lemma OpenedTidy(s: Splitter, fields: nat, base: u32)
    requires Tidy(s, fields) && Level(s, fields) < CAPACITY
    ensures Tidy(Opened(s, base), fields + 1) && OpenAt(Opened(s, base), base) && Opened(s, base).done == s.done
  {
    LessIs(s.remaining);
    NewEntrySize(s.(remaining := Less(s.remaining)), base);
  }

  lemma LessIs(remaining: u32)
    requires remaining >= FIELD_LENGTH
    ensures Less(remaining) == remaining - FIELD_LENGTH
  {
  }

  lemma PlacedTidy(s: Splitter, fields: nat, base: u32, r: Request)
    requires Tidy(s, fields) && Level(s, fields) < CAPACITY && OpenAt(s, base)
    ensures var s' := Placed(s, r);
            && Tidy(s', fields + 1) && Level(s', fields + 1) == Level(s, fields) + 1 && OpenAt(s', base)
  {
    LessIs(s.remaining);
    PlacedSize(s, base, r);
    assert Placed(s, r).done == s.done;
  }

  /** A full piece is put aside; the next one begins with the same base, free of charge. */
  lemma PutAsideTidy(s: Splitter, fields: nat, base: u32)
    requires Tidy(s, fields) && Level(s, fields) == CAPACITY
    ensures var s' := NewEntry(NewTable(s), base);
            Tidy(s', fields) && Level(s', fields) == 0 && OpenAt(s', base)
  {
    var t := NewTable(s);
    NewEntrySize(t, base);
    NewEntryAsks(t, base);
    assert AllFull(t.done);
  }

  lemma AddRequestTidy(s: Splitter, fields: nat, base: u32, r: Request)
    requires Tidy(s, fields) && Level(s, fields) < CAPACITY && OpenAt(s, base)
    ensures var s' := AddRequest(s, base, r);
            Tidy(s', fields + 1) && Level(s', fields + 1) < CAPACITY && OpenAt(s', base)
  {
    PlacedTidy(s, fields, base, r);
    if Level(s, fields) + 1 == CAPACITY { PutAsideTidy(Placed(s, r), fields + 1, base); }
  }

  lemma {:induction false} AddRequestsTidy(s: Splitter, fields: nat, base: u32, rs: seq<Request>)
    requires Tidy(s, fields) && Level(s, fields) < CAPACITY && OpenAt(s, base)
    ensures !RequestsWrap(s, base, rs)
    ensures var s' := AddRequests(s, base, rs);
            Tidy(s', fields + |rs|) && Level(s', fields + |rs|) < CAPACITY
    decreases |rs|
  {
    if rs != [] {
      AddRequestTidy(s, fields, base, rs[0]);
      AddRequestsTidy(AddRequest(s, base, rs[0]), fields + 1, base, rs[1..]);
    }
  }

  /** One block: it goes wrong exactly if its base takes the last place and a lookup follows. */
  lemma BlockTidy(s: Splitter, fields: nat, b: Block)
    requires Tidy(s, fields) && Level(s, fields) < CAPACITY
    ensures var o := Opened(s, b.base);
            var s' := AddRequests(o, b.base, b.requests);
            && (RequestsWrap(o, b.base, b.requests) <==> Level(s, fields) == CAPACITY - 1 && b.requests != [])
            && (!RequestsWrap(o, b.base, b.requests) ==>
                  && Tidy(s', fields + 1 + |b.requests|)
                  && (Level(s', fields + 1 + |b.requests|) == CAPACITY <==>
                      Level(s, fields) == CAPACITY - 1 && b.requests == []))
  {
    OpenedTidy(s, fields, b.base);
    var o := Opened(s, b.base);
    if Level(s, fields) < CAPACITY - 1 { AddRequestsTidy(o, fields + 1, b.base, b.requests); }
  }

  lemma LevelIs(s: Splitter, fields: nat)
    requires Tidy(s, fields) && Level(s, fields) < CAPACITY
    ensures fields % CAPACITY == Level(s, fields) && fields / CAPACITY == |s.done|
  {
  }

  lemma RiskyFirst(s: Splitter, fields: nat, table: Table)
    requires Tidy(s, fields) && Level(s, fields) < CAPACITY && table != []
    ensures Risky(table, fields, 0) <==>
            Level(s, fields) == CAPACITY - 1 && (table[0].requests != [] || table[1..] != [])
  {
    LevelIs(s, fields);
  }

  lemma FullWraps(s: Splitter, fields: nat, table: Table)
    requires Tidy(s, fields) && Level(s, fields) == CAPACITY
    ensures Wraps(s, table) <==> table != []
  {
  }

  /** The first block is a risky one, or leaves everything tidy for the others. */
  lemma FirstBlock(s: Splitter, fields: nat, table: Table, more: nat) returns (wrong: bool, next: Splitter)
    requires Tidy(s, fields) && Level(s, fields) < CAPACITY && table != []
    requires more == fields + 1 + |table[0].requests|
    ensures Wraps(s, table) <==> wrong || Wraps(next, table[1..])
    ensures wrong ==> AnyRisky(table, fields)
    ensures !wrong ==> Tidy(next, more)
    ensures !wrong ==> (AnyRisky(table, fields) <==>
                        if Level(next, more) == CAPACITY then table[1..] != [] else AnyRisky(table[1..], more))
  {
    var b := table[0];
    wrong := RequestsWrap(Opened(s, b.base), b.base, b.requests);
    next := AddRequests(Opened(s, b.base), b.base, b.requests);
    RiskyFirst(s, fields, table);
    BlockTidy(s, fields, b);
    RiskyStep(table, fields);
    if table[1..] == [] { assert !AnyRisky(table[1..], more); }
  }

  lemma {:induction false} WrapsFromIff(s: Splitter, fields: nat, table: Table)
    requires Tidy(s, fields)
    ensures Wraps(s, table) <==> if Level(s, fields) == CAPACITY then table != [] else AnyRisky(table, fields)
    decreases |table|
  {
    if Level(s, fields) == CAPACITY {
      FullWraps(s, fields, table);
    } else if table == [] {
      assert !AnyRisky(table, fields);
    } else {
      var more := fields + 1 + |table[0].requests|;
      var wrong, next := FirstBlock(s, fields, table, more);
      if !wrong { WrapsFromIff(next, more, table[1..]); }
    }
  }

  lemma {:induction false} StaysTidy(s: Splitter, fields: nat, table: Table)
    requires Tidy(s, fields) && !Wraps(s, table)
    ensures Tidy(AddBlocks(s, table), fields + Fields(table))
    decreases |table|
  {
    if table != [] {
      var b := table[0];
      BlockTidy(s, fields, b);
      StaysTidy(AddRequests(Opened(s, b.base), b.base, b.requests), fields + 1 + |b.requests|, table[1..]);
    }
  }

  /** For every table: the room left wraps around exactly when the base of some block is the 38th
      field charged to its piece and anything follows it. */
  lemma WrapsIff(table: Table)
    ensures Wraps(EMPTY, table) <==> AnyRisky(table, 0)
  {
    WrapsFromIff(EMPTY, 0, table);
  }

  /** For every table whose count does not wrap: all commands but the last are full, with 500 characters in
      the first and 513 in the others, and the last has at most as many. */
  lemma CommandsFit(table: Table, i: nat)
    requires !AnyRisky(table, 0) && i < |Pieces(AddBlocks(EMPTY, table))|
    ensures var pieces := Pieces(AddBlocks(EMPTY, table));
            && TextLength(pieces[i]) <= (if i == 0 then 500 else 513)
            && (i + 1 < |pieces| ==> TextLength(pieces[i]) == if i == 0 then 500 else 513)
  {
    WrapsFromIff(EMPTY, 0, table);
    StaysTidy(EMPTY, 0, table);
  }

  // ---------------------------------------------------------------- once it does

  /** Enough room for `n` more fields, or too little for one, which wraps around to even more. */
  ghost predicate Roomy(s: Splitter, n: nat)
  {
    n < 330_000_000 && (s.remaining == 11 || s.remaining > FIELD_LENGTH * (n + 1))
  }

  lemma {:induction false} RequestsPile(s: Splitter, base: u32, rs: seq<Request>, n: nat)
    requires OpenAt(s, base) && Roomy(s, |rs| + n)
    ensures var s' := AddRequests(s, base, rs);
            s'.done == s.done && Roomy(s', n) && Size(s'.current) == Size(s.current) + |rs|
    decreases |rs|
  {
    if rs != [] {
      PlacedSize(s, base, rs[0]);
      assert AddRequest(s, base, rs[0]) == Placed(s, rs[0]);
      RequestsPile(AddRequest(s, base, rs[0]), base, rs[1..], n);
    }
  }

  lemma {:induction false} BlocksPile(s: Splitter, table: Table)
    requires Roomy(s, Fields(table))
    ensures var s' := AddBlocks(s, table); s'.done == s.done && Size(s'.current) == Size(s.current) + Fields(table)
    decreases |table|
  {
    if table != [] {
      var b, rest := table[0], table[1..];
      var o := Opened(s, b.base);
      NewEntrySize(s.(remaining := Less(s.remaining)), b.base);
      NewEntryAsks(s.(remaining := Less(s.remaining)), b.base);
      RequestsPile(o, b.base, b.requests, Fields(rest));
      BlocksPile(AddRequests(o, b.base, b.requests), rest);
    }
  }

  lemma {:induction false} AddBlocksSplits(s: Splitter, a: Table, b: Table)
    ensures AddBlocks(s, a + b) == AddBlocks(AddBlocks(s, a), b)
    decreases |a|
  {
    if a == [] {
      assert a + b == b;
    } else {
      assert (a + b)[0] == a[0] && (a + b)[1..] == a[1..] + b;
      AddBlocksSplits(AddRequests(Opened(s, a[0].base), a[0].base, a[0].requests), a[1..], b);
    }
  }

  /** Once the base of a block takes the last place of its piece, everything that follows goes into that one
      command, however many lookups there are: nothing is split before some 330 million of them. */
  lemma WrappedOverruns(before: Table, b: Block, rest: Table)
    requires !AnyRisky(before, 0) && Fields(before) % CAPACITY == CAPACITY - 1
    requires Fields([b] + rest) < 330_000_000
    ensures var s := AddBlocks(EMPTY, before + ([b] + rest));
            && |s.done| == Fields(before) / CAPACITY
            && Size(s.current) == CAPACITY - 1 + Fields([b] + rest) + (if |s.done| == 0 then 0 else 1)
  {
    WrapsFromIff(EMPTY, 0, before);
    StaysTidy(EMPTY, 0, before);
    var s, fields := AddBlocks(EMPTY, before), Fields(before);
    assert Level(s, fields) < CAPACITY;
    LevelIs(s, fields);
    AddBlocksSplits(EMPTY, before, [b] + rest);
    LastPlacePiles(s, fields, b, rest);
  }

  lemma LastPlacePiles(s: Splitter, fields: nat, b: Block, rest: Table)
    requires Tidy(s, fields) && Level(s, fields) == CAPACITY - 1 && Fields([b] + rest) < 330_000_000
    ensures var s' := AddBlocks(s, [b] + rest);
            s'.done == s.done && Size(s'.current) == Size(s.current) + Fields([b] + rest)
  {
    var o := Opened(s, b.base);
    OpenedTidy(s, fields, b.base);
    assert ([b] + rest)[1..] == rest;
    RequestsPile(o, b.base, b.requests, Fields(rest));
    BlocksPile(AddRequests(o, b.base, b.requests), rest);
  }

  /** Two bases suffice: 36 lookups below the first, and the second overruns. */
  lemma TwoBasesOverrun(rs: seq<Request>, qs: seq<Request>)
    requires |rs| == 36 && 0 < |qs| < 300_000_000
    ensures var table := [Block(1, rs)] + ([Block(2, qs)] + []);
            && Wraps(EMPTY, table)
            && |Pieces(AddBlocks(EMPTY, table))| == 1
            && TextLength(Pieces(AddBlocks(EMPTY, table))[0]) == 500 + FIELD_LENGTH * |qs|
  {
    var first, second := [Block(1, rs)], [Block(2, qs)] + [];
    var table := first + second;
    assert first[1..] == [] && second[1..] == [] && table[1..] == second;
    assert FieldsBefore(table, 1) == 37;
    assert Risky(table, 0, 1);
    WrapsIff(table);
    assert !AnyRisky(first, 0);
    WrappedOverruns(first, Block(2, qs), []);
  }

  // ---------------------------------------------------------------- one base

  ghost predicate OneBlock(t: Table, base: u32) { |t| == 1 && t[0].base == base }

  ghost predicate OneBase(s: Splitter, base: u32)
  {
    OneBlock(s.current, base) && forall i | 0 <= i < |s.done| :: OneBlock(s.done[i], base)
  }

  lemma {:induction false} StaysOneBase(s: Splitter, base: u32, rs: seq<Request>)
    requires OneBase(s, base)
    ensures OneBase(AddRequests(s, base, rs), base)
    decreases |rs|
  {
    if rs != [] { StaysOneBase(AddRequest(s, base, rs[0]), base, rs[1..]); }
  }

  lemma OneBaseTidy(base: u32, rs: seq<Request>)
    ensures var s := AddBlocks(EMPTY, [Block(base, rs)]);
            && !Wraps(EMPTY, [Block(base, rs)]) && OneBase(s, base)
            && Tidy(s, 1 + |rs|) && Level(s, 1 + |rs|) < CAPACITY
  {
    var table := [Block(base, rs)];
    assert table[1..] == [];
    OpenedTidy(EMPTY, 0, base);
    var o := Opened(EMPTY, base);
    assert OneBase(o, base);
    AddRequestsTidy(o, 1, base, rs);
    StaysOneBase(o, base, rs);
    assert AddBlocks(EMPTY, table) == AddBlocks(AddRequests(o, base, rs), table[1..]);
  }

  lemma OneBlockSize(t: Table, base: u32)
    requires OneBlock(t, base)
    ensures Size(t) == 1 + |t[0].requests|
  {
    assert t == [t[0]];
    ItemsOfOne(t[0]);
    TaggedLength(base, t[0].requests);
  }

  /** What the resolver sends asks below one base only: the count does not wrap, and there are 37 lookups in
      the first command and 38 in the others, all full but the last. */
  lemma OneBaseFits(base: u32, rs: seq<Request>, i: nat)
    requires i < |Pieces(AddBlocks(EMPTY, [Block(base, rs)]))|
    ensures var pieces := Pieces(AddBlocks(EMPTY, [Block(base, rs)]));
            && !Wraps(EMPTY, [Block(base, rs)])
            && OneBlock(pieces[i], base) && |pieces[i][0].requests| <= (if i == 0 then 37 else 38)
            && (i + 1 < |pieces| ==> |pieces[i][0].requests| == if i == 0 then 37 else 38)
  {
    OneBaseTidy(base, rs);
    OneBlockSize(Pieces(AddBlocks(EMPTY, [Block(base, rs)]))[i], base);
  }

  ghost predicate WithinLimit(pieces: seq<Table>)
  {
    forall i | 0 <= i < |pieces| :: TextLength(pieces[i]) <= MAXIMUM_SEND_LENGTH
  }

  /** With one base every command keeps to the limit of 512 characters exactly up to 74 lookups; from the
      75th on the second command has 513. */
  lemma OneBaseWithinLimitIff(base: u32, rs: seq<Request>)
    ensures WithinLimit(Pieces(AddBlocks(EMPTY, [Block(base, rs)]))) <==> |rs| < 75
  {
    var s := AddBlocks(EMPTY, [Block(base, rs)]);
    OneBaseTidy(base, rs);
    LevelIs(s, 1 + |rs|);
    var pieces := Pieces(s);
    if |rs| >= 75 {
      assert |s.done| >= 2 && Size(pieces[1]) == 39;
    } else {
      assert |s.done| <= 1;
    }
  }
}
