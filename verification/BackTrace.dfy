/** Guessing a call stack from raw stack words: which return addresses are confirmed by the code they
    were called from, and which are only chains of maybes. */
module BackTrace {
  import opened Common

  const MAX_FUNCTION_OFFSET := 1024
  const MAX_SCAN_BYTES := 1024
  const MAX_FRAMES := 16

  /** A stack word that is the return address of a call instruction at `site`; `target` is known for
      direct calls only. */
  datatype Call = Call(ret: u32, site: u32, target: Option<u32>)

  datatype Frame = Frame(address: u32, indirect: bool, target: Option<u32>, suspicious: bool, chain: nat)

  /** The call went to code that starts at or shortly before the anchor. */
  predicate Near(target: Option<u32>, anchor: u32)
  {
    target.Some? && target.value <= anchor && anchor - target.value <= MAX_FUNCTION_OFFSET
  }

  /** The next stack slot, in 32 bits. */
  function Above(sp: u32): u32 { (sp + 4) % TWO_32 }

  /** The calls on the stack from `sp` up, in order, with `bytes` left to scan and `room` for frames. */
  function Recognised(slots: u32 -> Option<Call>, sp: u32, stackBase: u32, bytes: int, room: nat): (r: seq<Call>)
    ensures |r| <= room
    decreases bytes
  {
    if bytes <= 0 || room == 0 || sp >= stackBase then []
    else
      match slots(sp)
      case None => Recognised(slots, Above(sp), stackBase, bytes - 4, room)
      case Some(call) => [call] + Recognised(slots, Above(sp), stackBase, bytes - 4, room - 1)
  }

  // ---------------------------------------------------------------- what each call deserves

  /** The site of the last confirmed call before call `i`, or the instruction pointer. */
  function Anchor(calls: seq<Call>, eip: u32, i: nat): u32
    requires i <= |calls|
    decreases i, 0
  {
    if i == 0 then eip
    else if Confirmed(calls, eip, i - 1) then calls[i - 1].site
    else Anchor(calls, eip, i - 1)
  }

  predicate Confirmed(calls: seq<Call>, eip: u32, i: nat)
    requires i < |calls|
    decreases i, 1
  {
    Near(calls[i].target, Anchor(calls, eip, i))
  }

  /** An unconfirmed call that leads on from the unconfirmed call just before it. */
  predicate Extends(calls: seq<Call>, eip: u32, i: nat)
    requires i < |calls|
  {
    && !Confirmed(calls, eip, i) && i > 0 && !Confirmed(calls, eip, i - 1)
    && Near(calls[i].target, calls[i - 1].site)
  }

  predicate Opens(calls: seq<Call>, eip: u32, i: nat)
    requires i < |calls|
  {
    !Confirmed(calls, eip, i) && !Extends(calls, eip, i)
  }

  /** The call that opens the chain of call `i`. */
  function Opener(calls: seq<Call>, eip: u32, i: nat): (o: nat)
    requires i < |calls| && !Confirmed(calls, eip, i)
    ensures o <= i && Opens(calls, eip, o)
  {
    if Opens(calls, eip, i) then i else Opener(calls, eip, i - 1)
  }

  /** The chain of call `i` runs into a confirmed call. */
  predicate Spoiled(calls: seq<Call>, eip: u32, i: nat)
    requires i < |calls|
    decreases |calls| - i
  {
    i + 1 < |calls| &&
    (Confirmed(calls, eip, i + 1) || (Extends(calls, eip, i + 1) && Spoiled(calls, eip, i + 1)))
  }

  /** A chain is doubtful if it opens with a direct call that leads nowhere known, or is skipped over by a
      confirmed call. */
  predicate Suspect(calls: seq<Call>, eip: u32, i: nat)
    requires i < |calls|
  {
    !Confirmed(calls, eip, i) && (calls[Opener(calls, eip, i)].target.Some? || Spoiled(calls, eip, i))
  }

  /** Doubtful chains opened before call `i`. */
  function Chains(calls: seq<Call>, eip: u32, i: nat): nat
    requires i <= |calls|
  {
    if i == 0 then 0
    else Chains(calls, eip, i - 1) + if Opens(calls, eip, i - 1) && Suspect(calls, eip, i - 1) then 1 else 0
  }

  function Deserved(calls: seq<Call>, eip: u32, i: nat): Frame
    requires i < |calls|
  {
    var c := calls[i];
    if Suspect(calls, eip, i) then Frame(c.ret, c.target.None?, c.target, true, Chains(calls, eip, Opener(calls, eip,
        i)) + 1)
    else Frame(c.ret, c.target.None?, c.target, false, 0)
  }

  // ---------------------------------------------------------------- what the chains mean

  lemma {:induction false} ChainsGrow(calls: seq<Call>, eip: u32, i: nat, j: nat)
    requires i <= j <= |calls|
    ensures Chains(calls, eip, i) <= Chains(calls, eip, j)
    ensures i < j && Opens(calls, eip, i) && Suspect(calls, eip, i) ==> Chains(calls, eip, i) < Chains(calls, eip, j)
    decreases j
  {
    if i < j { ChainsGrow(calls, eip, i, j - 1); }
  }

  /** A chain is doubtful as a whole. */
  lemma {:induction false} ChainSharesDoubt(calls: seq<Call>, eip: u32, i: nat)
    requires i < |calls| && !Confirmed(calls, eip, i)
    ensures Suspect(calls, eip, i) == Suspect(calls, eip, Opener(calls, eip, i))
  {
    if !Opens(calls, eip, i) { ChainSharesDoubt(calls, eip, i - 1); }
  }

  lemma {:induction false} OpenersInOrder(calls: seq<Call>, eip: u32, i: nat, j: nat)
    requires i <= j < |calls| && !Confirmed(calls, eip, i) && !Confirmed(calls, eip, j)
    ensures Opener(calls, eip, i) <= Opener(calls, eip, j)
    ensures Opener(calls, eip, i) == Opener(calls, eip, j) || i < Opener(calls, eip, j)
    decreases j
  {
    if i < j && !Opens(calls, eip, j) { OpenersInOrder(calls, eip, i, j - 1); }
  }

  /** Doubtful chain numbers grow up the stack, and two frames share one exactly when their calls belong
      to one chain. */
  lemma ChainNumbers(calls: seq<Call>, eip: u32, i: nat, j: nat)
    requires i <= j < |calls| && Suspect(calls, eip, i) && Suspect(calls, eip, j)
    ensures 1 <= Deserved(calls, eip, i).chain <= Deserved(calls, eip, j).chain
    ensures Deserved(calls, eip, i).chain == Deserved(calls, eip, j).chain
            <==> Opener(calls, eip, i) == Opener(calls, eip, j)
  {
    OpenersInOrder(calls, eip, i, j);
    ChainSharesDoubt(calls, eip, i);
    ChainsGrow(calls, eip, Opener(calls, eip, i), Opener(calls, eip, j));
  }

  ghost predicate NoneConfirmed(calls: seq<Call>, eip: u32, first: nat, end: nat)
    requires end <= |calls|
  {
    forall k | first <= k < end :: !Confirmed(calls, eip, k)
  }

  /** Call `j` is the last confirmed one before call `i`. */
  ghost predicate LastConfirmed(calls: seq<Call>, eip: u32, j: nat, i: nat)
    requires i <= |calls|
  {
    j < i && Confirmed(calls, eip, j) && NoneConfirmed(calls, eip, j + 1, i)
  }

  /** Every confirmed call leads to code that begins at most 1024 bytes before the last confirmed call's site, or
      before the instruction pointer if nothing was confirmed. */
  lemma {:induction false} ConfirmedLink(calls: seq<Call>, eip: u32, i: nat)
    requires i < |calls|
    ensures Confirmed(calls, eip, i) <==>
            && calls[i].target.Some?
            && var t := calls[i].target.value;
               || (NoneConfirmed(calls, eip, 0, i) && t <= eip <= t + 1024)
               || (exists j: nat :: LastConfirmed(calls, eip, j, i) && t <= calls[j].site <= t + 1024)
  {
    var found, j := AnchorIs(calls, eip, i);
    if found { assert LastConfirmed(calls, eip, j, i); }
    assert forall m: nat | LastConfirmed(calls, eip, m, i) :: found && m == j;
  }

  lemma {:induction false} AnchorIs(calls: seq<Call>, eip: u32, i: nat) returns (found: bool, j: nat)
    requires i <= |calls|
    ensures if found then LastConfirmed(calls, eip, j, i) && Anchor(calls, eip, i) == calls[j].site
            else NoneConfirmed(calls, eip, 0, i) && Anchor(calls, eip, i) == eip
  {
    if i == 0 {
      found, j := false, 0;
    } else if Confirmed(calls, eip, i - 1) {
      found, j := true, i - 1;
    } else {
      found, j := AnchorIs(calls, eip, i - 1);
    }
  }

  /** The chain of call `i` runs into confirmed call `k`: no other chain opens on the way. */
  ghost predicate RunsInto(calls: seq<Call>, eip: u32, i: nat, k: nat)
  {
    i < k < |calls| && Confirmed(calls, eip, k) && forall m | i < m <= k :: !Opens(calls, eip, m)
  }

  lemma {:induction false} SpoiledIff(calls: seq<Call>, eip: u32, i: nat)
    requires i < |calls| && !Confirmed(calls, eip, i)
    ensures Spoiled(calls, eip, i) <==> exists k: nat :: RunsInto(calls, eip, i, k)
    decreases |calls| - i
  {
    if i + 1 < |calls| {
      if Confirmed(calls, eip, i + 1) {
        assert RunsInto(calls, eip, i, i + 1);
      } else {
        SpoiledIff(calls, eip, i + 1);
        if Spoiled(calls, eip, i + 1) && Extends(calls, eip, i + 1) {
          var k: nat :| RunsInto(calls, eip, i + 1, k);
          assert RunsInto(calls, eip, i, k);
        }
        forall k: nat | RunsInto(calls, eip, i, k)
          ensures RunsInto(calls, eip, i + 1, k) && Extends(calls, eip, i + 1)
        {
          assert !Opens(calls, eip, i + 1);
        }
      }
    }
  }

  /** A frame is believed exactly when its call is confirmed, or its chain opens with an indirect call
      and does not run into a confirmed one. */
  lemma BelievedIff(calls: seq<Call>, eip: u32, i: nat)
    requires i < |calls|
    ensures !Deserved(calls, eip, i).suspicious <==>
            || Confirmed(calls, eip, i)
            || (calls[Opener(calls, eip, i)].target.None? && !exists k: nat :: RunsInto(calls, eip, i, k))
    ensures Deserved(calls, eip, i).chain == 0 <==> !Deserved(calls, eip, i).suspicious
  {
    if !Confirmed(calls, eip, i) { SpoiledIff(calls, eip, i); }
  }

  /** Of two calls in a row that are not confirmed, the second belongs to the chain of the first exactly when it
      leads to code that begins at most 1024 bytes before the site of the first. */
  lemma SameChainIff(calls: seq<Call>, eip: u32, i: nat)
    requires 0 < i < |calls| && !Confirmed(calls, eip, i) && !Confirmed(calls, eip, i - 1)
    ensures Opener(calls, eip, i) == Opener(calls, eip, i - 1) <==>
            && calls[i].target.Some?
            && calls[i].target.value <= calls[i - 1].site <= calls[i].target.value + 1024
  {
  }

  // ---------------------------------------------------------------- the scan

  /** The calls among the slots, in order, `room` of them at most. */
  function Among(slots: seq<Option<Call>>, room: nat): seq<Call>
  {
    if slots == [] || room == 0 then []
    else if slots[0].None? then Among(slots[1..], room)
    else [slots[0].value] + Among(slots[1..], room - 1)
  }

  /** Stack word `j` above `sp`, in 32 bits. */
  function SlotAddress(sp: u32, j: nat): u32 { (sp + 4 * j) % TWO_32 }

  lemma NextSlot(sp: u32, j: nat)
    ensures SlotAddress(Above(sp), j) == SlotAddress(sp, j + 1)
  {
    assert Above(sp) == sp + 4 || Above(sp) == sp + 4 - TWO_32;
    assert (sp + 4 - TWO_32 + 4 * j) % TWO_32 == (sp + 4 + 4 * j) % TWO_32;
  }

  /** The first `n` words lie below the base of the stack, and no more, or no more may be looked at. */
  ghost predicate Reaches(sp: u32, stackBase: u32, n: nat, most: nat)
  {
    && n <= most && (forall j | 0 <= j < n :: SlotAddress(sp, j) < stackBase)
    && (n == most || SlotAddress(sp, n) >= stackBase)
  }

  function Slots(slots: u32 -> Option<Call>, sp: u32, n: nat): (r: seq<Option<Call>>)
    ensures |r| == n
  {
    seq(n, j requires 0 <= j < n => slots(SlotAddress(sp, j)))
  }

  lemma {:induction false} RecognisedFrom(slots: u32 -> Option<Call>, sp: u32, stackBase: u32, n: nat, most: nat,
                                          room: nat)
    requires Reaches(sp, stackBase, n, most)
    ensures Recognised(slots, sp, stackBase, 4 * most, room) == Among(Slots(slots, sp, n), room)
    decreases most
  {
    assert SlotAddress(sp, 0) == sp;
    if n > 0 && room > 0 {
      var next := Above(sp);
      forall j: nat
        ensures SlotAddress(next, j) == SlotAddress(sp, j + 1)
      {
        NextSlot(sp, j);
      }
      assert Slots(slots, sp, n)[1..] == Slots(slots, next, n - 1);
      RecognisedFrom(slots, next, stackBase, n - 1, most - 1, if slots(sp).Some? then room - 1 else room);
    }
  }

  /** The calls recognised are the first sixteen among the words of the stack, 256 of them at most. */
  lemma RecognisedIs(slots: u32 -> Option<Call>, sp: u32, stackBase: u32, n: nat)
    requires Reaches(sp, stackBase, n, 256)
    ensures Recognised(slots, sp, stackBase, MAX_SCAN_BYTES, MAX_FRAMES) == Among(Slots(slots, sp, n), 16)
  {
    RecognisedFrom(slots, sp, stackBase, n, 256, 16);
  }

  /** `strong` chains, opened by an indirect call, are believed unless a confirmed call skips them. */
  datatype Guess = Guess(
    guessed: seq<Frame>, pending: seq<Frame>, confirmed: u32, speculative: Option<u32>, strong: bool, nextChain: nat)

  function Waiting(calls: seq<Call>, eip: u32, i: nat): Frame
    requires i < |calls|
  {
    var c := calls[i];
    Frame(c.ret, c.target.None?, c.target, Opens(calls, eip, i) && c.target.Some?, 0)
  }

  ghost predicate Settled(calls: seq<Call>, eip: u32, frames: seq<Frame>)
  {
    |frames| <= |calls| && forall i | 0 <= i < |frames| :: frames[i] == Deserved(calls, eip, i)
  }

  /** Calls `n` up to `k` form one chain. */
  ghost predicate OneChain(calls: seq<Call>, eip: u32, n: nat, k: nat)
  {
    n < k <= |calls| && Opens(calls, eip, n) && forall i | n < i < k :: Extends(calls, eip, i)
  }

  ghost predicate Waits(pending: seq<Frame>, calls: seq<Call>, eip: u32, n: nat)
  {
    n + |pending| <= |calls| && forall j | 0 <= j < |pending| :: pending[j] == Waiting(calls, eip, n + j)
  }

  /** Nothing waits, and everything before call `k` is settled. */
  ghost predicate Cleared(g: Guess, calls: seq<Call>, eip: u32, k: nat)
  {
    && g.pending == [] && |g.guessed| == k && Settled(calls, eip, g.guessed)
    && g.nextChain == Chains(calls, eip, k) + 1
  }

  /** After `k` calls: everything up to the open chain is settled, and the chain waits. */
  ghost predicate Tracks(g: Guess, calls: seq<Call>, eip: u32, k: nat)
  {
    var n := |g.guessed|;
    && n + |g.pending| == k <= |calls|
    && Settled(calls, eip, g.guessed) && Waits(g.pending, calls, eip, n)
    && g.nextChain == Chains(calls, eip, n) + 1
    && g.confirmed == Anchor(calls, eip, k)
    && (if n == k then g.speculative == None && !g.strong && (k == 0 || Confirmed(calls, eip, k - 1))
        else OneChain(calls, eip, n, k) && g.speculative == Some(calls[k - 1].site) &&
                g.strong == calls[n].target.None?)
  }

  lemma {:induction false} ChainOpener(calls: seq<Call>, eip: u32, n: nat, i: nat)
    requires OneChain(calls, eip, n, i + 1)
    ensures !Confirmed(calls, eip, i) && Opener(calls, eip, i) == n
    ensures Suspect(calls, eip, i) == Suspect(calls, eip, n)
    decreases i
  {
    if n < i {
      assert Extends(calls, eip, i);
      ChainOpener(calls, eip, n, i - 1);
    }
  }

  lemma {:induction false} ChainsAlong(calls: seq<Call>, eip: u32, n: nat, k: nat)
    requires OneChain(calls, eip, n, k)
    ensures Chains(calls, eip, k) == Chains(calls, eip, n) + if Suspect(calls, eip, n) then 1 else 0
    decreases k
  {
    if n + 1 < k {
      assert Extends(calls, eip, k - 1);
      ChainsAlong(calls, eip, n, k - 1);
    }
  }

  /** The whole waiting chain moves over, under one verdict. */
  method FlushPending(g: Guess, doubtful: bool, ghost calls: seq<Call>, ghost eip: u32, ghost k: nat) returns (r: Guess)
    requires Tracks(g, calls, eip, k)
    requires g.pending != [] ==> doubtful == Suspect(calls, eip, |g.guessed|)
    ensures Cleared(r, calls, eip, k)
    ensures r.confirmed == g.confirmed
  {
    r := g;
    if g.pending == [] { return; }
    var id := if doubtful then g.nextChain else 0;
    var guessed := g.guessed;
    ghost var n := |g.guessed|;
    for j := 0 to |g.pending|
      invariant |guessed| == n + j && Settled(calls, eip, guessed)
    {
      ghost var verdict := Verdict(calls, eip, n, n + j, doubtful);
      guessed := guessed + [g.pending[j].(chain := id, suspicious := doubtful || g.pending[j].suspicious)];
    }
    ChainsAlong(calls, eip, n, k);
    r := g.(guessed := guessed, pending := [], nextChain := if doubtful then g.nextChain + 1 else g.nextChain);
  }

  lemma Verdict(calls: seq<Call>, eip: u32, n: nat, i: nat, doubtful: bool) returns (f: Frame)
    requires OneChain(calls, eip, n, i + 1)
    requires doubtful == Suspect(calls, eip, n)
    ensures f == Waiting(calls, eip, i)
    ensures Deserved(calls, eip, i) ==
            f.(chain := if doubtful then Chains(calls, eip, n) + 1 else 0, suspicious := doubtful || f.suspicious)
  {
    f := Waiting(calls, eip, i);
    ChainOpener(calls, eip, n, i);
  }

  method Classify(g: Guess, call: Call, ghost calls: seq<Call>, ghost eip: u32, ghost k: nat) returns (r: Guess)
    requires k < |calls| && call == calls[k] && Tracks(g, calls, eip, k)
    ensures Tracks(r, calls, eip, k + 1)
  {
    CallKind(g, calls, eip, k);
    if Near(call.target, g.confirmed) {
      VerdictBefore(g, calls, eip, k);
      r := FlushPending(g, true, calls, eip, k);
      Confirm(r, calls, eip, k);
      r := Guess(r.guessed + [Frame(call.ret, false, call.target, false, 0)], [], call.site, None, false, r.nextChain);
    } else if g.speculative.Some? && Near(call.target, g.speculative.value) {
      Extend(g, calls, eip, k);
      r := g.(pending := g.pending + [Frame(call.ret, false, call.target, false, 0)], speculative := Some(call.site));
    } else {
      VerdictBefore(g, calls, eip, k);
      r := FlushPending(g, !g.strong, calls, eip, k);
      Open(r, calls, eip, k);
      r := Guess(r.guessed, [Frame(call.ret, call.target.None?, call.target, call.target.Some?, 0)],
                 r.confirmed, Some(call.site), call.target.None?, r.nextChain);
    }
  }

  lemma CallKind(g: Guess, calls: seq<Call>, eip: u32, k: nat)
    requires k < |calls| && Tracks(g, calls, eip, k)
    ensures Near(calls[k].target, g.confirmed) <==> Confirmed(calls, eip, k)
    ensures Extends(calls, eip, k) <==>
            !Confirmed(calls, eip, k) && g.speculative.Some? && Near(calls[k].target, g.speculative.value)
  {
    var n := |g.guessed|;
    if n < k { ChainOpener(calls, eip, n, k - 1); }
  }

  lemma Confirm(g: Guess, calls: seq<Call>, eip: u32, k: nat)
    requires k < |calls| && Confirmed(calls, eip, k) && Cleared(g, calls, eip, k)
    ensures var c := calls[k];
            Tracks(Guess(g.guessed + [Frame(c.ret, false, c.target, false, 0)], [], c.site, None, false, g.nextChain),
                   calls, eip, k + 1)
  {
  }

  lemma Extend(g: Guess, calls: seq<Call>, eip: u32, k: nat)
    requires k < |calls| && Extends(calls, eip, k) && Tracks(g, calls, eip, k)
    ensures var c := calls[k];
            Tracks(g.(pending := g.pending + [Frame(c.ret, false, c.target, false, 0)], speculative := Some(c.site)),
                   calls, eip, k + 1)
  {
    var n := |g.guessed|;
    assert n < k && OneChain(calls, eip, n, k + 1);
  }

  lemma Open(g: Guess, calls: seq<Call>, eip: u32, k: nat)
    requires k < |calls| && Opens(calls, eip, k) && Cleared(g, calls, eip, k) && g.confirmed == Anchor(calls, eip, k)
    ensures var c := calls[k];
            Tracks(Guess(g.guessed, [Frame(c.ret, c.target.None?, c.target, c.target.Some?, 0)],
                         g.confirmed, Some(c.site), c.target.None?, g.nextChain),
                   calls, eip, k + 1)
  {
    assert OneChain(calls, eip, k, k + 1);
  }

  lemma {:induction false} ChainEnds(calls: seq<Call>, eip: u32, n: nat, k: nat)
    requires OneChain(calls, eip, n, k)
    requires k < |calls| ==> !Extends(calls, eip, k)
    ensures Spoiled(calls, eip, n) <==> k < |calls| && Confirmed(calls, eip, k)
  {
    var i := k - 1;
    while i > n
      invariant n <= i < k
      invariant Spoiled(calls, eip, i) <==> k < |calls| && Confirmed(calls, eip, k)
    {
      assert Extends(calls, eip, i);
      i := i - 1;
    }
  }

  /** The verdict on the waiting chain, once it is known what follows it. */
  lemma VerdictBefore(g: Guess, calls: seq<Call>, eip: u32, k: nat)
    requires Tracks(g, calls, eip, k)
    requires k < |calls| ==> !Extends(calls, eip, k)
    ensures g.pending != [] ==>
            Suspect(calls, eip, |g.guessed|) == (!g.strong || (k < |calls| && Confirmed(calls, eip, k)))
  {
    if g.pending != [] { ChainEnds(calls, eip, |g.guessed|, k); }
  }

  /** `slots` says of each stack address whether its word is the return address of a recognised call. */
  method GuessBackTrace(slots: u32 -> Option<Call>, esp: u32, stackBase: u32, eip: u32) returns (frames: seq<Frame>)
    ensures var calls := Recognised(slots, esp, stackBase, MAX_SCAN_BYTES, MAX_FRAMES);
            && |frames| == |calls| <= MAX_FRAMES && Settled(calls, eip, frames)
            && forall i | 0 <= i < |frames| ::
                 && frames[i].address == calls[i].ret && frames[i].target == calls[i].target
                 && frames[i].indirect == calls[i].target.None?
  {
    frames := Scan(slots, esp, stackBase, eip, MAX_SCAN_BYTES, MAX_FRAMES);
  }

  /** One stack slot: a recognised call is classified, anything else passed over. */
  method Visit(g: Guess, slot: Option<Call>, ghost calls: seq<Call>, ghost eip: u32, ghost k: nat,
               ghost rest: seq<Call>)
    returns (r: Guess, ghost done: nat)
    requires Tracks(g, calls, eip, k) && rest == calls[k..]
    requires slot.Some? ==> rest != [] && rest[0] == slot.value
    ensures Tracks(r, calls, eip, done)
    ensures if slot.Some? then done == k + 1 && calls[done..] == rest[1..] else done == k && r == g
  {
    r, done := g, k;
    if slot.Some? {
      assert calls[k] == rest[0];
      r := Classify(g, slot.value, calls, eip, k);
      done := k + 1;
    }
  }

  /** The end of the scan settles the chain still open. */
  method Finish(g: Guess, ghost calls: seq<Call>, ghost eip: u32) returns (frames: seq<Frame>)
    requires Tracks(g, calls, eip, |calls|)
    ensures |frames| == |calls| && Settled(calls, eip, frames)
  {
    VerdictBefore(g, calls, eip, |calls|);
    var r := FlushPending(g, !g.strong, calls, eip, |calls|);
    frames := r.guessed;
  }

  method Scan(slots: u32 -> Option<Call>, esp: u32, stackBase: u32, eip: u32, maxScanBytes: nat, maxFrames: nat)
    returns (frames: seq<Frame>)
    ensures var calls := Recognised(slots, esp, stackBase, maxScanBytes, maxFrames);
            |frames| == |calls| <= maxFrames && Settled(calls, eip, frames)
  {
    ghost var calls := Recognised(slots, esp, stackBase, maxScanBytes, maxFrames);
    var g := Guess([], [], eip, None, false, 1);
    var sp: u32 := esp;
    var scanned: nat := 0;
    ghost var k: nat, rest, room: nat := 0, calls, maxFrames;
    while scanned < maxScanBytes && |g.guessed| + |g.pending| < maxFrames && sp < stackBase
      invariant Tracks(g, calls, eip, k)
      invariant room == maxFrames - k && rest == calls[k..]
      invariant rest == Recognised(slots, sp, stackBase, maxScanBytes - scanned, room)
      decreases maxScanBytes - scanned
    {
      ghost var after, left := RecognisedStep(slots, sp, stackBase, maxScanBytes - scanned, room);
      g, k := Visit(g, slots(sp), calls, eip, k, rest);
      rest, room := after, left;
      sp := Above(sp);
      scanned := scanned + 4;
    }
    assert rest == [];
    frames := Finish(g, calls, eip);
  }

  lemma RecognisedStep(slots: u32 -> Option<Call>, sp: u32, stackBase: u32, bytes: int, room: nat)
    returns (after: seq<Call>, left: nat)
    requires bytes > 0 && room > 0 && sp < stackBase
    ensures after == Recognised(slots, Above(sp), stackBase, bytes - 4, left)
    ensures var rest := Recognised(slots, sp, stackBase, bytes, room);
            if slots(sp).Some? then left == room - 1 && rest != [] && rest[0] == slots(sp).value && rest[1..] == after
            else left == room && rest == after
  {
    left := if slots(sp).Some? then room - 1 else room;
    after := Recognised(slots, Above(sp), stackBase, bytes - 4, left);
  }
}
