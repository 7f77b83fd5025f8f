/** The debugger's software breakpoints: tracked on the host, planted on the target, lifted while
    memory is read or an instruction is stepped, and planted again when the target stops. */
module Breakpoints {
  import opened Common

  /** The instruction a planted breakpoint shows in memory. */
  const TRAP: byte := 0xCC

  /** The target: which breakpoints are planted, what memory really holds, and how it will answer each
      command. A refused command has no effect. */
  datatype Target = Target(planted: set<u32>, memory: nat -> byte, replies: nat -> bool, sent: nat)

  function Sent(t: Target): Target { t.(sent := t.sent + 1) }

  function Accepted(t: Target): bool { t.replies(t.sent) }

  function BreakAddress(t: Target, a: u32, clear: bool): Target
  {
    var planted := if !Accepted(t) then t.planted else if clear then t.planted - {a} else t.planted + {a};
    Sent(t).(planted := planted)
  }

  function Observed(t: Target, a: nat): byte { if a in t.planted then TRAP else t.memory(a) }

  function ReadBytes(t: Target, address: nat, length: nat): (r: seq<byte>)
    ensures |r| == length && forall i | 0 <= i < length :: r[i] == Observed(t, address + i)
    decreases length
  {
    if length == 0 then [] else [Observed(t, address)] + ReadBytes(t, address + 1, length - 1)
  }

  // ---------------------------------------------------------------- sets walked in ascending order

  lemma LeastOf(s: set<u32>) returns (m: u32)
    requires s != {}
    ensures m in s && forall a | a in s :: m <= a
  {
    var x :| x in s;
    if s == {x} {
      m := x;
    } else {
      var n := LeastOf(s - {x});
      m := if n < x then n else x;
      forall a | a in s
        ensures m <= a
      {
        assert a == x || a in s - {x};
      }
    }
  }

  lemma HasLeast(s: set<u32>)
    requires s != {}
    ensures exists m :: m in s && forall a | a in s :: m <= a
  {
    var m := LeastOf(s);
  }

  function Least(s: set<u32>): (m: u32)
    requires s != {}
    ensures m in s && forall a | a in s :: m <= a
  {
    HasLeast(s);
    var m :| m in s && forall a | a in s :: m <= a;
    m
  }

  /** Tracked breakpoints in `[address, address + length)`, with the end computed in 32 bits. */
  function InRange(tracked: set<u32>, address: u32, length: u32): set<u32>
  {
    var end := (address + length) % TWO_32;
    set a | a in tracked && address <= a < end
  }

  // ---------------------------------------------------------------- suspending and restoring

  function Suspend(t: Target, bps: set<u32>): Target
    decreases bps
  {
    if bps == {} then t
    else
      var a := Least(bps);
      Suspend(BreakAddress(t, a, true), bps - {a})
  }

  function Restore(t: Target, bps: set<u32>): Target
    decreases bps
  {
    if bps == {} then t
    else
      var a := Least(bps);
      Restore(BreakAddress(t, a, false), bps - {a})
  }

  /** Breakpoints whose restoration is refused. */
  ghost function Refused(t: Target, bps: set<u32>): set<u32>
    decreases bps
  {
    if bps == {} then {}
    else
      var a := Least(bps);
      (if Accepted(t) then {} else {a}) + Refused(BreakAddress(t, a, false), bps - {a})
  }

  ghost predicate SameTarget(t: Target, t': Target, commands: nat)
  {
    t'.memory == t.memory && t'.replies == t.replies && t'.sent == t.sent + commands
  }

  lemma {:induction false} SuspendEffect(t: Target, bps: set<u32>)
    ensures SameTarget(t, Suspend(t, bps), |bps|)
    ensures t.planted - bps <= Suspend(t, bps).planted <= t.planted
    ensures (forall k | t.sent <= k < t.sent + |bps| :: t.replies(k)) ==> Suspend(t, bps).planted == t.planted - bps
    decreases bps
  {
    if bps != {} { SuspendEffect(BreakAddress(t, Least(bps), true), bps - {Least(bps)}); }
  }

  lemma {:induction false} RestoreEffect(t: Target, bps: set<u32>)
    ensures SameTarget(t, Restore(t, bps), |bps|)
    ensures t.planted <= Restore(t, bps).planted <= t.planted + bps
    ensures (forall k | t.sent <= k < t.sent + |bps| :: t.replies(k)) ==> Refused(t, bps) == {}
    decreases bps
  {
    if bps != {} { RestoreEffect(BreakAddress(t, Least(bps), false), bps - {Least(bps)}); }
  }

  lemma {:induction false} RestoreOrRefused(t: Target, bps: set<u32>)
    ensures bps <= Restore(t, bps).planted + Refused(t, bps)
    decreases bps
  {
    if bps != {} {
      var a := Least(bps);
      var next := BreakAddress(t, a, false);
      RestoreEffect(next, bps - {a});
      RestoreOrRefused(next, bps - {a});
      forall b | b in bps
        ensures b in Restore(t, bps).planted + Refused(t, bps)
      {
        assert b == a || b in bps - {a};
      }
    }
  }

  // ---------------------------------------------------------------- the debugger

  /** `lifted` and `lost` only keep account: breakpoints taken out by a step that has not stopped yet,
      and breakpoints whose restoration was refused. No operation looks at them. */
  datatype Debugger = Debugger(target: Target, tracked: set<u32>, lifted: set<u32>, lost: set<u32>)

  function Add(d: Debugger, a: u32): Debugger
  {
    var d' := d.(target := BreakAddress(d.target, a, false));
    if Accepted(d.target) then d'.(tracked := d.tracked + {a}) else d'
  }

  function Remove(d: Debugger, a: u32): Debugger
  {
    var d' := d.(target := BreakAddress(d.target, a, true));
    if Accepted(d.target) then d'.(tracked := d.tracked - {a}) else d'
  }

  /** The target while memory is being read. */
  function ReadTarget(d: Debugger, address: u32, length: u32): Target
  {
    Suspend(d.target, InRange(d.tracked, address, length))
  }

  function Data(d: Debugger, address: u32, length: u32): Option<seq<byte>>
  {
    var t := ReadTarget(d, address, length);
    if Accepted(t) then Some(ReadBytes(t, address, length)) else None
  }

  ghost function Read(d: Debugger, address: u32, length: u32): Debugger
  {
    var overlaps := InRange(d.tracked, address, length);
    Restored(d, Sent(ReadTarget(d, address, length)), overlaps)
  }

  ghost function Restored(d: Debugger, t: Target, bps: set<u32>): Debugger
  {
    d.(target := Restore(t, bps), lost := d.lost + Refused(t, bps))
  }

  /** Commands before the breakpoints are lifted: stop and fetch the context. */
  function Prepared(t: Target): Target { Sent(Sent(t)) }

  /** A step of the active thread, whose context gives `eip` if it could be fetched. */
  ghost function Step(d: Debugger, active: bool, eip: Option<u32>): Debugger
  {
    var t0 := d.target;
    if !active then d
    else if !Accepted(t0) then d.(target := Sent(t0))
    else if !Accepted(Sent(t0)) || eip.None? then d.(target := Prepared(t0))
    else
      var bps := InRange(d.tracked, eip.value, 1);
      var t1 := Suspend(Prepared(t0), bps);
      if !Accepted(t1) then Restored(d, Sent(t1), bps)
      else if !Accepted(Sent(t1)) then Restored(d, Prepared(t1), bps)
      else d.(target := Prepared(t1), lifted := d.lifted + bps)
  }

  ghost function Stopped(d: Debugger): Debugger
  {
    d.(target := Restore(d.target, d.tracked), lifted := {}, lost := Refused(d.target, d.tracked))
  }

  /** A reboot wipes the target's breakpoints, and the host forgets them. */
  function Rebooted(d: Debugger): Debugger
  {
    d.(target := d.target.(planted := {}), tracked := {}, lifted := {}, lost := {})
  }

  // ---------------------------------------------------------------- safety over runs

  datatype Event =
    | AddBreakpoint(address: u32)
    | RemoveBreakpoint(address: u32)
    | GetMemory(address: u32, length: u32)
    | StepInstruction(active: bool, eip: Option<u32>)
    | TargetStopped
    | TargetRebooting

  ghost function Next(d: Debugger, e: Event): Debugger
  {
    match e
    case AddBreakpoint(a) => Add(d, a)
    case RemoveBreakpoint(a) => Remove(d, a)
    case GetMemory(a, n) => Read(d, a, n)
    case StepInstruction(active, eip) => Step(d, active, eip)
    case TargetStopped => Stopped(d)
    case TargetRebooting => Rebooted(d)
  }

  ghost function Run(d: Debugger, events: seq<Event>): Debugger
    decreases |events|
  {
    if events == [] then d else Run(Next(d, events[0]), events[1..])
  }

  /** Nothing untracked is planted, and everything tracked is planted unless a step lifted it or its
      restoration was refused; refusals only come from refused commands. */
  ghost predicate Consistent(d: Debugger)
  {
    && d.target.planted <= d.tracked
    && d.tracked <= d.target.planted + d.lifted + d.lost
    && ((forall k | 0 <= k < d.target.sent :: d.target.replies(k)) ==> d.lost == {})
  }

  lemma RestoredConsistent(d: Debugger, t: Target, bps: set<u32>)
    requires Consistent(d) && t.replies == d.target.replies && t.sent >= d.target.sent
    requires bps <= d.tracked
    requires d.target.planted - bps <= t.planted <= d.target.planted
    ensures Consistent(Restored(d, t, bps))
  {
    RestoreEffect(t, bps);
    RestoreOrRefused(t, bps);
  }

  lemma NextConsistent(d: Debugger, e: Event)
    requires Consistent(d)
    ensures Consistent(Next(d, e))
  {
    match e
    case AddBreakpoint(a) =>
    case RemoveBreakpoint(a) =>
    case GetMemory(a, n) =>
      var bps := InRange(d.tracked, a, n);
      SuspendEffect(d.target, bps);
      RestoredConsistent(d, Sent(ReadTarget(d, a, n)), bps);
    case StepInstruction(active, eip) => StepConsistent(d, active, eip);
    case TargetStopped =>
      RestoreEffect(d.target, d.tracked);
      RestoreOrRefused(d.target, d.tracked);
    case TargetRebooting =>
  }

  lemma StepConsistent(d: Debugger, active: bool, eip: Option<u32>)
    requires Consistent(d)
    ensures Consistent(Step(d, active, eip))
  {
    if eip.Some? {
      var bps := InRange(d.tracked, eip.value, 1);
      SuspendEffect(Prepared(d.target), bps);
      var t1 := Suspend(Prepared(d.target), bps);
      RestoredConsistent(d, Sent(t1), bps);
      RestoredConsistent(d, Prepared(t1), bps);
    }
  }

  lemma {:induction false} RunKeepsConsistent(d: Debugger, events: seq<Event>)
    requires Consistent(d)
    ensures Consistent(Run(d, events))
    decreases |events|
  {
    if events != [] {
      NextConsistent(d, events[0]);
      RunKeepsConsistent(Next(d, events[0]), events[1..]);
    }
  }

  /** Whether a step comes off: the target accepts to stop, to give the context, to step and to resume. The
      last two come after the command that lifts the breakpoint at the instruction, if there is one. */
  predicate StepComesOff(d: Debugger, active: bool, eip: Option<u32>)
  {
    && active && eip.Some?
    && var n, replies := d.target.sent, d.target.replies;
       var k := if eip.value in d.tracked && eip.value < 0xFFFF_FFFF then 1 else 0;
       replies(n) && replies(n + 1) && replies(n + k + 2) && replies(n + k + 3)
  }

  /** The addresses of the steps that came off since the last stop or reboot, beginning with those in `since`. */
  ghost function Stepped(d: Debugger, since: set<u32>, events: seq<Event>): set<u32>
    decreases |events|
  {
    if events == [] then since else Stepped(Next(d, events[0]), SteppedBy(d, since, events[0]), events[1..])
  }

  function SteppedBy(d: Debugger, since: set<u32>, e: Event): set<u32>
  {
    match e
    case StepInstruction(active, eip) => if StepComesOff(d, active, eip) then since + {eip.value} else since
    case TargetStopped => {}
    case TargetRebooting => {}
    case _ => since
  }

  lemma {:induction false} SteppedMonotone(d: Debugger, a: set<u32>, b: set<u32>, events: seq<Event>)
    requires a <= b
    ensures Stepped(d, a, events) <= Stepped(d, b, events)
    decreases |events|
  {
    if events != [] {
      SteppedMonotone(Next(d, events[0]), SteppedBy(d, a, events[0]), SteppedBy(d, b, events[0]), events[1..]);
    }
  }

  /** The same by the state of the target at each command. */
  lemma StepComesOffIff(d: Debugger, eip: u32)
    ensures var t0 := d.target;
            var t1 := Suspend(Prepared(t0), InRange(d.tracked, eip, 1));
            StepComesOff(d, true, Some(eip)) <==>
            Accepted(t0) && Accepted(Sent(t0)) && Accepted(t1) && Accepted(Sent(t1))
  {
    OnlyOneInRange(d.tracked, eip);
    SuspendEffect(Prepared(d.target), InRange(d.tracked, eip, 1));
  }

  /** A step that comes off lifts nothing but the breakpoint at its instruction; any other lifts none. */
  lemma StepLifts(d: Debugger, active: bool, eip: Option<u32>)
    ensures Step(d, active, eip).lifted ==
            if StepComesOff(d, active, eip) then d.lifted + InRange(d.tracked, eip.value, 1) else d.lifted
  {
    if eip.Some? { StepComesOffIff(d, eip.value); }
  }

  lemma NextLifts(d: Debugger, e: Event)
    ensures Next(d, e).lifted <= SteppedBy(d, d.lifted, e)
  {
    if e.StepInstruction? {
      StepLifts(d, e.active, e.eip);
      if e.eip.Some? { OnlyOneInRange(d.tracked, e.eip.value); }
    }
  }

  lemma OnlyOneInRange(tracked: set<u32>, eip: u32)
    ensures InRange(tracked, eip, 1) == if eip < 0xFFFF_FFFF && eip in tracked then {eip} else {}
  {
    if eip == 0xFFFF_FFFF { assert (eip + 1) % TWO_32 == 0; }
  }

  /** Only instructions at which a step came off since the last stop or reboot can lack their breakpoint. */
  lemma {:induction false} RunLifts(d: Debugger, events: seq<Event>)
    ensures Run(d, events).lifted <= Stepped(d, d.lifted, events)
    decreases |events|
  {
    if events != [] {
      var next := Next(d, events[0]);
      NextLifts(d, events[0]);
      RunLifts(next, events[1..]);
      SteppedMonotone(next, next.lifted, SteppedBy(d, d.lifted, events[0]), events[1..]);
    }
  }

  /** Safety over every run, whatever the target answers: nothing untracked is planted, and every tracked
      breakpoint is planted unless a step at it came off since the last stop or reboot, or its restoration was
      refused. Without refusals the last exception falls away. */
  lemma RunConsistent(d: Debugger, events: seq<Event>)
    requires Consistent(d)
    ensures var r := Run(d, events);
            && Consistent(r) && r.target.planted <= r.tracked
            && r.tracked <= r.target.planted + Stepped(d, d.lifted, events) + r.lost
            && ((forall k | 0 <= k < r.target.sent :: r.target.replies(k)) ==>
                  r.tracked - Stepped(d, d.lifted, events) <= r.target.planted)
  {
    RunKeepsConsistent(d, events);
    RunLifts(d, events);
  }

  /** The breakpoints that have been asked for and not given up, beginning with those in `asked`. */
  function Asked(asked: set<u32>, events: seq<Event>): set<u32>
    decreases |events|
  {
    if events == [] then asked else Asked(AskedBy(asked, events[0]), events[1..])
  }

  function AskedBy(asked: set<u32>, e: Event): set<u32>
  {
    match e
    case AddBreakpoint(a) => asked + {a}
    case RemoveBreakpoint(a) => asked - {a}
    case TargetRebooting => {}
    case _ => asked
  }

  lemma StepSends(d: Debugger, active: bool, eip: u32)
    ensures var r := Step(d, active, Some(eip));
            r.target.replies == d.target.replies && r.target.sent >= d.target.sent
  {
    var bps := InRange(d.tracked, eip, 1);
    var t1 := Suspend(Prepared(d.target), bps);
    SuspendEffect(Prepared(d.target), bps);
    RestoreEffect(Sent(t1), bps);
    RestoreEffect(Prepared(t1), bps);
  }

  lemma NextSends(d: Debugger, e: Event)
    ensures var r := Next(d, e); r.target.replies == d.target.replies && r.target.sent >= d.target.sent
  {
    match e
    case GetMemory(a, n) =>
      SuspendEffect(d.target, InRange(d.tracked, a, n));
      RestoreEffect(Sent(ReadTarget(d, a, n)), InRange(d.tracked, a, n));
    case StepInstruction(_, Some(eip)) => StepSends(d, e.active, eip);
    case TargetStopped => RestoreEffect(d.target, d.tracked);
    case _ =>
  }

  lemma {:induction false} RunSends(d: Debugger, events: seq<Event>)
    ensures var r := Run(d, events); r.target.replies == d.target.replies && r.target.sent >= d.target.sent
    decreases |events|
  {
    if events != [] {
      NextSends(d, events[0]);
      RunSends(Next(d, events[0]), events[1..]);
    }
  }

  /** In every run without refusals exactly the breakpoints asked for and not given up are tracked. */
  lemma {:induction false} RunTracks(d: Debugger, events: seq<Event>)
    requires forall k | d.target.sent <= k < Run(d, events).target.sent :: d.target.replies(k)
    ensures Run(d, events).tracked == Asked(d.tracked, events)
    decreases |events|
  {
    if events != [] {
      var next := Next(d, events[0]);
      NextSends(d, events[0]);
      RunSends(next, events[1..]);
      assert events[0].AddBreakpoint? || events[0].RemoveBreakpoint? ==> next.target.sent == d.target.sent + 1;
      assert next.tracked == AskedBy(d.tracked, events[0]);
      RunTracks(next, events[1..]);
    }
  }

  /** In every run without refusals that ends with a stop, exactly the breakpoints asked for and not given up
      are planted. */
  lemma StopPlantsAll(d: Debugger, events: seq<Event>)
    requires Consistent(d)
    ensures var r := Stopped(Run(d, events));
            (forall k | 0 <= k < r.target.sent :: r.target.replies(k)) ==>
              r.target.planted == r.tracked == Asked(d.tracked, events)
  {
    RunKeepsConsistent(d, events);
    NextConsistent(Run(d, events), TargetStopped);
    RunSends(d, events);
    NextSends(Run(d, events), TargetStopped);
    if forall k | 0 <= k < Stopped(Run(d, events)).target.sent :: Stopped(Run(d, events)).target.replies(k) {
      RunTracks(d, events);
    }
  }

  // ---------------------------------------------------------------- transparent reads

  /** A read that no command refuses leaves every tracked breakpoint of the range planted and disturbs
      no other. */
  lemma ReadRestores(d: Debugger, address: u32, length: u32)
    requires Consistent(d)
    requires forall k | d.target.sent <= k < Read(d, address, length).target.sent :: d.target.replies(k)
    ensures var r := Read(d, address, length);
            && r.tracked == d.tracked && r.target.memory == d.target.memory
            && r.target.planted == d.target.planted + InRange(d.tracked, address, length)
  {
    var bps := InRange(d.tracked, address, length);
    SuspendEffect(d.target, bps);
    var t := Sent(ReadTarget(d, address, length));
    RestoreEffect(t, bps);
    RestoreOrRefused(t, bps);
  }

  ghost predicate Genuine(r: seq<byte>, t: Target, address: nat)
  {
    forall i | 0 <= i < |r| :: r[i] == t.memory(address + i)
  }

  ghost predicate NoTrapShows(t: Target, address: nat, length: nat)
  {
    forall a | a in t.planted :: address <= a < address + length ==> t.memory(a) == TRAP
  }

  /** What is read is what memory holds exactly when no trap shows. */
  lemma GenuineIff(t: Target, address: nat, length: nat)
    ensures Genuine(ReadBytes(t, address, length), t, address) <==> NoTrapShows(t, address, length)
  {
    var r := ReadBytes(t, address, length);
    if Genuine(r, t, address) {
      forall a | a in t.planted
        ensures address <= a < address + length ==> t.memory(a) == TRAP
      {
        if address <= a < address + length { assert r[a - address] == Observed(t, address + (a - address)); }
      }
    }
    if NoTrapShows(t, address, length) {
      forall i | 0 <= i < length
        ensures r[i] == t.memory(address + i)
      {
        assert r[i] == Observed(t, address + i);
      }
    }
  }

  /** The bytes delivered are the real ones exactly when the range stays below the top of the address
      space or holds no planted breakpoint that shows. */
  lemma ReadIsTransparentIff(d: Debugger, address: u32, length: u32)
    requires Consistent(d)
    requires forall k | d.target.sent <= k < Read(d, address, length).target.sent :: d.target.replies(k)
    ensures var r := Data(d, address, length);
            && r.Some? && |r.value| == length
            && (Genuine(r.value, d.target, address) <==>
                address + length < TWO_32 || NoTrapShows(d.target, address, length))
  {
    var bps := InRange(d.tracked, address, length);
    var t := ReadTarget(d, address, length);
    SuspendEffect(d.target, bps);
    RestoreEffect(Sent(t), bps);
    GenuineIff(t, address, length);
    LiftedWhole(d, address, length);
  }

  /** Below the top of the address space every breakpoint in the range is lifted; a range that reaches it
      lifts none. */
  lemma LiftedWhole(d: Debugger, address: u32, length: u32)
    requires d.target.planted <= d.tracked
    ensures var bps := InRange(d.tracked, address, length);
            if address + length < TWO_32 then NoTrapShows(d.target.(planted := d.target.planted - bps), address, length)
            else bps == {}
  {
    if address + length >= TWO_32 { assert (address + length) % TWO_32 == address + length - TWO_32; }
  }

  /** The range that ends at the top of the address space is computed as empty, so its traps show. */
  lemma TrapShowsAtTop()
    ensures var t := Target({0xFFFF_FFFF}, _ => 0x90, _ => true, 0);
            var d := Debugger(t, {0xFFFF_FFFF}, {}, {});
            Consistent(d) && Data(d, 0xFFFF_FFFF, 1) == Some([TRAP])
  {
    var d := Debugger(Target({0xFFFF_FFFF}, _ => 0x90, _ => true, 0), {0xFFFF_FFFF}, {}, {});
    assert InRange(d.tracked, 0xFFFF_FFFF, 1) == {};
    assert ReadBytes(d.target, 0xFFFF_FFFF, 1) == [TRAP];
  }

  /** A step that no command refuses lifts the breakpoint at the instruction, steps and resumes. */
  lemma StepAccepted(d: Debugger, eip: u32)
    requires forall k | d.target.sent <= k < Step(d, true, Some(eip)).target.sent :: d.target.replies(k)
    ensures var bps := InRange(d.tracked, eip, 1);
            var t1 := Suspend(Prepared(d.target), bps);
            && Step(d, true, Some(eip)) == d.(target := Prepared(t1), lifted := d.lifted + bps)
            && t1.planted == d.target.planted - bps
  {
    var bps := InRange(d.tracked, eip, 1);
    var t := Prepared(d.target);
    var t1 := Suspend(t, bps);
    SuspendEffect(t, bps);
    RestoreEffect(Sent(t1), bps);
    RestoreEffect(Prepared(t1), bps);
  }

  /** A step that no command refuses runs the original instruction, and disturbs no other breakpoint,
      unless the instruction is a planted one on the last address. */
  lemma StepRunsOriginalIff(d: Debugger, eip: u32)
    requires Consistent(d)
    requires forall k | d.target.sent <= k < Step(d, true, Some(eip)).target.sent :: d.target.replies(k)
    ensures var r := Step(d, true, Some(eip));
            && (eip !in r.target.planted <==> eip < 0xFFFF_FFFF || eip !in d.target.planted)
            && r.target.planted - {eip} == d.target.planted - {eip}
            && r.tracked == d.tracked && r.lifted <= d.lifted + {eip}
  {
    StepAccepted(d, eip);
    OnlyOneInRange(d.tracked, eip);
  }

  /** The step itself is refused, or it is accepted and the resume refused; every other command is accepted. */
  ghost predicate StepRefused(d: Debugger, k: nat)
  {
    var n, replies := d.target.sent, d.target.replies;
    && (forall i | n <= i < n + k + 2 :: replies(i))
    && if replies(n + k + 2) then !replies(n + k + 3) && replies(n + k + 4) else replies(n + k + 3)
  }

  lemma StepTurnsBack(d: Debugger, eip: u32, bps: set<u32>) returns (t: Target)
    requires bps == InRange(d.tracked, eip, 1) && |bps| <= 1 && StepRefused(d, |bps|)
    ensures Step(d, true, Some(eip)) == Restored(d, t, bps) && t.planted == d.target.planted - bps
    ensures forall k | t.sent <= k < t.sent + |bps| :: t.replies(k)
  {
    var t1 := Suspend(Prepared(d.target), bps);
    SuspendEffect(Prepared(d.target), bps);
    t := if Accepted(t1) then Prepared(t1) else Sent(t1);
  }

  /** A step that is refused, or whose resume is, leaves everything as it was, except that the breakpoint at
      the instruction is planted again in any case. */
  lemma RefusedStepRestores(d: Debugger, eip: u32)
    requires StepRefused(d, if eip in d.tracked && eip < 0xFFFF_FFFF then 1 else 0)
    ensures var r := Step(d, true, Some(eip));
            && r.lifted == d.lifted && r.lost == d.lost && r.tracked == d.tracked
            && r.target.planted == d.target.planted + (if eip < 0xFFFF_FFFF then {eip} * d.tracked else {})
  {
    var bps := InRange(d.tracked, eip, 1);
    OnlyOneInRange(d.tracked, eip);
    assert bps == if eip < 0xFFFF_FFFF then {eip} * d.tracked else {};
    var t := StepTurnsBack(d, eip, bps);
    Replanted(d, t, bps);
  }

  /** A step that is not even begun touches no breakpoint. */
  lemma StepNotBegun(d: Debugger, active: bool, eip: Option<u32>)
    requires active && eip.Some? ==> !d.target.replies(d.target.sent) || !d.target.replies(d.target.sent + 1)
    ensures var r := Step(d, active, eip); r == d.(target := d.target.(sent := r.target.sent))
  {
  }

  lemma Replanted(d: Debugger, t: Target, bps: set<u32>)
    requires t.planted == d.target.planted - bps
    ensures (forall k | t.sent <= k < t.sent + |bps| :: t.replies(k)) ==>
              && Restored(d, t, bps).target.planted == d.target.planted + bps
              && Restored(d, t, bps) == d.(target := Restored(d, t, bps).target)
  {
    RestoreEffect(t, bps);
    RestoreOrRefused(t, bps);
  }

  /** A step at the last address that runs into the trap. */
  lemma TrapStaysAtTop()
    ensures var t := Target({0xFFFF_FFFF}, _ => 0x90, _ => true, 0);
            var d := Debugger(t, {0xFFFF_FFFF}, {}, {});
            Consistent(d) && 0xFFFF_FFFF in Step(d, true, Some(0xFFFF_FFFF)).target.planted
  {
    StepRunsOriginalIff(Debugger(Target({0xFFFF_FFFF}, _ => 0x90, _ => true, 0), {0xFFFF_FFFF}, {}, {}), 0xFFFF_FFFF);
  }
}
