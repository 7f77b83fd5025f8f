/** The debugger object: every operation on breakpoints and memory, proved against its value-level
    description. */
module XbdmDebugger {
  import opened Common
  import opened Breakpoints
  import opened MemoryMap

  class XBDMDebugger {
    var target: Target
    var breakpoints: set<u32>
    var memoryRegions: seq<MemoryRegion>
    ghost var lifted: set<u32>
    ghost var lost: set<u32>

    ghost function Value(): Debugger
      reads this
    {
      Debugger(target, breakpoints, lifted, lost)
    }

    constructor (t: Target)
      ensures target == t && breakpoints == {} && memoryRegions == [] && lifted == {} && lost == {}
    {
      target, breakpoints, memoryRegions, lifted, lost := t, {}, [], {}, {};
    }

    /** A command without effect on breakpoints. */
    method Command() returns (ok: bool)
      modifies `target
      ensures ok == Accepted(old(target)) && target == Sent(old(target))
    {
      ok := Accepted(target);
      target := Sent(target);
    }

    method SendBreakAddress(address: u32, clear: bool) returns (ok: bool)
      modifies `target
      ensures ok == Accepted(old(target)) && target == BreakAddress(old(target), address, clear)
    {
      ok := Accepted(target);
      target := BreakAddress(target, address, clear);
    }

    method FetchMemoryMap(reported: seq<MemoryRegion>) returns (ok: bool)
      modifies `target, `memoryRegions
      ensures ok == Accepted(old(target)) && target == Sent(old(target))
      ensures ok ==> Sorted(memoryRegions) && multiset(memoryRegions) == multiset(reported)
      ensures !ok ==> memoryRegions == old(memoryRegions)
    {
      ok := Command();
      if ok { memoryRegions := SortRegions(reported); }
    }

    method AddBreakpoint(address: u32) returns (ok: bool)
      modifies `target, `breakpoints
      ensures ok == Accepted(old(target)) && Value() == Add(old(Value()), address)
      ensures ok ==> breakpoints == old(breakpoints) + {address} && target.planted == old(target).planted + {address}
      ensures !ok ==> breakpoints == old(breakpoints) && target.planted == old(target).planted
    {
      ok := SendBreakAddress(address, false);
      if ok { breakpoints := breakpoints + {address}; }
    }

    method RemoveBreakpoint(address: u32) returns (ok: bool)
      modifies `target, `breakpoints
      ensures ok == Accepted(old(target)) && Value() == Remove(old(Value()), address)
      ensures ok ==> breakpoints == old(breakpoints) - {address} && target.planted == old(target).planted - {address}
      ensures !ok ==> breakpoints == old(breakpoints) && target.planted == old(target).planted
    {
      ok := SendBreakAddress(address, true);
      if ok { breakpoints := breakpoints - {address}; }
    }

    method GetActiveBreakpointsInRange(address: u32, length: u32) returns (overlaps: set<u32>)
      ensures overlaps == InRange(breakpoints, address, length)
    {
      overlaps := {};
      var end := (address + length) % TWO_32;
      var rest := breakpoints;
      while rest != {}
        invariant rest <= breakpoints
        invariant overlaps == set a | a in breakpoints - rest && address <= a < end
        decreases rest
      {
        var bp := Least(rest);
        if bp >= address && bp < end { overlaps := overlaps + {bp}; }
        rest := rest - {bp};
      }
    }

    method SuspendBreakpoints(bps: set<u32>)
      modifies `target
      ensures target == Suspend(old(target), bps)
    {
      var rest := bps;
      while rest != {}
        invariant Suspend(target, rest) == Suspend(old(target), bps)
        decreases rest
      {
        var bp := Least(rest);
        var ok := SendBreakAddress(bp, true);
        rest := rest - {bp};
      }
    }

    method RestoreBreakpoints(bps: set<u32>)
      modifies `target, `lost
      ensures target == Restore(old(target), bps)
      ensures lost == old(lost) + Refused(old(target), bps)
    {
      var rest := bps;
      while rest != {}
        invariant Restore(target, rest) == Restore(old(target), bps)
        invariant lost + Refused(target, rest) == old(lost) + Refused(old(target), bps)
        decreases rest
      {
        var bp := Least(rest);
        var ok := SendBreakAddress(bp, false);
        if !ok { lost := lost + {bp}; }
        rest := rest - {bp};
      }
    }

    method GetMemory(address: u32, length: u32, validate: bool) returns (data: Option<seq<byte>>)
      requires validate ==> length > 0
      modifies this
      ensures if validate && !Granted(memoryRegions, address, length, false)
              then data == None && Value() == old(Value())
              else data == Data(old(Value()), address, length) && Value() == Read(old(Value()), address, length)
      ensures memoryRegions == old(memoryRegions)
    {
      if validate {
        var granted := ValidateMemoryAccess(memoryRegions, address, length, false);
        if !granted { return None; }
      }
      var overlaps := GetActiveBreakpointsInRange(address, length);
      SuspendBreakpoints(overlaps);
      data := if Accepted(target) then Some(ReadBytes(target, address, length)) else None;
      var ok := Command();
      RestoreBreakpoints(overlaps);
    }

    /** `eip` is what the active thread's context holds, once fetched. */
    method StepInstruction(active: bool, eip: Option<u32>) returns (ok: bool)
      modifies this
      ensures Value() == Step(old(Value()), active, eip) && memoryRegions == old(memoryRegions)
      ensures ok <==> StepComesOff(old(Value()), active, eip)
    {
      if eip.Some? { StepComesOffIff(Value(), eip.value); }
      if !active { return false; }
      ok := Command();
      if !ok { return false; }
      ok := Command();
      if !ok || eip.None? { return false; }
      var bps := GetActiveBreakpointsInRange(eip.value, 1);
      SuspendBreakpoints(bps);
      ok := Command();
      if ok { ok := Command(); }
      if ok {
        lifted := lifted + bps;
      } else {
        RestoreBreakpoints(bps);
      }
    }

    method OnStopped()
      modifies `target, `lifted, `lost
      ensures Value() == Stopped(old(Value()))
    {
      lifted, lost := {}, {};
      RestoreBreakpoints(breakpoints);
    }

    /** The notification that the target goes down takes the planted breakpoints with it. */
    method OnRebooting()
      modifies `target, `breakpoints, `lifted, `lost
      ensures Value() == Rebooted(old(Value()))
    {
      target := target.(planted := {});
      breakpoints, lifted, lost := {}, {}, {};
    }
  }
}
