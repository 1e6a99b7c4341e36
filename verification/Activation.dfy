/** One activation of the INT3 handler from trap to resumption, undisturbed: drddr/drddr-main.c:145-269. */
module Activation {
  import opened Words
  import opened BpTable
  import opened Breakpoints
  import opened Detector
  import Addressing
  import DebugRegisters
  import opened Watchpoints
  import opened Race

  /** Removing a breakpoint keeps the session, with one entry fewer in use and the original byte back. */
  lemma RemovedOne(t: Table, list: seq<nat>, orig: seq<Byte>, a: nat)
    requires Seeded(t, list, orig) && RemoveBreakpoint(t, a).1
    ensures var r := RemoveBreakpoint(t, a).0;
            && Seeded(r, list, orig) && UsageCount(r) == UsageCount(t) - 1
            && a < |r.text| && r.text[a] == orig[a] && t.Listed(a)
  {
    var i := FindUsing(t, a, 0);
    RestoreKeepsText(t, orig, i);
    UsageUpdate(t, Restore(t, i), i);
  }

  /** Planting a free entry, with the activation counted or not. */
  lemma PlantedBack(t: Table, after: Table, list: seq<nat>, orig: seq<Byte>)
    requires Seeded(t, list, orig) && UsageCount(t) < t.count && PlantedUnlessFull(t, after)
    ensures Seeded(after, list, orig) && UsageCount(after) == UsageCount(t) + 1
  {
    var i: nat :| i < t.count && t.state[i] != Using && after == Plant(t, i);
    PlantKeepsSeeded(t, list, orig, i);
  }

  lemma Recounted(t: Table, list: seq<nat>, orig: seq<Byte>, n: int)
    requires Seeded(t, list, orig)
    ensures Seeded(t.(trapCount := n), list, orig) && UsageCount(t.(trapCount := n)) == UsageCount(t)
  {
    CountersKeepText(t, orig, n, t.stopping);
    assert t.(trapCount := n) == t.(trapCount := n, stopping := t.stopping);
  }

  /** Removing, counting in, planting and counting out, together. */
  lemma WholeActivation(t: Table, inside: Table, after: Table, list: seq<nat>, orig: seq<Byte>, a: nat)
    requires Seeded(t, list, orig) && RemoveBreakpoint(t, a).1
    requires inside == RemoveBreakpoint(t, a).0.(trapCount := t.trapCount + 1)
    requires after.trapCount == t.trapCount && PlantedUnlessFull(inside, after.(trapCount := inside.trapCount))
    ensures Seeded(after, list, orig) && UsageCount(after) == UsageCount(t)
  {
    UsageBound(t);
    RemovedOne(t, list, orig, a);
    Recounted(RemoveBreakpoint(t, a).0, list, orig, inside.trapCount);
    PlantedBack(inside, after.(trapCount := inside.trapCount), list, orig);
    Recounted(after.(trapCount := inside.trapCount), list, orig, t.trapCount);
    assert after == after.(trapCount := inside.trapCount).(trapCount := t.trapCount);
  }

  /** int3_real_work, on whatever the text holds at the address. */
  method DeferredWork(bp: BreakpointList, wl: WatchList, at: nat, regs: Addressing.Registers, random: nat -> nat)
    requires bp.Valid() && wl.Valid() && Separate(bp, wl) && at < bp.text.Length && at < TWO64
    requires bp.count > 0 ==> Fair(random, bp.count)
    modifies bp`trapCount, bp.state, bp.backup, bp.text
    modifies wl, wl.usage, wl.addr, wl.length, wl.iswrite, wl.num, wl.cpus
    ensures bp.Valid() && bp.trapCount == old(bp.trapCount) - 1
    ensures var planted := bp.View().(trapCount := old(bp.trapCount));
            if bp.stopping then planted == old(bp.View()) else PlantedUnlessFull(old(bp.View()), planted)
    ensures wl.Valid() && (DebugRegisters.SameWatches(wl.View().slots, old(wl.View()).slots) <==>
                             Restores(old(bp.View()).text[at..], regs, at, old(wl.View())))
  {
    assert bp.text[at..] == bp.text[..][at..];
    RealWork(wl, bp.text[at..], at, regs);
    EndRealWork(bp, random, 0);
  }

  /** What the handler finds at a planted breakpoint. */
  lemma Entered(t: Table, list: seq<nat>, orig: seq<Byte>, a: nat)
    requires Seeded(t, list, orig) && RemoveBreakpoint(t, a).1
    ensures t.Listed(a) && a < |t.text| && !t.stopping && RemoveBreakpoint(t, a).0.Shaped()
  {
    RemovedOne(t, list, orig, a);
  }

  /** int3_drddr at a planted breakpoint. */
  method EnterTrap(bp: BreakpointList, ghost wl: WatchList, ip: nat, ghost list: seq<nat>, ghost orig: seq<Byte>)
    returns (exit: TrapExit)
    requires bp.Valid() && wl.Valid() && Separate(bp, wl) && Seeded(bp.View(), list, orig)
    requires ip > 0 && RemoveBreakpoint(bp.View(), ip - 1).1
    modifies bp`trapCount, bp.state, bp.text
    ensures bp.Valid() && exit == Deferred(ip - 1) && ip - 1 < bp.text.Length
    ensures bp.View() == RemoveBreakpoint(old(bp.View()), ip - 1).0.(trapCount := old(bp.trapCount) + 1)
    ensures bp.View().text == RemoveBreakpoint(old(bp.View()), ip - 1).0.text && !bp.stopping
    ensures wl.Valid() && wl.View() == old(wl.View())
  {
    Entered(bp.View(), list, orig, ip - 1);
    exit := Int3(bp, ip);
  }

  /** int3_real_work after the trap at `at` was entered from table `t`. */
  method FinishTrap(bp: BreakpointList, wl: WatchList, at: nat, regs: Addressing.Registers, random: nat -> nat,
                    ghost t: Table, ghost list: seq<nat>, ghost orig: seq<Byte>)
    requires bp.Valid() && wl.Valid() && Separate(bp, wl) && at < bp.text.Length && at < TWO64
    requires Seeded(t, list, orig) && RemoveBreakpoint(t, at).1 && Fair(random, t.count)
    requires bp.View() == RemoveBreakpoint(t, at).0.(trapCount := t.trapCount + 1)
    modifies bp`trapCount, bp.state, bp.backup, bp.text
    modifies wl, wl.usage, wl.addr, wl.length, wl.iswrite, wl.num, wl.cpus
    ensures bp.Valid() && Seeded(bp.View(), list, orig)
    ensures UsageCount(bp.View()) == UsageCount(t) && bp.trapCount == t.trapCount
    ensures wl.Valid() && (DebugRegisters.SameWatches(wl.View().slots, old(wl.View()).slots) <==>
                             Restores(old(bp.View()).text[at..], regs, at, old(wl.View())))
  {
    ghost var inside := bp.View();
    assert !inside.stopping by { Entered(t, list, orig, at); }
    DeferredWork(bp, wl, at, regs, random);
    WholeActivation(t, inside, bp.View(), list, orig, at);
  }

  /**
   A trap on a planted breakpoint: the thread resumes at the instruction, as many breakpoints
   are planted as before, nobody is left inside the module, and every watch is as it was exactly
   when the handler's number can disarm its own.
   */
  method HandleTrap(bp: BreakpointList, wl: WatchList, ip: nat, regs: Addressing.Registers,
                    random: nat -> nat, ghost list: seq<nat>, ghost orig: seq<Byte>)
    returns (exit: TrapExit)
    requires bp.Valid() && wl.Valid() && Separate(bp, wl) && Seeded(bp.View(), list, orig)
    requires 0 < ip <= TWO64 && RemoveBreakpoint(bp.View(), ip - 1).1
    requires Fair(random, bp.count)
    modifies bp`trapCount, bp.state, bp.backup, bp.text
    modifies wl, wl.usage, wl.addr, wl.length, wl.iswrite, wl.num, wl.cpus
    ensures exit == Deferred(ip - 1)
    ensures bp.Valid() && Seeded(bp.View(), list, orig)
    ensures UsageCount(bp.View()) == UsageCount(old(bp.View())) && bp.trapCount == old(bp.trapCount)
    ensures wl.Valid() && (DebugRegisters.SameWatches(wl.View().slots, old(wl.View()).slots) <==>
              Restores(RemoveBreakpoint(old(bp.View()), ip - 1).0.text[ip - 1..], regs, ip - 1, old(wl.View())))
  {
    ghost var t := bp.View();
    exit := EnterTrap(bp, wl, ip, list, orig);
    FinishTrap(bp, wl, ip - 1, regs, random, t, list, orig);
  }
}
