/**
 The steps of one thread or of the controller with nothing in between: the step system does what the
 sequential code is proved to do, start, stop and the INT3 handler alike.
 */
module Undisturbed {
  import opened Words
  import opened Counting
  import opened BpTable
  import opened Breakpoints
  import opened Detector
  import opened Protocol
  import opened ProtocolRuns

  lemma TwoSteps<Cpu(!new), Data(!new)>(
    m: Machine<Cpu, Data>, s: State<Cpu, Data>, a: Action, s1: State<Cpu, Data>, b: Action)
    requires s.bp.Shaped() && Enabled(m, s, a) && s1 == Next(m, s, a)
    requires s1.bp.Shaped() && Enabled(m, s1, b)
    ensures IsRun(m, s, [a, b]) && Final(m, s, [a, b]) == Next(m, s1, b)
  {
    OneStep(m, s, a);
    OneStep(m, s1, b);
    Append(m, s, [a], [b]);
    assert [a] + [b] == [a, b];
  }

  // ---- start -------------------------------------------------------------------------------------

  /** bp_add(i) of start: exactly entry `i` is planted if it is listed and free, by a call of this epoch; or nothing changes. */
  lemma SeedRun<Cpu(!new), Data(!new)>(m: Machine<Cpu, Data>, s: State<Cpu, Data>, i: nat)
    requires s.bp.Shaped() && s.ctl.Seeding? && !s.bp.stopping
    ensures IsRun(m, s, [SeedRead, SeedAdd(i)])
    ensures Final(m, s, [SeedRead, SeedAdd(i)]) ==
              if i < s.bp.count && s.bp.state[i] != Using
              then s.(bp := Plant(s.bp, i), calls := s.calls + 1, setBy := s.setBy[i := AddCall(s.calls, s.epoch, s.epoch)])
              else s
  {
    TwoSteps(m, s, SeedRead, Next(m, s, SeedRead), SeedAdd(i));
  }

  /** `after` is `before` with another table, and the history of the calls that made it. */
  ghost predicate OnlyTable<Cpu, Data>(before: State<Cpu, Data>, after: State<Cpu, Data>) {
    after == before.(bp := after.bp, calls := after.calls, setBy := after.setBy)
  }

  lemma OneSeed<Cpu(!new), Data(!new)>(m: Machine<Cpu, Data>, s: State<Cpu, Data>, i: nat) returns (acts: seq<Action>)
    requires s.bp.Shaped() && s.ctl.Seeding? && !s.bp.stopping
    ensures IsRun(m, s, acts) && OnlyTable(s, Final(m, s, acts))
    ensures Final(m, s, acts).bp == if i < s.bp.count && s.bp.state[i] != Using then Plant(s.bp, i) else s.bp
  {
    SeedRun(m, s, i);
    acts := [SeedRead, SeedAdd(i)];
  }

  lemma StrideNext(t: Table, next: Table, stride: nat, i: nat)
    requires t.Shaped() && stride > 0 && i < t.count
    requires next == if t.state[i] != Using then Plant(t, i) else t
    ensures next.Shaped() && next.count == t.count && StrideFrom(t, stride, i) == StrideFrom(next, stride, i + stride)
  {
  }

  /** The strided loop from entry `i` on. */
  lemma {:induction false} StrideRun<Cpu(!new), Data(!new)>(m: Machine<Cpu, Data>, s: State<Cpu, Data>, stride: nat, i: nat)
    returns (acts: seq<Action>)
    requires s.bp.Shaped() && s.ctl.Seeding? && !s.bp.stopping && stride > 0
    ensures IsRun(m, s, acts) && OnlyTable(s, Final(m, s, acts)) && Final(m, s, acts).bp == StrideFrom(s.bp, stride, i)
    decreases s.bp.count - i
  {
    if i >= s.bp.count {
      acts := [];
    } else {
      var first := OneSeed(m, s, i);
      StrideNext(s.bp, Final(m, s, first).bp, stride, i);
      var rest := StrideRun(m, Final(m, s, first), stride, i + stride);
      Append(m, s, first, rest);
      acts := first + rest;
    }
  }

  /** `n` calls of bp_add(-1) from `before` can have made this table. */
  ghost predicate After(before: Table, n: nat, after: Table)
    requires before.Shaped()
  {
    after.Shaped() && after.count == before.count && after.stopping == before.stopping
    && PlantsTo(before, after, Min(n, before.count))
  }

  lemma OneMoreCall(before: Table, n: nat, mid: Table, after: Table)
    requires before.Shaped() && UsageCount(before) == 0 && After(before, n, mid) && PlantedUnlessFull(mid, after)
    ensures After(before, n + 1, after)
  {
    RandomStep(before, mid, after, n);
    PlantsCount(before, after, Min(n + 1, before.count));
  }

  /** `n` calls of bp_add(-1), each with any choice the full table leaves. */
  lemma {:induction false} RandomRun<Cpu(!new), Data(!new)>(m: Machine<Cpu, Data>, s: State<Cpu, Data>, n: nat)
    returns (acts: seq<Action>)
    requires s.bp.Shaped() && s.ctl.Seeding? && !s.bp.stopping && UsageCount(s.bp) == 0
    ensures IsRun(m, s, acts) && OnlyTable(s, Final(m, s, acts)) && After(s.bp, n, Final(m, s, acts).bp)
    decreases n
  {
    if n == 0 {
      acts := [];
    } else {
      var first := RandomRun(m, s, n - 1);
      var mid := Final(m, s, first);
      var last := AnySeed(m, mid);
      OneMoreCall(s.bp, n - 1, mid.bp, Final(m, mid, last).bp);
      Append(m, s, first, last);
      acts := first + last;
    }
  }

  lemma AnySeed<Cpu(!new), Data(!new)>(m: Machine<Cpu, Data>, s: State<Cpu, Data>) returns (acts: seq<Action>)
    requires s.bp.Shaped() && s.ctl.Seeding? && !s.bp.stopping
    ensures IsRun(m, s, acts) && OnlyTable(s, Final(m, s, acts)) && Final(m, s, acts).bp.Shaped()
    ensures PlantedUnlessFull(s.bp, Final(m, s, acts).bp)
  {
    TallyBounds(s.bp.state[..s.bp.count], IsUsing);
    if UsageCount(s.bp) < s.bp.count {
      var i: nat :| i < s.bp.count && s.bp.state[..s.bp.count][i] != Using;
      acts := OneSeed(m, s, i);
    } else {
      acts := OneSeed(m, s, s.bp.count);
    }
  }

  /** The seeding loops of start, by the value of i_param. */
  lemma SeedingRun<Cpu(!new), Data(!new)>(m: Machine<Cpu, Data>, s: State<Cpu, Data>, param: int) returns (acts: seq<Action>)
    requires s.bp.Shaped() && s.ctl.Seeding? && !s.bp.stopping && NoneInUse(s.bp)
    ensures IsRun(m, s, acts) && OnlyTable(s, Final(m, s, acts)) && SeededBy(s.bp, Final(m, s, acts).bp, param)
  {
    if param == -1 {
      acts := OneSeed(m, s, 0);
    } else if -65536 <= param <= -2 {
      acts := StrideRun(m, s, -param, 0);
    } else {
      UnplantedCount(s.bp);
      acts := RandomRun(m, s, Max(param, 0));
    }
  }

  /**
   start in the step system: for every good list and every i_param there is a run from bp_init to the
   end of start that leaves in use exactly the entries the parameter asks for.
   */
  lemma StartRun<Cpu(!new), Data(!new)>(m: Machine<Cpu, Data>, s: State<Cpu, Data>, list: seq<nat>, param: int)
    returns (acts: seq<Action>)
    requires TextOk(s.bp, m.orig) && NoneInUse(s.bp) && Enabled(m, s, InitBegin(list))
    ensures IsRun(m, s, acts)
    ensures var f := Final(m, s, acts);
            && OnlyTable(s.(ctl := Active), f)
            && SeededBy(InitTable(s.bp, list), f.bp, param) && Seeded(f.bp, list, m.orig) && SeedingMet(f.bp, param)
  {
    var init := InitReached(m, s, list);
    var seeding := Final(m, s, init);
    var seed := SeedingRun(m, seeding, param);
    var seeded := Final(m, seeding, seed);
    SeedingMeans(InitTable(s.bp, list), seeded.bp, param, list, m.orig);
    var finish := Finished(m, seeded);
    Append(m, seeding, seed, finish);
    Append(m, s, init, seed + finish);
    acts := init + (seed + finish);
  }

  lemma InitReached<Cpu(!new), Data(!new)>(m: Machine<Cpu, Data>, s: State<Cpu, Data>, list: seq<nat>) returns (acts: seq<Action>)
    requires TextOk(s.bp, m.orig) && NoneInUse(s.bp) && Enabled(m, s, InitBegin(list))
    ensures IsRun(m, s, acts) && Final(m, s, acts) == s.(bp := InitTable(s.bp, list), ctl := Seeding)
    ensures Seeded(InitTable(s.bp, list), list, m.orig) && NoneInUse(InitTable(s.bp, list))
  {
    InitRun(m, s, list);
    NothingPlanted(s.bp, m.orig);
    InitSeeds(s.bp, list, m.orig);
    acts := [InitBegin(list)] + InitActions(|list|);
  }

  lemma Finished<Cpu(!new), Data(!new)>(m: Machine<Cpu, Data>, s: State<Cpu, Data>) returns (acts: seq<Action>)
    requires s.bp.Shaped() && s.ctl.Seeding?
    ensures IsRun(m, s, acts) && Final(m, s, acts) == s.(ctl := Active)
  {
    OneStep(m, s, FinishStart);
    acts := [FinishStart];
  }

  // ---- stop --------------------------------------------------------------------------------------

  /** stop with nobody inside: the effect of bp_clean, one epoch on. */
  lemma StopRun<Cpu(!new), Data(!new)>(m: Machine<Cpu, Data>, s: State<Cpu, Data>)
    requires s.bp.Shaped() && s.ctl.Active? && s.bp.trapCount == 0
    ensures IsRun(m, s, [CleanLocked, CleanWait])
    ensures Final(m, s, [CleanLocked, CleanWait]) == s.(bp := CleanFrom(s.bp, 0), ctl := Stopped, epoch := s.epoch + 1)
  {
    TwoSteps(m, s, CleanLocked, Next(m, s, CleanLocked), CleanWait);
  }

  // ---- The handler -------------------------------------------------------------------------------

  /** The steps of int3_drddr for a trap at `ip - 1`. */
  ghost function HandlerActions(bp: Table, ip: nat, t: nat): seq<Action>
    requires bp.Shaped() && ip > 0
  {
    if !bp.Listed(ip - 1) then [Check(t)]
    else if !RemoveBreakpoint(bp, ip - 1).1 then [Check(t), Action.Remove(t)]
    else [Check(t), Action.Remove(t), Inc(t)]
  }

  /** How the thread is left. */
  function ExitOf<Cpu>(listed: bool, th: Thread<Cpu>): TrapExit {
    if !listed then OldHandler else if th.pc.Counted? then Deferred(th.ip) else Resume(th.ip)
  }

  /**
   int3_drddr in the step system, each exit included: the table is as the sequential handler is proved
   to leave it, the thread is back on its instruction or counted, or through the old handler.
   */
  lemma HandlerRun<Cpu(!new), Data(!new)>(m: Machine<Cpu, Data>, s: State<Cpu, Data>, t: nat)
    requires s.bp.Shaped() && t < |s.threads| && s.threads[t].pc.Trapped? && s.threads[t].ip > 0
    ensures IsRun(m, s, HandlerActions(s.bp, s.threads[t].ip, t))
    ensures var th, f := s.threads[t], Final(m, s, HandlerActions(s.bp, s.threads[t].ip, t));
            && |f.threads| == |s.threads| && f.threads == s.threads[t := f.threads[t]]
            && f == s.(bp := f.bp, threads := f.threads, data := f.data)
            && HandlerEffect(s.bp, th.ip, ExitOf(s.bp.Listed(th.ip - 1), f.threads[t]), f.bp)
            && if s.bp.Listed(th.ip - 1)
               then f.data == s.data && f.threads[t].cpu == th.cpu && (f.threads[t].pc.Running? || f.threads[t].pc.Counted?)
               else var e := m.oldInt3(th.ip, th.cpu, s.data);
                    f.threads[t] == Thread(Running, e.ip, e.cpu) && f.data == e.data
  {
    var ip := s.threads[t].ip;
    if !s.bp.Listed(ip - 1) {
      OneStep(m, s, Check(t));
    } else if !RemoveBreakpoint(s.bp, ip - 1).1 {
      LostRun(m, s, t);
    } else {
      TakenRun(m, s, t);
    }
  }

  /** Somebody else removed the breakpoint. */
  lemma LostRun<Cpu(!new), Data(!new)>(m: Machine<Cpu, Data>, s: State<Cpu, Data>, t: nat)
    requires s.bp.Shaped() && t < |s.threads| && s.threads[t].pc.Trapped? && s.threads[t].ip > 0
    requires s.bp.Listed(s.threads[t].ip - 1) && !RemoveBreakpoint(s.bp, s.threads[t].ip - 1).1
    ensures IsRun(m, s, [Check(t), Action.Remove(t)])
    ensures Final(m, s, [Check(t), Action.Remove(t)]) ==
              s.(threads := s.threads[t := s.threads[t].(pc := Running, ip := s.threads[t].ip - 1)])
  {
    var s1 := Next(m, s, Check(t));
    TwoSteps(m, s, Check(t), s1, Action.Remove(t));
    assert Next(m, s1, Action.Remove(t)).threads == s.threads[t := s.threads[t].(pc := Running, ip := s.threads[t].ip - 1)];
  }

  /** It is removed here; the activation is counted unless stopping. */
  lemma TakenRun<Cpu(!new), Data(!new)>(m: Machine<Cpu, Data>, s: State<Cpu, Data>, t: nat)
    requires s.bp.Shaped() && t < |s.threads| && s.threads[t].pc.Trapped? && s.threads[t].ip > 0
    requires s.bp.Listed(s.threads[t].ip - 1) && RemoveBreakpoint(s.bp, s.threads[t].ip - 1).1
    ensures var th, r := s.threads[t], RemoveBreakpoint(s.bp, s.threads[t].ip - 1).0;
            && IsRun(m, s, [Check(t), Action.Remove(t), Inc(t)])
            && Final(m, s, [Check(t), Action.Remove(t), Inc(t)]) ==
                 s.(threads := s.threads[t := th.(pc := if s.bp.stopping then Running else Counted, ip := th.ip - 1)],
                    bp := if s.bp.stopping then r else r.(trapCount := s.bp.trapCount + 1))
  {
    var th := s.threads[t];
    var s1 := Next(m, s, Check(t));
    var s2 := Next(m, s1, Action.Remove(t));
    ThreeSteps(m, s, Check(t), s1, Action.Remove(t), s2, Inc(t));
    assert Next(m, s2, Inc(t)).threads == s.threads[t := th.(pc := if s.bp.stopping then Running else Counted, ip := th.ip - 1)];
  }

  /** The steps of int3_real_work, its bp_add(-1) taking `choice`. */
  ghost function WorkActions(bp: Table, t: nat, choice: nat): seq<Action> {
    if bp.stopping then [Watch(t), ReadStopping(t), Dec(t)]
    else [Watch(t), ReadStopping(t)] + [ReAdd(t, choice), Dec(t)]
  }

  /**
   int3_real_work in the step system, for any free choice: the effect of the sequential code, on
   exactly that entry and by a call of this epoch; the thread is back on its instruction.
   */
  lemma WorkRun<Cpu(!new), Data(!new)>(m: Machine<Cpu, Data>, s: State<Cpu, Data>, t: nat, choice: nat)
    requires s.bp.Shaped() && t < |s.threads| && s.threads[t].pc.Counted?
    requires UsageCount(s.bp) == s.bp.count || (choice < s.bp.count && s.bp.state[choice] != Using)
    ensures IsRun(m, s, WorkActions(s.bp, t, choice))
    ensures var f := Final(m, s, WorkActions(s.bp, t, choice));
            && WorkEffect(s.bp, f.bp)
            && f.threads == s.threads[t := s.threads[t].(pc := Running)]
            && if s.bp.stopping || UsageCount(s.bp) == s.bp.count
               then f == s.(threads := f.threads, bp := s.bp.(trapCount := s.bp.trapCount - 1))
               else f == s.(threads := f.threads, bp := Plant(s.bp, choice).(trapCount := s.bp.trapCount - 1),
                            calls := s.calls + 1, setBy := s.setBy[choice := AddCall(s.calls, s.epoch, s.epoch)])
  {
    var s1 := Next(m, s, Watch(t));
    var s2 := Next(m, s1, ReadStopping(t));
    if s.bp.stopping {
      ThreeSteps(m, s, Watch(t), s1, ReadStopping(t), s2, Dec(t));
    } else {
      TwoSteps(m, s, Watch(t), s1, ReadStopping(t));
      TwoSteps(m, s2, ReAdd(t, choice), Next(m, s2, ReAdd(t, choice)), Dec(t));
      Append(m, s, [Watch(t), ReadStopping(t)], [ReAdd(t, choice), Dec(t)]);
    }
    UsageBound(s.bp);
  }

  // ---- No step is missing ------------------------------------------------------------------------

  /** Whatever a thread is at, its next step can be taken at once, with any free choice. */
  lemma ThreadMoves<Cpu(!new), Data(!new)>(m: Machine<Cpu, Data>, s: State<Cpu, Data>, t: nat)
    requires s.bp.Shaped() && t < |s.threads|
    ensures var th := s.threads[t];
            && (th.pc.Running? && th.ip < |s.bp.text| ==>
                  if s.bp.text[th.ip] == INT3 then Enabled(m, s, Trap(t)) else Enabled(m, s, Execute(t)))
            && (th.pc.Trapped? && th.ip > 0 ==> Enabled(m, s, Check(t)))
            && (th.pc.Checked? ==> Enabled(m, s, Action.Remove(t)))
            && (th.pc.Removed? ==> Enabled(m, s, Inc(t)))
            && (th.pc.Counted? ==> Enabled(m, s, Watch(t)))
            && (th.pc.Watching? ==> Enabled(m, s, ReadStopping(t)))
            && (th.pc.Added? ==> Enabled(m, s, Dec(t)))
            && (th.pc.Adding? ==> forall i: nat :: i < s.bp.count && s.bp.state[i] != Using ==> Enabled(m, s, ReAdd(t, i)))
            && (th.pc.Adding? && UsageCount(s.bp) == s.bp.count ==> forall i: nat :: Enabled(m, s, ReAdd(t, i)))
  {
  }

  lemma ControllerMoves<Cpu(!new), Data(!new)>(m: Machine<Cpu, Data>, s: State<Cpu, Data>)
    requires Quiet(s)
    ensures s.ctl.Stopped? ==> forall list :: |list| <= |s.bp.addr| && GoodList(list, m.orig) ==> Enabled(m, s, InitBegin(list))
    ensures s.ctl.Initing? ==> if s.ctl.next < |s.ctl.list| then Enabled(m, s, InitEntry) else Enabled(m, s, ResetCount)
    ensures s.ctl.Unstopping? ==> Enabled(m, s, ClearStopping)
    ensures s.ctl.Seeding? ==> Enabled(m, s, SeedRead) && Enabled(m, s, FinishStart)
    ensures s.ctl.SeedAdding? ==> forall i: nat :: Enabled(m, s, SeedAdd(i))
    ensures s.ctl.Active? ==> Enabled(m, s, CleanLocked)
    ensures s.ctl.Waiting? && s.bp.trapCount == 0 ==> Enabled(m, s, CleanWait)
  {
  }
}
