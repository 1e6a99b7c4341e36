/**
 Breakpoints planted and breakpoints held by activations: while the detector is active their sum never
 grows, and handlers can always re-add exactly when it does not exceed the list.
 */
module Population {
  import opened Words
  import opened Counting
  import opened BpTable
  import opened Protocol
  import opened ProtocolRuns

  /** Removed a breakpoint and has not re-added one. */
  predicate IsHolding<Cpu>(th: Thread<Cpu>) {
    th.pc.Removed? || th.pc.Counted? || th.pc.Watching? || th.pc.Adding?
  }

  function Population<Cpu, Data>(s: State<Cpu, Data>): nat
    requires s.bp.Shaped()
  {
    UsageCount(s.bp) + Tally(s.threads, IsHolding)
  }

  /** The re-adding of an activation that finds every entry in use. */
  ghost predicate FailsToAdd<Cpu, Data>(s: State<Cpu, Data>, a: Action)
    requires s.bp.Shaped()
  {
    a.ReAdd? && Full(s.bp)
  }

  lemma StepUsage<Cpu(!new), Data(!new)>(m: Machine<Cpu, Data>, s: State<Cpu, Data>, a: Action)
    requires Quiet(s) && IsThreadAction(a) && Enabled(m, s, a)
    ensures Next(m, s, a).bp.Shaped()
    ensures UsageCount(Next(m, s, a).bp) == UsageCount(s.bp)
              - (if a.Remove? && FindUsing(s.bp, s.threads[a.t].ip, 0) < s.bp.count then 1 else 0)
              + (if a.ReAdd? && !Full(s.bp) then 1 else 0)
  {
    var s' := Next(m, s, a);
    if a.Remove? {
      var i := FindUsing(s.bp, s.threads[a.t].ip, 0);
      if i < s.bp.count { UsageUpdate(s.bp, s'.bp, i); }
    } else if a.ReAdd? && !Full(s.bp) {
      UsageUpdate(s.bp, s'.bp, a.choice);
    } else {
      assert s'.bp.state == s.bp.state;
    }
  }

  lemma StepHolding<Cpu(!new), Data(!new)>(m: Machine<Cpu, Data>, s: State<Cpu, Data>, a: Action)
    requires Quiet(s) && IsThreadAction(a) && Enabled(m, s, a)
    ensures var s' := Next(m, s, a);
            && |s'.threads| == |s.threads|
            && Tally(s'.threads, IsHolding) == Tally(s.threads, IsHolding)
                 - (if IsHolding(s.threads[a.t]) then 1 else 0) + (if IsHolding(s'.threads[a.t]) then 1 else 0)
  {
    var s' := Next(m, s, a);
    TallyUpdate(s.threads, IsHolding, a.t, s'.threads[a.t]);
    assert s'.threads == s.threads[a.t := s'.threads[a.t]];
  }

  /**
   While the detector is active the population changes only when a re-add fails, and a
   re-add fails only when the population exceeds the number of entries.
   */
  lemma {:induction false} StepPopulation<Cpu(!new), Data(!new)>(m: Machine<Cpu, Data>, s: State<Cpu, Data>, a: Action)
    requires Quiet(s) && |s.bp.text| == |m.orig| && s.ctl.Active? && Enabled(m, s, a) && !a.CleanLocked?
    ensures Next(m, s, a).bp.Shaped() && Next(m, s, a).ctl.Active? && Next(m, s, a).bp.count == s.bp.count
    ensures Population(Next(m, s, a)) == Population(s) - (if FailsToAdd(s, a) then 1 else 0)
    ensures FailsToAdd(s, a) ==> Population(s) > s.bp.count
  {
    StepUsage(m, s, a);
    StepHolding(m, s, a);
    TallyBounds(s.threads, IsHolding);
  }

  ghost predicate NoFailedAdd<Cpu(!new), Data(!new)>(m: Machine<Cpu, Data>, s: State<Cpu, Data>, acts: seq<Action>)
    requires IsRun(m, s, acts)
    decreases |acts|
  {
    acts == [] || (!FailsToAdd(s, acts[0]) && NoFailedAdd(m, Next(m, s, acts[0]), acts[1..]))
  }

  /**
   From the end of start until stop begins the population never grows; if it starts at or
   below the number of entries it never changes and no handler's bp_add(-1) fails.
   */
  lemma {:induction false} PopulationConserved<Cpu(!new), Data(!new)>(
    m: Machine<Cpu, Data>, s: State<Cpu, Data>, acts: seq<Action>)
    requires Quiet(s) && |s.bp.text| == |m.orig| && s.ctl.Active?
    requires IsRun(m, s, acts) && CleanLocked !in acts
    ensures Final(m, s, acts).bp.Shaped() && Population(Final(m, s, acts)) <= Population(s)
    ensures Population(s) <= s.bp.count ==>
              Population(Final(m, s, acts)) == Population(s) && NoFailedAdd(m, s, acts)
    decreases |acts|
  {
    if acts != [] {
      assert acts[0] in acts;
      StepQuiet(m, s, acts[0]);
      StepPopulation(m, s, acts[0]);
      PopulationConserved(m, Next(m, s, acts[0]), acts[1..]);
    }
  }

  // ---- The converse --------------------------------------------------------------------------

  /** Active and consistent, with more breakpoints planted or held than entries. */
  ghost predicate Overfull<Cpu(!new), Data(!new)>(m: Machine<Cpu, Data>, s: State<Cpu, Data>) {
    Quiet(s) && |s.bp.text| == |m.orig| && s.ctl.Active? && Population(s) > s.bp.count
  }

  function StepsToAdd(pc: Pc): nat {
    if pc.Removed? then 3 else if pc.Counted? then 2 else if pc.Watching? then 1 else 0
  }

  /** One step of a holding activation towards its bp_add. */
  lemma StepToAdd<Cpu(!new), Data(!new)>(m: Machine<Cpu, Data>, s: State<Cpu, Data>, t: nat) returns (a: Action)
    requires Overfull(m, s) && t < |s.threads| && IsHolding(s.threads[t]) && !s.threads[t].pc.Adding?
    ensures Enabled(m, s, a) && !a.CleanLocked? && IsThreadAction(a) && !a.ReAdd? && a.t == t
    ensures var s' := Next(m, s, a);
            && Overfull(m, s') && s'.bp.count == s.bp.count && UsageCount(s'.bp) == UsageCount(s.bp)
            && t < |s'.threads| && IsHolding(s'.threads[t])
            && StepsToAdd(s'.threads[t].pc) < StepsToAdd(s.threads[t].pc)
  {
    a := if s.threads[t].pc.Removed? then Inc(t) else if s.threads[t].pc.Counted? then Watch(t) else ReadStopping(t);
    StepQuiet(m, s, a);
    StepPopulation(m, s, a);
    StepUsage(m, s, a);
  }

  /** A holding activation can get into its bp_add with nothing planted or removed meanwhile. */
  lemma {:induction false} Approach<Cpu(!new), Data(!new)>(m: Machine<Cpu, Data>, s: State<Cpu, Data>, t: nat)
    returns (acts: seq<Action>)
    requires Overfull(m, s) && t < |s.threads| && IsHolding(s.threads[t])
    ensures IsRun(m, s, acts) && CleanLocked !in acts
    ensures var f := Final(m, s, acts);
            && Overfull(m, f) && f.bp.count == s.bp.count && UsageCount(f.bp) == UsageCount(s.bp)
            && t < |f.threads| && f.threads[t].pc.Adding?
    decreases StepsToAdd(s.threads[t].pc)
  {
    if s.threads[t].pc.Adding? {
      acts := [];
    } else {
      var a := StepToAdd(m, s, t);
      var rest := Approach(m, Next(m, s, a), t);
      OneStep(m, s, a);
      Append(m, s, [a], rest);
      acts := [a] + rest;
    }
  }

  lemma {:induction false} FailsLater<Cpu(!new), Data(!new)>(
    m: Machine<Cpu, Data>, s: State<Cpu, Data>, first: seq<Action>, second: seq<Action>)
    requires IsRun(m, s, first) && IsRun(m, Final(m, s, first), second)
    requires !NoFailedAdd(m, Final(m, s, first), second)
    ensures IsRun(m, s, first + second) && !NoFailedAdd(m, s, first + second)
    decreases |first|
  {
    Append(m, s, first, second);
    if first == [] {
      assert first + second == second;
    } else {
      assert (first + second)[1..] == first[1..] + second;
      FailsLater(m, Next(m, s, first[0]), first[1..], second);
    }
  }

  /** Somebody holds a breakpoint, and an entry is free or the next re-add fails. */
  lemma SomebodyHolds<Cpu(!new), Data(!new)>(m: Machine<Cpu, Data>, s: State<Cpu, Data>) returns (t: nat)
    requires Overfull(m, s)
    ensures t < |s.threads| && IsHolding(s.threads[t]) && UsageCount(s.bp) <= s.bp.count
  {
    TallyBounds(s.threads, IsHolding);
    TallyBounds(s.bp.state[..s.bp.count], IsUsing);
    t :| 0 <= t < |s.threads| && IsHolding(s.threads[t]);
  }

  /** With more breakpoints than entries, some run has a re-add that fails. */
  lemma {:induction false} FailureReached<Cpu(!new), Data(!new)>(m: Machine<Cpu, Data>, s: State<Cpu, Data>)
    returns (acts: seq<Action>)
    requires Overfull(m, s)
    ensures IsRun(m, s, acts) && CleanLocked !in acts && !NoFailedAdd(m, s, acts)
    decreases if UsageCount(s.bp) <= s.bp.count then s.bp.count - UsageCount(s.bp) else 0
  {
    var t := SomebodyHolds(m, s);
    var first := Approach(m, s, t);
    var f := Final(m, s, first);
    var second := AddAt(m, f, t);
    if !Full(f.bp) {
      var f' := Next(m, f, second[0]);
      StepQuiet(m, f, second[0]);
      StepPopulation(m, f, second[0]);
      StepUsage(m, f, second[0]);
      var rest := FailureReached(m, f');
      FailsLater(m, f, second, rest);
      second := second + rest;
    }
    FailsLater(m, s, first, second);
    acts := first + second;
  }

  lemma AddAt<Cpu(!new), Data(!new)>(m: Machine<Cpu, Data>, s: State<Cpu, Data>, t: nat) returns (acts: seq<Action>)
    requires s.bp.Shaped() && t < |s.threads| && s.threads[t].pc.Adding?
    ensures |acts| == 1 && acts[0].ReAdd? && acts[0].t == t && Enabled(m, s, acts[0])
    ensures IsRun(m, s, acts) && Final(m, s, acts) == Next(m, s, acts[0])
    ensures Full(s.bp) ==> !NoFailedAdd(m, s, acts)
  {
    if Full(s.bp) {
      acts := [ReAdd(t, 0)];
    } else {
      TallyBounds(s.bp.state[..s.bp.count], IsUsing);
      var choice: nat :| choice < s.bp.count && s.bp.state[..s.bp.count][choice] != Using;
      acts := [ReAdd(t, choice)];
    }
    OneStep(m, s, acts[0]);
  }

  /**
   From a state in which the detector is active, no handler's bp_add(-1) fails in any run until stop
   begins, exactly when the breakpoints planted and held do not exceed the list.
   */
  lemma NoAddFailsIff<Cpu(!new), Data(!new)>(m: Machine<Cpu, Data>, s: State<Cpu, Data>)
    requires Quiet(s) && |s.bp.text| == |m.orig| && s.ctl.Active?
    ensures (forall acts :: IsRun(m, s, acts) && CleanLocked !in acts ==> NoFailedAdd(m, s, acts))
            <==> Population(s) <= s.bp.count
  {
    if Population(s) <= s.bp.count {
      forall acts | IsRun(m, s, acts) && CleanLocked !in acts ensures NoFailedAdd(m, s, acts) {
        PopulationConserved(m, s, acts);
      }
    } else {
      var acts := FailureReached(m, s);
    }
  }
}
