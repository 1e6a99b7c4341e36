/** How bp_clean can end: it always can, and exactly when it can leave a breakpoint behind. */
module CleanUp {
  import opened Words
  import opened Counting
  import opened BpTable
  import opened Protocol
  import opened ProtocolText
  import opened ProtocolRuns

  /** Nothing that was planted has been removed. */
  ghost predicate KeepsPlanted(before: Table, after: Table) {
    && after.addr == before.addr && after.count == before.count && |after.state| == |before.state|
    && forall i :: 0 <= i < |before.state| && before.state[i] == Using ==> after.state[i] == Using
  }

  lemma StepSafe<Cpu(!new), Data(!new)>(m: Machine<Cpu, Data>, s: State<Cpu, Data>, a: Action)
    requires Safe(m, s) && Enabled(m, s, a) && !a.InitBegin?
    ensures Safe(m, Next(m, s, a))
  {
    StepQuiet(m, s, a);
    StepText(m, s, a);
    StepLate(m, s, a);
  }

  /** The next step of an activation inside the module; a bp_add takes any free entry. */
  lemma NextStep<Cpu(!new), Data(!new)>(m: Machine<Cpu, Data>, s: State<Cpu, Data>, t: nat) returns (a: Action)
    requires s.bp.Shaped() && t < |s.threads| && IsCounted(s.threads[t])
    ensures Enabled(m, s, a) && IsThreadAction(a) && a.t == t
    ensures a.Watch? || a.ReadStopping? || a.ReAdd? || a.Dec?
  {
    if s.threads[t].pc.Counted? {
      a := Watch(t);
    } else if s.threads[t].pc.Watching? {
      a := ReadStopping(t);
    } else if s.threads[t].pc.Added? {
      a := Dec(t);
    } else if Full(s.bp) {
      a := ReAdd(t, 0);
    } else {
      TallyBounds(s.bp.state[..s.bp.count], IsUsing);
      var choice: nat :| choice < s.bp.count && s.bp.state[..s.bp.count][choice] != Using;
      a := ReAdd(t, choice);
    }
  }

  function Rank(pc: Pc): nat {
    if pc.Counted? then 4 else if pc.Watching? then 3 else if pc.Adding? then 2 else if pc.Added? then 1 else 0
  }

  /** Such a step brings the activation nearer to its end, and bp_dec_trapped is that end. */
  lemma StepNearer<Cpu(!new), Data(!new)>(m: Machine<Cpu, Data>, s: State<Cpu, Data>, a: Action)
    requires s.bp.Shaped() && Enabled(m, s, a) && (a.Watch? || a.ReadStopping? || a.ReAdd? || a.Dec?)
    ensures var s' := Next(m, s, a);
            && s'.ctl == s.ctl && KeepsPlanted(s.bp, s'.bp) && |s'.threads| == |s.threads|
            && Rank(s'.threads[a.t].pc) < Rank(s.threads[a.t].pc)
            && (if a.Dec? then s'.bp.trapCount == s.bp.trapCount - 1
                else s'.bp.trapCount == s.bp.trapCount && IsCounted(s'.threads[a.t]))
  {
  }

  /** While bp_clean waits, an activation inside can leave undisturbed. */
  lemma {:induction false} Leave<Cpu(!new), Data(!new)>(m: Machine<Cpu, Data>, s: State<Cpu, Data>, t: nat)
    returns (acts: seq<Action>)
    requires Safe(m, s) && s.ctl.Waiting? && t < |s.threads| && IsCounted(s.threads[t])
    ensures IsRun(m, s, acts) && NoStart(acts)
    ensures var f := Final(m, s, acts);
            Safe(m, f) && f.ctl.Waiting? && f.bp.trapCount == s.bp.trapCount - 1 && KeepsPlanted(s.bp, f.bp)
    decreases Rank(s.threads[t].pc)
  {
    var a := NextStep(m, s, t);
    StepSafe(m, s, a);
    StepNearer(m, s, a);
    OneStep(m, s, a);
    if a.Dec? {
      acts := [a];
    } else {
      var rest := Leave(m, Next(m, s, a), t);
      Append(m, s, [a], rest);
      acts := [a] + rest;
    }
  }

  /** Whatever the activations inside, bp_clean can return, with every planted breakpoint still planted. */
  lemma {:induction false} Drain<Cpu(!new), Data(!new)>(m: Machine<Cpu, Data>, s: State<Cpu, Data>)
    returns (acts: seq<Action>)
    requires Safe(m, s) && s.ctl.Waiting?
    ensures IsRun(m, s, acts) && NoStart(acts)
    ensures Safe(m, Final(m, s, acts)) && Final(m, s, acts).ctl.Stopped? && KeepsPlanted(s.bp, Final(m, s, acts).bp)
    decreases Tally(s.threads, IsCounted)
  {
    if s.bp.trapCount == 0 {
      StepSafe(m, s, CleanWait);
      OneStep(m, s, CleanWait);
      acts := [CleanWait];
    } else {
      TallyBounds(s.threads, IsCounted);
      var t: nat :| t < |s.threads| && IsCounted(s.threads[t]);
      var first := Leave(m, s, t);
      var rest := Drain(m, Final(m, s, first));
      Append(m, s, first, rest);
      acts := first + rest;
    }
  }

  lemma PlantedStays(m: seq<Byte>, before: Table, after: Table, i: nat)
    requires TextOk(before, m) && TextOk(after, m) && KeepsPlanted(before, after)
    requires GoodList(after.addr[..after.count], m) && i < |before.state| && before.state[i] == Using
    ensures after.text[before.addr[i]] == INT3 && after.text != m
  {
    assert after.addr[..after.count][i] == after.addr[i];
  }

  /**
   A bp_add past its read of bp_stopping while bp_clean waits: whatever else is inside, its
   breakpoint can still be there when bp_clean returns.
   */
  lemma LateAddSurvives<Cpu(!new), Data(!new)>(m: Machine<Cpu, Data>, s: State<Cpu, Data>, t: nat, choice: nat)
    returns (acts: seq<Action>)
    requires Safe(m, s) && s.ctl.Waiting?
    requires t < |s.threads| && s.threads[t].pc.Adding? && CanAdd(s.bp, choice)
    ensures IsRun(m, s, acts) && NoStart(acts) && Final(m, s, acts).ctl.Stopped?
    ensures s.bp.addr[choice] < |Final(m, s, acts).bp.text|
    ensures Final(m, s, acts).bp.text[s.bp.addr[choice]] == INT3 && Final(m, s, acts).bp.text != m.orig
  {
    TallyBounds(s.bp.state[..s.bp.count], IsUsing);
    assert s.bp.state[..s.bp.count][choice] != Using;
    var a := ReAdd(t, choice);
    var s' := Next(m, s, a);
    StepSafe(m, s, a);
    OneStep(m, s, a);
    var rest := Drain(m, s');
    Append(m, s, [a], rest);
    acts := [a] + rest;
    PlantedStays(m.orig, s'.bp, Final(m, s', rest).bp, choice);
  }

  // ---- The exact condition ----------------------------------------------------------------------

  /** Nothing is in use, and nobody is left who could plant something. */
  ghost predicate Settled<Cpu(!new), Data(!new)>(m: Machine<Cpu, Data>, s: State<Cpu, Data>) {
    && Safe(m, s) && (s.ctl.Waiting? || s.ctl.Stopped?) && s.bp.stopping && NoneInUse(s.bp)
    && (s.bp.count == 0 || forall t :: 0 <= t < |s.threads| ==> !s.threads[t].pc.Adding?)
  }

  lemma StepSettled<Cpu(!new), Data(!new)>(m: Machine<Cpu, Data>, s: State<Cpu, Data>, a: Action)
    requires Settled(m, s) && Enabled(m, s, a) && !a.InitBegin?
    ensures Settled(m, Next(m, s, a))
  {
    StepSafe(m, s, a);
    if a.ReAdd? { TallyBounds(s.bp.state[..s.bp.count], IsUsing); }
  }

  lemma {:induction false} SettledRun<Cpu(!new), Data(!new)>(m: Machine<Cpu, Data>, s: State<Cpu, Data>, acts: seq<Action>)
    requires Settled(m, s) && IsRun(m, s, acts) && NoStart(acts)
    ensures Settled(m, Final(m, s, acts)) && Final(m, s, acts).bp.text == m.orig
    decreases |acts|
  {
    if acts == [] {
      NothingPlanted(s.bp, m.orig);
    } else {
      StepSettled(m, s, acts[0]);
      SettledRun(m, Next(m, s, acts[0]), acts[1..]);
    }
  }

  /** bp_clean can return with a breakpoint left in the text. */
  ghost predicate CanLeave<Cpu(!new), Data(!new)>(m: Machine<Cpu, Data>, s: State<Cpu, Data>) {
    exists acts :: IsRun(m, s, acts) && NoStart(acts)
      && Final(m, s, acts).ctl.Stopped? && Final(m, s, acts).bp.text != m.orig
  }

  /**
   While bp_clean waits, it can leave a breakpoint behind exactly when one is planted again
   already, or the list is not empty and some activation is past its read of bp_stopping.
   */
  lemma CanLeaveIff<Cpu(!new), Data(!new)>(m: Machine<Cpu, Data>, s: State<Cpu, Data>)
    requires Safe(m, s) && s.ctl.Waiting?
    ensures CanLeave(m, s) <==>
            !NoneInUse(s.bp) || (s.bp.count > 0 && exists t :: 0 <= t < |s.threads| && s.threads[t].pc.Adding?)
  {
    if i: nat :| i < |s.bp.state| && s.bp.state[i] == Using {
      var acts := Drain(m, s);
      PlantedStays(m.orig, s.bp, Final(m, s, acts).bp, i);
      assert CanLeave(m, s);
    } else if t: nat :| s.bp.count > 0 && t < |s.threads| && s.threads[t].pc.Adding? {
      var acts := LateAddSurvives(m, s, t, 0);
      assert CanLeave(m, s);
    } else {
      assert Settled(m, s);
      forall acts | IsRun(m, s, acts) && NoStart(acts) ensures Final(m, s, acts).bp.text == m.orig {
        SettledRun(m, s, acts);
      }
    }
  }
}
