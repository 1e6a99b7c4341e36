/** Safety of the breakpoint protocol over whole runs, under every interleaving. */
module ProtocolRuns {
  import opened Words
  import opened Counting
  import opened BpTable
  import opened Protocol
  import opened ProtocolText

  ghost predicate IsRun<Cpu(!new), Data(!new)>(m: Machine<Cpu, Data>, s: State<Cpu, Data>, acts: seq<Action>)
    decreases |acts|
  {
    acts == [] || (s.bp.Shaped() && Enabled(m, s, acts[0]) && IsRun(m, Next(m, s, acts[0]), acts[1..]))
  }

  ghost function Final<Cpu(!new), Data(!new)>(m: Machine<Cpu, Data>, s: State<Cpu, Data>, acts: seq<Action>): State<Cpu, Data>
    requires IsRun(m, s, acts)
    decreases |acts|
  {
    if acts == [] then s else Final(m, Next(m, s, acts[0]), acts[1..])
  }

  /** One run after another. */
  lemma {:induction false} Append<Cpu(!new), Data(!new)>(
    m: Machine<Cpu, Data>, s: State<Cpu, Data>, first: seq<Action>, second: seq<Action>)
    requires IsRun(m, s, first) && IsRun(m, Final(m, s, first), second)
    ensures IsRun(m, s, first + second)
    ensures Final(m, s, first + second) == Final(m, Final(m, s, first), second)
    decreases |first|
  {
    if first == [] {
      assert first + second == second;
    } else {
      assert (first + second)[1..] == first[1..] + second;
      Append(m, Next(m, s, first[0]), first[1..], second);
    }
  }

  /** A run and one more step. */
  lemma OneStep<Cpu(!new), Data(!new)>(m: Machine<Cpu, Data>, s: State<Cpu, Data>, a: Action)
    requires s.bp.Shaped() && Enabled(m, s, a)
    ensures IsRun(m, s, [a]) && Final(m, s, [a]) == Next(m, s, a)
  {
    assert [a][1..] == [];
    assert IsRun(m, Next(m, s, a), []);
  }

  ghost predicate OneStart(acts: seq<Action>) {
    forall i, j :: 0 <= i < j < |acts| ==> !(acts[i].InitBegin? && acts[j].InitBegin?)
  }

  ghost predicate NoStart(acts: seq<Action>) {
    forall i :: 0 <= i < |acts| ==> !acts[i].InitBegin?
  }

  /** bp_init is never started over an entry still in use. */
  ghost predicate CleanStarts<Cpu(!new), Data(!new)>(m: Machine<Cpu, Data>, s: State<Cpu, Data>, acts: seq<Action>)
    requires IsRun(m, s, acts)
    decreases |acts|
  {
    acts == [] ||
    ((acts[0].InitBegin? ==> NoneInUse(s.bp)) && CleanStarts(m, Next(m, s, acts[0]), acts[1..]))
  }

  ghost predicate Safe<Cpu(!new), Data(!new)>(m: Machine<Cpu, Data>, s: State<Cpu, Data>) {
    Quiet(s) && TextSafe(m, s) && LateOk(s)
  }

  // ---- Quiescence over all runs, with or without leftovers ---------------------------

  lemma {:induction false} QuietRun<Cpu(!new), Data(!new)>(m: Machine<Cpu, Data>, s: State<Cpu, Data>, acts: seq<Action>)
    requires Quiet(s) && |s.bp.text| == |m.orig| && IsRun(m, s, acts)
    ensures Quiet(Final(m, s, acts))
    decreases |acts|
  {
    if acts != [] {
      StepQuiet(m, s, acts[0]);
      QuietRun(m, Next(m, s, acts[0]), acts[1..]);
    }
  }

  /** In every reachable state bp_trap_count is the number of activations inside the module. */
  lemma Quiescence<Cpu(!new), Data(!new)>(m: Machine<Cpu, Data>, s: State<Cpu, Data>, acts: seq<Action>)
    requires Initial(m, s) && IsRun(m, s, acts)
    ensures Final(m, s, acts).bp.trapCount == Tally(Final(m, s, acts).threads, IsCounted)
  {
    InitialQuiet(m, s);
    QuietRun(m, s, acts);
  }

  /**
   After bp_clean returned, no activation is inside, and none gets in before bp_init
   clears bp_stopping, whatever else happens.
   */
  lemma {:induction false} QuietUntilRestart<Cpu(!new), Data(!new)>(
    m: Machine<Cpu, Data>, s: State<Cpu, Data>, acts: seq<Action>)
    requires Quiet(s) && |s.bp.text| == |m.orig| && BeforeStart(s.ctl) && s.bp.stopping
    requires IsRun(m, s, acts) && ClearStopping !in acts
    ensures Tally(Final(m, s, acts).threads, IsCounted) == 0
    ensures BeforeStart(Final(m, s, acts).ctl) && Final(m, s, acts).bp.stopping
    decreases |acts|
  {
    if acts != [] {
      var a := acts[0];
      StepQuiet(m, s, a);
      assert a in acts;
      if IsThreadAction(a) { NobodyCounted(s, a.t); }
      QuietUntilRestart(m, Next(m, s, a), acts[1..]);
    }
  }

  // ---- The text over all runs ------------------------------------------------------------

  lemma InitialSafe<Cpu(!new), Data(!new)>(m: Machine<Cpu, Data>, s: State<Cpu, Data>)
    requires Initial(m, s)
    ensures Safe(m, s)
  {
    InitialQuiet(m, s);
  }

  lemma {:induction false} SafeRun<Cpu(!new), Data(!new)>(m: Machine<Cpu, Data>, s: State<Cpu, Data>, acts: seq<Action>)
    requires Safe(m, s) && IsRun(m, s, acts) && CleanStarts(m, s, acts)
    ensures Safe(m, Final(m, s, acts))
    decreases |acts|
  {
    if acts != [] {
      StepQuiet(m, s, acts[0]);
      StepText(m, s, acts[0]);
      StepLate(m, s, acts[0]);
      SafeRun(m, Next(m, s, acts[0]), acts[1..]);
    }
  }

  /**
   In every reachable state, an address holds INT3 while an entry for it is in use and
   its original byte otherwise.
   */
  lemma TextOverRuns<Cpu(!new), Data(!new)>(m: Machine<Cpu, Data>, s: State<Cpu, Data>, acts: seq<Action>, a: nat)
    requires Initial(m, s) && IsRun(m, s, acts) && CleanStarts(m, s, acts) && a < |m.orig|
    ensures var bp := Final(m, s, acts).bp;
            |bp.text| == |m.orig| && |bp.addr| == |bp.state|
            && bp.text[a] == if Planted(bp, a) then INT3 else m.orig[a]
  {
    InitialSafe(m, s);
    SafeRun(m, s, acts);
    TextAt(Final(m, s, acts).bp, m.orig, a);
  }

  /**
   When bp_clean has returned, nobody is inside, every entry still in use was planted by
   its own bp_add call, one that read bp_stopping before the critical section and locked
   after it; the kernel text is the original one exactly when no entry is in use, and so
   whenever there was no such call.
   */
  lemma CleanupBound<Cpu(!new), Data(!new)>(m: Machine<Cpu, Data>, s: State<Cpu, Data>, acts: seq<Action>)
    requires Initial(m, s) && IsRun(m, s, acts) && CleanStarts(m, s, acts)
    requires Final(m, s, acts).ctl.Stopped? && Final(m, s, acts).bp.stopping
    ensures var f := Final(m, s, acts);
            && Tally(f.threads, IsCounted) == 0
            && (forall i: nat :: i < |f.bp.state| && f.bp.state[i] == Using ==>
                  i in f.setBy && f.setBy[i].read < f.epoch == f.setBy[i].lock)
            && (forall i: nat, j: nat :: i < j < |f.bp.state| && f.bp.state[i] == Using && f.bp.state[j] == Using ==>
                  i in f.setBy && j in f.setBy && f.setBy[i].id != f.setBy[j].id)
            && (f.bp.text == m.orig <==> NoneInUse(f.bp))
            && ((forall i: nat :: i in f.setBy ==> !(f.setBy[i].read < f.epoch == f.setBy[i].lock)) ==>
                  f.bp.text == m.orig)
  {
    InitialSafe(m, s);
    SafeRun(m, s, acts);
    TextIffUnused(Final(m, s, acts).bp, m.orig);
  }

  lemma TextIffUnused(t: Table, orig: seq<Byte>)
    requires TextOk(t, orig) && GoodList(t.addr[..t.count], orig)
    ensures t.text == orig <==> NoneInUse(t)
  {
    if NoneInUse(t) {
      NothingPlanted(t, orig);
    } else {
      var i :| 0 <= i < |t.state| && t.state[i] == Using;
      assert t.addr[..t.count][i] == t.addr[i];
    }
  }

  // ---- Where the code falls short of its intent ------------------------------------------

  /** The steps of bp_init's loop from entry `k` on, and the two resets after it. */
  function InitActions(n: nat): seq<Action> {
    if n == 0 then [ResetCount, ClearStopping] else [InitEntry] + InitActions(n - 1)
  }

  /** bp_init undisturbed: its steps in order compute what the sequential code is proved to compute. */
  lemma {:induction false} InitLoop<Cpu(!new), Data(!new)>(m: Machine<Cpu, Data>, s: State<Cpu, Data>)
    requires s.bp.Shaped() && s.ctl.Initing? && s.ctl.next <= |s.ctl.list| <= |s.bp.addr|
    requires forall i :: 0 <= i < |s.ctl.list| ==> s.ctl.list[i] < |s.bp.text|
    ensures var acts := InitActions(|s.ctl.list| - s.ctl.next);
            && IsRun(m, s, acts)
            && Final(m, s, acts) == s.(ctl := Seeding,
                 bp := InitFrom(s.bp, s.ctl.list, s.ctl.next).(trapCount := 0, stopping := false))
    decreases |s.ctl.list| - s.ctl.next
  {
    var acts := InitActions(|s.ctl.list| - s.ctl.next);
    if s.ctl.next < |s.ctl.list| {
      assert acts[1..] == InitActions(|s.ctl.list| - s.ctl.next - 1);
      InitLoop(m, Next(m, s, InitEntry));
    } else {
      InitResets(m, s);
    }
  }

  lemma InitResets<Cpu(!new), Data(!new)>(m: Machine<Cpu, Data>, s: State<Cpu, Data>)
    requires s.bp.Shaped() && s.ctl.Initing? && s.ctl.next == |s.ctl.list|
    ensures IsRun(m, s, [ResetCount, ClearStopping])
    ensures Final(m, s, [ResetCount, ClearStopping]) == s.(ctl := Seeding, bp := s.bp.(trapCount := 0, stopping := false))
  {
    var s' := Next(m, s, ResetCount);
    OneStep(m, s, ResetCount);
    OneStep(m, s', ClearStopping);
    Append(m, s, [ResetCount], [ClearStopping]);
    assert [ResetCount] + [ClearStopping] == [ResetCount, ClearStopping];
  }

  lemma InitRun<Cpu(!new), Data(!new)>(m: Machine<Cpu, Data>, s: State<Cpu, Data>, list: seq<nat>)
    requires s.bp.Shaped() && Enabled(m, s, InitBegin(list)) && |s.bp.text| == |m.orig|
    ensures var acts := [InitBegin(list)] + InitActions(|list|);
            IsRun(m, s, acts) && Final(m, s, acts) == s.(bp := InitTable(s.bp, list), ctl := Seeding)
  {
    var acts := [InitBegin(list)] + InitActions(|list|);
    assert acts[1..] == InitActions(|list|);
    InitLoop(m, Next(m, s, InitBegin(list)));
  }

  lemma ThreeSteps<Cpu(!new), Data(!new)>(
    m: Machine<Cpu, Data>, s: State<Cpu, Data>, a: Action,
    s1: State<Cpu, Data>, b: Action, s2: State<Cpu, Data>, c: Action)
    requires s.bp.Shaped() && Enabled(m, s, a) && s1 == Next(m, s, a)
    requires s1.bp.Shaped() && Enabled(m, s1, b) && s2 == Next(m, s1, b)
    requires s2.bp.Shaped() && Enabled(m, s2, c)
    ensures IsRun(m, s, [a, b, c]) && Final(m, s, [a, b, c]) == Next(m, s2, c)
  {
    var s3 := Next(m, s2, c);
    assert IsRun(m, s3, []) && Final(m, s3, []) == s3;
    assert [c][1..] == [];
    assert IsRun(m, s2, [c]) && Final(m, s2, [c]) == s3;
    assert [b, c][1..] == [c];
    assert IsRun(m, s1, [b, c]) && Final(m, s1, [b, c]) == s3;
    assert [a, b, c][1..] == [b, c];
  }

  /** The whole of bp_init keeps the text invariant exactly when no entry is in use before it. */
  lemma RestartKeepsTextIff(t: Table, orig: seq<Byte>, list: seq<nat>)
    requires TextOk(t, orig) && GoodList(t.addr[..t.count], orig)
    requires |list| <= |t.addr| && GoodList(list, orig)
    ensures TextOk(InitTable(t, list), orig) <==> NoneInUse(t)
  {
    var r := InitTable(t, list);
    if NoneInUse(t) {
      UnusedListIsFree(t, r, orig);
    } else {
      var i :| 0 <= i < |t.state| && t.state[i] == Using;
      if i < |list| {
        var x := t.addr[i];
        assert t.addr[..t.count][i] == x;
        forall k | 0 <= k < |r.state| && r.state[k] == Using ensures r.addr[k] != x {
          assert r.addr[r.count..][k - r.count] == t.addr[r.count..][k - r.count];
        }
        assert !Planted(r, x);
      }
    }
  }

  /**
   What a restart over an entry in use leaves behind, overwritten or beyond the new list alike:
   an INT3 that no removal reaches, the next bp_clean's included.
   */
  lemma RestartStrands(t: Table, orig: seq<Byte>, list: seq<nat>, i: nat, a: nat)
    requires TextOk(t, orig) && GoodList(t.addr[..t.count], orig)
    requires |list| <= |t.addr| && GoodList(list, orig)
    requires i < |t.state| && t.state[i] == Using
    ensures var r := InitTable(t, list);
            && !RemoveBreakpoint(r, a).1
            && CleanFrom(r, 0).text[t.addr[i]] == INT3 != orig[t.addr[i]]
  {
    var r := InitTable(t, list);
    assert t.addr[..t.count][i] == t.addr[i];
    CleanNothing(r, 0);
  }

  lemma {:induction false} CleanNothing(t: Table, i: nat)
    requires t.Shaped() && i <= t.count && forall j :: 0 <= j < t.count ==> t.state[j] != Using
    ensures CleanFrom(t, i) == t.(stopping := true)
    decreases t.count - i
  {
    if i < t.count { CleanNothing(t, i + 1); }
  }

  /**
   The consequence: a thread that reaches a listed INT3 that no entry owns comes back to
   it in exactly the state it left, for ever.
   */
  lemma LostByteLivelocks<Cpu(!new), Data(!new)>(m: Machine<Cpu, Data>, s: State<Cpu, Data>, t: nat)
    requires s.bp.Shaped() && t < |s.threads| && s.threads[t].pc.Running?
    requires s.threads[t].ip < |s.bp.text| && s.bp.text[s.threads[t].ip] == INT3
    requires s.bp.Listed(s.threads[t].ip) && !Planted(s.bp, s.threads[t].ip)
    ensures IsRun(m, s, [Trap(t), Check(t), Action.Remove(t)])
    ensures Final(m, s, [Trap(t), Check(t), Action.Remove(t)]) == s
  {
    var s1 := Next(m, s, Trap(t));
    var s2 := Next(m, s1, Check(t));
    assert s2.threads[t].ip == s.threads[t].ip && s2.bp == s.bp;
    assert Next(m, s2, Action.Remove(t)).threads == s.threads;
    ThreeSteps(m, s, Trap(t), s1, Check(t), s2, Action.Remove(t));
  }
}
