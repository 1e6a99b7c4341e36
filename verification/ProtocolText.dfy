/** What every step of the protocol does to the kernel text, and what bp_clean leaves behind. */
module ProtocolText {
  import opened Words
  import opened Counting
  import opened BpTable
  import opened Protocol

  /** The listed addresses are good; while bp_init writes them, nothing is planted. */
  ghost predicate ListOk<Cpu(!new), Data(!new)>(m: Machine<Cpu, Data>, s: State<Cpu, Data>)
    requires s.bp.Shaped()
  {
    if s.ctl.Initing? then
      && GoodList(s.ctl.list, m.orig)
      && s.ctl.next <= |s.ctl.list| == s.bp.count
      && s.bp.addr[..s.ctl.next] == s.ctl.list[..s.ctl.next]
      && NoneInUse(s.bp)
    else GoodList(s.bp.addr[..s.bp.count], m.orig)
  }

  ghost predicate TextSafe<Cpu(!new), Data(!new)>(m: Machine<Cpu, Data>, s: State<Cpu, Data>) {
    TextOk(s.bp, m.orig) && ListOk(m, s)
  }

  lemma NobodyCounted<Cpu, Data>(s: State<Cpu, Data>, t: nat)
    requires Quiet(s) && BeforeStart(s.ctl) && t < |s.threads|
    ensures !IsCounted(s.threads[t])
  {
    TallyBounds(s.threads, IsCounted);
  }

  lemma RemoveStepText(t: Table, orig: seq<Byte>, a: nat)
    requires TextOk(t, orig)
    ensures TextOk(RemoveBreakpoint(t, a).0, orig)
    ensures RemoveBreakpoint(t, a).0.addr == t.addr && RemoveBreakpoint(t, a).0.count == t.count
    ensures NoneInUse(t) ==> NoneInUse(RemoveBreakpoint(t, a).0)
  {
    var i := FindUsing(t, a, 0);
    if i < t.count { RestoreKeepsText(t, orig, i); }
  }

  lemma ThreadStepText<Cpu(!new), Data(!new)>(m: Machine<Cpu, Data>, s: State<Cpu, Data>, a: Action)
    requires Quiet(s) && TextSafe(m, s) && IsThreadAction(a) && Enabled(m, s, a)
    ensures TextSafe(m, Next(m, s, a))
  {
    var s' := Next(m, s, a);
    assert s'.ctl == s.ctl;
    if a.Remove? {
      RemoveStepText(s.bp, m.orig, s.threads[a.t].ip);
    } else if a.ReAdd? {
      if BeforeStart(s.ctl) { NobodyCounted(s, a.t); }
      if !Full(s.bp) { PlantKeepsText(s.bp, m.orig, a.choice); }
    } else if a.Inc? {
      CountersKeepText(s.bp, m.orig, s'.bp.trapCount, s.bp.stopping);
    } else if a.Dec? {
      CountersKeepText(s.bp, m.orig, s'.bp.trapCount, s.bp.stopping);
    } else {
      assert s'.bp == s.bp;
    }
  }

  /** Changing the list is harmless while no entry is in use. */
  lemma UnusedListIsFree(t: Table, r: Table, orig: seq<Byte>)
    requires TextOk(t, orig) && NoneInUse(t) && r.Shaped() && NoneInUse(r) && r.text == t.text
    ensures TextOk(r, orig)
  {
    NothingPlanted(t, orig);
  }

  lemma ControllerStepText<Cpu(!new), Data(!new)>(m: Machine<Cpu, Data>, s: State<Cpu, Data>, a: Action)
    requires Quiet(s) && TextSafe(m, s) && !IsThreadAction(a) && Enabled(m, s, a)
    requires a.InitBegin? ==> NoneInUse(s.bp)
    ensures TextSafe(m, Next(m, s, a))
  {
    var s' := Next(m, s, a);
    match a
    case InitBegin(list) => UnusedListIsFree(s.bp, s'.bp, m.orig);
    case InitEntry =>
      UnusedListIsFree(s.bp, s'.bp, m.orig);
      var k := s.ctl.next;
      assert s'.bp.addr[..k + 1] == s.bp.addr[..k] + [s.ctl.list[k]];
    case ResetCount =>
      CountersKeepText(s.bp, m.orig, 0, s.bp.stopping);
      assert s.ctl.list[..s.ctl.next] == s.ctl.list;
    case ClearStopping => CountersKeepText(s.bp, m.orig, s.bp.trapCount, false);
    case SeedAdd(choice) =>
      if CanAdd(s.bp, choice) { PlantKeepsText(s.bp, m.orig, choice); }
    case CleanLocked => CleanKeepsText(s.bp, m.orig, 0);
    case _ =>
  }

  /**
   The text invariant survives every step, provided bp_init starts with no entry in use.
   */
  lemma StepText<Cpu(!new), Data(!new)>(m: Machine<Cpu, Data>, s: State<Cpu, Data>, a: Action)
    requires Quiet(s) && TextSafe(m, s) && Enabled(m, s, a)
    requires a.InitBegin? ==> NoneInUse(s.bp)
    ensures TextSafe(m, Next(m, s, a))
  {
    if IsThreadAction(a) { ThreadStepText(m, s, a); } else { ControllerStepText(m, s, a); }
  }

  // ---- What bp_clean leaves behind ----------------------------------------------

  /** A reader of bp_stopping that saw it clear did so before the last critical section. */
  ghost predicate ReadersOk<Cpu, Data>(s: State<Cpu, Data>) {
    && (forall t :: 0 <= t < |s.threads| && s.threads[t].pc.Adding? ==>
          s.threads[t].pc.readEpoch <= s.epoch && (s.bp.stopping ==> s.threads[t].pc.readEpoch < s.epoch))
    && (s.ctl.SeedAdding? ==> s.ctl.readEpoch <= s.epoch)
  }

  /**
   Every entry in use names the bp_add call that planted it, no two the same call; once
   bp_clean's critical section is over, that call read bp_stopping before it and locked after it.
   */
  ghost predicate OwnersOk(state: seq<BpState>, stopping: bool, setBy: map<nat, AddCall>, calls: nat, epoch: nat) {
    && (forall i: nat :: i < |state| && state[i] == Using ==> i in setBy && setBy[i].id < calls)
    && (forall i: nat, j: nat :: i < j < |state| && state[i] == Using && state[j] == Using ==>
          i in setBy && j in setBy && setBy[i].id != setBy[j].id)
    && (stopping ==> forall i: nat :: i < |state| && state[i] == Using ==>
          i in setBy && setBy[i].read < epoch == setBy[i].lock)
  }

  ghost predicate LateOk<Cpu, Data>(s: State<Cpu, Data>) {
    ReadersOk(s) && OwnersOk(s.bp.state, s.bp.stopping, s.setBy, s.calls, s.epoch)
  }

  lemma PlantOwners<Cpu, Data>(s: State<Cpu, Data>, i: nat, read: nat)
    requires s.bp.Shaped() && LateOk(s) && i < s.bp.count
    requires s.bp.stopping ==> read < s.epoch
    ensures LateOk(PlantBy(s, i, read))
  {
  }

  lemma {:induction false} ThreadStepLate<Cpu(!new), Data(!new)>(m: Machine<Cpu, Data>, s: State<Cpu, Data>, a: Action)
    requires Quiet(s) && LateOk(s) && IsThreadAction(a) && Enabled(m, s, a)
    ensures LateOk(Next(m, s, a))
  {
    var s' := Next(m, s, a);
    if a.ReAdd? && !Full(s.bp) {
      PlantOwners(s, a.choice, s.threads[a.t].pc.readEpoch);
    } else {
      assert forall i :: 0 <= i < |s'.bp.state| && s'.bp.state[i] == Using ==> s.bp.state[i] == Using;
    }
    assert forall t :: 0 <= t < |s.threads| && t != a.t ==> s'.threads[t] == s.threads[t];
  }

  lemma StepLate<Cpu(!new), Data(!new)>(m: Machine<Cpu, Data>, s: State<Cpu, Data>, a: Action)
    requires Quiet(s) && TextSafe(m, s) && LateOk(s) && Enabled(m, s, a)
    ensures LateOk(Next(m, s, a))
  {
    if IsThreadAction(a) {
      ThreadStepLate(m, s, a);
    } else if a.SeedAdd? && CanAdd(s.bp, a.choice) {
      PlantOwners(s, a.choice, s.ctl.readEpoch);
    } else if a.CleanLocked? {
      assert NoneInUse(CleanFrom(s.bp, 0));
    }
  }
}
