/**
 Which runs drop no trap: the first session always, restarts exactly when their list keeps the
 address of every pending trap.
 */
module Restarts {
  import opened Words
  import opened BpTable
  import opened Protocol
  import opened ProtocolText
  import opened ProtocolRuns
  import opened Transparency

  /** The listed entries once bp_init has written the first `k` of them. */
  function Stage(addr: seq<nat>, list: seq<nat>, k: nat): seq<nat>
    requires k <= |list| <= |addr|
  {
    list[..k] + addr[k..|list|]
  }

  /** An address is listed at every moment of bp_init from its iteration `next` on. */
  ghost predicate StaysListed(addr: seq<nat>, list: seq<nat>, next: nat, a: nat)
    requires next <= |list| <= |addr|
  {
    forall k :: next <= k <= |list| ==> a in Stage(addr, list, k)
  }

  /** Every pending trap will be known to bp_check, however far bp_init has got by then. */
  ghost predicate TrapsLast<Cpu(!new), Data(!new)>(m: Machine<Cpu, Data>, s: State<Cpu, Data>)
    requires Quiet(s)
  {
    forall t :: 0 <= t < |s.threads| && s.threads[t].pc.Trapped? ==> Lasts(m, s, s.threads[t].ip)
  }

  ghost predicate Lasts<Cpu(!new), Data(!new)>(m: Machine<Cpu, Data>, s: State<Cpu, Data>, ip: nat)
    requires Quiet(s)
  {
    && 0 < ip <= |m.orig|
    && (m.orig[ip - 1] == INT3 ||
        if s.ctl.Initing? then StaysListed(s.bp.addr, s.ctl.list, s.ctl.next, ip - 1) else s.bp.Listed(ip - 1))
  }

  /** What can be checked before bp_init: the new list keeps the address of every trap now pending. */
  ghost predicate KeepsTraps<Cpu(!new), Data(!new)>(m: Machine<Cpu, Data>, s: State<Cpu, Data>, list: seq<nat>)
    requires |list| <= |s.bp.addr|
  {
    forall t :: 0 <= t < |s.threads| && s.threads[t].pc.Trapped? ==>
      var ip := s.threads[t].ip;
      && 0 < ip <= |m.orig|
      && (m.orig[ip - 1] == INT3 || StaysListed(s.bp.addr, list, 0, ip - 1))
  }

  /** Every bp_init finds nothing in use and keeps the pending traps. */
  ghost predicate SafeStarts<Cpu(!new), Data(!new)>(m: Machine<Cpu, Data>, s: State<Cpu, Data>, acts: seq<Action>)
    requires IsRun(m, s, acts)
    decreases |acts|
  {
    acts == [] ||
    ((acts[0].InitBegin? ==> NoneInUse(s.bp) && KeepsTraps(m, s, acts[0].list)) && SafeStarts(m, Next(m, s, acts[0]), acts[1..]))
  }

  // ---- One step ------------------------------------------------------------------------------

  predicate IsInit(a: Action) {
    a.InitBegin? || a.InitEntry?
  }

  lemma SameList<Cpu(!new), Data(!new)>(m: Machine<Cpu, Data>, s: State<Cpu, Data>, a: Action)
    requires s.bp.Shaped() && Enabled(m, s, a) && !IsInit(a)
    ensures Next(m, s, a).bp.addr == s.bp.addr && Next(m, s, a).bp.count == s.bp.count
    ensures s.ctl.Initing? || !Next(m, s, a).ctl.Initing?
  {
  }

  lemma NewTrapIsKnown<Cpu(!new), Data(!new)>(m: Machine<Cpu, Data>, bp: Table, ip: nat)
    requires TextOk(bp, m.orig) && ip < |m.orig| && bp.text[ip] == INT3
    ensures bp.Listed(ip) || m.orig[ip] == INT3
  {
    TextAt(bp, m.orig, ip);
    if Planted(bp, ip) {
      var k :| 0 <= k < |bp.state| && bp.state[k] == Using && bp.addr[k] == ip;
      assert bp.Listed(ip);
    }
  }

  /** A thread waits in the trap handler only if it did before or has just trapped. */
  lemma TrappedAfter<Cpu(!new), Data(!new)>(m: Machine<Cpu, Data>, s: State<Cpu, Data>, a: Action, t: nat)
    requires s.bp.Shaped() && Enabled(m, s, a)
    requires t < |Next(m, s, a).threads| && Next(m, s, a).threads[t].pc.Trapped?
    ensures t < |s.threads|
    ensures if a == Trap(t) then Enabled(m, s, a) && Next(m, s, a).threads[t].ip == s.threads[t].ip + 1
            else Next(m, s, a).threads[t] == s.threads[t]
  {
  }

  /** While bp_init runs nothing is planted, so a new trap is on an INT3 of the kernel's own. */
  lemma NewTrapLasts<Cpu(!new), Data(!new)>(m: Machine<Cpu, Data>, s: State<Cpu, Data>, ip: nat)
    requires Safe(m, s) && ip < |m.orig| && s.bp.text[ip] == INT3
    ensures m.orig[ip] == INT3 || (!s.ctl.Initing? && s.bp.Listed(ip))
  {
    if s.ctl.Initing? { NothingPlanted(s.bp, m.orig); } else { NewTrapIsKnown(m, s.bp, ip); }
  }

  lemma StageOfWritten(addr: seq<nat>, list: seq<nat>, next: nat, k: nat)
    requires next < k <= |list| <= |addr|
    ensures Stage(addr[next := list[next]], list, k) == Stage(addr, list, k)
  {
  }

  /** The current stage of bp_init is the list in force. */
  lemma CurrentStage<Cpu(!new), Data(!new)>(m: Machine<Cpu, Data>, s: State<Cpu, Data>, a: nat)
    requires Quiet(s) && TextSafe(m, s) && s.ctl.Initing?
    ensures a in Stage(s.bp.addr, s.ctl.list, s.ctl.next) <==> s.bp.Listed(a)
  {
    assert Stage(s.bp.addr, s.ctl.list, s.ctl.next) == s.bp.addr[..s.bp.count];
    if s.bp.Listed(a) {
      var i :| 0 <= i < s.bp.count && s.bp.addr[i] == a;
      assert s.bp.addr[..s.bp.count][i] == a;
    }
  }

  /** A pending trap that lasts before a step lasts after it. */
  lemma OldTrapLasts<Cpu(!new), Data(!new)>(m: Machine<Cpu, Data>, s: State<Cpu, Data>, a: Action, x: nat)
    requires Safe(m, s) && Enabled(m, s, a) && Quiet(Next(m, s, a))
    requires if a.InitBegin? then StaysListed(s.bp.addr, a.list, 0, x)
             else if s.ctl.Initing? then StaysListed(s.bp.addr, s.ctl.list, s.ctl.next, x) else s.bp.Listed(x)
    ensures var s' := Next(m, s, a);
            if s'.ctl.Initing? then StaysListed(s'.bp.addr, s'.ctl.list, s'.ctl.next, x) else s'.bp.Listed(x)
  {
    var s' := Next(m, s, a);
    if a.InitEntry? {
      forall k | s'.ctl.next <= k <= |s.ctl.list| ensures x in Stage(s'.bp.addr, s.ctl.list, k) {
        StageOfWritten(s.bp.addr, s.ctl.list, s.ctl.next, k);
      }
    } else if a.ResetCount? {
      CurrentStage(m, s, x);
    } else if !a.InitBegin? {
      SameList(m, s, a);
    }
  }

  lemma StepLasts<Cpu(!new), Data(!new)>(m: Machine<Cpu, Data>, s: State<Cpu, Data>, a: Action)
    requires Safe(m, s) && TrapsLast(m, s) && Enabled(m, s, a)
    requires a.InitBegin? ==> KeepsTraps(m, s, a.list)
    ensures Quiet(Next(m, s, a)) && TrapsLast(m, Next(m, s, a))
  {
    StepQuiet(m, s, a);
    var s' := Next(m, s, a);
    forall t | 0 <= t < |s'.threads| && s'.threads[t].pc.Trapped?
      ensures Lasts(m, s', s'.threads[t].ip)
    {
      TrappedAfter(m, s, a, t);
      if a == Trap(t) {
        NewTrapLasts(m, s, s.threads[t].ip);
      } else if m.orig[s'.threads[t].ip - 1] != INT3 {
        OldTrapLasts(m, s, a, s'.threads[t].ip - 1);
      }
    }
  }

  // ---- Runs ----------------------------------------------------------------------------------

  /** Restarts that keep the pending traps drop none, whatever is interleaved with them. */
  lemma {:induction false} StartsDropNothing<Cpu(!new), Data(!new)>(
    m: Machine<Cpu, Data>, s: State<Cpu, Data>, acts: seq<Action>)
    requires Safe(m, s) && TrapsLast(m, s) && IsRun(m, s, acts) && SafeStarts(m, s, acts)
    ensures CleanStarts(m, s, acts) && NothingDropped(m, s, acts)
    decreases |acts|
  {
    if acts != [] {
      var a := acts[0];
      StepQuiet(m, s, a);
      StepText(m, s, a);
      StepLate(m, s, a);
      StepLasts(m, s, a);
      StartsDropNothing(m, Next(m, s, a), acts[1..]);
      if a.Check? && s.ctl.Initing? { CurrentStage(m, s, s.threads[a.t].ip - 1); }
    }
  }

  /**
   From module load on, a run is transparent if each bp_init finds nothing in use and keeps
   the address of every trap pending at that moment listed.
   */
  lemma TransparentFromLoad<Cpu(!new), Data(!new)>(m: Machine<Cpu, Data>, s: State<Cpu, Data>, acts: seq<Action>)
    requires SelfDelimiting(m) && Initial(m, s) && IsRun(m, s, acts) && Aligned(m, s, acts) && SafeStarts(m, s, acts)
    ensures IsPlainRun(m, Abstract(s), Schedule(m, s, acts))
    ensures PlainFinal(m, Abstract(s), Schedule(m, s, acts)) == Abstract(Final(m, s, acts))
  {
    InitialSafe(m, s);
    StartsDropNothing(m, s, acts);
    RunIsTransparent(m, s, acts);
  }

  /** A restart with the list already in force keeps every trap. */
  lemma SameListKeepsTraps<Cpu(!new), Data(!new)>(m: Machine<Cpu, Data>, s: State<Cpu, Data>, list: seq<nat>)
    requires Quiet(s) && TrapsLast(m, s) && !s.ctl.Initing? && list == s.bp.addr[..s.bp.count]
    ensures KeepsTraps(m, s, list)
  {
    forall k | 0 <= k <= |list| ensures Stage(s.bp.addr, list, k) == list {
    }
    assert forall a :: s.bp.Listed(a) ==> a in list;
  }

  // ---- One session ---------------------------------------------------------------------------

  lemma {:induction false} NoStartIsSafe<Cpu(!new), Data(!new)>(m: Machine<Cpu, Data>, s: State<Cpu, Data>, acts: seq<Action>)
    requires IsRun(m, s, acts) && NoStart(acts)
    ensures SafeStarts(m, s, acts)
    decreases |acts|
  {
    if acts != [] { NoStartIsSafe(m, Next(m, s, acts[0]), acts[1..]); }
  }

  /** Before the first bp_init nothing is in use, and pending traps are on INT3s of the kernel's own. */
  ghost predicate Untouched<Cpu(!new), Data(!new)>(m: Machine<Cpu, Data>, s: State<Cpu, Data>) {
    && Safe(m, s) && s.ctl.Stopped? && NoneInUse(s.bp)
    && forall t :: 0 <= t < |s.threads| && s.threads[t].pc.Trapped? ==>
         0 < s.threads[t].ip <= |m.orig| && m.orig[s.threads[t].ip - 1] == INT3
  }

  lemma StepUntouched<Cpu(!new), Data(!new)>(m: Machine<Cpu, Data>, s: State<Cpu, Data>, a: Action)
    requires Untouched(m, s) && Enabled(m, s, a) && !a.InitBegin?
    ensures Untouched(m, Next(m, s, a))
  {
    StepQuiet(m, s, a);
    StepText(m, s, a);
    StepLate(m, s, a);
    NothingPlanted(s.bp, m.orig);
    NobodyCounted(s, a.t);
    if a.Remove? { RemoveStepText(s.bp, m.orig, s.threads[a.t].ip); }
    var s' := Next(m, s, a);
    forall t | 0 <= t < |s'.threads| && s'.threads[t].pc.Trapped?
      ensures 0 < s'.threads[t].ip <= |m.orig| && m.orig[s'.threads[t].ip - 1] == INT3
    {
      TrappedAfter(m, s, a, t);
    }
  }

  lemma {:induction false} FirstStartIsSafe<Cpu(!new), Data(!new)>(m: Machine<Cpu, Data>, s: State<Cpu, Data>, acts: seq<Action>)
    requires Untouched(m, s) && IsRun(m, s, acts) && OneStart(acts)
    ensures SafeStarts(m, s, acts)
    decreases |acts|
  {
    if acts != [] {
      var s', rest := Next(m, s, acts[0]), acts[1..];
      if acts[0].InitBegin? {
        assert forall i :: 0 <= i < |rest| ==> rest[i] == acts[i + 1];
        NoStartIsSafe(m, s', rest);
      } else {
        StepUntouched(m, s, acts[0]);
        FirstStartIsSafe(m, s', rest);
      }
    }
  }

  /** From module load through one bp_init and the whole session after it, no trap is dropped. */
  lemma SessionDropsNothing<Cpu(!new), Data(!new)>(m: Machine<Cpu, Data>, s: State<Cpu, Data>, acts: seq<Action>)
    requires Initial(m, s) && IsRun(m, s, acts) && OneStart(acts)
    ensures SafeStarts(m, s, acts) && CleanStarts(m, s, acts) && NothingDropped(m, s, acts)
  {
    InitialSafe(m, s);
    FirstStartIsSafe(m, s, acts);
    StartsDropNothing(m, s, acts);
  }

  /** So the first session, bp_init included, is transparent under every interleaving. */
  lemma SessionIsTransparent<Cpu(!new), Data(!new)>(m: Machine<Cpu, Data>, s: State<Cpu, Data>, acts: seq<Action>)
    requires SelfDelimiting(m) && Initial(m, s) && IsRun(m, s, acts) && OneStart(acts) && Aligned(m, s, acts)
    ensures IsPlainRun(m, Abstract(s), Schedule(m, s, acts))
    ensures PlainFinal(m, Abstract(s), Schedule(m, s, acts)) == Abstract(Final(m, s, acts))
  {
    SessionDropsNothing(m, s, acts);
    TransparentFromLoad(m, s, acts);
  }

  // ---- Exactly when a restart drops nothing ------------------------------------------------------

  /** bp_init up to entry `k`, then bp_check of an address that is listed neither there nor by the kernel. */
  lemma {:induction false} DroppedAt<Cpu(!new), Data(!new)>(m: Machine<Cpu, Data>, s: State<Cpu, Data>, t: nat, k: nat)
    requires Quiet(s) && TextSafe(m, s) && s.ctl.Initing? && s.ctl.next <= k <= |s.ctl.list|
    requires t < |s.threads| && s.threads[t].pc.Trapped? && 0 < s.threads[t].ip <= |m.orig|
    requires m.orig[s.threads[t].ip - 1] != INT3
    requires s.threads[t].ip - 1 !in Stage(s.bp.addr, s.ctl.list, k)
    ensures var acts := Entries(k - s.ctl.next) + [Check(t)];
            IsRun(m, s, acts) && NoStart(acts) && !NothingDropped(m, s, acts)
    decreases k - s.ctl.next
  {
    var acts := Entries(k - s.ctl.next) + [Check(t)];
    if k == s.ctl.next {
      CurrentStage(m, s, s.threads[t].ip - 1);
      assert acts[0] == Check(t) && acts[1..] == [];
      assert IsRun(m, Next(m, s, Check(t)), []);
    } else {
      var s' := Next(m, s, InitEntry);
      StepQuiet(m, s, InitEntry);
      StepText(m, s, InitEntry);
      StageOfWritten(s.bp.addr, s.ctl.list, s.ctl.next, k);
      DroppedAt(m, s', t, k);
      assert acts[0] == InitEntry && acts[1..] == Entries(k - s'.ctl.next) + [Check(t)];
    }
  }

  /** A trap whose address does not stay listed is dropped in some run. */
  lemma DroppingRun<Cpu(!new), Data(!new)>(m: Machine<Cpu, Data>, s: State<Cpu, Data>, list: seq<nat>, t: nat)
    returns (acts: seq<Action>)
    requires Quiet(s) && TextSafe(m, s) && NoneInUse(s.bp) && Enabled(m, s, InitBegin(list))
    requires t < |s.threads| && s.threads[t].pc.Trapped? && 0 < s.threads[t].ip <= |m.orig|
    requires m.orig[s.threads[t].ip - 1] != INT3 && !StaysListed(s.bp.addr, list, 0, s.threads[t].ip - 1)
    ensures IsRun(m, s, [InitBegin(list)] + acts) && NoStart(acts)
    ensures !NothingDropped(m, s, [InitBegin(list)] + acts)
  {
    var k: nat :| k <= |list| && s.threads[t].ip - 1 !in Stage(s.bp.addr, list, k);
    StepQuiet(m, s, InitBegin(list));
    StepText(m, s, InitBegin(list));
    DroppedAt(m, Next(m, s, InitBegin(list)), t, k);
    acts := Entries(k) + [Check(t)];
    assert ([InitBegin(list)] + acts)[1..] == acts;
  }

  function Entries(n: nat): seq<Action> {
    seq(n, _ => InitEntry)
  }

  /**
   bp_init drops no pending trap, whatever is interleaved with it and after it, exactly when its
   list keeps the address of each one listed all the time.
   */
  lemma RestartDropsNothingIff<Cpu(!new), Data(!new)>(m: Machine<Cpu, Data>, s: State<Cpu, Data>, list: seq<nat>)
    requires Safe(m, s) && TrapsLast(m, s) && NoneInUse(s.bp) && Enabled(m, s, InitBegin(list))
    ensures KeepsTraps(m, s, list) <==>
            forall acts :: IsRun(m, s, [InitBegin(list)] + acts) && NoStart(acts) ==>
              NothingDropped(m, s, [InitBegin(list)] + acts)
  {
    var s' := Next(m, s, InitBegin(list));
    StepQuiet(m, s, InitBegin(list));
    StepText(m, s, InitBegin(list));
    if KeepsTraps(m, s, list) {
      forall acts | IsRun(m, s, [InitBegin(list)] + acts) && NoStart(acts)
        ensures NothingDropped(m, s, [InitBegin(list)] + acts)
      {
        assert ([InitBegin(list)] + acts)[1..] == acts;
        NoStartIsSafe(m, s', acts);
        StartsDropNothing(m, s, [InitBegin(list)] + acts);
      }
    } else {
      var t: nat :| t < |s.threads| && s.threads[t].pc.Trapped? && m.orig[s.threads[t].ip - 1] != INT3
        && !StaysListed(s.bp.addr, list, 0, s.threads[t].ip - 1);
      var acts := DroppingRun(m, s, list, t);
    }
  }
}
