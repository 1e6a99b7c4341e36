/** Runs from module load that reach the states in which the protocol falls short of its intent. */
module Scenarios {
  import opened Words
  import opened Counting
  import opened BpTable
  import opened Protocol
  import opened ProtocolText
  import opened ProtocolRuns
  import opened Transparency
  import opened Restarts
  import opened CleanUp

  /** A freshly loaded module, and a thread about to execute the byte at `b`. */
  ghost predicate Ready<Cpu(!new), Data(!new)>(m: Machine<Cpu, Data>, s: State<Cpu, Data>, t: nat, b: nat) {
    && Initial(m, s) && |s.bp.addr| > 0 && GoodList([b], m.orig)
    && t < |s.threads| && s.threads[t].ip == b < |m.orig| && m.orig[b] != INT3
  }

  lemma FourSteps<Cpu(!new), Data(!new)>(
    m: Machine<Cpu, Data>, s: State<Cpu, Data>, a: Action, s1: State<Cpu, Data>, b: Action,
    s2: State<Cpu, Data>, c: Action, s3: State<Cpu, Data>, d: Action)
    requires s.bp.Shaped() && Enabled(m, s, a) && s1 == Next(m, s, a)
    requires s1.bp.Shaped() && Enabled(m, s1, b) && s2 == Next(m, s1, b)
    requires s2.bp.Shaped() && Enabled(m, s2, c) && s3 == Next(m, s2, c)
    requires s3.bp.Shaped() && Enabled(m, s3, d)
    ensures IsRun(m, s, [a, b, c, d]) && Final(m, s, [a, b, c, d]) == Next(m, s3, d)
  {
    ThreeSteps(m, s, a, s1, b, s2, c);
    OneStep(m, s3, d);
    Append(m, s, [a, b, c], [d]);
    assert [a, b, c] + [d] == [a, b, c, d];
  }

  /** Within the first session every state is safe. */
  lemma SessionSafe<Cpu(!new), Data(!new)>(m: Machine<Cpu, Data>, s: State<Cpu, Data>, acts: seq<Action>)
    requires Initial(m, s) && IsRun(m, s, acts) && OneStart(acts)
    ensures Safe(m, Final(m, s, acts))
  {
    SessionDropsNothing(m, s, acts);
    InitialSafe(m, s);
    SafeRun(m, s, acts);
  }

  lemma OnlyFirst(first: seq<Action>, second: seq<Action>)
    requires OneStart(first) && NoStart(second)
    ensures OneStart(first + second)
  {
    forall i, j | 0 <= i < j < |first + second|
      ensures !((first + second)[i].InitBegin? && (first + second)[j].InitBegin?)
    {
      if j >= |first| { assert (first + second)[j] == second[j - |first|]; }
    }
  }

  /** start with the list [b] and one breakpoint on it. */
  lemma Started<Cpu(!new), Data(!new)>(m: Machine<Cpu, Data>, s: State<Cpu, Data>, b: nat)
    returns (acts: seq<Action>)
    requires Initial(m, s) && |s.bp.addr| > 0 && GoodList([b], m.orig)
    ensures IsRun(m, s, acts) && OneStart(acts)
    ensures var f := Final(m, s, acts);
            && f.ctl.Active? && f.threads == s.threads && f.data == s.data && f.epoch == 0
            && f.bp == Plant(InitTable(s.bp, [b]), 0)
  {
    var init := [InitBegin([b])] + InitActions(1);
    InitRun(m, s, [b]);
    var seeding := Final(m, s, init);
    var seed := SeededOnce(m, seeding);
    Append(m, s, init, seed);
    OnlyFirst(init, seed);
    acts := init + seed;
  }

  lemma SeededOnce<Cpu(!new), Data(!new)>(m: Machine<Cpu, Data>, s: State<Cpu, Data>)
    returns (acts: seq<Action>)
    requires s.bp.Shaped() && s.ctl.Seeding? && !s.bp.stopping && CanAdd(s.bp, 0)
    ensures IsRun(m, s, acts) && NoStart(acts)
    ensures Final(m, s, acts) == PlantBy(s, 0, s.epoch).(ctl := Active)
  {
    var s1 := Next(m, s, SeedRead);
    var s2 := Next(m, s1, SeedAdd(0));
    ThreeSteps(m, s, SeedRead, s1, SeedAdd(0), s2, FinishStart);
    acts := [SeedRead, SeedAdd(0), FinishStart];
  }

  /** The table after start: [b] listed, planted, everything else as at load. */
  lemma StartedTable(t: Table, b: nat)
    requires t.Shaped() && |t.addr| > 0 && b < |t.text| && NoneInUse(t)
    ensures var r := Plant(InitTable(t, [b]), 0);
            && r.Shaped() && r.count == 1 && r.addr[0] == b && r.state[0] == Using
            && r.text[b] == INT3 && r.backup[0] == t.text[b] && !r.stopping && r.trapCount == 0
            && r.Listed(b) && FindUsing(r, b, 0) == 0
            && forall i :: 0 < i < |r.state| ==> r.state[i] != Using
  {
    var r := InitTable(t, [b]);
    assert r.addr[..r.count][0] == b;
  }

  /** The thread traps and is counted. */
  lemma Entered<Cpu(!new), Data(!new)>(m: Machine<Cpu, Data>, s: State<Cpu, Data>, t: nat, b: nat)
    returns (acts: seq<Action>)
    requires s.bp.Shaped() && s.ctl.Active? && !s.bp.stopping && s.bp.trapCount == 0
    requires t < |s.threads| && s.threads[t].pc.Running? && s.threads[t].ip == b < |s.bp.text|
    requires s.bp.count == 1 && s.bp.addr[0] == b && s.bp.state[0] == Using && s.bp.text[b] == INT3
    ensures IsRun(m, s, acts) && NoStart(acts)
    ensures var f := Final(m, s, acts);
            f == SetPc(s, t, Counted).(bp := Restore(s.bp, 0).(trapCount := 1))
  {
    assert s.bp.Listed(b) && FindUsing(s.bp, b, 0) == 0;
    var s1 := Next(m, s, Trap(t));
    var s2 := Next(m, s1, Check(t));
    var s3 := Next(m, s2, Action.Remove(t));
    FourSteps(m, s, Trap(t), s1, Check(t), s2, Action.Remove(t), s3, Inc(t));
    acts := [Trap(t), Check(t), Action.Remove(t), Inc(t)];
  }

  /** Its activation gets past the read of bp_stopping, and stop begins. */
  lemma Stopping<Cpu(!new), Data(!new)>(m: Machine<Cpu, Data>, s: State<Cpu, Data>, t: nat)
    returns (acts: seq<Action>)
    requires s.bp.Shaped() && s.ctl.Active? && !s.bp.stopping && t < |s.threads| && s.threads[t].pc.Counted?
    ensures IsRun(m, s, acts) && NoStart(acts)
    ensures var f := Final(m, s, acts);
            f == SetPc(s, t, Adding(s.epoch)).(bp := CleanFrom(s.bp, 0), ctl := Waiting, epoch := s.epoch + 1)
  {
    var s1 := Next(m, s, Watch(t));
    var s2 := Next(m, s1, ReadStopping(t));
    ThreeSteps(m, s, Watch(t), s1, ReadStopping(t), s2, CleanLocked);
    acts := [Watch(t), ReadStopping(t), CleanLocked];
  }

  /** From module load, bp_clean comes to wait for an activation past its read of bp_stopping. */
  lemma LateAddReached<Cpu(!new), Data(!new)>(m: Machine<Cpu, Data>, s: State<Cpu, Data>, t: nat, b: nat)
    returns (acts: seq<Action>)
    requires Ready(m, s, t, b)
    ensures IsRun(m, s, acts) && OneStart(acts)
    ensures var f := Final(m, s, acts);
            && Safe(m, f) && f.ctl.Waiting? && f.bp.trapCount == 1 && f.bp.count == 1 && f.bp.addr[0] == b
            && t < |f.threads| && f.threads[t].pc.Adding? && f.threads[t].ip == b && CanAdd(f.bp, 0)
  {
    var started := Started(m, s, b);
    StartedTable(s.bp, b);
    var active := Final(m, s, started);
    var entered := Entered(m, active, t, b);
    Append(m, s, started, entered);
    OnlyFirst(started, entered);
    var stopping := Stopping(m, Final(m, active, entered), t);
    Append(m, s, started + entered, stopping);
    OnlyFirst(started + entered, stopping);
    acts := started + entered + stopping;
    SessionSafe(m, s, acts);
  }

  /** It plants, leaves, and bp_clean returns. */
  lemma Left<Cpu(!new), Data(!new)>(m: Machine<Cpu, Data>, s: State<Cpu, Data>, t: nat, b: nat)
    returns (acts: seq<Action>)
    requires s.bp.Shaped() && s.ctl.Waiting? && s.bp.trapCount == 1 && s.bp.count == 1 && s.bp.addr[0] == b
    requires t < |s.threads| && s.threads[t].pc.Adding? && s.threads[t].ip == b && CanAdd(s.bp, 0)
    ensures IsRun(m, s, acts) && NoStart(acts)
    ensures var f := Final(m, s, acts);
            && f.ctl.Stopped? && f.bp.Shaped() && |f.bp.addr| == |s.bp.addr| && |f.bp.text| == |s.bp.text|
            && f.bp.text[b] == INT3 && f.bp.addr == s.bp.addr && f.bp.state == s.bp.state[0 := Using]
            && t < |f.threads| && f.threads[t].pc.Running? && f.threads[t].ip == b
  {
    TallyBounds(s.bp.state[..1], IsUsing);
    var s1 := Next(m, s, ReAdd(t, 0));
    var s2 := Next(m, s1, Dec(t));
    ThreeSteps(m, s, ReAdd(t, 0), s1, Dec(t), s2, CleanWait);
    acts := [ReAdd(t, 0), Dec(t), CleanWait];
  }

  /**
   From module load: the breakpoint left behind is still in the text when a second session starts
   with the same list; its byte is forgotten and the thread can never get past it.
   */
  lemma LivelockReached<Cpu(!new), Data(!new)>(m: Machine<Cpu, Data>, s: State<Cpu, Data>, t: nat, b: nat)
    returns (acts: seq<Action>)
    requires Ready(m, s, t, b)
    ensures IsRun(m, s, acts)
    ensures var f := Final(m, s, acts);
            && f.ctl.Seeding? && f.bp.Shaped() && t < |f.threads| && f.threads[t].ip == b
            && IsRun(m, f, [Trap(t), Check(t), Action.Remove(t)])
            && Final(m, f, [Trap(t), Check(t), Action.Remove(t)]) == f
  {
    var first := LateAddReached(m, s, t, b);
    var waiting := Final(m, s, first);
    var left := Left(m, waiting, t, b);
    Append(m, s, first, left);
    var stopped := Final(m, waiting, left);
    var second := [InitBegin([b])] + InitActions(1);
    InitRun(m, stopped, [b]);
    Append(m, s, first + left, second);
    acts := first + left + second;
    var f := Final(m, s, acts);
    assert f.bp.addr[..f.bp.count][0] == b;
    LostByteLivelocks(m, f, t);
  }

  /** The thread traps, and the session is stopped before bp_check looks at the trap. */
  lemma Interrupted<Cpu(!new), Data(!new)>(m: Machine<Cpu, Data>, s: State<Cpu, Data>, t: nat)
    returns (acts: seq<Action>)
    requires s.bp.Shaped() && s.ctl.Active? && s.bp.trapCount == 0
    requires t < |s.threads| && s.threads[t].pc.Running? && s.threads[t].ip < |s.bp.text|
    requires s.bp.text[s.threads[t].ip] == INT3
    ensures IsRun(m, s, acts) && NoStart(acts)
    ensures Final(m, s, acts) ==
            Put(s, t, s.threads[t].(pc := Trapped, ip := s.threads[t].ip + 1))
              .(bp := CleanFrom(s.bp, 0), ctl := Stopped, epoch := s.epoch + 1)
  {
    var s1 := Next(m, s, Trap(t));
    var s2 := Next(m, s1, CleanLocked);
    ThreeSteps(m, s, Trap(t), s1, CleanLocked, s2, CleanWait);
    acts := [Trap(t), CleanLocked, CleanWait];
  }

  lemma InterruptReached<Cpu(!new), Data(!new)>(m: Machine<Cpu, Data>, s: State<Cpu, Data>, t: nat, b: nat)
    returns (acts: seq<Action>)
    requires Ready(m, s, t, b)
    ensures IsRun(m, s, acts) && OneStart(acts)
    ensures var f := Final(m, s, acts);
            && f.ctl.Stopped? && |f.bp.addr| > 0 && f.bp.addr[0] == b && f.bp.count == 1 && NoneInUse(f.bp)
            && t < |f.threads| && f.threads[t].pc.Trapped? && f.threads[t].ip == b + 1
  {
    var started := Started(m, s, b);
    StartedTable(s.bp, b);
    var interrupted := Interrupted(m, Final(m, s, started), t);
    Append(m, s, started, interrupted);
    OnlyFirst(started, interrupted);
    acts := started + interrupted;
  }

  /**
   From module load: a trap is still pending when a session has been stopped, and a second session
   with another list hands it to the old handler.
   */
  lemma DroppedTrapReached<Cpu(!new), Data(!new)>(m: Machine<Cpu, Data>, s: State<Cpu, Data>, t: nat, b: nat, c: nat)
    returns (first: seq<Action>, second: seq<Action>)
    requires Ready(m, s, t, b) && GoodList([c], m.orig) && c != b
    ensures IsRun(m, s, first) && OneStart(first) && NoStart(second)
    ensures var f := Final(m, s, first);
            && Safe(m, f) && NoneInUse(f.bp) && t < |f.threads| && f.threads[t].pc.Trapped? && f.threads[t].ip == b + 1
            && IsRun(m, f, [InitBegin([c])] + second) && !NothingDropped(m, f, [InitBegin([c])] + second)
  {
    first := InterruptReached(m, s, t, b);
    SessionSafe(m, s, first);
    var f := Final(m, s, first);
    assert b !in Stage(f.bp.addr, [c], 1);
    second := DroppingRun(m, f, [c], t);
  }
}
