/**
 The breakpoint protocol as a step system: any number of kernel threads, each running
 kernel code or one activation of int3_drddr/int3_real_work, and one controller running
 start and stop (drddr/drddr-main.c). Locked regions are one step each; the unlocked
 reads of bp_stopping and bp_trap_count are steps of their own.
 */
module Protocol {
  import opened Words
  import opened Counting
  import opened BpTable

  /** Where a thread is between two steps; Running is ordinary kernel code. */
  datatype Pc =
    | Running
    | Trapped                      // INT3 delivered, `ip` is one past it
    | Checked                      // bp_check found the address, `ip` moved back onto it
    | Removed                      // bp_remove succeeded
    | Counted                      // bp_inc_trapped succeeded
    | Watching                     // operand decoded, watchpoint armed and disarmed
    | Adding(readEpoch: nat)       // inside bp_add(-1), past its unlocked read of bp_stopping
    | Added                        // bp_add returned

  datatype Thread<Cpu> = Thread(pc: Pc, ip: nat, cpu: Cpu)

  /** What an instruction or an exception handler does to the thread that runs it. */
  datatype Effect<Cpu, Data> = Effect(ip: nat, cpu: Cpu, data: Data)

  /** The controller, between two steps of start or stop. */
  datatype Ctl =
    | Stopped                            // `running` is false
    | Initing(list: seq<nat>, next: nat) // bp_init: count set, entries below `next` written
    | Unstopping                         // bp_init: about to clear bp_stopping
    | Seeding                            // start: between two bp_add calls
    | SeedAdding(readEpoch: nat)         // start: inside bp_add, past the unlocked read
    | Active                             // `running` is true
    | Waiting                            // bp_clean: critical section done, polling bp_trap_count

  /** History: which bp_add call planted an entry, and between which clean-ups it read and locked. */
  datatype AddCall = AddCall(id: nat, read: nat, lock: nat)

  /** `epoch` counts finished critical sections of bp_clean, `calls` the successful bp_add calls. */
  datatype State<Cpu, Data> = State(
    bp: Table, threads: seq<Thread<Cpu>>, data: Data, ctl: Ctl,
    epoch: nat, calls: nat, setBy: map<nat, AddCall>)

  /** The processor, and the kernel text as it was before the module was loaded. */
  datatype Machine<!Cpu(!new), !Data(!new)> = Machine(
    orig: seq<Byte>,
    length: seq<Byte> -> nat,
    exec: (seq<Byte>, nat, Cpu, Data) -> Effect<Cpu, Data>,
    oldInt3: (nat, Cpu, Data) -> Effect<Cpu, Data>)

  datatype Action =
    | Execute(t: nat) | Trap(t: nat) | Check(t: nat) | Remove(t: nat) | Inc(t: nat)
    | Watch(t: nat) | ReadStopping(t: nat) | ReAdd(t: nat, choice: nat) | Dec(t: nat)
    | InitBegin(list: seq<nat>) | InitEntry | ResetCount | ClearStopping
    | SeedRead | SeedAdd(choice: nat) | FinishStart
    | CleanLocked | CleanWait

  predicate IsThreadAction(a: Action) {
    a.Execute? || a.Trap? || a.Check? || a.Remove? || a.Inc? || a.Watch? || a.ReadStopping? || a.ReAdd? || a.Dec?
  }

  ghost predicate CanAdd(bp: Table, i: nat) {
    i < bp.count <= |bp.state| && bp.state[i] != Using
  }

  ghost predicate Full(bp: Table)
    requires bp.count <= |bp.state|
  {
    UsageCount(bp) == bp.count
  }

  /** When a step may be taken; the choice of bp_add(-1) is any free entry. */
  ghost predicate Enabled<Cpu(!new), Data(!new)>(m: Machine<Cpu, Data>, s: State<Cpu, Data>, a: Action)
    requires s.bp.Shaped()
  {
    if IsThreadAction(a) then
      a.t < |s.threads| &&
      var th := s.threads[a.t];
      match a
      case Execute(_) => th.pc.Running? && th.ip < |s.bp.text| && s.bp.text[th.ip] != INT3
      case Trap(_) => th.pc.Running? && th.ip < |s.bp.text| && s.bp.text[th.ip] == INT3
      case Check(_) => th.pc.Trapped? && th.ip > 0
      case Remove(_) => th.pc.Checked?
      case Inc(_) => th.pc.Removed?
      case Watch(_) => th.pc.Counted?
      case ReadStopping(_) => th.pc.Watching?
      case ReAdd(_, choice) => th.pc.Adding? && (Full(s.bp) || CanAdd(s.bp, choice))
      case _ => th.pc.Added?
    else
      match a
      case InitBegin(list) => s.ctl.Stopped? && |list| <= |s.bp.addr| && GoodList(list, m.orig)
      case InitEntry => s.ctl.Initing? && s.ctl.next < |s.ctl.list| <= |s.bp.addr|
      case ResetCount => s.ctl.Initing? && s.ctl.next == |s.ctl.list|
      case ClearStopping => s.ctl.Unstopping?
      case SeedRead => s.ctl.Seeding?
      case SeedAdd(_) => s.ctl.SeedAdding?
      case FinishStart => s.ctl.Seeding?
      case CleanLocked => s.ctl.Active?
      case _ => s.ctl.Waiting? && s.bp.trapCount == 0
  }

  function Put<Cpu, Data>(s: State<Cpu, Data>, t: nat, th: Thread<Cpu>): State<Cpu, Data>
    requires t < |s.threads|
  {
    s.(threads := s.threads[t := th])
  }

  function SetPc<Cpu, Data>(s: State<Cpu, Data>, t: nat, pc: Pc): State<Cpu, Data>
    requires t < |s.threads|
  {
    Put(s, t, s.threads[t].(pc := pc))
  }

  function RunEffect<Cpu, Data>(s: State<Cpu, Data>, t: nat, e: Effect<Cpu, Data>): State<Cpu, Data>
    requires t < |s.threads|
  {
    Put(s, t, Thread(Running, e.ip, e.cpu)).(data := e.data)
  }

  /** The locked part of bp_add once an entry is chosen. */
  function PlantBy<Cpu, Data>(s: State<Cpu, Data>, i: nat, read: nat): State<Cpu, Data>
    requires s.bp.Shaped() && i < s.bp.count
  {
    s.(bp := Plant(s.bp, i), calls := s.calls + 1, setBy := s.setBy[i := AddCall(s.calls, read, s.epoch)])
  }

  ghost function Next<Cpu(!new), Data(!new)>(m: Machine<Cpu, Data>, s: State<Cpu, Data>, a: Action): State<Cpu, Data>
    requires s.bp.Shaped() && Enabled(m, s, a)
  {
    match a
    case Execute(t) =>
      var th := s.threads[t];
      RunEffect(s, t, m.exec(s.bp.text[th.ip..], th.ip, th.cpu, s.data))
    case Trap(t) =>
      Put(s, t, s.threads[t].(pc := Trapped, ip := s.threads[t].ip + 1))
    case Check(t) =>
      var th := s.threads[t];
      if s.bp.Listed(th.ip - 1) then Put(s, t, th.(pc := Checked, ip := th.ip - 1))
      else RunEffect(s, t, m.oldInt3(th.ip, th.cpu, s.data))
    case Remove(t) =>
      var r := RemoveBreakpoint(s.bp, s.threads[t].ip);
      SetPc(s.(bp := r.0), t, if r.1 then Removed else Running)
    case Inc(t) =>
      if s.bp.stopping then SetPc(s, t, Running)
      else SetPc(s.(bp := s.bp.(trapCount := s.bp.trapCount + 1)), t, Counted)
    case Watch(t) => SetPc(s, t, Watching)
    case ReadStopping(t) => SetPc(s, t, if s.bp.stopping then Added else Adding(s.epoch))
    case ReAdd(t, choice) =>
      if Full(s.bp) then SetPc(s, t, Added)
      else SetPc(PlantBy(s, choice, s.threads[t].pc.readEpoch), t, Added)
    case Dec(t) => SetPc(s.(bp := s.bp.(trapCount := s.bp.trapCount - 1)), t, Running)
    case InitBegin(list) => s.(bp := s.bp.(count := |list|), ctl := Initing(list, 0))
    case InitEntry =>
      var k := s.ctl.next;
      s.(bp := WriteEntry(s.bp, k, s.ctl.list[k]), ctl := s.ctl.(next := k + 1))
    case ResetCount => s.(bp := s.bp.(trapCount := 0), ctl := Unstopping)
    case ClearStopping => s.(bp := s.bp.(stopping := false), ctl := Seeding)
    case SeedRead => if s.bp.stopping then s else s.(ctl := SeedAdding(s.epoch))
    case SeedAdd(choice) =>
      if CanAdd(s.bp, choice) then PlantBy(s, choice, s.ctl.readEpoch).(ctl := Seeding)
      else s.(ctl := Seeding)
    case FinishStart => s.(ctl := Active)
    case CleanLocked => s.(bp := CleanFrom(s.bp, 0), ctl := Waiting, epoch := s.epoch + 1)
    case CleanWait => s.(ctl := Stopped)
  }

  /** The module just loaded: zeroed globals, no activation anywhere. */
  ghost predicate Initial<Cpu(!new), Data(!new)>(m: Machine<Cpu, Data>, s: State<Cpu, Data>) {
    && s.bp.Shaped() && s.bp.text == m.orig
    && s.bp.count == 0 && s.bp.trapCount == 0 && !s.bp.stopping
    && (forall i :: 0 <= i < |s.bp.state| ==> s.bp.state[i] == Unused)
    && (forall t :: 0 <= t < |s.threads| ==> s.threads[t].pc.Running?)
    && s.ctl.Stopped? && s.epoch == 0 && s.calls == 0 && s.setBy == map[]
  }

  // ---- Quiescence -----------------------------------------------------------------

  /** Between a successful bp_inc_trapped and its bp_dec_trapped. */
  predicate IsCounted<Cpu>(th: Thread<Cpu>) {
    th.pc.Counted? || th.pc.Watching? || th.pc.Adding? || th.pc.Added?
  }

  predicate BeforeStart(c: Ctl) {
    c.Stopped? || c.Initing? || c.Unstopping?
  }

  ghost predicate Quiet<Cpu, Data>(s: State<Cpu, Data>) {
    && s.bp.Shaped()
    && s.bp.trapCount == Tally(s.threads, IsCounted)
    && (BeforeStart(s.ctl) ==> s.bp.trapCount == 0)
    && (BeforeStart(s.ctl) && !s.bp.stopping ==>
          NoneInUse(s.bp) && forall t :: 0 <= t < |s.threads| ==> !s.threads[t].pc.Removed?)
    && (s.ctl.Seeding? || s.ctl.SeedAdding? || s.ctl.Active? ==> !s.bp.stopping)
    && (s.ctl.Waiting? ==> s.bp.stopping)
    && (s.ctl.Initing? ==> s.ctl.next <= |s.ctl.list| <= |s.bp.addr|)
    && (s.ctl.Initing? ==> forall i :: 0 <= i < |s.ctl.list| ==> s.ctl.list[i] < |s.bp.text|)
  }

  lemma InitialQuiet<Cpu(!new), Data(!new)>(m: Machine<Cpu, Data>, s: State<Cpu, Data>)
    requires Initial(m, s)
    ensures Quiet(s)
  {
    TallyBounds(s.threads, IsCounted);
  }

  lemma ThreadStepCount<Cpu(!new), Data(!new)>(m: Machine<Cpu, Data>, s: State<Cpu, Data>, a: Action)
    requires s.bp.Shaped() && IsThreadAction(a) && Enabled(m, s, a)
    ensures var s' := Next(m, s, a);
            && s'.bp.trapCount - s.bp.trapCount == Tally(s'.threads, IsCounted) - Tally(s.threads, IsCounted)
            && Tally(s.threads, IsCounted) >= if IsCounted(s.threads[a.t]) then 1 else 0
  {
    var s' := Next(m, s, a);
    TallyBounds(s.threads, IsCounted);
    TallyUpdate(s.threads, IsCounted, a.t, s'.threads[a.t]);
    assert s'.threads == s.threads[a.t := s'.threads[a.t]];
  }

  lemma ThreadStepQuiet<Cpu(!new), Data(!new)>(m: Machine<Cpu, Data>, s: State<Cpu, Data>, a: Action)
    requires Quiet(s) && IsThreadAction(a) && Enabled(m, s, a)
    ensures Quiet(Next(m, s, a))
  {
    ThreadStepCount(m, s, a);
  }

  lemma ControllerStepQuiet<Cpu(!new), Data(!new)>(m: Machine<Cpu, Data>, s: State<Cpu, Data>, a: Action)
    requires Quiet(s) && !IsThreadAction(a) && Enabled(m, s, a) && |s.bp.text| == |m.orig|
    ensures Quiet(Next(m, s, a))
  {
    match a
    case InitEntry =>
    case SeedAdd(choice) =>
    case CleanLocked =>
    case _ =>
  }

  /** bp_trap_count counts the activations inside the module, whatever step is taken. */
  lemma StepQuiet<Cpu(!new), Data(!new)>(m: Machine<Cpu, Data>, s: State<Cpu, Data>, a: Action)
    requires Quiet(s) && Enabled(m, s, a) && |s.bp.text| == |m.orig|
    ensures Quiet(Next(m, s, a)) && |Next(m, s, a).bp.text| == |m.orig|
  {
    if IsThreadAction(a) { ThreadStepQuiet(m, s, a); } else { ControllerStepQuiet(m, s, a); }
  }
}
