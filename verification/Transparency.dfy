/**
 The instrumented kernel stutter-refines the uninstrumented one as long as no trap is dropped:
 the threads, seen at the address where they will resume, take exactly the steps they would
 take over the original text.
 */
module Transparency {
  import opened Words
  import opened BpTable
  import opened Protocol
  import opened ProtocolText
  import opened ProtocolRuns

  // ---- The uninstrumented kernel -----------------------------------------------------

  datatype PlainThread<Cpu> = PlainThread(ip: nat, cpu: Cpu)
  datatype Plain<Cpu, Data> = Plain(threads: seq<PlainThread<Cpu>>, data: Data)

  ghost predicate PlainEnabled<Cpu(!new), Data(!new)>(m: Machine<Cpu, Data>, p: Plain<Cpu, Data>, t: nat) {
    t < |p.threads| && p.threads[t].ip < |m.orig|
  }

  /** Thread `t` executes the instruction at its ip; an INT3 of the kernel's own goes to the old handler. */
  ghost function PlainStep<Cpu(!new), Data(!new)>(m: Machine<Cpu, Data>, p: Plain<Cpu, Data>, t: nat): Plain<Cpu, Data>
    requires PlainEnabled(m, p, t)
  {
    var th := p.threads[t];
    var e := if m.orig[th.ip] == INT3 then m.oldInt3(th.ip + 1, th.cpu, p.data)
             else m.exec(m.orig[th.ip..], th.ip, th.cpu, p.data);
    Plain(p.threads[t := PlainThread(e.ip, e.cpu)], e.data)
  }

  ghost predicate IsPlainRun<Cpu(!new), Data(!new)>(m: Machine<Cpu, Data>, p: Plain<Cpu, Data>, schedule: seq<nat>)
    decreases |schedule|
  {
    schedule == [] ||
    (PlainEnabled(m, p, schedule[0]) && IsPlainRun(m, PlainStep(m, p, schedule[0]), schedule[1..]))
  }

  ghost function PlainFinal<Cpu(!new), Data(!new)>(m: Machine<Cpu, Data>, p: Plain<Cpu, Data>, schedule: seq<nat>): Plain<Cpu, Data>
    requires IsPlainRun(m, p, schedule)
    decreases |schedule|
  {
    if schedule == [] then p else PlainFinal(m, PlainStep(m, p, schedule[0]), schedule[1..])
  }

  // ---- The abstraction ------------------------------------------------------------------

  /** The address at which the thread executes its next instruction. */
  function ResumeAt<Cpu>(th: Thread<Cpu>): nat {
    if th.pc.Trapped? && th.ip > 0 then th.ip - 1 else th.ip
  }

  function Abstract<Cpu, Data>(s: State<Cpu, Data>): Plain<Cpu, Data> {
    Plain(seq(|s.threads|, i requires 0 <= i < |s.threads| => PlainThread(ResumeAt(s.threads[i]), s.threads[i].cpu)), s.data)
  }

  /** A trap that left `ip` one past the INT3 is on a listed address or on an INT3 of the kernel's own. */
  ghost predicate Known<Cpu(!new), Data(!new)>(m: Machine<Cpu, Data>, bp: Table, ip: nat)
    requires bp.Shaped()
  {
    0 < ip <= |m.orig| && (bp.Listed(ip - 1) || m.orig[ip - 1] == INT3)
  }

  /** Whenever bp_check looks at a trap, the list in force knows it. */
  ghost predicate NothingDropped<Cpu(!new), Data(!new)>(m: Machine<Cpu, Data>, s: State<Cpu, Data>, acts: seq<Action>)
    requires IsRun(m, s, acts)
    decreases |acts|
  {
    acts == [] ||
    ((acts[0].Check? ==> Known(m, s.bp, s.threads[acts[0].t].ip)) && NothingDropped(m, Next(m, s, acts[0]), acts[1..]))
  }

  /** An instruction's effect depends on its own bytes only. */
  ghost predicate SelfDelimiting<Cpu(!new), Data(!new)>(m: Machine<Cpu, Data>) {
    forall code, code', ip, cpu, data ::
      m.length(code) <= |code| && m.length(code) <= |code'| && code[..m.length(code)] == code'[..m.length(code)] ==>
        m.exec(code, ip, cpu, data) == m.exec(code', ip, cpu, data)
  }

  /** No breakpoint is planted strictly inside the instruction at `ip`. */
  ghost predicate OnBoundary<Cpu(!new), Data(!new)>(m: Machine<Cpu, Data>, bp: Table, ip: nat)
    requires bp.Shaped()
  {
    && ip < |m.orig|
    && ip + m.length(m.orig[ip..]) <= |m.orig|
    && forall a :: ip < a < ip + m.length(m.orig[ip..]) ==> !Planted(bp, a)
  }

  ghost predicate Aligned<Cpu(!new), Data(!new)>(m: Machine<Cpu, Data>, s: State<Cpu, Data>, acts: seq<Action>)
    requires IsRun(m, s, acts)
    decreases |acts|
  {
    acts == [] ||
    ((acts[0].Execute? ==> OnBoundary(m, s.bp, s.threads[acts[0].t].ip)) && Aligned(m, Next(m, s, acts[0]), acts[1..]))
  }

  /** The steps that the uninstrumented kernel takes too. */
  ghost predicate Visible<Cpu, Data>(s: State<Cpu, Data>, a: Action)
    requires s.bp.Shaped()
  {
    a.Execute? || (a.Check? && a.t < |s.threads| && s.threads[a.t].ip > 0 && !s.bp.Listed(s.threads[a.t].ip - 1))
  }

  ghost function Schedule<Cpu(!new), Data(!new)>(m: Machine<Cpu, Data>, s: State<Cpu, Data>, acts: seq<Action>): seq<nat>
    requires IsRun(m, s, acts)
    decreases |acts|
  {
    if acts == [] then []
    else (if Visible(s, acts[0]) then [acts[0].t] else []) + Schedule(m, Next(m, s, acts[0]), acts[1..])
  }

  // ---- One step ---------------------------------------------------------------------------

  /** The live bytes of an undisturbed instruction are the original ones. */
  lemma LiveInstruction<Cpu(!new), Data(!new)>(m: Machine<Cpu, Data>, bp: Table, ip: nat)
    requires TextOk(bp, m.orig) && ip < |m.orig| && bp.text[ip] != INT3 && OnBoundary(m, bp, ip)
    ensures var n := m.length(m.orig[ip..]); m.orig[ip..][..n] == bp.text[ip..][..n]
  {
    var n := m.length(m.orig[ip..]);
    forall k | 0 <= k < n ensures m.orig[ip..][k] == bp.text[ip..][k] {
      if k == 0 { TextAt(bp, m.orig, ip); } else { TextAt(bp, m.orig, ip + k); }
    }
  }

  lemma VisibleStep<Cpu(!new), Data(!new)>(m: Machine<Cpu, Data>, s: State<Cpu, Data>, a: Action)
    requires SelfDelimiting(m) && Safe(m, s) && Enabled(m, s, a) && Visible(s, a)
    requires a.Execute? ==> OnBoundary(m, s.bp, s.threads[a.t].ip)
    requires a.Check? ==> Known(m, s.bp, s.threads[a.t].ip)
    ensures PlainEnabled(m, Abstract(s), a.t) && Abstract(Next(m, s, a)) == PlainStep(m, Abstract(s), a.t)
  {
    var th := s.threads[a.t];
    if a.Execute? {
      LiveInstruction(m, s.bp, th.ip);
      TextAt(s.bp, m.orig, th.ip);
    }
    assert Abstract(Next(m, s, a)).threads == PlainStep(m, Abstract(s), a.t).threads;
  }

  lemma HiddenStep<Cpu(!new), Data(!new)>(m: Machine<Cpu, Data>, s: State<Cpu, Data>, a: Action)
    requires Safe(m, s) && Enabled(m, s, a) && !Visible(s, a)
    ensures Abstract(Next(m, s, a)) == Abstract(s)
  {
    var s' := Next(m, s, a);
    if IsThreadAction(a) {
      assert ResumeAt(s'.threads[a.t]) == ResumeAt(s.threads[a.t]);
      assert s'.threads == s.threads[a.t := s'.threads[a.t]];
    }
    assert Abstract(s').threads == Abstract(s).threads;
  }

  // ---- Whole runs -----------------------------------------------------------------------

  /**
   Transparency: over any interleaving, restarts included, in which no trap is dropped, the
   threads, seen where they resume, run the original text: nothing skipped, nothing executed twice.
   */
  lemma {:induction false} RunIsTransparent<Cpu(!new), Data(!new)>(
    m: Machine<Cpu, Data>, s: State<Cpu, Data>, acts: seq<Action>)
    requires SelfDelimiting(m) && Safe(m, s) && IsRun(m, s, acts)
    requires CleanStarts(m, s, acts) && Aligned(m, s, acts) && NothingDropped(m, s, acts)
    ensures IsPlainRun(m, Abstract(s), Schedule(m, s, acts))
    ensures PlainFinal(m, Abstract(s), Schedule(m, s, acts)) == Abstract(Final(m, s, acts))
    decreases |acts|
  {
    if acts != [] {
      var a, rest := acts[0], acts[1..];
      var s' := Next(m, s, a);
      StepQuiet(m, s, a);
      StepText(m, s, a);
      StepLate(m, s, a);
      RunIsTransparent(m, s', rest);
      if Visible(s, a) {
        VisibleStep(m, s, a);
        assert Schedule(m, s, acts)[1..] == Schedule(m, s', rest);
      } else {
        HiddenStep(m, s, a);
        assert Schedule(m, s, acts) == Schedule(m, s', rest);
      }
    }
  }

  // ---- Exactly when a step and a run are transparent ----------------------------------

  /** A trap that the old handler would treat as the instruction, or not at all, may as well be dropped. */
  ghost predicate Harmless<Cpu(!new), Data(!new)>(m: Machine<Cpu, Data>, s: State<Cpu, Data>, t: nat)
    requires s.bp.Shaped() && t < |s.threads| && s.threads[t].ip > 0
  {
    var th := s.threads[t];
    var e := m.oldInt3(th.ip, th.cpu, s.data);
    || Known(m, s.bp, th.ip)
    || e == Effect(th.ip - 1, th.cpu, s.data)
    || (th.ip <= |m.orig| && e == m.exec(m.orig[th.ip - 1..], th.ip - 1, th.cpu, s.data))
  }

  /** The step is none, or one step of its thread, over the original text. */
  ghost predicate Follows<Cpu(!new), Data(!new)>(m: Machine<Cpu, Data>, s: State<Cpu, Data>, a: Action)
    requires s.bp.Shaped() && Enabled(m, s, a)
  {
    || Abstract(Next(m, s, a)) == Abstract(s)
    || (IsThreadAction(a) && PlainEnabled(m, Abstract(s), a.t)
        && Abstract(Next(m, s, a)) == PlainStep(m, Abstract(s), a.t))
  }

  lemma CheckFollowsIff<Cpu(!new), Data(!new)>(m: Machine<Cpu, Data>, s: State<Cpu, Data>, t: nat)
    requires Safe(m, s) && Enabled(m, s, Check(t))
    ensures Follows(m, s, Check(t)) <==> Harmless(m, s, t)
  {
    var th := s.threads[t];
    if s.bp.Listed(th.ip - 1) {
      HiddenStep(m, s, Check(t));
    } else {
      var e := m.oldInt3(th.ip, th.cpu, s.data);
      var p, p' := Abstract(s), Abstract(Next(m, s, Check(t)));
      assert p'.data == e.data && p'.threads == p.threads[t := PlainThread(e.ip, e.cpu)];
      assert p.threads[t] == PlainThread(th.ip - 1, th.cpu);
      assert p' == p <==> e == Effect(th.ip - 1, th.cpu, s.data) by {
        if e == Effect(th.ip - 1, th.cpu, s.data) { assert p'.threads == p.threads; }
        if p' == p { assert p'.threads[t] == PlainThread(e.ip, e.cpu); }
      }
      if PlainEnabled(m, p, t) { PlainAgreesIff(m, p, t, e); }
    }
  }

  lemma PlainAgreesIff<Cpu(!new), Data(!new)>(m: Machine<Cpu, Data>, p: Plain<Cpu, Data>, t: nat, e: Effect<Cpu, Data>)
    requires PlainEnabled(m, p, t)
    ensures var th := p.threads[t];
            Plain(p.threads[t := PlainThread(e.ip, e.cpu)], e.data) == PlainStep(m, p, t) <==>
              e == if m.orig[th.ip] == INT3 then m.oldInt3(th.ip + 1, th.cpu, p.data)
                   else m.exec(m.orig[th.ip..], th.ip, th.cpu, p.data)
  {
    var th := p.threads[t];
    var e' := if m.orig[th.ip] == INT3 then m.oldInt3(th.ip + 1, th.cpu, p.data)
              else m.exec(m.orig[th.ip..], th.ip, th.cpu, p.data);
    assert p.threads[t := PlainThread(e.ip, e.cpu)][t] == PlainThread(e.ip, e.cpu);
    assert p.threads[t := PlainThread(e'.ip, e'.cpu)][t] == PlainThread(e'.ip, e'.cpu);
  }

  ghost predicate RunFollows<Cpu(!new), Data(!new)>(m: Machine<Cpu, Data>, s: State<Cpu, Data>, acts: seq<Action>)
    requires IsRun(m, s, acts)
    decreases |acts|
  {
    acts == [] || (Follows(m, s, acts[0]) && RunFollows(m, Next(m, s, acts[0]), acts[1..]))
  }

  ghost predicate ChecksHarmless<Cpu(!new), Data(!new)>(m: Machine<Cpu, Data>, s: State<Cpu, Data>, acts: seq<Action>)
    requires IsRun(m, s, acts)
    decreases |acts|
  {
    acts == [] ||
    ((acts[0].Check? ==> Harmless(m, s, acts[0].t)) && ChecksHarmless(m, Next(m, s, acts[0]), acts[1..]))
  }

  /** A run follows the original text step by step exactly when each bp_check it makes is harmless. */
  lemma {:induction false} RunFollowsIff<Cpu(!new), Data(!new)>(m: Machine<Cpu, Data>, s: State<Cpu, Data>, acts: seq<Action>)
    requires SelfDelimiting(m) && Safe(m, s) && IsRun(m, s, acts) && CleanStarts(m, s, acts) && Aligned(m, s, acts)
    ensures RunFollows(m, s, acts) <==> ChecksHarmless(m, s, acts)
    decreases |acts|
  {
    if acts != [] {
      var a := acts[0];
      StepQuiet(m, s, a);
      StepText(m, s, a);
      StepLate(m, s, a);
      if a.Check? { CheckFollowsIff(m, s, a.t); }
      else if a.Execute? { VisibleStep(m, s, a); }
      else { HiddenStep(m, s, a); }
      RunFollowsIff(m, Next(m, s, a), acts[1..]);
    }
  }
}
