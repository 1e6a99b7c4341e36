/** start, stop and the INT3 handler of drddr/drddr-main.c. */
module Detector {
  import opened Words
  import opened Counting
  import opened BpTable
  import opened Breakpoints
  import WatchTable
  import Watchpoints

  function Max(a: int, b: int): int {
    if a < b then b else a
  }

  function Min(a: int, b: int): int {
    if a < b then a else b
  }

  /** Every entry is drawn again and again. */
  ghost predicate Fair(random: nat -> nat, n: nat)
    requires n > 0
  {
    forall i: nat, from: nat :: i < n ==> Draws(random, n, i, from)
  }

  /** A session that has been seeded over the kernel text `orig`. */
  ghost predicate Seeded(t: Table, list: seq<nat>, orig: seq<Byte>) {
    TextOk(t, orig) && GoodList(list, orig) && t.addr[..t.count] == list && !t.stopping
  }

  lemma PlantKeepsSeeded(t: Table, list: seq<nat>, orig: seq<Byte>, i: nat)
    requires Seeded(t, list, orig) && i < t.count && t.state[i] != Using
    ensures Seeded(Plant(t, i), list, orig)
    ensures UsageCount(Plant(t, i)) == UsageCount(t) + 1
  {
    PlantKeepsText(t, orig, i);
    UsageUpdate(t, Plant(t, i), i);
  }

  /** bp_init over a text in its original state opens a session with nothing in use. */
  lemma InitSeeds(t: Table, list: seq<nat>, orig: seq<Byte>)
    requires t.Shaped() && t.text == orig && |list| <= |t.addr| && GoodList(list, orig)
    requires NoneInUse(t)
    ensures Seeded(InitTable(t, list), list, orig) && NoneInUse(InitTable(t, list))
  {
    var r := InitTable(t, list);
    assert r.text == orig;
    assert forall i :: 0 <= i < |r.state| ==> r.state[i] != Using;
  }

  lemma UsageBound(t: Table)
    requires t.Shaped()
    ensures UsageCount(t) <= t.count
  {
    TallyBounds(t.state[..t.count], IsUsing);
  }

  lemma UnplantedCount(t: Table)
    requires t.Shaped() && NoneInUse(t)
    ensures UsageCount(t) == 0
  {
    TallyBounds(t.state[..t.count], IsUsing);
  }

  /** The strided seeding from entry `i` on. */
  function StrideFrom(t: Table, stride: nat, i: nat): (r: Table)
    requires t.Shaped() && stride > 0
    ensures r.Shaped() && r.count == t.count
    decreases t.count - i
  {
    if i >= t.count then t
    else StrideFrom(if t.state[i] == Using then t else Plant(t, i), stride, i + stride)
  }

  lemma {:induction false} StrideKeepsSeeded(t: Table, list: seq<nat>, orig: seq<Byte>, stride: nat, i: nat)
    requires Seeded(t, list, orig) && stride > 0
    ensures Seeded(StrideFrom(t, stride, i), list, orig)
    decreases t.count - i
  {
    if i < t.count {
      if t.state[i] != Using { PlantKeepsSeeded(t, list, orig, i); }
      StrideKeepsSeeded(if t.state[i] == Using then t else Plant(t, i), list, orig, stride, i + stride);
    }
  }

  lemma {:induction false} StrideIndices(t: Table, stride: nat, i: nat, j: nat)
    requires t.Shaped() && stride > 0 && i % stride == 0 && j < t.count
    ensures StrideFrom(t, stride, i).state[j] == Using <==>
              t.state[j] == Using || (i <= j && j % stride == 0)
    decreases t.count - i
  {
    if i < t.count {
      ModNext(i, stride);
      if i < j < i + stride { Between(i, j, stride); }
      StrideIndices(if t.state[i] == Using then t else Plant(t, i), stride, i + stride, j);
    }
  }

  lemma StrideSeeds(t: Table, list: seq<nat>, orig: seq<Byte>, stride: nat)
    requires Seeded(t, list, orig) && NoneInUse(t) && stride > 0
    ensures var r := StrideFrom(t, stride, 0);
            Seeded(r, list, orig) && forall j :: 0 <= j < |list| ==> (r.state[j] == Using <==> j % stride == 0)
  {
    StrideKeepsSeeded(t, list, orig, stride, 0);
    forall j | 0 <= j < |list| ensures StrideFrom(t, stride, 0).state[j] == Using <==> j % stride == 0 {
      StrideIndices(t, stride, 0, j);
    }
  }

  /** `n` successful bp_add(-1) calls. */
  ghost predicate PlantsTo(before: Table, after: Table, n: nat)
    decreases n
  {
    if n == 0 then before == after
    else exists mid: Table :: PlantsTo(before, mid, n - 1) && mid.Shaped() && PlantedAny(mid, after)
  }

  lemma {:induction false} PlantsSeed(before: Table, after: Table, n: nat, list: seq<nat>, orig: seq<Byte>)
    requires Seeded(before, list, orig) && UsageCount(before) == 0 && PlantsTo(before, after, n)
    decreases n
    ensures Seeded(after, list, orig) && UsageCount(after) == n
  {
    if n > 0 {
      var mid: Table :| PlantsTo(before, mid, n - 1) && mid.Shaped() && PlantedAny(mid, after);
      PlantsSeed(before, mid, n - 1, list, orig);
      var i: nat :| i < mid.count && mid.state[i] != Using && after == Plant(mid, i);
      PlantKeepsSeeded(mid, list, orig, i);
    }
  }

  lemma {:induction false} PlantsCount(before: Table, after: Table, n: nat)
    requires before.Shaped() && UsageCount(before) == 0 && PlantsTo(before, after, n)
    decreases n
    ensures after.Shaped() && after.count == before.count && UsageCount(after) == n && after.stopping == before.stopping
  {
    if n > 0 {
      var mid: Table :| PlantsTo(before, mid, n - 1) && mid.Shaped() && PlantedAny(mid, after);
      PlantsCount(before, mid, n - 1);
      PlantedCount(mid, after);
    }
  }

  lemma PlantedCount(before: Table, after: Table)
    requires before.Shaped() && PlantedAny(before, after)
    ensures after.Shaped() && after.count == before.count && after.stopping == before.stopping
    ensures UsageCount(after) == UsageCount(before) + 1
  {
    var i: nat :| i < before.count && before.state[i] != Using && after == Plant(before, i);
    UsageUpdate(before, after, i);
  }

  /** The effect of one bp_add(-1) with a fair stream. */
  ghost predicate PlantedUnlessFull(before: Table, after: Table)
    requires before.Shaped()
  {
    if UsageCount(before) < before.count then PlantedAny(before, after) else after == before
  }

  /** One bp_add(-1) more, successful unless the table is full. */
  lemma {:induction false} RandomStep(start: Table, t: Table, after: Table, i: nat)
    requires start.Shaped() && UsageCount(start) == 0 && PlantsTo(start, t, Min(i, start.count)) && t.Shaped()
    requires PlantedUnlessFull(t, after)
    ensures PlantsTo(start, after, Min(i + 1, start.count))
  {
    PlantsCount(start, t, Min(i, start.count));
    if i < start.count { OneMore(start, t, after, i); }
  }

  lemma {:induction false} OneMore(start: Table, t: Table, after: Table, n: nat)
    requires PlantsTo(start, t, n) && t.Shaped() && PlantedAny(t, after)
    ensures PlantsTo(start, after, n + 1)
  {
    assert PlantsTo(start, t, n + 1 - 1);
  }

  /** What the seeding loops do to the table, by the value of i_param. */
  ghost predicate SeededBy(before: Table, after: Table, param: int)
    requires before.Shaped()
  {
    if param == -1 then after == if before.count > 0 then Plant(before, 0) else before
    else if -65536 <= param <= -2 then after == StrideFrom(before, -param, 0)
    else PlantsTo(before, after, Min(Max(param, 0), before.count))
  }

  /** Which entries a freshly started session has in use, by the value of i_param. */
  ghost predicate SeedingMet(t: Table, param: int)
    requires t.Shaped()
  {
    if param == -1 then forall i :: 0 <= i < t.count ==> (t.state[i] == Using <==> i == 0)
    else if -65536 <= param <= -2 then
      forall i :: 0 <= i < t.count ==> (t.state[i] == Using <==> i % -param == 0)
    else UsageCount(t) == Min(Max(param, 0), t.count)
  }

  /** The three modes of start, by the number it is given. */
  lemma SeedingModes(t: Table, param: int)
    requires t.Shaped() && SeedingMet(t, param)
    ensures param == -1 && t.count > 0 ==> t.state[0] == Using && forall i :: 1 <= i < t.count ==> t.state[i] != Using
    ensures -65536 <= param <= -2 ==> forall i :: 0 <= i < t.count ==> (t.state[i] == Using <==> i % -param == 0)
    ensures param < -65536 || param == 0 ==> UsageCount(t) == 0
    ensures param > 0 ==> UsageCount(t) == if param < t.count then param else t.count
  {
  }

  lemma SeedingMeans(before: Table, after: Table, param: int, list: seq<nat>, orig: seq<Byte>)
    requires Seeded(before, list, orig) && NoneInUse(before) && SeededBy(before, after, param)
    ensures Seeded(after, list, orig) && SeedingMet(after, param)
  {
    if param == -1 {
      if |list| > 0 { PlantKeepsSeeded(before, list, orig, 0); }
    } else if -65536 <= param <= -2 {
      StrideSeeds(before, list, orig, -param);
    } else {
      UnplantedCount(before);
      PlantsSeed(before, after, Min(Max(param, 0), before.count), list, orig);
    }
  }

  /** The two components share no storage. */
  ghost predicate Separate(bp: BreakpointList, wl: Watchpoints.WatchList) {
    && bp.addr as object !in {wl.usage, wl.addr, wl.length, wl.iswrite, wl.num, wl.cpus}
    && bp.state as object !in {wl.usage, wl.addr, wl.length, wl.iswrite, wl.num, wl.cpus}
    && bp.backup as object !in {wl.usage, wl.addr, wl.length, wl.iswrite, wl.num, wl.cpus}
    && bp.text as object !in {wl.usage, wl.addr, wl.length, wl.iswrite, wl.num, wl.cpus}
  }

  class Controller {
    const bp: BreakpointList
    const wl: Watchpoints.WatchList
    var running: bool
    var param: int

    constructor (bp: BreakpointList, wl: Watchpoints.WatchList)
      ensures this.bp == bp && this.wl == wl && !running && param == -1
    {
      this.bp, this.wl := bp, wl;
      running := false;
      param := -1;
    }

    /**
     stop; the poll of bp_trap_count ends only when no activation is inside, which a
     sequential call has to start with.
     */
    method Stop()
      requires bp.Valid() && wl.Valid() && Separate(bp, wl) && (running ==> bp.trapCount == 0)
      modifies `running, bp`stopping, bp.state, bp.text, wl.usage, wl.cpus
      ensures bp.Valid() && wl.Valid() && !running
      ensures wl.View() == if old(running) then WatchTable.Clean(old(wl.View())) else old(wl.View())
      ensures old(running) ==> wl.AllCpusAgree()
      ensures bp.View() == if old(running) then CleanFrom(old(bp.View()), 0) else old(bp.View())
    {
      if !running { return; }
      bp.CleanLocked();
      wl.CleanWatches();
      running := false;
    }

    /** The strided mode: every `stride`-th entry from the first. */
    method SeedStride(stride: nat, random: nat -> nat)
      requires bp.Valid() && !bp.stopping && stride > 0
      modifies bp.state, bp.backup, bp.text
      ensures bp.Valid() && bp.View() == StrideFrom(old(bp.View()), stride, 0)
    {
      var i := 0;
      while i < bp.count
        invariant bp.Valid()
        invariant StrideFrom(bp.View(), stride, i) == StrideFrom(old(bp.View()), stride, 0)
      {
        var _, _ := bp.Add(i, random, 0);
        i := i + stride;
      }
    }

    /** One bp_add(-1) of the random mode. */
    method SeedOne(random: nat -> nat, from: nat) returns (next: nat)
      requires bp.Valid() && !bp.stopping && (bp.count > 0 ==> Fair(random, bp.count))
      modifies bp.state, bp.backup, bp.text
      ensures bp.Valid()
      ensures PlantedUnlessFull(old(bp.View()), bp.View())
    {
      UsageBound(bp.View());
      if UsageCount(bp.View()) < bp.count { FreeEntryDrawn(bp.View(), random, from); }
      var ok;
      ok, next := bp.Add(-1, random, from);
    }

    /** The random mode: `n` calls of bp_add(-1), of which those after the table is full fail. */
    method SeedRandom(n: int, random: nat -> nat)
      requires bp.Valid() && !bp.stopping && UsageCount(bp.View()) == 0
      requires bp.count > 0 ==> Fair(random, bp.count)
      modifies bp.state, bp.backup, bp.text
      ensures bp.Valid() && PlantsTo(old(bp.View()), bp.View(), Min(Max(n, 0), bp.count))
    {
      ghost var start := bp.View();
      var from := 0;
      var i := 0;
      while i < n
        invariant bp.Valid() && 0 <= i <= Max(n, 0)
        invariant PlantsTo(start, bp.View(), Min(i, bp.count))
      {
        ghost var t := bp.View();
        from := SeedOne(random, from);
        RandomStep(start, t, bp.View(), i);
        i := i + 1;
      }
    }

    /** The three seeding modes of start. */
    method Seed(random: nat -> nat)
      requires bp.Valid() && !bp.stopping && NoneInUse(bp.View())
      requires bp.count > 0 ==> Fair(random, bp.count)
      modifies bp.state, bp.backup, bp.text
      ensures bp.Valid() && SeededBy(old(bp.View()), bp.View(), param)
    {
      if param == -1 {
        if bp.count > 0 {
          assert bp.View().state[0] != Using;
          var _, _ := bp.Add(0, random, 0);
        }
      } else if param <= -2 && param >= -65536 {
        SeedStride(-param, random);
      } else {
        UnplantedCount(bp.View());
        SeedRandom(param, random);
      }
    }

    /** start, with no trap taken meanwhile. */
    method Start(list: seq<nat>, random: nat -> nat, ghost orig: seq<Byte>)
      requires bp.Valid() && wl.Valid() && Separate(bp, wl) && |list| <= bp.addr.Length && GoodList(list, orig)
      requires |list| > 0 ==> Fair(random, |list|)
      requires TextOk(bp.View(), orig)
      requires if running then bp.trapCount == 0 else NoneInUse(bp.View())
      modifies this, bp, bp.addr, bp.state, bp.backup, bp.text, wl.usage, wl.cpus
      ensures bp.Valid() && Seeded(bp.View(), list, orig) && running && param == -1 && bp.trapCount == 0
      ensures SeedingMet(bp.View(), old(param))
      ensures wl.Valid() && wl.View() == WatchTable.Clean(old(wl.View())) && wl.AllCpusAgree()
    {
      Begin(list, orig);
      ghost var t := bp.View();
      Seed(random);
      SeedingMeans(t, bp.View(), param, list, orig);
      param := -1;
      running := true;
    }

    /** start up to the seeding. */
    method Begin(list: seq<nat>, ghost orig: seq<Byte>)
      requires bp.Valid() && wl.Valid() && Separate(bp, wl) && |list| <= bp.addr.Length && GoodList(list, orig)
      requires TextOk(bp.View(), orig)
      requires if running then bp.trapCount == 0 else NoneInUse(bp.View())
      modifies `running, bp, bp.addr, bp.state, bp.text, wl.usage, wl.cpus
      ensures bp.Valid() && Seeded(bp.View(), list, orig) && NoneInUse(bp.View()) && bp.trapCount == 0
      ensures wl.Valid() && wl.View() == WatchTable.Clean(old(wl.View())) && wl.AllCpusAgree()
    {
      if running { Stop(); }
      wl.CleanWatches();
      Reset(list, old(running), old(bp.View()), orig);
    }

    /** bp_init, as start reaches it. */
    method Reset(list: seq<nat>, ghost cleaned: bool, ghost before: Table, ghost orig: seq<Byte>)
      requires bp.Valid() && |list| <= bp.addr.Length && GoodList(list, orig)
      requires TextOk(before, orig) && (!cleaned ==> NoneInUse(before))
      requires bp.View() == if cleaned then CleanFrom(before, 0) else before
      modifies bp, bp.addr, bp.state
      ensures bp.Valid() && Seeded(bp.View(), list, orig) && NoneInUse(bp.View()) && bp.trapCount == 0
    {
      if cleaned { CleanKeepsText(before, orig, 0); }
      NothingPlanted(bp.View(), orig);
      InitSeeds(bp.View(), list, orig);
      bp.Init(list);
    }

    /** start, then stop with no trap in between: the kernel text is back, byte for byte. */
    method StartThenStop(list: seq<nat>, random: nat -> nat, ghost orig: seq<Byte>)
      requires bp.Valid() && wl.Valid() && Separate(bp, wl) && |list| <= bp.addr.Length && GoodList(list, orig)
      requires |list| > 0 ==> Fair(random, |list|)
      requires TextOk(bp.View(), orig) && !running && NoneInUse(bp.View())
      modifies this, bp, bp.addr, bp.state, bp.backup, bp.text, wl.usage, wl.cpus
      ensures bp.Valid() && bp.text[..] == orig
      ensures wl.Valid() && wl.AllCpusAgree() && forall i :: 0 <= i < 4 ==> !wl.View().slots[i].used
    {
      Start(list, random, orig);
      CleanRestores(bp.View(), orig);
      Stop();
    }
  }

  // ---- The handler, one activation undisturbed --------------------------------------------

  /** How int3_drddr leaves the trapped thread. */
  datatype TrapExit =
    | OldHandler                 // not one of ours
    | Resume(ip: nat)            // back to the instruction
    | Deferred(ip: nat)          // to int3_actual_work, which comes back to the instruction

  /** What int3_drddr does to the table, and how it leaves the thread. */
  ghost predicate HandlerEffect(before: Table, ip: nat, exit: TrapExit, after: Table)
    requires before.Shaped() && ip > 0
  {
    && (exit.OldHandler? <==> !before.Listed(ip - 1))
    && (exit.OldHandler? ==> after == before)
    && (!exit.OldHandler? ==> exit.ip == ip - 1)
    && (exit.Resume? ==> after == RemoveBreakpoint(before, ip - 1).0)
    && (exit.Deferred? <==> RemoveBreakpoint(before, ip - 1).1 && !before.stopping && !exit.OldHandler?)
    && (exit.Deferred? ==> after == RemoveBreakpoint(before, ip - 1).0.(trapCount := before.trapCount + 1))
  }

  /** What the end of int3_real_work does: one activation fewer, and one breakpoint more unless stopping or full. */
  ghost predicate WorkEffect(before: Table, after: Table)
    requires before.Shaped()
  {
    && after.trapCount == before.trapCount - 1
    && var planted := after.(trapCount := before.trapCount);
       if before.stopping then planted == before else PlantedUnlessFull(before, planted)
  }

  /** int3_drddr; `ip` is one past the INT3. */
  method Int3(bp: BreakpointList, ip: nat) returns (exit: TrapExit)
    requires bp.Valid() && ip > 0
    modifies bp`trapCount, bp.state, bp.text
    ensures bp.Valid()
    ensures HandlerEffect(old(bp.View()), ip, exit, bp.View())
  {
    var ours := bp.Check(ip - 1);
    if !ours { return OldHandler; }
    var removed := bp.Remove(ip - 1);
    if removed {
      var counted := bp.IncTrapped();
      if !counted { return Resume(ip - 1); }
      return Deferred(ip - 1);
    }
    return Resume(ip - 1);
  }

  /** The end of int3_real_work: bp_add(-1), whatever it returns, then bp_dec_trapped. */
  method EndRealWork(bp: BreakpointList, random: nat -> nat, from: nat)
    requires bp.Valid() && (bp.count > 0 ==> Fair(random, bp.count))
    modifies bp`trapCount, bp.state, bp.backup, bp.text
    ensures bp.Valid() && WorkEffect(old(bp.View()), bp.View())
  {
    ghost var t := bp.View();
    if UsageCount(t) < t.count { FreeEntryDrawn(t, random, from); } else { UsageBound(t); }
    var _, _ := bp.Add(-1, random, from);
    bp.DecTrapped();
  }

  lemma CleanRestores(t: Table, orig: seq<Byte>)
    requires TextOk(t, orig)
    ensures CleanFrom(t, 0).text == orig
  {
    CleanKeepsText(t, orig, 0);
    NothingPlanted(CleanFrom(t, 0), orig);
  }

  lemma ModNext(i: nat, stride: nat)
    requires stride > 0 && i % stride == 0
    ensures (i + stride) % stride == 0
  {
    Remainder(i + stride, stride, i / stride + 1, 0);
  }

  lemma Between(i: nat, j: nat, stride: nat)
    requires stride > 0 && i % stride == 0 && i < j < i + stride
    ensures j % stride != 0
  {
    Remainder(j, stride, i / stride, j - i);
  }

  lemma Remainder(x: nat, d: nat, q: nat, r: nat)
    requires d > 0 && x == d * q + r && r < d
    ensures x % d == r
  {
    var q', r' := x / d, x % d;
    assert x == d * q' + r';
    if q' > q { Times(d, q', q + 1); }
    if q' < q { Times(d, q, q' + 1); }
  }

  lemma Times(d: nat, a: nat, b: nat)
    requires a >= b
    ensures d * a >= d * b
  {
    assert d * a == d * b + d * (a - b);
  }

  /** A table that is not full has a free entry, and a fair stream draws it. */
  lemma FreeEntryDrawn(t: Table, random: nat -> nat, from: nat)
    requires t.Shaped() && UsageCount(t) < t.count && Fair(random, t.count)
    ensures exists i: nat :: i < t.count && t.state[i] != Using && Draws(random, t.count, i, from)
  {
    TallyBounds(t.state[..t.count], IsUsing);
    var i: nat :| i < t.count && t.state[..t.count][i] != Using;
    assert Draws(random, t.count, i, from);
  }
}
