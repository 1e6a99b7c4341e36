/** The debug registers of one processor over any run of additions, removals and clean-ups. */
module WatchRuns {
  import opened Words
  import opened DebugRegisters
  import opened WatchTable

  /** The registers at the lock release after `ops`, from `r` at load time. */
  function RegistersAfter(ops: seq<Op>, r: Registers): (r': Registers)
    requires ShapedOps(ops) && r.Shaped()
    ensures r'.Shaped()
  {
    if ops == [] then Apply(r, Writes(EMPTY.slots))
    else
      var init := ops[..|ops| - 1];
      if Publishes(Run(init), ops[|ops| - 1]) then Apply(RegistersAfter(init, r), Writes(Run(ops).slots))
      else RegistersAfter(init, r)
  }

  ghost predicate NonZeroOps(ops: seq<Op>) {
    forall k :: 0 <= k < |ops| && ops[k].OpAdd? ==> ops[k].addr != 0
  }

  lemma {:induction false} NonZeroRun(ops: seq<Op>)
    requires ShapedOps(ops) && NonZeroOps(ops)
    ensures NonZeroSlots(Run(ops).slots)
  {
    if ops != [] { NonZeroRun(ops[..|ops| - 1]); }
  }

  /** When slot 3 gets a wide watch, slots 0 to 2 are armed. */
  lemma WideStep(t: Table, op: Op, i: nat)
    requires (op.OpRemove? ==> op.id.Shaped()) && i < 3
    requires Writable(t.slots) && !Writable(Step(t, op).slots)
    ensures op.OpAdd? && t.slots[i].used && !t.slots[3].used && Step(t, op).slots[i] == t.slots[i]
  {
  }

  lemma {:induction false} RegistersOverRuns(ops: seq<Op>, r: Registers, i: nat)
    requires ShapedOps(ops) && r.Shaped() && i < 4
    ensures var t, regs := Run(ops).slots, RegistersAfter(ops, r);
            && (Writable(t) ==> regs.dr7 == Control(t))
            && (!Writable(t) ==> (Enabled(regs.dr7, i) <==> i < 3))
            && (t[i].used && t[i].addr != 0 ==> regs.dr[i] == t[i].addr)
  {
    if ops == [] {
      Written(r, EMPTY.slots, i);
    } else {
      var init, op := ops[..|ops| - 1], ops[|ops| - 1];
      var t, t' := Run(init), Run(ops);
      RegistersOverRuns(init, r, i);
      StepKeeps(t, op, i);
      if Publishes(t, op) {
        Written(RegistersAfter(init, r), t'.slots, i);
        if Writable(t.slots) && !Writable(t'.slots) {
          WideStep(t, op, if i < 3 then i else 0);
          ControlDecodes(t.slots, i);
        }
      }
    }
  }

  /**
   At the lock release a processor's registers mean exactly the table if and only if slot 3 is
   free or watches at most two bytes, and a watch of address 0 happens to find 0 in its register.
   */
  lemma RegistersAgreeIff(ops: seq<Op>, r: Registers)
    requires ShapedOps(ops) && r.Shaped()
    ensures var t, regs := Run(ops).slots, RegistersAfter(ops, r);
            Agrees(regs, t) <==>
              Writable(t) && forall i :: 0 <= i < 4 && t[i].used && t[i].addr == 0 ==> regs.dr[i] == 0
  {
    var t, regs := Run(ops).slots, RegistersAfter(ops, r);
    if Writable(t) {
      forall i | 0 <= i < 4
        ensures Denotes(regs, i) == Intended(t, i) <==> (t[i].used && t[i].addr == 0 ==> regs.dr[i] == 0)
      {
        RegistersOverRuns(ops, r, i);
        ControlDecodes(t, i);
      }
    } else {
      RegistersOverRuns(ops, r, 3);
      assert Denotes(regs, 3) != Intended(t, 3);
    }
  }

  // ---- Every single write of a run -------------------------------------------------------------

  /** Throughout the writes of operation `k` every slot denotes its watch of the table before or after. */
  ghost predicate UpdateInTransit(ops: seq<Op>, r: Registers, k: nat)
    requires ShapedOps(ops) && r.Shaped() && k < |ops|
  {
    Publishes(Run(ops[..k]), ops[k]) ==>
      var before, after := Run(ops[..k]).slots, Run(ops[..k + 1]).slots;
      forall n :: 0 <= n <= |Writes(after)| ==>
        InTransit(Apply(RegistersAfter(ops[..k], r), Writes(after)[..n]), before, after)
  }

  /** If operation `k` writes the registers while slot 3 is wide, it frees slot 3. */
  predicate FreesWide(ops: seq<Op>, k: nat)
    requires ShapedOps(ops) && k < |ops|
  {
    Publishes(Run(ops[..k]), ops[k]) && !Writable(Run(ops[..k]).slots) ==> !Run(ops[..k + 1]).slots[3].used
  }

  lemma RunStep(ops: seq<Op>, k: nat)
    requires ShapedOps(ops) && k < |ops|
    ensures Run(ops[..k + 1]) == Step(Run(ops[..k]), ops[k])
  {
    assert ops[..k + 1][..k] == ops[..k];
  }

  /** As long as only such operations meet a wide slot 3, slots 0 to 2 mean the table. */
  lemma {:induction false} LowSlotsAgree(ops: seq<Op>, r: Registers, k: nat, i: nat)
    requires ShapedOps(ops) && NonZeroOps(ops) && r.Shaped() && k <= |ops| && i < 3
    requires forall j :: 0 <= j < k ==> FreesWide(ops, j)
    ensures Denotes(RegistersAfter(ops[..k], r), i) == Intended(Run(ops[..k]).slots, i)
  {
    NonZeroRun(ops[..k]);
    if Writable(Run(ops[..k]).slots) {
      RegistersAgreeIff(ops[..k], r);
    } else if k > 0 {
      var t, op := Run(ops[..k - 1]), ops[k - 1];
      RunStep(ops, k - 1);
      assert ops[..k][..k - 1] == ops[..k - 1];
      LowSlotsAgree(ops, r, k - 1, i);
      StepKeeps(t, op, i);
      if Publishes(t, op) {
        assert FreesWide(ops, k - 1);
        WideStep(t, op, i);
        AllWrites(RegistersAfter(ops[..k - 1], r), Run(ops[..k]).slots, i);
      }
    }
  }

  lemma UpdateKeepsWatches(t: Table, op: Op)
    requires op.OpRemove? ==> op.id.Shaped()
    ensures KeepsWatches(t.slots, Step(t, op).slots)
  {
    match op
    case OpAdd(a, l, w) => UpdatesKeepWatches(t, a, l, w, INVALID);
    case OpRemove(id) => UpdatesKeepWatches(t, 0, 0, false, id);
    case OpClean => UpdatesKeepWatches(t, 0, 0, false, INVALID);
  }

  /** An update is in transit throughout exactly when it is so before its first write. */
  lemma UpdateInTransitIff(ops: seq<Op>, r: Registers, k: nat)
    requires ShapedOps(ops) && NonZeroOps(ops) && r.Shaped() && k < |ops|
    ensures UpdateInTransit(ops, r, k) <==>
              (Publishes(Run(ops[..k]), ops[k]) ==>
                 InTransit(RegistersAfter(ops[..k], r), Run(ops[..k]).slots, Run(ops[..k + 1]).slots))
  {
    var regs, after := RegistersAfter(ops[..k], r), Run(ops[..k + 1]).slots;
    RunStep(ops, k);
    NonZeroRun(ops[..k + 1]);
    UpdateKeepsWatches(Run(ops[..k]), ops[k]);
    EveryProcessorIff([regs], Run(ops[..k]).slots, after);
    assert [regs][0] == regs;
  }

  /**
   Over any run with non-zero addresses: at every single register write of every update each slot
   denotes its watch of the old or the new table, if and only if each operation that writes the
   registers while slot 3 watches four or eight bytes frees slot 3.
   */
  lemma EveryWriteOverRunsIff(ops: seq<Op>, r: Registers)
    requires ShapedOps(ops) && NonZeroOps(ops) && r.Shaped()
    ensures (forall k :: 0 <= k < |ops| ==> UpdateInTransit(ops, r, k)) <==>
            (forall k :: 0 <= k < |ops| ==> FreesWide(ops, k))
  {
    if forall k :: 0 <= k < |ops| ==> FreesWide(ops, k) {
      forall k | 0 <= k < |ops| ensures UpdateInTransit(ops, r, k) {
        UpdateInTransitIff(ops, r, k);
        if Publishes(Run(ops[..k]), ops[k]) { StartsInTransit(ops, r, k); }
      }
    } else {
      var k :| 0 <= k < |ops| && !FreesWide(ops, k);
      UpdateInTransitIff(ops, r, k);
      RegistersOverRuns(ops[..k], r, 3);
      assert !SlotInTransit(RegistersAfter(ops[..k], r), Run(ops[..k]).slots, Run(ops[..k + 1]).slots, 3);
    }
  }

  lemma StartsInTransit(ops: seq<Op>, r: Registers, k: nat)
    requires ShapedOps(ops) && NonZeroOps(ops) && r.Shaped() && k < |ops|
    requires Publishes(Run(ops[..k]), ops[k]) && forall j :: 0 <= j <= k ==> FreesWide(ops, j)
    ensures InTransit(RegistersAfter(ops[..k], r), Run(ops[..k]).slots, Run(ops[..k + 1]).slots)
  {
    var regs, t, t' := RegistersAfter(ops[..k], r), Run(ops[..k]).slots, Run(ops[..k + 1]).slots;
    NonZeroRun(ops[..k]);
    RegistersAgreeIff(ops[..k], r);
    assert FreesWide(ops, k);
    forall i | 0 <= i < 4 ensures SlotInTransit(regs, t, t', i) {
      if i < 3 { LowSlotsAgree(ops, r, k, i); } else { RegistersOverRuns(ops[..k], r, 3); }
    }
  }

  // ---- While slot 3 is wide --------------------------------------------------------------------

  /**
   While slot 3 watches four or eight bytes no disarming reaches the registers: a slot removed
   then is armed, and stays armed.
   */
  lemma FrozenRemove(ops: seq<Op>, r: Registers, id: Id)
    requires ShapedOps(ops) && r.Shaped() && id.Shaped()
    requires !Writable(Run(ops).slots) && id.dr != 3 && Publishes(Run(ops), OpRemove(id))
    ensures var regs, later := RegistersAfter(ops, r), RegistersAfter(ops + [OpRemove(id)], r);
            && !Run(ops + [OpRemove(id)]).slots[id.dr].used
            && Denotes(later, id.dr).Some? && Denotes(later, id.dr) == Denotes(regs, id.dr)
  {
    var more := ops + [OpRemove(id)];
    assert more[..|more| - 1] == ops;
    RegistersOverRuns(ops, r, id.dr);
    Written(RegistersAfter(ops, r), Run(more).slots, id.dr);
  }

  /** And an addition only moves a watch that is still armed there, with its old length and mode. */
  lemma FrozenAdd(ops: seq<Op>, r: Registers, addr: Word, length: nat, isWrite: bool)
    requires ShapedOps(ops) && r.Shaped() && addr != 0
    requires !Writable(Run(ops).slots) && HasFree(Run(ops))
    ensures var regs, later := RegistersAfter(ops, r), RegistersAfter(ops + [OpAdd(addr, length, isWrite)], r);
            var s := FirstFree(Run(ops).slots);
            && s < 3 && Denotes(regs, s).Some?
            && Denotes(later, s) == Some(Denotes(regs, s).value.(addr := addr))
  {
    var more := ops + [OpAdd(addr, length, isWrite)];
    assert more[..|more| - 1] == ops;
    var s := FirstFree(Run(ops).slots);
    RegistersOverRuns(ops, r, s);
    AllWrites(RegistersAfter(ops, r), Run(more).slots, s);
  }

  lemma OneMore(ops: seq<Op>, op: Op)
    requires ShapedOps(ops) && (op.OpRemove? ==> op.id.Shaped())
    ensures ShapedOps(ops + [op]) && Run(ops + [op]) == Step(Run(ops), op)
  {
    assert (ops + [op])[..|ops|] == ops;
  }

  lemma ThreeAdds(a: Word) returns (ops: seq<Op>)
    ensures ShapedOps(ops)
    ensures Run(ops).slots == [Slot(true, a, 64, true, 1), Slot(true, a, 64, true, 2),
                               Slot(true, a, 64, true, 3), Slot(false, 0, 0, false, 0)]
  {
    var x := OpAdd(a, 64, true);
    ops := [x, x, x];
    assert [x, x, x][..2] == [x, x] && [x, x][..1] == [x] && [x][..0] == [];
    assert Run([]) == EMPTY;
    assert Run([x]) == Step(EMPTY, x);
  }

  /** A wide watch in the last free slot, slot 3, is rejected and leaves the other slots armed. */
  lemma WideAdd(ops: seq<Op>, r: Registers, a: Word, i: nat)
    requires ShapedOps(ops) && r.Shaped() && i < 3 && FirstFree(Run(ops).slots) == 3
    requires Agrees(RegistersAfter(ops, r), Run(ops).slots)
    ensures var more := ops + [OpAdd(a, 64, true)];
            && ShapedOps(more) && !Writable(Run(more).slots)
            && Denotes(RegistersAfter(more, r), i) == Intended(Run(ops).slots, i)
  {
    var add := OpAdd(a, 64, true);
    OneMore(ops, add);
    assert (ops + [add])[..|ops|] == ops;
    AllWrites(RegistersAfter(ops, r), Run(ops + [add]).slots, i);
    assert Denotes(RegistersAfter(ops, r), i) == Intended(Run(ops).slots, i);
  }

  /** Four eight-byte watches. */
  lemma WideReached(r: Registers, a: Word) returns (ops: seq<Op>)
    requires r.Shaped() && a != 0
    ensures ShapedOps(ops) && !Writable(Run(ops).slots)
    ensures Denotes(RegistersAfter(ops, r), 0) == Some(Armed(a, 8, true))
  {
    var three := ThreeAdds(a);
    RegistersAgreeIff(three, r);
    WideAdd(three, r, a, 0);
    ops := three + [OpAdd(a, 64, true)];
  }

  /**
   A run into that state, then slot 0 removed and given a one-byte watch: slot 3 is never armed, and
   slot 0 watches eight bytes for reads and writes where the table has one byte for writes.
   */
  lemma FrozenReached(r: Registers, a: Word, b: Word) returns (ops: seq<Op>)
    requires r.Shaped() && a != 0 && b != 0
    ensures ShapedOps(ops) && !Writable(Run(ops).slots)
    ensures Denotes(RegistersAfter(ops, r), 3) == None
    ensures Denotes(RegistersAfter(ops, r), 0) == Some(Armed(b, 8, true))
    ensures Intended(Run(ops).slots, 0) == Some(Armed(b, 1, false))
  {
    var wide := WideReached(r, a);
    var removed := wide + [OpRemove(Id(0, 0))];
    ops := removed + [OpAdd(b, 8, false)];
    OneMore(wide, OpRemove(Id(0, 0)));
    OneMore(removed, OpAdd(b, 8, false));
    FrozenRemove(wide, r, Id(0, 0));
    FrozenAdd(removed, r, b, 8, false);
    RegistersOverRuns(ops, r, 3);
  }
}
