/**
 The watch table of drddr/drddr-wp.c as a value, the identifiers it hands out, and who may
 disarm what over any run of additions, removals and clean-ups.
 */
module WatchTable {
  import opened Words
  import opened DebugRegisters

  datatype Table = Table(slots: Slots, total: int)

  /** struct watchpoint_id: a 2-bit register number and a 30-bit signed number. */
  datatype Id = Id(dr: nat, num: int) {
    predicate Shaped() { dr < 4 }
    /** watchpoint_id_is_valid */
    predicate Valid() { num >= 0 }
  }

  const INVALID := Id(0, -1)

  const TWO29: int := 0x2000_0000
  const TWO30: int := 0x4000_0000

  /** A value stored into `int num:30`. */
  function Field30(x: int): int {
    (x + TWO29) % TWO30 - TWO29
  }

  /** The scanning loop of wp_add. */
  function FirstFree(s: Slots): (i: nat)
    ensures i <= 4 && (i < 4 ==> !s[i].used) && forall j :: 0 <= j < i ==> s[j].used
  {
    if !s[0].used then 0 else if !s[1].used then 1 else if !s[2].used then 2 else if !s[3].used then 3 else 4
  }

  predicate HasFree(t: Table) {
    FirstFree(t.slots) < 4
  }

  /** The critical section of wp_add when a slot is free. */
  function Add(t: Table, addr: Word, length: nat, isWrite: bool): Table {
    if !HasFree(t) then t
    else Table(t.slots[FirstFree(t.slots) := Slot(true, addr, length, isWrite, t.total + 1)], t.total + 1)
  }

  /** wp_remove */
  function Remove(t: Table, id: Id): Table
    requires id.Shaped()
  {
    if id.num == 0 || id.num == t.slots[id.dr].num
    then t.(slots := t.slots[id.dr := t.slots[id.dr].(used := false)])
    else t
  }

  /** wp_clean */
  function Clean(t: Table): Table {
    t.(slots := [t.slots[0].(used := false), t.slots[1].(used := false),
                 t.slots[2].(used := false), t.slots[3].(used := false)])
  }

  /** The identifier of the addition that `t` is about to make, its number taken under the lock. */
  function CapturedId(t: Table): Id {
    if HasFree(t) then Id(FirstFree(t.slots), Field30(t.total + 1)) else INVALID
  }

  /** No update of the table changes the watch of a slot that stays in use. */
  lemma UpdatesKeepWatches(t: Table, addr: Word, length: nat, isWrite: bool, id: Id)
    requires id.Shaped()
    ensures KeepsWatches(t.slots, Add(t, addr, length, isWrite).slots)
    ensures KeepsWatches(t.slots, Remove(t, id).slots)
    ensures KeepsWatches(t.slots, Clean(t).slots)
  {
  }

  // ---- Runs -----------------------------------------------------------------------------

  datatype Op = OpAdd(addr: Word, length: nat, isWrite: bool) | OpRemove(id: Id) | OpClean

  predicate ShapedOps(ops: seq<Op>) {
    forall k :: 0 <= k < |ops| && ops[k].OpRemove? ==> ops[k].id.Shaped()
  }

  function Step(t: Table, op: Op): Table
    requires op.OpRemove? ==> op.id.Shaped()
  {
    match op
    case OpAdd(a, l, w) => Add(t, a, l, w)
    case OpRemove(id) => Remove(t, id)
    case OpClean => Clean(t)
  }

  /** wp_init at load time, with the zeroed wp_num. */
  const EMPTY := Table([Slot(false, 0, 0, false, 0), Slot(false, 0, 0, false, 0),
                        Slot(false, 0, 0, false, 0), Slot(false, 0, 0, false, 0)], 0)

  function Run(ops: seq<Op>): Table
    requires ShapedOps(ops)
  {
    if ops == [] then EMPTY else Step(Run(ops[..|ops| - 1]), ops[|ops| - 1])
  }

  /** Operation `j` is an addition that found a free slot. */
  predicate Added(ops: seq<Op>, j: nat)
    requires ShapedOps(ops)
  {
    j < |ops| && ops[j].OpAdd? && HasFree(Run(ops[..j]))
  }

  function IdOf(ops: seq<Op>, j: nat): Id
    requires ShapedOps(ops) && j < |ops|
  {
    CapturedId(Run(ops[..j]))
  }

  /** The last successful addition to slot `s`, or -1. */
  function LastAdd(ops: seq<Op>, s: nat): (j: int)
    requires ShapedOps(ops)
    ensures -1 <= j < |ops|
  {
    if ops == [] then -1
    else if Added(ops, |ops| - 1) && FirstFree(Run(ops[..|ops| - 1]).slots) == s then |ops| - 1
    else LastAdd(ops[..|ops| - 1], s)
  }

  /** wp_total_count before operation `k`. */
  function TotalAt(ops: seq<Op>, k: nat): int
    requires ShapedOps(ops) && k <= |ops|
  {
    Run(ops[..k]).total
  }

  lemma StepTotal(ops: seq<Op>, k: nat)
    requires ShapedOps(ops) && k < |ops|
    ensures TotalAt(ops, k + 1) == TotalAt(ops, k) + (if Added(ops, k) then 1 else 0)
  {
    assert ops[..k + 1][..k] == ops[..k];
  }

  /** The counter only grows, by one at each successful addition. */
  lemma {:induction false} TotalBetween(ops: seq<Op>, a: nat, r: nat)
    requires ShapedOps(ops) && a <= r <= |ops|
    ensures TotalAt(ops, a) <= TotalAt(ops, r)
    ensures TotalAt(ops, a) == TotalAt(ops, r) <==> forall k :: a <= k < r ==> !Added(ops, k)
    decreases r - a
  {
    if a < r {
      TotalBetween(ops, a, r - 1);
      StepTotal(ops, r - 1);
    }
  }

  /** An addition has a smaller number than every later one, and than the counter after it. */
  lemma NumbersIncrease(ops: seq<Op>, i: nat, j: nat)
    requires ShapedOps(ops) && Added(ops, i) && i < j <= |ops|
    ensures 0 <= TotalAt(ops, i) && TotalAt(ops, i) + 1 <= TotalAt(ops, j) <= Run(ops).total
  {
    assert ops[..|ops|] == ops && ops[..0] == [];
    TotalBetween(ops, 0, i);
    StepTotal(ops, i);
    TotalBetween(ops, i + 1, j);
    TotalBetween(ops, j, |ops|);
  }

  lemma StepSlot(t: Table, op: Op, s: nat)
    requires s < 4 && (op.OpRemove? ==> op.id.Shaped())
    ensures if op.OpAdd? && HasFree(t) && FirstFree(t.slots) == s
            then Step(t, op).slots[s].num == t.total + 1
            else Step(t, op).slots[s].num == t.slots[s].num && (!t.slots[s].used ==> !Step(t, op).slots[s].used)
  {
  }

  /** The number in a slot is that of the last successful addition to it, 0 if there is none. */
  lemma {:induction false} SlotNumber(ops: seq<Op>, s: nat)
    requires ShapedOps(ops) && s < 4
    ensures var j := LastAdd(ops, s);
            && Run(ops).slots[s].num == (if j < 0 then 0 else Run(ops[..j]).total + 1)
            && (j >= 0 ==> Added(ops, j) && FirstFree(Run(ops[..j]).slots) == s)
            && (j < 0 ==> !Run(ops).slots[s].used)
  {
    if ops != [] {
      var init := ops[..|ops| - 1];
      SlotNumber(init, s);
      StepSlot(Run(init), ops[|ops| - 1], s);
      var j := LastAdd(init, s);
      if j >= 0 { assert init[..j] == ops[..j]; }
    }
  }

  lemma SmallField(n: int)
    requires 0 <= n < TWO29
    ensures Field30(n) == n
  {
  }

  /** The number an addition is given, while the counter is in range. */
  lemma {:induction false} IdNumber(ops: seq<Op>, j: nat)
    requires ShapedOps(ops) && Added(ops, j) && Run(ops).total < TWO29
    ensures 0 <= TotalAt(ops, j) < Run(ops).total
    ensures IdOf(ops, j) == Id(FirstFree(Run(ops[..j]).slots), TotalAt(ops, j) + 1)
  {
    NumbersIncrease(ops, j, |ops|);
    assert ops[..|ops|] == ops;
    SmallField(TotalAt(ops, j) + 1);
  }

  /**
   Up to 2^29 - 1 additions, every successful one gets a valid, non-zero number and a slot
   that was free, and no two the same identifier.
   */
  lemma IdsAreUnique(ops: seq<Op>, i: nat, j: nat)
    requires ShapedOps(ops) && i < j && Added(ops, i) && Added(ops, j) && Run(ops).total < TWO29
    ensures IdOf(ops, i).Valid() && IdOf(ops, i).num != 0 && IdOf(ops, j).Valid() && IdOf(ops, j).num != 0
    ensures IdOf(ops, i) != IdOf(ops, j)
    ensures !Run(ops[..j]).slots[IdOf(ops, j).dr].used
  {
    IdNumber(ops, i);
    IdNumber(ops, j);
    NumbersIncrease(ops, i, j);
  }

  /**
   Removing with the identifier of addition `j` disarms that addition's watch, or, if the
   slot has been given to another one since, changes nothing.
   */
  lemma RemoveIsOwners(ops: seq<Op>, j: nat)
    requires ShapedOps(ops) && Added(ops, j) && Run(ops).total < TWO29
    ensures var id, t := IdOf(ops, j), Run(ops);
            Remove(t, id) ==
              if LastAdd(ops, id.dr) == j then t.(slots := t.slots[id.dr := t.slots[id.dr].(used := false)]) else t
  {
    IdNumber(ops, j);
    OwnerNumber(ops, j);
  }

  /** The slot of addition `j` carries its number exactly while no later addition took the slot. */
  lemma OwnerNumber(ops: seq<Op>, j: nat)
    requires ShapedOps(ops) && Added(ops, j)
    ensures var s := FirstFree(Run(ops[..j]).slots);
            TotalAt(ops, j) >= 0 && (Run(ops).slots[s].num == TotalAt(ops, j) + 1 <==> LastAdd(ops, s) == j)
  {
    var s := FirstFree(Run(ops[..j]).slots);
    SlotNumber(ops, s);
    NumbersIncrease(ops, j, |ops|);
    var k := LastAdd(ops, s);
    if k >= 0 { DistinctNumbers(ops, j, k); }
  }

  lemma DistinctNumbers(ops: seq<Op>, j: nat, k: nat)
    requires ShapedOps(ops) && Added(ops, j) && Added(ops, k)
    ensures TotalAt(ops, j) == TotalAt(ops, k) <==> j == k
    ensures 0 <= TotalAt(ops, j) < Run(ops).total && 0 <= TotalAt(ops, k) < Run(ops).total
  {
    NumbersIncrease(ops, j, |ops|);
    NumbersIncrease(ops, k, |ops|);
    assert ops[..|ops|] == ops;
    if j < k { NumbersIncrease(ops, j, k); }
    if k < j { NumbersIncrease(ops, k, j); }
  }

  /** The 30-bit number stays valid and non-zero exactly while the counter is in the lower half of its range. */
  lemma NumberRange(n: int)
    ensures Field30(n) > 0 <==> 0 < n % TWO30 < TWO29
    ensures Field30(n) == 0 <==> n % TWO30 == 0
  {
  }

  // ---- What set_dr is called for ------------------------------------------------------------

  /** The operation changes the table, and so calls set_dr. */
  predicate Publishes(t: Table, op: Op)
    requires op.OpRemove? ==> op.id.Shaped()
  {
    match op
    case OpAdd(_, _, _) => HasFree(t)
    case OpRemove(id) => id.num == 0 || id.num == t.slots[id.dr].num
    case OpClean => true
  }

  /** An unpublished operation changes nothing, and no operation changes a slot that stays in use. */
  lemma StepKeeps(t: Table, op: Op, i: nat)
    requires (op.OpRemove? ==> op.id.Shaped()) && i < 4
    ensures !Publishes(t, op) ==> Step(t, op) == t
    ensures t.slots[i].used && Step(t, op).slots[i].used ==> Step(t, op).slots[i] == t.slots[i]
  {
  }

  // ---- The number read after the unlock ----------------------------------------------------

  /** What wp_add really returns when operations `j + 1 .. r` run between its unlock and its read. */
  function ReturnedId(ops: seq<Op>, j: nat, r: nat): Id
    requires ShapedOps(ops) && j < r <= |ops|
  {
    Id(FirstFree(Run(ops[..j]).slots), Field30(Run(ops[..r]).total))
  }

  /** The identifier returned is the addition's own exactly when no other one succeeded in between. */
  lemma ReturnedIdIff(ops: seq<Op>, j: nat, r: nat)
    requires ShapedOps(ops) && Added(ops, j) && j < r <= |ops| && Run(ops).total < TWO29
    ensures ReturnedId(ops, j, r) == IdOf(ops, j) <==> forall k :: j < k < r ==> !Added(ops, k)
  {
    IdNumber(ops, j);
    NumbersIncrease(ops, j, r);
    SmallField(TotalAt(ops, r));
    NoneAddedBetween(ops, j, r);
  }

  lemma NoneAddedBetween(ops: seq<Op>, j: nat, r: nat)
    requires ShapedOps(ops) && Added(ops, j) && j < r <= |ops|
    ensures TotalAt(ops, r) == TotalAt(ops, j) + 1 <==> forall k :: j < k < r ==> !Added(ops, k)
  {
    StepTotal(ops, j);
    TotalBetween(ops, j + 1, r);
  }

  /** The last addition to a slot is none before any of its additions. */
  lemma {:induction false} LastAddNotBefore(ops: seq<Op>, j: nat)
    requires ShapedOps(ops) && Added(ops, j)
    ensures LastAdd(ops, FirstFree(Run(ops[..j]).slots)) >= j
  {
    var init := ops[..|ops| - 1];
    if j < |init| {
      assert init[..j] == ops[..j];
      LastAddNotBefore(init, j);
    }
  }

  function Freed(t: Table, dr: nat): Table
    requires dr < 4
  {
    t.(slots := t.slots[dr := t.slots[dr].(used := false)])
  }

  /** No addition succeeds after operation `a` and before operation `b`. */
  ghost predicate Undisturbed(ops: seq<Op>, a: nat, b: nat)
    requires ShapedOps(ops)
  {
    forall k :: a < k < b ==> !Added(ops, k)
  }

  /**
   Removing with the identifier that wp_add returned: with `k` the last addition to its slot, it
   disarms the owner's watch, or changes nothing once the slot is another's, exactly when the slot is
   free already; or it still is the owner's and no addition overtook the reading of the number; or it
   is another's, but not of the very addition whose number was read.
   */
  lemma ReturnedOwnerIff(ops: seq<Op>, j: nat, r: nat)
    requires ShapedOps(ops) && Added(ops, j) && j < r <= |ops| && Run(ops).total < TWO29
    ensures var t, id := Run(ops), ReturnedId(ops, j, r);
            var k := LastAdd(ops, id.dr);
            && k >= j
            && (Remove(t, id) == (if k == j then Freed(t, id.dr) else t) <==>
                  || !t.slots[id.dr].used
                  || (k == j && Undisturbed(ops, j, r))
                  || (k != j && !(k < r && Undisturbed(ops, k, r))))
  {
    var t, id := Run(ops), ReturnedId(ops, j, r);
    var k := LastAdd(ops, id.dr);
    LastAddNotBefore(ops, j);
    SlotNumber(ops, id.dr);
    NumbersIncrease(ops, j, r);
    SmallField(TotalAt(ops, r));
    if k < r {
      NoneAddedBetween(ops, k, r);
    } else {
      NumbersIncrease(ops, j, k);
      TotalBetween(ops, r, k);
    }
    assert id.num == t.slots[id.dr].num <==> k < r && Undisturbed(ops, k, r);
  }

  /**
   So if another slot's addition overtakes, and the owner still has its slot, the owner's removal
   changes nothing and its watch stays armed.
   */
  lemma OvertakenStays(ops: seq<Op>, j: nat, r: nat)
    requires ShapedOps(ops) && Added(ops, j) && j < r <= |ops| && Run(ops).total < TWO29
    requires LastAdd(ops, FirstFree(Run(ops[..j]).slots)) == j && !Undisturbed(ops, j, r)
    ensures Remove(Run(ops), ReturnedId(ops, j, r)) == Run(ops)
  {
    SlotNumber(ops, FirstFree(Run(ops[..j]).slots));
    NumbersIncrease(ops, j, r);
    SmallField(TotalAt(ops, r));
    NoneAddedBetween(ops, j, r);
  }

  /**
   Whatever the table with a free slot: if the debug handler disarms the new watch and a second
   addition takes the slot before the first one reads the counter, both get the same
   identifier, and the first owner disarms the second one's watch.
   */
  lemma StolenId(t: Table, a: Word, la: nat, wa: bool, b: Word, lb: nat, wb: bool)
    requires HasFree(t)
    ensures var s := FirstFree(t.slots);
            var t1 := Add(t, a, la, wa);
            var t2 := Remove(t1, Id(s, 0));
            var t3 := Add(t2, b, lb, wb);
            && HasFree(t2) && CapturedId(t2) == Id(s, Field30(t3.total)) != CapturedId(t)
            && (0 <= t.total < TWO29 - 2 ==> t3.slots[s].used && !Remove(t3, Id(s, Field30(t3.total))).slots[s].used)
  {
  }
}
