/** The code of drddr/drddr-wp.c over its static arrays and the debug registers of every processor. */
module Watchpoints {
  import opened Words
  import opened DebugRegisters
  import opened WatchTable

  lemma ApplyMore(r: Registers, done: seq<RegisterWrite>, w: RegisterWrite)
    requires r.Shaped()
    ensures Apply(r, done + [w]) == ApplyOne(Apply(r, done), w)
  {
    assert (done + [w])[..|done|] == done;
  }

  lemma OneMoreAddress(r: Registers, t: Slots, i: nat, w: Word)
    requires r.Shaped() && i < 4 && w == if t[i].used then t[i].addr else 0
    ensures var r' := Apply(r, AddressWrites(t, i));
            Apply(r, AddressWrites(t, i + 1)) == if w != 0 then r'.(dr := r'.dr[i := w]) else r'
  {
    if w != 0 {
      ApplyMore(r, AddressWrites(t, i), SetAddress(i, w));
    } else {
      assert AddressWrites(t, i) + [] == AddressWrites(t, i);
    }
  }

  /** The block of set_dr for slot `i`: its enable bit, its mode and its length. */
  method OrSlot(start: bv64, used: bool, isWrite: bool, length: nat, i: nat, ghost s: Slot) returns (ctrl: bv64)
    requires i < 4 && s.used == used && s.isWrite == isWrite && s.length == length
    ensures ctrl == WithSlot(start, s, i)
  {
    if !used {
      OrZero(start);
      return start;
    }
    if i == 0 {
      ctrl := start | 0x2;
      ctrl := ctrl | SignExtend(ModeFlag(isWrite) << 16);
      ctrl := ctrl | SignExtend(LengthFlag(length) << 18);
    } else if i == 1 {
      ctrl := start | 0x8;
      ctrl := ctrl | SignExtend(ModeFlag(isWrite) << 20);
      ctrl := ctrl | SignExtend(LengthFlag(length) << 22);
    } else if i == 2 {
      ctrl := start | 0x20;
      ctrl := ctrl | SignExtend(ModeFlag(isWrite) << 24);
      ctrl := ctrl | SignExtend(LengthFlag(length) << 26);
    } else {
      ctrl := start | 0x80;
      ctrl := ctrl | SignExtend(ModeFlag(isWrite) << 28);
      ctrl := ctrl | SignExtend(LengthFlag(length) << 30);
    }
  }

  lemma OrZero(a: bv64)
    ensures a | 0 == a
  {
  }

  class WatchList {
    const usage: array<bool>
    const addr: array<Word>
    const length: array<nat>
    const iswrite: array<bool>
    const num: array<int>
    var total: int
    const cpus: array<Registers>

    ghost predicate Valid()
      reads this, usage, addr, length, iswrite, num, cpus
    {
      && usage.Length == 4 && addr.Length == 4 && length.Length == 4 && iswrite.Length == 4 && num.Length == 4
      && usage != iswrite
      && forall c :: 0 <= c < cpus.Length ==> cpus[c].Shaped()
    }

    ghost function SlotAt(i: nat): Slot
      requires i < usage.Length && i < addr.Length && i < length.Length && i < iswrite.Length && i < num.Length
      reads this, usage, addr, length, iswrite, num
    {
      Slot(usage[i], addr[i], length[i], iswrite[i], num[i])
    }

    ghost function View(): Table
      requires Valid()
      reads this, usage, addr, length, iswrite, num, cpus
    {
      Table([SlotAt(0), SlotAt(1), SlotAt(2), SlotAt(3)], total)
    }

    /** Every watch in use has a non-zero address. */
    ghost predicate NonZero()
      requires Valid()
      reads this, usage, addr, length, iswrite, num, cpus
    {
      forall i :: 0 <= i < 4 && View().slots[i].used ==> View().slots[i].addr != 0
    }

    /** Every processor's debug registers mean exactly the table. */
    ghost predicate AllCpusAgree()
      requires Valid()
      reads this, usage, addr, length, iswrite, num, cpus
    {
      forall c :: 0 <= c < cpus.Length ==> Agrees(cpus[c], View().slots)
    }

    /** wp_init */
    constructor (processors: array<Registers>)
      requires forall c :: 0 <= c < processors.Length ==> processors[c].Shaped()
      modifies processors
      ensures Valid() && cpus == processors && View() == EMPTY && AllCpusAgree()
      ensures fresh(usage) && fresh(addr) && fresh(length) && fresh(iswrite) && fresh(num)
    {
      usage := new bool[4](_ => false);
      addr := new Word[4](_ => 0);
      length := new nat[4](_ => 0);
      iswrite := new bool[4](_ => false);
      num := new int[4](_ => 0);
      total := 0;
      cpus := processors;
      new;
      Publish();
    }

    /** The ctrl word of set_dr, slot by slot. */
    method ComputeControl() returns (ctrl: bv64)
      requires Valid()
      ensures ctrl == Control(View().slots)
    {
      ctrl := 0x100 | 0x200;
      ctrl := OrSlot(ctrl, usage[0], iswrite[0], length[0], 0, View().slots[0]);
      ctrl := OrSlot(ctrl, usage[1], iswrite[1], length[1], 1, View().slots[1]);
      ctrl := OrSlot(ctrl, usage[2], iswrite[2], length[2], 2, View().slots[2]);
      ctrl := OrSlot(ctrl, usage[3], iswrite[3], length[3], 3, View().slots[3]);
    }

    /** wp_set_to_register on processor `c`; `w` holds dr0 to dr3, 0 for an unused slot. */
    method SetRegisters(c: nat, w: seq<Word>, ctrl: bv64, ghost t: Slots)
      requires c < cpus.Length && cpus[c].Shaped() && |w| == 4 && ctrl == Control(t)
      requires forall i :: 0 <= i < 4 ==> w[i] == if t[i].used then t[i].addr else 0
      modifies cpus
      ensures cpus[c] == Apply(old(cpus[c]), Writes(t))
      ensures forall d :: 0 <= d < cpus.Length && d != c ==> cpus[d] == old(cpus[d])
    {
      for i := 0 to 4
        invariant cpus[c] == Apply(old(cpus[c]), AddressWrites(t, i))
        invariant forall d :: 0 <= d < cpus.Length && d != c ==> cpus[d] == old(cpus[d])
      {
        OneMoreAddress(old(cpus[c]), t, i, w[i]);
        if w[i] != 0 { cpus[c] := cpus[c].(dr := cpus[c].dr[i := w[i]]); }
      }
      ApplyMore(old(cpus[c]), AddressWrites(t, 4), SetControl(ctrl));
      cpus[c] := ApplyOne(cpus[c], SetControl(ctrl));
    }

    /** set_dr: the same writes on every processor. */
    method SetDr()
      requires Valid()
      modifies cpus
      ensures Valid()
      ensures forall c :: 0 <= c < cpus.Length ==> cpus[c] == Apply(old(cpus[c]), Writes(View().slots))
    {
      var ctrl := ComputeControl();
      ghost var t := View().slots;
      var w := [if usage[0] then addr[0] else 0, if usage[1] then addr[1] else 0,
                if usage[2] then addr[2] else 0, if usage[3] then addr[3] else 0];
      for c := 0 to cpus.Length
        invariant Valid()
        invariant forall d :: 0 <= d < c ==> cpus[d] == Apply(old(cpus[d]), Writes(t))
        invariant forall d :: c <= d < cpus.Length ==> cpus[d] == old(cpus[d])
      {
        SetRegisters(c, w, ctrl, t);
      }
    }

    /** With the lock about to be released: all processors agree with the table. */
    method Publish()
      requires Valid()
      modifies cpus
      ensures Valid() && View() == old(View())
      ensures forall c :: 0 <= c < cpus.Length ==> cpus[c] == Apply(old(cpus[c]), Writes(View().slots))
      ensures NonZero() && Writable(View().slots) ==> AllCpusAgree()
    {
      SetDr();
      if NonZero() && Writable(View().slots) {
        forall c | 0 <= c < cpus.Length ensures Agrees(cpus[c], View().slots) {
          AllAgree(old(cpus[c]), View().slots);
        }
      }
    }

    /** wp_add, with nobody else between its unlock and its reading of wp_total_count. */
    method AddWatch(dataAddr: Word, dataLength: nat, isWrite: bool) returns (id: Id)
      requires Valid()
      modifies this, usage, addr, length, iswrite, num, cpus
      ensures Valid() && id == CapturedId(old(View()))
      ensures View() == Add(old(View()), dataAddr, dataLength, isWrite)
      ensures !HasFree(old(View())) ==> forall c :: 0 <= c < cpus.Length ==> cpus[c] == old(cpus[c])
      ensures HasFree(old(View())) ==>
        forall c :: 0 <= c < cpus.Length ==> cpus[c] == Apply(old(cpus[c]), Writes(View().slots))
      ensures HasFree(old(View())) && NonZero() && Writable(View().slots) ==> AllCpusAgree()
    {
      var dr := AddLocked(dataAddr, dataLength, isWrite);
      if dr == 4 { return INVALID; }
      id := ReadId(dr);
    }

    /** wp_add up to its unlock: the slot it took, or 4. */
    method AddLocked(dataAddr: Word, dataLength: nat, isWrite: bool) returns (dr: nat)
      requires Valid()
      modifies this, usage, addr, length, iswrite, num, cpus
      ensures Valid() && dr == FirstFree(old(View()).slots)
      ensures View() == Add(old(View()), dataAddr, dataLength, isWrite)
      ensures dr == 4 ==> forall c :: 0 <= c < cpus.Length ==> cpus[c] == old(cpus[c])
      ensures dr < 4 ==> forall c :: 0 <= c < cpus.Length ==> cpus[c] == Apply(old(cpus[c]), Writes(View().slots))
      ensures dr < 4 && NonZero() && Writable(View().slots) ==> AllCpusAgree()
    {
      if usage[0] && usage[1] && usage[2] && usage[3] { return 4; }
      dr := 0;
      while usage[dr]
        invariant dr < 4 && dr <= FirstFree(View().slots) < 4
        decreases 4 - dr
      {
        dr := dr + 1;
      }
      Store(dr, dataAddr, dataLength, isWrite);
      Publish();
    }

    /** After the unlock: the identifier takes the counter as it is by now. */
    method ReadId(dr: nat) returns (id: Id)
      requires Valid() && dr < 4
      ensures id == Id(dr, Field30(View().total))
    {
      return Id(dr, Field30(total));
    }

    /** The assignments of wp_add to slot `i`. */
    method Store(i: nat, dataAddr: Word, dataLength: nat, isWrite: bool)
      requires Valid() && i == FirstFree(View().slots) < 4
      modifies this, usage, addr, length, iswrite, num
      ensures Valid() && View() == Add(old(View()), dataAddr, dataLength, isWrite)
    {
      usage[i] := true;
      addr[i] := dataAddr;
      length[i] := dataLength;
      iswrite[i] := isWrite;
      total := total + 1;
      num[i] := total;
      assert forall j :: 0 <= j < 4 ==>
        SlotAt(j) == if j == i then Slot(true, dataAddr, dataLength, isWrite, total) else old(SlotAt(j));
    }

    /** wp_remove */
    method RemoveWatch(id: Id)
      requires Valid() && id.Shaped()
      modifies usage, cpus
      ensures Valid() && View() == Remove(old(View()), id)
      ensures NonZero() && Writable(View().slots) && (Publishes(old(View()), OpRemove(id)) || old(AllCpusAgree())) ==>
        AllCpusAgree()
      ensures forall c :: 0 <= c < cpus.Length ==>
        cpus[c] == if Publishes(old(View()), OpRemove(id)) then Apply(old(cpus[c]), Writes(View().slots)) else old(cpus[c])
    {
      if id.num == 0 || id.num == num[id.dr] {
        usage[id.dr] := false;
        Publish();
      }
    }

    /** wp_clean */
    method CleanWatches()
      requires Valid()
      modifies usage, cpus
      ensures Valid() && View() == Clean(old(View())) && AllCpusAgree()
    {
      usage[0], usage[1], usage[2], usage[3] := false, false, false, false;
      Publish();
    }

    /** wp_query: the lowest slot DR6 reports, with the number that removes unconditionally. */
    method Query(dr6: bv64) returns (id: Id)
      ensures id.Valid() <==> dr6 & 0xf != 0
      ensures id.Valid() ==> id.Shaped() && id.num == 0 && TriggeredBy(dr6, id.dr)
      ensures id.Valid() ==> forall i :: 0 <= i < id.dr ==> !TriggeredBy(dr6, i)
    {
      for i := 0 to 4
        invariant forall j :: 0 <= j < i ==> !TriggeredBy(dr6, j)
      {
        if TriggeredBy(dr6, i) { return Id(i, 0); }
      }
      LowBits(dr6);
      return INVALID;
    }
  }

  /** Bit B0 to B3 of DR6. */
  predicate TriggeredBy(dr6: bv64, i: nat) {
    if i == 0 then dr6 & 1 != 0
    else if i == 1 then dr6 & 2 != 0
    else if i == 2 then dr6 & 4 != 0
    else dr6 & 8 != 0
  }

  /** Slot `i` is bit `i` of DR6, counted from the lowest. */
  lemma TriggeredBit(dr6: bv64)
    ensures TriggeredBy(dr6, 0) <==> dr6 & 0x1 == 0x1
    ensures TriggeredBy(dr6, 1) <==> (dr6 >> 1) & 0x1 == 0x1
    ensures TriggeredBy(dr6, 2) <==> (dr6 >> 2) & 0x1 == 0x1
    ensures TriggeredBy(dr6, 3) <==> (dr6 >> 3) & 0x1 == 0x1
  {
  }

  lemma LowBits(dr6: bv64)
    requires !TriggeredBy(dr6, 0) && !TriggeredBy(dr6, 1) && !TriggeredBy(dr6, 2) && !TriggeredBy(dr6, 3)
    ensures dr6 & 0xf == 0
  {
  }
}
