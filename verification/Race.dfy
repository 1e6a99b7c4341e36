/** From a decoded instruction to the accesses its watch reports: int3_real_work of drddr/drddr-main.c. */
module Race {
  import opened Words
  import opened OpcodeTables
  import Addressing
  import opened Decoder
  import opened DecoderFacts
  import opened DebugRegisters
  import opened WatchTable
  import opened Watchpoints
  import opened DecodeCache

  /** Section 17.2.5: an armed slot covers `bytes` bytes at its address rounded down to a multiple. */
  ghost predicate Fires(w: Armed, x: int, n: nat, write: bool)
    requires w.bytes > 0
  {
    var start := w.addr - w.addr % w.bytes;
    start < x + n && x < start + w.bytes && (write || w.onReads)
  }

  /** An access of `n` bytes at `x` touches the decoded operand. */
  ghost predicate Overlaps(a: Access, x: int, n: nat) {
    a.addr < x + n && x < a.addr + a.length
  }

  /** The watch reports exactly the conflicting accesses. */
  ghost predicate ReportsRaces(w: Armed, a: Access)
    requires w.bytes > 0
  {
    forall x: int, n: nat, write: bool :: n > 0 ==>
      (Fires(w, x, n, write) <==> Overlaps(a, x, n) && (write || a.isWrite))
  }

  lemma AlignedReportsRaces(w: Armed, a: Access)
    requires a.length > 0 && w == Armed(a.addr, a.length, a.isWrite)
    ensures ReportsRaces(w, a) <==> a.addr % a.length == 0
  {
    if a.addr % a.length != 0 {
      var start := w.addr - w.addr % w.bytes;
      assert Fires(w, start, 1, true) && !Overlaps(a, start, 1);
    }
  }

  /** The slot int3_real_work stores for a decoded operand: get_data_info turns bytes into bits. */
  predicate HoldsAccess(s: Slot, a: Access) {
    s.used && s.addr == a.addr && s.length == 8 * a.length && s.isWrite == a.isWrite
  }

  /** The instruction has an operand to watch. */
  ghost predicate Reports(code: seq<Byte>, regs: Addressing.Registers, ip: Word) {
    Decode(code, regs, ip).Done? && Decode(code, regs, ip).access.length != 0
  }

  /** Slot `i` watches exactly the operand, and reports exactly its races if and only if it is aligned. */
  ghost predicate Watches(r: DebugRegisters.Registers, i: nat, a: Access) {
    && r.Shaped() && i < 4 && a.length > 0
    && Denotes(r, i) == Some(Armed(a.addr, a.length, a.isWrite))
    && (ReportsRaces(Denotes(r, i).value, a) <==> a.addr % a.length == 0)
  }

  /**
   For every instruction with an operand, a processor that agrees with the table watches
   exactly the decoded size, and the watch fires on exactly the overlapping accesses of which
   at least one is a write, if and only if the operand is aligned.
   */
  lemma RaceSemantics(code: seq<Byte>, regs: Addressing.Registers, ip: Word, t: Slots, i: nat, r: DebugRegisters.Registers)
    requires i < 4
    ensures Reports(code, regs, ip) && HoldsAccess(t[i], Decode(code, regs, ip).access) && Agrees(r, t) ==>
              Watches(r, i, Decode(code, regs, ip).access)
  {
    if Reports(code, regs, ip) && HoldsAccess(t[i], Decode(code, regs, ip).access) && Agrees(r, t) {
      var _, _ := ReportShape(code, regs, ip);
      var a := Decode(code, regs, ip).access;
      assert Denotes(r, i) == Intended(t, i);
      AlignedReportsRaces(Armed(a.addr, a.length, a.isWrite), a);
    }
  }

  /**
   A string instruction is reported at address 0, which set_dr never writes: the slot then
   watches whatever address its register held before, or what it watched if the ctrl is rejected.
   */
  lemma StringWatchIsStale(code: seq<Byte>, regs: Addressing.Registers, ip: Word, t: Slots, i: nat, r: DebugRegisters.Registers)
    returns (o: Opcode)
    requires i < 4 && r.Shaped() && Reports(code, regs, ip)
    ensures ReadOpcode(code, PrefixCount(code)) == Some(o)
    ensures (o.d.src == SrcSI || o.d.dst == DstDI) && HoldsAccess(t[i], Decode(code, regs, ip).access) ==>
      var a, w := Decode(code, regs, ip).access, Denotes(Apply(r, Writes(t)), i);
      && a.addr == 0 && a.length == (if o.d.byteOp then 1 else OperandSize(code[..PrefixCount(code)]))
      && if Writable(t) then w == Some(Armed(r.dr[i], a.length, a.isWrite)) else w == Denotes(r, i)
  {
    o := StringOperand(code, regs, ip);
    var a := Decode(code, regs, ip).access;
    var _, _ := ReportShape(code, regs, ip);
    if a.addr == 0 && HoldsAccess(t[i], a) { StaleSlot(a, t, i, r); }
  }

  lemma StringOperand(code: seq<Byte>, regs: Addressing.Registers, ip: Word) returns (o: Opcode)
    requires Reports(code, regs, ip)
    ensures ReadOpcode(code, PrefixCount(code)) == Some(o)
    ensures o.d.src == SrcSI || o.d.dst == DstDI ==>
      var a := Decode(code, regs, ip).access;
      a.addr == 0 && a.length == if o.d.byteOp then 1 else OperandSize(code[..PrefixCount(code)])
  {
    var i;
    o, i := DoneParts(code, regs, ip);
    if o.d.src == SrcSI || o.d.dst == DstDI { StringReport(i); }
  }

  lemma StringReport(i: Insn)
    requires Consistent(i.op.d) && i.rm.reg < 16 && (i.size == 2 || i.size == 4 || i.size == 8)
    requires (i.op.d.src == SrcSI || i.op.d.dst == DstDI) && i.Reported().length != 0
    ensures i.Reported().addr == 0 && i.Reported().length == i.FullOrByte() && !i.op.d.stack
  {
    OperandShape(i);
  }

  lemma StaleSlot(a: Access, t: Slots, i: nat, r: DebugRegisters.Registers)
    requires i < 4 && r.Shaped() && HoldsAccess(t[i], a) && a.addr == 0
    requires a.length == 1 || a.length == 2 || a.length == 4 || a.length == 8
    ensures Denotes(Apply(r, Writes(t)), i) ==
              if Writable(t) then Some(Armed(r.dr[i], a.length, a.isWrite)) else Denotes(r, i)
  {
    AllWrites(r, t, i);
    Written(r, t, i);
    ControlDecodes(t, i);
  }

  /** int3_real_work on the table: armed, and removed again if the identifier is valid. */
  function WatchedOnce(t: Table, a: Access): Table {
    var armed := Add(t, a.addr, 8 * a.length, a.isWrite);
    if CapturedId(t).Valid() then Remove(armed, CapturedId(t)) else armed
  }

  /** Number `n` survives the 30-bit field, or wraps to the 0 that removes unconditionally. */
  predicate Disarms(n: int) {
    (0 <= n && Field30(n) == n) || Field30(n) == 0
  }

  /** The watch of one handler goes again exactly when its number can disarm it, or no slot was free. */
  lemma AddThenRemove(t: Table, a: Access)
    ensures SameWatches(WatchedOnce(t, a).slots, t.slots) <==> !HasFree(t) || Disarms(t.total + 1)
    ensures WatchedOnce(t, a).total == t.total + if HasFree(t) then 1 else 0
  {
    if HasFree(t) && !Disarms(t.total + 1) {
      var s := FirstFree(t.slots);
      assert Intended(WatchedOnce(t, a).slots, s).Some? && Intended(t.slots, s).None?;
    }
  }

  /** get_data_info: the decoder's slot 0, its length turned into bits. */
  method GetDataInfo(code: seq<Byte>, ip: Word, regs: Addressing.Registers)
    returns (addr: Word, bits: nat, isWrite: bool)
    ensures bits != 0 <==> Reports(code, regs, ip)
    ensures bits != 0 ==> HoldsAccess(Slot(true, addr, bits, isWrite, 0), Decode(code, regs, ip).access)
  {
    var dataAddr := new Word[SLOTS](_ => 0);
    var dataLength := new nat[SLOTS](_ => 0);
    var isWrites := new bool[SLOTS](_ => false);
    var cache := new Cache(code, ip, regs);
    var ok := cache.GetMemoryAccess(dataAddr, dataLength, isWrites);
    if !ok { return 0, 0, false; }
    dataLength[0] := dataLength[0] * 8;
    return dataAddr[0], dataLength[0], isWrites[0];
  }

  /** int3_real_work up to the busy wait: the operand is decoded and its watch armed on every processor. */
  method Arm(wl: WatchList, code: seq<Byte>, ip: Word, regs: Addressing.Registers) returns (id: Id)
    requires wl.Valid()
    modifies wl, wl.usage, wl.addr, wl.length, wl.iswrite, wl.num, wl.cpus
    ensures wl.Valid()
    ensures !Reports(code, regs, ip) ==> id == INVALID && wl.View() == old(wl.View()) && wl.cpus[..] == old(wl.cpus[..])
    ensures Reports(code, regs, ip) ==>
      var a := Decode(code, regs, ip).access;
      id == CapturedId(old(wl.View())) && wl.View() == Add(old(wl.View()), a.addr, 8 * a.length, a.isWrite)
    ensures Reports(code, regs, ip) && HasFree(old(wl.View())) && old(wl.AllCpusAgree()) ==>
      var s, a := FirstFree(old(wl.View()).slots), Decode(code, regs, ip).access;
      forall c :: 0 <= c < wl.cpus.Length ==>
        (Watches(wl.cpus[c], s, a) <==> Writable(wl.View().slots) && (a.addr == 0 ==> old(wl.cpus[c]).dr[s] == 0))
  {
    var addr, bits, isWrite := GetDataInfo(code, ip, regs);
    if bits == 0 { return INVALID; }
    ghost var t := wl.View();
    id := wl.AddWatch(addr, bits, isWrite);
    if HasFree(t) && old(wl.AllCpusAgree()) {
      ghost var s, a := FirstFree(t.slots), Decode(code, regs, ip).access;
      forall c | 0 <= c < wl.cpus.Length
        ensures Watches(wl.cpus[c], s, a) <==> Writable(wl.View().slots) && (a.addr == 0 ==> old(wl.cpus[c]).dr[s] == 0)
      {
        ArmedIff(code, regs, ip, t, Slot(true, addr, bits, isWrite, 0), old(wl.cpus[c]));
      }
    }
  }

  /**
   A processor that agreed with the table watches the operand exactly when the new ctrl is accepted,
   and an address of 0 finds 0 in the slot's register.
   */
  lemma ArmedIff(code: seq<Byte>, regs: Addressing.Registers, ip: Word, t: Table, s: Slot, r: DebugRegisters.Registers)
    requires HasFree(t) && Agrees(r, t.slots) && Reports(code, regs, ip)
    requires HoldsAccess(s, Decode(code, regs, ip).access)
    ensures var after, i := Add(t, s.addr, s.length, s.isWrite).slots, FirstFree(t.slots);
            Watches(Apply(r, Writes(after)), i, Decode(code, regs, ip).access) <==>
              Writable(after) && (s.addr == 0 ==> r.dr[i] == 0)
  {
    var _, _ := ReportShape(code, regs, ip);
    ArmedAccess(t, Decode(code, regs, ip).access, r);
  }

  lemma ArmedAccess(t: Table, a: Access, r: DebugRegisters.Registers)
    requires HasFree(t) && Agrees(r, t.slots)
    requires a.length == 1 || a.length == 2 || a.length == 4 || a.length == 8
    ensures var after, i := Add(t, a.addr, 8 * a.length, a.isWrite).slots, FirstFree(t.slots);
            Watches(Apply(r, Writes(after)), i, a) <==> Writable(after) && (a.addr == 0 ==> r.dr[i] == 0)
  {
    var after, i := Add(t, a.addr, 8 * a.length, a.isWrite).slots, FirstFree(t.slots);
    assert Denotes(r, i) == Intended(t.slots, i) == None;
    AllWrites(r, after, i);
    assert Intended(after, i) == Some(Armed(a.addr, a.length, a.isWrite));
    AlignedReportsRaces(Armed(a.addr, a.length, a.isWrite), a);
  }

  /** The handler leaves the watches as they were, if its instruction has no operand or its watch goes again. */
  ghost predicate Restores(code: seq<Byte>, regs: Addressing.Registers, ip: Word, t: Table) {
    Reports(code, regs, ip) && HasFree(t) ==> Disarms(t.total + 1)
  }

  /** The decoding and watching part of int3_real_work, undisturbed by other handlers. */
  method RealWork(wl: WatchList, code: seq<Byte>, ip: Word, regs: Addressing.Registers)
    requires wl.Valid()
    modifies wl, wl.usage, wl.addr, wl.length, wl.iswrite, wl.num, wl.cpus
    ensures wl.Valid()
    ensures wl.View() == if Reports(code, regs, ip) then WatchedOnce(old(wl.View()), Decode(code, regs, ip).access)
                         else old(wl.View())
    ensures SameWatches(wl.View().slots, old(wl.View()).slots) <==> Restores(code, regs, ip, old(wl.View()))
  {
    if Reports(code, regs, ip) { AddThenRemove(wl.View(), Decode(code, regs, ip).access); }
    var id := Arm(wl, code, ip, regs);
    if id.Valid() { wl.RemoveWatch(id); }
  }

  /** The lowest slot whose bit is set in DR6. */
  ghost predicate FirstTriggered(dr6: bv64, i: nat) {
    i < 4 && TriggeredBy(dr6, i) && forall j :: 0 <= j < i ==> !TriggeredBy(dr6, j)
  }

  /** debug_drddr: the lowest triggered slot is disarmed, whoever owns it; nothing else changes. */
  method DebugTrap(wl: WatchList, dr6: bv64)
    requires wl.Valid()
    modifies wl.usage, wl.cpus
    ensures wl.Valid()
    ensures dr6 & 0xf == 0 ==> wl.View() == old(wl.View())
    ensures dr6 & 0xf != 0 ==> exists i :: FirstTriggered(dr6, i)
    ensures forall i: nat :: FirstTriggered(dr6, i) ==>
      wl.View() == old(wl.View()).(slots := old(wl.View()).slots[i := old(wl.View()).slots[i].(used := false)])
  {
    var id := wl.Query(dr6);
    if id.Valid() {
      wl.RemoveWatch(id);
      assert FirstTriggered(dr6, id.dr);
    } else {
      NoBits(dr6);
    }
  }

  lemma NoBits(dr6: bv64)
    requires dr6 & 0xf == 0
    ensures !TriggeredBy(dr6, 0) && !TriggeredBy(dr6, 1) && !TriggeredBy(dr6, 2) && !TriggeredBy(dr6, 3)
  {
  }
}
