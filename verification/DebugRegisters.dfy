/**
 Debug registers as sections 17.2.1 to 17.2.5 of the Intel SDM Vol. 3B define them, and how
 set_dr of drddr/drddr-wp.c programs them on every processor.
 */
module DebugRegisters {
  import opened Words

  /** One entry of the watch table; `length` is in bits. */
  datatype Slot = Slot(used: bool, addr: Word, length: nat, isWrite: bool, num: int)

  type Slots = s: seq<Slot> | |s| == 4 witness seq(4, _ => Slot(false, 0, 0, false, 0))

  /** DR0 to DR3 and DR7 of one processor. */
  datatype Registers = Registers(dr: seq<Word>, dr7: bv64) {
    ghost predicate Shaped() { |dr| == 4 }
  }

  // ---- The architecture ---------------------------------------------------------------

  /** What an enabled breakpoint register watches: writes only, or reads and writes. */
  datatype Armed = Armed(addr: Word, bytes: nat, onReads: bool)

  /** Local or global enable, L0 and G0 to L3 and G3. */
  predicate Enabled(dr7: bv64, i: nat) {
    if i == 0 then dr7 & 0x3 != 0
    else if i == 1 then dr7 & 0xc != 0
    else if i == 2 then dr7 & 0x30 != 0
    else dr7 & 0xc0 != 0
  }

  /** The R/W field of slot `i`. */
  function ModeField(dr7: bv64, i: nat): bv64 {
    if i == 0 then (dr7 >> 16) & 3
    else if i == 1 then (dr7 >> 20) & 3
    else if i == 2 then (dr7 >> 24) & 3
    else (dr7 >> 28) & 3
  }

  /** The LEN field of slot `i`. */
  function LengthField(dr7: bv64, i: nat): bv64 {
    if i == 0 then (dr7 >> 18) & 3
    else if i == 1 then (dr7 >> 22) & 3
    else if i == 2 then (dr7 >> 26) & 3
    else (dr7 >> 30) & 3
  }

  /** 00 one byte, 01 two, 10 eight, 11 four. */
  function FieldBytes(len: bv64): nat {
    if len == 0 then 1 else if len == 1 then 2 else if len == 2 then 8 else 4
  }

  /** The watch that slot `i` denotes: mode 1 breaks on writes, mode 3 on reads and writes. */
  function Denotes(r: Registers, i: nat): Option<Armed>
    requires r.Shaped() && i < 4
  {
    if Enabled(r.dr7, i)
    then Some(Armed(r.dr[i], FieldBytes(LengthField(r.dr7, i)), ModeField(r.dr7, i) == 3))
    else None
  }

  // ---- What set_dr computes --------------------------------------------------------------

  function LengthFlag(length: nat): (r: bv64)
    ensures r <= 3
  {
    if length == 8 then 0 else if length == 16 then 1 else if length == 32 then 3 else 2
  }

  function ModeFlag(isWrite: bool): (r: bv64)
    ensures r <= 3
  {
    if isWrite then 3 else 1
  }

  /** A 32-bit int stored into the 64-bit ctrl: bit 31 spreads over the high half. */
  function SignExtend(x: bv64): bv64 {
    if x & 0x8000_0000 != 0 then x | 0xffff_ffff_0000_0000 else x
  }

  /** The three terms one used slot contributes to ctrl. */
  function Bits(s: Slot, i: nat): bv64 {
    if !s.used then 0
    else if i == 0 then 0x2 | SignExtend(ModeFlag(s.isWrite) << 16) | SignExtend(LengthFlag(s.length) << 18)
    else if i == 1 then 0x8 | SignExtend(ModeFlag(s.isWrite) << 20) | SignExtend(LengthFlag(s.length) << 22)
    else if i == 2 then 0x20 | SignExtend(ModeFlag(s.isWrite) << 24) | SignExtend(LengthFlag(s.length) << 26)
    else 0x80 | SignExtend(ModeFlag(s.isWrite) << 28) | SignExtend(LengthFlag(s.length) << 30)
  }

  function WithSlot(ctrl: bv64, s: Slot, i: nat): bv64 {
    ctrl | Bits(s, i)
  }

  function Control(t: Slots): bv64 {
    WithSlot(WithSlot(WithSlot(WithSlot(0x300, t[0], 0), t[1], 1), t[2], 2), t[3], 3)
  }

  datatype RegisterWrite = SetAddress(i: nat, addr: Word) | SetControl(ctrl: bv64)

  function AddressWrite(t: Slots, i: nat): seq<RegisterWrite>
    requires i < 4
  {
    if t[i].used && t[i].addr != 0 then [SetAddress(i, t[i].addr)] else []
  }

  /** The address writes of the first `n` slots, in order: a zero address is never written. */
  function AddressWrites(t: Slots, n: nat): seq<RegisterWrite>
    requires n <= 4
  {
    if n == 0 then [] else AddressWrites(t, n - 1) + AddressWrite(t, n - 1)
  }

  /** The writes of wp_set_to_register. */
  function Writes(t: Slots): seq<RegisterWrite> {
    AddressWrites(t, 4) + [SetControl(Control(t))]
  }

  /** Bits 63 to 32 of DR7 are reserved: a write with any of them set faults and changes nothing. */
  predicate Reserved(ctrl: bv64) {
    ctrl & 0xffff_ffff_0000_0000 != 0
  }

  function ApplyOne(r: Registers, w: RegisterWrite): Registers
    requires r.Shaped()
  {
    match w
    case SetAddress(i, a) => if i < 4 then r.(dr := r.dr[i := a]) else r
    case SetControl(c) => if Reserved(c) then r else r.(dr7 := c)
  }

  function Apply(r: Registers, ws: seq<RegisterWrite>): (r': Registers)
    requires r.Shaped()
    ensures r'.Shaped()
  {
    if ws == [] then r else ApplyOne(Apply(r, ws[..|ws| - 1]), ws[|ws| - 1])
  }

  /** The watch the table means slot `i` to have. */
  function Intended(t: Slots, i: nat): Option<Armed>
    requires i < 4
  {
    if t[i].used then Some(Armed(t[i].addr, FieldBytes(LengthFlag(t[i].length)), t[i].isWrite)) else None
  }

  // ---- ctrl -----------------------------------------------------------------------------

  /** DR7 decodes back to usage, mode and length of all four slots. */
  lemma ControlDecodes(t: Slots, i: nat)
    requires i < 4
    ensures Enabled(Control(t), i) == t[i].used
    ensures t[i].used ==> ModeField(Control(t), i) == ModeFlag(t[i].isWrite)
                          && LengthField(Control(t), i) == LengthFlag(t[i].length)
  {
  }

  /**
   Nothing else is set below bit 16: no local enable, neither general detection nor the reserved
   bits, and both exact-match bits.
   */
  lemma ControlBits(t: Slots)
    ensures Control(t) & 0xff55 == 0x300
    ensures Control(t) & 0xaa == (if t[0].used then 0x2 else 0) | (if t[1].used then 0x8 else 0)
                                   | (if t[2].used then 0x20 else 0) | (if t[3].used then 0x80 else 0)
  {
  }

  /** Bits 16 to 31: for each slot a mode of 1 or 3 and a length of 0, 1, 3 or 2 in one nibble, nothing for a free slot. */
  lemma ControlNibbles(t: Slots)
    ensures (Control(t) >> 16) & 0xf == SlotNibble(t[0])
    ensures (Control(t) >> 20) & 0xf == SlotNibble(t[1])
    ensures (Control(t) >> 24) & 0xf == SlotNibble(t[2])
    ensures (Control(t) >> 28) & 0xf == SlotNibble(t[3])
  {
  }

  function SlotNibble(s: Slot): bv64 {
    if !s.used then 0x0
    else if s.length == 8 then (if s.isWrite then 0x3 else 0x1)
    else if s.length == 16 then (if s.isWrite then 0x7 else 0x5)
    else if s.length == 32 then (if s.isWrite then 0xf else 0xd)
    else (if s.isWrite then 0xb else 0x9)
  }

  /** Slot 3 is free or watches one or two bytes. */
  predicate Writable(t: Slots) {
    t[3].used ==> t[3].length == 8 || t[3].length == 16
  }

  /** ctrl has reserved bits set exactly when slot 3 watches four or eight bytes. */
  lemma HighHalf(t: Slots)
    ensures Reserved(Control(t)) <==> !Writable(t)
  {
  }

  // ---- Every single write ------------------------------------------------------------------

  /** The registers of one processor mean exactly what the table says. */
  ghost predicate Agrees(r: Registers, t: Slots) {
    r.Shaped() && forall i :: 0 <= i < 4 ==> Denotes(r, i) == Intended(t, i)
  }

  /** A slot in use before and after keeps its watch, as in every update of the table. */
  ghost predicate KeepsWatches(before: Slots, after: Slots) {
    forall i :: 0 <= i < 4 && before[i].used && after[i].used ==> Intended(before, i) == Intended(after, i)
  }

  /** Address writes of table `t`. */
  ghost predicate AddressesOf(ws: seq<RegisterWrite>, t: Slots) {
    forall k :: 0 <= k < |ws| ==>
      ws[k].SetAddress? && ws[k].i < 4 && t[ws[k].i].used && ws[k].addr == t[ws[k].i].addr != 0
  }

  lemma {:induction false} AfterAddresses(r: Registers, ws: seq<RegisterWrite>, t: Slots, i: nat)
    requires r.Shaped() && AddressesOf(ws, t) && i < 4
    ensures var r' := Apply(r, ws);
            && r'.dr7 == r.dr7
            && (r'.dr[i] == r.dr[i] || (t[i].used && r'.dr[i] == t[i].addr))
            && (SetAddress(i, t[i].addr) in ws ==> r'.dr[i] == t[i].addr)
            && (SetAddress(i, t[i].addr) !in ws ==> r'.dr[i] == r.dr[i])
  {
    if ws != [] {
      var init, last := ws[..|ws| - 1], ws[|ws| - 1];
      AfterAddresses(r, init, t, i);
      assert ws == init + [last];
    }
  }

  lemma {:induction false} AddressWritesShape(t: Slots, n: nat)
    requires n <= 4
    ensures AddressesOf(AddressWrites(t, n), t)
    ensures forall i :: 0 <= i < 4 ==>
      (SetAddress(i, t[i].addr) in AddressWrites(t, n) <==> i < n && t[i].used && t[i].addr != 0)
  {
    if n > 0 { AddressWritesShape(t, n - 1); }
  }

  /** The address writes come first; slot `i` has one exactly when it is used with a non-zero address. */
  lemma WritesShape(t: Slots)
    ensures var ws := Writes(t); |ws| > 0 && AddressesOf(ws[..|ws| - 1], t) && ws[|ws| - 1] == SetControl(Control(t))
    ensures forall i :: 0 <= i < 4 ==>
      (SetAddress(i, t[i].addr) in Writes(t)[..|Writes(t)| - 1] <==> t[i].used && t[i].addr != 0)
  {
    AddressWritesShape(t, 4);
    assert Writes(t)[..|Writes(t)| - 1] == AddressWrites(t, 4);
  }

  /** The slot denotes its watch of one table or the other. */
  predicate SlotInTransit(r: Registers, before: Slots, after: Slots, i: nat)
    requires r.Shaped() && i < 4
  {
    Denotes(r, i) == Intended(before, i) || Denotes(r, i) == Intended(after, i)
  }

  ghost predicate InTransit(r: Registers, before: Slots, after: Slots)
    requires r.Shaped()
  {
    forall i :: 0 <= i < 4 ==> SlotInTransit(r, before, after, i)
  }

  /** All watches have non-zero addresses. */
  ghost predicate NonZeroSlots(t: Slots) {
    forall i :: 0 <= i < 4 && t[i].used ==> t[i].addr != 0
  }

  /**
   From any registers: until DR7 is written, or when that write faults, a slot enabled by the old
   DR7 keeps its length and mode, and its address unless the new table writes one there.
   */
  lemma BeforeControl(r: Registers, after: Slots, k: nat, i: nat)
    requires r.Shaped() && k <= |Writes(after)| && i < 4
    requires k < |Writes(after)| || !Writable(after)
    ensures Denotes(Apply(r, Writes(after)[..k]), i) ==
              if Denotes(r, i).Some? && SetAddress(i, after[i].addr) in Writes(after)[..k]
              then Some(Denotes(r, i).value.(addr := after[i].addr)) else Denotes(r, i)
    ensures SetAddress(i, after[i].addr) in Writes(after)[..k] ==> after[i].used && after[i].addr != 0
  {
    var ws := Writes(after);
    WritesShape(after);
    HighHalf(after);
    var n := if k == |ws| then k - 1 else k;
    assert forall j :: 0 <= j < n ==> ws[..n][j] == ws[..|ws| - 1][j];
    AfterAddresses(r, ws[..n], after, i);
    if k == |ws| {
      assert ws[..k] == ws && ws == ws[..n] + [SetControl(Control(after))];
      assert SetAddress(i, after[i].addr) in ws[..k] <==> SetAddress(i, after[i].addr) in ws[..n];
    }
  }

  /** Every single write keeps a slot in transit: its watch is that of the old or the new table. */
  lemma EveryWrite(r: Registers, before: Slots, after: Slots, k: nat, i: nat)
    requires r.Shaped() && KeepsWatches(before, after) && NonZeroSlots(after) && k <= |Writes(after)| && i < 4
    requires SlotInTransit(r, before, after, i)
    ensures SlotInTransit(Apply(r, Writes(after)[..k]), before, after, i)
  {
    if k < |Writes(after)| || !Writable(after) {
      BeforeControl(r, after, k, i);
    } else {
      assert Writes(after)[..k] == Writes(after);
      AllWrites(r, after, i);
    }
  }

  /**
   on_each_cpu in any order, from any registers: however far each processor gets, every slot denotes
   its watch of one table or the other, exactly when it does so before the first write.
   */
  lemma EveryProcessorIff(cpus: seq<Registers>, before: Slots, after: Slots)
    requires KeepsWatches(before, after) && NonZeroSlots(after)
    requires forall c :: 0 <= c < |cpus| ==> cpus[c].Shaped()
    ensures (forall c, k :: 0 <= c < |cpus| && 0 <= k <= |Writes(after)| ==>
               InTransit(Apply(cpus[c], Writes(after)[..k]), before, after))
            <==> forall c :: 0 <= c < |cpus| ==> InTransit(cpus[c], before, after)
  {
    forall c, k | 0 <= c < |cpus| && 0 <= k <= |Writes(after)| && InTransit(cpus[c], before, after)
      ensures InTransit(Apply(cpus[c], Writes(after)[..k]), before, after)
    {
      forall i | 0 <= i < 4 ensures SlotInTransit(Apply(cpus[c], Writes(after)[..k]), before, after, i) {
        EveryWrite(cpus[c], before, after, k, i);
      }
    }
    if c :| 0 <= c < |cpus| && !InTransit(cpus[c], before, after) {
      assert Writes(after)[..0] == [];
      assert Apply(cpus[c], Writes(after)[..0]) == cpus[c];
    }
  }

  /** What the writes leave in the registers. */
  lemma Written(r: Registers, t: Slots, i: nat)
    requires r.Shaped() && i < 4
    ensures var r' := Apply(r, Writes(t));
            && r'.dr7 == (if Writable(t) then Control(t) else r.dr7)
            && r'.dr[i] == (if t[i].used && t[i].addr != 0 then t[i].addr else r.dr[i])
  {
    var ws := Writes(t);
    WritesShape(t);
    HighHalf(t);
    AfterAddresses(r, ws[..|ws| - 1], t, i);
  }

  /**
   Once all writes are done, slot `i` is right exactly when its address is non-zero or already in
   place. When the write of DR7 faults it keeps its old watch, except that an enabled slot given a
   new address keeps its old length and mode at the new address.
   */
  lemma AllWrites(r: Registers, t: Slots, i: nat)
    requires r.Shaped() && i < 4
    ensures Writable(t) ==>
      (Denotes(Apply(r, Writes(t)), i) == Intended(t, i) <==> (t[i].used && t[i].addr == 0 ==> r.dr[i] == 0))
    ensures !Writable(t) ==>
      Denotes(Apply(r, Writes(t)), i) ==
        if Denotes(r, i).Some? && t[i].used && t[i].addr != 0 then Some(Denotes(r, i).value.(addr := t[i].addr))
        else Denotes(r, i)
  {
    Written(r, t, i);
    ControlDecodes(t, i);
  }

  /** At the end the registers agree with the new table, given non-zero addresses and an accepted ctrl. */
  lemma AllAgree(r: Registers, t: Slots)
    requires r.Shaped() && Writable(t) && NonZeroSlots(t)
    ensures Agrees(Apply(r, Writes(t)), t)
  {
    forall i | 0 <= i < 4 ensures Denotes(Apply(r, Writes(t)), i) == Intended(t, i) { AllWrites(r, t, i); }
  }

  ghost predicate SameWatches(a: Slots, b: Slots) {
    forall i :: 0 <= i < 4 ==> Intended(a, i) == Intended(b, i)
  }

  /** An update takes effect exactly when slot 3 watches at most two bytes, or there is nothing to change. */
  lemma UpdateTakesEffectIff(r: Registers, before: Slots, after: Slots)
    requires Agrees(r, before) && KeepsWatches(before, after) && NonZeroSlots(after)
    ensures Agrees(Apply(r, Writes(after)), after) <==> Writable(after) || SameWatches(before, after)
  {
    if Writable(after) {
      AllAgree(r, after);
    } else {
      forall i | 0 <= i < 4 ensures Denotes(Apply(r, Writes(after)), i) == Intended(before, i) {
        AllWrites(r, after, i);
      }
    }
  }
}
