/**
 The opcode, two-byte and group tables of drddr/disassem.c. A flag word is a record of
 the flags the decoder reads; Mov, String, Lock, Priv and No64 are never read, and no
 entry consists of them alone, so dropping them leaves `d == 0` as it is.
 */
module OpcodeTables {
  import opened Words

  datatype Dst = NoDst | ImplicitOps | DstReg | DstMem | DstAcc | DstDI | DstMem64

  datatype Src = SrcNone | SrcReg | SrcMem | SrcMem16 | SrcMem32 | SrcImm | SrcImmByte | SrcImmUByte | SrcImmU | SrcSI

  datatype Src2 = Src2None | Src2CL | Src2ImmByte | Src2Imm16 | Src2Mem16

  datatype GroupRef = GroupRef(number: nat, dual: bool)

  datatype Flags = Flags(
    dst: Dst, src: Src, src2: Src2, byteOp: bool, modRM: bool, bitOp: bool, memAbs: bool,
    stack: bool, push: bool, pop: bool, readOnly: bool, known: bool, group: Option<GroupRef>)
  {
    function Bytes(): Flags { this.(byteOp := true) }
    function WithModRM(): Flags { this.(modRM := true) }
    function WithStack(): Flags { this.(stack := true) }
    function Pushing(): Flags { this.(stack := true, push := true) }
    function Popping(): Flags { this.(stack := true, pop := true) }
    function Reading(): Flags { this.(readOnly := true) }
    /**
     Src2Imm16 and Src2Mem16 are negative ints (4 << 29 and 5 << 29), so in the 64-bit table
     they also set every bit from 32 up, ReadOnly, Push and Pop among them.
     */
    function WideSource2(s: Src2): Flags { this.(src2 := s, readOnly := true, push := true, pop := true) }
  }

  const ZERO := Flags(NoDst, SrcNone, Src2None, false, false, false, false, false, false, false, false, false, None)
  const KNOWN := ZERO.(known := true)

  function Op(dst: Dst, src: Src): Flags {
    ZERO.(dst := dst, src := src)
  }

  function Grouped(number: nat, dual: bool): Flags {
    ZERO.(group := Some(GroupRef(number, dual)))
  }

  /** The 8-bit form for an even opcode, the full-size form for an odd one. */
  function Sized(b: nat, f: Flags): Flags {
    if b % 2 == 0 then f.Bytes() else f
  }

  /** 0x00 - 0x3F: eight rows of the same arithmetic pattern, with holes. */
  function ArithmeticRow(b: Byte): Flags
    requires b < 0x40
  {
    var row, col := b / 8, b % 8;
    var memReg := Sized(b, Op(DstMem, SrcReg).WithModRM());
    if col < 2 then (if row == 7 then memReg.Reading() else memReg)
    else if col < 4 then Sized(b, Op(DstReg, SrcMem).WithModRM())
    else if col < 6 then
      if row == 5 || row == 6 then ZERO
      else if b == 0x24 then Op(DstAcc, SrcImmByte)
      else Sized(b, Op(DstAcc, SrcImm))
    else if row >= 4 || b == 0x0f then ZERO
    else if col == 6 then Op(ImplicitOps, SrcNone).Pushing()
    else Op(ImplicitOps, SrcNone).Popping()
  }

  /** 0x40 - 0x7F */
  function SecondQuarter(b: Byte): Flags
    requires 0x40 <= b < 0x80
  {
    if b < 0x50 then Op(DstReg, SrcNone)
    else if b < 0x58 then Op(NoDst, SrcReg).Pushing()
    else if b < 0x60 then Op(DstReg, SrcNone).Popping()
    else if b < 0x62 then Op(ImplicitOps, SrcNone).WithStack()
    else if b == 0x63 then Op(DstReg, SrcMem32).WithModRM()
    else if b == 0x68 then Op(NoDst, SrcImm).Pushing()
    else if b == 0x6a then Op(NoDst, SrcImmByte).Pushing()
    else if b == 0x6c || b == 0x6d then Sized(b, Op(DstDI, SrcNone))
    else if b == 0x6e || b == 0x6f then Sized(b, Op(ImplicitOps, SrcSI))
    else if b >= 0x70 then Op(NoDst, SrcImmByte)
    else ZERO
  }

  /** 0x80 - 0x9F */
  function Row8And9(b: Byte): Flags
    requires 0x80 <= b < 0xa0
  {
    if b < 0x84 then Grouped(b - 0x80, false)
    else if b < 0x86 then Sized(b, Op(DstMem, SrcReg).WithModRM()).Reading()
    else if b < 0x8a then Sized(b, Op(DstMem, SrcReg).WithModRM())
    else if b < 0x8c then Sized(b, Op(DstReg, SrcMem).WithModRM())
    else if b == 0x8c then Op(DstMem, SrcReg).WithModRM()
    else if b == 0x8d then Op(DstReg, SrcNone).WithModRM()
    else if b == 0x8e then Op(DstReg, SrcMem).WithModRM()
    else if b == 0x8f then Grouped(4, false)
    else if b < 0x98 then Op(DstReg, SrcNone)
    else if b < 0x9a then KNOWN
    else if b == 0x9a then Op(NoDst, SrcImm).WideSource2(Src2Imm16)
    else if b == 0x9c || b == 0x9d then Op(ImplicitOps, SrcNone).WithStack()
    else ZERO
  }

  /** 0xA0 - 0xBF */
  function RowAAndB(b: Byte): Flags
    requires 0xa0 <= b < 0xc0
  {
    if b < 0xa2 then Sized(b, Op(DstReg, SrcMem).(memAbs := true))
    else if b < 0xa4 then Sized(b, Op(DstMem, SrcReg).(memAbs := true))
    else if b < 0xa8 then Sized(b, Op(DstDI, SrcSI))
    else if b < 0xaa then ZERO
    else if b < 0xac then Sized(b, Op(DstDI, SrcNone))
    else if b < 0xae then Sized(b, Op(DstAcc, SrcSI))
    else if b < 0xb0 then Sized(b, Op(DstDI, SrcNone))
    else if b < 0xb8 then Op(DstReg, SrcImm).Bytes()
    else Op(DstReg, SrcImm)
  }

  /** 0xC0 - 0xFF */
  function FourthQuarter(b: Byte): Flags
    requires 0xc0 <= b
  {
    if b == 0xc0 then Op(DstMem, SrcImm).WithModRM().Bytes()
    else if b == 0xc1 then Op(DstMem, SrcImmByte).WithModRM()
    else if b == 0xc3 || b == 0xcb then Op(ImplicitOps, SrcNone).WithStack()
    else if b == 0xc6 || b == 0xc7 then Sized(b, Op(DstMem, SrcImm).WithModRM())
    else if b == 0xcc || b == 0xce || b == 0xcf then Op(ImplicitOps, SrcNone)
    else if b == 0xcd then Op(NoDst, SrcImmByte)
    else if 0xd0 <= b < 0xd4 then Sized(b, Op(DstMem, SrcNone).WithModRM())
    else if 0xe4 <= b < 0xe8 then Sized(b, Op(DstAcc, SrcImmUByte))
    else if b == 0xe8 then Op(NoDst, SrcImm).WithStack()
    else if b == 0xe9 then Op(ImplicitOps, SrcImm)
    else if b == 0xea then Op(NoDst, SrcImmU).WideSource2(Src2Imm16)
    else if b == 0xeb then Op(ImplicitOps, SrcImmByte)
    else if 0xec <= b < 0xf0 then Sized(b, Op(DstAcc, SrcNone))
    else if b == 0xf6 then Grouped(5, false)
    else if b == 0xf7 then Grouped(6, false)
    else if b == 0xfe then Grouped(7, false)
    else if b == 0xff then Grouped(8, false)
    else if b == 0xf4 || b == 0xf5 || b == 0xf8 || 0xfa <= b then Op(ImplicitOps, SrcNone)
    else ZERO
  }

  function OneByte(b: Byte): Flags {
    if b < 0x40 then ArithmeticRow(b)
    else if b < 0x80 then SecondQuarter(b)
    else if b < 0xa0 then Row8And9(b)
    else if b < 0xc0 then RowAAndB(b)
    else FourthQuarter(b)
  }

  /** twobyte_table, 0x00 - 0x9F */
  function TwoByteLow(b: Byte): Flags {
    if b == 0x01 then Grouped(9, true)
    else if b == 0x05 || b == 0x06 || b == 0x08 || b == 0x09 then Op(ImplicitOps, SrcNone)
    else if b == 0x30 || b == 0x32 || b == 0x34 || b == 0x35 then Op(ImplicitOps, SrcNone)
    else if b == 0x0d || b == 0x18 || b == 0x20 || b == 0x22 then Op(ImplicitOps, SrcNone).WithModRM()
    else if b == 0x21 || b == 0x23 then Op(NoDst, SrcNone).WithModRM()
    else if 0x40 <= b < 0x50 then Op(DstReg, SrcMem).WithModRM()
    else if 0x80 <= b < 0x90 then Op(NoDst, SrcImm)
    else ZERO
  }

  /** twobyte_table, 0xA0 - 0xFF */
  function TwoByteHigh(b: Byte): Flags {
    var memReg := Op(DstMem, SrcReg).WithModRM();
    if b == 0xa0 || b == 0xa8 then Op(ImplicitOps, SrcNone).Pushing()
    else if b == 0xa1 || b == 0xa9 then Op(ImplicitOps, SrcNone).Popping()
    else if b == 0xa3 || b == 0xab || b == 0xb3 || b == 0xbb then memReg.(bitOp := true)
    else if b == 0xa4 || b == 0xac then memReg.(src2 := Src2ImmByte)
    else if b == 0xa5 || b == 0xad then memReg.(src2 := Src2CL)
    else if b == 0xae then Op(NoDst, SrcNone).WithModRM()
    else if b == 0xb0 then memReg.Bytes()
    else if b == 0xb1 || b == 0xc3 then memReg
    else if b == 0xb6 || b == 0xbe then Op(DstReg, SrcMem).WithModRM().Bytes()
    else if b == 0xb7 || b == 0xbf then Op(DstReg, SrcMem16).WithModRM()
    else if b == 0xba then Grouped(10, false)
    else if b == 0xc7 then Grouped(11, true)
    else ZERO
  }

  function TwoByte(b: Byte): Flags {
    if b < 0xa0 then TwoByteLow(b) else TwoByteHigh(b)
  }

  /** Group1, the arithmetic operations with an immediate */
  function Group1(number: nat, reg: nat): Flags {
    var f := if number == 3 then Op(DstMem, SrcImmByte).WithModRM() else Op(DstMem, SrcImm).WithModRM();
    var g := if number == 0 || number == 2 then f.Bytes() else f;
    if reg == 7 then g.Reading() else g
  }

  /** Group3_Byte and Group3 */
  function Group3(bytes: bool, reg: nat): Flags {
    var f := if reg == 0 then Op(DstMem, SrcImm).WithModRM().Reading()
             else if reg == 2 || reg == 3 then Op(DstMem, SrcNone).WithModRM()
             else ZERO;
    if bytes && f != ZERO then f.Bytes() else f
  }

  function Group5(reg: nat): Flags {
    if reg < 2 then Op(DstMem, SrcNone).WithModRM()
    else if reg == 2 || reg == 4 then Op(NoDst, SrcMem).WithModRM().WithStack()
    else if reg == 5 then Op(ImplicitOps, SrcMem).WithModRM().WideSource2(Src2Mem16)
    else if reg == 6 then Op(NoDst, SrcMem).WithModRM().Pushing()
    else ZERO
  }

  function Group7(reg: nat): Flags {
    if reg == 2 || reg == 3 then Op(NoDst, SrcMem).WithModRM()
    else if reg == 4 then Op(DstMem, SrcNone).WithModRM()
    else if reg == 6 then Op(NoDst, SrcMem16).WithModRM()
    else if reg == 7 then Op(NoDst, SrcMem).WithModRM().Bytes()
    else ZERO
  }

  /** group_table[number * 8 + reg] */
  function GroupEntry(number: nat, reg: nat): Flags {
    if number < 4 then Group1(number, reg)
    else if number == 4 then (if reg == 0 then Op(DstMem, SrcNone).WithModRM().WithStack() else ZERO)
    else if number < 7 then Group3(number == 5, reg)
    else if number == 7 then (if reg < 2 then Op(DstMem, SrcNone).WithModRM().Bytes() else ZERO)
    else if number == 8 then Group5(reg)
    else if number == 9 then Group7(reg)
    else if number == 10 then (if reg >= 4 then Op(DstMem, SrcImmByte).WithModRM() else ZERO)
    else if reg == 1 then Op(DstMem64, SrcNone).WithModRM()
    else ZERO
  }

  /** group2_table, consulted by the dual groups when mod is 3. */
  function Group2Entry(number: nat, reg: nat): Flags {
    if number != 9 then ZERO
    else if reg == 0 || reg == 3 then Op(NoDst, SrcNone).WithModRM()
    else if reg == 4 then Op(DstMem, SrcNone).WithModRM()
    else if reg == 6 then Op(NoDst, SrcMem16).WithModRM()
    else ZERO
  }

  /** The entry a group word stands for, once the ModRM byte is known. */
  function Resolve(d: Flags, modrm: Byte): Flags
    requires d.group.Some?
  {
    var g := d.group.value;
    if g.dual && modrm / 64 == 3 then Group2Entry(g.number, modrm / 8 % 8) else GroupEntry(g.number, modrm / 8 % 8)
  }

  /** Bytes of the source immediate of an entry, at operand size `op`. */
  function SourceImmediate(d: Flags, op: nat): nat {
    match d.src
    case SrcImm | SrcImmU => if d.byteOp then 1 else if op == 8 then 4 else op
    case SrcImmByte | SrcImmUByte => 1
    case _ => 0
  }

  function Source2Immediate(d: Flags): nat {
    match d.src2
    case Src2ImmByte => 1
    case Src2Imm16 => 2
    case _ => 0
  }

  function ImmediateBytes(d: Flags, op: nat): nat {
    SourceImmediate(d, op) + Source2Immediate(d)
  }

  /** What the decoder relies on of the entries it interprets. */
  ghost predicate Consistent(d: Flags) {
    && (d.modRM ==> !d.memAbs && d.dst != DstDI && d.src != SrcSI && !(d.src.SrcImmU? || d.src.SrcImmUByte?))
    && (d.modRM ==> d.src2 != Src2Imm16 && (d.src2 == Src2ImmByte ==> d.src == SrcReg))
    && (d.memAbs ==> (d.src.SrcMem? || d.src.SrcReg?) && d.src2 == Src2None && d.dst != DstDI)
    && (d.bitOp ==> d.modRM && d.src == SrcReg && d.dst == DstMem && !d.byteOp && !d.stack && !d.readOnly && d.src2 == Src2None)
    && (d.src == SrcSI || d.dst == DstDI ==> !d.stack)
    && (d.src2 == Src2Mem16 ==> d.dst == ImplicitOps)
    && (d.dst == DstMem || d.dst == DstMem64 || d.src == SrcMem || d.src == SrcMem16 || d.src == SrcMem32 ==> d.modRM || d.memAbs)
    && (d.dst == DstMem64 ==> d.src == SrcNone)
    && (d.stack && d.push && d.dst != ImplicitOps ==>
          d.src in {SrcReg, SrcMem, SrcImm, SrcImmByte} && !d.byteOp && !d.readOnly)
    && (d.stack && d.pop && !d.push ==> d.src == SrcNone)
    && !d.known
  }

  /** With a ModRM byte, no full-size immediate: all there is in the two-byte map. */
  ghost predicate ShortImmediate(d: Flags) {
    d.modRM ==> d.src != SrcImm
  }

  /** The group words of the two-byte map. */
  ghost predicate HighGroup(d: Flags) {
    d.group.Some? ==> d.group.value.number >= 9
  }

  /** Every non-zero group entry has a ModRM byte, so the peeked byte is always read again. */
  lemma GroupsHaveModRM(d: Flags, modrm: Byte)
    requires d.group.Some?
    ensures Resolve(d, modrm) != ZERO ==> Resolve(d, modrm).modRM
    ensures Resolve(d, modrm).group.None? && Consistent(Resolve(d, modrm)) && Resolve(d, modrm) != KNOWN
    ensures HighGroup(d) ==> ShortImmediate(Resolve(d, modrm))
  {
    var g, reg := d.group.value, modrm / 8 % 8;
    AnyGroup(g.number, reg);
    SecondGroup(g.number, reg);
    if g.number >= 9 { HighGroupsAreShort(g.number, reg); }
  }

  ghost predicate Interpreted(d: Flags) {
    (d != ZERO ==> d.modRM) && d.group.None? && d != KNOWN
  }

  lemma AnyGroup(number: nat, reg: nat)
    ensures Interpreted(GroupEntry(number, reg)) && Consistent(GroupEntry(number, reg))
  {
    if number < 4 { assert Interpreted(Group1(number, reg)) && Consistent(Group1(number, reg)); }
    else if number == 5 || number == 6 { assert Interpreted(Group3(number == 5, reg)) && Consistent(Group3(number == 5, reg)); }
    else if number == 8 { FifthGroup(reg); }
    else if number == 9 { SeventhGroup(reg); }
  }

  lemma FifthGroup(reg: nat)
    ensures Interpreted(Group5(reg)) && Consistent(Group5(reg))
  {
  }

  lemma SeventhGroup(reg: nat)
    ensures Interpreted(Group7(reg)) && Consistent(Group7(reg))
  {
  }

  lemma HighGroupsAreShort(number: nat, reg: nat)
    requires number >= 9
    ensures ShortImmediate(GroupEntry(number, reg)) && ShortImmediate(Group2Entry(number, reg))
  {
  }

  lemma SecondGroup(number: nat, reg: nat)
    ensures Interpreted(Group2Entry(number, reg)) && Consistent(Group2Entry(number, reg))
  {
  }

  lemma FirstQuarterConsistent(b: Byte)
    requires b < 0x40
    ensures Consistent(ArithmeticRow(b))
  {
  }

  lemma SecondQuarterConsistent(b: Byte)
    requires 0x40 <= b < 0x80
    ensures Consistent(SecondQuarter(b))
  {
  }

  lemma Row8And9Consistent(b: Byte)
    requires 0x80 <= b < 0xa0
    ensures Row8And9(b) == KNOWN || Consistent(Row8And9(b))
  {
  }

  lemma RowAAndBConsistent(b: Byte)
    requires 0xa0 <= b < 0xc0
    ensures Consistent(RowAAndB(b))
  {
  }

  lemma FourthQuarterConsistent(b: Byte)
    requires 0xc0 <= b
    ensures Consistent(FourthQuarter(b))
  {
  }

  lemma OneByteConsistent(b: Byte)
    ensures OneByte(b) == KNOWN || Consistent(OneByte(b))
  {
    if b < 0x40 { FirstQuarterConsistent(b); }
    else if b < 0x80 { SecondQuarterConsistent(b); }
    else if b < 0xa0 { Row8And9Consistent(b); }
    else if b < 0xc0 { RowAAndBConsistent(b); }
    else { FourthQuarterConsistent(b); }
  }

  lemma LowTwoByteConsistent(b: Byte)
    requires b < 0xa0
    ensures Consistent(TwoByte(b)) && ShortImmediate(TwoByte(b)) && HighGroup(TwoByte(b))
  {
  }

  lemma HighTwoByteConsistent(b: Byte)
    requires b >= 0xa0
    ensures Consistent(TwoByte(b)) && ShortImmediate(TwoByte(b)) && HighGroup(TwoByte(b))
  {
  }

  lemma TwoByteConsistent(b: Byte)
    ensures Consistent(TwoByte(b)) && ShortImmediate(TwoByte(b)) && HighGroup(TwoByte(b))
  {
    if b < 0xa0 { LowTwoByteConsistent(b); } else { HighTwoByteConsistent(b); }
  }
}
