/** What yy_get_memory_access of drddr/disassem.c computes, as a function of the bytes at ip. */
module Decoder {
  import opened Words
  import opened OpcodeTables
  import opened Addressing

  // ---- Prefixes ----------------------------------------------------------------------------

  predicate IsRex(b: Byte) { 0x40 <= b < 0x50 }
  predicate IsSegment(b: Byte) { b == 0x26 || b == 0x2e || b == 0x36 || b == 0x3e || b == 0x64 || b == 0x65 }
  predicate IsRep(b: Byte) { b == 0xf2 || b == 0xf3 }

  predicate IsPrefix(b: Byte) {
    IsRex(b) || IsSegment(b) || IsRep(b) || b == 0x66 || b == 0x67 || b == 0xf0
  }

  /** How many bytes at the start are prefixes. */
  function PrefixCount(code: seq<Byte>): (n: nat)
    ensures n <= |code| && (forall i :: 0 <= i < n ==> IsPrefix(code[i]))
    ensures n < |code| ==> !IsPrefix(code[n])
  {
    if code == [] || !IsPrefix(code[0]) then 0 else 1 + PrefixCount(code[1..])
  }

  /** The segment number of an override: bits 3 and 4, or bits 0 to 2 for FS and GS. */
  function SegmentOf(b: Byte): nat {
    if b < 0x40 then b / 8 % 4 else b % 8
  }

  /** The last element satisfying `f`. */
  function Last(s: seq<Byte>, f: Byte -> bool): Option<Byte> {
    if s == [] then None
    else if f(s[|s| - 1]) then Some(s[|s| - 1])
    else Last(s[..|s| - 1], f)
  }

  /** A REX byte counts only in last position. */
  function RexOf(prefixes: seq<Byte>): Byte {
    if prefixes != [] && IsRex(prefixes[|prefixes| - 1]) then prefixes[|prefixes| - 1] else 0
  }

  /** REX.W beats 0x66. */
  function OperandSize(prefixes: seq<Byte>): nat {
    if RexOf(prefixes) / 8 % 2 == 1 then 8 else if 0x66 in prefixes then 2 else 4
  }

  function AddressSize(prefixes: seq<Byte>): (r: nat)
    ensures r == 4 || r == 8
  {
    if 0x67 in prefixes then 4 else 8
  }

  /** The prefix bytes, by number. */
  lemma PrefixBytes(b: Byte)
    ensures IsPrefix(b) <==> b in {0x26, 0x2e, 0x36, 0x3e, 0x64, 0x65, 0x66, 0x67, 0xf0, 0xf2, 0xf3} || 0x40 <= b <= 0x4f
  {
  }

  /** The sizes by number: 48 to 4F in last place beats 66 anywhere. */
  lemma DeclaredSizes(prefixes: seq<Byte>)
    ensures OperandSize(prefixes) ==
              if prefixes != [] && 0x48 <= prefixes[|prefixes| - 1] <= 0x4f then 8
              else if exists k :: 0 <= k < |prefixes| && prefixes[k] == 0x66 then 2
              else 4
    ensures AddressSize(prefixes) == if exists k :: 0 <= k < |prefixes| && prefixes[k] == 0x67 then 4 else 8
  {
  }

  // ---- Opcode ----------------------------------------------------------------------------

  /** The entry that governs the instruction, its opcode byte, and where ModRM would be. */
  datatype Opcode = Opcode(d: Flags, b: Byte, twobyte: bool, next: nat)

  /** The opcode byte or bytes at `pos`; a group word is resolved by peeking at the byte after. */
  function ReadOpcode(code: seq<Byte>, pos: nat): Option<Opcode> {
    if pos >= |code| then None
    else if OneByte(code[pos]) == ZERO && code[pos] == 0x0f then
      if pos + 1 >= |code| then None else Ungroup(code, Opcode(TwoByte(code[pos + 1]), code[pos + 1], true, pos + 2))
    else Ungroup(code, Opcode(OneByte(code[pos]), code[pos], false, pos + 1))
  }

  function Ungroup(code: seq<Byte>, o: Opcode): Option<Opcode> {
    if o.d.group.None? then Some(o)
    else if o.next >= |code| then None
    else Some(o.(d := Resolve(o.d, code[o.next])))
  }

  // ---- Operands ----------------------------------------------------------------------------

  /** What the caller finds in slot 0: nothing when `length` is 0. */
  datatype Access = Access(addr: Word, length: nat, isWrite: bool)

  const NOTHING := Access(0, 0, false)

  /** The instruction up to its operands: entry, operand size, ModRM fields and address. */
  datatype Insn = Insn(op: Opcode, size: nat, rex: Byte, regs: Registers, rm: Decoded)
  {
    /** ModRM with mod 3: the operand is a register. */
    predicate IsRegister() { op.d.modRM && rm.mod == 3 }

    function FullOrByte(): nat { if op.d.byteOp then 1 else size }

    function SrcBytes(): nat {
      match op.d.src
      case SrcNone => 0
      case SrcMem16 => 2
      case SrcMem32 => 4
      case SrcImm | SrcImmU => if FullOrByte() == 8 then 4 else FullOrByte()
      case SrcImmByte | SrcImmUByte => 1
      case _ => FullOrByte()
    }

    /** 0F 01 /7 does not have its address fetched. */
    predicate IsInvlpg() { op.twobyte && op.b == 0x01 && rm.reg == 7 }

    predicate SrcIsMem() {
      match op.d.src
      case SrcMem => !IsInvlpg() && !IsRegister()
      case SrcMem16 | SrcMem32 => !IsRegister()
      case SrcSI => true
      case _ => false
    }

    /** String instructions report a null pointer. */
    function SrcPtr(): Word { if op.d.src == SrcSI then 0 else rm.ea }

    predicate DstIsMem() {
      match op.d.dst
      case DstMem | DstMem64 => !IsRegister()
      case DstDI => true
      case _ => false
    }

    function DstBytes(): nat { if op.d.dst == DstMem64 then 8 else FullOrByte() }

    /** Bit instructions move the address by the register's bit offset, taken as 32 unsigned bits. */
    function BitOffset(): nat
      requires size > 0 && rm.reg < 16
    {
      if size == 2 then regs[rm.reg] % 0x10000 / 16 * 2
      else if size == 4 then regs[rm.reg] % TWO32 / 32 * 4
      else regs[rm.reg] % TWO32 / 64 * 8
    }

    function DstPtr(): Word
      requires size > 0 && rm.reg < 16
    {
      if op.d.dst == DstDI then 0
      else if op.d.bitOp then Wrap(rm.ea + BitOffset())
      else rm.ea
    }

    /** The memory operand, the source before the destination. */
    function Operand(): Access
      requires size > 0 && rm.reg < 16
    {
      if SrcIsMem() then Access(SrcPtr(), SrcBytes(), false)
      else if op.d.src2 == Src2Mem16 then Access(Wrap(rm.ea + SrcBytes()), 2, false)
      else if DstIsMem() then Access(DstPtr(), DstBytes(), true)
      else NOTHING
    }

    /** Stack instructions report the stack slot instead. */
    function StackOrOperand(): Access
      requires size > 0 && rm.reg < 16
    {
      if op.d.stack && op.d.push then Access(Wrap(regs[4] - SrcBytes()), SrcBytes(), true)
      else if op.d.stack && op.d.pop then Access(regs[4], SrcBytes(), false)
      else Operand()
    }

    function Reported(): Access
      requires size > 0 && rm.reg < 16
    {
      if op.d.dst == ImplicitOps then NOTHING
      else
        var a := StackOrOperand();
        if a.length != 0 && op.d.readOnly then a.(isWrite := false) else a
    }
  }

  // ---- The decoder ---------------------------------------------------------------------------

  datatype Outcome =
    | Truncated                              // the bytes end before the decoder does
    | Unrecognised
    | Done(next: nat, access: Access)        // `next` bytes consumed

  /** ModRM addressing, or the absolute address of MemAbs, or nothing. */
  function ReadAddress(code: seq<Byte>, o: Opcode, size: nat, rex: Byte, regs: Registers, ip: Word): Option<Decoded> {
    if o.d.modRM then DecodeModRM(code, o.next, size, rex, regs, ip)
    else if o.d.memAbs && (size == 4 || size == 8) then
      if o.next + size <= |code| then Some(Decoded(0, 0, Truncate(Fetch(code, o.next, size), size), o.next + size)) else None
    else Some(Decoded(0, 0, 0, o.next))
  }

  /** Everything up to the immediates. */
  function ReadInsn(code: seq<Byte>, o: Opcode, prefixes: seq<Byte>, regs: Registers, ip: Word): Option<Insn> {
    match ReadAddress(code, o, AddressSize(prefixes), RexOf(prefixes), regs, ip)
    case None => None
    case Some(rm) => Some(Insn(o, if o.d.stack then 8 else OperandSize(prefixes), RexOf(prefixes), regs, rm))
  }

  lemma RegNumber(code: seq<Byte>, o: Opcode, size: nat, rex: Byte, regs: Registers, ip: Word)
    requires ReadAddress(code, o, size, rex, regs, ip).Some?
    ensures ReadAddress(code, o, size, rex, regs, ip).value.reg < 16
  {
  }

  function Finish(code: seq<Byte>, i: Insn): Outcome
    requires i.size > 0 && i.rm.reg < 16
  {
    var next := i.rm.next + ImmediateBytes(i.op.d, i.size);
    if next > |code| then Truncated else Done(next, i.Reported())
  }

  /** What follows the opcode bytes. */
  function Body(code: seq<Byte>, o: Opcode, prefixes: seq<Byte>, regs: Registers, ip: Word): Outcome {
    match ReadInsn(code, o, prefixes, regs, ip)
    case None => Truncated
    case Some(i) => RegNumber(code, o, AddressSize(prefixes), RexOf(prefixes), regs, ip); Finish(code, i)
  }

  /** Instructions known to touch no memory, and unknown ones, end with their opcode. */
  function AfterOpcode(code: seq<Byte>, o: Opcode, prefixes: seq<Byte>, regs: Registers, ip: Word): Outcome {
    if o.d == KNOWN then Done(o.next, NOTHING)
    else if o.d == ZERO then Unrecognised
    else Body(code, o, prefixes, regs, ip)
  }

  function Decode(code: seq<Byte>, regs: Registers, ip: Word): Outcome {
    var n := PrefixCount(code);
    match ReadOpcode(code, n)
    case None => Truncated
    case Some(o) => AfterOpcode(code, o, code[..n], regs, ip)
  }

  // ---- Extent ----------------------------------------------------------------------------------

  /** What is known of an opcode once its group is resolved. */
  ghost predicate GoodOpcode(o: Opcode) {
    (o.d == KNOWN || Consistent(o.d)) && (o.twobyte ==> ShortImmediate(o.d)) && o.d.group.None?
  }

  lemma UngroupFacts(code: seq<Byte>, o: Opcode)
    requires o.d == KNOWN || Consistent(o.d)
    requires o.twobyte ==> ShortImmediate(o.d) && HighGroup(o.d)
    requires Ungroup(code, o).Some?
    ensures GoodOpcode(Ungroup(code, o).value)
    ensures Ungroup(code, o).value == o.(d := Ungroup(code, o).value.d)
    ensures o.d.group.Some? && Ungroup(code, o).value.d != ZERO ==> Ungroup(code, o).value.d.modRM && o.next < |code|
  {
    if o.d.group.Some? { GroupsHaveModRM(o.d, code[o.next]); }
  }

  lemma OpcodeFacts(code: seq<Byte>, pos: nat)
    requires ReadOpcode(code, pos).Some?
    ensures GoodOpcode(ReadOpcode(code, pos).value)
    ensures ReadOpcode(code, pos).value.next == pos + (if ReadOpcode(code, pos).value.twobyte then 2 else 1) <= |code|
  {
    if OneByte(code[pos]) == ZERO && code[pos] == 0x0f {
      TwoByteConsistent(code[pos + 1]);
      UngroupFacts(code, Opcode(TwoByte(code[pos + 1]), code[pos + 1], true, pos + 2));
    } else {
      OneByteConsistent(code[pos]);
      UngroupFacts(code, Opcode(OneByte(code[pos]), code[pos], false, pos + 1));
    }
  }
}
