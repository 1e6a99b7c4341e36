/**
 Operands written as bytes and decoded again: REX, ModRM, SIB and displacement built with literal
 arithmetic on bits and bytes, for every base, index, scale and displacement.
 */
module Encodings {
  import opened Words
  import opened OpcodeTables
  import opened Addressing
  import opened Decoder
  import opened DecoderFacts
  import opened OpcodeColumns

  // ---- Bytes and bits ----------------------------------------------------------------------------

  /** The byte at `k`, as a number. */
  function N(code: seq<Byte>, k: nat): nat
    requires k < |code|
  {
    code[k]
  }

  /** Fetches are little-endian. */
  lemma LittleEndian(code: seq<Byte>, pos: nat, size: nat)
    requires pos + size <= |code|
    ensures size == 1 ==> Fetch(code, pos, size) == N(code, pos)
    ensures size == 2 ==> Fetch(code, pos, size) == N(code, pos) + 0x100 * N(code, pos + 1)
    ensures size == 4 ==> Fetch(code, pos, size) == Four(code, pos)
    ensures size == 8 ==> Fetch(code, pos, size) == Eight(code, pos)
  {
  }

  function Eight(code: seq<Byte>, pos: nat): nat
    requires pos + 8 <= |code|
  {
    Four(code, pos) + 0x1_0000_0000 * Four(code, pos + 4)
  }

  function Four(code: seq<Byte>, pos: nat): nat
    requires pos + 4 <= |code|
  {
    N(code, pos) + 0x100 * N(code, pos + 1) + 0x1_0000 * N(code, pos + 2) + 0x100_0000 * N(code, pos + 3)
  }

  /** A displacement of no, one or four bytes, unsigned. */
  function Place(disp: seq<Byte>): nat
    requires |disp| == 0 || |disp| == 1 || |disp| == 4
  {
    if |disp| == 0 then 0 else if |disp| == 1 then disp[0] else Four(disp, 0)
  }

  /** The two, three and three bits of a ModRM or SIB byte. */
  lemma Fields(high: nat, middle: nat, low: nat)
    requires high < 4 && middle < 8 && low < 8
    ensures var x := 64 * high + 8 * middle + low;
            x < 256 && x / 64 == high && x / 8 % 8 == middle && x % 8 == low
  {
  }

  /** Bits R, X and B of a REX byte, or of 0 for none: the upper bits of three register numbers. */
  predicate UpperBits(rex: Byte, reg: nat, x: nat, b: nat) {
    rex / 4 % 2 == reg / 8 && rex / 2 % 2 == x && rex % 2 == b
  }

  /** REX with W, the upper bit of `reg`, X and B. */
  function Rex(w: bool, reg: nat, x: nat, b: nat): (rex: Byte)
    requires reg < 16 && x < 2 && b < 2
    ensures UpperBits(rex, reg, x, b) && 0x40 <= rex <= 0x4f && (rex / 8 % 2 == 1 <==> w)
  {
    0x40 + (if w then 8 else 0) + 4 * (reg / 8) + 2 * x + b
  }

  // ---- Operands ----------------------------------------------------------------------------------

  /** base + index * 2^scale + displacement */
  datatype Operand = Operand(base: Option<nat>, index: Option<nat>, scale: nat, disp: seq<Byte>)
  {
    /** What a SIB byte can express: RSP is no index, and no displacement is no form of RBP and R13. */
    predicate Encodable() {
      && scale < 4 && (|disp| == 0 || |disp| == 1 || |disp| == 4)
      && (base.Some? ==> base.value < 16 && (|disp| == 0 ==> base.value != 5 && base.value != 13))
      && (base.None? ==> |disp| == 4)
      && (index.Some? ==> index.value < 16 && index.value != 4)
    }

    function Address(regs: Registers): nat
      requires Encodable()
    {
      (if base.Some? then regs[base.value] else 0)
      + (if index.None? then 0
         else if scale == 0 then regs[index.value]
         else if scale == 1 then 2 * regs[index.value]
         else if scale == 2 then 4 * regs[index.value]
         else 8 * regs[index.value])
      + Place(disp)
    }

    /** 00 no displacement or no base, 01 one byte, 10 four bytes. */
    function Mod(): nat {
      if base.None? || |disp| == 0 then 0 else if |disp| == 1 then 1 else 2
    }

    function X(): nat { if index.Some? && index.value >= 8 then 1 else 0 }
    function B(): nat { if base.Some? && base.value >= 8 then 1 else 0 }

    function ModRM(reg: nat): Byte {
      64 * Mod() + 8 * (reg % 8) + 4
    }

    function Sib(): Byte
      requires scale < 4
    {
      64 * scale + 8 * (if index.Some? then index.value % 8 else 4) + (if base.Some? then base.value % 8 else 5)
    }
  }

  function Cut(x: nat, size: nat): Word {
    if size == 8 then x % TWO64 else x % TWO32
  }

  /** The displacement stands at `pos`. */
  predicate StandsAt(code: seq<Byte>, pos: nat, disp: seq<Byte>) {
    pos + |disp| <= |code| && code[pos..pos + |disp|] == disp
  }

  lemma PlaceIsFetch(code: seq<Byte>, pos: nat, disp: seq<Byte>)
    requires |disp| == 0 || |disp| == 1 || |disp| == 4
    requires StandsAt(code, pos, disp)
    ensures Displacement(code, pos, |disp|) == Some(Place(disp))
    ensures |disp| == 4 ==> Fetch(code, pos, 4) == Place(disp)
  {
    assert forall k :: 0 <= k < |disp| ==> code[pos + k] == disp[k];
    LittleEndian(code, pos, |disp|);
  }

  /**
   For every operand with a SIB byte: its ModRM, SIB and displacement bytes, with the upper bits in
   REX, decode to base + index * 2^scale + displacement, cut to the address size.
   */
  lemma SibDecodes(code: seq<Byte>, pos: nat, op: Operand, rex: Byte, reg: nat, size: nat, regs: Registers, ip: Word)
    requires op.Encodable() && UpperBits(rex, reg, op.X(), op.B()) && reg < 16 && (size == 4 || size == 8) && pos + 2 <= |code|
    requires code[pos] == op.ModRM(reg) && code[pos + 1] == op.Sib() && StandsAt(code, pos + 2, op.disp)
    ensures DecodeModRM(code, pos, size, rex, regs, ip)
              == Some(Decoded(op.Mod(), reg, Cut(op.Address(regs), size), pos + 2 + |op.disp|))
  {
    Fields(op.Mod(), reg % 8, 4);
    SibSum(code, pos + 1, op, rex, regs);
    TruncateIsCut(op.Address(regs), size);
  }

  lemma SibSum(code: seq<Byte>, pos: nat, op: Operand, rex: Byte, regs: Registers)
    requires op.Encodable() && pos < |code| && code[pos] == op.Sib() && StandsAt(code, pos + 1, op.disp)
    requires rex / 2 % 2 == op.X() && rex % 2 == op.B()
    ensures DecodeSib(code, pos, op.Mod(), rex, regs) == Some((op.Address(regs) as int, pos + 1 + |op.disp|))
  {
    Fields(op.scale, if op.index.Some? then op.index.value % 8 else 4, if op.base.Some? then op.base.value % 8 else 5);
    PlaceIsFetch(code, pos + 1, op.disp);
    assert op.base.Some? ==> op.base.value == 8 * op.B() + op.base.value % 8;
    assert op.index.Some? ==> op.index.value == 8 * op.X() + op.index.value % 8;
  }

  lemma TruncateIsCut(x: nat, size: nat)
    requires size == 4 || size == 8
    ensures Truncate(x, size) == Cut(x, size)
  {
    TruncateReduces(x, size);
  }

  /** The same without a SIB byte, for every base whose low bits are not 100. */
  lemma BaseDecodes(code: seq<Byte>, pos: nat, base: nat, disp: seq<Byte>, rex: Byte, reg: nat, size: nat, regs: Registers, ip: Word)
    requires UpperBits(rex, reg, rex / 2 % 2, base / 8) && base < 16 && base != 4 && base != 12 && reg < 16 && (size == 4 || size == 8) && pos < |code|
    requires |disp| == 1 || |disp| == 4 || (|disp| == 0 && base != 5 && base != 13)
    requires StandsAt(code, pos + 1, disp)
    requires N(code, pos) == 64 * (if |disp| == 0 then 0 else if |disp| == 1 then 1 else 2) + 8 * (reg % 8) + base % 8
    ensures DecodeModRM(code, pos, size, rex, regs, ip)
              == Some(Decoded(if |disp| == 0 then 0 else if |disp| == 1 then 1 else 2, reg,
                              Cut(regs[base] + Place(disp), size), pos + 1 + |disp|))
  {
    Fields(if |disp| == 0 then 0 else if |disp| == 1 then 1 else 2, reg % 8, base % 8);
    PlaceIsFetch(code, pos + 1, disp);
    TruncateIsCut(regs[base] + Place(disp), size);
  }

  /** The ip-relative form: the address after the displacement plus the displacement, not cut. */
  lemma IpDecodes(code: seq<Byte>, pos: nat, disp: seq<Byte>, rex: Byte, reg: nat, size: nat, regs: Registers, ip: Word)
    requires UpperBits(rex, reg, rex / 2 % 2, 0) && reg < 16 && (size == 4 || size == 8) && pos < |code| && |disp| == 4 && StandsAt(code, pos + 1, disp)
    requires N(code, pos) == 8 * (reg % 8) + 5
    ensures DecodeModRM(code, pos, size, rex, regs, ip)
              == Some(Decoded(0, reg, (ip + pos + 5 + Place(disp)) % TWO64, pos + 5))
  {
    Fields(0, reg % 8, 5);
    PlaceIsFetch(code, pos + 1, disp);
    SmallTruncate(Place(disp), size);
    WrapInner(Place(disp), ip + pos + 5);
  }

  // ---- Reports -----------------------------------------------------------------------------------

  /** The REX byte in force: the last prefix if it is one, or 0. */
  function RexInForce(prefixes: seq<Byte>): Byte {
    if prefixes != [] && 0x40 <= prefixes[|prefixes| - 1] <= 0x4f then prefixes[|prefixes| - 1] else 0
  }

  /** An opcode whose report is its ModRM operand: no push and no bit string. */
  predicate ReportsOperand(w: Written) {
    && HasModRM(w.two, w.b) && !(!w.two && w.b == 0xff && w.Reg() == 6)
    && !(w.two && (w.b == 0xa3 || w.b == 0xab || w.b == 0xb3 || w.b == 0xbb))
  }

  /** Where the byte after the opcode stands. */
  function AfterOpcode(code: seq<Byte>): nat {
    PrefixCount(code) + if WrittenAt(code, PrefixCount(code)).two then 2 else 1
  }

  lemma OperandAddress(code: seq<Byte>, regs: Registers, ip: Word) returns (rm: Decoded)
    requires Decode(code, regs, ip).Done? && Decode(code, regs, ip).access.length != 0
    requires ReportsOperand(WrittenAt(code, PrefixCount(code)))
    ensures var prefixes := code[..PrefixCount(code)];
            && DecodeModRM(code, AfterOpcode(code), AddressSize(prefixes), RexInForce(prefixes), regs, ip) == Some(rm)
            && Decode(code, regs, ip).access.addr == rm.ea
  {
    var n := PrefixCount(code);
    var o, i := DoneParts(code, regs, ip);
    OpcodeGoverns(code, n, HasRexR(code[..n]), OperandSize(code[..n]));
    rm := i.rm;
    PushingOperands(o, WrittenAt(code, n), HasRexR(code[..n]), OperandSize(code[..n]));
    if o.d.stack && o.d.pop && !o.d.push && o.d.dst != ImplicitOps { StackShape(i); }
    ReportedAddress(i);
  }

  lemma PushingOperands(o: Opcode, w: Written, rexR: bool, size: nat)
    requires Governs(o, w, rexR, size) && ReportsOperand(w) && o.d != ZERO && o.d != KNOWN && GoodOpcode(o)
    ensures o.d.modRM && !o.d.bitOp && (o.d.dst == ImplicitOps || !(o.d.stack && o.d.push))
  {
    assert w.Report(rexR) != Push;
  }

  /**
   For every prefix sequence and opcode that reports its ModRM operand: written with a SIB byte, the
   report is at base + index * 2^scale + displacement, cut to the address size.
   */
  lemma SibReported(code: seq<Byte>, op: Operand, reg: nat, regs: Registers, ip: Word)
    requires Decode(code, regs, ip).Done? && Decode(code, regs, ip).access.length != 0
    requires ReportsOperand(WrittenAt(code, PrefixCount(code)))
    requires op.Encodable() && reg < 16 && UpperBits(RexInForce(code[..PrefixCount(code)]), reg, op.X(), op.B())
    requires var m := AfterOpcode(code);
             m + 2 <= |code| && code[m] == op.ModRM(reg) && code[m + 1] == op.Sib() && StandsAt(code, m + 2, op.disp)
    ensures Decode(code, regs, ip).access.addr == Cut(op.Address(regs), AddressSize(code[..PrefixCount(code)]))
  {
    var prefixes := code[..PrefixCount(code)];
    var rm := OperandAddress(code, regs, ip);
    SibDecodes(code, AfterOpcode(code), op, RexInForce(prefixes), reg, AddressSize(prefixes), regs, ip);
  }

  /** And written without one, at base + displacement. */
  lemma BaseReported(code: seq<Byte>, base: nat, disp: seq<Byte>, reg: nat, regs: Registers, ip: Word)
    requires Decode(code, regs, ip).Done? && Decode(code, regs, ip).access.length != 0
    requires ReportsOperand(WrittenAt(code, PrefixCount(code)))
    requires base < 16 && base != 4 && base != 12 && reg < 16
    requires |disp| == 1 || |disp| == 4 || (|disp| == 0 && base != 5 && base != 13)
    requires var rex := RexInForce(code[..PrefixCount(code)]); UpperBits(rex, reg, rex / 2 % 2, base / 8)
    requires var m := AfterOpcode(code);
             && StandsAt(code, m + 1, disp)
             && N(code, m) == 64 * (if |disp| == 0 then 0 else if |disp| == 1 then 1 else 2) + 8 * (reg % 8) + base % 8
    ensures Decode(code, regs, ip).access.addr == Cut(regs[base] + Place(disp), AddressSize(code[..PrefixCount(code)]))
  {
    var prefixes := code[..PrefixCount(code)];
    var rm := OperandAddress(code, regs, ip);
    BaseDecodes(code, AfterOpcode(code), base, disp, RexInForce(prefixes), reg, AddressSize(prefixes), regs, ip);
  }

  /** The absolute address of A0 to A3 is the value of the four or eight bytes after the opcode. */
  lemma AbsoluteReported(code: seq<Byte>, regs: Registers, ip: Word)
    requires Decode(code, regs, ip).Done? && var w := WrittenAt(code, PrefixCount(code)); !w.two && 0xa0 <= w.b <= 0xa3
    ensures var n, a := PrefixCount(code), Decode(code, regs, ip).access;
            && n + 1 + AddressSize(code[..n]) <= |code| && a.length != 0
            && a.addr == if AddressSize(code[..n]) == 4 then Four(code, n + 1) else Eight(code, n + 1)
  {
    var ea := AbsoluteFetch(code, regs, ip);
    var n := PrefixCount(code);
    FetchedValue(code, n + 1, AddressSize(code[..n]), ea);
  }

  lemma FetchedValue(code: seq<Byte>, pos: nat, size: nat, v: nat)
    requires (size == 4 || size == 8) && pos + size <= |code| && v == Fetch(code, pos, size)
    ensures v == if size == 4 then Four(code, pos) else Eight(code, pos)
  {
    LittleEndian(code, pos, size);
  }

  lemma AbsoluteFetch(code: seq<Byte>, regs: Registers, ip: Word) returns (ea: Word)
    requires Decode(code, regs, ip).Done? && var w := WrittenAt(code, PrefixCount(code)); !w.two && 0xa0 <= w.b <= 0xa3
    ensures var n := PrefixCount(code);
            var size := AddressSize(code[..n]);
            && n + 1 + size <= |code| && ea == Fetch(code, n + 1, size)
            && Decode(code, regs, ip).access.length != 0 && Decode(code, regs, ip).access.addr == ea
  {
    var n := PrefixCount(code);
    var size := AddressSize(code[..n]);
    ReportByOpcode(code, regs, ip);
    var o, i := DoneParts(code, regs, ip);
    OpcodeGoverns(code, n, HasRexR(code[..n]), OperandSize(code[..n]));
    AbsoluteEntry(o, WrittenAt(code, n), HasRexR(code[..n]), OperandSize(code[..n]));
    AbsoluteOperand(i);
    AbsoluteEa(code, o, size, RexOf(code[..n]), regs, ip);
    ea := i.rm.ea;
  }

  lemma AbsoluteEntry(o: Opcode, w: Written, rexR: bool, size: nat)
    requires Governs(o, w, rexR, size) && !w.two && 0xa0 <= w.b <= 0xa3
    ensures o.d != ZERO && o.d.memAbs && !o.d.modRM && !o.d.bitOp && o.d.src != SrcSI && o.d.dst != DstDI && !o.d.known
    ensures o.d.dst != ImplicitOps && !(o.d.stack && (o.d.push || o.d.pop))
  {
    assert IsReported(w.Report(rexR)) && w.Report(rexR) != Push;
  }

  lemma AbsoluteEa(code: seq<Byte>, o: Opcode, size: nat, rex: Byte, regs: Registers, ip: Word)
    requires o.d.memAbs && !o.d.modRM && (size == 4 || size == 8) && ReadAddress(code, o, size, rex, regs, ip).Some?
    ensures o.next + size <= |code| && ReadAddress(code, o, size, rex, regs, ip).value.ea == Fetch(code, o.next, size)
  {
    SmallTruncates(Fetch(code, o.next, size), size);
  }

  lemma SmallTruncates(x: nat, size: nat)
    requires (size == 4 && x < TWO32) || (size == 8 && x < TWO64)
    ensures Truncate(x, size) == x
  {
  }

  lemma AbsoluteOperand(i: Insn)
    requires i.op.d.memAbs && !i.op.d.modRM && Consistent(i.op.d) && i.rm.reg < 16 && i.size > 0
    requires i.Reported().length != 0 && !i.op.d.bitOp && i.op.d.src != SrcSI && i.op.d.dst != DstDI
    requires !(i.op.d.stack && (i.op.d.push || i.op.d.pop))
    ensures i.Reported().addr == i.rm.ea
  {
  }

  // ---- One instruction in full -------------------------------------------------------------------

  /**
   MOV, opcodes 88 to 8B, with any register, size and operand: read back as its length and a load or
   store of that size at that address, whatever follows.
   */
  lemma MovReadBack(op: Operand, a67: bool, w: bool, reg: nat, b: Byte, rest: seq<Byte>, regs: Registers, ip: Word)
    requires op.Encodable() && reg < 16 && 0x88 <= b <= 0x8b
    ensures var insn := (if a67 then [0x67] else []) + [Rex(w, reg, op.X(), op.B())] + [b, op.ModRM(reg), op.Sib()] + op.disp;
            Decode(insn + rest, regs, ip) ==
              Done(|insn|, Access(Cut(op.Address(regs), if a67 then 4 else 8),
                                  if b % 2 == 0 then 1 else if w then 8 else 4, b <= 0x89))
  {
    var rex := Rex(w, reg, op.X(), op.B());
    var pre := (if a67 then [0x67] else []) + [rex];
    var code := pre + [b, op.ModRM(reg), op.Sib()] + op.disp + rest;
    var n := |pre|;
    Layout(pre, b, op.ModRM(reg), op.Sib(), op.disp, rest);
    MovOperand(code, op, a67, rex, reg, b, regs, ip);
  }

  lemma MovOperand(code: seq<Byte>, op: Operand, a67: bool, rex: Byte, reg: nat, b: Byte, regs: Registers, ip: Word)
    requires op.Encodable() && reg < 16 && 0x88 <= b <= 0x8b && 0x40 <= rex <= 0x4f && UpperBits(rex, reg, op.X(), op.B())
    requires var pre := (if a67 then [0x67] else []) + [rex];
             var n := |pre|;
             && n + 3 + |op.disp| <= |code| && code[..n] == pre && code[n] == b
             && code[n + 1] == op.ModRM(reg) && code[n + 2] == op.Sib() && StandsAt(code, n + 3, op.disp)
    ensures Decode(code, regs, ip) ==
              Done((if a67 then 5 else 4) + |op.disp|,
                   Access(Cut(op.Address(regs), if a67 then 4 else 8),
                          if b % 2 == 0 then 1 else if rex / 8 % 2 == 1 then 8 else 4, b <= 0x89))
  {
    var pre := (if a67 then [0x67] else []) + [rex];
    var n := |pre|;
    MovPrefixes(code, a67, rex);
    SibDecodes(code, n + 1, op, rex, reg, if a67 then 4 else 8, regs, ip);
    MovBytes(code, n, pre, b, Decoded(op.Mod(), reg, Cut(op.Address(regs), if a67 then 4 else 8), n + 3 + |op.disp|), regs, ip);
  }

  lemma Layout(pre: seq<Byte>, b: Byte, modrm: Byte, sib: Byte, disp: seq<Byte>, rest: seq<Byte>)
    ensures var code, n := pre + [b, modrm, sib] + disp + rest, |pre|;
            && n + 3 + |disp| <= |code| && code[..n] == pre
            && code[n] == b && code[n + 1] == modrm && code[n + 2] == sib && StandsAt(code, n + 3, disp)
  {
    var code := pre + [b, modrm, sib] + disp + rest;
    assert code == pre + ([b, modrm, sib] + disp + rest);
  }

  lemma MovBytes(code: seq<Byte>, n: nat, pre: seq<Byte>, b: Byte, rm: Decoded, regs: Registers, ip: Word)
    requires n + 1 < |code| && PrefixCount(code) == n && code[..n] == pre && code[n] == b && 0x88 <= b <= 0x8b
    requires OperandSize(pre) == 4 || OperandSize(pre) == 8
    requires DecodeModRM(code, n + 1, AddressSize(pre), RexOf(pre), regs, ip) == Some(rm)
    requires rm.mod != 3 && rm.reg < 16 && rm.next <= |code|
    ensures Decode(code, regs, ip) ==
              Done(rm.next, Access(rm.ea, if b % 2 == 0 then 1 else OperandSize(pre), b <= 0x89))
  {
    MovEntry(b);
    var o := Opcode(Row8And9(b), b, false, n + 1);
    assert ReadOpcode(code, n) == Some(o);
    var i := Insn(o, OperandSize(pre), RexOf(pre), regs, rm);
    MovReport(i);
    assert ReadInsn(code, o, pre, regs, ip) == Some(i);
  }

  lemma MovPrefixes(code: seq<Byte>, a67: bool, rex: Byte)
    requires 0x40 <= rex <= 0x4f
    requires var pre := (if a67 then [0x67] else []) + [rex];
             |pre| < |code| && code[..|pre|] == pre && 0x88 <= code[|pre|] <= 0x8b
    ensures var pre := (if a67 then [0x67] else []) + [rex];
            && PrefixCount(code) == |pre| && RexOf(pre) == rex
            && OperandSize(pre) == (if rex / 8 % 2 == 1 then 8 else 4) && AddressSize(pre) == if a67 then 4 else 8
  {
    if a67 {
      assert code[0] == 0x67 && code[1] == rex && code[1..][0] == rex && code[1..][1..][0] == code[2];
    } else {
      assert code[0] == rex && code[1..][0] == code[1];
    }
  }

  lemma MovEntry(b: Byte)
    requires 0x88 <= b <= 0x8b
    ensures var f := if b <= 0x89 then Op(DstMem, SrcReg).WithModRM() else Op(DstReg, SrcMem).WithModRM();
            OneByte(b) == Row8And9(b) == if b % 2 == 0 then f.Bytes() else f
  {
  }

  lemma MovReport(i: Insn)
    requires 0x88 <= i.op.b <= 0x8b && i.op.d == Row8And9(i.op.b) && !i.op.twobyte
    requires i.rm.mod != 3 && i.rm.reg < 16 && (i.size == 4 || i.size == 8)
    ensures ImmediateBytes(i.op.d, i.size) == 0 && !i.op.d.stack
    ensures i.Reported() == Access(i.rm.ea, if i.op.b % 2 == 0 then 1 else i.size, i.op.b <= 0x89)
  {
    MovEntry(i.op.b);
  }
}
