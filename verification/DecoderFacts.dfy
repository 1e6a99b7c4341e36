/** Properties of the decoder: extent, shape of the report, and the address reported. */
module DecoderFacts {
  import opened Words
  import opened OpcodeTables
  import opened Addressing
  import opened Decoder

  // ---- Extent --------------------------------------------------------------------------------

  lemma {:induction false} PrefixExtent(code: seq<Byte>, code': seq<Byte>)
    requires PrefixCount(code) < |code| && PrefixCount(code) < |code'|
    requires code[..PrefixCount(code) + 1] == code'[..PrefixCount(code) + 1]
    ensures PrefixCount(code') == PrefixCount(code)
  {
    var n := PrefixCount(code);
    SameBytes(code, code', n + 1);
    if n > 0 {
      assert code[1..][..n] == code[..n + 1][1..];
      assert code'[1..][..n] == code'[..n + 1][1..];
      PrefixExtent(code[1..], code'[1..]);
    }
  }

  /** The opcode stage reads its own bytes, and for a group the ModRM byte that follows them. */
  lemma OpcodeExtent(code: seq<Byte>, code': seq<Byte>, pos: nat, n: nat)
    requires ReadOpcode(code, pos).Some?
    requires var o := ReadOpcode(code, pos).value; o.d != ZERO && (if o.d.modRM then o.next < n else o.next <= n)
    requires n <= |code| && n <= |code'| && code[..n] == code'[..n]
    ensures ReadOpcode(code', pos) == ReadOpcode(code, pos)
  {
    OpcodeFacts(code, pos);
    SameBytes(code, code', n);
    if OneByte(code[pos]) == ZERO && code[pos] == 0x0f {
      TwoByteConsistent(code[pos + 1]);
      UngroupFacts(code, Opcode(TwoByte(code[pos + 1]), code[pos + 1], true, pos + 2));
      UngroupExtent(code, code', Opcode(TwoByte(code[pos + 1]), code[pos + 1], true, pos + 2), n);
    } else {
      OneByteConsistent(code[pos]);
      UngroupFacts(code, Opcode(OneByte(code[pos]), code[pos], false, pos + 1));
      UngroupExtent(code, code', Opcode(OneByte(code[pos]), code[pos], false, pos + 1), n);
    }
  }

  lemma UngroupExtent(code: seq<Byte>, code': seq<Byte>, o: Opcode, n: nat)
    requires Ungroup(code, o).Some? && (o.d.group.Some? ==> o.next < n)
    requires n <= |code| && n <= |code'| && code[..n] == code'[..n]
    ensures Ungroup(code', o) == Ungroup(code, o)
  {
    SameBytes(code, code', n);
  }

  lemma AddressExtent(code: seq<Byte>, code': seq<Byte>, o: Opcode, size: nat, rex: Byte, regs: Registers, ip: Word, n: nat)
    requires (size == 4 || size == 8) && o.next <= |code|
    requires ReadAddress(code, o, size, rex, regs, ip).Some? && ReadAddress(code, o, size, rex, regs, ip).value.next <= n
    requires n <= |code| && n <= |code'| && code[..n] == code'[..n]
    ensures ReadAddress(code', o, size, rex, regs, ip) == ReadAddress(code, o, size, rex, regs, ip)
    ensures var next := ReadAddress(code, o, size, rex, regs, ip).value.next;
            o.next + (if o.d.modRM then 1 else 0) <= next
            && next <= o.next + (if o.d.modRM then 6 else if o.d.memAbs then 8 else 0)
  {
    var next := ReadAddress(code, o, size, rex, regs, ip).value.next;
    assert code[..next] == code[..n][..next] == code'[..n][..next] == code'[..next] by {
      assert code[..n][..next] == code[..next];
      assert code'[..n][..next] == code'[..next];
    }
    if o.d.modRM {
      ModRMLength(code, o.next, size, rex, regs, ip);
      ModRMExtent(code, code', o.next, size, rex, regs, ip);
    } else if o.d.memAbs {
      FetchExtent(code, code', o.next, size, next);
    }
  }

  lemma ImmediateBound(d: Flags, size: nat, twobyte: bool)
    requires Consistent(d) && (twobyte ==> ShortImmediate(d)) && (size == 2 || size == 4 || size == 8)
    ensures ImmediateBytes(d, size) <= (if d.memAbs then 0 else if !d.modRM then 6 else if twobyte then 1 else 4)
  {
  }

  /** The parts of a finished decoding, in terms of the stages. */
  lemma DoneParts(code: seq<Byte>, regs: Registers, ip: Word) returns (o: Opcode, i: Insn)
    requires Decode(code, regs, ip).Done?
    ensures var n := PrefixCount(code);
            var r := Decode(code, regs, ip);
            && ReadOpcode(code, n) == Some(o) && GoodOpcode(o) && o.d != ZERO
            && o.next == n + (if o.twobyte then 2 else 1) <= |code|
            && (o.d == KNOWN ==> r == Done(o.next, NOTHING))
            && (o.d != KNOWN ==>
                  && ReadInsn(code, o, code[..n], regs, ip) == Some(i)
                  && i.op == o && i.rm.reg < 16 && i.regs == regs && i.rex == RexOf(code[..n])
                  && (i.size == 2 || i.size == 4 || i.size == 8)
                  && ReadAddress(code, o, AddressSize(code[..n]), RexOf(code[..n]), regs, ip) == Some(i.rm)
                  && r == Finish(code, i)
                  && r == Done(i.rm.next + ImmediateBytes(o.d, i.size), i.Reported()) && r.next <= |code|)
  {
    var n := PrefixCount(code);
    o := ReadOpcode(code, n).value;
    OpcodeFacts(code, n);
    if o.d == KNOWN {
      i := Insn(o, 4, 0, regs, Decoded(0, 0, 0, 0));
    } else {
      RegNumber(code, o, AddressSize(code[..n]), RexOf(code[..n]), regs, ip);
      i := ReadInsn(code, o, code[..n], regs, ip).value;
    }
  }

  /**
   The decoder is self-delimiting: a recognised instruction consumes its prefixes and 1 to 11
   bytes more, and whatever follows the bytes it consumed makes no difference.
   */
  lemma SelfDelimiting(code: seq<Byte>, code': seq<Byte>, regs: Registers, ip: Word)
    requires Decode(code, regs, ip).Done?
    requires var next := Decode(code, regs, ip).next; next <= |code| ==> next <= |code'| && code[..next] == code'[..next]
    ensures PrefixCount(code) < Decode(code, regs, ip).next <= |code|
    ensures Decode(code, regs, ip).next <= PrefixCount(code) + 11
    ensures Decode(code', regs, ip) == Decode(code, regs, ip)
  {
    var n := PrefixCount(code);
    var o, i := DoneParts(code, regs, ip);
    var next := Decode(code, regs, ip).next;
    if o.d != KNOWN {
      ImmediateBound(o.d, i.size, o.twobyte);
      AddressExtent(code, code', o, AddressSize(code[..n]), RexOf(code[..n]), regs, ip, next);
    }
    OpcodeExtent(code, code', n, next);
    Shorter(code, code', n + 1, next);
    PrefixExtent(code, code');
    Shorter(code, code', n, next);
    if o.d != KNOWN {
      assert ReadInsn(code', o, code'[..n], regs, ip) == Some(i);
    }
  }

  lemma Shorter(code: seq<Byte>, code': seq<Byte>, m: nat, n: nat)
    requires m <= n <= |code| && n <= |code'| && code[..n] == code'[..n]
    ensures code[..m] == code'[..m]
  {
    assert code[..n][..m] == code[..m];
    assert code'[..n][..m] == code'[..m];
  }

  /** How many bytes are consumed is decided by the bytes alone. */
  lemma LengthOfBytes(code: seq<Byte>, regs: Registers, ip: Word, regs': Registers, ip': Word)
    ensures Decode(code, regs, ip).Truncated? == Decode(code, regs', ip').Truncated?
    ensures Decode(code, regs, ip).Done? == Decode(code, regs', ip').Done?
    ensures Decode(code, regs, ip).Done? ==> Decode(code, regs, ip).next == Decode(code, regs', ip').next
  {
    var n := PrefixCount(code);
    var o := ReadOpcode(code, n);
    if o.Some? && o.value.d != KNOWN && o.value.d != ZERO {
      var size, rex := AddressSize(code[..n]), RexOf(code[..n]);
      AddressEnd(code, o.value, size, rex, regs, ip, regs', ip');
    }
  }

  lemma AddressEnd(code: seq<Byte>, o: Opcode, size: nat, rex: Byte, regs: Registers, ip: Word, regs': Registers, ip': Word)
    ensures var r, r' := ReadAddress(code, o, size, rex, regs, ip), ReadAddress(code, o, size, rex, regs', ip');
            r.Some? == r'.Some? && (r.Some? ==> r.value.next == r'.value.next)
  {
  }

  /** No consumed byte string is a proper prefix of another, whatever the registers and addresses. */
  lemma PrefixFree(code: seq<Byte>, more: seq<Byte>, regs: Registers, ip: Word, regs': Registers, ip': Word)
    requires Decode(code, regs, ip).Done? && Decode(code, regs, ip).next == |code|
    requires Decode(code + more, regs', ip').Done? && Decode(code + more, regs', ip').next == |code + more|
    ensures more == []
  {
    LengthOfBytes(code, regs, ip, regs', ip');
    assert (code + more)[..|code|] == code[..|code|];
    SelfDelimiting(code, code + more, regs', ip');
  }

  // ---- The report ------------------------------------------------------------------------------

  lemma OperandShape(i: Insn)
    requires Consistent(i.op.d) && i.rm.reg < 16 && (i.size == 2 || i.size == 4 || i.size == 8)
    requires i.op.d.dst != ImplicitOps
    ensures var a := i.Operand();
            && (a.length == 0 || a.length == 1 || a.length == 2 || a.length == 4 || a.length == 8)
            && (a.isWrite <==> a.length != 0 && i.DstIsMem() && !i.SrcIsMem())
            && (i.IsRegister() ==> a == NOTHING)
            && (a.length != 0 <==> i.SrcIsMem() || i.DstIsMem())
            && (i.op.d.src == SrcSI || i.op.d.dst == DstDI ==> a.addr == 0)
  {
  }

  /** What Pop and Push do to the report. */
  lemma StackShape(i: Insn)
    requires Consistent(i.op.d) && i.rm.reg < 16 && i.op.d.stack && i.size == 8 && i.op.d.dst != ImplicitOps
    ensures i.op.d.push ==> var a := i.Reported();
              && a.isWrite && a.addr == Wrap(i.regs[4] - a.length)
              && a.length == if i.op.d.src == SrcImmByte then 1 else if i.op.d.src == SrcImm then 4 else 8
    ensures i.op.d.pop && !i.op.d.push ==> i.Reported().length == 0
  {
  }

  /**
   For every input: a length of 0, 1, 2, 4 or 8; a write exactly for a push or for a
   destination whose entry is not ReadOnly; nothing for a register form that does not push,
   and nothing for LEA.
   */
  lemma ReportShape(code: seq<Byte>, regs: Registers, ip: Word) returns (o: Opcode, i: Insn)
    requires Decode(code, regs, ip).Done?
    ensures ReadOpcode(code, PrefixCount(code)) == Some(o)
    ensures var a := Decode(code, regs, ip).access;
            && (a.length == 0 || a.length == 1 || a.length == 2 || a.length == 4 || a.length == 8)
            && (o.d == KNOWN || o.d.dst == ImplicitOps ==> a.length == 0)
            && (a.length != 0 ==>
                  && i.op == o && ReadInsn(code, o, code[..PrefixCount(code)], regs, ip) == Some(i)
                  && (a.isWrite <==> (o.d.stack && o.d.push) || (i.DstIsMem() && !i.SrcIsMem() && !o.d.readOnly))
                  && (i.IsRegister() ==> o.d.stack && o.d.push))
            && (!o.twobyte && o.b == 0x8d ==> a.length == 0)
  {
    o, i := DoneParts(code, regs, ip);
    if o.d != KNOWN && o.d.dst != ImplicitOps {
      OperandShape(i);
      if o.d.stack { StackShape(i); }
    }
    if !o.twobyte && o.b == 0x8d {
      LeaEntry(code, PrefixCount(code));
    }
  }

  /**
   The length of a reported operand that is no stack slot: fixed by the entry, or 1 for a byte
   operation, 8 for the indirect calls and jumps and for 8F, or else the operand size that the
   prefixes declare.
   */
  lemma OperandLength(code: seq<Byte>, regs: Registers, ip: Word) returns (o: Opcode)
    requires Decode(code, regs, ip).Done? && Decode(code, regs, ip).access.length != 0
    ensures ReadOpcode(code, PrefixCount(code)) == Some(o)
    ensures !(o.d.stack && (o.d.push || o.d.pop)) ==>
      Decode(code, regs, ip).access.length ==
        if o.d.dst == DstMem64 then 8
        else if o.d.src == SrcMem16 then 2
        else if o.d.src == SrcMem32 then 4
        else if o.d.byteOp then 1
        else if o.d.stack then 8
        else OperandSize(code[..PrefixCount(code)])
  {
    var i;
    o, i := DoneParts(code, regs, ip);
    if !(o.d.stack && (o.d.push || o.d.pop)) { SizeOfOperand(i); }
  }

  lemma SizeOfOperand(i: Insn)
    requires Consistent(i.op.d) && i.rm.reg < 16 && i.size > 0 && i.Reported().length != 0
    requires !(i.op.d.stack && (i.op.d.push || i.op.d.pop))
    ensures i.Reported().length ==
              if i.op.d.dst == DstMem64 then 8
              else if i.op.d.src == SrcMem16 then 2
              else if i.op.d.src == SrcMem32 then 4
              else if i.op.d.byteOp then 1
              else i.size
  {
  }

  lemma LeaEntry(code: seq<Byte>, pos: nat)
    requires ReadOpcode(code, pos).Some?
    requires !ReadOpcode(code, pos).value.twobyte && ReadOpcode(code, pos).value.b == 0x8d
    ensures ReadOpcode(code, pos).value.d == Op(DstReg, SrcNone).WithModRM()
  {
  }

  /** A breakpoint planted again before the handler decodes makes it report nothing. */
  lemma BreakpointReportsNothing(code: seq<Byte>, regs: Registers, ip: Word)
    requires code != [] && code[0] == INT3
    ensures Decode(code, regs, ip) == Done(1, NOTHING)
  {
    assert PrefixCount(code) == 0;
    assert FourthQuarter(INT3) == Op(ImplicitOps, SrcNone);
    assert ReadOpcode(code, 0) == Some(Opcode(Op(ImplicitOps, SrcNone), INT3, false, 1));
  }

  // ---- The address ---------------------------------------------------------------------------

  /** The report of a ModRM operand is its decoded address. */
  lemma ReportedAddress(i: Insn)
    requires Consistent(i.op.d) && i.rm.reg < 16 && (i.size == 2 || i.size == 4 || i.size == 8)
    requires i.op.d.modRM && !(i.op.d.stack && (i.op.d.push || i.op.d.pop)) && !i.op.d.bitOp && i.Reported().length != 0
    ensures i.Reported().addr == i.rm.ea && i.rm.mod != 3
  {
    if i.op.d.dst != ImplicitOps { OperandShape(i); }
  }

  /** The register-based form at `pos`: right exactly when the sign bit is clear, or harmless under 0x67. */
  ghost predicate MemoryFormRight(code: seq<Byte>, pos: nat, ea: Word, size: nat, rex: Byte, regs: Registers, nextIp: int)
    requires pos < |code| && ArchForm(code[pos], SibAt(code, pos), rex).MemoryForm?
  {
    var form := ArchForm(code[pos], SibAt(code, pos), rex);
    && ShapedForm(form) && pos + ArchLength(form) <= |code|
    && var disp := DispOf(code, form, pos);
       (ea == ArchAddress(form, disp, regs, nextIp, size) <==>
         !(form.dispSize == 1 && disp >= 0x80) && !(form.dispSize == 4 && disp >= 0x8000_0000 && size == 8))
  }

  /** The ip-relative form at `pos`: right exactly when moreover the displacement ends the instruction. */
  ghost predicate IpFormRight(code: seq<Byte>, pos: nat, ea: Word, size: nat, regs: Registers, ip: Word, next: nat) {
    && pos + 5 <= next <= |code|
    && var disp := Fetch(code, pos + 1, 4);
       (ea == ArchAddress(IpForm, disp, regs, ip + next, size) <==>
         next == pos + 5 && if size == 8 then disp < 0x8000_0000 else Wrap(disp + ip + next) < TWO32)
  }

  /**
   The ip-relative form with REX.B: `next` falls four bytes short of the instruction's end, and the
   address is right exactly when the displacement points at itself.
   */
  ghost predicate RexBFormRight(code: seq<Byte>, pos: nat, ea: Word, size: nat, regs: Registers, ip: Word, next: nat) {
    && pos + 1 <= next
    && (pos + 5 <= |code| ==>
          var disp := Fetch(code, pos + 1, 4);
          (ea == ArchAddress(IpForm, disp, regs, ip + next + 4, size) <==>
             disp == TWO32 - 4 - (next - (pos + 1)) && (size == 8 || Wrap(ip + pos + 1) < TWO32)))
  }

  lemma MemoryFormCase(code: seq<Byte>, pos: nat, size: nat, rex: Byte, regs: Registers, ip: Word, nextIp: int)
    requires pos < |code| && (size == 4 || size == 8)
    requires ArchForm(code[pos], SibAt(code, pos), rex).MemoryForm?
    requires DecodeModRM(code, pos, size, rex, regs, ip).Some?
    ensures MemoryFormRight(code, pos, DecodeModRM(code, pos, size, rex, regs, ip).value.ea, size, rex, regs, nextIp)
  {
    MemoryFormAddress(code, pos, size, rex, regs, ip);
    var form := ArchForm(code[pos], SibAt(code, pos), rex);
    var disp := DispOf(code, form, pos);
    var r := DecodeModRM(code, pos, size, rex, regs, ip).value;
    assert ArchAddress(form, disp, regs, nextIp, size) == ArchAddress(form, disp, regs, ip + r.next, size);
  }

  lemma IpFormCase(code: seq<Byte>, pos: nat, size: nat, rex: Byte, regs: Registers, ip: Word, next: nat)
    requires pos < |code| && (size == 4 || size == 8)
    requires ArchForm(code[pos], SibAt(code, pos), rex).IpForm? && RexB(rex) == 0
    requires DecodeModRM(code, pos, size, rex, regs, ip).Some?
    requires var n := DecodeModRM(code, pos, size, rex, regs, ip).value.next; n <= next <= n + 4 && next <= |code|
    ensures IpFormRight(code, pos, DecodeModRM(code, pos, size, rex, regs, ip).value.ea, size, regs, ip, next)
  {
    var r := DecodeModRM(code, pos, size, rex, regs, ip).value;
    IpFormAddress(code, pos, size, rex, regs, ip, next - r.next);
    var disp := Fetch(code, pos + 1, 4);
    if next == pos + 5 { assert Wrap(disp + ip + next) == Wrap(disp + ip + r.next); }
  }

  /**
   Effective address, from the bytes to the report. For a memory operand that is neither a
   stack slot nor a bit string, the reported address is the architectural one exactly when the
   displacement's sign bit is clear (a set bit of a disp32 is harmless under 0x67); for an
   ip-relative operand without REX.B, exactly when moreover the displacement ends the
   instruction; with REX.B, exactly when it points at itself.
   */
  lemma EffectiveAddress(code: seq<Byte>, regs: Registers, ip: Word) returns (o: Opcode)
    requires Decode(code, regs, ip).Done? && Decode(code, regs, ip).access.length != 0
    ensures ReadOpcode(code, PrefixCount(code)) == Some(o)
    ensures o.d.modRM && !(o.d.stack && (o.d.push || o.d.pop)) && !o.d.bitOp ==>
      var rex, size := RexOf(code[..PrefixCount(code)]), AddressSize(code[..PrefixCount(code)]);
      var r := Decode(code, regs, ip);
      && o.next < |code|
      && var form := ArchForm(code[o.next], SibAt(code, o.next), rex);
         && !form.RegisterForm?
         && (form.MemoryForm? ==> MemoryFormRight(code, o.next, r.access.addr, size, rex, regs, ip + r.next))
         && (form.IpForm? && RexB(rex) == 0 ==> IpFormRight(code, o.next, r.access.addr, size, regs, ip, r.next))
         && (form.IpForm? && RexB(rex) != 0 ==> RexBFormRight(code, o.next, r.access.addr, size, regs, ip, r.next))
  {
    var i;
    o, i := DoneParts(code, regs, ip);
    if o.d.modRM && !(o.d.stack && (o.d.push || o.d.pop)) && !o.d.bitOp {
      var rex, size := RexOf(code[..PrefixCount(code)]), AddressSize(code[..PrefixCount(code)]);
      var r := Decode(code, regs, ip);
      ReportedAddress(i);
      ImmediateBound(o.d, i.size, o.twobyte);
      ModRMLength(code, o.next, size, rex, regs, ip);
      FormCases(code, o.next, i.rm, size, rex, regs, ip, r.next);
    }
  }

  lemma FormCases(code: seq<Byte>, pos: nat, rm: Decoded, size: nat, rex: Byte, regs: Registers, ip: Word, next: nat)
    requires pos < |code| && (size == 4 || size == 8) && rm.mod != 3
    requires DecodeModRM(code, pos, size, rex, regs, ip) == Some(rm)
    requires rm.next <= next <= rm.next + 4 && next <= |code|
    ensures var form := ArchForm(code[pos], SibAt(code, pos), rex);
      && !form.RegisterForm?
      && (form.MemoryForm? ==> MemoryFormRight(code, pos, rm.ea, size, rex, regs, ip + next))
      && (form.IpForm? && RexB(rex) == 0 ==> IpFormRight(code, pos, rm.ea, size, regs, ip, next))
      && (form.IpForm? && RexB(rex) != 0 ==> RexBFormRight(code, pos, rm.ea, size, regs, ip, next))
  {
    var form := ArchForm(code[pos], SibAt(code, pos), rex);
    assert rm.mod == code[pos] / 64;
    if form.MemoryForm? {
      MemoryFormCase(code, pos, size, rex, regs, ip, ip + next);
    } else if form.IpForm? && RexB(rex) == 0 {
      IpFormCase(code, pos, size, rex, regs, ip, next);
    } else if form.IpForm? {
      IpFormWithRexB(code, pos, size, rex, regs, ip, next - rm.next);
    }
  }

  // ---- Bit strings -----------------------------------------------------------------------------

  /** The bit offset of BT and its kin: the register at operand size, signed. */
  function SignedOffset(v: Word, size: nat): int {
    if size == 2 then (if v % 0x10000 < 0x8000 then v % 0x10000 else v % 0x10000 - 0x10000)
    else if size == 4 then (if v % TWO32 < 0x8000_0000 then v % TWO32 else v % TWO32 - TWO32)
    else (if v < 0x8000_0000_0000_0000 then v else v - TWO64)
  }

  /** The byte offset of the element that holds the bit. */
  function ElementOffset(v: int, size: nat): int
    requires size > 0
  {
    if size == 2 then 2 * (v / 16) else if size == 4 then 4 * (v / 32) else 8 * (v / 64)
  }

  /** How far the decoder's 32-bit unsigned offset exceeds the signed one. */
  function OffsetGap(v: int, size: nat): int {
    if size == 2 then (if v < 0 then 0x2000 else 0)
    else if size == 4 then (if v < 0 then 0x2000_0000 else 0)
    else -0x2000_0000 * (v / TWO32)
  }

  lemma BitOffsetGap(i: Insn)
    requires i.rm.reg < 16 && (i.size == 2 || i.size == 4 || i.size == 8)
    ensures var v := SignedOffset(i.regs[i.rm.reg], i.size);
            i.BitOffset() == ElementOffset(v, i.size) + OffsetGap(v, i.size)
  {
    var x := i.regs[i.rm.reg];
    if i.size == 2 {
      WordOffset(x % 0x10000);
    } else if i.size == 4 {
      DoubleOffset(x % TWO32);
    } else {
      QuadOffset(x);
    }
  }

  lemma WordOffset(x: nat)
    requires x < 0x10000
    ensures var v := if x < 0x8000 then x else x - 0x10000;
            x / 16 * 2 == 2 * (v / 16) + if v < 0 then 0x2000 else 0
  {
    assert x >= 0x8000 ==> (x - 0x10000) / 16 == x / 16 - 0x1000;
  }

  lemma DoubleOffset(x: nat)
    requires x < TWO32
    ensures var v := if x < 0x8000_0000 then x else x - TWO32;
            x / 32 * 4 == 4 * (v / 32) + if v < 0 then 0x2000_0000 else 0
  {
    assert x >= 0x8000_0000 ==> (x - TWO32) / 32 == x / 32 - 0x800_0000;
  }

  lemma QuadOffset(x: Word)
    ensures var v := if x < 0x8000_0000_0000_0000 then x else x - TWO64;
            x % TWO32 / 64 * 8 == 8 * (v / 64) - 0x2000_0000 * (v / TWO32)
  {
    var v := if x < 0x8000_0000_0000_0000 then x else x - TWO64;
    var q := v / TWO32;
    assert v == TWO32 * q + x % TWO32;
    assert v / 64 == 0x400_0000 * q + x % TWO32 / 64;
  }

  /** Reported at the right element: within the address size, and with both gaps together vanishing in it. */
  ghost predicate BitAddressRight(a: Word, arch: int, v: int, opSize: nat, size: nat, gap: int)
    requires opSize > 0 && (size == 4 || size == 8)
  {
    a == Reduce(arch + ElementOffset(v, opSize), size) <==>
      (size == 8 || a < TWO32) && Reduce(gap + OffsetGap(v, opSize), size) == 0
  }

  lemma SameResidue(a: int, b: int, size: nat)
    requires size == 4 || size == 8
    ensures Reduce(a, size) == Reduce(b, size) <==> Reduce(a - b, size) == 0
  {
    if size == 8 { SameResidue64(a, b); } else { SameResidue32(a, b); }
  }

  lemma SameResidue64(a: int, b: int)
    ensures a % TWO64 == b % TWO64 <==> (a - b) % TWO64 == 0
  {
    var q := a / TWO64 - b / TWO64;
    assert a - b == TWO64 * q + (a % TWO64 - b % TWO64);
  }

  lemma SameResidue32(a: int, b: int)
    ensures a % TWO32 == b % TWO32 <==> (a - b) % TWO32 == 0
  {
    var q := a / TWO32 - b / TWO32;
    assert a - b == TWO32 * q + (a % TWO32 - b % TWO32);
  }

  lemma WrapResidue(x: int, size: nat)
    requires size == 4 || size == 8
    ensures Reduce(Wrap(x), size) == Reduce(x, size)
  {
    if size == 4 { TruncateReduces(x, 4); }
  }

  /** An address that is `gap` off, and an offset that is, give a sum that is off by both. */
  lemma GapsAdd(ea: Word, arch: int, gap: int, v: int, opSize: nat, size: nat)
    requires (size == 4 || size == 8) && opSize > 0
    requires Reduce(ea, size) == Reduce(arch + gap, size)
    ensures BitAddressRight(Wrap(ea + ElementOffset(v, opSize) + OffsetGap(v, opSize)), arch, v, opSize, size, gap)
  {
    var e, g := ElementOffset(v, opSize), OffsetGap(v, opSize);
    var a := Wrap(ea + e + g);
    WrapResidue(ea + e + g, size);
    SameResidue(ea, arch + gap, size);
    SameResidue(ea + e + g, arch + gap + e + g, size);
    SameResidue(arch + gap + e + g, arch + e, size);
    BelowSize(a, size);
  }

  lemma BelowSize(a: Word, size: nat)
    requires size == 4 || size == 8
    ensures Reduce(a, size) == a <==> size == 8 || a < TWO32
  {
  }

  /** When the displacement is zero-extended by `gap`, the two gaps vanish together exactly in these cases. */
  lemma GapsVanishIff(gap: int, v: int, opSize: nat, size: nat)
    requires (size == 4 || size == 8) && (opSize == 2 || opSize == 4 || opSize == 8)
    requires gap == 0 || gap == TWO8 || gap == TWO32
    requires -0x8000_0000_0000_0000 <= v < 0x8000_0000_0000_0000
    ensures Reduce(gap + OffsetGap(v, opSize), size) == 0 <==> GapsVanish(gap, v, opSize, size)
  {
    if opSize == 8 {
      if size == 8 { QuadGap64(gap, v / TWO32); } else { QuadGap32(gap, v / TWO32); }
    }
  }

  lemma QuadGap64(gap: int, q: int)
    requires (gap == 0 || gap == TWO8 || gap == TWO32) && -0x8000_0000 <= q < 0x8000_0000
    ensures (gap - 0x2000_0000 * q) % TWO64 == 0 <==> if gap == TWO32 then q == 8 else gap == 0 && q == 0
  {
    var x := gap - 0x2000_0000 * q;
    assert -TWO64 < x < TWO64;
    NearSums(x, x);
  }

  lemma QuadGap32(gap: int, q: int)
    requires gap == 0 || gap == TWO8 || gap == TWO32
    ensures (gap - 0x2000_0000 * q) % TWO32 == 0 <==> gap != TWO8 && q % 8 == 0
  {
    var d, m := q / 8, q % 8;
    assert 0x2000_0000 * q == TWO32 * d + 0x2000_0000 * m;
    SameResidue32(gap - 0x2000_0000 * q, gap - 0x2000_0000 * m);
    assert (gap - 0x2000_0000 * q) - (gap - 0x2000_0000 * m) == TWO32 * -d;
    ZeroMultiple(-d);
  }

  lemma ZeroMultiple(d: int)
    ensures TWO32 * d % TWO32 == 0
  {
  }

  /** Two sums less than 2^64 apart agree modulo 2^64 only if they are equal. */
  lemma NearSums(x: int, gap: int)
    requires -TWO64 < gap < TWO64
    ensures Wrap(x) == Wrap(x - gap) <==> gap == 0
  {
    var a, b := x / TWO64, (x - gap) / TWO64;
    assert x == TWO64 * a + Wrap(x) && x - gap == TWO64 * b + Wrap(x - gap);
  }

  /** Both together, for an address reduced to its size. */
  lemma BitSum(ea: Word, arch: int, gap: int, v: int, opSize: nat, size: nat)
    requires (size == 4 || size == 8) && (opSize == 2 || opSize == 4 || opSize == 8)
    requires gap == 0 || gap == TWO8 || gap == TWO32
    requires -0x8000_0000_0000_0000 <= v < 0x8000_0000_0000_0000
    requires ea == OffBy(arch, gap, size)
    ensures BitSumRight(BitReached(ea, v, opSize), arch, gap, v, opSize, size)
  {
    SmallResidue(ea, arch + gap, size);
    GapsAdd(ea, arch, gap, v, opSize, size);
    GapsVanishIff(gap, v, opSize, size);
  }

  /** Where the decoder gets with its offset. */
  function BitReached(ea: Word, v: int, opSize: nat): Word
    requires opSize > 0
  {
    Wrap(ea + ElementOffset(v, opSize) + OffsetGap(v, opSize))
  }

  /** The element reached is that of the architecture exactly within the address size and without gaps. */
  ghost predicate BitSumRight(a: Word, arch: int, gap: int, v: int, opSize: nat, size: nat)
    requires opSize > 0
  {
    a == Reduce(arch + ElementOffset(v, opSize), size) <==> (size == 8 || a < TWO32) && GapsVanish(gap, v, opSize, size)
  }

  predicate GapsVanish(gap: int, v: int, opSize: nat, size: nat) {
    if size == 8 then
      if gap == TWO32 then opSize == 8 && v / TWO32 == 8 else gap == 0 && if opSize == 8 then v / TWO32 == 0 else v >= 0
    else gap != TWO8 && if opSize == 8 then v / TWO32 % 8 == 0 else v >= 0
  }

  /**
   Bit strings, from the bytes to the report: the reported address is the element that holds the
   bit, displacement and offset taken as signed and the sum cut to the address size, exactly when it
   lies within the address size and both of these hold: the displacement's sign bit is clear, and the
   offset is in 0 to 2^32 - 1; with the exceptions of `GapsVanish` where two errors cancel.
   */
  lemma BitStringAddress(code: seq<Byte>, regs: Registers, ip: Word) returns (o: Opcode)
    requires Decode(code, regs, ip).Done? && Decode(code, regs, ip).access.length != 0
    ensures ReadOpcode(code, PrefixCount(code)) == Some(o)
    ensures o.d.bitOp ==>
      var prefixes, r := code[..PrefixCount(code)], Decode(code, regs, ip);
      && r.access.length == OperandSize(prefixes)
      && BitFormsRight(code, o.next, r.access.addr, AddressSize(prefixes), RexOf(prefixes), regs, ip, r.next, OperandSize(prefixes))
  {
    var i;
    o, i := BitParts(code, regs, ip);
    if o.d.bitOp {
      var prefixes := code[..PrefixCount(code)];
      BitCases(code, o.next, i, AddressSize(prefixes), RexOf(prefixes), regs, ip);
    }
  }

  lemma BitParts(code: seq<Byte>, regs: Registers, ip: Word) returns (o: Opcode, i: Insn)
    requires Decode(code, regs, ip).Done? && Decode(code, regs, ip).access.length != 0
    ensures ReadOpcode(code, PrefixCount(code)) == Some(o)
    ensures o.d.bitOp ==>
      var prefixes, r := code[..PrefixCount(code)], Decode(code, regs, ip);
      && o.next < |code| && i.rm.reg < 16 && i.rm.mod != 3 && i.regs == regs
      && i.size == OperandSize(prefixes) && (i.size == 2 || i.size == 4 || i.size == 8)
      && DecodeModRM(code, o.next, AddressSize(prefixes), RexOf(prefixes), regs, ip) == Some(i.rm)
      && r.next == i.rm.next && r.access == Access(Wrap(i.rm.ea + i.BitOffset()), i.size, true)
  {
    o, i := DoneParts(code, regs, ip);
    if o.d.bitOp {
      var prefixes := code[..PrefixCount(code)];
      BitReport(i);
      BitModRM(code, o, AddressSize(prefixes), RexOf(prefixes), regs, ip);
    }
  }

  lemma BitModRM(code: seq<Byte>, o: Opcode, size: nat, rex: Byte, regs: Registers, ip: Word)
    requires o.d.modRM && ReadAddress(code, o, size, rex, regs, ip).Some?
    ensures o.next < |code| && ReadAddress(code, o, size, rex, regs, ip) == DecodeModRM(code, o.next, size, rex, regs, ip)
  {
  }

  /** All forms of a bit string operand, its offset in the register that ModRM names. */
  ghost predicate BitFormsRight(code: seq<Byte>, pos: nat, a: Word, size: nat, rex: Byte, regs: Registers, ip: Word, next: nat, opSize: nat) {
    && pos < |code| && opSize > 0 && (size == 4 || size == 8)
    && var form := ArchForm(code[pos], SibAt(code, pos), rex);
       var v := SignedOffset(regs[RexR(rex) + code[pos] / 8 % 8], opSize);
       && !form.RegisterForm?
       && (form.MemoryForm? ==> BitMemoryRight(code, pos, form, a, size, regs, ip + next, v, opSize))
       && (form.IpForm? ==> BitIpRight(code, pos, a, size, rex, regs, ip, next, v, opSize))
  }

  lemma BitReport(i: Insn)
    requires Consistent(i.op.d) && i.rm.reg < 16 && (i.size == 2 || i.size == 4 || i.size == 8)
    requires i.op.d.bitOp && i.Reported().length != 0
    ensures i.rm.mod != 3 && i.Reported() == Access(Wrap(i.rm.ea + i.BitOffset()), i.size, true)
    ensures ImmediateBytes(i.op.d, i.size) == 0
  {
  }

  ghost predicate BitMemoryRight(code: seq<Byte>, pos: nat, form: Form, a: Word, size: nat, regs: Registers, nextIp: int, v: int, opSize: nat)
    requires opSize > 0
  {
    && ShapedForm(form) && pos + ArchLength(form) <= |code|
    && var disp := DispOf(code, form, pos);
       BitSumRight(a, ArchAddress(form, disp, regs, nextIp, size), SignGap(disp, form.dispSize), v, opSize, size)
  }

  /** With REX.B the decoder's address is 4 plus the displacement short. */
  ghost predicate BitIpRight(code: seq<Byte>, pos: nat, a: Word, size: nat, rex: Byte, regs: Registers, ip: Word, next: nat, v: int, opSize: nat)
    requires opSize > 0 && (size == 4 || size == 8)
  {
    pos + 5 <= |code| ==>
      var disp := Fetch(code, pos + 1, 4);
      if RexB(rex) == 0 then
        BitSumRight(a, ArchAddress(IpForm, disp, regs, ip + next, size), SignGap(disp, 4), v, opSize, size)
      else
        BitAddressRight(a, ArchAddress(IpForm, disp, regs, ip + next + 4, size), v, opSize, size, -4 - SignExtend(disp, 4))
  }

  lemma BitCases(code: seq<Byte>, pos: nat, i: Insn, size: nat, rex: Byte, regs: Registers, ip: Word)
    requires pos < |code| && (size == 4 || size == 8) && i.regs == regs && i.rm.mod != 3 && i.rm.reg < 16
    requires i.size == 2 || i.size == 4 || i.size == 8
    requires DecodeModRM(code, pos, size, rex, regs, ip) == Some(i.rm)
    ensures BitFormsRight(code, pos, Wrap(i.rm.ea + i.BitOffset()), size, rex, regs, ip, i.rm.next, i.size)
  {
    var v := SignedOffset(regs[i.rm.reg], i.size);
    ReachedBit(i, v);
    RegField(code, pos, i.rm, size, rex, regs, ip);
    if ArchForm(code[pos], SibAt(code, pos), rex).MemoryForm? {
      MemoryFormOff(code, pos, i.rm, size, rex, regs, ip);
      BitMemoryCase(code, pos, ArchForm(code[pos], SibAt(code, pos), rex), i.rm.ea, size, regs, ip + i.rm.next, v, i.size);
    } else {
      BitIpCase(code, pos, i.rm, size, rex, regs, ip, v, i.size);
    }
  }

  lemma ReachedBit(i: Insn, v: int)
    requires i.rm.reg < 16 && (i.size == 2 || i.size == 4 || i.size == 8) && v == SignedOffset(i.regs[i.rm.reg], i.size)
    ensures Wrap(i.rm.ea + i.BitOffset()) == BitReached(i.rm.ea, v, i.size)
    ensures -0x8000_0000_0000_0000 <= v < 0x8000_0000_0000_0000
  {
    BitOffsetGap(i);
  }

  lemma RegField(code: seq<Byte>, pos: nat, rm: Decoded, size: nat, rex: Byte, regs: Registers, ip: Word)
    requires pos < |code| && DecodeModRM(code, pos, size, rex, regs, ip) == Some(rm) && rm.mod != 3
    ensures rm.reg == RexR(rex) + code[pos] / 8 % 8
    ensures !ArchForm(code[pos], SibAt(code, pos), rex).RegisterForm?
  {
  }

  lemma MemoryFormOff(code: seq<Byte>, pos: nat, rm: Decoded, size: nat, rex: Byte, regs: Registers, ip: Word)
    requires pos < |code| && (size == 4 || size == 8) && ArchForm(code[pos], SibAt(code, pos), rex).MemoryForm?
    requires DecodeModRM(code, pos, size, rex, regs, ip) == Some(rm)
    ensures var form := ArchForm(code[pos], SibAt(code, pos), rex);
            && ShapedForm(form) && pos + ArchLength(form) <= |code|
            && var disp := DispOf(code, form, pos);
               rm.ea == OffBy(ArchAddress(form, disp, regs, ip + rm.next, size), SignGap(disp, form.dispSize), size)
  {
    MemoryFormAddress(code, pos, size, rex, regs, ip);
  }

  lemma BitMemoryCase(code: seq<Byte>, pos: nat, form: Form, ea: Word, size: nat, regs: Registers, nextIp: int, v: int, opSize: nat)
    requires (size == 4 || size == 8) && (opSize == 2 || opSize == 4 || opSize == 8)
    requires ShapedForm(form) && pos + ArchLength(form) <= |code|
    requires -0x8000_0000_0000_0000 <= v < 0x8000_0000_0000_0000
    requires var disp := DispOf(code, form, pos);
             ea == OffBy(ArchAddress(form, disp, regs, nextIp, size), SignGap(disp, form.dispSize), size)
    ensures BitMemoryRight(code, pos, form, BitReached(ea, v, opSize), size, regs, nextIp, v, opSize)
  {
    var disp := DispOf(code, form, pos);
    BitMemorySum(ea, form, disp, regs, nextIp, size, v, opSize);
  }

  lemma BitMemorySum(ea: Word, form: Form, disp: nat, regs: Registers, nextIp: int, size: nat, v: int, opSize: nat)
    requires ShapedForm(form) && DispFits(form, disp)
    requires (size == 4 || size == 8) && (opSize == 2 || opSize == 4 || opSize == 8)
    requires -0x8000_0000_0000_0000 <= v < 0x8000_0000_0000_0000
    requires ea == OffBy(ArchAddress(form, disp, regs, nextIp, size), SignGap(disp, form.dispSize), size)
    ensures BitSumRight(BitReached(ea, v, opSize), ArchAddress(form, disp, regs, nextIp, size),
                        SignGap(disp, form.dispSize), v, opSize, size)
  {
    SignGapValue(disp, form.dispSize);
    BitSum(ea, ArchAddress(form, disp, regs, nextIp, size), SignGap(disp, form.dispSize), v, opSize, size);
  }

  lemma SmallResidue(ea: int, x: int, size: nat)
    requires (size == 4 || size == 8) && ea == Reduce(x, size)
    ensures Reduce(ea, size) == Reduce(x, size)
  {
  }

  lemma BitIpCase(code: seq<Byte>, pos: nat, rm: Decoded, size: nat, rex: Byte, regs: Registers, ip: Word, v: int, opSize: nat)
    requires pos < |code| && (size == 4 || size == 8) && (opSize == 2 || opSize == 4 || opSize == 8)
    requires ArchForm(code[pos], SibAt(code, pos), rex).IpForm?
    requires DecodeModRM(code, pos, size, rex, regs, ip) == Some(rm)
    requires -0x8000_0000_0000_0000 <= v < 0x8000_0000_0000_0000
    ensures BitIpRight(code, pos, BitReached(rm.ea, v, opSize), size, rex, regs, ip, rm.next, v, opSize)
  {
    if pos + 5 <= |code| {
      var disp := Fetch(code, pos + 1, 4);
      if RexB(rex) == 0 {
        IpFormAddress(code, pos, size, rex, regs, ip, 0);
        BitIpSum(rm.ea, disp, ip + rm.next, regs, size, v, opSize);
      } else {
        StopsShort(code, pos, size, rex, regs, ip);
        BitRexSum(rm.ea, disp, ip + rm.next, regs, size, v, opSize);
      }
    }
  }

  lemma BitIpSum(ea: Word, disp: nat, nextIp: int, regs: Registers, size: nat, v: int, opSize: nat)
    requires (size == 4 || size == 8) && (opSize == 2 || opSize == 4 || opSize == 8) && disp < TWO32
    requires -0x8000_0000_0000_0000 <= v < 0x8000_0000_0000_0000 && ea == Wrap(disp + nextIp)
    ensures BitSumRight(BitReached(ea, v, opSize), ArchAddress(IpForm, disp, regs, nextIp, size), SignGap(disp, 4), v, opSize, size)
  {
    SignGapValue(disp, 4);
    WrapResidue(disp + nextIp, size);
    SignedSum(nextIp, disp, SignGap(disp, 4), size);
    GapsAdd(ea, ArchAddress(IpForm, disp, regs, nextIp, size), SignGap(disp, 4), v, opSize, size);
    GapsVanishIff(SignGap(disp, 4), v, opSize, size);
  }

  lemma BitRexSum(ea: Word, disp: nat, end: int, regs: Registers, size: nat, v: int, opSize: nat)
    requires (size == 4 || size == 8) && (opSize == 2 || opSize == 4 || opSize == 8) && ea == Wrap(end)
    ensures BitAddressRight(BitReached(ea, v, opSize), ArchAddress(IpForm, disp, regs, end + 4, size), v, opSize, size,
                            -4 - SignExtend(disp, 4))
  {
    WrapResidue(end, size);
    SignedSum(end + 4, disp, -4 - SignExtend(disp, 4), size);
    GapsAdd(ea, ArchAddress(IpForm, disp, regs, end + 4, size), -4 - SignExtend(disp, 4), v, opSize, size);
  }

  /** The gap may be added to the reduced ip-relative address. */
  lemma SignedSum(n: int, disp: nat, gap: int, size: nat)
    requires size == 4 || size == 8
    ensures Reduce(Reduce(n + SignExtend(disp, 4), size) + gap, size) == Reduce(n + SignExtend(disp, 4) + gap, size)
  {
    var x := n + SignExtend(disp, 4);
    SmallResidue(Reduce(x, size), x, size);
    SameResidue(Reduce(x, size), x, size);
    SameResidue(Reduce(x, size) + gap, x + gap, size);
  }
}
