/**
 yy_get_memory_access of drddr/disassem.c as an object updated while the bytes are read.
 `pos` is eip - ip; running out of bytes stands for reading past the mapped text.
 */
module DecodeCache {
  import opened Words
  import opened OpcodeTables
  import opened Addressing
  import opened Decoder

  /** MEM_PER_INSTR */
  const SLOTS := 16

  function RepOf(b: Option<Byte>): nat {
    if b.None? then 0 else if b.value == 0xf2 then 2 else 1
  }

  function SegmentOption(b: Option<Byte>): Option<nat> {
    if b.None? then None else Some(SegmentOf(b.value))
  }

  lemma {:induction false} PrefixCountIs(code: seq<Byte>, n: nat)
    requires n <= |code| && (forall i :: 0 <= i < n ==> IsPrefix(code[i])) && (n < |code| ==> !IsPrefix(code[n]))
    ensures PrefixCount(code) == n
  {
    if n > 0 { PrefixCountIs(code[1..], n - 1); }
  }

  /** The output slot holds access `a`; without a length its other fields mean nothing. */
  predicate Shows(addr: Word, length: nat, isWrite: bool, a: Access) {
    length == a.length && (length != 0 ==> addr == a.addr && isWrite == a.isWrite)
  }

  /** What a run of the decoder says of outcome `r`; `ok` means that the bytes sufficed. */
  predicate Answers(r: Outcome, ok: bool, addr: Word, length: nat, isWrite: bool) {
    && (ok <==> !r.Truncated?)
    && (r.Unrecognised? ==> length == 0)
    && (r.Done? ==> Shows(addr, length, isWrite, r.access))
  }

  class Cache {
    const code: seq<Byte>
    const ip: Word
    const regs: Registers

    var pos: nat
    var b: Byte
    var twobyte: bool
    var lockPrefix: bool
    var repPrefix: nat
    var opBytes: nat
    var adBytes: nat
    var rexPrefix: Byte
    var segOverride: Option<nat>
    var d: Flags

    var modrmMod: nat
    var modrmReg: nat
    var modrmRm: nat
    var ripRelative: bool
    var modrmEa: Word
    ghost var sum: nat               // modrmEa before wrap-around

    var srcMem: bool
    var srcBytes: nat
    var srcPtr: Word
    var srcVal: nat
    var src2Mem: bool
    var src2Bytes: nat
    var src2Ptr: Word
    var dstMem: bool
    var dstBytes: nat
    var dstPtr: Word

    /** The zeroed cache, with the default sizes. */
    constructor (code: seq<Byte>, ip: Word, regs: Registers)
      ensures this.code == code && this.ip == ip && this.regs == regs && Fresh()
    {
      this.code, this.ip, this.regs := code, ip, regs;
      pos, b, twobyte, lockPrefix, repPrefix := 0, 0, false, false, 0;
      opBytes, adBytes, rexPrefix, segOverride, d := 4, 8, 0, None, ZERO;
      modrmMod, modrmReg, modrmRm, ripRelative, modrmEa, sum := 0, 0, 0, false, 0, 0;
      srcMem, srcBytes, srcPtr, srcVal := false, 0, 0, 0;
      src2Mem, src2Bytes, src2Ptr := false, 0, 0;
      dstMem, dstBytes, dstPtr := false, 0, 0;
    }

    ghost predicate Fresh()
      reads this
    {
      && pos == 0 && opBytes == 4 && adBytes == 8 && rexPrefix == 0 && segOverride == None
      && !twobyte && !lockPrefix && repPrefix == 0 && FreshAddress() && FreshOperands()
    }

    ghost predicate FreshAddress()
      reads this
    {
      modrmMod == 0 && modrmReg == 0 && modrmRm == 0 && !ripRelative && modrmEa == 0 && sum == 0
    }

    ghost predicate FreshOperands()
      reads this
    {
      && !srcMem && srcBytes == 0 && srcPtr == 0 && srcVal == 0
      && !src2Mem && src2Bytes == 0 && !dstMem && dstBytes == 0 && dstPtr == 0
    }

    /** yy_insn_fetch */
    method FetchBytes(size: nat) returns (ok: bool, v: nat)
      modifies `pos
      ensures ok <==> old(pos) + size <= |code|
      ensures ok ==> pos == old(pos) + size && v == Fetch(code, old(pos), size)
      ensures !ok ==> pos == old(pos)
    {
      if pos + size > |code| { return false, 0; }
      pos := pos + size;
      return true, Fetch(code, pos - size, size);
    }

    /** The sizes and overrides are what the prefix bytes declare, REX.W aside. */
    ghost predicate Declared(prefixes: seq<Byte>)
      reads this
    {
      && opBytes == (if 0x66 in prefixes then 2 else 4)
      && adBytes == AddressSize(prefixes) && rexPrefix == RexOf(prefixes)
      && lockPrefix == (0xf0 in prefixes) && repPrefix == RepOf(Last(prefixes, IsRep))
      && segOverride == SegmentOption(Last(prefixes, IsSegment))
    }

    /** The switch of the prefix loop on one byte. */
    method AbsorbPrefix(byte: Byte, ghost before: seq<Byte>) returns (absorbed: bool)
      requires Declared(before)
      modifies `opBytes, `adBytes, `rexPrefix, `lockPrefix, `repPrefix, `segOverride
      ensures absorbed == IsPrefix(byte)
      ensures absorbed ==> Declared(before + [byte])
      ensures !absorbed ==> Declared(before)
    {
      Extend(before, byte);
      if byte == 0x66 {
        opBytes := 2;
      } else if byte == 0x67 {
        adBytes := 4;
      } else if byte == 0x26 || byte == 0x2e || byte == 0x36 || byte == 0x3e {
        segOverride := Some(byte / 8 % 4);
      } else if byte == 0x64 || byte == 0x65 {
        segOverride := Some(byte % 8);
      } else if 0x40 <= byte < 0x50 {
        rexPrefix := byte;
        return true;
      } else if byte == 0xf0 {
        lockPrefix := true;
      } else if byte == 0xf2 {
        repPrefix := 2;
      } else if byte == 0xf3 {
        repPrefix := 1;
      } else {
        return false;
      }
      rexPrefix := 0;
      return true;
    }

    /** The prefix loop. */
    method LoopPrefixes() returns (ok: bool)
      requires pos == 0 && Declared([])
      modifies `pos, `b, `opBytes, `adBytes, `rexPrefix, `lockPrefix, `repPrefix, `segOverride
      ensures ok <==> PrefixCount(code) < |code|
      ensures ok ==> pos == PrefixCount(code) + 1 && b == code[pos - 1] && Declared(code[..pos - 1])
    {
      assert code[..pos] == [];
      while pos < |code|
        invariant pos <= |code| && forall i :: 0 <= i < pos ==> IsPrefix(code[i])
        invariant Declared(code[..pos])
        decreases |code| - pos
      {
        var _, byte := FetchBytes(1);
        b := byte;
        ghost var before := code[..pos - 1];
        var absorbed := AbsorbPrefix(b, before);
        if !absorbed {
          PrefixCountIs(code, pos - 1);
          return true;
        }
        assert code[..pos] == before + [b];
      }
      PrefixCountIs(code, pos);
      return false;
    }

    /**
     The prefixes with the REX.W test after them: each size and override is what the list of
     prefix bytes declares.
     */
    method ReadPrefixes() returns (ok: bool)
      requires Fresh()
      modifies `pos, `b, `opBytes, `adBytes, `rexPrefix, `lockPrefix, `repPrefix, `segOverride
      ensures ok <==> PrefixCount(code) < |code|
      ensures ok ==> pos == PrefixCount(code) + 1 && b == code[pos - 1]
      ensures ok ==> var prefixes := code[..pos - 1];
        && opBytes == OperandSize(prefixes) && adBytes == AddressSize(prefixes) && rexPrefix == RexOf(prefixes)
        && lockPrefix == (0xf0 in prefixes) && repPrefix == RepOf(Last(prefixes, IsRep))
        && segOverride == SegmentOption(Last(prefixes, IsSegment))
    {
      ok := LoopPrefixes();
      if ok && rexPrefix != 0 {
        if rexPrefix / 8 % 2 == 1 { opBytes := 8; }
      }
    }

    /** The opcode bytes; a group word peeks at the ModRM byte and steps back. */
    method ReadOpcodeBytes() returns (ok: bool)
      requires 0 < pos <= |code| && b == code[pos - 1] && !twobyte
      modifies `pos, `b, `twobyte, `d
      ensures ok <==> ReadOpcode(code, old(pos) - 1).Some?
      ensures ok ==> ReadOpcode(code, old(pos) - 1) == Some(Opcode(d, b, twobyte, pos))
    {
      d := OneByte(b);
      if d == ZERO && b == 0x0f {
        twobyte := true;
        var fetched, byte := FetchBytes(1);
        if !fetched { return false; }
        b := byte;
        d := TwoByte(b);
      }
      if d.group.Some? {
        var fetched, byte := FetchBytes(1);
        if !fetched { return false; }
        pos := pos - 1;
        d := Resolve(d, byte);
      }
      return true;
    }

    method AddToEa(x: nat)
      requires modrmEa == Wrap(sum)
      modifies `modrmEa, `sum
      ensures sum == old(sum) + x && modrmEa == Wrap(sum)
    {
      WrapInner(x, sum);
      modrmEa := Wrap(modrmEa + x);
      sum := sum + x;
    }

    /** modrm_ea += yy_insn_fetch(size) */
    method AddDisplacement(size: nat) returns (ok: bool)
      requires modrmEa == Wrap(sum) && (size == 0 || size == 1 || size == 4) && pos <= |code|
      modifies `pos, `modrmEa, `sum
      ensures ok <==> Displacement(code, old(pos), size).Some?
      ensures ok ==> sum == old(sum) + Displacement(code, old(pos), size).value && modrmEa == Wrap(sum)
      ensures ok ==> pos == old(pos) + size <= |code|
    {
      if size == 0 { return true; }
      var fetched, disp := FetchBytes(size);
      if !fetched { return false; }
      AddToEa(disp);
      return true;
    }

    /** The switch on mod that ends the ModRM decoding. */
    method AddModDisplacement() returns (ok: bool)
      requires modrmEa == Wrap(sum) && pos <= |code|
      modifies `pos, `modrmEa, `sum
      ensures var size := if modrmMod == 0 then (if modrmRm == 5 then 4 else 0) else ModDisplacement(modrmMod);
              && (ok <==> Displacement(code, old(pos), size).Some?)
              && (ok ==> sum == old(sum) + Displacement(code, old(pos), size).value && modrmEa == Wrap(sum))
              && (ok ==> pos == old(pos) + size <= |code|)
    {
      if modrmMod == 0 {
        if modrmRm == 5 {
          ok := AddDisplacement(4);
        } else {
          ok := true;
        }
      } else if modrmMod == 1 {
        ok := AddDisplacement(1);
      } else if modrmMod == 2 {
        ok := AddDisplacement(4);
      } else {
        ok := true;
      }
    }

    /** Base and index of a SIB byte, with the displacement that replaces the base. */
    method AddSib() returns (ok: bool)
      requires modrmEa == Wrap(sum) && pos <= |code|
      modifies `pos, `modrmEa, `sum
      ensures ok ==> old(pos) < |code| && modrmEa == Wrap(sum) && pos <= |code|
      ensures ok ==> var sib := code[old(pos)];
        var noBase := sib % 8 == 5 && modrmMod == 0;
        var index := RexX(rexPrefix) + sib / 8 % 8;
        && pos == old(pos) + 1 + (if noBase then 4 else 0)
        && sum == old(sum) + (if noBase then Fetch(code, old(pos) + 1, 4) else regs[RexB(rexPrefix) + sib % 8])
                           + (if index == 4 then 0 else Shifted(regs[index], sib / 64))
      ensures !ok <==> old(pos) >= |code| || (code[old(pos)] % 8 == 5 && modrmMod == 0 && old(pos) + 5 > |code|)
    {
      var fetched, sib := FetchBytes(1);
      if !fetched { return false; }
      var index := RexX(rexPrefix) + sib / 8 % 8;
      var base := RexB(rexPrefix) + sib % 8;
      if base % 8 == 5 && modrmMod == 0 {
        var added := AddDisplacement(4);
        if !added { return false; }
      } else {
        AddToEa(regs[base]);
      }
      if index != 4 { AddToEa(Shifted(regs[index], sib / 64)); }
      return true;
    }

    /** The register and displacement part of each memory form. */
    method ReadForm() returns (ok: bool)
      requires modrmEa == Wrap(sum) && sum == 0 && !ripRelative && pos <= |code|
      requires modrmMod < 3 && RexB(rexPrefix) <= modrmRm < RexB(rexPrefix) + 8
      modifies `pos, `ripRelative, `modrmEa, `sum
      ensures var form := FormAt(old(pos));
              && (ok <==> form.Some?)
              && (ok ==> modrmEa == Wrap(sum) && form == Some((sum as int, pos)))
              && (ok ==> ripRelative == (modrmRm - RexB(rexPrefix) == 5 && modrmMod == 0))
    {
      Low3(rexPrefix, modrmRm);
      if modrmRm % 8 == 4 {
        ok := AddSib();
        if !ok { return false; }
      } else if modrmRm % 8 == 5 && modrmMod == 0 {
        ripRelative := true;
      } else {
        AddToEa(regs[modrmRm]);
      }
      ok := AddModDisplacement();
    }

    ghost function FormAt(at: nat): Option<(int, nat)>
      requires RexB(rexPrefix) <= modrmRm < RexB(rexPrefix) + 8
      reads this
    {
      var low := modrmRm - RexB(rexPrefix);
      if low == 4 then DecodeSib(code, at, modrmMod, rexPrefix, regs)
      else if low == 5 && modrmMod == 0 then DecodeRip(code, at, rexPrefix)
      else DecodeBase(code, at, modrmMod, modrmRm, regs)
    }

    /** The 32/64-bit ModRM decoding; modrm_ea is left neither truncated nor ip-relative. */
    method ReadModRM() returns (ok: bool)
      requires FreshAddress() && pos <= |code|
      modifies `pos, `modrmMod, `modrmReg, `modrmRm, `ripRelative, `modrmEa, `sum
      ensures ok <==> DecodeModRM(code, old(pos), adBytes, rexPrefix, regs, ip).Some?
      ensures ok ==> modrmEa == Wrap(sum)
      ensures ok ==> DecodeModRM(code, old(pos), adBytes, rexPrefix, regs, ip)
                       == Some(Addressing.Decoded(modrmMod, modrmReg, FinalEa(), pos))
    {
      var fetched, modrm := FetchBytes(1);
      if !fetched { return false; }
      modrmReg := RexR(rexPrefix) + modrm / 8 % 8;
      modrmRm := RexB(rexPrefix) + modrm % 8;
      modrmMod := modrm / 64;
      if modrmMod == 3 { return true; }
      ok := ReadForm();
    }

    /** modrm_ea as it will be after the truncation and the addition of eip. */
    ghost function FinalEa(): Word
      reads this
    {
      if ripRelative then Wrap(Truncate(sum, adBytes) + Wrap(ip + pos)) else Truncate(sum, adBytes)
    }

    /** ModRM or absolute address, the default segment, the truncation and the ip. */
    method ReadOperandAddress() returns (ok: bool)
      requires FreshAddress() && pos <= |code| && (adBytes == 4 || adBytes == 8)
      modifies `pos, `modrmMod, `modrmReg, `modrmRm, `ripRelative, `modrmEa, `sum, `segOverride
      ensures ok <==> ReadAddress(code, Opcode(d, b, twobyte, old(pos)), adBytes, rexPrefix, regs, ip).Some?
      ensures ok ==> ReadAddress(code, Opcode(d, b, twobyte, old(pos)), adBytes, rexPrefix, regs, ip)
                       == Some(Addressing.Decoded(modrmMod, modrmReg, modrmEa, pos))
    {
      if d.modRM {
        ok := ReadModRM();
        if !ok { return false; }
      } else if d.memAbs {
        var fetched, absolute := FetchBytes(adBytes);
        if !fetched { return false; }
        AddToEa(absolute);
      }
      if segOverride.None? { segOverride := Some(3); }
      if adBytes != 8 { modrmEa := modrmEa % TWO32; }
      if ripRelative { modrmEa := Wrap(modrmEa + Wrap(ip + pos)); }
      return true;
    }

    /** The cache holds instruction `i`, decoded up to its operands. */
    ghost predicate Holds(i: Insn)
      reads this
    {
      && d == i.op.d && b == i.op.b && twobyte == i.op.twobyte && opBytes == i.size && regs == i.regs
      && rexPrefix == i.rex && modrmMod == i.rm.mod && modrmReg == i.rm.reg && modrmEa == i.rm.ea
      && modrmReg < 16 && (opBytes == 2 || opBytes == 4 || opBytes == 8) && pos <= |code|
    }

    /** decode_register_operand, for the one value the decoder uses: the bit offset of a bit instruction. */
    method ReadRegisterSource()
      requires d.modRM ==> modrmReg < 16
      modifies `srcBytes, `srcVal
      ensures srcBytes == if d.byteOp then 1 else opBytes
      ensures d.modRM && !d.byteOp ==>
                srcVal == if opBytes == 2 then regs[modrmReg] % 0x10000
                          else if opBytes == 4 then regs[modrmReg] % TWO32 else regs[modrmReg]
    {
      var reg := if d.modRM then modrmReg else b % 8 + RexB(rexPrefix);
      if d.byteOp {
        srcBytes := 1;
        srcVal := regs[reg] % TWO8;
      } else {
        srcBytes := opBytes;
        srcVal := if opBytes == 2 then regs[reg] % 0x10000
                  else if opBytes == 4 then regs[reg] % TWO32 else regs[reg];
      }
    }

    /** The first switch on the operands. */
    method ReadSource(ghost i: Insn) returns (ok: bool)
      requires Holds(i) && Consistent(d) && FreshOperands()
      modifies `pos, `srcMem, `srcBytes, `srcPtr, `srcVal
      ensures ok <==> old(pos) + SourceImmediate(d, opBytes) <= |code|
      ensures ok ==> pos == old(pos) + SourceImmediate(d, opBytes)
      ensures ok ==> srcMem == i.SrcIsMem() && srcBytes == i.SrcBytes() && (srcMem ==> srcPtr == i.SrcPtr())
      ensures ok && d.bitOp ==>
                srcVal == if opBytes == 2 then regs[modrmReg] % 0x10000
                          else if opBytes == 4 then regs[modrmReg] % TWO32 else regs[modrmReg]
    {
      var size := if d.byteOp then 1 else opBytes;
      match d.src {
        case SrcNone =>
        case SrcReg => ReadRegisterSource();
        case SrcMem =>
          srcBytes := size;
          if !(twobyte && b == 0x01 && modrmReg == 7) { ReadMemorySource(); }
        case SrcMem16 =>
          srcBytes := 2;
          ReadMemorySource();
        case SrcMem32 =>
          srcBytes := 4;
          ReadMemorySource();
        case SrcImm | SrcImmU =>
          srcBytes := if size == 8 then 4 else size;
          var fetched, _ := FetchBytes(srcBytes);
          return fetched;
        case SrcImmByte | SrcImmUByte =>
          srcBytes := 1;
          var fetched, _ := FetchBytes(1);
          return fetched;
        case SrcSI =>
          srcMem := true;
          srcBytes := size;
      }
      return true;
    }

    /** srcmem_common */
    method ReadMemorySource()
      requires !srcMem
      modifies `srcMem, `srcPtr
      ensures srcMem == !(d.modRM && modrmMod == 3)
      ensures srcMem ==> srcPtr == modrmEa
    {
      if d.modRM && modrmMod == 3 { return; }
      srcMem := true;
      srcPtr := modrmEa;
    }

    /** The second source operand. */
    method ReadSource2(ghost i: Insn) returns (ok: bool)
      requires Holds(i) && !src2Mem
      modifies `pos, `src2Mem, `src2Bytes, `src2Ptr
      ensures ok <==> old(pos) + Source2Immediate(d) <= |code|
      ensures ok ==> pos == old(pos) + Source2Immediate(d) && Holds(i)
      ensures ok ==> src2Mem == (d.src2 == Src2Mem16)
      ensures ok && src2Mem ==> src2Bytes == 2 && src2Ptr == Wrap(modrmEa + srcBytes)
    {
      match d.src2 {
        case Src2None =>
        case Src2CL => src2Bytes := 1;
        case Src2ImmByte =>
          src2Bytes := 1;
          var fetched, _ := FetchBytes(1);
          return fetched;
        case Src2Imm16 =>
          src2Bytes := 2;
          var fetched, _ := FetchBytes(2);
          return fetched;
        case Src2Mem16 =>
          src2Mem := true;
          src2Bytes := 2;
          src2Ptr := Wrap(modrmEa + srcBytes);
      }
      return true;
    }

    /** mask = ~(bytes * 8 - 1) as a 32-bit value: the low bits of the offset go, and so does its high half. */
    method AddBitOffset(ghost i: Insn)
      requires Holds(i) && dstBytes == opBytes && dstPtr == modrmEa
      requires srcVal == if opBytes == 2 then regs[modrmReg] % 0x10000
                         else if opBytes == 4 then regs[modrmReg] % TWO32 else regs[modrmReg]
      modifies `dstPtr
      ensures dstPtr == Wrap(i.rm.ea + i.BitOffset())
    {
      var offset := srcVal % TWO32;
      LowBits(regs[modrmReg]);
      if dstBytes == 2 {
        dstPtr := Wrap(dstPtr + offset / 16 * 2);
      } else if dstBytes == 4 {
        dstPtr := Wrap(dstPtr + offset / 32 * 4);
      } else {
        dstPtr := Wrap(dstPtr + offset / 64 * 8);
      }
    }

    /** The destination operand; ImplicitOps gives up. */
    method ReadDestination(ghost i: Insn) returns (handled: bool)
      requires Holds(i) && Consistent(d) && !dstMem && dstPtr == 0
      requires d.bitOp ==> srcVal == if opBytes == 2 then regs[modrmReg] % 0x10000
                                     else if opBytes == 4 then regs[modrmReg] % TWO32 else regs[modrmReg]
      modifies `dstMem, `dstBytes, `dstPtr
      ensures handled == (d.dst != ImplicitOps)
      ensures handled ==> dstMem == i.DstIsMem()
      ensures handled && dstMem ==> dstBytes == i.DstBytes() && dstPtr == i.DstPtr()
    {
      var size := if d.byteOp then 1 else opBytes;
      if d.dst == ImplicitOps {
        return false;
      } else if d.dst == DstMem || d.dst == DstMem64 {
        if d.modRM && modrmMod == 3 {
          dstBytes := size;
        } else {
          dstMem := true;
          dstPtr := modrmEa;
          dstBytes := if d.dst == DstMem64 then 8 else size;
          if d.bitOp { AddBitOffset(i); }
        }
      } else if d.dst == DstDI {
        dstMem := true;
        dstBytes := size;
      } else if d.dst == DstReg || d.dst == DstAcc {
        dstBytes := size;
      }
      return true;
    }

    /** The final selection: the operand, the stack slot in its place, and ReadOnly. */
    method Report(ghost i: Insn, dataAddr: array<Word>, dataLength: array<nat>, isWrite: array<bool>)
      requires Holds(i) && d.dst != ImplicitOps
      requires srcMem == i.SrcIsMem() && srcBytes == i.SrcBytes() && (srcMem ==> srcPtr == i.SrcPtr())
      requires src2Mem == (d.src2 == Src2Mem16) && (src2Mem ==> src2Bytes == 2 && src2Ptr == Wrap(modrmEa + srcBytes))
      requires dstMem == i.DstIsMem() && (dstMem ==> dstBytes == i.DstBytes() && dstPtr == i.DstPtr())
      requires dataAddr.Length == dataLength.Length == isWrite.Length == SLOTS && dataLength[0] == 0
      modifies dataAddr, dataLength, isWrite
      ensures forall k :: 1 <= k < SLOTS ==> dataLength[k] == old(dataLength[k])
      ensures Shows(dataAddr[0], dataLength[0], isWrite[0], i.Reported())
    {
      if srcMem {
        dataAddr[0], dataLength[0], isWrite[0] := srcPtr, srcBytes, false;
      } else if src2Mem {
        dataAddr[0], dataLength[0], isWrite[0] := src2Ptr, src2Bytes, false;
      } else if dstMem {
        dataAddr[0], dataLength[0], isWrite[0] := dstPtr, dstBytes, true;
      }
      if d.stack {
        if d.push {
          dataLength[0] := srcBytes;
          dataAddr[0] := Wrap(regs[4] - srcBytes);
          isWrite[0] := true;
        } else if d.pop {
          dataLength[0] := srcBytes;
          dataAddr[0] := regs[4];
          isWrite[0] := false;
        }
      }
      if dataLength[0] != 0 && d.readOnly { isWrite[0] := false; }
    }

    /**
     yy_get_memory_access: slot 0 holds what `Decode` specifies, the others nothing.
     */
    method GetMemoryAccess(dataAddr: array<Word>, dataLength: array<nat>, isWrite: array<bool>) returns (ok: bool)
      requires Fresh()
      requires dataAddr.Length == dataLength.Length == isWrite.Length == SLOTS
      modifies this, dataAddr, dataLength, isWrite
      ensures forall k :: 1 <= k < SLOTS ==> dataLength[k] == 0
      ensures Answers(Decode(code, regs, ip), ok, dataAddr[0], dataLength[0], isWrite[0])
    {
      ClearLengths(dataLength);
      ok := ReadHead();
      if !ok { return false; }
      ok := ReadRest(code[..PrefixCount(code)], dataAddr, dataLength, isWrite);
    }

    method ReadRest(ghost prefixes: seq<Byte>, dataAddr: array<Word>, dataLength: array<nat>, isWrite: array<bool>)
      returns (ok: bool)
      requires pos <= |code| && (d == KNOWN || Consistent(d)) && FreshAddress() && FreshOperands()
      requires opBytes == OperandSize(prefixes) && adBytes == AddressSize(prefixes) && rexPrefix == RexOf(prefixes)
      requires dataAddr.Length == dataLength.Length == isWrite.Length == SLOTS
      requires forall k :: 0 <= k < SLOTS ==> dataLength[k] == 0
      modifies this, dataAddr, dataLength, isWrite
      ensures forall k :: 1 <= k < SLOTS ==> dataLength[k] == 0
      ensures var r := AfterOpcode(code, Opcode(old(d), old(b), old(twobyte), old(pos)), prefixes, regs, ip);
              Answers(r, ok, dataAddr[0], dataLength[0], isWrite[0])
    {
      if d == KNOWN || d == ZERO { return true; }
      ok := ReadBody(prefixes, dataAddr, dataLength, isWrite);
    }

    /** memset(data_length, 0, ...) */
    method ClearLengths(dataLength: array<nat>)
      requires dataLength.Length == SLOTS
      modifies dataLength
      ensures forall k :: 0 <= k < SLOTS ==> dataLength[k] == 0
    {
      for k := 0 to SLOTS
        invariant forall j :: 0 <= j < k ==> dataLength[j] == 0
      {
        dataLength[k] := 0;
      }
    }

    /** Prefixes and opcode. */
    method ReadHead() returns (ok: bool)
      requires Fresh()
      modifies `pos, `b, `opBytes, `adBytes, `rexPrefix, `lockPrefix, `repPrefix, `segOverride, `twobyte, `d
      ensures ok <==> ReadOpcode(code, PrefixCount(code)).Some?
      ensures ok ==> ReadOpcode(code, PrefixCount(code)) == Some(Opcode(d, b, twobyte, pos)) && pos <= |code|
      ensures ok ==> var prefixes := code[..PrefixCount(code)];
                     opBytes == OperandSize(prefixes) && adBytes == AddressSize(prefixes) && rexPrefix == RexOf(prefixes)
      ensures ok ==> d == KNOWN || Consistent(d)
      ensures FreshAddress() && FreshOperands()
    {
      ok := ReadPrefixes();
      if !ok { return false; }
      ok := ReadOpcodeBytes();
      if ok { OpcodeFacts(code, PrefixCount(code)); }
    }

    /** What follows the opcode bytes. */
    method ReadBody(ghost prefixes: seq<Byte>, dataAddr: array<Word>, dataLength: array<nat>, isWrite: array<bool>)
      returns (ok: bool)
      requires pos <= |code| && Consistent(d) && FreshAddress() && FreshOperands()
      requires opBytes == OperandSize(prefixes) && adBytes == AddressSize(prefixes) && rexPrefix == RexOf(prefixes)
      requires dataAddr.Length == dataLength.Length == isWrite.Length == SLOTS
      requires forall k :: 0 <= k < SLOTS ==> dataLength[k] == 0
      modifies this, dataAddr, dataLength, isWrite
      ensures forall k :: 1 <= k < SLOTS ==> dataLength[k] == 0
      ensures var r := Body(code, Opcode(old(d), old(b), old(twobyte), old(pos)), prefixes, regs, ip);
              && (ok <==> r.Done?)
              && (ok ==> Shows(dataAddr[0], dataLength[0], isWrite[0], r.access))
    {
      ghost var i;
      ok, i := ReadAddressing(prefixes);
      if !ok { return false; }
      ok := ReadOperands(i, dataAddr, dataLength, isWrite);
    }

    /** The operand size of stack instructions, and the address. */
    method ReadAddressing(ghost prefixes: seq<Byte>) returns (ok: bool, ghost i: Insn)
      requires pos <= |code| && FreshAddress() && FreshOperands()
      requires opBytes == OperandSize(prefixes) && adBytes == AddressSize(prefixes) && rexPrefix == RexOf(prefixes)
      modifies `opBytes, `pos, `modrmMod, `modrmReg, `modrmRm, `ripRelative, `modrmEa, `sum, `segOverride
      ensures var insn := ReadInsn(code, Opcode(d, b, twobyte, old(pos)), prefixes, regs, ip);
              (ok <==> insn.Some?) && (ok ==> insn == Some(i))
      ensures ok ==> Holds(i) && i.rm.next == pos
      ensures FreshOperands()
    {
      ghost var o := Opcode(d, b, twobyte, pos);
      i := Insn(o, 0, 0, regs, Addressing.Decoded(0, 0, 0, 0));
      if d.stack { opBytes := 8; }
      ok := ReadOperandAddress();
      if !ok { return; }
      RegNumber(code, o, adBytes, rexPrefix, regs, ip);
      AddressInside(code, o, adBytes, rexPrefix, regs, ip);
      i := Insn(o, opBytes, rexPrefix, regs, Addressing.Decoded(modrmMod, modrmReg, modrmEa, pos));
    }

    /** Both source operands. */
    method ReadSources(ghost i: Insn) returns (ok: bool)
      requires Holds(i) && Consistent(d) && FreshOperands()
      modifies `pos, `srcMem, `srcBytes, `srcPtr, `srcVal, `src2Mem, `src2Bytes, `src2Ptr
      ensures ok <==> old(pos) + ImmediateBytes(i.op.d, i.size) <= |code|
      ensures ok ==> Holds(i)
      ensures ok ==> srcMem == i.SrcIsMem() && srcBytes == i.SrcBytes() && (srcMem ==> srcPtr == i.SrcPtr())
      ensures ok ==> src2Mem == (d.src2 == Src2Mem16) && (src2Mem ==> src2Bytes == 2 && src2Ptr == Wrap(modrmEa + srcBytes))
      ensures ok && d.bitOp ==>
                srcVal == if opBytes == 2 then regs[modrmReg] % 0x10000
                          else if opBytes == 4 then regs[modrmReg] % TWO32 else regs[modrmReg]
    {
      ok := ReadSource(i);
      if ok { ok := ReadSource2(i); }
    }

    /** The three operands and the report. */
    method ReadOperands(ghost i: Insn, dataAddr: array<Word>, dataLength: array<nat>, isWrite: array<bool>) returns (ok: bool)
      requires Holds(i) && Consistent(d) && FreshOperands()
      requires dataAddr.Length == dataLength.Length == isWrite.Length == SLOTS
      requires forall k :: 0 <= k < SLOTS ==> dataLength[k] == 0
      modifies this, dataAddr, dataLength, isWrite
      ensures ok <==> old(pos) + ImmediateBytes(i.op.d, i.size) <= |code|
      ensures forall k :: 1 <= k < SLOTS ==> dataLength[k] == 0
      ensures ok ==> Shows(dataAddr[0], dataLength[0], isWrite[0], i.Reported())
    {
      ok := ReadSources(i);
      if !ok { return false; }
      var handled := ReadDestination(i);
      if handled { Report(i, dataAddr, dataLength, isWrite); }
    }
  }

  lemma AddressInside(code: seq<Byte>, o: Opcode, size: nat, rex: Byte, regs: Registers, ip: Word)
    requires o.next <= |code| && ReadAddress(code, o, size, rex, regs, ip).Some?
    ensures ReadAddress(code, o, size, rex, regs, ip).value.next <= |code|
  {
  }

  lemma Low3(rex: Byte, rm: nat)
    requires RexB(rex) <= rm < RexB(rex) + 8
    ensures rm % 8 == rm - RexB(rex) && rm < 16
    ensures rm == 5 <==> rm % 8 == 5 && RexB(rex) == 0
  {
  }

  lemma LowBits(x: nat)
    ensures x % TWO32 % TWO32 == x % TWO32 && x % 0x10000 % TWO32 == x % 0x10000
  {
  }

  /** What one more prefix byte changes in the declarations. */
  lemma Extend(before: seq<Byte>, byte: Byte)
    ensures AddressSize(before + [byte]) == if byte == 0x67 then 4 else AddressSize(before)
    ensures 0x66 in before + [byte] <==> byte == 0x66 || 0x66 in before
    ensures 0xf0 in before + [byte] <==> byte == 0xf0 || 0xf0 in before
    ensures RexOf(before + [byte]) == if IsRex(byte) then byte else 0
    ensures Last(before + [byte], IsRep) == if IsRep(byte) then Some(byte) else Last(before, IsRep)
    ensures Last(before + [byte], IsSegment) == if IsSegment(byte) then Some(byte) else Last(before, IsSegment)
  {
    assert (before + [byte])[..|before|] == before;
  }
}
