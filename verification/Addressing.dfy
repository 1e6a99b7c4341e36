/**
 ModRM/SIB addressing: what drddr/disassem.c computes, and the architectural address of
 sections 2.1.5 and 2.2.1 of the Intel SDM Vol. 2A, with the exact difference of the two.
 */
module Addressing {
  import opened Words

  function Fetch2(code: seq<Byte>, pos: nat): (v: nat)
    requires pos + 2 <= |code|
    ensures v < 0x10000
  {
    code[pos] as int + 0x100 * code[pos + 1] as int
  }

  function Fetch4(code: seq<Byte>, pos: nat): (v: nat)
    requires pos + 4 <= |code|
    ensures v < TWO32
  {
    Fetch2(code, pos) + 0x10000 * Fetch2(code, pos + 2)
  }

  /** The little-endian value of `size` bytes at `pos`, the reads of yy_insn_fetch. */
  function Fetch(code: seq<Byte>, pos: nat, size: nat): (v: nat)
    requires pos + size <= |code|
    ensures size == 1 ==> v < TWO8
    ensures size == 4 ==> v < TWO32
    ensures v < TWO64
  {
    if size == 1 then code[pos]
    else if size == 2 then Fetch2(code, pos)
    else if size == 4 then Fetch4(code, pos)
    else if size == 8 then Fetch4(code, pos) + TWO32 * Fetch4(code, pos + 4)
    else 0
  }

  type Registers = s: seq<Word> | |s| == 16 witness seq(16, _ => 0)

  // ---- What the decoder computes ---------------------------------------------------------

  function RexR(rex: Byte): nat { rex / 4 % 2 * 8 }
  function RexX(rex: Byte): nat { rex / 2 % 2 * 8 }
  function RexB(rex: Byte): nat { rex % 2 * 8 }

  /** The fields of a ModRM byte and the address its memory form was decoded to. */
  datatype Decoded = Decoded(mod: nat, reg: nat, ea: Word, next: nat)

  /** Size of the displacement the decoder reads after ModRM and SIB when mod is not 0. */
  function ModDisplacement(mod: nat): nat {
    if mod == 1 then 1 else if mod == 2 then 4 else 0
  }

  function Displacement(code: seq<Byte>, pos: nat, size: nat): Option<nat>
    requires size == 0 || size == 1 || size == 4
  {
    if size == 0 then Some(0)
    else if pos + size <= |code| then Some(Fetch(code, pos, size))
    else None
  }

  /** Registers and displacement of the SIB form, then where the next byte is. */
  function DecodeSib(code: seq<Byte>, pos: nat, mod: nat, rex: Byte, regs: Registers): Option<(int, nat)> {
    if pos >= |code| then None
    else
      var sib := code[pos];
      var index := RexX(rex) + sib / 8 % 8;
      var base := RexB(rex) + sib % 8;
      var noBase := sib % 8 == 5 && mod == 0;
      var scaled := if index == 4 then 0 else Shifted(regs[index], sib / 64);
      var size := if noBase then 4 else ModDisplacement(mod);
      match Displacement(code, pos + 1, size)
      case None => None
      case Some(disp) => Some(((if noBase then 0 else regs[base]) + scaled + disp, pos + 1 + size))
  }

  /** x << s for a two-bit scale */
  function Shifted(x: nat, s: nat): nat {
    if s == 0 then x else if s == 1 then 2 * x else if s == 2 then 4 * x else 8 * x
  }

  /** The forms without SIB and without the ip: one register and a displacement. */
  function DecodeBase(code: seq<Byte>, pos: nat, mod: nat, rm: nat, regs: Registers): Option<(int, nat)>
    requires rm < 16
  {
    match Displacement(code, pos, ModDisplacement(mod))
    case None => None
    case Some(disp) => Some((regs[rm] + disp, pos + ModDisplacement(mod)))
  }

  /** The ip-relative form: with REX.B set, the test on the whole register number skips the displacement. */
  function DecodeRip(code: seq<Byte>, pos: nat, rex: Byte): Option<(int, nat)> {
    var size := if RexB(rex) == 0 then 4 else 0;
    match Displacement(code, pos, size)
    case None => None
    case Some(disp) => Some((disp, pos + size))
  }

  /** `size` is the address size in bytes, 4 or 8; the ip is added after the truncation. */
  function Truncate(x: int, size: nat): Word {
    if size == 8 then Wrap(x) else Wrap(x) % TWO32
  }

  function DecodeModRM(code: seq<Byte>, pos: nat, size: nat, rex: Byte, regs: Registers, ip: Word): Option<Decoded> {
    if pos >= |code| then None
    else
      var modrm := code[pos];
      var mod, low := modrm / 64, modrm % 8;
      var reg := RexR(rex) + modrm / 8 % 8;
      if mod == 3 then Some(Decoded(mod, reg, 0, pos + 1))
      else if low == 4 then
        match DecodeSib(code, pos + 1, mod, rex, regs)
        case None => None
        case Some(r) => Some(Decoded(mod, reg, Truncate(r.0, size), r.1))
      else if low == 5 && mod == 0 then
        match DecodeRip(code, pos + 1, rex)
        case None => None
        case Some(r) => Some(Decoded(mod, reg, Wrap(Truncate(r.0, size) + Wrap(ip + r.1)), r.1))
      else
        match DecodeBase(code, pos + 1, mod, RexB(rex) + low, regs)
        case None => None
        case Some(r) => Some(Decoded(mod, reg, Truncate(r.0, size), r.1))
  }

  // ---- The architecture -------------------------------------------------------------------

  /** Tables 2-2 and 2-3 with the REX extensions: what an addressing form is made of. */
  datatype Form =
    | RegisterForm
    | MemoryForm(base: Option<nat>, index: Option<nat>, scale: nat, dispSize: nat, sib: bool)
    | IpForm

  function ArchForm(modrm: Byte, sib: Byte, rex: Byte): Form {
    var mod := modrm / 64;
    var dispSize := if mod == 1 then 1 else if mod == 2 then 4 else 0;
    if mod == 3 then RegisterForm
    else if modrm % 8 == 4 then
      var index := RexX(rex) + sib / 8 % 8;
      var none := mod == 0 && sib % 8 == 5;
      MemoryForm(
        if none then None else Some(RexB(rex) + sib % 8),
        if index == 4 then None else Some(index),
        sib / 64,
        if none then 4 else dispSize,
        true)
    else if modrm % 8 == 5 && mod == 0 then IpForm
    else MemoryForm(Some(RexB(rex) + modrm % 8), None, 0, dispSize, false)
  }

  /** Bytes of ModRM, SIB and displacement. */
  function ArchLength(form: Form): nat {
    match form
    case RegisterForm => 1
    case IpForm => 5
    case MemoryForm(_, _, _, dispSize, sib) => 1 + (if sib then 1 else 0) + dispSize
  }

  /** Displacements are signed. */
  function SignExtend(x: nat, size: nat): int {
    if size == 1 then (if x < 0x80 then x else x - TWO8)
    else if size == 4 then (if x < 0x8000_0000 then x else x - TWO32)
    else x
  }

  /** Cut to the address size. */
  function Reduce(x: int, size: nat): int {
    if size == 8 then x % TWO64 else x % TWO32
  }

  function Register(r: Option<nat>, regs: Registers): nat
    requires r.Some? ==> r.value < 16
  {
    if r.Some? then regs[r.value] else 0
  }

  /** The effective address, for the unsigned displacement `disp` found in the code. */
  function ArchAddress(form: Form, disp: nat, regs: Registers, nextIp: int, size: nat): int
    requires form.MemoryForm? ==>
      (form.base.Some? ==> form.base.value < 16) && (form.index.Some? ==> form.index.value < 16)
  {
    match form
    case RegisterForm => 0
    case IpForm => Reduce(nextIp + SignExtend(disp, 4), size)
    case MemoryForm(base, index, scale, dispSize, _) =>
      Reduce(Register(base, regs) + Shifted(Register(index, regs), scale) + SignExtend(disp, dispSize), size)
  }

  /** How much larger the zero-extended displacement is than the signed one. */
  function SignGap(disp: nat, size: nat): int {
    disp - SignExtend(disp, size)
  }

  /** An address that is `gap` too large before it is cut to the address size. */
  function OffBy(arch: int, gap: int, size: nat): int {
    Reduce(arch + gap, size)
  }

  /** The SIB byte of the form at `pos`, if it has one. */
  function SibAt(code: seq<Byte>, pos: nat): Byte {
    if pos + 1 < |code| then code[pos + 1] else 0
  }

  /** Where the displacement of a memory form at `pos` starts. */
  function DispAt(form: Form, pos: nat): nat {
    pos + (if form.MemoryForm? && form.sib then 2 else 1)
  }

  /** A register-based form that ArchForm can produce. */
  predicate ShapedForm(form: Form) {
    && form.MemoryForm? && (form.dispSize == 0 || form.dispSize == 1 || form.dispSize == 4)
    && (form.base.Some? ==> form.base.value < 16) && (form.index.Some? ==> form.index.value < 16)
  }

  predicate DispFits(form: Form, disp: nat)
    requires form.MemoryForm?
  {
    (form.dispSize == 0 && disp == 0) || (form.dispSize == 1 && disp < TWO8) || (form.dispSize == 4 && disp < TWO32)
  }

  /** The sum of the parts, the displacement unsigned. */
  function UnsignedSum(form: Form, disp: nat, regs: Registers): nat
    requires ShapedForm(form)
  {
    Register(form.base, regs) + Shifted(Register(form.index, regs), form.scale) + disp
  }

  /** The displacement found in the code. */
  function DispOf(code: seq<Byte>, form: Form, pos: nat): (disp: nat)
    requires ShapedForm(form) && pos + ArchLength(form) <= |code|
    ensures DispFits(form, disp)
  {
    if form.dispSize == 0 then 0 else Fetch(code, DispAt(form, pos), form.dispSize)
  }

  lemma SignGapValue(disp: nat, size: nat)
    requires (size == 0 && disp == 0) || (size == 1 && disp < TWO8) || (size == 4 && disp < TWO32)
    ensures SignGap(disp, size) ==
      if size == 1 && disp >= 0x80 then TWO8 else if size == 4 && disp >= 0x8000_0000 then TWO32 else 0
  {
  }

  lemma TruncateReduces(x: int, size: nat)
    requires size == 4 || size == 8
    ensures Truncate(x, size) == Reduce(x, size)
  {
    if size == 4 {
      var q, r := x / TWO64, x % TWO64;
      Low32(x, TWO32 * q + r / TWO32, r % TWO32, 0);
    }
  }

  /**
   Register-based forms: the decoder reads exactly the architectural bytes, its address
   exceeds the architectural one by 2^8 or 2^32 when the displacement's sign bit is set,
   modulo the address size, and the two agree exactly when that gap vanishes.
   */
  lemma MemoryFormAddress(code: seq<Byte>, pos: nat, size: nat, rex: Byte, regs: Registers, ip: Word)
    requires (size == 4 || size == 8) && pos < |code|
    requires ArchForm(code[pos], SibAt(code, pos), rex).MemoryForm?
    requires DecodeModRM(code, pos, size, rex, regs, ip).Some?
    ensures var form := ArchForm(code[pos], SibAt(code, pos), rex);
            var r := DecodeModRM(code, pos, size, rex, regs, ip).value;
            && ShapedForm(form) && r.next == pos + ArchLength(form) <= |code|
            && var disp := DispOf(code, form, pos);
               && r.ea == OffBy(ArchAddress(form, disp, regs, ip + r.next, size), SignGap(disp, form.dispSize), size)
               && (r.ea == ArchAddress(form, disp, regs, ip + r.next, size) <==>
                     !(form.dispSize == 1 && disp >= 0x80) && !(form.dispSize == 4 && disp >= 0x8000_0000 && size == 8))
  {
    var form := ArchForm(code[pos], SibAt(code, pos), rex);
    MemoryFormSum(code, pos, size, rex, regs, ip);
    AddressGap(form, DispOf(code, form, pos), regs, ip + DecodeModRM(code, pos, size, rex, regs, ip).value.next, size);
  }

  /** A truncated sum with an unsigned displacement against the signed one. */
  lemma AddressGap(form: Form, disp: nat, regs: Registers, nextIp: int, size: nat)
    requires ShapedForm(form) && DispFits(form, disp) && (size == 4 || size == 8)
    ensures var ea, arch := Truncate(UnsignedSum(form, disp, regs), size), ArchAddress(form, disp, regs, nextIp, size);
            && ea == OffBy(arch, SignGap(disp, form.dispSize), size)
            && (ea == arch <==>
                  !(form.dispSize == 1 && disp >= 0x80) && !(form.dispSize == 4 && disp >= 0x8000_0000 && size == 8))
  {
    var sum, gap := UnsignedSum(form, disp, regs), SignGap(disp, form.dispSize);
    SignGapValue(disp, form.dispSize);
    ArchSum(form, disp, regs, nextIp, size);
    SumGap(sum, gap, size);
  }

  lemma ArchSum(form: Form, disp: nat, regs: Registers, nextIp: int, size: nat)
    requires ShapedForm(form)
    ensures ArchAddress(form, disp, regs, nextIp, size) ==
              Reduce(UnsignedSum(form, disp, regs) - SignGap(disp, form.dispSize), size)
  {
    var signed := Register(form.base, regs) + Shifted(Register(form.index, regs), form.scale) + SignExtend(disp, form.dispSize);
    assert UnsignedSum(form, disp, regs) - SignGap(disp, form.dispSize) == signed;
  }

  lemma SumGap(sum: int, gap: int, size: nat)
    requires (size == 4 || size == 8) && (gap == 0 || gap == TWO8 || gap == TWO32)
    ensures Truncate(sum, size) == OffBy(Reduce(sum - gap, size), gap, size)
    ensures Truncate(sum, size) == Reduce(sum - gap, size) <==> gap == 0 || (gap == TWO32 && size == 4)
  {
    TruncateReduces(sum, size);
    GapModulo(sum - gap, gap, size);
  }

  /** The sum the decoder forms, before it is truncated. */
  lemma MemoryFormSum(code: seq<Byte>, pos: nat, size: nat, rex: Byte, regs: Registers, ip: Word)
    requires pos < |code| && ArchForm(code[pos], SibAt(code, pos), rex).MemoryForm?
    requires DecodeModRM(code, pos, size, rex, regs, ip).Some?
    ensures var form := ArchForm(code[pos], SibAt(code, pos), rex);
            var r := DecodeModRM(code, pos, size, rex, regs, ip).value;
            && ShapedForm(form) && r.next == pos + ArchLength(form) <= |code|
            && r.ea == Truncate(UnsignedSum(form, DispOf(code, form, pos), regs), size)
  {
    if code[pos] % 8 == 4 {
      assert DecodeSib(code, pos + 1, code[pos] / 64, rex, regs).Some?;
    } else {
      assert DecodeBase(code, pos + 1, code[pos] / 64, RexB(rex) + code[pos] % 8, regs).Some?;
    }
  }

  lemma GapModulo(x: int, gap: int, size: nat)
    requires (size == 4 || size == 8) && (gap == 0 || gap == TWO8 || gap == TWO32)
    ensures Reduce(x + gap, size) == Reduce(Reduce(x, size) + gap, size)
    ensures Reduce(x + gap, size) == Reduce(x, size) <==> gap == 0 || (gap == TWO32 && size == 4)
  {
  }

  /**
   The ip-relative form without REX.B: the decoder adds the address of the byte after the
   displacement, the architecture that of the next instruction, `imm` bytes on. They agree
   exactly when no immediate follows and the sign bit is clear, and under 0x67 when no
   immediate follows and the sum stays below 2^32.
   */
  lemma IpFormAddress(code: seq<Byte>, pos: nat, size: nat, rex: Byte, regs: Registers, ip: Word, imm: nat)
    requires (size == 4 || size == 8) && pos < |code| && imm <= 15
    requires ArchForm(code[pos], SibAt(code, pos), rex).IpForm? && RexB(rex) == 0
    requires DecodeModRM(code, pos, size, rex, regs, ip).Some?
    ensures var r := DecodeModRM(code, pos, size, rex, regs, ip).value;
            && r.next == pos + 5 <= |code|
            && var disp := Fetch(code, pos + 1, 4);
               && r.ea == Wrap(disp + ip + r.next)
               && (r.ea == ArchAddress(IpForm, disp, regs, ip + r.next + imm, size) <==>
                     imm == 0 && if size == 8 then disp < 0x8000_0000 else Wrap(disp + ip + r.next) < TWO32)
  {
    var disp := Fetch(code, pos + 1, 4);
    var after := ip + pos + 5;
    assert DecodeRip(code, pos + 1, rex) == Some((disp, pos + 5));
    SmallTruncate(disp, size);
    WrapInner(disp, after);
    SignGapValue(disp, 4);
    if size == 8 {
      IpGap(disp + after, imm - SignGap(disp, 4));
    } else {
      IpGap32(disp + after, imm, SignGap(disp, 4));
    }
  }

  lemma SmallTruncate(x: nat, size: nat)
    requires x < TWO32
    ensures Truncate(x, size) == x
  {
  }

  lemma WrapInner(a: int, b: int)
    ensures Wrap(a + Wrap(b)) == Wrap(a + b)
  {
    assert b == TWO64 * (b / TWO64) + Wrap(b);
  }

  lemma IpGap(x: int, gap: int)
    requires -TWO32 <= gap <= TWO32
    ensures Wrap(x) == (x + gap) % TWO64 <==> gap == 0
  {
  }

  lemma IpGap32(x: int, imm: nat, gap: int)
    requires imm <= 15 && (gap == 0 || gap == TWO32)
    ensures Wrap(x) == (x + imm - gap) % TWO32 <==> imm == 0 && Wrap(x) < TWO32
  {
    var q, r := x / TWO64, Wrap(x);
    assert x == TWO32 * (TWO32 * q) + r;
    var low := r % TWO32;
    assert r == TWO32 * (r / TWO32) + low;
    Low32(x, TWO32 * q + r / TWO32, low, imm - gap);
  }

  lemma Low32(x: int, q: int, low: int, d: int)
    requires x == TWO32 * q + low && 0 <= low < TWO32 && -TWO32 <= d <= 15
    ensures (x + d) % TWO32 == (low + d) % TWO32
  {
    assert x + d == TWO32 * q + (low + d);
  }

  /**
   With REX.B set the decoder reads no displacement at all: it stops four bytes short of the
   architectural form, and its address is that of the displacement itself. That is the
   architectural address only for the displacement that points there, `imm` bytes of immediate
   included, and under 0x67 only if the address lies below 2^32.
   */
  lemma IpFormWithRexB(code: seq<Byte>, pos: nat, size: nat, rex: Byte, regs: Registers, ip: Word, imm: nat)
    requires (size == 4 || size == 8) && pos < |code| && imm <= 15
    requires ArchForm(code[pos], SibAt(code, pos), rex).IpForm? && RexB(rex) != 0
    ensures DecodeModRM(code, pos, size, rex, regs, ip).Some?
    ensures var r := DecodeModRM(code, pos, size, rex, regs, ip).value;
            && r.next == pos + ArchLength(IpForm) - 4 && r.ea == Wrap(ip + pos + 1)
            && (pos + 5 <= |code| ==>
                  var disp := Fetch(code, pos + 1, 4);
                  (r.ea == ArchAddress(IpForm, disp, regs, ip + pos + 5 + imm, size) <==>
                     disp == TWO32 - 4 - imm && (size == 8 || Wrap(ip + pos + 1) < TWO32)))
  {
    StopsShort(code, pos, size, rex, regs, ip);
    if pos + 5 <= |code| { PointsAtItself(ip + pos + 1, Fetch(code, pos + 1, 4), imm, regs, size); }
  }

  lemma StopsShort(code: seq<Byte>, pos: nat, size: nat, rex: Byte, regs: Registers, ip: Word)
    requires pos < |code| && ArchForm(code[pos], SibAt(code, pos), rex).IpForm? && RexB(rex) != 0
    ensures var r := DecodeModRM(code, pos, size, rex, regs, ip);
            r.Some? && r.value.next == pos + 1 && r.value.ea == Wrap(ip + pos + 1)
  {
    assert DecodeRip(code, pos + 1, rex) == Some((0, pos + 1));
    SmallTruncate(0, size);
    WrapInner(0, ip + pos + 1);
  }

  lemma PointsAtItself(x: nat, disp: nat, imm: nat, regs: Registers, size: nat)
    requires (size == 4 || size == 8) && disp < TWO32 && imm <= 15
    ensures Wrap(x) == ArchAddress(IpForm, disp, regs, x + 4 + imm, size) <==>
              disp == TWO32 - 4 - imm && (size == 8 || Wrap(x) < TWO32)
  {
    var gap := 4 + imm + SignExtend(disp, 4);
    if size == 8 { IpGap(x, gap); } else { LowGap(x, gap); }
  }

  lemma LowGap(x: int, gap: int)
    requires -0x8000_0000 <= gap <= 0x8000_0013
    ensures Wrap(x) == (x + gap) % TWO32 <==> gap == 0 && Wrap(x) < TWO32
  {
    var q, r := x / TWO64, Wrap(x);
    assert x == TWO64 * q + r;
    var low := r % TWO32;
    assert r == TWO32 * (r / TWO32) + low;
    assert x == TWO32 * (TWO32 * q + r / TWO32) + low;
    assert x + gap == TWO32 * (TWO32 * q + r / TWO32) + (low + gap);
    SmallShift(low, gap, TWO32 * q + r / TWO32);
  }

  lemma SmallShift(low: int, gap: int, q: int)
    requires 0 <= low < TWO32 && -TWO32 < gap < TWO32
    ensures (TWO32 * q + (low + gap)) % TWO32 == low <==> gap == 0
  {
    if low + gap < 0 {
      assert TWO32 * q + (low + gap) == TWO32 * (q - 1) + (low + gap + TWO32);
    } else if low + gap >= TWO32 {
      assert TWO32 * q + (low + gap) == TWO32 * (q + 1) + (low + gap - TWO32);
    }
  }

  // ---- Extent -----------------------------------------------------------------------------

  /** Only the bytes before `n` are read by a fetch that ends there. */
  lemma FetchExtent(code: seq<Byte>, code': seq<Byte>, pos: nat, size: nat, n: nat)
    requires pos + size <= n <= |code| && n <= |code'| && code[..n] == code'[..n]
    ensures Fetch(code, pos, size) == Fetch(code', pos, size)
  {
    SameBytes(code, code', n);
  }

  lemma SameBytes(code: seq<Byte>, code': seq<Byte>, n: nat)
    requires n <= |code| && n <= |code'| && code[..n] == code'[..n]
    ensures forall i :: 0 <= i < n ==> code[i] == code'[i]
  {
    assert forall i :: 0 <= i < n ==> code[i] == code[..n][i] == code'[..n][i];
  }

  /** ModRM, SIB and displacement take 1 to 6 bytes. */
  lemma ModRMLength(code: seq<Byte>, pos: nat, size: nat, rex: Byte, regs: Registers, ip: Word)
    requires DecodeModRM(code, pos, size, rex, regs, ip).Some?
    ensures pos < DecodeModRM(code, pos, size, rex, regs, ip).value.next <= |code|
    ensures DecodeModRM(code, pos, size, rex, regs, ip).value.next <= pos + 6
  {
  }

  /** Only the bytes of ModRM, SIB and displacement matter. */
  lemma ModRMExtent(code: seq<Byte>, code': seq<Byte>, pos: nat, size: nat, rex: Byte, regs: Registers, ip: Word)
    requires DecodeModRM(code, pos, size, rex, regs, ip).Some?
    requires var next := DecodeModRM(code, pos, size, rex, regs, ip).value.next;
             next <= |code| && next <= |code'| && code[..next] == code'[..next]
    ensures DecodeModRM(code', pos, size, rex, regs, ip) == DecodeModRM(code, pos, size, rex, regs, ip)
  {
    var r := DecodeModRM(code, pos, size, rex, regs, ip).value;
    ModRMLength(code, pos, size, rex, regs, ip);
    SameBytes(code, code', r.next);
    var mod, low := code[pos] / 64, code[pos] % 8;
    if mod != 3 && low == 4 {
      SibExtent(code, code', pos + 1, mod, rex, regs, r.next);
    } else if mod != 3 && low == 5 && mod == 0 {
      FetchExtent(code, code', pos + 1, if RexB(rex) == 0 then 4 else 0, r.next);
    } else if mod != 3 {
      FetchExtent(code, code', pos + 1, ModDisplacement(mod), r.next);
    }
  }

  lemma SibExtent(code: seq<Byte>, code': seq<Byte>, pos: nat, mod: nat, rex: Byte, regs: Registers, n: nat)
    requires DecodeSib(code, pos, mod, rex, regs).Some? && DecodeSib(code, pos, mod, rex, regs).value.1 == n
    requires n <= |code| && n <= |code'| && code[..n] == code'[..n]
    ensures DecodeSib(code', pos, mod, rex, regs) == DecodeSib(code, pos, mod, rex, regs)
  {
    SameBytes(code, code', n);
    var size := if code[pos] % 8 == 5 && mod == 0 then 4 else ModDisplacement(mod);
    FetchExtent(code, code', pos + 1, size, n);
  }
}
