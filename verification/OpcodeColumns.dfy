/**
 What the decoder reports for each opcode number, against literal ranges of opcodes: which entries
 store to memory, load from it, push, have no operand, or are unknown; with which length; and how
 many immediate bytes they have.
 */
module OpcodeColumns {
  import opened Words
  import opened OpcodeTables
  import opened Addressing
  import opened Decoder
  import opened DecoderFacts

  datatype Report = Unknown | Nothing | Load | Store | Push

  // ---- By opcode number --------------------------------------------------------------------------

  /** The one-byte map; `isReg` and `reg` are those of the ModRM byte, if the opcode has one. */
  function OneByteReport(b: Byte, isReg: bool, reg: nat): Report {
    if (b == 0x0f || 0x26 <= b <= 0x27 || 0x2c <= b <= 0x2f || 0x34 <= b <= 0x37 ||
        0x3e <= b <= 0x3f || b == 0x62 || 0x64 <= b <= 0x67 || b == 0x69 || b == 0x6b ||
        b == 0x9b || 0x9e <= b <= 0x9f || 0xa8 <= b <= 0xa9 || b == 0xc2 ||
        0xc4 <= b <= 0xc5 || 0xc8 <= b <= 0xca || 0xd4 <= b <= 0xe3 || 0xf0 <= b <= 0xf3 ||
        b == 0xf9) then Unknown
    else if (0x50 <= b <= 0x57 || b == 0x68 || b == 0x6a) then Push
    else if (0xa0 <= b <= 0xa1 || 0xa4 <= b <= 0xa7 || 0xac <= b <= 0xad) then Load
    else if (0x6c <= b <= 0x6d || 0xa2 <= b <= 0xa3 || 0xaa <= b <= 0xab || 0xae <= b <= 0xaf) then Store
    else if (0x80 <= b <= 0x83) then (if isReg then Nothing else if reg == 7 then Load else Store)
    else if b == 0x8f then (if reg != 0 then Unknown else if isReg then Nothing else Store)
    else if b == 0xf6 || b == 0xf7 then
      (if reg == 1 || reg >= 4 then Unknown else if isReg then Nothing else if reg == 0 then Load else Store)
    else if b == 0xfe then (if reg >= 2 then Unknown else if isReg then Nothing else Store)
    else if b == 0xff then
      (if reg == 3 || reg >= 7 then Unknown else if reg == 6 then Push
       else if isReg || reg == 5 then Nothing else if reg < 2 then Store else Load)
    else if isReg then Nothing
    else if (0x02 <= b <= 0x03 || 0x0a <= b <= 0x0b || 0x12 <= b <= 0x13 || 0x1a <= b <= 0x1b ||
             0x22 <= b <= 0x23 || 0x2a <= b <= 0x2b || 0x32 <= b <= 0x33 ||
             0x38 <= b <= 0x3b || b == 0x63 || 0x84 <= b <= 0x85 ||
             0x8a <= b <= 0x8b || b == 0x8e) then Load
    else if (0x00 <= b <= 0x01 || 0x08 <= b <= 0x09 || 0x10 <= b <= 0x11 || 0x18 <= b <= 0x19 ||
             0x20 <= b <= 0x21 || 0x28 <= b <= 0x29 || 0x30 <= b <= 0x31 ||
             0x86 <= b <= 0x89 || b == 0x8c || 0xc0 <= b <= 0xc1 ||
             0xc6 <= b <= 0xc7 || 0xd0 <= b <= 0xd3) then Store
    else Nothing
  }

  /** The two-byte map, after 0F; REX.R hides 0F 01 /7 from its exception. */
  function TwoByteReport(b: Byte, isReg: bool, reg: nat, rexR: bool): Report {
    if b == 0x01 then
      (if isReg then (if reg == 0 || reg == 3 || reg == 4 || reg == 6 then Nothing else Unknown)
       else if reg == 2 || reg == 3 || reg == 6 then Load
       else if reg == 4 then Store
       else if reg == 7 then (if rexR then Load else Nothing)
       else Unknown)
    else if b == 0xba then (if reg < 4 then Unknown else if isReg then Nothing else Store)
    else if b == 0xc7 then (if isReg || reg != 1 then Unknown else Store)
    else if ((b < 0x05 || 0x06 < b) && (b < 0x08 || 0x09 < b) && b != 0x0d && b != 0x18 &&
             (b < 0x20 || 0x23 < b) && b != 0x30 && b != 0x32 &&
             (b < 0x34 || 0x35 < b) && (b < 0x40 || 0x4f < b) &&
             (b < 0x80 || 0x8f < b) && (b < 0xa0 || 0xa1 < b) &&
             (b < 0xa3 || 0xa5 < b) && (b < 0xa8 || 0xa9 < b) &&
             (b < 0xab || 0xae < b) && (b < 0xb0 || 0xb1 < b) && b != 0xb3 &&
             (b < 0xb6 || 0xb7 < b) && b != 0xbb && (b < 0xbe || 0xbf < b) && b != 0xc3) then Unknown
    else if isReg then Nothing
    else if (0x40 <= b <= 0x4f || 0xb6 <= b <= 0xb7 || 0xbe <= b <= 0xbf) then Load
    else if (0xa3 <= b <= 0xa5 || 0xab <= b <= 0xad || 0xb0 <= b <= 0xb1 || b == 0xb3 ||
             b == 0xbb || b == 0xc3) then Store
    else Nothing
  }

  /** Bytes of a reported operand, at operand size `size`. */
  function OneByteLength(b: Byte, reg: nat, size: nat): nat {
    if b == 0x68 || b == 0x63 then 4
    else if b == 0x6a then 1
    else if (0x50 <= b <= 0x57 || b == 0x8f) || (b == 0xff && reg >= 2) then 8
    else if (b == 0x00 || b == 0x02 || b == 0x08 || b == 0x0a || b == 0x10 || b == 0x12 ||
             b == 0x18 || b == 0x1a || b == 0x20 || b == 0x22 || b == 0x28 ||
             b == 0x2a || b == 0x30 || b == 0x32 || b == 0x38 || b == 0x3a ||
             b == 0x6c || b == 0x80 || b == 0x82 || b == 0x84 || b == 0x86 ||
             b == 0x88 || b == 0x8a || b == 0xa0 || b == 0xa2 || b == 0xa4 ||
             b == 0xa6 || b == 0xaa || b == 0xac || b == 0xae || b == 0xc0 ||
             b == 0xc6 || b == 0xd0 || b == 0xd2 || b == 0xf6 || b == 0xfe) then 1
    else size
  }

  function TwoByteLength(b: Byte, reg: nat, size: nat): nat {
    if (b == 0x01 && reg == 7) || (b == 0xb0 || b == 0xb6 || b == 0xbe) then 1
    else if b == 0xb7 || b == 0xbf || (b == 0x01 && reg == 6) then 2
    else if b == 0xc7 then 8
    else size
  }

  /** Immediate bytes of the one-byte map. */
  function OneByteImmediate(b: Byte, reg: nat, size: nat): nat {
    var z := if size == 2 then 2 else 4;
    if (b == 0x04 || b == 0x0c || b == 0x14 || b == 0x1c || b == 0x24 || b == 0x3c || b == 0x6a ||
        0x70 <= b <= 0x7f || 0xb0 <= b <= 0xb7 || 0xc0 <= b <= 0xc1 || b == 0xc6 ||
        b == 0xcd || 0xe4 <= b <= 0xe7 || b == 0xeb) then 1
    else if (b == 0x05 || b == 0x0d || b == 0x15 || b == 0x1d || b == 0x25 || b == 0x3d ||
             0xb8 <= b <= 0xbf || b == 0xc7 || b == 0xe9) then z
    else if b == 0x68 || b == 0xe8 then 4
    else if b == 0x9a || b == 0xea then z + 2
    else if (b == 0x80 || 0x82 <= b <= 0x83) || (b == 0xf6 && reg == 0) then 1
    else if b == 0x81 || (b == 0xf7 && reg == 0) then z
    else 0
  }

  function TwoByteImmediate(b: Byte, reg: nat, size: nat): nat {
    if (0x80 <= b <= 0x8f) then (if size == 2 then 2 else 4)
    else if b == 0xa4 || b == 0xac || b == 0xba then 1
    else 0
  }

  /** Opcodes followed by a ModRM byte. */
  predicate HasModRM(two: bool, b: Byte) {
    if two then
      (b == 0x01 || b == 0x0d || b == 0x18 || 0x20 <= b <= 0x23 || 0x40 <= b <= 0x4f ||
       0xa3 <= b <= 0xa5 || 0xab <= b <= 0xae || 0xb0 <= b <= 0xb1 || b == 0xb3 ||
       0xb6 <= b <= 0xb7 || 0xba <= b <= 0xbb || 0xbe <= b <= 0xbf || b == 0xc3 || b == 0xc7)
    else
      (0x00 <= b <= 0x03 || 0x08 <= b <= 0x0b || 0x10 <= b <= 0x13 || 0x18 <= b <= 0x1b ||
       0x20 <= b <= 0x23 || 0x28 <= b <= 0x2b || 0x30 <= b <= 0x33 || 0x38 <= b <= 0x3b ||
       b == 0x63 || 0x80 <= b <= 0x8f || 0xc0 <= b <= 0xc1 || 0xc6 <= b <= 0xc7 ||
       0xd0 <= b <= 0xd3 || 0xf6 <= b <= 0xf7 || 0xfe <= b <= 0xff)
  }

  // ---- By flag word ------------------------------------------------------------------------------

  function FlagsReport(d: Flags, invlpg: bool, isReg: bool): Report {
    if d == ZERO then Unknown
    else if d.known || d.dst == ImplicitOps then Nothing
    else if d.stack && d.push then Push
    else if d.stack && d.pop then Nothing
    else if ((d.src == SrcMem && !invlpg) || d.src == SrcMem16 || d.src == SrcMem32) && !(d.modRM && isReg) then Load
    else if d.src == SrcSI then Load
    else if (d.dst == DstMem || d.dst == DstMem64) && !(d.modRM && isReg) then (if d.readOnly then Load else Store)
    else if d.dst == DstDI then (if d.readOnly then Load else Store)
    else Nothing
  }

  function FlagsLength(d: Flags, size: nat): nat {
    if d.stack && d.push then (if d.src == SrcImmByte then 1 else if d.src == SrcImm then 4 else 8)
    else if d.dst == DstMem64 then 8
    else if d.src == SrcMem16 then 2
    else if d.src == SrcMem32 then 4
    else if d.byteOp then 1
    else if d.stack then 8
    else size
  }

  predicate IsReported(r: Report) {
    r == Load || r == Store || r == Push
  }

  /** What the flag word says is what the opcode numbers say: the report, the lengths and the immediates. */
  predicate OneByteReports(d: Flags, b: Byte, isReg: bool, reg: nat) {
    FlagsReport(d, false, isReg) == OneByteReport(b, isReg, reg)
  }

  predicate OneByteMeasures(d: Flags, b: Byte, isReg: bool, reg: nat, size: nat) {
    IsReported(FlagsReport(d, false, isReg)) ==> FlagsLength(d, size) == OneByteLength(b, reg, size)
  }

  predicate OneByteConsumes(d: Flags, b: Byte, reg: nat, size: nat) {
    d != ZERO ==> ImmediateBytes(d, if d.stack then 8 else size) == OneByteImmediate(b, reg, size)
  }

  /** ModRM, absolute addresses, string operands and bit strings. */
  predicate OneByteAddresses(d: Flags, b: Byte) {
    d != ZERO ==>
      && (d.modRM <==> HasModRM(false, b)) && (d.memAbs <==> 0xa0 <= b <= 0xa3) && !d.bitOp
      && (d.src == SrcSI || d.dst == DstDI <==> 0x6c <= b <= 0x6f || 0xa4 <= b <= 0xa7 || 0xaa <= b <= 0xaf)
  }

  predicate TwoByteReports(d: Flags, b: Byte, isReg: bool, reg: nat, rexR: bool) {
    FlagsReport(d, b == 0x01 && reg == 7 && !rexR, isReg) == TwoByteReport(b, isReg, reg, rexR)
  }

  predicate TwoByteMeasures(d: Flags, b: Byte, isReg: bool, reg: nat, rexR: bool, size: nat) {
    IsReported(FlagsReport(d, b == 0x01 && reg == 7 && !rexR, isReg)) ==> FlagsLength(d, size) == TwoByteLength(b, reg, size)
  }

  predicate TwoByteConsumes(d: Flags, b: Byte, reg: nat, size: nat) {
    d != ZERO ==> ImmediateBytes(d, if d.stack then 8 else size) == TwoByteImmediate(b, reg, size)
  }

  predicate TwoByteAddresses(d: Flags, b: Byte) {
    d != ZERO ==>
      && (d.modRM <==> HasModRM(true, b)) && !d.memAbs && d.src != SrcSI && d.dst != DstDI
      && (d.bitOp <==> b == 0xa3 || b == 0xab || b == 0xb3 || b == 0xbb)
  }

  lemma FirstRowsReports(b: Byte, isReg: bool, reg: nat)
    requires b < 0x20
    ensures OneByteReports(ArithmeticRow(b), b, isReg, reg)
  {
  }

  lemma FirstRowsMeasures(b: Byte, isReg: bool, reg: nat, size: nat)
    requires b < 0x20
    ensures OneByteMeasures(ArithmeticRow(b), b, isReg, reg, size)
  {
  }

  lemma FirstRowsConsumes(b: Byte, reg: nat, size: nat)
    requires b < 0x20 && (size == 2 || size == 4 || size == 8)
    ensures OneByteConsumes(ArithmeticRow(b), b, reg, size)
  {
  }

  lemma FirstRowsAddresses(b: Byte)
    requires b < 0x20
    ensures OneByteAddresses(ArithmeticRow(b), b)
  {
  }

  lemma NextRowsReports(b: Byte, isReg: bool, reg: nat)
    requires 0x20 <= b < 0x40
    ensures OneByteReports(ArithmeticRow(b), b, isReg, reg)
  {
  }

  lemma NextRowsMeasures(b: Byte, isReg: bool, reg: nat, size: nat)
    requires 0x20 <= b < 0x40
    ensures OneByteMeasures(ArithmeticRow(b), b, isReg, reg, size)
  {
  }

  lemma NextRowsConsumes(b: Byte, reg: nat, size: nat)
    requires 0x20 <= b < 0x40 && (size == 2 || size == 4 || size == 8)
    ensures OneByteConsumes(ArithmeticRow(b), b, reg, size)
  {
  }

  lemma NextRowsAddresses(b: Byte)
    requires 0x20 <= b < 0x40
    ensures OneByteAddresses(ArithmeticRow(b), b)
  {
  }

  lemma SecondQuarterReports(b: Byte, isReg: bool, reg: nat)
    requires 0x40 <= b < 0x80
    ensures OneByteReports(SecondQuarter(b), b, isReg, reg)
  {
  }

  lemma SecondQuarterMeasures(b: Byte, isReg: bool, reg: nat, size: nat)
    requires 0x40 <= b < 0x80
    ensures OneByteMeasures(SecondQuarter(b), b, isReg, reg, size)
  {
  }

  lemma SecondQuarterConsumes(b: Byte, reg: nat, size: nat)
    requires 0x40 <= b < 0x80 && (size == 2 || size == 4 || size == 8)
    ensures OneByteConsumes(SecondQuarter(b), b, reg, size)
  {
  }

  lemma SecondQuarterAddresses(b: Byte)
    requires 0x40 <= b < 0x80
    ensures OneByteAddresses(SecondQuarter(b), b)
  {
  }

  lemma Row8And9Reports(b: Byte, isReg: bool, reg: nat)
    requires 0x80 <= b < 0xa0 && Row8And9(b).group.None?
    ensures OneByteReports(Row8And9(b), b, isReg, reg)
  {
  }

  lemma Row8And9Measures(b: Byte, isReg: bool, reg: nat, size: nat)
    requires 0x80 <= b < 0xa0 && Row8And9(b).group.None?
    ensures OneByteMeasures(Row8And9(b), b, isReg, reg, size)
  {
  }

  lemma Row8And9Consumes(b: Byte, reg: nat, size: nat)
    requires 0x80 <= b < 0xa0 && Row8And9(b).group.None? && (size == 2 || size == 4 || size == 8)
    ensures OneByteConsumes(Row8And9(b), b, reg, size)
  {
  }

  lemma Row8And9Addresses(b: Byte)
    requires 0x80 <= b < 0xa0 && Row8And9(b).group.None?
    ensures OneByteAddresses(Row8And9(b), b)
  {
  }

  lemma RowAAndBReports(b: Byte, isReg: bool, reg: nat)
    requires 0xa0 <= b < 0xc0
    ensures OneByteReports(RowAAndB(b), b, isReg, reg)
  {
  }

  lemma RowAAndBMeasures(b: Byte, isReg: bool, reg: nat, size: nat)
    requires 0xa0 <= b < 0xc0
    ensures OneByteMeasures(RowAAndB(b), b, isReg, reg, size)
  {
  }

  lemma RowAAndBConsumes(b: Byte, reg: nat, size: nat)
    requires 0xa0 <= b < 0xc0 && (size == 2 || size == 4 || size == 8)
    ensures OneByteConsumes(RowAAndB(b), b, reg, size)
  {
  }

  lemma RowAAndBAddresses(b: Byte)
    requires 0xa0 <= b < 0xc0
    ensures OneByteAddresses(RowAAndB(b), b)
  {
  }

  lemma RowCReports(b: Byte, isReg: bool, reg: nat)
    requires 0xc0 <= b < 0xd0
    ensures OneByteReports(FourthQuarter(b), b, isReg, reg)
  {
  }

  lemma RowDReports(b: Byte, isReg: bool, reg: nat)
    requires 0xd0 <= b < 0xe0
    ensures OneByteReports(FourthQuarter(b), b, isReg, reg)
  {
  }

  lemma RowCAndDMeasures(b: Byte, isReg: bool, reg: nat, size: nat)
    requires 0xc0 <= b < 0xe0
    ensures OneByteMeasures(FourthQuarter(b), b, isReg, reg, size)
  {
  }

  lemma RowCAndDConsumes(b: Byte, reg: nat, size: nat)
    requires 0xc0 <= b < 0xe0 && (size == 2 || size == 4 || size == 8)
    ensures OneByteConsumes(FourthQuarter(b), b, reg, size)
  {
  }

  lemma RowCAndDAddresses(b: Byte)
    requires 0xc0 <= b < 0xe0
    ensures OneByteAddresses(FourthQuarter(b), b)
  {
  }

  lemma RowEAndFReports(b: Byte, isReg: bool, reg: nat)
    requires 0xe0 <= b && FourthQuarter(b).group.None?
    ensures OneByteReports(FourthQuarter(b), b, isReg, reg)
  {
  }

  lemma RowEAndFMeasures(b: Byte, isReg: bool, reg: nat, size: nat)
    requires 0xe0 <= b && FourthQuarter(b).group.None?
    ensures OneByteMeasures(FourthQuarter(b), b, isReg, reg, size)
  {
  }

  lemma RowEAndFConsumes(b: Byte, reg: nat, size: nat)
    requires 0xe0 <= b && FourthQuarter(b).group.None? && (size == 2 || size == 4 || size == 8)
    ensures OneByteConsumes(FourthQuarter(b), b, reg, size)
  {
  }

  lemma RowEAndFAddresses(b: Byte)
    requires 0xe0 <= b && FourthQuarter(b).group.None?
    ensures OneByteAddresses(FourthQuarter(b), b)
  {
  }

  lemma LowTwoByteReports(b: Byte, isReg: bool, reg: nat, rexR: bool)
    requires b < 0xa0 && TwoByteLow(b).group.None?
    ensures TwoByteReports(TwoByteLow(b), b, isReg, reg, rexR)
  {
  }

  lemma LowTwoByteMeasures(b: Byte, isReg: bool, reg: nat, rexR: bool, size: nat)
    requires b < 0xa0 && TwoByteLow(b).group.None?
    ensures TwoByteMeasures(TwoByteLow(b), b, isReg, reg, rexR, size)
  {
  }

  lemma LowTwoByteConsumes(b: Byte, reg: nat, size: nat)
    requires b < 0xa0 && TwoByteLow(b).group.None? && (size == 2 || size == 4 || size == 8)
    ensures TwoByteConsumes(TwoByteLow(b), b, reg, size)
  {
  }

  lemma LowTwoByteAddresses(b: Byte)
    requires b < 0xa0 && TwoByteLow(b).group.None?
    ensures TwoByteAddresses(TwoByteLow(b), b)
  {
  }

  lemma HighTwoByteReports(b: Byte, isReg: bool, reg: nat, rexR: bool)
    requires b >= 0xa0 && TwoByteHigh(b).group.None?
    ensures TwoByteReports(TwoByteHigh(b), b, isReg, reg, rexR)
  {
  }

  lemma HighTwoByteMeasures(b: Byte, isReg: bool, reg: nat, rexR: bool, size: nat)
    requires b >= 0xa0 && TwoByteHigh(b).group.None?
    ensures TwoByteMeasures(TwoByteHigh(b), b, isReg, reg, rexR, size)
  {
  }

  lemma HighTwoByteConsumes(b: Byte, reg: nat, size: nat)
    requires b >= 0xa0 && TwoByteHigh(b).group.None? && (size == 2 || size == 4 || size == 8)
    ensures TwoByteConsumes(TwoByteHigh(b), b, reg, size)
  {
  }

  lemma HighTwoByteAddresses(b: Byte)
    requires b >= 0xa0 && TwoByteHigh(b).group.None?
    ensures TwoByteAddresses(TwoByteHigh(b), b)
  {
  }

  lemma OneByteColumns(b: Byte, isReg: bool, reg: nat, size: nat)
    requires OneByte(b).group.None? && (size == 2 || size == 4 || size == 8)
    ensures OneByteReports(OneByte(b), b, isReg, reg) && OneByteMeasures(OneByte(b), b, isReg, reg, size)
    ensures OneByteConsumes(OneByte(b), b, reg, size) && OneByteAddresses(OneByte(b), b)
  {
    if b < 0x20 {
      FirstRowsReports(b, isReg, reg); FirstRowsMeasures(b, isReg, reg, size); FirstRowsConsumes(b, reg, size); FirstRowsAddresses(b);
    } else if b < 0x40 {
      NextRowsReports(b, isReg, reg); NextRowsMeasures(b, isReg, reg, size); NextRowsConsumes(b, reg, size); NextRowsAddresses(b);
    } else if b < 0x80 {
      SecondQuarterReports(b, isReg, reg); SecondQuarterMeasures(b, isReg, reg, size); SecondQuarterConsumes(b, reg, size); SecondQuarterAddresses(b);
    } else if b < 0xa0 {
      Row8And9Reports(b, isReg, reg); Row8And9Measures(b, isReg, reg, size); Row8And9Consumes(b, reg, size); Row8And9Addresses(b);
    } else if b < 0xc0 {
      RowAAndBReports(b, isReg, reg); RowAAndBMeasures(b, isReg, reg, size); RowAAndBConsumes(b, reg, size); RowAAndBAddresses(b);
    } else if b < 0xe0 {
      if b < 0xd0 { RowCReports(b, isReg, reg); } else { RowDReports(b, isReg, reg); }
      RowCAndDMeasures(b, isReg, reg, size); RowCAndDConsumes(b, reg, size); RowCAndDAddresses(b);
    } else {
      RowEAndFReports(b, isReg, reg); RowEAndFMeasures(b, isReg, reg, size); RowEAndFConsumes(b, reg, size); RowEAndFAddresses(b);
    }
  }

  lemma TwoByteColumns(b: Byte, isReg: bool, reg: nat, rexR: bool, size: nat)
    requires TwoByte(b).group.None? && (size == 2 || size == 4 || size == 8)
    ensures TwoByteReports(TwoByte(b), b, isReg, reg, rexR) && TwoByteMeasures(TwoByte(b), b, isReg, reg, rexR, size)
    ensures TwoByteConsumes(TwoByte(b), b, reg, size) && TwoByteAddresses(TwoByte(b), b)
  {
    if b < 0xa0 {
      LowTwoByteReports(b, isReg, reg, rexR); LowTwoByteMeasures(b, isReg, reg, rexR, size); LowTwoByteConsumes(b, reg, size); LowTwoByteAddresses(b);
    } else {
      HighTwoByteReports(b, isReg, reg, rexR); HighTwoByteMeasures(b, isReg, reg, rexR, size); HighTwoByteConsumes(b, reg, size); HighTwoByteAddresses(b);
    }
  }

  /** The group that a one-byte opcode stands for. */
  lemma OneByteGroup(b: Byte)
    requires OneByte(b).group.Some?
    ensures 0x80 <= b <= 0x83 || b == 0x8f || 0xf6 <= b <= 0xf7 || 0xfe <= b
    ensures OneByte(b).group == Some(GroupRef(
              if b <= 0x83 then b - 0x80 else if b == 0x8f then 4 else if b <= 0xf7 then b - 0xf1 else b - 0xf7, false))
  {
    if b < 0x40 { NoGroupBelow40(b); }
    else if b < 0x80 { NoGroupBelow80(b); }
    else if 0xa0 <= b < 0xc0 { NoGroupAB(b); }
    else if 0xc0 <= b { LastGroups(b); }
  }

  lemma NoGroupBelow40(b: Byte)
    requires b < 0x40
    ensures ArithmeticRow(b).group.None?
  {
  }

  lemma NoGroupBelow80(b: Byte)
    requires 0x40 <= b < 0x80
    ensures SecondQuarter(b).group.None?
  {
  }

  lemma NoGroupAB(b: Byte)
    requires 0xa0 <= b < 0xc0
    ensures RowAAndB(b).group.None?
  {
  }

  lemma LastGroups(b: Byte)
    requires 0xc0 <= b && FourthQuarter(b).group.Some?
    ensures 0xf6 <= b <= 0xf7 || 0xfe <= b
    ensures FourthQuarter(b).group == Some(GroupRef(if b <= 0xf7 then b - 0xf1 else b - 0xf7, false))
  {
  }

  lemma TwoByteGroup(b: Byte)
    requires TwoByte(b).group.Some?
    ensures b == 0x01 || b == 0xba || b == 0xc7
    ensures TwoByte(b).group == Some(GroupRef(if b == 0x01 then 9 else if b == 0xba then 10 else 11, b != 0xba))
  {
  }

  lemma OneByteGroupColumns(b: Byte, isReg: bool, reg: nat, size: nat)
    requires OneByte(b).group.Some? && (size == 2 || size == 4 || size == 8)
    ensures var d := GroupEntry(OneByte(b).group.value.number, reg);
            OneByteReports(d, b, isReg, reg) && OneByteMeasures(d, b, isReg, reg, size) && OneByteConsumes(d, b, reg, size) && OneByteAddresses(d, b)
  {
    OneByteGroup(b);
    if b <= 0x83 {
      ImmediateGroupReports(b, isReg, reg); ImmediateGroupMeasures(b, isReg, reg, size); ImmediateGroupConsumes(b, reg, size); ImmediateGroupAddresses(b, reg);
    } else if b == 0x8f {
      PopGroup(isReg, reg, size);
    } else if b <= 0xf7 {
      UnaryGroupReports(b, isReg, reg); UnaryGroupMeasures(b, isReg, reg, size); UnaryGroupConsumes(b, reg, size); UnaryGroupAddresses(b, reg);
    } else if b == 0xfe {
      ByteStepGroup(isReg, reg, size);
    } else {
      IndirectGroupReports(b, isReg, reg); IndirectGroupMeasures(b, isReg, reg, size); IndirectGroupConsumes(b, reg, size); IndirectGroupAddresses(b, reg);
    }
  }

  lemma ImmediateGroupReports(b: Byte, isReg: bool, reg: nat)
    requires 0x80 <= b <= 0x83
    ensures OneByteReports(Group1(b - 0x80, reg), b, isReg, reg)
  {
  }

  lemma ImmediateGroupMeasures(b: Byte, isReg: bool, reg: nat, size: nat)
    requires 0x80 <= b <= 0x83
    ensures OneByteMeasures(Group1(b - 0x80, reg), b, isReg, reg, size)
  {
  }

  lemma ImmediateGroupConsumes(b: Byte, reg: nat, size: nat)
    requires 0x80 <= b <= 0x83 && (size == 2 || size == 4 || size == 8)
    ensures OneByteConsumes(Group1(b - 0x80, reg), b, reg, size)
  {
  }

  lemma ImmediateGroupAddresses(b: Byte, reg: nat)
    requires 0x80 <= b <= 0x83
    ensures OneByteAddresses(Group1(b - 0x80, reg), b)
  {
  }

  lemma PopGroup(isReg: bool, reg: nat, size: nat)
    requires size == 2 || size == 4 || size == 8
    ensures var d := GroupEntry(4, reg);
            OneByteReports(d, 0x8f, isReg, reg) && OneByteMeasures(d, 0x8f, isReg, reg, size) && OneByteConsumes(d, 0x8f, reg, size) && OneByteAddresses(d, 0x8f)
  {
  }

  lemma UnaryGroupReports(b: Byte, isReg: bool, reg: nat)
    requires 0xf6 <= b <= 0xf7
    ensures OneByteReports(Group3(b == 0xf6, reg), b, isReg, reg)
  {
  }

  lemma UnaryGroupMeasures(b: Byte, isReg: bool, reg: nat, size: nat)
    requires 0xf6 <= b <= 0xf7
    ensures OneByteMeasures(Group3(b == 0xf6, reg), b, isReg, reg, size)
  {
  }

  lemma UnaryGroupConsumes(b: Byte, reg: nat, size: nat)
    requires 0xf6 <= b <= 0xf7 && (size == 2 || size == 4 || size == 8)
    ensures OneByteConsumes(Group3(b == 0xf6, reg), b, reg, size)
  {
    if reg == 0 {
      assert Group3(true, reg) == Op(DstMem, SrcImm).WithModRM().Reading().Bytes();
      assert Group3(false, reg) == Op(DstMem, SrcImm).WithModRM().Reading();
    } else if reg == 2 || reg == 3 {
      assert Group3(b == 0xf6, reg).src == SrcNone && Group3(b == 0xf6, reg).src2 == Src2None;
    } else {
      assert Group3(b == 0xf6, reg) == ZERO;
    }
  }

  lemma UnaryGroupAddresses(b: Byte, reg: nat)
    requires 0xf6 <= b <= 0xf7
    ensures OneByteAddresses(Group3(b == 0xf6, reg), b)
  {
  }

  lemma ByteStepGroup(isReg: bool, reg: nat, size: nat)
    requires size == 2 || size == 4 || size == 8
    ensures var d := GroupEntry(7, reg);
            OneByteReports(d, 0xfe, isReg, reg) && OneByteMeasures(d, 0xfe, isReg, reg, size) && OneByteConsumes(d, 0xfe, reg, size) && OneByteAddresses(d, 0xfe)
  {
  }

  lemma IndirectGroupReports(b: Byte, isReg: bool, reg: nat)
    requires b == 0xff
    ensures OneByteReports(Group5(reg), b, isReg, reg)
  {
  }

  lemma IndirectGroupMeasures(b: Byte, isReg: bool, reg: nat, size: nat)
    requires b == 0xff
    ensures OneByteMeasures(Group5(reg), b, isReg, reg, size)
  {
  }

  lemma IndirectGroupConsumes(b: Byte, reg: nat, size: nat)
    requires b == 0xff && (size == 2 || size == 4 || size == 8)
    ensures OneByteConsumes(Group5(reg), b, reg, size)
  {
  }

  lemma IndirectGroupAddresses(b: Byte, reg: nat)
    requires b == 0xff
    ensures OneByteAddresses(Group5(reg), b)
  {
  }

  lemma TwoByteGroupColumns(b: Byte, modrm: Byte, rexR: bool, size: nat)
    requires TwoByte(b).group.Some? && (size == 2 || size == 4 || size == 8)
    ensures var d, isReg, reg := Resolve(TwoByte(b), modrm), modrm / 64 == 3, modrm / 8 % 8;
            && TwoByteReports(d, b, isReg, reg, rexR) && TwoByteMeasures(d, b, isReg, reg, rexR, size)
            && TwoByteConsumes(d, b, reg, size) && TwoByteAddresses(d, b)
  {
    TwoByteGroup(b);
    var isReg, reg := modrm / 64 == 3, modrm / 8 % 8;
    TwoByteGroupReports(b, isReg, reg, rexR);
    TwoByteGroupMeasures(b, isReg, reg, rexR, size);
    TwoByteGroupConsumes(b, isReg, reg, size);
  }

  function TwoByteGroupEntry(b: Byte, isReg: bool, reg: nat): Flags {
    if b == 0xba then GroupEntry(10, reg)
    else if b == 0x01 then (if isReg then Group2Entry(9, reg) else Group7(reg))
    else if isReg then Group2Entry(11, reg)
    else GroupEntry(11, reg)
  }

  lemma TwoByteGroupReports(b: Byte, isReg: bool, reg: nat, rexR: bool)
    requires (b == 0x01 || b == 0xba || b == 0xc7) && reg < 8
    ensures TwoByteReports(TwoByteGroupEntry(b, isReg, reg), b, isReg, reg, rexR)
  {
  }

  lemma TwoByteGroupMeasures(b: Byte, isReg: bool, reg: nat, rexR: bool, size: nat)
    requires (b == 0x01 || b == 0xba || b == 0xc7) && reg < 8
    ensures TwoByteMeasures(TwoByteGroupEntry(b, isReg, reg), b, isReg, reg, rexR, size)
  {
  }

  lemma TwoByteGroupConsumes(b: Byte, isReg: bool, reg: nat, size: nat)
    requires (b == 0x01 || b == 0xba || b == 0xc7) && reg < 8 && (size == 2 || size == 4 || size == 8)
    ensures TwoByteConsumes(TwoByteGroupEntry(b, isReg, reg), b, reg, size)
    ensures TwoByteAddresses(TwoByteGroupEntry(b, isReg, reg), b)
  {
  }

  // ---- From the bytes ----------------------------------------------------------------------------

  /** The report of an instruction, in terms of its flag word. */
  lemma ReportOfFlags(i: Insn)
    requires Consistent(i.op.d) && i.op.d != ZERO && i.rm.reg < 16 && (i.size == 2 || i.size == 4 || i.size == 8)
    requires i.op.d.stack ==> i.size == 8
    ensures var r, a := FlagsReport(i.op.d, i.IsInvlpg(), i.rm.mod == 3), i.Reported();
            && (a.length != 0 <==> IsReported(r))
            && (a.length != 0 ==> a.length == FlagsLength(i.op.d, i.size) && (a.isWrite <==> r != Load))
  {
  }

  /** The literal REX.R bit. */
  predicate HasRexR(prefixes: seq<Byte>) {
    prefixes != [] && 0x40 <= prefixes[|prefixes| - 1] <= 0x4f && prefixes[|prefixes| - 1] / 4 % 2 == 1
  }

  /** The opcode as written: 0F and its successor, or one byte; and the byte that follows it. */
  datatype Written = Written(two: bool, b: Byte, modrm: Byte)
  {
    predicate IsReg() { modrm >= 0xc0 }
    function Reg(): nat { modrm / 8 % 8 }

    function Report(rexR: bool): Report {
      if two then TwoByteReport(b, IsReg(), Reg(), rexR) else OneByteReport(b, IsReg(), Reg())
    }

    function Length(size: nat): nat {
      if two then TwoByteLength(b, Reg(), size) else OneByteLength(b, Reg(), size)
    }

    function Immediate(size: nat): nat {
      if two then TwoByteImmediate(b, Reg(), size) else OneByteImmediate(b, Reg(), size)
    }
  }

  function At(code: seq<Byte>, k: nat): Byte {
    if k < |code| then code[k] else 0
  }

  function WrittenAt(code: seq<Byte>, n: nat): Written {
    if At(code, n) == 0x0f then Written(true, At(code, n + 1), At(code, n + 2)) else Written(false, At(code, n), At(code, n + 1))
  }

  /** The entry that governs the instruction says what the opcode as written says. */
  ghost predicate Governs(o: Opcode, w: Written, rexR: bool, size: nat) {
    && o.twobyte == w.two && o.b == w.b
    && var r := FlagsReport(o.d, w.two && w.b == 0x01 && w.Reg() == 7 && !rexR, w.IsReg());
       && r == w.Report(rexR)
       && (IsReported(r) ==> FlagsLength(o.d, size) == w.Length(size))
       && (o.d != ZERO ==> ImmediateBytes(o.d, if o.d.stack then 8 else size) == w.Immediate(size))
       && (o.d != ZERO ==> if w.two then TwoByteAddresses(o.d, w.b) else OneByteAddresses(o.d, w.b))
  }

  lemma OpcodeGoverns(code: seq<Byte>, n: nat, rexR: bool, size: nat)
    requires ReadOpcode(code, n).Some? && (size == 2 || size == 4 || size == 8)
    ensures Governs(ReadOpcode(code, n).value, WrittenAt(code, n), rexR, size)
  {
    var w := WrittenAt(code, n);
    if w.two {
      ZeroAt0F();
      if TwoByte(w.b).group.None? { TwoByteColumns(w.b, w.IsReg(), w.Reg(), rexR, size); }
      else { TwoByteGroupColumns(w.b, w.modrm, rexR, size); }
    } else {
      if OneByte(w.b).group.None? { OneByteColumns(w.b, w.IsReg(), w.Reg(), size); }
      else { OneByteGroup(w.b); OneByteGroupColumns(w.b, w.IsReg(), w.Reg(), size); }
    }
  }

  lemma ZeroAt0F()
    ensures OneByte(0x0f) == ZERO
  {
  }

  /**
   The report, from the bytes: for every prefix sequence, opcode and ModRM byte, an instruction is
   recognised, reports nothing, a load, a store or a push, and with which length, as its opcode
   number says.
   */
  lemma ReportByOpcode(code: seq<Byte>, regs: Registers, ip: Word)
    requires !Decode(code, regs, ip).Truncated?
    ensures var prefixes := code[..PrefixCount(code)];
            var w := WrittenAt(code, PrefixCount(code));
            var rexR, size := HasRexR(prefixes), OperandSize(prefixes);
            && (Decode(code, regs, ip).Unrecognised? <==> w.Report(rexR) == Unknown)
            && (Decode(code, regs, ip).Done? ==>
                  var a := Decode(code, regs, ip).access;
                  && (a.length != 0 <==> IsReported(w.Report(rexR)))
                  && (a.length != 0 ==> a.length == w.Length(size) && (a.isWrite <==> w.Report(rexR) != Load)))
  {
    var n := PrefixCount(code);
    OpcodeGoverns(code, n, HasRexR(code[..n]), OperandSize(code[..n]));
    if Decode(code, regs, ip).Done? {
      var o, i := DoneParts(code, regs, ip);
      if o.d != KNOWN { ReportOfParts(code, o, i, regs, ip); }
    }
  }

  lemma ReportOfParts(code: seq<Byte>, o: Opcode, i: Insn, regs: Registers, ip: Word)
    requires ReadOpcode(code, PrefixCount(code)) == Some(o) && GoodOpcode(o) && o.d != ZERO && o.d != KNOWN
    requires ReadInsn(code, o, code[..PrefixCount(code)], regs, ip) == Some(i)
    requires i.rm.reg < 16 && (i.size == 2 || i.size == 4 || i.size == 8)
    requires o.next == PrefixCount(code) + (if o.twobyte then 2 else 1)
    ensures var prefixes := code[..PrefixCount(code)];
            var w := WrittenAt(code, PrefixCount(code));
            var rexR, size := HasRexR(prefixes), OperandSize(prefixes);
            && (i.Reported().length != 0 <==> IsReported(w.Report(rexR)))
            && (i.Reported().length != 0 ==>
                  i.Reported().length == w.Length(size) && (i.Reported().isWrite <==> w.Report(rexR) != Load))
  {
    var prefixes := code[..PrefixCount(code)];
    OpcodeGoverns(code, PrefixCount(code), HasRexR(prefixes), OperandSize(prefixes));
    SameReport(code, o, i, regs, ip);
    ReportOfFlags(i);
  }

  /** What the decoder knows of ModRM is what is written, as far as the report depends on it. */
  lemma SameReport(code: seq<Byte>, o: Opcode, i: Insn, regs: Registers, ip: Word)
    requires ReadOpcode(code, PrefixCount(code)) == Some(o) && GoodOpcode(o) && o.d != ZERO && o.d != KNOWN
    requires ReadInsn(code, o, code[..PrefixCount(code)], regs, ip) == Some(i)
    requires o.next == PrefixCount(code) + (if o.twobyte then 2 else 1)
    ensures var w := WrittenAt(code, PrefixCount(code));
            FlagsReport(i.op.d, i.IsInvlpg(), i.rm.mod == 3) ==
              FlagsReport(o.d, o.twobyte && o.b == 0x01 && w.Reg() == 7 && !HasRexR(code[..PrefixCount(code)]), w.IsReg())
  {
    var w, rexR := WrittenAt(code, PrefixCount(code)), HasRexR(code[..PrefixCount(code)]);
    SameFields(code, o, i, regs, ip);
    assert i.op.d == o.d;
    ReportDependsOn(o.d, i.IsInvlpg(), i.rm.mod == 3, w.IsReg());
  }

  lemma ReportDependsOn(d: Flags, invlpg: bool, isReg: bool, isReg': bool)
    requires d.modRM ==> isReg == isReg'
    ensures FlagsReport(d, invlpg, isReg) == FlagsReport(d, invlpg, isReg')
  {
  }

  lemma SameFields(code: seq<Byte>, o: Opcode, i: Insn, regs: Registers, ip: Word)
    requires ReadOpcode(code, PrefixCount(code)) == Some(o) && o.d != ZERO
    requires ReadInsn(code, o, code[..PrefixCount(code)], regs, ip) == Some(i)
    requires o.next == PrefixCount(code) + (if o.twobyte then 2 else 1)
    ensures var w := WrittenAt(code, PrefixCount(code));
            && (o.d.modRM ==> (i.rm.mod == 3 <==> w.IsReg()))
            && i.IsInvlpg() == (o.twobyte && o.b == 0x01 && w.Reg() == 7 && !HasRexR(code[..PrefixCount(code)]))
  {
    ModRMFields(code, o, i, code[..PrefixCount(code)], regs, ip);
    OpcodeGoverns(code, PrefixCount(code), false, 4);
    assert o.twobyte && o.b == 0x01 ==> HasModRM(true, o.b);
  }

  /** The fields of the ModRM byte, as far as the report depends on them. */
  lemma ModRMFields(code: seq<Byte>, o: Opcode, i: Insn, prefixes: seq<Byte>, regs: Registers, ip: Word)
    requires ReadInsn(code, o, prefixes, regs, ip) == Some(i)
    ensures o.d.modRM ==> i.rm.mod == At(code, o.next) / 64
    ensures o.d.modRM ==> i.rm.reg == At(code, o.next) / 8 % 8 + if HasRexR(prefixes) then 8 else 0
  {
  }

  // ---- How much is consumed ----------------------------------------------------------------------

  /** Bytes of ModRM, SIB and displacement; REX.B hides the displacement of the ip-relative form. */
  function FormLength(modrm: Byte, sib: Byte, rexB: bool): nat {
    if modrm >= 0xc0 then 1
    else
      (if modrm % 8 == 4 then 2 else 1)
      + (if modrm >= 0x80 then 4
         else if modrm >= 0x40 then 1
         else if modrm % 8 == 5 then (if rexB then 0 else 4)
         else if modrm % 8 == 4 && sib % 8 == 5 then 4
         else 0)
  }

  predicate HasRexB(prefixes: seq<Byte>) {
    prefixes != [] && 0x40 <= prefixes[|prefixes| - 1] <= 0x4f && prefixes[|prefixes| - 1] % 2 == 1
  }

  lemma FormConsumes(code: seq<Byte>, pos: nat, size: nat, rex: Byte, regs: Registers, ip: Word)
    requires DecodeModRM(code, pos, size, rex, regs, ip).Some?
    ensures DecodeModRM(code, pos, size, rex, regs, ip).value.next == pos + FormLength(At(code, pos), At(code, pos + 1), rex % 2 == 1)
  {
  }

  /** The bytes consumed, by opcode number: prefixes, opcode, address and immediates. */
  lemma ConsumedByOpcode(code: seq<Byte>, regs: Registers, ip: Word)
    requires Decode(code, regs, ip).Done?
    ensures var n := PrefixCount(code);
            var prefixes, w := code[..n], WrittenAt(code, n);
            var m := n + if w.two then 2 else 1;
            Decode(code, regs, ip).next ==
              m + (if HasModRM(w.two, w.b) then FormLength(At(code, m), At(code, m + 1), HasRexB(prefixes))
                   else if !w.two && 0xa0 <= w.b <= 0xa3 then AddressSize(prefixes)
                   else 0)
              + w.Immediate(OperandSize(prefixes))
  {
    var n := PrefixCount(code);
    var prefixes, w := code[..n], WrittenAt(code, n);
    OpcodeGoverns(code, n, HasRexR(prefixes), OperandSize(prefixes));
    var o, i := DoneParts(code, regs, ip);
    if o.d != KNOWN { AddressConsumes(code, o, i, prefixes, regs, ip); }
  }

  lemma AddressConsumes(code: seq<Byte>, o: Opcode, i: Insn, prefixes: seq<Byte>, regs: Registers, ip: Word)
    requires ReadInsn(code, o, prefixes, regs, ip) == Some(i)
    ensures i.size == (if o.d.stack then 8 else OperandSize(prefixes))
    ensures i.rm.next == o.next + if o.d.modRM then FormLength(At(code, o.next), At(code, o.next + 1), HasRexB(prefixes))
                                  else if o.d.memAbs then AddressSize(prefixes)
                                  else 0
  {
    if o.d.modRM { FormConsumes(code, o.next, AddressSize(prefixes), RexOf(prefixes), regs, ip); }
  }
}
