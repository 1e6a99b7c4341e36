/** load of drddr/drddr-shell.c: reading the analyzer's output back into an address list. */
module Loader {
  import opened Words
  import opened Hex
  import opened Analyzer

  /** What fgets leaves in the buffer: the line and a NUL over the older contents. */
  function After(buf: seq<char>, line: string): (r: seq<char>)
    requires |line| < |buf|
    ensures |r| == |buf|
  {
    line + ['\0'] + buf[|line| + 1..]
  }

  /** The buffer after the first `n` lines. */
  function BufferAt(buf: seq<char>, lines: seq<string>, n: nat): (r: seq<char>)
    requires n <= |lines| && forall i :: 0 <= i < |lines| ==> |lines[i]| < |buf|
    ensures |r| == |buf|
  {
    if n == 0 then buf else After(BufferAt(buf, lines, n - 1), lines[n - 1])
  }

  class Shell {
    const buf: array<char>
    const address: array<Word>

    constructor (bufSize: nat, maxAddresses: nat)
      ensures fresh(buf) && fresh(address) && buf.Length == bufSize && address.Length == maxAddresses
    {
      buf := new char[bufSize](_ => '\0');
      address := new Word[maxAddresses](_ => 0);
    }

    method Gets(line: string)
      requires |line| < buf.Length
      modifies buf
      ensures buf[..] == After(old(buf[..]), line)
    {
      for i := 0 to |line|
        invariant forall j :: 0 <= j < buf.Length ==> buf[j] == if j < i then line[j] else old(buf[j])
      {
        buf[i] := line[i];
      }
      buf[|line|] := '\0';
    }

    /** The inner loop: 16 columns, whatever they hold, accumulated without overflow. */
    method ParseAddress() returns (v: Word)
      requires buf.Length >= 16
      ensures v == Value(buf[..16])
    {
      v := 0;
      for j := 0 to 16
        invariant v == Value(buf[..j])
      {
        ShiftInRange(buf[..j], buf[j]);
        Accumulates(buf[..j], buf[j]);
        assert buf[..j + 1] == buf[..j] + [buf[j]];
        v := Wrap(v * 16);
        if '0' <= buf[j] <= '9' {
          v := Wrap(v + (buf[j] as int - '0' as int));
        } else if 'a' <= buf[j] <= 'f' {
          v := Wrap(v + (buf[j] as int - 'a' as int + 10));
        } else if 'A' <= buf[j] <= 'F' {
          v := Wrap(v + (buf[j] as int - 'A' as int + 10));
        }
      }
    }

    /**
     load: address `k` is the value of the first 16 columns of the buffer as line `k` leaves it,
     so a line shorter than that is completed by what older lines left behind.
     */
    method Load(lines: seq<string>) returns (count: nat)
      requires buf.Length >= 16 && |lines| <= address.Length
      requires forall i :: 0 <= i < |lines| ==> |lines[i]| < buf.Length
      modifies buf, address
      ensures count == |lines|
      ensures forall k :: 0 <= k < |lines| ==> address[k] == Value(BufferAt(old(buf[..]), lines, k + 1)[..16])
      ensures forall k :: 0 <= k < |lines| && |lines[k]| >= 16 ==> address[k] == Value(lines[k][..16])
    {
      ghost var start := buf[..];
      for i := 0 to |lines|
        invariant buf[..] == BufferAt(start, lines, i)
        invariant forall k :: 0 <= k < i ==> address[k] == Value(BufferAt(start, lines, k + 1)[..16])
      {
        Gets(lines[i]);
        var v := ParseAddress();
        assert buf[..16] == buf[..][..16];
        address[i] := v;
      }
      forall k | 0 <= k < |lines| && |lines[k]| >= 16 ensures BufferAt(start, lines, k + 1)[..16] == lines[k][..16] {
        LongLine(BufferAt(start, lines, k), lines[k]);
      }
      return |lines|;
    }
  }

  lemma LongLine(buf: seq<char>, line: string)
    requires 16 <= |line| < |buf|
    ensures After(buf, line)[..16] == line[..16]
  {
  }

  /** What the loader reads of a short line: the line, a NUL, and what older lines left after it. */
  lemma ShortLine(buf: seq<char>, line: string)
    requires |line| < 16 <= |buf|
    ensures After(buf, line)[..16] == line + ['\0'] + buf[|line| + 1..16]
  {
  }

  // ---- Across the two programs -----------------------------------------------------------------

  /** The loader reads back the address the analyzer printed, for every 64-bit address. */
  lemma PrintedAddress(insn: Instruction)
    requires insn.address < TWO64
    ensures |Format(insn)| >= 16 && Value(Format(insn)[..16]) == insn.address
  {
    Sixteen();
    ValueOfDigits(insn.address, 16);
    assert Format(insn)[..16] == Digits(insn.address, 16);
  }

  /** On any line that starts with an address, the printed digits are the line's own. */
  lemma PrintedDigits(line: string)
    requires StartsWithAddress(line)
    ensures InstructionOf(line).Some? && Format(InstructionOf(line).value)[..16] == line[..16]
    ensures InstructionOf(line).value.address == Value(line[..16]) < TWO64
  {
    DigitsOfValue(line[..16]);
    SixteenDigits(line[..16]);
  }

  /** The addresses of the selected lines among the first `n`, in order. */
  ghost function Addresses(lines: seq<string>, n: nat, matches: string -> bool, mnemonics: seq<string>): seq<nat>
    requires n <= |lines|
  {
    if n == 0 then []
    else Addresses(lines, n - 1, matches, mnemonics)
         + (if Selected(lines, n - 1, matches, mnemonics) then [InstructionOf(lines[n - 1]).value.address] else [])
  }

  /** Every line of the analyzer's output starts with the address of the line it was selected from. */
  lemma {:induction false} OutputAddresses(lines: seq<string>, n: nat, matches: string -> bool, mnemonics: seq<string>, k: nat)
    requires n <= |lines| && k < |Filter(lines, n, matches, mnemonics)|
    ensures |Addresses(lines, n, matches, mnemonics)| == |Filter(lines, n, matches, mnemonics)|
    ensures var out := Filter(lines, n, matches, mnemonics)[k];
            |out| >= 16 && Value(out[..16]) == Addresses(lines, n, matches, mnemonics)[k]
  {
    SameCount(lines, n - 1, matches, mnemonics);
    if k < |Filter(lines, n - 1, matches, mnemonics)| {
      OutputAddresses(lines, n - 1, matches, mnemonics, k);
    } else {
      PrintedDigits(lines[n - 1]);
      PrintedAddress(InstructionOf(lines[n - 1]).value);
    }
  }

  lemma {:induction false} SameCount(lines: seq<string>, n: nat, matches: string -> bool, mnemonics: seq<string>)
    requires n <= |lines|
    ensures |Addresses(lines, n, matches, mnemonics)| == |Filter(lines, n, matches, mnemonics)|
  {
    if n > 0 { SameCount(lines, n - 1, matches, mnemonics); }
  }

  /** Analyzer and loader together: the loaded list is exactly the addresses of the selected lines. */
  method AnalyzeAndLoad(parser: Parser, shell: Shell, input: seq<string>, matches: string -> bool) returns (count: nat)
    requires shell.buf.Length >= 16
    requires var out := Filter(Stripped(input), |input|, matches, MEMORY_ACCESS);
             |out| <= shell.address.Length && forall i :: 0 <= i < |out| ==> |out[i]| < shell.buf.Length
    modifies parser, shell.buf, shell.address
    ensures var list := Addresses(Stripped(input), |input|, matches, MEMORY_ACCESS);
            count == |list| <= shell.address.Length && forall k :: 0 <= k < count ==> shell.address[k] == list[k]
  {
    var out := parser.Parse(input, Instructions, matches, MEMORY_ACCESS);
    count := shell.Load(out);
    SameCount(Stripped(input), |input|, matches, MEMORY_ACCESS);
    forall k | 0 <= k < |out|
      ensures |out[k]| >= 16 && Value(out[k][..16]) == Addresses(Stripped(input), |input|, matches, MEMORY_ACCESS)[k]
    {
      OutputAddresses(Stripped(input), |input|, matches, MEMORY_ACCESS, k);
    }
  }
}
