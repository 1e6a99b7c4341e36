/** parse of simple-analyzer/simple.cpp over the lines fgets delivers. */
module Analyzer {
  import opened Words
  import opened Hex

  // ---- The C string functions --------------------------------------------------------------

  /** `pat` occurs in `s` at `i`. */
  predicate At(s: string, pat: string, i: nat) {
    i + |pat| <= |s| && s[i..i + |pat|] == pat
  }

  ghost predicate Contains(s: string, pat: string) {
    exists i :: At(s, pat, i)
  }

  /** strstr from `from` on: the first occurrence, or |s| for NULL. */
  function Find(s: string, pat: string, from: nat): (i: nat)
    requires from <= |s| && pat != []
    ensures from <= i <= |s| && (i < |s| ==> At(s, pat, i))
    ensures forall j :: from <= j < i ==> !At(s, pat, j)
    decreases |s| - from
  {
    if from == |s| || At(s, pat, from) then from else Find(s, pat, from + 1)
  }

  /** strchr from `from` on: the first occurrence, or |s| for NULL. */
  function IndexOf(s: string, c: char, from: nat): (i: nat)
    requires from <= |s|
    ensures from <= i <= |s| && (i < |s| ==> s[i] == c) && forall j :: from <= j < i ==> s[j] != c
    decreases |s| - from
  {
    if from == |s| || s[from] == c then from else IndexOf(s, c, from + 1)
  }

  // ---- Lines ---------------------------------------------------------------------------------

  /** A char below ' '; plain char is signed, so the bytes from 0x80 up are below it too. */
  predicate Strippable(c: char) {
    c < ' ' || c as int >= 128
  }

  function Strip(line: string): (r: string)
    ensures r <= line && (r != [] ==> !Strippable(r[|r| - 1]))
    ensures forall i :: |r| <= i < |line| ==> Strippable(line[i])
  {
    if line != [] && Strippable(line[|line| - 1]) then Strip(line[..|line| - 1]) else line
  }

  predicate StartsWithAddress(line: string) {
    |line| >= 16 && forall i :: 0 <= i < 16 ==> IsLowerHex(line[i])
  }

  /** "<16 digits> <name>", anything after the closing bracket. */
  function HeaderName(line: string): Option<string> {
    if StartsWithAddress(line) && |line| >= 18 && line[16] == ' ' && line[17] == '<' && IndexOf(line, '>', 18) < |line|
    then Some(line[18..IndexOf(line, '>', 18)])
    else None
  }

  datatype Instruction = Instruction(address: nat, text: string)

  /** "<16 digits>..." with the disassembly from column 40 on. */
  function InstructionOf(line: string): Option<Instruction> {
    if StartsWithAddress(line)
    then Some(Instruction(Value(line[..16]), if |line| > 40 then line[40..] else []))
    else None
  }

  const DANGEROUS := ["copy_from_user", "copy_to_user", "might_fault", "sched", "sys_select"]
  const FREQUENT := ["get_page"]
  const MEMORY_ACCESS := ["mov", "add", "adc", "sub", "sbb", "mul", "div", "inc", "dec", "and", "or", "xor",
                          "not", "neg", "sh", "ro", "cmp", "test"]

  // ---- What is selected ------------------------------------------------------------------------

  /** The functions to analyse: `matches` stands for regexec. */
  ghost predicate Passes(name: string, matches: string -> bool) {
    && matches(name)
    && (forall k :: 0 <= k < |DANGEROUS| ==> !Contains(name, DANGEROUS[k]))
    && name !in FREQUENT
  }

  /** The nearest header before line `i` names a function to analyse. */
  ghost predicate Relevant(lines: seq<string>, i: nat, matches: string -> bool)
    requires i <= |lines|
  {
    exists j :: 0 <= j < i && HeaderName(lines[j]).Some? && Passes(HeaderName(lines[j]).value, matches)
      && forall k :: j < k < i ==> HeaderName(lines[k]).None?
  }

  ghost predicate HasMnemonic(text: string, mnemonics: seq<string>) {
    exists k :: 0 <= k < |mnemonics| && At(text, mnemonics[k], 0)
  }

  /** The first parenthesised operand: from '(' up to ')' or the end. */
  function FirstOperand(text: string): Option<string> {
    var p := IndexOf(text, '(', 0);
    if p == |text| then None else Some(text[p..IndexOf(text, ')', p)])
  }

  ghost predicate OffStack(text: string) {
    var operand := FirstOperand(text);
    operand.Some? && !Contains(operand.value, "sp") && !Contains(operand.value, "bp")
  }

  ghost predicate Selected(lines: seq<string>, i: nat, matches: string -> bool, mnemonics: seq<string>)
    requires i < |lines|
  {
    && HeaderName(lines[i]).None? && InstructionOf(lines[i]).Some? && Relevant(lines, i, matches)
    && HasMnemonic(InstructionOf(lines[i]).value.text, mnemonics) && OffStack(InstructionOf(lines[i]).value.text)
  }

  /** printf("%016lx: %s\n", address, text) */
  function Format(insn: Instruction): string {
    Digits(insn.address, 16) + ": " + insn.text + "\n"
  }

  /** The selected lines among the first `n`, in order, as they are printed. */
  ghost function Filter(lines: seq<string>, n: nat, matches: string -> bool, mnemonics: seq<string>): seq<string>
    requires n <= |lines|
  {
    if n == 0 then []
    else Filter(lines, n - 1, matches, mnemonics)
         + (if Selected(lines, n - 1, matches, mnemonics) then [Format(InstructionOf(lines[n - 1]).value)] else [])
  }

  /** option.work: print the selected instructions, or a pattern of the selected functions. */
  datatype Work = Instructions | Functions

  /** The functions to analyse among the first `n` lines, in order, as they are printed. */
  ghost function Names(lines: seq<string>, n: nat, matches: string -> bool): seq<string>
    requires n <= |lines|
  {
    if n == 0 then []
    else Names(lines, n - 1, matches)
         + (if HeaderName(lines[n - 1]).Some? && Passes(HeaderName(lines[n - 1]).value, matches)
            then [HeaderName(lines[n - 1]).value + "|"] else [])
  }

  // ---- The code ----------------------------------------------------------------------------------

  class Parser {
    var buf: string
    var name: string
    var address: Word
    var text: string

    constructor ()
    {
      buf, name, address, text := [], [], 0, [];
    }

    /** The loop that drops control characters from the end of buf. */
    method StripBuffer()
      modifies `buf
      ensures buf == Strip(old(buf))
    {
      while |buf| > 0 && Strippable(buf[|buf| - 1])
        invariant Strip(buf) == Strip(old(buf))
        decreases |buf|
      {
        buf := buf[..|buf| - 1];
      }
    }

    /** isFunction */
    method IsFunction() returns (r: bool)
      modifies `name
      ensures r == HeaderName(buf).Some? && (r ==> name == HeaderName(buf).value)
    {
      for i := 0 to 16
        invariant i <= |buf| && forall j :: 0 <= j < i ==> IsLowerHex(buf[j])
      {
        if i >= |buf| || !IsLowerHex(buf[i]) { return false; }
      }
      if |buf| <= 16 || buf[16] != ' ' { return false; }
      if |buf| <= 17 || buf[17] != '<' { return false; }
      var p := IndexOf(buf, '>', 18);
      if p == |buf| { return false; }
      name := buf[18..p];
      return true;
    }

    /** isInstruction: the digits accumulate modulo 2^64, and never wrap. */
    method IsInstruction() returns (r: bool)
      modifies `address, `text
      ensures r == InstructionOf(buf).Some? && (r ==> Instruction(address, text) == InstructionOf(buf).value)
    {
      address := 0;
      for i := 0 to 16
        invariant i <= |buf| && forall j :: 0 <= j < i ==> IsLowerHex(buf[j])
        invariant address == Value(buf[..i])
      {
        if i >= |buf| || !IsLowerHex(buf[i]) { return false; }
        ShiftInRange(buf[..i], buf[i]);
        Accumulates(buf[..i], buf[i]);
        assert buf[..i + 1] == buf[..i] + [buf[i]];
        address := Wrap(address * 16);
        if buf[i] <= '9' {
          address := Wrap(address + (buf[i] as int - '0' as int));
        } else {
          address := Wrap(address + (buf[i] as int - 'a' as int + 10));
        }
      }
      text := if |buf| > 40 then buf[40..] else [];
      return true;
    }

    /** The regular expression and the two exclusion lists. */
    method Accept(matches: string -> bool) returns (relevant: bool)
      ensures relevant == Passes(name, matches)
    {
      relevant := matches(name);
      var i := 0;
      while relevant && i < |DANGEROUS|
        invariant i <= |DANGEROUS|
        invariant relevant ==> matches(name) && forall k :: 0 <= k < i ==> !Contains(name, DANGEROUS[k])
        invariant !relevant ==> !Passes(name, matches)
        decreases relevant, |DANGEROUS| - i
      {
        if |name| > 0 && Find(name, DANGEROUS[i], 0) < |name| {
          assert At(name, DANGEROUS[i], Find(name, DANGEROUS[i], 0));
          relevant := false;
        } else {
          NotFound(name, DANGEROUS[i]);
        }
        i := i + 1;
      }
      i := 0;
      while relevant && i < |FREQUENT|
        invariant i <= |FREQUENT|
        invariant relevant ==> matches(name) && forall k :: 0 <= k < |DANGEROUS| ==> !Contains(name, DANGEROUS[k])
        invariant relevant ==> forall k :: 0 <= k < i ==> name != FREQUENT[k]
        invariant !relevant ==> !Passes(name, matches)
        decreases relevant, |FREQUENT| - i
      {
        if name == FREQUENT[i] { relevant := false; }
        i := i + 1;
      }
    }

    /** The body of the mnemonic loop: whether the instruction is printed. */
    method Printed(mnemonics: seq<string>) returns (r: bool)
      requires forall k :: 0 <= k < |mnemonics| ==> mnemonics[k] != []
      ensures r == (HasMnemonic(text, mnemonics) && OffStack(text))
    {
      for i := 0 to |mnemonics|
        invariant forall k :: 0 <= k < i ==> !At(text, mnemonics[k], 0)
      {
        if |text| > 0 && Find(text, mnemonics[i], 0) == 0 {
          var p := IndexOf(text, '(', 0);
          if p == |text| { return false; }
          var q := IndexOf(text, ')', p);
          var sp := Find(text, "sp", p);
          var bp := Find(text, "bp", p);
          OperandNames(text, p, q, "sp");
          OperandNames(text, p, q, "bp");
          return (sp == |text| || sp > q) && (bp == |text| || bp > q);
        }
      }
      return false;
    }

    /** One line of parse: the new value of `relevant`, and whether its name or its instruction is printed. */
    method ParseLine(line: string, work: Work, relevant: bool, matches: string -> bool, mnemonics: seq<string>)
      returns (next: bool, named: bool, printed: bool)
      requires forall k :: 0 <= k < |mnemonics| ==> mnemonics[k] != []
      modifies this
      ensures var header := HeaderName(Strip(line));
              next == if header.Some? then Passes(header.value, matches) else relevant
      ensures named <==> work.Functions? && HeaderName(Strip(line)).Some? && next
      ensures named ==> name == HeaderName(Strip(line)).value
      ensures printed ==> InstructionOf(Strip(line)) == Some(Instruction(address, text))
      ensures printed <==>
        && work.Instructions? && HeaderName(Strip(line)).None? && relevant && InstructionOf(Strip(line)).Some?
        && HasMnemonic(InstructionOf(Strip(line)).value.text, mnemonics)
        && OffStack(InstructionOf(Strip(line)).value.text)
    {
      buf := line;
      StripBuffer();
      var header := IsFunction();
      if header {
        next := Accept(matches);
        return next, next && work.Functions?, false;
      }
      if relevant {
        var insn := IsInstruction();
        if insn && work.Instructions? {
          printed := Printed(mnemonics);
          return relevant, false, printed;
        }
      }
      return relevant, false, false;
    }

    /** The body of the loop of parse, on line `i`: what it prints. */
    method EmitLine(line: string, work: Work, relevant: bool, matches: string -> bool, mnemonics: seq<string>,
                    ghost lines: seq<string>, ghost i: nat) returns (next: bool, pieces: seq<string>)
      requires forall k :: 0 <= k < |mnemonics| ==> mnemonics[k] != []
      requires i < |lines| && lines[i] == Strip(line) && relevant == Relevant(lines, i, matches)
      modifies this
      ensures next == Relevant(lines, i + 1, matches)
      ensures Body(lines, i + 1, work, matches, mnemonics) == Body(lines, i, work, matches, mnemonics) + pieces
    {
      var named, printed;
      RelevantNext(lines, i, matches);
      next, named, printed := ParseLine(line, work, relevant, matches, mnemonics);
      if named { return next, [name + "|"]; }
      if printed { return next, [Format(Instruction(address, text))]; }
      return next, [];
    }

    /** parse */
    method Parse(input: seq<string>, work: Work, matches: string -> bool, mnemonics: seq<string>) returns (out: seq<string>)
      requires forall k :: 0 <= k < |mnemonics| ==> mnemonics[k] != []
      modifies this
      ensures work.Instructions? ==> out == Filter(Stripped(input), |input|, matches, mnemonics)
      ensures work.Functions? ==> out == ["^("] + Names(Stripped(input), |input|, matches) + ["iMpoSSiBlE)$\n"]
    {
      ghost var lines := Stripped(input);
      var relevant := false;
      var body := [];
      for i := 0 to |input|
        invariant relevant == Relevant(lines, i, matches)
        invariant body == Body(lines, i, work, matches, mnemonics)
      {
        var pieces;
        relevant, pieces := EmitLine(input[i], work, relevant, matches, mnemonics, lines, i);
        body := body + pieces;
      }
      return if work.Functions? then ["^("] + body + ["iMpoSSiBlE)$\n"] else body;
    }
  }

  /** What is printed for the first `n` lines. */
  ghost function Body(lines: seq<string>, n: nat, work: Work, matches: string -> bool, mnemonics: seq<string>): seq<string>
    requires n <= |lines|
  {
    if work.Functions? then Names(lines, n, matches) else Filter(lines, n, matches, mnemonics)
  }

  function Stripped(input: seq<string>): (r: seq<string>)
    ensures |r| == |input| && forall i :: 0 <= i < |r| ==> r[i] == Strip(input[i])
  {
    seq(|input|, i requires 0 <= i < |input| => Strip(input[i]))
  }

  lemma NotFound(s: string, pat: string)
    requires pat != [] && Find(s, pat, 0) == |s|
    ensures !Contains(s, pat)
  {
  }

  /**
   The pointer comparisons of parse say that the operand between '(' and ')' does not contain
   the register name.
   */
  lemma OperandNames(text: string, p: nat, q: nat, pat: string)
    requires p <= |text| && q == IndexOf(text, ')', p) && (pat == "sp" || pat == "bp")
    ensures (Find(text, pat, p) == |text| || Find(text, pat, p) > q) <==> !Contains(text[p..q], pat)
  {
    var f := Find(text, pat, p);
    if f < |text| && f <= q { FoundInside(text, p, q, pat, f); }
    if Contains(text[p..q], pat) {
      var i: nat :| At(text[p..q], pat, i);
      FoundOutside(text, p, q, pat, i);
    }
  }

  /** An occurrence that starts before ')' ends before it. */
  lemma FoundInside(text: string, p: nat, q: nat, pat: string, f: nat)
    requires p <= f <= q <= |text| && At(text, pat, f) && (q < |text| ==> text[q] == ')')
    requires |pat| == 2 && pat[0] != ')' && pat[1] != ')'
    ensures Contains(text[p..q], pat)
  {
    assert text[f] == text[f..f + 2][0] && text[f + 1] == text[f..f + 2][1];
    var operand := text[p..q];
    assert operand[f - p..f - p + 2] == text[f..f + 2];
    assert At(operand, pat, f - p);
  }

  lemma FoundOutside(text: string, p: nat, q: nat, pat: string, i: nat)
    requires p <= q <= |text| && At(text[p..q], pat, i)
    ensures At(text, pat, p + i) && p + i + |pat| <= q
  {
    var inside, whole := text[p..q][i..i + |pat|], text[p + i..p + i + |pat|];
    assert forall k :: 0 <= k < |whole| ==> inside[k] == whole[k];
    assert inside == whole;
  }

  /** How a line changes what is relevant. */
  lemma RelevantNext(lines: seq<string>, i: nat, matches: string -> bool)
    requires i < |lines|
    ensures Relevant(lines, i + 1, matches) ==
      if HeaderName(lines[i]).Some? then Passes(HeaderName(lines[i]).value, matches) else Relevant(lines, i, matches)
  {
    if HeaderName(lines[i]).None? && Relevant(lines, i, matches) {
      var j :| 0 <= j < i && HeaderName(lines[j]).Some? && Passes(HeaderName(lines[j]).value, matches)
               && forall k :: j < k < i ==> HeaderName(lines[k]).None?;
      assert forall k :: j < k < i + 1 ==> HeaderName(lines[k]).None?;
    }
  }

  /** Reordering the mnemonics, or repeating one, changes nothing. */
  lemma {:induction false} MnemonicOrder(lines: seq<string>, n: nat, matches: string -> bool, a: seq<string>, b: seq<string>)
    requires n <= |lines| && forall m :: m in a <==> m in b
    ensures Filter(lines, n, matches, a) == Filter(lines, n, matches, b)
  {
    if n > 0 {
      MnemonicOrder(lines, n - 1, matches, a, b);
      if InstructionOf(lines[n - 1]).Some? {
        var text := InstructionOf(lines[n - 1]).value.text;
        if k :| 0 <= k < |a| && At(text, a[k], 0) { assert a[k] in b; }
        if k :| 0 <= k < |b| && At(text, b[k], 0) { assert b[k] in a; }
        assert HasMnemonic(text, a) == HasMnemonic(text, b);
      }
    }
  }
}
