/** The analyzer on lines built from their parts: what it takes out of a line, and what it prints for a listing. */
module AnalyzerLines {
  import opened Words
  import opened Hex
  import opened Analyzer

  /** Sixteen lower-case hexadecimal digits. */
  predicate IsAddress(d: string) {
    |d| == 16 && forall i :: 0 <= i < 16 ==> ('0' <= d[i] <= '9' || 'a' <= d[i] <= 'f')
  }

  /** Characters a line ends with: newline, carriage return and their like. */
  predicate IsLineEnd(eol: string) {
    forall i :: 0 <= i < |eol| ==> eol[i] < ' '
  }

  /** Text that stripping leaves alone. */
  predicate EndsPrintable(s: string) {
    s != [] && ' ' <= s[|s| - 1] <= '~'
  }

  /** Line ends go, and nothing else. */
  lemma {:induction false} StripEnds(s: string, eol: string)
    requires EndsPrintable(s) && IsLineEnd(eol)
    ensures Strip(s + eol) == s
    decreases |eol|
  {
    if eol == [] {
      assert s + eol == s;
    } else {
      assert (s + eol)[..|s + eol| - 1] == s + eol[..|eol| - 1];
      StripEnds(s, eol[..|eol| - 1]);
    }
  }

  /** "<address> <name>...": the name is what stands between the brackets. */
  lemma HeaderOf(d: string, name: string, rest: string)
    requires IsAddress(d) && '>' !in name
    ensures HeaderName(d + " <" + name + ">" + rest) == Some(name)
  {
    var line := d + " <" + name + ">" + rest;
    assert line[..16] == d && line[16] == ' ' && line[17] == '<';
    assert line[18..18 + |name|] == name && line[18 + |name|] == '>';
    assert forall i :: 0 <= i < 16 ==> line[i] == d[i];
    assert forall j :: 18 <= j < 18 + |name| ==> line[j] == name[j - 18];
    IndexIs(line, '>', 18, 18 + |name|);
  }

  lemma {:induction false} IndexIs(s: string, c: char, from: nat, i: nat)
    requires from <= i < |s| && s[i] == c && forall j :: from <= j < i ==> s[j] != c
    ensures IndexOf(s, c, from) == i
  {
  }

  /** An address, 24 columns of anything, and the instruction: its text starts in column 40. */
  lemma InstructionFrom(d: string, middle: string, text: string)
    requires IsAddress(d) && |middle| == 24
    ensures InstructionOf(d + middle + text) == Some(Instruction(Value(d), text))
  {
    var line := d + middle + text;
    assert line[..16] == d;
    assert forall i :: 0 <= i < 16 ==> line[i] == d[i];
    assert line[40..] == text;
  }

  /** Without " <" after the address a line is no header. */
  lemma NoHeader(d: string, middle: string, text: string)
    requires IsAddress(d) && |middle| == 24 && (middle[0] != ' ' || middle[1] != '<')
    ensures HeaderName(d + middle + text) == None
  {
    var line := d + middle + text;
    assert line[16] == middle[0] && line[17] == middle[1];
  }

  // ---- Mnemonics, operands and names ---------------------------------------------------------------

  lemma StartsWith(pat: string, rest: string)
    ensures At(pat + rest, pat, 0)
  {
  }

  /** The first operand in brackets decides, by the register names in it. */
  lemma OperandInBrackets(before: string, inner: string, rest: string)
    requires '(' !in before && ')' !in inner
    ensures FirstOperand(before + "(" + inner + ")" + rest) == Some("(" + inner)
    ensures OffStack(before + "(" + inner + ")" + rest) <==> !Contains(inner, "sp") && !Contains(inner, "bp")
  {
    var text := before + "(" + inner + ")" + rest;
    var p, q := |before|, |before| + 1 + |inner|;
    assert text[p] == '(' && text[q] == ')' && forall j :: 0 <= j < p ==> text[j] == before[j];
    assert forall j :: p < j < q ==> text[j] == inner[j - p - 1];
    IndexIs(text, '(', 0, p);
    IndexIs(text, ')', p, q);
    assert text[p..q] == "(" + inner;
    AfterBracket(inner, "sp");
    AfterBracket(inner, "bp");
  }

  lemma AfterBracket(inner: string, pat: string)
    requires |pat| > 0 && pat[0] != '('
    ensures Contains("(" + inner, pat) <==> Contains(inner, pat)
  {
    if i: nat :| At("(" + inner, pat, i) {
      assert ("(" + inner)[i..i + |pat|][0] == pat[0];
      assert inner[i - 1..i - 1 + |pat|] == ("(" + inner)[i..i + |pat|];
      assert At(inner, pat, i - 1);
    }
    if i: nat :| At(inner, pat, i) {
      assert ("(" + inner)[i + 1..i + 1 + |pat|] == inner[i..i + |pat|];
      assert At("(" + inner, pat, i + 1);
    }
  }

  /** The mnemonics that count, by name. */
  lemma Mnemonics(text: string)
    ensures HasMnemonic(text, MEMORY_ACCESS) <==>
      || At(text, "mov", 0) || At(text, "add", 0) || At(text, "adc", 0) || At(text, "sub", 0) || At(text, "sbb", 0)
      || At(text, "mul", 0) || At(text, "div", 0) || At(text, "inc", 0) || At(text, "dec", 0) || At(text, "and", 0)
      || At(text, "or", 0) || At(text, "xor", 0) || At(text, "not", 0) || At(text, "neg", 0) || At(text, "sh", 0)
      || At(text, "ro", 0) || At(text, "cmp", 0) || At(text, "test", 0)
  {
    var m := MEMORY_ACCESS;
    assert |m| == 18;
    assert m[0] == "mov" && m[1] == "add" && m[2] == "adc" && m[3] == "sub" && m[4] == "sbb" && m[5] == "mul";
    assert m[6] == "div" && m[7] == "inc" && m[8] == "dec" && m[9] == "and" && m[10] == "or" && m[11] == "xor";
    assert m[12] == "not" && m[13] == "neg" && m[14] == "sh" && m[15] == "ro" && m[16] == "cmp" && m[17] == "test";
  }

  /** The functions that are left out, by name. */
  lemma ExcludedNames(name: string, matches: string -> bool)
    ensures Passes(name, matches) <==>
      && matches(name) && name != "get_page"
      && !Contains(name, "copy_from_user") && !Contains(name, "copy_to_user") && !Contains(name, "might_fault")
      && !Contains(name, "sched") && !Contains(name, "sys_select")
  {
    var d := DANGEROUS;
    assert |d| == 5 && d[0] == "copy_from_user" && d[1] == "copy_to_user" && d[2] == "might_fault";
    assert d[3] == "sched" && d[4] == "sys_select";
    assert FREQUENT == ["get_page"];
  }

  // ---- A listing -----------------------------------------------------------------------------------

  /** One line of a function's listing: address, machine code columns, text, line end. */
  datatype Row = Row(address: string, middle: string, text: string, eol: string)
  {
    predicate WellFormed() {
      && IsAddress(address) && |middle| == 24 && (middle[0] != ' ' || middle[1] != '<')
      && EndsPrintable(text) && IsLineEnd(eol)
    }

    function Line(): string { address + middle + text + eol }

    /** What the analyzer prints for it. */
    function Print(): string { address + ": " + text + "\n" }

    ghost predicate IsSelected(mnemonics: seq<string>) {
      HasMnemonic(text, mnemonics) && OffStack(text)
    }
  }

  ghost function Prints(rows: seq<Row>, n: nat, mnemonics: seq<string>): seq<string>
    requires n <= |rows|
  {
    if n == 0 then []
    else Prints(rows, n - 1, mnemonics) + if rows[n - 1].IsSelected(mnemonics) then [rows[n - 1].Print()] else []
  }

  /** What the line of a row is after stripping. */
  lemma RowStripped(r: Row)
    requires r.WellFormed()
    ensures var line := Strip(r.Line());
            && line == r.address + r.middle + r.text && HeaderName(line) == None
            && InstructionOf(line) == Some(Instruction(Value(r.address), r.text))
            && Format(Instruction(Value(r.address), r.text)) == r.Print()
  {
    var body := r.address + r.middle + r.text;
    assert body[|body| - 1] == r.text[|r.text| - 1];
    StripEnds(body, r.eol);
    NoHeader(r.address, r.middle, r.text);
    InstructionFrom(r.address, r.middle, r.text);
    DigitsOfValue(r.address);
  }

  /** Row `i` stands after the header and the rows before it. */
  predicate IsRow(lines: seq<string>, rows: seq<Row>, i: nat) {
    i < |rows| && i + 1 < |lines| && rows[i].WellFormed() && lines[i + 1] == Strip(rows[i].Line())
  }

  /**
   The listing of one function that passes, after its header: the output is exactly the rows with a
   listed mnemonic and an operand off the stack, each as its own address digits, a colon and its text.
   */
  lemma {:induction false} ListingPrints(lines: seq<string>, rows: seq<Row>, n: nat, matches: string -> bool, mnemonics: seq<string>)
    requires n <= |rows| && |lines| == 1 + |rows|
    requires forall i: nat :: i < |rows| ==> IsRow(lines, rows, i)
    requires Begun(lines, 0, matches, mnemonics, [])
    ensures Begun(lines, n, matches, mnemonics, Prints(rows, n, mnemonics))
  {
    if n > 0 {
      ListingPrints(lines, rows, n - 1, matches, mnemonics);
      assert IsRow(lines, rows, n - 1);
      RowBegins(lines, n - 1, rows[n - 1], matches, mnemonics, Prints(rows, n - 1, mnemonics));
    }
  }

  /** After the header and `n` rows of a function that passes, `out` has been printed. */
  ghost predicate Begun(lines: seq<string>, n: nat, matches: string -> bool, mnemonics: seq<string>, out: seq<string>) {
    n < |lines| && Relevant(lines, n + 1, matches) && Filter(lines, n + 1, matches, mnemonics) == out
  }

  lemma RowBegins(lines: seq<string>, n: nat, r: Row, matches: string -> bool, mnemonics: seq<string>, out: seq<string>)
    requires n + 1 < |lines| && r.WellFormed() && lines[n + 1] == Strip(r.Line())
    requires Begun(lines, n, matches, mnemonics, out)
    ensures Begun(lines, n + 1, matches, mnemonics, out + if r.IsSelected(mnemonics) then [r.Print()] else [])
  {
    RowPrints(lines, n + 1, r, matches, mnemonics);
  }

  lemma HeaderPrints(lines: seq<string>, d: string, name: string, rest: string, eol: string,
                     matches: string -> bool, mnemonics: seq<string>)
    requires IsAddress(d) && '>' !in name && IsLineEnd(eol) && EndsPrintable(">" + rest) && Passes(name, matches)
    requires |lines| > 0 && lines[0] == Strip(d + " <" + name + ">" + rest + eol)
    ensures Relevant(lines, 1, matches) && Filter(lines, 1, matches, mnemonics) == []
    ensures Names(lines, 1, matches) == [name + "|"]
  {
    var header := d + " <" + name + ">" + rest;
    assert header[|header| - 1] == (">" + rest)[|rest|];
    StripEnds(header, eol);
    HeaderOf(d, name, rest);
    RelevantNext(lines, 0, matches);
    assert Filter(lines, 0, matches, mnemonics) == [] && Names(lines, 0, matches) == [];
  }

  lemma RowPrints(lines: seq<string>, n: nat, r: Row, matches: string -> bool, mnemonics: seq<string>)
    requires n < |lines| && r.WellFormed() && lines[n] == Strip(r.Line()) && Relevant(lines, n, matches)
    ensures Relevant(lines, n + 1, matches)
    ensures Filter(lines, n + 1, matches, mnemonics) ==
              Filter(lines, n, matches, mnemonics) + if r.IsSelected(mnemonics) then [r.Print()] else []
  {
    RowStripped(r);
    RelevantNext(lines, n, matches);
  }

  /** One instruction of such a function, listed mnemonic and operand off the stack: printed as it stands. */
  method ParseOne(parser: Parser, d: string, name: string, r: Row, matches: string -> bool,
                  mnemonics: seq<string>, mnemonic: string, between: string, inner: string, tail: string)
    returns (out: seq<string>)
    requires forall k :: 0 <= k < |mnemonics| ==> mnemonics[k] != []
    requires IsAddress(d) && '>' !in name && Passes(name, matches) && r.WellFormed()
    requires mnemonic in mnemonics && r.text == mnemonic + between + "(" + inner + ")" + tail
    requires '(' !in mnemonic + between && ')' !in inner && !Contains(inner, "sp") && !Contains(inner, "bp")
    modifies parser
    ensures out == [r.address + ": " + r.text + "\n"]
  {
    var input := [d + " <" + name + ">" + ":" + "\n", r.Line()];
    out := parser.Parse(input, Instructions, matches, mnemonics);
    RowIsSelected(r, mnemonics, mnemonic, between, inner, tail);
    OneRow(Stripped(input), d, name, r, matches, mnemonics);
  }

  lemma OneRow(lines: seq<string>, d: string, name: string, r: Row, matches: string -> bool, mnemonics: seq<string>)
    requires IsAddress(d) && '>' !in name && Passes(name, matches) && r.WellFormed() && r.IsSelected(mnemonics)
    requires |lines| == 2 && lines[0] == Strip(d + " <" + name + ">" + ":" + "\n") && lines[1] == Strip(r.Line())
    ensures Filter(lines, 2, matches, mnemonics) == [r.Print()]
  {
    HeaderPrints(lines, d, name, ":", "\n", matches, mnemonics);
    RowBegins(lines, 0, r, matches, mnemonics, []);
  }

  lemma RowIsSelected(r: Row, mnemonics: seq<string>, mnemonic: string, between: string, inner: string, tail: string)
    requires mnemonic in mnemonics && r.text == mnemonic + between + "(" + inner + ")" + tail
    requires '(' !in mnemonic + between && ')' !in inner && !Contains(inner, "sp") && !Contains(inner, "bp")
    ensures r.IsSelected(mnemonics)
  {
    var k :| 0 <= k < |mnemonics| && mnemonics[k] == mnemonic;
    assert r.text == mnemonic + (between + "(" + inner + ")" + tail);
    StartsWith(mnemonic, between + "(" + inner + ")" + tail);
    OperandInBrackets(mnemonic + between, inner, tail);
  }
}
