/** Hexadecimal addresses: the digits printf writes and the values both programs read back. */
module Hex {
  import opened Words

  predicate IsLowerHex(c: char) {
    '0' <= c <= '9' || 'a' <= c <= 'f'
  }

  /** The value a loader digit adds: upper case counts too, anything else adds nothing. */
  function DigitValue(c: char): (v: nat)
    ensures v < 16
  {
    if '0' <= c <= '9' then c as int - '0' as int
    else if 'a' <= c <= 'f' then c as int - 'a' as int + 10
    else if 'A' <= c <= 'F' then c as int - 'A' as int + 10
    else 0
  }

  function Digit(v: nat): (c: char)
    requires v < 16
    ensures IsLowerHex(c) && DigitValue(c) == v
  {
    "0123456789abcdef"[v]
  }

  /** The digits, by name, in both cases. */
  lemma DigitTable(v: nat)
    requires v < 16
    ensures Digit(v) == ['0', '1', '2', '3', '4', '5', '6', '7', '8', '9', 'a', 'b', 'c', 'd', 'e', 'f'][v]
    ensures DigitValue(['0', '1', '2', '3', '4', '5', '6', '7', '8', '9', 'a', 'b', 'c', 'd', 'e', 'f'][v]) == v
    ensures DigitValue(['0', '1', '2', '3', '4', '5', '6', '7', '8', '9', 'A', 'B', 'C', 'D', 'E', 'F'][v]) == v
  {
  }

  function Power16(n: nat): nat {
    if n == 0 then 1 else 16 * Power16(n - 1)
  }

  /** The number a string of digits denotes, most significant first. */
  function Value(s: string): (v: nat)
    ensures v < Power16(|s|)
  {
    if s == [] then 0 else Value(s[..|s| - 1]) * 16 + DigitValue(s[|s| - 1])
  }

  /** `n` digits of `v`, as "%016lx" writes them for n = 16. */
  function Digits(v: nat, n: nat): (s: string)
    ensures |s| == n && forall i :: 0 <= i < n ==> IsLowerHex(s[i])
  {
    if n == 0 then [] else Digits(v / 16, n - 1) + [Digit(v % 16)]
  }

  lemma Sixteen()
    ensures Power16(16) == TWO64
  {
    assert Power16(4) == 0x1_0000;
    assert Power16(8) == 0x1_0000_0000;
    assert Power16(12) == 0x1_0000_0000_0000;
  }

  /** Reading back what was printed. */
  lemma {:induction false} ValueOfDigits(v: nat, n: nat)
    requires v < Power16(n)
    ensures Value(Digits(v, n)) == v
  {
    if n > 0 {
      ValueOfDigits(v / 16, n - 1);
      assert Digits(v, n)[..n - 1] == Digits(v / 16, n - 1);
    }
  }

  /** Printing what was read, for lower-case digits. */
  lemma {:induction false} DigitsOfValue(s: string)
    requires forall i :: 0 <= i < |s| ==> IsLowerHex(s[i])
    ensures Digits(Value(s), |s|) == s
  {
    if s != [] {
      var init, last := s[..|s| - 1], s[|s| - 1];
      DigitsOfValue(init);
      LowerDigit(last);
      LastDigit(Value(init), DigitValue(last));
      assert s == init + [last];
    }
  }

  lemma LastDigit(v: nat, d: nat)
    requires d < 16
    ensures (v * 16 + d) / 16 == v && (v * 16 + d) % 16 == d
  {
  }

  lemma LowerDigit(c: char)
    requires IsLowerHex(c)
    ensures Digit(DigitValue(c)) == c
  {
  }

  lemma {:induction false} PowerGrows(a: nat, b: nat)
    requires a <= b
    ensures Power16(a) <= Power16(b)
  {
    if a < b { PowerGrows(a, b - 1); }
  }

  lemma SixteenDigits(s: string)
    requires |s| <= 16
    ensures Value(s) < TWO64
  {
    PowerGrows(|s|, 16);
    Sixteen();
  }

  lemma ValueOfMore(s: string, c: char)
    ensures Value(s + [c]) == Value(s) * 16 + DigitValue(c)
  {
    assert (s + [c])[..|s|] == s;
  }

  lemma PlainWrap(x: nat)
    requires x < TWO64
    ensures Wrap(x) == x
  {
  }

  /** Within 16 digits `*= 16` does not wrap. */
  lemma ShiftInRange(s: string, c: char)
    requires |s| < 16
    ensures Wrap(Value(s) * 16) == Value(s) * 16
  {
    ValueOfMore(s, c);
    SixteenDigits(s + [c]);
    PlainWrap(Value(s) * 16);
  }

  /** Within 16 digits `+= digit` does not wrap. */
  lemma {:induction false} Accumulates(s: string, c: char)
    requires |s| < 16
    ensures Wrap(Value(s) * 16 + DigitValue(c)) == Value(s + [c])
  {
    ValueOfMore(s, c);
    SixteenDigits(s + [c]);
    PlainWrap(Value(s) * 16 + DigitValue(c));
  }
}
