/** Hexadecimal text: what printf's `%0wx` writes and what a run of hex digits reads back as. */
module Hex {

  predicate IsHex(c: char) {
    '0' <= c <= '9' || 'a' <= c <= 'f' || 'A' <= c <= 'F'
  }

  function DigitChar(d: nat): (c: char)
    requires d < 16
    ensures IsHex(c) && DigitValue(c) == d && Lower(c) == c
  {
    if d < 10 then (d + '0' as int) as char else (d - 10 + 'a' as int) as char
  }

  function DigitValue(c: char): (d: nat)
    requires IsHex(c)
    ensures d < 16
  {
    if c <= '9' then c as int - '0' as int
    else if c <= 'F' then c as int - 'A' as int + 10
    else c as int - 'a' as int + 10
  }

  /** A letter's lower-case form; every other character is unchanged. */
  function Lower(c: char): char {
    if 'A' <= c <= 'F' then (c as int + 32) as char else c
  }

  predicate AllHex(s: string) {
    forall i :: 0 <= i < |s| ==> IsHex(s[i])
  }

  function Pow16(w: nat): (p: nat)
    ensures p > 0
  {
    if w == 0 then 1 else 16 * Pow16(w - 1)
  }

  /** The text printf writes for `%0wx`: at least `w` digits, more when the number needs them. */
  function Print(n: nat, w: nat): (s: string)
    ensures AllHex(s)
    ensures n < Pow16(w) ==> |s| == w
    ensures |s| >= w
    decreases n, w
  {
    if n == 0 && w == 0 then "" else Print(n / 16, if w == 0 then 0 else w - 1) + [DigitChar(n % 16)]
  }

  /** The number a run of hex digits stands for. */
  function Value(s: string): nat
    requires AllHex(s)
  {
    if s == [] then 0 else 16 * Value(s[..|s| - 1]) + DigitValue(s[|s| - 1])
  }

  /** Reading back what was printed gives the number, whatever the padding. */
  lemma {:induction false} PrintThenRead(n: nat, w: nat)
    ensures Value(Print(n, w)) == n
    decreases n, w
  {
    if n != 0 || w != 0 {
      var v := if w == 0 then 0 else w - 1;
      PrintThenRead(n / 16, v);
      assert Print(n, w)[..|Print(n, w)| - 1] == Print(n / 16, v);
    }
  }

  function LowerAll(s: string): (t: string)
    ensures |t| == |s|
  {
    seq(|s|, i requires 0 <= i < |s| => Lower(s[i]))
  }

  /** Printing a number read from `|s|` digits gives those digits back in lower case. */
  lemma {:induction false} ReadThenPrint(s: string)
    requires AllHex(s)
    ensures Value(s) < Pow16(|s|)
    ensures Print(Value(s), |s|) == LowerAll(s)
  {
    if s != [] {
      var t, c := s[..|s| - 1], s[|s| - 1];
      ReadThenPrint(t);
      assert Value(s) / 16 == Value(t) && Value(s) % 16 == DigitValue(c);
      assert DigitChar(DigitValue(c)) == Lower(c);
      assert LowerAll(s) == LowerAll(t) + [Lower(c)];
    }
  }

  // ----- the digits

  const LOWER_DIGITS: string := "0123456789abcdef"
  const UPPER_DIGITS: string := "0123456789ABCDEF"

  /** One digit each way: the n-th character of either list stands for n, and the lower-case one is printed. */
  lemma DigitTable(n: nat)
    requires n < 16
    ensures Print(n, 1) == [LOWER_DIGITS[n]]
    ensures AllHex([LOWER_DIGITS[n]]) && Value([LOWER_DIGITS[n]]) == n
    ensures AllHex([UPPER_DIGITS[n]]) && Value([UPPER_DIGITS[n]]) == n
  {
    DigitsAre(n);
    OneDigit(LOWER_DIGITS[n]);
    OneDigit(UPPER_DIGITS[n]);
    PrintOne(n);
    hide Print, Value, AllHex, IsHex, DigitChar, DigitValue;
  }

  lemma DigitsAre(n: nat)
    requires n < 16
    ensures DigitChar(n) == LOWER_DIGITS[n] && IsHex(LOWER_DIGITS[n]) && IsHex(UPPER_DIGITS[n])
    ensures DigitValue(LOWER_DIGITS[n]) == n && DigitValue(UPPER_DIGITS[n]) == n
  {
  }

  lemma OneDigit(c: char)
    requires IsHex(c)
    ensures AllHex([c]) && Value([c]) == DigitValue(c)
  {
    assert [c][..0] == [];
  }

  lemma PrintOne(n: nat)
    requires n < 16
    ensures Print(n, 1) == [DigitChar(n)]
  {
    assert Print(0, 0) == "";
  }

  /** No other character is a hex digit. */
  lemma HexDigitsAre(c: char)
    ensures IsHex(c) <==> c in LOWER_DIGITS || c in UPPER_DIGITS
  {
    if IsHex(c) {
      var n := DigitValue(c);
      assert c == LOWER_DIGITS[n] || c == UPPER_DIGITS[n];
    }
  }

  /** Beyond the width asked for there is no leading zero. */
  lemma {:induction false} NoLeadingZero(n: nat, w: nat)
    requires |Print(n, w)| > w
    ensures Print(n, w)[0] != '0'
    decreases n, w
  {
    var v := if w == 0 then 0 else w - 1;
    if |Print(n / 16, v)| > v {
      NoLeadingZero(n / 16, v);
    }
  }
}
