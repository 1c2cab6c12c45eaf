/**
 * Hexadecimal numbers as the C library reads them, for strtoul and for `%x`: blanks, a sign, `0x`,
 * digits. Section 7.22.1.4 of ISO/IEC 9899:2011.
 */
module Numeral {
  import opened Wrappers
  import B = Bits
  import H = Hex

  /** White space of the C locale: blank, tab, line feed, vertical tab, form feed, carriage return. */
  predicate Space(c: char) {
    c == ' ' || 9 <= c as int <= 13
  }

  lemma SpaceIs(c: char)
    ensures Space(c) <==> c in [' ', '\t', '\n', '\U{0B}', '\U{0C}', '\r']
  {
  }

  predicate Sign(c: char) {
    c == '+' || c == '-'
  }

  function SkipSpace(s: string, p: nat): (q: nat)
    requires p <= |s|
    ensures p <= q <= |s| && (q < |s| ==> !Space(s[q])) && forall i :: p <= i < q ==> Space(s[i])
    decreases |s| - p
  {
    if p < |s| && Space(s[p]) then SkipSpace(s, p + 1) else p
  }

  function SkipSign(s: string, p: nat): (q: nat)
    requires p <= |s|
    ensures p <= q <= |s|
  {
    if p < |s| && Sign(s[p]) then p + 1 else p
  }

  predicate Marked(s: string, p: nat) {
    p + 1 < |s| && s[p] == '0' && (s[p + 1] == 'x' || s[p + 1] == 'X')
  }

  /** The prefix counts only in front of a digit. */
  function SkipPrefix(s: string, p: nat): (q: nat)
    requires p <= |s|
    ensures p <= q <= |s|
  {
    if Marked(s, p) && p + 2 < |s| && H.IsHex(s[p + 2]) then p + 2 else p
  }

  /** Where the run of hex digits from `p` on ends. */
  function RunEnd(s: string, p: nat): (q: nat)
    requires p <= |s|
    ensures p <= q <= |s| && H.AllHex(s[p..q]) && (q < |s| ==> !H.IsHex(s[q]))
    decreases |s| - p
  {
    if p < |s| && H.IsHex(s[p]) then
      var q := RunEnd(s, p + 1);
      assert s[p..q] == [s[p]] + s[p + 1..q];
      q
    else p
  }

  /** A number that was read: its sign, its magnitude, and where the text behind it begins. */
  datatype Num = Num(negative: bool, magnitude: nat, end: nat)

  /** Where the digits begin. */
  function DigitsAt(s: string, p: nat): (q: nat)
    requires p <= |s|
    ensures p <= q <= |s|
  {
    SkipPrefix(s, SkipSign(s, SkipSpace(s, p)))
  }

  /** The longest number at `p`, if one stands there. */
  function Read(s: string, p: nat): (r: Option<Num>)
    requires p <= |s|
    ensures r.Some? ==> p < r.value.end <= |s|
  {
    var sign, d := SkipSpace(s, p), DigitsAt(s, p);
    var e := RunEnd(s, d);
    if e == d then None else Some(Num(sign < |s| && s[sign] == '-', H.Value(s[d..e]), e))
  }

  /** A minus sign negates in the unsigned type. */
  function Unsigned(n: Num, modulus: nat): (v: nat)
    requires modulus > 0
    ensures v < modulus
  {
    if n.negative then (modulus - n.magnitude % modulus) % modulus else n.magnitude % modulus
  }

  lemma {:induction false} UnsignedIs(n: Num, modulus: nat)
    requires n.magnitude < modulus
    ensures Unsigned(n, modulus) ==
      if n.negative && n.magnitude > 0 then modulus - n.magnitude else n.magnitude
  {
    B.DivUnique(n.magnitude, modulus, 0, n.magnitude);
    if n.magnitude > 0 {
      B.DivUnique(modulus - n.magnitude, modulus, 0, modulus - n.magnitude);
    } else {
      B.DivUnique(modulus, modulus, 1, 0);
    }
  }

  // ----- which texts are numbers

  /** How a number is written: blanks, sign and prefix, each possibly empty. */
  datatype Form = Form(blanks: string, sign: string, prefix: string)

  predicate IsForm(f: Form) {
    && (forall i :: 0 <= i < |f.blanks| ==> Space(f.blanks[i]))
    && f.sign in {"", "+", "-"} && f.prefix in {"", "0x", "0X"}
  }

  function Spell(f: Form, digits: string): string {
    f.blanks + f.sign + f.prefix + digits
  }

  lemma {:induction false} SkipSpaceIs(s: string, p: nat, q: nat)
    requires p <= q <= |s| && (forall i :: p <= i < q ==> Space(s[i])) && (q < |s| ==> !Space(s[q]))
    ensures SkipSpace(s, p) == q
    decreases q - p
  {
    if p < q {
      SkipSpaceIs(s, p + 1, q);
    }
  }

  lemma {:induction false} RunIs(s: string, p: nat, q: nat)
    requires p <= q <= |s| && H.AllHex(s[p..q]) && (q < |s| ==> !H.IsHex(s[q]))
    ensures RunEnd(s, p) == q
    decreases q - p
  {
    if p < q {
      assert s[p] == s[p..q][0];
      assert s[p + 1..q] == s[p..q][1..];
      RunIs(s, p + 1, q);
    }
  }

  /** A run does not cross a character that is no digit. */
  lemma {:induction false} RunStops(s: string, p: nat, q: nat)
    requires p <= q < |s| && !H.IsHex(s[q])
    ensures RunEnd(s, p) <= q
    decreases q - p
  {
    if p < q && H.IsHex(s[p]) {
      RunStops(s, p + 1, q);
    }
  }

  lemma HexIsPlain(c: char)
    requires H.IsHex(c)
    ensures !Space(c) && !Sign(c) && c != 'x' && c != 'X'
  {
  }

  /** Digits that nothing stands before are read as they are. */
  lemma PlainRead(s: string, p: nat, q: nat)
    requires p < q <= |s| && H.AllHex(s[p..q]) && (q < |s| ==> !H.IsHex(s[q]) && s[q] != 'x' && s[q] != 'X')
    ensures Read(s, p) == Some(Num(false, H.Value(s[p..q]), q))
  {
    assert s[p] == s[p..q][0];
    HexIsPlain(s[p]);
    if p + 1 < q {
      assert s[p + 1] == s[p..q][1];
      HexIsPlain(s[p + 1]);
    }
    SkipSpaceIs(s, p, p);
    RunIs(s, p, q);
  }

  /** The digits begin at `d`, behind blanks to `b` and a sign to `g`. */
  predicate Laid(s: string, b: nat, g: nat, d: nat) {
    && b <= g <= d < |s| && H.IsHex(s[d]) && (d + 1 < |s| ==> s[d + 1] != 'x' && s[d + 1] != 'X')
    && (forall i :: 0 <= i < b ==> Space(s[i]))
    && (g == b || (g == b + 1 && Sign(s[b])))
    && (d == g || (d == g + 2 && Marked(s, g)))
  }

  lemma LaidIs(s: string, b: nat, g: nat, d: nat)
    requires Laid(s, b, g, d)
    ensures SkipSpace(s, 0) == b && SkipSign(s, b) == g && DigitsAt(s, 0) == d
    ensures b < |s| && (g == b ==> s[b] != '-')
  {
    HexIsPlain(s[d]);
    SkipSpaceIs(s, 0, b);
  }

  /** The parts of a spelling stand one after the other. */
  lemma {:induction false} SpellParts(f: Form, digits: string)
    requires IsForm(f) && digits != "" && H.AllHex(digits)
    ensures var s, b, g := Spell(f, digits), |f.blanks|, |f.blanks| + |f.sign|;
      && s[..b] == f.blanks && s[b..g] == f.sign && s[g..g + |f.prefix|] == f.prefix && s[g + |f.prefix|..] == digits
      && |s| == g + |f.prefix| + |digits|
  {
    hide IsForm, H.AllHex;
  }

  lemma {:induction false} SpellLaid(f: Form, digits: string)
    requires IsForm(f) && digits != "" && H.AllHex(digits)
    ensures var s, b, g := Spell(f, digits), |f.blanks|, |f.blanks| + |f.sign|;
      Laid(s, b, g, g + |f.prefix|) && (f.sign != "" ==> s[b] == f.sign[0])
  {
    var s, b, g := Spell(f, digits), |f.blanks|, |f.blanks| + |f.sign|;
    var d := g + |f.prefix|;
    SpellParts(f, digits);
    hide Spell, H.IsHex;
    assert s[d] == s[d..][0];
    assert |digits| > 1 ==> s[d + 1] == s[d..][1];
    forall i | 0 <= i < |digits|
      ensures digits[i] != 'x' && digits[i] != 'X'
    {
      HexIsPlain(digits[i]);
    }
    assert forall i :: 0 <= i < b ==> s[i] == s[..b][i];
    assert f.sign != "" ==> s[b] == s[b..g][0];
    assert f.prefix != "" ==> s[g] == s[g..d][0] && s[g + 1] == s[g..d][1];
  }

  /** Every spelling is read to its end. */
  lemma SpellReads(f: Form, digits: string)
    requires IsForm(f) && digits != "" && H.AllHex(digits)
    ensures Read(Spell(f, digits), 0) == Some(Num(f.sign == "-", H.Value(digits), |Spell(f, digits)|))
  {
    hide Spell, Laid, H.AllHex, H.Value;
    var s, b, g := Spell(f, digits), |f.blanks|, |f.blanks| + |f.sign|;
    SpellParts(f, digits);
    SpellLaid(f, digits);
    ReadLaid(s, b, g, g + |f.prefix|);
    SignIs(f);
  }

  /** A text that is digits from `d` on is read to its end. */
  lemma ReadLaid(s: string, b: nat, g: nat, d: nat)
    requires Laid(s, b, g, d) && H.AllHex(s[d..])
    ensures Read(s, 0) == Some(Num(g > b && s[b] == '-', H.Value(s[d..]), |s|))
  {
    hide H.Value, SkipSpace, DigitsAt, RunEnd, Marked, Space;
    LaidIs(s, b, g, d);
    assert s[d..|s|] == s[d..];
    RunIs(s, d, |s|);
  }

  lemma SignIs(f: Form)
    requires IsForm(f)
    ensures f.sign == "" || f.sign == "+" || f.sign == "-"
  {
  }

  /** A spelling holds no character outside blanks, signs, the prefix and digits. */
  lemma SpellLacks(f: Form, digits: string, c: char)
    requires IsForm(f) && H.AllHex(digits) && !Space(c) && !Sign(c) && !H.IsHex(c) && c != 'x' && c != 'X'
    ensures forall i :: 0 <= i < |Spell(f, digits)| ==> Spell(f, digits)[i] != c
  {
    assert c !in f.blanks && c !in digits;
    assert c !in f.sign && c !in f.prefix;
    hide IsForm, H.AllHex;
    assert c !in f.blanks + f.sign;
    assert c !in f.blanks + f.sign + f.prefix;
    assert c !in Spell(f, digits);
  }

  /** The text is one number and nothing behind it. */
  predicate Whole(s: string) {
    var n := Read(s, 0);
    n.Some? && n.value.end == |s|
  }

  /** Whole numbers are the spellings, and nothing else. */
  lemma WholeIffSpelled(s: string)
    ensures Whole(s) <==> exists f, digits :: IsForm(f) && digits != "" && H.AllHex(digits) && s == Spell(f, digits)
  {
    if Whole(s) {
      WholeIsSpelled(s);
    }
    if exists f, digits :: IsForm(f) && digits != "" && H.AllHex(digits) && s == Spell(f, digits) {
      var f, digits :| IsForm(f) && digits != "" && H.AllHex(digits) && s == Spell(f, digits);
      SpellReads(f, digits);
    }
  }

  lemma Cut(s: string, b: nat, g: nat, d: nat)
    requires b <= g <= d <= |s|
    ensures s == s[..b] + s[b..g] + s[g..d] + s[d..] && s[d..|s|] == s[d..]
  {
    assert s[..b] + s[b..g] == s[..g];
    assert s[..g] + s[g..d] == s[..d];
  }

  /** The parts in front of the digits. */
  lemma {:induction false} PartsAreForm(s: string)
    ensures var b := SkipSpace(s, 0);
      var g := SkipSign(s, b);
      var d := DigitsAt(s, 0);
      b <= g <= d <= |s| && IsForm(Form(s[..b], s[b..g], s[g..d]))
  {
    var b := SkipSpace(s, 0);
    SignIsForm(s, b);
    PrefixIsForm(s, SkipSign(s, b));
    hide SkipSign, SkipPrefix;
  }

  lemma SignIsForm(s: string, b: nat)
    requires b <= |s|
    ensures s[b..SkipSign(s, b)] in {"", "+", "-"}
  {
    if SkipSign(s, b) > b {
      assert s[b..b + 1] == [s[b]];
    }
  }

  lemma PrefixIsForm(s: string, g: nat)
    requires g <= |s|
    ensures s[g..SkipPrefix(s, g)] in {"", "0x", "0X"}
  {
    if SkipPrefix(s, g) > g {
      assert s[g..g + 2] == [s[g], s[g + 1]];
    }
  }

  lemma WholeIsSpelled(s: string)
    requires Whole(s)
    ensures exists f, digits :: IsForm(f) && digits != "" && H.AllHex(digits) && s == Spell(f, digits)
  {
    var b := SkipSpace(s, 0);
    var g := SkipSign(s, b);
    var d := DigitsAt(s, 0);
    PartsAreForm(s);
    Cut(s, b, g, d);
    hide SkipSpace, SkipSign, DigitsAt, IsForm, H.AllHex, H.Value, RunEnd;
    assert s == Spell(Form(s[..b], s[b..g], s[g..d]), s[d..]);
  }
}
