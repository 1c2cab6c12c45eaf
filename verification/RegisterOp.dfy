/**
 * Register operations of setub (setub/setub.c:82-195) and the number parsing they use
 * (lib/common.c:59-105): `<position>.(B|W|L)[=<value>]`.
 */
module RegisterOp {
  import opened Wrappers
  import H = Hex
  import N = Numeral

  const TWO64: nat := 0x1_0000_0000_0000_0000
  const TWO32: nat := 0x1_0000_0000
  const MAX_POSITION: nat := 0x3_FFFF_FFFF
  const EINVAL: int := 22

  datatype Op = Op(position: nat, width: nat, writeable: bool, value: nat)

  // ----- what a text means

  /** strrchr: the last place of a character. */
  function LastIndex(s: string, c: char): (r: Option<nat>)
    ensures r.Some? ==> r.value < |s| && s[r.value] == c
    ensures forall i :: (if r.None? then 0 else r.value + 1) <= i < |s| ==> s[i] != c
  {
    if s == "" then None
    else if s[|s| - 1] == c then Some(|s| - 1)
    else LastIndex(s[..|s| - 1], c)
  }

  /**
   * parse_x64 and parse_x32 returning 1: the whole text is one number, its magnitude has 64 bits, and
   * its value, after a minus sign the negated one, is below the limit.
   */
  function Number(s: string, limit: nat): (r: Option<nat>)
    ensures r.Some? ==> N.Whole(s) && r.value < limit && r.value < TWO64
  {
    if !N.Whole(s) then None
    else
      var n := N.Read(s, 0).value;
      var v := N.Unsigned(n, TWO64);
      if n.magnitude < TWO64 && v < limit then Some(v) else None
  }

  /** The width letter, in either case. */
  function WidthOf(s: string): (r: Option<nat>)
    ensures r.Some? ==> r.value in {1, 2, 4}
  {
    if |s| != 1 then None
    else if s[0] == 'B' || s[0] == 'b' then Some(1)
    else if s[0] == 'W' || s[0] == 'w' then Some(2)
    else if s[0] == 'L' || s[0] == 'l' then Some(4)
    else None
  }

  /** The largest value of each width; 256^width - 1. */
  function Range(width: nat): nat
    requires width in {1, 2, 4}
  {
    [0xFF, 0xFFFF, 0xFFFF_FFFF][width / 2]
  }

  /** The text before the `=`, and the text behind it. */
  function CutValue(s: string): (string, Option<string>) {
    match LastIndex(s, '=')
    case None => (s, None)
    case Some(k) => (s[..k], Some(s[k + 1..]))
  }

  function CutWidth(s: string): (string, Option<string>) {
    match LastIndex(s, '.')
    case None => (s, None)
    case Some(k) => (s[..k], Some(s[k + 1..]))
  }

  function ReadPosition(s: string): (r: Option<nat>)
    ensures r.Some? ==> r.value <= MAX_POSITION
  {
    match Number(s, TWO64)
    case None => None
    case Some(n) => if n > MAX_POSITION then None else Some(n)
  }

  /** A width that the position is aligned to: `position & (width - 1)` is zero. */
  function ReadWidth(s: Option<string>, position: nat): (r: Option<nat>)
    ensures r.Some? ==> r.value in {1, 2, 4} && position % r.value == 0
  {
    if s.None? then None
    else
      match WidthOf(s.value)
      case None => None
      case Some(w) => if position % w != 0 then None else Some(w)
  }

  function ReadValue(s: string, width: nat): (r: Option<nat>)
    requires width in {1, 2, 4}
    ensures r.Some? ==> r.value <= Range(width)
  {
    match Number(s, TWO32)
    case None => None
    case Some(n) => if n > Range(width) then None else Some(n)
  }

  /** parse_op */
  function Parse(s: string): Option<Op> {
    var (base, value) := CutValue(s);
    var (position, width) := CutWidth(base);
    match ReadPosition(position)
    case None => None
    case Some(p) =>
      match ReadWidth(width, p)
      case None => None
      case Some(w) =>
        if value.None? then Some(Op(p, w, false, 0))
        else
          match ReadValue(value.value, w)
          case None => None
          case Some(v) => Some(Op(p, w, true, v))
  }

  // ----- the parser in place

  /** The buffer holds the C string `s` at `p`. */
  ghost predicate CStringAt(buf: array<char>, p: nat, s: string)
    reads buf
  {
    p + |s| < buf.Length && buf[p..p + |s|] == s && buf[p + |s|] == '\0' && '\0' !in s
  }

  lemma CharOf(buf: array<char>, p: nat, s: string, n: nat)
    requires CStringAt(buf, p, s) && n <= |s|
    ensures (buf[p + n] == '\0' <==> n == |s|) && (n < |s| ==> buf[p + n] == s[n])
  {
    assert n < |s| ==> buf[p..p + |s|][n] == buf[p + n];
  }

  /** strrchr on the buffer. */
  method FindLast(buf: array<char>, p: nat, c: char, ghost s: string) returns (r: Option<nat>)
    requires CStringAt(buf, p, s) && c != '\0'
    ensures r == LastIndex(s, c)
  {
    r := None;
    var n := 0;
    CharOf(buf, p, s, n);
    while buf[p + n] != '\0'
      invariant n <= |s| && r == LastIndex(s[..n], c) && (buf[p + n] == '\0' <==> n == |s|)
      decreases |s| - n
    {
      CharOf(buf, p, s, n);
      assert s[..n + 1][..n] == s[..n];
      if buf[p + n] == c {
        r := Some(n);
      }
      n := n + 1;
      CharOf(buf, p, s, n);
    }
    assert s[..n] == s;
  }

  /** The characters of a C string. */
  method Take(buf: array<char>, p: nat, ghost s: string) returns (t: string)
    requires CStringAt(buf, p, s)
    ensures t == s
  {
    var n := 0;
    CharOf(buf, p, s, n);
    while buf[p + n] != '\0'
      invariant n <= |s| && (buf[p + n] == '\0' <==> n == |s|)
      decreases |s| - n
    {
      n := n + 1;
      CharOf(buf, p, s, n);
    }
    t := buf[p..p + n];
  }

  /** Cut the string at its `k`-th character: two C strings in one buffer. */
  method Cut(buf: array<char>, p: nat, k: nat, ghost s: string)
    requires CStringAt(buf, p, s) && k < |s|
    modifies buf
    ensures CStringAt(buf, p, s[..k]) && CStringAt(buf, p + k + 1, s[k + 1..])
    ensures forall i :: 0 <= i < buf.Length && i != p + k ==> buf[i] == old(buf[i])
  {
    buf[p + k] := '\0';
    assert buf[p..p + k] == s[..k];
    assert buf[p + k + 1..p + |s|] == s[k + 1..];
  }

  /** Both cuts of parse_op, and where the pieces behind them begin. */
  method Split(buf: array<char>, ghost s: string) returns (valueAt: Option<nat>, widthAt: Option<nat>)
    requires CStringAt(buf, 0, s)
    modifies buf
    ensures var (base, value) := CutValue(s);
      && (valueAt.Some? <==> value.Some?)
      && (valueAt.Some? ==> CStringAt(buf, valueAt.value, value.value))
      && var (position, width) := CutWidth(base);
      && CStringAt(buf, 0, position)
      && (widthAt.Some? <==> width.Some?)
      && (widthAt.Some? ==> CStringAt(buf, widthAt.value, width.value))
  {
    hide CStringAt, LastIndex;
    ghost var base := CutValue(s).0;
    valueAt := FindLast(buf, 0, '=', s);
    if valueAt.Some? {
      Cut(buf, 0, valueAt.value, s);
      valueAt := Some(valueAt.value + 1);
    }
    widthAt := FindLast(buf, 0, '.', base);
    if widthAt.Some? {
      ghost var was := buf[..];
      Cut(buf, 0, widthAt.value, base);
      if valueAt.Some? {
        Untouched(buf, was, widthAt.value, valueAt.value, CutValue(s).1.value);
      }
      widthAt := Some(widthAt.value + 1);
    }
  }

  /** A write before a C string leaves it alone. */
  lemma Untouched(buf: array<char>, was: seq<char>, k: nat, p: nat, s: string)
    requires |was| == buf.Length && k < p && p + |s| < |was|
    requires was[p..p + |s|] == s && was[p + |s|] == '\0' && '\0' !in s
    requires forall i :: 0 <= i < buf.Length && i != k ==> buf[i] == was[i]
    ensures CStringAt(buf, p, s)
  {
    assert buf[p..p + |s|] == was[p..p + |s|];
  }

  /** The option structure that the parsers fill. */
  class Options {
    var position: nat
    var width: nat
    var writeable: bool
    var value: nat

    constructor ()
    {
      position, width, writeable, value := 0, 0, false, 0;
    }

    /** parse_position */
    method ParsePosition(buf: array<char>, p: nat, ghost s: string) returns (ret: int)
      requires CStringAt(buf, p, s)
      modifies this`position
      ensures ret == if ReadPosition(s).Some? then 0 else -EINVAL
      ensures ret == 0 ==> position == ReadPosition(s).value
    {
      var text := Take(buf, p, s);
      var n := Number(text, TWO64);
      if n.None? || n.value > MAX_POSITION {
        return -EINVAL;
      }
      position := n.value;
      ret := 0;
    }

    /** parse_width */
    method ParseWidth(buf: array<char>, p: Option<nat>, ghost s: Option<string>) returns (ret: int)
      requires p.Some? <==> s.Some?
      requires p.Some? ==> CStringAt(buf, p.value, s.value)
      modifies this`width
      ensures ret == if ReadWidth(s, position).Some? then 0 else -EINVAL
      ensures ret == 0 ==> width == ReadWidth(s, position).value
    {
      if p.None? {
        return -EINVAL;
      }
      var text := Take(buf, p.value, s.value);
      if |text| != 1 {
        return -EINVAL;
      }
      match text[0] {
        case 'B' => width := 1;
        case 'b' => width := 1;
        case 'W' => width := 2;
        case 'w' => width := 2;
        case 'L' => width := 4;
        case 'l' => width := 4;
        case _ => return -EINVAL;
      }
      ret := if position % width != 0 then -EINVAL else 0;
    }

    /** parse_value */
    method ParseValue(buf: array<char>, p: nat, ghost s: string) returns (ret: int)
      requires CStringAt(buf, p, s) && width in {1, 2, 4}
      modifies this`value
      ensures ret == if ReadValue(s, width).Some? then 0 else -EINVAL
      ensures ret == 0 ==> value == ReadValue(s, width).value
    {
      var text := Take(buf, p, s);
      var n := Number(text, TWO32);
      if n.None? || n.value > [0xFF, 0xFFFF, 0xFFFF_FFFF][width / 2] {
        return -EINVAL;
      }
      value := n.value;
      ret := 0;
    }

    /** parse_op: cut the text at the last `=`, then at the last `.` before it, and read the three pieces. */
    method ParseOp(buf: array<char>, ghost s: string) returns (ret: int)
      requires CStringAt(buf, 0, s)
      modifies this, buf
      ensures ret == if Parse(s).Some? then 0 else -EINVAL
      ensures ret == 0 ==> Op(position, width, writeable, value) == Parse(s).value
    {
      ghost var base, valueText := CutValue(s).0, CutValue(s).1;
      ghost var positionText, widthText := CutWidth(base).0, CutWidth(base).1;
      var valueAt, widthAt := Split(buf, s);
      hide CutValue, CutWidth, CStringAt, ReadPosition, ReadWidth, ReadValue;
      writeable, value := valueAt.Some?, 0;
      ret := ParsePosition(buf, 0, positionText);
      if ret != 0 {
        return -EINVAL;
      }
      ret := ParseWidth(buf, widthAt, widthText);
      if ret != 0 {
        return -EINVAL;
      }
      if writeable {
        ret := ParseValue(buf, valueAt.value, valueText.value);
        if ret != 0 {
          return -EINVAL;
        }
      }
      ret := 0;
    }
  }

  // ----- what the parser guarantees

  function Pow256(w: nat): nat {
    if w == 0 then 1 else 256 * Pow256(w - 1)
  }

  /** An operation that stays inside the configuration space. */
  predicate Sound(op: Op) {
    && op.width in {1, 2, 4}
    && op.position % op.width == 0
    && op.value < Pow256(op.width)
    && op.position + op.width <= 0x4_0000_0000
    && (!op.writeable ==> op.value == 0)
  }

  lemma RangeIs(width: nat)
    requires width in {1, 2, 4}
    ensures Range(width) == Pow256(width) - 1
  {
    assert Pow256(2) == 65536;
    assert Pow256(4) == 256 * (256 * Pow256(2));
  }

  /** Every accepted operation is aligned, fits its width and lies inside the configuration space with all its bytes. */
  lemma {:induction false} AcceptedIsSound(s: string)
    requires Parse(s).Some?
    ensures Sound(Parse(s).value)
  {
    hide Number, CutValue, CutWidth, WidthOf, Range, Sound;
    var op := Parse(s).value;
    RangeIs(op.width);
    SoundIff(op);
  }

  /** Where the position is aligned, the last byte of the configuration space is the only bound. */
  lemma SoundIff(op: Op)
    requires op.width in {1, 2, 4}
    ensures Sound(op) <==>
      && op.position <= MAX_POSITION && op.position % op.width == 0
      && op.value < Pow256(op.width) && (!op.writeable ==> op.value == 0)
  {
    hide Pow256;
  }

  // ----- which texts are accepted

  predicate Lacks(s: string, c: char) {
    forall i :: 0 <= i < |s| ==> s[i] != c
  }

  /** The three pieces, put together. */
  function Join(p: string, w: string, v: Option<string>): string {
    p + "." + w + if v.Some? then "=" + v.value else ""
  }

  /** The letters of the three widths, upper or lower case. */
  predicate Letter(w: string, width: nat) {
    match width
    case 1 => w == "B" || w == "b"
    case 2 => w == "W" || w == "w"
    case 4 => w == "L" || w == "l"
    case _ => false
  }

  lemma LetterIff(w: string, width: nat)
    ensures WidthOf(w) == Some(width) <==> Letter(w, width)
  {
    assert |w| == 1 ==> w == [w[0]];
  }

  /** The pieces say the operation. */
  predicate Says(p: string, w: string, v: Option<string>, op: Op) {
    && Number(p, TWO64) == Some(op.position) && Letter(w, op.width)
    && op.writeable == v.Some?
    && (if v.Some? then Number(v.value, TWO32) == Some(op.value) else op.value == 0)
  }

  lemma {:induction false} LastIndexIs(s: string, c: char, k: nat)
    requires k < |s| && s[k] == c && forall i :: k < i < |s| ==> s[i] != c
    ensures LastIndex(s, c) == Some(k)
  {
  }

  lemma LastIndexNone(s: string, c: char)
    requires Lacks(s, c)
    ensures LastIndex(s, c) == None
  {
  }

  lemma {:induction false} CutsBefore(a: string, c: char, b: string)
    requires Lacks(b, c)
    ensures LastIndex(a + [c] + b, c) == Some(|a|)
    ensures (a + [c] + b)[..|a|] == a && (a + [c] + b)[|a| + 1..] == b
  {
    LastIndexIs(a + [c] + b, c, |a|);
  }

  /** A number holds no character outside blanks, signs, the prefix and digits. */
  lemma NumberLacks(s: string, c: char)
    requires N.Whole(s) && !N.Space(c) && !N.Sign(c) && !H.IsHex(c) && c != 'x' && c != 'X'
    ensures Lacks(s, c)
  {
    hide N.Whole, N.Space, N.Sign, H.IsHex;
    N.WholeIffSpelled(s);
    var f, digits :| N.IsForm(f) && digits != "" && H.AllHex(digits) && s == N.Spell(f, digits);
    N.SpellLacks(f, digits, c);
  }

  /** The cuts take a joined text apart again. */
  lemma JoinCuts(p: string, w: string, v: Option<string>)
    requires Lacks(p, '=') && Lacks(w, '=') && Lacks(w, '.') && (v.Some? ==> Lacks(v.value, '='))
    ensures CutValue(Join(p, w, v)) == (p + "." + w, v) && CutWidth(p + "." + w) == (p, Some(w))
  {
    hide LastIndex;
    var base := p + "." + w;
    CutsBefore(p, '.', w);
    assert p + ['.'] + w == base;
    if v.Some? {
      CutsBefore(base, '=', v.value);
      assert base + ['='] + v.value == Join(p, w, v);
    } else {
      assert Join(p, w, v) == base;
      LastIndexNone(base, '=');
    }
  }

  /** The cuts only take apart. */
  lemma CutsJoin(s: string)
    requires CutWidth(CutValue(s).0).1.Some?
    ensures s == Join(CutWidth(CutValue(s).0).0, CutWidth(CutValue(s).0).1.value, CutValue(s).1)
  {
    hide LastIndex;
    var base := CutValue(s).0;
    var k := LastIndex(base, '.').value;
    assert base == base[..k] + "." + base[k + 1..];
    if CutValue(s).1.Some? {
      var n := LastIndex(s, '=').value;
      assert s == s[..n] + "=" + s[n + 1..];
    }
  }

  lemma SaidPiecesLack(p: string, w: string, v: Option<string>, op: Op)
    requires Says(p, w, v, op)
    ensures Lacks(p, '=') && Lacks(w, '=') && Lacks(w, '.') && (v.Some? ==> Lacks(v.value, '='))
  {
    NumberLacks(p, '=');
    hide Number;
    if v.Some? {
      NumberLacks(v.value, '=');
    }
  }

  /** Joined pieces that say an operation are read as it exactly when it is sound. */
  lemma {:induction false} JoinParses(p: string, w: string, v: Option<string>, op: Op)
    requires Says(p, w, v, op)
    ensures Parse(Join(p, w, v)) == Some(op) <==> Sound(op)
  {
    hide Lacks, Join, CutValue, CutWidth, Number, LastIndex, Pow256, WidthOf, Letter, Range, Sound;
    SaidPiecesLack(p, w, v, op);
    JoinCuts(p, w, v);
    LetterIff(w, op.width);
    SomeWidth(w, op.width);
    RangeIs(op.width);
    SoundIff(op);
  }

  lemma SomeWidth(w: string, width: nat)
    requires Letter(w, width)
    ensures width in {1, 2, 4}
  {
  }

  /**
   * The texts accepted as an operation are a number, a full stop, a width letter and, for a write, an
   * equals sign and a number, that say the operation and make it sound; there are no others.
   */
  lemma {:induction false} AcceptedIff(s: string, op: Op)
    ensures Parse(s) == Some(op) <==> Sound(op) && exists p, w, v :: s == Join(p, w, v) && Says(p, w, v, op)
  {
    if Parse(s) == Some(op) {
      AcceptedIsSound(s);
      CutsJoin(s);
      var p, w, v := CutWidth(CutValue(s).0).0, CutWidth(CutValue(s).0).1.value, CutValue(s).1;
      LetterIff(w, op.width);
      assert Says(p, w, v, op);
    }
    if Sound(op) && exists p, w, v :: s == Join(p, w, v) && Says(p, w, v, op) {
      var p, w, v :| s == Join(p, w, v) && Says(p, w, v, op);
      JoinParses(p, w, v, op);
    }
  }

  // ----- writing an operation out

  function WidthText(width: nat, lower: bool): string {
    if width == 1 then (if lower then "b" else "B")
    else if width == 2 then (if lower then "w" else "W")
    else if lower then "l" else "L"
  }

  /**
   * An operation written with its numbers in the forms `f` and `g`; the documentation writes `0x` before a
   * position.
   */
  function Show(op: Op, lower: bool, f: N.Form, g: N.Form): string {
    Join(N.Spell(f, H.Print(op.position, 1)), WidthText(op.width, lower),
         if op.writeable then Some(N.Spell(g, H.Print(op.value, 1))) else None)
  }

  /** A number in any form reads back; after a minus sign it is negated. */
  lemma {:induction false} NumberReads(f: N.Form, n: nat, limit: nat)
    requires N.IsForm(f) && n < TWO64
    ensures var v := if f.sign == "-" && n > 0 then TWO64 - n else n;
      Number(N.Spell(f, H.Print(n, 1)), limit) == if v < limit then Some(v) else None
  {
    hide H.Print, H.Value, H.AllHex, N.Spell, N.Read, N.IsForm, N.Unsigned;
    var digits := H.Print(n, 1);
    H.PrintThenRead(n, 1);
    N.SpellReads(f, digits);
    N.UnsignedIs(N.Num(f.sign == "-", n, |N.Spell(f, digits)|), TWO64);
  }

  /**
   * Writing an operation out, its numbers without a minus sign, and reading the text gives it back exactly
   * when it is sound.
   */
  lemma ShowParses(op: Op, lower: bool, f: N.Form, g: N.Form)
    requires N.IsForm(f) && N.IsForm(g) && f.sign != "-" && g.sign != "-"
    ensures Sound(op) <==> Parse(Show(op, lower, f, g)) == Some(op)
  {
    if Sound(op) {
      ShowSays(op, lower, f, g);
      hide N.IsForm, Sound, Says, Parse, N.Spell, H.Print, WidthText;
      var v := if op.writeable then Some(N.Spell(g, H.Print(op.value, 1))) else None;
      JoinParses(N.Spell(f, H.Print(op.position, 1)), WidthText(op.width, lower), v, op);
    }
    if Parse(Show(op, lower, f, g)) == Some(op) {
      AcceptedIsSound(Show(op, lower, f, g));
    }
  }

  lemma ShowSays(op: Op, lower: bool, f: N.Form, g: N.Form)
    requires N.IsForm(f) && N.IsForm(g) && f.sign != "-" && g.sign != "-" && Sound(op)
    ensures Says(N.Spell(f, H.Print(op.position, 1)), WidthText(op.width, lower),
                 if op.writeable then Some(N.Spell(g, H.Print(op.value, 1))) else None, op)
  {
    hide N.IsForm, N.Spell, H.Print, Number, Pow256;
    RangeIs(op.width);
    assert op.value < TWO32;
    NumberReads(f, op.position, TWO64);
    NumberReads(g, op.value, TWO32);
  }

  /** The two examples of the manual page. */
  lemma Documented()
    ensures Parse("0x48.L") == Some(Op(0x48, 4, false, 0)) && Parse("0x48.L=1") == Some(Op(0x48, 4, true, 1))
  {
    var f, g := N.Form("", "", "0x"), N.Form("", "", "");
    var read, write := Op(0x48, 4, false, 0), Op(0x48, 4, true, 1);
    SoundExamples();
    ShownExamples();
    hide Sound, Parse, Show;
    ShowParses(read, false, f, g);
    ShowParses(write, false, f, g);
  }

  lemma SoundExamples()
    ensures Sound(Op(0x48, 4, false, 0)) && Sound(Op(0x48, 4, true, 1))
  {
    RangeIs(4);
  }

  lemma ShownExamples()
    ensures var f, g := N.Form("", "", "0x"), N.Form("", "", "");
      Show(Op(0x48, 4, false, 0), false, f, g) == "0x48.L" && Show(Op(0x48, 4, true, 1), false, f, g) == "0x48.L=1"
  {
    PrintedExamples();
    hide H.Print;
    var f, g := N.Form("", "", "0x"), N.Form("", "", "");
    assert N.Spell(f, "48") == "0x48" && N.Spell(g, "1") == "1";
  }

  lemma PrintedExamples()
    ensures H.Print(0x48, 1) == "48" && H.Print(1, 1) == "1" && H.Print(0, 1) == "0"
  {
    assert H.Print(0, 0) == "";
    assert H.Print(0x4, 0) == "4";
  }

  /** A minus sign is taken too: the position counts down from 2^64, so only large magnitudes are in range. */
  lemma NegativePosition(n: nat)
    requires 0 < n < 0x1_0000_0000_0000_0000
    ensures ReadPosition("-" + H.Print(n, 1)) ==
      if n >= 0xFFFF_FFFC_0000_0001 then Some(0x1_0000_0000_0000_0000 - n) else None
  {
    NumberReads(N.Form("", "-", ""), n, TWO64);
    hide Number, H.Print;
    assert N.Spell(N.Form("", "-", ""), H.Print(n, 1)) == "-" + H.Print(n, 1);
  }
}
