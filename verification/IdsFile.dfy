/**
 * The ub.ids reader (lsub/ids.c:208-459): lines are cut and trimmed in place, and a context of ids
 * is carried from line to line.
 */
module IdsFile {
  import opened Wrappers
  import opened IdTable
  import H = Hex

  const SUB_CONFIG: u32 := 0xFF
  const PARSE_ERROR := "Parse error"

  /** What a line does to the context: name an entry that starts at `pos`, be skipped, or stop the reading. */
  datatype Step = Go(ids: Ids, pos: nat) | Skip(ids: Ids) | Fail(msg: string)

  predicate White(c: char) {
    c == ' ' || c == '\t'
  }

  /** Character `i` of a C string; its terminator at the end. */
  function At(s: string, i: nat): char {
    if i < |s| then s[i] else '\0'
  }

  // ----- lines

  function FindChar(text: string, c: char): (n: nat)
    ensures n <= |text| && (n < |text| ==> text[n] == c) && c !in text[..n]
  {
    if text == "" || text[0] == c then 0 else 1 + FindChar(text[1..], c)
  }

  /** fgets into a buffer of MAX_LINE characters. */
  function Gets(text: string): (chunk: string)
    ensures text != "" ==> 0 < |chunk|
    ensures |chunk| < MAX_LINE && chunk <= text
  {
    var n := FindChar(text, '\n');
    var want := if n < |text| then n + 1 else n;
    if want < MAX_LINE then text[..want] else text[..MAX_LINE - 1]
  }

  /** feof after that fgets: the text ran out before a line feed or a full buffer. */
  predicate AtEof(text: string) {
    FindChar(text, '\n') == |text| && |text| < MAX_LINE - 1
  }

  predicate Stops(c: char) {
    c == '\0' || c == '\n' || c == '\r'
  }

  /** Where the scan for the end of the line stops. */
  function StopAt(s: string): (n: nat)
    ensures n <= |s| && Stops(At(s, n)) && forall i :: 0 <= i < n ==> !Stops(s[i])
  {
    if s == "" || Stops(s[0]) then 0 else 1 + StopAt(s[1..])
  }

  lemma StopIsFirst(s: string, q: nat)
    requires q <= |s| && Stops(At(s, q)) && forall i :: 0 <= i < q ==> !Stops(s[i])
    ensures StopAt(s) == q
  {
    assert StopAt(s) < |s| ==> At(s, StopAt(s)) == s[StopAt(s)];
  }

  predicate TooLong(chunk: string, eof: bool) {
    At(chunk, StopAt(chunk)) == '\0' && !eof
  }

  /** One white character at the end is cut off, not more. */
  function Trim(s: string): (t: string)
    ensures t <= s
  {
    if s != "" && White(s[|s| - 1]) then s[..|s| - 1] else s
  }

  function Body(chunk: string): (s: string)
    ensures |s| <= |chunk| && '\0' !in s
  {
    Trim(chunk[..StopAt(chunk)])
  }

  /** The first position from `p` on that is not white. */
  function SkipWhite(s: string, p: nat): (q: nat)
    requires p <= |s|
    ensures p <= q <= |s| && !White(At(s, q)) && forall i :: p <= i < q ==> White(s[i])
    decreases |s| - p
  {
    if White(At(s, p)) then SkipWhite(s, p + 1) else p
  }

  function Tabs(s: string, p: nat): (q: nat)
    requires p <= |s|
    ensures p <= q <= |s| && At(s, q) != '\t' && forall i :: p <= i < q ==> s[i] == '\t'
    decreases |s| - p
  {
    if At(s, p) == '\t' then Tabs(s, p + 1) else p
  }

  predicate Ignored(s: string) {
    At(s, SkipWhite(s, 0)) == '\0' || At(s, SkipWhite(s, 0)) == '#'
  }

  // ----- ids

  /** id_hex: the value of `cnt` hex digits at `p`, or -1. */
  function HexAt(s: string, p: nat, cnt: nat): (x: int)
    ensures x >= 0 ==> p + cnt <= |s| && H.AllHex(s[p..p + cnt]) && x == H.Value(s[p..p + cnt]) && x < H.Pow16(cnt)
    ensures x < 0 ==> x == -1
  {
    if p + cnt <= |s| && H.AllHex(s[p..p + cnt]) then
      H.ReadThenPrint(s[p..p + cnt]);
      H.Value(s[p..p + cnt])
    else -1
  }

  lemma Pow16Small()
    ensures H.Pow16(2) == 0x100 && H.Pow16(4) == 0x1_0000
  {
    assert H.Pow16(2) == 16 * (16 * H.Pow16(0));
    assert H.Pow16(4) == 16 * (16 * H.Pow16(2));
  }

  /** The unsigned 32-bit value of a number that has at most four hex digits. */
  function ToId(x: int): u32
    requires 0 <= x < 0x1_0000
  {
    x as u32
  }

  /** The id at `p`, if `cnt` hex digits and a white character stand there. */
  function IdAt(s: string, p: nat, cnt: nat): (r: Option<u32>)
    requires cnt == 2 || cnt == 4
    ensures r.Some? ==> p + cnt < |s|
  {
    Pow16Small();
    var x := HexAt(s, p, cnt);
    if x < 0 || !White(At(s, p + cnt)) then None else Some(ToId(x))
  }

  /** "C xx " opens a class. */
  function ClassLine(ids: Ids, s: string): Step {
    match IdAt(s, 2, 2)
    case None => Fail(PARSE_ERROR)
    case Some(b) =>
      Go(ids.(cat := ID_CLASS, base := b, vendor := 0, device := 0, subsysVendor := 0, subsys := 0,
              sub := SUB_CONFIG), 5)
  }

  /** "S xxxx" opens the generic subsystems of a vendor already read. */
  function SubsystemLine(log: seq<Entry>, ids: Ids, s: string): Step {
    Pow16Small();
    var x := HexAt(s, 2, 4);
    if x < 0 || At(s, 6) != '\0' then Fail(PARSE_ERROR)
    else
      var look := ids.(cat := ID_VENDOR, vendor := ToId(x), device := 0, subsysVendor := 0, subsys := 0, base := 0);
      if Best(log, KeyOf(look)).None? then Fail("Vendor does not exist") else Skip(look.(cat := ID_GEN_SUBSYSTEM))
  }

  /** "xxxx " opens a vendor. */
  function VendorLine(ids: Ids, s: string): Step {
    match IdAt(s, 0, 4)
    case None => Fail(PARSE_ERROR)
    case Some(v) =>
      Go(ids.(cat := ID_VENDOR, base := 0, vendor := v, device := 0, subsysVendor := 0, subsys := 0,
              sub := SUB_CONFIG), 5)
  }

  /** ids_parse_top_level */
  function TopLevel(log: seq<Entry>, ids: Ids, s: string): Step {
    if At(s, 0) == 'C' && At(s, 1) == ' ' then ClassLine(ids, s)
    else if At(s, 0) == 'S' && At(s, 1) == ' ' then SubsystemLine(log, ids, s)
    else if 'A' <= At(s, 0) <= 'Z' && At(s, 1) == ' ' then Skip(ids.(cat := ID_UNKNOWN, base := 0))
    else VendorLine(ids, s)
  }

  /** ids_parse_nest_level1, behind one tab. */
  function Level1(ids: Ids, s: string): Step {
    if ids.cat in {ID_VENDOR, ID_DEVICE, ID_SUBSYSTEM, ID_GEN_SUBSYSTEM} then
      match IdAt(s, 1, 4)
      case None => Fail(PARSE_ERROR)
      case Some(d) =>
        var cat := if ids.cat == ID_GEN_SUBSYSTEM then ID_GEN_SUBSYSTEM else ID_DEVICE;
        Go(ids.(cat := cat, device := d, sub := SUB_CONFIG, subsysVendor := 0, subsys := 0, base := 0), 6)
    else if ids.cat == ID_CLASS then
      match IdAt(s, 1, 2)
      case None => Fail(PARSE_ERROR)
      case Some(b) => Go(ids.(sub := b, subsysVendor := 0, subsys := 0), 4)
    else if ids.cat == ID_SUBCLASS || ids.cat == ID_PROGIF then
      match IdAt(s, 1, 2)
      case None => Fail(PARSE_ERROR)
      case Some(d) => Go(ids.(cat := ID_SUBCLASS, device := d, subsysVendor := 0, subsys := 0), 4)
    else Fail(PARSE_ERROR)
  }

  /** ids_parse_nest_level2, behind two tabs; the second id of a pair overwrites the first. */
  function Level2(ids: Ids, s: string): Step {
    if ids.cat == ID_DEVICE || ids.cat == ID_SUBSYSTEM then
      match (IdAt(s, 2, 4), IdAt(s, 7, 4))
      case (Some(_), Some(x)) => Go(ids.(cat := ID_SUBSYSTEM, subsysVendor := x), 12)
      case _ => Fail(PARSE_ERROR)
    else if ids.cat == ID_CLASS || ids.cat == ID_SUBCLASS || ids.cat == ID_PROGIF then
      match IdAt(s, 2, 2)
      case None => Fail(PARSE_ERROR)
      case Some(x) => Go(ids.(cat := ID_PROGIF, subsysVendor := x, subsys := 0), 5)
    else Fail(PARSE_ERROR)
  }

  /** One line of the file, cut and trimmed to `s`. */
  function ReadLine(log: seq<Entry>, ids: Ids, s: string): (r: Step)
    ensures r.Go? ==> r.pos < |s| && r.ids.cat < 0x100
  {
    if Ignored(s) then Skip(ids)
    else
      var nest := Tabs(s, 0);
      var step :=
        if nest == 0 then TopLevel(log, ids, s)
        else if ids.cat == ID_UNKNOWN then Skip(ids)
        else if nest == 1 then Level1(ids, s)
        else if nest == 2 then Level2(ids, s)
        else Fail(PARSE_ERROR);
      match step
      case Go(ids', p) =>
        var q := SkipWhite(s, p);
        if At(s, q) == '\0' then Fail(PARSE_ERROR) else Go(ids', q)
      case _ => step
  }

  datatype Parsed = Parsed(log: seq<Entry>, err: Option<string>, lines: nat)

  const TOO_LONG := "Line too long"
  const REFUSED := "Duplicate item or memory application failed"

  /** The whole file: every entry named is inserted, and the first failure stops the reading. */
  ghost function ReadAll(log: seq<Entry>, ids: Ids, text: string, lines: nat): Parsed
    decreases |text|
  {
    if text == "" then Parsed(log, None, lines)
    else
      var chunk := Gets(text);
      var rest := text[|chunk|..];
      if TooLong(chunk, AtEof(text)) then Parsed(log, Some(TOO_LONG), lines + 1)
      else
        match ReadLine(log, ids, Body(chunk))
        case Skip(ids') => ReadAll(log, ids', rest, lines + 1)
        case Fail(msg) => Parsed(log, Some(msg), lines + 1)
        case Go(ids', p) =>
          var name := Body(chunk)[p..];
          if Blocked(log, KeyOf(ids')) || !Fits(name) then Parsed(log, Some(REFUSED), lines + 1)
          else ReadAll(log + [Entry(KeyOf(ids'), SRC_LOCAL, name)], ids', rest, lines + 1)
  }

  const START: Ids := Ids(0xFFFF_FFFF, 0, 0, 0, 0, 0, SUB_CONFIG)

  // ----- two oddities of the reader

  /** A line keeps a white character at its end exactly when two stood there: only one is cut. */
  lemma WhiteStaysIff(chunk: string)
    ensures var cut, s := chunk[..StopAt(chunk)], Body(chunk);
      s != "" && White(s[|s| - 1]) <==> |cut| >= 2 && White(cut[|cut| - 1]) && White(cut[|cut| - 2])
  {
  }

  /** So one of two blanks stays. */
  lemma WhiteStays()
    ensures Body("a  ") == "a "
  {
    assert StopAt("a  "[1..][1..][1..]) == 0;
    assert StopAt("a  "[1..][1..]) == 1;
    assert StopAt("a  "[1..]) == 2;
    assert StopAt("a  ") == 3;
  }

  lemma IdIsHalf(x: int)
    requires 0 <= x < 0x1_0000
    ensures Half(ToId(x))
  {
    assert (x as u32) < 0x1_0000;
  }

  lemma IdsAreHalves(s: string, p: nat)
    ensures IdAt(s, p, 4).Some? ==> Half(IdAt(s, p, 4).value)
  {
    Pow16Small();
    if IdAt(s, p, 4).Some? {
      IdIsHalf(HexAt(s, p, 4));
    }
  }

  lemma PairsDiffer(x: u32, y: u32)
    requires Half(x) && Half(y)
    ensures Pair(y, 0) == Pair(x, y) <==> x == 0 && y == 0
  {
    if Pair(y, 0) == Pair(x, y) {
      PairInjective(y, 0, x, y);
    }
  }

  /** No line ever sets the last of the six ids. */
  lemma SubsysStaysZero(log: seq<Entry>, ids: Ids, s: string)
    requires ids.subsys == 0 && !ReadLine(log, ids, s).Fail?
    ensures ReadLine(log, ids, s).ids.subsys == 0
  {
    hide IdAt, HexAt, Best, KeyOf, Ignored, Tabs, SkipWhite, H.Value, H.AllHex, ToId, TopLevel, Level1, Level2;
    if !TopLevel(log, ids, s).Fail? {
      TopKeepsSubsys(log, ids, s);
    }
    NestedKeepsSubsys(ids, s);
  }

  lemma TopKeepsSubsys(log: seq<Entry>, ids: Ids, s: string)
    requires ids.subsys == 0 && !TopLevel(log, ids, s).Fail?
    ensures TopLevel(log, ids, s).ids.subsys == 0
  {
    hide IdAt, HexAt, Best, KeyOf, H.Value, H.AllHex, ToId;
  }

  lemma NestedKeepsSubsys(ids: Ids, s: string)
    requires ids.subsys == 0
    ensures !Level1(ids, s).Fail? ==> Level1(ids, s).ids.subsys == 0
    ensures !Level2(ids, s).Fail? ==> Level2(ids, s).ids.subsys == 0
  {
    hide IdAt;
  }

  /**
   * Behind two tabs, subsystem ids `x` and `y` of a device are stored under the key of that
   * subsystem exactly when both are zero: the second overwrites the first, and the sixth id stays zero.
   */
  lemma {:induction false} SubsystemStoredIff(log: seq<Entry>, ids: Ids, s: string, x: u32, y: u32)
    requires !Ignored(s) && Tabs(s, 0) == 2 && (ids.cat == ID_DEVICE || ids.cat == ID_SUBSYSTEM) && ids.subsys == 0
    requires IdAt(s, 2, 4) == Some(x) && IdAt(s, 7, 4) == Some(y) && '\0' !in s && SkipWhite(s, 12) < |s|
    ensures var r := ReadLine(log, ids, s);
      && r.Go? && KeyOf(r.ids) == KeyOf(ids.(cat := ID_SUBSYSTEM, subsysVendor := y))
      && (KeyOf(r.ids) == KeyOf(ids.(cat := ID_SUBSYSTEM, subsysVendor := x, subsys := y)) <==> x == 0 && y == 0)
  {
    hide Pair, Half, HexAt, Best, H.Value;
    IdsAreHalves(s, 2);
    IdsAreHalves(s, 7);
    PairsDiffer(x, y);
  }

  /** So subsystem 0001 0002 of a device is stored as 0002 0000. */
  lemma SubsystemMisplaced(log: seq<Entry>, ids: Ids)
    requires ids.cat == ID_DEVICE && ids.subsys == 0
    ensures var r := ReadLine(log, ids, "\t\t0001 0002 n");
      r.Go? && KeyOf(r.ids) != KeyOf(ids.(cat := ID_SUBSYSTEM, subsysVendor := 1, subsys := 2))
  {
    hide IdAt, ReadLine, KeyOf, Ignored, Tabs, SkipWhite;
    ExampleStands();
    SubsystemStoredIff(log, ids, "\t\t0001 0002 n", 1, 2);
  }

  lemma ExampleStands()
    ensures var s := "\t\t0001 0002 n";
      !Ignored(s) && Tabs(s, 0) == 2 && SkipWhite(s, 12) == 12 && IdAt(s, 2, 4) == Some(1) && IdAt(s, 7, 4) == Some(2)
  {
    hide IdAt, Ignored, Tabs, SkipWhite;
    var s := "\t\t0001 0002 n";
    ExampleCursors();
    FourDigits(s, 2, 1);
    FourDigits(s, 7, 2);
  }

  lemma ExampleCursors()
    ensures var s := "\t\t0001 0002 n";
      !Ignored(s) && Tabs(s, 0) == 2 && SkipWhite(s, 12) == 12
  {
    var s := "\t\t0001 0002 n";
    assert Tabs(s, 2) == 2 && Tabs(s, 1) == 2;
    assert SkipWhite(s, 2) == 2 && SkipWhite(s, 1) == 2;
  }

  lemma FourDigits(s: string, p: nat, d: nat)
    requires 0 < d < 10 && p + 5 <= |s| && s[p..p + 4] == ['0', '0', '0', H.DigitChar(d)] && White(s[p + 4])
    ensures IdAt(s, p, 4) == Some(d as u32)
  {
    Pow16Small();
    var t := s[p..p + 4];
    assert t[..3][..2][..1][..0] == "";
    assert H.Value(t[..3][..2][..1]) == 0;
    assert H.Value(t[..3][..2]) == 0;
    assert H.Value(t[..3]) == 0;
    assert H.Value(t) == d;
  }

  // ----- lines and blocks outside the documented grammar

  lemma {:induction false} FindCharIn(text: string, c: char, n: nat)
    requires n <= |text| && c !in text[..n]
    ensures FindChar(text, c) >= n
  {
    if n > 0 {
      assert text[0] in text[..n];
      assert text[1..][..n - 1] == text[..n][1..];
      FindCharIn(text[1..], c, n - 1);
    }
  }

  /** A file is refused for a long line exactly when 1023 characters go by without a line end. */
  lemma TooLongIff(text: string)
    requires '\0' !in text
    ensures TooLong(Gets(text), AtEof(text)) <==> |text| >= 1023 && forall i :: 0 <= i < 1023 ==> !Stops(text[i])
  {
    var chunk := Gets(text);
    var n := StopAt(chunk);
    assert At(chunk, n) == '\0' <==> n == |chunk|;
    if |text| >= 1023 && forall i :: 0 <= i < 1023 ==> !Stops(text[i]) {
      assert '\n' !in text[..1023];
      FindCharIn(text, '\n', 1023);
    }
  }

  /** A capital letter other than C and S opens a block that nothing is known about; it is passed over. */
  lemma ReservedOpens(log: seq<Entry>, ids: Ids, s: string)
    requires !Ignored(s) && |s| >= 2 && 'A' <= s[0] <= 'Z' && s[0] != 'C' && s[0] != 'S' && s[1] == ' '
    ensures ReadLine(log, ids, s) == Skip(ids.(cat := ID_UNKNOWN, base := 0))
  {
  }

  /** And so are all nested lines in it, whatever they hold. */
  lemma ReservedPasses(log: seq<Entry>, ids: Ids, s: string)
    requires ids.cat == ID_UNKNOWN && s != "" && s[0] == '\t'
    ensures ReadLine(log, ids, s) == Skip(ids)
  {
  }

  /** A third level of nesting is an error. */
  lemma TooDeepFails(log: seq<Entry>, ids: Ids, s: string)
    requires !Ignored(s) && Tabs(s, 0) >= 3 && ids.cat != ID_UNKNOWN
    ensures ReadLine(log, ids, s) == Fail("Parse error")
  {
  }

  /** The ids under which an `S` line looks for its vendor: the sixth is the one that the line before left. */
  function LookedFor(ids: Ids, v: u32): Ids {
    Ids(ID_VENDOR, v, 0, 0, 0, 0, ids.sub)
  }

  /** `S` and an id open the generic subsystems of a vendor, exactly when something is stored under those ids. */
  lemma SubsystemOpensIff(log: seq<Entry>, ids: Ids, s: string)
    requires |s| == 6 && s[0] == 'S' && s[1] == ' ' && HexAt(s, 2, 4) >= 0
    ensures HexAt(s, 2, 4) < 0x1_0000
    ensures var v := ToId(HexAt(s, 2, 4));
      ReadLine(log, ids, s) ==
        if Present(log, KeyOf(LookedFor(ids, v))) then Skip(LookedFor(ids, v).(cat := ID_GEN_SUBSYSTEM))
        else Fail("Vendor does not exist")
  {
    Pow16Small();
    var v := ToId(HexAt(s, 2, 4));
    var key := KeyOf(LookedFor(ids, v));
    BestAnswers(log, key);
    if Best(log, key).Some? {
      var i: nat :| Answers(log, key, i) && log[i] == Best(log, key).value;
      assert log[i] in log;
    }
    hide KeyOf, Best, Answers, HexAt, ToId;
  }

  /** That is the vendor's own entry exactly when the line before left ff, as no subclass line does but ff itself. */
  lemma VendorFoundIff(ids: Ids, v: u32)
    requires Half(v) && Half(ids.sub)
    ensures KeyOf(LookedFor(ids, v)) == KeyOf(Ids(ID_VENDOR, v, 0, 0, 0, 0, 0xFF)) <==> ids.sub == 0xFF
  {
    KeysTellIdsApart(LookedFor(ids, v), Ids(ID_VENDOR, v, 0, 0, 0, 0, 0xFF));
  }

  /** So an `S` line behind a subclass line refuses the file although its vendor is stored. */
  lemma VendorMissed(ids: Ids)
    requires ids.sub == 0x01
    ensures var log := [Entry(KeyOf(Ids(ID_VENDOR, 0xCC08, 0, 0, 0, 0, 0xFF)), SRC_LOCAL, "n")];
      ReadLine(log, ids, "S cc08") == Fail("Vendor does not exist")
  {
    var log := [Entry(KeyOf(Ids(ID_VENDOR, 0xCC08, 0, 0, 0, 0, 0xFF)), SRC_LOCAL, "n")];
    var s := "S cc08";
    ValueOfCc08();
    assert s[2..6] == "cc08";
    assert HexAt(s, 2, 4) == 0xCC08;
    hide HexAt, ReadLine;
    SubsystemOpensIff(log, ids, s);
    KeysTellIdsApart(LookedFor(ids, ToId(0xCC08)), Ids(ID_VENDOR, 0xCC08, 0, 0, 0, 0, 0xFF));
    hide KeyOf;
  }

  lemma ValueOfCc08()
    ensures H.AllHex("cc08") && H.Value("cc08") == 0xCC08
  {
    var t := "cc08";
    assert t[..3][..2][..1][..0] == "";
    assert H.Value(t[..3][..2][..1]) == 0xC;
    assert H.Value(t[..3][..2]) == 0xCC;
    assert H.Value(t[..3]) == 0xCC0;
  }

  /** Lines nested in such a block go under its vendor, in a category of their own. */
  lemma GenericReads(log: seq<Entry>, ids: Ids, s: string, d: u32)
    requires !Ignored(s) && Tabs(s, 0) == 1 && ids.cat == ID_GEN_SUBSYSTEM && '\0' !in s
    requires IdAt(s, 1, 4) == Some(d) && SkipWhite(s, 6) < |s|
    ensures ReadLine(log, ids, s) == Go(Ids(ID_GEN_SUBSYSTEM, ids.vendor, d, 0, 0, 0, 0xFF), SkipWhite(s, 6))
  {
    hide HexAt;
  }

  /** Behind two tabs in a class block stands a third code; the block's own codes stay. */
  lemma ThirdCodeReads(log: seq<Entry>, ids: Ids, s: string, x: u32)
    requires !Ignored(s) && Tabs(s, 0) == 2 && ids.cat == ID_CLASS && '\0' !in s
    requires IdAt(s, 2, 2) == Some(x) && SkipWhite(s, 5) < |s|
    ensures ReadLine(log, ids, s) ==
      Go(Ids(ID_PROGIF, ids.vendor, ids.device, x, 0, ids.base, ids.sub), SkipWhite(s, 5))
  {
    hide HexAt;
  }
}
