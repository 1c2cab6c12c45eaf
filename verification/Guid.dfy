/**
 * GUIDs across the two tools: setub parses and packs them (setub/setub.c:253-290, 343-412), lsub
 * unpacks and prints them (lsub/cfg0/basic.c:105-133); the layout is in include/ubutils.h:202-218.
 */
module Guid {
  import opened Wrappers
  import opened Bits
  import H = Hex
  import N = Numeral

  const GUID_LEN: nat := 37

  predicate DashAt(i: nat) {
    i == 4 || i == 9 || i == 11 || i == 13 || i == 20
  }

  /** The members of the union's bit-field view. */
  datatype Fields = Fields(vendor: nat, device: nat, version: nat, typ: nat, rsvd: nat, seqNum: nat)

  predicate Wide(f: Fields) {
    && f.vendor < Pow2(16) && f.device < Pow2(16) && f.version < Pow2(4) && f.typ < Pow2(4)
    && f.rsvd < Pow2(24) && f.seqNum < Pow2(64)
  }

  // ----- the format check

  /** Dashes at the five places, and nowhere else. */
  ghost predicate Dashed(c: string) {
    |c| == GUID_LEN && forall i: nat :: i < GUID_LEN ==> (c[i] == '-' <==> DashAt(i))
  }

  function Count(c: string): nat {
    if c == "" then 0 else Count(c[..|c| - 1]) + if c[|c| - 1] == '-' then 1 else 0
  }

  lemma {:induction false} CountAppend(a: string, b: string)
    ensures Count(a + b) == Count(a) + Count(b)
  {
    if b == "" {
      assert a + b == a;
    } else {
      CountAppend(a, b[..|b| - 1]);
      assert (a + b)[..|a + b| - 1] == a + b[..|b| - 1];
    }
  }

  lemma {:induction false} CountNone(a: string)
    ensures Count(a) == 0 <==> forall i :: 0 <= i < |a| ==> a[i] != '-'
  {
    if a != "" {
      CountNone(a[..|a| - 1]);
      assert forall i :: 0 <= i < |a| - 1 ==> a[..|a| - 1][i] == a[i];
    }
  }

  /** The count around one dash at a known place. */
  lemma CountSplit(c: string, p: nat, k: nat, q: nat)
    requires p <= k < q <= |c| && c[k] == '-'
    ensures Count(c[p..q]) == Count(c[p..k]) + 1 + Count(c[k + 1..q])
  {
    assert c[p..q] == c[p..k] + "-" + c[k + 1..q];
    CountAppend(c[p..k] + "-", c[k + 1..q]);
    CountAppend(c[p..k], "-");
    assert Count("-") == 1 by {
      assert "-"[..0] == "";
    }
  }

  lemma CountRange(c: string, p: nat, q: nat)
    requires p <= q <= |c|
    ensures Count(c[p..q]) == 0 <==> forall i: nat :: p <= i < q ==> c[i] != '-'
  {
    CountNone(c[p..q]);
    assert forall i: nat :: p <= i < q ==> c[i] == c[p..q][i - p];
  }

  /** With dashes at the five places, five dashes in all means none elsewhere. */
  lemma FiveDashes(c: string)
    requires |c| == GUID_LEN && forall i: nat :: DashAt(i) ==> c[i] == '-'
    ensures Count(c) == 5 <==> Dashed(c)
  {
    assert c[0..37] == c;
    CountSplit(c, 0, 4, 37);
    CountSplit(c, 5, 9, 37);
    CountSplit(c, 10, 11, 37);
    CountSplit(c, 12, 13, 37);
    CountSplit(c, 14, 20, 37);
    hide Count;
    CountRange(c, 0, 4);
    CountRange(c, 5, 9);
    CountRange(c, 10, 11);
    CountRange(c, 12, 13);
    CountRange(c, 14, 20);
    CountRange(c, 21, 37);
  }

  /** check_guid_format */
  method CheckFormat(c: string) returns (ok: bool)
    ensures ok <==> Dashed(c)
  {
    if |c| != GUID_LEN {
      return false;
    }
    if c[4] != '-' || c[9] != '-' || c[11] != '-' || c[13] != '-' || c[20] != '-' {
      return false;
    }
    var cnt, n := 0, 0;
    while n < |c|
      invariant n <= |c| && cnt == Count(c[..n])
    {
      assert c[..n + 1][..n] == c[..n];
      if c[n] == '-' {
        cnt := cnt + 1;
      }
      n := n + 1;
    }
    assert c[..n] == c;
    FiveDashes(c);
    ok := cnt == 5;
  }

  // ----- parsing

  /** A prefix that no digit follows: not a number for scanf, which does not step back to the zero. */
  predicate Lonely(c: string, p: nat)
    requires p <= |c|
  {
    var g := N.SkipSign(c, N.SkipSpace(c, p));
    N.Marked(c, g) && N.SkipPrefix(c, g) == g
  }

  /** `%x`: blanks, a sign, a prefix, digits; the value is cut to the width of the target. */
  function ScanHex(c: string, p: nat, bits: nat): (r: Option<(nat, nat)>)
    requires p <= |c|
    ensures r.Some? ==> r.value.1 <= |c|
  {
    var n := N.Read(c, p);
    if n.None? || Lonely(c, p) then None else Some((N.Unsigned(n.value, Pow2(bits)), n.value.end))
  }

  /** `%x-` */
  function ScanDash(c: string, p: nat): (r: Option<(nat, nat)>)
    requires p <= |c|
    ensures r.Some? ==> r.value.1 <= |c|
  {
    match ScanHex(c, p, 32)
    case None => None
    case Some((v, q)) => if q < |c| && c[q] == '-' then Some((v, q + 1)) else None
  }

  /** sscanf with "%x-%x-%x-%x-%x-%llx", all six conversions made. */
  function Scan(c: string): Option<Fields> {
    match ScanDash(c, 0)
    case None => None
    case Some((vendor, p1)) =>
      match ScanDash(c, p1)
      case None => None
      case Some((device, p2)) =>
        match ScanDash(c, p2)
        case None => None
        case Some((version, p3)) =>
          match ScanDash(c, p3)
          case None => None
          case Some((typ, p4)) =>
            match ScanDash(c, p4)
            case None => None
            case Some((rsvd, p5)) =>
              match ScanHex(c, p5, 64)
              case None => None
              case Some((seqNum, _)) => Some(Fields(vendor, device, version, typ, rsvd, seqNum))
  }

  /** Every character that is not a dash is a hex digit. */
  ghost predicate WellFormed(c: string) {
    Dashed(c) && forall i: nat :: i < GUID_LEN && !DashAt(i) ==> H.IsHex(c[i])
  }

  lemma Pow2Is16(w: nat)
    ensures H.Pow16(w) == Pow2(4 * w)
    decreases w
  {
    if w > 0 {
      Pow2Is16(w - 1);
      Pow2Adds(4, 4 * (w - 1));
      assert Pow2(4) == 16;
    }
  }

  /** Digits that fit the target are not cut. */
  lemma {:induction false} NotCut(t: string, bits: nat)
    requires H.AllHex(t) && 4 * |t| <= bits
    ensures H.Value(t) < Pow2(4 * |t|) && H.Value(t) % Pow2(bits) == H.Value(t)
  {
    H.ReadThenPrint(t);
    Pow2Is16(|t|);
    Pow2Grows(4 * |t|, bits);
    hide H.Value, H.Print, H.LowerAll, H.Pow16, Pow2;
    DivUnique(H.Value(t), Pow2(bits), 0, H.Value(t));
  }

  lemma PlainPart(c: string, p: nat, q: nat)
    requires WellFormed(c) && p <= q <= |c| && forall i: nat :: p <= i < q ==> !DashAt(i)
    ensures H.AllHex(c[p..q])
  {
    assert forall i :: 0 <= i < q - p ==> c[p..q][i] == c[p + i];
  }

  /** Plain digits are no prefix. */
  lemma {:induction false} PlainScan(c: string, p: nat, q: nat, bits: nat)
    requires p < q <= |c| && H.AllHex(c[p..q]) && (q < |c| ==> c[q] == '-') && 4 * (q - p) <= bits
    ensures ScanHex(c, p, bits) == Some((H.Value(c[p..q]), q))
  {
    N.PlainRead(c, p, q);
    assert c[p] == c[p..q][0] && (p + 1 < q ==> c[p + 1] == c[p..q][1]);
    N.HexIsPlain(c[p]);
    if p + 1 < q {
      N.HexIsPlain(c[p + 1]);
    }
    NotCut(c[p..q], bits);
    hide H.Value, H.AllHex, Pow2, N.Read, H.IsHex;
  }

  /** A field of a well-formed text that stops at a dash. */
  lemma ScanField(c: string, p: nat, q: nat)
    requires WellFormed(c) && p < q < |c| && c[q] == '-' && q - p <= 8 && forall i: nat :: p <= i < q ==> !DashAt(i)
    ensures H.AllHex(c[p..q]) && H.Value(c[p..q]) < Pow2(4 * (q - p))
      && ScanDash(c, p) == Some((H.Value(c[p..q]), q + 1))
  {
    hide H.Value, H.AllHex, Pow2, ScanHex;
    PlainPart(c, p, q);
    PlainScan(c, p, q, 32);
    NotCut(c[p..q], 32);
  }

  /** The six fields of a well-formed text. */
  ghost function Read(c: string): (f: Fields)
    requires WellFormed(c)
  {
    assert forall p, q :: 0 <= p <= q <= |c| && (forall i: nat :: p <= i < q ==> !DashAt(i)) ==> H.AllHex(c[p..q]);
    Fields(H.Value(c[0..4]), H.Value(c[5..9]), H.Value(c[10..11]), H.Value(c[12..13]), H.Value(c[14..20]),
           H.Value(c[21..37]))
  }

  lemma ScanLast(c: string)
    requires WellFormed(c)
    ensures H.AllHex(c[21..37]) && H.Value(c[21..37]) < Pow2(64) && ScanHex(c, 21, 64) == Some((H.Value(c[21..37]), 37))
  {
    hide H.Value, H.AllHex, Pow2, ScanHex;
    PlainPart(c, 21, 37);
    PlainScan(c, 21, 37, 64);
    NotCut(c[21..37], 64);
  }

  /** The scan of a well-formed text reads its six fields, and none is cut. */
  lemma {:induction false} ScanReads(c: string)
    requires WellFormed(c)
    ensures Scan(c) == Some(Read(c)) && Wide(Read(c))
  {
    hide Pow2, H.Value, H.AllHex, ScanHex, ScanDash;
    ScanField(c, 0, 4);
    ScanField(c, 5, 9);
    ScanField(c, 10, 11);
    ScanField(c, 12, 13);
    ScanField(c, 14, 20);
    ScanLast(c);
  }

  // ----- which texts are accepted

  /** No dash between `p` and `q`, and one at `q`. */
  predicate FieldTo(c: string, p: nat, q: nat) {
    p <= q < |c| && c[q] == '-' && forall i :: p <= i < q ==> c[i] != '-'
  }

  /** Before the dash, blanks, sign and prefix stand in the text as in the field alone. */
  lemma {:induction false} StartInField(c: string, p: nat, q: nat)
    requires FieldTo(c, p, q) && N.SkipSpace(c, p) < q
    ensures var t, b := c[p..q], N.SkipSpace(c, p);
      && N.SkipSpace(t, 0) == b - p && t[b - p] == c[b] != '-'
      && N.DigitsAt(c, p) <= q && N.DigitsAt(t, 0) == N.DigitsAt(c, p) - p
  {
    var t := c[p..q];
    var b := N.SkipSpace(c, p);
    assert forall i :: p <= i < q ==> c[i] == t[i - p];
    N.SkipSpaceIs(t, 0, b - p);
    SignInField(c, p, q, b);
    PrefixInField(c, p, q, N.SkipSign(c, b));
  }

  lemma SignInField(c: string, p: nat, q: nat, b: nat)
    requires FieldTo(c, p, q) && p <= b < q
    ensures N.SkipSign(c, b) <= q && N.SkipSign(c[p..q], b - p) == N.SkipSign(c, b) - p
  {
    assert c[b] == c[p..q][b - p];
  }

  lemma PrefixInField(c: string, p: nat, q: nat, g: nat)
    requires FieldTo(c, p, q) && p <= g <= q
    ensures N.SkipPrefix(c, g) <= q && N.SkipPrefix(c[p..q], g - p) == N.SkipPrefix(c, g) - p
  {
    var t := c[p..q];
    assert forall i :: g <= i < q && i < g + 3 ==> t[i - p] == c[i];
  }

  /** Before the dash a number is read in the text as in the field alone. */
  lemma {:induction false} ReadInField(c: string, p: nat, q: nat)
    requires FieldTo(c, p, q) && N.SkipSpace(c, p) < q
    ensures var n, t := N.Read(c, p), N.Read(c[p..q], 0);
      && (n.None? <==> t.None?)
      && (n.Some? ==>
            n.value.end <= q && n.value == N.Num(false, t.value.magnitude, p + t.value.end) && !t.value.negative)
  {
    StartInField(c, p, q);
    RunInField(c, p, q, N.DigitsAt(c, p));
    hide N.SkipSpace, N.DigitsAt, N.RunEnd, H.Value;
  }

  lemma SubSlice(c: string, p: nat, q: nat, d: nat, e: nat)
    requires p <= d <= e <= q <= |c|
    ensures c[p..q][d - p..e - p] == c[d..e]
  {
    var t := c[p..q];
    forall k | 0 <= k < e - d
      ensures t[d - p..e - p][k] == c[d..e][k]
    {
      assert t[d - p..e - p][k] == t[d - p + k];
    }
  }

  lemma {:induction false} RunInField(c: string, p: nat, q: nat, d: nat)
    requires FieldTo(c, p, q) && p <= d <= q
    ensures var e := N.RunEnd(c, d);
      e <= q && N.RunEnd(c[p..q], d - p) == e - p && c[d..e] == c[p..q][d - p..e - p]
  {
    var t, e := c[p..q], N.RunEnd(c, d);
    N.RunStops(c, d, q);
    SubSlice(c, p, q, d, e);
    assert e < q ==> t[e - p] == c[e];
    N.RunIs(t, d - p, e - p);
  }

  lemma AllBlank(c: string, p: nat, q: nat)
    requires FieldTo(c, p, q) && N.SkipSpace(c, p) >= q
    ensures N.SkipSpace(c, p) == q && N.Read(c[p..q], 0) == None
    ensures N.Read(c, p).Some? ==> N.Read(c, p).value.end > q
  {
    var t := c[p..q];
    assert forall i :: p <= i < q ==> c[i] == t[i - p];
    N.SkipSpaceIs(c, p, q);
    N.SkipSpaceIs(t, 0, q - p);
  }

  /** What `%x` stores for a whole number without a minus sign. */
  function FieldValue(s: string): nat
    requires N.Whole(s)
  {
    N.Read(s, 0).value.magnitude % Pow2(32)
  }

  /** Either the field is a whole number, or the scan fails there, or it steps over the dash. */
  lemma {:induction false} FieldTaken(c: string, p: nat, q: nat)
    requires FieldTo(c, p, q)
    ensures N.Whole(c[p..q]) ==> ScanHex(c, p, 32) == Some((FieldValue(c[p..q]), q))
    ensures ScanDash(c, p).Some? && !N.Whole(c[p..q]) ==> ScanDash(c, p).value.1 > q + 1
  {
    if N.SkipSpace(c, p) < q {
      ReadInField(c, p, q);
      NotLonely(c, p, q);
    } else {
      AllBlank(c, p, q);
    }
    hide N.Read, Lonely, Pow2;
  }

  /** A lonely prefix ends at its letter. */
  lemma NotLonely(c: string, p: nat, q: nat)
    requires FieldTo(c, p, q)
    ensures Lonely(c, p) ==>
      N.Read(c, p).Some? && N.Read(c, p).value.end < |c| && c[N.Read(c, p).value.end] in {'x', 'X'}
  {
    if Lonely(c, p) {
      var g := N.SkipSign(c, N.SkipSpace(c, p));
      assert c[g..g + 1] == "0";
      N.RunIs(c, g, g + 1);
    }
  }

  /** `k` conversions `%x-` succeed one after the other. */
  ghost predicate Passes(c: string, p: nat, k: nat)
    requires p <= |c|
    decreases k
  {
    k == 0 || (ScanDash(c, p).Some? && Passes(c, ScanDash(c, p).value.1, k - 1))
  }

  /** How many dashes are left from `p` on. */
  function Dashes(c: string, p: nat): nat
    requires p <= |c|
  {
    Count(c[p..|c|])
  }

  lemma DashesFall(c: string, p: nat, k: nat)
    requires p <= k < |c| && c[k] == '-'
    ensures Dashes(c, p) >= 1 + Dashes(c, k + 1)
    ensures FieldTo(c, p, k) ==> Dashes(c, p) == 1 + Dashes(c, k + 1)
  {
    CountSplit(c, p, k, |c|);
    CountRange(c, p, k);
  }

  lemma ScanDashEnds(c: string, p: nat)
    requires p <= |c|
    ensures ScanDash(c, p).Some? ==> p < ScanDash(c, p).value.1 <= |c| && c[ScanDash(c, p).value.1 - 1] == '-'
  {
  }

  lemma {:induction false} PassesCost(c: string, p: nat, k: nat)
    requires p <= |c|
    ensures Passes(c, p, k) ==> k <= Dashes(c, p)
    decreases k
  {
    hide Dashes, ScanDash;
    ScanDashEnds(c, p);
    if k > 0 && Passes(c, p, k) {
      var e := ScanDash(c, p).value.1;
      DashesFall(c, p, e - 1);
      PassesCost(c, e, k - 1);
    }
  }

  /** The field is a whole number. */
  predicate WholeAt(c: string, p: nat, q: nat) {
    p <= q <= |c| && N.Whole(c[p..q])
  }

  /** The field is a whole number and `%x-` takes it. */
  predicate Takes(c: string, p: nat, q: nat) {
    WholeAt(c, p, q) && ScanDash(c, p) == Some((FieldValue(c[p..q]), q + 1))
  }

  /** Stepping over a dash leaves too few of them. */
  lemma {:induction false} NotPast(c: string, q: nat, k: nat, e: nat)
    requires q + 1 < e <= |c| && c[e - 1] == '-' && Dashes(c, q + 1) == k
    ensures !Passes(c, e, k)
  {
    hide Dashes, Passes;
    DashesFall(c, q + 1, e - 1);
    PassesCost(c, e, k);
  }

  /** With as many dashes left as conversions, each must stop at the next dash. */
  lemma {:induction false} FieldMust(c: string, p: nat, q: nat, k: nat)
    requires FieldTo(c, p, q) && k > 0 && Dashes(c, p) == k
    ensures Dashes(c, q + 1) == k - 1
    ensures Passes(c, p, k) <==> Takes(c, p, q) && Passes(c, q + 1, k - 1)
    ensures WholeAt(c, p, q) <==> Takes(c, p, q)
  {
    hide Pow2, Count, N.Read, N.Whole, FieldValue, Dashes, Lonely;
    DashesFall(c, p, q);
    FieldTaken(c, p, q);
    assert WholeAt(c, p, q) <==> Takes(c, p, q);
    if ScanDash(c, p).Some? && ScanDash(c, p).value.1 > q + 1 {
      ScanDashEnds(c, p);
      NotPast(c, q, k - 1, ScanDash(c, p).value.1);
    }
    hide ScanHex, ScanDash, WholeAt, FieldTo;
  }

  /** The five fields before a dash are whole numbers. */
  predicate FieldsWhole(c: string) {
    WholeAt(c, 0, 4) && WholeAt(c, 5, 9) && WholeAt(c, 10, 11) && WholeAt(c, 12, 13) && WholeAt(c, 14, 20)
  }

  lemma FiveFields(c: string)
    requires Dashed(c)
    ensures Dashes(c, 0) == 5 && FieldTo(c, 0, 4) && FieldTo(c, 5, 9) && FieldTo(c, 10, 11) && FieldTo(c, 12, 13)
      && FieldTo(c, 14, 20)
  {
    assert c[0..|c|] == c;
    FiveDashes(c);
    hide Count;
    assert forall i: nat :: i < GUID_LEN && !DashAt(i) ==> c[i] != '-';
  }

  /** Five conversions `%x-` succeed exactly when each takes one of the five fields. */
  lemma {:induction false} PassesIff(c: string)
    requires Dashed(c)
    ensures Passes(c, 0, 5) <==> FieldsWhole(c)
    ensures FieldsWhole(c) ==>
      Takes(c, 0, 4) && Takes(c, 5, 9) && Takes(c, 10, 11) && Takes(c, 12, 13) && Takes(c, 14, 20)
  {
    hide WholeAt, Takes, Dashes, FieldTo, Passes;
    FiveFields(c);
    FieldMust(c, 0, 4, 5);
    FieldMust(c, 5, 9, 4);
    FieldMust(c, 10, 11, 3);
    LastFields(c);
  }

  lemma {:induction false} LastFields(c: string)
    requires Dashed(c) && Dashes(c, 12) == 2
    ensures Passes(c, 12, 2) <==> WholeAt(c, 12, 13) && WholeAt(c, 14, 20)
    ensures WholeAt(c, 12, 13) && WholeAt(c, 14, 20) ==> Takes(c, 12, 13) && Takes(c, 14, 20)
  {
    assert Passes(c, 21, 0);
    hide WholeAt, Takes, Dashes, FieldTo, Passes;
    FiveFields(c);
    FieldMust(c, 12, 13, 2);
    FieldMust(c, 14, 20, 1);
  }

  /**
   * A text of the right format is accepted exactly when its first five fields are whole numbers and
   * the sixth begins with one; then these numbers are what is read.
   */
  lemma {:induction false} AcceptedIff(c: string)
    requires Dashed(c)
    ensures Scan(c).Some? <==> FieldsWhole(c) && N.Read(c, 21).Some? && !Lonely(c, 21)
    ensures Scan(c).Some? ==> Scan(c) == Some(Fields(
      N.Read(c[0..4], 0).value.magnitude, N.Read(c[5..9], 0).value.magnitude, N.Read(c[10..11], 0).value.magnitude,
      N.Read(c[12..13], 0).value.magnitude, N.Read(c[14..20], 0).value.magnitude, N.Read(c, 21).value.magnitude))
  {
    PassesIff(c);
    ScanPasses(c);
    if FieldsWhole(c) {
      ShortField(c[0..4]);
      ShortField(c[5..9]);
      ShortField(c[10..11]);
      ShortField(c[12..13]);
      ShortField(c[14..20]);
    }
    LastField(c);
    hide N.Read, FieldValue, ScanDash, ScanHex, Lonely, Passes;
  }

  lemma {:induction false} ShortField(s: string)
    requires N.Whole(s) && |s| <= 8
    ensures FieldValue(s) == N.Read(s, 0).value.magnitude
  {
    ShortNumber(s, 0, 32);
  }

  lemma {:induction false} LastField(c: string)
    requires Dashed(c)
    ensures ScanHex(c, 21, 64).Some? <==> N.Read(c, 21).Some? && !Lonely(c, 21)
    ensures ScanHex(c, 21, 64).Some? ==> ScanHex(c, 21, 64).value.0 == N.Read(c, 21).value.magnitude
  {
    if N.Read(c, 21).Some? {
      ShortNumber(c, 21, 64);
      assert forall i: nat :: 21 <= i < GUID_LEN ==> c[i] != '-';
    }
  }

  lemma ScanPasses(c: string)
    requires |c| == GUID_LEN
    ensures Scan(c).Some? ==> Passes(c, 0, 5)
  {
    hide ScanDash, ScanHex;
  }

  /** A short number is not cut. */
  lemma {:induction false} ShortNumber(c: string, p: nat, bits: nat)
    requires p <= |c| && N.Read(c, p).Some? && 4 * (|c| - p) <= bits
    ensures N.Read(c, p).value.magnitude % Pow2(bits) == N.Read(c, p).value.magnitude
  {
    var d := N.DigitsAt(c, p);
    NotCut(c[d..N.RunEnd(c, d)], bits);
  }

  const TYPE_MASK: nat := 0xF
  const VERSION_MASK: nat := 0xF
  const RSV_MASK: nat := 0xFF_FFFF

  /** The assignments to the bit-field view. */
  function Masked(f: Fields): Fields {
    Fields(f.vendor % Pow2(16), f.device % Pow2(16), And(f.version, VERSION_MASK), And(f.typ, TYPE_MASK),
           And(f.rsvd, RSV_MASK), f.seqNum)
  }

  lemma {:induction false} MaskedWide(f: Fields)
    requires Wide(f)
    ensures Masked(f) == f
  {
    AndMasks(f.version, 4);
    AndMasks(f.typ, 4);
    AndMasks(f.rsvd, 24);
    assert Pow2(4) == 16 && Pow2(8) == 256 && Pow2(12) == 4096;
    Pow2Adds(12, 12);
    DivUnique(f.vendor, Pow2(16), 0, f.vendor);
    DivUnique(f.device, Pow2(16), 0, f.device);
    DivUnique(f.version, Pow2(4), 0, f.version);
    DivUnique(f.typ, Pow2(4), 0, f.typ);
    DivUnique(f.rsvd, Pow2(24), 0, f.rsvd);
  }

  /** parse_guid */
  method Parse(c: string) returns (g: Option<Fields>)
    ensures g == if Dashed(c) && Scan(c).Some? then Some(Masked(Scan(c).value)) else None
  {
    var ok := CheckFormat(c);
    if !ok {
      return None;
    }
    var f := Scan(c);
    if f.None? {
      return None;
    }
    g := Some(Masked(f.value));
  }

  // ----- packing and unpacking

  /** Bit fields are laid out from the low end: `high` stands above `w` bits of `low`. */
  function Above(low: nat, w: nat, high: nat): nat {
    low + Pow2(w) * high
  }

  /** The upper eight bytes of the union, as one number. */
  function High(f: Fields): nat {
    Above(f.rsvd, 24, Above(f.typ, 4, Above(f.version, 4, Above(f.device, 16, f.vendor))))
  }

  /** The sixteen bytes that the packers store: guid_l, then guid_h. */
  function Packed(f: Fields): (d: seq<Byte>)
    ensures |d| == 16
  {
    Bytes(f.seqNum, 8) + Bytes(High(f), 8)
  }

  /** The two 64-bit stores of the ub_*_bi_init packers. */
  method Store(guid: array<Byte>, f: Fields)
    requires guid.Length == 16
    modifies guid
    ensures guid[..] == Packed(f)
  {
    var low, high := Bytes(f.seqNum, 8), Bytes(High(f), 8);
    forall i | 0 <= i < 8 {
      guid[i] := low[i];
    }
    forall i | 0 <= i < 8 {
      guid[8 + i] := high[i];
    }
    assert guid[..] == low + high;
  }

  /** ub_bind_bi_init and ub_unbind_bi_init: the instance and the device, each in its own place. */
  method StoreBoth(instance: array<Byte>, device: array<Byte>, f: Fields, g: Fields)
    requires instance.Length == 16 && device.Length == 16 && instance != device
    modifies instance, device
    ensures instance[..] == Packed(f) && device[..] == Packed(g)
  {
    Store(instance, f);
    Store(device, g);
  }

  /** The fields that cfg0_guid takes out of the sixteen bytes. */
  function Unpacked(d: seq<Byte>): Fields
    requires |d| == 16
  {
    Fields(Chunk(d[8..], 48, 63), Chunk(d[8..], 32, 47), Chunk(d[8..], 28, 31), Chunk(d[8..], 24, 27),
           Chunk(d[8..], 0, 23), Chunk(d, 0, 63))
  }

  lemma {:induction false} AboveFields(low: nat, w: nat, high: nat, s: nat, v: nat)
    requires low < Pow2(w)
    ensures Field(Above(low, w, high), 0, w) == low
    ensures Field(Above(low, w, high), w + s, v) == Field(high, s, v)
  {
    var x := Above(low, w, high);
    DivUnique(x, Pow2(w), high, low);
    assert Pow2(0) == 1;
    Pow2Adds(w, s);
    DivTwice(x, Pow2(w), Pow2(s));
  }

  lemma AboveBound(low: nat, w: nat, high: nat, v: nat)
    requires low < Pow2(w) && high < Pow2(v)
    ensures Above(low, w, high) < Pow2(w + v)
  {
    Pow2Adds(w, v);
    MulMono(Pow2(w), high, Pow2(v) - 1);
    MulAdds(Pow2(w), Pow2(v), -1);
  }

  lemma HighBound(f: Fields)
    requires Wide(f)
    ensures High(f) < Pow2(64)
  {
    hide Pow2, Above;
    var a := Above(f.device, 16, f.vendor);
    var b := Above(f.version, 4, a);
    var c := Above(f.typ, 4, b);
    AboveBound(f.device, 16, f.vendor, 16);
    AboveBound(f.version, 4, a, 32);
    AboveBound(f.typ, 4, b, 36);
    AboveBound(f.rsvd, 24, c, 40);
  }

  lemma {:induction false} HighFields(f: Fields)
    requires Wide(f)
    ensures Field(High(f), 0, 24) == f.rsvd && Field(High(f), 24, 4) == f.typ && Field(High(f), 28, 4) == f.version
    ensures Field(High(f), 32, 16) == f.device && Field(High(f), 48, 16) == f.vendor
  {
    hide Pow2, Above, Field;
    var a := Above(f.device, 16, f.vendor);
    var b := Above(f.version, 4, a);
    var c := Above(f.typ, 4, b);
    AboveFields(f.rsvd, 24, c, 0, 4);
    AboveFields(f.rsvd, 24, c, 4, 4);
    AboveFields(f.rsvd, 24, c, 8, 16);
    AboveFields(f.rsvd, 24, c, 24, 16);
    AboveFields(f.typ, 4, b, 0, 4);
    AboveFields(f.typ, 4, b, 4, 16);
    AboveFields(f.typ, 4, b, 20, 16);
    AboveFields(f.version, 4, a, 0, 16);
    AboveFields(f.version, 4, a, 16, 16);
    AboveFields(f.device, 16, f.vendor, 0, 16);
    FieldWhole(f.vendor, 16);
  }

  /** Unpacking what was packed gives the fields back. */
  lemma {:induction false} UnpackPacked(f: Fields)
    requires Wide(f)
    ensures Unpacked(Packed(f)) == f
  {
    hide Pow2, Field, LE, Bytes, Above;
    var d := Packed(f);
    assert d[..8] == Bytes(f.seqNum, 8) && d[8..] == Bytes(High(f), 8);
    LowBytes(d, 8);
    LEOfBytes(f.seqNum, 8);
    HighBound(f);
    LEOfBytes(High(f), 8);
    HighFields(f);
  }

  /** A number is its low field with the rest above it. */
  lemma Split(x: nat, s: nat, v: nat, w: nat)
    ensures Field(x, s, v + w) == Above(Field(x, s, v), v, Field(x, s + v, w))
  {
    FieldSplits(x, s, v, w);
  }

  lemma FieldBound(x: nat, s: nat, w: nat)
    ensures Field(x, s, w) < Pow2(w)
  {
    FieldSplits(x, s, w, 0);
  }

  /** Packing what was unpacked gives the bytes back. */
  lemma {:induction false} PackUnpacked(d: seq<Byte>)
    requires |d| == 16
    ensures Wide(Unpacked(d)) && Packed(Unpacked(d)) == d
  {
    hide Pow2, Field, LE, Bytes, Above;
    var x := LE(d[8..]);
    FieldBound(x, 0, 24);
    FieldBound(x, 24, 4);
    FieldBound(x, 28, 4);
    FieldBound(x, 32, 16);
    FieldBound(x, 48, 16);
    FieldBound(LE(d), 0, 64);
    LEBound(d[8..]);
    FieldWhole(x, 64);
    Split(x, 0, 24, 40);
    Split(x, 24, 4, 36);
    Split(x, 28, 4, 32);
    Split(x, 32, 16, 16);
    LowBytes(d, 8);
    BytesOfLE(d[..8]);
    BytesOfLE(d[8..]);
    assert d == d[..8] + d[8..];
  }

  // ----- where the fields stand in the sixteen bytes

  /** Shifting a joined number shifts its parts. */
  lemma Lift(s: nat, low: nat, w: nat, high: nat)
    ensures Pow2(s) * Above(low, w, high) == Pow2(s) * low + Pow2(s + w) * high
  {
    Pow2Adds(s, w);
    hide Pow2;
    MulAdds(Pow2(s), low, Pow2(w) * high);
    MulGroups(Pow2(s), Pow2(w), high);
  }

  /** As one little-endian number, the bytes hold the sequence number lowest and the vendor highest. */
  lemma PackedIs(f: Fields)
    requires Wide(f)
    ensures LE(Packed(f)) ==
      f.seqNum + Pow2(64) * f.rsvd + Pow2(88) * f.typ + Pow2(92) * f.version
      + Pow2(96) * f.device + Pow2(112) * f.vendor
  {
    hide Pow2, LE, Bytes, Above;
    LEAppend(Bytes(f.seqNum, 8), Bytes(High(f), 8));
    LEOfBytes(f.seqNum, 8);
    HighBound(f);
    LEOfBytes(High(f), 8);
    var a := Above(f.device, 16, f.vendor);
    var b := Above(f.version, 4, a);
    var c := Above(f.typ, 4, b);
    Lift(64, f.rsvd, 24, c);
    Lift(88, f.typ, 4, b);
    Lift(92, f.version, 4, a);
    Lift(96, f.device, 16, f.vendor);
  }

  /** The bytes from `i` on are the number above them. */
  lemma UpperBytes(d: seq<Byte>, i: nat, s: nat, w: nat)
    requires i <= |d|
    ensures Field(LE(d[i..]), s, w) == Field(LE(d), 8 * i + s, w)
  {
    var low, high := LE(d[..i]), LE(d[i..]);
    assert d == d[..i] + d[i..];
    LEAppend(d[..i], d[i..]);
    LEBound(d[..i]);
    hide LE, Pow2;
    AboveFields(low, 8 * i, high, s, w);
  }

  /** Whole bytes are the number they hold by themselves. */
  lemma SliceIs(d: seq<Byte>, i: nat, n: nat)
    requires 0 < n && i + n <= |d|
    ensures Field(LE(d), 8 * i, 8 * n) == LE(d[i..i + n])
  {
    UpperBytes(d, i, 0, 8 * n);
    LowBytes(d[i..], n);
    assert d[i..][..n] == d[i..i + n];
  }

  /** Each field is taken from its own bits of the whole buffer. */
  lemma UnpackedIs(d: seq<Byte>)
    requires |d| == 16
    ensures Unpacked(d) ==
      Fields(Field(LE(d), 112, 16), Field(LE(d), 96, 16), Field(LE(d), 92, 4), Field(LE(d), 88, 4),
             Field(LE(d), 64, 24), Field(LE(d), 0, 64))
  {
    hide LE, Pow2, Field;
    UpperBytes(d, 8, 48, 16);
    UpperBytes(d, 8, 32, 16);
    UpperBytes(d, 8, 28, 4);
    UpperBytes(d, 8, 24, 4);
    UpperBytes(d, 8, 0, 24);
  }

  lemma Nibbles(b: Byte)
    ensures Field(b, 4, 4) == b / 16 && Field(b, 0, 4) == b % 16
  {
    assert Pow2(4) == 16 && Pow2(0) == 1;
    hide Pow2;
  }

  /** The fields, byte by byte. */
  lemma UnpackedBytes(d: seq<Byte>)
    requires |d| == 16
    ensures Unpacked(d) ==
      Fields(LE(d[14..16]), LE(d[12..14]), d[11] / 16, d[11] % 16, LE(d[8..11]), LE(d[0..8]))
  {
    hide LE, Pow2, Field;
    UnpackedIs(d);
    SliceIs(d, 14, 2);
    SliceIs(d, 12, 2);
    FieldInByte(d, 11, 4, 4);
    FieldInByte(d, 11, 0, 4);
    Nibbles(d[11]);
    SliceIs(d, 8, 3);
    SliceIs(d, 0, 8);
  }

  // ----- printing

  /** Six texts joined by dashes. */
  function Joined(a: string, b: string, c: string, d: string, e: string, g: string): string {
    a + ("-" + (b + ("-" + (c + ("-" + (d + ("-" + (e + ("-" + g)))))))))
  }

  /** The text cfg0_guid prints for these fields. */
  function Show(f: Fields): string {
    Joined(H.Print(f.vendor, 4), H.Print(f.device, 4), H.Print(f.version, 1), H.Print(f.typ, 1), H.Print(f.rsvd, 6),
           H.Print(f.seqNum, 16))
  }

  /** A part, a dash, the rest. */
  lemma {:induction false} PartAt(t: string, p: nat, a: string, rest: string)
    requires p <= |t| && t[p..] == a + ("-" + rest)
    ensures var q := p + |a|;
      q < |t| && t[p..q] == a && t[q] == '-' && t[q + 1..] == rest
  {
    assert t[p..][..|a|] == a && t[p..][|a|] == '-' && t[p..][|a| + 1..] == rest;
    assert t[p..p + |a|] == t[p..][..|a|] && t[p + |a| + 1..] == t[p..][|a| + 1..];
  }

  lemma {:induction false} JoinedParts(a: string, b: string, c: string, d: string, e: string, g: string)
    requires |a| == 4 && |b| == 4 && |c| == 1 && |d| == 1 && |e| == 6 && |g| == 16
    ensures var t := Joined(a, b, c, d, e, g);
      && |t| == GUID_LEN && (forall i: nat :: DashAt(i) ==> t[i] == '-')
      && t[0..4] == a && t[5..9] == b && t[10..11] == c && t[12..13] == d && t[14..20] == e && t[21..37] == g
  {
    var t := Joined(a, b, c, d, e, g);
    assert t[0..] == t;
    PartAt(t, 0, a, b + ("-" + (c + ("-" + (d + ("-" + (e + ("-" + g))))))));
    PartAt(t, 5, b, c + ("-" + (d + ("-" + (e + ("-" + g))))));
    PartAt(t, 10, c, d + ("-" + (e + ("-" + g))));
    PartAt(t, 12, d, e + ("-" + g));
    PartAt(t, 14, e, g);
    assert t[21..] == t[21..37];
  }

  lemma Rejoin(t: string, p: nat, q: nat, rest: string)
    requires p <= q < |t| && t[q] == '-' && t[q + 1..] == rest
    ensures t[p..] == t[p..q] + ("-" + rest)
  {
  }

  /** A text is its six parts joined. */
  lemma PartsJoined(t: string)
    requires |t| == GUID_LEN && forall i: nat :: DashAt(i) ==> t[i] == '-'
    ensures t == Joined(t[0..4], t[5..9], t[10..11], t[12..13], t[14..20], t[21..37])
  {
    var last := t[21..37];
    assert t[0..] == t && t[21..] == last;
    Rejoin(t, 14, 20, last);
    var five := t[14..20] + ("-" + last);
    Rejoin(t, 12, 13, five);
    var four := t[12..13] + ("-" + five);
    Rejoin(t, 10, 11, four);
    var three := t[10..11] + ("-" + four);
    Rejoin(t, 5, 9, three);
    Rejoin(t, 0, 4, t[5..9] + ("-" + three));
  }

  lemma HexParts(t: string)
    requires |t| == GUID_LEN && forall i: nat :: DashAt(i) ==> t[i] == '-'
    requires H.AllHex(t[0..4]) && H.AllHex(t[5..9]) && H.AllHex(t[10..11]) && H.AllHex(t[12..13])
    requires H.AllHex(t[14..20]) && H.AllHex(t[21..37])
    ensures WellFormed(t)
  {
    forall i: nat | i < GUID_LEN && !DashAt(i)
      ensures H.IsHex(t[i])
    {
      if i < 4 { assert t[i] == t[0..4][i]; }
      else if 4 < i < 9 { assert t[i] == t[5..9][i - 5]; }
      else if i == 10 { assert t[i] == t[10..11][0]; }
      else if i == 12 { assert t[i] == t[12..13][0]; }
      else if 13 < i < 20 { assert t[i] == t[14..20][i - 14]; }
      else { assert t[i] == t[21..37][i - 21]; }
    }
  }

  lemma PrintWide(n: nat, w: nat)
    requires n < Pow2(4 * w)
    ensures |H.Print(n, w)| == w && H.AllHex(H.Print(n, w)) && H.Value(H.Print(n, w)) == n
  {
    Pow2Is16(w);
    H.PrintThenRead(n, w);
  }

  /** What is printed is well formed and reads back as the same fields. */
  lemma ShowReads(f: Fields)
    requires Wide(f)
    ensures WellFormed(Show(f)) && Read(Show(f)) == f
  {
    PrintWide(f.vendor, 4);
    PrintWide(f.device, 4);
    PrintWide(f.version, 1);
    PrintWide(f.typ, 1);
    PrintWide(f.rsvd, 6);
    PrintWide(f.seqNum, 16);
    hide H.Print, H.Value, H.AllHex, Joined, WellFormed, Pow2;
    JoinedParts(H.Print(f.vendor, 4), H.Print(f.device, 4), H.Print(f.version, 1), H.Print(f.typ, 1),
                H.Print(f.rsvd, 6), H.Print(f.seqNum, 16));
    HexParts(Show(f));
  }

  lemma LowerPart(c: string, p: nat, q: nat)
    requires p <= q <= |c|
    ensures H.LowerAll(c)[p..q] == H.LowerAll(c[p..q])
  {
  }

  lemma LowerKeepsDashes(c: string)
    ensures |H.LowerAll(c)| == |c| && forall i: nat :: i < |c| && c[i] == '-' ==> H.LowerAll(c)[i] == '-'
  {
  }

  /** Printing the fields of a well-formed text gives the text in lower case. */
  lemma {:induction false} ReadShows(c: string)
    requires WellFormed(c)
    ensures Show(Read(c)) == H.LowerAll(c)
  {
    hide H.LowerAll, H.Print, H.Value, H.AllHex, Joined;
    LowerJoined(c);
    PartShows(c, 0, 4);
    PartShows(c, 5, 9);
    PartShows(c, 10, 11);
    PartShows(c, 12, 13);
    PartShows(c, 14, 20);
    PartShows(c, 21, 37);
  }

  lemma LowerJoined(c: string)
    requires WellFormed(c)
    ensures var t := H.LowerAll(c);
      t == Joined(t[0..4], t[5..9], t[10..11], t[12..13], t[14..20], t[21..37])
  {
    LowerKeepsDashes(c);
    PartsJoined(H.LowerAll(c));
  }

  lemma PartShows(c: string, p: nat, q: nat)
    requires WellFormed(c) && p <= q <= |c| && forall i: nat :: p <= i < q ==> !DashAt(i)
    ensures H.AllHex(c[p..q]) && H.Print(H.Value(c[p..q]), q - p) == H.LowerAll(c)[p..q]
  {
    PlainPart(c, p, q);
    H.ReadThenPrint(c[p..q]);
    LowerPart(c, p, q);
  }

  // ----- across the tools

  /** The text that the display tool prints for sixteen bytes. */
  function Display(d: seq<Byte>): string
    requires |d| == 16
  {
    Show(Unpacked(d))
  }

  /** Every GUID displayed by one tool is accepted by the other and packed into the same sixteen bytes. */
  lemma {:induction false} DisplayThenParse(d: seq<Byte>)
    requires |d| == 16
    ensures Dashed(Display(d)) && Scan(Display(d)).Some?
    ensures Packed(Masked(Scan(Display(d)).value)) == d
  {
    hide Show, Packed, Unpacked, Scan, Masked;
    var f := Unpacked(d);
    PackUnpacked(d);
    ShowReads(f);
    ScanReads(Show(f));
    MaskedWide(f);
  }

  /** Every well-formed text is accepted, and displaying the bytes it packs to gives it back in lower case. */
  lemma {:induction false} ParseThenDisplay(c: string)
    requires WellFormed(c)
    ensures Dashed(c) && Scan(c).Some?
    ensures Display(Packed(Masked(Scan(c).value))) == H.LowerAll(c)
  {
    hide Show, Packed, Unpacked, Scan, Masked, H.LowerAll, Read;
    ScanReads(c);
    MaskedWide(Read(c));
    UnpackPacked(Read(c));
    ReadShows(c);
  }

  /** The parts of a shown GUID stand at their places. */
  lemma ShowParts(f: Fields)
    requires Wide(f)
    ensures var t := Show(f);
      && |t| == GUID_LEN
      && t[0..4] == H.Print(f.vendor, 4) && t[5..9] == H.Print(f.device, 4)
      && t[10..11] == H.Print(f.version, 1) && t[12..13] == H.Print(f.typ, 1)
      && t[14..20] == H.Print(f.rsvd, 6) && t[21..37] == H.Print(f.seqNum, 16)
  {
    PrintWide(f.vendor, 4);
    PrintWide(f.device, 4);
    PrintWide(f.version, 1);
    PrintWide(f.typ, 1);
    PrintWide(f.rsvd, 6);
    PrintWide(f.seqNum, 16);
    hide H.Print, H.Value, H.AllHex, Joined, Pow2;
    JoinedParts(H.Print(f.vendor, 4), H.Print(f.device, 4), H.Print(f.version, 1), H.Print(f.typ, 1),
                H.Print(f.rsvd, 6), H.Print(f.seqNum, 16));
  }

  /** What is displayed of sixteen bytes, place by place. */
  lemma DisplayIs(d: seq<Byte>)
    requires |d| == 16
    ensures var t := Display(d);
      && |t| == GUID_LEN
      && t[0..4] == H.Print(LE(d[14..16]), 4) && t[5..9] == H.Print(LE(d[12..14]), 4)
      && t[10..11] == H.Print(d[11] / 16, 1) && t[12..13] == H.Print(d[11] % 16, 1)
      && t[14..20] == H.Print(LE(d[8..11]), 6) && t[21..37] == H.Print(LE(d[0..8]), 16)
  {
    hide H.Print, Show, LE, Unpacked, Wide, Packed;
    PackUnpacked(d);
    UnpackedBytes(d);
    ShowParts(Unpacked(d));
  }
}
