/** The ub.ids reader in its own form: one line buffer, cursors into it, and the table it fills. */
module IdsReader {
  import opened Wrappers
  import opened IdTable
  import opened IdsFile
  import H = Hex

  /** The buffer holds the C string `s`. */
  ghost predicate CString(line: array<char>, s: string)
    reads line
  {
    |s| < line.Length && line[..|s|] == s && line[|s|] == '\0' && '\0' !in s
  }

  lemma CharAt(line: array<char>, s: string, i: nat)
    requires CString(line, s) && i <= |s|
    ensures line[i] == At(s, i) && (line[i] == '\0' <==> i == |s|)
  {
    assert i < |s| ==> line[..|s|][i] == line[i];
  }

  lemma NotHex(s: string, p: nat, cnt: nat, n: nat)
    requires n < cnt && p + n <= |s| && !H.IsHex(At(s, p + n))
    ensures HexAt(s, p, cnt) == -1
  {
    if p + cnt <= |s| {
      assert s[p..p + cnt][n] == At(s, p + n);
    }
  }

  /** id_hex: shift in one digit after the other; -1 at the first character that is none. */
  method IdHex(line: array<char>, p: nat, cnt: nat, ghost s: string) returns (x: int)
    requires CString(line, s) && p <= |s| && cnt <= 4
    ensures x == HexAt(s, p, cnt)
  {
    var n := 0;
    var v: nat := 0;
    while n < cnt
      invariant n <= cnt && p + n <= |s| && H.AllHex(s[p..p + n]) && v == H.Value(s[p..p + n])
    {
      CharAt(line, s, p + n);
      var c := line[p + n];
      if !H.IsHex(c) {
        NotHex(s, p, cnt, n);
        return -1;
      }
      assert s[p..p + n + 1][..n] == s[p..p + n];
      v := v * 16 + H.DigitValue(c);
      n := n + 1;
    }
    x := v;
  }

  /** An id followed by a white character. */
  method ReadId(line: array<char>, p: nat, cnt: nat, ghost s: string) returns (r: Option<u32>)
    requires CString(line, s) && p <= |s| && (cnt == 2 || cnt == 4)
    ensures r == IdAt(s, p, cnt)
  {
    Pow16Small();
    var x := IdHex(line, p, cnt, s);
    if x < 0 {
      return None;
    }
    CharAt(line, s, p + cnt);
    if !White(line[p + cnt]) {
      return None;
    }
    r := Some(ToId(x));
  }

  /** ids_line_preprocess: end the line, cut one white character, and count the leading tabs. */
  method Preprocess(line: array<char>, ghost chunk: string, eof: bool) returns (tooLong: bool, ignored: bool, p: nat)
    requires |chunk| < line.Length && line[..|chunk|] == chunk && line[|chunk|] == '\0'
    modifies line
    ensures tooLong == TooLong(chunk, eof)
    ensures !tooLong ==> CString(line, Body(chunk)) && ignored == Ignored(Body(chunk))
    ensures !tooLong && !ignored ==> p == Tabs(Body(chunk), 0)
  {
    var q := FindStop(line, chunk);
    tooLong, ignored, p := line[q] == '\0' && !eof, false, 0;
    if tooLong {
      return;
    }
    ghost var cut := chunk[..q];
    line[q] := '\0';
    assert line[..q] == cut;
    if q > 0 && White(line[q - 1]) {
      q := q - 1;
      line[q] := '\0';
      assert line[..q] == cut[..q];
    }
    ghost var s := Body(chunk);
    assert CString(line, s);
    p := WalkWhite(line, 0, s);
    CharAt(line, s, p);
    ignored := line[p] == '\0' || line[p] == '#';
    p := WalkTabs(line, s);
  }

  method FindStop(line: array<char>, ghost chunk: string) returns (q: nat)
    requires |chunk| < line.Length && line[..|chunk|] == chunk && line[|chunk|] == '\0'
    ensures q == StopAt(chunk) && line[q] == At(chunk, q)
  {
    q := 0;
    while line[q] != '\0' && line[q] != '\n' && line[q] != '\r'
      invariant q <= |chunk| && forall i :: 0 <= i < q ==> !Stops(chunk[i])
      decreases |chunk| - q
    {
      assert q < |chunk| && line[..|chunk|][q] == line[q];
      q := q + 1;
    }
    assert q < |chunk| ==> line[..|chunk|][q] == line[q];
    StopIsFirst(chunk, q);
  }

  method WalkWhite(line: array<char>, p: nat, ghost s: string) returns (q: nat)
    requires CString(line, s) && p <= |s|
    ensures q == SkipWhite(s, p)
  {
    q := p;
    CharAt(line, s, q);
    while White(line[q])
      invariant p <= q <= |s| && SkipWhite(s, p) == SkipWhite(s, q) && line[q] == At(s, q)
      decreases |s| - q
    {
      q := q + 1;
      CharAt(line, s, q);
    }
  }

  method WalkTabs(line: array<char>, ghost s: string) returns (q: nat)
    requires CString(line, s)
    ensures q == Tabs(s, 0)
  {
    q := 0;
    CharAt(line, s, q);
    while line[q] == '\t'
      invariant q <= |s| && Tabs(s, 0) == Tabs(s, q) && line[q] == At(s, q)
      decreases |s| - q
    {
      q := q + 1;
      CharAt(line, s, q);
    }
  }

  /** The C string from a cursor on. */
  method Tail(line: array<char>, q: nat, ghost s: string) returns (t: string)
    requires CString(line, s) && q <= |s|
    ensures t == s[q..]
  {
    var e := q;
    CharAt(line, s, e);
    while line[e] != '\0'
      invariant q <= e <= |s| && (line[e] == '\0' <==> e == |s|)
      decreases |s| - e
    {
      e := e + 1;
      CharAt(line, s, e);
    }
    t := line[q..e];
  }

  /** fgets: the next chunk of the text, terminated. */
  method Fill(line: array<char>, text: string) returns (chunk: string)
    requires line.Length == MAX_LINE
    modifies line
    ensures chunk == Gets(text) && line[..|chunk|] == chunk && line[|chunk|] == '\0'
  {
    chunk := Gets(text);
    forall k | 0 <= k < |chunk| {
      line[k] := chunk[k];
    }
    line[|chunk|] := '\0';
  }

  /** The reader: the table, the context of the line being read, and the line buffer. */
  class Reader {
    const table: Table
    const line: array<char>
    var ids: Ids
    var lineNo: nat

    constructor (table: Table)
      ensures this.table == table && fresh(line) && line.Length == MAX_LINE
    {
      this.table := table;
      line := new char[1024];
      ids, lineNo := START, 0;
    }

    ghost predicate Valid()
      reads this, line, table, table.buckets
    {
      line.Length == MAX_LINE && table.Valid()
    }

    /** What a parser of one line leaves: an error, or the new context and cursor. */
    ghost predicate Did(step: Step, err: Option<string>, skip: bool, p: nat)
      reads this`ids
    {
      match step
      case Go(i, q) => err == None && !skip && p == q && ids == i
      case Skip(i) => err == None && skip && ids == i
      case Fail(msg) => err == Some(msg)
    }

    /** ids_parse_top_level */
    method ParseTop(ghost s: string) returns (err: Option<string>, skip: bool, p: nat)
      requires Valid() && CString(line, s) && s != ""
      modifies this`ids
      ensures Did(TopLevel(table.log, old(ids), s), err, skip, p)
    {
      CharAt(line, s, 0);
      CharAt(line, s, 1);
      hide Did, ClassLine, SubsystemLine, VendorLine;
      if line[0] == 'C' && line[1] == ' ' {
        err, skip, p := ParseClass(s);
      } else if line[0] == 'S' && line[1] == ' ' {
        err, skip, p := ParseSubsystem(s);
      } else if 'A' <= line[0] <= 'Z' && line[1] == ' ' {
        err, skip, p := ParseReserved();
      } else {
        err, skip, p := ParseVendor(s);
      }
    }

    method ParseClass(ghost s: string) returns (err: Option<string>, skip: bool, p: nat)
      requires Valid() && CString(line, s) && |s| >= 2
      modifies this`ids
      ensures Did(ClassLine(old(ids), s), err, skip, p)
    {
      err, skip, p := None, false, 5;
      var b := ReadId(line, 2, 2, s);
      if b.None? {
        return Some(PARSE_ERROR), false, 0;
      }
      ids := ids.(cat := ID_CLASS, base := b.value, vendor := 0);
      ids := ids.(device := 0, subsysVendor := 0, subsys := 0, sub := SUB_CONFIG);
    }

    method ParseSubsystem(ghost s: string) returns (err: Option<string>, skip: bool, p: nat)
      requires Valid() && CString(line, s) && |s| >= 2
      modifies this`ids
      ensures Did(SubsystemLine(table.log, old(ids), s), err, skip, p)
    {
      hide Best, KeyOf, HexAt, CString, Table.Valid, H.Value, H.AllHex, ToId;
      err, skip, p := None, true, 0;
      Pow16Small();
      var v := IdHex(line, 2, 4, s);
      if v >= 0 {
        CharAt(line, s, 6);
      }
      if v < 0 || line[6] != '\0' {
        return Some(PARSE_ERROR), false, 0;
      }
      ids := ids.(cat := ID_VENDOR, vendor := ToId(v), device := 0, subsysVendor := 0, subsys := 0, base := 0);
      var found := table.Lookup(ids);
      if found.None? {
        return Some("Vendor does not exist"), false, 0;
      }
      ids := ids.(cat := ID_GEN_SUBSYSTEM);
    }

    method ParseReserved() returns (err: Option<string>, skip: bool, p: nat)
      modifies this`ids
      ensures Did(Skip(old(ids).(cat := ID_UNKNOWN, base := 0)), err, skip, p)
    {
      ids := ids.(cat := ID_UNKNOWN, base := 0);
      err, skip, p := None, true, 0;
    }

    method ParseVendor(ghost s: string) returns (err: Option<string>, skip: bool, p: nat)
      requires Valid() && CString(line, s)
      modifies this`ids
      ensures Did(VendorLine(old(ids), s), err, skip, p)
    {
      err, skip, p := None, false, 5;
      var v := ReadId(line, 0, 4, s);
      if v.None? {
        return Some(PARSE_ERROR), false, 0;
      }
      ids := ids.(cat := ID_VENDOR, base := 0, vendor := v.value);
      ids := ids.(device := 0, subsysVendor := 0, subsys := 0, sub := SUB_CONFIG);
    }

    /** ids_parse_nest_level1 */
    method ParseLevel1(ghost s: string) returns (err: Option<string>, p: nat)
      requires Valid() && CString(line, s) && s != ""
      modifies this`ids
      ensures Did(Level1(old(ids), s), err, false, p)
    {
      err, p := Some(PARSE_ERROR), 1;
      if ids.cat == ID_VENDOR || ids.cat == ID_DEVICE || ids.cat == ID_SUBSYSTEM {
        var d := ReadId(line, p, 4, s);
        if d.Some? {
          ids := ids.(device := d.value);
          err, p := None, p + 5;
          ids := ids.(cat := ID_DEVICE, sub := SUB_CONFIG, subsysVendor := 0, subsys := 0, base := 0);
        }
      } else if ids.cat == ID_GEN_SUBSYSTEM {
        var d := ReadId(line, p, 4, s);
        if d.Some? {
          ids := ids.(device := d.value);
          err, p := None, p + 5;
          ids := ids.(sub := SUB_CONFIG, subsysVendor := 0, subsys := 0, base := 0);
        }
      } else if ids.cat == ID_CLASS {
        var b := ReadId(line, p, 2, s);
        if b.Some? {
          ids := ids.(sub := b.value);
          err, p := None, p + 3;
          ids := ids.(subsysVendor := 0, subsys := 0);
        }
      } else if ids.cat == ID_SUBCLASS || ids.cat == ID_PROGIF {
        var d := ReadId(line, p, 2, s);
        if d.Some? {
          ids := ids.(device := d.value);
          err, p := None, p + 3;
          ids := ids.(cat := ID_SUBCLASS, subsysVendor := 0, subsys := 0);
        }
      }
    }

    /** ids_parse_nest_level2 */
    method ParseLevel2(ghost s: string) returns (err: Option<string>, p: nat)
      requires Valid() && CString(line, s) && |s| >= 2
      modifies this`ids
      ensures Did(Level2(old(ids), s), err, false, p)
    {
      err, p := Some(PARSE_ERROR), 2;
      if ids.cat == ID_DEVICE || ids.cat == ID_SUBSYSTEM {
        var x := ReadId(line, p, 4, s);
        if x.None? {
          return;
        }
        ids := ids.(subsysVendor := x.value);
        x := ReadId(line, p + 5, 4, s);
        if x.None? {
          return;
        }
        ids := ids.(subsysVendor := x.value);
        err, p := None, p + 10;
        ids := ids.(cat := ID_SUBSYSTEM);
      } else if ids.cat == ID_CLASS || ids.cat == ID_SUBCLASS || ids.cat == ID_PROGIF {
        var x := ReadId(line, p, 2, s);
        if x.Some? {
          ids := ids.(subsysVendor := x.value);
          err, p := None, p + 3;
          ids := ids.(cat := ID_PROGIF, subsys := 0);
        }
      }
    }

    /** The body of id_parse_list's loop after preprocessing: which parser reads the line, and what it names. */
    method ParseLine(p: nat, ghost s: string) returns (err: Option<string>, skip: bool, q: nat)
      requires Valid() && CString(line, s) && !Ignored(s) && p == Tabs(s, 0)
      modifies this`ids
      ensures Did(IdsFile.ReadLine(table.log, old(ids), s), err, skip, q)
    {
      err, skip, q := None, false, p;
      if p == 0 {
        err, skip, q := ParseTop(s);
      } else if ids.cat == ID_UNKNOWN {
        return None, true, 0;
      } else if p == 1 {
        err, q := ParseLevel1(s);
      } else if p == 2 {
        err, q := ParseLevel2(s);
      } else {
        return Some(PARSE_ERROR), false, 0;
      }
      if err.Some? || skip {
        return;
      }
      q := WalkWhite(line, q, s);
      CharAt(line, s, q);
      if line[q] == '\0' {
        err := Some(PARSE_ERROR);
      }
    }

    /** id_parse_list: the outcome, the line count and the table are what the file spells out. */
    method ParseList(text: string) returns (err: Option<string>)
      requires Valid()
      modifies this, line, table, table.buckets
      ensures Valid()
      ensures Parsed(table.log, err, lineNo) == ReadAll(old(table.log), START, text, 0)
    {
      ids, lineNo := START, 0;
      var rest := text;
      ghost var goal := ReadAll(table.log, START, text, 0);
      while rest != ""
        invariant Valid() && (table.buckets == old(table.buckets) || fresh(table.buckets))
        invariant ReadAll(table.log, ids, rest, lineNo) == goal
        decreases |rest|
      {
        var done, next;
        err, done, next := ParseOne(rest, goal);
        if done {
          return;
        }
        rest := next;
      }
      err := None;
    }

    /** One turn of that loop. */
    method ParseOne(text: string, ghost goal: Parsed) returns (err: Option<string>, done: bool, rest: string)
      requires Valid() && text != "" && ReadAll(table.log, ids, text, lineNo) == goal
      modifies this, line, table, table.buckets
      ensures Valid() && (table.buckets == old(table.buckets) || fresh(table.buckets))
      ensures done ==> Parsed(table.log, err, lineNo) == goal
      ensures !done ==> |rest| < |text| && ReadAll(table.log, ids, rest, lineNo) == goal
    {
      ghost var log, was := table.log, ids;
      var chunk := Fill(line, text);
      rest := text[|chunk|..];
      lineNo := lineNo + 1;
      var tooLong, ignored, p := Preprocess(line, chunk, AtEof(text));
      if tooLong {
        return Some(TOO_LONG), true, rest;
      }
      ghost var s := Body(chunk);
      if ignored {
        return None, false, rest;
      }
      var skip, q;
      err, skip, q := ParseLine(p, s);
      if err.Some? {
        done := true;
        return;
      }
      if skip {
        done := false;
        return;
      }
      var name := Tail(line, q, s);
      var ret := table.Insert(ids, name, SRC_LOCAL);
      if ret != 0 {
        return Some(REFUSED), true, rest;
      }
      done := false;
    }
  }
}
