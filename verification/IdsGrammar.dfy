/**
 * The documented two-level grammar of ub.ids (ub.ids:4-8) and what the reader makes of a file in it:
 * each device goes under the latest vendor, each subclass under the latest class.
 */
module IdsGrammar {
  import opened Wrappers
  import opened IdTable
  import opened IdsFile

  /** What a line means; comments and blank lines mean nothing. */
  datatype Item = Blank | Vendor(id: u32, name: string) | Device(id: u32, name: string)
                | Class(id: u32, name: string) | Sub(id: u32, name: string)

  /** The block that nested lines belong to. */
  datatype Context = Top | InVendor(vendor: u32) | InClass(base: u32)

  predicate NameAt(s: string, p: nat, name: string) {
    p <= |s| && name != "" && s[SkipWhite(s, p)..] == name
  }

  predicate Reserved(s: string) {
    'A' <= At(s, 0) <= 'Z' && At(s, 1) == ' '
  }

  /** The first `n` characters are blanks and tabs. */
  predicate Blanks(s: string, n: nat)
    requires n <= |s|
  {
    forall i :: 0 <= i < n ==> s[i] == ' ' || s[i] == '\t'
  }

  /** Nothing but blanks and tabs, or a number sign behind them with anything after it. */
  predicate Comment(s: string) {
    Blanks(s, |s|) || exists k :: 0 <= k < |s| && s[k] == '#' && Blanks(s, k)
  }

  /** These are the lines the reader passes over. */
  lemma IgnoredIff(s: string)
    requires '\0' !in s
    ensures Ignored(s) <==> Comment(s)
  {
    var q := SkipWhite(s, 0);
    assert Blanks(s, q);
    if exists k :: 0 <= k < |s| && s[k] == '#' && Blanks(s, k) {
      var k :| 0 <= k < |s| && s[k] == '#' && Blanks(s, k);
      assert q == k;
    }
  }

  /** A trimmed line spells an item. */
  predicate Spells(s: string, item: Item) {
    match item
    case Blank => Comment(s)
    case Vendor(id, name) =>
      !Comment(s) && Tabs(s, 0) == 0 && !Reserved(s) && IdAt(s, 0, 4) == Some(id) && NameAt(s, 5, name)
    case Device(id, name) => !Comment(s) && Tabs(s, 0) == 1 && IdAt(s, 1, 4) == Some(id) && NameAt(s, 6, name)
    case Class(id, name) =>
      !Comment(s) && At(s, 0) == 'C' && At(s, 1) == ' ' && IdAt(s, 2, 2) == Some(id) && NameAt(s, 5, name)
    case Sub(id, name) => !Comment(s) && Tabs(s, 0) == 1 && IdAt(s, 1, 2) == Some(id) && NameAt(s, 4, name)
  }

  function Enter(ctx: Context, item: Item): Context {
    match item
    case Vendor(id, _) => InVendor(id)
    case Class(id, _) => InClass(id)
    case _ => ctx
  }

  predicate Allowed(ctx: Context, item: Item) {
    (item.Device? ==> ctx.InVendor?) && (item.Sub? ==> ctx.InClass?)
  }

  function VendorKey(v: u32): Key {
    KeyOf(Ids(ID_VENDOR, v, 0, 0, 0, 0, SUB_CONFIG))
  }

  function DeviceKey(v: u32, d: u32): Key {
    KeyOf(Ids(ID_DEVICE, v, d, 0, 0, 0, SUB_CONFIG))
  }

  /** Code ff in the place of the subclass stands for the class itself. */
  function ClassKey(b: u32): Key {
    SubKey(b, SUB_CONFIG)
  }

  function SubKey(b: u32, s: u32): Key {
    KeyOf(Ids(ID_CLASS, 0, 0, 0, 0, b, s))
  }

  /** The entries an item stands for in its block. */
  function Means(ctx: Context, item: Item): seq<Entry> {
    match (ctx, item)
    case (_, Vendor(id, name)) => [Entry(VendorKey(id), SRC_LOCAL, name)]
    case (_, Class(id, name)) => [Entry(ClassKey(id), SRC_LOCAL, name)]
    case (InVendor(v), Device(id, name)) => [Entry(DeviceKey(v, id), SRC_LOCAL, name)]
    case (InClass(b), Sub(id, name)) => [Entry(SubKey(b, id), SRC_LOCAL, name)]
    case _ => []
  }

  /** The entries of a list of items, read from a block on. */
  function Meaning(ctx: Context, items: seq<Item>): seq<Entry>
    decreases |items|
  {
    if items == [] then [] else Means(ctx, items[0]) + Meaning(Enter(ctx, items[0]), items[1..])
  }

  /** Nested items stand under a block of their own kind. */
  predicate Nested(ctx: Context, items: seq<Item>)
    decreases |items|
  {
    items == [] || (Allowed(ctx, items[0]) && Nested(Enter(ctx, items[0]), items[1..]))
  }

  /** The reader's ids agree with the block. */
  predicate InBlock(ids: Ids, ctx: Context) {
    match ctx
    case Top => ids.cat == START.cat
    case InVendor(v) =>
      && (ids.cat == ID_VENDOR || ids.cat == ID_DEVICE) && ids.vendor == v
      && ids.subsysVendor == 0 && ids.subsys == 0 && ids.base == 0 && ids.sub == SUB_CONFIG
    case InClass(b) =>
      && ids.cat == ID_CLASS && ids.vendor == 0 && ids.device == 0
      && ids.subsysVendor == 0 && ids.subsys == 0 && ids.base == b
  }

  lemma NameFound(s: string, p: nat, name: string)
    requires NameAt(s, p, name)
    ensures At(s, SkipWhite(s, p)) != '\0' || '\0' in s
  {
    assert SkipWhite(s, p) < |s|;
  }

  /** The reader takes the line for the entry it means in its block, and goes on in the block it leaves. */
  predicate TakenFor(r: Step, ids: Ids, ctx: Context, s: string, item: Item) {
    match r
    case Skip(i) => item.Blank? && i == ids
    case Fail(_) => false
    case Go(i, q) =>
      && !item.Blank? && InBlock(i, Enter(ctx, item)) && q < |s|
      && Means(ctx, item) == [Entry(KeyOf(i), SRC_LOCAL, s[q..])]
  }

  lemma TopReads(log: seq<Entry>, ids: Ids, ctx: Context, s: string, item: Item)
    requires Spells(s, item) && (item.Vendor? || item.Class?) && '\0' !in s
    ensures TakenFor(ReadLine(log, ids, s), ids, ctx, s, item)
  {
    IgnoredIff(s);
    NameFound(s, 5, item.name);
  }

  lemma NestedReads(log: seq<Entry>, ids: Ids, ctx: Context, s: string, item: Item)
    requires Spells(s, item) && Allowed(ctx, item) && InBlock(ids, ctx) && (item.Device? || item.Sub?) && '\0' !in s
    ensures TakenFor(ReadLine(log, ids, s), ids, ctx, s, item)
  {
    IgnoredIff(s);
    NameFound(s, if item.Device? then 6 else 4, item.name);
  }

  /** Reading a line in its block. */
  lemma {:induction false} LineReads(log: seq<Entry>, ids: Ids, ctx: Context, s: string, item: Item)
    requires Spells(s, item) && Allowed(ctx, item) && InBlock(ids, ctx) && '\0' !in s
    ensures TakenFor(ReadLine(log, ids, s), ids, ctx, s, item)
  {
    IgnoredIff(s);
    if item.Vendor? || item.Class? {
      TopReads(log, ids, ctx, s, item);
    } else if item.Device? || item.Sub? {
      NestedReads(log, ids, ctx, s, item);
    }
  }

  // ----- files

  /** A line that one fgets reads whole, without its line feed. From a carriage return on it is ignored. */
  predicate Plain(line: string) {
    |line| < MAX_LINE - 1 && '\n' !in line && '\0' !in line
  }

  /** The text of a file; when it is not closed its last line has no line feed. */
  function FileText(lines: seq<string>, closed: bool): string {
    if lines == [] then ""
    else if |lines| == 1 && !closed then lines[0]
    else lines[0] + "\n" + FileText(lines[1..], closed)
  }

  /** A last line without a line feed is not empty, or it would be no line. */
  predicate Ends(lines: seq<string>, closed: bool) {
    closed || lines == [] || lines[|lines| - 1] != ""
  }

  ghost predicate FileSpells(lines: seq<string>, items: seq<Item>) {
    |lines| == |items| && forall i :: 0 <= i < |lines| ==> Plain(lines[i]) && Spells(Body(lines[i]), items[i])
  }

  /** Every entry finds room and no entry stored before it blocks it. */
  ghost predicate Insertable(log: seq<Entry>, ents: seq<Entry>) {
    forall k :: 0 <= k < |ents| ==> Fits(ents[k].name) && !Blocked(log + ents[..k], ents[k].key)
  }

  lemma {:induction false} FindFirst(text: string, c: char, n: nat)
    requires n < |text| && text[n] == c && c !in text[..n]
    ensures FindChar(text, c) == n
  {
    if n > 0 {
      assert text[0] in text[..n];
      assert text[1..][..n - 1] == text[..n][1..];
      FindFirst(text[1..], c, n - 1);
    }
  }

  /** The text starts with a line, closed or the last one, and goes on with `rest`. */
  predicate Begins(text: string, line: string, rest: string) {
    text == line + "\n" + rest || (text == line && rest == "" && line != "")
  }

  /** Where a line stops does not depend on its line feed. */
  lemma StopWithFeed(line: string)
    requires '\n' !in line
    ensures StopAt(line + "\n") == StopAt(line)
  {
    StopIsFirst(line + "\n", StopAt(line));
  }

  lemma NoFeed(text: string, c: char)
    requires c !in text
    ensures FindChar(text, c) == |text|
  {
  }

  /** The first line of a file is read whole, with or without a line feed, and only cut and trimmed. */
  lemma {:induction false} FirstLine(text: string, line: string, rest: string)
    requires Plain(line) && Begins(text, line, rest)
    ensures var chunk := Gets(text);
      text != "" && text[|chunk|..] == rest && !TooLong(chunk, AtEof(text)) && Body(chunk) == Body(line)
  {
    if text == line + "\n" + rest {
      assert text[..|line|] == line;
      FindFirst(text, '\n', |line|);
      assert text[..|line| + 1] == line + "\n";
      StopWithFeed(line);
      assert (line + "\n")[..StopAt(line)] == line[..StopAt(line)];
      assert '\0' !in line + "\n";
      assert At(line + "\n", StopAt(line)) in line + "\n";
    } else {
      NoFeed(text, '\n');
    }
  }

  lemma InsertableFirst(log: seq<Entry>, e: Entry, ents: seq<Entry>)
    ensures Insertable(log, [e] + ents) <==> Fits(e.name) && !Blocked(log, e.key) && Insertable(log + [e], ents)
  {
    var all := [e] + ents;
    assert log + all[..0] == log;
    forall k | 0 <= k < |ents|
      ensures all[k + 1] == ents[k] && log + all[..k + 1] == log + [e] + ents[..k]
    {
      assert all[..k + 1] == [e] + ents[..k];
    }
    if Insertable(log, all) {
      assert all[0] == e;
      forall k | 0 <= k < |ents|
        ensures Fits(ents[k].name) && !Blocked(log + [e] + ents[..k], ents[k].key)
      {
        assert Fits(all[k + 1].name) && !Blocked(log + all[..k + 1], all[k + 1].key);
      }
    }
    if Fits(e.name) && !Blocked(log, e.key) && Insertable(log + [e], ents) {
      forall k | 0 <= k < |all|
        ensures Fits(all[k].name) && !Blocked(log + all[..k], all[k].key)
      {
        if k > 0 {
          assert Fits(ents[k - 1].name) && !Blocked(log + [e] + ents[..k - 1], ents[k - 1].key);
        }
      }
    }
  }

  /** One line of a file, as the reader takes it. */
  lemma {:induction false} ReadsFirst(log: seq<Entry>, ids: Ids, text: string, line: string, rest: string, n: nat)
    requires Plain(line) && Begins(text, line, rest)
    ensures var r := ReadAll(log, ids, text, n);
      match ReadLine(log, ids, Body(line))
      case Skip(i) => r == ReadAll(log, i, rest, n + 1)
      case Fail(msg) => r == Parsed(log, Some(msg), n + 1)
      case Go(i, q) =>
        var e := Entry(KeyOf(i), SRC_LOCAL, Body(line)[q..]);
        r == if Blocked(log, e.key) || !Fits(e.name) then Parsed(log, Some(REFUSED), n + 1)
             else ReadAll(log + [e], i, rest, n + 1)
  {
    FirstLine(text, line, rest);
    hide Gets, TooLong, Body, ReadLine, Blocked, Begins;
  }

  /** One line of a file in the grammar: the entry it adds, the ids it leaves, and how the reading goes on. */
  lemma {:induction false} FileStep(log: seq<Entry>, ids: Ids, ctx: Context, text: string, line: string, rest: string,
                                    item: Item, n: nat) returns (added: seq<Entry>, ids': Ids)
    requires Plain(line) && Begins(text, line, rest)
    requires Spells(Body(line), item) && Allowed(ctx, item) && InBlock(ids, ctx)
    ensures added == Means(ctx, item) && InBlock(ids', Enter(ctx, item)) && |added| <= 1
    ensures var r := ReadAll(log, ids, text, n);
      if added == [] then r == ReadAll(log, ids', rest, n + 1)
      else if Blocked(log, added[0].key) || !Fits(added[0].name) then r == Parsed(log, Some(REFUSED), n + 1)
      else r == ReadAll(log + added, ids', rest, n + 1)
  {
    ReadsFirst(log, ids, text, line, rest, n);
    LineReads(log, ids, ctx, Body(line), item);
    assert item.Blank? ==> Means(ctx, item) == [] && Enter(ctx, item) == ctx;
    hide ReadAll, ReadLine, Spells, InBlock, Means, Body, KeyOf, Blocked, Plain, Allowed, Enter, Fits, Begins;
    var step := ReadLine(log, ids, Body(line));
    ids' := step.ids;
    added := if item.Blank? then [] else [Entry(KeyOf(step.ids), SRC_LOCAL, Body(line)[step.pos..])];
  }

  /**
   * Reading a file in the documented grammar succeeds exactly when every entry can be inserted, and
   * then the table has gained what the items mean, in order.
   */
  lemma {:induction false} FileReads(log: seq<Entry>, ids: Ids, ctx: Context, lines: seq<string>, closed: bool,
                                     items: seq<Item>, n: nat)
    requires FileSpells(lines, items) && Ends(lines, closed) && Nested(ctx, items) && InBlock(ids, ctx)
    ensures var r := ReadAll(log, ids, FileText(lines, closed), n);
      var ents := Meaning(ctx, items);
      if Insertable(log, ents) then r == Parsed(log + ents, None, n + |lines|) else r.err == Some(REFUSED)
    decreases |lines|
  {
    if lines == [] {
      assert log + [] == log;
    } else {
      var line, item := lines[0], items[0];
      var rest := FileText(lines[1..], closed);
      var more := Meaning(Enter(ctx, item), items[1..]);
      FirstOf(ctx, lines, closed, items);
      hide *;
      var added, ids' := FileStep(log, ids, ctx, FileText(lines, closed), line, rest, item, n);
      Joins(log, added, more);
      if added == [] {
        FileReads(log, ids', Enter(ctx, item), lines[1..], closed, items[1..], n + 1);
      } else if Fits(added[0].name) && !Blocked(log, added[0].key) {
        FileReads(log + added, ids', Enter(ctx, item), lines[1..], closed, items[1..], n + 1);
      }
    }
  }

  /** The first line of a file and the rest of it. */
  lemma FirstOf(ctx: Context, lines: seq<string>, closed: bool, items: seq<Item>)
    requires FileSpells(lines, items) && Ends(lines, closed) && Nested(ctx, items) && lines != []
    ensures Plain(lines[0]) && Spells(Body(lines[0]), items[0]) && Allowed(ctx, items[0])
    ensures Begins(FileText(lines, closed), lines[0], FileText(lines[1..], closed))
    ensures FileSpells(lines[1..], items[1..]) && Ends(lines[1..], closed) && Nested(Enter(ctx, items[0]), items[1..])
    ensures Meaning(ctx, items) == Means(ctx, items[0]) + Meaning(Enter(ctx, items[0]), items[1..])
  {
    assert forall i :: 0 <= i < |lines| - 1 ==> lines[1..][i] == lines[i + 1] && items[1..][i] == items[i + 1];
  }

  /** The entries of the first line and of the rest, inserted one after the other. */
  lemma Joins(log: seq<Entry>, added: seq<Entry>, more: seq<Entry>)
    requires |added| <= 1
    ensures log + (added + more) == log + added + more && (added == [] ==> added + more == more)
    ensures added != [] ==>
      (Insertable(log, added + more) <==>
         Fits(added[0].name) && !Blocked(log, added[0].key) && Insertable(log + added, more))
  {
    if added != [] {
      assert added == [added[0]];
      InsertableFirst(log, added[0], more);
    }
  }
}
