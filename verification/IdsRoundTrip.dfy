/** A database written as ub.ids text and read back (lsub/ids.c:376-459, ub.ids:4-8). */
module IdsRoundTrip {
  import opened Wrappers
  import opened IdTable
  import opened IdsFile
  import opened IdsGrammar
  import R = IdsReader
  import H = Hex

  /** A name that survives: no white at its ends, no line end or terminator in it, short enough to be stored. */
  predicate GoodName(name: string) {
    && name != "" && !White(name[0]) && !White(name[|name| - 1]) && Fits(name)
    && forall i :: 0 <= i < |name| ==> !Stops(name[i])
  }

  /** Vendor and device ids have four hex digits, class and subclass codes two. */
  predicate Good(item: Item) {
    match item
    case Blank => false
    case Vendor(id, name) => Half(id) && GoodName(name)
    case Device(id, name) => Half(id) && GoodName(name)
    case Class(id, name) => id < 0x100 && GoodName(name)
    case Sub(id, name) => id < 0x100 && GoodName(name)
  }

  /** An id, two blanks, a name, behind what the kind of line starts with. */
  function Line(head: string, digits: string, name: string): string {
    head + digits + "  " + name
  }

  function Head(item: Item): string {
    match item
    case Class(_, _) => "C "
    case Vendor(_, _) => ""
    case _ => "\t"
  }

  function Digits(item: Item): string {
    match item
    case Blank => ""
    case Vendor(id, _) => H.Print(id as nat, 4)
    case Device(id, _) => H.Print(id as nat, 4)
    case Class(id, _) => H.Print(id as nat, 2)
    case Sub(id, _) => H.Print(id as nat, 2)
  }

  /** A line as the documentation writes it. */
  function Render(item: Item): string {
    if item.Blank? then "" else Line(Head(item), Digits(item), item.name)
  }

  /** What stands at the end of each line in front of its line feed. */
  predicate IsReturn(cr: string) {
    cr == "" || cr == "\r"
  }

  /** A line of a file: a comment or blank line, or one that names something. */
  datatype Row = Note(blanks: string, text: Option<string>) | Named(item: Item)

  /** Blanks and tabs, then perhaps a number sign and any text that fits the line. */
  predicate GoodRow(row: Row, cr: string) {
    match row
    case Note(blanks, text) =>
      && Blanks(blanks, |blanks|) && (text.Some? ==> Unstopped(text.value))
      && |RowText(row)| + |cr| < MAX_LINE - 1
    case Named(item) => Good(item)
  }

  function RowText(row: Row): string {
    match row
    case Note(blanks, text) => blanks + if text.Some? then "#" + text.value else ""
    case Named(item) => Render(item)
  }

  function ItemOf(row: Row): Item {
    if row.Named? then row.item else Blank
  }

  function Items(rows: seq<Row>): (items: seq<Item>)
    ensures |items| == |rows| && forall i :: 0 <= i < |rows| ==> items[i] == ItemOf(rows[i])
  {
    seq(|rows|, i requires 0 <= i < |rows| => ItemOf(rows[i]))
  }

  function RenderAll(rows: seq<Row>, cr: string): (lines: seq<string>)
    ensures |lines| == |rows| && forall i :: 0 <= i < |lines| ==> lines[i] == RowText(rows[i]) + cr
  {
    seq(|rows|, i requires 0 <= i < |rows| => RowText(rows[i]) + cr)
  }

  lemma HalfIsSmall(x: u32)
    ensures Half(x) ==> (x as nat) < 0x1_0000
    ensures x < 0x100 ==> (x as nat) < 0x100
    ensures (x as nat) as u32 == x
  {
  }

  predicate Unstopped(s: string) {
    forall i :: 0 <= i < |s| ==> !Stops(s[i])
  }

  /** Where the pieces of a rendered line stand. */
  lemma {:induction false} LinePieces(head: string, d: string, name: string)
    requires GoodName(name) && d != "" && Unstopped(head) && Unstopped(d)
    ensures var s := Line(head, d, name);
      && |s| == |head| + |d| + 2 + |name|
      && s[..|head|] == head && s[|head|..|head| + |d|] == d && At(s, |head| + |d|) == ' '
      && s[|s| - 1] == name[|name| - 1] && Unstopped(s)
  {
    var s := Line(head, d, name);
    assert s[..|head|] == head && s[|head|..|head| + |d|] == d;
  }

  /** After the first blank the name begins. */
  lemma NameStands(head: string, d: string, name: string)
    requires GoodName(name)
    ensures NameAt(Line(head, d, name), |head| + |d| + 1, name)
  {
    var s := Line(head, d, name);
    var p := |head| + |d| + 1;
    assert s[p] == ' ' && s[p + 1] == name[0];
    assert SkipWhite(s, p) == SkipWhite(s, p + 1) == p + 1;
    assert s[p + 1..] == name;
  }

  lemma HexIsPlain(d: string)
    requires H.AllHex(d)
    ensures Unstopped(d) && forall i :: 0 <= i < |d| ==> !White(d[i]) && d[i] != '#' && d[i] != ' '
  {
  }

  /** An id as text, and back. */
  lemma {:induction false} DigitsOf(id: u32, cnt: nat)
    requires (cnt == 2 && id < 0x100) || (cnt == 4 && Half(id))
    ensures var d := H.Print(id as nat, cnt);
      |d| == cnt && H.AllHex(d) && H.Value(d) < 0x1_0000 && ToId(H.Value(d)) == id
  {
    HalfIsSmall(id);
    Pow16Small();
    H.PrintThenRead(id as nat, cnt);
  }

  /** The digits of an item, as text. */
  lemma {:induction false} DigitsStand(item: Item)
    requires Good(item)
    ensures var d := Digits(item);
      && |d| == (if item.Vendor? || item.Device? then 4 else 2) && H.AllHex(d)
      && H.Value(d) < 0x1_0000 && ToId(H.Value(d)) == item.id
  {
    DigitsOf(item.id, if item.Vendor? || item.Device? then 4 else 2);
    hide H.Print, H.Value, H.AllHex, ToId, GoodName;
  }

  /** Digits followed by a white character read back as the id. */
  lemma IdStands(s: string, p: nat, d: string)
    requires (|d| == 2 || |d| == 4) && H.AllHex(d) && p + |d| < |s| && s[p..p + |d|] == d && White(s[p + |d|])
    requires H.Value(d) < 0x1_0000
    ensures IdAt(s, p, |d|) == Some(ToId(H.Value(d)))
  {
    Pow16Small();
  }

  /**
   * A line that starts with a character that is neither white nor a comment mark, or with one tab before such
   * a one.
   */
  lemma StartsAt(s: string, tabs: nat)
    requires tabs <= 1 && tabs < |s| && (tabs == 1 ==> s[0] == '\t')
    requires !White(s[tabs]) && s[tabs] != '#' && s[tabs] != '\0'
    ensures !Ignored(s) && Tabs(s, 0) == tabs
  {
    assert SkipWhite(s, tabs) == tabs && Tabs(s, tabs) == tabs;
  }

  lemma {:induction false} Opening(item: Item)
    requires Good(item)
    ensures var s := Render(item);
      && !Ignored(s) && Tabs(s, 0) == (if item.Device? || item.Sub? then 1 else 0)
      && (item.Vendor? ==> !Reserved(s)) && (item.Class? ==> At(s, 0) == 'C' && At(s, 1) == ' ')
  {
    var s, h, d := Render(item), Head(item), Digits(item);
    DigitsStand(item);
    HexIsPlain(d);
    LinePieces(h, d, item.name);
    hide Line, GoodName, Ignored, Digits, Tabs, SkipWhite, Stops, Unstopped, H.AllHex, H.Value, ToId;
    assert forall i :: 0 <= i < |h| ==> s[i] == s[..|h|][i] == h[i];
    assert s[|h|] == s[|h|..|h| + |d|][0] == d[0];
    assert s[|h| + 1] == s[|h|..|h| + |d|][1] == d[1];
    StartsAt(s, if item.Device? || item.Sub? then 1 else 0);
  }

  /** The id and the name of a rendered line, at the places where the reader looks. */
  lemma {:induction false} IdAndName(item: Item)
    requires Good(item)
    ensures var s, h, n := Render(item), |Head(item)|, if item.Vendor? || item.Device? then 4 else 2;
      IdAt(s, h, n) == Some(item.id) && NameAt(s, h + n + 1, item.name)
  {
    var s, h, d := Render(item), Head(item), Digits(item);
    DigitsStand(item);
    HexIsPlain(d);
    LinePieces(h, d, item.name);
    NameStands(h, d, item.name);
    IdStands(s, |h|, d);
    hide Line, Digits, Head, IdAt, NameAt, GoodName, H.AllHex, H.Value, ToId, Unstopped;
  }

  /** A carriage return is cut off. */
  lemma ReturnIsCut(s: string, cr: string)
    requires Unstopped(s) && |s| + |cr| < MAX_LINE - 1 && IsReturn(cr)
    ensures Plain(s + cr) && Body(s + cr) == Trim(s)
  {
    StopIsFirst(s + cr, |s|);
    assert (s + cr)[..|s|] == s;
    assert '\n' !in s && '\0' !in s;
  }

  /** A rendered line fits one fgets, and cutting and trimming leave it alone. */
  lemma {:induction false} RenderPlain(item: Item, cr: string)
    requires Good(item) && IsReturn(cr)
    ensures Plain(Render(item) + cr) && Body(Render(item) + cr) == Render(item) != ""
  {
    DigitsStand(item);
    HexIsPlain(Digits(item));
    LinePieces(Head(item), Digits(item), item.name);
    hide Line, Digits, H.AllHex, H.Value, ToId, Unstopped, Body, Plain, IsReturn;
    ReturnIsCut(Render(item), cr);
  }

  /** A line that names something is no comment. */
  lemma NoComment(item: Item)
    requires Good(item)
    ensures !Comment(Render(item))
  {
    hide Good, Render, Comment, Ignored, Reserved, At, Tabs, Plain;
    Opening(item);
    RenderPlain(item, "");
    assert Render(item) + "" == Render(item);
    PlainHasNoNul(Render(item));
    IgnoredIff(Render(item));
  }

  lemma PlainHasNoNul(s: string)
    requires Plain(s)
    ensures '\0' !in s
  {
  }

  /** A rendered line spells its item. */
  lemma RenderSpells(item: Item)
    requires Good(item)
    ensures Spells(Render(item), item)
  {
    hide Render, Digits, Comment, Tabs, IdAt, NameAt, Reserved, At, Half;
    Opening(item);
    IdAndName(item);
    NoComment(item);
    assert item.name != "";
  }

  // ----- which entries a rendered database makes

  ghost predicate AllGood(rows: seq<Row>, cr: string) {
    forall i :: 0 <= i < |rows| ==> GoodRow(rows[i], cr)
  }

  /** Every item that names something is good. */
  ghost predicate AllFine(items: seq<Item>) {
    forall i :: 0 <= i < |items| ==> items[i].Blank? || Good(items[i])
  }

  lemma GoodIsFine(rows: seq<Row>, cr: string)
    requires AllGood(rows, cr)
    ensures AllFine(Items(rows))
  {
    hide Good;
  }

  /** The shape of the keys the documented grammar makes: only class 00, subclass 00 has id56 zero. */
  predicate Shaped(e: Entry) {
    && Fits(e.name) && e.src == SRC_LOCAL
    && (e.key.cat == ID_CLASS ==> e.key.id12 == 0 && e.key.id34 == 0)
    && (e.key.id56 == 0 ==> e.key == SubKey(0, 0))
  }

  lemma PairZero(x: u32, y: u32)
    requires Half(x) && Half(y) && Pair(x, y) == 0
    ensures x == 0 && y == 0
  {
    PairParts(x, y);
  }

  lemma MeansShaped(ctx: Context, item: Item)
    requires (item.Blank? || Good(item)) && (ctx.InClass? ==> ctx.base < 0x100)
    ensures forall e :: e in Means(ctx, item) ==> Shaped(e)
  {
    PairParts(0, 0);
    PairParts(0, SUB_CONFIG);
    if item.Class? {
      PairParts(item.id, SUB_CONFIG);
    }
    if item.Sub? && ctx.InClass? && Pair(ctx.base, item.id) == 0 {
      PairZero(ctx.base, item.id);
    }
  }

  lemma {:induction false} MeaningShaped(ctx: Context, items: seq<Item>)
    requires AllFine(items) && (ctx.InClass? ==> ctx.base < 0x100)
    ensures forall e :: e in Meaning(ctx, items) ==> Shaped(e)
    decreases |items|
  {
    if items != [] {
      MeansShaped(ctx, items[0]);
      MeaningShaped(Enter(ctx, items[0]), items[1..]);
    }
  }

  /** No class entry that follows class 00, subclass 00 falls into its bucket. */
  ghost predicate NoLateCollision(ents: seq<Entry>) {
    forall i, j :: 0 <= i < j < |ents| && ents[i].key == SubKey(0, 0) && ents[j].key.cat == ID_CLASS
      ==> Hash(ents[j].key) != Hash(SubKey(0, 0))
  }

  /**
   * Entry `k` is blocked exactly when class 00, subclass 00 was stored before it and it is a class entry in
   * the same bucket.
   */
  lemma BlockedByZero(ents: seq<Entry>, k: nat)
    requires k < |ents| && forall e :: e in ents ==> Shaped(e)
    ensures Blocked(ents[..k], ents[k].key) <==>
      ents[k].key.cat == ID_CLASS && Hash(ents[k].key) == Hash(SubKey(0, 0))
      && exists i :: 0 <= i < k && ents[i].key == SubKey(0, 0)
  {
    var key := ents[k].key;
    PairParts(0, 0);
    BlockedIff(ents[..k], key);
    if Present(ents[..k], ZeroMate(key)) {
      var e :| e in ents[..k] && e.key == ZeroMate(key);
      var i :| 0 <= i < k && ents[i] == e;
      assert Shaped(e);
    }
    if ents[k].key.cat == ID_CLASS && exists i :: 0 <= i < k && ents[i].key == SubKey(0, 0) {
      var i :| 0 <= i < k && ents[i].key == SubKey(0, 0);
      assert Shaped(ents[k]) && ZeroMate(key) == SubKey(0, 0);
      assert ents[i] in ents[..k];
    }
  }

  lemma {:induction false} InsertableIff(ents: seq<Entry>)
    requires forall e :: e in ents ==> Shaped(e)
    ensures Insertable([], ents) <==> NoLateCollision(ents)
  {
    forall k | 0 <= k < |ents|
      ensures [] + ents[..k] == ents[..k] && Fits(ents[k].name)
      ensures Blocked(ents[..k], ents[k].key) <==>
        ents[k].key.cat == ID_CLASS && Hash(ents[k].key) == Hash(SubKey(0, 0))
        && exists i :: 0 <= i < k && ents[i].key == SubKey(0, 0)
    {
      assert Shaped(ents[k]);
      BlockedByZero(ents, k);
    }
    hide Hash, SubKey, Blocked, Fits;
    if Insertable([], ents) {
      forall i, j | 0 <= i < j < |ents| && ents[i].key == SubKey(0, 0) && ents[j].key.cat == ID_CLASS
        ensures Hash(ents[j].key) != Hash(SubKey(0, 0))
      {
        assert !Blocked([] + ents[..j], ents[j].key);
      }
    }
  }

  ghost predicate DistinctKeys(ents: seq<Entry>) {
    forall i, j :: 0 <= i < j < |ents| ==> ents[i].key != ents[j].key
  }

  /** With distinct keys a lookup finds the one entry that has the key. */
  lemma FindsItsOwn(ents: seq<Entry>, k: nat)
    requires DistinctKeys(ents) && k < |ents|
    ensures Best(ents, ents[k].key) == Some(ents[k])
  {
    var r := Best(ents, ents[k].key);
    BestAnswers(ents, ents[k].key);
    var i: nat :| Answers(ents, ents[k].key, i) && ents[i] == r.value;
  }

  /** What tells two lines apart: their kind, their block, their own id. Code ff is the class itself. */
  function Identity(ctx: Context, item: Item): (u32, u32, u32) {
    match (ctx, item)
    case (_, Vendor(id, _)) => (ID_VENDOR, id, 0)
    case (InVendor(v), Device(id, _)) => (ID_DEVICE, v, id)
    case (_, Class(id, _)) => (ID_CLASS, id, 0xFF)
    case (InClass(b), Sub(id, _)) => (ID_CLASS, b, id)
    case _ => (0, 0, 0)
  }

  predicate SmallBlock(ctx: Context) {
    (ctx.InVendor? ==> Half(ctx.vendor)) && (ctx.InClass? ==> ctx.base < 0x100)
  }

  /** The ids that a line stands for in its block, as the reader holds them. */
  function IdsOf(ctx: Context, item: Item): Ids {
    match item
    case Blank => START
    case Vendor(id, _) => Ids(ID_VENDOR, id, 0, 0, 0, 0, SUB_CONFIG)
    case Device(id, _) => Ids(ID_DEVICE, if ctx.InVendor? then ctx.vendor else 0, id, 0, 0, 0, SUB_CONFIG)
    case Class(id, _) => Ids(ID_CLASS, 0, 0, 0, 0, id, SUB_CONFIG)
    case Sub(id, _) => Ids(ID_CLASS, 0, 0, 0, 0, if ctx.InClass? then ctx.base else 0, id)
  }

  predicate Halves(i: Ids) {
    Half(i.vendor) && Half(i.device) && Half(i.subsysVendor) && Half(i.subsys) && Half(i.base) && Half(i.sub)
  }

  lemma IdsAreHalves(ctx: Context, item: Item)
    requires Good(item) && SmallBlock(ctx)
    ensures Halves(IdsOf(ctx, item))
  {
    hide GoodName;
    HalfIsSmall(item.id);
    if ctx.InClass? {
      HalfIsSmall(ctx.base);
    }
    assert Half(0) && Half(SUB_CONFIG);
    hide Half;
  }

  /** A line in its block makes one entry, under the key of its ids. */
  lemma MeansOne(ctx: Context, item: Item)
    requires !item.Blank? && Allowed(ctx, item)
    ensures Means(ctx, item) == [Entry(KeyOf(IdsOf(ctx, item)), SRC_LOCAL, item.name)]
  {
    hide KeyOf;
  }

  /** The identity says as much as the ids. */
  lemma IdentityIsIds(c: Context, x: Item, d: Context, y: Item)
    requires !x.Blank? && !y.Blank? && Allowed(c, x) && Allowed(d, y)
    ensures IdsOf(c, x) == IdsOf(d, y) <==> Identity(c, x) == Identity(d, y)
  {
    assert ID_VENDOR != ID_DEVICE && ID_VENDOR != ID_CLASS && ID_DEVICE != ID_CLASS;
  }

  /** Two lines share a key exactly when they have the same identity. */
  lemma {:induction false} IdentityDecides(c: Context, x: Item, d: Context, y: Item)
    requires Good(x) && Good(y) && Allowed(c, x) && Allowed(d, y) && SmallBlock(c) && SmallBlock(d)
    ensures |Means(c, x)| == 1 && |Means(d, y)| == 1
    ensures Means(c, x)[0].key == Means(d, y)[0].key <==> Identity(c, x) == Identity(d, y)
  {
    assert !x.Blank? && !y.Blank?;
    hide Good, Allowed, SmallBlock, Identity, IdsOf, Means, KeyOf;
    IdsAreHalves(c, x);
    IdsAreHalves(d, y);
    MeansOne(c, x);
    MeansOne(d, y);
    IdentityIsIds(c, x, d, y);
    KeysTellIdsApart(IdsOf(c, x), IdsOf(d, y));
  }

  /**
   * Writing a database in the documented grammar, with comments and blank lines anywhere, and reading
   * the text back: the reading succeeds exactly when no later class entry shares the bucket of class 00,
   * subclass 00, and then every entry is found under its key and nothing is found under any other key.
   */
  lemma {:induction false} RoundTrip(rows: seq<Row>, cr: string, closed: bool)
    requires IsReturn(cr) && AllGood(rows, cr) && Ends(RenderAll(rows, cr), closed)
    requires Nested(Top, Items(rows)) && DistinctKeys(Meaning(Top, Items(rows)))
    ensures var r := ReadAll([], START, FileText(RenderAll(rows, cr), closed), 0);
      var ents := Meaning(Top, Items(rows));
      && (r.err == None <==> NoLateCollision(ents))
      && (r.err == None ==>
            && r.log == ents
            && (forall k :: 0 <= k < |ents| ==> Best(r.log, ents[k].key) == Some(ents[k]))
            && (forall key :: !Present(ents, key) ==> Best(r.log, key) == None))
  {
    hide *;
    ReadsBack(rows, cr, closed);
    LookupsTell(Meaning(Top, Items(rows)));
  }

  /** Reading a rendered file stores exactly its entries, or refuses it. */
  lemma {:induction false} ReadsBack(rows: seq<Row>, cr: string, closed: bool)
    requires IsReturn(cr) && AllGood(rows, cr) && Ends(RenderAll(rows, cr), closed) && Nested(Top, Items(rows))
    ensures var r := ReadAll([], START, FileText(RenderAll(rows, cr), closed), 0);
      && (r.err == None <==> NoLateCollision(Meaning(Top, Items(rows))))
      && (r.err == None ==> r.log == Meaning(Top, Items(rows)))
  {
    hide *;
    var items := Items(rows);
    var ents := Meaning(Top, items);
    GoodFile(rows, cr);
    GoodIsFine(rows, cr);
    MeaningShaped(Top, items);
    InsertableIff(ents);
    FileReads([], START, Top, RenderAll(rows, cr), closed, items, 0);
    assert [] + ents == ents;
  }

  /** With distinct keys a lookup tells every stored entry, and nothing else. */
  lemma LookupsTell(ents: seq<Entry>)
    requires DistinctKeys(ents)
    ensures forall k :: 0 <= k < |ents| ==> Best(ents, ents[k].key) == Some(ents[k])
    ensures forall key :: !Present(ents, key) ==> Best(ents, key) == None
  {
    hide *;
    forall k | 0 <= k < |ents|
      ensures Best(ents, ents[k].key) == Some(ents[k])
    {
      FindsItsOwn(ents, k);
    }
    forall key | !Present(ents, key)
      ensures Best(ents, key) == None
    {
      NothingFound(ents, key);
    }
  }

  lemma NothingFound(log: seq<Entry>, key: Key)
    requires !Present(log, key)
    ensures Best(log, key) == None
  {
    BestAnswers(log, key);
    assert forall i :: 0 <= i < |log| ==> log[i] in log && log[i].key != key;
  }

  /** Class 01, subclass 50 shares the bucket of class 00, subclass 00. */
  lemma CollisionExists()
    ensures SubKey(1, 0x50) != SubKey(0, 0) && Hash(SubKey(1, 0x50)) == Hash(SubKey(0, 0))
  {
    PairParts(0, 0);
    assert Pair(0, 0) == 0 && Pair(1, 0x50) == 0x1_0050;
    assert Mix(SubKey(0, 0)) == 640;
    assert Mix(SubKey(1, 0x50)) == 0x20_0880;
  }

  function LateRows(a: string, b: string, c: string, d: string): seq<Row> {
    [Named(Class(0, a)), Named(Sub(0, b)), Named(Class(1, c)), Named(Sub(0x50, d))]
  }

  function LateEntries(a: string, b: string, c: string, d: string): seq<Entry> {
    [Entry(ClassKey(0), SRC_LOCAL, a), Entry(SubKey(0, 0), SRC_LOCAL, b),
     Entry(ClassKey(1), SRC_LOCAL, c), Entry(SubKey(1, 0x50), SRC_LOCAL, d)]
  }

  lemma LateMeaning(a: string, b: string, c: string, d: string)
    ensures var items := Items(LateRows(a, b, c, d));
      Nested(Top, items) && Meaning(Top, items) == LateEntries(a, b, c, d)
  {
    hide KeyOf;
    var items, ents := Items(LateRows(a, b, c, d)), LateEntries(a, b, c, d);
    assert items == [Class(0, a), Sub(0, b), Class(1, c), Sub(0x50, d)];
    assert items[1..] == [Sub(0, b), Class(1, c), Sub(0x50, d)];
    assert items[1..][1..] == [Class(1, c), Sub(0x50, d)];
    assert items[1..][1..][1..] == [Sub(0x50, d)];
    assert items[1..][1..][1..][1..] == [];
    assert Nested(InClass(1), items[1..][1..][1..]);
    assert Nested(InClass(0), items[1..][1..]);
    assert Nested(InClass(0), items[1..]);
    assert Meaning(InClass(1), items[1..][1..][1..]) == [ents[3]];
    assert Meaning(InClass(0), items[1..][1..]) == [ents[2], ents[3]];
    assert Meaning(InClass(0), items[1..]) == [ents[1], ents[2], ents[3]];
  }

  /** So this file in the documented grammar, without a repeated id, is refused. */
  lemma {:induction false} RefusedFile(a: string, b: string, c: string, d: string, cr: string, closed: bool)
    requires IsReturn(cr) && GoodName(a) && GoodName(b) && GoodName(c) && GoodName(d)
    ensures ReadAll([], START, FileText(RenderAll(LateRows(a, b, c, d), cr), closed), 0).err == Some(REFUSED)
  {
    var rows, ents := LateRows(a, b, c, d), LateEntries(a, b, c, d);
    LateMeaning(a, b, c, d);
    assert AllGood(rows, cr);
    LateCollides(a, b, c, d);
    NamedEnds(rows, cr, closed);
    hide *;
    GoodFile(rows, cr);
    GoodIsFine(rows, cr);
    MeaningShaped(Top, Items(rows));
    InsertableIff(ents);
    FileReads([], START, Top, RenderAll(rows, cr), closed, Items(rows), 0);
  }

  lemma LateCollides(a: string, b: string, c: string, d: string)
    ensures !NoLateCollision(LateEntries(a, b, c, d))
  {
    var ents := LateEntries(a, b, c, d);
    CollisionExists();
    assert ents[1].key == SubKey(0, 0) && ents[3].key == SubKey(1, 0x50) && ents[3].key.cat == ID_CLASS;
    hide SubKey, Hash;
  }

  /** A last line that names something is never empty. */
  lemma NamedEnds(rows: seq<Row>, cr: string, closed: bool)
    requires IsReturn(cr) && AllGood(rows, cr) && (rows != [] ==> rows[|rows| - 1].Named?)
    ensures Ends(RenderAll(rows, cr), closed)
  {
    if rows != [] {
      RenderPlain(rows[|rows| - 1].item, cr);
    }
    hide Good, Render, IsReturn, Body;
  }

  /** A comment stays one when its end is cut. */
  lemma CommentTrim(s: string)
    requires Comment(s)
    ensures Comment(Trim(s))
  {
    var t := Trim(s);
    if Blanks(s, |s|) {
      assert Blanks(t, |t|);
    } else {
      var k :| 0 <= k < |s| && s[k] == '#' && Blanks(s, k);
      assert t[k] == '#' && Blanks(t, k);
    }
  }

  lemma NoteIsComment(row: Row, cr: string)
    requires row.Note? && GoodRow(row, cr)
    ensures Comment(RowText(row)) && Unstopped(RowText(row))
  {
    var s, n := RowText(row), |row.blanks|;
    forall i | 0 <= i < n
      ensures s[i] == row.blanks[i]
    {
    }
    assert Blanks(s, n);
    if row.text.Some? {
      assert s[n] == '#';
    }
  }

  lemma NoteSpells(row: Row, cr: string)
    requires row.Note? && GoodRow(row, cr) && IsReturn(cr)
    ensures Plain(RowText(row) + cr) && Spells(Body(RowText(row) + cr), Blank)
  {
    hide Comment, Body, Plain, Unstopped, Trim, RowText, Blanks, IsReturn;
    NoteIsComment(row, cr);
    ReturnIsCut(RowText(row), cr);
    CommentTrim(RowText(row));
  }

  /** A rendered file spells its items, read from its start. */
  lemma {:induction false} GoodFile(rows: seq<Row>, cr: string)
    requires AllGood(rows, cr) && IsReturn(cr)
    ensures FileSpells(RenderAll(rows, cr), Items(rows)) && InBlock(START, Top)
  {
    hide Good, Plain, Spells, Body, Render, IsReturn;
    var lines := RenderAll(rows, cr);
    forall i | 0 <= i < |rows|
      ensures Plain(lines[i]) && Spells(Body(lines[i]), ItemOf(rows[i]))
    {
      if rows[i].Named? {
        RenderPlain(rows[i].item, cr);
        RenderSpells(rows[i].item);
      } else {
        NoteSpells(rows[i], cr);
      }
    }
  }

  // ----- the same with the reader and the table of the program

  /** The block that item `n` stands in. */
  function BlockAt(items: seq<Item>, n: nat): Context
    requires n <= |items|
  {
    if n == 0 then Top else Enter(BlockAt(items, n - 1), items[n - 1])
  }

  /** What the rest of a list means is part of what the list means. */
  lemma {:induction false} MeaningRest(items: seq<Item>, n: nat)
    requires Nested(Top, items) && n <= |items|
    ensures Nested(BlockAt(items, n), items[n..])
    ensures forall e :: e in Meaning(BlockAt(items, n), items[n..]) ==> e in Meaning(Top, items)
  {
    if n == 0 {
      assert items[0..] == items;
    } else {
      MeaningRest(items, n - 1);
      var ctx, rest := BlockAt(items, n - 1), items[n - 1..];
      assert rest[0] == items[n - 1] && rest[1..] == items[n..];
      assert Meaning(ctx, rest) == Means(ctx, rest[0]) + Meaning(Enter(ctx, rest[0]), rest[1..]);
    }
  }

  /** Each item that names something makes an entry, under its own ids. */
  lemma MeaningHas(items: seq<Item>, n: nat)
    requires Nested(Top, items) && n < |items| && !items[n].Blank?
    ensures Entry(KeyOf(IdsOf(BlockAt(items, n), items[n])), SRC_LOCAL, items[n].name) in Meaning(Top, items)
  {
    MeaningRest(items, n);
    var ctx, rest := BlockAt(items, n), items[n..];
    assert rest[0] == items[n];
    MeansOne(ctx, items[n]);
    hide KeyOf, IdsOf, Means;
    assert Meaning(ctx, rest) == Means(ctx, rest[0]) + Meaning(Enter(ctx, rest[0]), rest[1..]);
    assert Means(ctx, rest[0])[0] in Meaning(ctx, rest);
  }

  /** The table holds the meaning of the items. */
  ghost predicate HoldsAll(table: Table, items: seq<Item>)
    reads table, table.buckets
  {
    && table.Valid() && table.log == Meaning(Top, items)
    && forall e :: e in table.log ==> Best(table.log, e.key) == Some(e)
  }

  /** The name that a lookup of a row finds: its own, or none when it is a comment. */
  function NameOf(row: Row): Option<string> {
    if row.Named? && !row.item.Blank? then Some(row.item.name) else None
  }

  /** Look every item up under its own ids. */
  method LookUpAll(table: Table, rows: seq<Row>) returns (names: seq<Option<string>>)
    requires HoldsAll(table, Items(rows)) && Nested(Top, Items(rows))
    ensures |names| == |rows| && forall k :: 0 <= k < |rows| ==> names[k] == NameOf(rows[k])
  {
    names := [];
    ghost var items := Items(rows);
    var ctx, n := Top, 0;
    while n < |rows|
      invariant n == |names| <= |rows| && ctx == BlockAt(items, n)
      invariant forall k :: 0 <= k < n ==> names[k] == NameOf(rows[k])
    {
      hide Best, KeyOf, Meaning, Nested, Table.Valid, IdsOf;
      var item := ItemOf(rows[n]);
      var name := None;
      if !item.Blank? {
        MeaningHas(items, n);
        name := table.Lookup(IdsOf(ctx, item));
      }
      names := names + [name];
      ctx := Enter(ctx, item);
      n := n + 1;
    }
  }

  /**
   * Fill a new table from the text of a database, then look up every entry and one more set of ids:
   * the reading fails exactly on a late collision, and otherwise every name is found and absent ids are not.
   */
  method WriteThenLookUp(rows: seq<Row>, cr: string, closed: bool, other: Ids)
    returns (err: Option<string>, names: seq<Option<string>>, extra: Option<string>)
    requires IsReturn(cr) && AllGood(rows, cr) && Ends(RenderAll(rows, cr), closed)
    requires Nested(Top, Items(rows)) && DistinctKeys(Meaning(Top, Items(rows)))
    ensures err == None <==> NoLateCollision(Meaning(Top, Items(rows)))
    ensures err == None ==> |names| == |rows| && forall k :: 0 <= k < |rows| ==> names[k] == NameOf(rows[k])
    ensures err == None && !Present(Meaning(Top, Items(rows)), KeyOf(other)) ==> extra == None
  {
    hide *;
    var table := new Table();
    var reader := new R.Reader(table);
    RoundTrip(rows, cr, closed);
    assert reader.Valid() by {
      ReaderReady(reader);
    }
    err := reader.ParseList(FileText(RenderAll(rows, cr), closed));
    names, extra := [], None;
    if err == None {
      TableHolds(reader, Items(rows));
      names := LookUpAll(table, rows);
      extra := table.Lookup(other);
    }
  }

  lemma ReaderReady(reader: R.Reader)
    requires reader.line.Length == MAX_LINE && reader.table.Valid()
    ensures reader.Valid()
  {
  }

  lemma TableHolds(reader: R.Reader, items: seq<Item>)
    requires reader.Valid() && reader.table.log == Meaning(Top, items)
    requires var log := reader.table.log;
      forall k :: 0 <= k < |log| ==> Best(log, log[k].key) == Some(log[k])
    ensures HoldsAll(reader.table, items)
  {
  }
}
