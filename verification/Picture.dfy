/**
 * The printout read as a picture: what stands at which row and column. This is the reference for
 * the layout by hanging blocks, independent of how the lines are put together.
 */
module Picture {
  import opened Network
  import opened Layout
  import opened Drawing
  import opened Extent
  import H = Hex

  predicate ShowsAt(ls: Lines, row: nat, col: nat, text: string) {
    row < |ls| && col + |text| <= |ls[row]| && ls[row][col..col + |text|] == text
  }

  predicate EndsAt(ls: Lines, row: nat, col: nat) {
    row < |ls| && |ls[row]| == col
  }

  /** Rows `from` to `to`, columns `col` to `col + width`, are blank. */
  predicate BlankBox(ls: Lines, from: nat, to: nat, col: nat, width: nat) {
    to <= |ls| && forall r :: from <= r < to ==>
      col + width <= |ls[r]| && forall c :: col <= c < col + width ==> ls[r][c] == ' '
  }

  /** Rows `from` to `to` have character `x` in column `col`. */
  predicate Column(ls: Lines, from: nat, to: nat, col: nat, x: char) {
    to <= |ls| && forall r :: from <= r < to ==> col < |ls[r]| && ls[r][col] == x
  }

  /** The rows a tree takes: one for a mention, and for an expansion one for each port that shows nothing beyond it. */
  function Height(t: Tree): (h: nat)
    ensures h >= 1
  {
    match t
    case Quoted(_) => 1
    case Opened(_, kids) => if kids.Done? then 1 else KidsHeight(kids)
  }

  function KidsHeight(kids: Kids): (h: nat)
    ensures !kids.Done? ==> h >= 1
  {
    match kids
    case Done => 0
    case Alone(_, rest) => 1 + KidsHeight(rest)
    case Linked(_, _, sub, rest) => Height(sub) + KidsHeight(rest)
  }

  function ForestHeight(f: Forest): nat {
    match f
    case Empty => 0
    case Root(t, rest) => Height(t) + ForestHeight(rest)
  }

  /** The entity stands at (row, col) with blanks below it, and its ports start nine columns on. */
  predicate TreeAt(net: Net, t: Tree, ls: Lines, row: nat, col: nat) {
    match t
    case Quoted(i) =>
      ShowsAt(ls, row, col, QuotedText(net, i)) && EndsAt(ls, row, col + 8)
    case Opened(i, kids) =>
      && ShowsAt(ls, row, col, OpenedText(net, i))
      && BlankBox(ls, row + 1, row + Height(t), col, 9)
      && (if kids.Done? then EndsAt(ls, row, col + 9) else KidsAt(net, kids, Single(kids), ls, row, col + 9))
  }

  /**
   * Each port stands below the one before it, in the same columns. Under a port that has a
   * successor the branch column shows a bar down to that successor; under the last one it is blank.
   */
  predicate KidsAt(net: Net, kids: Kids, only: bool, ls: Lines, row: nat, col: nat) {
    match kids
    case Done => true
    case Alone(src, rest) =>
      && ShowsAt(ls, row, col, Joint(only, rest.Done?) + SrcText(net, src)) && EndsAt(ls, row, col + 6)
      && KidsAt(net, rest, false, ls, row + 1, col)
    case Linked(src, dst, sub, rest) =>
      var next := row + Height(sub);
      && LinkAt(net, only, rest.Done?, src, dst, ls, row, next, col)
      && TreeAt(net, sub, ls, row, col + 11)
      && KidsAt(net, rest, false, ls, next, col)
  }

  predicate LinkAt(net: Net, only: bool, last: bool, src: nat, dst: nat, ls: Lines, row: nat, next: nat, col: nat) {
    && ShowsAt(ls, row, col, Joint(only, last) + SrcText(net, src) + DstText(net, dst))
    && Column(ls, row + 1, next, col, if only || last then ' ' else '|')
    && BlankBox(ls, row + 1, next, col + 1, 10)
  }

  predicate RootsAt(net: Net, f: Forest, only: bool, ls: Lines, row: nat) {
    match f
    case Empty => true
    case Root(t, rest) =>
      var next := row + Height(t);
      && RootAt(only, rest.Empty?, ls, row, next)
      && TreeAt(net, t, ls, row, 2)
      && RootsAt(net, rest, false, ls, next)
  }

  /** The printout starts with a dash; the controllers branch off in column 1. */
  predicate RootAt(only: bool, last: bool, ls: Lines, row: nat, next: nat) {
    && ShowsAt(ls, row, 0, (if row == 0 then "-" else " ") + Joint(only, last))
    && BlankBox(ls, row + 1, next, 0, 1)
    && Column(ls, row + 1, next, 1, if only || last then ' ' else '|')
  }

  // ----- hanging blocks draw the picture

  /** The layout takes as many rows as the picture. */
  lemma {:induction false} BlockHeight(net: Net, t: Tree)
    ensures |TreeBlock(net, t)| == Height(t)
  {
    if t.Opened? {
      KidsBlockHeight(net, t.kids, Single(t.kids));
    }
  }

  lemma {:induction false} KidsBlockHeight(net: Net, kids: Kids, only: bool)
    ensures |KidsBlock(net, kids, only)| == KidsHeight(kids)
  {
    match kids
    case Done =>
    case Alone(_, rest) =>
      KidsBlockHeight(net, rest, false);
    case Linked(_, _, sub, rest) =>
      BlockHeight(net, sub);
      KidsBlockHeight(net, rest, false);
  }

  lemma {:induction false} RootsBlockHeight(net: Net, f: Forest, only: bool)
    ensures |RootsBlock(net, f, only)| == ForestHeight(f)
  {
    if f.Root? {
      BlockHeight(net, f.tree);
      RootsBlockHeight(net, f.rest, false);
    }
  }

  /** The block stands in `ls` from `row` on, hanging from `p`. */
  predicate Placed(ls: Lines, row: nat, p: string, b: Lines) {
    row + |b| <= |ls| && ls[row..row + |b|] == Hang(p, b)
  }

  lemma PlacedSplits(ls: Lines, row: nat, p: string, a: Lines, b: Lines)
    requires a != [] && Placed(ls, row, p, a + b)
    ensures Placed(ls, row, p, a) && Placed(ls, row + |a|, Blank(p), b)
  {
    HangAppend(p, a, b);
    var n := |a| + |b|;
    assert ls[row..row + |a|] == ls[row..row + n][..|a|];
    assert ls[row + |a|..row + n] == ls[row..row + n][|a|..];
    assert Hang(p, a + b)[..|a|] == Hang(p, a);
    assert Hang(p, a + b)[|a|..] == Hang(Blank(p), b);
  }

  /** A hanging block shows its own prefix in its first row and the bars of that prefix below. */
  lemma PlacedHang(ls: Lines, row: nat, p: string, q: string, b: Lines)
    requires b != [] && Placed(ls, row, p, Hang(q, b))
    ensures Placed(ls, row, p + q, b)
    ensures ShowsAt(ls, row, |p|, q)
    ensures forall r :: row + 1 <= r < row + |b| ==>
      |p| + |q| <= |ls[r]| && forall x :: |p| <= x < |p| + |q| ==> ls[r][x] == Bar(q[x - |p|])
  {
    HangHang(p, q, b);
    assert ls[row] == ls[row..row + |b|][0] == p + q + b[0];
    forall r | row + 1 <= r < row + |b|
      ensures |p| + |q| <= |ls[r]| && forall x :: |p| <= x < |p| + |q| ==> ls[r][x] == Bar(q[x - |p|])
    {
      assert ls[r] == ls[row..row + |b|][r - row] == Blank(p + q) + b[r - row];
    }
  }

  /** Text without branch characters, as every piece but the joint is. */
  predicate Plain(s: string) {
    forall k :: 0 <= k < |s| ==> Bar(s[k]) == ' '
  }

  lemma PiecesArePlain(net: Net, i: nat, p: nat)
    ensures Plain(OpenedText(net, i)) && Plain(SrcText(net, p)) && Plain(DstText(net, p))
  {
    assert H.AllHex(EntHex(net, i)) && H.AllHex(PortHex(net, p));
    forall c | H.IsHex(c)
      ensures Bar(c) == ' '
    {
    }
  }

  /** Rows below a hanging piece are blank where the piece is plain. */
  lemma PlainBox(ls: Lines, row: nat, n: nat, col: nat, q: string, x: nat)
    requires row + n <= |ls| && x <= |q| && Plain(q[x..])
    requires forall r :: row + 1 <= r < row + n ==>
      col + |q| <= |ls[r]| && forall c :: col <= c < col + |q| ==> ls[r][c] == Bar(q[c - col])
    ensures n > 0 ==> BlankBox(ls, row + 1, row + n, col + x, |q| - x)
  {
    forall r, c | row + 1 <= r < row + n && col + x <= c < col + |q|
      ensures ls[r][c] == ' '
    {
      assert q[x..][c - col - x] == q[c - col];
    }
  }

  /** A placed tree is drawn at the end of its prefix. */
  lemma {:induction false} TreeDrawn(net: Net, t: Tree, ls: Lines, row: nat, p: string)
    requires UniqueNums(net) && SmallPortNums(net) && Placed(ls, row, p, TreeBlock(net, t))
    ensures TreeAt(net, t, ls, row, |p|)
    decreases t
  {
    Widths(net, t.ent, 0);
    BlockHeight(net, t);
    match t
    case Quoted(i) =>
      assert ls[row] == ls[row..row + 1][0] == p + QuotedText(net, i);
    case Opened(i, kids) =>
      var b := if kids.Done? then [""] else KidsBlock(net, kids, Single(kids));
      var q := OpenedText(net, i);
      PlacedHang(ls, row, p, q, b);
      PiecesArePlain(net, i, 0);
      assert q[0..] == q;
      PlainBox(ls, row, |b|, |p|, q, 0);
      if kids.Done? {
        assert ls[row] == ls[row..row + 1][0] == p + q + "";
      } else {
        KidsDrawn(net, kids, Single(kids), ls, row, p + q);
      }
  }

  /** One linked port: its text, the bar below its joint, the blanks below the rest. */
  lemma {:induction false} LinkedDrawn(net: Net, only: bool, last: bool, src: nat, dst: nat, b: Lines, ls: Lines,
                                       row: nat, p: string)
    requires UniqueNums(net) && SmallPortNums(net) && b != []
    requires Placed(ls, row, p, Hang(Joint(only, last) + SrcText(net, src), Hang(DstText(net, dst), b)))
    ensures var q := Joint(only, last) + SrcText(net, src) + DstText(net, dst);
      |q| == 11 && Placed(ls, row, p + q, b)
    ensures LinkAt(net, only, last, src, dst, ls, row, row + |b|, |p|)
  {
    var j, s, d := Joint(only, last), SrcText(net, src), DstText(net, dst);
    var q := j + s + d;
    Widths(net, 0, src);
    Widths(net, 0, dst);
    HangHang(j + s, d, b);
    PlacedHang(ls, row, p, q, b);
    PiecesArePlain(net, 0, src);
    PiecesArePlain(net, 0, dst);
    assert q[1..] == s + d;
    PlainBox(ls, row, |b|, |p|, q, 1);
  }

  lemma AloneDrawn(net: Net, q: string, ls: Lines, row: nat, p: string)
    requires Placed(ls, row, p, Hang(q, [""]))
    ensures ShowsAt(ls, row, |p|, q) && EndsAt(ls, row, |p| + |q|)
  {
    PlacedHang(ls, row, p, q, [""]);
    assert ls[row] == ls[row..row + 1][0] == p + q + "";
  }

  /** The block of a port list is the block of its first port above the block of the others. */
  lemma KidsSplit(net: Net, kids: Kids, only: bool, ls: Lines, row: nat, p: string) returns (first: Lines)
    requires !kids.Done? && Placed(ls, row, p, KidsBlock(net, kids, only))
    ensures first != [] && Placed(ls, row, p, first)
    ensures Placed(ls, row + |first|, Blank(p), KidsBlock(net, kids.rest, false))
    ensures first == Hang(Joint(only, kids.rest.Done?) + SrcText(net, kids.src),
                          if kids.Alone? then [""] else Hang(DstText(net, kids.dst), TreeBlock(net, kids.sub)))
  {
    first := Hang(Joint(only, kids.rest.Done?) + SrcText(net, kids.src),
                  if kids.Alone? then [""] else Hang(DstText(net, kids.dst), TreeBlock(net, kids.sub)));
    PlacedSplits(ls, row, p, first, KidsBlock(net, kids.rest, false));
  }

  lemma {:induction false} KidsDrawn(net: Net, kids: Kids, only: bool, ls: Lines, row: nat, p: string)
    requires UniqueNums(net) && SmallPortNums(net) && Placed(ls, row, p, KidsBlock(net, kids, only))
    ensures KidsAt(net, kids, only, ls, row, |p|)
    decreases kids
  {
    hide ShowsAt, EndsAt, LinkAt, Placed, Hang;
    match kids
    case Done =>
    case Alone(src, rest) =>
      Widths(net, 0, src);
      var first := KidsSplit(net, kids, only, ls, row, p);
      AloneDrawn(net, Joint(only, rest.Done?) + SrcText(net, src), ls, row, p);
      KidsDrawn(net, rest, false, ls, row + 1, Blank(p));
    case Linked(src, dst, sub, rest) =>
      LinkedKidDrawn(net, kids, only, ls, row, p);
  }

  lemma {:induction false} LinkedKidDrawn(net: Net, kids: Kids, only: bool, ls: Lines, row: nat, p: string)
    requires UniqueNums(net) && SmallPortNums(net) && kids.Linked? && Placed(ls, row, p, KidsBlock(net, kids, only))
    ensures LinkAt(net, only, kids.rest.Done?, kids.src, kids.dst, ls, row, row + Height(kids.sub), |p|)
    ensures TreeAt(net, kids.sub, ls, row, |p| + 11)
    ensures KidsAt(net, kids.rest, false, ls, row + Height(kids.sub), |p|)
    decreases kids, 0
  {
    hide ShowsAt, EndsAt, LinkAt, Placed, Hang;
    var Linked(src, dst, sub, rest) := kids;
    BlockHeight(net, sub);
    var first := KidsSplit(net, kids, only, ls, row, p);
    LinkedDrawn(net, only, rest.Done?, src, dst, TreeBlock(net, sub), ls, row, p);
    TreeDrawn(net, sub, ls, row, p + (Joint(only, rest.Done?) + SrcText(net, src) + DstText(net, dst)));
    KidsDrawn(net, rest, false, ls, row + |first|, Blank(p));
  }

  lemma RootDrawn(only: bool, last: bool, b: Lines, ls: Lines, row: nat, p: string)
    requires b != [] && p == (if row == 0 then "-" else " ")
    requires Placed(ls, row, p, Hang(Joint(only, last), b))
    ensures Placed(ls, row, p + Joint(only, last), b) && RootAt(only, last, ls, row, row + |b|)
  {
    var j := Joint(only, last);
    PlacedHang(ls, row, p, j, b);
    assert ls[row] == ls[row..row + |b|][0] == p + j + b[0];
    forall r | row + 1 <= r < row + |b|
      ensures 1 <= |ls[r]| && ls[r][0] == ' '
    {
      assert ls[r] == ls[row..row + |b|][r - row] == Blank(p + j) + b[r - row];
    }
  }

  lemma RootsSplit(net: Net, f: Forest, only: bool, ls: Lines, row: nat, p: string) returns (first: Lines)
    requires f.Root? && Placed(ls, row, p, RootsBlock(net, f, only))
    ensures first == Hang(Joint(only, f.rest.Empty?), TreeBlock(net, f.tree)) && first != []
    ensures Placed(ls, row, p, first) && Placed(ls, row + |first|, Blank(p), RootsBlock(net, f.rest, false))
  {
    first := Hang(Joint(only, f.rest.Empty?), TreeBlock(net, f.tree));
    PlacedSplits(ls, row, p, first, RootsBlock(net, f.rest, false));
  }

  lemma {:induction false} RootsDrawn(net: Net, f: Forest, only: bool, ls: Lines, row: nat, p: string)
    requires UniqueNums(net) && SmallPortNums(net) && p == (if row == 0 then "-" else " ")
    requires Placed(ls, row, p, RootsBlock(net, f, only))
    ensures RootsAt(net, f, only, ls, row)
    decreases f
  {
    hide ShowsAt, RootAt, TreeAt, Placed, Hang, Blank;
    if f.Root? {
      BlockHeight(net, f.tree);
      var first := RootsSplit(net, f, only, ls, row, p);
      RootDrawn(only, f.rest.Empty?, TreeBlock(net, f.tree), ls, row, p);
      TreeDrawn(net, f.tree, ls, row, p + Joint(only, f.rest.Empty?));
      BlankDash();
      RootsDrawn(net, f.rest, false, ls, row + |first|, " ");
    }
  }

  lemma BlankDash()
    ensures Blank("-") == " " && Blank(" ") == " "
  {
  }

  /** The printout is the picture: an entity at depth d starts at column 2 + 20 * d of its row. */
  lemma {:induction false} PrintoutIsPicture(net: Net, f: Forest)
    requires UniqueNums(net) && SmallPortNums(net)
    ensures |ForestBlock(net, f)| == ForestHeight(f)
    ensures RootsAt(net, f, f.Root? && f.rest.Empty?, ForestBlock(net, f), 0)
  {
    if f.Root? {
      RootsBlockHeight(net, f, f.rest.Empty?);
      var ls := ForestBlock(net, f);
      assert ls[0..0 + |ls|] == ls;
      RootsDrawn(net, f, f.rest.Empty?, ls, 0, "-");
    }
  }

  // ----- nothing else is the picture

  /** Rows `from` to `to` agree from column `col` on. */
  ghost predicate SameFrom(a: Lines, b: Lines, from: nat, to: nat, col: nat) {
    && to <= |a| && to <= |b|
    && forall r :: from <= r < to ==> col <= |a[r]| && col <= |b[r]| && a[r][col..] == b[r][col..]
  }

  /** Rows `from` to `to` agree in `w` columns from `col` on. */
  ghost predicate SameBox(a: Lines, b: Lines, from: nat, to: nat, col: nat, w: nat) {
    && to <= |a| && to <= |b|
    && forall r :: from <= r < to ==> col + w <= |a[r]| && col + w <= |b[r]| && a[r][col..col + w] == b[r][col..col + w]
  }

  lemma SameJoins(a: Lines, b: Lines, from: nat, to: nat, col: nat, w: nat)
    requires SameBox(a, b, from, to, col, w) && SameFrom(a, b, from, to, col + w)
    ensures SameFrom(a, b, from, to, col)
  {
    forall r | from <= r < to
      ensures a[r][col..] == b[r][col..]
    {
      assert a[r][col..] == a[r][col..col + w] + a[r][col + w..];
      assert b[r][col..] == b[r][col..col + w] + b[r][col + w..];
    }
  }

  lemma SameRows(a: Lines, b: Lines, from: nat, mid: nat, to: nat, col: nat)
    requires SameFrom(a, b, from, mid, col) && SameFrom(a, b, mid, to, col)
    ensures SameFrom(a, b, from, to, col)
  {
  }

  /** Text in the first row and blanks below it agree. */
  lemma BoxSame(a: Lines, b: Lines, row: nat, to: nat, col: nat, text: string)
    requires ShowsAt(a, row, col, text) && ShowsAt(b, row, col, text)
    requires BlankBox(a, row + 1, to, col, |text|) && BlankBox(b, row + 1, to, col, |text|)
    ensures SameBox(a, b, row, to, col, |text|)
  {
    forall r | row <= r < to
      ensures col + |text| <= |a[r]| && col + |text| <= |b[r]| && a[r][col..col + |text|] == b[r][col..col + |text|]
    {
      if r > row {
        assert a[r][col..col + |text|] == seq(|text|, c => ' ');
        assert b[r][col..col + |text|] == seq(|text|, c => ' ');
      }
    }
  }

  /** The same with a bar or a blank below the character in column `at`. */
  lemma BranchSame(a: Lines, b: Lines, row: nat, to: nat, col: nat, at: nat, text: string, x: char)
    requires at < |text| && ShowsAt(a, row, col, text) && ShowsAt(b, row, col, text)
    requires Column(a, row + 1, to, col + at, x) && Column(b, row + 1, to, col + at, x)
    requires BlankBox(a, row + 1, to, col, at) && BlankBox(b, row + 1, to, col, at)
    requires BlankBox(a, row + 1, to, col + at + 1, |text| - at - 1)
      && BlankBox(b, row + 1, to, col + at + 1, |text| - at - 1)
    ensures SameBox(a, b, row, to, col, |text|)
  {
    forall r | row <= r < to
      ensures col + |text| <= |a[r]| && col + |text| <= |b[r]| && a[r][col..col + |text|] == b[r][col..col + |text|]
    {
      if r > row {
        assert a[r][col..col + |text|] == seq(|text|, c => if c == at then x else ' ');
        assert b[r][col..col + |text|] == seq(|text|, c => if c == at then x else ' ');
      }
    }
  }

  lemma RowSame(a: Lines, b: Lines, row: nat, col: nat, text: string)
    requires ShowsAt(a, row, col, text) && ShowsAt(b, row, col, text)
    requires EndsAt(a, row, col + |text|) && EndsAt(b, row, col + |text|)
    ensures SameFrom(a, b, row, row + 1, col)
  {
  }

  lemma {:induction false} TreeFixed(net: Net, t: Tree, a: Lines, b: Lines, row: nat, col: nat)
    requires UniqueNums(net) && SmallPortNums(net) && TreeAt(net, t, a, row, col) && TreeAt(net, t, b, row, col)
    ensures SameFrom(a, b, row, row + Height(t), col)
    decreases t
  {
    hide ShowsAt, EndsAt, BlankBox, SameFrom, SameBox, LinkAt;
    Widths(net, t.ent, 0);
    match t
    case Quoted(i) =>
      RowSame(a, b, row, col, QuotedText(net, i));
    case Opened(i, kids) =>
      if kids.Done? {
        RowSame(a, b, row, col, OpenedText(net, i));
      } else {
        BoxSame(a, b, row, row + Height(t), col, OpenedText(net, i));
        KidsFixed(net, kids, Single(kids), a, b, row, col + 9);
        SameJoins(a, b, row, row + Height(t), col, 9);
      }
  }

  lemma {:induction false} KidsFixed(net: Net, kids: Kids, only: bool, a: Lines, b: Lines, row: nat, col: nat)
    requires UniqueNums(net) && SmallPortNums(net) && !kids.Done?
    requires KidsAt(net, kids, only, a, row, col) && KidsAt(net, kids, only, b, row, col)
    ensures SameFrom(a, b, row, row + KidsHeight(kids), col)
    decreases kids
  {
    hide ShowsAt, EndsAt, BlankBox, SameFrom, SameBox, LinkAt;
    Widths(net, 0, kids.src);
    var next := row + if kids.Alone? then 1 else Height(kids.sub);
    if kids.Alone? {
      RowSame(a, b, row, col, Joint(only, kids.rest.Done?) + SrcText(net, kids.src));
    } else {
      TreeFixed(net, kids.sub, a, b, row, col + 11);
      LinkFixed(net, only, kids.rest.Done?, kids.src, kids.dst, a, b, row, next, col);
      SameJoins(a, b, row, next, col, 11);
    }
    if !kids.rest.Done? {
      KidsFixed(net, kids.rest, false, a, b, next, col);
      SameRows(a, b, row, next, row + KidsHeight(kids), col);
    }
  }

  lemma LinkFixed(net: Net, only: bool, last: bool, src: nat, dst: nat, a: Lines, b: Lines, row: nat, next: nat,
                  col: nat)
    requires UniqueNums(net) && SmallPortNums(net)
    requires LinkAt(net, only, last, src, dst, a, row, next, col)
      && LinkAt(net, only, last, src, dst, b, row, next, col)
    ensures SameBox(a, b, row, next, col, 11)
  {
    hide ShowsAt, BlankBox, Column, SameBox;
    Widths(net, 0, src);
    Widths(net, 0, dst);
    EmptyBox(a, b, row, next, col, if only || last then ' ' else '|');
    BranchSame(a, b, row, next, col, 0, Joint(only, last) + SrcText(net, src) + DstText(net, dst),
               if only || last then ' ' else '|');
  }

  lemma EmptyBox(a: Lines, b: Lines, row: nat, next: nat, col: nat, x: char)
    requires Column(a, row + 1, next, col, x) && Column(b, row + 1, next, col, x)
    ensures BlankBox(a, row + 1, next, col, 0) && BlankBox(b, row + 1, next, col, 0)
  {
  }

  lemma {:induction false} RootsFixed(net: Net, f: Forest, only: bool, a: Lines, b: Lines, row: nat)
    requires UniqueNums(net) && SmallPortNums(net) && f.Root?
    requires RootsAt(net, f, only, a, row) && RootsAt(net, f, only, b, row)
    ensures SameFrom(a, b, row, row + ForestHeight(f), 0)
    decreases f
  {
    hide SameFrom, SameBox, TreeAt, RootAt;
    var next := row + Height(f.tree);
    TreeFixed(net, f.tree, a, b, row, 2);
    RootFixed(only, f.rest.Empty?, a, b, row, next);
    SameJoins(a, b, row, next, 0, 2);
    if f.rest.Root? {
      RootsFixed(net, f.rest, false, a, b, next);
      SameRows(a, b, row, next, row + ForestHeight(f), 0);
    }
  }

  lemma RootFixed(only: bool, last: bool, a: Lines, b: Lines, row: nat, next: nat)
    requires RootAt(only, last, a, row, next) && RootAt(only, last, b, row, next)
    ensures SameBox(a, b, row, next, 0, 2)
  {
    assert BlankBox(a, row + 1, next, 2, 0) && BlankBox(b, row + 1, next, 2, 0);
    BranchSame(a, b, row, next, 0, 1, (if row == 0 then "-" else " ") + Joint(only, last),
               if only || last then ' ' else '|');
  }

  lemma AllSame(a: Lines, b: Lines)
    requires |a| == |b| && SameFrom(a, b, 0, |a|, 0)
    ensures a == b
  {
    forall r | 0 <= r < |a|
      ensures a[r] == b[r]
    {
      assert a[r][0..] == a[r] && b[r][0..] == b[r];
    }
  }

  /** A picture leaves nothing open. */
  lemma PictureDetermines(net: Net, f: Forest, only: bool, a: Lines, b: Lines)
    requires UniqueNums(net) && SmallPortNums(net) && |a| == |b| == ForestHeight(f)
    requires RootsAt(net, f, only, a, 0) && RootsAt(net, f, only, b, 0)
    ensures a == b
  {
    if f.Root? {
      hide *;
      RootsFixed(net, f, only, a, b, 0);
      AllSame(a, b);
    }
  }

  /** Lines are the printout exactly when they are as many as the picture has rows and show the picture. */
  lemma {:induction false} PictureIsPrintout(net: Net, f: Forest, ls: Lines)
    requires UniqueNums(net) && SmallPortNums(net)
    ensures ls == ForestBlock(net, f) <==>
      |ls| == ForestHeight(f) && RootsAt(net, f, f.Root? && f.rest.Empty?, ls, 0)
  {
    hide *;
    PrintoutIsPicture(net, f);
    var only := f.Root? && f.rest.Empty?;
    if |ls| == ForestHeight(f) && RootsAt(net, f, only, ls, 0) {
      PictureDetermines(net, f, only, ls, ForestBlock(net, f));
    }
  }
}
