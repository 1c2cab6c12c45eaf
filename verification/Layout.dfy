/** Blocks of text lines and the hanging of a block from a prefix (lsub/topo.c:106-118). */
module Layout {

  type Lines = seq<string>

  /** What print_line leaves of one character: a bar under a branch, a blank under anything else. */
  function Bar(c: char): char {
    if c == '+' || c == '|' then '|' else ' '
  }

  function Blank(s: string): (t: string)
    ensures |t| == |s|
  {
    seq(|s|, i requires 0 <= i < |s| => Bar(s[i]))
  }

  /** `b` drawn to the right of `p`: `p` before its first line, the bars of `p` before the others. */
  function Hang(p: string, b: Lines): (h: Lines)
    ensures |h| == |b|
  {
    seq(|b|, i requires 0 <= i < |b| => (if i == 0 then p else Blank(p)) + b[i])
  }

  /** The characters a stream receives for these lines. */
  function Text(ls: Lines): string {
    if ls == [] then "" else ls[0] + "\n" + Text(ls[1..])
  }

  lemma BlankIdempotent(s: string)
    ensures Blank(Blank(s)) == Blank(s)
  {
  }

  lemma BlankAppend(s: string, t: string)
    ensures Blank(s + t) == Blank(s) + Blank(t)
  {
  }

  /** Hanging twice is hanging once from the joined prefix. */
  lemma HangHang(p: string, q: string, b: Lines)
    ensures Hang(p, Hang(q, b)) == Hang(p + q, b)
  {
    BlankAppend(p, q);
    forall i | 0 <= i < |b|
      ensures Hang(p, Hang(q, b))[i] == Hang(p + q, b)[i]
    {
      assert p + (q + b[i]) == (p + q) + b[i];
      assert Blank(p) + (Blank(q) + b[i]) == (Blank(p) + Blank(q)) + b[i];
    }
  }

  /** Blocks stacked below the first one hang from what the first one left of the prefix. */
  lemma HangAppend(p: string, a: Lines, b: Lines)
    requires a != []
    ensures Hang(p, a + b) == Hang(p, a) + Hang(Blank(p), b)
  {
    BlankIdempotent(p);
  }

  lemma {:induction false} TextAppend(a: Lines, b: Lines)
    ensures Text(a + b) == Text(a) + Text(b)
  {
    if a == [] {
      assert a + b == b;
    } else {
      TextAppend(a[1..], b);
      assert (a + b)[1..] == a[1..] + b;
    }
  }
}
