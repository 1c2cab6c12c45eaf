/** Showing the default row and one exact row of an entity's route table (lsub/ls-route-tbl.c:16-133). */
module RouteTable {
  import opened Wrappers
  import opened Bits
  import opened RouteMap

  /**
   * The configuration space of an entity: the bytes that reads deliver, and which blocks a read
   * delivers at all. A byte whose status says that it failed is reported and delivered all the same.
   */
  datatype Memory = Memory(data: nat -> Byte, served: (nat, nat) -> bool)

  const PORT_NUMBER: nat := 1 * DWORD
  const SUPPORT_FEATURE: nat := 0xA * DWORD
  const NUM_OF_ENTRIES: nat := 1 * DWORD
  const EXACT_SUPPORT: nat := 1 * DWORD + 2

  /** What is printed: a message or a table word with its offset. */
  datatype Line = NotSupported(uent: nat) | PortNumFailed | InfoFailed | TooLarge(cna: nat, entries: nat)
                | DefaultFailed | DefaultHeading | DefaultWord(off: nat, val: nat)
                | ExactInfoFailed | ExactFailed | ExactHeading | ExactWord(cna: nat, off: nat, val: nat)

  predicate Readable(mem: Memory, pos: nat, len: nat) {
    len > 0 && pos <= MAX_POSITION && mem.served(pos, len)
  }

  function Bytes(mem: Memory, pos: nat, len: nat): (bs: seq<Byte>)
    ensures |bs| == len && forall i :: 0 <= i < len ==> bs[i] == mem.data(pos + i)
  {
    seq<Byte>(len, i requires 0 <= i < len => mem.data(pos + i))
  }

  /** ub_read_block: all bytes of the block, or a failure. */
  function Block(mem: Memory, pos: nat, len: nat): (r: Option<seq<Byte>>)
    ensures r.Some? <==> Readable(mem, pos, len)
    ensures r.Some? ==> r.value == Bytes(mem, pos, len)
  {
    if Readable(mem, pos, len) then Some(Bytes(mem, pos, len)) else None
  }

  /** The little-endian 32-bit word at a position. */
  function WordAt(mem: Memory, pos: nat): nat {
    LE(Bytes(mem, pos, DWORD))
  }

  /** The words of a row that is read in one block. */
  function Row(mem: Memory, pos: nat, n: nat): (r: Option<seq<nat>>)
    ensures r.Some? <==> Readable(mem, pos, DWORD * n)
    ensures r.Some? ==> |r.value| == n && forall k :: 0 <= k < n ==> r.value[k] == WordAt(mem, pos + DWORD * k)
  {
    if Readable(mem, pos, DWORD * n) then Some(seq(n, k requires 0 <= k < n => WordAt(mem, pos + DWORD * k))) else None
  }

  function DefaultWords(ws: seq<nat>, n: nat): seq<Line>
    requires n <= |ws|
  {
    seq(n, k requires 0 <= k < n => DefaultWord(DWORD * k, ws[k]))
  }

  function ExactWords(cna: nat, ws: seq<nat>, n: nat): seq<Line>
    requires n <= |ws|
  {
    seq(n, k requires 0 <= k < n => ExactWord(cna, DWORD * k, ws[k]))
  }

  /** show_default_route_tbl */
  function DefaultLines(mem: Memory, ports: nat): seq<Line> {
    match Row(mem, ROUTE_TBL + DEFAULT_TBL, Words(ports))
    case None => [DefaultFailed]
    case Some(ws) => [DefaultHeading] + DefaultWords(ws, |ws|)
  }

  /** show_exact_route_tbl: silent when the entity has no exact table. */
  function ExactLines(mem: Memory, ports: nat, cna: nat): seq<Line> {
    match Block(mem, ROUTE_TBL + EXACT_SUPPORT, DWORD)
    case None => [ExactInfoFailed]
    case Some(ers) =>
      if ToBit(ers, 0) == 0 || ToBit(ers, 16) == 0 then []
      else
        match Row(mem, ROUTE_TBL + Entry(ports, cna), Words(ports))
        case None => [ExactFailed]
        case Some(ws) => [ExactHeading] + ExactWords(cna, ws, |ws|)
  }

  predicate Supported(mem: Memory) {
    var f := Block(mem, Cfg0(0) + SUPPORT_FEATURE, DWORD);
    f.Some? && ToBit(f.value, 4) != 0
  }

  /** show_route_tbl for an entity that was found. */
  function RouteLines(mem: Memory, uent: nat, cna: nat): seq<Line> {
    if !Supported(mem) then [NotSupported(uent)]
    else
      match Block(mem, Cfg0(0) + PORT_NUMBER, 2)
      case None => [PortNumFailed]
      case Some(ports) =>
        match Block(mem, ROUTE_TBL + NUM_OF_ENTRIES, 2)
        case None => [InfoFailed]
        case Some(entries) =>
          if cna >= LE(entries) then [TooLarge(cna, LE(entries))]
          else DefaultLines(mem, LE(ports)) + ExactLines(mem, LE(ports), cna)
  }

  // ----- the loops

  /** A block read into a fresh array of words. */
  method ReadWords(mem: Memory, pos: nat, n: nat) returns (words: array<nat>, ok: bool)
    ensures ok == Row(mem, pos, n).Some? && fresh(words)
    ensures ok ==> words[..] == Row(mem, pos, n).value
  {
    hide LE, Block, Row, WordAt, Readable, Bytes;
    ghost var row := Row(mem, pos, n);
    words := new nat[n](_ => 0);
    var bytes := Block(mem, pos, DWORD * n);
    ok := bytes.Some?;
    if !ok {
      return;
    }
    var k := 0;
    while k < n
      invariant k <= n && forall m :: 0 <= m < k ==> words[m] == row.value[m]
    {
      WordInBlock(mem, pos, n, k);
      words[k] := LE(bytes.value[DWORD * k..DWORD * k + DWORD]);
      k := k + 1;
    }
  }

  lemma WordInBlock(mem: Memory, pos: nat, n: nat, k: nat)
    requires k < n
    ensures WordAt(mem, pos + DWORD * k) == LE(Bytes(mem, pos, DWORD * n)[DWORD * k..DWORD * k + DWORD])
  {
    var bs, at := Bytes(mem, pos, DWORD * n), pos + DWORD * k;
    forall i | 0 <= i < DWORD
      ensures Bytes(mem, at, DWORD)[i] == bs[DWORD * k + i]
    {
      assert pos + (DWORD * k + i) == at + i;
    }
    assert Bytes(mem, at, DWORD) == bs[DWORD * k..DWORD * k + DWORD];
  }

  method ShowDefault(mem: Memory, ports: nat) returns (out: seq<Line>)
    ensures out == DefaultLines(mem, ports)
  {
    hide LE, Words, Block, Row, WordAt, Readable;
    var n := Words(ports);
    var words, ok := ReadWords(mem, ROUTE_TBL + DEFAULT_TBL, n);
    if !ok {
      return [DefaultFailed];
    }
    out := [DefaultHeading];
    var i := 0;
    while i < n
      invariant i <= n && out == [DefaultHeading] + DefaultWords(words[..], i)
    {
      out := out + [DefaultWord(i * DWORD, words[i])];
      i := i + 1;
    }
  }

  method ShowExact(mem: Memory, ports: nat, cna: nat) returns (out: seq<Line>)
    ensures out == ExactLines(mem, ports, cna)
  {
    hide LE, Words, Entry, ToBit, Block, Row, WordAt, Readable;
    var ers := Block(mem, ROUTE_TBL + EXACT_SUPPORT, DWORD);
    if ers.None? {
      return [ExactInfoFailed];
    }
    if ToBit(ers.value, 0) == 0 || ToBit(ers.value, 16) == 0 {
      return [];
    }
    var n := Words(ports);
    var words, ok := ReadWords(mem, ROUTE_TBL + Entry(ports, cna), n);
    if !ok {
      return [ExactFailed];
    }
    out := [ExactHeading];
    var j := 0;
    while j < n
      invariant j <= n && out == [ExactHeading] + ExactWords(cna, words[..], j)
    {
      out := out + [ExactWord(cna, j * DWORD, words[j])];
      j := j + 1;
    }
  }

  /** show_route_tbl; `found` is the memory of the entity with that number. */
  method ShowRouteTable(found: Option<Memory>, uent: nat, cna: nat) returns (out: seq<Line>)
    ensures out == if uent == 0 || found.None? then [] else RouteLines(found.value, uent, cna)
  {
    if uent == 0 || found.None? {
      return [];
    }
    var mem := found.value;
    var feature := Block(mem, Cfg0(0) + SUPPORT_FEATURE, DWORD);
    if feature.None? || ToBit(feature.value, 4) == 0 {
      return [NotSupported(uent)];
    }
    var ports := Block(mem, Cfg0(0) + PORT_NUMBER, 2);
    if ports.None? {
      return [PortNumFailed];
    }
    var entries := Block(mem, ROUTE_TBL + NUM_OF_ENTRIES, 2);
    if entries.None? {
      return [InfoFailed];
    }
    if cna >= LE(entries.value) {
      return [TooLarge(cna, LE(entries.value))];
    }
    var first := ShowDefault(mem, LE(ports.value));
    var second := ShowExact(mem, LE(ports.value), cna);
    out := first + second;
  }

  // ----- which words are shown

  const DEFAULT_ROW: nat := ROUTE_TBL + DEFAULT_TBL

  /** A row of `n` words can be read, and its `k`-th word is `v`. */
  ghost predicate RowHolds(mem: Memory, row: nat, n: nat, k: nat, v: nat) {
    k < n && Readable(mem, row, DWORD * n) && WordAt(mem, row + DWORD * k) == v
  }

  /** A word of the default row is shown exactly when the whole row can be read and holds it. */
  lemma DefaultShownIff(mem: Memory, ports: nat, k: nat, v: nat)
    ensures DefaultWord(DWORD * k, v) in DefaultLines(mem, ports) <==>
      RowHolds(mem, DEFAULT_ROW, Words(ports), k, v)
  {
    hide Words, Readable, WordAt;
    var row := Row(mem, DEFAULT_ROW, Words(ports));
    if row.Some? {
      InDefault(row.value, k, v);
    }
  }

  lemma InDefault(ws: seq<nat>, k: nat, v: nat)
    ensures DefaultWord(DWORD * k, v) in [DefaultHeading] + DefaultWords(ws, |ws|) <==> k < |ws| && ws[k] == v
  {
    var out := DefaultWords(ws, |ws|);
    if k < |ws| {
      assert out[k] == DefaultWord(DWORD * k, ws[k]);
    }
  }

  lemma InExact(cna: nat, ws: seq<nat>, k: nat, v: nat)
    ensures ExactWord(cna, DWORD * k, v) in [ExactHeading] + ExactWords(cna, ws, |ws|) <==> k < |ws| && ws[k] == v
  {
    var out := ExactWords(cna, ws, |ws|);
    if k < |ws| {
      assert out[k] == ExactWord(cna, DWORD * k, ws[k]);
    }
  }

  /** The entity has an exact table that it uses. */
  predicate HasExact(mem: Memory) {
    var ers := Block(mem, ROUTE_TBL + EXACT_SUPPORT, DWORD);
    ers.Some? && ToBit(ers.value, 0) != 0 && ToBit(ers.value, 16) != 0
  }

  /**
   * A word of an exact row is shown exactly when the entity uses its exact table and the whole row can be
   * read and holds it.
   */
  lemma ExactShownIff(mem: Memory, ports: nat, cna: nat, k: nat, v: nat)
    ensures ExactWord(cna, DWORD * k, v) in ExactLines(mem, ports, cna) <==>
      HasExact(mem) && RowHolds(mem, ROUTE_TBL + Entry(ports, cna), Words(ports), k, v)
  {
    hide Words, Entry, ToBit, Readable, WordAt;
    var row := Row(mem, ROUTE_TBL + Entry(ports, cna), Words(ports));
    if HasExact(mem) && row.Some? {
      InExact(cna, row.value, k, v);
    }
  }

  /** The two numbers that bound a display: ports in a row, entries in the table. */
  ghost predicate Sizes(mem: Memory, ports: nat, entries: nat) {
    && Block(mem, Cfg0(0) + PORT_NUMBER, 2).Some? && LE(Block(mem, Cfg0(0) + PORT_NUMBER, 2).value) == ports
    && Block(mem, ROUTE_TBL + NUM_OF_ENTRIES, 2).Some? && LE(Block(mem, ROUTE_TBL + NUM_OF_ENTRIES, 2).value) == entries
  }

  lemma TwoBytes(bs: seq<Byte>)
    requires |bs| == 2
    ensures LE(bs) < 0x1_0000
  {
    assert LE(bs[1..]) == bs[1] + 256 * LE(bs[1..][1..]);
  }

  lemma SizesAreSmall(mem: Memory, ports: nat, entries: nat)
    requires Sizes(mem, ports, entries)
    ensures ports < 0x1_0000 && entries < 0x1_0000
  {
    TwoBytes(Block(mem, Cfg0(0) + PORT_NUMBER, 2).value);
    TwoBytes(Block(mem, ROUTE_TBL + NUM_OF_ENTRIES, 2).value);
  }

  lemma Supports(mem: Memory, uent: nat, cna: nat, ports: nat, entries: nat)
    requires Sizes(mem, ports, entries)
    ensures RouteLines(mem, uent, cna) ==
      if !Supported(mem) then [NotSupported(uent)]
      else if cna >= entries then [TooLarge(cna, entries)]
      else DefaultLines(mem, ports) + ExactLines(mem, ports, cna)
  {
    hide Supported, DefaultLines, ExactLines, LE;
  }

  /** The default row shows no exact words, and the exact row no default words. */
  lemma KindsApart(mem: Memory, ports: nat, cna: nat)
    ensures forall l :: l in DefaultLines(mem, ports) ==> !l.ExactWord?
    ensures forall l :: l in ExactLines(mem, ports, cna) ==> !l.DefaultWord?
  {
    hide Words, Entry, ToBit;
  }

  /**
   * The words shown are exactly those of the default row and of the row of entry `cna`, when the
   * entity has a route table with that entry and the row can be read.
   */
  lemma {:induction false} WordsShownIff(mem: Memory, uent: nat, cna: nat, ports: nat, entries: nat, k: nat, v: nat)
    requires Sizes(mem, ports, entries)
    ensures var out := RouteLines(mem, uent, cna);
      var shows := Supported(mem) && cna < entries;
      && (DefaultWord(DWORD * k, v) in out <==> shows && RowHolds(mem, DEFAULT_ROW, Words(ports), k, v))
      && (ExactWord(cna, DWORD * k, v) in out <==>
            shows && HasExact(mem) && RowHolds(mem, ROUTE_TBL + Entry(ports, cna), Words(ports), k, v))
  {
    hide *;
    Supports(mem, uent, cna, ports, entries);
    DefaultShownIff(mem, ports, k, v);
    ExactShownIff(mem, ports, cna, k, v);
    KindsApart(mem, ports, cna);
  }

  /**
   * For an entity with ports the rows shown stand one after the other, inside the configuration
   * space; without ports the row of entry 31 is the default row itself.
   */
  lemma RowsApartIff(mem: Memory, ports: nat, entries: nat)
    requires Sizes(mem, ports, entries)
    ensures ports >= 1 <==> forall cna :: 0 <= cna < 0xFFFF ==> DEFAULT_TBL + DWORD * Words(ports) <= Entry(ports, cna)
    ensures ports >= 1 ==> forall cna :: 0 <= cna < entries ==>
      ROUTE_TBL + Entry(ports, cna) + DWORD * Words(ports) - 1 <= MAX_POSITION
  {
    SizesAreSmall(mem, ports, entries);
    hide LE, Block;
    if ports >= 1 {
      forall cna | 0 <= cna < 0xFFFF
        ensures DEFAULT_TBL + DWORD * Words(ports) <= Entry(ports, cna)
        ensures ROUTE_TBL + Entry(ports, cna) + DWORD * Words(ports) - 1 <= MAX_POSITION
      {
        RowsAreInside(ports, cna, Words(ports) - 1);
      }
    } else {
      NoPortsRow();
    }
  }

  lemma NoPortsRow()
    ensures Entry(0, 31) == DEFAULT_TBL && Words(0) > 0
  {
  }

  /**
   * The two switches, as bits of single bytes: bit 4 of byte 0x28, and bits 0 and 16 of the word six bytes
   * into the table.
   */
  lemma SwitchesAre(mem: Memory)
    ensures Supported(mem) <==> Readable(mem, 0x28, 4) && mem.data(0x28) / 16 % 2 == 1
    ensures HasExact(mem) <==>
      Readable(mem, ROUTE_TBL + 6, 4) && mem.data(ROUTE_TBL + 6) % 2 == 1 && mem.data(ROUTE_TBL + 8) % 2 == 1
  {
    BitOf(Bytes(mem, 0x28, 4), 4);
    BitOf(Bytes(mem, ROUTE_TBL + 6, 4), 0);
    BitOf(Bytes(mem, ROUTE_TBL + 6, 4), 16);
    hide ToBit;
  }

  lemma BitOf(bs: seq<Byte>, bit: nat)
    requires bit / 8 < |bs|
    ensures ToBit(bs, bit) == bs[bit / 8] / Pow2(bit % 8) % 2
    ensures Pow2(0) == 1 && Pow2(4) == 16
  {
    AndMasks(Shr(bs[bit / 8], bit % 8), 1);
    assert Pow2(1) == 2;
  }

  /** The numbers of ports and of entries are 16-bit words in bytes 4 and 5 of their slices. */
  lemma SizesAre(mem: Memory, ports: nat, entries: nat)
    requires Sizes(mem, ports, entries)
    ensures ports == LE([mem.data(4), mem.data(5)]) && entries == LE([mem.data(ROUTE_TBL + 4), mem.data(ROUTE_TBL + 5)])
  {
    assert Bytes(mem, 4, 2) == [mem.data(4), mem.data(5)];
    assert Bytes(mem, ROUTE_TBL + 4, 2) == [mem.data(ROUTE_TBL + 4), mem.data(ROUTE_TBL + 5)];
    hide LE;
  }

  /** The words of a row are shown in ascending order of their offsets, the default row first. */
  lemma OffsetsAscend(mem: Memory, uent: nat, cna: nat, a: nat, b: nat)
    requires a < b < |RouteLines(mem, uent, cna)|
    ensures var out := RouteLines(mem, uent, cna);
      && (out[a].DefaultWord? && out[b].DefaultWord? ==> out[a].off < out[b].off)
      && (out[a].ExactWord? && out[b].ExactWord? ==> out[a].off < out[b].off)
      && !(out[a].ExactWord? && out[b].DefaultWord?)
  {
    hide LE, Words, Entry, ToBit, Readable, WordAt;
  }

  /** Which message is shown, and when. */
  lemma MessagesIff(mem: Memory, uent: nat, cna: nat, ports: nat, entries: nat)
    requires Sizes(mem, ports, entries)
    ensures var out := RouteLines(mem, uent, cna);
      var shows := Supported(mem) && cna < entries;
      && (NotSupported(uent) in out <==> !Supported(mem))
      && (TooLarge(cna, entries) in out <==> Supported(mem) && cna >= entries)
      && (DefaultFailed in out <==> shows && !Readable(mem, DEFAULT_ROW, DWORD * Words(ports)))
      && (ExactInfoFailed in out <==> shows && !Readable(mem, ROUTE_TBL + EXACT_SUPPORT, DWORD))
      && (ExactFailed in out <==>
            shows && HasExact(mem) && !Readable(mem, ROUTE_TBL + Entry(ports, cna), DWORD * Words(ports)))
  {
    Supports(mem, uent, cna, ports, entries);
    DefaultMessages(mem, ports);
    ExactMessages(mem, ports, cna);
    hide Supported, HasExact, DefaultLines, ExactLines, RouteLines, Words, Entry, Readable, Sizes;
  }

  lemma DefaultMessages(mem: Memory, ports: nat)
    ensures DefaultFailed in DefaultLines(mem, ports) <==> !Readable(mem, DEFAULT_ROW, DWORD * Words(ports))
    ensures forall l :: l in DefaultLines(mem, ports) ==> l.DefaultFailed? || l.DefaultHeading? || l.DefaultWord?
  {
    hide Words, Readable, WordAt;
  }

  lemma ExactMessages(mem: Memory, ports: nat, cna: nat)
    ensures var out := ExactLines(mem, ports, cna);
      && (ExactInfoFailed in out <==> !Readable(mem, ROUTE_TBL + EXACT_SUPPORT, DWORD))
      && (ExactFailed in out <==>
            HasExact(mem) && !Readable(mem, ROUTE_TBL + Entry(ports, cna), DWORD * Words(ports)))
      && (forall l :: l in out ==> l.ExactInfoFailed? || l.ExactFailed? || l.ExactHeading? || l.ExactWord?)
  {
    hide Words, Entry, Readable, WordAt, ToBit;
  }
}
