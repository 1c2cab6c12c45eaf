/**
 * The configuration-space map (lsub/lsub.h:36-70, 154-160) and the route table reads that rely on
 * it (lsub/ls-route-tbl.c:16-133). Unsigned 32-bit steps wrap where the macros wrap.
 */
module RouteMap {

  const U32: nat := 0x1_0000_0000
  const DWORD: nat := 4
  const SLICE_LEN: nat := 1024
  const MAX_POSITION: nat := 0x3_FFFF_FFFF
  /** MAX_SLICE slices of each kind, ports up to INVALID_PORT. */
  const SLICES: nat := 256
  const PORTS: nat := 0xFFE
  const ROUTE_TBL: nat := 0xF000_0000 * DWORD
  const DEFAULT_TBL: nat := 0x10 * DWORD

  function Cfg0(i: nat): nat {
    0x100 * i * DWORD
  }

  function Cfg1(i: nat): nat {
    (0x1_0000 + 0x100 * i) * DWORD
  }

  function PortSlice(i: nat, j: nat): nat {
    (0x1_0000 * (i + 2) + 0x100 * j) * DWORD
  }

  /** Words in one table row: `((ports - 1U) >> 5) + 1U` on unsigned 32-bit numbers. */
  function Words(ports: nat): nat {
    ((ports + U32 - 1) % U32 / 32 + 1) % U32
  }

  /** The offset of an exact entry; the product is taken in 32 bits, the rest in 64. */
  function Entry(ports: nat, cna: nat): nat {
    (0x10 + (cna + 1) % U32 * Words(ports) % U32) * DWORD
  }

  /** One bit a port, in whole words, exactly when there is a port: without ports the step below zero wraps. */
  lemma WordsCoverPortsIff(ports: nat)
    requires ports < 0x1_0000
    ensures Words(ports) == (ports + 31) / 32 <==> ports >= 1
    ensures ports == 0 ==> Words(ports) == 0x800_0000
  {
  }

  /** No 32-bit step wraps for an entry below a 16-bit entry count. */
  lemma {:induction false} EntryIsExact(ports: nat, cna: nat)
    requires 1 <= ports < 0x1_0000 && cna < 0xFFFF
    ensures Entry(ports, cna) == (0x10 + (cna + 1) * Words(ports)) * DWORD
  {
    assert Words(ports) <= 2048;
    Mono(cna + 1, 0xFFFF, Words(ports), 2048);
  }

  lemma Mono(a: nat, b: nat, c: nat, d: nat)
    requires a <= b && c <= d
    ensures a * c <= b * d
  {
    assert a * c <= a * d;
    assert a * d <= b * d;
  }

  lemma NextMultiple(c: nat, w: nat)
    ensures (c + 1) * w == c * w + w
  {
  }

  /** The default table and the entries follow each other without gap or overlap. */
  lemma {:induction false} RowsTile(ports: nat, cna: nat)
    requires 1 <= ports < 0x1_0000 && cna < 0xFFFE
    ensures DEFAULT_TBL + Words(ports) * DWORD == Entry(ports, 0)
    ensures Entry(ports, cna) + Words(ports) * DWORD == Entry(ports, cna + 1)
  {
    EntryIsExact(ports, 0);
    EntryIsExact(ports, cna);
    EntryIsExact(ports, cna + 1);
    hide Words, Entry;
    NextMultiple(cna + 1, Words(ports));
  }

  /** Every word of every row lies inside the configuration space. */
  lemma {:induction false} RowsAreInside(ports: nat, cna: nat, word: nat)
    requires 1 <= ports < 0x1_0000 && cna < 0xFFFF && word < Words(ports)
    ensures ROUTE_TBL + DEFAULT_TBL + word * DWORD + DWORD <= ROUTE_TBL + Entry(ports, cna)
    ensures ROUTE_TBL + Entry(ports, cna) + word * DWORD + DWORD - 1 <= MAX_POSITION
  {
    EntryIsExact(ports, cna);
    var w := Words(ports);
    assert w <= 2048;
    hide Words, Entry;
    Mono(cna + 1, 0xFFFF, w, 2048);
    Mono(1, cna + 1, w, w);
  }

  /** A slice of the map: configuration 0, configuration 1, or a port's. */
  datatype Slice = Slice0(i: nat) | Slice1(i: nat) | SliceOf(port: nat, i: nat)

  predicate Real(s: Slice) {
    s.i < SLICES && (s.SliceOf? ==> s.port < PORTS)
  }

  function Address(s: Slice): nat {
    match s
    case Slice0(i) => Cfg0(i)
    case Slice1(i) => Cfg1(i)
    case SliceOf(port, i) => PortSlice(port, i)
  }

  /** Slices are pairwise disjoint 1 KB blocks below the route table, and their addresses fit 32 bits. */
  lemma SlicesAreDisjoint(s: Slice, t: Slice)
    requires Real(s) && Real(t)
    ensures s != t ==> Address(s) + SLICE_LEN <= Address(t) || Address(t) + SLICE_LEN <= Address(s)
    ensures Address(s) + SLICE_LEN <= ROUTE_TBL && Address(s) + SLICE_LEN <= U32
  {
  }

  /** The addresses that the map of the configuration space gives in double words. */
  lemma MapIs(port: nat, i: nat)
    ensures Cfg0(0) == 0x0000_0000 * 4 && Cfg0(1) == 0x0000_0100 * 4 && Cfg0(2) == 0x0000_0200 * 4
    ensures Cfg1(0) == 0x0001_0000 * 4 && Cfg1(1) == 0x0001_0100 * 4 && Cfg1(2) == 0x0001_0200 * 4
    ensures PortSlice(0, 0) == 0x0002_0000 * 4 && PortSlice(0, 1) == 0x0002_0100 * 4
      && PortSlice(0, 2) == 0x0002_0200 * 4
    ensures DEFAULT_TBL == 0x40 && Entry(32, 0) == 0x44 && Entry(33, 0) == 0x48
    ensures ROUTE_TBL == 0xF000_0000 * 4 && MAX_POSITION + 1 == 0x1_0000_0000 * 4
    ensures PortSlice(port + 1, i) == PortSlice(port, i) + 0x1_0000 * 4
      && PortSlice(port, i + 1) == PortSlice(port, i) + 1024
  {
  }
}
