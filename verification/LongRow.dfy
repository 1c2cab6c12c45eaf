/**
 * Entities in a row, each linked to the next, the controller at one end: the data on which the
 * drawing outgrows its line buffer (lsub/topo.c:247).
 */
module LongRow {
  import opened Wrappers
  import opened Network
  import opened Parents
  import L = Linking
  import G = Growing
  import S = Scanning
  import D = Depth
  import Drawing
  import Extent
  import P = Printing

  /** How many entities a row can have: their numbers have five hex digits. */
  type Length = n: nat | 1 <= n <= 0x10_0000 witness 1

  /** The entities before any link is read: entity `k` has number `k`, and entity 0 is the controller. */
  function Bare(n: Length): (net: Net)
    ensures L.NoPorts(net) && UniqueNums(net) && |net.ents| == n
  {
    Net(seq(n, k requires 0 <= k < n => Ent(k, 0, k == 0, [])), [])
  }

  /** The lines of entity `k`: port 0 leads to port 1 of the entity before it, port 1 to port 0 of the next. */
  function RowLines(n: Length, k: nat): seq<Option<G.Line>>
    requires k < n
  {
    (if k > 0 then [Some(G.Line(0, 1, k - 1))] else []) + (if k + 1 < n then [Some(G.Line(1, 0, k + 1))] else [])
  }

  function Links(n: Length): (links: seq<seq<Option<G.Line>>>)
    ensures |links| == n
  {
    seq(n, k requires 0 <= k < n => RowLines(n, k))
  }

  /** The `m`-th declaration of a row. */
  function DeclAt(m: nat): L.Decl {
    if m % 2 == 1 then L.Decl((m + 1) / 2, 0, (m + 1) / 2 - 1, 1) else L.Decl(m / 2, 1, m / 2 + 1, 0)
  }

  function RowDecls(c: nat): (ds: seq<L.Decl>)
    ensures |ds| == c && forall m :: 0 <= m < c ==> ds[m] == DeclAt(m)
  {
    seq(c, m requires 0 <= m < c => DeclAt(m))
  }

  lemma LineDeclsAre(n: Length, k: nat)
    requires k < n
    ensures G.LineDecls(RowLines(n, k), k, |RowLines(n, k)|) ==
      (if k > 0 then [DeclAt(2 * k - 1)] else []) + (if k + 1 < n then [DeclAt(2 * k)] else [])
  {
    var lines := RowLines(n, k);
    assert G.LineDecls(lines, k, 0) == [];
    if |lines| > 0 {
      assert G.LineDecls(lines, k, 1) == G.LineDecl(lines[0], k);
    }
  }

  lemma {:induction false} DeclsAre(n: Length, k: nat)
    requires k <= n
    ensures G.Decls(Links(n), k) == RowDecls(if k == 0 then 0 else if k < n then 2 * k - 1 else 2 * n - 2)
  {
    if k > 0 {
      DeclsAre(n, k - 1);
      LineDeclsAre(n, k - 1);
    }
  }

  /** In a row each declaration names the port that the declaration beside it makes. */
  lemma DeclaresIff(n: Length, k: nat, j: nat)
    requires k < 2 * n - 2 && j < 2 * n - 2
    ensures L.Declares(Bare(n).ents, RowDecls(2 * n - 2), k, j) <==> j == if k % 2 == 1 then k - 1 else k + 1
  {
    L.FindEntFinds(Bare(n).ents, DeclAt(k).peerEnt, DeclAt(k).peerEnt);
  }

  lemma RowIsSymmetric(n: Length)
    ensures L.InRange(Bare(n).ents, RowDecls(2 * n - 2)) && L.Symmetric(Bare(n).ents, RowDecls(2 * n - 2))
  {
    var ents, ds := Bare(n).ents, RowDecls(2 * n - 2);
    forall k, j | 0 <= k < |ds| && 0 <= j < |ds|
      ensures L.Declares(ents, ds, k, j) <==> j == if k % 2 == 1 then k - 1 else k + 1
    {
      DeclaresIff(n, k, j);
    }
    hide L.Declares, Bare;
  }

  ghost function Full(n: Length): (net: Net)
    ensures Wf(net) && SmallPortNums(net)
  {
    P.Described(Bare(n), Links(n))
  }

  lemma {:induction false} FullIs(n: Length)
    ensures var ds := RowDecls(2 * n - 2); L.InRange(Bare(n).ents, ds) && Full(n) == L.Run(Bare(n), ds)
    ensures UniqueNums(Full(n)) && |Full(n).ents| == n
    ensures forall k :: 0 <= k < n ==> (Full(n).ents[k].controller <==> k == 0)
  {
    DeclsAre(n, n);
    RowIsSymmetric(n);
  }

  /** A declaration names a port of the entity that it says. */
  lemma NamesItsPeer(n: Length, k: nat, j: nat)
    requires k < 2 * n - 2
    ensures DeclaresEnt(Bare(n), RowDecls(2 * n - 2), k, j) <==> j == DeclAt(k).peerEnt
  {
    var net, ds := Bare(n), RowDecls(2 * n - 2);
    var l := if k % 2 == 1 then k - 1 else k + 1;
    DeclaresIff(n, k, l);
    assert ds[l] == DeclAt(l) && DeclAt(l).ent == DeclAt(k).peerEnt;
    hide L.Declares, Bare, RowDecls, DeclAt;
    if DeclaresEnt(net, ds, k, j) {
      var x :| 0 <= x < |ds| && ds[x].ent == j && L.Declares(net.ents, ds, k, x);
      DeclaresIff(n, k, x);
    }
  }

  /** Some declaration of the row leads from `i` to `j`. */
  ghost predicate Leads(c: nat, i: nat, j: nat) {
    exists k :: 0 <= k < c && DeclAt(k).ent == i && DeclAt(k).peerEnt == j
  }

  lemma AdjLeads(n: Length, i: nat, j: nat)
    requires i < n && j < n
    ensures Adj(Full(n), i, j) <==> Leads(2 * n - 2, i, j)
  {
    var net, ds := Bare(n), RowDecls(2 * n - 2);
    FullIs(n);
    RowIsSymmetric(n);
    AdjIsDeclared(net, ds, i, j);
    assert net.ents[i].ubc == net.ents[j].ubc;
    hide Adj, L.Symmetric, L.Run, L.InRange, Full, DeclaresEnt, UniqueNums, DeclAt, Bare;
    if Adj(Full(n), i, j) {
      var k :| 0 <= k < |ds| && ds[k].ent == i && DeclaresEnt(net, ds, k, j);
      NamesItsPeer(n, k, j);
      assert DeclAt(k) == ds[k];
    }
    if Leads(2 * n - 2, i, j) {
      var k :| 0 <= k < |ds| && DeclAt(k).ent == i && DeclAt(k).peerEnt == j;
      NamesItsPeer(n, k, j);
      assert ds[k] == DeclAt(k);
    }
  }

  /** Two entities are adjacent exactly when they stand beside each other. */
  lemma Neighbours(n: Length, i: nat, j: nat)
    requires i < n && j < n
    ensures Adj(Full(n), i, j) <==> i + 1 == j || j + 1 == i
  {
    AdjLeads(n, i, j);
    hide Adj, Full;
    if i + 1 == j {
      assert DeclAt(2 * i).ent == i;
    }
    if j + 1 == i {
      assert DeclAt(2 * i - 1).ent == i;
    }
  }

  lemma LastIsReached(n: Length)
    ensures Reachable(Full(n), n - 1)
  {
    FullIs(n);
    var path := S.InOrder(n);
    forall k | 0 <= k < n - 1
      ensures Adj(Full(n), path[k], path[k + 1])
    {
      Neighbours(n, k, k + 1);
    }
    assert PathTo(Full(n), path, n - 1);
  }

  /** A parent chain walks along the row, so it is longer than its start is far from the controller. */
  lemma {:induction false} ChainIsLong(n: Length, par: seq<nat>, chain: seq<nat>)
    requires |par| == |Full(n).ents| && UniqueNums(Full(n)) && IsChain(Full(n), par, chain)
    ensures chain[0] < |chain|
    decreases |chain|
  {
    FullIs(n);
    if |chain| > 1 {
      D.ChainTail(Full(n), par, chain);
      Neighbours(n, chain[1], chain[0]);
      ChainIsLong(n, par, chain[1..]);
    }
  }

  lemma {:induction false} DistinctBelow(s: seq<nat>, n: nat)
    requires forall k :: 0 <= k < |s| ==> s[k] < n
    requires forall k, l :: 0 <= k < l < |s| ==> s[k] != s[l]
    ensures |s| <= n
  {
    BelowCounts(n);
    var all := set k | 0 <= k < |s| :: s[k];
    assert all <= Below(n);
    CardBound(all, Below(n));
    SeqCard(s);
  }

  lemma {:induction false} BelowCounts(n: nat)
    ensures |Below(n)| == n
  {
    if n > 0 {
      BelowCounts(n - 1);
    }
  }

  lemma CardBound(a: set<nat>, b: set<nat>)
    requires a <= b
    ensures |a| <= |b|
  {
    assert b == a + (b - a);
  }

  lemma {:induction false} SeqCard(s: seq<nat>)
    requires forall k, l :: 0 <= k < l < |s| ==> s[k] != s[l]
    ensures |set k | 0 <= k < |s| :: s[k]| == |s|
  {
    if s != [] {
      var n := |s| - 1;
      SeqCard(s[..n]);
      var short := set k | 0 <= k < n :: s[..n][k];
      assert (set k | 0 <= k < |s| :: s[k]) == short + {s[n]};
    }
  }

  lemma ShortRowFits(n: Length, par: seq<nat>)
    requires n <= 101 && |par| == |Full(n).ents| == n
    ensures D.ChainsWithin(Full(n), par, 101)
  {
    hide Full;
    forall chain | IsChain(Full(n), par, chain)
      ensures |chain| <= 101
    {
      DistinctBelow(chain, n);
    }
  }

  lemma {:induction false} LongRowDoesNot(n: Length, par: seq<nat>)
    requires n > 101 && UniqueNums(Full(n)) && |Full(n).ents| == n && Settled(Full(n), par)
    ensures !D.ChainsWithin(Full(n), par, 101)
  {
    LastIsReached(n);
    hide Full, UniqueNums, Reachable;
    AssignedIffReachable(Full(n), par, n - 1);
    ParentsFormForest(Full(n), par, n - 1);
    var chain :| IsChain(Full(n), par, chain) && chain[0] == n - 1;
    ChainIsLong(n, par, chain);
  }

  lemma {:induction false} FullIsDescribed(n: Length)
    ensures P.FitsBuffer(Full(n)) <==> D.ChainsWithin(Full(n), S.ParentsOf(Full(n)), 101)
  {
    DeclsAre(n, n);
    RowIsSymmetric(n);
    hide P.FitsBuffer, D.ChainsWithin, S.ParentsOf, L.Symmetric;
    P.FitsIffShallow(Bare(n), Links(n));
  }

  /** A row fits the line buffer exactly when it has at most 101 entities. */
  lemma {:induction false} FitsIff(n: Length)
    ensures P.FitsBuffer(Full(n)) <==> n <= 101
    ensures Drawing.ForestExtent(Full(n), P.Drawn(Full(n))) <= Extent.LINE_BUF <==> n <= 101
  {
    hide *;
    FullIs(n);
    FullIsDescribed(n);
    P.FitsIff(Full(n));
    S.ParentsSettle(Full(n));
    if n <= 101 {
      ShortRowFits(n, S.ParentsOf(Full(n)));
    } else {
      LongRowDoesNot(n, S.ParentsOf(Full(n)));
    }
  }
}
