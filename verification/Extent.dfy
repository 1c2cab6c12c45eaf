/** How far a drawing reaches into the line buffer (lsub/topo.c:132-163, 178-194, 245-254). */
module Extent {
  import opened Network
  import opened Drawing
  import H = Hex

  const LINE_BUF: nat := 2048

  /** Nested expansions: 0 for a quoted leaf, 1 for an entity that expands nothing below it. */
  function Levels(t: Tree): nat {
    match t
    case Quoted(_) => 0
    case Opened(_, kids) => 1 + KidsLevels(kids)
  }

  function KidsLevels(kids: Kids): nat {
    match kids
    case Done => 0
    case Alone(_, rest) => KidsLevels(rest)
    case Linked(_, _, sub, rest) => Max(Levels(sub), KidsLevels(rest))
  }

  function ForestLevels(f: Forest): nat {
    if f.Empty? then 0 else Max(Levels(f.tree), ForestLevels(f.rest))
  }

  predicate HasLink(kids: Kids) {
    match kids
    case Done => false
    case Alone(_, rest) => HasLink(rest)
    case Linked(_, _, _, _) => true
  }

  /** Every expanded entity of the tree shows at least one linked port. */
  predicate Echoes(t: Tree) {
    t.Opened? ==> HasLink(t.kids) && KidsEcho(t.kids)
  }

  predicate KidsEcho(kids: Kids) {
    match kids
    case Done => true
    case Alone(_, rest) => KidsEcho(rest)
    case Linked(_, _, sub, rest) => Echoes(sub) && KidsEcho(rest)
  }

  lemma Pow16Values()
    ensures H.Pow16(3) == PORT_NUMS && H.Pow16(5) == ENT_NUMS
  {
    assert H.Pow16(3) == 16 * (16 * (16 * H.Pow16(0)));
    assert H.Pow16(5) == 16 * (16 * H.Pow16(3));
  }

  /** The fixed widths of the five pieces of text. */
  lemma Widths(net: Net, i: nat, p: nat)
    requires UniqueNums(net) && SmallPortNums(net)
    ensures |QuotedText(net, i)| == 8 && |OpenedText(net, i)| == 9
    ensures |SrcText(net, p)| == 5 && |DstText(net, p)| == 5
  {
    Pow16Values();
  }

  lemma {:induction false} TreeReach(net: Net, t: Tree)
    requires UniqueNums(net) && SmallPortNums(net)
    ensures TreeExtent(net, t) <= 20 * Levels(t) + 10
    ensures Echoes(t) ==> TreeExtent(net, t) == 20 * Levels(t) + 10
  {
    Widths(net, t.ent, 0);
    if t.Opened? {
      KidsReach(net, t.kids);
    }
  }

  lemma {:induction false} KidsReach(net: Net, kids: Kids)
    requires UniqueNums(net) && SmallPortNums(net)
    ensures KidsExtent(net, kids) <= 20 * KidsLevels(kids) + 21
    ensures HasLink(kids) && KidsEcho(kids) ==> KidsExtent(net, kids) == 20 * KidsLevels(kids) + 21
    ensures !HasLink(kids) ==> KidsLevels(kids) == 0 && KidsExtent(net, kids) <= 8
  {
    match kids
    case Done =>
    case Alone(src, rest) =>
      Widths(net, 0, src);
      KidsReach(net, rest);
    case Linked(src, dst, sub, rest) =>
      Widths(net, 0, src);
      Widths(net, 0, dst);
      TreeReach(net, sub);
      KidsReach(net, rest);
  }

  /** An entity reached over a link shows that link back, so everything below a visited port echoes. */
  lemma {:induction false} VisitEchoes(net: Net, par: seq<nat>, done: set<nat>, i: nat, num: nat, ubc: nat)
    requires Wf(net) && Involution(net) && |par| == |net.ents| && i < |par|
    ensures var t := Visit(net, par, done, i, num, ubc).0;
      t.Opened? ==> KidsEcho(t.kids) && (forall p :: p in net.ents[i].ports && IsLinked(net, p) ==> HasLink(t.kids))
    decreases All(net) - done, 0
  {
    assert WfList(net, i);
    if Visit(net, par, done, i, num, ubc).0.Opened? {
      assert i in All(net) - done;
      VisitPortsEcho(net, par, done + {i}, i, 0);
    }
  }

  lemma {:induction false} VisitPortsEcho(net: Net, par: seq<nat>, done: set<nat>, i: nat, k: nat)
    requires Wf(net) && Involution(net) && |par| == |net.ents| && i < |par| && k <= |net.ents[i].ports|
    ensures var kids := VisitPorts(net, par, done, i, k).0;
      && KidsEcho(kids)
      && forall n :: k <= n < |net.ents[i].ports| && IsLinked(net, net.ents[i].ports[n]) ==> HasLink(kids)
    decreases All(net) - done, 1 + |net.ents[i].ports| - k
  {
    if k < |net.ents[i].ports| {
      assert WfList(net, i);
      var src := net.ents[i].ports[k];
      match net.ports[src].link
      case None =>
        VisitPortsEcho(net, par, done, i, k + 1);
      case Some(dst) =>
        var j := net.ports[dst].owner;
        VisitEchoes(net, par, done, j, net.ents[i].num, net.ents[i].ubc);
        assert dst in net.ents[j].ports && IsLinked(net, dst);
        var sub := Visit(net, par, done, j, net.ents[i].num, net.ents[i].ubc);
        assert sub.1 == done || All(net) - sub.1 < All(net) - done;
        VisitPortsEcho(net, par, sub.1, i, k + 1);
    }
  }

  /** One printed tree: with an expansion below the root the reach is exact. */
  lemma {:induction false} RootReach(net: Net, par: seq<nat>, done: set<nat>, i: nat, num: nat, ubc: nat)
    requires Wf(net) && Involution(net) && UniqueNums(net) && SmallPortNums(net) && |par| == |net.ents| && i < |par|
    ensures var t := Visit(net, par, done, i, num, ubc).0;
      TreeExtent(net, t) <= 20 * Levels(t) + 10 && (Levels(t) > 1 ==> TreeExtent(net, t) == 20 * Levels(t) + 10)
  {
    var t := Visit(net, par, done, i, num, ubc).0;
    TreeReach(net, t);
    if t.Opened? {
      VisitEchoes(net, par, done, i, num, ubc);
      KidsReach(net, t.kids);
    }
  }

  lemma {:induction false} ForestReach(net: Net, par: seq<nat>, done: set<nat>, ubcs: seq<nat>)
    requires Wf(net) && Involution(net) && UniqueNums(net) && SmallPortNums(net) && |par| == |net.ents|
    requires forall n :: 0 <= n < |ubcs| ==> ubcs[n] < |par|
    ensures var f := VisitAll(net, par, done, ubcs).0;
      && ForestExtent(net, f) <= 20 * ForestLevels(f) + 12
      && (ForestLevels(f) > 1 ==> ForestExtent(net, f) == 20 * ForestLevels(f) + 12)
    decreases |ubcs|
  {
    if ubcs != [] {
      var first := Visit(net, par, done, ubcs[0], HOST_PARENT, net.ents[ubcs[0]].ubc);
      RootReach(net, par, done, ubcs[0], HOST_PARENT, net.ents[ubcs[0]].ubc);
      ForestReach(net, par, first.1, ubcs[1..]);
    }
  }

  /**
   * The depth of the deepest expanded entity, controllers being at depth 0. A drawing of depth D
   * uses 20 * D + 32 characters, so it stays inside the line buffer exactly when D <= 100.
   */
  lemma {:induction false} FitsIffShallow(net: Net, par: seq<nat>, ubcs: seq<nat>)
    requires Wf(net) && Involution(net) && UniqueNums(net) && SmallPortNums(net) && |par| == |net.ents|
    requires forall n :: 0 <= n < |ubcs| ==> ubcs[n] < |par|
    ensures var f := VisitAll(net, par, {}, ubcs).0;
      && (ForestExtent(net, f) <= LINE_BUF <==> ForestLevels(f) - 1 <= 100)
      && (ForestLevels(f) > 1 ==> ForestExtent(net, f) == 20 * (ForestLevels(f) - 1) + 32)
  {
    ForestReach(net, par, {}, ubcs);
  }
}
