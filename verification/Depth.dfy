/**
 * The printout follows the parent numbers (lsub/topo.c:122-243): an entity is expanded below its
 * parent, as deep as its parent chain is long, and so the chains decide whether the line buffer holds.
 */
module Depth {
  import opened Wrappers
  import opened Network
  import opened Parents
  import opened Drawing
  import opened Extent
  import opened Expansion

  // ----- which entities stand at which depth

  /** An entity that is expanded, and how deep below its controller. */
  type Spot = (nat, nat)

  /** The entities a tree expands when its own root stands at depth `d`. */
  function Spots(t: Tree, d: nat): set<Spot> {
    match t
    case Quoted(_) => {}
    case Opened(i, kids) => {(i, d)} + KidsSpots(kids, d + 1)
  }

  function KidsSpots(kids: Kids, d: nat): set<Spot> {
    match kids
    case Done => {}
    case Alone(_, rest) => KidsSpots(rest, d)
    case Linked(_, _, sub, rest) => Spots(sub, d) + KidsSpots(rest, d)
  }

  function ForestSpots(f: Forest): set<Spot> {
    match f
    case Empty => {}
    case Root(t, rest) => Spots(t, 0) + ForestSpots(rest)
  }

  ghost predicate Stands(spots: set<Spot>, e: nat) {
    exists d: nat :: (e, d) in spots
  }

  lemma StandsInUnion(a: set<Spot>, b: set<Spot>, e: nat)
    ensures Stands(a + b, e) <==> Stands(a, e) || Stands(b, e)
  {
    if Stands(a, e) {
      var d: nat :| (e, d) in a;
      assert (e, d) in a + b;
    }
    if Stands(b, e) {
      var d: nat :| (e, d) in b;
      assert (e, d) in a + b;
    }
  }

  /** An entity stands at some depth exactly when it is expanded at all. */
  lemma {:induction false} SpotsAreOpens(t: Tree, d: nat, e: nat)
    ensures Stands(Spots(t, d), e) <==> e in Opens(t)
    decreases t
  {
    if t.Opened? {
      KidsSpotsAreOpens(t.kids, d + 1, e);
      StandsInUnion({(t.ent, d)}, KidsSpots(t.kids, d + 1), e);
      assert Stands({(t.ent, d)}, e) <==> e == t.ent by {
        assert (t.ent, d) in {(t.ent, d)};
      }
    }
  }

  lemma {:induction false} KidsSpotsAreOpens(kids: Kids, d: nat, e: nat)
    ensures Stands(KidsSpots(kids, d), e) <==> e in KidsOpens(kids)
    decreases kids
  {
    match kids
    case Done =>
    case Alone(_, rest) =>
      KidsSpotsAreOpens(rest, d, e);
    case Linked(_, _, sub, rest) =>
      SpotsAreOpens(sub, d, e);
      KidsSpotsAreOpens(rest, d, e);
      StandsInUnion(Spots(sub, d), KidsSpots(rest, d), e);
  }

  lemma {:induction false} ForestSpotsAreOpens(f: Forest, e: nat)
    ensures Stands(ForestSpots(f), e) <==> e in ForestOpens(f)
  {
    if f.Root? {
      SpotsAreOpens(f.tree, 0, e);
      ForestSpotsAreOpens(f.rest, e);
      StandsInUnion(Spots(f.tree, 0), ForestSpots(f.rest), e);
    }
  }

  // ----- the depth is the length of the parent chain

  lemma ChainTail(net: Net, par: seq<nat>, chain: seq<nat>)
    requires |par| == |net.ents| && IsChain(net, par, chain) && |chain| > 1
    ensures IsChain(net, par, chain[1..]) && IsParent(net, par, chain[1], chain[0])
  {
    assert IsParent(net, par, chain[0 + 1], chain[0]);
    forall k | 0 <= k < |chain[1..]| - 1
      ensures IsParent(net, par, chain[1..][k + 1], chain[1..][k])
    {
      assert IsParent(net, par, chain[k + 1 + 1], chain[k + 1]);
    }
  }

  /** An entity has one parent chain only. */
  lemma {:induction false} SameChain(net: Net, par: seq<nat>, a: seq<nat>, b: seq<nat>)
    requires UniqueNums(net) && |par| == |net.ents| && IsChain(net, par, a) && IsChain(net, par, b) && a[0] == b[0]
    ensures a == b
    decreases |a|
  {
    if |a| > 1 {
      ChainTail(net, par, a);
    }
    if |b| > 1 {
      ChainTail(net, par, b);
    }
    hide IsChain;
    assert |a| > 1 <==> par[a[0]] != HOST_PARENT by {
      ChainEnds(net, par, a);
    }
    assert |b| > 1 <==> par[b[0]] != HOST_PARENT by {
      ChainEnds(net, par, b);
    }
    if |a| > 1 {
      assert b[1] == a[1];
      SameChain(net, par, a[1..], b[1..]);
      assert a == [a[0]] + a[1..] && b == [b[0]] + b[1..];
    } else {
      ChainEnds(net, par, a);
      ChainEnds(net, par, b);
      assert a == [a[0]] && b == [b[0]];
    }
  }

  lemma ChainEnds(net: Net, par: seq<nat>, chain: seq<nat>)
    requires UniqueNums(net) && |par| == |net.ents| && IsChain(net, par, chain)
    ensures chain != [] && chain[0] < |par| && par[chain[0]] != INIT_PARENT
    ensures |chain| == 1 <==> par[chain[0]] == HOST_PARENT
  {
    if |chain| > 1 {
      ChainTail(net, par, chain);
    }
  }

  /** The chain of a child is the child before the chain of its parent. */
  lemma ChildChain(net: Net, par: seq<nat>, i: nat, j: nat, ci: seq<nat>, cj: seq<nat>)
    requires UniqueNums(net) && |par| == |net.ents| && ChildOf(net, par, i, j)
    requires IsChain(net, par, ci) && ci[0] == i && IsChain(net, par, cj) && cj[0] == j
    ensures |cj| == |ci| + 1
  {
    ChainEnds(net, par, cj);
    ChainTail(net, par, cj);
    assert cj[1] == i;
    SameChain(net, par, cj[1..], ci);
  }

  lemma {:induction false} DepthIsChain(net: Net, par: seq<nat>, t: Tree, d: nat, e: nat, x: nat, ct: seq<nat>,
                                        ce: seq<nat>)
    requires UniqueNums(net) && Settled(net, par) && Nests(net, par, t) && (e, x) in Spots(t, d)
    requires IsChain(net, par, ct) && ct[0] == t.ent && IsChain(net, par, ce) && ce[0] == e
    ensures |ce| + d == |ct| + x
    decreases t
  {
    if (e, x) == (t.ent, d) {
      SameChain(net, par, ct, ce);
    } else {
      KidsDepthIsChain(net, par, t.ent, 0, t.kids, d + 1, e, x, ct, ce);
    }
  }

  lemma {:induction false} KidsDepthIsChain(net: Net, par: seq<nat>, i: nat, k: nat, kids: Kids, d: nat, e: nat, x: nat,
                                            ci: seq<nat>, ce: seq<nat>)
    requires UniqueNums(net) && Settled(net, par) && i < |net.ents| && KidsNest(net, par, i, k, kids)
    requires (e, x) in KidsSpots(kids, d)
    requires IsChain(net, par, ci) && ci[0] == i && IsChain(net, par, ce) && ce[0] == e
    ensures |ce| + d == |ci| + 1 + x
    decreases kids
  {
    if kids.Linked? && (e, x) in Spots(kids.sub, d) {
      var j := kids.sub.ent;
      ChildHasChain(net, par, i, j);
      var cj :| IsChain(net, par, cj) && cj[0] == j;
      ChildChain(net, par, i, j, ci, cj);
      DepthIsChain(net, par, kids.sub, d, e, x, cj, ce);
    } else {
      KidsDepthIsChain(net, par, i, k + 1, kids.rest, d, e, x, ci, ce);
    }
  }

  lemma ChildHasChain(net: Net, par: seq<nat>, i: nat, j: nat)
    requires UniqueNums(net) && Settled(net, par) && ChildOf(net, par, i, j)
    ensures exists chain :: IsChain(net, par, chain) && chain[0] == j
  {
    ParentsFormForest(net, par, j);
  }

  lemma {:induction false} RootsDepthIsChain(net: Net, par: seq<nat>, f: Forest, e: nat, x: nat, ce: seq<nat>)
    requires UniqueNums(net) && Settled(net, par) && ForestNests(net, par, f) && (e, x) in ForestSpots(f)
    requires IsChain(net, par, ce) && ce[0] == e
    ensures |ce| == x + 1
  {
    if (e, x) in Spots(f.tree, 0) {
      assert IsChain(net, par, [f.tree.ent]);
      DepthIsChain(net, par, f.tree, 0, e, x, [f.tree.ent], ce);
    } else {
      RootsDepthIsChain(net, par, f.rest, e, x, ce);
    }
  }

  /** Whether a chain of `n` entities starts at `e`. */
  ghost predicate HasChain(net: Net, par: seq<nat>, e: nat, n: nat)
    requires |par| == |net.ents|
  {
    exists chain :: IsChain(net, par, chain) && chain[0] == e && |chain| == n
  }

  /** The printout expands an entity at depth `d` exactly when its parent chain has `d + 1` entities. */
  lemma DepthsAreChains(net: Net, par: seq<nat>, ubcs: seq<nat>, e: nat, d: nat)
    requires Wf(net) && UniqueNums(net) && Settled(net, par) && Controllers(net, ubcs)
    ensures (e, d) in ForestSpots(VisitAll(net, par, {}, ubcs).0) <==> HasChain(net, par, e, d + 1)
  {
    var f := VisitAll(net, par, {}, ubcs).0;
    ExpandsEachAssignedOnce(net, par, ubcs);
    ForestSpotsAreOpens(f, e);
    if (e, d) in ForestSpots(f) {
      assert e in Assigned(par);
      ParentsFormForest(net, par, e);
      var ce :| IsChain(net, par, ce) && ce[0] == e;
      RootsDepthIsChain(net, par, f, e, d, ce);
    }
    if HasChain(net, par, e, d + 1) {
      var ce :| IsChain(net, par, ce) && ce[0] == e && |ce| == d + 1;
      ChainEnds(net, par, ce);
      assert e in Assigned(par);
      var x: nat :| (e, x) in ForestSpots(f);
      RootsDepthIsChain(net, par, f, e, x, ce);
    }
  }

  // ----- how far the drawing reaches

  ghost predicate Above(spots: set<Spot>, b: nat) {
    forall e: nat, d: nat :: (e, d) in spots ==> d < b
  }

  /** The number of levels bounds every depth, and is reached. */
  lemma {:induction false} LevelsIff(t: Tree, d: nat, b: nat)
    requires d <= b
    ensures Levels(t) + d <= b <==> Above(Spots(t, d), b)
    decreases t
  {
    if t.Opened? {
      assert (t.ent, d) in Spots(t, d);
      if d < b {
        KidsLevelsIff(t.kids, d + 1, b);
      }
    }
  }

  lemma {:induction false} KidsLevelsIff(kids: Kids, d: nat, b: nat)
    requires d <= b
    ensures KidsLevels(kids) + d <= b <==> Above(KidsSpots(kids, d), b)
    decreases kids
  {
    match kids
    case Done =>
    case Alone(_, rest) =>
      KidsLevelsIff(rest, d, b);
    case Linked(_, _, sub, rest) =>
      LevelsIff(sub, d, b);
      KidsLevelsIff(rest, d, b);
  }

  lemma {:induction false} ForestLevelsIff(f: Forest, b: nat)
    ensures ForestLevels(f) <= b <==> Above(ForestSpots(f), b)
  {
    if f.Root? {
      LevelsIff(f.tree, 0, b);
      ForestLevelsIff(f.rest, b);
    }
  }

  /** No parent chain has more than `b` entities. */
  ghost predicate ChainsWithin(net: Net, par: seq<nat>, b: nat)
    requires |par| == |net.ents|
  {
    forall chain :: IsChain(net, par, chain) ==> |chain| <= b
  }

  /** The spots are the starts of the parent chains with their lengths. */
  ghost predicate SpotsAreChains(net: Net, par: seq<nat>, spots: set<Spot>)
    requires |par| == |net.ents|
  {
    && (forall e: nat, d: nat :: (e, d) in spots ==> HasChain(net, par, e, d + 1))
    && (forall chain :: IsChain(net, par, chain) ==> (chain[0], |chain| - 1) in spots)
  }

  lemma DrawnSpotsAreChains(net: Net, par: seq<nat>, ubcs: seq<nat>)
    requires Wf(net) && UniqueNums(net) && Settled(net, par) && Controllers(net, ubcs)
    ensures SpotsAreChains(net, par, ForestSpots(VisitAll(net, par, {}, ubcs).0))
  {
    hide ForestSpots, VisitAll, Closed, IsParent;
    var spots := ForestSpots(VisitAll(net, par, {}, ubcs).0);
    forall e: nat, d: nat | (e, d) in spots
      ensures HasChain(net, par, e, d + 1)
    {
      DepthsAreChains(net, par, ubcs, e, d);
    }
    forall chain | IsChain(net, par, chain)
      ensures (chain[0], |chain| - 1) in spots
    {
      assert HasChain(net, par, chain[0], |chain| - 1 + 1);
      DepthsAreChains(net, par, ubcs, chain[0], |chain| - 1);
    }
  }

  lemma AboveIsWithin(net: Net, par: seq<nat>, spots: set<Spot>, b: nat)
    requires |par| == |net.ents| && SpotsAreChains(net, par, spots)
    ensures Above(spots, b) <==> ChainsWithin(net, par, b)
  {
    if ChainsWithin(net, par, b) {
      forall e: nat, d: nat | (e, d) in spots
        ensures d < b
      {
        var chain :| IsChain(net, par, chain) && chain[0] == e && |chain| == d + 1;
      }
    }
  }

  /** The drawing has at most `b` levels exactly when no parent chain is longer than `b`. */
  lemma LevelsAreChains(net: Net, par: seq<nat>, ubcs: seq<nat>, b: nat)
    requires Wf(net) && UniqueNums(net) && Settled(net, par) && Controllers(net, ubcs)
    ensures ForestLevels(VisitAll(net, par, {}, ubcs).0) <= b <==> ChainsWithin(net, par, b)
  {
    var f := VisitAll(net, par, {}, ubcs).0;
    ForestLevelsIff(f, b);
    DrawnSpotsAreChains(net, par, ubcs);
    AboveIsWithin(net, par, ForestSpots(f), b);
  }

  /** A port of `e` is linked. */
  predicate ShowsLink(net: Net, e: nat) {
    e < |net.ents| && exists n :: 0 <= n < |net.ents[e].ports| && IsLinked(net, net.ents[e].ports[n])
  }

  /** What an expanded entity takes to the right of its own text, unless an expanded child takes more. */
  function Tail(net: Net, e: nat): nat {
    if ShowsLink(net, e) then 21 else if e < |net.ents| && net.ents[e].ports != [] then 8 else 2
  }

  function KidsTail(kids: Kids): nat {
    if HasLink(kids) then 21 else if !kids.Done? then 8 else 2
  }

  lemma {:induction false} KidsLinked(net: Net, par: seq<nat>, i: nat, k: nat, kids: Kids)
    requires i < |net.ents| && KidsNest(net, par, i, k, kids)
    ensures HasLink(kids) <==> exists n :: k <= n < |net.ents[i].ports| && IsLinked(net, net.ents[i].ports[n])
    ensures kids.Done? <==> k == |net.ents[i].ports|
    ensures k <= |net.ents[i].ports|
    decreases kids
  {
    match kids
    case Done =>
    case Alone(src, rest) =>
      KidsLinked(net, par, i, k + 1, rest);
      assert !IsLinked(net, net.ents[i].ports[k]);
    case Linked(src, dst, sub, rest) =>
      KidsLinked(net, par, i, k + 1, rest);
      assert IsLinked(net, net.ents[i].ports[k]);
  }

  /** Expanded at depth `d`, `e` makes the drawing of its tree reach this far. */
  function Reach(net: Net, e: nat, d: nat): nat {
    20 * d + 9 + Tail(net, e)
  }

  lemma AtLeastTen(net: Net, t: Tree)
    requires UniqueNums(net) && SmallPortNums(net)
    ensures TreeExtent(net, t) >= 10
  {
    Widths(net, t.ent, 0);
  }

  ghost predicate Reaches(net: Net, spots: set<Spot>, b: nat) {
    forall e: nat, d: nat :: (e, d) in spots ==> Reach(net, e, d) <= b
  }

  lemma ReachesUnion(net: Net, a: set<Spot>, b: set<Spot>, n: nat)
    ensures Reaches(net, a + b, n) <==> Reaches(net, a, n) && Reaches(net, b, n)
  {
    if Reaches(net, a + b, n) {
      assert forall x :: x in a || x in b ==> x in a + b;
    }
  }

  lemma {:induction false} TreeExtentIff(net: Net, par: seq<nat>, t: Tree, d: nat, b: nat)
    requires UniqueNums(net) && SmallPortNums(net) && Nests(net, par, t) && 20 * d + 10 <= b
    ensures TreeExtent(net, t) + 20 * d <= b <==> Reaches(net, Spots(t, d), b)
    decreases t
  {
    Widths(net, t.ent, 0);
    if t.Opened? {
      KidsLinked(net, par, t.ent, 0, t.kids);
      assert (t.ent, d) in Spots(t, d) && Tail(net, t.ent) == KidsTail(t.kids);
      KidsExtentIff(net, par, t.ent, 0, t.kids, d, b);
    }
  }

  lemma {:induction false} KidsExtentIff(net: Net, par: seq<nat>, i: nat, k: nat, kids: Kids, d: nat, b: nat)
    requires UniqueNums(net) && SmallPortNums(net) && i < |net.ents| && KidsNest(net, par, i, k, kids)
    ensures KidsExtent(net, kids) + 20 * d + 9 <= b <==>
      KidsTail(kids) + 20 * d + 9 <= b && Reaches(net, KidsSpots(kids, d + 1), b)
    decreases kids
  {
    match kids
    case Done =>
    case Alone(src, rest) =>
      Widths(net, 0, src);
      KidsExtentIff(net, par, i, k + 1, rest, d, b);
    case Linked(src, dst, sub, rest) =>
      Widths(net, 0, src);
      Widths(net, 0, dst);
      AtLeastTen(net, sub);
      KidsExtentIff(net, par, i, k + 1, rest, d, b);
      if 20 * d + 30 <= b {
        TreeExtentIff(net, par, sub, d + 1, b);
      }
      ReachesUnion(net, Spots(sub, d + 1), KidsSpots(rest, d + 1), b);
      hide Reaches, TreeExtent, Spots, Nests, KidsNest, UniqueNums, SmallPortNums, SrcText, DstText, Tail;
  }

  lemma {:induction false} ForestExtentIff(net: Net, par: seq<nat>, f: Forest, b: nat)
    requires UniqueNums(net) && SmallPortNums(net) && ForestNests(net, par, f) && b >= 10
    ensures ForestExtent(net, f) <= b + 2 <==> Reaches(net, ForestSpots(f), b)
  {
    if f.Root? {
      TreeExtentIff(net, par, f.tree, 0, b);
      ForestExtentIff(net, par, f.rest, b);
    }
  }

  /** The longest parent chain an entity may have: 101 entities, or 102 when it has no linked port. */
  ghost predicate ChainsFit(net: Net, par: seq<nat>)
    requires |par| == |net.ents|
  {
    forall chain :: IsChain(net, par, chain) ==> |chain| <= if ShowsLink(net, chain[0]) then 101 else 102
  }

  lemma ReachIsFit(net: Net, par: seq<nat>, spots: set<Spot>)
    requires |par| == |net.ents| && SpotsAreChains(net, par, spots)
    ensures Reaches(net, spots, LINE_BUF - 2) <==> ChainsFit(net, par)
  {
    forall e: nat, d: nat
      ensures e < |net.ents| && net.ents[e].ports == [] ==> !ShowsLink(net, e)
      ensures Reach(net, e, d) <= LINE_BUF - 2 <==> d + 1 <= if ShowsLink(net, e) then 101 else 102
    {
    }
    hide Reach, ShowsLink, IsChain;
    if ChainsFit(net, par) {
      forall e: nat, d: nat | (e, d) in spots
        ensures Reach(net, e, d) <= LINE_BUF - 2
      {
        var chain :| IsChain(net, par, chain) && chain[0] == e && |chain| == d + 1;
      }
    }
    if Reaches(net, spots, LINE_BUF - 2) {
      forall chain | IsChain(net, par, chain)
        ensures |chain| <= if ShowsLink(net, chain[0]) then 101 else 102
      {
        assert Reach(net, chain[0], |chain| - 1) <= LINE_BUF - 2;
      }
    }
  }

  /** The drawing stays inside the line buffer exactly when the parent chains are short enough. */
  lemma {:induction false} FitsIffChainsFit(net: Net, par: seq<nat>, ubcs: seq<nat>)
    requires Wf(net) && UniqueNums(net) && SmallPortNums(net) && Settled(net, par) && Controllers(net, ubcs)
    ensures ForestExtent(net, VisitAll(net, par, {}, ubcs).0) <= LINE_BUF <==> ChainsFit(net, par)
  {
    var f := VisitAll(net, par, {}, ubcs).0;
    ExpandsEachAssignedOnce(net, par, ubcs);
    ForestExtentIff(net, par, f, LINE_BUF - 2);
    DrawnSpotsAreChains(net, par, ubcs);
    ReachIsFit(net, par, ForestSpots(f));
  }

  /** When links are mutual every chain of more than one entity starts at an entity that shows a link. */
  lemma MutualLinksShow(net: Net, par: seq<nat>, chain: seq<nat>)
    requires Wf(net) && UniqueNums(net) && Involution(net) && |par| == |net.ents| && IsChain(net, par, chain)
      && |chain| > 1
    ensures ShowsLink(net, chain[0])
  {
    ChainTail(net, par, chain);
    var q, i := chain[1], chain[0];
    var k :| 0 <= k < |net.ents[q].ports| && Far(net, net.ents[q].ports[k]) == Some(i);
    assert WfList(net, q);
    var p := net.ents[q].ports[k];
    var far := net.ports[p].link.value;
    assert net.ports[far].link == Some(p) && far in net.ents[net.ports[far].owner].ports;
    var n :| 0 <= n < |net.ents[i].ports| && net.ents[i].ports[n] == far;
  }

  /** Then the drawing fits exactly when no parent chain has more than 101 entities. */
  lemma MutualFitsIff(net: Net, par: seq<nat>)
    requires Wf(net) && UniqueNums(net) && Involution(net) && |par| == |net.ents|
    ensures ChainsFit(net, par) <==> ChainsWithin(net, par, 101)
  {
    forall chain | IsChain(net, par, chain) && |chain| > 1
      ensures ShowsLink(net, chain[0])
    {
      MutualLinksShow(net, par, chain);
    }
  }
}
