/** Conservation laws of the printout (lsub/topo.c:166-243): its lines and its source ports. */
module Counting {
  import opened Wrappers
  import opened Network
  import opened Parents
  import opened Drawing
  import opened Expansion

  /** The sum of the weights of the members of `s`. */
  function Sum(w: seq<nat>, s: set<nat>): nat {
    if w == [] then 0
    else Sum(w[..|w| - 1], s) + if |w| - 1 in s then w[|w| - 1] else 0
  }

  function PortCounts(net: Net): (w: seq<nat>)
    ensures |w| == |net.ents|
  {
    seq(|net.ents|, i requires 0 <= i < |net.ents| => |net.ents[i].ports|)
  }

  /** An expanded entity takes a line per port, or one line when it has none. */
  function Loads(net: Net): (w: seq<nat>)
    ensures |w| == |net.ents|
  {
    seq(|net.ents|, i requires 0 <= i < |net.ents| => Max(1, |net.ents[i].ports|))
  }

  lemma {:induction false} SumSplits(w: seq<nat>, a: set<nat>, b: set<nat>)
    requires a !! b
    ensures Sum(w, a + b) == Sum(w, a) + Sum(w, b)
  {
    if w != [] {
      SumSplits(w[..|w| - 1], a, b);
    }
  }

  lemma {:induction false} SumOutside(w: seq<nat>, s: set<nat>)
    requires forall i :: i in s ==> i >= |w|
    ensures Sum(w, s) == 0
  {
    if w != [] {
      SumOutside(w[..|w| - 1], s);
    }
  }

  lemma {:induction false} SumOne(w: seq<nat>, i: nat)
    requires i < |w|
    ensures Sum(w, {i}) == w[i]
  {
    if i == |w| - 1 {
      SumOutside(w[..i], {i});
    } else {
      SumOne(w[..|w| - 1], i);
    }
  }

  lemma SumOfUnion(w: seq<nat>, a: set<nat>, b: set<nat>, c: set<nat>)
    requires a <= b <= c
    ensures Sum(w, c - a) == Sum(w, b - a) + Sum(w, c - b)
  {
    assert c - a == (b - a) + (c - b);
    SumSplits(w, b - a, c - b);
  }

  // ----- lines of a tree

  function KidsCount(kids: Kids): nat {
    if kids.Done? then 0 else 1 + KidsCount(kids.rest)
  }

  function TreeLoad(t: Tree): nat {
    match t
    case Quoted(_) => 0
    case Opened(_, kids) => Max(1, KidsCount(kids)) + KidsLoad(kids)
  }

  function KidsLoad(kids: Kids): nat {
    match kids
    case Done => 0
    case Alone(_, rest) => KidsLoad(rest)
    case Linked(_, _, sub, rest) => TreeLoad(sub) + KidsLoad(rest)
  }

  function ForestLoad(f: Forest): nat {
    if f.Empty? then 0 else TreeLoad(f.tree) + ForestLoad(f.rest)
  }

  function RootsCount(f: Forest): nat {
    if f.Empty? then 0 else 1 + RootsCount(f.rest)
  }

  lemma {:induction false} TreeLines(net: Net, t: Tree)
    ensures |TreeBlock(net, t)| + |Opens(t)| == TreeLoad(t) + 1
  {
    match t
    case Quoted(_) =>
    case Opened(_, kids) =>
      KidsLines(net, kids, Single(kids));
  }

  lemma {:induction false} KidsLines(net: Net, kids: Kids, only: bool)
    ensures |KidsBlock(net, kids, only)| + |KidsOpens(kids)| == KidsCount(kids) + KidsLoad(kids)
  {
    match kids
    case Done =>
    case Alone(_, rest) =>
      KidsLines(net, rest, false);
    case Linked(_, _, sub, rest) =>
      TreeLines(net, sub);
      KidsLines(net, rest, false);
  }

  lemma {:induction false} RootsLines(net: Net, f: Forest, only: bool)
    ensures |RootsBlock(net, f, only)| + |ForestOpens(f)| == ForestLoad(f) + RootsCount(f)
  {
    if f.Root? {
      TreeLines(net, f.tree);
      RootsLines(net, f.rest, false);
    }
  }

  // ----- lines of a traversal

  lemma {:induction false} VisitLoad(net: Net, par: seq<nat>, done: set<nat>, i: nat, num: nat, ubc: nat)
    requires Wf(net) && |par| == |net.ents| && i < |par|
    ensures var r := Visit(net, par, done, i, num, ubc); TreeLoad(r.0) == Sum(Loads(net), r.1 - done)
    decreases All(net) - done, 0
  {
    var r := Visit(net, par, done, i, num, ubc);
    if r.0.Opened? {
      assert i in All(net) - done;
      VisitPortsLoad(net, par, done + {i}, i, 0);
      SumOfUnion(Loads(net), done, done + {i}, r.1);
      assert done + {i} - done == {i};
      SumOne(Loads(net), i);
    } else {
      assert r.1 - done == {};
      SumOutside(Loads(net), {});
    }
  }

  lemma {:induction false} VisitPortsLoad(net: Net, par: seq<nat>, done: set<nat>, i: nat, k: nat)
    requires Wf(net) && |par| == |net.ents| && i < |par| && k <= |net.ents[i].ports|
    ensures var r := VisitPorts(net, par, done, i, k);
      KidsLoad(r.0) == Sum(Loads(net), r.1 - done) && KidsCount(r.0) == |net.ents[i].ports| - k
    decreases All(net) - done, 1 + |net.ents[i].ports| - k
  {
    if k < |net.ents[i].ports| {
      assert WfList(net, i);
      var src := net.ents[i].ports[k];
      match net.ports[src].link
      case None =>
        VisitPortsLoad(net, par, done, i, k + 1);
      case Some(dst) =>
        var j := net.ports[dst].owner;
        VisitLoad(net, par, done, j, net.ents[i].num, net.ents[i].ubc);
        var sub := Visit(net, par, done, j, net.ents[i].num, net.ents[i].ubc);
        assert sub.1 == done || All(net) - sub.1 < All(net) - done;
        VisitPortsLoad(net, par, sub.1, i, k + 1);
        SumOfUnion(Loads(net), done, sub.1, VisitPorts(net, par, done, i, k).1);
    } else {
      assert done - done == {};
      SumOutside(Loads(net), {});
    }
  }

  lemma {:induction false} VisitAllLoad(net: Net, par: seq<nat>, done: set<nat>, ubcs: seq<nat>)
    requires Wf(net) && |par| == |net.ents| && forall n :: 0 <= n < |ubcs| ==> ubcs[n] < |par|
    ensures var r := VisitAll(net, par, done, ubcs);
      ForestLoad(r.0) == Sum(Loads(net), r.1 - done) && RootsCount(r.0) == |ubcs|
    decreases |ubcs|
  {
    if ubcs == [] {
      assert done - done == {};
      SumOutside(Loads(net), {});
    } else {
      var first := Visit(net, par, done, ubcs[0], HOST_PARENT, net.ents[ubcs[0]].ubc);
      VisitLoad(net, par, done, ubcs[0], HOST_PARENT, net.ents[ubcs[0]].ubc);
      VisitAllLoad(net, par, first.1, ubcs[1..]);
      SumOfUnion(Loads(net), done, first.1, VisitAll(net, par, done, ubcs).1);
    }
  }

  // ----- the law

  /** Members of `s` below `n` that have no port. */
  function Portless(net: Net, s: set<nat>): set<nat> {
    set i | i in s && i < |net.ents| && net.ents[i].ports == []
  }

  /** One entity more. */
  lemma PortlessBelow(net: Net, s: set<nat>, n: nat)
    requires 0 < n <= |net.ents|
    ensures |Portless(net, s * Below(n))| ==
      |Portless(net, s * Below(n - 1))| + if n - 1 in s && net.ents[n - 1].ports == [] then 1 else 0
  {
    hide Below;
    var a, b := Portless(net, s * Below(n - 1)), Portless(net, s * Below(n));
    assert n - 1 !in a;
    if n - 1 in s && net.ents[n - 1].ports == [] {
      assert b == a + {n - 1};
    } else {
      assert b == a;
    }
  }

  lemma SumSnoc(w: seq<nat>, s: set<nat>, n: nat)
    requires 0 < n <= |w|
    ensures Sum(w[..n], s) == Sum(w[..n - 1], s) + if n - 1 in s then w[n - 1] else 0
  {
    assert w[..n][..n - 1] == w[..n - 1];
  }

  lemma {:induction false} LoadsArePorts(net: Net, s: set<nat>, n: nat)
    requires n <= |net.ents|
    ensures Sum(Loads(net)[..n], s) == Sum(PortCounts(net)[..n], s) + |Portless(net, s * Below(n))|
  {
    if n == 0 {
      assert Portless(net, s * Below(0)) == {};
    } else {
      LoadsArePorts(net, s, n - 1);
      PortlessBelow(net, s, n);
      SumSnoc(Loads(net), s, n);
      SumSnoc(PortCounts(net), s, n);
      assert Loads(net)[n - 1] == Max(1, |net.ents[n - 1].ports|) && PortCounts(net)[n - 1] == |net.ents[n - 1].ports|;
      hide Sum, Loads, PortCounts, Portless, Below;
    }
  }

  function PortlessControllers(net: Net): set<nat> {
    set i | i in All(net) && net.ents[i].controller && net.ents[i].ports == []
  }

  lemma AdjacentHasPort(net: Net, q: nat, i: nat)
    requires Wf(net) && Adj(net, q, i)
    ensures net.ents[i].ports != []
  {
    var k :| 0 <= k < |net.ents[q].ports| && Far(net, net.ents[q].ports[k]) == Some(i);
    var far := net.ports[net.ents[q].ports[k]].link.value;
    assert far in net.ents[net.ports[far].owner].ports;
  }

  /** Only a controller can be expanded without having a port. */
  lemma PortlessAreControllers(net: Net, par: seq<nat>)
    requires Wf(net) && Settled(net, par)
    ensures Portless(net, Assigned(par)) == PortlessControllers(net)
  {
    var rank :| Parents.Forest(net, par, rank);
    ControllersAreHosts(net, par, rank);
    forall i | i in Assigned(par) && !net.ents[i].controller
      ensures net.ents[i].ports != []
    {
      assert Rooted(net, par, rank, i);
      var q :| Child(net, par, rank, q, i);
      AdjacentHasPort(net, q, i);
    }
  }

  lemma AssignedLoads(net: Net, par: seq<nat>)
    requires Wf(net) && Settled(net, par)
    ensures Sum(Loads(net), Assigned(par)) == Sum(PortCounts(net), Assigned(par)) + |PortlessControllers(net)|
  {
    LoadsArePorts(net, Assigned(par), |net.ents|);
    assert Loads(net)[..|net.ents|] == Loads(net) && PortCounts(net)[..|net.ents|] == PortCounts(net);
    assert Assigned(par) * Below(|net.ents|) == Assigned(par);
    PortlessAreControllers(net, par);
  }

  /**
   * Lines printed: a line per port of every expanded entity, less one for each entity that continues
   * its parent's line, plus one for each controller without ports.
   */
  lemma {:induction false} LinesPrinted(net: Net, par: seq<nat>, ubcs: seq<nat>)
    requires Wf(net) && UniqueNums(net) && Settled(net, par) && Controllers(net, ubcs)
    ensures |ForestBlock(net, VisitAll(net, par, {}, ubcs).0)| ==
      Sum(PortCounts(net), Assigned(par)) - (|Assigned(par)| - |ubcs|) + |PortlessControllers(net)|
  {
    var r := VisitAll(net, par, {}, ubcs);
    ExpandsEachAssignedOnce(net, par, ubcs);
    VisitAllLoad(net, par, {}, ubcs);
    assert Assigned(par) - {} == Assigned(par);
    RootsLines(net, r.0, r.0.Root? && r.0.rest.Empty?);
    AssignedLoads(net, par);
  }

  // ----- source ports

  /** A port is listed as often as its owner is expanded. */
  lemma {:induction false} VisitSources(net: Net, par: seq<nat>, done: set<nat>, i: nat, num: nat, ubc: nat, p: nat)
    requires Wf(net) && |par| == |net.ents| && i < |par| && p < |net.ports|
    ensures var t := Visit(net, par, done, i, num, ubc).0; Sources(t)[p] == Opens(t)[net.ports[p].owner]
    decreases All(net) - done, 0
  {
    var r := Visit(net, par, done, i, num, ubc);
    if r.0.Opened? {
      assert i in All(net) - done;
      VisitPortsSources(net, par, done + {i}, i, 0, p);
      assert WfList(net, i);
      assert net.ents[i].ports[0..] == net.ents[i].ports;
    }
  }

  lemma {:induction false} VisitPortsSources(net: Net, par: seq<nat>, done: set<nat>, i: nat, k: nat, p: nat)
    requires Wf(net) && |par| == |net.ents| && i < |par| && k <= |net.ents[i].ports| && p < |net.ports|
    ensures var kids := VisitPorts(net, par, done, i, k).0;
      KidsSources(kids)[p] == KidsOpens(kids)[net.ports[p].owner] + if p in net.ents[i].ports[k..] then 1 else 0
    decreases All(net) - done, 1 + |net.ents[i].ports| - k
  {
    if k < |net.ents[i].ports| {
      assert WfList(net, i);
      var src := net.ents[i].ports[k];
      assert net.ents[i].ports[k..] == [src] + net.ents[i].ports[k + 1..];
      assert src !in net.ents[i].ports[k + 1..];
      match net.ports[src].link
      case None =>
        VisitPortsSources(net, par, done, i, k + 1, p);
      case Some(dst) =>
        var j := net.ports[dst].owner;
        VisitSources(net, par, done, j, net.ents[i].num, net.ents[i].ubc, p);
        var sub := Visit(net, par, done, j, net.ents[i].num, net.ents[i].ubc);
        assert sub.1 == done || All(net) - sub.1 < All(net) - done;
        VisitPortsSources(net, par, sub.1, i, k + 1, p);
    }
  }

  lemma {:induction false} VisitAllSources(net: Net, par: seq<nat>, done: set<nat>, ubcs: seq<nat>, p: nat)
    requires Wf(net) && |par| == |net.ents| && forall n :: 0 <= n < |ubcs| ==> ubcs[n] < |par|
    requires p < |net.ports|
    ensures var f := VisitAll(net, par, done, ubcs).0; ForestSources(f)[p] == ForestOpens(f)[net.ports[p].owner]
    decreases |ubcs|
  {
    if ubcs != [] {
      var first := Visit(net, par, done, ubcs[0], HOST_PARENT, net.ents[ubcs[0]].ubc);
      VisitSources(net, par, done, ubcs[0], HOST_PARENT, net.ents[ubcs[0]].ubc, p);
      VisitAllSources(net, par, first.1, ubcs[1..], p);
    }
  }

  /** Each port of an entity with a parent is listed exactly once as a source port, and no other port is. */
  lemma EachPortListedOnce(net: Net, par: seq<nat>, ubcs: seq<nat>, p: nat)
    requires Wf(net) && UniqueNums(net) && Settled(net, par) && Controllers(net, ubcs) && p < |net.ports|
    ensures ForestSources(VisitAll(net, par, {}, ubcs).0)[p] == if net.ports[p].owner in Assigned(par) then 1 else 0
  {
    ExpandsEachAssignedOnce(net, par, ubcs);
    VisitAllSources(net, par, {}, ubcs, p);
  }
}
