/**
 * What the printout shows (lsub/topo.c:122-243): which entities it expands, how often, how many
 * lines it takes and which ports it lists.
 */
module Expansion {
  import opened Wrappers
  import opened Network
  import opened Parents
  import opened Drawing

  // ----- reading a tree

  /** How often each entity is expanded. */
  function Opens(t: Tree): multiset<nat> {
    match t
    case Quoted(_) => multiset{}
    case Opened(i, kids) => multiset{i} + KidsOpens(kids)
  }

  function KidsOpens(kids: Kids): multiset<nat> {
    match kids
    case Done => multiset{}
    case Alone(_, rest) => KidsOpens(rest)
    case Linked(_, _, sub, rest) => Opens(sub) + KidsOpens(rest)
  }

  function ForestOpens(f: Forest): multiset<nat> {
    match f
    case Empty => multiset{}
    case Root(t, rest) => Opens(t) + ForestOpens(rest)
  }

  /** How often each port is listed as a source port. */
  function Sources(t: Tree): multiset<nat> {
    match t
    case Quoted(_) => multiset{}
    case Opened(_, kids) => KidsSources(kids)
  }

  function KidsSources(kids: Kids): multiset<nat> {
    match kids
    case Done => multiset{}
    case Alone(src, rest) => multiset{src} + KidsSources(rest)
    case Linked(src, _, sub, rest) => multiset{src} + Sources(sub) + KidsSources(rest)
  }

  function ForestSources(f: Forest): multiset<nat> {
    match f
    case Empty => multiset{}
    case Root(t, rest) => Sources(t) + ForestSources(rest)
  }

  // ----- each entity at most once

  lemma MultisetOfUnion(a: set<nat>, b: set<nat>, c: set<nat>)
    requires a <= b <= c
    ensures multiset(b - a) + multiset(c - b) == multiset(c - a)
  {
    forall x
      ensures (multiset(b - a) + multiset(c - b))[x] == multiset(c - a)[x]
    {
    }
  }

  /** A visit expands exactly the entities it marks as printed, each once. */
  lemma {:induction false} VisitOpens(net: Net, par: seq<nat>, done: set<nat>, i: nat, num: nat, ubc: nat)
    requires Wf(net) && |par| == |net.ents| && i < |par|
    ensures var r := Visit(net, par, done, i, num, ubc); Opens(r.0) == multiset(r.1 - done)
    decreases All(net) - done, 0
  {
    var r := Visit(net, par, done, i, num, ubc);
    if r.0.Opened? {
      assert i in All(net) - done;
      VisitPortsOpens(net, par, done + {i}, i, 0);
      MultisetOfUnion(done, done + {i}, r.1);
      assert done + {i} - done == {i};
    } else {
      assert r.1 - done == {};
    }
  }

  lemma {:induction false} VisitPortsOpens(net: Net, par: seq<nat>, done: set<nat>, i: nat, k: nat)
    requires Wf(net) && |par| == |net.ents| && i < |par| && k <= |net.ents[i].ports|
    ensures var r := VisitPorts(net, par, done, i, k); KidsOpens(r.0) == multiset(r.1 - done)
    decreases All(net) - done, 1 + |net.ents[i].ports| - k
  {
    if k < |net.ents[i].ports| {
      assert WfList(net, i);
      var src := net.ents[i].ports[k];
      match net.ports[src].link
      case None =>
        VisitPortsOpens(net, par, done, i, k + 1);
      case Some(dst) =>
        var j := net.ports[dst].owner;
        VisitOpens(net, par, done, j, net.ents[i].num, net.ents[i].ubc);
        var sub := Visit(net, par, done, j, net.ents[i].num, net.ents[i].ubc);
        assert sub.1 == done || All(net) - sub.1 < All(net) - done;
        VisitPortsOpens(net, par, sub.1, i, k + 1);
        MultisetOfUnion(done, sub.1, VisitPorts(net, par, done, i, k).1);
    } else {
      assert done - done == {};
    }
  }

  lemma {:induction false} VisitAllOpens(net: Net, par: seq<nat>, done: set<nat>, ubcs: seq<nat>)
    requires Wf(net) && |par| == |net.ents| && forall n :: 0 <= n < |ubcs| ==> ubcs[n] < |par|
    ensures var r := VisitAll(net, par, done, ubcs); ForestOpens(r.0) == multiset(r.1 - done)
    decreases |ubcs|
  {
    if ubcs == [] {
      assert done - done == {};
    } else {
      var first := Visit(net, par, done, ubcs[0], HOST_PARENT, net.ents[ubcs[0]].ubc);
      VisitOpens(net, par, done, ubcs[0], HOST_PARENT, net.ents[ubcs[0]].ubc);
      VisitAllOpens(net, par, first.1, ubcs[1..]);
      MultisetOfUnion(done, first.1, VisitAll(net, par, done, ubcs).1);
    }
  }

  // ----- exactly the entities with a parent

  /** Every entity printed has a parent, and its children across its ports are printed too. */
  ghost predicate Complete(net: Net, par: seq<nat>, from: set<nat>, to: set<nat>)
    requires |par| == |net.ents|
  {
    forall q: nat, c: nat :: q in from && Adj(net, q, c) && c < |par| && par[c] == net.ents[q].num ==> c in to
  }

  ghost predicate AllAssigned(par: seq<nat>, s: set<nat>) {
    forall i :: i in s ==> i < |par| && par[i] != INIT_PARENT
  }

  /** The children of `i` across its ports from the `k`-th on are printed. */
  ghost predicate CompleteFrom(net: Net, par: seq<nat>, i: nat, k: nat, to: set<nat>)
    requires |par| == |net.ents| && i < |par|
  {
    forall n, c ::
      (k <= n < |net.ents[i].ports| && Far(net, net.ents[i].ports[n]) == Some(c) && c < |par|
       && net.ents[c].ubc == net.ents[i].ubc && par[c] == net.ents[i].num)
      ==> c in to
  }

  lemma {:induction false} VisitCompletes(net: Net, par: seq<nat>, done: set<nat>, i: nat, num: nat, ubc: nat)
    requires Wf(net) && UniqueNums(net) && |par| == |net.ents| && i < |par| && num != INIT_PARENT
    ensures var r := Visit(net, par, done, i, num, ubc);
      && Complete(net, par, r.1 - done, r.1) && AllAssigned(par, r.1 - done)
      && (par[i] == num && net.ents[i].ubc == ubc ==> i in r.1)
    decreases All(net) - done, 0
  {
    var r := Visit(net, par, done, i, num, ubc);
    if r.0.Opened? {
      assert i in All(net) - done;
      VisitPortsCompletes(net, par, done + {i}, i, 0);
      forall q: nat, c: nat | q in r.1 - done && Adj(net, q, c) && c < |par| && par[c] == net.ents[q].num
        ensures c in r.1
      {
        if q == i {
          var n :| 0 <= n < |net.ents[i].ports| && Far(net, net.ents[i].ports[n]) == Some(c);
        } else {
          assert q in r.1 - (done + {i});
        }
      }
    }
  }

  lemma CompleteFromStep(net: Net, par: seq<nat>, i: nat, k: nat, to: set<nat>)
    requires |par| == |net.ents| && i < |par| && k < |net.ents[i].ports| && CompleteFrom(net, par, i, k + 1, to)
    requires var far := Far(net, net.ents[i].ports[k]);
      far.Some? && far.value < |par| && net.ents[far.value].ubc == net.ents[i].ubc && par[far.value] == net.ents[i].num
      ==> far.value in to
    ensures CompleteFrom(net, par, i, k, to)
  {
  }

  lemma {:induction false} VisitPortsCompletes(net: Net, par: seq<nat>, done: set<nat>, i: nat, k: nat)
    requires Wf(net) && UniqueNums(net) && |par| == |net.ents| && i < |par| && k <= |net.ents[i].ports|
    ensures var r := VisitPorts(net, par, done, i, k);
      && Complete(net, par, r.1 - done, r.1) && AllAssigned(par, r.1 - done)
      && CompleteFrom(net, par, i, k, r.1)
    decreases All(net) - done, 1 + |net.ents[i].ports| - k
  {
    if k < |net.ents[i].ports| {
      assert WfList(net, i);
      hide Complete, AllAssigned, CompleteFrom;
      var r := VisitPorts(net, par, done, i, k);
      var src := net.ents[i].ports[k];
      match net.ports[src].link
      case None =>
        VisitPortsCompletes(net, par, done, i, k + 1);
        CompleteFromStep(net, par, i, k, r.1);
      case Some(dst) =>
        var j := net.ports[dst].owner;
        VisitCompletes(net, par, done, j, net.ents[i].num, net.ents[i].ubc);
        var sub := Visit(net, par, done, j, net.ents[i].num, net.ents[i].ubc);
        assert sub.1 == done || All(net) - sub.1 < All(net) - done;
        VisitPortsCompletes(net, par, sub.1, i, k + 1);
        CompleteJoins(net, par, done, sub.1, r.1);
        CompleteFromStep(net, par, i, k, r.1);
    } else {
      assert done - done == {};
    }
  }

  lemma CompleteJoins(net: Net, par: seq<nat>, a: set<nat>, b: set<nat>, c: set<nat>)
    requires |par| == |net.ents| && a <= b <= c
    requires Complete(net, par, b - a, b) && Complete(net, par, c - b, c)
    requires AllAssigned(par, b - a) && AllAssigned(par, c - b)
    ensures Complete(net, par, c - a, c) && AllAssigned(par, c - a)
  {
    forall q: nat, d: nat | q in c - a && Adj(net, q, d) && d < |par| && par[d] == net.ents[q].num
      ensures d in c
    {
      if q in b {
        assert q in b - a;
      } else {
        assert q in c - b;
      }
    }
    forall i | i in c - a
      ensures i < |par| && par[i] != INIT_PARENT
    {
      assert i in b - a || i in c - b;
    }
  }

  lemma {:induction false} VisitAllCompletes(net: Net, par: seq<nat>, done: set<nat>, ubcs: seq<nat>)
    requires Wf(net) && UniqueNums(net) && |par| == |net.ents|
    requires forall n :: 0 <= n < |ubcs| ==> ubcs[n] < |par| && par[ubcs[n]] == HOST_PARENT
    ensures var r := VisitAll(net, par, done, ubcs);
      && Complete(net, par, r.1 - done, r.1) && AllAssigned(par, r.1 - done)
      && (forall n :: 0 <= n < |ubcs| ==> ubcs[n] in r.1)
    decreases |ubcs|
  {
    if ubcs != [] {
      var r := VisitAll(net, par, done, ubcs);
      var first := Visit(net, par, done, ubcs[0], HOST_PARENT, net.ents[ubcs[0]].ubc);
      VisitCompletes(net, par, done, ubcs[0], HOST_PARENT, net.ents[ubcs[0]].ubc);
      VisitAllCompletes(net, par, first.1, ubcs[1..]);
      CompleteJoins(net, par, done, first.1, r.1);
      forall n | 0 <= n < |ubcs|
        ensures ubcs[n] in r.1
      {
        if n > 0 {
          assert ubcs[n] == ubcs[1..][n - 1];
        }
      }
    }
  }

  /** Everything down a parent chain from a printed controller is printed. */
  lemma {:induction false} ChainIsPrinted(net: Net, par: seq<nat>, rank: seq<nat>, s: set<nat>, i: nat)
    requires Parents.Forest(net, par, rank) && Complete(net, par, s, s)
    requires forall c: nat :: c < |par| && net.ents[c].controller ==> c in s
    requires i < |par| && par[i] != INIT_PARENT
    ensures i in s
    decreases rank[i]
  {
    if !net.ents[i].controller {
      assert Rooted(net, par, rank, i);
      var q :| Child(net, par, rank, q, i);
      ChainIsPrinted(net, par, rank, s, q);
    }
  }

  // ----- every expanded entity hangs from its parent

  predicate IsPort(net: Net, i: nat, k: nat, src: nat) {
    i < |net.ents| && k < |net.ents[i].ports| && src == net.ents[i].ports[k] && src < |net.ports|
  }

  /** `j` carries the number of `i` as its parent number and lies in the domain of `i`. */
  predicate ChildOf(net: Net, par: seq<nat>, i: nat, j: nat) {
    && i < |net.ents| && j < |net.ents| && j < |par|
    && par[j] == net.ents[i].num && net.ents[j].ubc == net.ents[i].ubc
  }

  /** The tree lists all ports of every entity it expands, and expands below an entity only its children. */
  predicate Nests(net: Net, par: seq<nat>, t: Tree)
    decreases t
  {
    match t
    case Quoted(_) => true
    case Opened(i, kids) => i < |net.ents| && KidsNest(net, par, i, 0, kids)
  }

  /** The list from port `k` of `i` on. */
  predicate KidsNest(net: Net, par: seq<nat>, i: nat, k: nat, kids: Kids)
    requires i < |net.ents|
    decreases kids
  {
    match kids
    case Done => k == |net.ents[i].ports|
    case Alone(src, rest) =>
      IsPort(net, i, k, src) && net.ports[src].link == None && KidsNest(net, par, i, k + 1, rest)
    case Linked(src, dst, sub, rest) =>
      && IsPort(net, i, k, src) && net.ports[src].link == Some(dst)
      && dst < |net.ports| && net.ports[dst].owner == sub.ent
      && (sub.Opened? ==> ChildOf(net, par, i, sub.ent))
      && Nests(net, par, sub) && KidsNest(net, par, i, k + 1, rest)
  }

  /** The roots are controllers under the host mark, unless they are mentioned only. */
  predicate ForestNests(net: Net, par: seq<nat>, f: Forest) {
    match f
    case Empty => true
    case Root(t, rest) =>
      && (t.Opened? ==> t.ent < |net.ents| && t.ent < |par| && net.ents[t.ent].controller && par[t.ent] == HOST_PARENT)
      && Nests(net, par, t) && ForestNests(net, par, rest)
  }

  lemma {:induction false} VisitNests(net: Net, par: seq<nat>, done: set<nat>, i: nat, num: nat, ubc: nat)
    requires Wf(net) && |par| == |net.ents| && i < |par|
    ensures var t := Visit(net, par, done, i, num, ubc).0;
      Nests(net, par, t) && (t.Opened? ==> par[i] == num && net.ents[i].ubc == ubc)
    decreases All(net) - done, 0
  {
    if Visit(net, par, done, i, num, ubc).0.Opened? {
      assert i in All(net) - done;
      VisitPortsNest(net, par, done + {i}, i, 0);
    }
  }

  lemma {:induction false} VisitPortsNest(net: Net, par: seq<nat>, done: set<nat>, i: nat, k: nat)
    requires Wf(net) && |par| == |net.ents| && i < |par| && k <= |net.ents[i].ports|
    ensures KidsNest(net, par, i, k, VisitPorts(net, par, done, i, k).0)
    decreases All(net) - done, 1 + |net.ents[i].ports| - k
  {
    if k < |net.ents[i].ports| {
      assert WfList(net, i);
      var src := net.ents[i].ports[k];
      match net.ports[src].link
      case None =>
        VisitPortsNest(net, par, done, i, k + 1);
      case Some(dst) =>
        var j := net.ports[dst].owner;
        VisitNests(net, par, done, j, net.ents[i].num, net.ents[i].ubc);
        var sub := Visit(net, par, done, j, net.ents[i].num, net.ents[i].ubc);
        assert sub.1 == done || All(net) - sub.1 < All(net) - done;
        VisitPortsNest(net, par, sub.1, i, k + 1);
    }
  }

  /** However the traversal runs, it nests entities by their parent numbers. */
  lemma {:induction false} VisitAllNests(net: Net, par: seq<nat>, done: set<nat>, ubcs: seq<nat>)
    requires Wf(net) && |par| == |net.ents|
    requires forall n :: 0 <= n < |ubcs| ==> ubcs[n] < |par| && net.ents[ubcs[n]].controller
    ensures ForestNests(net, par, VisitAll(net, par, done, ubcs).0)
    decreases |ubcs|
  {
    if ubcs != [] {
      var first := Visit(net, par, done, ubcs[0], HOST_PARENT, net.ents[ubcs[0]].ubc);
      VisitNests(net, par, done, ubcs[0], HOST_PARENT, net.ents[ubcs[0]].ubc);
      VisitAllNests(net, par, first.1, ubcs[1..]);
    }
  }

  // ----- which mentions are quoted

  function OpenSet(t: Tree): set<nat> {
    match t
    case Quoted(_) => {}
    case Opened(i, kids) => {i} + KidsOpenSet(kids)
  }

  function KidsOpenSet(kids: Kids): set<nat> {
    match kids
    case Done => {}
    case Alone(_, rest) => KidsOpenSet(rest)
    case Linked(_, _, sub, rest) => OpenSet(sub) + KidsOpenSet(rest)
  }

  /** Below `i`, a mention is expanded exactly when it is a child of `i` that was not expanded further up. */
  predicate FirstsOpen(net: Net, par: seq<nat>, seen: set<nat>, i: nat, kids: Kids)
    decreases kids
  {
    match kids
    case Done => true
    case Alone(_, rest) => FirstsOpen(net, par, seen, i, rest)
    case Linked(_, _, sub, rest) =>
      && (sub.Opened? <==> ChildOf(net, par, i, sub.ent) && sub.ent !in seen)
      && (sub.Opened? ==> FirstsOpen(net, par, seen + {sub.ent}, sub.ent, sub.kids))
      && FirstsOpen(net, par, seen + OpenSet(sub), i, rest)
  }

  predicate RootsFirstOpen(net: Net, par: seq<nat>, seen: set<nat>, f: Forest)
    decreases f
  {
    match f
    case Empty => true
    case Root(t, rest) =>
      && (t.Opened? <==> t.ent < |par| && par[t.ent] == HOST_PARENT && t.ent !in seen)
      && (t.Opened? ==> FirstsOpen(net, par, seen + {t.ent}, t.ent, t.kids))
      && RootsFirstOpen(net, par, seen + OpenSet(t), rest)
  }

  lemma {:induction false} VisitFirstsOpen(net: Net, par: seq<nat>, done: set<nat>, i: nat, num: nat, ubc: nat)
    requires Wf(net) && |par| == |net.ents| && i < |par|
    ensures var r := Visit(net, par, done, i, num, ubc);
      && r.1 == done + OpenSet(r.0)
      && (r.0.Opened? <==> par[i] == num && net.ents[i].ubc == ubc && i !in done)
      && (r.0.Opened? ==> FirstsOpen(net, par, done + {i}, i, r.0.kids))
    decreases All(net) - done, 0
  {
    var r := Visit(net, par, done, i, num, ubc);
    if r.0.Opened? {
      assert i in All(net) - done;
      VisitPortsFirstsOpen(net, par, done + {i}, i, 0);
      assert done + {i} + KidsOpenSet(r.0.kids) == done + OpenSet(r.0);
    }
  }

  lemma {:induction false} VisitPortsFirstsOpen(net: Net, par: seq<nat>, done: set<nat>, i: nat, k: nat)
    requires Wf(net) && |par| == |net.ents| && i < |par| && k <= |net.ents[i].ports|
    ensures var r := VisitPorts(net, par, done, i, k);
      r.1 == done + KidsOpenSet(r.0) && FirstsOpen(net, par, done, i, r.0)
    decreases All(net) - done, 1 + |net.ents[i].ports| - k
  {
    if k < |net.ents[i].ports| {
      assert WfList(net, i);
      var src := net.ents[i].ports[k];
      match net.ports[src].link
      case None =>
        VisitPortsFirstsOpen(net, par, done, i, k + 1);
      case Some(dst) =>
        var j := net.ports[dst].owner;
        VisitFirstsOpen(net, par, done, j, net.ents[i].num, net.ents[i].ubc);
        var sub := Visit(net, par, done, j, net.ents[i].num, net.ents[i].ubc);
        assert sub.1 == done || All(net) - sub.1 < All(net) - done;
        VisitPortsFirstsOpen(net, par, sub.1, i, k + 1);
        var rest := VisitPorts(net, par, sub.1, i, k + 1).0;
        assert done + OpenSet(sub.0) + KidsOpenSet(rest) == done + (OpenSet(sub.0) + KidsOpenSet(rest));
    }
  }

  lemma {:induction false} VisitAllFirstsOpen(net: Net, par: seq<nat>, done: set<nat>, ubcs: seq<nat>)
    requires Wf(net) && |par| == |net.ents| && forall n :: 0 <= n < |ubcs| ==> ubcs[n] < |par|
    ensures RootsFirstOpen(net, par, done, VisitAll(net, par, done, ubcs).0)
    decreases |ubcs|
  {
    if ubcs != [] {
      var first := Visit(net, par, done, ubcs[0], HOST_PARENT, net.ents[ubcs[0]].ubc);
      VisitFirstsOpen(net, par, done, ubcs[0], HOST_PARENT, net.ents[ubcs[0]].ubc);
      VisitAllFirstsOpen(net, par, first.1, ubcs[1..]);
    }
  }

  // ----- together

  /** The controllers of the network, in list order, each once. */
  ghost predicate Controllers(net: Net, ubcs: seq<nat>) {
    && (forall n :: 0 <= n < |ubcs| ==> ubcs[n] < |net.ents| && net.ents[ubcs[n]].controller)
    && (forall i: nat :: i < |net.ents| && net.ents[i].controller ==> i in ubcs)
    && (forall m, n :: 0 <= m < n < |ubcs| ==> ubcs[m] < ubcs[n])
  }

  /** The list that grow_topo makes of the controllers among the first `n` entities. */
  function ControllersBelow(net: Net, n: nat): (ubcs: seq<nat>)
    requires n <= |net.ents|
    ensures forall k :: 0 <= k < |ubcs| ==> ubcs[k] < n && net.ents[ubcs[k]].controller
    ensures forall i: nat :: i < n && net.ents[i].controller ==> i in ubcs
    ensures forall k, l :: 0 <= k < l < |ubcs| ==> ubcs[k] < ubcs[l]
  {
    if n == 0 then []
    else ControllersBelow(net, n - 1) + if net.ents[n - 1].controller then [n - 1] else []
  }

  function ControllerIds(net: Net): (ubcs: seq<nat>)
    ensures Controllers(net, ubcs)
  {
    ControllersBelow(net, |net.ents|)
  }

  /**
   * The printout expands exactly the entities that have a parent, each of them once, below the entity
   * whose number it has and where it is first mentioned there.
   */
  lemma {:induction false} ExpandsEachAssignedOnce(net: Net, par: seq<nat>, ubcs: seq<nat>)
    requires Wf(net) && UniqueNums(net) && Settled(net, par) && Controllers(net, ubcs)
    ensures var r := VisitAll(net, par, {}, ubcs);
      && r.1 == Assigned(par) && ForestOpens(r.0) == multiset(Assigned(par))
      && ForestNests(net, par, r.0) && RootsFirstOpen(net, par, {}, r.0)
  {
    var rank :| Parents.Forest(net, par, rank);
    var r := VisitAll(net, par, {}, ubcs);
    ControllersAreHosts(net, par, rank);
    VisitAllCompletes(net, par, {}, ubcs);
    VisitAllOpens(net, par, {}, ubcs);
    VisitAllNests(net, par, {}, ubcs);
    VisitAllFirstsOpen(net, par, {}, ubcs);
    assert r.1 - {} == r.1;
    forall i: nat | i < |par| && par[i] != INIT_PARENT
      ensures i in r.1
    {
      ChainIsPrinted(net, par, rank, r.1, i);
    }
    assert r.1 == Assigned(par);
  }
}
