/**
 * What the parent scan computes (lsub/topo.c:29-67): which entities get a parent, and the shape of
 * the parent numbers it leaves.
 */
module Parents {
  import opened Wrappers
  import opened Network
  import L = Linking

  /** A port of `i` is linked to a port of `j`, and both lie in the domain of one controller. */
  ghost predicate Adj(net: Net, i: nat, j: nat) {
    && i < |net.ents| && j < |net.ents|
    && net.ents[i].ubc == net.ents[j].ubc
    && exists k :: 0 <= k < |net.ents[i].ports| && Far(net, net.ents[i].ports[k]) == Some(j)
  }

  ghost predicate IsPath(net: Net, path: seq<nat>) {
    && path != []
    && (forall k :: 0 <= k < |path| ==> path[k] < |net.ents|)
    && (forall k :: 0 <= k < |path| - 1 ==> Adj(net, path[k], path[k + 1]))
  }

  ghost predicate PathTo(net: Net, path: seq<nat>, j: nat) {
    IsPath(net, path) && net.ents[path[0]].controller && path[|path| - 1] == j
  }

  /** Some bus controller reaches `j` along links that stay inside one domain. */
  ghost predicate Reachable(net: Net, j: nat) {
    exists path :: PathTo(net, path, j)
  }

  /** The parent numbers before the scan: grow_topo marks the controllers and nothing else. */
  ghost predicate Initial(net: Net, par: seq<nat>) {
    |par| == |net.ents| && forall i :: 0 <= i < |par| ==>
      par[i] == if net.ents[i].controller then HOST_PARENT else INIT_PARENT
  }

  function Assigned(par: seq<nat>): (s: set<nat>)
    ensures forall i: nat :: i in s <==> i < |par| && par[i] != INIT_PARENT
  {
    if par == [] then {}
    else Assigned(par[..|par| - 1]) + if par[|par| - 1] != INIT_PARENT then {|par| - 1} else {}
  }

  /** `i` took its number from `q`, which had a parent of its own earlier. */
  ghost predicate Child(net: Net, par: seq<nat>, rank: seq<nat>, q: nat, i: nat)
    requires |par| == |rank| == |net.ents| && i < |par|
  {
    && q < |par| && Adj(net, q, i)
    && par[i] == net.ents[q].num
    && par[q] != INIT_PARENT && rank[q] < rank[i]
  }

  /** A controller stays under the host mark; any other entity with a parent is a child of an entity of smaller rank. */
  ghost predicate Rooted(net: Net, par: seq<nat>, rank: seq<nat>, i: nat)
    requires |par| == |rank| == |net.ents| && i < |par|
  {
    if net.ents[i].controller then par[i] == HOST_PARENT
    else par[i] != INIT_PARENT ==> exists q :: Child(net, par, rank, q, i)
  }

  /** The parent numbers form a forest whose roots are the controllers. */
  ghost predicate Forest(net: Net, par: seq<nat>, rank: seq<nat>) {
    && |par| == |rank| == |net.ents|
    && forall i: nat :: i < |par| ==> Rooted(net, par, rank, i)
  }

  /** The scan has nothing left to do. */
  ghost predicate Closed(net: Net, par: seq<nat>)
    requires |par| == |net.ents|
  {
    forall i: nat, j: nat :: Adj(net, i, j) && par[i] != INIT_PARENT ==> par[j] != INIT_PARENT
  }

  /** What preset_all_uent_par leaves behind. */
  ghost predicate Settled(net: Net, par: seq<nat>) {
    |par| == |net.ents| && Closed(net, par) && exists rank :: Forest(net, par, rank)
  }

  /** Parents already set are not overwritten. */
  ghost predicate Kept(before: seq<nat>, after: seq<nat>) {
    |before| == |after| && forall i :: 0 <= i < |before| && before[i] != INIT_PARENT ==> after[i] == before[i]
  }

  /** Every entity next to `i` has a parent. */
  ghost predicate Exhausted(net: Net, par: seq<nat>, i: nat)
    requires |par| == |net.ents|
  {
    forall j: nat :: Adj(net, i, j) ==> par[j] != INIT_PARENT
  }

  /** Every entity next to `i` over one of its first `k` ports has a parent. */
  ghost predicate HandedOut(net: Net, par: seq<nat>, i: nat, k: nat)
    requires |par| == |net.ents| && i < |par|
  {
    forall n, j :: 0 <= n < k && n < |net.ents[i].ports| && Far(net, net.ents[i].ports[n]) == Some(j) && j < |par|
      ==> (net.ents[j].ubc == net.ents[i].ubc ==> par[j] != INIT_PARENT)
  }

  lemma HandedOutStep(net: Net, before: seq<nat>, after: seq<nat>, i: nat, k: nat)
    requires |before| == |net.ents| && i < |before| && Kept(before, after) && k < |net.ents[i].ports|
    requires var far := Far(net, net.ents[i].ports[k]);
      far.Some? && far.value < |after| && net.ents[far.value].ubc == net.ents[i].ubc ==> after[far.value] != INIT_PARENT
    ensures HandedOut(net, before, i, k) ==> HandedOut(net, after, i, k + 1)
  {
  }

  lemma HandedOutAll(net: Net, par: seq<nat>, i: nat)
    requires |par| == |net.ents| && i < |par| && HandedOut(net, par, i, |net.ents[i].ports|)
    ensures Exhausted(net, par, i)
  {
    forall j: nat | Adj(net, i, j)
      ensures par[j] != INIT_PARENT
    {
      var n :| 0 <= n < |net.ents[i].ports| && Far(net, net.ents[i].ports[n]) == Some(j);
    }
  }

  lemma ControllersAreHosts(net: Net, par: seq<nat>, rank: seq<nat>)
    requires Forest(net, par, rank)
    ensures forall i :: 0 <= i < |par| && net.ents[i].controller ==> par[i] == HOST_PARENT
  {
    forall i | 0 <= i < |par| && net.ents[i].controller
      ensures par[i] == HOST_PARENT
    {
      assert Rooted(net, par, rank, i);
    }
  }

  lemma InitialForest(net: Net, par: seq<nat>) returns (rank: seq<nat>)
    requires Initial(net, par)
    ensures Forest(net, par, rank)
  {
    rank := seq(|par|, i => 0);
  }

  /** Setting a parent that was still unset keeps the forest: the new entity gets the next rank. */
  lemma ForestGrows(net: Net, par: seq<nat>, rank: seq<nat>, q: nat, i: nat) returns (rank': seq<nat>)
    requires Forest(net, par, rank) && UniqueNums(net)
    requires Adj(net, q, i) && par[q] != INIT_PARENT && par[i] == INIT_PARENT
    ensures Forest(net, par[i := net.ents[q].num], rank')
  {
    rank' := rank[i := rank[q] + 1];
    var par' := par[i := net.ents[q].num];
    assert q != i;
    assert Child(net, par', rank', q, i);
    forall j: nat | j < |par|
      ensures Rooted(net, par', rank', j)
    {
      assert Rooted(net, par, rank, j);
      if j != i && !net.ents[j].controller && par[j] != INIT_PARENT {
        var p :| Child(net, par, rank, p, j);
        assert Child(net, par', rank', p, j);
      }
    }
  }

  lemma {:induction false} ForestIsReachable(net: Net, par: seq<nat>, rank: seq<nat>, j: nat)
    requires Forest(net, par, rank) && j < |par| && par[j] != INIT_PARENT
    ensures Reachable(net, j)
    decreases rank[j]
  {
    assert Rooted(net, par, rank, j);
    if net.ents[j].controller {
      assert PathTo(net, [j], j);
    } else {
      var q :| Child(net, par, rank, q, j);
      ForestIsReachable(net, par, rank, q);
      var path :| PathTo(net, path, q);
      var longer := path + [j];
      forall k | 0 <= k < |longer| - 1
        ensures Adj(net, longer[k], longer[k + 1])
      {
        if k < |path| - 1 {
          assert Adj(net, path[k], path[k + 1]);
        }
      }
      assert PathTo(net, longer, j);
    }
  }

  lemma {:induction false} PathIsAssigned(net: Net, par: seq<nat>, path: seq<nat>)
    requires |par| == |net.ents| && Closed(net, par) && IsPath(net, path) && par[path[0]] != INIT_PARENT
    ensures par[path[|path| - 1]] != INIT_PARENT
  {
    var n := |path| - 1;
    if n > 0 {
      var shorter := path[..n];
      forall k | 0 <= k < n - 1
        ensures Adj(net, shorter[k], shorter[k + 1])
      {
        assert Adj(net, path[k], path[k + 1]);
      }
      PathIsAssigned(net, par, shorter);
      assert Adj(net, path[n - 1], path[n - 1 + 1]);
    }
  }

  /** `q` is the parent of `i`: the one entity with the number, next to `i` in the same domain, itself with a parent. */
  ghost predicate IsParent(net: Net, par: seq<nat>, q: nat, i: nat)
    requires |par| == |net.ents| && i < |par|
  {
    && q < |par| && par[i] == net.ents[q].num && par[q] != INIT_PARENT && Adj(net, q, i)
    && forall r: nat :: r < |net.ents| && net.ents[r].num == par[i] ==> r == q
  }

  /** A walk from parent to parent that never comes back and ends at a controller under the host mark. */
  ghost predicate IsChain(net: Net, par: seq<nat>, chain: seq<nat>)
    requires |par| == |net.ents|
  {
    && chain != [] && (forall k :: 0 <= k < |chain| ==> chain[k] < |par|)
    && (forall k :: 0 <= k < |chain| - 1 ==> IsParent(net, par, chain[k + 1], chain[k]))
    && net.ents[chain[|chain| - 1]].controller && par[chain[|chain| - 1]] == HOST_PARENT
    && (forall k, l :: 0 <= k < l < |chain| ==> chain[k] != chain[l])
  }

  lemma {:induction false} ChainFrom(net: Net, par: seq<nat>, rank: seq<nat>, i: nat) returns (chain: seq<nat>)
    requires Forest(net, par, rank) && UniqueNums(net) && i < |par| && par[i] != INIT_PARENT
    ensures IsChain(net, par, chain) && chain[0] == i
    ensures forall k :: 0 <= k < |chain| ==> rank[chain[k]] <= rank[i]
    decreases rank[i]
  {
    assert Rooted(net, par, rank, i);
    if net.ents[i].controller {
      chain := [i];
    } else {
      var q :| Child(net, par, rank, q, i);
      var rest := ChainFrom(net, par, rank, q);
      chain := [i] + rest;
      assert IsParent(net, par, q, i);
      forall k | 0 <= k < |chain| - 1
        ensures IsParent(net, par, chain[k + 1], chain[k])
      {
        if k > 0 {
          assert IsParent(net, par, rest[k - 1 + 1], rest[k - 1]);
        }
      }
    }
  }

  /** Every entity with a parent number hangs in a tree: its parent chain is acyclic and ends at a controller. */
  lemma ParentsFormForest(net: Net, par: seq<nat>, i: nat)
    requires Settled(net, par) && UniqueNums(net) && i < |par| && par[i] != INIT_PARENT
    ensures net.ents[i].controller <==> par[i] == HOST_PARENT
    ensures exists chain :: IsChain(net, par, chain) && chain[0] == i
  {
    var rank :| Forest(net, par, rank);
    assert Rooted(net, par, rank, i);
    var chain := ChainFrom(net, par, rank, i);
  }

  /** After the scan an entity has a parent exactly when a controller of its domain reaches it. */
  lemma AssignedIffReachable(net: Net, par: seq<nat>, j: nat)
    requires Settled(net, par) && j < |par|
    ensures par[j] != INIT_PARENT <==> Reachable(net, j)
  {
    var rank :| Forest(net, par, rank);
    assert Rooted(net, par, rank, j);
    if par[j] != INIT_PARENT {
      ForestIsReachable(net, par, rank, j);
    }
    if Reachable(net, j) {
      var path :| PathTo(net, path, j);
      assert Rooted(net, par, rank, path[0]);
      PathIsAssigned(net, par, path);
    }
  }

  /** The entities with a parent do not depend on the order of devices or ports. */
  lemma OrderIrrelevant(a: Net, b: Net, parA: seq<nat>, parB: seq<nat>)
    requires Settled(a, parA) && Settled(b, parB) && |a.ents| == |b.ents|
    requires forall i :: 0 <= i < |a.ents| ==> a.ents[i].controller == b.ents[i].controller
    requires forall i: nat, j: nat :: Adj(a, i, j) <==> Adj(b, i, j)
    ensures Assigned(parA) == Assigned(parB)
  {
    forall j | 0 <= j < |parA|
      ensures Reachable(a, j) <==> Reachable(b, j)
    {
      if Reachable(a, j) {
        var path :| PathTo(a, path, j);
        assert PathTo(b, path, j);
      }
      if Reachable(b, j) {
        var path :| PathTo(b, path, j);
        assert PathTo(a, path, j);
      }
    }
    forall j: nat
      ensures j in Assigned(parA) <==> j in Assigned(parB)
    {
      if j < |parA| {
        AssignedIffReachable(a, parA, j);
        AssignedIffReachable(b, parB, j);
      }
    }
  }

  /** An entity's port list holds exactly the ports declared for it. */
  lemma OwnPorts(r: Net, ds: seq<L.Decl>, i: nat, k: nat)
    requires Wf(r) && L.ListsAre(r, ds) && i < |r.ents| && k < |ds|
    ensures k in r.ents[i].ports <==> ds[k].ent == i
  {
    assert WfList(r, i);
    assert r.ports[k].owner == ds[k].ent;
    if ds[k].ent == i {
      assert k in r.ents[r.ports[k].owner].ports;
    }
  }

  /** In symmetric data two entities are adjacent exactly when the declarations say so. */
  lemma {:induction false} AdjIsDeclared(net: Net, ds: seq<L.Decl>, i: nat, j: nat)
    requires L.NoPorts(net) && L.InRange(net.ents, ds) && L.Symmetric(net.ents, ds)
    requires i < |net.ents| && j < |net.ents|
    ensures Adj(L.Run(net, ds), i, j) <==>
      net.ents[i].ubc == net.ents[j].ubc
      && exists k :: 0 <= k < |ds| && ds[k].ent == i && DeclaresEnt(net, ds, k, j)
  {
    var r := L.Run(net, ds);
    L.RunKeepsWf(net, ds);
    L.RunLists(net, ds);
    forall k | 0 <= k < |ds|
      ensures k in r.ents[i].ports <==> ds[k].ent == i
      ensures Far(r, k) == Some(j) <==> DeclaresEnt(net, ds, k, j)
    {
      OwnPorts(r, ds, i, k);
      FarIsDeclared(net, ds, k, j);
    }
    AdjByPort(r, ds, i, j);
  }

  lemma AdjByPort(r: Net, ds: seq<L.Decl>, i: nat, j: nat)
    requires Wf(r) && L.ListsAre(r, ds) && i < |r.ents| && j < |r.ents|
    ensures Adj(r, i, j) <==>
      r.ents[i].ubc == r.ents[j].ubc && exists k :: 0 <= k < |ds| && ds[k].ent == i && Far(r, k) == Some(j)
  {
    if Adj(r, i, j) {
      var n :| 0 <= n < |r.ents[i].ports| && Far(r, r.ents[i].ports[n]) == Some(j);
      assert WfList(r, i);
      OwnPorts(r, ds, i, r.ents[i].ports[n]);
    }
    if r.ents[i].ubc == r.ents[j].ubc && exists k :: 0 <= k < |ds| && ds[k].ent == i && Far(r, k) == Some(j) {
      var k :| 0 <= k < |ds| && ds[k].ent == i && Far(r, k) == Some(j);
      OwnPorts(r, ds, i, k);
      var n :| 0 <= n < |r.ents[i].ports| && r.ents[i].ports[n] == k;
    }
  }

  /** Declaration `k` names a port that some declaration creates for entity `j`. */
  ghost predicate DeclaresEnt(net: Net, ds: seq<L.Decl>, k: nat, j: nat)
    requires k < |ds|
  {
    exists l :: 0 <= l < |ds| && ds[l].ent == j && L.Declares(net.ents, ds, k, l)
  }

  lemma FarIsDeclared(net: Net, ds: seq<L.Decl>, k: nat, j: nat)
    requires L.NoPorts(net) && L.InRange(net.ents, ds) && L.Symmetric(net.ents, ds) && k < |ds|
    ensures Far(L.Run(net, ds), k) == Some(j) <==> DeclaresEnt(net, ds, k, j)
  {
    var r := L.Run(net, ds);
    L.RunLists(net, ds);
    if DeclaresEnt(net, ds, k, j) {
      var l :| 0 <= l < |ds| && ds[l].ent == j && L.Declares(net.ents, ds, k, l);
      L.LinkedIffDeclared(net, ds, k, l);
    }
    if Far(r, k) == Some(j) {
      L.LinkedIffDeclared(net, ds, k, r.ports[k].link.value);
    }
  }

  /** The same lines read in another order lead to the same entities having a parent. */
  lemma InsertionOrderIrrelevant(net: Net, ds: seq<L.Decl>, es: seq<L.Decl>, parD: seq<nat>, parE: seq<nat>)
    requires L.NoPorts(net) && L.InRange(net.ents, ds) && L.InRange(net.ents, es)
    requires L.Symmetric(net.ents, ds) && L.Symmetric(net.ents, es)
    requires forall d :: d in ds <==> d in es
    requires Settled(L.Run(net, ds), parD) && Settled(L.Run(net, es), parE)
    ensures Assigned(parD) == Assigned(parE)
  {
    AdjacencyIsOrderFree(net, ds, es);
    OrderIrrelevant(L.Run(net, ds), L.Run(net, es), parD, parE);
  }

  lemma AdjacencyIsOrderFree(net: Net, ds: seq<L.Decl>, es: seq<L.Decl>)
    requires L.NoPorts(net) && L.InRange(net.ents, ds) && L.InRange(net.ents, es)
    requires L.Symmetric(net.ents, ds) && L.Symmetric(net.ents, es)
    requires forall d :: d in ds <==> d in es
    ensures forall i: nat, j: nat :: Adj(L.Run(net, ds), i, j) <==> Adj(L.Run(net, es), i, j)
  {
    forall i: nat, j: nat
      ensures Adj(L.Run(net, ds), i, j) <==> Adj(L.Run(net, es), i, j)
    {
      if i < |net.ents| && j < |net.ents| {
        if Adj(L.Run(net, ds), i, j) {
          SameAdjacency(net, ds, es, i, j);
        } else if Adj(L.Run(net, es), i, j) {
          SameAdjacency(net, es, ds, i, j);
        }
      }
    }
  }

  lemma SameAdjacency(net: Net, ds: seq<L.Decl>, es: seq<L.Decl>, i: nat, j: nat)
    requires L.NoPorts(net) && L.InRange(net.ents, ds) && L.InRange(net.ents, es)
    requires L.Symmetric(net.ents, ds) && L.Symmetric(net.ents, es)
    requires forall d :: d in ds <==> d in es
    requires Adj(L.Run(net, ds), i, j) && i < |net.ents| && j < |net.ents|
    ensures Adj(L.Run(net, es), i, j)
  {
    AdjIsDeclared(net, ds, i, j);
    AdjIsDeclared(net, es, i, j);
    var k :| 0 <= k < |ds| && ds[k].ent == i && DeclaresEnt(net, ds, k, j);
    var l :| 0 <= l < |ds| && ds[l].ent == j && L.Declares(net.ents, ds, k, l);
    assert ds[k] in es && ds[l] in es;
    var k' :| 0 <= k' < |es| && es[k'] == ds[k];
    var l' :| 0 <= l' < |es| && es[l'] == ds[l];
    assert L.Declares(net.ents, es, k', l');
    assert DeclaresEnt(net, es, k', j);
  }
}
