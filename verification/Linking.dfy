/**
 * Pairing of ports while they are allocated (lib/common.c:131-162, 215-244), fed by the triples of
 * each entity's direct_link file (lib/sysfs.c:296-309).
 */
module Linking {
  import opened Wrappers
  import opened Network

  /** One parsed line: entity `ent` has a port `port` whose peer is port `peerPort` of entity number `peerEnt`. */
  datatype Decl = Decl(ent: nat, port: nat, peerEnt: nat, peerPort: nat)

  /** The entity chain is the reverse of the device list, so the last entity with the number is met first. */
  function FindEnt(ents: seq<Ent>, num: nat): (r: Option<nat>)
    ensures r.Some? ==> r.value < |ents| && ents[r.value].num == num
    ensures forall i :: (if r.None? then 0 else r.value + 1) <= i < |ents| ==> ents[i].num != num
  {
    if ents == [] then None
    else if ents[|ents| - 1].num == num then Some(|ents| - 1)
    else FindEnt(ents[..|ents| - 1], num)
  }

  /** The first port with the number in a port list. */
  function FindPort(ports: seq<Port>, ids: seq<nat>, num: nat): (r: Option<nat>)
    ensures r.Some? ==> r.value in ids && r.value < |ports| && ports[r.value].num == num
  {
    if ids == [] then None
    else if ids[0] < |ports| && ports[ids[0]].num == num then Some(ids[0])
    else FindPort(ports, ids[1..], num)
  }

  function Target(net: Net, peerEnt: nat, peerPort: nat): (r: Option<nat>)
    ensures r.Some? ==> r.value < |net.ports|
  {
    var e := FindEnt(net.ents, peerEnt);
    if e.None? then None else FindPort(net.ports, net.ents[e.value].ports, peerPort)
  }

  /** One call of ub_alloc_port. */
  function AllocPort(net: Net, d: Decl): Net
    requires d.ent < |net.ents|
  {
    var target := Target(net, d.peerEnt, d.peerPort);
    var id := |net.ports|;
    var linked := if target.None? then net.ports
                else net.ports[target.value := net.ports[target.value].(link := Some(id))];
    Net(net.ents[d.ent := net.ents[d.ent].(ports := [id] + net.ents[d.ent].ports)],
        linked + [Port(d.port, d.ent, target)])
  }

  ghost predicate InRange(ents: seq<Ent>, ds: seq<Decl>) {
    forall k :: 0 <= k < |ds| ==> ds[k].ent < |ents|
  }

  ghost predicate NoPorts(net: Net) {
    net.ports == [] && forall e :: 0 <= e < |net.ents| ==> net.ents[e].ports == []
  }

  /** The network after the declarations have been inserted in order. */
  function Run(net: Net, ds: seq<Decl>): (r: Net)
    requires InRange(net.ents, ds)
    ensures |r.ents| == |net.ents| && |r.ports| == |net.ports| + |ds|
    ensures forall e :: 0 <= e < |net.ents| ==>
      r.ents[e].num == net.ents[e].num && r.ents[e].ubc == net.ents[e].ubc
        && r.ents[e].controller == net.ents[e].controller
  {
    if ds == [] then net else AllocPort(Run(net, ds[..|ds| - 1]), ds[|ds| - 1])
  }

  // ----- what the insertions build

  lemma AllocKeepsWf(net: Net, d: Decl)
    requires Wf(net) && d.ent < |net.ents|
    ensures Wf(AllocPort(net, d))
  {
    var r := AllocPort(net, d);
    forall e | 0 <= e < |r.ents|
      ensures WfList(r, e)
    {
      assert WfList(net, e);
      if e == d.ent {
        assert r.ents[e].ports == [|net.ports|] + net.ents[e].ports;
      }
    }
  }

  lemma {:induction false} RunKeepsWf(net: Net, ds: seq<Decl>)
    requires Wf(net) && InRange(net.ents, ds)
    ensures Wf(Run(net, ds))
  {
    if ds != [] {
      RunKeepsWf(net, ds[..|ds| - 1]);
      AllocKeepsWf(Run(net, ds[..|ds| - 1]), ds[|ds| - 1]);
    }
  }

  /** Entity lookup reads numbers only. */
  lemma {:induction false} FindEntByNum(a: seq<Ent>, b: seq<Ent>, num: nat)
    requires |a| == |b| && forall i :: 0 <= i < |a| ==> a[i].num == b[i].num
    ensures FindEnt(a, num) == FindEnt(b, num)
  {
    if a != [] {
      FindEntByNum(a[..|a| - 1], b[..|b| - 1], num);
    }
  }

  /** With unique numbers the search order is irrelevant. */
  lemma {:induction false} FindEntFinds(ents: seq<Ent>, num: nat, i: nat)
    requires i < |ents| && ents[i].num == num
    requires forall a, b :: 0 <= a < |ents| && 0 <= b < |ents| && ents[a].num == ents[b].num ==> a == b
    ensures FindEnt(ents, num) == Some(i)
  {
    if i < |ents| - 1 {
      FindEntFinds(ents[..|ents| - 1], num, i);
    }
  }

  /** Declaration `k` names the port that declaration `j` creates. */
  predicate Declares(ents: seq<Ent>, ds: seq<Decl>, k: nat, j: nat)
    requires k < |ds| && j < |ds|
  {
    FindEnt(ents, ds[k].peerEnt) == Some(ds[j].ent) && ds[j].port == ds[k].peerPort
  }

  /** The latest declaration before `n` whose port declaration `k` names. */
  function Named(ents: seq<Ent>, ds: seq<Decl>, k: nat, n: nat): (r: Option<nat>)
    requires k < |ds| && n <= |ds|
    ensures r.Some? ==> r.value < n && Declares(ents, ds, k, r.value)
    ensures forall j :: (if r.None? then 0 else r.value + 1) <= j < n ==> !Declares(ents, ds, k, j)
  {
    if n == 0 then None
    else if Declares(ents, ds, k, n - 1) then Some(n - 1)
    else Named(ents, ds, k, n - 1)
  }

  /** The port met by the lookup when declaration `k` is inserted. */
  function Claimed(ents: seq<Ent>, ds: seq<Decl>, k: nat): (r: Option<nat>)
    requires k < |ds|
    ensures r.Some? ==> r.value < k
  {
    Named(ents, ds, k, k)
  }

  /** The latest insertion before `n` that claimed port `i`. */
  function Claimer(ents: seq<Ent>, ds: seq<Decl>, i: nat, n: nat): (r: Option<nat>)
    requires n <= |ds|
    ensures r.Some? ==> i < r.value < n && Claimed(ents, ds, r.value) == Some(i)
    ensures forall k :: (if r.None? then 0 else r.value + 1) <= k < n ==> Claimed(ents, ds, k) != Some(i)
  {
    if n == 0 then None
    else if Claimed(ents, ds, n - 1) == Some(i) then Some(n - 1)
    else Claimer(ents, ds, i, n - 1)
  }

  /** The link a port ends with: its last claimer if it has one, else the port it claimed itself. */
  function FinalLink(ents: seq<Ent>, ds: seq<Decl>, i: nat): Option<nat>
    requires i < |ds|
  {
    var c := Claimer(ents, ds, i, |ds|);
    if c.Some? then c else Claimed(ents, ds, i)
  }

  /** The ports of an entity, newest first, are the declarations made for it. */
  ghost predicate ListsAre(net: Net, ds: seq<Decl>) {
    && |net.ports| == |ds|
    && (forall p :: 0 <= p < |ds| ==> net.ports[p].num == ds[p].port && net.ports[p].owner == ds[p].ent)
  }

  lemma AllocExtendsLists(net: Net, ds: seq<Decl>, d: Decl)
    requires ListsAre(net, ds) && d.ent < |net.ents|
    ensures ListsAre(AllocPort(net, d), ds + [d])
  {
  }

  lemma {:induction false} RunLists(net: Net, ds: seq<Decl>)
    requires NoPorts(net) && InRange(net.ents, ds)
    ensures ListsAre(Run(net, ds), ds)
  {
    if ds != [] {
      var n := |ds| - 1;
      RunLists(net, ds[..n]);
      AllocExtendsLists(Run(net, ds[..n]), ds[..n], ds[n]);
      assert ds == ds[..n] + [ds[n]];
    }
  }

  /** The first match in a newest-first list is the newest match. */
  lemma {:induction false} FindPortNewest(ports: seq<Port>, ids: seq<nat>, num: nat)
    requires forall k :: 0 <= k < |ids| ==> ids[k] < |ports|
    requires forall k, l :: 0 <= k < l < |ids| ==> ids[k] > ids[l]
    ensures var r := FindPort(ports, ids, num);
      && (r.None? ==> forall k :: 0 <= k < |ids| ==> ports[ids[k]].num != num)
      && (r.Some? ==> forall k :: 0 <= k < |ids| && ids[k] > r.value ==> ports[ids[k]].num != num)
  {
    if ids != [] && ports[ids[0]].num != num {
      FindPortNewest(ports, ids[1..], num);
      forall k | 1 <= k < |ids|
        ensures ids[k] == ids[1..][k - 1]
      {
      }
    }
  }

  /** Port `p` belongs to the entity numbered `ent` and carries the number `port`. */
  predicate Answers(net: Net, p: nat, ent: nat, port: nat)
    requires p < |net.ports|
  {
    Some(net.ports[p].owner) == FindEnt(net.ents, ent) && net.ports[p].num == port
  }

  /** The two lookups together meet the newest port that answers to the two numbers. */
  lemma {:induction false} TargetIsNewest(net: Net, ent: nat, port: nat)
    requires Wf(net)
    ensures var t := Target(net, ent, port);
      && (t.Some? ==> Answers(net, t.value, ent, port))
      && (forall p :: (if t.None? then 0 else t.value + 1) <= p < |net.ports| ==> !Answers(net, p, ent, port))
  {
    var e := FindEnt(net.ents, ent);
    if e.Some? {
      var ids := net.ents[e.value].ports;
      assert WfList(net, e.value);
      FindPortNewest(net.ports, ids, port);
    }
  }

  /** A port answers to the numbers a declaration names exactly when its own declaration is named. */
  lemma AnswersIffDeclared(ents: seq<Ent>, r: Net, ds: seq<Decl>, k: nat, j: nat)
    requires k < |ds| && j < k && ListsAre(r, ds[..k])
    requires FindEnt(ents, ds[k].peerEnt) == FindEnt(r.ents, ds[k].peerEnt)
    ensures Answers(r, j, ds[k].peerEnt, ds[k].peerPort) <==> Declares(ents, ds, k, j)
  {
    assert ds[..k][j] == ds[j];
  }

  lemma NewestIsNamed(ents: seq<Ent>, ds: seq<Decl>, k: nat, t: Option<nat>)
    requires k < |ds|
    requires t.Some? ==> t.value < k && Declares(ents, ds, k, t.value)
    requires forall j :: (if t.None? then 0 else t.value + 1) <= j < k ==> !Declares(ents, ds, k, j)
    ensures t == Claimed(ents, ds, k)
  {
  }

  lemma TargetAmong(ents: seq<Ent>, r: Net, ds: seq<Decl>, k: nat)
    requires k < |ds| && Wf(r) && ListsAre(r, ds[..k])
    requires FindEnt(ents, ds[k].peerEnt) == FindEnt(r.ents, ds[k].peerEnt)
    ensures Target(r, ds[k].peerEnt, ds[k].peerPort) == Claimed(ents, ds, k)
  {
    var t := Target(r, ds[k].peerEnt, ds[k].peerPort);
    TargetIsNewest(r, ds[k].peerEnt, ds[k].peerPort);
    forall j | 0 <= j < k
      ensures Answers(r, j, ds[k].peerEnt, ds[k].peerPort) <==> Declares(ents, ds, k, j)
    {
      AnswersIffDeclared(ents, r, ds, k, j);
    }
    NewestIsNamed(ents, ds, k, t);
  }

  /** The lookup made while declaration `k` is inserted meets the newest port the declaration names. */
  lemma TargetIsClaimed(net: Net, ds: seq<Decl>, k: nat)
    requires NoPorts(net) && InRange(net.ents, ds) && k < |ds|
    ensures Target(Run(net, ds[..k]), ds[k].peerEnt, ds[k].peerPort) == Claimed(net.ents, ds, k)
  {
    var r := Run(net, ds[..k]);
    RunLists(net, ds[..k]);
    RunKeepsWf(net, ds[..k]);
    FindEntByNum(net.ents, r.ents, ds[k].peerEnt);
    TargetAmong(net.ents, r, ds, k);
  }

  lemma {:induction false} ClaimedPrefix(ents: seq<Ent>, ds: seq<Decl>, k: nat, n: nat, m: nat)
    requires n <= k < m <= |ds|
    ensures Named(ents, ds, k, n) == Named(ents, ds[..m], k, n)
  {
    if n > 0 {
      ClaimedPrefix(ents, ds, k, n - 1, m);
    }
  }

  lemma {:induction false} ClaimerPrefix(ents: seq<Ent>, ds: seq<Decl>, i: nat, n: nat, m: nat)
    requires n <= m <= |ds|
    ensures Claimer(ents, ds, i, n) == Claimer(ents, ds[..m], i, n)
  {
    if n > 0 {
      ClaimedPrefix(ents, ds, n - 1, n - 1, m);
      ClaimerPrefix(ents, ds, i, n - 1, m);
    }
  }

  /** A later insertion changes the link of the port it claims, and nothing else of any port. */
  lemma {:induction false} AllocTouchesOnlyItsPeer(net: Net, d: Decl, p: nat)
    requires d.ent < |net.ents| && p <= |net.ports|
    ensures var t := Target(net, d.peerEnt, d.peerPort);
      AllocPort(net, d).ports[p] ==
        if p == |net.ports| then Port(d.port, d.ent, t)
        else if t == Some(p) then net.ports[p].(link := Some(|net.ports|))
        else net.ports[p]
  {
  }

  /** The last insertion gives its own port the port it met, and the port it met its own. */
  lemma {:induction false} FinalLinkSnoc(ents: seq<Ent>, ds: seq<Decl>, i: nat)
    requires i < |ds|
    ensures var n := |ds| - 1;
      FinalLink(ents, ds, i) ==
        if i == n then Claimed(ents, ds, n)
        else if Claimed(ents, ds, n) == Some(i) then Some(n)
        else FinalLink(ents, ds[..n], i)
  {
    var n := |ds| - 1;
    if i < n {
      ClaimerPrefix(ents, ds, i, n, n);
      ClaimedPrefix(ents, ds, i, i, n);
    }
  }

  lemma {:induction false} RunSnoc(net: Net, ds: seq<Decl>, i: nat)
    requires NoPorts(net) && InRange(net.ents, ds) && i < |ds|
    ensures var n := |ds| - 1;
      var met := Claimed(net.ents, ds, n);
      Run(net, ds).ports[i].link ==
        if i == n then met else if met == Some(i) then Some(n) else Run(net, ds[..n]).ports[i].link
  {
    var n := |ds| - 1;
    var was := Run(net, ds[..n]);
    assert Run(net, ds) == AllocPort(was, ds[n]);
    assert |was.ports| == n;
    hide Run, AllocPort, Target, Claimed;
    TargetIsClaimed(net, ds, n);
    AllocTouchesOnlyItsPeer(was, ds[n], i);
  }

  /** The link of every port after any run of insertions, with no assumption on the data. */
  lemma {:induction false} LinkLaw(net: Net, ds: seq<Decl>, i: nat)
    requires NoPorts(net) && InRange(net.ents, ds) && i < |ds|
    ensures Run(net, ds).ports[i].link == FinalLink(net.ents, ds, i)
  {
    var n := |ds| - 1;
    RunSnoc(net, ds, i);
    FinalLinkSnoc(net.ents, ds, i);
    hide Run, FinalLink, Claimed, NoPorts;
    if i < n {
      LinkLaw(net, ds[..n], i);
    }
  }

  // ----- symmetric data

  /** Every port is declared once, never as its own peer, and its peer, once declared, names it back. */
  ghost predicate Symmetric(ents: seq<Ent>, ds: seq<Decl>) {
    && (forall j, k :: 0 <= j < |ds| && 0 <= k < |ds| && ds[j].ent == ds[k].ent && ds[j].port == ds[k].port ==> j == k)
    && (forall k :: 0 <= k < |ds| ==> !Declares(ents, ds, k, k))
    && (forall j, k :: 0 <= j < |ds| && 0 <= k < |ds| && Declares(ents, ds, k, j) ==> Declares(ents, ds, j, k))
  }

  /** For symmetric data a port is linked to exactly the inserted port that is its declared peer. */
  lemma {:induction false} LinkedIffDeclared(net: Net, ds: seq<Decl>, i: nat, j: nat)
    requires NoPorts(net) && InRange(net.ents, ds) && Symmetric(net.ents, ds)
    requires i < |ds| && j < |ds|
    ensures Run(net, ds).ports[i].link == Some(j) <==> Declares(net.ents, ds, i, j)
  {
    LinkLaw(net, ds, i);
    var c := Claimer(net.ents, ds, i, |ds|);
    if Declares(net.ents, ds, i, j) {
      if j > i {
        assert Declares(net.ents, ds, j, i);
        var t := Claimed(net.ents, ds, j);
        assert t.Some?;
        assert Declares(net.ents, ds, j, t.value);
        assert c.Some?;
      }
      if c.Some? {
        assert Declares(net.ents, ds, c.value, i);
        assert Declares(net.ents, ds, i, c.value);
      } else {
        var t := Claimed(net.ents, ds, i);
        assert t.Some?;
        assert Declares(net.ents, ds, i, t.value);
      }
    }
  }

  lemma {:induction false} SymmetricLinksAreInvolution(net: Net, ds: seq<Decl>)
    requires NoPorts(net) && InRange(net.ents, ds) && Symmetric(net.ents, ds)
    ensures Wf(Run(net, ds)) && Involution(Run(net, ds))
  {
    RunKeepsWf(net, ds);
    var r := Run(net, ds);
    forall p | 0 <= p < |r.ports| && r.ports[p].link.Some?
      ensures r.ports[p].link.value != p && r.ports[r.ports[p].link.value].link == Some(p)
    {
      var q := r.ports[p].link.value;
      LinkedIffDeclared(net, ds, p, q);
      LinkedIffDeclared(net, ds, q, p);
    }
  }

  /** An insertion keeps the links an involution exactly when the port it claims was still unlinked. */
  lemma {:induction false} InvolutionKeptIffUnlinked(net: Net, d: Decl)
    requires Wf(net) && Involution(net) && d.ent < |net.ents|
    ensures var t := Target(net, d.peerEnt, d.peerPort);
      Involution(AllocPort(net, d)) <==> (t.Some? ==> net.ports[t.value].link.None?)
  {
    var t := Target(net, d.peerEnt, d.peerPort);
    var r := AllocPort(net, d);
    if t.Some? && net.ports[t.value].link.Some? {
      var x := net.ports[t.value].link.value;
      assert r.ports[x].link == Some(t.value);
      assert r.ports[t.value].link == Some(|net.ports|);
    } else {
      forall p | 0 <= p < |r.ports| && r.ports[p].link.Some?
        ensures r.ports[p].link.value < |r.ports| && r.ports[p].link.value != p
        ensures r.ports[r.ports[p].link.value].link == Some(p)
      {
        AllocTouchesOnlyItsPeer(net, d, p);
      }
    }
  }
}
