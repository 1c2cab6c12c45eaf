/**
 * The object graph that lib/common.c and lsub/topo.c build and scan in place: entities and ports
 * with their mutable links, parents and marks. Each method is proved against the value model.
 */
module Topology {
  import opened Wrappers
  import opened Network
  import opened Parents
  import B = Bits
  import S = Scanning
  import L = Linking

  const INTEGRATED_CONTROLLER: nat := 2
  const CLASS_CODE_MASK: nat := 0xFF

  /** A port on the heap; `id` is its place in allocation order. */
  class PortObj {
    ghost const id: nat
    const num: nat
    const ent: Entity
    var link: PortObj?

    constructor (num: nat, ent: Entity, link: PortObj?, ghost id: nat)
      ensures this.num == num && this.ent == ent && this.link == link && this.id == id
    {
      this.num, this.ent, this.link, this.id := num, ent, link, id;
    }
  }

  /** An entity on the heap; `idx` is its place in the device list. */
  class Entity {
    ghost const idx: nat
    const num: nat
    const ubc: nat
    const entityType: nat
    const classCode: nat
    var portList: seq<PortObj>
    var par: nat
    var scanned: bool
    var printed: bool

    constructor (num: nat, ubc: nat, entityType: nat, classCode: nat, ghost idx: nat)
      ensures this.num == num && this.ubc == ubc && this.entityType == entityType && this.classCode == classCode
      ensures this.idx == idx && portList == [] && par == INIT_PARENT && !scanned && !printed
    {
      this.num, this.ubc, this.entityType, this.classCode := num, ubc, entityType, classCode;
      this.idx := idx;
      portList, par, scanned, printed := [], INIT_PARENT, false, false;
    }

    /** An integrated controller whose class code has no subclass. */
    predicate IsController()
      ensures IsController() <==> entityType == 2 && classCode % 256 == 0
    {
      B.AndMasks(classCode, 8);
      B.Pow2Byte();
      entityType == INTEGRATED_CONTROLLER && B.And(classCode, CLASS_CODE_MASK) == 0
    }
  }

  ghost function Ids(ps: seq<PortObj>): (s: seq<nat>)
    ensures |s| == |ps| && forall k :: 0 <= k < |ps| ==> s[k] == ps[k].id
  {
    seq(|ps|, k requires 0 <= k < |ps| => ps[k].id)
  }

  ghost function LinkId(q: PortObj?): Option<nat> {
    if q == null then None else Some(q.id)
  }

  ghost predicate Listed(ports: seq<PortObj>, p: PortObj) {
    p.id < |ports| && ports[p.id] == p
  }

  /** Entity `i`, with its port list, is entity `i` of the network. */
  ghost predicate EntIs(net: Net, ents: seq<Entity>, ports: seq<PortObj>, lists: seq<seq<PortObj>>, i: nat)
    requires i < |ents| == |net.ents| == |lists|
  {
    && ents[i].idx == i
    && net.ents[i] == Ent(ents[i].num, ents[i].ubc, ents[i].IsController(), Ids(lists[i]))
    && forall p :: p in lists[i] ==> Listed(ports, p)
  }

  /** Port `k`, with its link, is port `k` of the network. */
  ghost predicate PortIs(net: Net, ents: seq<Entity>, ports: seq<PortObj>, links: seq<PortObj?>, k: nat)
    requires k < |ports| == |net.ports| == |links|
  {
    && ports[k].id == k
    && ports[k].ent in ents
    && net.ports[k] == Port(ports[k].num, ports[k].ent.idx, LinkId(links[k]))
    && (links[k] != null ==> Listed(ports, links[k]))
  }

  /** The objects with these port lists and links are the network `net`. */
  ghost predicate Pictures(net: Net, ents: seq<Entity>, ports: seq<PortObj>, lists: seq<seq<PortObj>>,
                           links: seq<PortObj?>) {
    && |net.ents| == |ents| == |lists| && |net.ports| == |ports| == |links|
    && (forall i: nat :: i < |ents| ==> EntIs(net, ents, ports, lists, i))
    && (forall k: nat :: k < |ports| ==> PortIs(net, ents, ports, links, k))
  }

  lemma InsertPictured(net: Net, d: L.Decl, ents: seq<Entity>, ports: seq<PortObj>, lists: seq<seq<PortObj>>,
                       links: seq<PortObj?>, port: PortObj, peer: PortObj?)
    requires Pictures(net, ents, ports, lists, links) && d.ent < |ents|
    requires port.id == |ports| && port.num == d.port && port.ent == ents[d.ent]
    requires LinkId(peer) == L.Target(net, d.peerEnt, d.peerPort) && (peer != null ==> Listed(ports, peer))
    ensures Pictures(L.AllocPort(net, d), ents, ports + [port], lists[d.ent := [port] + lists[d.ent]],
                     (if peer == null then links else links[peer.id := port]) + [peer])
  {
    var net' := L.AllocPort(net, d);
    var ports' := ports + [port];
    var lists' := lists[d.ent := [port] + lists[d.ent]];
    var links' := (if peer == null then links else links[peer.id := port]) + [peer];
    assert forall p :: Listed(ports, p) ==> Listed(ports', p);
    forall i: nat | i < |ents|
      ensures EntIs(net', ents, ports', lists', i)
    {
      assert EntIs(net, ents, ports, lists, i);
      assert Ids([port] + lists[i]) == [port.id] + Ids(lists[i]);
    }
    assert EntIs(net, ents, ports, lists, d.ent);
    forall k: nat | k < |ports'|
      ensures PortIs(net', ents, ports', links', k)
    {
      L.AllocTouchesOnlyItsPeer(net, d, k);
      if k < |ports| {
        assert PortIs(net, ents, ports, links, k);
      }
    }
  }

  /** The devices of the machine, in device-list order, and every port allocated so far. */
  class Machine {
    const ents: seq<Entity>
    ghost var ports: seq<PortObj>
    ghost var pool: set<PortObj>

    /** The entity chain of the access structure is the reverse of the device list. */
    constructor (ents: seq<Entity>)
      requires forall i :: 0 <= i < |ents| ==> ents[i].idx == i && ents[i].portList == []
      ensures this.ents == ents && ports == [] && pool == {}
      ensures Models(Net(seq(|ents|, i requires 0 <= i < |ents| =>
                               Ent(ents[i].num, ents[i].ubc, ents[i].IsController(), [])), []))
    {
      this.ents, this.ports, this.pool := ents, [], {};
    }

    ghost function Lists(n: nat): (s: seq<seq<PortObj>>)
      requires n <= |ents|
      reads ents`portList
      ensures |s| == n && forall i :: 0 <= i < n ==> s[i] == ents[i].portList
    {
      if n == 0 then [] else Lists(n - 1) + [ents[n - 1].portList]
    }

    ghost function Links(n: nat): (s: seq<PortObj?>)
      requires n <= |ports|
      reads this`ports, ports`link
      ensures |s| == n && forall k :: 0 <= k < n ==> s[k] == ports[k].link
    {
      if n == 0 then [] else Links(n - 1) + [ports[n - 1].link]
    }

    /** The heap is the network `net`. */
    ghost predicate Models(net: Net)
      reads this`ports, this`pool, ents`portList, ports`link
    {
      (forall k :: 0 <= k < |ports| ==> ports[k] in pool) && Pictures(net, ents, ports, Lists(|ents|), Links(|ports|))
    }

    ghost function Pars(): (s: seq<nat>)
      reads ents`par
      ensures |s| == |ents| && forall i :: 0 <= i < |ents| ==> s[i] == ents[i].par
    {
      ParsBelow(|ents|)
    }

    ghost function ParsBelow(n: nat): (s: seq<nat>)
      requires n <= |ents|
      reads ents`par
      ensures |s| == n && forall i :: 0 <= i < n ==> s[i] == ents[i].par
    {
      if n == 0 then [] else ParsBelow(n - 1) + [ents[n - 1].par]
    }

    /** The entities already expanded. */
    ghost function Printed(): (s: set<nat>)
      reads ents`printed
      ensures forall i: nat :: i in s <==> i < |ents| && ents[i].printed
    {
      set i | i in Below(|ents|) && ents[i].printed
    }

    // ----- linking (lib/common.c:131-162, 215-244)

    method GetEnt(num: nat, ghost net: Net) returns (e: Entity?)
      requires Models(net)
      ensures var r := L.FindEnt(net.ents, num); if e == null then r.None? else e in ents && r == Some(e.idx)
    {
      var n := |ents|;
      assert net.ents[..n] == net.ents;
      while n > 0
        invariant n <= |ents|
        invariant L.FindEnt(net.ents, num) == L.FindEnt(net.ents[..n], num)
      {
        assert EntIs(net, ents, ports, Lists(|ents|), n - 1);
        assert net.ents[..n][..n - 1] == net.ents[..n - 1];
        if ents[n - 1].num == num {
          return ents[n - 1];
        }
        n := n - 1;
      }
      return null;
    }

    method GetPort(e: Entity, num: nat, ghost net: Net) returns (p: PortObj?)
      requires Models(net) && e in ents
      ensures e.idx < |ents|
      ensures var r := L.FindPort(net.ports, net.ents[e.idx].ports, num);
        if p == null then r.None? else p in e.portList && Listed(ports, p) && r == Some(p.id)
    {
      ghost var i := Place(e, net);
      ghost var ids := net.ents[i].ports;
      var k := 0;
      assert ids[0..] == ids;
      while k < |e.portList|
        invariant k <= |e.portList|
        invariant L.FindPort(net.ports, ids, num) == L.FindPort(net.ports, ids[k..], num)
      {
        var port := e.portList[k];
        assert Listed(ports, port) && PortIs(net, ents, ports, Links(|ports|), port.id);
        assert ids[k..][1..] == ids[k + 1..];
        if port.num == num {
          return port;
        }
        k := k + 1;
      }
      return null;
    }

    /** The writes of ub_alloc_port: the peer points back, and the port is put first in its list. */
    method Attach(e: Entity, port: PortObj, peer: PortObj?)
      requires e.idx < |ents| && ents[e.idx] == e && forall i :: 0 <= i < |ents| ==> ents[i].idx == i
      requires port !in ports && forall k :: 0 <= k < |ports| ==> ports[k].id == k
      requires peer != null ==> Listed(ports, peer)
      requires port.link == peer && forall k :: 0 <= k < |ports| ==> ports[k] in pool
      modifies this`ports, this`pool, e`portList, pool`link
      ensures ports == old(ports) + [port] && pool == old(pool) + {port}
      ensures Lists(|ents|) == old(Lists(|ents|))[e.idx := [port] + old(e.portList)]
      ensures Links(|ports|) ==
        (if peer == null then old(Links(|ports|)) else old(Links(|ports|))[peer.id := port]) + [peer]
    {
      if peer != null {
        peer.link := port;
      }
      e.portList := [port] + e.portList;
      ports, pool := ports + [port], pool + {port};
    }

    /** The two lookups of ub_alloc_port. */
    method FindPeer(peerEnt: nat, peerPort: nat, ghost net: Net) returns (peer: PortObj?)
      requires Models(net)
      ensures LinkId(peer) == L.Target(net, peerEnt, peerPort) && (peer != null ==> Listed(ports, peer))
    {
      peer := null;
      var owner := GetEnt(peerEnt, net);
      if owner != null {
        peer := GetPort(owner, peerPort, net);
      }
    }

    /** ub_alloc_port: pair the new port with its peer if that exists. */
    method AllocPort(e: Entity, num: nat, peerEnt: nat, peerPort: nat, ghost net: Net)
      requires Models(net) && e in ents
      modifies this`ports, this`pool, e`portList, pool`link
      ensures fresh(pool - old(pool))
      ensures e.idx < |ents| && Models(L.AllocPort(net, L.Decl(e.idx, num, peerEnt, peerPort)))
    {
      ghost var i := Place(e, net);
      hide EntIs, PortIs, L.AllocPort, L.Target;
      var peer := FindPeer(peerEnt, peerPort, net);
      var port := new PortObj(num, e, peer, |ports|);
      InsertPictured(net, L.Decl(i, num, peerEnt, peerPort), ents, ports, Lists(|ents|), Links(|ports|), port, peer);
      Numbered(net);
      Attach(e, port, peer);
    }

    lemma Numbered(net: Net)
      requires Models(net)
      ensures forall i :: 0 <= i < |ents| ==> ents[i].idx == i
      ensures forall k :: 0 <= k < |ports| ==> ports[k].id == k
    {
      forall i | 0 <= i < |ents|
        ensures ents[i].idx == i
      {
        assert EntIs(net, ents, ports, Lists(|ents|), i);
      }
      forall k | 0 <= k < |ports|
        ensures ports[k].id == k
      {
        assert PortIs(net, ents, ports, Links(|ports|), k);
      }
    }

    lemma Place(e: Entity, net: Net) returns (i: nat)
      requires Models(net) && e in ents
      ensures i == e.idx && i < |ents| == |net.ents| && ents[i] == e
      ensures |net.ports| == |ports| && EntIs(net, ents, ports, Lists(|ents|), i)
    {
      i :| 0 <= i < |ents| && ents[i] == e;
      assert EntIs(net, ents, ports, Lists(|ents|), i);
    }

    /** The far end of a listed port, on the heap and in the network. */
    lemma FarEnd(p: PortObj, net: Net) returns (far: Option<nat>)
      requires Models(net) && Listed(ports, p)
      ensures far == Far(net, p.id) && (far.None? <==> p.link == null)
      ensures far.Some? ==> p.link.ent.idx == far.value < |ents| && ents[far.value] == p.link.ent
      ensures far.Some? ==> Listed(ports, p.link)
      ensures p.id < |net.ports| && net.ports[p.id].num == p.num && net.ports[p.id].link == LinkId(p.link)
    {
      far := Far(net, p.id);
      assert PortIs(net, ents, ports, Links(|ports|), p.id);
      if p.link != null {
        assert PortIs(net, ents, ports, Links(|ports|), p.link.id);
        var j := Place(p.link.ent, net);
      }
    }

    // ----- the parent scan (lsub/topo.c:29-67)

    /** The entities already scanned. */
    ghost function Scanned(): (s: set<nat>)
      reads ents`scanned
      ensures forall i: nat :: i in s <==> i < |ents| && ents[i].scanned
    {
      set i | i in Below(|ents|) && ents[i].scanned
    }

    method SetParent(e: Entity, num: nat, ghost net: Net)
      requires Models(net) && e in ents
      modifies e`par
      ensures e.idx < |ents| && Pars() == old(Pars())[e.idx := num]
    {
      ghost var i := Place(e, net);
      Numbered(net);
      e.par := num;
    }

    /** The body of the port loop: an unparented peer of the same domain takes the entity's number. */
    method Offer(e: Entity, k: nat, ghost net: Net) returns (changed: bool)
      requires Models(net) && UniqueNums(net) && e in ents && k < |e.portList|
      modifies ents`par
      ensures e.idx < |ents| == |net.ents| && k < |net.ents[e.idx].ports|
      ensures Pars() == S.Offer(net, old(Pars()), e.idx, k) && (changed <==> Pars() != old(Pars()))
    {
      changed := false;
      ghost var i := Place(e, net);
      var peer := e.portList[k].link;
      ghost var far := FarEnd(e.portList[k], net);
      if peer != null {
        ghost var j := Place(peer.ent, net);
        if peer.ent.par == INIT_PARENT && peer.ent.ubc == e.ubc {
          SetParent(peer.ent, e.num, net);
          changed := true;
        }
      }
    }

    method OfferAll(e: Entity, ghost net: Net) returns (changed: bool)
      requires Models(net) && UniqueNums(net) && e in ents
      modifies ents`par
      ensures e.idx < |ents| == |net.ents|
      ensures Pars() == S.OfferBelow(net, old(Pars()), e.idx, |net.ents[e.idx].ports|)
        && (changed <==> Pars() != old(Pars()))
    {
      changed := false;
      ghost var i := Place(e, net);
      ghost var start := Pars();
      hide Models, S.Offer, UniqueNums, Kept;
      var k := 0;
      while k < |e.portList|
        invariant k <= |e.portList| == |net.ents[i].ports|
        invariant Pars() == S.OfferBelow(net, start, i, k) && (changed <==> Pars() != start)
      {
        ghost var before := Pars();
        var now := Offer(e, k, net);
        S.KeptDiffers(start, before, Pars());
        changed := changed || now;
        k := k + 1;
      }
    }

    /** preset_sub_uent: a parented entity is scanned once, offering its number over all its ports. */
    method PresetSub(e: Entity, ghost net: Net) returns (changed: bool)
      requires Models(net) && UniqueNums(net) && e in ents
      modifies ents`par, e`scanned
      ensures e.idx < |ents| == |net.ents|
      ensures S.Scan(Pars(), Scanned()) == S.ScanOne(net, S.Scan(old(Pars()), old(Scanned())), e.idx)
      ensures changed <==> Pars() != old(Pars())
    {
      ghost var i := Place(e, net);
      Numbered(net);
      if e.par == INIT_PARENT || e.scanned {
        return false;
      }
      changed := OfferAll(e, net);
      e.scanned := true;
    }

    /** One pass of preset_all_uent_par. */
    method Pass(devs: seq<Entity>, ghost net: Net) returns (keep: bool)
      requires Models(net) && UniqueNums(net) && forall m :: 0 <= m < |devs| ==> devs[m] in ents
      modifies ents`par, ents`scanned
      ensures |ents| == |net.ents| && S.Devices(net, Places(devs))
      ensures S.Scan(Pars(), Scanned()) == S.Pass(net, S.Scan(old(Pars()), old(Scanned())), Places(devs))
      ensures keep <==> Pars() != old(Pars())
    {
      keep := false;
      DevicesAre(devs, net);
      ghost var start, ids := S.Scan(Pars(), Scanned()), Places(devs);
      hide Models, S.Pass, S.ScanOne, UniqueNums, Kept;
      var n := 0;
      while n < |devs|
        invariant n <= |devs| && S.Scan(Pars(), Scanned()) == S.Pass(net, start, ids[..n])
        invariant keep <==> Pars() != start.par
      {
        ghost var before := Pars();
        var now := PresetSub(devs[n], net);
        S.PassSnoc(net, start, ids, n);
        S.KeptDiffers(start.par, before, Pars());
        keep := keep || now;
        n := n + 1;
      }
      assert ids[..n] == ids;
    }

    lemma DevicesAre(devs: seq<Entity>, net: Net)
      requires Models(net) && forall m :: 0 <= m < |devs| ==> devs[m] in ents
      ensures |ents| == |net.ents| && S.Devices(net, Places(devs))
    {
      Numbered(net);
    }

    /** preset_all_uent_par: passes over the device list until one pass changes nothing. */
    method PresetAll(devs: seq<Entity>, ghost net: Net)
      requires Models(net) && UniqueNums(net) && forall m :: 0 <= m < |devs| ==> devs[m] in ents
      modifies ents`par, ents`scanned
      ensures |ents| == |net.ents| && S.Devices(net, Places(devs))
      ensures S.Scan(Pars(), Scanned()) == S.ScanAll(net, S.Scan(old(Pars()), old(Scanned())), Places(devs))
    {
      DevicesAre(devs, net);
      ghost var goal := S.ScanAll(net, S.Scan(Pars(), Scanned()), Places(devs));
      var keep := true;
      while keep
        invariant var now := S.Scan(Pars(), Scanned());
          goal == if keep then S.ScanAll(net, now, Places(devs)) else now
        decreases All(net) - Scanned(), keep
      {
        ghost var before := Scanned();
        keep := Pass(devs, net);
        assert keep ==> All(net) - Scanned() < All(net) - before by {
          if keep {
            var x :| x in Scanned() && x !in before;
            assert x in All(net) - before;
          }
        }
      }
    }
  }

  /** The places of these entities in the device list. */
  ghost function Places(es: seq<Entity>): (s: seq<nat>)
    ensures |s| == |es| && forall k :: 0 <= k < |es| ==> s[k] == es[k].idx
  {
    seq(|es|, k requires 0 <= k < |es| => es[k].idx)
  }
}
