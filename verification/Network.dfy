/**
 * The topology as a value: entities in device-list order, ports numbered in the order they were
 * allocated. An entity lists the ids of its ports newest first, because ub_alloc_port prepends.
 */
module Network {
  import opened Wrappers

  const INIT_PARENT: nat := 0xFFFF_FFFF
  const HOST_PARENT: nat := 0xFFFF_FFFE
  /** Entity numbers have five hex digits, port numbers three. */
  const ENT_NUMS: nat := 0x10_0000
  const PORT_NUMS: nat := 0x1000

  /** What three and five hex digits can hold. */
  type PortNum = n: nat | n < 0x1000
  type EntNum = n: nat | n < 0x10_0000

  datatype Ent = Ent(num: nat, ubc: nat, controller: bool, ports: seq<nat>)
  datatype Port = Port(num: nat, owner: nat, link: Option<nat>)
  datatype Net = Net(ents: seq<Ent>, ports: seq<Port>)

  ghost predicate Wf(net: Net) {
    && (forall p :: 0 <= p < |net.ports| ==> net.ports[p].owner < |net.ents|)
    && (forall p :: 0 <= p < |net.ports| && net.ports[p].link.Some? ==> net.ports[p].link.value < |net.ports|)
    && (forall e :: 0 <= e < |net.ents| ==> WfList(net, e))
    && (forall p :: 0 <= p < |net.ports| ==> p in net.ents[net.ports[p].owner].ports)
  }

  /** The port list of `e` holds ports of `e` only, newest first. */
  ghost predicate WfList(net: Net, e: nat)
    requires e < |net.ents|
  {
    && (forall k :: 0 <= k < |net.ents[e].ports| ==>
          net.ents[e].ports[k] < |net.ports| && net.ports[net.ents[e].ports[k]].owner == e)
    && (forall k, l :: 0 <= k < l < |net.ents[e].ports| ==> net.ents[e].ports[k] > net.ents[e].ports[l])
  }

  /** Entity numbers identify entities and none is one of the two reserved parent marks. */
  ghost predicate UniqueNums(net: Net) {
    && (forall i :: 0 <= i < |net.ents| ==> net.ents[i].num < ENT_NUMS)
    && (forall i, j :: 0 <= i < |net.ents| && 0 <= j < |net.ents| && net.ents[i].num == net.ents[j].num ==> i == j)
  }

  ghost predicate SmallPortNums(net: Net) {
    forall p :: 0 <= p < |net.ports| ==> net.ports[p].num < PORT_NUMS
  }

  /** The links form an involution without fixed points: a peer's peer is the port itself. */
  ghost predicate Involution(net: Net) {
    forall p :: 0 <= p < |net.ports| && net.ports[p].link.Some? ==>
      && net.ports[p].link.value < |net.ports|
      && net.ports[p].link.value != p
      && net.ports[net.ports[p].link.value].link == Some(p)
  }

  /** The entity at the far end of port `p`. */
  function Far(net: Net, p: nat): Option<nat> {
    if p < |net.ports| && net.ports[p].link.Some? && net.ports[p].link.value < |net.ports|
    then Some(net.ports[net.ports[p].link.value].owner) else None
  }

  predicate IsLinked(net: Net, p: nat) {
    p < |net.ports| && net.ports[p].link.Some?
  }

  function Below(n: nat): (s: set<nat>)
    ensures forall i: nat :: i in s <==> i < n
  {
    if n == 0 then {} else Below(n - 1) + {n - 1}
  }

  function All(net: Net): set<nat> {
    Below(|net.ents|)
  }
}
