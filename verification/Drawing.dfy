/**
 * The recursive printout (lsub/topo.c:120-243) without its buffer: which tree the traversal walks,
 * and how that tree is laid out as a block of lines.
 */
module Drawing {
  import opened Network
  import opened Layout
  import H = Hex

  /** An entity is expanded once; every other mention of it is a quoted leaf. */
  datatype Tree = Quoted(ent: nat) | Opened(ent: nat, kids: Kids)

  /** The ports of an expanded entity, in list order: unlinked, or linked to port `dst`. */
  datatype Kids = Done | Alone(src: nat, rest: Kids) | Linked(src: nat, dst: nat, sub: Tree, rest: Kids)

  datatype Forest = Empty | Root(tree: Tree, rest: Forest)

  // ----- the traversal

  /** show_one_uent, seen from an entity with number `num` and domain `ubc`. */
  function Visit(net: Net, par: seq<nat>, done: set<nat>, i: nat, num: nat, ubc: nat): (r: (Tree, set<nat>))
    requires Wf(net) && |par| == |net.ents| && i < |par|
    ensures done <= r.1 <= done + All(net)
    ensures r.0.ent == i && i in (if r.0.Opened? then r.1 else done + {i})
    decreases All(net) - done, 0
  {
    if par[i] != num || net.ents[i].ubc != ubc || i in done then
      (Quoted(i), done)
    else
      assert All(net) - (done + {i}) < All(net) - done by {
        assert i in All(net) - done;
      }
      var r := VisitPorts(net, par, done + {i}, i, 0);
      (Opened(i, r.0), r.1)
  }

  /** show_src_port from the `k`-th port of `i` on. */
  function VisitPorts(net: Net, par: seq<nat>, done: set<nat>, i: nat, k: nat): (r: (Kids, set<nat>))
    requires Wf(net) && |par| == |net.ents| && i < |par| && k <= |net.ents[i].ports|
    ensures done <= r.1 <= done + All(net)
    ensures r.0.Done? <==> k == |net.ents[i].ports|
    decreases All(net) - done, 1 + |net.ents[i].ports| - k
  {
    if k == |net.ents[i].ports| then
      (Done, done)
    else
      assert WfList(net, i);
      var src := net.ents[i].ports[k];
      match net.ports[src].link
      case None =>
        var rest := VisitPorts(net, par, done, i, k + 1);
        (Alone(src, rest.0), rest.1)
      case Some(dst) =>
        var sub := Visit(net, par, done, net.ports[dst].owner, net.ents[i].num, net.ents[i].ubc);
        assert sub.1 == done || All(net) - sub.1 < All(net) - done;
        var rest := VisitPorts(net, par, sub.1, i, k + 1);
        (Linked(src, dst, sub.0, rest.0), rest.1)
  }

  /** show_topo_ubc: the controllers in list order, each seen from the host mark of its own domain. */
  function VisitAll(net: Net, par: seq<nat>, done: set<nat>, ubcs: seq<nat>): (r: (Forest, set<nat>))
    requires Wf(net) && |par| == |net.ents| && forall n :: 0 <= n < |ubcs| ==> ubcs[n] < |par|
    ensures done <= r.1 <= done + All(net)
    ensures r.0.Empty? <==> ubcs == []
    decreases |ubcs|
  {
    if ubcs == [] then (Empty, done)
    else
      var first := Visit(net, par, done, ubcs[0], HOST_PARENT, net.ents[ubcs[0]].ubc);
      var rest := VisitAll(net, par, first.1, ubcs[1..]);
      (Root(first.0, rest.0), rest.1)
  }

  // ----- the layout

  function EntHex(net: Net, i: nat): string {
    H.Print(if i < |net.ents| then net.ents[i].num else 0, 5)
  }

  function PortHex(net: Net, p: nat): string {
    H.Print(if p < |net.ports| then net.ports[p].num else 0, 3)
  }

  function QuotedText(net: Net, i: nat): string {
    "-\"" + EntHex(net, i) + "\""
  }

  function OpenedText(net: Net, i: nat): string {
    "-[" + EntHex(net, i) + "]-"
  }

  function SrcText(net: Net, p: nat): string {
    "-" + PortHex(net, p) + "-"
  }

  function DstText(net: Net, p: nat): string {
    PortHex(net, p) + "--"
  }

  /** The branch character: a corner for the last of several, a plain dash for an only one. */
  function Joint(only: bool, last: bool): string {
    if only then "-" else if last then "\\" else "+"
  }

  predicate Single(kids: Kids) {
    !kids.Done? && kids.rest.Done?
  }

  function TreeBlock(net: Net, t: Tree): (b: Lines)
    ensures b != []
  {
    match t
    case Quoted(i) => [QuotedText(net, i)]
    case Opened(i, kids) =>
      Hang(OpenedText(net, i), if kids.Done? then [""] else KidsBlock(net, kids, Single(kids)))
  }

  function KidsBlock(net: Net, kids: Kids, only: bool): (b: Lines)
    ensures !kids.Done? ==> b != []
  {
    match kids
    case Done => []
    case Alone(src, rest) =>
      Hang(Joint(only, rest.Done?) + SrcText(net, src), [""]) + KidsBlock(net, rest, false)
    case Linked(src, dst, sub, rest) =>
      Hang(Joint(only, rest.Done?) + SrcText(net, src), Hang(DstText(net, dst), TreeBlock(net, sub)))
      + KidsBlock(net, rest, false)
  }

  function RootsBlock(net: Net, f: Forest, only: bool): (b: Lines)
    ensures f.Root? ==> b != []
  {
    match f
    case Empty => []
    case Root(t, rest) => Hang(Joint(only, rest.Empty?), TreeBlock(net, t)) + RootsBlock(net, rest, false)
  }

  /** The whole printout. */
  function ForestBlock(net: Net, f: Forest): Lines {
    if f.Empty? then [] else Hang("-", RootsBlock(net, f, f.rest.Empty?))
  }

  // ----- how much of the line buffer a drawing needs, text, line feed and terminator together

  function Max(a: nat, b: nat): nat {
    if a < b then b else a
  }

  function TreeExtent(net: Net, t: Tree): (n: nat)
    ensures n >= 2
  {
    match t
    case Quoted(i) => |QuotedText(net, i)| + 2
    case Opened(i, kids) => |OpenedText(net, i)| + KidsExtent(net, kids)
  }

  function KidsExtent(net: Net, kids: Kids): (n: nat)
    ensures n >= 2
  {
    match kids
    case Done => 2
    case Alone(src, rest) => Max(1 + |SrcText(net, src)| + 2, KidsExtent(net, rest))
    case Linked(src, dst, sub, rest) =>
      Max(1 + |SrcText(net, src)| + |DstText(net, dst)| + TreeExtent(net, sub), KidsExtent(net, rest))
  }

  function ForestExtent(net: Net, f: Forest): nat {
    match f
    case Empty => 0
    case Root(t, rest) => Max(2 + TreeExtent(net, t), ForestExtent(net, rest))
  }
}
