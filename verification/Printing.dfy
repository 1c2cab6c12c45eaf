/**
 * The printout as lsub/topo.c:106-254 makes it: one character buffer, overwritten in place while
 * the traversal marks the entities it expands. Every method is proved to write the block of lines
 * of the tree that Drawing.Visit walks.
 */
module Printing {
  import opened Wrappers
  import opened Network
  import opened Layout
  import opened Drawing
  import opened Topology
  import P = Parents
  import L = Linking
  import G = Growing
  import S = Scanning
  import X = Expansion
  import D = Depth
  import Extent
  import H = Hex

  /** Standard output. */
  class Screen {
    var out: string

    constructor ()
      ensures out == ""
    {
      out := "";
    }
  }

  /** The C string that starts a buffer. */
  function CStr(buf: string): string {
    if buf == [] || buf[0] == '\0' then "" else [buf[0]] + CStr(buf[1..])
  }

  predicate NoNul(s: string) {
    '\0' !in s
  }

  lemma {:induction false} CStrOf(s: string, rest: string)
    requires NoNul(s)
    ensures CStr(s + "\0" + rest) == s
  {
    if s == "" {
      assert s + "\0" + rest == "\0" + rest;
    } else {
      assert (s + "\0" + rest)[1..] == s[1..] + "\0" + rest;
      CStrOf(s[1..], rest);
    }
  }

  lemma HangOne(p: string, s: string)
    ensures Hang(p, [s]) == [p + s]
  {
  }

  lemma TextOne(s: string)
    ensures Text([s]) == s + "\n"
  {
    assert [s][1..] == [];
  }

  /** The buffer starts with the text `pre`, which holds no terminator. */
  ghost predicate Holds(line: array<char>, pre: string)
    reads line
  {
    |pre| <= line.Length && line[..|pre|] == pre && NoNul(pre)
  }

  /** sprintf at the end of `pre`: the text and its terminator. */
  method Put(line: array<char>, p: nat, text: string, ghost pre: string)
    requires Holds(line, pre) && p == |pre| && p + |text| < line.Length && NoNul(text)
    modifies line
    ensures Holds(line, pre + text)
  {
    forall k | 0 <= k < |text| {
      line[p + k] := text[k];
    }
    line[p + |text|] := '\0';
    assert line[..p + |text|] == pre + text;
  }

  /** print_line: send the line out, then leave bars under branches and blanks elsewhere. */
  method PrintLine(line: array<char>, p: nat, scr: Screen, ghost pre: string)
    requires Holds(line, pre) && p == |pre| && p + 2 <= line.Length
    modifies line, scr
    ensures scr.out == old(scr.out) + Text([pre])
    ensures Holds(line, Blank(pre))
  {
    line[p] := '\n';
    line[p + 1] := '\0';
    ghost var was := line[..p + 1];
    assert was == pre + "\n";
    assert line[..] == was + "\0" + line[p + 2..];
    CStrOf(was, line[p + 2..]);
    TextOne(pre);
    scr.out := scr.out + CStr(line[..]);
    var q := 0;
    while line[q] != '\0'
      invariant scr.out == old(scr.out) + Text([pre])
      invariant q <= p + 1 && line[p + 1] == '\0'
      invariant forall k :: 0 <= k < q ==> line[k] == Bar(was[k])
      invariant forall k :: q <= k < p + 1 ==> line[k] == was[k] != '\0'
      decreases p + 1 - q
    {
      line[q] := if line[q] == '+' || line[q] == '|' then '|' else ' ';
      q := q + 1;
    }
    assert line[..p] == Blank(pre);
  }

  lemma HoldsPrefix(line: array<char>, pre: string, text: string)
    requires Holds(line, Blank(pre + text))
    ensures Holds(line, Blank(pre))
  {
    BlankAppend(pre, text);
    assert line[..|pre|] == line[..|pre| + |text|][..|pre|];
  }

  lemma TextsHaveNoNul(net: Net, i: nat, p: nat, only: bool, last: bool)
    ensures NoNul(QuotedText(net, i)) && NoNul(OpenedText(net, i)) && NoNul(SrcText(net, p)) && NoNul(DstText(net, p))
    ensures NoNul(Joint(only, last)) && NoNul(Joint(only, last) + SrcText(net, p))
  {
    assert H.AllHex(EntHex(net, i)) && H.AllHex(PortHex(net, p));
  }

  /** What a linked or unlinked port shows after its own number. */
  function DstBlock(net: Net, link: Option<nat>, sub: Tree): Lines {
    match link
    case None => [""]
    case Some(q) => Hang(DstText(net, q), TreeBlock(net, sub))
  }

  /** Room that port needs. */
  function DstExtent(net: Net, link: Option<nat>, sub: Tree): nat {
    match link
    case None => 2
    case Some(q) => |DstText(net, q)| + TreeExtent(net, sub)
  }

  /** The block of a whole port list; an entity without ports ends its line at once. */
  function PortsBlock(net: Net, kids: Kids): Lines {
    if kids.Done? then [""] else KidsBlock(net, kids, Single(kids))
  }

  /** A visit quotes the entity or expands it, and what either shows. */
  lemma {:induction false} VisitStep(net: Net, par: seq<nat>, done: set<nat>, i: nat, num: nat, ubc: nat)
    requires Wf(net) && |par| == |net.ents| && i < |par|
    ensures var r := Visit(net, par, done, i, num, ubc);
      if par[i] != num || net.ents[i].ubc != ubc || i in done then
        && r.1 == done && TreeBlock(net, r.0) == [QuotedText(net, i)]
          && TreeExtent(net, r.0) == |QuotedText(net, i)| + 2
      else
        var s := VisitPorts(net, par, done + {i}, i, 0);
        && r.1 == s.1 && TreeBlock(net, r.0) == Hang(OpenedText(net, i), PortsBlock(net, s.0))
        && TreeExtent(net, r.0) == |OpenedText(net, i)| + KidsExtent(net, s.0)
  {
  }

  /** Writing a block below a first one continues from the blanked prefix. */
  lemma TextHangAppend(pre: string, a: Lines, b: Lines)
    requires a != []
    ensures Text(Hang(pre, a + b)) == Text(Hang(pre, a)) + Text(Hang(Blank(pre), b))
  {
    HangAppend(pre, a, b);
    TextAppend(Hang(pre, a), Hang(Blank(pre), b));
  }

  /** What lies beyond port `k` of `i`: the visit it leads to, or nothing. */
  ghost function Beyond(net: Net, par: seq<nat>, done: set<nat>, i: nat, k: nat): (Tree, set<nat>)
    requires Wf(net) && |par| == |net.ents| && i < |par| && k < |net.ents[i].ports|
  {
    assert WfList(net, i);
    match net.ports[net.ents[i].ports[k]].link
    case None => (Quoted(i), done)
    case Some(q) => Visit(net, par, done, net.ports[q].owner, net.ents[i].num, net.ents[i].ubc)
  }

  /** The port list from `k` on: port `k` with what lies beyond it, then the others. */
  lemma {:induction false} KidStep(net: Net, par: seq<nat>, done: set<nat>, i: nat, k: nat, only: bool)
    requires Wf(net) && |par| == |net.ents| && i < |par| && k < |net.ents[i].ports|
    ensures net.ents[i].ports[k] < |net.ports|
    ensures var r := VisitPorts(net, par, done, i, k);
      var src := net.ents[i].ports[k];
      var far := Beyond(net, par, done, i, k);
      var rest := VisitPorts(net, par, far.1, i, k + 1);
      && r.1 == rest.1
      && KidsBlock(net, r.0, only) ==
           Hang(Joint(only, k + 1 == |net.ents[i].ports|) + SrcText(net, src),
                DstBlock(net, net.ports[src].link, far.0))
           + KidsBlock(net, rest.0, false)
      && KidsExtent(net, r.0) ==
           Max(1 + |SrcText(net, src)| + DstExtent(net, net.ports[src].link, far.0), KidsExtent(net, rest.0))
  {
    assert WfList(net, i);
  }

  /** A moment of the drawing: the network, the parents, the entities expanded so far. */
  datatype View = View(net: Net, par: seq<nat>, done: set<nat>) {
    ghost predicate Good() {
      Wf(net) && |par| == |net.ents|
    }

    function Open(): set<nat> {
      All(net) - done
    }
  }

  /** The heap is at that moment. */
  ghost predicate At(m: Machine, v: View)
    reads m`ports, m`pool, m.ents`portList, m.ports`link, m.ents`par, m.ents`printed
  {
    m.Models(v.net) && v.Good() && v.par == m.Pars() && v.done == m.Printed()
  }

  lemma EntityAt(m: Machine, v: View, e: Entity)
    requires At(m, v) && e in m.ents
    ensures v.Good() && e.idx < |v.par| && |v.net.ents[e.idx].ports| == |e.portList|
    ensures EntHex(v.net, e.idx) == H.Print(e.num, 5) && v.net.ents[e.idx].num == e.num
      && v.net.ents[e.idx].ubc == e.ubc
    ensures v.par[e.idx] == e.par && (e.idx in v.done <==> e.printed)
  {
    var i := m.Place(e, v.net);
  }

  lemma {:induction false} PortAt(m: Machine, v: View, e: Entity, k: nat)
    requires At(m, v) && e in m.ents && k < |e.portList|
    ensures v.Good() && e.idx < |v.par| && k < |v.net.ents[e.idx].ports|
    ensures var src := v.net.ents[e.idx].ports[k];
      src < |v.net.ports| && v.net.ports[src].num == e.portList[k].num
        && v.net.ports[src].link == LinkId(e.portList[k].link)
    ensures SrcText(v.net, v.net.ents[e.idx].ports[k]) == "-" + H.Print(e.portList[k].num, 3) + "-"
    ensures NoNul("-" + H.Print(e.portList[k].num, 3) + "-")
    ensures var peer := e.portList[k].link; peer != null ==>
      && peer.id < |v.net.ports| && v.net.ports[peer.id].num == peer.num && peer.ent in m.ents
      && v.net.ports[peer.id].owner == peer.ent.idx < |v.par|
  {
    EntityAt(m, v, e);
    var i := m.Place(e, v.net);
    var far := m.FarEnd(e.portList[k], v.net);
    if e.portList[k].link != null {
      var q := m.FarEnd(e.portList[k].link, v.net);
    }
    TextsHaveNoNul(v.net, 0, v.net.ents[i].ports[k], true, true);
  }

  method MarkPrinted(m: Machine, e: Entity, ghost v: View)
    requires At(m, v) && e in m.ents
    modifies e`printed
    ensures At(m, v.(done := v.done + {e.idx}))
  {
    ghost var i := m.Place(e, v.net);
    m.Numbered(v.net);
    e.printed := true;
  }

  // ----- the contracts of the traversal

  ghost function One(v: View, i: nat, num: nat, ubc: nat): (Tree, set<nat>)
    requires v.Good() && i < |v.par|
  {
    Visit(v.net, v.par, v.done, i, num, ubc)
  }

  ghost function Ports(v: View, i: nat): (Kids, set<nat>)
    requires v.Good() && i < |v.par|
  {
    VisitPorts(v.net, v.par, v.done, i, 0)
  }

  /** What port `k` of `i` shows to the right of its own number, the room for it, and the marks after it. */
  datatype Shown = Shown(block: Lines, room: nat, done: set<nat>)

  ghost function Dst(v: View, i: nat, k: nat): (s: Shown)
    requires v.Good() && i < |v.par| && k < |v.net.ents[i].ports|
    ensures s.block != [] && s.room >= 2 && s.done >= v.done
  {
    var far := Beyond(v.net, v.par, v.done, i, k);
    assert WfList(v.net, i);
    var link := v.net.ports[v.net.ents[i].ports[k]].link;
    Shown(DstBlock(v.net, link, far.0), DstExtent(v.net, link, far.0), far.1)
  }

  /** The same with the branch character and the port's own number in front. */
  ghost function Turn(v: View, i: nat, k: nat, joint: char): (s: Shown)
    requires v.Good() && i < |v.par| && k < |v.net.ents[i].ports|
    ensures s.block != [] && s.done >= v.done
  {
    var text := [joint] + SrcText(v.net, v.net.ents[i].ports[k]);
    var s := Dst(v, i, k);
    Shown(Hang(text, s.block), |text| + s.room, s.done)
  }

  /** A mention that is not expanded. */
  lemma {:induction false} OneQuoted(v: View, i: nat, num: nat, ubc: nat, text: string)
    requires v.Good() && i < |v.par| && text == "-\"" + EntHex(v.net, i) + "\""
    requires v.par[i] != num || v.net.ents[i].ubc != ubc || i in v.done
    ensures var r := One(v, i, num, ubc);
      r.1 == v.done && TreeBlock(v.net, r.0) == [text] && TreeExtent(v.net, r.0) == |text| + 2
    ensures NoNul(text)
  {
    TextsHaveNoNul(v.net, i, 0, true, true);
  }

  /** An expansion: the entity is marked, then its ports are shown. */
  lemma {:induction false} OneOpened(v: View, i: nat, num: nat, ubc: nat, text: string)
    requires v.Good() && i < |v.par| && text == "-[" + EntHex(v.net, i) + "]-"
    requires v.par[i] == num && v.net.ents[i].ubc == ubc && i !in v.done
    ensures var w := v.(done := v.done + {i});
      var r := One(v, i, num, ubc);
      && w.Good() && w.Open() < v.Open() && r.1 == Ports(w, i).1
      && TreeBlock(v.net, r.0) == Hang(text, PortsBlock(v.net, Ports(w, i).0))
      && TreeExtent(v.net, r.0) == |text| + KidsExtent(v.net, Ports(w, i).0)
    ensures NoNul(text)
  {
    VisitStep(v.net, v.par, v.done, i, num, ubc);
    TextsHaveNoNul(v.net, i, 0, true, true);
    assert i in v.Open();
  }

  /** show_one_uent, with the buffer holding `pre`. */
  method ShowOne(m: Machine, e: Entity, num: nat, ubc: nat, line: array<char>, p: nat, scr: Screen,
                 ghost v: View, ghost pre: string)
    requires At(m, v) && v.Good() && e in m.ents && e.idx < |v.par| && Holds(line, pre) && p == |pre|
    requires p + TreeExtent(v.net, One(v, e.idx, num, ubc).0) <= line.Length
    modifies m.ents`printed, line, scr
    ensures scr.out == old(scr.out) + Text(Hang(pre, TreeBlock(v.net, One(v, e.idx, num, ubc).0)))
    ensures At(m, v.(done := One(v, e.idx, num, ubc).1)) && Holds(line, Blank(pre))
    decreases v.Open(), 0
  {
    EntityAt(m, v, e);
    if e.par != num || e.ubc != ubc || e.printed {
      var text := "-\"" + H.Print(e.num, 5) + "\"";
      OneQuoted(v, e.idx, num, ubc, text);
      hide *;
      Put(line, p, text, pre);
      HangOne(pre, text);
      PrintLine(line, p + |text|, scr, pre + text);
      HoldsPrefix(line, pre, text);
    } else {
      var text := "-[" + H.Print(e.num, 5) + "]-";
      OneOpened(v, e.idx, num, ubc, text);
      hide *;
      ShowOpened(m, e, text, line, p, scr, v, pre);
    }
  }

  /** The expanding branch: write the entity, mark it, show its ports. */
  method ShowOpened(m: Machine, e: Entity, text: string, line: array<char>, p: nat, scr: Screen, ghost v: View,
                    ghost pre: string)
    requires At(m, v) && v.Good() && e in m.ents && e.idx < |v.par| && Holds(line, pre) && p == |pre| && NoNul(text)
    requires var w := v.(done := v.done + {e.idx});
      w.Good() && w.Open() < v.Open() && p + |text| + KidsExtent(v.net, Ports(w, e.idx).0) <= line.Length
    modifies m.ents`printed, line, scr
    ensures var w := v.(done := v.done + {e.idx});
      && scr.out == old(scr.out) + Text(Hang(pre, Hang(text, PortsBlock(v.net, Ports(w, e.idx).0))))
      && At(m, w.(done := Ports(w, e.idx).1))
    ensures Holds(line, Blank(pre))
    decreases v.(done := v.done + {e.idx}).Open(), 6
  {
    hide *;
    ghost var w := v.(done := v.done + {e.idx});
    Put(line, p, text, pre);
    MarkPrinted(m, e, v);
    HangHang(pre, text, PortsBlock(v.net, Ports(w, e.idx).0));
    ShowSrc(m, e, line, p + |text|, scr, w, pre + text);
    HoldsPrefix(line, pre, text);
  }

  lemma {:induction false} DstIs(m: Machine, v: View, e: Entity, k: nat)
    requires At(m, v) && e in m.ents && k < |e.portList| && v.Good() && e.idx < |v.par| && k < |v.net.ents[e.idx].ports|
    ensures var peer := e.portList[k].link;
      var s := Dst(v, e.idx, k);
      if peer == null then
        s == Shown([""], 2, v.done)
      else
        && peer.ent in m.ents && peer.ent.idx < |v.par|
        && var text := H.Print(peer.num, 3) + "--";
        && var r := One(v, peer.ent.idx, e.num, e.ubc);
        && s == Shown(Hang(text, TreeBlock(v.net, r.0)), |text| + TreeExtent(v.net, r.0), r.1)
        && TreeExtent(v.net, r.0) >= 2 && NoNul(text)
  {
    PortAt(m, v, e, k);
    EntityAt(m, v, e);
    if e.portList[k].link != null {
      TextsHaveNoNul(v.net, 0, e.portList[k].link.id, true, true);
    }
  }

  /** show_dst_port: the far end of port `k` of `e`. */
  method ShowDst(m: Machine, e: Entity, k: nat, line: array<char>, p: nat, scr: Screen, ghost v: View,
                 ghost pre: string)
    requires At(m, v) && v.Good() && e in m.ents && e.idx < |v.par| && Holds(line, pre) && p == |pre|
    requires k < |e.portList| && k < |v.net.ents[e.idx].ports| && p + Dst(v, e.idx, k).room <= line.Length
    modifies m.ents`printed, line, scr
    ensures scr.out == old(scr.out) + Text(Hang(pre, Dst(v, e.idx, k).block))
    ensures At(m, v.(done := Dst(v, e.idx, k).done)) && Holds(line, Blank(pre))
    decreases v.Open(), 1
  {
    DstIs(m, v, e, k);
    hide *;
    var peer := e.portList[k].link;
    if peer == null {
      HangOne(pre, "");
      assert pre + "" == pre;
      PrintLine(line, p, scr, pre);
    } else {
      var text := H.Print(peer.num, 3) + "--";
      HangHang(pre, text, TreeBlock(v.net, One(v, peer.ent.idx, e.num, e.ubc).0));
      Put(line, p, text, pre);
      ShowOne(m, peer.ent, e.num, e.ubc, line, p + |text|, scr, v, pre + text);
      HoldsPrefix(line, pre, text);
    }
  }

  /** The branch character goes straight into the buffer. */
  method PutJoint(line: array<char>, p: nat, joint: char, ghost pre: string)
    requires Holds(line, pre) && p == |pre| < line.Length && joint != '\0'
    modifies line
    ensures Holds(line, pre + [joint])
  {
    line[p] := joint;
    assert line[..p + 1] == pre + [joint];
  }

  lemma {:induction false} TurnIs(m: Machine, v: View, e: Entity, k: nat, joint: char)
    requires At(m, v) && e in m.ents && k < |e.portList| && v.Good() && e.idx < |v.par| && k < |v.net.ents[e.idx].ports|
    ensures var text := "-" + H.Print(e.portList[k].num, 3) + "-";
      var s := Dst(v, e.idx, k);
      Turn(v, e.idx, k, joint) == Shown(Hang([joint] + text, s.block), 1 + |text| + s.room, s.done) && NoNul(text)
  {
    PortAt(m, v, e, k);
  }

  lemma Joined(pre: string, c: char, text: string)
    ensures pre + [c] + text == pre + ([c] + text)
  {
  }

  /** One turn of show_src_port: branch character, port number, far end. */
  method ShowPort(m: Machine, e: Entity, k: nat, joint: char, line: array<char>, p: nat, scr: Screen,
                  ghost v: View, ghost pre: string)
    requires At(m, v) && v.Good() && e in m.ents && e.idx < |v.par| && Holds(line, pre) && p == |pre| && joint != '\0'
    requires k < |e.portList| && k < |v.net.ents[e.idx].ports| && p + Turn(v, e.idx, k, joint).room <= line.Length
    modifies m.ents`printed, line, scr
    ensures scr.out == old(scr.out) + Text(Hang(pre, Turn(v, e.idx, k, joint).block))
    ensures At(m, v.(done := Turn(v, e.idx, k, joint).done)) && Holds(line, Blank(pre))
    decreases v.Open(), 2
  {
    TurnIs(m, v, e, k, joint);
    hide *;
    var text := "-" + H.Print(e.portList[k].num, 3) + "-";
    PutJoint(line, p, joint, pre);
    Put(line, p + 1, text, pre + [joint]);
    Joined(pre, joint, text);
    HangHang(pre, [joint] + text, Dst(v, e.idx, k).block);
    ShowDst(m, e, k, line, p + 1 + |text|, scr, v, pre + ([joint] + text));
    HoldsPrefix(line, pre, [joint] + text);
  }

  // ----- port lists

  /** What the port list still has to write from port `k` on: its text, the room for it, the final marks. */
  ghost function Rest(v: View, i: nat, k: nat): (s: Shown)
    requires v.Good() && i < |v.par| && k <= |v.net.ents[i].ports|
  {
    var r := VisitPorts(v.net, v.par, v.done, i, k);
    Shown(KidsBlock(v.net, r.0, false), KidsExtent(v.net, r.0), r.1)
  }

  /** The joint of port `k` among `n` ports that are not alone. */
  function JointChar(k: nat, n: nat): char {
    if k + 1 == n then '\\' else '+'
  }

  /** The rest of a port list is its next turn above the rest after that turn. */
  lemma {:induction false} RestIs(v: View, i: nat, k: nat)
    requires v.Good() && i < |v.par| && k < |v.net.ents[i].ports|
    ensures var t := Turn(v, i, k, JointChar(k, |v.net.ents[i].ports|));
      var s := Rest(v.(done := t.done), i, k + 1);
      && Rest(v, i, k).block == t.block + s.block
      && Rest(v, i, k).done == s.done
      && t.room <= Rest(v, i, k).room && s.room <= Rest(v, i, k).room
      && v.(done := t.done).Open() <= v.Open()
  {
    KidStep(v.net, v.par, v.done, i, k, false);
  }

  lemma RestIsNothing(v: View, i: nat)
    requires v.Good() && i < |v.par|
    ensures Rest(v, i, |v.net.ents[i].ports|).block == [] && Rest(v, i, |v.net.ents[i].ports|).done == v.done
  {
  }

  /** A list without ports ends the line; a single port has a plain joint; several ports are a rest from the first. */
  lemma {:induction false} PortsAre(v: View, i: nat)
    requires v.Good() && i < |v.par|
    ensures var n := |v.net.ents[i].ports|;
      var r := Ports(v, i);
      && (n == 0 ==> PortsBlock(v.net, r.0) == [""] && r.1 == v.done)
      && (n == 1 ==> PortsBlock(v.net, r.0) == Turn(v, i, 0, '-').block && r.1 == Turn(v, i, 0, '-').done
                     && Turn(v, i, 0, '-').room <= KidsExtent(v.net, r.0))
      && (n > 1 ==> PortsBlock(v.net, r.0) == Rest(v, i, 0).block && r.1 == Rest(v, i, 0).done
                    && Rest(v, i, 0).room == KidsExtent(v.net, r.0))
  {
    assert WfList(v.net, i);
    if |v.net.ents[i].ports| > 0 {
      KidStep(v.net, v.par, v.done, i, 0, true);
    }
  }

  /** Writing a turn pays the first part of what the list owes. */
  lemma Pays(out: string, pre: string, a: Lines, b: Lines, total: string)
    requires a != [] && out + Text(Hang(pre, a + b)) == total
    ensures out + Text(Hang(pre, a)) + Text(Hang(Blank(pre), b)) == total
  {
    TextHangAppend(pre, a, b);
    assert out + (Text(Hang(pre, a)) + Text(Hang(Blank(pre), b))) ==
      out + Text(Hang(pre, a)) + Text(Hang(Blank(pre), b));
  }

  lemma PaidOff(out: string, pre: string)
    ensures out + Text(Hang(pre, [])) == out
  {
    assert Hang(pre, []) == [];
  }

  /** One turn of the loop over several ports, and what the list owes afterwards. */
  method PayTurn(m: Machine, e: Entity, k: nat, joint: char, line: array<char>, p: nat, scr: Screen,
                 ghost v: View, ghost pre: string, ghost room: nat, ghost total: string) returns (ghost w: View)
    requires At(m, v) && v.Good() && e in m.ents && e.idx < |v.par| && Holds(line, pre) && p == |pre|
      && p + room <= line.Length
    requires k < |e.portList| == |v.net.ents[e.idx].ports| && joint == JointChar(k, |e.portList|)
    requires Rest(v, e.idx, k).room <= room && scr.out + Text(Hang(pre, Rest(v, e.idx, k).block)) == total
    modifies m.ents`printed, line, scr
    ensures w == v.(done := w.done) && w.Good() && At(m, w) && Holds(line, Blank(pre))
    ensures Rest(w, e.idx, k + 1).room <= room && scr.out + Text(Hang(Blank(pre), Rest(w, e.idx, k + 1).block)) == total
    ensures Rest(w, e.idx, k + 1).done == Rest(v, e.idx, k).done && w.Open() <= v.Open()
    decreases v.Open(), 3
  {
    RestIs(v, e.idx, k);
    ghost var t := Turn(v, e.idx, k, joint);
    w := v.(done := t.done);
    assert w.Good() && joint != '\0';
    hide *;
    Pays(scr.out, pre, t.block, Rest(w, e.idx, k + 1).block, total);
    ShowPort(m, e, k, joint, line, p, scr, v, pre);
  }

  /** show_src_port for several ports: the `+` turns, then the `\` turn. */
  method ShowMany(m: Machine, e: Entity, line: array<char>, p: nat, scr: Screen, ghost v: View, ghost pre: string)
    requires At(m, v) && v.Good() && e in m.ents && e.idx < |v.par| && Holds(line, pre) && p == |pre|
    requires |e.portList| == |v.net.ents[e.idx].ports| > 1 && p + Rest(v, e.idx, 0).room <= line.Length
    modifies m.ents`printed, line, scr
    ensures scr.out == old(scr.out) + Text(Hang(pre, Rest(v, e.idx, 0).block))
    ensures At(m, v.(done := Rest(v, e.idx, 0).done)) && Holds(line, Blank(pre))
    decreases v.Open(), 4
  {
    BlankIdempotent(pre);
    ghost var i, room := e.idx, Rest(v, e.idx, 0).room;
    ghost var total := scr.out + Text(Hang(pre, Rest(v, i, 0).block));
    ghost var w, cur := v, pre;
    var k := 0;
    while k < |e.portList| - 1
      invariant k <= |e.portList| - 1 && Holds(line, cur) && |cur| == p && Blank(cur) == Blank(pre)
      invariant w == v.(done := w.done) && w.Good() && w.Open() <= v.Open() && At(m, w)
      invariant Rest(w, i, k).room <= room && scr.out + Text(Hang(cur, Rest(w, i, k).block)) == total
      invariant Rest(w, i, k).done == Rest(v, i, 0).done
    {
      hide *;
      w := PayTurn(m, e, k, '+', line, p, scr, w, cur, room, total);
      cur := Blank(cur);
      k := k + 1;
    }
    w := PayTurn(m, e, k, '\\', line, p, scr, w, cur, room, total);
    RestIsNothing(w, i);
    PaidOff(scr.out, Blank(cur));
  }

  /** show_src_port */
  method ShowSrc(m: Machine, e: Entity, line: array<char>, p: nat, scr: Screen, ghost v: View, ghost pre: string)
    requires At(m, v) && v.Good() && e in m.ents && e.idx < |v.par| && Holds(line, pre) && p == |pre|
    requires p + KidsExtent(v.net, Ports(v, e.idx).0) <= line.Length
    modifies m.ents`printed, line, scr
    ensures scr.out == old(scr.out) + Text(Hang(pre, PortsBlock(v.net, Ports(v, e.idx).0)))
    ensures At(m, v.(done := Ports(v, e.idx).1)) && Holds(line, Blank(pre))
    decreases v.Open(), 5
  {
    EntityAt(m, v, e);
    PortsAre(v, e.idx);
    hide *;
    if |e.portList| == 0 {
      HangOne(pre, "");
      assert pre + "" == pre;
      PrintLine(line, p, scr, pre);
    } else if |e.portList| == 1 {
      ShowPort(m, e, 0, '-', line, p, scr, v, pre);
    } else {
      ShowMany(m, e, line, p, scr, v, pre);
    }
  }

  // ----- the controllers

  ghost predicate InView(v: View, ids: seq<nat>) {
    v.Good() && forall n :: 0 <= n < |ids| ==> ids[n] < |v.par|
  }

  ghost function Trees(v: View, ids: seq<nat>): (Forest, set<nat>)
    requires InView(v, ids)
  {
    VisitAll(v.net, v.par, v.done, ids)
  }

  /** What the controllers `ids` still have to write below a dash or a blank. */
  ghost function Roots(v: View, ids: seq<nat>, only: bool): (s: Shown)
    requires InView(v, ids)
  {
    var r := Trees(v, ids);
    Shown(RootsBlock(v.net, r.0, only), ForestExtent(v.net, r.0), r.1)
  }

  /** One controller, seen from the host mark of its own domain. */
  ghost function Root(v: View, i: nat, joint: char): (s: Shown)
    requires v.Good() && i < |v.par|
    ensures s.block != []
  {
    var r := One(v, i, HOST_PARENT, v.net.ents[i].ubc);
    Shown(Hang([joint], TreeBlock(v.net, r.0)), 2 + TreeExtent(v.net, r.0), r.1)
  }

  lemma {:induction false} RootsAre(v: View, ids: seq<nat>, only: bool, joint: char)
    requires InView(v, ids) && ids != [] && [joint] == Joint(only, |ids| == 1)
    ensures var t := Root(v, ids[0], joint);
      var w := v.(done := t.done);
      && InView(w, ids[1..])
      && Roots(v, ids, only).block == t.block + Roots(w, ids[1..], false).block
      && Roots(v, ids, only).done == Roots(w, ids[1..], false).done
      && t.room <= Roots(v, ids, only).room && Roots(w, ids[1..], false).room <= Roots(v, ids, only).room
  {
  }

  /** One turn of show_topo_ubc. */
  method ShowRoot(m: Machine, e: Entity, joint: char, line: array<char>, scr: Screen, ghost v: View, ghost pre: string)
    requires At(m, v) && v.Good() && e in m.ents && e.idx < |v.par| && Holds(line, pre) && |pre| == 1 && joint != '\0'
    requires Root(v, e.idx, joint).room <= line.Length
    modifies m.ents`printed, line, scr
    ensures scr.out == old(scr.out) + Text(Hang(pre, Root(v, e.idx, joint).block))
    ensures At(m, v.(done := Root(v, e.idx, joint).done)) && Holds(line, Blank(pre))
  {
    EntityAt(m, v, e);
    ghost var b := TreeBlock(v.net, One(v, e.idx, HOST_PARENT, v.net.ents[e.idx].ubc).0);
    assert Root(v, e.idx, joint).block == Hang([joint], b);
    assert Root(v, e.idx, joint).room == 2 + TreeExtent(v.net, One(v, e.idx, HOST_PARENT, e.ubc).0);
    assert Root(v, e.idx, joint).done == One(v, e.idx, HOST_PARENT, e.ubc).1;
    hide *;
    PutJoint(line, 1, joint, pre);
    HangHang(pre, [joint], b);
    ShowOne(m, e, HOST_PARENT, e.ubc, line, 2, scr, v, pre + [joint]);
    HoldsPrefix(line, pre, [joint]);
  }

  /** show_topo_ubc: all controllers, each with the tree below it. */
  method ShowUbcs(m: Machine, ubcs: seq<Entity>, line: array<char>, scr: Screen, ghost v: View)
    requires At(m, v) && InView(v, Places(ubcs)) && forall e :: e in ubcs ==> e in m.ents
    requires ForestExtent(v.net, Trees(v, Places(ubcs)).0) <= line.Length
    modifies m.ents`printed, line, scr
    ensures scr.out == old(scr.out) + Text(ForestBlock(v.net, Trees(v, Places(ubcs)).0))
    ensures At(m, v.(done := Trees(v, Places(ubcs)).1))
  {
    ghost var ids := Places(ubcs);
    if |ubcs| == 0 {
      NoForest(v, ids);
      PaidOff(scr.out, "");
      return;
    }
    ForestIs(v, ids);
    PutJoint(line, 0, '-', "");
    assert Holds(line, "-") by {
      assert "" + ['-'] == "-";
    }
    if |ubcs| == 1 {
      RootAlone(v, ids);
      assert v.Good() && ubcs[0] in ubcs && ubcs[0].idx == ids[0] && ids[0] < |v.par|;
      hide *;
      ShowRoot(m, ubcs[0], '-', line, scr, v, "-");
    } else {
      hide *;
      ShowRoots(m, ubcs, line, scr, v);
    }
  }

  lemma NoForest(v: View, ids: seq<nat>)
    requires InView(v, ids) && ids == []
    ensures ForestBlock(v.net, Trees(v, ids).0) == Hang("", []) && Trees(v, ids).1 == v.done
  {
  }

  lemma RootAlone(v: View, ids: seq<nat>)
    requires InView(v, ids) && |ids| == 1
    ensures Roots(v, ids, true) == Root(v, ids[0], '-')
  {
    RootsAre(v, ids, true, '-');
  }

  lemma ForestIs(v: View, ids: seq<nat>)
    requires InView(v, ids) && ids != []
    ensures ForestBlock(v.net, Trees(v, ids).0) == Hang("-", Roots(v, ids, |ids| == 1).block)
    ensures ForestExtent(v.net, Trees(v, ids).0) == Roots(v, ids, |ids| == 1).room >= 2
    ensures Trees(v, ids).1 == Roots(v, ids, |ids| == 1).done
  {
  }

  /** show_topo_ubc for several controllers. */
  method ShowRoots(m: Machine, ubcs: seq<Entity>, line: array<char>, scr: Screen, ghost v: View)
    requires At(m, v) && InView(v, Places(ubcs)) && |ubcs| > 1 && Holds(line, "-")
    requires forall e :: e in ubcs ==> e in m.ents
    requires Roots(v, Places(ubcs), false).room <= line.Length
    modifies m.ents`printed, line, scr
    ensures scr.out == old(scr.out) + Text(Hang("-", Roots(v, Places(ubcs), false).block))
    ensures At(m, v.(done := Roots(v, Places(ubcs), false).done))
  {
    ghost var ids, w, cur := Places(ubcs), v, "-";
    ghost var total, marks := scr.out + Text(Hang("-", Roots(v, ids, false).block)), Roots(v, ids, false).done;
    BlankIdempotent("-");
    var n := 0;
    assert ids[0..] == ids;
    while n < |ubcs| - 1
      invariant n <= |ubcs| - 1 && Holds(line, cur) && |cur| == 1
      invariant w == v.(done := w.done) && InView(w, ids[n..]) && At(m, w)
      invariant Roots(w, ids[n..], false).room <= line.Length && Roots(w, ids[n..], false).done == marks
      invariant scr.out + Text(Hang(cur, Roots(w, ids[n..], false).block)) == total
    {
      w := PayRoot(m, ubcs, n, '+', line, scr, w, cur, total);
      cur := Blank(cur);
      n := n + 1;
    }
    w := PayRoot(m, ubcs, n, '\\', line, scr, w, cur, total);
    PaidOff(scr.out, Blank(cur));
  }

  /** One turn of that loop, and what the controllers owe afterwards. */
  method PayRoot(m: Machine, ubcs: seq<Entity>, n: nat, joint: char, line: array<char>, scr: Screen,
                 ghost v: View, ghost pre: string, ghost total: string) returns (ghost w: View)
    requires n < |ubcs| && At(m, v) && InView(v, Places(ubcs)[n..]) && Holds(line, pre) && |pre| == 1
    requires forall e :: e in ubcs ==> e in m.ents
    requires joint == JointChar(n, |ubcs|) && Roots(v, Places(ubcs)[n..], false).room <= line.Length
    requires scr.out + Text(Hang(pre, Roots(v, Places(ubcs)[n..], false).block)) == total
    modifies m.ents`printed, line, scr
    ensures w == v.(done := w.done) && InView(w, Places(ubcs)[n + 1..]) && At(m, w) && Holds(line, Blank(pre))
    ensures Roots(w, Places(ubcs)[n + 1..], false).room <= line.Length
    ensures Roots(w, Places(ubcs)[n + 1..], false).done == Roots(v, Places(ubcs)[n..], false).done
    ensures scr.out + Text(Hang(Blank(pre), Roots(w, Places(ubcs)[n + 1..], false).block)) == total
    ensures n + 1 == |ubcs| ==> Roots(w, Places(ubcs)[n + 1..], false) == Shown([], 0, w.done)
  {
    ghost var ids := Places(ubcs)[n..];
    ghost var t := Root(v, ids[0], joint);
    w := v.(done := t.done);
    assert ids[1..] == Places(ubcs)[n + 1..];
    RootsAre(v, ids, false, joint);
    Pays(scr.out, pre, t.block, Roots(w, ids[1..], false).block, total);
    assert n + 1 == |ubcs| ==> Roots(w, ids[1..], false) == Shown([], 0, w.done);
    assert ubcs[n] in ubcs && ubcs[n].idx == ids[0] && joint != '\0' && v.Good() && ids[0] < |v.par|;
    hide *;
    ShowRoot(m, ubcs[n], joint, line, scr, v, pre);
  }

  // ----- show_topo

  /** The forest that the program draws for a network. */
  ghost function Drawn(net: Net): Forest
    requires Wf(net)
  {
    VisitAll(net, S.ParentsOf(net), {}, X.ControllerIds(net)).0
  }

  /** The parent chains are short enough for the line buffer. */
  ghost predicate FitsBuffer(net: Net) {
    D.ChainsFit(net, S.ParentsOf(net))
  }

  /** Then, and only then, the drawing stays inside the buffer. */
  lemma {:induction false} FitsIff(net: Net)
    requires Wf(net) && UniqueNums(net) && SmallPortNums(net)
    ensures FitsBuffer(net) <==> ForestExtent(net, Drawn(net)) <= Extent.LINE_BUF
  {
    S.ParentsSettle(net);
    D.FitsIffChainsFit(net, S.ParentsOf(net), X.ControllerIds(net));
  }

  /** The program expands exactly the entities that a controller of their own domain reaches. */
  lemma ExpandsReachable(net: Net)
    requires Wf(net) && UniqueNums(net)
    ensures forall i: nat :: i in VisitAll(net, S.ParentsOf(net), {}, X.ControllerIds(net)).1 <==>
      i < |net.ents| && P.Reachable(net, i)
    ensures forall i: nat :: X.ForestOpens(Drawn(net))[i] == if i < |net.ents| && P.Reachable(net, i) then 1 else 0
  {
    var par := S.ParentsOf(net);
    S.ParentsSettle(net);
    X.ExpandsEachAssignedOnce(net, par, X.ControllerIds(net));
    forall i: nat
      ensures i in P.Assigned(par) <==> i < |net.ents| && P.Reachable(net, i)
    {
      if i < |par| {
        P.AssignedIffReachable(net, par, i);
      }
    }
  }

  /** The network that the direct_link lines describe. */
  ghost function Described(net: Net, links: seq<seq<Option<G.Line>>>): (r: Net)
    requires L.NoPorts(net) && |links| == |net.ents|
    ensures Wf(r) && SmallPortNums(r) && |r.ents| == |net.ents| && (UniqueNums(net) ==> UniqueNums(r))
  {
    var ds := G.Decls(links, |links|);
    G.DeclsInRange(net.ents, links, |links|);
    G.DeclsSmall(links, |links|);
    L.RunKeepsWf(net, ds);
    L.RunLists(net, ds);
    L.Run(net, ds)
  }

  /** For symmetric data the drawing fits exactly when no parent chain has more than 101 entities. */
  lemma {:induction false} FitsIffShallow(net: Net, links: seq<seq<Option<G.Line>>>)
    requires L.NoPorts(net) && UniqueNums(net) && |links| == |net.ents|
    requires L.Symmetric(net.ents, G.Decls(links, |links|))
    ensures var full := Described(net, links);
      FitsBuffer(full) <==> D.ChainsWithin(full, S.ParentsOf(full), 101)
  {
    var full := Described(net, links);
    G.DeclsInRange(net.ents, links, |links|);
    L.SymmetricLinksAreInvolution(net, G.Decls(links, |links|));
    D.MutualFitsIff(full, S.ParentsOf(full));
  }

  /**
   * show_topo: read the links, hand out the parents, draw. What reaches standard output is the
   * drawing of the described network, and the entities expanded are those that a controller of
   * their own domain reaches.
   */
  method ShowTopo(m: Machine, links: seq<seq<Option<G.Line>>>, scr: Screen, ghost net: Net)
    requires m.Models(net) && L.NoPorts(net) && UniqueNums(net) && |links| == |m.ents| == |net.ents|
    requires forall e :: e in m.ents ==> e.par == INIT_PARENT && !e.scanned && !e.printed
    requires FitsBuffer(Described(net, links))
    modifies m`ports, m`pool, m.ents, m.pool`link, scr
    ensures var full := Described(net, links); scr.out == old(scr.out) + Text(ForestBlock(full, Drawn(full)))
    ensures forall i: nat :: i < |m.ents| ==> (m.ents[i].printed <==> P.Reachable(Described(net, links), i))
  {
    ghost var full := Described(net, links);
    var ubcs := G.Grow(m, links, net);
    ghost var v := View(full, m.Pars(), {});
    ReadyToDraw(m, v, Places(ubcs));
    ExpandsReachable(full);
    FitsIff(full);
    assert |full.ents| == |m.ents|;
    hide *;
    Draw(m, ubcs, scr, v);
  }

  /** The drawing part of show_topo, with its own line buffer. */
  method Draw(m: Machine, ubcs: seq<Entity>, scr: Screen, ghost v: View)
    requires At(m, v) && InView(v, Places(ubcs)) && forall e :: e in ubcs ==> e in m.ents
    requires ForestExtent(v.net, VisitAll(v.net, v.par, v.done, Places(ubcs)).0) <= Extent.LINE_BUF
    modifies m.ents`printed, scr
    ensures scr.out == old(scr.out) + Text(ForestBlock(v.net, VisitAll(v.net, v.par, v.done, Places(ubcs)).0))
    ensures forall i: nat :: i < |m.ents| ==>
      (m.ents[i].printed <==> i in VisitAll(v.net, v.par, v.done, Places(ubcs)).1)
  {
    var line := new char[2048];
    ShowUbcs(m, ubcs, line, scr, v);
    DoneIsPrinted(m, v.(done := Trees(v, Places(ubcs)).1));
    hide *;
  }

  lemma DoneIsPrinted(m: Machine, v: View)
    requires At(m, v)
    ensures forall i: nat :: i < |m.ents| ==> (m.ents[i].printed <==> i in v.done)
  {
  }

  lemma ReadyToDraw(m: Machine, v: View, ids: seq<nat>)
    requires m.Models(v.net) && Wf(v.net) && v.par == m.Pars() && v.done == {}
    requires X.Controllers(v.net, ids) && forall e :: e in m.ents ==> !e.printed
    ensures At(m, v) && InView(v, ids) && Trees(v, ids) == VisitAll(v.net, v.par, {}, ids)
  {
    assert m.Printed() == {};
  }
}
