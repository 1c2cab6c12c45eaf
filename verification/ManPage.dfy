/** The example of the manual page (lsub.man:25-39), drawn. */
module ManPage {
  import opened Wrappers
  import opened Network
  import opened Layout
  import opened Drawing
  import H = Hex
  import L = Linking
  import P = Parents
  import G = Growing
  import S = Scanning
  import X = Expansion

  /** Controller 00001 with ports 001 and 000, listed newest first, each linked to port 000 of another entity. */
  const NET: Net := Net(
    [Ent(1, 1, true, [1, 0]), Ent(2, 1, false, [2]), Ent(3, 1, false, [3])],
    [Port(1, 0, Some(3)), Port(0, 0, Some(2)), Port(0, 1, Some(1)), Port(0, 2, Some(0))])

  const PARENTS: seq<nat> := [HOST_PARENT, 1, 1]

  const TREE: Tree :=
    Opened(0, Linked(1, 2, Opened(1, Linked(2, 1, Quoted(0), Done)),
              Linked(0, 3, Opened(2, Linked(3, 0, Quoted(0), Done)), Done)))

  lemma Numbers()
    ensures H.Print(0, 3) == "000" && H.Print(1, 3) == "001"
    ensures H.Print(1, 5) == "00001" && H.Print(2, 5) == "00002" && H.Print(3, 5) == "00003"
  {
    assert H.Print(0, 0) == "";
    assert H.Print(0, 1) == "0";
    assert H.Print(0, 2) == "00";
    assert H.Print(0, 3) == "000";
    assert H.Print(0, 4) == "0000";
  }

  /** The pieces of text. */
  lemma Pieces()
    ensures QuotedText(NET, 0) == "-\"00001\"" && OpenedText(NET, 0) == "-[00001]-"
    ensures OpenedText(NET, 1) == "-[00002]-" && OpenedText(NET, 2) == "-[00003]-"
    ensures SrcText(NET, 0) == "-001-" && SrcText(NET, 1) == "-000-" && SrcText(NET, 2) == "-000-"
      && SrcText(NET, 3) == "-000-"
    ensures DstText(NET, 0) == "001--" && DstText(NET, 1) == "000--" && DstText(NET, 2) == "000--"
      && DstText(NET, 3) == "000--"
  {
    Numbers();
    assert EntHex(NET, 0) == "00001" && EntHex(NET, 1) == "00002" && EntHex(NET, 2) == "00003";
    assert PortHex(NET, 0) == "001" && PortHex(NET, 1) == "000" && PortHex(NET, 2) == "000" && PortHex(NET, 3) == "000";
  }

  lemma HangOne(p: string, s: string, t: string)
    requires p + s == t
    ensures Hang(p, [s]) == [t]
  {
  }

  lemma HangTwo(p: string, s: string, t: string, u: string, v: string)
    requires p + s == u && Blank(p) + t == v
    ensures Hang(p, [s, t]) == [u, v]
  {
  }

  /** One linked port whose far end takes one line. */
  lemma {:induction false} OneKid(src: nat, dst: nat, sub: Tree, only: bool, last: bool, rest: Kids, b: string,
                                  row: string)
    requires TreeBlock(NET, sub) == [b] && rest.Done? == last
    requires row == Joint(only, last) + SrcText(NET, src) + DstText(NET, dst) + b
    ensures KidsBlock(NET, Linked(src, dst, sub, rest), only) == [row] + KidsBlock(NET, rest, false)
  {
    hide SrcText, DstText, Hang, TreeBlock, Joint;
    HangOne(DstText(NET, dst), b, DstText(NET, dst) + b);
    assert Joint(only, last) + SrcText(NET, src) + (DstText(NET, dst) + b) == row;
    HangOne(Joint(only, last) + SrcText(NET, src), DstText(NET, dst) + b, row);
  }

  /** A leaf below an only port. */
  lemma Branch(e: nat, src: nat, dst: nat, head: string, tail: string, row: string)
    requires head == OpenedText(NET, e) && row == head + tail
    requires tail == "-" + SrcText(NET, src) + DstText(NET, dst) + QuotedText(NET, 0)
    ensures TreeBlock(NET, Opened(e, Linked(src, dst, Quoted(0), Done))) == [row]
  {
    hide OpenedText, SrcText, DstText, QuotedText, Hang;
    assert KidsBlock(NET, Done, false) == [];
    OneKid(src, dst, Quoted(0), true, true, Done, QuotedText(NET, 0), tail);
    assert [tail] + [] == [tail];
    HangOne(head, tail, row);
  }

  /** The two lines of the manual page: the controller's column, the branch, the entity below it. */
  lemma Drawn()
    ensures ForestBlock(NET, Root(TREE, Empty)) ==
      ["---[00001]-" + ("+-000-000--" + "-[00002]---000-000---\"00001\""),
       "           " + ("\\-001-000--" + "-[00003]---000-001---\"00001\"")]
  {
    Pieces();
    hide TreeBlock, KidsBlock, ForestBlock, QuotedText, OpenedText, SrcText, DstText;
    var b1, b2 := "-[00002]---000-000---\"00001\"", "-[00003]---000-001---\"00001\"";
    Branch(1, 2, 1, "-[00002]-", "--000-000---\"00001\"", b1);
    Branch(2, 3, 0, "-[00003]-", "--000-001---\"00001\"", b2);
    var last := Linked(0, 3, Opened(2, Linked(3, 0, Quoted(0), Done)), Done);
    var k1, k2 := "+-000-000--" + b1, "\\-001-000--" + b2;
    Rows(last, b1, b2, k1, k2);
    Stacked(k1, k2);
  }

  lemma Stacked(k1: string, k2: string)
    requires KidsBlock(NET, TREE.kids, false) == [k1, k2]
    ensures ForestBlock(NET, Root(TREE, Empty)) == ["---[00001]-" + k1, "           " + k2]
  {
    Pieces();
    hide KidsBlock, OpenedText, Hang;
    var t1, t2 := "-[00001]-" + k1, "         " + k2;
    assert Blank("-[00001]-") == "         " && Blank("-") == " ";
    HangTwo("-[00001]-", k1, k2, t1, t2);
    assert TreeBlock(NET, TREE) == [t1, t2];
    HangTwo("-", t1, t2, "-" + t1, " " + t2);
    assert RootsBlock(NET, Empty, false) == [];
    assert ["-" + t1, " " + t2] + [] == ["-" + t1, " " + t2];
    assert RootsBlock(NET, Root(TREE, Empty), true) == ["-" + t1, " " + t2];
    HangTwo("-", "-" + t1, " " + t2, "---[00001]-" + k1, "           " + k2);
  }

  lemma Rows(last: Kids, b1: string, b2: string, k1: string, k2: string)
    requires last == TREE.kids.rest && k1 == "+-000-000--" + b1 && k2 == "\\-001-000--" + b2
    requires TreeBlock(NET, TREE.kids.sub) == [b1] && TreeBlock(NET, last.sub) == [b2]
    ensures KidsBlock(NET, TREE.kids, false) == [k1, k2]
  {
    Pieces();
    hide TreeBlock, SrcText, DstText, OpenedText, QuotedText;
    assert KidsBlock(NET, Done, false) == [];
    OneKid(0, 3, last.sub, false, true, Done, b2, k2);
    OneKid(1, 2, TREE.kids.sub, false, false, last, b1, k1);
    assert [k1] + ([k2] + []) == [k1, k2];
  }

  lemma Sound()
    ensures Wf(NET) && |PARENTS| == |NET.ents|
  {
    assert WfList(NET, 0) && WfList(NET, 1) && WfList(NET, 2);
    assert NET.ents[0].ports[0] == 1 && NET.ents[0].ports[1] == 0 && NET.ents[1].ports[0] == 2
      && NET.ents[2].ports[0] == 3;
  }

  /** A leaf entity, reached from the controller, quotes it. */
  lemma LeafVisit(done: set<nat>, e: nat)
    requires (e == 1 || e == 2) && 0 in done && e !in done && Wf(NET)
    ensures Visit(NET, PARENTS, done, e, 1, 1) ==
      (Opened(e, Linked(e + 1, 2 - e, Quoted(0), Done)), done + {e})
  {
    var d := done + {e};
    assert VisitPorts(NET, PARENTS, d, e, 1) == (Done, d);
    assert Visit(NET, PARENTS, d, 0, e + 1, 1) == (Quoted(0), d);
    assert NET.ents[e].ports[0] == e + 1 && NET.ports[e + 1].link == Some(2 - e) && NET.ports[2 - e].owner == 0;
    assert VisitPorts(NET, PARENTS, d, e, 0) == (Linked(e + 1, 2 - e, Quoted(0), Done), d);
  }

  /** The traversal walks that tree. */
  lemma Walked()
    ensures Wf(NET) && |PARENTS| == |NET.ents|
    ensures VisitAll(NET, PARENTS, {}, [0]).0 == Root(TREE, Empty)
  {
    Sound();
    LeafVisit({0}, 1);
    LeafVisit({0, 1}, 2);
    assert {0} + {1} == {0, 1} && {0, 1} + {2} == {0, 1, 2} && {} + {0} == {0};
    assert VisitPorts(NET, PARENTS, {0, 1, 2}, 0, 2) == (Done, {0, 1, 2});
    assert VisitPorts(NET, PARENTS, {0, 1}, 0, 1).0 == TREE.kids.rest;
    assert VisitPorts(NET, PARENTS, {0}, 0, 0).0 == TREE.kids;
    assert Visit(NET, PARENTS, {}, 0, HOST_PARENT, 1).0 == TREE;
    assert [0][1..] == [];
  }

  // ----- from the direct_link lines on

  /** The entities before their ports are read. */
  const BARE: Net := Net([Ent(1, 1, true, []), Ent(2, 1, false, []), Ent(3, 1, false, [])], [])

  /** The direct_link files, the controller's port 001 in the first line. */
  const LINKS: seq<seq<Option<G.Line>>> :=
    [[Some(G.Line(1, 0, 3)), Some(G.Line(0, 0, 2))], [Some(G.Line(0, 0, 1))], [Some(G.Line(0, 1, 1))]]

  const DECLS: seq<L.Decl> := [L.Decl(0, 1, 3, 0), L.Decl(0, 0, 2, 0), L.Decl(1, 0, 1, 0), L.Decl(2, 0, 1, 1)]

  lemma LinesDeclare()
    ensures G.Decls(LINKS, 3) == DECLS
  {
    assert G.LineDecls(LINKS[0], 0, 1) == DECLS[..1] && G.LineDecls(LINKS[0], 0, 2) == DECLS[..2];
    assert G.LineDecls(LINKS[1], 1, 1) == [DECLS[2]] && G.LineDecls(LINKS[2], 2, 1) == [DECLS[3]];
    assert G.Decls(LINKS, 1) == DECLS[..2] && G.Decls(LINKS, 2) == DECLS[..3];
  }

  lemma Finds(ents: seq<Ent>)
    requires |ents| == 3 && ents[0].num == 1 && ents[1].num == 2 && ents[2].num == 3
    ensures L.FindEnt(ents, 1) == Some(0) && L.FindEnt(ents, 2) == Some(1) && L.FindEnt(ents, 3) == Some(2)
  {
    L.FindEntFinds(ents, 1, 0);
    L.FindEntFinds(ents, 2, 1);
    L.FindEntFinds(ents, 3, 2);
  }

  /** One insertion, written out. */
  lemma Inserts(net: Net, d: L.Decl, peer: Option<nat>, list: seq<nat>, ents: seq<Ent>, ports: seq<Port>)
    requires d.ent < |net.ents| && L.Target(net, d.peerEnt, d.peerPort) == peer
    requires list == [|net.ports|] + net.ents[d.ent].ports && ents == net.ents[d.ent := net.ents[d.ent].(ports := list)]
    requires ports == (if peer.None? then net.ports
                       else net.ports[peer.value := net.ports[peer.value].(link := Some(|net.ports|))])
                      + [Port(d.port, d.ent, peer)]
    ensures L.AllocPort(net, d) == Net(ents, ports)
  {
  }

  const AFTER1: Net := Net([Ent(1, 1, true, [0]), Ent(2, 1, false, []), Ent(3, 1, false, [])], [Port(1, 0, None)])

  const AFTER2: Net :=
    Net([Ent(1, 1, true, [1, 0]), Ent(2, 1, false, []), Ent(3, 1, false, [])], [Port(1, 0, None), Port(0, 0, None)])

  const AFTER3: Net :=
    Net([Ent(1, 1, true, [1, 0]), Ent(2, 1, false, [2]), Ent(3, 1, false, [])],
        [Port(1, 0, None), Port(0, 0, Some(2)), Port(0, 1, Some(1))])

  lemma Insertions()
    ensures L.AllocPort(BARE, DECLS[0]) == AFTER1 && L.AllocPort(AFTER1, DECLS[1]) == AFTER2
    ensures L.AllocPort(AFTER2, DECLS[2]) == AFTER3 && L.AllocPort(AFTER3, DECLS[3]) == NET
  {
    Finds(BARE.ents);
    Finds(AFTER1.ents);
    Finds(AFTER2.ents);
    Finds(AFTER3.ents);
    assert L.FindPort(AFTER3.ports, [1, 0][1..], 1) == Some(0);
    Inserts(BARE, DECLS[0], None, [0], AFTER1.ents, AFTER1.ports);
    Inserts(AFTER1, DECLS[1], None, [1, 0], AFTER2.ents, AFTER2.ports);
    Inserts(AFTER2, DECLS[2], Some(1), [2], AFTER3.ents, AFTER3.ports);
    Inserts(AFTER3, DECLS[3], Some(0), [3], NET.ents, NET.ports);
  }

  /** The lines link the example's ports. */
  lemma Described()
    ensures G.Decls(LINKS, 3) == DECLS && L.InRange(BARE.ents, DECLS) && L.Run(BARE, DECLS) == NET
  {
    LinesDeclare();
    Insertions();
    hide L.AllocPort;
    assert DECLS[..1][..0] == DECLS[..0] && DECLS[..2][..1] == DECLS[..1] && DECLS[..3][..2] == DECLS[..2];
    assert L.Run(BARE, DECLS[..0]) == BARE;
    assert L.Run(BARE, DECLS[..1]) == AFTER1;
    assert L.Run(BARE, DECLS[..2]) == AFTER2;
    assert L.Run(BARE, DECLS[..3]) == AFTER3;
  }

  lemma OffersNothing(par: seq<nat>, i: nat)
    requires |par| == 3 && i < 3 && par[0] != INIT_PARENT && (i == 0 ==> par[1] != INIT_PARENT && par[2] != INIT_PARENT)
    ensures S.OfferBelow(NET, par, i, |NET.ents[i].ports|) == par
  {
    assert S.OfferBelow(NET, par, i, 0) == par;
    assert S.OfferBelow(NET, par, i, 1) == par;
  }

  lemma FirstScan()
    ensures S.ScanOne(NET, S.Start(NET), 0) == S.Scan(PARENTS, {0})
  {
    var par := S.Start(NET).par;
    assert par == [HOST_PARENT, INIT_PARENT, INIT_PARENT];
    assert S.OfferBelow(NET, par, 0, 0) == par;
    assert S.OfferBelow(NET, par, 0, 1) == [HOST_PARENT, 1, INIT_PARENT];
    assert S.OfferBelow(NET, par, 0, 2) == PARENTS;
  }

  /** One pass over the three devices. */
  lemma {:induction false} PassIs(s: S.Scan)
    requires |s.par| == 3
    ensures S.Devices(NET, S.InOrder(3))
    ensures S.Pass(NET, s, S.InOrder(3)) == S.ScanOne(NET, S.ScanOne(NET, S.ScanOne(NET, s, 0), 1), 2)
  {
    var devs := S.InOrder(3);
    S.PassSnoc(NET, s, devs, 0);
    S.PassSnoc(NET, s, devs, 1);
    S.PassSnoc(NET, s, devs, 2);
    assert devs[..3] == devs && devs[..0] == [];
    hide S.ScanOne;
  }

  /** The first pass gives both entities the controller as their parent, the second changes nothing. */
  lemma Scanned()
    ensures S.ParentsOf(NET) == PARENTS && X.ControllerIds(NET) == [0]
  {
    var s, done := S.Start(NET), S.Scan(PARENTS, {0, 1, 2});
    OffersNothing(PARENTS, 1);
    OffersNothing(PARENTS, 2);
    FirstScan();
    PassIs(s);
    PassIs(done);
    assert S.ScanOne(NET, S.Scan(PARENTS, {0}), 1) == S.Scan(PARENTS, {0, 1});
    assert S.ScanOne(NET, S.Scan(PARENTS, {0, 1}), 2) == done;
    assert s.par != PARENTS by {
      assert s.par[1] == INIT_PARENT;
    }
    hide S.OfferBelow, S.Pass;
    assert S.Pass(NET, done, S.InOrder(3)) == done;
    assert S.ScanAll(NET, done, S.InOrder(3)) == done;
    assert X.ControllersBelow(NET, 0) == [];
    assert X.ControllersBelow(NET, 1) == [0];
    assert X.ControllersBelow(NET, 2) == [0];
  }

  /** So the example's lines are printed as the manual page shows them. */
  lemma {:induction false} Example()
    ensures L.InRange(BARE.ents, G.Decls(LINKS, 3)) && Wf(L.Run(BARE, G.Decls(LINKS, 3)))
    ensures var net := L.Run(BARE, G.Decls(LINKS, 3));
      Text(ForestBlock(net, VisitAll(net, S.ParentsOf(net), {}, X.ControllerIds(net)).0)) ==
        "---[00001]-" + ("+-000-000--" + "-[00002]---000-000---\"00001\"") + "\n" +
        ("           " + ("\\-001-000--" + "-[00003]---000-001---\"00001\"")) + "\n"
  {
    hide *;
    Described();
    Walked();
    Scanned();
    Drawn();
    TwoLines("---[00001]-" + ("+-000-000--" + "-[00002]---000-000---\"00001\""),
             "           " + ("\\-001-000--" + "-[00003]---000-001---\"00001\""));
  }

  lemma TwoLines(a: string, b: string)
    ensures Text([a, b]) == a + "\n" + b + "\n"
  {
    assert [a, b][1..] == [b] && [b][1..] == [];
    assert Text([b]) == b + "\n";
  }

  // ----- a first mention in quotes

  /** Two controllers, each of its own domain, linked to each other. */
  const PAIR: Net := Net([Ent(1, 1, true, [0]), Ent(2, 2, true, [1])], [Port(0, 0, Some(1)), Port(0, 1, Some(0))])

  lemma PairIsSound()
    ensures Wf(PAIR) && UniqueNums(PAIR)
  {
    assert WfList(PAIR, 0) && WfList(PAIR, 1);
    assert PAIR.ents[0].ports[0] == 0 && PAIR.ents[1].ports[0] == 1;
  }

  lemma PairControllers()
    ensures X.ControllerIds(PAIR) == [0, 1]
  {
    assert X.ControllersBelow(PAIR, 0) == [];
    assert X.ControllersBelow(PAIR, 1) == [0];
    assert X.ControllersBelow(PAIR, 2) == [0, 1];
  }

  /** Controllers stay under the host mark. */
  lemma ParentsOfControllers(net: Net)
    requires UniqueNums(net)
    ensures forall i :: 0 <= i < |net.ents| && net.ents[i].controller ==> S.ParentsOf(net)[i] == HOST_PARENT
  {
    S.ParentsSettle(net);
    hide S.ParentsOf;
    var rank :| P.Forest(net, S.ParentsOf(net), rank);
    P.ControllersAreHosts(net, S.ParentsOf(net), rank);
  }

  lemma PairParents()
    ensures S.ParentsOf(PAIR) == [HOST_PARENT, HOST_PARENT]
  {
    PairIsSound();
    ParentsOfControllers(PAIR);
    hide S.ParentsOf;
    assert PAIR.ents[0].controller && PAIR.ents[1].controller;
  }

  /**
   * Quotes do not always mean that an entity appears again (lsub.man:32): the second controller is
   * mentioned by the first one in quotes before it is expanded.
   */
  lemma QuotedFirst()
    ensures Wf(PAIR)
    ensures VisitAll(PAIR, S.ParentsOf(PAIR), {}, X.ControllerIds(PAIR)).0 ==
      Root(Opened(0, Linked(0, 1, Quoted(1), Done)), Root(Opened(1, Linked(1, 0, Quoted(0), Done)), Empty))
  {
    PairIsSound();
    PairParents();
    PairControllers();
    hide S.ParentsOf, X.ControllerIds;
    var par := [HOST_PARENT, HOST_PARENT];
    assert PAIR.ents[0].ports[0] == 0 && PAIR.ents[1].ports[0] == 1;
    assert VisitPorts(PAIR, par, {0}, 0, 1) == (Done, {0});
    assert Visit(PAIR, par, {0}, 1, 1, 1) == (Quoted(1), {0});
    assert VisitPorts(PAIR, par, {0}, 0, 0) == (Linked(0, 1, Quoted(1), Done), {0});
    assert {} + {0} == {0};
    assert Visit(PAIR, par, {}, 0, HOST_PARENT, 1) == (Opened(0, Linked(0, 1, Quoted(1), Done)), {0});
    var both := {0} + {1};
    assert VisitPorts(PAIR, par, both, 1, 1) == (Done, both);
    assert Visit(PAIR, par, both, 0, 2, 2) == (Quoted(0), both);
    assert VisitPorts(PAIR, par, both, 1, 0) == (Linked(1, 0, Quoted(0), Done), both);
    assert Visit(PAIR, par, {0}, 1, HOST_PARENT, 2) == (Opened(1, Linked(1, 0, Quoted(0), Done)), both);
    assert [0, 1][1..] == [1] && [1][1..] == [];
  }
}
