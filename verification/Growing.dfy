/** grow_topo (lsub/topo.c:69-104) and the reading of direct_link lines (lib/sysfs.c:281-313). */
module Growing {
  import opened Wrappers
  import opened Network
  import opened Topology
  import L = Linking
  import S = Scanning
  import X = Expansion

  /** The three numbers of a direct_link line, in the order they are read. */
  datatype Line = Line(port: PortNum, peerPort: PortNum, peerEnt: EntNum)

  /** The declaration a line makes for entity `ent`; a line with a syntax error makes none. */
  function LineDecl(line: Option<Line>, ent: nat): seq<L.Decl> {
    match line
    case None => []
    case Some(l) => [L.Decl(ent, l.port, l.peerEnt, l.peerPort)]
  }

  /** The declarations of the first `n` lines of entity `ent`. */
  function LineDecls(lines: seq<Option<Line>>, ent: nat, n: nat): seq<L.Decl>
    requires n <= |lines|
  {
    if n == 0 then [] else LineDecls(lines, ent, n - 1) + LineDecl(lines[n - 1], ent)
  }

  lemma LineDeclsSnoc(ds: seq<L.Decl>, lines: seq<Option<Line>>, ent: nat, n: nat)
    requires n < |lines|
    ensures ds + LineDecls(lines, ent, n) + LineDecl(lines[n], ent) == ds + LineDecls(lines, ent, n + 1)
  {
  }

  /** The declarations of the first `n` devices, in the order they are inserted. */
  function Decls(links: seq<seq<Option<Line>>>, n: nat): seq<L.Decl>
    requires n <= |links|
  {
    if n == 0 then [] else Decls(links, n - 1) + LineDecls(links[n - 1], n - 1, |links[n - 1]|)
  }

  lemma {:induction false} LineDeclsInRange(ents: seq<Ent>, lines: seq<Option<Line>>, ent: nat, n: nat)
    requires n <= |lines| && ent < |ents|
    ensures L.InRange(ents, LineDecls(lines, ent, n))
  {
    if n > 0 {
      LineDeclsInRange(ents, lines, ent, n - 1);
    }
  }

  lemma {:induction false} DeclsInRange(ents: seq<Ent>, links: seq<seq<Option<Line>>>, n: nat)
    requires n <= |links| == |ents|
    ensures L.InRange(ents, Decls(links, n))
  {
    if n > 0 {
      DeclsInRange(ents, links, n - 1);
      LineDeclsInRange(ents, links[n - 1], n - 1, |links[n - 1]|);
    }
  }

  /** How many of the first `n` lines are well formed. */
  function Count(lines: seq<Option<Line>>, n: nat): nat
    requires n <= |lines|
  {
    if n == 0 then 0 else Count(lines, n - 1) + if lines[n - 1].Some? then 1 else 0
  }

  function CountAll(links: seq<seq<Option<Line>>>, n: nat): nat
    requires n <= |links|
  {
    if n == 0 then 0 else CountAll(links, n - 1) + Count(links[n - 1], |links[n - 1]|)
  }

  lemma {:induction false} LineDeclAt(lines: seq<Option<Line>>, ent: nat, n: nat, k: nat)
    requires k < n <= |lines|
    ensures |LineDecls(lines, ent, n)| == Count(lines, n) && Count(lines, k) <= Count(lines, n)
    ensures lines[k].Some? ==>
      && Count(lines, k) < Count(lines, n)
      && LineDecls(lines, ent, n)[Count(lines, k)] ==
           L.Decl(ent, lines[k].value.port, lines[k].value.peerEnt, lines[k].value.peerPort)
  {
    if k < n - 1 {
      LineDeclAt(lines, ent, n - 1, k);
    } else if n > 1 {
      LineDeclAt(lines, ent, n - 1, n - 2);
    }
  }

  lemma {:induction false} LineDeclCount(lines: seq<Option<Line>>, ent: nat, n: nat)
    requires n <= |lines|
    ensures |LineDecls(lines, ent, n)| == Count(lines, n)
  {
    if n > 0 {
      LineDeclAt(lines, ent, n, n - 1);
    }
  }

  /**
   * Each well-formed line makes one declaration, device by device and line by line, with its own port
   * first, then the peer's entity and port; no other declaration is made.
   */
  lemma {:induction false} DeclIsAt(links: seq<seq<Option<Line>>>, n: nat, i: nat, k: nat)
    requires i < n <= |links| && k < |links[i]|
    ensures |Decls(links, n)| == CountAll(links, n)
    ensures links[i][k].Some? ==>
      && CountAll(links, i) + Count(links[i], k) < CountAll(links, n)
      && Decls(links, n)[CountAll(links, i) + Count(links[i], k)] ==
           L.Decl(i, links[i][k].value.port, links[i][k].value.peerEnt, links[i][k].value.peerPort)
  {
    hide LineDecls, Count, LineDecl;
    DeclCount(links, n - 1);
    LineDeclCount(links[n - 1], n - 1, |links[n - 1]|);
    if i < n - 1 {
      DeclIsAt(links, n - 1, i, k);
    } else {
      LineDeclAt(links[i], i, |links[i]|, k);
    }
  }

  lemma {:induction false} DeclCount(links: seq<seq<Option<Line>>>, n: nat)
    requires n <= |links|
    ensures |Decls(links, n)| == CountAll(links, n)
  {
    if n > 0 {
      DeclCount(links, n - 1);
      LineDeclCount(links[n - 1], n - 1, |links[n - 1]|);
    }
  }

  ghost predicate Small(ds: seq<L.Decl>) {
    forall k :: 0 <= k < |ds| ==> ds[k].port < PORT_NUMS
  }

  lemma {:induction false} LineDeclsSmall(lines: seq<Option<Line>>, ent: nat, n: nat)
    requires n <= |lines|
    ensures Small(LineDecls(lines, ent, n))
  {
    if n > 0 {
      LineDeclsSmall(lines, ent, n - 1);
    }
  }

  lemma {:induction false} DeclsSmall(links: seq<seq<Option<Line>>>, n: nat)
    requires n <= |links|
    ensures Small(Decls(links, n))
  {
    if n > 0 {
      DeclsSmall(links, n - 1);
      LineDeclsSmall(links[n - 1], n - 1, |links[n - 1]|);
    }
  }

  lemma RunSnoc(net: Net, ds: seq<L.Decl>, d: L.Decl)
    requires L.InRange(net.ents, ds) && d.ent < |net.ents|
    ensures L.InRange(net.ents, ds + [d]) && L.Run(net, ds + [d]) == L.AllocPort(L.Run(net, ds), d)
  {
    assert (ds + [d])[..|ds|] == ds;
  }

  method ReadLine(m: Machine, e: Entity, line: Option<Line>, ghost net: Net, ghost ds: seq<L.Decl>)
    requires e in m.ents && L.InRange(net.ents, ds) && m.Models(L.Run(net, ds))
    modifies m`ports, m`pool, e`portList, m.pool`link
    ensures fresh(m.pool - old(m.pool))
    ensures e.idx < |net.ents| && L.InRange(net.ents, ds + LineDecl(line, e.idx))
    ensures m.Models(L.Run(net, ds + LineDecl(line, e.idx)))
  {
    ghost var i := m.Place(e, L.Run(net, ds));
    if line.Some? {
      var l := line.value;
      RunSnoc(net, ds, L.Decl(i, l.port, l.peerEnt, l.peerPort));
      m.AllocPort(e, l.port, l.peerEnt, l.peerPort, L.Run(net, ds));
    } else {
      assert ds + [] == ds;
    }
  }

  /** sysfs_get_direct_link: one port per well-formed line. */
  method ReadLinks(m: Machine, e: Entity, lines: seq<Option<Line>>, ghost net: Net, ghost ds: seq<L.Decl>)
    requires e in m.ents && L.InRange(net.ents, ds) && m.Models(L.Run(net, ds))
    modifies m`ports, m`pool, e`portList, m.pool`link
    ensures fresh(m.pool - old(m.pool))
    ensures e.idx < |net.ents| && L.InRange(net.ents, ds + LineDecls(lines, e.idx, |lines|))
    ensures m.Models(L.Run(net, ds + LineDecls(lines, e.idx, |lines|)))
  {
    hide Machine.Models, L.Run;
    ghost var i := m.Place(e, L.Run(net, ds));
    ghost var done := ds;
    var n := 0;
    while n < |lines|
      invariant n <= |lines|
      invariant fresh(m.pool - old(m.pool))
      invariant done == ds + LineDecls(lines, i, n)
      invariant L.InRange(net.ents, done) && m.Models(L.Run(net, done))
    {
      ReadLine(m, e, lines[n], net, done);
      LineDeclsSnoc(ds, lines, i, n);
      done := done + LineDecl(lines[n], i);
      n := n + 1;
    }
  }

  /** The parent numbers after the first `n` devices: a host mark for each controller. */
  ghost predicate MarkedBelow(net: Net, par: seq<nat>, n: nat) {
    |par| == |net.ents| && forall i :: 0 <= i < |par| ==>
      par[i] == if i < n && net.ents[i].controller then HOST_PARENT else INIT_PARENT
  }

  /** The controller branch of grow_topo's loop. */
  method Mark(m: Machine, e: Entity, ubcs: seq<Entity>, ghost net: Net, ghost n: nat) returns (longer: seq<Entity>)
    requires n < |m.ents| == |net.ents| && m.ents[n] == e && m.Models(net)
    requires MarkedBelow(net, m.Pars(), n) && Places(ubcs) == X.ControllersBelow(net, n)
    modifies e`par
    ensures MarkedBelow(net, m.Pars(), n + 1) && Places(longer) == X.ControllersBelow(net, n + 1)
    ensures longer == ubcs || longer == ubcs + [e]
  {
    ghost var i := m.Place(e, net);
    m.Numbered(net);
    longer := ubcs;
    if e.IsController() {
      longer := ubcs + [e];
      assert Places(longer) == Places(ubcs) + [n];
      m.SetParent(e, HOST_PARENT, net);
    }
  }

  /** Entities keep their numbers, domains and types while ports are inserted. */
  lemma {:induction false} RunKeepsEnts(net: Net, ds: seq<L.Decl>, par: seq<nat>, n: nat)
    requires L.InRange(net.ents, ds) && n <= |net.ents|
    ensures UniqueNums(net) ==> UniqueNums(L.Run(net, ds))
    ensures MarkedBelow(net, par, n) <==> MarkedBelow(L.Run(net, ds), par, n)
    ensures X.ControllersBelow(net, n) == X.ControllersBelow(L.Run(net, ds), n)
  {
    if n > 0 {
      RunKeepsEnts(net, ds, par, n - 1);
    }
  }

  /** The state of grow_topo's loop after `n` devices. */
  ghost predicate GrownBelow(m: Machine, links: seq<seq<Option<Line>>>, net: Net, ubcs: seq<Entity>, n: nat)
    requires n <= |links| == |net.ents|
    reads m`ports, m`pool, m.ents`portList, m.ports`link, m.ents`par
  {
    && L.InRange(net.ents, Decls(links, n)) && m.Models(L.Run(net, Decls(links, n)))
    && MarkedBelow(net, m.Pars(), n) && Places(ubcs) == X.ControllersBelow(net, n)
  }

  lemma StartsGrown(m: Machine, links: seq<seq<Option<Line>>>, net: Net)
    requires m.Models(net) && |links| == |net.ents| && forall e :: e in m.ents ==> e.par == INIT_PARENT
    ensures GrownBelow(m, links, net, [], 0)
  {
  }

  lemma {:induction false} EndsGrown(m: Machine, links: seq<seq<Option<Line>>>, net: Net, ubcs: seq<Entity>)
    requires |links| == |m.ents| == |net.ents| && UniqueNums(net) && GrownBelow(m, links, net, ubcs, |links|)
    ensures L.InRange(net.ents, Decls(links, |links|))
    ensures var net' := L.Run(net, Decls(links, |links|));
      m.Models(net') && UniqueNums(net') && m.Pars() == S.Start(net').par && Places(ubcs) == X.ControllerIds(net')
  {
    hide Machine.Models;
    RunKeepsEnts(net, Decls(links, |links|), m.Pars(), |links|);
  }

  /** The body of grow_topo's loop. */
  method GrowOne(m: Machine, links: seq<seq<Option<Line>>>, ubcs: seq<Entity>, n: nat, ghost net: Net)
    returns (longer: seq<Entity>)
    requires n < |links| == |m.ents| == |net.ents| && GrownBelow(m, links, net, ubcs, n)
    modifies m`ports, m`pool, m.ents`portList, m.pool`link, m.ents`par
    ensures fresh(m.pool - old(m.pool))
    ensures GrownBelow(m, links, net, longer, n + 1)
    ensures longer == ubcs || longer == ubcs + [m.ents[n]]
  {
    hide Machine.Models, L.Run, X.ControllersBelow, MarkedBelow, UniqueNums;
    ghost var ds := Decls(links, n);
    m.Numbered(L.Run(net, ds));
    RunKeepsEnts(net, ds, m.Pars(), n);
    longer := Mark(m, m.ents[n], ubcs, L.Run(net, ds), n);
    RunKeepsEnts(net, ds, m.Pars(), n + 1);
    ReadLinks(m, m.ents[n], links[n], net, ds);
  }

  /** grow_topo: list and mark the controllers, read every direct_link file, then hand out parents. */
  method Grow(m: Machine, links: seq<seq<Option<Line>>>, ghost net: Net) returns (ubcs: seq<Entity>)
    requires m.Models(net) && L.NoPorts(net) && UniqueNums(net) && |links| == |m.ents| == |net.ents|
    requires forall e :: e in m.ents ==> e.par == INIT_PARENT && !e.scanned
    modifies m`ports, m`pool, m.ents`portList, m.pool`link, m.ents`par, m.ents`scanned
    ensures L.InRange(net.ents, Decls(links, |links|))
    ensures var net' := L.Run(net, Decls(links, |links|));
      m.Models(net') && m.Pars() == S.ParentsOf(net') && Places(ubcs) == X.ControllerIds(net')
    ensures forall e :: e in ubcs ==> e in m.ents
  {
    hide Machine.Models, L.Run, GrownBelow, X.ControllerIds, UniqueNums, S.ScanAll, S.Start;
    StartsGrown(m, links, net);
    ubcs := [];
    var n := 0;
    while n < |m.ents|
      invariant n <= |m.ents| && fresh(m.pool - old(m.pool))
      invariant GrownBelow(m, links, net, ubcs, n)
      invariant forall e :: e in ubcs ==> e in m.ents
      invariant forall e :: e in m.ents ==> !e.scanned
    {
      ubcs := GrowOne(m, links, ubcs, n, net);
      n := n + 1;
    }
    EndsGrown(m, links, net, ubcs);
    m.Numbered(L.Run(net, Decls(links, n)));
    assert Places(m.ents) == S.InOrder(|m.ents|);
    assert m.Scanned() == {};
    m.PresetAll(m.ents, L.Run(net, Decls(links, n)));
  }
}
