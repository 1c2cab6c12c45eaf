/**
 * Which parent an entity gets (lsub/topo.c:29-67), said without the scan: the passes go over the
 * devices in list order, and whoever is scanned first hands out its number.
 */
module FirstServed {
  import opened Wrappers
  import opened Network
  import opened Parents
  import opened Scanning

  /** Entity `q` is scanned before entity `r`: in an earlier pass, or in the same one and listed before it. */
  predicate Earlier(pass: seq<nat>, q: nat, r: nat)
    requires q < |pass| && r < |pass|
  {
    pass[q] < pass[r] || (pass[q] == pass[r] && q < r)
  }

  /** The pass that scans a child: the one that scans its parent when the child is listed behind it, else the next. */
  function ChildPass(pass: seq<nat>, q: nat, i: nat): nat
    requires q < |pass|
  {
    pass[q] + if q < i then 0 else 1
  }

  /** `i` has the number of `q`, the first among its neighbours of the domain to be scanned. */
  ghost predicate Serves(net: Net, par: seq<nat>, pass: seq<nat>, q: nat, i: nat)
    requires |par| == |pass| == |net.ents| && i < |par|
  {
    && q < |par| && Adj(net, q, i) && par[q] != INIT_PARENT
    && par[i] == net.ents[q].num && pass[i] == ChildPass(pass, q, i)
    && forall r: nat :: r < |par| && Adj(net, r, i) && par[r] != INIT_PARENT ==> !Earlier(pass, r, q)
  }

  /** Controllers are scanned in pass 0; every other entity with a parent is served; nobody who could be is left out. */
  ghost predicate AllServed(net: Net, par: seq<nat>, pass: seq<nat>) {
    && |par| == |pass| == |net.ents| && Closed(net, par)
    && forall i: nat :: i < |par| ==> Placed(net, par, pass, i)
  }

  ghost predicate Placed(net: Net, par: seq<nat>, pass: seq<nat>, i: nat)
    requires |par| == |pass| == |net.ents| && i < |par|
  {
    if net.ents[i].controller then par[i] == HOST_PARENT && pass[i] == 0
    else par[i] != INIT_PARENT ==> exists q :: Serves(net, par, pass, q, i)
  }

  // ----- this leaves no choice

  function Rank(pass: seq<nat>): (rank: seq<nat>)
    ensures |rank| == |pass| && forall i :: 0 <= i < |pass| ==> rank[i] == pass[i] * |pass| + i
  {
    seq(|pass|, i requires 0 <= i < |pass| => pass[i] * |pass| + i)
  }

  /** The order of the scans as numbers. */
  lemma EarlierIsLess(pass: seq<nat>, q: nat, r: nat)
    requires q < |pass| && r < |pass|
    ensures Earlier(pass, q, r) <==> Rank(pass)[q] < Rank(pass)[r]
  {
    var n := |pass|;
    if pass[q] < pass[r] {
      Steps(pass[q], pass[r], n);
    } else if pass[r] < pass[q] {
      Steps(pass[r], pass[q], n);
    }
  }

  lemma Steps(a: nat, b: nat, n: nat)
    requires a < b
    ensures a * n + n <= b * n
  {
    assert (b - a - 1) * n >= 0;
    assert b * n == a * n + n + (b - a - 1) * n;
  }

  lemma ServedLater(net: Net, par: seq<nat>, pass: seq<nat>, q: nat, i: nat)
    requires |par| == |pass| == |net.ents| && i < |par| && Serves(net, par, pass, q, i)
    ensures q != i && Earlier(pass, q, i)
  {
  }

  /** Such parent numbers are what a scan may leave. */
  lemma ServedSettles(net: Net, par: seq<nat>, pass: seq<nat>)
    requires AllServed(net, par, pass)
    ensures Settled(net, par)
  {
    var rank := Rank(pass);
    forall i: nat | i < |par|
      ensures Rooted(net, par, rank, i)
    {
      assert Placed(net, par, pass, i);
      if !net.ents[i].controller && par[i] != INIT_PARENT {
        var q :| Serves(net, par, pass, q, i);
        ServedLater(net, par, pass, q, i);
        EarlierIsLess(pass, q, i);
        assert Child(net, par, rank, q, i);
      }
    }
    assert Forest(net, par, rank);
  }

  /** Two ways to serve everyone agree on every entity: the one scanned first agrees, and so on. */
  lemma {:induction false} Agree(net: Net, a: seq<nat>, pa: seq<nat>, b: seq<nat>, pb: seq<nat>, i: nat)
    requires AllServed(net, a, pa) && AllServed(net, b, pb) && Assigned(a) == Assigned(b) && i in Assigned(a)
    ensures a[i] == b[i] && pa[i] == pb[i]
    decreases if Rank(pa)[i] <= Rank(pb)[i] then Rank(pa)[i] else Rank(pb)[i], Rank(pa)[i] > Rank(pb)[i]
  {
    assert Placed(net, a, pa, i) && Placed(net, b, pb, i);
    hide AllServed, Placed, Rank;
    if !net.ents[i].controller {
      if Rank(pa)[i] > Rank(pb)[i] {
        Agree(net, b, pb, a, pa, i);
      } else {
        var q :| Serves(net, a, pa, q, i);
        var r :| Serves(net, b, pb, r, i);
        assert q in Assigned(a) && r in Assigned(b);
        ServedLater(net, a, pa, q, i);
        EarlierIsLess(pa, q, i);
        Agree(net, a, pa, b, pb, q);
        NotLater(net, b, pb, r, q, i);
        AgreeOnRank(pa, pb, q);
        Agree(net, a, pa, b, pb, r);
        AgreeOnRank(pa, pb, r);
        NotLater(net, a, pa, q, r, i);
        RankDecides(pa, q, r);
      }
    }
  }

  /** Who serves is not scanned after anyone else who could. */
  lemma NotLater(net: Net, par: seq<nat>, pass: seq<nat>, q: nat, r: nat, i: nat)
    requires |par| == |pass| == |net.ents| && i < |par| && Serves(net, par, pass, q, i)
    requires r < |par| && Adj(net, r, i) && par[r] != INIT_PARENT
    ensures Rank(pass)[q] <= Rank(pass)[r]
  {
    EarlierIsLess(pass, r, q);
  }

  lemma AgreeOnRank(pa: seq<nat>, pb: seq<nat>, q: nat)
    requires |pa| == |pb| && q < |pa| && pa[q] == pb[q]
    ensures Rank(pa)[q] == Rank(pb)[q]
  {
  }

  lemma RankDecides(pass: seq<nat>, q: nat, r: nat)
    requires q < |pass| && r < |pass| && Rank(pass)[q] == Rank(pass)[r]
    ensures q == r
  {
    EarlierIsLess(pass, q, r);
    EarlierIsLess(pass, r, q);
  }

  /** There is one way only. */
  lemma ServedOnce(net: Net, a: seq<nat>, pa: seq<nat>, b: seq<nat>, pb: seq<nat>)
    requires AllServed(net, a, pa) && AllServed(net, b, pb)
    ensures a == b
  {
    ServedSettles(net, a, pa);
    ServedSettles(net, b, pb);
    OrderIrrelevant(net, net, a, b);
    hide AllServed;
    forall i | 0 <= i < |a|
      ensures a[i] == b[i]
    {
      if i in Assigned(a) {
        Agree(net, a, pa, b, pb, i);
      } else {
        assert i !in Assigned(b);
      }
    }
  }

  // ----- this is what the scan does

  /** Entity `i` stands before the point that device `d` of pass `p` marks. */
  predicate Before(pass: seq<nat>, i: nat, p: nat, d: nat)
    requires i < |pass|
  {
    pass[i] < p || (pass[i] == p && i < d)
  }

  /** `i` has the number of `q`, the first of its neighbours to be scanned so far. */
  ghost predicate ServesNow(net: Net, s: Scan, pass: seq<nat>, q: nat, i: nat)
    requires |s.par| == |pass| == |net.ents| && i < |s.par|
  {
    && q < |s.par| && q in s.scanned && Adj(net, q, i)
    && s.par[i] == net.ents[q].num && pass[i] == ChildPass(pass, q, i)
    && forall r: nat :: r < |s.par| && Adj(net, r, i) && r in s.scanned ==> !Earlier(pass, r, q)
  }

  /** An entity when device `d` of pass `p` is next: scanned before that point, or to be scanned within one round. */
  ghost predicate OnTime(net: Net, s: Scan, pass: seq<nat>, p: nat, d: nat, i: nat)
    requires |s.par| == |pass| == |net.ents| && i < |s.par|
  {
    && (if net.ents[i].controller then s.par[i] == HOST_PARENT && pass[i] == 0
        else s.par[i] != INIT_PARENT ==> exists q :: ServesNow(net, s, pass, q, i))
    && (i in s.scanned ==> Before(pass, i, p, d))
    && (s.par[i] != INIT_PARENT && i !in s.scanned ==> !Before(pass, i, p, d) && Before(pass, i, p + 1, d))
  }

  ghost predicate AllOnTime(net: Net, s: Scan, pass: seq<nat>, p: nat, d: nat) {
    && |s.par| == |pass| == |net.ents|
    && forall i: nat :: i < |s.par| ==> OnTime(net, s, pass, p, d, i)
  }

  /** What changes when `i` offers its number: entities without a parent beside it take it. */
  lemma {:induction false} OfferedAre(net: Net, par: seq<nat>, i: nat, n: nat)
    requires |par| == |net.ents| && i < |par| && n <= |net.ents[i].ports|
    ensures var r := OfferBelow(net, par, i, n);
      forall j :: 0 <= j < |par| && r[j] != par[j] ==>
        par[j] == INIT_PARENT && Adj(net, i, j)
        && r[j] == net.ents[i].num
  {
    if n > 0 {
      OfferedAre(net, par, i, n - 1);
      var mid := OfferBelow(net, par, i, n - 1);
      var far := Far(net, net.ents[i].ports[n - 1]);
      if far.Some? && far.value < |par| && net.ents[far.value].ubc == net.ents[i].ubc {
        assert Adj(net, i, far.value);
      }
    }
  }

  /** The passes after device `d` has been scanned in pass `p`. */
  function NextPass(before: seq<nat>, after: seq<nat>, pass: seq<nat>, p: nat, d: nat): (r: seq<nat>)
    requires |before| == |after| == |pass|
    ensures |r| == |pass|
    ensures forall i :: 0 <= i < |r| ==>
      r[i] == if after[i] != before[i] then p + (if d < i then 0 else 1) else pass[i]
  {
    seq(|pass|, i requires 0 <= i < |pass| =>
                  if after[i] != before[i] then p + (if d < i then 0 else 1) else pass[i])
  }

  /** A device without a parent, or one scanned before, changes nothing. */
  lemma IdleStep(net: Net, s: Scan, pass: seq<nat>, p: nat, d: nat)
    requires AllOnTime(net, s, pass, p, d) && d < |s.par| && (s.par[d] == INIT_PARENT || d in s.scanned)
    ensures AllOnTime(net, s, pass, p, d + 1)
  {
    var next := d + 1;
    forall i: nat | i < |s.par|
      ensures OnTime(net, s, pass, p, next, i)
    {
      assert OnTime(net, s, pass, p, d, i);
    }
  }

  /** An entity that had a parent keeps who served it. */
  lemma KeepsServed(net: Net, s: Scan, r: Scan, pass: seq<nat>, pass': seq<nat>, p: nat, d: nat, q: nat, i: nat)
    requires |s.par| == |r.par| == |pass| == |pass'| == |net.ents| && i < |s.par| && d < |s.par|
    requires ServesNow(net, s, pass, q, i) && r.scanned == s.scanned + {d} && pass[d] == p
    requires r.par[i] == s.par[i] && pass'[i] == pass[i] && pass'[d] == p
    requires forall k :: k in s.scanned && k < |pass| ==> pass'[k] == pass[k] && Before(pass, k, p, d)
    ensures ServesNow(net, r, pass', q, i)
  {
  }

  /** An entity that takes the number of `d` is served by `d`: nobody scanned before stood beside it. */
  lemma NewlyServed(net: Net, s: Scan, r: Scan, pass': seq<nat>, p: nat, d: nat, i: nat)
    requires Sane(net, s) && |r.par| == |pass'| == |net.ents| && i < |s.par| && d < |s.par| && d !in s.scanned
    requires r.scanned == s.scanned + {d} && pass'[d] == p && pass'[i] == p + (if d < i then 0 else 1)
    requires s.par[i] == INIT_PARENT && Adj(net, d, i) && r.par[i] == net.ents[d].num
    ensures ServesNow(net, r, pass', d, i)
  {
    forall k: nat | k < |r.par| && Adj(net, k, i) && k in r.scanned
      ensures k == d
    {
      assert k in s.scanned ==> Exhausted(net, s.par, k);
    }
  }

  lemma ScanStep(net: Net, s: Scan, pass: seq<nat>, p: nat, d: nat) returns (pass': seq<nat>)
    requires UniqueNums(net) && Sane(net, s) && AllOnTime(net, s, pass, p, d) && d < |s.par|
    requires s.par[d] != INIT_PARENT && d !in s.scanned
    ensures AllOnTime(net, ScanOne(net, s, d), pass', p, d + 1)
  {
    var r := ScanOne(net, s, d);
    OfferedAre(net, s.par, d, |net.ents[d].ports|);
    pass' := NextPass(s.par, r.par, pass, p, d);
    assert OnTime(net, s, pass, p, d, d);
    assert pass[d] == p == pass'[d];
    forall k | k in s.scanned && k < |pass|
      ensures s.par[k] != INIT_PARENT && pass'[k] == pass[k] && Before(pass, k, p, d)
    {
      assert OnTime(net, s, pass, p, d, k);
    }
    hide OfferBelow, Sane, NextPass;
    var next := d + 1;
    forall i: nat | i < |r.par|
      ensures OnTime(net, r, pass', p, next, i)
    {
      assert OnTime(net, s, pass, p, d, i);
      hide Adj;
      if r.par[i] != s.par[i] {
        NewlyServed(net, s, r, pass', p, d, i);
      } else if !net.ents[i].controller && s.par[i] != INIT_PARENT {
        var q :| ServesNow(net, s, pass, q, i);
        KeepsServed(net, s, r, pass, pass', p, d, q, i);
      }
    }
  }

  lemma DeviceStep(net: Net, s: Scan, pass: seq<nat>, p: nat, d: nat) returns (pass': seq<nat>)
    requires UniqueNums(net) && Sane(net, s) && AllOnTime(net, s, pass, p, d) && d < |s.par|
    ensures AllOnTime(net, ScanOne(net, s, d), pass', p, d + 1)
  {
    if s.par[d] == INIT_PARENT || d in s.scanned {
      IdleStep(net, s, pass, p, d);
      pass' := pass;
    } else {
      pass' := ScanStep(net, s, pass, p, d);
    }
  }

  /** The first `n` devices of pass `p`. */
  lemma {:induction false} PassOnTime(net: Net, s: Scan, pass: seq<nat>, p: nat, n: nat) returns (pass': seq<nat>)
    requires UniqueNums(net) && Sane(net, s) && AllOnTime(net, s, pass, p, 0) && n <= |net.ents|
    ensures Devices(net, InOrder(|net.ents|)[..n])
    ensures AllOnTime(net, Pass(net, s, InOrder(|net.ents|)[..n]), pass', p, n)
  {
    var devs := InOrder(|net.ents|);
    if n == 0 {
      pass' := pass;
    } else {
      var mid := PassOnTime(net, s, pass, p, n - 1);
      var half := Pass(net, s, devs[..n - 1]);
      hide AllOnTime, Sane, ScanOne, UniqueNums, Kept;
      PassKeepsSane(net, s, devs[..n - 1]);
      PassSnoc(net, s, devs, n - 1);
      pass' := DeviceStep(net, half, mid, p, n - 1);
    }
  }

  /** The end of a pass is the beginning of the next. */
  lemma TurnOver(net: Net, s: Scan, pass: seq<nat>, p: nat)
    requires AllOnTime(net, s, pass, p, |net.ents|)
    ensures AllOnTime(net, s, pass, p + 1, 0)
  {
    var next := p + 1;
    forall i: nat | i < |s.par|
      ensures OnTime(net, s, pass, next, 0, i)
    {
      assert OnTime(net, s, pass, p, |net.ents|, i);
    }
  }

  lemma {:induction false} ScanAllOnTime(net: Net, s: Scan, pass: seq<nat>, p: nat) returns (pass': seq<nat>, p': nat)
    requires UniqueNums(net) && Sane(net, s) && AllOnTime(net, s, pass, p, 0)
    ensures var r := ScanAll(net, s, InOrder(|net.ents|));
      AllOnTime(net, r, pass', p', 0) && forall i: nat :: i < |r.par| && r.par[i] != INIT_PARENT ==> i in r.scanned
    decreases All(net) - s.scanned
  {
    var devs := InOrder(|net.ents|);
    var r := Pass(net, s, devs);
    assert devs[..|net.ents|] == devs;
    pass' := PassOnTime(net, s, pass, p, |net.ents|);
    TurnOver(net, r, pass', p);
    PassKeepsSane(net, s, devs);
    p' := p + 1;
    if r.par == s.par {
      forall i: nat | i < |r.par| && r.par[i] != INIT_PARENT
        ensures i in r.scanned
      {
        assert devs[i] == i;
      }
    } else {
      var x :| x in r.scanned && x !in s.scanned;
      assert x in All(net) - s.scanned;
      pass', p' := ScanAllOnTime(net, r, pass', p');
    }
  }

  lemma StartOnTime(net: Net)
    ensures AllOnTime(net, Start(net), seq(|net.ents|, i => 0), 0, 0)
  {
    var s, pass := Start(net), seq(|net.ents|, i => 0);
    forall i: nat | i < |s.par|
      ensures OnTime(net, s, pass, 0, 0, i)
    {
    }
  }

  /** When everyone with a parent has been scanned, the first so far is the first of all. */
  lemma OnTimeServes(net: Net, s: Scan, pass: seq<nat>, p: nat)
    requires AllOnTime(net, s, pass, p, 0) && Closed(net, s.par)
    requires forall i: nat :: i < |s.par| && s.par[i] != INIT_PARENT ==> i in s.scanned
    requires forall i :: i in s.scanned && i < |s.par| ==> s.par[i] != INIT_PARENT
    ensures AllServed(net, s.par, pass)
  {
    forall i: nat | i < |s.par|
      ensures Placed(net, s.par, pass, i)
    {
      assert OnTime(net, s, pass, p, 0, i);
      if !net.ents[i].controller && s.par[i] != INIT_PARENT {
        var q :| ServesNow(net, s, pass, q, i);
        assert Serves(net, s.par, pass, q, i);
      }
    }
  }

  lemma ScanServes(net: Net) returns (pass: seq<nat>)
    requires UniqueNums(net)
    ensures AllServed(net, ParentsOf(net), pass)
  {
    var devs := InOrder(|net.ents|);
    var r := ScanAll(net, Start(net), devs);
    var p;
    StartIsSane(net);
    StartOnTime(net);
    pass, p := ScanAllOnTime(net, Start(net), seq(|net.ents|, i => 0), 0);
    ScanAllKeepsSane(net, Start(net), devs);
    ParentsSettle(net);
    OnTimeServes(net, r, pass, p);
  }

  /**
   * The parent numbers of the program are those, and no others, for which the scans can be put into
   * passes so that each entity has the number of the neighbour in its domain that is scanned first.
   */
  lemma ParentsOfIff(net: Net, par: seq<nat>)
    requires UniqueNums(net)
    ensures par == ParentsOf(net) <==> exists pass :: AllServed(net, par, pass)
  {
    var pass := ScanServes(net);
    if exists pass' :: AllServed(net, par, pass') {
      var pass' :| AllServed(net, par, pass');
      ServedOnce(net, par, pass', ParentsOf(net), pass);
    }
  }
}
