/**
 * The parent scan as a function of the network and the device order (lsub/topo.c:29-67), and the
 * proof that it settles.
 */
module Scanning {
  import opened Network
  import opened Parents

  /** The fields that the scan reads and writes: parent numbers and scan marks. */
  datatype Scan = Scan(par: seq<nat>, scanned: set<nat>)

  /** The far end of port `k` of `i` takes the number of `i` if it has no parent and lies in the same domain. */
  function Offer(net: Net, par: seq<nat>, i: nat, k: nat): (r: seq<nat>)
    requires |par| == |net.ents| && i < |par| && k < |net.ents[i].ports|
    ensures Kept(par, r)
  {
    var far := Far(net, net.ents[i].ports[k]);
    if far.Some? && far.value < |par| && par[far.value] == INIT_PARENT && net.ents[far.value].ubc == net.ents[i].ubc
    then par[far.value := net.ents[i].num] else par
  }

  /** The first `n` ports of `i`. */
  function OfferBelow(net: Net, par: seq<nat>, i: nat, n: nat): (r: seq<nat>)
    requires |par| == |net.ents| && i < |par| && n <= |net.ents[i].ports|
    ensures Kept(par, r)
  {
    if n == 0 then par else Offer(net, OfferBelow(net, par, i, n - 1), i, n - 1)
  }

  /** preset_sub_uent */
  function ScanOne(net: Net, s: Scan, i: nat): (r: Scan)
    requires |s.par| == |net.ents| && i < |s.par|
    ensures Kept(s.par, r.par) && s.scanned <= r.scanned <= s.scanned + {i}
    ensures r.par != s.par ==> r.scanned > s.scanned
    ensures r.par[i] != INIT_PARENT && s.par[i] != INIT_PARENT ==> i in r.scanned
  {
    if s.par[i] == INIT_PARENT || i in s.scanned then s
    else Scan(OfferBelow(net, s.par, i, |net.ents[i].ports|), s.scanned + {i})
  }

  ghost predicate Devices(net: Net, devs: seq<nat>) {
    forall n :: 0 <= n < |devs| ==> devs[n] < |net.ents|
  }

  /** One pass over the devices. */
  function Pass(net: Net, s: Scan, devs: seq<nat>): (r: Scan)
    requires |s.par| == |net.ents| && Devices(net, devs)
    ensures Kept(s.par, r.par) && s.scanned <= r.scanned <= s.scanned + All(net)
    ensures r.par != s.par ==> r.scanned > s.scanned
  {
    if devs == [] then s
    else
      var mid := Pass(net, s, devs[..|devs| - 1]);
      ScanOne(net, mid, devs[|devs| - 1])
  }

  lemma PassSnoc(net: Net, s: Scan, devs: seq<nat>, n: nat)
    requires |s.par| == |net.ents| && Devices(net, devs) && n < |devs|
    ensures Pass(net, s, devs[..n + 1]) == ScanOne(net, Pass(net, s, devs[..n]), devs[n])
  {
    assert devs[..n + 1][..n] == devs[..n];
  }

  /** preset_all_uent_par: passes until one sets no parent. Each pass that sets one also scans a new entity. */
  function ScanAll(net: Net, s: Scan, devs: seq<nat>): (r: Scan)
    requires |s.par| == |net.ents| && Devices(net, devs) && s.scanned <= All(net)
    ensures Kept(s.par, r.par) && s.scanned <= r.scanned <= All(net)
    decreases All(net) - s.scanned
  {
    var r := Pass(net, s, devs);
    if r.par == s.par then r
    else
      assert All(net) - r.scanned < All(net) - s.scanned by {
        var x :| x in r.scanned && x !in s.scanned;
        assert x in All(net) - s.scanned;
      }
      ScanAll(net, r, devs)
  }

  /** What grow_topo hands to the scan: the controllers under the host mark, nothing scanned. */
  function Start(net: Net): (s: Scan)
    ensures Initial(net, s.par) && s.scanned == {}
  {
    Scan(seq(|net.ents|, i requires 0 <= i < |net.ents| =>
                           if net.ents[i].controller then HOST_PARENT else INIT_PARENT), {})
  }

  function InOrder(n: nat): (s: seq<nat>)
    ensures |s| == n && forall k :: 0 <= k < n ==> s[k] == k
  {
    seq(n, k => k)
  }

  /** The parent numbers that the program ends with. */
  function ParentsOf(net: Net): (par: seq<nat>)
    ensures |par| == |net.ents|
  {
    ScanAll(net, Start(net), InOrder(|net.ents|)).par
  }

  // ----- the scan settles

  /** The parents form a forest and every scanned entity has nothing left to offer. */
  ghost predicate Sane(net: Net, s: Scan) {
    && |s.par| == |net.ents| && s.scanned <= All(net)
    && (exists rank :: Forest(net, s.par, rank))
    && forall i :: i in s.scanned ==> s.par[i] != INIT_PARENT && Exhausted(net, s.par, i)
  }

  lemma OfferKeepsForest(net: Net, par: seq<nat>, rank: seq<nat>, i: nat, k: nat) returns (rank': seq<nat>)
    requires UniqueNums(net) && Forest(net, par, rank)
    requires i < |par| && k < |net.ents[i].ports| && par[i] != INIT_PARENT
    ensures Forest(net, Offer(net, par, i, k), rank')
    ensures HandedOut(net, par, i, k) ==> HandedOut(net, Offer(net, par, i, k), i, k + 1)
  {
    rank' := rank;
    var after := Offer(net, par, i, k);
    if after != par {
      var j := Far(net, net.ents[i].ports[k]).value;
      assert Adj(net, i, j);
      rank' := ForestGrows(net, par, rank, i, j);
    }
    HandedOutStep(net, par, after, i, k);
  }

  lemma {:induction false} OfferBelowKeepsForest(net: Net, par: seq<nat>, rank: seq<nat>, i: nat, n: nat)
    returns (rank': seq<nat>)
    requires UniqueNums(net) && Forest(net, par, rank)
    requires i < |par| && n <= |net.ents[i].ports| && par[i] != INIT_PARENT
    ensures Forest(net, OfferBelow(net, par, i, n), rank') && HandedOut(net, OfferBelow(net, par, i, n), i, n)
  {
    if n == 0 {
      rank' := rank;
    } else {
      var mid := OfferBelowKeepsForest(net, par, rank, i, n - 1);
      rank' := OfferKeepsForest(net, OfferBelow(net, par, i, n - 1), mid, i, n - 1);
    }
  }

  lemma ExhaustedStays(net: Net, before: seq<nat>, after: seq<nat>, i: nat)
    requires |before| == |net.ents| && Kept(before, after) && Exhausted(net, before, i)
    ensures Exhausted(net, after, i)
  {
  }

  lemma ScanOneKeepsSane(net: Net, s: Scan, i: nat)
    requires UniqueNums(net) && Sane(net, s) && i < |s.par|
    ensures Sane(net, ScanOne(net, s, i))
  {
    var r := ScanOne(net, s, i);
    if r != s {
      var rank :| Forest(net, s.par, rank);
      var rank' := OfferBelowKeepsForest(net, s.par, rank, i, |net.ents[i].ports|);
      HandedOutAll(net, r.par, i);
      forall j | j in s.scanned
        ensures Exhausted(net, r.par, j)
      {
        ExhaustedStays(net, s.par, r.par, j);
      }
    }
  }

  /** A pass that sets no parent leaves no device with a parent unscanned. */
  lemma {:induction false} PassKeepsSane(net: Net, s: Scan, devs: seq<nat>)
    requires UniqueNums(net) && Sane(net, s) && Devices(net, devs)
    ensures var r := Pass(net, s, devs);
      Sane(net, r)
      && (r.par == s.par ==> forall n :: 0 <= n < |devs| && r.par[devs[n]] != INIT_PARENT ==> devs[n] in r.scanned)
  {
    if devs != [] {
      var n := |devs| - 1;
      var mid := Pass(net, s, devs[..n]);
      PassKeepsSane(net, s, devs[..n]);
      ScanOneKeepsSane(net, mid, devs[n]);
      KeptDiffers(s.par, mid.par, ScanOne(net, mid, devs[n]).par);
      assert forall m :: 0 <= m < n ==> devs[..n][m] == devs[m];
    }
  }

  /** What was set stays set, so a change is never undone. */
  lemma KeptDiffers(a: seq<nat>, b: seq<nat>, c: seq<nat>)
    requires Kept(a, b) && Kept(b, c)
    ensures Kept(a, c) && (a == c <==> a == b && b == c)
  {
    if a == c {
      forall j | 0 <= j < |a|
        ensures a[j] == b[j]
      {
        assert a[j] == c[j];
      }
    }
  }

  lemma {:induction false} ScanAllSettles(net: Net, s: Scan, devs: seq<nat>)
    requires UniqueNums(net) && Sane(net, s) && Devices(net, devs) && forall i: nat :: i < |net.ents| ==> i in devs
    ensures Settled(net, ScanAll(net, s, devs).par)
    decreases All(net) - s.scanned
  {
    var r := Pass(net, s, devs);
    PassKeepsSane(net, s, devs);
    if r.par == s.par {
      forall i: nat, j: nat | Adj(net, i, j) && r.par[i] != INIT_PARENT
        ensures r.par[j] != INIT_PARENT
      {
        assert i in devs;
        assert Exhausted(net, r.par, i);
      }
    } else {
      var x :| x in r.scanned && x !in s.scanned;
      assert x in All(net) - s.scanned;
      ScanAllSettles(net, r, devs);
    }
  }

  lemma {:induction false} ScanAllKeepsSane(net: Net, s: Scan, devs: seq<nat>)
    requires UniqueNums(net) && Sane(net, s) && Devices(net, devs)
    ensures Sane(net, ScanAll(net, s, devs))
    decreases All(net) - s.scanned
  {
    var r := Pass(net, s, devs);
    PassKeepsSane(net, s, devs);
    if r.par != s.par {
      var x :| x in r.scanned && x !in s.scanned;
      assert x in All(net) - s.scanned;
      ScanAllKeepsSane(net, r, devs);
    }
  }

  lemma StartIsSane(net: Net)
    ensures Sane(net, Start(net))
  {
    var rank := InitialForest(net, Start(net).par);
  }

  /** The scan settles from the start, for every order of the devices. */
  lemma ScanSettles(net: Net, devs: seq<nat>)
    requires UniqueNums(net) && Devices(net, devs) && forall i: nat :: i < |net.ents| ==> i in devs
    ensures Settled(net, ScanAll(net, Start(net), devs).par)
  {
    StartIsSane(net);
    ScanAllSettles(net, Start(net), devs);
  }

  lemma ParentsSettle(net: Net)
    requires UniqueNums(net)
    ensures Settled(net, ParentsOf(net))
  {
    var devs := InOrder(|net.ents|);
    forall i: nat | i < |net.ents|
      ensures i in devs
    {
      assert devs[i] == i;
    }
    ScanSettles(net, devs);
  }

  /** Whatever order the devices are listed in, the same entities get a parent. */
  lemma DeviceOrderIrrelevant(net: Net, devs: seq<nat>, others: seq<nat>)
    requires UniqueNums(net) && Devices(net, devs) && Devices(net, others)
    requires forall i: nat :: i < |net.ents| ==> i in devs && i in others
    ensures Assigned(ScanAll(net, Start(net), devs).par) == Assigned(ScanAll(net, Start(net), others).par)
  {
    ScanSettles(net, devs);
    ScanSettles(net, others);
    OrderIrrelevant(net, net, ScanAll(net, Start(net), devs).par, ScanAll(net, Start(net), others).par);
  }
}
