/** How far the fallback of the NUMA strategies depends on the input order of the GPUs. */
module FallbackOrder {
  import opened Cluster
  import opened Ordering
  import opened Matching
  import opened PairOrder
  import opened Topology
  import opened NumaGroups
  import opened NicSharing

  /** The GPUs of NUMA nodes without NIC, in input order. */
  function Orphaned(gpus: seq<GPU>, nics: seq<NIC>): (r: seq<GPU>)
    ensures forall g :: g in r <==> g in gpus && NicsOn(nics, g.numa) == []
  {
    if gpus == [] then []
    else
      assert gpus == gpus[..|gpus| - 1] + [gpus[|gpus| - 1]];
      Orphaned(gpus[..|gpus| - 1], nics)
      + if NicsOn(nics, gpus[|gpus| - 1].numa) == [] then [gpus[|gpus| - 1]] else []
  }

  /** Every GPU has the same turn in both lists when k NICs are handed out. */
  ghost predicate SameTurns(a: seq<GPU>, b: seq<GPU>, k: nat)
    requires k > 0
  {
    forall i, j :: 0 <= i < |a| && 0 <= j < |b| && a[i] == b[j] ==> i % k == j % k
  }

  lemma {:induction false} UnpairedAreOrphaned(gpus: seq<GPU>, nics: seq<NIC>, first: seq<GPUNICPair>)
    requires forall g :: g in gpus ==> (HasGpu(first, g.id) <==> NicsOn(nics, g.numa) != [])
    ensures Unpaired(gpus, first) == Orphaned(gpus, nics)
  {
    if gpus != [] {
      var n := |gpus| - 1;
      assert gpus == gpus[..n] + [gpus[n]];
      assert gpus[n] in gpus;
      UnpairedAreOrphaned(gpus[..n], nics, first);
    }
  }

  lemma LeftAreOrphaned(s: Setup, first: seq<GPUNICPair>)
    requires Unique(s) && s.policy != OneEach && FirstPhase(s, first)
    ensures Unpaired(s.gpus, first) == Orphaned(s.gpus, s.nics)
  {
    hide FirstPhase, HasGpu;
    forall g | g in s.gpus ensures HasGpu(first, g.id) <==> NicsOn(s.nics, g.numa) != [] {
      Orphans(s, first, g);
    }
    UnpairedAreOrphaned(s.gpus, s.nics, first);
  }

  /** The pair of the i-th orphaned GPU. */
  function TurnPair(s: Setup, i: nat): GPUNICPair
    requires s.nics != [] && i < |Orphaned(s.gpus, s.nics)|
  {
    var g, n := Orphaned(s.gpus, s.nics)[i], AllNics(s.nics)[i % |s.nics|];
    MakePair(g, n, SecondHops(s.policy)(g, n))
  }

  lemma FallbackIs(s: Setup, first: seq<GPUNICPair>)
    requires Unique(s) && s.policy != OneEach && s.nics != [] && FirstPhase(s, first)
    ensures |Fallback(s, first)| == |Orphaned(s.gpus, s.nics)|
    ensures forall i :: 0 <= i < |Fallback(s, first)| ==> Fallback(s, first)[i] == TurnPair(s, i)
  {
    LeftAreOrphaned(s, first);
    hide FirstPhase, Orphaned, SecondHops;
  }

  lemma TurnTaken(s: Setup, first: seq<GPUNICPair>, i: nat)
    requires Unique(s) && s.policy != OneEach && s.nics != [] && FirstPhase(s, first)
    requires i < |Orphaned(s.gpus, s.nics)|
    ensures TurnPair(s, i) in Fallback(s, first)
  {
    hide FirstPhase, Orphaned, Fallback, TurnPair;
    FallbackIs(s, first);
    assert Fallback(s, first)[i] in Fallback(s, first);
  }

  lemma TurnOf(s: Setup, first: seq<GPUNICPair>, p: GPUNICPair) returns (i: nat)
    requires Unique(s) && s.policy != OneEach && s.nics != [] && FirstPhase(s, first) && p in Fallback(s, first)
    ensures i < |Orphaned(s.gpus, s.nics)| && p == TurnPair(s, i)
  {
    hide FirstPhase, Orphaned, Fallback, TurnPair;
    FallbackIs(s, first);
    i :| 0 <= i < |Fallback(s, first)| && Fallback(s, first)[i] == p;
  }

  /** Two runs on the same devices in different order. */
  ghost predicate Reordered(s: Setup, s': Setup) {
    && Unique(s) && Unique(s') && s.policy == s'.policy && s.policy != OneEach && s.nics != []
    && multiset(s.gpus) == multiset(s'.gpus) && multiset(s.nics) == multiset(s'.nics)
  }

  lemma SameNics(s: Setup, s': Setup)
    requires Reordered(s, s')
    ensures |s.nics| == |s'.nics| && AllNics(s.nics) == AllNics(s'.nics) && UniqueNics(AllNics(s.nics))
    ensures forall g :: g in Orphaned(s.gpus, s.nics) <==> g in Orphaned(s'.gpus, s'.nics)
  {
    SameElements(s.nics, s'.nics);
    SameElements(s.gpus, s'.gpus);
    AllNicsUnique(s.nics, AllNics(s.nics));
    AllNicsUnique(s'.nics, AllNics(s.nics));
    forall numa ensures NicsOn(s.nics, numa) == [] <==> NicsOn(s'.nics, numa) == [] {
      NumaHasNics(s.nics, numa);
      NumaHasNics(s'.nics, numa);
    }
  }

  lemma SameTurnPair(s: Setup, s': Setup, i: nat, j: nat)
    requires Reordered(s, s') && i < |Orphaned(s.gpus, s.nics)| && j < |Orphaned(s'.gpus, s'.nics)|
    requires Orphaned(s.gpus, s.nics)[i] == Orphaned(s'.gpus, s'.nics)[j]
    ensures TurnPair(s, i).gpu == TurnPair(s', j).gpu
    ensures TurnPair(s, i) == TurnPair(s', j) <==> i % |s.nics| == j % |s.nics|
  {
    SameNics(s, s');
    hide Orphaned, AllNics, SecondHops, Reordered;
    var ns, a, b := AllNics(s.nics), i % |s.nics|, j % |s.nics|;
    if a < b { assert ns[a].dev != ns[b].dev; }
    if b < a { assert ns[b].dev != ns[a].dev; }
  }

  lemma OtherPosition(s: Setup, s': Setup, i: nat) returns (j: nat)
    requires Reordered(s, s') && i < |Orphaned(s.gpus, s.nics)|
    ensures j < |Orphaned(s'.gpus, s'.nics)| && Orphaned(s'.gpus, s'.nics)[j] == Orphaned(s.gpus, s.nics)[i]
  {
    hide Orphaned, Reordered;
    SameNics(s, s');
    var g := Orphaned(s.gpus, s.nics)[i];
    assert g in Orphaned(s.gpus, s.nics);
    j :| 0 <= j < |Orphaned(s'.gpus, s'.nics)| && Orphaned(s'.gpus, s'.nics)[j] == g;
  }

  lemma TurnsGiveSameFallback(s: Setup, first: seq<GPUNICPair>, s': Setup, first': seq<GPUNICPair>, p: GPUNICPair)
    requires Reordered(s, s') && s'.nics != [] && FirstPhase(s, first) && FirstPhase(s', first')
    requires SameTurns(Orphaned(s.gpus, s.nics), Orphaned(s'.gpus, s'.nics), |s.nics|)
    requires p in Fallback(s, first)
    ensures p in Fallback(s', first')
  {
    hide Orphaned, Fallback, FirstPhase, TurnPair, Unique;
    var i := TurnOf(s, first, p);
    var j := OtherPosition(s, s', i);
    SameTurnPair(s, s', i, j);
    TurnTaken(s', first', j);
  }

  lemma ReorderedBack(s: Setup, s': Setup)
    requires Reordered(s, s')
    ensures Reordered(s', s) && |s.nics| == |s'.nics|
    ensures SameTurns(Orphaned(s.gpus, s.nics), Orphaned(s'.gpus, s'.nics), |s.nics|)
       ==> SameTurns(Orphaned(s'.gpus, s'.nics), Orphaned(s.gpus, s.nics), |s.nics|)
  {
    SameElements(s.nics, s'.nics);
    hide Orphaned;
  }

  lemma PairOfGpu(gpus: seq<GPU>, pairs: seq<GPUNICPair>, p: GPUNICPair, q: GPUNICPair)
    requires EachGpuOnce(gpus, pairs) && p in pairs && q in pairs && p.gpu == q.gpu
    ensures p == q
  {
    StrictIds(pairs);
    var i :| 0 <= i < |pairs| && pairs[i] == p;
    var j :| 0 <= j < |pairs| && pairs[j] == q;
  }

  /** Equal results give every orphaned GPU the same turn. */
  lemma EqualPairsGiveTurns(s: Setup, first: seq<GPUNICPair>, s': Setup, first': seq<GPUNICPair>, pairs: seq<GPUNICPair>)
    requires Reordered(s, s') && s'.nics != [] && Outcome(s, first, pairs) && Outcome(s', first', pairs)
    ensures SameTurns(Orphaned(s.gpus, s.nics), Orphaned(s'.gpus, s'.nics), |s.nics|)
  {
    var a, b := Orphaned(s.gpus, s.nics), Orphaned(s'.gpus, s'.nics);
    EveryGpuOnce(s, first, pairs);
    OutcomeFirst(s, first, pairs);
    OutcomeFirst(s', first', pairs);
    hide Orphaned, Fallback, FirstPhase, TurnPair, Outcome, EachGpuOnce;
    forall i, j | 0 <= i < |a| && 0 <= j < |b| && a[i] == b[j] ensures i % |s.nics| == j % |s.nics| {
      TurnTaken(s, first, i);
      TurnTaken(s', first', j);
      EitherPhase(s, first, pairs, TurnPair(s, i));
      EitherPhase(s', first', pairs, TurnPair(s', j));
      SameTurnPair(s, s', i, j);
      PairOfGpu(s.gpus, pairs, TurnPair(s, i), TurnPair(s', j));
    }
  }

  /** Listing GPUs and NICs in another order gives the same pairs exactly if every GPU without local NIC
      has the same turn, modulo the number of NICs, among these GPUs in both orders. */
  lemma SharingOrderExactly(s: Setup, first: seq<GPUNICPair>, pairs: seq<GPUNICPair>,
                            s': Setup, first': seq<GPUNICPair>, pairs': seq<GPUNICPair>)
    requires Reordered(s, s') && Outcome(s, first, pairs) && Outcome(s', first', pairs')
    ensures pairs == pairs' <==> SameTurns(Orphaned(s.gpus, s.nics), Orphaned(s'.gpus, s'.nics), |s.nics|)
  {
    ReorderedBack(s, s');
    if SameTurns(Orphaned(s.gpus, s.nics), Orphaned(s'.gpus, s'.nics), |s.nics|) {
      TurnsGiveEqualPairs(s, first, pairs, s', first', pairs');
    }
    if pairs == pairs' { EqualPairsGiveTurns(s, first, s', first', pairs); }
  }

  lemma TurnsGiveEqualPairs(s: Setup, first: seq<GPUNICPair>, pairs: seq<GPUNICPair>,
                            s': Setup, first': seq<GPUNICPair>, pairs': seq<GPUNICPair>)
    requires Reordered(s, s') && Outcome(s, first, pairs) && Outcome(s', first', pairs')
    requires SameTurns(Orphaned(s.gpus, s.nics), Orphaned(s'.gpus, s'.nics), |s.nics|)
    ensures pairs == pairs'
  {
    ReorderedBack(s, s');
    OutcomeFirst(s, first, pairs);
    OutcomeFirst(s', first', pairs');
    SameFirst(s, first, s', first');
    EveryGpuOnce(s, first, pairs);
    EveryGpuOnce(s', first', pairs');
    hide Orphaned, Fallback, FirstPhase, Outcome, HasGpu, SameTurns;
    forall p ensures p in pairs <==> p in pairs' {
      EitherPhase(s, first, pairs, p);
      EitherPhase(s', first', pairs', p);
      if p in Fallback(s, first) { TurnsGiveSameFallback(s, first, s', first', p); }
      if p in Fallback(s', first') { TurnsGiveSameFallback(s', first', s, first, p); }
    }
    StrictIds(pairs);
    StrictIds(pairs');
    StrictlySortedUnique(pairs, pairs', ByGpu);
  }

  /** One orphaned GPU at most, or one NIC: no order matters. */
  lemma OneTurnOnly(s: Setup, first: seq<GPUNICPair>, pairs: seq<GPUNICPair>,
                    s': Setup, first': seq<GPUNICPair>, pairs': seq<GPUNICPair>)
    requires Reordered(s, s') && Outcome(s, first, pairs) && Outcome(s', first', pairs')
    requires |s.nics| == 1 || |Orphaned(s.gpus, s.nics)| <= 1
    ensures pairs == pairs'
  {
    hide Orphaned, Outcome, SameTurns, UniqueGpus, UniqueNics;
    SameNics(s, s');
    OrphanedUnique(s.gpus, s.nics);
    OrphanedUnique(s'.gpus, s'.nics);
    SameGpuCount(Orphaned(s.gpus, s.nics), Orphaned(s'.gpus, s'.nics));
    FewTurns(Orphaned(s.gpus, s.nics), Orphaned(s'.gpus, s'.nics), |s.nics|);
    SharingOrderExactly(s, first, pairs, s', first', pairs');
  }

  lemma FewTurns(a: seq<GPU>, b: seq<GPU>, k: nat)
    requires k == 1 || (k > 1 && |a| <= 1 && |b| <= 1)
    ensures SameTurns(a, b, k)
  {
  }

  lemma {:induction false} OrphanedUnique(gpus: seq<GPU>, nics: seq<NIC>)
    requires UniqueGpus(gpus)
    ensures UniqueGpus(Orphaned(gpus, nics))
  {
    if gpus != [] {
      var n := |gpus| - 1;
      OrphanedUnique(gpus[..n], nics);
      var r := Orphaned(gpus[..n], nics);
      forall i | 0 <= i < |r| ensures r[i].id != gpus[n].id { assert r[i] in gpus[..n]; }
    }
  }

  /** Two GPUs without local NIC and two NICs: listed the other way round, the GPUs swap their NICs. */
  lemma InputOrderMatters(policy: Policy, g: GPU, h: GPU, a: NIC, b: NIC, first: seq<GPUNICPair>, pairs: seq<GPUNICPair>,
                          first': seq<GPUNICPair>, pairs': seq<GPUNICPair>)
    requires policy != OneEach && g.id != h.id && a.dev != b.dev
    requires g.numa != a.numa && g.numa != b.numa && h.numa != a.numa && h.numa != b.numa
    requires Outcome(Setup(policy, [g, h], [a, b]), first, pairs)
    requires Outcome(Setup(policy, [h, g], [a, b]), first', pairs')
    ensures pairs != pairs'
  {
    hide Outcome, Orphaned, NicsOn;
    var gs, hs, ns := [g, h], [h, g], [a, b];
    NumaHasNics(ns, g.numa);
    NumaHasNics(ns, h.numa);
    TwoOrphaned(g, h, ns);
    TwoOrphaned(h, g, ns);
    assert multiset(gs) == multiset(hs);
    SharingOrderExactly(Setup(policy, gs, ns), first, pairs, Setup(policy, hs, ns), first', pairs');
    assert gs[0] == hs[1];
  }

  lemma OrphanedAppend(gs: seq<GPU>, g: GPU, nics: seq<NIC>)
    ensures Orphaned(gs + [g], nics) == Orphaned(gs, nics) + if NicsOn(nics, g.numa) == [] then [g] else []
  {
    assert (gs + [g])[..|gs|] == gs;
  }

  lemma TwoOrphaned(g: GPU, h: GPU, nics: seq<NIC>)
    requires NicsOn(nics, g.numa) == [] && NicsOn(nics, h.numa) == []
    ensures Orphaned([g, h], nics) == [g, h]
  {
    hide NicsOn;
    OrphanedAppend([], g, nics);
    OrphanedAppend([g], h, nics);
    assert [] + [g] == [g] && [g] + [h] == [g, h];
  }
}
