/** numaAffinityPairing and numaLoadBalancePairing: GPUs share the NICs of their NUMA node; the GPUs of
    nodes without NICs get all NICs in turn. */
module NicSharing {
  import opened Cluster
  import opened Ordering
  import opened Matching
  import opened PairOrder
  import opened Topology
  import opened Dealing
  import opened NumaGroups

  function FullPenalty(g: GPU, n: NIC): nat { CROSS_NUMA_PENALTY }

  function DistanceAndPenalty(g: GPU, n: NIC): nat { DeviceDistance(g, n) + CROSS_NUMA_PENALTY }

  function SecondHops(policy: Policy): (GPU, NIC) -> nat {
    if policy == Zipped then FullPenalty else DistanceAndPenalty
  }

  function AllNics(nics: seq<NIC>): (r: seq<NIC>)
    ensures Sorted(r, NicLeq) && multiset(r) == multiset(nics)
    ensures |r| == |nics| && forall n :: n in r <==> n in nics
  {
    NicLeqTotalPreorder();
    ArrangedSorted(nics, NicLeq);
    SameElements(Arranged(nics, NicLeq), nics);
    Arranged(nics, NicLeq)
  }

  /** Phase 2: the GPUs without NIC, in their input order. */
  function Fallback(s: Setup, first: seq<GPUNICPair>): seq<GPUNICPair> {
    if s.nics == [] then [] else Dealt(Unpaired(s.gpus, first), AllNics(s.nics), SecondHops(s.policy))
  }

  ghost predicate Outcome(s: Setup, first: seq<GPUNICPair>, pairs: seq<GPUNICPair>) {
    && FirstPhase(s, first)
    && Sorted(pairs, ByGpu)
    && multiset(pairs) == multiset(first + Fallback(s, first))
  }

  ghost predicate TracksGpus(pairs: seq<GPUNICPair>, assignedGpu: set<int>) {
    forall id :: id in assignedGpu <==> HasGpu(pairs, id)
  }

  lemma TrackGpu(pairs: seq<GPUNICPair>, assignedGpu: set<int>, e: GPUNICPair)
    requires TracksGpus(pairs, assignedGpu)
    ensures TracksGpus(pairs + [e], assignedGpu + {e.gpu.id})
  {
    forall id ensures id in assignedGpu + {e.gpu.id} <==> HasGpu(pairs + [e], id) { HasGpuAppend(pairs, e, id); }
  }

  // ---- Phase 1 of numaAffinityPairing ----

  method ZipGroup(gs: seq<GPU>, ns: seq<NIC>, before: seq<GPUNICPair>, assigned0: set<int>)
    returns (pairs: seq<GPUNICPair>, assignedGpu: set<int>)
    requires |ns| > 0 && TracksGpus(before, assigned0)
    ensures pairs == before + Dealt(gs, ns, FirstHops(Zipped)) && TracksGpus(pairs, assignedGpu)
  {
    hide TracksGpus;
    pairs, assignedGpu := before, assigned0;
    for i := 0 to |gs|
      invariant pairs == before + Dealt(gs[..i], ns, FirstHops(Zipped))
      invariant TracksGpus(pairs, assignedGpu)
    {
      var p := MakePair(gs[i], ns[i % |ns|], 0);
      assert gs[..i + 1][..i] == gs[..i];
      TrackGpu(pairs, assignedGpu, p);
      pairs := pairs + [p];
      assignedGpu := assignedGpu + {gs[i].id};
    }
    assert gs[..|gs|] == gs;
  }

  lemma SortedGroup(s: Setup, numa: int, gs: seq<GPU>, ns: seq<NIC>)
    requires Unique(s)
    requires Sorted(gs, GpuLeq) && multiset(gs) == multiset(GpusOn(s.gpus, numa))
    requires Sorted(ns, NicLeq) && multiset(ns) == multiset(NicsOn(s.nics, numa))
    ensures UniqueGpus(gs) && UniqueNics(ns)
    ensures gs == GpusInOrder(s.gpus, numa) && ns == NicsInOrder(s.nics, numa)
    ensures Candidates(gs, ns) == GroupCandidates(s, numa)
    ensures |gs| == |GpusOn(s.gpus, numa)| && |ns| == |NicsOn(s.nics, numa)|
  {
    GpusOnUnique(s.gpus, numa);
    NicsOnUnique(s.nics, numa);
    PermutedGpuList(GpusOn(s.gpus, numa), gs);
    PermutedNicList(NicsOn(s.nics, numa), ns);
    PermutedGpuList(GpusOn(s.gpus, numa), GpusInOrder(s.gpus, numa));
    PermutedNicList(NicsOn(s.nics, numa), NicsInOrder(s.nics, numa));
    SameElements(gs, GpusOn(s.gpus, numa));
    SameElements(ns, NicsOn(s.nics, numa));
    SameElements(gs, GpusInOrder(s.gpus, numa));
    SameElements(ns, NicsInOrder(s.nics, numa));
    hide UniqueGpus, UniqueNics, Sorted, Candidates;
    SortedGpusUnique(gs, GpusInOrder(s.gpus, numa));
    SortedNicsUnique(ns, NicsInOrder(s.nics, numa));
    CandidatesOrderFree(gs, ns, GpusOn(s.gpus, numa), NicsOn(s.nics, numa));
  }

  // ---- Phase 1 of numaLoadBalancePairing ----

  ghost predicate TracksLoad(pairs: seq<GPUNICPair>, nicLoad: map<string, nat>) {
    forall d :: Load(pairs, d) == if d in nicLoad then nicLoad[d] else 0
  }

  lemma TrackLoad(pairs: seq<GPUNICPair>, nicLoad: map<string, nat>, e: GPUNICPair)
    requires TracksLoad(pairs, nicLoad)
    ensures TracksLoad(pairs + [e], nicLoad[e.nic.dev := Load(pairs, e.nic.dev) + 1])
  {
    var next := nicLoad[e.nic.dev := Load(pairs, e.nic.dev) + 1];
    forall d ensures Load(pairs + [e], d) == if d in next then next[d] else 0 { LoadAppend(pairs, e, d); }
  }

  lemma SeesOnlyTaken(es: seq<GPUNICPair>, before: seq<GPUNICPair>, taken: seq<GPUNICPair>, i: nat)
    requires Apart(es, before) && i < |es|
    ensures HasGpu(before + taken, es[i].gpu.id) <==> HasGpu(taken, es[i].gpu.id)
  {
    assert es[i] in es && forall j :: 0 <= j < |before| ==> before[j] in before;
    SameGpus(before, taken, es[i].gpu.id);
  }

  method PlaceShared(candidates: seq<GPUNICPair>, capacity: nat, before: seq<GPUNICPair>, assigned0: set<int>)
    returns (pairs: seq<GPUNICPair>, assignedGpu: set<int>)
    requires Apart(candidates, before) && TracksGpus(before, assigned0)
    ensures pairs == before + Assign(candidates, capacity, []) && TracksGpus(pairs, assignedGpu)
  {
    hide Assign, Load, HasGpu, Apart;
    pairs, assignedGpu := before, assigned0;
    var nicLoad: map<string, nat> := map[];
    ghost var taken: seq<GPUNICPair> := [];
    NoLoadYet(nicLoad);
    assert candidates[0..] == candidates;
    for i := 0 to |candidates|
      invariant pairs == before + taken
      invariant Assign(candidates[i..], capacity, taken) == Assign(candidates, capacity, [])
      invariant TracksGpus(pairs, assignedGpu) && TracksLoad(taken, nicLoad)
    {
      var c := candidates[i];
      AssignStep(candidates, capacity, taken, i);
      SeesOnlyTaken(candidates, before, taken, i);
      var load := if c.nic.dev in nicLoad then nicLoad[c.nic.dev] else 0;
      if c.gpu.id in assignedGpu || load >= capacity {
        continue;
      }
      TrackGpu(pairs, assignedGpu, c);
      TrackLoad(taken, nicLoad, c);
      pairs, taken := pairs + [c], taken + [c];
      assignedGpu := assignedGpu + {c.gpu.id};
      nicLoad := nicLoad[c.nic.dev := load + 1];
    }
    NoneToPlace(candidates, capacity, taken);
  }

  lemma NoLoadYet(nicLoad: map<string, nat>)
    requires nicLoad == map[]
    ensures TracksLoad([], nicLoad)
  {
  }

  // ---- Both strategies ----

  /** One NUMA group, by the strategy's policy. */
  method PairGroup(s: Setup, numa: int, numaGpus: seq<GPU>, numaNics: seq<NIC>, todo: set<int>, pairs0: seq<GPUNICPair>,
                   assigned0: set<int>) returns (pairs: seq<GPUNICPair>, assignedGpu: set<int>)
    requires Unique(s) && s.policy != OneEach && numa in todo && Union(s, todo, pairs0) && TracksGpus(pairs0, assigned0)
    requires numaGpus == GpusOn(s.gpus, numa) && numaNics == NicsOn(s.nics, numa)
    ensures pairs == pairs0 + Group(s, numa) && TracksGpus(pairs, assignedGpu)
  {
    hide Union, TracksGpus, Assign, Dealt, Candidates, GpusInOrder, NicsInOrder, GpusOn, NicsOn;
    if |numaNics| == 0 {
      OneSided(s, numa);
      assert pairs0 + [] == pairs0;
      return pairs0, assigned0;
    }
    NicLeqTotalPreorder();
    var gs := SortSlice(numaGpus, GpuLeq);
    var ns := SortSlice(numaNics, NicLeq);
    SortedGroup(s, numa, gs, ns);
    if s.policy == Zipped {
      pairs, assignedGpu := ZipGroup(gs, ns, pairs0, assigned0);
    } else {
      var capacity := (|gs| + |ns| - 1) / |ns|;
      var candidates := BuildCandidates(gs, ns);
      GroupApart(s, todo, pairs0, numa);
      pairs, assignedGpu := PlaceShared(candidates, capacity, pairs0, assigned0);
    }
  }

  method WithinGroups(s: Setup) returns (pairs: seq<GPUNICPair>, assignedGpu: set<int>)
    requires Unique(s) && s.policy != OneEach
    ensures FirstPhase(s, pairs) && TracksGpus(pairs, assignedGpu)
  {
    var gpusByNuma := GroupGpusByNuma(s.gpus);
    var nicsByNuma := GroupNicsByNuma(s.nics);
    pairs, assignedGpu := [], {};
    var todo := gpusByNuma.Keys;
    hide TracksGpus, Union, Group, Unique, GpusOn, NicsOn;
    NothingYet(s, todo);
    NoGpusYet();
    while todo != {}
      invariant todo <= gpusByNuma.Keys
      invariant Union(s, todo, pairs) && TracksGpus(pairs, assignedGpu)
    {
      var numa := AnyKey(todo);
      var numaNics := if numa in nicsByNuma then nicsByNuma[numa] else [];
      JoinGroup(s, todo, pairs, numa);
      pairs, assignedGpu := PairGroup(s, numa, gpusByNuma[numa], numaNics, todo, pairs, assignedGpu);
      todo := todo - {numa};
    }
  }

  lemma NoGpusYet()
    ensures TracksGpus([], {})
  {
  }

  method FallbackLoop(s: Setup, first: seq<GPUNICPair>, assignedGpu: set<int>) returns (pairs: seq<GPUNICPair>)
    requires Unique(s) && s.nics != [] && TracksGpus(first, assignedGpu)
    ensures pairs == first + Fallback(s, first)
  {
    hide Dealt, Unpaired, HasGpu, SecondHops;
    NothingDealt(s, first, AllNics(s.nics));
    NicLeqTotalPreorder();
    var allNics := SortSlice(s.nics, NicLeq);
    AllNicsUnique(s.nics, allNics);
    pairs := first;
    var fallbackIdx := 0;
    for i := 0 to |s.gpus|
      invariant pairs == first + Dealt(Unpaired(s.gpus[..i], first), allNics, SecondHops(s.policy))
      invariant fallbackIdx == |Unpaired(s.gpus[..i], first)|
    {
      var g := s.gpus[i];
      FallbackStep(s, first, allNics, i);
      if g.id in assignedGpu {
        continue;
      }
      var nic := allNics[fallbackIdx % |allNics|];
      pairs := pairs + [MakePair(g, nic, SecondHops(s.policy)(g, nic))];
      fallbackIdx := fallbackIdx + 1;
    }
    assert s.gpus[..|s.gpus|] == s.gpus;
  }

  lemma NothingDealt(s: Setup, first: seq<GPUNICPair>, ns: seq<NIC>)
    requires ns != []
    ensures Dealt(Unpaired([], first), ns, SecondHops(s.policy)) == [] && Unpaired(s.gpus[..0], first) == []
  {
  }

  lemma FallbackStep(s: Setup, first: seq<GPUNICPair>, ns: seq<NIC>, i: nat)
    requires ns != [] && i < |s.gpus|
    ensures var gs, g := Unpaired(s.gpus[..i], first), s.gpus[i];
            && Unpaired(s.gpus[..i + 1], first) == (if HasGpu(first, g.id) then gs else gs + [g])
            && Dealt(gs + [g], ns, SecondHops(s.policy))
               == Dealt(gs, ns, SecondHops(s.policy))
                  + [MakePair(g, ns[|gs| % |ns|], SecondHops(s.policy)(g, ns[|gs| % |ns|]))]
  {
    var gs, g := Unpaired(s.gpus[..i], first), s.gpus[i];
    assert s.gpus[..i + 1][..i] == s.gpus[..i];
    assert (gs + [g])[..|gs|] == gs;
  }

  lemma AllNicsUnique(nics: seq<NIC>, r: seq<NIC>)
    requires UniqueNics(nics) && Sorted(r, NicLeq) && multiset(r) == multiset(nics)
    ensures r == AllNics(nics) && UniqueNics(r)
  {
    PermutedNicList(nics, r);
    PermutedNicList(nics, AllNics(nics));
    SameElements(r, nics);
    SortedNicsUnique(r, AllNics(nics));
  }

  lemma NothingToFallBack(s: Setup, first: seq<GPUNICPair>)
    requires Unique(s) && FirstPhase(s, first) && (|first| >= |s.gpus| || s.nics == [])
    ensures Fallback(s, first) == []
  {
    if s.nics != [] {
      FirstPhaseMembers(s, first);
      forall i | 0 <= i < |first| ensures first[i].gpu in s.gpus { assert first[i] in first; }
      FullFirstCovers(s.gpus, first);
      var gs := Unpaired(s.gpus, first);
      NoMembers(gs);
    }
  }

  method PairSharing(s: Setup) returns (pairs: seq<GPUNICPair>, ghost first: seq<GPUNICPair>)
    requires Unique(s) && s.policy != OneEach
    ensures Outcome(s, first, pairs)
    ensures if s.nics == [] then pairs == [] else EachGpuOnce(s.gpus, pairs)
  {
    hide Union, Fallback, TracksGpus;
    var assignedGpu;
    pairs, assignedGpu := WithinGroups(s);
    first := pairs;
    if |pairs| < |s.gpus| && |s.nics| > 0 {
      pairs := FallbackLoop(s, pairs, assignedGpu);
    } else {
      NothingToFallBack(s, first);
      assert first + [] == first;
    }
    pairs := SortSlice(pairs, ByGpu);
    if |s.nics| > 0 { EveryGpuOnce(s, first, pairs); } else { NoNicsNoPairs(s, first, pairs); }
  }

  lemma NoNicsNoPairs(s: Setup, first: seq<GPUNICPair>, pairs: seq<GPUNICPair>)
    requires Unique(s) && s.nics == [] && Outcome(s, first, pairs)
    ensures pairs == []
  {
    FirstPhaseMembers(s, first);
    SameElements(pairs, first + Fallback(s, first));
    NoMembers(pairs);
  }

  method NumaAffinityPairing(gpus: seq<GPU>, nics: seq<NIC>) returns (pairs: seq<GPUNICPair>, ghost first: seq<GPUNICPair>)
    requires UniqueGpus(gpus) && UniqueNics(nics)
    ensures Outcome(Setup(Zipped, gpus, nics), first, pairs)
    ensures if nics == [] then pairs == [] else EachGpuOnce(gpus, pairs)
  {
    pairs, first := PairSharing(Setup(Zipped, gpus, nics));
  }

  method NumaLoadBalancePairing(gpus: seq<GPU>, nics: seq<NIC>)
    returns (pairs: seq<GPUNICPair>, ghost first: seq<GPUNICPair>)
    requires UniqueGpus(gpus) && UniqueNics(nics)
    ensures Outcome(Setup(Balanced, gpus, nics), first, pairs)
    ensures if nics == [] then pairs == [] else EachGpuOnce(gpus, pairs)
  {
    pairs, first := PairSharing(Setup(Balanced, gpus, nics));
  }

  // ---- Every GPU exactly once ----

  /** Phase 1 places all GPUs of a NUMA node that has NICs. */
  lemma LocalGpuPlaced(s: Setup, g: GPU)
    requires Unique(s) && s.policy != OneEach && g in s.gpus && NicsOn(s.nics, g.numa) != []
    ensures HasGpu(Group(s, g.numa), g.id)
  {
    var gs, ns := GpusOn(s.gpus, g.numa), NicsOn(s.nics, g.numa);
    if s.policy == Zipped {
      ZipFacts(s, g.numa);
      var i :| 0 <= i < |GpusInOrder(s.gpus, g.numa)| && GpusInOrder(s.gpus, g.numa)[i] == g;
      assert Group(s, g.numa)[i].gpu == g;
    } else {
      GpusOnUnique(s.gpus, g.numa);
      NicsOnUnique(s.nics, g.numa);
      DevsDistinct(ns);
      GpuSetSize(gs);
      EvenShareIsCeiling(|gs|, |ns|);
      CandidatesComplete(gs, ns);
      hide Assign, Candidates, Complete, HasGpu;
      assert g in gs;
      AssignPlacesAll(GroupCandidates(s, g.numa), Ids(gs), Devs(ns), Capacity(s, g.numa), g.id);
    }
  }

  /** What phase 1 leaves over are exactly the GPUs of NUMA nodes without NIC. */
  lemma Orphans(s: Setup, first: seq<GPUNICPair>, g: GPU)
    requires Unique(s) && s.policy != OneEach && FirstPhase(s, first) && g in s.gpus
    ensures g in Unpaired(s.gpus, first) <==> NicsOn(s.nics, g.numa) == []
  {
    FirstPhaseGpu(s, first, g);
    if NicsOn(s.nics, g.numa) == [] { OneSided(s, g.numa); } else { LocalGpuPlaced(s, g); }
  }

  lemma FallbackMembers(s: Setup, first: seq<GPUNICPair>, i: nat)
    requires s.nics != [] && i < |Unpaired(s.gpus, first)|
    ensures var p := Fallback(s, first)[i];
            && |Fallback(s, first)| == |Unpaired(s.gpus, first)|
            && p.gpu == Unpaired(s.gpus, first)[i] && p.nic in s.nics
            && p == MakePair(p.gpu, p.nic, SecondHops(s.policy)(p.gpu, p.nic))
  {
    var ns := AllNics(s.nics);
    assert ns[i % |ns|] in ns;
  }

  lemma FirstIsLocal(s: Setup, first: seq<GPUNICPair>, p: GPUNICPair)
    requires Unique(s) && FirstPhase(s, first) && p in first
    ensures p.gpu in s.gpus && p.nic in s.nics && p.nic.numa == p.gpu.numa
    ensures p.hops == FirstHops(s.policy)(p.gpu, p.nic)
  {
    hide Union;
    FirstPhaseMembers(s, first);
  }

  lemma FallbackIsRemote(s: Setup, first: seq<GPUNICPair>, p: GPUNICPair)
    requires Unique(s) && s.policy != OneEach && s.nics != [] && FirstPhase(s, first) && p in Fallback(s, first)
    ensures p.gpu in s.gpus && p.nic in s.nics && NicsOn(s.nics, p.gpu.numa) == [] && p.nic.numa != p.gpu.numa
    ensures p.hops == SecondHops(s.policy)(p.gpu, p.nic)
  {
    hide FirstPhase, Fallback;
    var gs := Unpaired(s.gpus, first);
    var i :| 0 <= i < |Fallback(s, first)| && Fallback(s, first)[i] == p;
    FallbackSize(s, first);
    FallbackMembers(s, first, i);
    assert gs[i] in gs;
    Orphans(s, first, p.gpu);
    assert p.nic.numa == p.gpu.numa <==> p.nic in NicsOn(s.nics, p.gpu.numa);
  }

  lemma FallbackSize(s: Setup, first: seq<GPUNICPair>)
    requires s.nics != []
    ensures |Fallback(s, first)| == |Unpaired(s.gpus, first)|
  {
  }

  lemma BothCover(s: Setup, first: seq<GPUNICPair>)
    requires Unique(s) && s.policy != OneEach && s.nics != [] && FirstPhase(s, first)
    ensures var all := first + Fallback(s, first);
            DistinctGpus(all) && GpusOf(s.gpus, all) && Covers(s.gpus, all)
  {
    hide Fallback, HasGpu;
    var gs, second := Unpaired(s.gpus, first), Fallback(s, first);
    UnpairedUnique(s.gpus, first);
    FallbackSize(s, first);
    forall i | 0 <= i < |gs| ensures second[i].gpu == gs[i] && gs[i] in gs { FallbackMembers(s, first, i); }
    forall i | 0 <= i < |first| ensures first[i].gpu in s.gpus { FirstIsLocal(s, first, first[i]); }
    hide FirstPhase;
    CoverTogether(s.gpus, first, second, gs);
  }

  /** With at least one NIC on the node, every GPU gets exactly one pair. */
  lemma EveryGpuOnce(s: Setup, first: seq<GPUNICPair>, pairs: seq<GPUNICPair>)
    requires Unique(s) && s.policy != OneEach && s.nics != [] && Outcome(s, first, pairs)
    ensures EachGpuOnce(s.gpus, pairs)
  {
    BothCover(s, first);
    SortedCover(s.gpus, first + Fallback(s, first), pairs);
  }

  /** The hop count that tells on which NUMA node the NIC is. */
  function HopsOf(policy: Policy, g: GPU, n: NIC): nat {
    if n.numa == g.numa then FirstHops(policy)(g, n) else SecondHops(policy)(g, n)
  }

  lemma EitherPhase(s: Setup, first: seq<GPUNICPair>, pairs: seq<GPUNICPair>, p: GPUNICPair)
    requires Outcome(s, first, pairs)
    ensures p in pairs <==> p in first || p in Fallback(s, first)
  {
    hide FirstPhase, Fallback;
    SameElements(pairs, first + Fallback(s, first));
  }

  /** GPUs stay on their NUMA node if it has a NIC; only the others are paired across, with the penalty. */
  lemma PenaltyMeansNoLocalNic(s: Setup, first: seq<GPUNICPair>, pairs: seq<GPUNICPair>, p: GPUNICPair)
    requires Unique(s) && s.policy != OneEach && s.nics != [] && Outcome(s, first, pairs) && p in pairs
    ensures p.nic in s.nics
    ensures p.nic.numa == p.gpu.numa <==> NicsOn(s.nics, p.gpu.numa) != []
    ensures p.hops == HopsOf(s.policy, p.gpu, p.nic)
  {
    hide FirstPhase, Fallback, FirstHops, SecondHops;
    EitherPhase(s, first, pairs, p);
    if p in first {
      FirstIsLocal(s, first, p);
      assert p.nic in NicsOn(s.nics, p.gpu.numa);
    } else {
      FallbackIsRemote(s, first, p);
    }
  }

  /** numaAffinityPairing: 0 hops on the same NUMA node, the penalty exactly when the GPU's has no NIC. */
  lemma AffinityHops(gpus: seq<GPU>, nics: seq<NIC>, first: seq<GPUNICPair>, pairs: seq<GPUNICPair>, p: GPUNICPair)
    requires UniqueGpus(gpus) && UniqueNics(nics) && nics != []
    requires Outcome(Setup(Zipped, gpus, nics), first, pairs) && p in pairs
    ensures p.hops == 0 <==> p.nic.numa == p.gpu.numa
    ensures p.hops == CROSS_NUMA_PENALTY <==> forall n :: n in nics ==> n.numa != p.gpu.numa
  {
    hide Outcome, UniqueGpus, UniqueNics;
    PenaltyMeansNoLocalNic(Setup(Zipped, gpus, nics), first, pairs, p);
    NumaHasNics(nics, p.gpu.numa);
  }

  lemma NumaHasNics(nics: seq<NIC>, numa: int)
    ensures NicsOn(nics, numa) == [] <==> forall n :: n in nics ==> n.numa != numa
  {
    var r := NicsOn(nics, numa);
    if forall n :: n in nics ==> n.numa != numa { NoMembers(r); }
  }

  /** numaAffinityPairing: on a NUMA node with k NICs, the j-th GPU by ID has the NIC j mod k by name. */
  lemma AffinityZipsInOrder(s: Setup, first: seq<GPUNICPair>, pairs: seq<GPUNICPair>, numa: int, j: nat)
    requires Unique(s) && s.policy == Zipped && Outcome(s, first, pairs) && NicsOn(s.nics, numa) != []
    requires j < |GpusInOrder(s.gpus, numa)|
    ensures NicsInOrder(s.nics, numa) != []
    ensures var ns := NicsInOrder(s.nics, numa);
            MakePair(GpusInOrder(s.gpus, numa)[j], ns[j % |ns|], 0) in pairs
  {
    ZipFacts(s, numa);
    var group, ns := Group(s, numa), NicsInOrder(s.nics, numa);
    var p := MakePair(GpusInOrder(s.gpus, numa)[j], ns[j % |ns|], 0);
    assert group[j] == p && GpusInOrder(s.gpus, numa)[j] in GpusInOrder(s.gpus, numa);
    hide Group, Load, Fallback;
    assert p in group && p.gpu.numa == numa;
    EitherPhase(s, first, pairs, p);
  }

  lemma PrefixIsNearer(es: seq<GPUNICPair>, k: nat, p: GPUNICPair)
    requires Sorted(es, CandidateLeq) && k < |es| && p in es[..k + 1]
    ensures CandidateLeq(p, es[k])
  {
    CandidateLeqTotalPreorder();
    var j :| 0 <= j <= k && es[j] == p;
    if j < k { assert CandidateLeq(es[j], es[k]); }
  }

  /** numaLoadBalancePairing: a GPU misses a NIC of its NUMA node only if it has a pair that comes no later
      in the candidate order, or if that NIC is filled to capacity with such pairs. */
  lemma NearestUnlessFull(s: Setup, first: seq<GPUNICPair>, pairs: seq<GPUNICPair>, g: GPU, n: NIC)
    returns (early: seq<GPUNICPair>)
    requires Unique(s) && s.policy == Balanced && Outcome(s, first, pairs)
    requires g in s.gpus && n in s.nics && g.numa == n.numa
    ensures DistinctGpus(early)
    ensures forall p :: p in early ==> p in pairs && CandidateLeq(p, Candidate(g, n)) && InGroup(s, g.numa, p)
    ensures HasGpu(early, g.id) || Load(early, n.dev) == EvenShare(|GpusOn(s.gpus, g.numa)|, |NicsOn(s.nics, g.numa)|)
  {
    var es := GroupCandidates(s, g.numa);
    assert n in NicsOn(s.nics, g.numa);
    var k := CandidateAt(GpusOn(s.gpus, g.numa), NicsOn(s.nics, g.numa), g, n);
    early := ServedOrFull(es, Capacity(s, g.numa), k);
    assert early <= Group(s, g.numa);
    GroupMembers(s, g.numa);
    hide Assign, Group, Load, HasGpu, Fallback, Candidates, CandidateLeq;
    forall p | p in early ensures p in pairs && CandidateLeq(p, Candidate(g, n)) && InGroup(s, g.numa, p) {
      PrefixIsNearer(es, k, p);
      assert p in Group(s, g.numa);
      EitherPhase(s, first, pairs, p);
    }
  }

  // ---- Loads ----

  /** The pairs that use this NIC for GPUs of its own NUMA node, or for GPUs of others. */
  ghost function Using(pairs: seq<GPUNICPair>, dev: string, local: bool): set<GPUNICPair> {
    set p | p in pairs && p.nic.dev == dev && (p.nic.numa == p.gpu.numa) == local
  }

  ghost function Users(pairs: seq<GPUNICPair>, dev: string): set<GPUNICPair> {
    set p | p in pairs && p.nic.dev == dev
  }

  lemma UsersAppend(pairs: seq<GPUNICPair>, e: GPUNICPair, dev: string)
    ensures Users(pairs + [e], dev) == Users(pairs, dev) + if e.nic.dev == dev then {e} else {}
  {
    assert forall p :: p in pairs + [e] <==> p in pairs || p == e;
  }

  lemma {:induction false} LoadIsSetSize(pairs: seq<GPUNICPair>, dev: string)
    requires DistinctGpus(pairs)
    ensures Load(pairs, dev) == |Users(pairs, dev)|
  {
    if pairs != [] {
      var n := |pairs| - 1;
      LoadIsSetSize(pairs[..n], dev);
      assert pairs == pairs[..n] + [pairs[n]];
      UsersAppend(pairs[..n], pairs[n], dev);
      assert forall i :: 0 <= i < n ==> pairs[..n][i] != pairs[n];
    }
  }

  lemma LocalUsers(s: Setup, first: seq<GPUNICPair>, pairs: seq<GPUNICPair>, dev: string)
    requires Unique(s) && s.policy != OneEach && s.nics != [] && Outcome(s, first, pairs)
    ensures Using(pairs, dev, true) == Users(first, dev)
    ensures Using(pairs, dev, false) == Users(Fallback(s, first), dev)
  {
    hide Fallback, FirstPhase, Outcome;
    var second := Fallback(s, first);
    forall p ensures p in pairs <==> p in first || p in second { EitherPhase(s, first, pairs, p); }
    OutcomeFirst(s, first, pairs);
    forall p | p in first ensures p.nic.numa == p.gpu.numa { FirstIsLocal(s, first, p); }
    forall p | p in second ensures p.nic.numa != p.gpu.numa { FallbackIsRemote(s, first, p); }
  }

  lemma OutcomeFirst(s: Setup, first: seq<GPUNICPair>, pairs: seq<GPUNICPair>)
    requires Outcome(s, first, pairs)
    ensures FirstPhase(s, first)
  {
  }

  lemma UsingIsLoad(s: Setup, first: seq<GPUNICPair>, pairs: seq<GPUNICPair>, dev: string)
    requires Unique(s) && s.policy != OneEach && s.nics != [] && Outcome(s, first, pairs)
    ensures |Using(pairs, dev, true)| == Load(first, dev)
    ensures |Using(pairs, dev, false)| == Load(Fallback(s, first), dev)
  {
    hide Fallback, FirstPhase, Load, Outcome, Using, Users, GpusOf, Covers, HasGpu;
    OutcomeFirst(s, first, pairs);
    BothCover(s, first);
    DistinctParts(first, Fallback(s, first));
    LoadIsSetSize(first, dev);
    LoadIsSetSize(Fallback(s, first), dev);
    LocalUsers(s, first, pairs, dev);
  }

  lemma DistinctParts(a: seq<GPUNICPair>, b: seq<GPUNICPair>)
    requires DistinctGpus(a + b)
    ensures DistinctGpus(a) && DistinctGpus(b)
  {
    assert forall i :: 0 <= i < |a| ==> (a + b)[i] == a[i];
    assert forall i :: 0 <= i < |b| ==> (a + b)[|a| + i] == b[i];
  }

  /** No NIC serves more GPUs of its own NUMA node than the even share rounded up. */
  lemma LocalLoadIsEven(s: Setup, first: seq<GPUNICPair>, pairs: seq<GPUNICPair>, n: NIC)
    requires Unique(s) && s.policy != OneEach && Outcome(s, first, pairs) && n in s.nics
    ensures NicsOn(s.nics, n.numa) != []
    ensures |Using(pairs, n.dev, true)| <= EvenShare(|GpusOn(s.gpus, n.numa)|, |NicsOn(s.nics, n.numa)|)
    ensures s.policy == Zipped ==>
              |Using(pairs, n.dev, true)| >= |GpusOn(s.gpus, n.numa)| / |NicsOn(s.nics, n.numa)|
  {
    assert n in NicsOn(s.nics, n.numa);
    UsingIsLoad(s, first, pairs, n.dev);
    hide Load, Group, Fallback, Union;
    FirstPhaseLoad(s, first, n);
    GroupLoadBound(s, n.numa, n);
  }

  /** numaAffinityPairing: the NICs of one NUMA node differ by at most one local GPU. */
  lemma AffinityLoadsDifferByOne(s: Setup, first: seq<GPUNICPair>, pairs: seq<GPUNICPair>, a: NIC, b: NIC)
    requires Unique(s) && s.policy == Zipped && Outcome(s, first, pairs) && a in s.nics && b in s.nics
    requires a.numa == b.numa
    ensures |Using(pairs, a.dev, true)| <= |Using(pairs, b.dev, true)| + 1
  {
    LocalLoadIsEven(s, first, pairs, a);
    LocalLoadIsEven(s, first, pairs, b);
    EvenShareIsCeiling(|GpusOn(s.gpus, a.numa)|, |NicsOn(s.nics, a.numa)|);
  }

  /** The GPUs without local NIC are spread over all NICs: any two differ by at most one. */
  lemma RemoteLoadsDifferByOne(s: Setup, first: seq<GPUNICPair>, pairs: seq<GPUNICPair>, a: NIC, b: NIC)
    requires Unique(s) && s.policy != OneEach && Outcome(s, first, pairs) && a in s.nics && b in s.nics
    ensures |Using(pairs, a.dev, false)| <= |Using(pairs, b.dev, false)| + 1
  {
    UsingIsLoad(s, first, pairs, a.dev);
    UsingIsLoad(s, first, pairs, b.dev);
    AllNicsUnique(s.nics, AllNics(s.nics));
    DealtEvenly(Unpaired(s.gpus, first), AllNics(s.nics), SecondHops(s.policy), a, b);
  }

  // ---- Determinism ----

  lemma UnpairedByGpus(gpus: seq<GPU>, a: seq<GPUNICPair>, b: seq<GPUNICPair>)
    requires forall id :: HasGpu(a, id) <==> HasGpu(b, id)
    ensures Unpaired(gpus, a) == Unpaired(gpus, b)
  {
    if gpus != [] { UnpairedByGpus(gpus[..|gpus| - 1], a, b); }
  }

  /** The result depends neither on the iteration order of the NUMA maps nor on the order of the NICs. */
  lemma SharingOrderFree(s: Setup, first: seq<GPUNICPair>, pairs: seq<GPUNICPair>,
                         s': Setup, first': seq<GPUNICPair>, pairs': seq<GPUNICPair>)
    requires Unique(s) && s.policy != OneEach && s' == s.(nics := s'.nics) && multiset(s.nics) == multiset(s'.nics)
    requires Outcome(s, first, pairs) && Outcome(s', first', pairs') && s.nics != []
    ensures pairs == pairs'
  {
    SameElements(s.nics, s'.nics);
    PermutedNicList(s.nics, s'.nics);
    SameFirst(s, first, s', first');
    SameFallback(s, first, s', first');
    EveryGpuOnce(s, first, pairs);
    EveryGpuOnce(s', first', pairs');
    SameElements(pairs, first + Fallback(s, first));
    SameElements(pairs', first' + Fallback(s', first'));
    hide Fallback, FirstPhase, Outcome, HasGpu;
    assert forall p :: p in first + Fallback(s, first) <==> p in first || p in Fallback(s, first);
    assert forall p :: p in first' + Fallback(s', first') <==> p in first' || p in Fallback(s', first');
    StrictIds(pairs);
    StrictIds(pairs');
    StrictlySortedUnique(pairs, pairs', ByGpu);
  }

  lemma SameFirst(s: Setup, first: seq<GPUNICPair>, s': Setup, first': seq<GPUNICPair>)
    requires Unique(s) && Unique(s') && s.policy == s'.policy
    requires multiset(s.gpus) == multiset(s'.gpus) && multiset(s.nics) == multiset(s'.nics)
    requires FirstPhase(s, first) && FirstPhase(s', first')
    ensures forall p :: p in first <==> p in first'
    ensures forall id :: HasGpu(first, id) <==> HasGpu(first', id)
  {
    hide Group, Load, HasGpu;
    forall p ensures p in first <==> p in first' { GroupOrderFree(s, s', p.gpu.numa); }
    forall id ensures HasGpu(first, id) <==> HasGpu(first', id) {
      SameMembersHasGpu(first, first', id);
      SameMembersHasGpu(first', first, id);
    }
  }

  lemma SameFallback(s: Setup, first: seq<GPUNICPair>, s': Setup, first': seq<GPUNICPair>)
    requires Unique(s) && Unique(s') && s' == s.(nics := s'.nics) && multiset(s.nics) == multiset(s'.nics)
    requires forall id :: HasGpu(first, id) <==> HasGpu(first', id)
    ensures Fallback(s, first) == Fallback(s', first')
  {
    SameElements(s.nics, s'.nics);
    UnpairedByGpus(s.gpus, first, first');
    AllNicsUnique(s.nics, AllNics(s.nics));
    AllNicsUnique(s'.nics, AllNics(s.nics));
  }
}
