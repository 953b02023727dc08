/** pcieDistancePairing: 1:1 matching by PCIe distance, first inside the NUMA groups, then across. */
module PcieMatching {
  import opened Cluster
  import opened Ordering
  import opened Matching
  import opened PairOrder
  import opened Topology
  import opened NumaGroups

  function Raised(es: seq<GPUNICPair>, penalty: nat): (r: seq<GPUNICPair>)
    ensures |r| == |es| && forall i :: 0 <= i < |r| ==> r[i] == es[i].(hops := es[i].hops + penalty)
  {
    if es == [] then []
    else Raised(es[..|es| - 1], penalty) + [es[|es| - 1].(hops := es[|es| - 1].hops + penalty)]
  }

  /** The bookkeeping sets of the loops. */
  ghost predicate Tracks(pairs: seq<GPUNICPair>, assignedGpu: set<int>, assignedNic: set<string>) {
    && (forall id :: id in assignedGpu <==> HasGpu(pairs, id))
    && (forall d :: d in assignedNic <==> Load(pairs, d) >= 1)
  }

  lemma TrackTaken(pairs: seq<GPUNICPair>, assignedGpu: set<int>, assignedNic: set<string>, e: GPUNICPair)
    requires Tracks(pairs, assignedGpu, assignedNic)
    ensures Tracks(pairs + [e], assignedGpu + {e.gpu.id}, assignedNic + {e.nic.dev})
  {
    forall id ensures id in assignedGpu + {e.gpu.id} <==> HasGpu(pairs + [e], id) { HasGpuAppend(pairs, e, id); }
    forall d ensures d in assignedNic + {e.nic.dev} <==> Load(pairs + [e], d) >= 1 { LoadAppend(pairs, e, d); }
  }

  /** The greedy loop of both phases. */
  method Place(candidates: seq<GPUNICPair>, penalty: nat, pairs0: seq<GPUNICPair>, gpus0: set<int>, nics0: set<string>)
    returns (pairs: seq<GPUNICPair>, assignedGpu: set<int>, assignedNic: set<string>)
    requires Tracks(pairs0, gpus0, nics0)
    ensures pairs == Assign(Raised(candidates, penalty), 1, pairs0)
    ensures Tracks(pairs, assignedGpu, assignedNic)
  {
    hide Load, HasGpu, Assign;
    pairs, assignedGpu, assignedNic := pairs0, gpus0, nics0;
    ghost var es := Raised(candidates, penalty);
    assert es[0..] == es;
    for i := 0 to |candidates|
      invariant Assign(es[i..], 1, pairs) == Assign(es, 1, pairs0)
      invariant Tracks(pairs, assignedGpu, assignedNic)
    {
      var c := candidates[i];
      AssignStep(es, 1, pairs, i);
      if c.gpu.id in assignedGpu || c.nic.dev in assignedNic {
        continue;
      }
      var p := c.(hops := c.hops + penalty);
      TrackTaken(pairs, assignedGpu, assignedNic, p);
      pairs := pairs + [p];
      assignedGpu := assignedGpu + {c.gpu.id};
      assignedNic := assignedNic + {c.nic.dev};
    }
    NoneToPlace(es, 1, pairs);
  }

  lemma RaisedByNothing(es: seq<GPUNICPair>)
    ensures Raised(es, 0) == es
  {
  }

  lemma TracksNothing()
    ensures Tracks([], {}, {})
  {
  }

  function Matched(gpus: seq<GPU>, nics: seq<NIC>): Setup {
    Setup(OneEach, gpus, nics)
  }

  /** Phase 1 visits the groups in arbitrary order. */
  method WithinGroups(gpus: seq<GPU>, nics: seq<NIC>)
    returns (pairs: seq<GPUNICPair>, assignedGpu: set<int>, assignedNic: set<string>)
    requires UniqueGpus(gpus) && UniqueNics(nics)
    ensures FirstPhase(Matched(gpus, nics), pairs)
    ensures Tracks(pairs, assignedGpu, assignedNic)
  {
    hide Union, Tracks, Raised, Assign, Candidates, GpusOn, NicsOn, UniqueGpus, UniqueNics;
    var gpusByNuma := GroupGpusByNuma(gpus);
    var nicsByNuma := GroupNicsByNuma(nics);
    pairs, assignedGpu, assignedNic := [], {}, {};
    ghost var s := Matched(gpus, nics);
    var todo := gpusByNuma.Keys;
    NothingYet(s, todo);
    TracksNothing();
    while todo != {}
      invariant todo <= gpusByNuma.Keys
      invariant Union(s, todo, pairs)
      invariant Tracks(pairs, assignedGpu, assignedNic)
    {
      var numa := AnyKey(todo);
      NextGroup(s, todo, pairs, numa);
      todo := todo - {numa};
      var numaNics := if numa in nicsByNuma then nicsByNuma[numa] else [];
      if |numaNics| == 0 {
        OneSided(s, numa);
        assert pairs + [] == pairs;
        continue;
      }
      GpusOnUnique(gpus, numa);
      NicsOnUnique(nics, numa);
      var candidates := BuildCandidates(gpusByNuma[numa], numaNics);
      RaisedByNothing(candidates);
      pairs, assignedGpu, assignedNic := Place(candidates, 0, pairs, assignedGpu, assignedNic);
    }
  }

  method Remaining(gpus: seq<GPU>, nics: seq<NIC>, ghost pairs: seq<GPUNICPair>, assignedGpu: set<int>,
                   assignedNic: set<string>) returns (remainGpus: seq<GPU>, remainNics: seq<NIC>)
    requires Tracks(pairs, assignedGpu, assignedNic)
    ensures remainGpus == Unpaired(gpus, pairs) && remainNics == Unused(nics, pairs)
  {
    remainGpus, remainNics := [], [];
    for i := 0 to |gpus|
      invariant remainGpus == Unpaired(gpus[..i], pairs)
    {
      assert gpus[..i + 1][..i] == gpus[..i];
      if gpus[i].id !in assignedGpu { remainGpus := remainGpus + [gpus[i]]; }
    }
    for i := 0 to |nics|
      invariant remainNics == Unused(nics[..i], pairs)
    {
      assert nics[..i + 1][..i] == nics[..i];
      if nics[i].dev !in assignedNic { remainNics := remainNics + [nics[i]]; }
    }
    assert gpus[..|gpus|] == gpus && nics[..|nics|] == nics;
  }

  /** The candidates of phase 2: what phase 1 left over, with the penalty. */
  function CrossCandidates(gpus: seq<GPU>, nics: seq<NIC>, first: seq<GPUNICPair>): seq<GPUNICPair> {
    Raised(Candidates(Unpaired(gpus, first), Unused(nics, first)), CROSS_NUMA_PENALTY)
  }

  function BothPhases(gpus: seq<GPU>, nics: seq<NIC>, first: seq<GPUNICPair>): seq<GPUNICPair> {
    Assign(CrossCandidates(gpus, nics, first), 1, first)
  }

  ghost predicate Outcome(gpus: seq<GPU>, nics: seq<NIC>, first: seq<GPUNICPair>, pairs: seq<GPUNICPair>) {
    && FirstPhase(Matched(gpus, nics), first)
    && Sorted(pairs, ByGpu)
    && multiset(pairs) == multiset(BothPhases(gpus, nics, first))
  }

  lemma NothingAcross(gpus: seq<GPU>, nics: seq<NIC>, first: seq<GPUNICPair>)
    requires Unpaired(gpus, first) == [] || Unused(nics, first) == []
    ensures BothPhases(gpus, nics, first) == first
  {
    NoCandidates(Unpaired(gpus, first), Unused(nics, first));
  }

  method PcieDistancePairing(gpus: seq<GPU>, nics: seq<NIC>) returns (pairs: seq<GPUNICPair>, ghost first: seq<GPUNICPair>)
    requires UniqueGpus(gpus) && UniqueNics(nics)
    ensures Outcome(gpus, nics, first, pairs)
    ensures FullMatching(gpus, nics, pairs) && FinalPairs(gpus, nics, pairs)
  {
    var assignedGpu, assignedNic;
    pairs, assignedGpu, assignedNic := WithinGroups(gpus, nics);
    first := pairs;
    var remainGpus, remainNics := Remaining(gpus, nics, pairs, assignedGpu, assignedNic);
    UnpairedUnique(gpus, pairs);
    UnusedUnique(nics, pairs);
    if |remainGpus| > 0 && |remainNics| > 0 {
      var candidates := BuildCandidates(remainGpus, remainNics);
      pairs, assignedGpu, assignedNic := Place(candidates, CROSS_NUMA_PENALTY, pairs, assignedGpu, assignedNic);
    } else {
      NothingAcross(gpus, nics, first);
    }
    pairs := SortSlice(pairs, ByGpu);
    MatchesSmallerSide(gpus, nics, first, pairs);
  }

  // ---- Phase 2 only pairs across NUMA nodes ----

  /** Inside a NUMA node, all GPUs or all NICs are matched. */
  lemma GroupSide(s: Setup, g: GPU, n: NIC)
    requires Unique(s) && s.policy == OneEach && g in s.gpus && n in s.nics && g.numa == n.numa
    ensures HasGpu(Group(s, n.numa), g.id) || Load(Group(s, n.numa), n.dev) == 1
  {
    var gs, ns := GpusOn(s.gpus, n.numa), NicsOn(s.nics, n.numa);
    NicsOnUnique(s.nics, n.numa);
    DevsDistinct(ns);
    CandidatesComplete(gs, ns);
    hide Assign, Candidates, Load, HasGpu, Complete;
    MatchingSize(GroupCandidates(s, n.numa), Ids(gs), Devs(ns));
    DevOf(ns, n);
    IdOf(gs, g);
  }

  /** Phase 1 leaves no NUMA node with both a GPU and a NIC to spare. */
  lemma GroupExhausted(gpus: seq<GPU>, nics: seq<NIC>, first: seq<GPUNICPair>, g: GPU, n: NIC)
    requires UniqueGpus(gpus) && UniqueNics(nics) && FirstPhase(Matched(gpus, nics), first)
    requires g in Unpaired(gpus, first) && n in Unused(nics, first)
    ensures g.numa != n.numa
  {
    var s := Matched(gpus, nics);
    hide Group, Load, HasGpu;
    FirstPhaseGpu(s, first, g);
    FirstPhaseLoad(s, first, n);
    if g.numa == n.numa { GroupSide(s, g, n); }
  }

  lemma DevOf(nics: seq<NIC>, n: NIC)
    requires n in nics
    ensures n.dev in Devs(nics)
  {
    var i :| 0 <= i < |nics| && nics[i] == n;
    assert Devs(nics)[i] == n.dev;
  }

  lemma IdOf(gpus: seq<GPU>, g: GPU)
    requires g in gpus
    ensures g.id in Ids(gpus)
  {
  }

  /** A pair across NUMA nodes between devices that phase 1 left over. */
  ghost predicate Crossing(p: GPUNICPair, gpus: seq<GPU>, nics: seq<NIC>, first: seq<GPUNICPair>) {
    && p.gpu in Unpaired(gpus, first) && p.nic in Unused(nics, first) && p.gpu.numa != p.nic.numa
    && p == MakePair(p.gpu, p.nic, DeviceDistance(p.gpu, p.nic) + CROSS_NUMA_PENALTY)
  }

  lemma CrossMembers(gpus: seq<GPU>, nics: seq<NIC>, first: seq<GPUNICPair>)
    requires UniqueGpus(gpus) && UniqueNics(nics) && FirstPhase(Matched(gpus, nics), first)
    ensures forall p :: p in CrossCandidates(gpus, nics, first) ==> Crossing(p, gpus, nics, first)
  {
    var plain := Candidates(Unpaired(gpus, first), Unused(nics, first));
    var es := CrossCandidates(gpus, nics, first);
    forall p | p in es ensures Crossing(p, gpus, nics, first) {
      var i :| 0 <= i < |es| && es[i] == p;
      assert plain[i] in plain;
      assert IsCandidate(plain[i], Unpaired(gpus, first), Unused(nics, first));
      GroupExhausted(gpus, nics, first, p.gpu, p.nic);
    }
  }

  lemma CrossApart(gpus: seq<GPU>, nics: seq<NIC>, first: seq<GPUNICPair>)
    requires UniqueGpus(gpus) && UniqueNics(nics) && FirstPhase(Matched(gpus, nics), first)
    ensures BothPhases(gpus, nics, first) == first + Assign(CrossCandidates(gpus, nics, first), 1, [])
  {
    var es := CrossCandidates(gpus, nics, first);
    CrossMembers(gpus, nics, first);
    forall e, c | e in es && c in first ensures e.gpu.id != c.gpu.id && e.nic.dev != c.nic.dev {
      assert Crossing(e, gpus, nics, first);
      var i :| 0 <= i < |first| && first[i] == c;
      LoadPositive(first, e.nic.dev);
    }
    AssignFrame(es, 1, first, []);
    assert first + [] == first;
  }

  lemma RaisedComplete(es: seq<GPUNICPair>, penalty: nat, ids: set<int>, devs: seq<string>)
    requires Complete(es, ids, devs)
    ensures Complete(Raised(es, penalty), ids, devs)
  {
    var r := Raised(es, penalty);
    forall e | e in r ensures e.gpu.id in ids && e.nic.dev in devs {
      var i :| 0 <= i < |r| && r[i] == e;
      assert es[i] in es;
    }
    forall id, d | id in ids && d in devs ensures Offers(r, id, d) {
      assert Offers(es, id, d);
      var k :| 0 <= k < |es| && es[k].gpu.id == id && es[k].nic.dev == d;
      assert r[k].gpu.id == id;
    }
  }

  // ---- The matching ----

  lemma NicLoad(s: Setup, first: seq<GPUNICPair>, n: NIC)
    requires Unique(s) && s.policy == OneEach && FirstPhase(s, first) && n in s.nics
    ensures Load(first, n.dev) <= 1
  {
    hide Load, Group, FirstPhase;
    FirstPhaseLoad(s, first, n);
    GroupLoadBound(s, n.numa, n);
  }

  lemma FirstLoads(gpus: seq<GPU>, nics: seq<NIC>, first: seq<GPUNICPair>, d: string)
    requires UniqueGpus(gpus) && UniqueNics(nics) && FirstPhase(Matched(gpus, nics), first)
    ensures Load(first, d) <= 1
  {
    hide Load, Group, FirstPhase;
    FirstPhaseMembers(Matched(gpus, nics), first);
    LoadPositive(first, d);
    if i :| 0 <= i < |first| && first[i].nic.dev == d {
      assert first[i] in first;
      NicLoad(Matched(gpus, nics), first, first[i].nic);
    }
  }

  /** The final pairs are a matching in GPU order, as large as the smaller side of the node. */
  ghost predicate FullMatching(gpus: seq<GPU>, nics: seq<NIC>, pairs: seq<GPUNICPair>) {
    && Ascending(pairs)
    && DistinctNics(pairs)
    && |pairs| == if |gpus| <= |nics| then |gpus| else |nics|
  }

  /** The pair that the strategy would make of these two devices. */
  function FinalPair(g: GPU, n: NIC): GPUNICPair {
    MakePair(g, n, DeviceDistance(g, n) + if g.numa == n.numa then 0 else CROSS_NUMA_PENALTY)
  }

  ghost predicate FinalPairs(gpus: seq<GPU>, nics: seq<NIC>, pairs: seq<GPUNICPair>) {
    forall p :: p in pairs ==> p.gpu in gpus && p.nic in nics && p == FinalPair(p.gpu, p.nic)
  }

  lemma BothPhasesKeep(gpus: seq<GPU>, nics: seq<NIC>, first: seq<GPUNICPair>)
    requires UniqueGpus(gpus) && UniqueNics(nics) && FirstPhase(Matched(gpus, nics), first)
    ensures DistinctGpus(BothPhases(gpus, nics, first))
    ensures forall d :: Load(BothPhases(gpus, nics, first), d) <= 1
    ensures FinalPairs(gpus, nics, BothPhases(gpus, nics, first))
  {
    forall d ensures Load(first, d) <= 1 { FirstLoads(gpus, nics, first, d); }
    AssignKeeps(CrossCandidates(gpus, nics, first), 1, first);
    FirstPhaseMembers(Matched(gpus, nics), first);
    CrossMembers(gpus, nics, first);
  }

  lemma FitsGpus(gpus: seq<GPU>, pairs: seq<GPUNICPair>)
    requires UniqueGpus(gpus) && DistinctGpus(pairs) && GpusOf(gpus, pairs)
    ensures |pairs| <= |gpus|
  {
    forall i | 0 <= i < |pairs| ensures pairs[i].gpu.id in Ids(gpus) { IdOf(gpus, pairs[i].gpu); }
    GpuSetSize(gpus);
    GpusExhausted(pairs, Ids(gpus), 0);
  }

  lemma FitsNics(nics: seq<NIC>, pairs: seq<GPUNICPair>)
    requires UniqueNics(nics) && forall i :: 0 <= i < |pairs| ==> pairs[i].nic in nics
    requires forall d :: Load(pairs, d) <= 1
    ensures |pairs| <= |nics|
    ensures (forall n :: n in nics ==> Load(pairs, n.dev) == 1) ==> |pairs| == |nics|
  {
    hide Load;
    forall i | 0 <= i < |pairs| ensures pairs[i].nic.dev in Devs(nics) { DevOf(nics, pairs[i].nic); }
    DevsDistinct(nics);
    LoadSumBound(pairs, Devs(nics));
    LoadSumRange(pairs, Devs(nics), 1);
  }

  lemma FitsNode(gpus: seq<GPU>, nics: seq<NIC>, pairs: seq<GPUNICPair>)
    requires UniqueGpus(gpus) && UniqueNics(nics) && DistinctGpus(pairs) && FinalPairs(gpus, nics, pairs)
    requires forall d :: Load(pairs, d) <= 1
    ensures |pairs| <= |gpus| && |pairs| <= |nics|
    ensures Covers(gpus, pairs) ==> |pairs| == |gpus|
    ensures (forall n :: n in nics ==> Load(pairs, n.dev) == 1) ==> |pairs| == |nics|
  {
    hide Load, FinalPair;
    forall i | 0 <= i < |pairs| ensures pairs[i].gpu in gpus && pairs[i].nic in nics {
      assert pairs[i] in pairs;
    }
    FitsGpus(gpus, pairs);
    FitsNics(nics, pairs);
    if Covers(gpus, pairs) { CoveringCount(gpus, pairs); }
  }

  /** Phase 2 uses up all GPUs or all NICs. */
  lemma OneSideExhausted(gpus: seq<GPU>, nics: seq<NIC>, first: seq<GPUNICPair>)
    requires UniqueGpus(gpus) && UniqueNics(nics) && FirstPhase(Matched(gpus, nics), first)
    ensures var all := BothPhases(gpus, nics, first);
            Covers(gpus, all) || forall n :: n in nics ==> Load(all, n.dev) >= 1
  {
    var gs, ns := Unpaired(gpus, first), Unused(nics, first);
    var es := CrossCandidates(gpus, nics, first);
    var all := BothPhases(gpus, nics, first);
    CrossApart(gpus, nics, first);
    CandidatesComplete(gs, ns);
    RaisedComplete(Candidates(gs, ns), CROSS_NUMA_PENALTY, Ids(gs), Devs(ns));
    UnusedUnique(nics, first);
    DevsDistinct(ns);
    MatchingSize(es, Ids(gs), Devs(ns));
    hide Assign, Load, HasGpu, CrossCandidates, BothPhases;
    var second := Assign(es, 1, []);
    if forall id :: id in Ids(gs) ==> HasGpu(second, id) {
      forall g | g in gpus ensures HasGpu(all, g.id) {
        if HasGpu(first, g.id) { HasGpuMore(first, all, g.id); } else { IdOf(gs, g); LaterHasGpu(first, second, g.id); }
      }
    } else {
      forall n | n in nics ensures Load(all, n.dev) >= 1 {
        LoadConcat(first, second, n.dev);
        if n in ns { DevOf(ns, n); }
      }
    }
  }

  lemma LaterHasGpu(a: seq<GPUNICPair>, b: seq<GPUNICPair>, id: int)
    requires HasGpu(b, id)
    ensures HasGpu(a + b, id)
  {
    var i :| 0 <= i < |b| && b[i].gpu.id == id;
    assert (a + b)[|a| + i].gpu.id == id;
  }

  /** pcieDistancePairing matches as many devices as possible, and the hop count tells NUMA crossings. */
  lemma MatchesSmallerSide(gpus: seq<GPU>, nics: seq<NIC>, first: seq<GPUNICPair>, pairs: seq<GPUNICPair>)
    requires UniqueGpus(gpus) && UniqueNics(nics) && Outcome(gpus, nics, first, pairs)
    ensures FullMatching(gpus, nics, pairs)
    ensures FinalPairs(gpus, nics, pairs)
  {
    var all := BothPhases(gpus, nics, first);
    BothPhasesKeep(gpus, nics, first);
    FitsNode(gpus, nics, all);
    OneSideExhausted(gpus, nics, first);
    LoadsAtMostOne(all);
    PermutedGpus(all, pairs);
    PermutedNics(all, pairs);
    StrictlyByGpu(pairs);
    SameElements(pairs, all);
  }

  // ---- Stability ----

  /** Pairs inside a NUMA node come before pairs across; then the candidate order decides. */
  predicate RankLeq(a: GPUNICPair, b: GPUNICPair) {
    if (a.gpu.numa == a.nic.numa) != (b.gpu.numa == b.nic.numa) then a.gpu.numa == a.nic.numa else CandidateLeq(a, b)
  }

  /** The pair p makes g or n prefer what they have to each other. */
  ghost predicate Holds(p: GPUNICPair, g: GPU, n: NIC) {
    && (p.gpu == g || p.nic == n)
    && (p == FinalPair(g, n) || (RankLeq(p, FinalPair(g, n)) && !RankLeq(FinalPair(g, n), p)))
  }

  lemma EarlierHolds(p: GPUNICPair, g: GPU, n: NIC)
    requires (p.gpu == g || p.nic == n) && p == FinalPair(p.gpu, p.nic) && RankLeq(p, FinalPair(g, n))
    requires (p.gpu == g || p.gpu.id != g.id) && (p.nic == n || p.nic.dev != n.dev)
    ensures Holds(p, g, n)
  {
    StrLessTrichotomy(p.nic.dev, n.dev);
  }

  lemma NotBlockedInside(gpus: seq<GPU>, nics: seq<NIC>, g: GPU, n: NIC) returns (p: GPUNICPair)
    requires UniqueGpus(gpus) && UniqueNics(nics) && g in gpus && n in nics && g.numa == n.numa
    ensures p in Group(Matched(gpus, nics), g.numa) && Holds(p, g, n)
  {
    var s := Matched(gpus, nics);
    var gs, ns := GpusOn(gpus, g.numa), NicsOn(nics, g.numa);
    var es := GroupCandidates(s, g.numa);
    var k := CandidateAt(gs, ns, g, n);
    p := AssignNotBlocked(es, [], k);
    GroupMembers(s, g.numa);
    var j :| 0 <= j <= k && p == es[j];
    CandidateLeqTotalPreorder();
    assert CandidateLeq(es[j], es[k]);
    if p.gpu.id == g.id { SameId(gpus, p.gpu, g); }
    if p.nic.dev == n.dev { SameDev(nics, p.nic, n); }
    hide Assign, Group, Candidates;
    EarlierHolds(p, g, n);
  }

  lemma RaisedOrder(es: seq<GPUNICPair>, penalty: nat, j: nat, k: nat)
    requires Sorted(es, CandidateLeq) && j <= k < |es|
    ensures CandidateLeq(Raised(es, penalty)[j], Raised(es, penalty)[k])
  {
    CandidateLeqTotalPreorder();
    assert CandidateLeq(es[j], es[k]);
  }

  lemma BlockedOnlyEarlier(gs: seq<GPU>, ns: seq<NIC>, es: seq<GPUNICPair>, g: GPU, n: NIC) returns (p: GPUNICPair)
    requires es == Raised(Candidates(gs, ns), CROSS_NUMA_PENALTY) && g in gs && n in ns && g.numa != n.numa
    ensures p in es && p in Assign(es, 1, []) && CandidateLeq(p, FinalPair(g, n))
    ensures p.gpu.id == g.id || p.nic.dev == n.dev
  {
    var k := CandidateAt(gs, ns, g, n);
    hide Candidates, Load, HasGpu;
    p := AssignNotBlocked(es, [], k);
    var j :| 0 <= j <= k && p == es[j];
    RaisedOrder(Candidates(gs, ns), CROSS_NUMA_PENALTY, j, k);
  }

  lemma NotBlockedAcross(gpus: seq<GPU>, nics: seq<NIC>, first: seq<GPUNICPair>, g: GPU, n: NIC)
    returns (p: GPUNICPair)
    requires UniqueGpus(gpus) && UniqueNics(nics) && FirstPhase(Matched(gpus, nics), first)
    requires g in Unpaired(gpus, first) && n in Unused(nics, first)
    ensures p in BothPhases(gpus, nics, first) && Holds(p, g, n)
  {
    hide Assign, Group, Load, Candidates;
    GroupExhausted(gpus, nics, first, g, n);
    CrossApart(gpus, nics, first);
    CrossMembers(gpus, nics, first);
    p := BlockedOnlyEarlier(Unpaired(gpus, first), Unused(nics, first), CrossCandidates(gpus, nics, first), g, n);
    assert Crossing(p, gpus, nics, first);
    hide BothPhases, CrossCandidates, FirstPhase, HasGpu;
    if p.gpu.id == g.id { SameId(gpus, p.gpu, g); }
    if p.nic.dev == n.dev { SameDev(nics, p.nic, n); }
    EarlierHolds(p, g, n);
  }

  /** A pair inside a NUMA node beats anything across. */
  lemma InsideBeatsAcross(gpus: seq<GPU>, nics: seq<NIC>, first: seq<GPUNICPair>, g: GPU, n: NIC)
    returns (p: GPUNICPair)
    requires UniqueGpus(gpus) && UniqueNics(nics) && FirstPhase(Matched(gpus, nics), first)
    requires g in gpus && n in nics && g.numa != n.numa
    requires HasGpu(first, g.id) || Load(first, n.dev) > 0
    ensures p in first && Holds(p, g, n)
  {
    FirstPhaseMembers(Matched(gpus, nics), first);
    if HasGpu(first, g.id) {
      var i :| 0 <= i < |first| && first[i].gpu.id == g.id;
      p := first[i];
      assert p in first;
      SameId(gpus, p.gpu, g);
    } else {
      LoadPositive(first, n.dev);
      var i :| 0 <= i < |first| && first[i].nic.dev == n.dev;
      p := first[i];
      assert p in first;
      SameDev(nics, p.nic, n);
    }
  }

  /** No blocking pair: of any GPU and NIC, one is in their common pair or in one that ranks earlier. */
  lemma NoBlockingPair(gpus: seq<GPU>, nics: seq<NIC>, first: seq<GPUNICPair>, pairs: seq<GPUNICPair>, g: GPU, n: NIC)
    returns (p: GPUNICPair)
    requires UniqueGpus(gpus) && UniqueNics(nics) && Outcome(gpus, nics, first, pairs) && g in gpus && n in nics
    ensures p in pairs && Holds(p, g, n)
  {
    hide Assign, Group, Candidates, Load, HasGpu, Holds;
    SameElements(pairs, BothPhases(gpus, nics, first));
    CrossApart(gpus, nics, first);
    if g.numa == n.numa {
      p := NotBlockedInside(gpus, nics, g, n);
      GroupMembers(Matched(gpus, nics), g.numa);
    } else if HasGpu(first, g.id) || Load(first, n.dev) > 0 {
      p := InsideBeatsAcross(gpus, nics, first, g, n);
    } else {
      p := NotBlockedAcross(gpus, nics, first, g, n);
    }
  }

  // ---- Determinism ----

  lemma FirstPhaseOrderFree(gpus: seq<GPU>, nics: seq<NIC>, first: seq<GPUNICPair>, gpus': seq<GPU>, nics': seq<NIC>,
                            first': seq<GPUNICPair>)
    requires UniqueGpus(gpus) && UniqueNics(nics) && UniqueGpus(gpus') && UniqueNics(nics')
    requires multiset(gpus) == multiset(gpus') && multiset(nics) == multiset(nics')
    requires FirstPhase(Matched(gpus, nics), first) && FirstPhase(Matched(gpus', nics'), first')
    ensures forall p :: p in first <==> p in first'
  {
    hide Group, Load;
    forall p ensures p in first <==> p in first' {
      GroupOrderFree(Matched(gpus, nics), Matched(gpus', nics'), p.gpu.numa);
    }
  }

  lemma RestOrderFree(gpus: seq<GPU>, nics: seq<NIC>, first: seq<GPUNICPair>, gpus': seq<GPU>, nics': seq<NIC>,
                      first': seq<GPUNICPair>)
    requires multiset(gpus) == multiset(gpus') && multiset(nics) == multiset(nics')
    requires forall p :: p in first <==> p in first'
    ensures SameNode(Unpaired(gpus, first), Unused(nics, first), Unpaired(gpus', first'), Unused(nics', first'))
  {
    SameElements(gpus, gpus');
    SameElements(nics, nics');
    forall id ensures HasGpu(first, id) <==> HasGpu(first', id) {
      SameMembersHasGpu(first, first', id);
      SameMembersHasGpu(first', first, id);
    }
    forall d ensures Load(first, d) > 0 <==> Load(first', d) > 0 {
      SameMembersLoad(first, first', d);
      SameMembersLoad(first', first, d);
    }
  }

  /** Neither the iteration order of the NUMA maps nor the order of the devices changes the result. */
  lemma PcieOrderFree(gpus: seq<GPU>, nics: seq<NIC>, first: seq<GPUNICPair>, pairs: seq<GPUNICPair>,
                      gpus': seq<GPU>, nics': seq<NIC>, first': seq<GPUNICPair>, pairs': seq<GPUNICPair>)
    requires UniqueGpus(gpus) && UniqueNics(nics) && UniqueGpus(gpus') && UniqueNics(nics')
    requires multiset(gpus) == multiset(gpus') && multiset(nics) == multiset(nics')
    requires Outcome(gpus, nics, first, pairs) && Outcome(gpus', nics', first', pairs')
    ensures pairs == pairs'
  {
    FirstPhaseOrderFree(gpus, nics, first, gpus', nics', first');
    RestOrderFree(gpus, nics, first, gpus', nics', first');
    UnpairedUnique(gpus, first);
    UnpairedUnique(gpus', first');
    UnusedUnique(nics, first);
    UnusedUnique(nics', first');
    CandidatesOrderFree(Unpaired(gpus, first), Unused(nics, first), Unpaired(gpus', first'), Unused(nics', first'));
    CrossApart(gpus, nics, first);
    CrossApart(gpus', nics', first');
    MatchesSmallerSide(gpus, nics, first, pairs);
    MatchesSmallerSide(gpus', nics', first', pairs');
    SameElements(pairs, BothPhases(gpus, nics, first));
    SameElements(pairs', BothPhases(gpus', nics', first'));
    StrictIds(pairs);
    StrictIds(pairs');
    SortedPairsUnique(pairs, pairs');
  }
}
