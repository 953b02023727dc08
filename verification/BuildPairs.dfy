/** buildPairs: which pairing strategy a node gets, and what every strategy guarantees. */
module BuildPairs {
  import opened Cluster
  import opened Ordering
  import opened Matching
  import opened PairOrder
  import opened Pcie
  import opened Topology
  import opened NumaGroups
  import PcieMatching
  import NicSharing
  import MultiNic

  datatype Strategy = NumaAffinity | PcieDistance | MultiNicPcie | NumaLoadBalance

  /** For a node with both GPUs and NICs. */
  function StrategyFor(gpus: seq<GPU>, nics: seq<NIC>, srd: bool): Strategy {
    if !Deep(gpus, nics) then NumaAffinity
    else if |gpus| > |nics| then NumaLoadBalance
    else if srd && |gpus| < |nics| then MultiNicPcie
    else PcieDistance
  }

  /** pairs is a possible result of the strategy; first is what its phase 1 made. */
  ghost predicate ResultOf(strategy: Strategy, gpus: seq<GPU>, nics: seq<NIC>, first: seq<GPUNICPair>,
                           pairs: seq<GPUNICPair>) {
    match strategy
    case NumaAffinity => NicSharing.Outcome(Setup(Zipped, gpus, nics), first, pairs)
    case NumaLoadBalance => NicSharing.Outcome(Setup(Balanced, gpus, nics), first, pairs)
    case PcieDistance => PcieMatching.Outcome(gpus, nics, first, pairs)
    case MultiNicPcie => MultiNic.Outcome(gpus, nics, pairs)
  }

  method BuildPairs(gpus: seq<GPU>, nics: seq<NIC>, srd: bool)
    returns (pairs: seq<GPUNICPair>, flat: bool, strategy: Strategy, ghost first: seq<GPUNICPair>)
    requires UniqueGpus(gpus) && UniqueNics(nics)
    ensures gpus == [] || nics == [] ==> pairs == [] && flat && strategy == NumaAffinity
    ensures Node(gpus, nics) ==> strategy == StrategyFor(gpus, nics, srd) && (flat <==> !Deep(gpus, nics))
    ensures Node(gpus, nics) ==> ResultOf(strategy, gpus, nics, first, pairs)
    ensures Node(gpus, nics) ==> Suits(gpus, nics, srd, pairs)
  {
    hide NicSharing.Outcome, PcieMatching.Outcome, Suits, Deep, EachGpuOnce;
    first := [];
    if |nics| == 0 || |gpus| == 0 {
      return [], true, NumaAffinity, [];
    }
    if |gpus| == |nics| {
      flat := IsFlat(gpus, nics);
      var has := HasPciePaths(gpus, nics);
      if flat || !has {
        pairs, first := NicSharing.NumaAffinityPairing(gpus, nics);
        NothingIsForgotten(gpus, nics, srd, first, pairs);
        return pairs, flat, NumaAffinity, first;
      }
      pairs, first := PcieMatching.PcieDistancePairing(gpus, nics);
      NothingIsForgotten(gpus, nics, srd, first, pairs);
      return pairs, false, PcieDistance, first;
    }
    if srd && |nics| > |gpus| {
      var has := HasPciePaths(gpus, nics);
      if has {
        pairs := MultiNic.MultiNicPciePairing(gpus, nics);
        NothingIsForgotten(gpus, nics, srd, first, pairs);
        return pairs, false, MultiNicPcie, first;
      }
    }
    flat := IsFlat(gpus, nics);
    var has := HasPciePaths(gpus, nics);
    if flat || !has {
      pairs, first := NicSharing.NumaAffinityPairing(gpus, nics);
      NothingIsForgotten(gpus, nics, srd, first, pairs);
      return pairs, flat, NumaAffinity, first;
    }
    if |gpus| <= |nics| {
      pairs, first := PcieMatching.PcieDistancePairing(gpus, nics);
      NothingIsForgotten(gpus, nics, srd, first, pairs);
      return pairs, false, PcieDistance, first;
    }
    pairs, first := NicSharing.NumaLoadBalancePairing(gpus, nics);
    NothingIsForgotten(gpus, nics, srd, first, pairs);
    return pairs, false, NumaLoadBalance, first;
  }

  lemma MatchedGpusOnce(gpus: seq<GPU>, nics: seq<NIC>, first: seq<GPUNICPair>, pairs: seq<GPUNICPair>)
    requires UniqueGpus(gpus) && UniqueNics(nics) && |gpus| <= |nics| && PcieMatching.Outcome(gpus, nics, first, pairs)
    ensures EachGpuOnce(gpus, pairs) && DistinctNics(pairs)
  {
    PcieMatching.MatchesSmallerSide(gpus, nics, first, pairs);
    StrictIds(pairs);
    forall i | 0 <= i < |pairs| ensures pairs[i].gpu in gpus { assert pairs[i] in pairs; }
    FullFirstCovers(gpus, pairs);
    SortedCover(gpus, pairs, pairs);
  }

  /** Every GPU is in exactly one pair, or, with several NICs per GPU, every NIC is. */
  lemma StrategyServes(gpus: seq<GPU>, nics: seq<NIC>, srd: bool, first: seq<GPUNICPair>, pairs: seq<GPUNICPair>)
    requires Node(gpus, nics) && ResultOf(StrategyFor(gpus, nics, srd), gpus, nics, first, pairs)
    ensures StrategyFor(gpus, nics, srd) != MultiNicPcie ==> EachGpuOnce(gpus, pairs)
    ensures StrategyFor(gpus, nics, srd) == MultiNicPcie ==> MultiNic.EachNicOnce(nics, pairs)
    ensures StrategyFor(gpus, nics, srd) == PcieDistance ==> DistinctNics(pairs)
  {
    match StrategyFor(gpus, nics, srd)
    case NumaAffinity => NicSharing.EveryGpuOnce(Setup(Zipped, gpus, nics), first, pairs);
    case NumaLoadBalance => NicSharing.EveryGpuOnce(Setup(Balanced, gpus, nics), first, pairs);
    case PcieDistance => MatchedGpusOnce(gpus, nics, first, pairs);
    case MultiNicPcie => MultiNic.EveryNicOnce(gpus, nics, pairs);
  }

  /** The hop count is the distance in the PCIe tree, and 100 more across NUMA nodes. */
  ghost predicate HopsAreDistance(pairs: seq<GPUNICPair>) {
    forall p :: p in pairs ==> p.hops == DeviceDistance(p.gpu, p.nic) + if p.gpu.numa == p.nic.numa then 0 else 100
  }

  /** The hop count only tells NUMA crossings. */
  ghost predicate HopsAreNuma(pairs: seq<GPUNICPair>) {
    forall p :: p in pairs ==> p.hops == if p.gpu.numa == p.nic.numa then 0 else 100
  }

  lemma MultiNicHops(gpus: seq<GPU>, nics: seq<NIC>, pairs: seq<GPUNICPair>)
    requires UniqueNics(nics) && MultiNic.Outcome(gpus, nics, pairs)
    ensures forall p :: p in pairs ==> p.hops <= 50 && (p.hops == 50 || p.hops == DeviceDistance(p.gpu, p.nic))
  {
    MultiNic.EveryNicOnce(gpus, nics, pairs);
    hide MultiNic.Outcome;
    forall p | p in pairs ensures p.hops <= 50 && (p.hops == 50 || p.hops == DeviceDistance(p.gpu, p.nic)) {
      MultiNic.ClosestIsScanned(gpus, p.nic);
    }
  }

  lemma SharingHops(s: Setup, first: seq<GPUNICPair>, pairs: seq<GPUNICPair>)
    requires Unique(s) && s.policy != OneEach && s.nics != [] && NicSharing.Outcome(s, first, pairs)
    ensures s.policy == Zipped ==> HopsAreNuma(pairs)
    ensures s.policy == Balanced ==> HopsAreDistance(pairs)
  {
    hide NicSharing.Outcome;
    forall p | p in pairs ensures p.hops == NicSharing.HopsOf(s.policy, p.gpu, p.nic) {
      NicSharing.PenaltyMeansNoLocalNic(s, first, pairs, p);
    }
  }

  /** What a node gets, by its paths, its numbers of devices and its fabric: with a path of two segments and
      more NICs than GPUs on SRD, every NIC once; otherwise every GPU once, with a NIC of its own if there are
      enough; and hops that measure the distance only if there is such a path. */
  ghost predicate Suits(gpus: seq<GPU>, nics: seq<NIC>, srd: bool, pairs: seq<GPUNICPair>) {
    var deep := (exists g :: g in gpus && |g.path| >= 2) || (exists n :: n in nics && |n.path| >= 2);
    if deep && srd && |nics| > |gpus| then
      MultiNic.EachNicOnce(nics, pairs)
      && forall p :: p in pairs ==> p.hops <= 50 && (p.hops == 50 || p.hops == DeviceDistance(p.gpu, p.nic))
    else
      && EachGpuOnce(gpus, pairs)
      && (deep && |nics| >= |gpus| ==> DistinctNics(pairs))
      && (if deep then HopsAreDistance(pairs) else HopsAreNuma(pairs))
  }

  /** Whatever the topology, no device that can be served is forgotten. */
  lemma NothingIsForgotten(gpus: seq<GPU>, nics: seq<NIC>, srd: bool, first: seq<GPUNICPair>, pairs: seq<GPUNICPair>)
    requires Node(gpus, nics) && ResultOf(StrategyFor(gpus, nics, srd), gpus, nics, first, pairs)
    ensures Suits(gpus, nics, srd, pairs)
  {
    hide NicSharing.Outcome, PcieMatching.Outcome, MultiNic.Outcome, EachGpuOnce, MultiNic.EachNicOnce;
    DeepDevice(gpus, nics);
    StrategyServes(gpus, nics, srd, first, pairs);
    match StrategyFor(gpus, nics, srd)
    case NumaAffinity => SharingHops(Setup(Zipped, gpus, nics), first, pairs);
    case NumaLoadBalance => SharingHops(Setup(Balanced, gpus, nics), first, pairs);
    case PcieDistance => PcieMatching.MatchesSmallerSide(gpus, nics, first, pairs);
    case MultiNicPcie => MultiNicHops(gpus, nics, pairs);
  }

  lemma DeepDevice(gpus: seq<GPU>, nics: seq<NIC>)
    ensures Deep(gpus, nics) <==> (exists g :: g in gpus && |g.path| >= 2) || (exists n :: n in nics && |n.path| >= 2)
  {
    if g :| g in gpus && |g.path| >= 2 { var i :| 0 <= i < |gpus| && gpus[i] == g; }
    if n :| n in nics && |n.path| >= 2 { var i :| 0 <= i < |nics| && nics[i] == n; }
  }

  lemma MultiNicDeterministic(gpus: seq<GPU>, nics: seq<NIC>, pairs: seq<GPUNICPair>, pairs': seq<GPUNICPair>)
    requires UniqueNics(nics) && MultiNic.Outcome(gpus, nics, pairs) && MultiNic.Outcome(gpus, nics, pairs')
    ensures pairs == pairs'
  {
    MultiNic.EveryNicOnce(gpus, nics, pairs);
    MultiNic.EveryNicOnce(gpus, nics, pairs');
    MultiNic.ByGpuAndDevTotalPreorder();
    MultiNic.InListedOrder(nics, pairs);
    MultiNic.InListedOrder(nics, pairs');
    SameElements(pairs, pairs');
    StrictlySortedUnique(pairs, pairs', MultiNic.ByGpuAndDev);
  }

  /** Two runs on the same node give the same pairs, though they may iterate the NUMA maps differently
      and sort.Slice is not stable. */
  lemma BuildPairsIsDeterministic(gpus: seq<GPU>, nics: seq<NIC>, srd: bool, first: seq<GPUNICPair>,
                                  pairs: seq<GPUNICPair>, first': seq<GPUNICPair>, pairs': seq<GPUNICPair>)
    requires Node(gpus, nics)
    requires ResultOf(StrategyFor(gpus, nics, srd), gpus, nics, first, pairs)
    requires ResultOf(StrategyFor(gpus, nics, srd), gpus, nics, first', pairs')
    ensures pairs == pairs'
  {
    match StrategyFor(gpus, nics, srd)
    case NumaAffinity =>
      var s := Setup(Zipped, gpus, nics);
      NicSharing.SharingOrderFree(s, first, pairs, s, first', pairs');
    case NumaLoadBalance =>
      var s := Setup(Balanced, gpus, nics);
      NicSharing.SharingOrderFree(s, first, pairs, s, first', pairs');
    case PcieDistance => PcieMatching.PcieOrderFree(gpus, nics, first, pairs, gpus, nics, first', pairs');
    case MultiNicPcie => MultiNicDeterministic(gpus, nics, pairs, pairs');
  }
}
