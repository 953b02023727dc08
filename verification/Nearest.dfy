/** What the distance-based strategies return, in hops: who gets the near NICs, and when a GPU does without. */
module Nearest {
  import opened Cluster
  import opened Ordering
  import opened Matching
  import opened PairOrder
  import opened Topology
  import opened Dealing
  import opened NumaGroups
  import PcieMatching
  import NicSharing

  /** pcieDistancePairing, inside a NUMA node: a GPU and a NIC that are not paired together have not lost
      anything. One of them is in a pair of that node with fewer hops, or equally many and the smaller GPU ID,
      or the same GPU and the smaller device name. */
  lemma LocalPairsAreNearest(gpus: seq<GPU>, nics: seq<NIC>, first: seq<GPUNICPair>, pairs: seq<GPUNICPair>, g: GPU, n: NIC)
    returns (p: GPUNICPair)
    requires UniqueGpus(gpus) && UniqueNics(nics) && PcieMatching.Outcome(gpus, nics, first, pairs)
    requires g in gpus && n in nics && g.numa == n.numa
    ensures p in pairs && p.gpu.numa == p.nic.numa == g.numa && (p.gpu == g || p.nic == n)
    ensures p.hops <= DeviceDistance(g, n)
    ensures p.hops == DeviceDistance(g, n) ==>
              p.gpu.id < g.id || (p.gpu == g && (p.nic == n || StrLess(p.nic.dev, n.dev)))
  {
    hide PcieMatching.Outcome;
    p := PcieMatching.NoBlockingPair(gpus, nics, first, pairs, g, n);
    PcieMatching.MatchesSmallerSide(gpus, nics, first, pairs);
    if p.gpu.id == g.id { SameId(gpus, p.gpu, g); }
    if p.nic.dev == n.dev { SameDev(nics, p.nic, n); }
  }

  /** Across NUMA nodes: one of the two is in a pair inside its NUMA node, or in a pair across with fewer hops
      or the smaller names. */
  lemma RemotePairsAreNearest(gpus: seq<GPU>, nics: seq<NIC>, first: seq<GPUNICPair>, pairs: seq<GPUNICPair>, g: GPU, n: NIC)
    returns (p: GPUNICPair)
    requires UniqueGpus(gpus) && UniqueNics(nics) && PcieMatching.Outcome(gpus, nics, first, pairs)
    requires g in gpus && n in nics && g.numa != n.numa
    ensures p in pairs && (p.gpu == g || p.nic == n)
    ensures p.gpu.numa == p.nic.numa || p.hops <= DeviceDistance(g, n) + 100
    ensures p.gpu.numa != p.nic.numa && p.hops == DeviceDistance(g, n) + 100 ==>
              p.gpu.id < g.id || (p.gpu == g && (p.nic == n || StrLess(p.nic.dev, n.dev)))
  {
    hide PcieMatching.Outcome;
    p := PcieMatching.NoBlockingPair(gpus, nics, first, pairs, g, n);
    PcieMatching.MatchesSmallerSide(gpus, nics, first, pairs);
    if p.gpu.id == g.id { SameId(gpus, p.gpu, g); }
    if p.nic.dev == n.dev { SameDev(nics, p.nic, n); }
  }

  /** The pairs of this NIC that come before its pair with g: nearer, or as near with a smaller GPU ID. */
  ghost function Ahead(pairs: seq<GPUNICPair>, g: GPU, n: NIC): set<GPUNICPair> {
    set p | p in pairs && p.nic == n && p.gpu.numa == n.numa
            && (p.hops < DeviceDistance(g, n) || (p.hops == DeviceDistance(g, n) && p.gpu.id < g.id))
  }

  /** numaLoadBalancePairing: a GPU is with a NIC of its NUMA node at least as near as n, the smaller name
      deciding a tie; or n already serves the even share of ceil(GPUs / NICs) GPUs ahead of it. */
  lemma NearestOrShareUsedUp(gpus: seq<GPU>, nics: seq<NIC>, first: seq<GPUNICPair>, pairs: seq<GPUNICPair>, g: GPU, n: NIC)
    requires UniqueGpus(gpus) && UniqueNics(nics)
    requires NicSharing.Outcome(Setup(Balanced, gpus, nics), first, pairs)
    requires g in gpus && n in nics && g.numa == n.numa
    ensures (exists p :: p in pairs && p.gpu == g && p.nic.numa == g.numa
                         && (p.hops < DeviceDistance(g, n)
                             || (p.hops == DeviceDistance(g, n) && (p.nic == n || StrLess(p.nic.dev, n.dev)))))
         || |Ahead(pairs, g, n)| >= EvenShare(|GpusOn(gpus, g.numa)|, |NicsOn(nics, g.numa)|)
  {
    hide NicSharing.Outcome;
    var s := Setup(Balanced, gpus, nics);
    var early := NicSharing.NearestUnlessFull(s, first, pairs, g, n);
    if HasGpu(early, g.id) {
      var i :| 0 <= i < |early| && early[i].gpu.id == g.id;
      var p := early[i];
      assert p in early;
      SameId(gpus, p.gpu, g);
      if p.nic.dev == n.dev { SameDev(nics, p.nic, n); }
      assert p in pairs && p.gpu == g && p.nic.numa == g.numa;
    } else {
      NicSharing.LoadIsSetSize(early, n.dev);
      forall p | p in NicSharing.Users(early, n.dev) ensures p in Ahead(pairs, g, n) { EarlyIsAhead(s, early, pairs, g, n, p); }
      SubsetSize(NicSharing.Users(early, n.dev), Ahead(pairs, g, n));
    }
  }

  lemma EarlyIsAhead(s: Setup, early: seq<GPUNICPair>, pairs: seq<GPUNICPair>, g: GPU, n: NIC, p: GPUNICPair)
    requires Unique(s) && g in s.gpus && n in s.nics && g.numa == n.numa
    requires p in early && p in pairs && CandidateLeq(p, Candidate(g, n)) && InGroup(s, g.numa, p) && p.nic.dev == n.dev
    requires !HasGpu(early, g.id)
    ensures p in Ahead(pairs, g, n)
  {
    SameDev(s.nics, p.nic, n);
    var i :| 0 <= i < |early| && early[i] == p;
    assert p.gpu.id != g.id;
  }
}
