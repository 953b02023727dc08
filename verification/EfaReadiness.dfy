/** Which pairings the EFA bandwidth expansion accepts: it skips every node once a device is paired twice. */
module EfaReadiness {
  import opened Cluster
  import opened Matching
  import opened PairOrder
  import opened BuildPairs
  import EfaLanes
  import MultiNic
  import NicSharing
  import NumaGroups
  import PcieMatching
  import PingMesh

  /** GPU IDs are not negative and device names are valid. */
  ghost predicate Nameable(gpus: seq<GPU>, nics: seq<NIC>) {
    && (forall g :: g in gpus ==> g.id >= 0)
    && (forall n :: n in nics ==> PingMesh.ValidDevice(n.dev))
  }

  /** No NIC serves two GPUs. */
  ghost predicate NoNicShared(pairs: seq<GPUNICPair>) {
    forall p, q :: p in pairs && q in pairs && p.nic.dev == q.nic.dev ==> p.gpu == q.gpu
  }

  ghost predicate PairsOfNode(gpus: seq<GPU>, nics: seq<NIC>, pairs: seq<GPUNICPair>) {
    forall p :: p in pairs ==> p.gpu in gpus && p.nic in nics
  }

  lemma ResultOfNode(gpus: seq<GPU>, nics: seq<NIC>, srd: bool, first: seq<GPUNICPair>, pairs: seq<GPUNICPair>)
    requires Node(gpus, nics) && ResultOf(StrategyFor(gpus, nics, srd), gpus, nics, first, pairs)
    ensures PairsOfNode(gpus, nics, pairs)
  {
    match StrategyFor(gpus, nics, srd)
    case NumaAffinity => SharingOfNode(NumaGroups.Setup(NumaGroups.Zipped, gpus, nics), first, pairs);
    case NumaLoadBalance => SharingOfNode(NumaGroups.Setup(NumaGroups.Balanced, gpus, nics), first, pairs);
    case PcieDistance => PcieMatching.MatchesSmallerSide(gpus, nics, first, pairs);
    case MultiNicPcie => MultiNicOfNode(gpus, nics, pairs);
  }

  lemma SharingOfNode(s: NumaGroups.Setup, first: seq<GPUNICPair>, pairs: seq<GPUNICPair>)
    requires NumaGroups.Unique(s) && s.policy != NumaGroups.OneEach && s.nics != []
    requires NicSharing.Outcome(s, first, pairs)
    ensures PairsOfNode(s.gpus, s.nics, pairs)
  {
    NicSharing.EveryGpuOnce(s, first, pairs);
    hide NicSharing.Outcome;
    forall p | p in pairs ensures p.gpu in s.gpus && p.nic in s.nics {
      NicSharing.PenaltyMeansNoLocalNic(s, first, pairs, p);
    }
  }

  lemma MultiNicOfNode(gpus: seq<GPU>, nics: seq<NIC>, pairs: seq<GPUNICPair>)
    requires UniqueNics(nics) && MultiNic.Outcome(gpus, nics, pairs)
    ensures PairsOfNode(gpus, nics, pairs)
  {
    MultiNic.EveryNicOnce(gpus, nics, pairs);
    hide MultiNic.Outcome;
    forall p | p in pairs ensures p.gpu in gpus && p.nic in nics {
      MultiNic.ClosestIsScanned(gpus, p.nic);
    }
  }

  lemma OkIfDistinct(gpus: seq<GPU>, nics: seq<NIC>, pairs: seq<GPUNICPair>)
    requires Nameable(gpus, nics) && PairsOfNode(gpus, nics, pairs)
    ensures EfaLanes.PairsOk(pairs) <==> DistinctNics(pairs)
  {
    hide PingMesh.ValidDevice;
    forall i | 0 <= i < |pairs| ensures EfaLanes.PairOk(pairs[i]) { assert pairs[i] in pairs; }
    var devs := EfaLanes.Devices(pairs);
    if DistinctNics(pairs) {
      forall i, j | 0 <= i < j < |devs| ensures devs[i] != devs[j] { assert pairs[i].nic.dev != pairs[j].nic.dev; }
    }
    if Distinct(devs) {
      forall i, j | 0 <= i < j < |pairs| ensures pairs[i].nic.dev != pairs[j].nic.dev { assert devs[i] != devs[j]; }
    }
  }

  lemma DistinctIfNotShared(gpus: seq<GPU>, pairs: seq<GPUNICPair>)
    requires EachGpuOnce(gpus, pairs)
    ensures DistinctNics(pairs) <==> NoNicShared(pairs)
  {
    StrictIds(pairs);
    if NoNicShared(pairs) {
      forall i, j | 0 <= i < j < |pairs| ensures pairs[i].nic.dev != pairs[j].nic.dev {
        assert pairs[i] in pairs && pairs[j] in pairs && pairs[i].gpu.id != pairs[j].gpu.id;
      }
    }
    if DistinctNics(pairs) {
      forall p, q | p in pairs && q in pairs && p.nic.dev == q.nic.dev ensures p.gpu == q.gpu {
        var i :| 0 <= i < |pairs| && pairs[i] == p;
        var j :| 0 <= j < |pairs| && pairs[j] == q;
      }
    }
  }

  lemma AcceptedByStrategy(gpus: seq<GPU>, nics: seq<NIC>, srd: bool, first: seq<GPUNICPair>, pairs: seq<GPUNICPair>)
    requires Node(gpus, nics) && Nameable(gpus, nics)
    requires ResultOf(StrategyFor(gpus, nics, srd), gpus, nics, first, pairs)
    ensures StrategyFor(gpus, nics, srd) in {MultiNicPcie, PcieDistance} ==> EfaLanes.PairsOk(pairs)
    ensures StrategyFor(gpus, nics, srd) in {NumaAffinity, NumaLoadBalance} ==>
              (EfaLanes.PairsOk(pairs) <==> NoNicShared(pairs))
  {
    ResultOfNode(gpus, nics, srd, first, pairs);
    StrategyServes(gpus, nics, srd, first, pairs);
    hide ResultOf, EfaLanes.PairsOk, EachGpuOnce, NoNicShared, Nameable;
    OkIfDistinct(gpus, nics, pairs);
    if StrategyFor(gpus, nics, srd) != MultiNicPcie { DistinctIfNotShared(gpus, pairs); }
  }

  /** On a node with PCIe paths and no more GPUs than NICs the expansion accepts all pairs; on any other node
      it accepts them exactly if no NIC serves two GPUs. */
  lemma AcceptedExactly(gpus: seq<GPU>, nics: seq<NIC>, srd: bool, first: seq<GPUNICPair>, pairs: seq<GPUNICPair>)
    requires Node(gpus, nics) && Nameable(gpus, nics)
    requires ResultOf(StrategyFor(gpus, nics, srd), gpus, nics, first, pairs)
    ensures var deep := (exists g :: g in gpus && |g.path| >= 2) || (exists n :: n in nics && |n.path| >= 2);
            EfaLanes.PairsOk(pairs) <==> (deep && |gpus| <= |nics|) || NoNicShared(pairs)
  {
    DeepDevice(gpus, nics);
    hide ResultOf, EfaLanes.PairsOk, NoNicShared, Nameable;
    AcceptedByStrategy(gpus, nics, srd, first, pairs);
  }

  /** With more GPUs than NICs some NIC serves two GPUs, so the expansion skips every node. */
  lemma MoreGpusThanNicsAreSkipped(gpus: seq<GPU>, nics: seq<NIC>, srd: bool, first: seq<GPUNICPair>,
                                   env: EfaLanes.Env, node: string)
    requires Node(gpus, nics) && Nameable(gpus, nics) && |gpus| > |nics| && node in env.topoMap
    requires ResultOf(StrategyFor(gpus, nics, srd), gpus, nics, first, env.topoMap[node].pairs)
    ensures !EfaLanes.NodeOk(env, node)
  {
    var pairs := env.topoMap[node].pairs;
    ResultOfNode(gpus, nics, srd, first, pairs);
    StrategyServes(gpus, nics, srd, first, pairs);
    hide ResultOf, EfaLanes.PairsOk;
    OkIfDistinct(gpus, nics, pairs);
    if DistinctNics(pairs) { DistinctNicsFit(nics, pairs); }
  }

  lemma DistinctNicsFit(nics: seq<NIC>, pairs: seq<GPUNICPair>)
    requires UniqueNics(nics) && DistinctNics(pairs) && forall p :: p in pairs ==> p.nic in nics
    ensures |pairs| <= |nics|
  {
    forall d ensures Load(pairs, d) <= 1 { LoadOfDistinct(pairs, d); }
    forall i | 0 <= i < |pairs| ensures pairs[i].nic in nics { assert pairs[i] in pairs; }
    PcieMatching.FitsNics(nics, pairs);
  }
}
