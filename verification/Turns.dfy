/** Which NIC a GPU gets when NICs are handed out in turn, told by ranks: how many devices come before. */
module Turns {
  import opened Cluster
  import opened Ordering
  import opened Matching
  import opened PairOrder
  import opened Topology
  import opened NumaGroups
  import opened NicSharing
  import FallbackOrder

  // ---- Ranks in sorted lists ----

  ghost function GpusBelow(gs: seq<GPU>, g: GPU): set<GPU> {
    set h | h in gs && h.id < g.id
  }

  /** The NICs with smaller names. */
  ghost function NicsBelow(ns: seq<NIC>, n: NIC): set<NIC> {
    set x | x in ns && StrLess(x.dev, n.dev)
  }

  /** The GPUs of the same NUMA node with smaller IDs. */
  ghost function GpuRank(gpus: seq<GPU>, g: GPU): nat {
    |set h | h in gpus && h.numa == g.numa && h.id < g.id|
  }

  /** The NICs of the same NUMA node with smaller names. */
  ghost function NicRank(nics: seq<NIC>, n: NIC): nat {
    |set x | x in nics && x.numa == n.numa && StrLess(x.dev, n.dev)|
  }

  lemma GpuPosition(gs: seq<GPU>, j: nat)
    requires UniqueGpus(gs) && Sorted(gs, GpuLeq) && j < |gs|
    ensures |GpusBelow(gs, gs[j])| == j
  {
    GpusStrictlySorted(gs);
    forall i | 0 <= i < |gs| ensures gs[i].id < gs[j].id <==> i < j {
      assert GpuLeq(gs[i], gs[j]) || GpuLeq(gs[j], gs[i]);
    }
    assert GpusBelow(gs, gs[j]) == set h | h in gs[..j];
    DistinctSize(gs[..j]);
  }

  lemma NicOrder(ns: seq<NIC>, i: nat, j: nat)
    requires UniqueNics(ns) && Sorted(ns, NicLeq) && i < |ns| && j < |ns|
    ensures StrLess(ns[i].dev, ns[j].dev) <==> i < j
  {
    NicsStrictlySorted(ns);
    StrLessTrichotomy(ns[i].dev, ns[j].dev);
    assert NicLeq(ns[i], ns[j]) || NicLeq(ns[j], ns[i]);
  }

  lemma NicPosition(ns: seq<NIC>, j: nat)
    requires UniqueNics(ns) && Sorted(ns, NicLeq) && j < |ns|
    ensures |NicsBelow(ns, ns[j])| == j
  {
    forall i | 0 <= i < |ns| ensures StrLess(ns[i].dev, ns[j].dev) <==> i < j { NicOrder(ns, i, j); }
    hide StrLess;
    assert NicsBelow(ns, ns[j]) == set x | x in ns[..j];
    DistinctSize(ns[..j]);
  }

  // ---- numaAffinityPairing inside a NUMA node ----

  lemma RanksInGroup(s: Setup, numa: int, i: nat, j: nat)
    requires Unique(s) && s.policy == Zipped && NicsOn(s.nics, numa) != []
    requires i < |GpusInOrder(s.gpus, numa)| && j < |NicsInOrder(s.nics, numa)|
    ensures GpuRank(s.gpus, GpusInOrder(s.gpus, numa)[i]) == i
    ensures NicRank(s.nics, NicsInOrder(s.nics, numa)[j]) == j
  {
    ZipFacts(s, numa);
    var gs, ns := GpusInOrder(s.gpus, numa), NicsInOrder(s.nics, numa);
    hide GpusInOrder, NicsInOrder;
    assert gs[i] in gs && ns[j] in ns;
    GpuPosition(gs, i);
    NicPosition(ns, j);
    assert (set h | h in s.gpus && h.numa == numa && h.id < gs[i].id) == GpusBelow(gs, gs[i]);
    assert (set x | x in s.nics && x.numa == numa && StrLess(x.dev, ns[j].dev)) == NicsBelow(ns, ns[j]);
  }

  lemma ZippedAt(s: Setup, p: GPUNICPair) returns (i: nat)
    requires Unique(s) && s.policy == Zipped && p in Group(s, p.gpu.numa)
    ensures NicsOn(s.nics, p.gpu.numa) != [] && i < |GpusInOrder(s.gpus, p.gpu.numa)|
    ensures |NicsInOrder(s.nics, p.gpu.numa)| == |NicsOn(s.nics, p.gpu.numa)|
    ensures p.gpu == GpusInOrder(s.gpus, p.gpu.numa)[i]
    ensures p.nic == NicsInOrder(s.nics, p.gpu.numa)[i % |NicsOn(s.nics, p.gpu.numa)|]
  {
    ZipFacts(s, p.gpu.numa);
    var r := Group(s, p.gpu.numa);
    i :| 0 <= i < |r| && r[i] == p;
  }

  /** A GPU with k other GPUs of its NUMA node before it gets the NIC of that node with k mod n others before
      it, n being the number of NICs there. */
  lemma LocalTurn(gpus: seq<GPU>, nics: seq<NIC>, first: seq<GPUNICPair>, pairs: seq<GPUNICPair>, p: GPUNICPair)
    requires UniqueGpus(gpus) && UniqueNics(nics) && nics != []
    requires Outcome(Setup(Zipped, gpus, nics), first, pairs) && p in pairs && p.gpu.numa == p.nic.numa
    ensures NicsOn(nics, p.gpu.numa) != []
    ensures NicRank(nics, p.nic) == GpuRank(gpus, p.gpu) % |NicsOn(nics, p.gpu.numa)|
  {
    var s := Setup(Zipped, gpus, nics);
    EitherPhase(s, first, pairs, p);
    hide GpuRank, NicRank, Fallback;
    OutcomeFirst(s, first, pairs);
    if p in Fallback(s, first) {
      FallbackIsRemote(s, first, p);
    } else {
      InFirstPhase(s, first, p);
      var i := ZippedAt(s, p);
      RanksInGroup(s, p.gpu.numa, i, i % |NicsOn(nics, p.gpu.numa)|);
    }
  }

  lemma InFirstPhase(s: Setup, first: seq<GPUNICPair>, p: GPUNICPair)
    requires FirstPhase(s, first) && p in first
    ensures p in Group(s, p.gpu.numa)
  {
    hide Group, Load;
  }

  // ---- Both NUMA strategies across NUMA nodes ----

  /** Some NIC is on this NUMA node. */
  ghost predicate HasNic(nics: seq<NIC>, numa: int) {
    exists n :: n in nics && n.numa == numa
  }

  /** The GPUs listed before position i whose NUMA node has no NIC. */
  ghost function OrphansBefore(gpus: seq<GPU>, nics: seq<NIC>, i: nat): set<nat>
    requires i <= |gpus|
  {
    set j: nat | j < i && !HasNic(nics, gpus[j].numa)
  }

  lemma {:induction false} OrphanCount(gpus: seq<GPU>, nics: seq<NIC>, i: nat)
    requires i <= |gpus|
    ensures |FallbackOrder.Orphaned(gpus[..i], nics)| == |OrphansBefore(gpus, nics, i)|
  {
    if i == 0 {
      assert OrphansBefore(gpus, nics, 0) == {};
    } else {
      OrphanCount(gpus, nics, i - 1);
      assert gpus[..i][..i - 1] == gpus[..i - 1];
      NumaHasNics(nics, gpus[i - 1].numa);
      hide HasNic;
      OneMoreOrphan(gpus, nics, i);
      NoNicMeans(nics, gpus[i - 1].numa);
    }
  }

  lemma NoNicMeans(nics: seq<NIC>, numa: int)
    ensures NicsOn(nics, numa) == [] <==> !HasNic(nics, numa)
  {
    NumaHasNics(nics, numa);
  }

  lemma OneMoreOrphan(gpus: seq<GPU>, nics: seq<NIC>, i: nat)
    requires 0 < i <= |gpus|
    ensures |OrphansBefore(gpus, nics, i)|
         == |OrphansBefore(gpus, nics, i - 1)| + if HasNic(nics, gpus[i - 1].numa) then 0 else 1
  {
    hide HasNic;
    if HasNic(nics, gpus[i - 1].numa) {
      assert OrphansBefore(gpus, nics, i) == OrphansBefore(gpus, nics, i - 1);
    } else {
      assert OrphansBefore(gpus, nics, i) == OrphansBefore(gpus, nics, i - 1) + {i - 1};
    }
  }

  lemma {:induction false} OrphanAt(gpus: seq<GPU>, nics: seq<NIC>, i: nat)
    requires i < |gpus| && NicsOn(nics, gpus[i].numa) == []
    ensures var k := |FallbackOrder.Orphaned(gpus[..i], nics)|;
            k < |FallbackOrder.Orphaned(gpus, nics)| && FallbackOrder.Orphaned(gpus, nics)[k] == gpus[i]
  {
    hide NicsOn, FallbackOrder.Orphaned;
    var n := |gpus| - 1;
    LastOrphan(gpus, nics);
    if i < n {
      OrphanAt(gpus[..n], nics, i);
      assert gpus[..n][..i] == gpus[..i];
    }
  }

  lemma LastOrphan(gpus: seq<GPU>, nics: seq<NIC>)
    requires gpus != []
    ensures var n := |gpus| - 1;
            FallbackOrder.Orphaned(gpus, nics)
            == FallbackOrder.Orphaned(gpus[..n], nics) + if NicsOn(nics, gpus[n].numa) == [] then [gpus[n]] else []
  {
  }

  lemma UniqueOrphans(gpus: seq<GPU>, nics: seq<NIC>, first: seq<GPUNICPair>, i: nat, j: nat)
    requires UniqueGpus(gpus) && FallbackOrder.Orphaned(gpus, nics) == Unpaired(gpus, first)
    requires i < |Unpaired(gpus, first)| && j < |Unpaired(gpus, first)| && Unpaired(gpus, first)[i] == Unpaired(gpus, first)[j]
    ensures i == j
  {
    UnpairedUnique(gpus, first);
  }

  /** The pair of a GPU whose NUMA node has no NIC, by its place in the fallback. */
  lemma FallbackAt(s: Setup, first: seq<GPUNICPair>, pairs: seq<GPUNICPair>, p: GPUNICPair, i: nat)
    requires Unique(s) && s.policy != OneEach && s.nics != [] && Outcome(s, first, pairs) && p in pairs
    requires i < |s.gpus| && p.gpu == s.gpus[i] && NicsOn(s.nics, p.gpu.numa) == []
    ensures p.nic == AllNics(s.nics)[|OrphansBefore(s.gpus, s.nics, i)| % |s.nics|]
  {
    hide OrphansBefore, FallbackOrder.Orphaned;
    EitherPhase(s, first, pairs, p);
    OutcomeFirst(s, first, pairs);
    hide Outcome, Fallback, FirstPhase;
    if p in first { FirstIsLocal(s, first, p); }
    assert p !in first;
    FallbackOrder.LeftAreOrphaned(s, first);
    OrphanAt(s.gpus, s.nics, i);
    OrphanCount(s.gpus, s.nics, i);
    var k := |OrphansBefore(s.gpus, s.nics, i)|;
    var j := FallbackIndex(s, first, p);
    UniqueOrphans(s.gpus, s.nics, first, j, k);
  }

  lemma FallbackIndex(s: Setup, first: seq<GPUNICPair>, p: GPUNICPair) returns (j: nat)
    requires s.nics != [] && p in Fallback(s, first)
    ensures j < |Unpaired(s.gpus, first)| && Unpaired(s.gpus, first)[j] == p.gpu
    ensures p.nic == AllNics(s.nics)[j % |s.nics|]
  {
    j :| 0 <= j < |Fallback(s, first)| && Fallback(s, first)[j] == p;
  }

  /** A GPU whose NUMA node has no NIC, with k such GPUs listed before it, gets the NIC of the node with k mod n
      others before it by name, n being the number of NICs. */
  lemma RemoteTurn(s: Setup, first: seq<GPUNICPair>, pairs: seq<GPUNICPair>, p: GPUNICPair, i: nat)
    requires Unique(s) && s.policy != OneEach && s.nics != [] && Outcome(s, first, pairs) && p in pairs
    requires i < |s.gpus| && p.gpu == s.gpus[i] && !HasNic(s.nics, p.gpu.numa)
    ensures |NicsBelow(s.nics, p.nic)| == |OrphansBefore(s.gpus, s.nics, i)| % |s.nics|
  {
    NoNicMeans(s.nics, p.gpu.numa);
    hide Outcome, HasNic, AllNics, OrphansBefore;
    FallbackAt(s, first, pairs, p, i);
    var ns := AllNics(s.nics);
    AllNicsUnique(s.nics, ns);
    NicPosition(ns, |OrphansBefore(s.gpus, s.nics, i)| % |s.nics|);
    assert NicsBelow(s.nics, p.nic) == NicsBelow(ns, p.nic);
  }
}
