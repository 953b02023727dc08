/** Phase 1 of three pairing strategies: pairing inside every NUMA group, whatever the order in which the
    groups come. */
module NumaGroups {
  import opened Cluster
  import opened Ordering
  import opened Matching
  import opened PairOrder
  import opened Topology
  import opened Dealing

  /** pcieDistancePairing uses every NIC of a group once, numaLoadBalancePairing shares them evenly by
      distance, numaAffinityPairing deals them out in order. */
  datatype Policy = OneEach | Balanced | Zipped

  /** The node and how its groups are assigned. */
  datatype Setup = Setup(policy: Policy, gpus: seq<GPU>, nics: seq<NIC>)

  ghost predicate Unique(s: Setup) {
    UniqueGpus(s.gpus) && UniqueNics(s.nics)
  }

  function Capacity(s: Setup, numa: int): nat {
    var k := |NicsOn(s.nics, numa)|;
    if s.policy == OneEach || k == 0 then 1 else EvenShare(|GpusOn(s.gpus, numa)|, k)
  }

  function GroupCandidates(s: Setup, numa: int): seq<GPUNICPair> {
    Candidates(GpusOn(s.gpus, numa), NicsOn(s.nics, numa))
  }

  function SameNumaHops(g: GPU, n: NIC): nat { 0 }

  function FirstHops(policy: Policy): (GPU, NIC) -> nat {
    if policy == Zipped then SameNumaHops else DeviceDistance
  }

  function Group(s: Setup, numa: int): seq<GPUNICPair> {
    if s.policy != Zipped then Assign(GroupCandidates(s, numa), Capacity(s, numa), [])
    else if NicsOn(s.nics, numa) == [] then []
    else Dealt(GpusInOrder(s.gpus, numa), NicsInOrder(s.nics, numa), FirstHops(Zipped))
  }

  /** A pair that the strategy can make inside this group. */
  ghost predicate InGroup(s: Setup, numa: int, p: GPUNICPair) {
    && p.gpu in s.gpus && p.gpu.numa == numa && p.nic in s.nics && p.nic.numa == numa
    && p == MakePair(p.gpu, p.nic, FirstHops(s.policy)(p.gpu, p.nic))
  }

  lemma ZipFacts(s: Setup, numa: int)
    requires Unique(s) && s.policy == Zipped && NicsOn(s.nics, numa) != []
    ensures UniqueGpus(GpusInOrder(s.gpus, numa)) && UniqueNics(NicsInOrder(s.nics, numa))
    ensures NicsInOrder(s.nics, numa) != []
    ensures |GpusInOrder(s.gpus, numa)| == |GpusOn(s.gpus, numa)|
    ensures |NicsInOrder(s.nics, numa)| == |NicsOn(s.nics, numa)|
    ensures forall g :: g in GpusInOrder(s.gpus, numa) <==> g in s.gpus && g.numa == numa
    ensures forall n :: n in NicsInOrder(s.nics, numa) <==> n in s.nics && n.numa == numa
  {
    GpusOnUnique(s.gpus, numa);
    NicsOnUnique(s.nics, numa);
    SameElements(GpusInOrder(s.gpus, numa), GpusOn(s.gpus, numa));
    SameElements(NicsInOrder(s.nics, numa), NicsOn(s.nics, numa));
    PermutedGpuList(GpusOn(s.gpus, numa), GpusInOrder(s.gpus, numa));
    PermutedNicList(NicsOn(s.nics, numa), NicsInOrder(s.nics, numa));
  }

  lemma ZipMembers(s: Setup, numa: int)
    requires Unique(s) && s.policy == Zipped && NicsOn(s.nics, numa) != []
    ensures DistinctGpus(Group(s, numa))
    ensures forall p :: p in Group(s, numa) ==> InGroup(s, numa, p)
  {
    ZipFacts(s, numa);
    var gs, ns := GpusInOrder(s.gpus, numa), NicsInOrder(s.nics, numa);
    var r := Group(s, numa);
    hide GpusInOrder, NicsInOrder;
    forall p | p in r ensures InGroup(s, numa, p) {
      var i :| 0 <= i < |r| && r[i] == p;
      assert gs[i] in gs && ns[i % |ns|] in ns;
    }
  }

  lemma GroupMembers(s: Setup, numa: int)
    requires Unique(s)
    ensures DistinctGpus(Group(s, numa))
    ensures forall p :: p in Group(s, numa) ==> InGroup(s, numa, p)
  {
    if s.policy == Zipped {
      if NicsOn(s.nics, numa) != [] { ZipMembers(s, numa); }
    } else {
      var es := GroupCandidates(s, numa);
      AssignKeeps(es, Capacity(s, numa), []);
      hide Assign;
      forall p | p in es ensures IsCandidate(p, GpusOn(s.gpus, numa), NicsOn(s.nics, numa)) {}
    }
  }

  lemma GroupLoadBound(s: Setup, numa: int, n: NIC)
    requires Unique(s) && n in s.nics && n.numa == numa
    ensures Load(Group(s, numa), n.dev) <= Capacity(s, numa)
    ensures s.policy == Zipped ==> Load(Group(s, numa), n.dev) >= |GpusOn(s.gpus, numa)| / |NicsOn(s.nics, numa)|
  {
    if s.policy == Zipped {
      assert n in NicsOn(s.nics, numa);
      ZipFacts(s, numa);
      DealtShare(GpusInOrder(s.gpus, numa), NicsInOrder(s.nics, numa), FirstHops(Zipped), n);
    } else {
      AssignKeeps(GroupCandidates(s, numa), Capacity(s, numa), []);
    }
  }

  lemma OneSided(s: Setup, numa: int)
    requires Unique(s) && (GpusOn(s.gpus, numa) == [] || NicsOn(s.nics, numa) == [])
    ensures Group(s, numa) == []
  {
    NoCandidates(GpusOn(s.gpus, numa), NicsOn(s.nics, numa));
    if s.policy == Zipped && NicsOn(s.nics, numa) != [] { ZipFacts(s, numa); }
  }

  function GroupLoad(s: Setup, todo: set<int>, n: NIC): nat {
    if n.numa in todo then 0 else Load(Group(s, n.numa), n.dev)
  }

  /** The pairs are those of the groups outside `todo`. */
  ghost predicate Union(s: Setup, todo: set<int>, pairs: seq<GPUNICPair>) {
    && DistinctGpus(pairs)
    && (forall p :: p in pairs <==> p.gpu.numa !in todo && p in Group(s, p.gpu.numa))
    && (forall n :: n in s.nics ==> Load(pairs, n.dev) == GroupLoad(s, todo, n))
  }

  lemma NothingYet(s: Setup, todo: set<int>)
    requires Unique(s) && forall numa :: numa !in todo ==> GpusOn(s.gpus, numa) == []
    ensures Union(s, todo, [])
  {
    forall numa | numa !in todo ensures Group(s, numa) == [] { OneSided(s, numa); }
  }

  lemma GroupApart(s: Setup, todo: set<int>, pairs: seq<GPUNICPair>, numa: int)
    requires Unique(s) && s.policy != Zipped && Union(s, todo, pairs) && numa in todo
    ensures Apart(GroupCandidates(s, numa), pairs)
  {
    var es := GroupCandidates(s, numa);
    hide Load, Group;
    forall e, c | e in es && c in pairs ensures e.gpu.id != c.gpu.id && e.nic.dev != c.nic.dev {
      assert IsCandidate(e, GpusOn(s.gpus, numa), NicsOn(s.nics, numa));
      GroupMembers(s, c.gpu.numa);
      if e.gpu.id == c.gpu.id { SameId(s.gpus, e.gpu, c.gpu); }
      if e.nic.dev == c.nic.dev { SameDev(s.nics, e.nic, c.nic); }
    }
  }

  /** Assigning one more group on top of the others gives just that group's own assignment. */
  lemma NextGroup(s: Setup, todo: set<int>, pairs: seq<GPUNICPair>, numa: int)
    requires Unique(s) && s.policy != Zipped && Union(s, todo, pairs) && numa in todo
    ensures Assign(GroupCandidates(s, numa), Capacity(s, numa), pairs) == pairs + Group(s, numa)
    ensures Union(s, todo - {numa}, pairs + Group(s, numa))
  {
    GroupApart(s, todo, pairs, numa);
    AssignFrame(GroupCandidates(s, numa), Capacity(s, numa), pairs, []);
    assert pairs + [] == pairs;
    hide GroupCandidates;
    JoinGroup(s, todo, pairs, numa);
  }

  lemma JoinGroup(s: Setup, todo: set<int>, pairs: seq<GPUNICPair>, numa: int)
    requires Unique(s) && Union(s, todo, pairs) && numa in todo
    ensures Union(s, todo - {numa}, pairs + Group(s, numa))
  {
    JoinedGpus(s, todo, pairs, numa);
    JoinedMembers(s, todo, pairs, numa);
    JoinedLoads(s, todo, pairs, numa);
    hide Group, Load, GroupLoad, DistinctGpus;
  }

  lemma JoinedGpus(s: Setup, todo: set<int>, pairs: seq<GPUNICPair>, numa: int)
    requires Unique(s) && Union(s, todo, pairs) && numa in todo
    ensures DistinctGpus(pairs + Group(s, numa))
  {
    var more := Group(s, numa);
    GroupMembers(s, numa);
    hide Group, Load, GroupLoad;
    forall i, j | 0 <= i < |pairs| && 0 <= j < |more| ensures pairs[i].gpu.id != more[j].gpu.id {
      assert pairs[i] in pairs && more[j] in more;
      GroupMembers(s, pairs[i].gpu.numa);
      if pairs[i].gpu.id == more[j].gpu.id { SameId(s.gpus, pairs[i].gpu, more[j].gpu); }
    }
  }

  lemma JoinedMembers(s: Setup, todo: set<int>, pairs: seq<GPUNICPair>, numa: int)
    requires Unique(s) && Union(s, todo, pairs) && numa in todo
    ensures forall p :: p in pairs + Group(s, numa) <==> p.gpu.numa !in todo - {numa} && p in Group(s, p.gpu.numa)
  {
    GroupMembers(s, numa);
    hide Group, Load, GroupLoad, DistinctGpus;
    assert forall p :: p in pairs + Group(s, numa) <==> p in pairs || p in Group(s, numa);
  }

  lemma JoinedLoads(s: Setup, todo: set<int>, pairs: seq<GPUNICPair>, numa: int)
    requires Unique(s) && Union(s, todo, pairs) && numa in todo
    ensures forall n :: n in s.nics ==> Load(pairs + Group(s, numa), n.dev) == GroupLoad(s, todo - {numa}, n)
  {
    var more := Group(s, numa);
    GroupMembers(s, numa);
    hide Group, Load;
    forall n | n in s.nics ensures Load(pairs + more, n.dev) == GroupLoad(s, todo - {numa}, n) {
      LoadConcat(pairs, more, n.dev);
      if n.numa != numa { NotOnThisGroup(s, numa, n); }
    }
  }

  lemma NotOnThisGroup(s: Setup, numa: int, n: NIC)
    requires Unique(s) && n in s.nics && n.numa != numa
    ensures Load(Group(s, numa), n.dev) == 0
  {
    var more := Group(s, numa);
    GroupMembers(s, numa);
    LoadPositive(more, n.dev);
    if i :| 0 <= i < |more| && more[i].nic.dev == n.dev {
      assert more[i] in more;
      SameDev(s.nics, more[i].nic, n);
    }
  }

  // ---- What the union of all groups is ----

  ghost predicate FirstPhase(s: Setup, pairs: seq<GPUNICPair>) {
    Union(s, {}, pairs)
  }

  lemma FirstPhaseMembers(s: Setup, pairs: seq<GPUNICPair>)
    requires Unique(s) && FirstPhase(s, pairs)
    ensures forall p :: p in pairs ==> InGroup(s, p.gpu.numa, p)
  {
    hide Group, Load, InGroup;
    forall p | p in pairs ensures InGroup(s, p.gpu.numa, p) {
      GroupMembers(s, p.gpu.numa);
    }
  }

  lemma FirstPhaseLoad(s: Setup, pairs: seq<GPUNICPair>, n: NIC)
    requires Unique(s) && FirstPhase(s, pairs) && n in s.nics
    ensures Load(pairs, n.dev) == Load(Group(s, n.numa), n.dev)
  {
    hide Group, Load;
    assert Load(pairs, n.dev) == GroupLoad(s, {}, n);
  }

  lemma FirstPhaseGpu(s: Setup, pairs: seq<GPUNICPair>, g: GPU)
    requires Unique(s) && FirstPhase(s, pairs) && g in s.gpus
    ensures HasGpu(pairs, g.id) <==> HasGpu(Group(s, g.numa), g.id)
  {
    var group := Group(s, g.numa);
    hide Group, Load;
    FirstPhaseMembers(s, pairs);
    GroupMembers(s, g.numa);
    if HasGpu(pairs, g.id) {
      var i :| 0 <= i < |pairs| && pairs[i].gpu.id == g.id;
      assert pairs[i] in pairs;
      SameId(s.gpus, pairs[i].gpu, g);
      assert pairs[i] in group;
    }
    if HasGpu(group, g.id) {
      var i :| 0 <= i < |group| && group[i].gpu.id == g.id;
      assert group[i] in group;
      assert group[i] in pairs;
    }
  }

  lemma GroupOrderFree(s: Setup, s': Setup, numa: int)
    requires Unique(s) && Unique(s') && s.policy == s'.policy
    requires multiset(s.gpus) == multiset(s'.gpus) && multiset(s.nics) == multiset(s'.nics)
    ensures Group(s, numa) == Group(s', numa)
  {
    SameElements(s.gpus, s'.gpus);
    SameElements(s.nics, s'.nics);
    GpusOnUnique(s.gpus, numa);
    GpusOnUnique(s'.gpus, numa);
    NicsOnUnique(s.nics, numa);
    NicsOnUnique(s'.nics, numa);
    CandidatesOrderFree(GpusOn(s.gpus, numa), NicsOn(s.nics, numa), GpusOn(s'.gpus, numa), NicsOn(s'.nics, numa));
    SameGpuCount(GpusOn(s.gpus, numa), GpusOn(s'.gpus, numa));
    SameNicCount(NicsOn(s.nics, numa), NicsOn(s'.nics, numa));
    if s.policy == Zipped && NicsOn(s.nics, numa) != [] { ZipOrderFree(s, s', numa); }
  }

  lemma ZipOrderFree(s: Setup, s': Setup, numa: int)
    requires Unique(s) && Unique(s') && s.policy == s'.policy == Zipped
    requires NicsOn(s.nics, numa) != [] && NicsOn(s'.nics, numa) != []
    requires (forall g :: g in s.gpus <==> g in s'.gpus) && (forall n :: n in s.nics <==> n in s'.nics)
    ensures Group(s, numa) == Group(s', numa)
  {
    ZipFacts(s, numa);
    ZipFacts(s', numa);
    SortedGpusUnique(GpusInOrder(s.gpus, numa), GpusInOrder(s'.gpus, numa));
    SortedNicsUnique(NicsInOrder(s.nics, numa), NicsInOrder(s'.nics, numa));
  }
}
