/** expandEFABandwidthJobs: one bandwidth job per GPU group and one whole-endpoint (WEP) job, whose
    client and server must agree on the lanes. */
module EfaLanes {
  import opened Cluster
  import opened Ordering
  import PingMesh
  import Topology

  datatype Lane = Lane(gpuId: int, device: string)

  /** lanes holds what each node contributes to the job. */
  datatype EfaJob = PerGpu(gpuId: int, lanes: map<string, seq<Lane>>) | WholeEndpoint(lanes: map<string, seq<Lane>>)

  datatype Skipped = Everything(node: string) | GpuGroup(gpuId: int) | WepGroupsDiffer | WepTooFewNics

  datatype Expansion = Expansion(jobs: seq<EfaJob>, skips: seq<Skipped>)

  /** Stored topologies, the EFA count resolved for each node the API server knows, allocatable GPUs,
      and the name of the GPU resource. */
  datatype Env = Env(topoMap: map<string, NodeTopology>, efaCount: map<string, int>, gpuCounts: map<string, int>,
                     gpuResource: string)

  function PairsOf(env: Env, node: string): seq<GPUNICPair> {
    if node in env.topoMap then env.topoMap[node].pairs else []
  }

  // ---- Validity of a node ----

  predicate PairOk(p: GPUNICPair) {
    p.gpu.id >= 0 && PingMesh.ValidDevice(p.nic.dev)
  }

  function Devices(pairs: seq<GPUNICPair>): (r: seq<string>)
    ensures |r| == |pairs| && forall i :: 0 <= i < |r| ==> r[i] == pairs[i].nic.dev
  {
    if pairs == [] then [] else Devices(pairs[..|pairs| - 1]) + [pairs[|pairs| - 1].nic.dev]
  }

  ghost predicate PairsOk(pairs: seq<GPUNICPair>) {
    (forall i :: 0 <= i < |pairs| ==> PairOk(pairs[i])) && Distinct(Devices(pairs))
  }

  /** The node can take part: usable, pairwise distinct devices, and enough resources for all of them. */
  ghost predicate NodeOk(env: Env, node: string) {
    && node in env.topoMap
    && PairsOk(PairsOf(env, node)) && PairsOf(env, node) != []
    && node in env.efaCount && env.efaCount[node] >= |PairsOf(env, node)|
    && node in env.gpuCounts && env.gpuCounts[node] > 0
    && env.gpuResource != ""
  }

  // ---- The lanes ----

  function LaneOf(p: GPUNICPair): Lane { Lane(p.gpu.id, p.nic.dev) }

  function LanesOf(pairs: seq<GPUNICPair>): (r: seq<Lane>)
    ensures |r| == |pairs| && forall i :: 0 <= i < |r| ==> r[i] == LaneOf(pairs[i])
  {
    if pairs == [] then [] else LanesOf(pairs[..|pairs| - 1]) + [LaneOf(pairs[|pairs| - 1])]
  }

  function LanesWith(pairs: seq<GPUNICPair>, id: int): seq<Lane> {
    if pairs == [] then []
    else LanesWith(pairs[..|pairs| - 1], id) + if pairs[|pairs| - 1].gpu.id == id then [LaneOf(pairs[|pairs| - 1])] else []
  }

  predicate LaneLeq(a: Lane, b: Lane) { StrLeq(a.device, b.device) }

  lemma LaneLeqTotalPreorder()
    ensures TotalPreorder(LaneLeq)
  {
    StrLeqTotalPreorder();
  }

  /** The lanes of one GPU, ordered by device. */
  function Group(pairs: seq<GPUNICPair>, id: int): seq<Lane> {
    Arranged(LanesWith(pairs, id), LaneLeq)
  }

  function IdsIn(pairs: seq<GPUNICPair>): set<int> {
    set i | 0 <= i < |pairs| :: pairs[i].gpu.id
  }

  lemma {:induction false} LanesWithMembers(pairs: seq<GPUNICPair>, id: int)
    ensures forall l :: l in LanesWith(pairs, id) <==> l in LanesOf(pairs) && l.gpuId == id
    ensures LanesWith(pairs, id) == [] <==> id !in IdsIn(pairs)
  {
    if pairs != [] {
      var n := |pairs| - 1;
      LanesWithMembers(pairs[..n], id);
      assert LanesOf(pairs) == LanesOf(pairs[..n]) + [LaneOf(pairs[n])];
      assert IdsIn(pairs) == IdsIn(pairs[..n]) + {pairs[n].gpu.id} by {
        forall x | x in IdsIn(pairs) ensures x in IdsIn(pairs[..n]) + {pairs[n].gpu.id} {
          var i :| 0 <= i < |pairs| && pairs[i].gpu.id == x;
          if i < n { assert pairs[..n][i].gpu.id == x; }
        }
      }
    }
  }

  /** Distinct devices: the lanes of a GPU can be sorted in one way only. */
  lemma {:induction false} LanesWithDistinct(pairs: seq<GPUNICPair>, id: int)
    requires Distinct(Devices(pairs))
    ensures forall i, j :: 0 <= i < j < |LanesWith(pairs, id)| ==>
              LanesWith(pairs, id)[i].device != LanesWith(pairs, id)[j].device
  {
    if pairs != [] {
      var n := |pairs| - 1;
      assert Devices(pairs[..n]) == Devices(pairs)[..n];
      LanesWithDistinct(pairs[..n], id);
      var r := LanesWith(pairs[..n], id);
      forall i | 0 <= i < |r| ensures r[i].device != pairs[n].nic.dev {
        LanesWithMembers(pairs[..n], id);
        assert r[i] in r;
        var j :| 0 <= j < n && LanesOf(pairs[..n])[j] == r[i];
        assert Devices(pairs)[j] == r[i].device && Devices(pairs)[n] == pairs[n].nic.dev;
      }
    }
  }

  lemma SortedGroup(pairs: seq<GPUNICPair>, id: int, r: seq<Lane>)
    requires PairsOk(pairs) && Sorted(r, LaneLeq) && multiset(r) == multiset(LanesWith(pairs, id))
    ensures r == Group(pairs, id)
  {
    LaneLeqTotalPreorder();
    ArrangedSorted(LanesWith(pairs, id), LaneLeq);
    LanesWithDistinct(pairs, id);
    DistinctDevices(LanesWith(pairs, id), r);
    DistinctDevices(LanesWith(pairs, id), Group(pairs, id));
    SameElements(r, LanesWith(pairs, id));
    SameElements(Group(pairs, id), LanesWith(pairs, id));
    StrictlySortedUnique(r, Group(pairs, id), LaneLeq);
  }

  lemma DistinctDevices(a: seq<Lane>, r: seq<Lane>)
    requires forall i, j :: 0 <= i < j < |a| ==> a[i].device != a[j].device
    requires Sorted(r, LaneLeq) && multiset(r) == multiset(a)
    ensures StrictlySorted(r, LaneLeq)
  {
    PermutationDistinct(a, r);
    SameElements(r, a);
    forall i, j | 0 <= i < j < |r| ensures !LaneLeq(r[j], r[i]) {
      assert LaneLeq(r[i], r[j]) && r[i] in a && r[j] in a && r[i] != r[j];
      StrLessTrichotomy(r[i].device, r[j].device);
    }
  }

  /** A group holds exactly the lanes of its GPU. */
  lemma GroupMembers(pairs: seq<GPUNICPair>, id: int)
    ensures multiset(Group(pairs, id)) == multiset(LanesWith(pairs, id))
    ensures |Group(pairs, id)| == |LanesWith(pairs, id)|
    ensures forall l :: l in Group(pairs, id) <==> l in LanesOf(pairs) && l.gpuId == id
    ensures Group(pairs, id) == [] <==> id !in IdsIn(pairs)
  {
    SameElements(Group(pairs, id), LanesWith(pairs, id));
    LanesWithMembers(pairs, id);
  }

  // ---- Scanning one node ----

  ghost predicate Grouped(pairs: seq<GPUNICPair>, groups: map<int, seq<Lane>>) {
    && (forall id :: id in groups <==> id in IdsIn(pairs))
    && (forall id :: (if id in groups then groups[id] else []) == LanesWith(pairs, id))
  }

  ghost predicate SeenDevices(pairs: seq<GPUNICPair>, devices: set<string>) {
    |devices| == |pairs| && (forall d :: d in devices <==> d in Devices(pairs))
  }

  /** What the scan of some pairs has established. */
  ghost predicate ScanState(pairs: seq<GPUNICPair>, groups: map<int, seq<Lane>>, devices: set<string>) {
    PairsOk(pairs) && Grouped(pairs, groups) && SeenDevices(pairs, devices)
  }

  function WithLane(groups: map<int, seq<Lane>>, p: GPUNICPair): map<int, seq<Lane>> {
    groups[p.gpu.id := (if p.gpu.id in groups then groups[p.gpu.id] else []) + [LaneOf(p)]]
  }

  method GroupPairs(pairs: seq<GPUNICPair>) returns (ok: bool, groups: map<int, seq<Lane>>, devices: set<string>)
    ensures ok <==> PairsOk(pairs)
    ensures ok ==> ScanState(pairs, groups, devices)
  {
    hide ScanState, PairsOk, WithLane, LaneOf;
    ok, groups, devices := true, map[], {};
    NothingScanned();
    for i := 0 to |pairs|
      invariant ScanState(pairs[..i], groups, devices)
    {
      var p := pairs[i];
      assert pairs[..i + 1] == pairs[..i] + [p];
      ScanFacts(pairs[..i], groups, devices);
      OkAppend(pairs[..i], p);
      if PairsOk(pairs) { OkPrefix(pairs, i + 1); }
      if p.gpu.id < 0 || !PingMesh.ValidDevice(p.nic.dev) || p.nic.dev in devices {
        return false, map[], {};
      }
      ScanStep(pairs[..i], p, groups, devices);
      devices := devices + {p.nic.dev};
      groups := WithLane(groups, p);
    }
    assert pairs[..|pairs|] == pairs;
    ScanFacts(pairs, groups, devices);
  }

  lemma NothingScanned()
    ensures ScanState([], map[], {})
  {
  }

  lemma ScanFacts(pairs: seq<GPUNICPair>, groups: map<int, seq<Lane>>, devices: set<string>)
    requires ScanState(pairs, groups, devices)
    ensures PairsOk(pairs) && forall d :: d in devices <==> d in Devices(pairs)
  {
  }

  lemma DistinctAppend<T>(s: seq<T>, x: T)
    requires Distinct(s)
    ensures Distinct(s + [x]) <==> x !in s
  {
    var r := s + [x];
    assert r[|s|] == x && forall i :: 0 <= i < |s| ==> r[i] == s[i];
  }

  lemma OkAppend(a: seq<GPUNICPair>, p: GPUNICPair)
    requires PairsOk(a)
    ensures PairsOk(a + [p]) <==> PairOk(p) && p.nic.dev !in Devices(a)
  {
    hide PairOk, Devices, Distinct;
    var b := a + [p];
    assert b[|a|] == p && forall i :: 0 <= i < |a| ==> b[i] == a[i];
    DevicesStep(a, p);
    DistinctAppend(Devices(a), p.nic.dev);
  }

  lemma OkPrefix(pairs: seq<GPUNICPair>, i: nat)
    requires i <= |pairs| && PairsOk(pairs)
    ensures PairsOk(pairs[..i])
  {
    assert Devices(pairs[..i]) == Devices(pairs)[..i];
  }

  lemma IdsStep(a: seq<GPUNICPair>, p: GPUNICPair)
    ensures IdsIn(a + [p]) == IdsIn(a) + {p.gpu.id}
  {
    var b := a + [p];
    forall x | x in IdsIn(b) ensures x in IdsIn(a) + {p.gpu.id} {
      var j :| 0 <= j < |b| && b[j].gpu.id == x;
      if j < |a| { assert a[j].gpu.id == x; }
    }
    forall x | x in IdsIn(a) ensures x in IdsIn(b) {
      var j :| 0 <= j < |a| && a[j].gpu.id == x;
      assert b[j].gpu.id == x;
    }
    assert b[|a|].gpu.id in IdsIn(b);
  }

  lemma LanesStep(a: seq<GPUNICPair>, p: GPUNICPair, id: int)
    ensures LanesWith(a + [p], id) == LanesWith(a, id) + if p.gpu.id == id then [LaneOf(p)] else []
  {
    assert (a + [p])[..|a|] == a;
  }

  lemma GroupedStep(a: seq<GPUNICPair>, groups: map<int, seq<Lane>>, p: GPUNICPair)
    requires Grouped(a, groups)
    ensures Grouped(a + [p], WithLane(groups, p))
  {
    IdsStep(a, p);
    var next := WithLane(groups, p);
    forall id ensures (if id in next then next[id] else []) == LanesWith(a + [p], id) { LanesStep(a, p, id); }
  }

  lemma DevicesStep(a: seq<GPUNICPair>, p: GPUNICPair)
    ensures Devices(a + [p]) == Devices(a) + [p.nic.dev]
  {
  }

  lemma SeenStep(a: seq<GPUNICPair>, devices: set<string>, p: GPUNICPair)
    requires SeenDevices(a, devices) && p.nic.dev !in devices
    ensures SeenDevices(a + [p], devices + {p.nic.dev})
  {
    hide Devices;
    DevicesStep(a, p);
    assert forall d :: d in Devices(a + [p]) <==> d in Devices(a) || d == p.nic.dev;
  }

  lemma ScanStep(a: seq<GPUNICPair>, p: GPUNICPair, groups: map<int, seq<Lane>>, devices: set<string>)
    requires ScanState(a, groups, devices) && PairOk(p) && p.nic.dev !in devices
    ensures ScanState(a + [p], WithLane(groups, p), devices + {p.nic.dev})
  {
    hide PairsOk, PairOk, Grouped, Devices, WithLane;
    assert p.nic.dev !in Devices(a);
    OkAppend(a, p);
    GroupedStep(a, groups, p);
    SeenStep(a, devices, p);
  }

  ghost predicate NodeGroups(pairs: seq<GPUNICPair>, groups: map<int, seq<Lane>>) {
    forall id :: (if id in groups then groups[id] else []) == Group(pairs, id)
  }

  method SortGroups(ghost pairs: seq<GPUNICPair>, groups: map<int, seq<Lane>>) returns (sorted: map<int, seq<Lane>>)
    requires PairsOk(pairs) && Grouped(pairs, groups)
    ensures NodeGroups(pairs, sorted)
  {
    hide PairsOk, Group, IdsIn, LanesWith;
    LaneLeqTotalPreorder();
    sorted := map[];
    var todo := groups.Keys;
    while todo != {}
      invariant todo <= groups.Keys
      invariant forall id :: id in sorted <==> id in groups && id !in todo
      invariant forall id :: id in sorted ==> sorted[id] == Group(pairs, id)
    {
      var id := Topology.AnyKey(todo);
      var group := SortSlice(groups[id], LaneLeq);
      SortedGroup(pairs, id, group);
      sorted := sorted[id := group];
      todo := todo - {id};
    }
    forall id ensures (if id in sorted then sorted[id] else []) == Group(pairs, id) {
      GroupMembers(pairs, id);
    }
  }

  /** The checks for one node, in their order. */
  method ScanNode(env: Env, node: string) returns (ok: bool, groups: map<int, seq<Lane>>)
    ensures ok <==> NodeOk(env, node)
    ensures ok ==> NodeGroups(PairsOf(env, node), groups)
  {
    hide PairsOk, Grouped, NodeGroups;
    groups := map[];
    if node !in env.topoMap { return false, groups; }
    var found, unsorted, devices := GroupPairs(env.topoMap[node].pairs);
    if !found { return false, groups; }
    if |devices| == 0 { return false, groups; }
    groups := SortGroups(env.topoMap[node].pairs, unsorted);
    if node !in env.efaCount { return false, groups; }
    if env.efaCount[node] < |devices| { return false, groups; }
    if node !in env.gpuCounts || env.gpuCounts[node] <= 0 { return false, groups; }
    if env.gpuResource == "" { return false, groups; }
    ok := true;
  }

  ghost function GpuIdsOf(env: Env, nodes: seq<string>): set<int> {
    if nodes == [] then {} else GpuIdsOf(env, nodes[..|nodes| - 1]) + IdsIn(PairsOf(env, nodes[|nodes| - 1]))
  }

  lemma {:induction false} GpuIdsOfMembers(env: Env, nodes: seq<string>, id: int)
    ensures id in GpuIdsOf(env, nodes) <==> exists n :: n in nodes && id in IdsIn(PairsOf(env, n))
  {
    if nodes != [] {
      GpuIdsOfMembers(env, nodes[..|nodes| - 1], id);
      assert nodes == nodes[..|nodes| - 1] + [nodes[|nodes| - 1]];
    }
  }

  ghost predicate AllOk(env: Env, nodes: seq<string>) {
    forall n :: n in nodes ==> NodeOk(env, n)
  }

  /** The group of each GPU on each node, as the maps of the source hold it. */
  ghost predicate Collected(env: Env, nodes: seq<string>, groups: map<string, map<int, seq<Lane>>>) {
    forall n :: n in nodes ==> n in groups && NodeGroups(PairsOf(env, n), groups[n])
  }

  lemma KeysAreIds(pairs: seq<GPUNICPair>, groups: map<int, seq<Lane>>, ids: set<int>)
    requires NodeGroups(pairs, groups) && forall id :: id in ids <==> id in groups && groups[id] != []
    ensures ids == IdsIn(pairs)
  {
    forall id ensures id in ids <==> id in IdsIn(pairs) {
      GroupMembers(pairs, id);
    }
  }

  /** Scan all nodes; the first one that is not usable ends the expansion. */
  method ScanNodes(env: Env, nodes: seq<string>)
    returns (bad: Option<string>, groups: map<string, map<int, seq<Lane>>>, gpuIds: set<int>)
    ensures bad.None? ==> AllOk(env, nodes) && Collected(env, nodes, groups) && gpuIds == GpuIdsOf(env, nodes)
    ensures bad.Some? ==> exists i :: 0 <= i < |nodes| && nodes[i] == bad.value && !NodeOk(env, nodes[i])
                                      && AllOk(env, nodes[..i])
  {
    hide NodeOk, NodeGroups, PairsOf;
    bad, groups, gpuIds := None, map[], {};
    for i := 0 to |nodes|
      invariant AllOk(env, nodes[..i]) && Collected(env, nodes[..i], groups) && gpuIds == GpuIdsOf(env, nodes[..i])
    {
      var ok, found := ScanNode(env, nodes[i]);
      if !ok {
        return Some(nodes[i]), map[], {};
      }
      var ids := set id | id in found && found[id] != [];
      KeysAreIds(PairsOf(env, nodes[i]), found, ids);
      groups := groups[nodes[i] := found];
      gpuIds := gpuIds + ids;
      assert nodes[..i + 1] == nodes[..i] + [nodes[i]];
      assert nodes[..i + 1][..i] == nodes[..i];
    }
    assert nodes[..|nodes|] == nodes;
  }

  predicate IntLeq(a: int, b: int) { a <= b }

  /** The GPU IDs in the order that both ends use. */
  ghost predicate InOrder(ids: seq<int>, gpuIds: set<int>) {
    (forall i, j :: 0 <= i < j < |ids| ==> ids[i] < ids[j]) && forall id :: id in ids <==> id in gpuIds
  }

  method SortIds(gpuIds: set<int>) returns (ids: seq<int>)
    ensures InOrder(ids, gpuIds)
  {
    ids := [];
    var todo := gpuIds;
    while todo != {}
      invariant todo <= gpuIds
      invariant Distinct(ids) && forall id :: id in ids <==> id in gpuIds && id !in todo
    {
      var id := Topology.AnyKey(todo);
      ids := ids + [id];
      todo := todo - {id};
    }
    var r := SortSlice(ids, IntLeq);
    PermutationDistinct(ids, r);
    assert forall i, j :: 0 <= i < j < |r| ==> IntLeq(r[i], r[j]);
    ids := r;
  }

  // ---- Building the jobs ----

  function GroupAt(env: Env, node: string, id: int): seq<Lane> {
    Group(PairsOf(env, node), id)
  }

  /** Every node has the group, all equally wide. */
  ghost predicate Compatible(env: Env, nodes: seq<string>, id: int) {
    && (forall n :: n in nodes ==> |GroupAt(env, n, id)| > 0)
    && (forall n, m :: n in nodes && m in nodes ==> |GroupAt(env, n, id)| == |GroupAt(env, m, id)|)
  }

  function PdJob(env: Env, nodes: seq<string>, id: int): EfaJob {
    PerGpu(id, map n | n in nodes :: GroupAt(env, n, id))
  }

  ghost function PdJobs(env: Env, nodes: seq<string>, ids: seq<int>): seq<EfaJob> {
    if ids == [] then []
    else
      PdJobs(env, nodes, ids[..|ids| - 1])
      + if Compatible(env, nodes, ids[|ids| - 1]) then [PdJob(env, nodes, ids[|ids| - 1])] else []
  }

  ghost function PdSkips(env: Env, nodes: seq<string>, ids: seq<int>): seq<Skipped> {
    if ids == [] then []
    else
      PdSkips(env, nodes, ids[..|ids| - 1])
      + if Compatible(env, nodes, ids[|ids| - 1]) then [] else [GpuGroup(ids[|ids| - 1])]
  }

  /** The node's groups one after the other, in GPU order. */
  function WepLanes(env: Env, node: string, ids: seq<int>): seq<Lane> {
    if ids == [] then [] else WepLanes(env, node, ids[..|ids| - 1]) + GroupAt(env, node, ids[|ids| - 1])
  }

  ghost predicate AllCompatible(env: Env, nodes: seq<string>, ids: seq<int>) {
    forall id :: id in ids ==> Compatible(env, nodes, id)
  }

  /** The lanes of a node once for each time it is listed: the loop appends to what is there. */
  function AppendedLanes(env: Env, nodes: seq<string>, node: string, ids: seq<int>): seq<Lane> {
    if nodes == [] then []
    else
      AppendedLanes(env, nodes[..|nodes| - 1], node, ids)
      + if nodes[|nodes| - 1] == node then WepLanes(env, node, ids) else []
  }

  function WepJob(env: Env, nodes: seq<string>, ids: seq<int>): EfaJob {
    WholeEndpoint(map n | n in nodes :: AppendedLanes(env, nodes, n, ids))
  }

  ghost function Expanded(env: Env, nodes: seq<string>, ids: seq<int>): Expansion
    requires nodes != []
  {
    var all, many := AllCompatible(env, nodes, ids), |AppendedLanes(env, nodes, nodes[0], ids)| > 1;
    Expansion(PdJobs(env, nodes, ids) + (if all && many then [WepJob(env, nodes, ids)] else []),
              PdSkips(env, nodes, ids)
              + (if !all then [WepGroupsDiffer] else if many then [] else [WepTooFewNics]))
  }

  /** One GPU's group on every node, stopping at the first node that does not fit. */
  method CollectGroup(env: Env, nodes: seq<string>, groups: map<string, map<int, seq<Lane>>>, id: int)
    returns (compatible: bool, lanes: map<string, seq<Lane>>)
    requires Collected(env, nodes, groups)
    ensures compatible <==> Compatible(env, nodes, id)
    ensures compatible ==> PerGpu(id, lanes) == PdJob(env, nodes, id)
  {
    hide GroupAt;
    lanes := map[];
    var width := -1;
    for i := 0 to |nodes|
      invariant i == 0 ==> width == -1
      invariant EquallyWide(env, nodes[..i], id, width)
      invariant lanes == map n | n in nodes[..i] :: GroupAt(env, n, id)
    {
      var n := nodes[i];
      var group := GroupFor(env, nodes, groups, n, id);
      assert nodes[..i + 1] == nodes[..i] + [n];
      if |group| == 0 || (width >= 0 && |group| != width) {
        NotCompatible(env, nodes, id, i, width);
        return false, lanes;
      }
      width := |group|;
      lanes := lanes[n := group];
    }
    assert nodes[..|nodes|] == nodes;
    compatible := true;
  }

  ghost predicate EquallyWide(env: Env, nodes: seq<string>, id: int, width: int) {
    forall n :: n in nodes ==> |GroupAt(env, n, id)| == width > 0
  }

  lemma NotCompatible(env: Env, nodes: seq<string>, id: int, i: nat, width: int)
    requires i < |nodes| && EquallyWide(env, nodes[..i], id, width) && (i == 0 ==> width == -1)
    requires |GroupAt(env, nodes[i], id)| == 0 || (width >= 0 && |GroupAt(env, nodes[i], id)| != width)
    ensures !Compatible(env, nodes, id)
  {
    hide GroupAt;
    assert nodes[i] in nodes;
    if i > 0 { assert nodes[0] in nodes[..i] && nodes[0] in nodes; }
  }

  method GroupFor(ghost env: Env, ghost nodes: seq<string>, groups: map<string, map<int, seq<Lane>>>, n: string, id: int)
    returns (group: seq<Lane>)
    requires Collected(env, nodes, groups) && n in nodes
    ensures group == GroupAt(env, n, id)
  {
    group := if id in groups[n] then groups[n][id] else [];
  }

  method BuildPdJobs(env: Env, nodes: seq<string>, groups: map<string, map<int, seq<Lane>>>, ids: seq<int>)
    returns (jobs: seq<EfaJob>, skips: seq<Skipped>, allCompatible: bool)
    requires Collected(env, nodes, groups)
    ensures jobs == PdJobs(env, nodes, ids) && skips == PdSkips(env, nodes, ids)
    ensures allCompatible <==> AllCompatible(env, nodes, ids)
  {
    hide Compatible, Collected, PdJob;
    jobs, skips, allCompatible := [], [], true;
    for i := 0 to |ids|
      invariant jobs == PdJobs(env, nodes, ids[..i]) && skips == PdSkips(env, nodes, ids[..i])
      invariant allCompatible <==> AllCompatible(env, nodes, ids[..i])
    {
      var compatible, lanes := CollectGroup(env, nodes, groups, ids[i]);
      assert ids[..i + 1] == ids[..i] + [ids[i]];
      assert ids[..i + 1][..i] == ids[..i];
      if !compatible {
        allCompatible := false;
        skips := skips + [GpuGroup(ids[i])];
        continue;
      }
      jobs := jobs + [PerGpu(ids[i], lanes)];
    }
    assert ids[..|ids|] == ids;
  }

  ghost predicate Appended(env: Env, nodes: seq<string>, ids: seq<int>, lanes: map<string, seq<Lane>>) {
    && (forall n :: n in lanes <==> n in nodes)
    && (forall n :: n in lanes ==> lanes[n] == AppendedLanes(env, nodes, n, ids))
  }

  lemma {:induction false} NotListed(env: Env, nodes: seq<string>, node: string, ids: seq<int>)
    requires node !in nodes
    ensures AppendedLanes(env, nodes, node, ids) == []
  {
    if nodes != [] {
      assert nodes == nodes[..|nodes| - 1] + [nodes[|nodes| - 1]];
      NotListed(env, nodes[..|nodes| - 1], node, ids);
    }
  }

  lemma AppendNode(env: Env, nodes: seq<string>, ids: seq<int>, lanes: map<string, seq<Lane>>, n: string)
    requires Appended(env, nodes, ids, lanes)
    ensures Appended(env, nodes + [n], ids,
                     lanes[n := (if n in lanes then lanes[n] else []) + WepLanes(env, n, ids)])
  {
    hide WepLanes;
    assert (nodes + [n])[..|nodes|] == nodes;
    if n !in lanes { NotListed(env, nodes, n, ids); }
  }

  /** The groups of one node, behind the lanes it has already. */
  method AppendGroups(ghost env: Env, ghost nodes: seq<string>, groups: map<string, map<int, seq<Lane>>>, n: string,
                      ids: seq<int>, before: seq<Lane>) returns (all: seq<Lane>)
    requires Collected(env, nodes, groups) && n in nodes
    ensures all == before + WepLanes(env, n, ids)
  {
    hide GroupAt;
    all := before;
    for j := 0 to |ids|
      invariant all == before + WepLanes(env, n, ids[..j])
    {
      var group := GroupFor(env, nodes, groups, n, ids[j]);
      all := all + group;
      assert ids[..j + 1][..j] == ids[..j];
    }
    assert ids[..|ids|] == ids;
  }

  method BuildWepLanes(env: Env, nodes: seq<string>, groups: map<string, map<int, seq<Lane>>>, ids: seq<int>)
    returns (lanes: map<string, seq<Lane>>)
    requires Collected(env, nodes, groups)
    ensures WholeEndpoint(lanes) == WepJob(env, nodes, ids)
  {
    hide WepLanes, Collected, AppendedLanes;
    lanes := map[];
    for i := 0 to |nodes|
      invariant Appended(env, nodes[..i], ids, lanes)
    {
      var n := nodes[i];
      AppendNode(env, nodes[..i], ids, lanes, n);
      assert nodes[..i + 1] == nodes[..i] + [n];
      var all := AppendGroups(env, nodes, groups, n, ids, if n in lanes then lanes[n] else []);
      lanes := lanes[n := all];
    }
    assert nodes[..|nodes|] == nodes;
    assert lanes == map n | n in nodes :: AppendedLanes(env, nodes, n, ids);
  }

  method ExpandEfaBandwidthJobs(env: Env, nodes: seq<string>) returns (r: Expansion, ghost ids: seq<int>)
    requires nodes != []
    ensures AllOk(env, nodes) ==> InOrder(ids, GpuIdsOf(env, nodes)) && r == Expanded(env, nodes, ids)
    ensures !AllOk(env, nodes) ==> exists i :: 0 <= i < |nodes| && !NodeOk(env, nodes[i]) && AllOk(env, nodes[..i])
                                               && r == Expansion([], [Everything(nodes[i])])
  {
    hide NodeOk, Collected, PdJobs, PdSkips, GpuIdsOf, AppendedLanes, InOrder;
    ids := [];
    var bad, groups, gpuIds := ScanNodes(env, nodes);
    if bad.Some? {
      return Expansion([], [Everything(bad.value)]), [];
    }
    var order := SortIds(gpuIds);
    ids := order;
    var jobs, skips, allCompatible := BuildPdJobs(env, nodes, groups, order);
    if !allCompatible {
      return Expansion(jobs, skips + [WepGroupsDiffer]), order;
    }
    var wep := BuildWepLanes(env, nodes, groups, order);
    assert nodes[0] in nodes;
    if |wep[nodes[0]]| > 1 {
      return Expansion(jobs + [WholeEndpoint(wep)], skips), order;
    }
    return Expansion(jobs, skips + [WepTooFewNics]), order;
  }
}
