/** What an expansion amounts to, told by the stored topologies alone: which nodes are usable, which jobs
    there are, and which lanes each of them runs on each node. */
module EfaJobs {
  import opened Cluster
  import opened Ordering
  import opened EfaLanes
  import opened EfaAgreement
  import PingMesh

  // ---- Usable nodes ----

  /** A node takes part exactly if its topology is stored and lists at least one pair, all of them with
      non-negative GPU IDs and different valid devices, if it has an EFA device for each, and if GPUs can be
      requested on it. */
  lemma UsableExactly(env: Env, node: string)
    ensures NodeOk(env, node)
       <==> && node in env.topoMap && node in env.efaCount && node in env.gpuCounts
            && env.topoMap[node].pairs != []
            && (forall p :: p in env.topoMap[node].pairs ==> p.gpu.id >= 0 && PingMesh.ValidDevice(p.nic.dev))
            && (forall i, j :: 0 <= i < j < |env.topoMap[node].pairs| ==>
                  env.topoMap[node].pairs[i].nic.dev != env.topoMap[node].pairs[j].nic.dev)
            && env.efaCount[node] >= |env.topoMap[node].pairs|
            && env.gpuCounts[node] > 0 && env.gpuResource != ""
  {
    hide PingMesh.ValidDevice;
    var pairs := PairsOf(env, node);
    var devs := Devices(pairs);
    assert (forall p :: p in pairs ==> PairOk(p)) <==> (forall i :: 0 <= i < |pairs| ==> PairOk(pairs[i]));
    assert forall i, j :: 0 <= i < j < |pairs| ==> (devs[i] != devs[j] <==> pairs[i].nic.dev != pairs[j].nic.dev);
  }

  // ---- The lanes of a job on a node ----


  lemma JobOnNode(env: Env, nodes: seq<string>, ids: seq<int>, j: EfaJob, node: string)
    requires Scanned(env, nodes, ids) && Distinct(nodes) && j in Expanded(env, nodes, ids).jobs && node in nodes
    ensures node in j.lanes
    ensures j.PerGpu? ==> j.lanes[node] == GroupAt(env, node, j.gpuId)
    ensures j.WholeEndpoint? ==> j.lanes[node] == WepLanes(env, node, ids)
  {
    hide Compatible, AllCompatible, GroupAt, WepLanes, NodeOk, Expanded, PdJobs, PdSkips;
    PdJobsAre(env, nodes, ids);
    ExpandedJobs(env, nodes, ids, j);
    if j.WholeEndpoint? {
      WepExactly(env, nodes, ids, j);
      WepJobLanes(env, nodes, ids, node);
    }
  }

  lemma ListedLane(pairs: seq<GPUNICPair>, l: Lane)
    ensures l in LanesOf(pairs) <==> exists p :: p in pairs && p.gpu.id == l.gpuId && p.nic.dev == l.device
  {
    var ls := LanesOf(pairs);
    if l in ls {
      var i :| 0 <= i < |ls| && ls[i] == l;
      assert pairs[i] in pairs;
    }
    if p :| p in pairs && p.gpu.id == l.gpuId && p.nic.dev == l.device {
      var i :| 0 <= i < |pairs| && pairs[i] == p;
      assert ls[i] == l;
    }
  }

  /** The lanes of a job on a node are GPU ID and device of the node's pairs: for a whole-endpoint job of all
      of them, otherwise of those of its GPU. */
  lemma LanesAreThePairs(env: Env, nodes: seq<string>, ids: seq<int>, j: EfaJob, node: string, l: Lane)
    requires Scanned(env, nodes, ids) && Distinct(nodes) && j in Expanded(env, nodes, ids).jobs && node in nodes
    ensures node in j.lanes
    ensures l in j.lanes[node]
       <==> exists p :: p in PairsOf(env, node) && (j.WholeEndpoint? || p.gpu.id == j.gpuId)
                        && p.gpu.id == l.gpuId && p.nic.dev == l.device
  {
    JobOnNode(env, nodes, ids, j, node);
    ListedLane(PairsOf(env, node), l);
    hide Scanned, Expanded, GroupAt, WepLanes, PairsOf;
    if j.PerGpu? {
      SameGroup(env, node, j.gpuId);
      GroupMembers(PairsOf(env, node), j.gpuId);
    } else {
      WepUsesEveryDeviceOnce(env, nodes, ids, node);
      SameElements(WepLanes(env, node, ids), LanesOf(PairsOf(env, node)));
    }
  }

  lemma SameGroup(env: Env, node: string, id: int)
    ensures GroupAt(env, node, id) == Group(PairsOf(env, node), id)
  {
  }

  /** GPU IDs ascend, and device names within one GPU. */
  ghost predicate LanesAscend(lanes: seq<Lane>) {
    forall s, t :: 0 <= s < t < |lanes| ==>
      lanes[s].gpuId < lanes[t].gpuId
      || (lanes[s].gpuId == lanes[t].gpuId && StrLess(lanes[s].device, lanes[t].device))
  }

  lemma GroupAscends(pairs: seq<GPUNICPair>, id: int)
    requires PairsOk(pairs)
    ensures LanesAscend(Group(pairs, id))
    ensures forall l :: l in Group(pairs, id) ==> l.gpuId == id
  {
    hide PairsOk, LanesWith;
    GroupMembers(pairs, id);
    var r := Group(pairs, id);
    OkDevices(pairs);
    LanesWithDistinct(pairs, id);
    LaneLeqTotalPreorder();
    ArrangedSorted(LanesWith(pairs, id), LaneLeq);
    DistinctDevices(LanesWith(pairs, id), r);
    hide Group;
    forall s, t | 0 <= s < t < |r| ensures r[s].gpuId == r[t].gpuId && StrLess(r[s].device, r[t].device) {
      assert r[s] in r && r[t] in r && LaneLeq(r[s], r[t]) && !LaneLeq(r[t], r[s]);
    }
  }

  lemma OkDevices(pairs: seq<GPUNICPair>)
    requires PairsOk(pairs)
    ensures Distinct(Devices(pairs))
  {
  }

  lemma AscendTogether(a: seq<Lane>, b: seq<Lane>)
    requires LanesAscend(a) && LanesAscend(b) && forall x, y :: x in a && y in b ==> x.gpuId < y.gpuId
    ensures LanesAscend(a + b)
  {
    var r := a + b;
    forall s, t | 0 <= s < t < |r|
      ensures r[s].gpuId < r[t].gpuId || (r[s].gpuId == r[t].gpuId && StrLess(r[s].device, r[t].device))
    {
      if s < |a| <= t {
        assert a[s] in a && b[t - |a|] in b;
      } else if t < |a| {
        assert r[s] == a[s] && r[t] == a[t];
      } else {
        assert r[s] == b[s - |a|] && r[t] == b[t - |a|];
      }
    }
  }

  lemma {:induction false} WepAscends(env: Env, node: string, ids: seq<int>)
    requires PairsOk(PairsOf(env, node)) && forall i, j :: 0 <= i < j < |ids| ==> ids[i] < ids[j]
    ensures LanesAscend(WepLanes(env, node, ids))
    ensures forall l :: l in WepLanes(env, node, ids) ==> l.gpuId in ids
  {
    hide PairsOk, GroupAt, LanesAscend;
    if ids == [] {
      NothingAscends();
    } else {
      var n := |ids| - 1;
      assert ids == ids[..n] + [ids[n]];
      WepAscends(env, node, ids[..n]);
      SameGroup(env, node, ids[n]);
      GroupAscends(PairsOf(env, node), ids[n]);
      AscendTogether(WepLanes(env, node, ids[..n]), GroupAt(env, node, ids[n]));
    }
  }

  lemma NothingAscends()
    ensures LanesAscend([])
  {
  }

  /** They are numbered by GPU ID, and by device name within one GPU. */
  lemma LanesAreOrdered(env: Env, nodes: seq<string>, ids: seq<int>, j: EfaJob, node: string)
    requires Scanned(env, nodes, ids) && Distinct(nodes) && j in Expanded(env, nodes, ids).jobs && node in nodes
    ensures node in j.lanes && LanesAscend(j.lanes[node])
  {
    JobOnNode(env, nodes, ids, j, node);
    assert NodeOk(env, node);
    hide PairsOk, Expanded, GroupAt, WepLanes, LanesAscend;
    if j.PerGpu? {
      SameGroup(env, node, j.gpuId);
      GroupAscends(PairsOf(env, node), j.gpuId);
    } else {
      WepAscends(env, node, ids);
    }
  }

  // ---- Which jobs there are ----

  /** The pairs of one GPU on a node. */
  ghost function PairsWith(env: Env, node: string, id: int): set<GPUNICPair> {
    set p | p in PairsOf(env, node) && p.gpu.id == id
  }

  /** The GPU has pairs on every node, on all of them equally many. */
  ghost predicate EquallyPaired(env: Env, nodes: seq<string>, id: int) {
    forall n, m :: n in nodes && m in nodes ==> |PairsWith(env, n, id)| == |PairsWith(env, m, id)| > 0
  }

  lemma OnePairMore(a: seq<GPUNICPair>, p: GPUNICPair, id: int)
    requires p !in a
    ensures |set q | q in a + [p] && q.gpu.id == id| == |set q | q in a && q.gpu.id == id| + if p.gpu.id == id then 1 else 0
  {
    var before, all := set q | q in a && q.gpu.id == id, set q | q in a + [p] && q.gpu.id == id;
    if p.gpu.id == id { assert all == before + {p}; } else { assert all == before; }
  }

  lemma {:induction false} WidthIsPairs(pairs: seq<GPUNICPair>, id: int)
    requires forall i, j :: 0 <= i < j < |pairs| ==> pairs[i].nic.dev != pairs[j].nic.dev
    ensures |LanesWith(pairs, id)| == |set p | p in pairs && p.gpu.id == id|
  {
    if pairs != [] {
      var n := |pairs| - 1;
      WidthIsPairs(pairs[..n], id);
      assert pairs == pairs[..n] + [pairs[n]];
      assert forall i :: 0 <= i < n ==> pairs[..n][i].nic.dev != pairs[n].nic.dev;
      OnePairMore(pairs[..n], pairs[n], id);
    }
  }

  lemma GroupWidth(env: Env, node: string, id: int)
    requires NodeOk(env, node)
    ensures |GroupAt(env, node, id)| == |PairsWith(env, node, id)|
  {
    UsableExactly(env, node);
    GroupMembers(PairsOf(env, node), id);
    WidthIsPairs(PairsOf(env, node), id);
    SameGroup(env, node, id);
  }

  lemma CompatibleExactly(env: Env, nodes: seq<string>, id: int)
    requires AllOk(env, nodes)
    ensures Compatible(env, nodes, id) <==> EquallyPaired(env, nodes, id)
  {
    hide NodeOk, GroupAt, PairsWith;
    forall n | n in nodes ensures |GroupAt(env, n, id)| == |PairsWith(env, n, id)| { GroupWidth(env, n, id); }
  }

  /** A GPU has a job exactly if it has pairs on every node, equally many on all; the skip of a GPU that
      occurs on some node says that it has not. */
  lemma GpuJobExactly(env: Env, nodes: seq<string>, ids: seq<int>, id: int)
    requires Scanned(env, nodes, ids)
    ensures (exists j :: j in Expanded(env, nodes, ids).jobs && j.PerGpu? && j.gpuId == id) <==> EquallyPaired(env, nodes, id)
    ensures GpuGroup(id) in Expanded(env, nodes, ids).skips
       <==> !EquallyPaired(env, nodes, id) && exists n :: n in nodes && PairsWith(env, n, id) != {}
  {
    hide Compatible, AllCompatible, NodeOk, PairsWith, IdsIn, GroupAt;
    CompatibleExactly(env, nodes, id);
    JobOrSkipPerGpu(env, nodes, ids, id);
    forall n ensures id in IdsIn(PairsOf(env, n)) <==> PairsWith(env, n, id) != {} { HasPairs(env, n, id); }
    hide PairsOf;
    if EquallyPaired(env, nodes, id) {
      assert nodes[0] in nodes && PairsWith(env, nodes[0], id) != {};
    }
    PdJobsAre(env, nodes, ids);
    forall j | j in Expanded(env, nodes, ids).jobs && j.PerGpu? ensures j == PdJob(env, nodes, j.gpuId) {
      ExpandedJobs(env, nodes, ids, j);
    }
  }

  lemma HasPairs(env: Env, node: string, id: int)
    ensures id in IdsIn(PairsOf(env, node)) <==> PairsWith(env, node, id) != {}
  {
    var pairs := PairsOf(env, node);
    if id in IdsIn(pairs) {
      var i :| 0 <= i < |pairs| && pairs[i].gpu.id == id;
      assert pairs[i] in PairsWith(env, node, id);
    }
    if PairsWith(env, node, id) != {} {
      var p :| p in PairsWith(env, node, id);
      var i :| 0 <= i < |pairs| && pairs[i] == p;
    }
  }

  /** The whole-endpoint job is there exactly if every GPU that occurs is equally paired on all nodes and
      there are at least two pairs; otherwise the reported reason is the first of these that fails. */
  lemma WholeEndpointExactly(env: Env, nodes: seq<string>, ids: seq<int>)
    requires Scanned(env, nodes, ids) && Distinct(nodes)
    ensures var e, same := Expanded(env, nodes, ids), forall id :: id in ids ==> EquallyPaired(env, nodes, id);
            && ((exists j :: j in e.jobs && j.WholeEndpoint?) <==> same && |PairsOf(env, nodes[0])| >= 2)
            && (WepGroupsDiffer in e.skips <==> !same)
            && (WepTooFewNics in e.skips <==> same && |PairsOf(env, nodes[0])| < 2)
  {
    hide Compatible, NodeOk, PairsWith, GroupAt, EquallyPaired, WepJob, AppendedLanes, WepLanes, PdJobs, PdSkips;
    forall id ensures Compatible(env, nodes, id) <==> EquallyPaired(env, nodes, id) {
      CompatibleExactly(env, nodes, id);
    }
    PdJobsAre(env, nodes, ids);
    ListedOnce(env, nodes, ids, nodes[0]);
    WepUsesEveryDeviceOnce(env, nodes, ids, nodes[0]);
    WepIsWhole(env, nodes, ids);
    WepExactly(env, nodes, ids, WepJob(env, nodes, ids));
    forall j | j in Expanded(env, nodes, ids).jobs && j.WholeEndpoint? ensures j == WepJob(env, nodes, ids) {
      WepExactly(env, nodes, ids, j);
    }
  }

  lemma WepIsWhole(env: Env, nodes: seq<string>, ids: seq<int>)
    ensures WepJob(env, nodes, ids).WholeEndpoint?
  {
  }

  /** The jobs come in the order of their GPUs, the whole-endpoint job last, and none comes twice. */
  ghost predicate JobsAscend(jobs: seq<EfaJob>) {
    forall i, j :: 0 <= i < j < |jobs| ==>
      jobs[i].PerGpu? && (jobs[j].WholeEndpoint? || jobs[i].gpuId < jobs[j].gpuId)
  }

  lemma {:induction false} PdJobsAscend(env: Env, nodes: seq<string>, ids: seq<int>)
    requires forall i, j :: 0 <= i < j < |ids| ==> ids[i] < ids[j]
    ensures JobsAscend(PdJobs(env, nodes, ids))
  {
    hide Compatible;
    if ids != [] {
      var n := |ids| - 1;
      var before := PdJobs(env, nodes, ids[..n]);
      PdJobsAscend(env, nodes, ids[..n]);
      PdJobsAre(env, nodes, ids[..n]);
      forall i | 0 <= i < |before| ensures before[i].PerGpu? && before[i].gpuId < ids[n] {
        assert before[i] in before;
        assert before[i].gpuId in ids[..n];
      }
    }
  }

  lemma JobsInOrder(env: Env, nodes: seq<string>, ids: seq<int>)
    requires Scanned(env, nodes, ids)
    ensures JobsAscend(Expanded(env, nodes, ids).jobs)
  {
    hide AllCompatible, PdSkips, PdJobs, AppendedLanes;
    PdJobsAscend(env, nodes, ids);
    PdJobsAre(env, nodes, ids);
    WepIsWhole(env, nodes, ids);
    hide WepJob;
    var jobs := PdJobs(env, nodes, ids);
    forall i | 0 <= i < |jobs| ensures jobs[i].PerGpu? { assert jobs[i] in jobs; }
  }
}
