/** What the EFA bandwidth jobs of one expansion have in common on all their nodes. */
module EfaAgreement {
  import opened Cluster
  import opened Ordering
  import opened EfaLanes
  import PingMesh

  /** The scan succeeded: usable nodes, and the GPU IDs of all of them in order. */
  ghost predicate Scanned(env: Env, nodes: seq<string>, ids: seq<int>) {
    nodes != [] && AllOk(env, nodes) && InOrder(ids, GpuIdsOf(env, nodes))
  }

  // ---- One job or one skip per GPU ----

  lemma {:induction false} PdJobsAre(env: Env, nodes: seq<string>, ids: seq<int>)
    ensures forall j :: j in PdJobs(env, nodes, ids) <==>
              j.PerGpu? && j.gpuId in ids && Compatible(env, nodes, j.gpuId) && j == PdJob(env, nodes, j.gpuId)
    ensures forall k :: k in PdSkips(env, nodes, ids) <==>
              k.GpuGroup? && k.gpuId in ids && !Compatible(env, nodes, k.gpuId)
    ensures |PdJobs(env, nodes, ids)| + |PdSkips(env, nodes, ids)| == |ids|
  {
    hide Compatible;
    if ids != [] {
      PdJobsAre(env, nodes, ids[..|ids| - 1]);
      assert ids == ids[..|ids| - 1] + [ids[|ids| - 1]];
    }
  }

  /** Every GPU of any node gets exactly one job or exactly one skip, and a job exactly when every node
      has a group for it and all these are equally wide. */
  lemma JobOrSkipPerGpu(env: Env, nodes: seq<string>, ids: seq<int>, id: int)
    requires Scanned(env, nodes, ids)
    ensures id in ids <==> exists n :: n in nodes && id in IdsIn(PairsOf(env, n))
    ensures PdJob(env, nodes, id) in Expanded(env, nodes, ids).jobs <==> id in ids && Compatible(env, nodes, id)
    ensures GpuGroup(id) in Expanded(env, nodes, ids).skips <==> id in ids && !Compatible(env, nodes, id)
    ensures |PdJobs(env, nodes, ids)| + |PdSkips(env, nodes, ids)| == |ids|
  {
    hide Compatible, AllCompatible;
    PdJobsAre(env, nodes, ids);
    GpuIdsOfMembers(env, nodes, id);
  }

  // ---- The lanes of the WEP job ----

  lemma {:induction false} LanesOfGpu(pairs: seq<GPUNICPair>, id: int, l: Lane)
    ensures multiset(LanesWith(pairs, id))[l] == if l.gpuId == id then multiset(LanesOf(pairs))[l] else 0
  {
    if pairs != [] {
      LanesOfGpu(pairs[..|pairs| - 1], id, l);
      assert LanesOf(pairs) == LanesOf(pairs[..|pairs| - 1]) + [LaneOf(pairs[|pairs| - 1])];
    }
  }

  lemma {:induction false} LanesInWep(env: Env, node: string, ids: seq<int>, l: Lane)
    requires Distinct(ids)
    ensures multiset(WepLanes(env, node, ids))[l]
         == if l.gpuId in ids then multiset(LanesOf(PairsOf(env, node)))[l] else 0
  {
    if ids != [] {
      var n := |ids| - 1;
      LastIsNew(ids);
      LanesInWep(env, node, ids[..n], l);
      GroupMembers(PairsOf(env, node), ids[n]);
      LanesOfGpu(PairsOf(env, node), ids[n], l);
      assert ids == ids[..n] + [ids[n]];
      assert WepLanes(env, node, ids) == WepLanes(env, node, ids[..n]) + GroupAt(env, node, ids[n]);
    }
  }

  /** The WEP job uses every device of the node's topology exactly once, with the GPU it is paired with. */
  lemma WepUsesEveryDeviceOnce(env: Env, nodes: seq<string>, ids: seq<int>, node: string)
    requires Scanned(env, nodes, ids) && node in nodes
    ensures multiset(WepLanes(env, node, ids)) == multiset(LanesOf(PairsOf(env, node)))
    ensures |WepLanes(env, node, ids)| == |PairsOf(env, node)|
    ensures forall s, t :: 0 <= s < t < |WepLanes(env, node, ids)| ==>
              WepLanes(env, node, ids)[s].device != WepLanes(env, node, ids)[t].device
  {
    var pairs, lanes := PairsOf(env, node), WepLanes(env, node, ids);
    var plain := LanesOf(pairs);
    forall l ensures multiset(lanes)[l] == multiset(plain)[l] {
      LanesInWep(env, node, ids, l);
      if l in plain { LaneIsListed(env, nodes, ids, node, l); }
    }
    SameElements(lanes, plain);
    assert NodeOk(env, node);
    assert forall i, j :: 0 <= i < j < |plain| ==> plain[i].device != plain[j].device by {
      forall i, j | 0 <= i < j < |plain| ensures plain[i].device != plain[j].device {
        assert Devices(pairs)[i] != Devices(pairs)[j];
      }
    }
    DevicesStayDistinct(plain, lanes);
  }

  lemma LaneIsListed(env: Env, nodes: seq<string>, ids: seq<int>, node: string, l: Lane)
    requires Scanned(env, nodes, ids) && node in nodes && l in LanesOf(PairsOf(env, node))
    ensures l.gpuId in ids
  {
    var pairs := PairsOf(env, node);
    var i :| 0 <= i < |pairs| && LanesOf(pairs)[i] == l;
    assert pairs[i].gpu.id in IdsIn(pairs);
    GpuIdsOfMembers(env, nodes, l.gpuId);
  }

  lemma DevicesStayDistinct(a: seq<Lane>, r: seq<Lane>)
    requires forall i, j :: 0 <= i < j < |a| ==> a[i].device != a[j].device
    requires multiset(r) == multiset(a)
    ensures forall i, j :: 0 <= i < j < |r| ==> r[i].device != r[j].device
  {
    PermutationDistinct(a, r);
    SameElements(r, a);
    forall i, j | 0 <= i < j < |r| ensures r[i].device != r[j].device {
      assert r[i] in a && r[j] in a && r[i] != r[j];
    }
  }

  lemma ExpandedJobs(env: Env, nodes: seq<string>, ids: seq<int>, j: EfaJob)
    requires nodes != []
    ensures j in Expanded(env, nodes, ids).jobs
       <==> j in PdJobs(env, nodes, ids)
            || (AllCompatible(env, nodes, ids) && |AppendedLanes(env, nodes, nodes[0], ids)| > 1
                && j == WepJob(env, nodes, ids))
  {
    hide AllCompatible, PdJobs, PdSkips, AppendedLanes, WepJob;
  }

  lemma {:induction false} ListedOnce(env: Env, nodes: seq<string>, ids: seq<int>, node: string)
    requires Distinct(nodes)
    ensures AppendedLanes(env, nodes, node, ids) == if node in nodes then WepLanes(env, node, ids) else []
  {
    hide WepLanes;
    if nodes != [] {
      LastIsNew(nodes);
      assert nodes == nodes[..|nodes| - 1] + [nodes[|nodes| - 1]];
      ListedOnce(env, nodes[..|nodes| - 1], ids, node);
    }
  }

  /** Each of distinct nodes contributes its groups, in GPU order, to the WEP job. */
  lemma WepJobLanes(env: Env, nodes: seq<string>, ids: seq<int>, node: string)
    requires Distinct(nodes) && node in nodes
    ensures node in WepJob(env, nodes, ids).lanes && WepJob(env, nodes, ids).lanes[node] == WepLanes(env, node, ids)
  {
    ListedOnce(env, nodes, ids, node);
  }

  /** There is a WEP job exactly when all groups match and the nodes have at least two devices. */
  lemma WepExactly(env: Env, nodes: seq<string>, ids: seq<int>, j: EfaJob)
    requires Scanned(env, nodes, ids) && Distinct(nodes) && j.WholeEndpoint?
    ensures j in Expanded(env, nodes, ids).jobs
       <==> j == WepJob(env, nodes, ids) && AllCompatible(env, nodes, ids) && |PairsOf(env, nodes[0])| > 1
  {
    hide AllCompatible, Compatible, PdJobs, PdSkips, WepLanes, AppendedLanes, WepJob, Expanded;
    PdJobsAre(env, nodes, ids);
    ListedOnce(env, nodes, ids, nodes[0]);
    WepUsesEveryDeviceOnce(env, nodes, ids, nodes[0]);
    ExpandedJobs(env, nodes, ids, j);
  }

  // ---- Client and server agree ----

  /** Equally many lanes, and the same GPU in every slot. */
  ghost predicate Agree(a: seq<Lane>, b: seq<Lane>) {
    |a| == |b| && forall s :: 0 <= s < |a| ==> a[s].gpuId == b[s].gpuId
  }

  lemma GroupsAgree(env: Env, nodes: seq<string>, id: int, n: string, m: string)
    requires Compatible(env, nodes, id) && n in nodes && m in nodes
    ensures Agree(GroupAt(env, n, id), GroupAt(env, m, id))
    ensures forall s :: 0 <= s < |GroupAt(env, n, id)| ==> GroupAt(env, n, id)[s].gpuId == id
  {
    hide Group;
    GroupMembers(PairsOf(env, n), id);
    GroupMembers(PairsOf(env, m), id);
    var a, b := GroupAt(env, n, id), GroupAt(env, m, id);
    assert forall s :: 0 <= s < |a| ==> a[s] in a;
    assert forall s :: 0 <= s < |b| ==> b[s] in b;
  }

  lemma AgreeTogether(a: seq<Lane>, b: seq<Lane>, a': seq<Lane>, b': seq<Lane>)
    requires Agree(a, a') && Agree(b, b')
    ensures Agree(a + b, a' + b')
  {
  }

  /** Whatever order the devices have, slot s of the WEP job belongs to the same GPU on every node. */
  lemma {:induction false} WepLanesAgree(env: Env, nodes: seq<string>, ids: seq<int>, n: string, m: string)
    requires AllCompatible(env, nodes, ids) && n in nodes && m in nodes
    ensures Agree(WepLanes(env, n, ids), WepLanes(env, m, ids))
  {
    if ids != [] {
      var k := |ids| - 1;
      assert ids == ids[..k] + [ids[k]];
      hide Compatible, GroupAt, Agree;
      WepLanesAgree(env, nodes, ids[..k], n, m);
      GroupsAgree(env, nodes, ids[k], n, m);
      AgreeTogether(WepLanes(env, n, ids[..k]), GroupAt(env, n, ids[k]), WepLanes(env, m, ids[..k]), GroupAt(env, m, ids[k]));
    }
  }

  /** All endpoints of any job have the same number of lanes and the same GPU in each slot, so any map
      entry tells how many results to expect. */
  lemma EndpointsAgree(env: Env, nodes: seq<string>, ids: seq<int>, j: EfaJob, n: string, m: string)
    requires Scanned(env, nodes, ids) && Distinct(nodes)
    requires j in Expanded(env, nodes, ids).jobs && n in j.lanes && m in j.lanes
    ensures j.lanes.Keys == set x | x in nodes
    ensures |j.lanes[n]| > 0 && Agree(j.lanes[n], j.lanes[m])
    ensures forall s, t :: 0 <= s < t < |j.lanes[n]| ==> j.lanes[n][s].device != j.lanes[n][t].device
    ensures forall l :: l in j.lanes[n] ==> l.gpuId >= 0 && PingMesh.ValidDevice(l.device)
  {
    hide Compatible, AllCompatible, Group, NodeOk, Expanded, PdJobs, PdSkips, Agree;
    PdJobsAre(env, nodes, ids);
    ExpandedJobs(env, nodes, ids, j);
    if j.PerGpu? {
      PdEndpoint(env, nodes, ids, j.gpuId, n, m);
    } else {
      WepExactly(env, nodes, ids, j);
      WepJobLanes(env, nodes, ids, n);
      WepJobLanes(env, nodes, ids, m);
      WepEndpoint(env, nodes, ids, n, m);
    }
  }

  lemma LanesAreValid(env: Env, nodes: seq<string>, node: string, l: Lane)
    requires AllOk(env, nodes) && node in nodes && l in LanesOf(PairsOf(env, node))
    ensures l.gpuId >= 0 && PingMesh.ValidDevice(l.device)
  {
    assert NodeOk(env, node);
    var pairs := PairsOf(env, node);
    var i :| 0 <= i < |pairs| && LanesOf(pairs)[i] == l;
    assert PairOk(pairs[i]);
  }

  lemma PdEndpoint(env: Env, nodes: seq<string>, ids: seq<int>, id: int, n: string, m: string)
    requires Scanned(env, nodes, ids) && Compatible(env, nodes, id) && n in nodes && m in nodes
    ensures |GroupAt(env, n, id)| > 0 && Agree(GroupAt(env, n, id), GroupAt(env, m, id))
    ensures forall s, t :: 0 <= s < t < |GroupAt(env, n, id)| ==>
              GroupAt(env, n, id)[s].device != GroupAt(env, n, id)[t].device
    ensures forall l :: l in GroupAt(env, n, id) ==> l.gpuId >= 0 && PingMesh.ValidDevice(l.device)
  {
    GroupsAgree(env, nodes, id, n, m);
    GroupMembers(PairsOf(env, n), id);
    assert NodeOk(env, n);
    LanesWithDistinct(PairsOf(env, n), id);
    DevicesStayDistinct(LanesWith(PairsOf(env, n), id), GroupAt(env, n, id));
    hide Group, PairsOk, NodeOk, LanesWith;
    forall l | l in GroupAt(env, n, id) ensures l.gpuId >= 0 && PingMesh.ValidDevice(l.device) {
      LanesAreValid(env, nodes, n, l);
    }
  }

  lemma WepEndpoint(env: Env, nodes: seq<string>, ids: seq<int>, n: string, m: string)
    requires Scanned(env, nodes, ids) && AllCompatible(env, nodes, ids) && n in nodes && m in nodes
    ensures |WepLanes(env, n, ids)| > 0 && Agree(WepLanes(env, n, ids), WepLanes(env, m, ids))
    ensures forall s, t :: 0 <= s < t < |WepLanes(env, n, ids)| ==>
              WepLanes(env, n, ids)[s].device != WepLanes(env, n, ids)[t].device
    ensures forall l :: l in WepLanes(env, n, ids) ==> l.gpuId >= 0 && PingMesh.ValidDevice(l.device)
  {
    WepLanesAgree(env, nodes, ids, n, m);
    WepUsesEveryDeviceOnce(env, nodes, ids, n);
    assert NodeOk(env, n);
    hide WepLanes, AllCompatible;
    SameElements(WepLanes(env, n, ids), LanesOf(PairsOf(env, n)));
    forall l | l in WepLanes(env, n, ids) ensures l.gpuId >= 0 && PingMesh.ValidDevice(l.device) {
      LanesAreValid(env, nodes, n, l);
    }
  }

  // ---- The WEP job is the PD jobs side by side ----

  /** The first slot of the i-th GPU. */
  function Offset(env: Env, node: string, ids: seq<int>, i: nat): nat
    requires i <= |ids|
  {
    |WepLanes(env, node, ids[..i])|
  }

  lemma {:induction false} WepSlice(env: Env, node: string, ids: seq<int>, i: nat)
    requires i < |ids|
    ensures Offset(env, node, ids, i) <= Offset(env, node, ids, i + 1) <= |WepLanes(env, node, ids)|
    ensures WepLanes(env, node, ids)[Offset(env, node, ids, i)..Offset(env, node, ids, i + 1)]
         == GroupAt(env, node, ids[i])
  {
    hide GroupAt;
    var k := |ids| - 1;
    assert ids[..i + 1][..i] == ids[..i];
    if i < k {
      WepSlice(env, node, ids[..k], i);
      assert ids[..k][..i] == ids[..i] && ids[..k][..i + 1] == ids[..i + 1];
    } else {
      assert ids[..k + 1] == ids;
    }
  }

  lemma {:induction false} PdJobAt(env: Env, nodes: seq<string>, ids: seq<int>, i: nat)
    requires AllCompatible(env, nodes, ids) && i < |ids|
    ensures |PdJobs(env, nodes, ids)| == |ids|
    ensures PdJobs(env, nodes, ids)[i] == PdJob(env, nodes, ids[i])
  {
    hide Compatible, PdJob;
    var k := |ids| - 1;
    assert ids == ids[..k] + [ids[k]];
    if k > 0 { PdJobAt(env, nodes, ids[..k], if i < k then i else 0); }
  }

  /** The i-th PD job's lanes fill the WEP slots from the i-th offset to the next. */
  lemma WepIsPdJobsInOrder(env: Env, nodes: seq<string>, ids: seq<int>, node: string, i: nat)
    requires AllCompatible(env, nodes, ids) && node in nodes && i < |ids|
    ensures |PdJobs(env, nodes, ids)| == |ids| && node in PdJobs(env, nodes, ids)[i].lanes
    ensures Offset(env, node, ids, i) <= Offset(env, node, ids, i + 1) <= |WepLanes(env, node, ids)|
    ensures WepLanes(env, node, ids)[Offset(env, node, ids, i)..Offset(env, node, ids, i + 1)]
         == PdJobs(env, nodes, ids)[i].lanes[node]
  {
    hide AllCompatible, WepLanes, PdJobs, Offset;
    PdJobAt(env, nodes, ids, i);
    WepSlice(env, node, ids, i);
  }
}
