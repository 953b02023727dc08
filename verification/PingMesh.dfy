/** The pingmesh jobs: which node pairs get one, under which key, and how the two scripts of a job
    agree on ports, devices and output files. */
module PingMesh {
  import opened Cluster
  import opened Ordering
  import opened Rails
  import Schedule
  import Pairwise

  const PORT_BASE := 18515
  const DEFAULT_PING_TIMEOUT := 10
  const SERVER_BUFFER_SEC := 30

  // ---- Valid device names ----

  predicate Alphanumeric(c: char) {
    'a' <= c <= 'z' || 'A' <= c <= 'Z' || '0' <= c <= '9'
  }

  predicate ValidDevice(d: string) {
    && d != "" && Alphanumeric(d[0])
    && forall i :: 0 <= i < |d| ==> Alphanumeric(d[i]) || d[i] == '_' || d[i] == '-'
  }

  /** NIC names start with a letter or digit and go on with these, dashes and underscores. */
  lemma ValidDeviceExamples()
    ensures ValidDevice("mlx5_0") && ValidDevice("rdmap0s0") && ValidDevice("0-a")
    ensures !ValidDevice("") && !ValidDevice("_a") && !ValidDevice("-a") && !ValidDevice("a b") && !ValidDevice("a.b")
  {
    assert "a b"[1] == ' ' && "a.b"[1] == '.';
  }

  function Valid(devs: seq<string>): seq<string> {
    if devs == [] then []
    else
      var n := |devs| - 1;
      Valid(devs[..n]) + (if ValidDevice(devs[n]) then [devs[n]] else [])
  }

  lemma {:induction false} ValidMembers(devs: seq<string>)
    ensures |Valid(devs)| <= |devs|
    ensures forall d :: d in Valid(devs) <==> d in devs && ValidDevice(d)
  {
    if devs != [] {
      ValidMembers(devs[..|devs| - 1]);
      assert devs == devs[..|devs| - 1] + [devs[|devs| - 1]];
    }
  }

  /** A filter: it keeps or drops each name by itself. */
  lemma {:induction false} ValidInOrder(a: seq<string>, b: seq<string>)
    ensures Valid(a + b) == Valid(a) + Valid(b)
    ensures |a| == 1 ==> Valid(a) == if ValidDevice(a[0]) then a else []
  {
    if b == [] {
      assert a + b == a;
    } else {
      var n := |b| - 1;
      ValidInOrder(a, b[..n]);
      assert (a + b)[..|a + b| - 1] == a + b[..n];
    }
  }

  method FilterValidDeviceNames(devs: seq<string>) returns (out: seq<string>)
    ensures out == Valid(devs)
  {
    out := [];
    for i := 0 to |devs|
      invariant out == Valid(devs[..i])
    {
      assert devs[..i + 1][..i] == devs[..i];
      if ValidDevice(devs[i]) {
        out := out + [devs[i]];
      }
    }
    assert devs[..|devs|] == devs;
  }

  // ---- One job per testable node pair ----

  datatype Job = Job(serverNode: string, clientNode: string, serverDevs: seq<string>, clientDevs: seq<string>,
                     timeout: int, efaCount: Option<int>)

  /** What runPingMesh reads: topologies, whether RDMA is EFA/SRD, and the EFA count resolved for
      each node that the API server knows. */
  datatype Env = Env(topoMap: map<string, NodeTopology>, srd: bool, efaCount: map<string, int>, timeout: int)

  function DevsOf(env: Env, node: string): seq<string>
    requires node in env.topoMap
  {
    UniqueDevs(env.topoMap[node].pairs)
  }

  /** Both ends have a topology with a usable device and, for SRD, the server has EFA devices. */
  predicate Testable(env: Env, p: NodePair) {
    && p.server in env.topoMap && p.client in env.topoMap
    && Valid(DevsOf(env, p.server)) != [] && Valid(DevsOf(env, p.client)) != []
    && (env.srd ==> p.server in env.efaCount && env.efaCount[p.server] > 0)
  }

  /** The server's devices belong to the server's topology, the client's to the client's. */
  function JobFor(env: Env, p: NodePair): Job
    requires Testable(env, p)
  {
    Job(p.server, p.client, Valid(DevsOf(env, p.server)), Valid(DevsOf(env, p.client)),
        if env.timeout <= 0 then DEFAULT_PING_TIMEOUT else env.timeout,
        if env.srd then Some(env.efaCount[p.server]) else None)
  }

  /** p is the canonical key of two nodes that the double loop has passed when it stands at (i, j). */
  ghost predicate Passed(nodes: seq<string>, i: int, j: int, p: NodePair) {
    exists a, b :: 0 <= a < b < |nodes| && (a < i || (a == i && b < j)) && p == Schedule.Canonical(nodes[a], nodes[b])
  }

  method NewPingMeshJob(serverNode: string, clientNode: string, serverDevs: seq<string>, clientDevs: seq<string>,
                        timeout: int)
    returns (job: Job)
    ensures job == Job(serverNode, clientNode, Valid(serverDevs), Valid(clientDevs),
                       if timeout <= 0 then DEFAULT_PING_TIMEOUT else timeout, None)
  {
    var t := if timeout <= 0 then DEFAULT_PING_TIMEOUT else timeout;
    var s := FilterValidDeviceNames(serverDevs);
    var c := FilterValidDeviceNames(clientDevs);
    job := Job(serverNode, clientNode, s, c, t, None);
  }

  /** One iteration of the double loop: the job of two nodes, if they get one. */
  method JobForNodes(env: Env, nodeA: string, nodeB: string) returns (pair: NodePair, job: Option<Job>)
    ensures pair == Schedule.Canonical(nodeA, nodeB)
    ensures job == if Testable(env, pair) then Some(JobFor(env, pair)) else None
  {
    pair := Schedule.Canonical(nodeA, nodeB);
    job := None;
    if nodeA !in env.topoMap || nodeB !in env.topoMap {
      return;
    }
    var devsA := DevicesFromTopology(env.topoMap[nodeA]);
    var devsB := DevicesFromTopology(env.topoMap[nodeB]);
    if |devsA| == 0 || |devsB| == 0 {
      return;
    }
    var serverNode, clientNode := nodeA, nodeB;
    var serverDevs, clientDevs := devsA, devsB;
    if StrLess(clientNode, serverNode) {
      serverNode, clientNode := clientNode, serverNode;
      serverDevs, clientDevs := clientDevs, serverDevs;
    }
    var pmJob := NewPingMeshJob(serverNode, clientNode, serverDevs, clientDevs, env.timeout);
    if |pmJob.serverDevs| == 0 || |pmJob.clientDevs| == 0 {
      return;
    }
    if env.srd {
      if serverNode !in env.efaCount || env.efaCount[serverNode] <= 0 {
        return;
      }
      pmJob := pmJob.(efaCount := Some(env.efaCount[serverNode]));
    }
    job := Some(pmJob);
  }

  /** The job map of runPingMesh: an entry for every testable pair of nodes, under its canonical key. */
  method BuildJobMap(gpuNodes: seq<string>, env: Env) returns (jobs: map<NodePair, Job>)
    ensures forall p :: p in jobs <==> Passed(gpuNodes, |gpuNodes|, 0, p) && Testable(env, p)
    ensures forall p :: p in jobs ==> jobs[p] == JobFor(env, p)
  {
    hide Passed, JobFor, Testable, Schedule.Canonical;
    jobs := map[];
    PassedNone(gpuNodes);
    var i := 0;
    while i < |gpuNodes|
      invariant 0 <= i <= |gpuNodes|
      invariant forall p :: p in jobs <==> Passed(gpuNodes, i, 0, p) && Testable(env, p)
      invariant forall p :: p in jobs ==> jobs[p] == JobFor(env, p)
    {
      var j := i + 1;
      PassedRow(gpuNodes, i);
      while j < |gpuNodes|
        invariant i < j <= |gpuNodes|
        invariant forall p :: p in jobs <==> Passed(gpuNodes, i, j, p) && Testable(env, p)
        invariant forall p :: p in jobs ==> jobs[p] == JobFor(env, p)
      {
        var pair, job := JobForNodes(env, gpuNodes[i], gpuNodes[j]);
        PassedNext(gpuNodes, i, j);
        if job.Some? {
          jobs := jobs[pair := job.value];
        }
        j := j + 1;
      }
      PassedRowEnd(gpuNodes, i);
      i := i + 1;
    }
  }

  lemma PassedNone(nodes: seq<string>)
    ensures forall p :: !Passed(nodes, 0, 0, p)
  {
  }

  lemma PassedRow(nodes: seq<string>, i: int)
    requires 0 <= i < |nodes|
    ensures forall p :: Passed(nodes, i, i + 1, p) <==> Passed(nodes, i, 0, p)
  {
  }

  lemma PassedRowEnd(nodes: seq<string>, i: int)
    requires 0 <= i < |nodes|
    ensures forall p :: Passed(nodes, i + 1, 0, p) <==> Passed(nodes, i, |nodes|, p)
  {
  }

  lemma PassedNext(nodes: seq<string>, i: int, j: int)
    requires 0 <= i < j < |nodes|
    ensures forall p :: Passed(nodes, i, j + 1, p) <==>
              Passed(nodes, i, j, p) || p == Schedule.Canonical(nodes[i], nodes[j])
  {
    forall p ensures Passed(nodes, i, j + 1, p) <==>
                     Passed(nodes, i, j, p) || p == Schedule.Canonical(nodes[i], nodes[j]) {
      if p == Schedule.Canonical(nodes[i], nodes[j]) {
        assert 0 <= i < j < |nodes| && (i < i || (i == i && j < j + 1));
      }
    }
  }

  // ---- The keys are what the tournament looks up ----

  /** runPingMesh keys its jobs as the schedule orders its pairs: smaller node name first. */
  lemma KeysAreCanonical(gpuNodes: seq<string>, p: NodePair)
    requires Distinct(gpuNodes) && Passed(gpuNodes, |gpuNodes|, 0, p)
    ensures p.server in gpuNodes && p.client in gpuNodes && StrLess(p.server, p.client)
  {
    var a, b :| 0 <= a < b < |gpuNodes| && p == Schedule.Canonical(gpuNodes[a], gpuNodes[b]);
    Schedule.CanonicalSymmetric(gpuNodes[a], gpuNodes[b]);
  }

  /** So a completed pairwise run has run every pingmesh job, each exactly once. */
  lemma EveryJobRuns(gpuNodes: seq<string>, env: Env, jobs: map<NodePair, Job>, cfg: Pairwise.Config,
                     nodes: seq<string>, acts: seq<Pairwise.Action>, s: Pairwise.State)
    requires Distinct(gpuNodes) && "" !in gpuNodes
    requires forall p :: p in jobs <==> Passed(gpuNodes, |gpuNodes|, 0, p) && Testable(env, p)
    requires cfg.jobs == jobs.Keys && Pairwise.Started(cfg, nodes)
    requires Pairwise.Run(cfg, acts) == Some(s) && s.round == |cfg.schedule|
    ensures Distinct(s.spawned) && forall p :: p in s.spawned <==> p in jobs
  {
    Pairwise.CompletedRunCoversJobs(cfg, nodes, acts, s);
    forall p | p in jobs ensures p in s.workers {
      KeysAreCanonical(gpuNodes, p);
    }
  }

  // ---- Ports ----

  /** A server process listens with one device on one port. */
  datatype ServerProc = ServerProc(dev: string, port: nat)

  /** A client test probes dst from src and writes its output to file number `out`. */
  datatype ClientTest = ClientTest(src: string, dst: string, port: nat, out: nat)

  function Listeners(dev: string, idx: nat, n: nat): seq<ServerProc> {
    seq(n, j requires 0 <= j => ServerProc(dev, PORT_BASE + idx + j))
  }

  /** The server's processes: for every valid server device one per client device, valid or not. */
  function ServerProcs(serverDevs: seq<string>, slots: nat): seq<ServerProc> {
    if serverDevs == [] then []
    else
      var n := |serverDevs| - 1;
      var prev := ServerProcs(serverDevs[..n], slots);
      if ValidDevice(serverDevs[n]) then prev + Listeners(serverDevs[n], |prev|, slots) else prev
  }

  function Probes(dst: string, clientDevs: seq<string>, idx: nat): seq<ClientTest> {
    if clientDevs == [] then []
    else
      var n := |clientDevs| - 1;
      var prev := Probes(dst, clientDevs[..n], idx);
      if ValidDevice(clientDevs[n])
      then prev + [ClientTest(clientDevs[n], dst, PORT_BASE + idx + |prev|, idx + |prev|)]
      else prev
  }

  /** The client's tests: every valid server device by every valid client device. */
  function ClientTests(serverDevs: seq<string>, clientDevs: seq<string>): seq<ClientTest> {
    if serverDevs == [] then []
    else
      var n := |serverDevs| - 1;
      var prev := ClientTests(serverDevs[..n], clientDevs);
      if ValidDevice(serverDevs[n]) then prev + Probes(serverDevs[n], clientDevs, |prev|) else prev
  }

  method ServerScript(serverDevs: seq<string>, clientDevs: seq<string>) returns (procs: seq<ServerProc>)
    ensures procs == ServerProcs(serverDevs, |clientDevs|)
  {
    procs := [];
    var idx := 0;
    for i := 0 to |serverDevs|
      invariant procs == ServerProcs(serverDevs[..i], |clientDevs|) && idx == |procs|
    {
      assert serverDevs[..i + 1][..i] == serverDevs[..i];
      var sdev := serverDevs[i];
      if !ValidDevice(sdev) {
        continue;
      }
      ghost var before := procs;
      for cslot := 0 to |clientDevs|
        invariant procs == before + Listeners(sdev, |before|, cslot) && idx == |procs|
      {
        procs := procs + [ServerProc(sdev, PORT_BASE + idx)];
        idx := idx + 1;
      }
    }
    assert serverDevs[..|serverDevs|] == serverDevs;
  }

  method ClientScript(serverDevs: seq<string>, clientDevs: seq<string>) returns (tests: seq<ClientTest>)
    ensures tests == ClientTests(serverDevs, clientDevs)
  {
    tests := [];
    var idx := 0;
    for i := 0 to |serverDevs|
      invariant tests == ClientTests(serverDevs[..i], clientDevs) && idx == |tests|
    {
      assert serverDevs[..i + 1][..i] == serverDevs[..i];
      var sdev := serverDevs[i];
      if !ValidDevice(sdev) {
        continue;
      }
      ghost var before := tests;
      for j := 0 to |clientDevs|
        invariant tests == before + Probes(sdev, clientDevs[..j], |before|) && idx == |tests|
      {
        assert clientDevs[..j + 1][..j] == clientDevs[..j];
        if !ValidDevice(clientDevs[j]) {
          continue;
        }
        tests := tests + [ClientTest(clientDevs[j], sdev, PORT_BASE + idx, idx)];
        idx := idx + 1;
      }
      assert clientDevs[..|clientDevs|] == clientDevs;
    }
    assert serverDevs[..|serverDevs|] == serverDevs;
  }

  /** The rows of the client's JSON: line idx of results.txt with output file idx. */
  method ClientRows(tests: seq<ClientTest>, rc: nat -> int, output: nat -> string) returns (rows: seq<NicResult>)
    requires forall k :: 0 <= k < |tests| ==> tests[k].out == k
    ensures |rows| == |tests|
    ensures forall k :: 0 <= k < |tests| ==>
              rows[k] == NicResult(tests[k].src, tests[k].dst, rc(tests[k].out) == 0,
                                   if rc(tests[k].out) == 0 then "" else output(tests[k].out))
  {
    rows := [];
    var idx := 0;
    for i := 0 to |tests|
      invariant idx == i == |rows|
      invariant forall k :: 0 <= k < i ==>
                  rows[k] == NicResult(tests[k].src, tests[k].dst, rc(tests[k].out) == 0,
                                       if rc(tests[k].out) == 0 then "" else output(tests[k].out))
    {
      var line := tests[i];
      var code := rc(line.out);
      rows := rows + [NicResult(line.src, line.dst, code == 0, if code == 0 then "" else output(idx))];
      idx := idx + 1;
    }
  }

  // ---- Both scripts count alike ----

  /** Ports and output files are numbered without gaps, so no two processes share one. */
  lemma {:induction false} ListenersNumbered(serverDevs: seq<string>, slots: nat)
    ensures forall k :: 0 <= k < |ServerProcs(serverDevs, slots)| ==>
              ServerProcs(serverDevs, slots)[k].port == 18515 + k
  {
    if serverDevs != [] { ListenersNumbered(serverDevs[..|serverDevs| - 1], slots); }
  }

  lemma {:induction false} ProbesNumbered(dst: string, clientDevs: seq<string>, idx: nat)
    ensures |Probes(dst, clientDevs, idx)| == |Valid(clientDevs)|
    ensures forall k :: 0 <= k < |Valid(clientDevs)| ==>
              Probes(dst, clientDevs, idx)[k] == ClientTest(Valid(clientDevs)[k], dst, PORT_BASE + idx + k, idx + k)
  {
    if clientDevs != [] { ProbesNumbered(dst, clientDevs[..|clientDevs| - 1], idx); }
  }

  lemma {:induction false} TestsNumbered(serverDevs: seq<string>, clientDevs: seq<string>)
    ensures forall k :: 0 <= k < |ClientTests(serverDevs, clientDevs)| ==>
              ClientTests(serverDevs, clientDevs)[k].port == 18515 + k
              && ClientTests(serverDevs, clientDevs)[k].out == k
  {
    if serverDevs != [] {
      var n := |serverDevs| - 1;
      TestsNumbered(serverDevs[..n], clientDevs);
      ProbesNumbered(serverDevs[n], clientDevs, |ClientTests(serverDevs[..n], clientDevs)|);
    }
  }

  /** Test k of the client meets, on its port, a server process that is bound to the device which
      the test reports as its destination. */
  ghost predicate PortsAgree(serverDevs: seq<string>, clientDevs: seq<string>) {
    Meet(ServerProcs(serverDevs, |clientDevs|), ClientTests(serverDevs, clientDevs))
  }

  ghost predicate Meet(procs: seq<ServerProc>, tests: seq<ClientTest>) {
    forall k :: 0 <= k < |tests| ==> k < |procs| && procs[k].port == tests[k].port && procs[k].dev == tests[k].dst
  }

  lemma {:induction false} SameBlocks(serverDevs: seq<string>, clientDevs: seq<string>)
    requires |Valid(clientDevs)| == |clientDevs|
    ensures |ServerProcs(serverDevs, |clientDevs|)| == |ClientTests(serverDevs, clientDevs)|
    ensures PortsAgree(serverDevs, clientDevs)
  {
    ListenersNumbered(serverDevs, |clientDevs|);
    TestsNumbered(serverDevs, clientDevs);
    if serverDevs != [] {
      var n := |serverDevs| - 1;
      SameBlocks(serverDevs[..n], clientDevs);
      ProbesNumbered(serverDevs[n], clientDevs, |ClientTests(serverDevs[..n], clientDevs)|);
    }
  }

  lemma OneMoreServer(S: seq<string>, d: string, clientDevs: seq<string>)
    ensures ServerProcs(S + [d], |clientDevs|) == ServerProcs(S, |clientDevs|)
         + if ValidDevice(d) then Listeners(d, |ServerProcs(S, |clientDevs|)|, |clientDevs|) else []
    ensures ClientTests(S + [d], clientDevs) == ClientTests(S, clientDevs)
         + if ValidDevice(d) then Probes(d, clientDevs, |ClientTests(S, clientDevs)|) else []
    ensures Valid(S + [d]) == Valid(S) + if ValidDevice(d) then [d] else []
  {
    assert (S + [d])[..|S|] == S;
  }

  /** Invalid server devices are skipped on both sides. */
  lemma {:induction false} OnlyValidServers(serverDevs: seq<string>, clientDevs: seq<string>)
    ensures ServerProcs(serverDevs, |clientDevs|) == ServerProcs(Valid(serverDevs), |clientDevs|)
    ensures ClientTests(serverDevs, clientDevs) == ClientTests(Valid(serverDevs), clientDevs)
  {
    if serverDevs != [] {
      hide ServerProcs, ClientTests, Valid, ValidDevice;
      var S, d := serverDevs[..|serverDevs| - 1], serverDevs[|serverDevs| - 1];
      assert serverDevs == S + [d];
      OnlyValidServers(S, clientDevs);
      OneMoreServer(S, d, clientDevs);
      if ValidDevice(d) {
        OneMoreServer(Valid(S), d, clientDevs);
      } else {
        assert Valid(serverDevs) == Valid(S);
      }
    }
  }

  lemma OnlyValidServersAgree(serverDevs: seq<string>, clientDevs: seq<string>)
    ensures PortsAgree(serverDevs, clientDevs) == PortsAgree(Valid(serverDevs), clientDevs)
  {
    OnlyValidServers(serverDevs, clientDevs);
    hide ServerProcs, ClientTests, Valid;
  }

  lemma {:induction false} AllValid(devs: seq<string>)
    requires forall d :: d in devs ==> ValidDevice(d)
    ensures Valid(devs) == devs
  {
    if devs != [] {
      AllValid(devs[..|devs| - 1]);
      assert devs == devs[..|devs| - 1] + [devs[|devs| - 1]];
    }
  }

  lemma {:induction false} ValidDistinct(devs: seq<string>)
    requires Distinct(devs)
    ensures Distinct(Valid(devs))
  {
    if devs != [] {
      LastIsNew(devs);
      ValidMembers(devs[..|devs| - 1]);
      ValidDistinct(devs[..|devs| - 1]);
    }
  }

  lemma {:induction false} ScriptsGrow(serverDevs: seq<string>, clientDevs: seq<string>, i: nat)
    requires i <= |serverDevs|
    ensures ServerProcs(serverDevs[..i], |clientDevs|) <= ServerProcs(serverDevs, |clientDevs|)
    ensures ClientTests(serverDevs[..i], clientDevs) <= ClientTests(serverDevs, clientDevs)
  {
    if i < |serverDevs| {
      var n := |serverDevs| - 1;
      ScriptsGrow(serverDevs[..n], clientDevs, i);
      assert serverDevs[..n][..i] == serverDevs[..i];
    } else {
      assert serverDevs[..i] == serverDevs;
    }
  }

  lemma FirstBlock(d: string, clientDevs: seq<string>)
    requires ValidDevice(d)
    ensures ServerProcs([d], |clientDevs|) == Listeners(d, 0, |clientDevs|)
    ensures ClientTests([d], clientDevs) == Probes(d, clientDevs, 0)
  {
    assert [] + [d] == [d];
    OneMoreServer([], d, clientDevs);
  }

  /** The server counts all client devices, the client only the valid ones, so the scripts agree
      exactly if that makes no difference: nothing to probe, one server device, or no invalid name. */
  lemma PortsAgreeExactly(serverDevs: seq<string>, clientDevs: seq<string>)
    requires Distinct(serverDevs)
    ensures PortsAgree(serverDevs, clientDevs) <==>
              Valid(clientDevs) == [] || |Valid(serverDevs)| <= 1 || |Valid(clientDevs)| == |clientDevs|
  {
    hide ServerProcs, ClientTests, Valid, ValidDevice;
    var S := Valid(serverDevs);
    OnlyValidServersAgree(serverDevs, clientDevs);
    ValidDistinct(serverDevs);
    ValidMembers(serverDevs);
    ValidMembers(clientDevs);
    if Valid(clientDevs) == [] {
      NothingToProbe(serverDevs, clientDevs);
    } else if |Valid(clientDevs)| == |clientDevs| {
      SameBlocks(serverDevs, clientDevs);
    } else if |S| <= 1 {
      OneServerAgrees(S, clientDevs);
    } else {
      Misaligned(S, clientDevs);
    }
  }

  lemma OneServerAgrees(S: seq<string>, clientDevs: seq<string>)
    requires |S| <= 1 && forall d :: d in S ==> ValidDevice(d)
    ensures PortsAgree(S, clientDevs)
  {
    if |S| == 1 {
      assert S == [S[0]];
      ValidMembers(clientDevs);
      FirstBlock(S[0], clientDevs);
      ProbesNumbered(S[0], clientDevs, 0);
    }
  }

  lemma {:induction false} NothingToProbe(serverDevs: seq<string>, clientDevs: seq<string>)
    requires Valid(clientDevs) == []
    ensures ClientTests(serverDevs, clientDevs) == []
  {
    if serverDevs != [] {
      var n := |serverDevs| - 1;
      NothingToProbe(serverDevs[..n], clientDevs);
      ProbesNumbered(serverDevs[n], clientDevs, 0);
    }
  }

  /** With an invalid client name in between, the first test of the second server device reaches a
      process of the first one. */
  lemma Misaligned(S: seq<string>, clientDevs: seq<string>)
    requires Distinct(S) && |S| >= 2 && ValidDevice(S[0]) && ValidDevice(S[1])
    requires 0 < |Valid(clientDevs)| < |clientDevs|
    ensures !PortsAgree(S, clientDevs)
  {
    hide ServerProcs, ClientTests, Valid, ValidDevice, Probes, Listeners;
    var v := |Valid(clientDevs)|;
    assert S[..1] == [S[0]] && S[..2] == [S[0]] + [S[1]];
    SecondBlock(S[0], S[1], clientDevs);
    ScriptsGrow(S, clientDevs, 1);
    ScriptsGrow(S, clientDevs, 2);
    assert ClientTests(S, clientDevs)[v].dst == S[1];
    assert ServerProcs(S, |clientDevs|)[v].dev == S[0];
  }

  /** Test v, for v valid client devices, is the first one for the second server device, while listener v
      may still belong to the first. */
  lemma SecondBlock(d: string, e: string, clientDevs: seq<string>)
    requires ValidDevice(d) && ValidDevice(e)
    ensures var v := |Valid(clientDevs)|;
            && (v > 0 ==> |ClientTests([d] + [e], clientDevs)| > v && ClientTests([d] + [e], clientDevs)[v].dst == e)
            && (v < |clientDevs| ==> |ServerProcs([d], |clientDevs|)| > v && ServerProcs([d], |clientDevs|)[v].dev == d)
  {
    hide ServerProcs, ClientTests, Valid, ValidDevice, Probes;
    FirstBlock(d, clientDevs);
    ProbesNumbered(d, clientDevs, 0);
    ProbesNumbered(e, clientDevs, |Valid(clientDevs)|);
    OneMoreServer([d], e, clientDevs);
  }

  /** Jobs made by NewPingMeshJob hold valid names only, so their scripts agree. */
  lemma JobPortsAgree(env: Env, p: NodePair)
    requires Testable(env, p)
    ensures PortsAgree(JobFor(env, p).serverDevs, JobFor(env, p).clientDevs)
  {
    ValidMembers(DevsOf(env, p.client));
    AllValid(Valid(DevsOf(env, p.client)));
    SameBlocks(JobFor(env, p).serverDevs, JobFor(env, p).clientDevs);
  }

  // ---- The mesh is complete ----

  /** Every client device probes every server device, in exactly one test. */
  lemma {:induction false} MeshIsComplete(serverDevs: seq<string>, clientDevs: seq<string>, src: string, dst: string)
    requires Distinct(serverDevs) && Distinct(clientDevs)
    ensures Matches(ClientTests(serverDevs, clientDevs), src, dst)
         == if src in Valid(clientDevs) && dst in Valid(serverDevs) then 1 else 0
  {
    hide Probes;
    if serverDevs != [] {
      var n := |serverDevs| - 1;
      var prev := ClientTests(serverDevs[..n], clientDevs);
      LastIsNew(serverDevs);
      ValidMembers(serverDevs[..n]);
      MeshIsComplete(serverDevs[..n], clientDevs, src, dst);
      if ValidDevice(serverDevs[n]) {
        MatchesAppend(prev, Probes(serverDevs[n], clientDevs, |prev|), src, dst);
        BlockMatches(serverDevs[n], clientDevs, |prev|, src, dst);
      }
    }
  }

  lemma {:induction false} MeshSize(serverDevs: seq<string>, clientDevs: seq<string>)
    ensures |ClientTests(serverDevs, clientDevs)| == |Valid(serverDevs)| * |Valid(clientDevs)|
  {
    if serverDevs != [] {
      hide ClientTests, Valid, ValidDevice;
      var S, d := serverDevs[..|serverDevs| - 1], serverDevs[|serverDevs| - 1];
      assert serverDevs == S + [d];
      MeshSize(S, clientDevs);
      OneMoreServer(S, d, clientDevs);
      ProbesNumbered(d, clientDevs, |ClientTests(S, clientDevs)|);
      ProductGrows(|Valid(S)|, |Valid(clientDevs)|);
    }
  }

  lemma ProductGrows(k: nat, v: nat)
    ensures (k + 1) * v == k * v + v
  {
  }

  /** How many tests probe dst from src. */
  function Matches(tests: seq<ClientTest>, src: string, dst: string): nat {
    if tests == [] then 0
    else
      var n := |tests| - 1;
      Matches(tests[..n], src, dst) + if tests[n].src == src && tests[n].dst == dst then 1 else 0
  }

  lemma {:induction false} MatchesAppend(a: seq<ClientTest>, b: seq<ClientTest>, src: string, dst: string)
    ensures Matches(a + b, src, dst) == Matches(a, src, dst) + Matches(b, src, dst)
  {
    if b == [] {
      assert a + b == a;
    } else {
      var n := |b| - 1;
      MatchesAppend(a, b[..n], src, dst);
      assert (a + b)[..|a + b| - 1] == a + b[..n];
    }
  }

  lemma {:induction false} BlockMatches(d: string, clientDevs: seq<string>, idx: nat, src: string, dst: string)
    requires Distinct(clientDevs)
    ensures Matches(Probes(d, clientDevs, idx), src, dst) == if src in Valid(clientDevs) && dst == d then 1 else 0
  {
    if clientDevs != [] {
      var n := |clientDevs| - 1;
      LastIsNew(clientDevs);
      ValidMembers(clientDevs[..n]);
      BlockMatches(d, clientDevs[..n], idx, src, dst);
      var prev := Probes(d, clientDevs[..n], idx);
      assert (prev + [ClientTest(clientDevs[n], d, PORT_BASE + idx + |prev|, idx + |prev|)])[..|prev|] == prev;
    }
  }

  // ---- The server's timeout ----

  function ServerTimeout(serverDevs: seq<string>, clientDevs: seq<string>, timeout: int): int {
    |serverDevs| * |clientDevs| * timeout + SERVER_BUFFER_SEC
  }

  function Sum(d: seq<int>): int {
    if d == [] then 0 else Sum(d[..|d| - 1]) + d[|d| - 1]
  }

  lemma {:induction false} SumBound(d: seq<int>, timeout: int)
    requires forall i :: 0 <= i < |d| ==> d[i] <= timeout
    ensures Sum(d) <= |d| * timeout
  {
    if d != [] { SumBound(d[..|d| - 1], timeout); }
  }

  /** The sequential client has finished its last test while the server still listens, if it starts
      within the buffer and no test outlasts its own timeout. */
  lemma ServerOutlivesClient(serverDevs: seq<string>, clientDevs: seq<string>, timeout: int, durations: seq<int>,
                             delay: int)
    requires timeout >= 0 && delay <= SERVER_BUFFER_SEC
    requires |durations| == |ClientTests(serverDevs, clientDevs)|
    requires forall i :: 0 <= i < |durations| ==> durations[i] <= timeout
    ensures delay + Sum(durations) <= ServerTimeout(serverDevs, clientDevs, timeout)
  {
    hide ClientTests, Valid, Sum;
    MeshSize(serverDevs, clientDevs);
    ValidMembers(serverDevs);
    ValidMembers(clientDevs);
    SumBound(durations, timeout);
    ProductBound(|Valid(serverDevs)|, |serverDevs|, |Valid(clientDevs)|, |clientDevs|);
    ProductBound(|durations|, |serverDevs| * |clientDevs|, timeout, timeout);
  }

  lemma ProductBound(a: nat, a': nat, b: nat, b': nat)
    requires a <= a' && b <= b'
    ensures a * b <= a' * b'
  {
    assert a * b <= a * b' <= a' * b';
  }
}
