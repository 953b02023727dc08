/** From the list of GPU nodes to the report: what runPingMesh tests and what it classifies. */
module MeshReport {
  import opened Cluster
  import opened Ordering
  import opened Classify
  import PingMesh
  import Pairwise
  import Rails
  import Schedule

  /** p is a pair of the listed nodes that can be tested. */
  ghost predicate ToTest(gpuNodes: seq<string>, env: PingMesh.Env, p: NodePair) {
    PingMesh.Passed(gpuNodes, |gpuNodes|, 0, p) && PingMesh.Testable(env, p)
  }

  /** RunPairwise on the job map has finished, and was not cancelled. */
  ghost predicate Finished(gpuNodes: seq<string>, env: PingMesh.Env, cfg: Pairwise.Config, nodes: seq<string>,
                           acts: seq<Pairwise.Action>, s: Pairwise.State)
  {
    && Distinct(gpuNodes) && "" !in gpuNodes
    && (forall p :: p in cfg.jobs <==> ToTest(gpuNodes, env, p))
    && Pairwise.Started(cfg, nodes)
    && Pairwise.Run(cfg, acts) == Some(s) && s.round == |cfg.schedule| && !s.cancelled
  }

  // ---- Which pairs, and with which jobs, told by the stored topologies ----

  /** The topology of the node is stored and has a device with a valid name. */
  ghost predicate HasValidDevice(env: PingMesh.Env, node: string) {
    node in env.topoMap && exists q :: q in env.topoMap[node].pairs && PingMesh.ValidDevice(q.nic.dev)
  }

  lemma DevicesOf(env: PingMesh.Env, node: string, d: string)
    requires node in env.topoMap
    ensures d in PingMesh.Valid(PingMesh.DevsOf(env, node))
       <==> PingMesh.ValidDevice(d) && exists q :: q in env.topoMap[node].pairs && q.nic.dev == d
  {
    hide PingMesh.ValidDevice;
    var pairs := env.topoMap[node].pairs;
    Rails.UniqueDevsDistinct(pairs);
    PingMesh.ValidMembers(PingMesh.DevsOf(env, node));
    if i :| 0 <= i < |pairs| && pairs[i].nic.dev == d { assert pairs[i] in pairs; }
    if q :| q in pairs && q.nic.dev == d { var i :| 0 <= i < |pairs| && pairs[i] == q; }
  }

  lemma HasValid(env: PingMesh.Env, node: string)
    requires node in env.topoMap
    ensures HasValidDevice(env, node) <==> PingMesh.Valid(PingMesh.DevsOf(env, node)) != []
  {
    hide PingMesh.Valid, PingMesh.ValidDevice, PingMesh.DevsOf;
    var devs := PingMesh.Valid(PingMesh.DevsOf(env, node));
    if devs != [] {
      DevicesOf(env, node, devs[0]);
      assert devs[0] in devs;
    }
    if q :| q in env.topoMap[node].pairs && PingMesh.ValidDevice(q.nic.dev) { DevicesOf(env, node, q.nic.dev); }
  }

  /** A pair of the listed nodes is tested exactly if its key has the smaller name first, both nodes have a
      valid device and, for SRD, the server has EFA devices. */
  lemma ToTestExactly(gpuNodes: seq<string>, env: PingMesh.Env, p: NodePair)
    requires Distinct(gpuNodes)
    ensures ToTest(gpuNodes, env, p)
       <==> && p.server in gpuNodes && p.client in gpuNodes && StrLess(p.server, p.client)
            && HasValidDevice(env, p.server) && HasValidDevice(env, p.client)
            && (env.srd ==> p.server in env.efaCount && env.efaCount[p.server] > 0)
  {
    hide PingMesh.Valid, HasValidDevice, PingMesh.Passed, StrLess;
    if p.server in env.topoMap { HasValid(env, p.server); }
    if p.client in env.topoMap { HasValid(env, p.client); }
    hide PingMesh.DevsOf;
    PassedExactly(gpuNodes, p);
    assert HasValidDevice(env, p.server) ==> p.server in env.topoMap by { UsesTopology(env, p.server); }
    assert HasValidDevice(env, p.client) ==> p.client in env.topoMap by { UsesTopology(env, p.client); }
  }

  lemma UsesTopology(env: PingMesh.Env, node: string)
    ensures HasValidDevice(env, node) ==> node in env.topoMap
  {
  }

  lemma PassedExactly(nodes: seq<string>, p: NodePair)
    requires Distinct(nodes)
    ensures PingMesh.Passed(nodes, |nodes|, 0, p) <==> p.server in nodes && p.client in nodes && StrLess(p.server, p.client)
  {
    if PingMesh.Passed(nodes, |nodes|, 0, p) { PingMesh.KeysAreCanonical(nodes, p); }
    if p.server in nodes && p.client in nodes && StrLess(p.server, p.client) {
      var a :| 0 <= a < |nodes| && nodes[a] == p.server;
      var b :| 0 <= b < |nodes| && nodes[b] == p.client;
      StrLessTrichotomy(p.server, p.client);
      if a < b {
        assert p == Schedule.Canonical(nodes[a], nodes[b]) && a < |nodes|;
      } else {
        assert p == Schedule.Canonical(nodes[b], nodes[a]) && b < |nodes|;
      }
    }
  }

  /** The job of a pair: the server's valid devices on the server's side, the client's on the client's, each
      once; the configured timeout or 10; the server's EFA count for SRD only. */
  lemma JobIs(env: PingMesh.Env, p: NodePair)
    requires PingMesh.Testable(env, p)
    ensures var job := PingMesh.JobFor(env, p);
            && job.serverNode == p.server && job.clientNode == p.client
            && Distinct(job.serverDevs) && Distinct(job.clientDevs)
            && (forall d :: d in job.serverDevs <==>
                  PingMesh.ValidDevice(d) && exists q :: q in env.topoMap[p.server].pairs && q.nic.dev == d)
            && (forall d :: d in job.clientDevs <==>
                  PingMesh.ValidDevice(d) && exists q :: q in env.topoMap[p.client].pairs && q.nic.dev == d)
            && job.timeout == (if env.timeout > 0 then env.timeout else 10)
            && job.efaCount == (if env.srd then Some(env.efaCount[p.server]) else None)
  {
    hide PingMesh.Valid, PingMesh.ValidDevice;
    forall node | node == p.server || node == p.client ensures Distinct(PingMesh.Valid(PingMesh.DevsOf(env, node))) {
      Rails.UniqueDevsDistinct(env.topoMap[node].pairs);
      PingMesh.ValidDistinct(PingMesh.DevsOf(env, node));
    }
    forall d { DevicesOf(env, p.server, d); }
    forall d { DevicesOf(env, p.client, d); }
  }

  /** For such a job the server's timeout is that of all tests, one after the other, and 30 seconds more. */
  lemma TimeoutCoversTests(env: PingMesh.Env, p: NodePair)
    requires PingMesh.Testable(env, p)
    ensures var job := PingMesh.JobFor(env, p);
            PingMesh.ServerTimeout(job.serverDevs, job.clientDevs, job.timeout)
            == |PingMesh.ClientTests(job.serverDevs, job.clientDevs)| * job.timeout + 30
  {
    hide PingMesh.ClientTests, PingMesh.ValidDevice;
    var job := PingMesh.JobFor(env, p);
    PingMesh.ValidMembers(PingMesh.DevsOf(env, p.server));
    PingMesh.ValidMembers(PingMesh.DevsOf(env, p.client));
    PingMesh.AllValid(job.serverDevs);
    PingMesh.AllValid(job.clientDevs);
    PingMesh.MeshSize(job.serverDevs, job.clientDevs);
  }

  // ---- The report ----

  /** Every pair to test has results, and nothing else has. */
  lemma ResultsForEveryPair(gpuNodes: seq<string>, env: PingMesh.Env, cfg: Pairwise.Config, nodes: seq<string>,
                            acts: seq<Pairwise.Action>, s: Pairwise.State)
    requires Finished(gpuNodes, env, cfg, nodes, acts, s)
    ensures forall p :: p in s.results <==> ToTest(gpuNodes, env, p)
    ensures forall p :: p in s.results ==> StrLess(p.server, p.client)
  {
    Pairwise.CompletedRunHasResults(cfg, nodes, acts, s);
    hide Pairwise.Started, Pairwise.Run, PingMesh.Testable, PingMesh.Passed;
    forall p | ToTest(gpuNodes, env, p) ensures p.server != "" && StrLess(p.server, p.client) {
      PingMesh.KeysAreCanonical(gpuNodes, p);
    }
  }

  /** The report on such a run has exactly one row per pair to test, under the pair's two names. */
  lemma OneRowPerPair(gpuNodes: seq<string>, env: PingMesh.Env, cfg: Pairwise.Config, nodes: seq<string>,
                      acts: seq<Pairwise.Action>, s: Pairwise.State, matrix: seq<Row>, order: seq<NodePair>)
    requires Finished(gpuNodes, env, cfg, nodes, acts, s)
    requires Enumerates(order, s.results, env.topoMap, {}) && MatrixOf(matrix, order, s.results, env.topoMap)
    ensures Distinct(order) && |matrix| == |order|
    ensures forall p :: p in order <==> ToTest(gpuNodes, env, p)
    ensures forall i :: 0 <= i < |matrix| ==> matrix[i].nodeA == order[i].server && matrix[i].nodeB == order[i].client
  {
    hide Finished, RowOf, StrLess, ToTest;
    ResultsForEveryPair(gpuNodes, env, cfg, nodes, acts, s);
    ClassifiableToTest(gpuNodes, env);
    forall i | 0 <= i < |matrix| ensures matrix[i].nodeA == order[i].server && matrix[i].nodeB == order[i].client {
      assert order[i] in order;
      RowNames(env.topoMap, order[i], s.results[order[i]]);
    }
  }

  lemma ClassifiableToTest(gpuNodes: seq<string>, env: PingMesh.Env)
    ensures forall p :: ToTest(gpuNodes, env, p) ==> Classifiable(env.topoMap, p)
  {
    hide PingMesh.Passed, PingMesh.Valid;
  }

  lemma RowNames(topoMap: Topologies, p: NodePair, attempts: seq<JobResult>)
    requires Classifiable(topoMap, p) && StrLess(p.server, p.client)
    ensures RowOf(topoMap, p, attempts).nodeA == p.server && RowOf(topoMap, p, attempts).nodeB == p.client
  {
    StrLessTrichotomy(p.server, p.client);
  }

  /** Any run on the job map can be brought to that point. */
  lemma CanFinish(gpuNodes: seq<string>, env: PingMesh.Env, cfg: Pairwise.Config, nodes: seq<string>,
                  acts: seq<Pairwise.Action>, s: Pairwise.State, result: JobResult)
    returns (more: seq<Pairwise.Action>, t: Pairwise.State)
    requires Distinct(gpuNodes) && "" !in gpuNodes
    requires forall p :: p in cfg.jobs <==> ToTest(gpuNodes, env, p)
    requires Pairwise.Started(cfg, nodes) && Pairwise.Run(cfg, acts) == Some(s) && !s.cancelled
    ensures Finished(gpuNodes, env, cfg, nodes, acts + more, t)
  {
    hide Pairwise.Started, Pairwise.Run;
    more, t := Pairwise.EveryRunCompletes(cfg, nodes, acts, s, result);
  }
}
