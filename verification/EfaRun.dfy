/** One EFA bandwidth job from its two scripts to its verdict. */
module EfaRun {
  import opened Cluster
  import opened Ordering
  import opened Text
  import opened EfaLanes
  import opened EfaAgreement
  import opened EfaJobs
  import opened EfaOutput
  import PingMesh

  const PORT_BASE: nat := 18515

  /** One fi_rma_bw process; the server's has no peer. */
  datatype Process = Process(slot: nat, port: nat, device: string, gpu: int, peer: string)

  /** The processes a script starts and the lane headers that it prints afterwards. */
  datatype Script = Script(processes: seq<Process>, headers: seq<Lane>)

  // ---- commandForNode ----

  predicate LaneOk(l: Lane) {
    l.gpuId >= 0 && PingMesh.ValidDevice(l.device)
  }

  ghost predicate Runnable(lanes: map<string, seq<Lane>>, node: string) {
    node in lanes && lanes[node] != [] && forall l :: l in lanes[node] ==> LaneOk(l)
  }

  /** Slot s runs the lane of slot s on port 18515 + s; a client prints the header of slot s for that process. */
  ghost predicate Runs(script: Script, lanes: seq<Lane>, serverIp: string) {
    && |script.processes| == |lanes|
    && (forall s :: 0 <= s < |lanes| ==>
          && script.processes[s].slot == s && script.processes[s].port == 18515 + s
          && script.processes[s].device == lanes[s].device && script.processes[s].gpu == lanes[s].gpuId
          && script.processes[s].peer == serverIp)
    && |script.headers| == (if serverIp == "" then 0 else |lanes|)
    && (forall s :: 0 <= s < |script.headers| ==>
          && script.headers[s].device == script.processes[s].device && script.headers[s].gpuId == script.processes[s].gpu)
  }

  /** Either end of the job on one node; validIp tells whether net.ParseIP accepts the address. */
  method CommandForNode(lanes: map<string, seq<Lane>>, node: string, serverIp: string, validIp: bool, messageSize: int)
    returns (r: Option<Script>)
    ensures r.Some? <==> Runnable(lanes, node) && (serverIp == "" || validIp) && messageSize > 0
    ensures r.Some? ==> Runs(r.value, lanes[node], serverIp)
  {
    if node !in lanes || |lanes[node]| == 0 { return None; }
    var validated := lanes[node];
    for i := 0 to |validated|
      invariant forall j :: 0 <= j < i ==> LaneOk(validated[j])
    {
      assert validated[i] in lanes[node];
      if validated[i].gpuId < 0 || !PingMesh.ValidDevice(validated[i].device) { return None; }
    }
    if serverIp != "" && !validIp { return None; }
    if messageSize <= 0 { return None; }
    var processes: seq<Process> := [];
    for slot := 0 to |validated|
      invariant |processes| == slot
      invariant forall s :: 0 <= s < slot ==>
                  processes[s] == Process(s, PORT_BASE + s, validated[s].device, validated[s].gpuId, serverIp)
    {
      processes := processes + [Process(slot, PORT_BASE + slot, validated[slot].device, validated[slot].gpuId, serverIp)];
    }
    if serverIp == "" { return Some(Script(processes, [])); }
    var headers: seq<Lane> := [];
    for slot := 0 to |validated|
      invariant headers == validated[..slot]
    {
      headers := headers + [validated[slot]];
    }
    r := Some(Script(processes, headers));
  }

  /** Both scripts of any expanded job can be built. */
  lemma BothEndsRun(env: Env, nodes: seq<string>, ids: seq<int>, j: EfaJob, node: string)
    requires Scanned(env, nodes, ids) && Distinct(nodes) && j in Expanded(env, nodes, ids).jobs && node in nodes
    ensures Runnable(j.lanes, node)
  {
    hide Expanded, Scanned, PingMesh.ValidDevice;
    JobNodes(env, nodes, ids, j);
    EndpointsAgree(env, nodes, ids, j, node, node);
  }

  /** In every slot the client's process meets a server process on the same port and for the same GPU, and no
      port or local device is used twice. */
  lemma EndpointsMeet(env: Env, nodes: seq<string>, ids: seq<int>, j: EfaJob, server: string, client: string,
                      ip: string, a: Script, b: Script)
    requires Scanned(env, nodes, ids) && Distinct(nodes) && j in Expanded(env, nodes, ids).jobs
    requires server in nodes && client in nodes && server in j.lanes && client in j.lanes
    requires Runs(a, j.lanes[server], "") && Runs(b, j.lanes[client], ip)
    ensures |a.processes| == |b.processes| > 0
    ensures forall s :: 0 <= s < |b.processes| ==>
              a.processes[s].port == b.processes[s].port == 18515 + s && a.processes[s].gpu == b.processes[s].gpu
    ensures forall s, t :: 0 <= s < t < |b.processes| ==>
              b.processes[s].device != b.processes[t].device && a.processes[s].device != a.processes[t].device
    ensures ip != "" ==> |b.headers| == |b.processes|
                         && forall s :: 0 <= s < |b.headers| ==>
                              b.headers[s].gpuId == b.processes[s].gpu && b.headers[s].device == b.processes[s].device
  {
    hide Expanded, Scanned, PingMesh.ValidDevice;
    EndpointsAgree(env, nodes, ids, j, client, server);
    EndpointsAgree(env, nodes, ids, j, server, client);
  }

  /** Each process runs one of the node's pairs: its GPU with the NIC that the topology gives it. Each pair of
      the node has a process in the whole-endpoint job, and in the job of its GPU. */
  lemma ProcessesAreThePairs(env: Env, nodes: seq<string>, ids: seq<int>, j: EfaJob, node: string, ip: string, a: Script)
    requires Scanned(env, nodes, ids) && Distinct(nodes) && j in Expanded(env, nodes, ids).jobs
    requires node in nodes && node in j.lanes && Runs(a, j.lanes[node], ip)
    ensures forall s :: 0 <= s < |a.processes| ==>
              exists p :: p in PairsOf(env, node)
                          && a.processes[s].gpu == p.gpu.id && a.processes[s].device == p.nic.dev
    ensures forall p :: p in PairsOf(env, node) && (j.WholeEndpoint? || p.gpu.id == j.gpuId) ==>
              exists s :: 0 <= s < |a.processes|
                          && a.processes[s].gpu == p.gpu.id && a.processes[s].device == p.nic.dev
  {
    var lanes := j.lanes[node];
    hide Expanded, Scanned, PairsOf;
    forall s | 0 <= s < |a.processes|
      ensures exists p :: p in PairsOf(env, node)
                          && a.processes[s].gpu == p.gpu.id && a.processes[s].device == p.nic.dev
    {
      assert lanes[s] in lanes;
      LanesAreThePairs(env, nodes, ids, j, node, lanes[s]);
    }
    forall p | p in PairsOf(env, node) && (j.WholeEndpoint? || p.gpu.id == j.gpuId)
      ensures exists s :: 0 <= s < |a.processes|
                          && a.processes[s].gpu == p.gpu.id && a.processes[s].device == p.nic.dev
    {
      var l := Lane(p.gpu.id, p.nic.dev);
      LanesAreThePairs(env, nodes, ids, j, node, l);
      var s :| 0 <= s < |lanes| && lanes[s] == l;
      assert a.processes[s].gpu == p.gpu.id;
    }
  }

  lemma JobNodes(env: Env, nodes: seq<string>, ids: seq<int>, j: EfaJob)
    requires Scanned(env, nodes, ids) && j in Expanded(env, nodes, ids).jobs
    ensures forall n :: n in nodes <==> n in j.lanes
  {
    hide Compatible, AllCompatible, Group, NodeOk, Expanded, PdJobs, PdSkips;
    PdJobsAre(env, nodes, ids);
    ExpandedJobs(env, nodes, ids, j);
  }

  // ---- How many results to expect ----

  /** expectedLaneCount takes whichever map entry comes first. */
  method ExpectedLaneCount(lanes: map<string, seq<Lane>>) returns (count: nat)
    ensures lanes == map[] ==> count == 0
    ensures lanes != map[] ==> exists n :: n in lanes && count == |lanes[n]|
  {
    if lanes.Keys == {} {
      assert lanes == map[];
      return 0;
    }
    var n :| n in lanes.Keys;
    count := |lanes[n]|;
  }

  /** For an expanded job it does not matter which. */
  lemma ExpectedIsTheClientsLaneCount(env: Env, nodes: seq<string>, ids: seq<int>, j: EfaJob, client: string, count: nat)
    requires Scanned(env, nodes, ids) && Distinct(nodes) && j in Expanded(env, nodes, ids).jobs && client in j.lanes
    requires exists n :: n in j.lanes && count == |j.lanes[n]|
    ensures count == |j.lanes[client]|
  {
    hide Expanded, Scanned;
    var n :| n in j.lanes && count == |j.lanes[n]|;
    EndpointsAgree(env, nodes, ids, j, n, client);
  }

  // ---- From the client's output back to its lanes ----

  /** How the process of one lane ended: its exit code and its log. */
  datatype Ending = Ending(rc: nat, log: string)

  function SectionAt(lanes: seq<Lane>, endings: seq<Ending>, s: nat): Section
    requires s < |lanes| == |endings| && lanes[s].gpuId >= 0
  {
    Section(Header(s, lanes[s].device, lanes[s].gpuId, endings[s].rc), endings[s].log)
  }

  /** The sections printed by the client, in some order. */
  ghost predicate PrintedBy(secs: seq<Section>, lanes: seq<Lane>, endings: seq<Ending>) {
    && |secs| == |lanes| == |endings|
    && (forall s :: 0 <= s < |lanes| ==> lanes[s].gpuId >= 0)
    && multiset(secs) == multiset(seq(|lanes|, s requires 0 <= s < |lanes| && lanes[s].gpuId >= 0 && |lanes| == |endings|
                                               => SectionAt(lanes, endings, s)))
  }

  /** Every process that succeeded measured exactly once. */
  ghost predicate AllMeasured(endings: seq<Ending>, measure: Measure) {
    forall s :: 0 <= s < |endings| && endings[s].rc == 0 ==> Usable(measure(endings[s].log)).Some?
  }

  lemma SectionListed(secs: seq<Section>, lanes: seq<Lane>, endings: seq<Ending>, s: nat) returns (i: nat)
    requires PrintedBy(secs, lanes, endings) && s < |lanes|
    ensures i < |secs| && secs[i] == SectionAt(lanes, endings, s)
  {
    var plain := seq(|lanes|, s requires 0 <= s < |lanes| && lanes[s].gpuId >= 0 && |lanes| == |endings|
                                => SectionAt(lanes, endings, s));
    SameElements(secs, plain);
    assert plain[s] in secs;
    i :| 0 <= i < |secs| && secs[i] == plain[s];
  }

  lemma SectionsAre(secs: seq<Section>, lanes: seq<Lane>, endings: seq<Ending>)
    requires PrintedBy(secs, lanes, endings)
    ensures forall i :: 0 <= i < |secs| ==>
              secs[i].header.slot < |lanes| && secs[i] == SectionAt(lanes, endings, secs[i].header.slot)
    ensures forall i, j :: 0 <= i < j < |secs| ==> secs[i].header.slot != secs[j].header.slot
  {
    var plain := seq(|lanes|, s requires 0 <= s < |lanes| && lanes[s].gpuId >= 0 && |lanes| == |endings|
                                => SectionAt(lanes, endings, s));
    SameElements(secs, plain);
    assert Distinct(plain) by {
      forall i, j | 0 <= i < j < |plain| ensures plain[i] != plain[j] {
        assert plain[i].header.slot == i && plain[j].header.slot == j;
      }
    }
    PermutationDistinct(plain, secs);
    forall i | 0 <= i < |secs| ensures secs[i].header.slot < |lanes| && secs[i] == SectionAt(lanes, endings, secs[i].header.slot) {
      assert secs[i] in plain;
    }
  }

  lemma CompleteIfMeasured(secs: seq<Section>, lanes: seq<Lane>, endings: seq<Ending>, measure: Measure)
    requires PrintedBy(secs, lanes, endings)
    ensures Complete(secs, |lanes|, measure) <==> AllMeasured(endings, measure)
  {
    SectionsAre(secs, lanes, endings);
    hide PrintedBy;
    if AllMeasured(endings, measure) {
      forall i | 0 <= i < |secs| ensures Measured(secs[i], measure) {
        assert secs[i] == SectionAt(lanes, endings, secs[i].header.slot);
      }
    }
    if Complete(secs, |lanes|, measure) { MeasuredEndings(secs, lanes, endings, measure); }
  }

  lemma MeasuredEndings(secs: seq<Section>, lanes: seq<Lane>, endings: seq<Ending>, measure: Measure)
    requires PrintedBy(secs, lanes, endings) && Complete(secs, |lanes|, measure)
    ensures AllMeasured(endings, measure)
  {
    hide PrintedBy;
    forall s | 0 <= s < |endings| && endings[s].rc == 0 ensures Usable(measure(endings[s].log)).Some? {
      SameLength(secs, lanes, endings);
      var i := SectionListed(secs, lanes, endings, s);
      assert Measured(secs[i], measure);
    }
  }

  lemma SameLength(secs: seq<Section>, lanes: seq<Lane>, endings: seq<Ending>)
    requires PrintedBy(secs, lanes, endings)
    ensures |secs| == |lanes| == |endings|
  {
  }

  /** Whatever the order of the sections: the output is accepted exactly if every successful lane measured
      once, and then result s is the lane of slot s with its own GPU, device, exit code and bandwidth. */
  lemma LanesRecovered(preamble: string, secs: seq<Section>, lanes: seq<Lane>, endings: seq<Ending>, measure: Measure)
    requires MarkerFree(preamble, secs) && PrintedBy(secs, lanes, endings)
    ensures Accepted(Split(Rendered(preamble, secs), MARKER)[1..], |lanes|, measure) <==> AllMeasured(endings, measure)
  {
    hide PrintedBy, MarkerFree, Rendered, Split, Accepted, Complete;
    AcceptedExactly(preamble, secs, |lanes|, measure);
    CompleteIfMeasured(secs, lanes, endings, measure);
  }

  lemma LaneRecovered(preamble: string, secs: seq<Section>, lanes: seq<Lane>, endings: seq<Ending>, measure: Measure,
                      rs: seq<LaneResult>, s: nat)
    requires MarkerFree(preamble, secs) && PrintedBy(secs, lanes, endings) && s < |lanes|
    requires Placed(Split(Rendered(preamble, secs), MARKER)[1..], measure, rs)
    ensures |rs| == |lanes|
    ensures rs[s].slot == s && rs[s].gpu == lanes[s].gpuId && rs[s].device == lanes[s].device
    ensures rs[s].exitCode == endings[s].rc
    ensures rs[s].exitCode == 0 ==> measure(endings[s].log) == [Some(rs[s].gbps * 1000.0 / 8.0)]
    ensures rs[s].exitCode != 0 ==> rs[s].gbps == 0.0
  {
    hide Placed, MarkerFree, Rendered, Split, PrintedBy, ResultOf, NumberedSlots;
    SameLength(secs, lanes, endings);
    var i := SectionListed(secs, lanes, endings, s);
    FramingRoundTrip(preamble, secs, measure, rs, i);
    ResultFields(SectionAt(lanes, endings, s), measure, rs[s]);
  }

  lemma ResultFields(s: Section, measure: Measure, x: LaneResult)
    requires ResultOf(s.header, s.log, measure) == Some(x)
    ensures x.slot == s.header.slot && x.gpu == s.header.gpu && x.device == s.header.device
    ensures x.exitCode == s.header.rc
    ensures x.exitCode == 0 ==> measure(s.log) == [Some(x.gbps * 1000.0 / 8.0)]
    ensures x.exitCode != 0 ==> x.gbps == 0.0
  {
    if s.header.rc == 0 { assert measure(s.log) == [measure(s.log)[0]]; }
  }

  lemma PlacedSize(preamble: string, secs: seq<Section>, measure: Measure, rs: seq<LaneResult>)
    requires MarkerFree(preamble, secs) && Placed(Split(Rendered(preamble, secs), MARKER)[1..], measure, rs)
    ensures |rs| == |secs|
  {
    hide Split, Rendered, MarkerFree, ParseSection, Reported;
    RenderedSections(preamble, secs, measure);
  }

  // ---- The verdict ----

  function TotalGbps(rs: seq<LaneResult>): real {
    if rs == [] then 0.0 else TotalGbps(rs[..|rs| - 1]) + rs[|rs| - 1].gbps
  }

  predicate AllSucceeded(rs: seq<LaneResult>) {
    forall s :: 0 <= s < |rs| ==> rs[s].exitCode == 0
  }

  /** One failed lane fails the job, whatever the bandwidth. */
  function JobStatus(rs: seq<LaneResult>, pass: real, warn: real): Status {
    if !AllSucceeded(rs) then Fail
    else if TotalGbps(rs) >= pass then Pass
    else if TotalGbps(rs) >= warn then Warn
    else Fail
  }

  lemma OneMoreLane(rs: seq<LaneResult>, x: LaneResult)
    ensures TotalGbps(rs + [x]) == TotalGbps(rs) + x.gbps
    ensures AllSucceeded(rs + [x]) <==> AllSucceeded(rs) && x.exitCode == 0
  {
    assert (rs + [x])[..|rs|] == rs;
    assert AllSucceeded(rs + [x]) ==> (rs + [x])[|rs|].exitCode == 0;
    assert forall s :: 0 <= s < |rs| ==> (rs + [x])[s] == rs[s];
  }

  /** The loop over the parsed lanes, and the thresholds. */
  method Verdict(rs: seq<LaneResult>, pass: real, warn: real) returns (status: Status)
    ensures status == JobStatus(rs, pass, warn)
    ensures (exists x :: x in rs && x.exitCode != 0) ==> status == Fail
    ensures (forall x :: x in rs ==> x.exitCode == 0) ==>
              (status == Pass <==> TotalGbps(rs) >= pass) && (status == Warn <==> warn <= TotalGbps(rs) < pass)
  {
    hide TotalGbps, AllSucceeded;
    NoLanes();
    var total := 0.0;
    var failed := 0;
    for i := 0 to |rs|
      invariant total == TotalGbps(rs[..i])
      invariant failed >= 0 && (failed == 0 <==> AllSucceeded(rs[..i]))
    {
      assert rs[..i + 1] == rs[..i] + [rs[i]];
      OneMoreLane(rs[..i], rs[i]);
      total := total + rs[i].gbps;
      if rs[i].exitCode != 0 { failed := failed + 1; }
    }
    assert rs[..|rs|] == rs;
    SuccessIsZero(rs);
    if failed > 0 { return Fail; }
    if total >= pass { return Pass; }
    if total >= warn { return Warn; }
    return Fail;
  }

  lemma SuccessIsZero(rs: seq<LaneResult>)
    ensures AllSucceeded(rs) <==> forall x :: x in rs ==> x.exitCode == 0
  {
    if AllSucceeded(rs) {
      forall x | x in rs ensures x.exitCode == 0 { var s :| 0 <= s < |rs| && rs[s] == x; }
    }
  }

  /** The total is the sum over the lanes. */
  lemma {:induction false} TotalIsSum(a: seq<LaneResult>, b: seq<LaneResult>)
    ensures TotalGbps(a + b) == TotalGbps(a) + TotalGbps(b)
    ensures |a| == 1 ==> TotalGbps(a) == a[0].gbps
  {
    if b == [] {
      assert a + b == a;
    } else {
      var n := |b| - 1;
      TotalIsSum(a, b[..n]);
      assert (a + b)[..|a + b| - 1] == a + b[..n];
    }
  }

  lemma NoLanes()
    ensures TotalGbps([]) == 0.0 && AllSucceeded([])
  {
  }

  /** ParseResult: the lanes of the output and the status of the job, or an error. */
  method ParseResult(logs: string, lanes: map<string, seq<Lane>>, measure: Measure, pass: real, warn: real)
    returns (status: Option<Status>, ghost expected: nat, ghost rs: seq<LaneResult>)
    ensures if lanes == map[] then expected == 0 else exists n :: n in lanes && expected == |lanes[n]|
    ensures status.Some? <==> Accepted(Split(logs, MARKER)[1..], expected, measure)
    ensures status.Some? ==> Placed(Split(logs, MARKER)[1..], measure, rs) && status.value == JobStatus(rs, pass, warn)
  {
    hide Split, Accepted, Placed, JobStatus;
    var count := ExpectedLaneCount(lanes);
    expected, rs := count, [];
    var parsed := ParseEfaRmaOutput(logs, count, measure);
    if parsed.None? { return None, count, []; }
    var verdict := Verdict(parsed.value, pass, warn);
    return Some(verdict), count, parsed.value;
  }

  /** The order in which the sections are printed changes neither acceptance, results nor status. */
  lemma SectionOrderIsIrrelevant(preamble: string, secs: seq<Section>, preamble': string, secs': seq<Section>,
                                 lanes: seq<Lane>, endings: seq<Ending>, measure: Measure)
    requires MarkerFree(preamble, secs) && PrintedBy(secs, lanes, endings)
    requires MarkerFree(preamble', secs') && PrintedBy(secs', lanes, endings)
    ensures Accepted(Split(Rendered(preamble, secs), MARKER)[1..], |lanes|, measure)
       <==> Accepted(Split(Rendered(preamble', secs'), MARKER)[1..], |lanes|, measure)
    ensures forall rs, rs', pass, warn ::
              Placed(Split(Rendered(preamble, secs), MARKER)[1..], measure, rs)
              && Placed(Split(Rendered(preamble', secs'), MARKER)[1..], measure, rs')
              ==> rs == rs' && JobStatus(rs, pass, warn) == JobStatus(rs', pass, warn)
  {
    hide Placed, MarkerFree, Rendered, Split, PrintedBy, Accepted, AllMeasured, JobStatus;
    LanesRecovered(preamble, secs, lanes, endings, measure);
    LanesRecovered(preamble', secs', lanes, endings, measure);
    forall rs, rs' | Placed(Split(Rendered(preamble, secs), MARKER)[1..], measure, rs)
                     && Placed(Split(Rendered(preamble', secs'), MARKER)[1..], measure, rs')
      ensures rs == rs'
    {
      SameResults(preamble, secs, preamble', secs', lanes, endings, measure, rs, rs');
    }
  }

  lemma SameResults(preamble: string, secs: seq<Section>, preamble': string, secs': seq<Section>,
                    lanes: seq<Lane>, endings: seq<Ending>, measure: Measure, rs: seq<LaneResult>, rs': seq<LaneResult>)
    requires MarkerFree(preamble, secs) && PrintedBy(secs, lanes, endings)
    requires MarkerFree(preamble', secs') && PrintedBy(secs', lanes, endings)
    requires Placed(Split(Rendered(preamble, secs), MARKER)[1..], measure, rs)
    requires Placed(Split(Rendered(preamble', secs'), MARKER)[1..], measure, rs')
    ensures rs == rs'
  {
    hide Placed, MarkerFree, Rendered, Split, PrintedBy;
    PlacedSize(preamble, secs, measure, rs);
    PlacedSize(preamble', secs', measure, rs');
    SameLength(secs, lanes, endings);
    SameLength(secs', lanes, endings);
    forall s | 0 <= s < |lanes| ensures rs[s] == rs'[s] {
      LaneRecovered(preamble, secs, lanes, endings, measure, rs, s);
      LaneRecovered(preamble', secs', lanes, endings, measure, rs', s);
    }
  }
}
