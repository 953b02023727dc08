/** What a complete client-by-server mesh is classified as: how many NIC pairs, how many of them rail. */
module RailMesh {
  import opened Cluster
  import opened Rails
  import opened Classify
  import PingMesh

  // ---- Cardinalities ----

  ghost function Product(C: set<string>, S: set<string>): set<NicKey> {
    set c, s | c in C && s in S :: NicKey(c, s)
  }

  ghost function ProductRow(c: string, S: set<string>): set<NicKey> {
    set s | s in S :: NicKey(c, s)
  }

  lemma ProductRowSize(c: string, S: set<string>)
    ensures |ProductRow(c, S)| == |S|
  {
    var m := map s | s in S :: NicKey(c, s);
    InjectiveMapSize(m);
    assert m.Keys == S && m.Values == ProductRow(c, S);
  }

  lemma OneMoreRow(C: set<string>, S: set<string>, c: string)
    requires c !in C
    ensures Product(C + {c}, S) == Product(C, S) + ProductRow(c, S)
    ensures Product(C, S) !! ProductRow(c, S)
  {
  }

  lemma {:induction false} ProductSize(C: set<string>, S: set<string>)
    ensures |Product(C, S)| == |C| * |S|
    decreases |C|
  {
    if C == {} {
      assert Product(C, S) == {};
    } else {
      hide Product, ProductRow;
      var c :| c in C;
      var rest := C - {c};
      ProductSize(rest, S);
      assert C == rest + {c};
      OneMoreRow(rest, S, c);
      ProductRowSize(c, S);
      PingMesh.ProductGrows(|rest|, |S|);
      assert |Product(C, S)| == |Product(rest, S)| + |ProductRow(c, S)|;
    }
  }

  /** An intersection is as large as the smaller set exactly if one set contains the other. */
  lemma IntersectionSize<T>(a: set<T>, b: set<T>)
    ensures |a * b| == (if |a| <= |b| then |a| else |b|) <==> a <= b || b <= a
  {
    SubsetSize(a * b, a);
    SubsetSize(a * b, b);
    if a <= b { SubsetSize(a, b); assert a * b == a; }
    if b <= a { SubsetSize(b, a); assert a * b == b; }
    if a * b == a { assert a <= b; }
    if a * b == b { assert b <= a; }
  }

  // ---- The mesh of a node pair ----

  ghost function DevSet(pairs: seq<GPUNICPair>): set<string> {
    set d | d in UniqueDevs(pairs)
  }

  /** The rails of some of a node's devices. */
  ghost function TestedRails(pairs: seq<GPUNICPair>, devs: set<string>): set<nat> {
    set i: nat | i in RailSet(pairs) && pairs[i].nic.dev in devs
  }

  /** As many rails as devices. */
  lemma TestedRailsSize(pairs: seq<GPUNICPair>, devs: set<string>)
    requires devs <= DevSet(pairs)
    ensures |TestedRails(pairs, devs)| == |devs|
  {
    var all := RailMap(pairs);
    RailMapIsLastOccurrence(pairs);
    var m := map d | d in devs :: all[d];
    InjectiveMapSize(m);
    hide RailMap, UniqueDevs;
    forall i ensures i in m.Values <==> i in TestedRails(pairs, devs) {
      if i in m.Values { var d :| d in m && m[d] == i; }
      if i in TestedRails(pairs, devs) { assert m[pairs[i].nic.dev] == i; }
    }
    assert m.Values == TestedRails(pairs, devs);
    assert m.Keys == devs;
  }

  /** The mesh of some client devices with some server devices was tested. */
  ghost predicate MeshTested(events: seq<Event>, client: seq<GPUNICPair>, server: seq<GPUNICPair>,
                             C: set<string>, S: set<string>)
  {
    C <= DevSet(client) && S <= DevSet(server) && Keys(events) == Product(C, S)
  }

  /** It has every such pair, and the rail pairs among them are as many as the rails tested on both sides. */
  lemma MeshCounts(events: seq<Event>, client: seq<GPUNICPair>, server: seq<GPUNICPair>, C: set<string>, S: set<string>)
    requires MeshTested(events, client, server, C, S)
    ensures var counts := Tally(events, Keys(events), RailMaps(RailMap(client), RailMap(server)));
            counts.all.total == |C| * |S|
            && counts.rail.total == |TestedRails(client, C) * TestedRails(server, S)|
  {
    hide Passed;
    ProductSize(C, S);
    RailPairs(client, server, C, S, Keys(events));
  }

  lemma RailOfPair(client: seq<GPUNICPair>, server: seq<GPUNICPair>, C: set<string>, S: set<string>, k: NicKey)
    requires k in Product(C, S) && IsRail(RailMaps(RailMap(client), RailMap(server)), k)
    ensures RailMap(client)[k.src] in TestedRails(client, C) * TestedRails(server, S)
  {
    RailOf(client, k.src);
    RailOf(server, k.dst);
  }

  lemma PairOfRail(client: seq<GPUNICPair>, server: seq<GPUNICPair>, C: set<string>, S: set<string>, i: nat)
    returns (k: NicKey)
    requires i in TestedRails(client, C) * TestedRails(server, S)
    ensures k in Product(C, S)
    ensures IsRail(RailMaps(RailMap(client), RailMap(server)), k) && RailMap(client)[k.src] == i
  {
    DeviceOf(client, i);
    DeviceOf(server, i);
    k := NicKey(client[i].nic.dev, server[i].nic.dev);
  }

  /** A device's rail tells the device, so a rail tells its pair. */
  lemma RailTellsPair(client: seq<GPUNICPair>, server: seq<GPUNICPair>, k: NicKey, k': NicKey)
    requires IsRail(RailMaps(RailMap(client), RailMap(server)), k)
    requires IsRail(RailMaps(RailMap(client), RailMap(server)), k')
    requires RailMap(client)[k.src] == RailMap(client)[k'.src]
    ensures k == k'
  {
    RailOf(client, k.src);
    RailOf(client, k'.src);
    RailOf(server, k.dst);
    RailOf(server, k'.dst);
  }

  lemma RailPairs(client: seq<GPUNICPair>, server: seq<GPUNICPair>, C: set<string>, S: set<string>, keys: set<NicKey>)
    requires keys == Product(C, S)
    ensures |set k | k in keys && IsRail(RailMaps(RailMap(client), RailMap(server)), k) == true|
         == |TestedRails(client, C) * TestedRails(server, S)|
  {
    var rails := RailMaps(RailMap(client), RailMap(server));
    var R := set k | k in keys && IsRail(rails, k) == true;
    var common := TestedRails(client, C) * TestedRails(server, S);
    var m := map k | k in R :: rails.client[k.src];
    hide RailMap, UniqueDevs, RailSet, Product, TestedRails;
    forall k, k' | k in m && k' in m && m[k] == m[k'] ensures k == k' {
      RailTellsPair(client, server, k, k');
    }
    InjectiveMapSize(m);
    assert m.Keys == R;
    forall i ensures i in m.Values <==> i in common {
      if i in m.Values {
        var k :| k in R && m[k] == i;
        RailOfPair(client, server, C, S, k);
      }
      if i in common {
        var k := PairOfRail(client, server, C, S, i);
        assert k in R && m[k] == i;
      }
    }
    assert m.Values == common;
  }

  function Min(a: nat, b: nat): nat {
    if a <= b then a else b
  }

  /** The mesh has min(n, m) rail pairs, for n client and m server devices, exactly if the tested rails of
      one node are all tested rails of the other. */
  lemma RailsAreMinimumExactly(events: seq<Event>, client: seq<GPUNICPair>, server: seq<GPUNICPair>,
                               C: set<string>, S: set<string>)
    requires MeshTested(events, client, server, C, S)
    ensures Tally(events, Keys(events), RailMaps(RailMap(client), RailMap(server))).rail.total == Min(|C|, |S|)
       <==> TestedRails(client, C) <= TestedRails(server, S) || TestedRails(server, S) <= TestedRails(client, C)
  {
    hide Tally, TestedRails;
    MeshCounts(events, client, server, C, S);
    TestedRailsSize(client, C);
    TestedRailsSize(server, S);
    IntersectionSize(TestedRails(client, C), TestedRails(server, S));
  }

  /** Every NIC is paired once. */
  ghost predicate EachNicPairedOnce(pairs: seq<GPUNICPair>) {
    forall i, j :: 0 <= i < j < |pairs| ==> pairs[i].nic.dev != pairs[j].nic.dev
  }

  lemma AllRails(pairs: seq<GPUNICPair>)
    requires EachNicPairedOnce(pairs)
    ensures |DevSet(pairs)| == |pairs|
    ensures forall i: nat :: i in TestedRails(pairs, DevSet(pairs)) <==> i < |pairs|
  {
    AllDevsKept(pairs);
    UniqueDevsDistinct(pairs);
    DistinctSize(UniqueDevs(pairs));
    DistinctNicsRails(pairs);
    hide UniqueDevs;
    forall i: nat | i < |pairs| ensures pairs[i].nic.dev in DevSet(pairs) { assert pairs[i].nic.dev in UniqueDevs(pairs); }
  }

  /** The full mesh has min(n, m) rail pairs whenever every NIC is paired once... */
  lemma DistinctNicsMinimum(events: seq<Event>, client: seq<GPUNICPair>, server: seq<GPUNICPair>)
    requires Keys(events) == Product(DevSet(client), DevSet(server))
    requires EachNicPairedOnce(client) && EachNicPairedOnce(server)
    ensures var counts := Tally(events, Keys(events), RailMaps(RailMap(client), RailMap(server)));
            counts.rail.total == Min(|client|, |server|) && counts.all.total == |client| * |server|
  {
    hide Tally, TestedRails, DevSet;
    AllRails(client);
    AllRails(server);
    MeshCounts(events, client, server, DevSet(client), DevSet(server));
    RailsAreMinimumExactly(events, client, server, DevSet(client), DevSet(server));
  }

  lemma {:induction false} AllDevsKept(pairs: seq<GPUNICPair>)
    requires EachNicPairedOnce(pairs)
    ensures |UniqueDevs(pairs)| == |pairs|
  {
    if pairs != [] {
      var n := |pairs| - 1;
      AllDevsKept(pairs[..n]);
      UniqueDevsDistinct(pairs[..n]);
    }
  }

  lemma AllTested(pairs: seq<GPUNICPair>)
    ensures TestedRails(pairs, DevSet(pairs)) == RailSet(pairs) && |DevSet(pairs)| == |RailSet(pairs)|
  {
    UniqueDevsDistinct(pairs);
    hide UniqueDevs;
    forall i: nat | i in RailSet(pairs) ensures pairs[i].nic.dev in DevSet(pairs) {
      assert pairs[i].nic.dev in UniqueDevs(pairs);
    }
    TestedRailsSize(pairs, DevSet(pairs));
  }

  /** ... but not for NICs shared by several GPUs: two devices on each side, four NIC pairs, one of them
      rail, ... */
  lemma SharedNicsMayMissRails(g: GPU, a: NIC, b: NIC, x: NIC, y: NIC, events: seq<Event>)
    requires a.dev != b.dev && x.dev != y.dev
    requires var client := [GPUNICPair(g, a, 0, 0.0), GPUNICPair(g, b, 0, 0.0), GPUNICPair(g, b, 0, 0.0)];
             var server := [GPUNICPair(g, x, 0, 0.0), GPUNICPair(g, x, 0, 0.0), GPUNICPair(g, y, 0, 0.0)];
             MeshTested(events, client, server, DevSet(client), DevSet(server))
    ensures var client := [GPUNICPair(g, a, 0, 0.0), GPUNICPair(g, b, 0, 0.0), GPUNICPair(g, b, 0, 0.0)];
            var server := [GPUNICPair(g, x, 0, 0.0), GPUNICPair(g, x, 0, 0.0), GPUNICPair(g, y, 0, 0.0)];
            var counts := Tally(events, Keys(events), RailMaps(RailMap(client), RailMap(server)));
            counts.all.total == 4 && counts.rail.total == 1
  {
    var client := [GPUNICPair(g, a, 0, 0.0), GPUNICPair(g, b, 0, 0.0), GPUNICPair(g, b, 0, 0.0)];
    var server := [GPUNICPair(g, x, 0, 0.0), GPUNICPair(g, x, 0, 0.0), GPUNICPair(g, y, 0, 0.0)];
    SharedRails(client, server);
    hide RailSet, TestedRails, DevSet, Tally, MeshTested;
    AllTested(client);
    AllTested(server);
    MeshCounts(events, client, server, DevSet(client), DevSet(server));
  }

  lemma SharedRails(client: seq<GPUNICPair>, server: seq<GPUNICPair>)
    requires |client| == 3 && client[0].nic.dev != client[1].nic.dev == client[2].nic.dev
    requires |server| == 3 && server[0].nic.dev == server[1].nic.dev != server[2].nic.dev
    ensures |RailSet(client)| == |RailSet(server)| == 2 && |RailSet(client) * RailSet(server)| == 1
  {
    assert LastOccurrence(client, 0) && !LastOccurrence(client, 1) && LastOccurrence(client, 2);
    assert !LastOccurrence(server, 0) && LastOccurrence(server, 1) && LastOccurrence(server, 2);
    assert RailSet(client) == {0, 2} && RailSet(server) == {1, 2};
    assert RailSet(client) * RailSet(server) == {2};
  }

  /** ... and not where invalid device names are left out: one NIC pair, and it is no rail pair. */
  lemma InvalidNamesMayLoseRails(g: GPU, bad: NIC, a: NIC, b: NIC, events: seq<Event>)
    requires !PingMesh.ValidDevice(bad.dev) && PingMesh.ValidDevice(a.dev) && PingMesh.ValidDevice(b.dev)
    requires var client := [GPUNICPair(g, bad, 0, 0.0), GPUNICPair(g, a, 0, 0.0)];
             var server := [GPUNICPair(g, b, 0, 0.0), GPUNICPair(g, bad, 0, 0.0)];
             MeshTested(events, client, server, ValidDevs(client), ValidDevs(server))
    ensures var client := [GPUNICPair(g, bad, 0, 0.0), GPUNICPair(g, a, 0, 0.0)];
            var server := [GPUNICPair(g, b, 0, 0.0), GPUNICPair(g, bad, 0, 0.0)];
            var counts := Tally(events, Keys(events), RailMaps(RailMap(client), RailMap(server)));
            EachNicPairedOnce(client) && EachNicPairedOnce(server)
            && counts.all.total == 1 && counts.rail.total == 0
  {
    var client := [GPUNICPair(g, bad, 0, 0.0), GPUNICPair(g, a, 0, 0.0)];
    var server := [GPUNICPair(g, b, 0, 0.0), GPUNICPair(g, bad, 0, 0.0)];
    hide PingMesh.ValidDevice, Tally, MeshTested, RailSet;
    OneValidDev(client, 1);
    OneValidDev(server, 0);
    MeshCounts(events, client, server, ValidDevs(client), ValidDevs(server));
    assert TestedRails(client, ValidDevs(client)) * TestedRails(server, ValidDevs(server)) == {};
  }

  /** Of two devices, only the one at position i is valid. */
  lemma OneValidDev(pairs: seq<GPUNICPair>, i: nat)
    requires |pairs| == 2 && i < 2
    requires PingMesh.ValidDevice(pairs[i].nic.dev) && !PingMesh.ValidDevice(pairs[1 - i].nic.dev)
    ensures |ValidDevs(pairs)| == 1 && TestedRails(pairs, ValidDevs(pairs)) == {i}
  {
    hide PingMesh.ValidDevice;
    TwoDevs(pairs);
    assert ValidDevs(pairs) == {pairs[i].nic.dev};
    assert LastOccurrence(pairs, i);
    assert i in RailSet(pairs);
  }

  lemma TwoDevs(pairs: seq<GPUNICPair>)
    requires |pairs| == 2
    ensures DevSet(pairs) == {pairs[0].nic.dev, pairs[1].nic.dev}
  {
    UniqueDevsDistinct(pairs);
    hide UniqueDevs;
    forall d ensures d in DevSet(pairs) <==> d == pairs[0].nic.dev || d == pairs[1].nic.dev {
      assert d in UniqueDevs(pairs) <==> exists i :: 0 <= i < |pairs| && pairs[i].nic.dev == d;
      if d == pairs[0].nic.dev { assert pairs[0].nic.dev == d; }
      if d == pairs[1].nic.dev { assert pairs[1].nic.dev == d; }
    }
  }

  // ---- From the client's script to the mesh ----

  /** The devices that a pingmesh job tests. */
  ghost function ValidDevs(pairs: seq<GPUNICPair>): set<string> {
    set d | d in DevSet(pairs) && PingMesh.ValidDevice(d)
  }

  /** The rows that a pingmesh job reports, with any exit codes. */
  ghost predicate JobRows(env: PingMesh.Env, p: NodePair, rows: seq<NicResult>)
    requires PingMesh.Testable(env, p)
  {
    var job := PingMesh.JobFor(env, p);
    var tests := PingMesh.ClientTests(job.serverDevs, job.clientDevs);
    |rows| == |tests| && forall k :: 0 <= k < |rows| ==> rows[k].src == tests[k].src && rows[k].dst == tests[k].dst
  }

  ghost function RowKeys(rows: seq<NicResult>): set<NicKey> {
    set k | 0 <= k < |rows| :: KeyOf(rows[k])
  }

  /** They cover exactly the mesh of the valid devices. */
  lemma RowsAreTheMesh(env: PingMesh.Env, p: NodePair, rows: seq<NicResult>)
    requires PingMesh.Testable(env, p) && JobRows(env, p, rows)
    ensures RowKeys(rows) == Product(ValidDevs(env.topoMap[p.client].pairs), ValidDevs(env.topoMap[p.server].pairs))
  {
    var job := PingMesh.JobFor(env, p);
    var tests := PingMesh.ClientTests(job.serverDevs, job.clientDevs);
    JobDevs(env, p);
    RowsAsTests(rows, tests);
    hide PingMesh.ClientTests, PingMesh.JobFor, PingMesh.Testable, ValidDevs, RowKeys, TestKeys;
    forall k ensures k in TestKeys(tests) <==> k.src in job.clientDevs && k.dst in job.serverDevs {
      JobMesh(env, p, k);
    }
  }

  lemma JobDevs(env: PingMesh.Env, p: NodePair)
    requires PingMesh.Testable(env, p)
    ensures forall d :: d in ValidDevs(env.topoMap[p.client].pairs) <==> d in PingMesh.JobFor(env, p).clientDevs
    ensures forall d :: d in ValidDevs(env.topoMap[p.server].pairs) <==> d in PingMesh.JobFor(env, p).serverDevs
  {
    hide PingMesh.Valid, PingMesh.ValidDevice, UniqueDevs;
    PingMesh.ValidMembers(PingMesh.DevsOf(env, p.server));
    PingMesh.ValidMembers(PingMesh.DevsOf(env, p.client));
  }

  ghost function TestKeys(tests: seq<PingMesh.ClientTest>): set<NicKey> {
    set i | 0 <= i < |tests| :: NicKey(tests[i].src, tests[i].dst)
  }

  lemma RowsAsTests(rows: seq<NicResult>, tests: seq<PingMesh.ClientTest>)
    requires |rows| == |tests| && forall k :: 0 <= k < |rows| ==> rows[k].src == tests[k].src && rows[k].dst == tests[k].dst
    ensures RowKeys(rows) == TestKeys(tests)
  {
    forall k ensures k in RowKeys(rows) <==> k in TestKeys(tests) {
      if i :| 0 <= i < |rows| && KeyOf(rows[i]) == k { assert NicKey(tests[i].src, tests[i].dst) == k; }
      if i :| 0 <= i < |tests| && NicKey(tests[i].src, tests[i].dst) == k { assert KeyOf(rows[i]) == k; }
    }
  }

  /** Some attempts ended without rows; the others, at least one, reported the rows of the job. */
  ghost predicate AttemptsOf(env: PingMesh.Env, p: NodePair, attempts: seq<JobResult>)
    requires PingMesh.Testable(env, p)
  {
    && (forall i :: 0 <= i < |attempts| && attempts[i].details.Some? ==> JobRows(env, p, attempts[i].details.value))
    && (exists i :: 0 <= i < |attempts| && attempts[i].details.Some?)
  }

  lemma {:induction false} AttemptKeys(attempts: seq<JobResult>, mesh: set<NicKey>)
    requires forall i :: 0 <= i < |attempts| && attempts[i].details.Some? ==> RowKeys(attempts[i].details.value) == mesh
    ensures Keys(Events(attempts)) == if exists i :: 0 <= i < |attempts| && attempts[i].details.Some? then mesh else {}
  {
    if attempts != [] {
      var n := |attempts| - 1;
      AttemptKeys(attempts[..n], mesh);
      var before, more := Events(attempts[..n]), AttemptEvents(n + 1, Details(attempts[n]));
      KeysTogether(before, more);
      KeysOfAttempt(n + 1, Details(attempts[n]));
      hide Keys, RowKeys;
      if i :| 0 <= i < n && attempts[i].details.Some? { assert attempts[..n][i].details.Some?; }
      if i :| 0 <= i < n && attempts[..n][i].details.Some? { assert attempts[i].details.Some?; }
    }
  }

  lemma KeysTogether(a: seq<Event>, b: seq<Event>)
    ensures Keys(a + b) == Keys(a) + Keys(b)
  {
    forall k ensures k in Keys(a + b) <==> k in Keys(a) || k in Keys(b) {
      if i :| 0 <= i < |a| && KeyOf(a[i].result) == k { assert KeyOf((a + b)[i].result) == k; }
      if i :| 0 <= i < |b| && KeyOf(b[i].result) == k { assert KeyOf((a + b)[|a| + i].result) == k; }
    }
  }

  lemma KeysOfAttempt(attempt: nat, rows: seq<NicResult>)
    ensures Keys(AttemptEvents(attempt, rows)) == RowKeys(rows)
  {
    var es := AttemptEvents(attempt, rows);
    forall k ensures k in Keys(es) <==> k in RowKeys(rows) {
      if i :| 0 <= i < |rows| && KeyOf(rows[i]) == k { assert KeyOf(es[i].result) == k; }
      if i :| 0 <= i < |es| && KeyOf(es[i].result) == k { assert KeyOf(rows[i]) == k; }
    }
  }

  /** The matrix row of a testable pair of nodes with n valid devices on the client and m on the server: n * m
      NIC pairs, and min(n, m) of them rail exactly if the tested rails of one are all tested rails of the other. */
  lemma JobCounts(env: PingMesh.Env, p: NodePair, attempts: seq<JobResult>)
    requires PingMesh.Testable(env, p) && AttemptsOf(env, p, attempts)
    ensures var client, server := env.topoMap[p.client].pairs, env.topoMap[p.server].pairs;
            var C, S := ValidDevs(client), ValidDevs(server);
            var counts := RowOf(env.topoMap, p, attempts).counts;
            && counts.all.total == |C| * |S|
            && (counts.rail.total == Min(|C|, |S|)
                <==> TestedRails(client, C) <= TestedRails(server, S) || TestedRails(server, S) <= TestedRails(client, C))
  {
    var client, server := env.topoMap[p.client].pairs, env.topoMap[p.server].pairs;
    var C, S := ValidDevs(client), ValidDevs(server);
    forall i | 0 <= i < |attempts| && attempts[i].details.Some?
      ensures RowKeys(attempts[i].details.value) == Product(C, S)
    {
      RowsAreTheMesh(env, p, attempts[i].details.value);
    }
    hide JobRows, RowKeys, Product, Tally, TestedRails, Events, Keys, PingMesh.Testable;
    AttemptKeys(attempts, Product(C, S));
    MeshCounts(Events(attempts), client, server, C, S);
    RailsAreMinimumExactly(Events(attempts), client, server, C, S);
  }

  /** With valid names, and every NIC paired once, that is min(n, m) for n and m NICs. */
  lemma JobCountsOfDistinctNics(env: PingMesh.Env, p: NodePair, attempts: seq<JobResult>)
    requires PingMesh.Testable(env, p) && AttemptsOf(env, p, attempts)
    requires EachNicPairedOnce(env.topoMap[p.client].pairs) && EachNicPairedOnce(env.topoMap[p.server].pairs)
    requires forall d :: d in DevSet(env.topoMap[p.client].pairs) + DevSet(env.topoMap[p.server].pairs)
                         ==> PingMesh.ValidDevice(d)
    ensures var n, m := |env.topoMap[p.client].pairs|, |env.topoMap[p.server].pairs|;
            var counts := RowOf(env.topoMap, p, attempts).counts;
            counts.all.total == n * m && counts.rail.total == Min(n, m)
  {
    var client, server := env.topoMap[p.client].pairs, env.topoMap[p.server].pairs;
    hide PingMesh.ValidDevice, RowOf, AttemptsOf, PingMesh.Testable, TestedRails, DevSet;
    AllRails(client);
    AllRails(server);
    assert ValidDevs(client) == DevSet(client) && ValidDevs(server) == DevSet(server);
    JobCounts(env, p, attempts);
  }

  lemma JobMesh(env: PingMesh.Env, p: NodePair, k: NicKey)
    requires PingMesh.Testable(env, p)
    ensures var job := PingMesh.JobFor(env, p); var tests := PingMesh.ClientTests(job.serverDevs, job.clientDevs);
            k in TestKeys(tests) <==> k.src in job.clientDevs && k.dst in job.serverDevs
  {
    var S, C := PingMesh.DevsOf(env, p.server), PingMesh.DevsOf(env, p.client);
    var job := PingMesh.JobFor(env, p);
    var tests := PingMesh.ClientTests(job.serverDevs, job.clientDevs);
    UniqueDevsDistinct(env.topoMap[p.server].pairs);
    UniqueDevsDistinct(env.topoMap[p.client].pairs);
    PingMesh.ValidDistinct(S);
    PingMesh.ValidDistinct(C);
    PingMesh.ValidMembers(S);
    PingMesh.ValidMembers(C);
    PingMesh.AllValid(job.serverDevs);
    PingMesh.AllValid(job.clientDevs);
    PingMesh.MeshIsComplete(job.serverDevs, job.clientDevs, k.src, k.dst);
    MatchesPositive(tests, k.src, k.dst);
  }

  lemma {:induction false} MatchesPositive(tests: seq<PingMesh.ClientTest>, src: string, dst: string)
    ensures PingMesh.Matches(tests, src, dst) > 0
       <==> exists i :: 0 <= i < |tests| && NicKey(tests[i].src, tests[i].dst) == NicKey(src, dst)
  {
    if tests != [] {
      var n := |tests| - 1;
      MatchesPositive(tests[..n], src, dst);
      if PingMesh.Matches(tests[..n], src, dst) > 0 {
        var i :| 0 <= i < n && NicKey(tests[..n][i].src, tests[..n][i].dst) == NicKey(src, dst);
        assert NicKey(tests[i].src, tests[i].dst) == NicKey(src, dst);
      }
      if i :| 0 <= i < |tests| && NicKey(tests[i].src, tests[i].dst) == NicKey(src, dst) {
        if i < n { assert NicKey(tests[..n][i].src, tests[..n][i].dst) == NicKey(src, dst); }
      }
    }
  }
}
