/** ClassifyPingMeshResults: retries merged, NIC pairs counted as rail or cross-rail, failures listed. */
module Classify {
  import opened Cluster
  import opened Ordering
  import opened Rails

  datatype NicKey = NicKey(src: string, dst: string)

  datatype Count = Count(passed: nat, total: nat)

  datatype Counts = Counts(rail: Count, xrail: Count, all: Count)

  /** One entry of the report's matrix. */
  datatype Row = Row(nodeA: string, nodeB: string, counts: Counts)

  datatype Failure = Failure(nodeA: string, nodeB: string, src: string, dst: string, rail: bool,
                             error: string, attempt: nat)

  datatype Summary = Summary(status: Status, count: Count)

  type Topologies = map<string, NodeTopology>

  function KeyOf(r: NicResult): NicKey {
    NicKey(r.src, r.dst)
  }

  // ---- What the attempts say about a NIC pair ----

  function Details(jr: JobResult): seq<NicResult> {
    if jr.details.Some? then jr.details.value else []
  }

  /** One reported result and the number of the attempt that reported it. */
  datatype Event = Event(attempt: nat, result: NicResult)

  function AttemptEvents(attempt: nat, results: seq<NicResult>): seq<Event> {
    seq(|results|, j requires 0 <= j < |results| => Event(attempt, results[j]))
  }

  /** All results of all attempts, in order; attempts count from 1. */
  function Events(attempts: seq<JobResult>): seq<Event> {
    if attempts == [] then []
    else
      var n := |attempts| - 1;
      Events(attempts[..n]) + AttemptEvents(n + 1, Details(attempts[n]))
  }

  ghost predicate About(events: seq<Event>, n: int, k: NicKey) {
    0 <= n < |events| && KeyOf(events[n].result) == k
  }

  ghost predicate Tested(events: seq<Event>, k: NicKey) {
    exists n :: About(events, n, k)
  }

  ghost predicate Passed(events: seq<Event>, k: NicKey) {
    exists n :: About(events, n, k) && events[n].result.pass
  }

  ghost predicate Fails(events: seq<Event>, n: int, k: NicKey) {
    About(events, n, k) && !events[n].result.pass
  }

  /** The last failing result for k is from this attempt, with this error. */
  ghost predicate LastFailure(events: seq<Event>, k: NicKey, attempt: nat, error: string) {
    exists n :: Fails(events, n, k) && events[n].attempt == attempt && events[n].result.error == error
             && forall n' :: Fails(events, n', k) ==> n' <= n
  }

  /** The maps that ClassifyPingMeshResults keeps for one node pair. */
  datatype Merged = Merged(best: map<NicKey, bool>, lastError: map<NicKey, string>, lastAttempt: map<NicKey, nat>)

  ghost predicate MergedKey(events: seq<Event>, m: Merged, k: NicKey) {
    && (k in m.best <==> Tested(events, k))
    && (k in m.best ==> (m.best[k] <==> Passed(events, k)))
    && (k in m.lastError <==> exists n :: Fails(events, n, k))
    && (k in m.lastError <==> k in m.lastAttempt)
    && (k in m.lastError ==> LastFailure(events, k, m.lastAttempt[k], m.lastError[k]))
  }

  function Record(m: Merged, e: Event): Merged {
    var k, r := KeyOf(e.result), e.result;
    var best := if r.pass then m.best[k := true] else m.best;
    Merged(if k in best then best else best[k := false],
           if r.pass then m.lastError else m.lastError[k := r.error],
           if r.pass then m.lastAttempt else m.lastAttempt[k := e.attempt])
  }

  lemma OneMoreEvent(events: seq<Event>, e: Event, k: NicKey)
    ensures forall n :: About(events + [e], n, k) <==> About(events, n, k) || (n == |events| && KeyOf(e.result) == k)
    ensures forall n :: Fails(events + [e], n, k) <==>
              Fails(events, n, k) || (n == |events| && KeyOf(e.result) == k && !e.result.pass)
    ensures Tested(events + [e], k) <==> Tested(events, k) || KeyOf(e.result) == k
    ensures Passed(events + [e], k) <==> Passed(events, k) || (KeyOf(e.result) == k && e.result.pass)
  {
    var more := events + [e];
    forall n ensures About(more, n, k) <==> About(events, n, k) || (n == |events| && KeyOf(e.result) == k) {}
    if KeyOf(e.result) == k { assert About(more, |events|, k); }
    if n :| About(events, n, k) { assert About(more, n, k); }
    if n :| About(events, n, k) && events[n].result.pass { assert About(more, n, k); }
  }

  lemma LastFailureKept(events: seq<Event>, e: Event, k: NicKey, attempt: nat, error: string)
    requires LastFailure(events, k, attempt, error) && (KeyOf(e.result) != k || e.result.pass)
    ensures LastFailure(events + [e], k, attempt, error)
  {
    OneMoreEvent(events, e, k);
    var n :| Fails(events, n, k) && events[n].attempt == attempt && events[n].result.error == error
             && forall n' :: Fails(events, n', k) ==> n' <= n;
    assert Fails(events + [e], n, k);
  }

  lemma LastFailureNew(events: seq<Event>, e: Event)
    requires !e.result.pass
    ensures LastFailure(events + [e], KeyOf(e.result), e.attempt, e.result.error)
  {
    assert Fails(events + [e], |events|, KeyOf(e.result));
  }

  lemma RecordKeeps(events: seq<Event>, m: Merged, e: Event, k: NicKey)
    requires MergedKey(events, m, k)
    ensures MergedKey(events + [e], Record(m, e), k)
  {
    OneMoreEvent(events, e, k);
    if KeyOf(e.result) == k && !e.result.pass {
      LastFailureNew(events, e);
      assert Fails(events + [e], |events|, k);
    } else if k in m.lastError {
      LastFailureKept(events, e, k, m.lastAttempt[k], m.lastError[k]);
      var n :| Fails(events, n, k);
      assert Fails(events + [e], n, k);
    }
    hide LastFailure, Tested, Passed, About;
  }

  /** The merge loop over all attempts of a node pair: a NIC pair counts as passed if any attempt
      passed it, and keeps the error and number of the last attempt that failed it. */
  method Merge(attempts: seq<JobResult>) returns (m: Merged)
    ensures forall k {:trigger MergedKey(Events(attempts), m, k)} :: MergedKey(Events(attempts), m, k)
  {
    m := Merged(map[], map[], map[]);
    for i := 0 to |attempts|
      invariant forall k {:trigger MergedKey(Events(attempts[..i]), m, k)} :: MergedKey(Events(attempts[..i]), m, k)
    {
      assert attempts[..i + 1][..i] == attempts[..i];
      m := MergeAttempt(Events(attempts[..i]), m, i + 1, Details(attempts[i]));
    }
    assert attempts[..|attempts|] == attempts;
  }

  method MergeAttempt(ghost events: seq<Event>, m0: Merged, attempt: nat, results: seq<NicResult>) returns (m: Merged)
    requires forall k :: MergedKey(events, m0, k)
    ensures forall k :: MergedKey(events + AttemptEvents(attempt, results), m, k)
  {
    m := m0;
    var all := AttemptEvents(attempt, results);
    assert events + all[..0] == events;
    for j := 0 to |results|
      invariant forall k :: MergedKey(events + all[..j], m, k)
    {
      ghost var before := m;
      m := Record(m, Event(attempt, results[j]));
      ghost var seen, more := events + all[..j], events + all[..j + 1];
      assert more == seen + [all[j]];
      forall k ensures MergedKey(more, m, k) {
        RecordKeeps(seen, before, all[j], k);
      }
    }
    assert all[..|results|] == all;
  }

  // ---- What a node pair contributes ----

  datatype RailMaps = RailMaps(client: map<string, nat>, server: map<string, nat>)

  /** Same position in the client's and in the server's topology. */
  predicate IsRail(rails: RailMaps, k: NicKey) {
    k.src in rails.client && k.dst in rails.server && rails.client[k.src] == rails.server[k.dst]
  }

  ghost function Keys(events: seq<Event>): set<NicKey> {
    set n | 0 <= n < |events| :: KeyOf(events[n].result)
  }

  /** The NIC pairs of one category, and those of them that passed. */
  ghost function CountOf(events: seq<Event>, keys: set<NicKey>, rails: RailMaps, rail: bool): Count {
    Count(|set k | k in keys && IsRail(rails, k) == rail && Passed(events, k)|,
          |set k | k in keys && IsRail(rails, k) == rail|)
  }

  ghost function CountAll(events: seq<Event>, keys: set<NicKey>): Count {
    Count(|set k | k in keys && Passed(events, k)|, |keys|)
  }

  function Add(c: Count, passed: bool): Count {
    Count(c.passed + if passed then 1 else 0, c.total + 1)
  }

  /** The counts of one node pair, of the NIC pairs in `keys`. */
  ghost function Tally(events: seq<Event>, keys: set<NicKey>, rails: RailMaps): Counts {
    Counts(CountOf(events, keys, rails, true), CountOf(events, keys, rails, false), CountAll(events, keys))
  }

  function AddTo(c: Counts, isRail: bool, passed: bool): Counts {
    Counts(if isRail then Add(c.rail, passed) else c.rail,
           if isRail then c.xrail else Add(c.xrail, passed),
           Add(c.all, passed))
  }

  lemma TotalOneMore(keys: set<NicKey>, rails: RailMaps, rail: bool, k: NicKey)
    requires k !in keys
    ensures |set x | x in keys + {k} && IsRail(rails, x) == rail|
         == |set x | x in keys && IsRail(rails, x) == rail| + if IsRail(rails, k) == rail then 1 else 0
  {
    hide IsRail;
    var B, B' := set x | x in keys && IsRail(rails, x) == rail, set x | x in keys + {k} && IsRail(rails, x) == rail;
    if IsRail(rails, k) == rail { assert B' == B + {k}; } else { assert B' == B; }
  }

  lemma PassedOneMore(events: seq<Event>, keys: set<NicKey>, rails: RailMaps, rail: bool, k: NicKey)
    requires k !in keys
    ensures |set x | x in keys + {k} && IsRail(rails, x) == rail && Passed(events, x)|
         == |set x | x in keys && IsRail(rails, x) == rail && Passed(events, x)|
            + if IsRail(rails, k) == rail && Passed(events, k) then 1 else 0
  {
    hide IsRail, Passed;
    var A := set x | x in keys && IsRail(rails, x) == rail && Passed(events, x);
    var A' := set x | x in keys + {k} && IsRail(rails, x) == rail && Passed(events, x);
    if IsRail(rails, k) == rail && Passed(events, k) { assert A' == A + {k}; } else { assert A' == A; }
  }

  /** Counting one more NIC pair changes the count of its own category only. */
  lemma CountOneMore(events: seq<Event>, keys: set<NicKey>, rails: RailMaps, rail: bool, k: NicKey)
    requires k !in keys
    ensures CountOf(events, keys + {k}, rails, rail)
         == if IsRail(rails, k) == rail
            then Add(CountOf(events, keys, rails, rail), Passed(events, k))
            else CountOf(events, keys, rails, rail)
  {
    hide IsRail, Passed;
    TotalOneMore(keys, rails, rail, k);
    PassedOneMore(events, keys, rails, rail, k);
  }

  lemma CountAllOneMore(events: seq<Event>, keys: set<NicKey>, k: NicKey)
    requires k !in keys
    ensures CountAll(events, keys + {k}) == Add(CountAll(events, keys), Passed(events, k))
  {
    var A := set x | x in keys && Passed(events, x);
    var A' := set x | x in keys + {k} && Passed(events, x);
    if Passed(events, k) { assert A' == A + {k}; } else { assert A' == A; }
  }

  lemma TallyOneMore(events: seq<Event>, keys: set<NicKey>, rails: RailMaps, k: NicKey)
    requires k !in keys
    ensures Tally(events, keys + {k}, rails) == AddTo(Tally(events, keys, rails), IsRail(rails, k), Passed(events, k))
  {
    hide CountOf, CountAll, IsRail, Passed;
    CountOneMore(events, keys, rails, true, k);
    CountOneMore(events, keys, rails, false, k);
    CountAllOneMore(events, keys, k);
  }

  /** f is the entry of a NIC pair of p that never passed: its category, last error and last attempt. */
  ghost predicate IsFailureOf(p: NodePair, events: seq<Event>, rails: RailMaps, f: Failure) {
    var k := NicKey(f.src, f.dst);
    && f.nodeA == p.server && f.nodeB == p.client
    && Tested(events, k) && !Passed(events, k)
    && f.rail == IsRail(rails, k)
    && LastFailure(events, k, f.attempt, f.error)
  }

  ghost predicate Lists(failures: seq<Failure>, p: NodePair, k: NicKey) {
    exists i :: 0 <= i < |failures| && Entry(failures[i]) == (p, k)
  }

  function Entry(f: Failure): (NodePair, NicKey) {
    (NodePair(f.nodeA, f.nodeB), NicKey(f.src, f.dst))
  }

  ghost predicate OneEntryEach(failures: seq<Failure>) {
    forall i, j :: 0 <= i < j < |failures| ==> Entry(failures[i]) != Entry(failures[j])
  }

  /** The counting loop over the NIC pairs of one node pair, in any order. */
  method CountPair(p: NodePair, m: Merged, rails: RailMaps, ghost events: seq<Event>)
    returns (counts: Counts, failures: seq<Failure>)
    requires forall k :: MergedKey(events, m, k)
    ensures counts == Tally(events, Keys(events), rails)
    ensures FailuresOf(failures, p, rails, events, Keys(events))
  {
    hide Tally, AddTo, IsRail, MergedKey, Keys, Tested, Passed, LastFailure, FailuresOf;
    counts, failures := Counts(Count(0, 0), Count(0, 0), Count(0, 0)), [];
    var todo := m.best.Keys;
    ghost var done: set<NicKey> := {};
    NothingTallied(events, rails);
    NoFailuresYet(p, rails, events);
    while todo != {}
      invariant done == m.best.Keys - todo && todo <= m.best.Keys
      invariant counts == Tally(events, done, rails)
      invariant FailuresOf(failures, p, rails, events, done)
      decreases |todo|
    {
      var k :| k in todo;
      assert MergedKey(events, m, k);
      counts, failures := CountOne(p, m, rails, events, done, k, counts, failures);
      todo := todo - {k};
      done := done + {k};
      assert done == m.best.Keys - todo;
    }
    KeysMerged(events, m);
    assert done == m.best.Keys;
  }

  lemma NoFailuresYet(p: NodePair, rails: RailMaps, events: seq<Event>)
    ensures FailuresOf([], p, rails, events, {})
  {
  }

  method CountOne(p: NodePair, m: Merged, rails: RailMaps, ghost events: seq<Event>, ghost done: set<NicKey>,
                  k: NicKey, counts: Counts, failures: seq<Failure>)
    returns (counts': Counts, failures': seq<Failure>)
    requires k in m.best && k !in done && MergedKey(events, m, k)
    requires counts == Tally(events, done, rails) && FailuresOf(failures, p, rails, events, done)
    ensures counts' == Tally(events, done + {k}, rails)
    ensures FailuresOf(failures', p, rails, events, done + {k})
  {
    hide Tally, AddTo, IsRail, FailuresOf, MergedKey, Tested, Passed;
    var passed := m.best[k];
    MergedFacts(events, m, k);
    TallyOneMore(events, done, rails, k);
    counts' := AddTo(counts, IsRail(rails, k), passed);
    failures' := failures;
    if !passed {
      failures' := AddFailure(failures, p, m, rails, events, done, k);
    } else {
      NoFailure(failures, p, rails, events, done, k);
    }
  }

  lemma NothingTallied(events: seq<Event>, rails: RailMaps)
    ensures Tally(events, {}, rails) == Counts(Count(0, 0), Count(0, 0), Count(0, 0))
  {
    assert (set k: NicKey | k in {} && IsRail(rails, k) && Passed(events, k)) == {};
    assert (set k: NicKey | k in {} && !IsRail(rails, k) && Passed(events, k)) == {};
    assert (set k: NicKey | k in {} && Passed(events, k)) == {};
  }

  /** The failures listed while the NIC pairs in `done` have been counted. */
  ghost predicate FailuresOf(failures: seq<Failure>, p: NodePair, rails: RailMaps, events: seq<Event>,
                             done: set<NicKey>) {
    && (forall i :: 0 <= i < |failures| ==>
          IsFailureOf(p, events, rails, failures[i]) && Entry(failures[i]).1 in done)
    && (forall k :: k in done && !Passed(events, k) ==> Lists(failures, p, k))
    && OneEntryEach(failures)
  }

  method AddFailure(failures: seq<Failure>, p: NodePair, m: Merged, rails: RailMaps,
                    ghost events: seq<Event>, ghost done: set<NicKey>, k: NicKey)
    returns (more: seq<Failure>)
    requires FailuresOf(failures, p, rails, events, done)
    requires k !in done && k in m.lastError && MergedKey(events, m, k) && Tested(events, k) && !Passed(events, k)
    ensures FailuresOf(more, p, rails, events, done + {k})
  {
    var f := Failure(p.server, p.client, k.src, k.dst, IsRail(rails, k), m.lastError[k], m.lastAttempt[k]);
    more := failures + [f];
    assert Entry(f) == (p, k);
    assert more[|failures|] == f;
    forall k' | k' in done + {k} && !Passed(events, k') ensures Lists(more, p, k') {
      if k' != k {
        var i :| 0 <= i < |failures| && Entry(failures[i]) == (p, k');
        assert more[i] == failures[i];
      }
    }
  }

  lemma NoFailure(failures: seq<Failure>, p: NodePair, rails: RailMaps, events: seq<Event>, done: set<NicKey>, k: NicKey)
    requires FailuresOf(failures, p, rails, events, done) && Passed(events, k)
    ensures FailuresOf(failures, p, rails, events, done + {k})
  {
  }

  lemma MergedFacts(events: seq<Event>, m: Merged, k: NicKey)
    requires MergedKey(events, m, k) && k in m.best
    ensures Tested(events, k) && (m.best[k] <==> Passed(events, k))
    ensures !m.best[k] ==> k in m.lastError
  {
    var n :| About(events, n, k);
    assert !m.best[k] ==> Fails(events, n, k);
  }

  lemma KeysMerged(events: seq<Event>, m: Merged)
    requires forall k :: MergedKey(events, m, k)
    ensures m.best.Keys == Keys(events)
    ensures forall k :: k in Keys(events) <==> Tested(events, k)
  {
    KeysTested(events);
    forall k ensures k in m.best <==> k in Keys(events) { assert MergedKey(events, m, k); }
  }

  lemma KeysTested(events: seq<Event>)
    ensures forall k :: k in Keys(events) <==> Tested(events, k)
  {
    forall k ensures k in Keys(events) <==> Tested(events, k) {
      if k in Keys(events) {
        var n :| 0 <= n < |events| && KeyOf(events[n].result) == k;
        assert About(events, n, k);
      }
    }
  }

  // ---- The whole report ----

  predicate Classifiable(topoMap: Topologies, p: NodePair) {
    p.server in topoMap && p.client in topoMap
  }

  function RailsOf(topoMap: Topologies, p: NodePair): RailMaps
    requires Classifiable(topoMap, p)
  {
    RailMaps(RailMap(topoMap[p.client].pairs), RailMap(topoMap[p.server].pairs))
  }

  /** The matrix row of a node pair. */
  ghost function RowOf(topoMap: Topologies, p: NodePair, attempts: seq<JobResult>): Row
    requires Classifiable(topoMap, p)
  {
    var events := Events(attempts);
    var sorted := if StrLess(p.client, p.server) then NodePair(p.client, p.server) else p;
    Row(sorted.server, sorted.client, Tally(events, Keys(events), RailsOf(topoMap, p)))
  }

  function Plus(a: Count, b: Count): Count {
    Count(a.passed + b.passed, a.total + b.total)
  }

  function Pick(c: Counts, rail: bool): Count {
    if rail then c.rail else c.xrail
  }

  /** The sum of a category over matrix rows. */
  function SumOf(matrix: seq<Row>, rail: bool): Count {
    if matrix == [] then Count(0, 0)
    else
      var n := |matrix| - 1;
      Plus(SumOf(matrix[..n], rail), Pick(matrix[n].counts, rail))
  }

  function PingMeshStatus(passed: int, total: int): Status {
    if total == 0 then Skip
    else if passed == total then Pass
    else if passed > 0 then Warn
    else Fail
  }

  type Results = map<NodePair, seq<JobResult>>

  /** `order` lists the node pairs classified so far, `todo` those not yet looked at. */
  ghost predicate Enumerates(order: seq<NodePair>, results: Results, topoMap: Topologies, todo: set<NodePair>) {
    Distinct(order) && forall p :: p in order <==> p in results && p !in todo && Classifiable(topoMap, p)
  }

  ghost predicate MatrixOf(matrix: seq<Row>, order: seq<NodePair>, results: Results, topoMap: Topologies) {
    && |matrix| == |order|
    && forall i :: 0 <= i < |order| ==>
         order[i] in results && Classifiable(topoMap, order[i])
         && matrix[i] == RowOf(topoMap, order[i], results[order[i]])
  }

  /** The failure list has an entry for every NIC pair that never passed, one each, and no other. */
  ghost predicate FailureList(failures: seq<Failure>, order: seq<NodePair>, results: Results, topoMap: Topologies) {
    && (forall f :: f in failures ==>
          var p := Entry(f).0;
          p in order && p in results && Classifiable(topoMap, p)
          && IsFailureOf(p, Events(results[p]), RailsOf(topoMap, p), f))
    && (forall p, k :: p in order && p in results && Tested(Events(results[p]), k) && !Passed(Events(results[p]), k)
                       ==> Lists(failures, p, k))
    && OneEntryEach(failures)
  }

  lemma ListsMore(a: seq<Failure>, b: seq<Failure>, p: NodePair, k: NicKey)
    ensures Lists(a, p, k) || Lists(b, p, k) ==> Lists(a + b, p, k)
  {
    if i :| 0 <= i < |a| && Entry(a[i]) == (p, k) { assert (a + b)[i] == a[i]; }
    if i :| 0 <= i < |b| && Entry(b[i]) == (p, k) { assert (a + b)[|a| + i] == b[i]; }
  }

  lemma FailureBlock(failures: seq<Failure>, order: seq<NodePair>, results: Results, topoMap: Topologies,
                     p: NodePair, block: seq<Failure>)
    requires FailureList(failures, order, results, topoMap)
    requires p !in order && p in results && Classifiable(topoMap, p)
    requires FailuresOf(block, p, RailsOf(topoMap, p), Events(results[p]), Keys(Events(results[p])))
    ensures FailureList(failures + block, order + [p], results, topoMap)
  {
    var all, events := failures + block, Events(results[p]);
    KeysTested(events);
    forall f | f in block ensures Entry(f).0 == p && IsFailureOf(p, events, RailsOf(topoMap, p), f) {
      var i :| 0 <= i < |block| && block[i] == f;
    }
    forall q, k | q in order + [p] && q in results && Tested(Events(results[q]), k) && !Passed(Events(results[q]), k)
      ensures Lists(all, q, k)
    {
      if q == p { assert Lists(block, p, k); }
      ListsMore(failures, block, q, k);
    }
    hide Tested, Passed, LastFailure, IsFailureOf, Lists;
    forall i, j | 0 <= i < j < |all| ensures Entry(all[i]) != Entry(all[j]) {
      if i < |failures| <= j { assert all[i] in failures && all[j] in block; }
    }
  }

  /** ClassifyPingMeshResults. `order` is the order in which the map happened to yield its pairs. */
  method ClassifyPingMeshResults(results: Results, topoMap: Topologies)
    returns (matrix: seq<Row>, rail: Summary, xrail: Summary, failures: seq<Failure>, ghost order: seq<NodePair>)
    ensures Enumerates(order, results, topoMap, {})
    ensures MatrixOf(matrix, order, results, topoMap)
    ensures rail.count == SumOf(matrix, true) && rail.status == PingMeshStatus(rail.count.passed, rail.count.total)
    ensures xrail.count == SumOf(matrix, false) && xrail.status == PingMeshStatus(xrail.count.passed, xrail.count.total)
    ensures FailureList(failures, order, results, topoMap)
  {
    hide RowOf, FailureList, MatrixOf, SumOf;
    matrix, failures, order := [], [], [];
    var railCount, xrailCount := Count(0, 0), Count(0, 0);
    var todo := results.Keys;
    NoFailures(results, topoMap);
    NoRows(results, topoMap);
    while todo != {}
      invariant todo <= results.Keys
      invariant Enumerates(order, results, topoMap, todo)
      invariant MatrixOf(matrix, order, results, topoMap)
      invariant railCount == SumOf(matrix, true) && xrailCount == SumOf(matrix, false)
      invariant FailureList(failures, order, results, topoMap)
      decreases |todo|
    {
      var p :| p in todo;
      if Classifiable(topoMap, p) {
        var row, block := ClassifyPair(p, results[p], topoMap);
        FailureBlock(failures, order, results, topoMap, p, block);
        RowAppended(matrix, row, order, p, results, topoMap);
        matrix, failures, order := matrix + [row], failures + block, order + [p];
        railCount, xrailCount := Plus(railCount, row.counts.rail), Plus(xrailCount, row.counts.xrail);
      }
      todo := todo - {p};
    }
    rail := Summary(PingMeshStatus(railCount.passed, railCount.total), railCount);
    xrail := Summary(PingMeshStatus(xrailCount.passed, xrailCount.total), xrailCount);
  }

  lemma RowAppended(matrix: seq<Row>, row: Row, order: seq<NodePair>, p: NodePair, results: Results, topoMap: Topologies)
    requires MatrixOf(matrix, order, results, topoMap) && p in results && Classifiable(topoMap, p)
    requires row == RowOf(topoMap, p, results[p])
    ensures MatrixOf(matrix + [row], order + [p], results, topoMap)
    ensures SumOf(matrix + [row], true) == Plus(SumOf(matrix, true), row.counts.rail)
    ensures SumOf(matrix + [row], false) == Plus(SumOf(matrix, false), row.counts.xrail)
  {
    hide RowOf;
    assert (matrix + [row])[..|matrix|] == matrix;
  }

  lemma NoRows(results: Results, topoMap: Topologies)
    ensures MatrixOf([], [], results, topoMap) && SumOf([], true) == SumOf([], false) == Count(0, 0)
  {
  }

  lemma NoFailures(results: Results, topoMap: Topologies)
    ensures FailureList([], [], results, topoMap)
  {
  }

  method ClassifyPair(p: NodePair, attempts: seq<JobResult>, topoMap: Topologies)
    returns (row: Row, failures: seq<Failure>)
    requires Classifiable(topoMap, p)
    ensures row == RowOf(topoMap, p, attempts)
    ensures FailuresOf(failures, p, RailsOf(topoMap, p), Events(attempts), Keys(Events(attempts)))
  {
    hide Tally, FailuresOf, MergedKey;
    var serverRails := BuildRailMap(topoMap[p.server]);
    var clientRails := BuildRailMap(topoMap[p.client]);
    var m := Merge(attempts);
    var counts;
    counts, failures := CountPair(p, m, RailMaps(clientRails, serverRails), Events(attempts));
    var nodeA, nodeB := p.server, p.client;
    if StrLess(nodeB, nodeA) {
      nodeA, nodeB := nodeB, nodeA;
    }
    row := Row(nodeA, nodeB, counts);
  }

  // ---- Conservation ----

  /** Rail and cross-rail add up to all, for the passed and for the total. */
  predicate Balanced(c: Counts) {
    c.all == Plus(c.rail, c.xrail) && c.all.passed <= c.all.total
  }

  lemma RowConserves(topoMap: Topologies, p: NodePair, attempts: seq<JobResult>)
    requires Classifiable(topoMap, p)
    ensures Balanced(RowOf(topoMap, p, attempts).counts)
  {
    TallyConserves(Events(attempts), Keys(Events(attempts)), RailsOf(topoMap, p));
  }

  lemma AddToBalanced(c: Counts, isRail: bool, passed: bool)
    requires Balanced(c)
    ensures Balanced(AddTo(c, isRail, passed))
  {
  }

  lemma {:induction false} TallyConserves(events: seq<Event>, keys: set<NicKey>, rails: RailMaps)
    ensures Balanced(Tally(events, keys, rails))
    decreases |keys|
  {
    hide Tally, AddTo, IsRail, Passed;
    if keys == {} {
      NothingTallied(events, rails);
    } else {
      var k :| k in keys;
      var rest := keys - {k};
      TallyConserves(events, rest, rails);
      TallyOneMore(events, rest, rails, k);
      AddToBalanced(Tally(events, rest, rails), IsRail(rails, k), Passed(events, k));
      assert rest + {k} == keys;
    }
  }

  function SumAll(matrix: seq<Row>): Count {
    if matrix == [] then Count(0, 0)
    else Plus(SumAll(matrix[..|matrix| - 1]), matrix[|matrix| - 1].counts.all)
  }

  lemma {:induction false} SumsBalanced(matrix: seq<Row>)
    requires forall i :: 0 <= i < |matrix| ==> Balanced(matrix[i].counts)
    ensures Balanced(Counts(SumOf(matrix, true), SumOf(matrix, false), SumAll(matrix)))
  {
    if matrix != [] { SumsBalanced(matrix[..|matrix| - 1]); }
  }

  /** The two summaries split the NIC pairs of the whole matrix between them. */
  lemma SummaryConserves(matrix: seq<Row>, order: seq<NodePair>, results: Results, topoMap: Topologies)
    requires MatrixOf(matrix, order, results, topoMap)
    ensures Balanced(Counts(SumOf(matrix, true), SumOf(matrix, false), SumAll(matrix)))
  {
    hide RowOf, Balanced;
    forall i | 0 <= i < |matrix| ensures Balanced(matrix[i].counts) {
      RowConserves(topoMap, order[i], results[order[i]]);
    }
    SumsBalanced(matrix);
  }

  // ---- The order of the map does not matter ----

  ghost function SumOrder(order: seq<NodePair>, results: Results, topoMap: Topologies, rail: bool): Count
    requires forall p :: p in order ==> p in results && Classifiable(topoMap, p)
  {
    if order == [] then Count(0, 0)
    else
      var n := |order| - 1;
      assert order[n] in order;
      Plus(SumOrder(order[..n], results, topoMap, rail), Pick(RowOf(topoMap, order[n], results[order[n]]).counts, rail))
  }

  lemma {:induction false} SumOfMatrix(matrix: seq<Row>, order: seq<NodePair>, results: Results, topoMap: Topologies, rail: bool)
    requires MatrixOf(matrix, order, results, topoMap)
    requires forall p :: p in order ==> p in results && Classifiable(topoMap, p)
    ensures SumOf(matrix, rail) == SumOrder(order, results, topoMap, rail)
  {
    hide RowOf;
    if matrix != [] {
      var n := |matrix| - 1;
      SumOfMatrix(matrix[..n], order[..n], results, topoMap, rail);
    }
  }

  lemma SumOrderLast(order: seq<NodePair>, p: NodePair, results: Results, topoMap: Topologies, rail: bool)
    requires forall q :: q in order + [p] ==> q in results && Classifiable(topoMap, q)
    ensures p in order + [p] && forall q :: q in order ==> q in order + [p]
    ensures SumOrder(order + [p], results, topoMap, rail)
         == Plus(SumOrder(order, results, topoMap, rail), Pick(RowOf(topoMap, p, results[p]).counts, rail))
  {
    hide RowOf, Classifiable, Pick;
    assert p in order + [p] && (order + [p])[..|order|] == order;
  }

  lemma {:induction false} SumWithout(order: seq<NodePair>, i: nat, results: Results, topoMap: Topologies, rail: bool)
    requires i < |order| && forall p :: p in order ==> p in results && Classifiable(topoMap, p)
    ensures SumOrder(order, results, topoMap, rail)
         == Plus(SumOrder(order[..i] + order[i + 1..], results, topoMap, rail),
                 Pick(RowOf(topoMap, order[i], results[order[i]]).counts, rail))
  {
    hide RowOf, Classifiable, Pick, SumOrder;
    var n := |order| - 1;
    assert order == order[..n] + [order[n]];
    SumOrderLast(order[..n], order[n], results, topoMap, rail);
    if i < n {
      SumWithout(order[..n], i, results, topoMap, rail);
      var rest := order[..n][..i] + order[..n][i + 1..];
      assert order[..i] + order[i + 1..] == rest + [order[n]];
      SumOrderLast(rest, order[n], results, topoMap, rail);
    } else {
      assert order[..i] + order[i + 1..] == order[..n];
    }
  }

  lemma {:induction false} SumIsOrderFree(a: seq<NodePair>, b: seq<NodePair>, results: Results, topoMap: Topologies, rail: bool)
    requires Distinct(a) && Distinct(b) && (forall p :: p in a <==> p in b)
    requires forall p :: p in a ==> p in results && Classifiable(topoMap, p)
    ensures |a| == |b| && SumOrder(a, results, topoMap, rail) == SumOrder(b, results, topoMap, rail)
  {
    hide RowOf;
    assert |b| > 0 ==> b[0] in b;
    if a != [] {
      var n := |a| - 1;
      assert a[n] in b;
      var i :| 0 <= i < |b| && b[i] == a[n];
      var b' := b[..i] + b[i + 1..];
      LastIsNew(a);
      RemoveMember(b, i);
      forall p ensures p in a[..n] <==> p in b' {
        assert p in a <==> p in a[..n] || p == a[n];
      }
      SumIsOrderFree(a[..n], b', results, topoMap, rail);
      SumWithout(b, i, results, topoMap, rail);
    }
  }

  /** Two runs over the same results agree on both summaries, however the maps are iterated. */
  lemma SummariesAreOrderFree(m1: seq<Row>, o1: seq<NodePair>, m2: seq<Row>, o2: seq<NodePair>,
                              results: Results, topoMap: Topologies)
    requires Enumerates(o1, results, topoMap, {}) && MatrixOf(m1, o1, results, topoMap)
    requires Enumerates(o2, results, topoMap, {}) && MatrixOf(m2, o2, results, topoMap)
    ensures |m1| == |m2|
    ensures SumOf(m1, true) == SumOf(m2, true) && SumOf(m1, false) == SumOf(m2, false)
  {
    hide RowOf;
    SumOfMatrix(m1, o1, results, topoMap, true);
    SumOfMatrix(m1, o1, results, topoMap, false);
    SumOfMatrix(m2, o2, results, topoMap, true);
    SumOfMatrix(m2, o2, results, topoMap, false);
    SumIsOrderFree(o1, o2, results, topoMap, true);
    SumIsOrderFree(o1, o2, results, topoMap, false);
  }
}
