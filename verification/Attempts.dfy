/** What a pingmesh report says about a NIC pair, told by the results of the single attempts. */
module Attempts {
  import opened Cluster
  import opened Rails
  import opened Classify

  // ---- The events are the details of the attempts, in order ----

  /** Attempt i, counted from 0, reported this result at position j. */
  ghost predicate Reports(attempts: seq<JobResult>, i: int, j: int, r: NicResult) {
    && 0 <= i < |attempts| && attempts[i].details.Some?
    && 0 <= j < |attempts[i].details.value| && attempts[i].details.value[j] == r
  }

  /** How many results the first i attempts reported. */
  function Before(attempts: seq<JobResult>, i: nat): nat
    requires i <= |attempts|
  {
    if i == 0 then 0 else Before(attempts, i - 1) + |Details(attempts[i - 1])|
  }

  lemma {:induction false} EventsPrefix(attempts: seq<JobResult>, i: nat)
    requires i <= |attempts|
    ensures |Events(attempts[..i])| == Before(attempts, i) && Events(attempts[..i]) <= Events(attempts)
    decreases |attempts| - i, 1
  {
    EventsSize(attempts, i);
    if i < |attempts| {
      EventsPrefix(attempts, i + 1);
      assert attempts[..i + 1][..i] == attempts[..i];
    } else {
      assert attempts[..i] == attempts;
    }
  }

  lemma {:induction false} EventsSize(attempts: seq<JobResult>, i: nat)
    requires i <= |attempts|
    ensures |Events(attempts[..i])| == Before(attempts, i)
  {
    if i > 0 {
      EventsSize(attempts, i - 1);
      assert attempts[..i][..i - 1] == attempts[..i - 1];
    }
  }

  /** Result j of attempt i is event number Before(i) + j, and its attempt is numbered i + 1. */
  lemma EventAt(attempts: seq<JobResult>, i: nat, j: nat, r: NicResult)
    requires Reports(attempts, i, j, r)
    ensures Before(attempts, i) + j < Before(attempts, i + 1) <= |Events(attempts)|
    ensures Events(attempts)[Before(attempts, i) + j] == Event(i + 1, r)
  {
    EventsPrefix(attempts, i);
    EventsPrefix(attempts, i + 1);
    hide Before;
    assert attempts[..i + 1][..i] == attempts[..i];
    assert Events(attempts[..i + 1]) == Events(attempts[..i]) + AttemptEvents(i + 1, Details(attempts[i]));
    assert AttemptEvents(i + 1, Details(attempts[i]))[j] == Event(i + 1, r);
  }

  lemma {:induction false} AttemptOf(attempts: seq<JobResult>, n: nat, i: nat) returns (a: nat)
    requires i <= |attempts| && n < Before(attempts, i)
    ensures a < i && Before(attempts, a) <= n < Before(attempts, a + 1)
  {
    if n < Before(attempts, i - 1) { a := AttemptOf(attempts, n, i - 1); } else { a := i - 1; }
  }

  lemma EventIs(attempts: seq<JobResult>, n: nat) returns (i: nat, j: nat)
    requires n < |Events(attempts)|
    ensures Reports(attempts, i, j, Events(attempts)[n].result) && Events(attempts)[n].attempt == i + 1
    ensures n == Before(attempts, i) + j
  {
    assert attempts[..|attempts|] == attempts;
    EventsSize(attempts, |attempts|);
    i := AttemptOf(attempts, n, |attempts|);
    j := n - Before(attempts, i);
    EventAt(attempts, i, j, attempts[i].details.value[j]);
  }

  lemma {:induction false} BeforeGrows(attempts: seq<JobResult>, i: nat, k: nat)
    requires i <= k <= |attempts|
    ensures Before(attempts, i) <= Before(attempts, k)
  {
    if i < k { BeforeGrows(attempts, i, k - 1); }
  }

  // ---- Tested, passed and failed ----

  /** Some attempt reported the NIC pair, some attempt reported it as passed. */
  lemma TestedExactly(attempts: seq<JobResult>, k: NicKey)
    ensures Tested(Events(attempts), k) <==> exists i, j, r :: Reports(attempts, i, j, r) && r.src == k.src && r.dst == k.dst
    ensures Passed(Events(attempts), k)
       <==> exists i, j, r :: Reports(attempts, i, j, r) && r.src == k.src && r.dst == k.dst && r.pass
  {
    var events := Events(attempts);
    hide Events;
    if n :| About(events, n, k) {
      var i, j := EventIs(attempts, n);
    }
    if n :| About(events, n, k) && events[n].result.pass {
      var i, j := EventIs(attempts, n);
    }
    if i, j, r :| Reports(attempts, i, j, r) && r.src == k.src && r.dst == k.dst {
      EventAt(attempts, i, j, r);
      assert About(events, Before(attempts, i) + j, k);
    }
    if i, j, r :| Reports(attempts, i, j, r) && r.src == k.src && r.dst == k.dst && r.pass {
      EventAt(attempts, i, j, r);
      assert About(events, Before(attempts, i) + j, k);
    }
  }

  /** The last failing result: every result for the NIC pair in a later attempt, or later in the same one,
      passed. Attempts are numbered from 1. */
  lemma LastFailureIs(attempts: seq<JobResult>, k: NicKey, attempt: nat, error: string) returns (j: nat, r: NicResult)
    requires LastFailure(Events(attempts), k, attempt, error)
    ensures attempt >= 1 && Reports(attempts, attempt - 1, j, r)
    ensures r.src == k.src && r.dst == k.dst && !r.pass && r.error == error
    ensures forall i', j', r' :: Reports(attempts, i', j', r') && r'.src == k.src && r'.dst == k.dst && !r'.pass ==>
              i' < attempt - 1 || (i' == attempt - 1 && j' <= j)
  {
    var events := Events(attempts);
    hide Events;
    var n :| Fails(events, n, k) && events[n].attempt == attempt && events[n].result.error == error
             && forall n' :: Fails(events, n', k) ==> n' <= n;
    var i;
    i, j := EventIs(attempts, n);
    r := events[n].result;
    forall i', j', r' | Reports(attempts, i', j', r') && r'.src == k.src && r'.dst == k.dst && !r'.pass
      ensures i' < attempt - 1 || (i' == attempt - 1 && j' <= j)
    {
      EventAt(attempts, i', j', r');
      assert Fails(events, Before(attempts, i') + j', k);
      if i' > i || (i' == i && j' > j) { LaterIsBehind(attempts, i, j, r, i', j', r'); }
    }
  }

  lemma LaterIsBehind(attempts: seq<JobResult>, i: nat, j: nat, r: NicResult, i': nat, j': nat, r': NicResult)
    requires Reports(attempts, i, j, r) && Reports(attempts, i', j', r') && (i' > i || (i' == i && j' > j))
    ensures Before(attempts, i') + j' > Before(attempts, i) + j
  {
    EventAt(attempts, i, j, r);
    if i' > i { BeforeGrows(attempts, i + 1, i'); }
  }

  // ---- The failure list ----

  /** Both devices stand at the same position, each at the last one of its node. */
  ghost predicate SameRail(topoMap: Topologies, p: NodePair, k: NicKey)
    requires Classifiable(topoMap, p)
  {
    exists i: nat :: LastOccurrence(topoMap[p.client].pairs, i) && LastOccurrence(topoMap[p.server].pairs, i)
                && topoMap[p.client].pairs[i].nic.dev == k.src && topoMap[p.server].pairs[i].nic.dev == k.dst
  }

  lemma RailExactly(topoMap: Topologies, p: NodePair, k: NicKey)
    requires Classifiable(topoMap, p)
    ensures IsRail(RailsOf(topoMap, p), k) <==> SameRail(topoMap, p, k)
  {
    var a, b := topoMap[p.client].pairs, topoMap[p.server].pairs;
    RailMapIsLastOccurrence(a);
    RailMapIsLastOccurrence(b);
    hide RailMap, UniqueDevs;
    if IsRail(RailsOf(topoMap, p), k) {
      assert LastOccurrence(a, RailMap(a)[k.src]) && LastOccurrence(b, RailMap(b)[k.dst]);
    }
  }

  /** An entry is about a NIC pair of its two nodes that some attempt reported and none reported as passed; it
      tells whether the devices are on one rail, and the error and the number of the last attempt. */
  lemma FailureMeans(failures: seq<Failure>, order: seq<NodePair>, results: Results, topoMap: Topologies, f: Failure)
    returns (p: NodePair, j: nat, r: NicResult)
    requires FailureList(failures, order, results, topoMap) && f in failures
    ensures p == NodePair(f.nodeA, f.nodeB) && p in results && Classifiable(topoMap, p)
    ensures forall i', j', r' :: Reports(results[p], i', j', r') && r'.src == f.src && r'.dst == f.dst ==> !r'.pass
    ensures f.attempt >= 1 && Reports(results[p], f.attempt - 1, j, r)
    ensures r.src == f.src && r.dst == f.dst && r.error == f.error
    ensures forall i', j', r' :: Reports(results[p], i', j', r') && r'.src == f.src && r'.dst == f.dst ==>
              i' < f.attempt - 1 || (i' == f.attempt - 1 && j' <= j)
    ensures f.rail <==> SameRail(topoMap, p, NicKey(f.src, f.dst))
  {
    p := Entry(f).0;
    var k := NicKey(f.src, f.dst);
    hide Tested, LastFailure, IsRail, Reports, SameRail;
    assert IsFailureOf(p, Events(results[p]), RailsOf(topoMap, p), f);
    TestedExactly(results[p], k);
    RailExactly(topoMap, p, k);
    j, r := LastFailureIs(results[p], k, f.attempt, f.error);
  }

  /** And every such NIC pair has an entry, exactly one. */
  lemma FailuresAreComplete(failures: seq<Failure>, order: seq<NodePair>, results: Results, topoMap: Topologies,
                            p: NodePair, k: NicKey) returns (n: nat)
    requires FailureList(failures, order, results, topoMap) && Enumerates(order, results, topoMap, {})
    requires p in results && Classifiable(topoMap, p)
    requires exists i, j, r :: Reports(results[p], i, j, r) && r.src == k.src && r.dst == k.dst
    requires forall i, j, r :: Reports(results[p], i, j, r) && r.src == k.src && r.dst == k.dst ==> !r.pass
    ensures n < |failures| && failures[n].nodeA == p.server && failures[n].nodeB == p.client
    ensures failures[n].src == k.src && failures[n].dst == k.dst
    ensures forall n' :: 0 <= n' < |failures| && Entry(failures[n']) == Entry(failures[n]) ==> n' == n
  {
    TestedExactly(results[p], k);
    hide Tested, Passed, IsFailureOf, Reports;
    assert Lists(failures, p, k);
    n :| 0 <= n < |failures| && Entry(failures[n]) == (p, k);
  }
}
