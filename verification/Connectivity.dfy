/** What the two summaries of a pingmesh report tell about the NIC pairs that were tested. */
module Connectivity {
  import opened Cluster
  import opened Classify

  /** Some NIC pair of the category was tested, some passed, all passed, between the nodes of one pair. */
  ghost predicate SomeTested(events: seq<Event>, rails: RailMaps, rail: bool) {
    exists k :: k in Keys(events) && IsRail(rails, k) == rail
  }

  ghost predicate SomePassed(events: seq<Event>, rails: RailMaps, rail: bool) {
    exists k :: k in Keys(events) && IsRail(rails, k) == rail && Passed(events, k)
  }

  ghost predicate AllPassed(events: seq<Event>, rails: RailMaps, rail: bool) {
    forall k :: k in Keys(events) && IsRail(rails, k) == rail ==> Passed(events, k)
  }

  lemma PairCounts(events: seq<Event>, rails: RailMaps, rail: bool)
    ensures var c := CountOf(events, Keys(events), rails, rail);
            && 0 <= c.passed <= c.total
            && (c.total > 0 <==> SomeTested(events, rails, rail))
            && (c.passed > 0 <==> SomePassed(events, rails, rail))
            && (c.passed == c.total <==> AllPassed(events, rails, rail))
  {
    hide IsRail, Passed, Keys;
    var all := set k | k in Keys(events) && IsRail(rails, k) == rail;
    var good := set k | k in Keys(events) && IsRail(rails, k) == rail && Passed(events, k);
    assert good <= all;
    assert all == good + (all - good);
    assert |all| == |good| + |all - good|;
    if |good| == |all| {
      assert all - good == {};
      forall k | k in Keys(events) && IsRail(rails, k) == rail ensures Passed(events, k) {
        assert k in all && k !in all - good;
      }
    }
    if AllPassed(events, rails, rail) { assert all == good; }
    if SomeTested(events, rails, rail) {
      var k :| k in Keys(events) && IsRail(rails, k) == rail;
      assert k in all;
    }
    if SomePassed(events, rails, rail) {
      var k :| k in Keys(events) && IsRail(rails, k) == rail && Passed(events, k);
      assert k in good;
    }
    if |all| > 0 {
      var k :| k in all;
    }
    if |good| > 0 {
      var k :| k in good;
    }
  }

  /** The same over all classified node pairs. */
  ghost predicate Of(order: seq<NodePair>, results: Results, topoMap: Topologies, p: NodePair) {
    p in order && p in results && Classifiable(topoMap, p)
  }

  ghost predicate AnyTested(order: seq<NodePair>, results: Results, topoMap: Topologies, rail: bool) {
    exists p :: Of(order, results, topoMap, p) && SomeTested(Events(results[p]), RailsOf(topoMap, p), rail)
  }

  ghost predicate AnyPassed(order: seq<NodePair>, results: Results, topoMap: Topologies, rail: bool) {
    exists p :: Of(order, results, topoMap, p) && SomePassed(Events(results[p]), RailsOf(topoMap, p), rail)
  }

  ghost predicate EveryonePassed(order: seq<NodePair>, results: Results, topoMap: Topologies, rail: bool) {
    forall p :: Of(order, results, topoMap, p) ==> AllPassed(Events(results[p]), RailsOf(topoMap, p), rail)
  }

  ghost predicate Tells(c: Count, order: seq<NodePair>, results: Results, topoMap: Topologies, rail: bool) {
    && 0 <= c.passed <= c.total
    && (c.total > 0 <==> AnyTested(order, results, topoMap, rail))
    && (c.passed > 0 <==> AnyPassed(order, results, topoMap, rail))
    && (c.passed == c.total <==> EveryonePassed(order, results, topoMap, rail))
  }

  lemma OneMoreRow(c: Count, order: seq<NodePair>, results: Results, topoMap: Topologies, rail: bool, p: NodePair)
    requires Tells(c, order, results, topoMap, rail) && p in results && Classifiable(topoMap, p)
    ensures Tells(Plus(c, CountOf(Events(results[p]), Keys(Events(results[p])), RailsOf(topoMap, p), rail)),
                  order + [p], results, topoMap, rail)
  {
    hide CountOf, SomeTested, SomePassed, AllPassed, Events, RailsOf;
    PairCounts(Events(results[p]), RailsOf(topoMap, p), rail);
    forall q ensures Of(order + [p], results, topoMap, q) <==> Of(order, results, topoMap, q) || q == p {}
    hide Of;
  }

  lemma {:induction false} SumTells(matrix: seq<Row>, order: seq<NodePair>, results: Results, topoMap: Topologies, rail: bool)
    requires MatrixOf(matrix, order, results, topoMap)
    ensures Tells(SumOf(matrix, rail), order, results, topoMap, rail)
  {
    if matrix != [] {
      var n := |matrix| - 1;
      assert order == order[..n] + [order[n]];
      SumTells(matrix[..n], order[..n], results, topoMap, rail);
      hide Tells, CountOf;
      assert matrix[n] == RowOf(topoMap, order[n], results[order[n]]);
      OneMoreRow(SumOf(matrix[..n], rail), order[..n], results, topoMap, rail, order[n]);
    }
  }

  /** PASS means that pairs of the category were tested and every one passed in some attempt; FAIL that
      none did; WARN that some did and some did not; SKIP that there was none to test. */
  lemma SummaryMeans(matrix: seq<Row>, order: seq<NodePair>, results: Results, topoMap: Topologies, rail: bool)
    requires MatrixOf(matrix, order, results, topoMap)
    ensures var c := SumOf(matrix, rail);
            var status := PingMeshStatus(c.passed, c.total);
            && (status == Skip <==> !AnyTested(order, results, topoMap, rail))
            && (status == Pass <==> AnyTested(order, results, topoMap, rail) && EveryonePassed(order, results, topoMap, rail))
            && (status == Fail <==> AnyTested(order, results, topoMap, rail) && !AnyPassed(order, results, topoMap, rail))
            && (status == Warn <==> AnyPassed(order, results, topoMap, rail) && !EveryonePassed(order, results, topoMap, rail))
  {
    hide SumOf, AnyTested, AnyPassed, EveryonePassed, MatrixOf;
    SumTells(matrix, order, results, topoMap, rail);
  }

  // ---- What the summaries count ----

  type Combination = (NodePair, NicKey)

  /** Each NIC pair of each classified node pair, of one category. */
  ghost function Combinations(order: seq<NodePair>, results: Results, topoMap: Topologies, rail: bool): set<Combination> {
    set p, k | p in order && Of(order, results, topoMap, p) && k in Keys(Events(results[p]))
               && IsRail(RailsOf(topoMap, p), k) == rail :: (p, k)
  }

  /** Those that passed in some attempt. */
  ghost function PassedCombinations(order: seq<NodePair>, results: Results, topoMap: Topologies, rail: bool): set<Combination> {
    set c | c in Combinations(order, results, topoMap, rail) && Passed(Events(results[c.0]), c.1)
  }

  ghost function With(p: NodePair, keys: set<NicKey>): set<Combination> {
    set k | k in keys :: (p, k)
  }

  lemma WithSize(p: NodePair, keys: set<NicKey>)
    ensures |With(p, keys)| == |keys|
  {
    var m := map k | k in keys :: (p, k);
    InjectiveMapSize(m);
    assert m.Keys == keys && m.Values == With(p, keys);
  }

  /** The NIC pairs of one node pair in the category. */
  ghost function OfCategory(results: Results, topoMap: Topologies, p: NodePair, rail: bool): set<NicKey>
    requires p in results && Classifiable(topoMap, p)
  {
    set k | k in Keys(Events(results[p])) && IsRail(RailsOf(topoMap, p), k) == rail
  }

  lemma CombinationsGrow(order: seq<NodePair>, results: Results, topoMap: Topologies, rail: bool, p: NodePair)
    requires p !in order && p in results && Classifiable(topoMap, p)
    ensures Combinations(order + [p], results, topoMap, rail)
         == Combinations(order, results, topoMap, rail) + With(p, OfCategory(results, topoMap, p, rail))
    ensures Combinations(order, results, topoMap, rail) !! With(p, OfCategory(results, topoMap, p, rail))
  {
    hide IsRail, Keys, Events, RailsOf, Classifiable;
    forall q ensures Of(order + [p], results, topoMap, q) <==> Of(order, results, topoMap, q) || q == p {}
  }

  ghost function PassedOfCategory(results: Results, topoMap: Topologies, p: NodePair, rail: bool): set<NicKey>
    requires p in results && Classifiable(topoMap, p)
  {
    set k | k in OfCategory(results, topoMap, p, rail) && Passed(Events(results[p]), k)
  }

  lemma PassedGrow(order: seq<NodePair>, results: Results, topoMap: Topologies, rail: bool, p: NodePair)
    requires p !in order && p in results && Classifiable(topoMap, p)
    ensures PassedCombinations(order + [p], results, topoMap, rail)
         == PassedCombinations(order, results, topoMap, rail) + With(p, PassedOfCategory(results, topoMap, p, rail))
    ensures PassedCombinations(order, results, topoMap, rail) !! With(p, PassedOfCategory(results, topoMap, p, rail))
  {
    CombinationsGrow(order, results, topoMap, rail, p);
    hide Passed, Events, Combinations, OfCategory;
    assert With(p, PassedOfCategory(results, topoMap, p, rail)) <= With(p, OfCategory(results, topoMap, p, rail));
  }

  lemma CountsOfPair(results: Results, topoMap: Topologies, p: NodePair, rail: bool)
    requires p in results && Classifiable(topoMap, p)
    ensures CountOf(Events(results[p]), Keys(Events(results[p])), RailsOf(topoMap, p), rail)
         == Count(|PassedOfCategory(results, topoMap, p, rail)|, |OfCategory(results, topoMap, p, rail)|)
  {
    hide IsRail, Keys, Passed;
    var events, rails := Events(results[p]), RailsOf(topoMap, p);
    assert (set k | k in Keys(events) && IsRail(rails, k) == rail && Passed(events, k))
        == PassedOfCategory(results, topoMap, p, rail);
  }

  lemma CombinationsOneMore(order: seq<NodePair>, results: Results, topoMap: Topologies, rail: bool, p: NodePair)
    requires p !in order && p in results && Classifiable(topoMap, p)
    ensures var c := CountOf(Events(results[p]), Keys(Events(results[p])), RailsOf(topoMap, p), rail);
            && |Combinations(order + [p], results, topoMap, rail)| == |Combinations(order, results, topoMap, rail)| + c.total
            && |PassedCombinations(order + [p], results, topoMap, rail)|
               == |PassedCombinations(order, results, topoMap, rail)| + c.passed
  {
    hide *;
    CountsOfPair(results, topoMap, p, rail);
    CombinationsGrow(order, results, topoMap, rail, p);
    PassedGrow(order, results, topoMap, rail, p);
    WithSize(p, OfCategory(results, topoMap, p, rail));
    WithSize(p, PassedOfCategory(results, topoMap, p, rail));
  }

  lemma SumOneMore(matrix: seq<Row>, order: seq<NodePair>, results: Results, topoMap: Topologies, rail: bool)
    requires MatrixOf(matrix, order, results, topoMap) && matrix != []
    ensures |order| == |matrix|
    ensures var n := |matrix| - 1;
            && order[n] in results && Classifiable(topoMap, order[n]) && MatrixOf(matrix[..n], order[..n], results, topoMap)
            && var c := CountOf(Events(results[order[n]]), Keys(Events(results[order[n]])), RailsOf(topoMap, order[n]), rail);
               SumOf(matrix, rail)
               == Count(SumOf(matrix[..n], rail).passed + c.passed, SumOf(matrix[..n], rail).total + c.total)
  {
    hide CountOf, CountAll;
    var n := |matrix| - 1;
    assert matrix[n] == RowOf(topoMap, order[n], results[order[n]]);
  }

  lemma NoCombinations(order: seq<NodePair>, results: Results, topoMap: Topologies, rail: bool)
    requires MatrixOf([], order, results, topoMap)
    ensures Combinations(order, results, topoMap, rail) == {} && PassedCombinations(order, results, topoMap, rail) == {}
    ensures SumOf([], rail) == Count(0, 0)
  {
  }

  /** A summary counts each NIC pair of its category once for each pair of nodes: how many there are, and how
      many of them passed. */
  lemma {:induction false} SummaryCounts(matrix: seq<Row>, order: seq<NodePair>, results: Results, topoMap: Topologies,
                                         rail: bool)
    requires MatrixOf(matrix, order, results, topoMap) && Distinct(order)
    ensures SumOf(matrix, rail)
         == Count(|PassedCombinations(order, results, topoMap, rail)|, |Combinations(order, results, topoMap, rail)|)
  {
    hide *;
    if matrix == [] {
      NoCombinations(order, results, topoMap, rail);
    } else {
      var n := |matrix| - 1;
      SumOneMore(matrix, order, results, topoMap, rail);
      LastIsNew(order);
      SummaryCounts(matrix[..n], order[..n], results, topoMap, rail);
      CombinationsOneMore(order[..n], results, topoMap, rail, order[n]);
      assert order == order[..n] + [order[n]];
    }
  }
}
