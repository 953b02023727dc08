/** What BandwidthOptimalPairing returns, told by the measurements. */
module BandwidthResult {
  import opened Cluster
  import opened Ordering
  import opened Matching
  import opened BandwidthPairing
  import opened LeftoverPairing
  import opened PairOrder

  /** p comes no later than the measurement e: more bandwidth, then the smaller GPU ID, then the smaller name. */
  ghost predicate NotBehind(p: GPUNICPair, e: Entry) {
    || p.bw > e.bw
    || (p.bw == e.bw && p.gpu.id < e.gpuId)
    || (p.bw == e.bw && p.gpu.id == e.gpuId && (p.nic.dev == e.nicDev || StrLess(p.nic.dev, e.nicDev)))
  }

  ghost function EntryOf(p: GPUNICPair): Entry {
    Entry(p.gpu.id, p.nic.dev, p.bw)
  }

  lemma {:induction false} KnownPairsInOrder(k: Known, es: seq<Entry>)
    requires Indexed(k) && Sorted(es, EntryLeq)
    ensures forall i, j :: 0 <= i < j < |KnownPairs(k, es)| ==> NotBehind(KnownPairs(k, es)[i], EntryOf(KnownPairs(k, es)[j]))
  {
    if es != [] {
      var rest := KnownPairs(k, es[1..]);
      KnownPairsInOrder(k, es[1..]);
      KnownPairsMembers(k, es[1..]);
      if IsKnown(k, es[0]) {
        forall j | 0 <= j < |rest| ensures NotBehind(PairOf(k, es[0]), EntryOf(rest[j])) {
          assert Measured(k, es[1..], rest[j]);
          LaterEntry(k, es, rest[j]);
        }
      }
      hide NotBehind, Measured;
    }
  }

  lemma LaterEntry(k: Known, es: seq<Entry>, x: GPUNICPair)
    requires Indexed(k) && es != [] && Sorted(es, EntryLeq) && IsKnown(k, es[0]) && Measured(k, es[1..], x)
    ensures NotBehind(PairOf(k, es[0]), EntryOf(x))
  {
    var e :| e in es[1..] && IsKnown(k, e) && x == PairOf(k, e);
    var i :| 1 <= i < |es| && es[i] == e;
    assert EntryLeq(es[0], es[i]);
  }

  lemma FirstOfEach(k: Known, sorted: seq<Entry>, e: Entry) returns (p: GPUNICPair)
    requires Indexed(k) && Sorted(sorted, EntryLeq) && e in sorted && IsKnown(k, e)
    ensures p in Greedy(k, sorted) && NotBehind(p, e) && (p.gpu.id == e.gpuId || p.nic.dev == e.nicDev)
  {
    var es := KnownPairs(k, sorted);
    KnownPairsMembers(k, sorted);
    KnownPairsInOrder(k, sorted);
    hide KnownPairs, Assign, Load;
    assert Measured(k, sorted, PairOf(k, e));
    var i :| 0 <= i < |es| && es[i] == PairOf(k, e);
    EmptyIsOpen();
    p := AssignNotBlocked(es, [], i);
    var j :| 0 <= j <= i && p == es[j];
  }

  lemma EmptyIsOpen()
    ensures forall d :: Load([], d) <= 1
  {
  }

  lemma KnownIsIndexed(gpus: seq<GPU>, nics: seq<NIC>)
    ensures Indexed(KnownDevices(gpus, nics))
    ensures forall e :: OnNode(gpus, nics, e) ==> IsKnown(KnownDevices(gpus, nics), e)
  {
    GpuMapIds(gpus);
    NicMapDevs(nics);
  }

  /** No measurement is lost to a worse one: of its GPU and its NIC, one is in a pair of the result with more
      bandwidth, or as much and the smaller names. */
  lemma NoBetterMeasurement(entries: seq<Entry>, gpus: seq<GPU>, nics: seq<NIC>, sorted: seq<Entry>, leftover: seq<GPU>,
                            pairs: seq<GPUNICPair>, e: Entry) returns (p: GPUNICPair)
    requires Outcome(entries, gpus, nics, sorted, leftover, pairs) && e in entries && OnNode(gpus, nics, e)
    ensures p in pairs && (p.gpu.id == e.gpuId || p.nic.dev == e.nicDev)
    ensures || p.bw > e.bw
            || (p.bw == e.bw && p.gpu.id < e.gpuId)
            || (p.bw == e.bw && p.gpu.id == e.gpuId && (p.nic.dev == e.nicDev || StrLess(p.nic.dev, e.nicDev)))
  {
    SameElements(sorted, entries);
    SameElements(pairs, BothPhases(entries, sorted, gpus, nics, leftover));
    hide Greedy, Second, KnownDevices, LeftoverOf;
    KnownIsIndexed(gpus, nics);
    p := FirstOfEach(KnownDevices(gpus, nics), sorted, e);
  }

  lemma FirstIsMeasured(entries: seq<Entry>, gpus: seq<GPU>, nics: seq<NIC>, sorted: seq<Entry>, p: GPUNICPair)
    requires multiset(sorted) == multiset(entries) && p in Greedy(KnownDevices(gpus, nics), sorted)
    ensures p.hops == 0 && EntryOf(p) in entries
  {
    var k := KnownDevices(gpus, nics);
    KnownIsIndexed(gpus, nics);
    SameElements(sorted, entries);
    AssignKeeps(KnownPairs(k, sorted), 1, []);
    KnownPairsMembers(k, sorted);
    assert Measured(k, sorted, p);
  }

  lemma SecondHops(c: Context, leftover: seq<GPU>, p: GPUNICPair)
    requires c.nics != [] && p in Second(c, leftover)
    ensures p.hops == 0
  {
  }

  /** Hops are not used, and a bandwidth is that of a measurement of the pair, or 0. */
  lemma BandwidthsAreMeasured(entries: seq<Entry>, gpus: seq<GPU>, nics: seq<NIC>, sorted: seq<Entry>, leftover: seq<GPU>,
                              pairs: seq<GPUNICPair>, p: GPUNICPair)
    requires Node(gpus, nics) && NonNegative(entries) && Outcome(entries, gpus, nics, sorted, leftover, pairs) && p in pairs
    ensures p.hops == 0 && (p.bw == 0.0 || Entry(p.gpu.id, p.nic.dev, p.bw) in entries)
  {
    var first := Greedy(KnownDevices(gpus, nics), sorted);
    SameElements(pairs, BothPhases(entries, sorted, gpus, nics, leftover));
    hide Greedy, Second, KnownDevices, PairedNics, SharesWell;
    if p in first {
      FirstIsMeasured(entries, gpus, nics, sorted, p);
    } else {
      var c := Context(PairedNics(first), sorted, entries);
      FirstPhase(gpus, nics, sorted);
      SecondHops(c, leftover, p);
      LeftoverNotFirst(entries, gpus, nics, sorted, leftover, p);
      var i := LeftoversShareWell(entries, gpus, nics, sorted, leftover, pairs, p);
      SharedBandwidth(c, leftover[..i], p);
    }
  }

  lemma LeftoverNotFirst(entries: seq<Entry>, gpus: seq<GPU>, nics: seq<NIC>, sorted: seq<Entry>, leftover: seq<GPU>,
                         p: GPUNICPair)
    requires UniqueGpus(gpus) && LeftoverOf(gpus, Greedy(KnownDevices(gpus, nics), sorted), leftover)
    requires Greedy(KnownDevices(gpus, nics), sorted) != []
    requires p in Second(Context(PairedNics(Greedy(KnownDevices(gpus, nics), sorted)), sorted, entries), leftover)
    ensures !HasGpu(Greedy(KnownDevices(gpus, nics), sorted), p.gpu.id)
  {
    var first := Greedy(KnownDevices(gpus, nics), sorted);
    var c := Context(PairedNics(first), sorted, entries);
    hide Greedy, KnownDevices, PairedNics, LeftoverOf, HasGpu;
    LeftoverUnique(gpus, first, leftover);
    SecondGpu(c, leftover, p);
  }

  lemma SecondGpu(c: Context, gs: seq<GPU>, p: GPUNICPair)
    requires c.nics != [] && p in Second(c, gs)
    ensures p.gpu in gs
  {
    hide Best, Lookup, NicMap, Unserved;
    var i :| 0 <= i < |gs| && Second(c, gs)[i] == p;
    assert p.gpu == gs[i];
  }

  lemma SharedBandwidth(c: Context, earlier: seq<GPU>, p: GPUNICPair)
    requires c.nics != [] && SharesWell(c, earlier, p)
    ensures p.bw == 0.0 || Entry(p.gpu.id, p.nic.dev, p.bw) in c.entries
  {
  }

  // ---- Whose turn it is in phase 2 ----

  /** The GPU has a positive measurement on a NIC that phase 1 paired. */
  ghost predicate HasPositive(c: Context, id: int) {
    exists e :: SharedEntry(c, e, id) && e.bw > 0.0
  }

  /** The positions of the GPUs that have none. */
  ghost function Unmeasured(c: Context, gs: seq<GPU>): set<nat> {
    set i: nat | i < |gs| && !HasPositive(c, gs[i].id)
  }

  /** The round robin has advanced once for each of them. */
  lemma {:induction false} TurnsAreUnmeasured(c: Context, gs: seq<GPU>)
    requires Measures(c)
    ensures Unserved(c, gs) == |Unmeasured(c, gs)|
  {
    hide Measures, Unmeasured, Served;
    if gs == [] {
      NothingUnmeasured(c);
    } else {
      var n := |gs| - 1;
      TurnsAreUnmeasured(c, gs[..n]);
      ServedExactly(c, gs[n]);
      OneMoreTurn(c, gs);
    }
  }

  lemma NothingUnmeasured(c: Context)
    ensures Unmeasured(c, []) == {}
  {
  }

  lemma OneMoreTurn(c: Context, gs: seq<GPU>)
    requires gs != []
    ensures var n := |gs| - 1;
            |Unmeasured(c, gs)| == |Unmeasured(c, gs[..n])| + if HasPositive(c, gs[n].id) then 0 else 1
  {
    hide HasPositive;
    var n := |gs| - 1;
    if HasPositive(c, gs[n].id) {
      assert Unmeasured(c, gs) == Unmeasured(c, gs[..n]);
    } else {
      assert Unmeasured(c, gs) == Unmeasured(c, gs[..n]) + {n};
    }
  }
}
