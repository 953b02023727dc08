/** BandwidthOptimalPairing as a whole: phase 1, then the GPUs it left over share the NICs it paired. */
module LeftoverPairing {
  import opened Cluster
  import opened Ordering
  import opened Matching
  import opened BandwidthPairing
  import opened PairOrder

  /** What phase 2 works with: the NICs that phase 1 paired, the sorted and the original entries. */
  datatype Context = Context(nics: seq<NIC>, sorted: seq<Entry>, entries: seq<Entry>)

  function PairedNics(first: seq<GPUNICPair>): (r: seq<NIC>)
    ensures |r| == |first| && forall i :: 0 <= i < |r| ==> r[i] == first[i].nic
  {
    if first == [] then [] else PairedNics(first[..|first| - 1]) + [first[|first| - 1].nic]
  }

  predicate Offered(c: Context, e: Entry, id: int) {
    e.gpuId == id && e.nicDev in NicMap(c.nics)
  }

  /** The first entry of this GPU, in the sorted order, whose NIC is paired. */
  function Best(c: Context, es: seq<Entry>, id: int): Option<Entry> {
    if es == [] then None
    else
      var before, e := Best(c, es[..|es| - 1], id), es[|es| - 1];
      if before.Some? then before else if Offered(c, e, id) then Some(e) else None
  }

  /** bwLookup: the last entry for this GPU and NIC, 0 without one. */
  function Lookup(es: seq<Entry>, id: int, dev: string): real {
    if es == [] then 0.0
    else if es[|es| - 1].gpuId == id && es[|es| - 1].nicDev == dev then es[|es| - 1].bw
    else Lookup(es[..|es| - 1], id, dev)
  }

  predicate Served(c: Context, g: GPU) {
    var best := Best(c, c.sorted, g.id);
    best.Some? && best.value.bw > 0.0
  }

  function Unserved(c: Context, gs: seq<GPU>): nat {
    if gs == [] then 0 else Unserved(c, gs[..|gs| - 1]) + if Served(c, gs[|gs| - 1]) then 0 else 1
  }

  lemma {:induction false} BestIsOffered(c: Context, es: seq<Entry>, id: int)
    ensures Best(c, es, id).Some? ==> Best(c, es, id).value in es && Offered(c, Best(c, es, id).value, id)
    ensures Best(c, es, id).None? ==> forall e :: e in es ==> !Offered(c, e, id)
  {
    if es != [] {
      var n := |es| - 1;
      assert es == es[..n] + [es[n]];
      BestIsOffered(c, es[..n], id);
    }
  }

  lemma {:induction false} BestIsLargest(c: Context, es: seq<Entry>, id: int)
    requires Sorted(es, EntryLeq) && Best(c, es, id).Some?
    ensures forall e :: e in es && Offered(c, e, id) ==>
              e.bw < Best(c, es, id).value.bw
              || (e.bw == Best(c, es, id).value.bw && StrLeq(Best(c, es, id).value.nicDev, e.nicDev))
  {
    if es != [] {
      var n := |es| - 1;
      assert es == es[..n] + [es[n]];
      BestIsOffered(c, es[..n], id);
      if Best(c, es[..n], id).Some? {
        BestIsLargest(c, es[..n], id);
        var b := Best(c, es[..n], id).value;
        var i :| 0 <= i < |es[..n]| && es[..n][i] == b;
        assert EntryLeq(es[i], es[n]);
      }
    }
  }

  /** The pair for a leftover GPU, after the leftovers `earlier`. */
  function SecondPair(c: Context, earlier: seq<GPU>, g: GPU): GPUNICPair
    requires c.nics != []
  {
    BestIsOffered(c, c.sorted, g.id);
    if Served(c, g) then
      var e := Best(c, c.sorted, g.id).value;
      GPUNICPair(g, NicMap(c.nics)[e.nicDev], 0, e.bw)
    else
      var nic := c.nics[Unserved(c, earlier) % |c.nics|];
      GPUNICPair(g, nic, 0, Lookup(c.entries, g.id, nic.dev))
  }

  function Second(c: Context, gs: seq<GPU>): (r: seq<GPUNICPair>)
    requires c.nics != []
    ensures |r| == |gs|
    ensures forall i :: 0 <= i < |r| ==> r[i] == SecondPair(c, gs[..i], gs[i])
  {
    if gs == [] then []
    else
      var r := Second(c, gs[..|gs| - 1]);
      assert forall i :: 0 <= i < |r| ==> gs[..|gs| - 1][..i] == gs[..i];
      r + [SecondPair(c, gs[..|gs| - 1], gs[|gs| - 1])]
  }

  // ---- The loops ----

  method IndexGpus(gpus: seq<GPU>) returns (m: map<int, GPU>)
    ensures m == GpuMap(gpus)
  {
    m := map[];
    for i := 0 to |gpus|
      invariant m == GpuMap(gpus[..i])
    {
      m := m[gpus[i].id := gpus[i]];
      assert gpus[..i + 1][..i] == gpus[..i];
    }
    assert gpus[..|gpus|] == gpus;
  }

  method IndexNics(nics: seq<NIC>) returns (m: map<string, NIC>)
    ensures m == NicMap(nics)
  {
    m := map[];
    for i := 0 to |nics|
      invariant m == NicMap(nics[..i])
    {
      m := m[nics[i].dev := nics[i]];
      assert nics[..i + 1][..i] == nics[..i];
    }
    assert nics[..|nics|] == nics;
  }

  method BuildLookup(entries: seq<Entry>) returns (m: map<(int, string), real>)
    ensures forall id, dev :: Lookup(entries, id, dev) == if (id, dev) in m then m[(id, dev)] else 0.0
  {
    m := map[];
    for i := 0 to |entries|
      invariant forall id, dev :: Lookup(entries[..i], id, dev) == if (id, dev) in m then m[(id, dev)] else 0.0
    {
      m := m[(entries[i].gpuId, entries[i].nicDev) := entries[i].bw];
      assert entries[..i + 1][..i] == entries[..i];
    }
    assert entries[..|entries|] == entries;
  }

  /** gpuBestNIC: replacing only by a strictly larger bandwidth keeps the first of the sorted entries. */
  method BestPaired(c: Context) returns (m: map<int, Entry>)
    requires Sorted(c.sorted, EntryLeq)
    ensures forall id :: Best(c, c.sorted, id) == if id in m then Some(m[id]) else None
  {
    m := map[];
    var es := c.sorted;
    var paired := IndexNics(c.nics);
    for i := 0 to |es|
      invariant forall id :: Best(c, es[..i], id) == if id in m then Some(m[id]) else None
    {
      var e := es[i];
      assert es[..i + 1][..i] == es[..i];
      if e.nicDev in paired {
        if e.gpuId in m { FirstIsLargest(c, es, i); }
        if e.gpuId !in m || e.bw > m[e.gpuId].bw {
          m := m[e.gpuId := e];
        }
      }
    }
    assert es[..|es|] == es;
  }

  lemma FirstIsLargest(c: Context, es: seq<Entry>, i: nat)
    requires i < |es| && Sorted(es, EntryLeq) && Best(c, es[..i], es[i].gpuId).Some?
    ensures es[i].bw <= Best(c, es[..i], es[i].gpuId).value.bw
  {
    BestIsOffered(c, es[..i], es[i].gpuId);
    var b := Best(c, es[..i], es[i].gpuId).value;
    var j :| 0 <= j < |es[..i]| && es[..i][j] == b;
    assert EntryLeq(es[j], es[i]);
  }

  /** The loop over the leftover GPUs. */
  method PhaseTwo(c: Context, leftover: seq<GPU>) returns (pairs: seq<GPUNICPair>)
    requires c.nics != [] && Sorted(c.sorted, EntryLeq)
    ensures pairs == Second(c, leftover)
  {
    hide Second, Unserved, Best, Lookup, NicMap;
    SecondOfNone(c);
    pairs := [];
    var paired := IndexNics(c.nics);
    var best := BestPaired(c);
    var lookup := BuildLookup(c.entries);
    var rr := 0;
    for i := 0 to |leftover|
      invariant pairs == Second(c, leftover[..i])
      invariant rr == Unserved(c, leftover[..i])
    {
      var g := leftover[i];
      PhaseTwoStep(c, leftover, i);
      BestIsOffered(c, c.sorted, g.id);
      if g.id in best && best[g.id].bw > 0.0 {
        pairs := pairs + [GPUNICPair(g, paired[best[g.id].nicDev], 0, best[g.id].bw)];
      } else {
        var nic := c.nics[rr % |c.nics|];
        var bw := if (g.id, nic.dev) in lookup then lookup[(g.id, nic.dev)] else 0.0;
        pairs := pairs + [GPUNICPair(g, nic, 0, bw)];
        rr := rr + 1;
      }
    }
    assert leftover[..|leftover|] == leftover;
  }

  lemma SecondOfNone(c: Context)
    requires c.nics != []
    ensures Second(c, []) == [] && Unserved(c, []) == 0
  {
  }

  lemma PhaseTwoStep(c: Context, gs: seq<GPU>, i: nat)
    requires i < |gs| && c.nics != []
    ensures Second(c, gs[..i + 1]) == Second(c, gs[..i]) + [SecondPair(c, gs[..i], gs[i])]
    ensures Unserved(c, gs[..i + 1]) == Unserved(c, gs[..i]) + if Served(c, gs[i]) then 0 else 1
  {
    hide SecondPair, Served;
    assert gs[..i + 1][..i] == gs[..i];
  }

  method Leftover(gpus: seq<GPU>, assignedGpu: set<int>, ghost first: seq<GPUNICPair>) returns (leftover: seq<GPU>)
    requires forall id :: id in assignedGpu <==> HasGpu(first, id)
    ensures LeftoverOf(gpus, first, leftover)
  {
    leftover := [];
    for i := 0 to |gpus|
      invariant leftover == Unpaired(gpus[..i], first)
    {
      assert gpus[..i + 1][..i] == gpus[..i];
      if gpus[i].id !in assignedGpu {
        leftover := leftover + [gpus[i]];
      }
    }
    assert gpus[..|gpus|] == gpus;
    leftover := SortSlice(leftover, GpuLeq);
  }

  ghost predicate LeftoverOf(gpus: seq<GPU>, first: seq<GPUNICPair>, leftover: seq<GPU>) {
    Sorted(leftover, GpuLeq) && multiset(leftover) == multiset(Unpaired(gpus, first))
  }

  function KnownDevices(gpus: seq<GPU>, nics: seq<NIC>): Known {
    Known(GpuMap(gpus), NicMap(nics))
  }

  /** The pairs of both phases before the final sort. */
  function BothPhases(entries: seq<Entry>, sorted: seq<Entry>, gpus: seq<GPU>, nics: seq<NIC>,
                      leftover: seq<GPU>): seq<GPUNICPair>
  {
    var first := Greedy(KnownDevices(gpus, nics), sorted);
    if 0 < |first| < |gpus| then first + Second(Context(PairedNics(first), sorted, entries), leftover) else first
  }

  /** All that BandwidthOptimalPairing promises about its result for a node with GPUs and NICs. */
  ghost predicate Outcome(entries: seq<Entry>, gpus: seq<GPU>, nics: seq<NIC>, sorted: seq<Entry>, leftover: seq<GPU>,
                          pairs: seq<GPUNICPair>) {
    && SortedEntries(sorted, entries)
    && LeftoverOf(gpus, Greedy(KnownDevices(gpus, nics), sorted), leftover)
    && Sorted(pairs, ByGpu)
    && multiset(pairs) == multiset(BothPhases(entries, sorted, gpus, nics, leftover))
  }

  method BandwidthOptimalPairing(entries: seq<Entry>, gpus: seq<GPU>, nics: seq<NIC>)
    returns (pairs: seq<GPUNICPair>, ghost sorted: seq<Entry>, ghost leftover: seq<GPU>)
    ensures gpus == [] || nics == [] ==> pairs == []
    ensures gpus != [] && nics != [] ==> Outcome(entries, gpus, nics, sorted, leftover, pairs)
    ensures UniqueGpus(gpus) && UniqueNics(nics) && pairs != [] ==> EachGpuOnce(gpus, pairs)
  {
    hide Assign, KnownPairs, Second, GpuMap, NicMap, EachGpuOnce, LeftoverOf, PairedNics;
    sorted, leftover := [], [];
    if |gpus| == 0 || |nics| == 0 {
      return [], [], [];
    }
    var gpuMap := IndexGpus(gpus);
    var nicMap := IndexNics(nics);
    GpuMapIds(gpus);
    NicMapDevs(nics);
    EntryLeqTotalPreorder();
    var order := SortSlice(entries, EntryLeq);
    var limit := |gpus|;
    if |nics| < limit {
      limit := |nics|;
    }
    var first, assignedGpu := PhaseOne(Known(gpuMap, nicMap), order, limit);
    var rest := Leftover(gpus, assignedGpu, first);
    pairs := first;
    if |first| < |gpus| && |first| > 0 {
      var second := PhaseTwo(Context(PairedNics(first), order, entries), rest);
      pairs := first + second;
    }
    pairs := SortSlice(pairs, ByGpu);
    sorted, leftover := order, rest;
    if Node(gpus, nics) { NoneOrAllGpus(entries, gpus, nics, sorted, leftover, pairs); }
  }

  // ---- The NIC of a leftover GPU ----

  /** An entry of this GPU on one of the NICs that phase 1 paired. */
  ghost predicate SharedEntry(c: Context, e: Entry, id: int) {
    e in c.entries && e.gpuId == id && exists n :: n in c.nics && n.dev == e.nicDev
  }

  ghost predicate Measures(c: Context) {
    c.nics != [] && SortedEntries(c.sorted, c.entries) && NonNegative(c.entries)
  }

  lemma OfferedIsShared(c: Context, e: Entry, id: int)
    requires Measures(c)
    ensures SharedEntry(c, e, id) <==> e in c.sorted && Offered(c, e, id)
  {
    NicMapDevs(c.nics);
    SameElements(c.sorted, c.entries);
  }

  /** A GPU with positive bandwidth on some paired NIC gets the paired NIC of its largest bandwidth. */
  lemma LeftoverGetsItsBestNic(c: Context, earlier: seq<GPU>, g: GPU, e: Entry)
    requires Measures(c) && SharedEntry(c, e, g.id) && e.bw > 0.0
    ensures var p := SecondPair(c, earlier, g);
            && p.gpu == g && p.nic in c.nics && (p.bw > e.bw || (p.bw == e.bw && StrLeq(p.nic.dev, e.nicDev)))
            && SharedEntry(c, Entry(g.id, p.nic.dev, p.bw), g.id)
  {
    OfferedIsShared(c, e, g.id);
    BestIsOffered(c, c.sorted, g.id);
    BestIsLargest(c, c.sorted, g.id);
    NicMapDevs(c.nics);
    OfferedIsShared(c, Best(c, c.sorted, g.id).value, g.id);
  }

  lemma {:induction false} LookupIsAnEntry(es: seq<Entry>, id: int, dev: string)
    ensures Lookup(es, id, dev) == 0.0 || Entry(id, dev, Lookup(es, id, dev)) in es
  {
    if es != [] {
      LookupIsAnEntry(es[..|es| - 1], id, dev);
      assert es == es[..|es| - 1] + [es[|es| - 1]];
    }
  }

  /** Any other leftover GPU takes the next NIC in turn, and never with a bandwidth other than 0. */
  lemma LeftoverTakesTurns(c: Context, earlier: seq<GPU>, g: GPU)
    requires Measures(c) && forall e :: SharedEntry(c, e, g.id) ==> e.bw <= 0.0
    ensures SecondPair(c, earlier, g) == GPUNICPair(g, c.nics[Unserved(c, earlier) % |c.nics|], 0, 0.0)
    ensures !Served(c, g)
  {
    BestIsOffered(c, c.sorted, g.id);
    if Best(c, c.sorted, g.id).Some? { OfferedIsShared(c, Best(c, c.sorted, g.id).value, g.id); }
    var nic := c.nics[Unserved(c, earlier) % |c.nics|];
    LookupIsAnEntry(c.entries, g.id, nic.dev);
    var e := Entry(g.id, nic.dev, Lookup(c.entries, g.id, nic.dev));
    if e in c.entries { assert SharedEntry(c, e, g.id); }
  }

  // ---- Every GPU exactly once ----

  lemma LeftoverUnique(gpus: seq<GPU>, first: seq<GPUNICPair>, leftover: seq<GPU>)
    requires UniqueGpus(gpus) && LeftoverOf(gpus, first, leftover)
    ensures UniqueGpus(leftover)
    ensures forall g :: g in leftover <==> g in gpus && !HasGpu(first, g.id)
  {
    var u := Unpaired(gpus, first);
    UnpairedUnique(gpus, first);
    SameElements(leftover, u);
    PermutationDistinct(u, leftover);
    forall i, j | 0 <= i < j < |leftover| ensures leftover[i].id != leftover[j].id {
      assert leftover[i] in u && leftover[j] in u && leftover[i] != leftover[j];
    }
  }

  /** Pairs of GPUs of the node, each with its own GPU record. */
  ghost predicate OfNode(gpus: seq<GPU>, nics: seq<NIC>, pairs: seq<GPUNICPair>) {
    forall i :: 0 <= i < |pairs| ==> pairs[i].gpu in gpus && pairs[i].nic in nics
  }

  lemma FirstPhase(gpus: seq<GPU>, nics: seq<NIC>, sorted: seq<Entry>)
    ensures var first := Greedy(KnownDevices(gpus, nics), sorted);
            DistinctGpus(first) && DistinctNics(first) && OfNode(gpus, nics, first)
  {
    var k := KnownDevices(gpus, nics);
    var first := Greedy(k, sorted);
    AssignKeeps(KnownPairs(k, sorted), 1, []);
    LoadsAtMostOne(first);
    KnownPairsMembers(k, sorted);
    GpuMapIds(gpus);
    NicMapDevs(nics);
    forall i | 0 <= i < |first| ensures first[i].gpu in gpus && first[i].nic in nics {
      assert first[i] in first;
      assert Measured(k, sorted, first[i]);
    }
  }

  lemma SecondPhase(c: Context, leftover: seq<GPU>, i: nat)
    requires c.nics != [] && i < |leftover|
    ensures Second(c, leftover)[i].gpu == leftover[i] && Second(c, leftover)[i].nic in c.nics
  {
    BestIsOffered(c, c.sorted, leftover[i].id);
    NicMapDevs(c.nics);
  }

  lemma FirstIsEmpty(entries: seq<Entry>, gpus: seq<GPU>, nics: seq<NIC>, sorted: seq<Entry>)
    requires multiset(sorted) == multiset(entries)
    ensures Greedy(KnownDevices(gpus, nics), sorted) == [] <==> forall e :: e in entries ==> !OnNode(gpus, nics, e)
  {
    var k := KnownDevices(gpus, nics);
    var es := KnownPairs(k, sorted);
    SameElements(sorted, entries);
    KnownPairsMembers(k, sorted);
    GpuMapIds(gpus);
    NicMapDevs(nics);
    if es != [] {
      AssignMaximal(es, 1, [], 0);
      assert es[0] in es;
      var e :| e in sorted && IsKnown(k, e) && es[0] == PairOf(k, e);
      assert OnNode(gpus, nics, e);
    } else {
      forall e | e in entries ensures !OnNode(gpus, nics, e) {
        if IsKnown(k, e) { assert Measured(k, sorted, PairOf(k, e)); }
      }
    }
  }

  /** The entry names a GPU and a NIC of the node. */
  ghost predicate OnNode(gpus: seq<GPU>, nics: seq<NIC>, e: Entry) {
    (exists g :: g in gpus && g.id == e.gpuId) && (exists n :: n in nics && n.dev == e.nicDev)
  }

  lemma BothPhasesCover(entries: seq<Entry>, sorted: seq<Entry>, gpus: seq<GPU>, nics: seq<NIC>, leftover: seq<GPU>)
    requires Node(gpus, nics) && LeftoverOf(gpus, Greedy(KnownDevices(gpus, nics), sorted), leftover)
    requires Greedy(KnownDevices(gpus, nics), sorted) != []
    ensures var all := BothPhases(entries, sorted, gpus, nics, leftover);
            DistinctGpus(all) && GpusOf(gpus, all) && Covers(gpus, all)
  {
    hide Greedy, Second;
    var first := Greedy(KnownDevices(gpus, nics), sorted);
    var c := Context(PairedNics(first), sorted, entries);
    FirstPhase(gpus, nics, sorted);
    LeftoverUnique(gpus, first, leftover);
    if |first| < |gpus| {
      var second := Second(c, leftover);
      SecondSize(c, leftover);
      forall i | 0 <= i < |second| ensures second[i].gpu == leftover[i] && leftover[i] in leftover {
        SecondPhase(c, leftover, i);
      }
      CoverTogether(gpus, first, second, leftover);
    } else {
      FullFirstCovers(gpus, first);
    }
  }

  lemma SecondSize(c: Context, leftover: seq<GPU>)
    requires c.nics != []
    ensures |Second(c, leftover)| == |leftover|
  {
  }

  /** Without an entry for devices of the node nothing is paired; otherwise every GPU is, exactly once. */
  lemma EveryGpuOnceIfMeasured(entries: seq<Entry>, gpus: seq<GPU>, nics: seq<NIC>, sorted: seq<Entry>,
                               leftover: seq<GPU>, pairs: seq<GPUNICPair>)
    requires Node(gpus, nics) && Outcome(entries, gpus, nics, sorted, leftover, pairs)
    ensures (forall e :: e in entries ==> !OnNode(gpus, nics, e)) ==> pairs == []
    ensures (exists e :: e in entries && OnNode(gpus, nics, e)) ==> EachGpuOnce(gpus, pairs)
  {
    FirstIsEmpty(entries, gpus, nics, sorted);
    var all := BothPhases(entries, sorted, gpus, nics, leftover);
    SameElements(pairs, all);
    if all != [] {
      BothPhasesCover(entries, sorted, gpus, nics, leftover);
      SortedCover(gpus, all, pairs);
    }
  }

  lemma NoneOrAllGpus(entries: seq<Entry>, gpus: seq<GPU>, nics: seq<NIC>, sorted: seq<Entry>, leftover: seq<GPU>,
                      pairs: seq<GPUNICPair>)
    requires Node(gpus, nics) && Outcome(entries, gpus, nics, sorted, leftover, pairs)
    ensures pairs == [] || EachGpuOnce(gpus, pairs)
  {
    hide Outcome, OnNode;
    EveryGpuOnceIfMeasured(entries, gpus, nics, sorted, leftover, pairs);
  }

  /** Only NICs that phase 1 paired are used. */
  lemma OnlyPairedNics(entries: seq<Entry>, gpus: seq<GPU>, nics: seq<NIC>, sorted: seq<Entry>, leftover: seq<GPU>,
                       pairs: seq<GPUNICPair>, p: GPUNICPair)
    requires Outcome(entries, gpus, nics, sorted, leftover, pairs) && p in pairs
    ensures var first := Greedy(KnownDevices(gpus, nics), sorted);
            DistinctNics(first) && exists i :: 0 <= i < |first| && first[i].nic == p.nic
  {
    var first := Greedy(KnownDevices(gpus, nics), sorted);
    var all := BothPhases(entries, sorted, gpus, nics, leftover);
    FirstPhase(gpus, nics, sorted);
    SameElements(pairs, all);
    if p !in first {
      var c := Context(PairedNics(first), sorted, entries);
      var i :| 0 <= i < |leftover| && Second(c, leftover)[i] == p;
      SecondPhase(c, leftover, i);
    }
  }

  // ---- What leftover GPUs get in the result ----

  lemma ServedExactly(c: Context, g: GPU)
    requires Measures(c)
    ensures Served(c, g) <==> exists e :: SharedEntry(c, e, g.id) && e.bw > 0.0
  {
    BestIsOffered(c, c.sorted, g.id);
    if Best(c, c.sorted, g.id).Some? {
      BestIsLargest(c, c.sorted, g.id);
      OfferedIsShared(c, Best(c, c.sorted, g.id).value, g.id);
    }
    forall e ensures SharedEntry(c, e, g.id) <==> e in c.sorted && Offered(c, e, g.id) { OfferedIsShared(c, e, g.id); }
  }

  /** The pair of a leftover GPU after the leftovers `earlier`: the paired NIC with its largest bandwidth if
      that is positive, the smallest name among equals, else the next paired NIC in turn. */
  ghost predicate SharesWell(c: Context, earlier: seq<GPU>, p: GPUNICPair)
    requires c.nics != []
  {
    && p.nic in c.nics
    && (forall e :: SharedEntry(c, e, p.gpu.id) ==> e.bw <= p.bw)
    && (forall e :: SharedEntry(c, e, p.gpu.id) && e.bw == p.bw > 0.0 ==> StrLeq(p.nic.dev, e.nicDev))
    && (p.bw > 0.0 ==> SharedEntry(c, Entry(p.gpu.id, p.nic.dev, p.bw), p.gpu.id))
    && (p.bw <= 0.0 ==> p.bw == 0.0 && p.nic == c.nics[Unserved(c, earlier) % |c.nics|])
  }

  lemma SecondPairShares(c: Context, earlier: seq<GPU>, g: GPU)
    requires Measures(c)
    ensures SharesWell(c, earlier, SecondPair(c, earlier, g)) && SecondPair(c, earlier, g).gpu == g
  {
    ServedExactly(c, g);
    var p := SecondPair(c, earlier, g);
    if Served(c, g) {
      var e :| SharedEntry(c, e, g.id) && e.bw > 0.0;
      LeftoverGetsItsBestNic(c, earlier, g, e);
      forall e' | SharedEntry(c, e', g.id)
        ensures e'.bw <= p.bw && (e'.bw == p.bw > 0.0 ==> StrLeq(p.nic.dev, e'.nicDev))
      {
        if e'.bw > 0.0 { LeftoverGetsItsBestNic(c, earlier, g, e'); }
      }
    } else {
      LeftoverTakesTurns(c, earlier, g);
    }
  }

  /** Every pair of the result whose GPU phase 1 left over comes from phase 2 and shares a NIC well. */
  lemma LeftoversShareWell(entries: seq<Entry>, gpus: seq<GPU>, nics: seq<NIC>, sorted: seq<Entry>, leftover: seq<GPU>,
                           pairs: seq<GPUNICPair>, p: GPUNICPair) returns (i: nat)
    requires Node(gpus, nics) && NonNegative(entries) && Outcome(entries, gpus, nics, sorted, leftover, pairs)
    requires p in pairs && !HasGpu(Greedy(KnownDevices(gpus, nics), sorted), p.gpu.id)
    ensures var first := Greedy(KnownDevices(gpus, nics), sorted);
            && first != [] && i < |leftover| && leftover[i] == p.gpu
            && SharesWell(Context(PairedNics(first), sorted, entries), leftover[..i], p)
  {
    var first := Greedy(KnownDevices(gpus, nics), sorted);
    var c := Context(PairedNics(first), sorted, entries);
    SameElements(pairs, BothPhases(entries, sorted, gpus, nics, leftover));
    hide Greedy, KnownDevices, PairedNics, SharesWell, SecondPair;
    assert p !in first by {
      if p in first { OwnGpu(first, p); }
    }
    i :| 0 <= i < |leftover| && Second(c, leftover)[i] == p;
    SecondPairShares(c, leftover[..i], leftover[i]);
  }

  lemma OwnGpu(pairs: seq<GPUNICPair>, p: GPUNICPair)
    requires p in pairs
    ensures HasGpu(pairs, p.gpu.id)
  {
  }

  // ---- The order of the inputs does not matter ----

  lemma EntriesSortOneWay(entries: seq<Entry>, entries': seq<Entry>, sorted: seq<Entry>, sorted': seq<Entry>)
    requires SortedEntries(sorted, entries) && SortedEntries(sorted', entries')
    requires multiset(entries) == multiset(entries')
    ensures sorted == sorted'
  {
    EntryLeqTotalPreorder();
    forall a, b | EntryLeq(a, b) && EntryLeq(b, a) ensures a == b { StrLessTrichotomy(a.nicDev, b.nicDev); }
    SortedPermutationUnique(sorted, sorted', EntryLeq);
  }

  lemma SameGpuMap(gpus: seq<GPU>, gpus': seq<GPU>)
    requires UniqueGpus(gpus) && forall g :: g in gpus <==> g in gpus'
    ensures GpuMap(gpus) == GpuMap(gpus')
  {
    hide UniqueGpus;
    var m, m' := GpuMap(gpus), GpuMap(gpus');
    GpuMapIds(gpus);
    GpuMapIds(gpus');
    hide GpuMap;
    forall id ensures id in m <==> id in m' {
      if id in m { assert m[id] in gpus'; }
      if id in m' { assert m'[id] in gpus; }
    }
    forall id | id in m && id in m' ensures m[id] == m'[id] { SameId(gpus, m[id], m'[id]); }
  }

  lemma SameNicMap(nics: seq<NIC>, nics': seq<NIC>)
    requires UniqueNics(nics) && forall n :: n in nics <==> n in nics'
    ensures NicMap(nics) == NicMap(nics')
  {
    hide UniqueNics;
    var m, m' := NicMap(nics), NicMap(nics');
    NicMapDevs(nics);
    NicMapDevs(nics');
    hide NicMap;
    forall d ensures d in m <==> d in m' {
      if d in m { assert m[d] in nics'; }
      if d in m' { assert m'[d] in nics; }
    }
    forall d | d in m && d in m' ensures m[d] == m'[d] { SameDev(nics, m[d], m'[d]); }
  }

  lemma SameKnown(gpus: seq<GPU>, nics: seq<NIC>, gpus': seq<GPU>, nics': seq<NIC>)
    requires Node(gpus, nics) && multiset(gpus) == multiset(gpus') && multiset(nics) == multiset(nics')
    ensures KnownDevices(gpus, nics) == KnownDevices(gpus', nics')
  {
    SameElements(gpus, gpus');
    SameElements(nics, nics');
    SameGpuMap(gpus, gpus');
    SameNicMap(nics, nics');
  }

  lemma LeftoverUniqueOrder(gpus: seq<GPU>, gpus': seq<GPU>, first: seq<GPUNICPair>, leftover: seq<GPU>,
                            leftover': seq<GPU>)
    requires UniqueGpus(gpus) && UniqueGpus(gpus') && multiset(gpus) == multiset(gpus')
    requires LeftoverOf(gpus, first, leftover) && LeftoverOf(gpus', first, leftover')
    ensures leftover == leftover'
  {
    LeftoverUnique(gpus, first, leftover);
    LeftoverUnique(gpus', first, leftover');
    SameElements(gpus, gpus');
    GpusStrictlySorted(leftover);
    GpusStrictlySorted(leftover');
    StrictlySortedUnique(leftover, leftover', GpuLeq);
  }

  lemma SecondPairOrderFree(c: Context, c': Context, earlier: seq<GPU>, g: GPU)
    requires Measures(c) && Measures(c') && c' == c.(entries := c'.entries)
    ensures Best(c, c.sorted, g.id) == Best(c', c.sorted, g.id)
    ensures Unserved(c, earlier) == Unserved(c', earlier)
    ensures SecondPair(c, earlier, g) == SecondPair(c', earlier, g)
  {
    BestIgnoresEntries(c, c', c.sorted, g.id);
    UnservedIgnoresEntries(c, c', earlier);
    SameElements(c.sorted, c.entries);
    SameElements(c.sorted, c'.entries);
    if !Served(c, g) {
      BestIsOffered(c, c.sorted, g.id);
      if Best(c, c.sorted, g.id).Some? { BestIsLargest(c, c.sorted, g.id); }
      forall e | SharedEntry(c, e, g.id) ensures e.bw <= 0.0 { OfferedIsShared(c, e, g.id); }
      forall e | SharedEntry(c', e, g.id) ensures e.bw <= 0.0 { OfferedIsShared(c', e, g.id); }
      LeftoverTakesTurns(c, earlier, g);
      LeftoverTakesTurns(c', earlier, g);
    }
  }

  lemma {:induction false} BestIgnoresEntries(c: Context, c': Context, es: seq<Entry>, id: int)
    requires c'.nics == c.nics
    ensures Best(c, es, id) == Best(c', es, id)
  {
    if es != [] { BestIgnoresEntries(c, c', es[..|es| - 1], id); }
  }

  lemma {:induction false} UnservedIgnoresEntries(c: Context, c': Context, gs: seq<GPU>)
    requires c'.nics == c.nics && c'.sorted == c.sorted
    ensures Unserved(c, gs) == Unserved(c', gs)
  {
    if gs != [] {
      UnservedIgnoresEntries(c, c', gs[..|gs| - 1]);
      BestIgnoresEntries(c, c', c.sorted, gs[|gs| - 1].id);
    }
  }

  lemma SecondOrderFree(c: Context, c': Context, gs: seq<GPU>)
    requires Measures(c) && Measures(c') && c' == c.(entries := c'.entries)
    ensures Second(c, gs) == Second(c', gs)
  {
    hide SecondPair;
    forall i | 0 <= i < |gs| ensures Second(c, gs)[i] == Second(c', gs)[i] {
      SecondPairOrderFree(c, c', gs[..i], gs[i]);
    }
  }

  /** Reordering the measurements, the GPUs or the NICs never changes the pairs. */
  lemma PairingIsOrderFree(entries: seq<Entry>, gpus: seq<GPU>, nics: seq<NIC>, sorted: seq<Entry>, leftover: seq<GPU>,
                           pairs: seq<GPUNICPair>, entries': seq<Entry>, gpus': seq<GPU>, nics': seq<NIC>,
                           sorted': seq<Entry>, leftover': seq<GPU>, pairs': seq<GPUNICPair>)
    requires Node(gpus, nics) && Node(gpus', nics') && NonNegative(entries)
    requires multiset(entries) == multiset(entries') && multiset(gpus) == multiset(gpus')
    requires multiset(nics) == multiset(nics')
    requires Outcome(entries, gpus, nics, sorted, leftover, pairs)
    requires Outcome(entries', gpus', nics', sorted', leftover', pairs')
    ensures pairs == pairs'
  {
    EntriesSortOneWay(entries, entries', sorted, sorted');
    SameKnown(gpus, nics, gpus', nics');
    var first := Greedy(KnownDevices(gpus, nics), sorted);
    LeftoverUniqueOrder(gpus, gpus', first, leftover, leftover');
    SameElements(gpus, gpus');
    SameElements(entries, entries');
    hide Greedy, Second, KnownDevices, LeftoverOf;
    var all, all' := BothPhases(entries, sorted, gpus, nics, leftover), BothPhases(entries', sorted, gpus', nics', leftover);
    if first != [] {
      SecondOrderFree(Context(PairedNics(first), sorted, entries), Context(PairedNics(first), sorted, entries'), leftover);
      assert all == all';
      BothPhasesCover(entries, sorted, gpus, nics, leftover);
      PermutedGpus(all, pairs);
      PermutedGpus(all, pairs');
    }
    SameElements(pairs, all);
    SameElements(pairs', all');
    SortedPairsUnique(pairs, pairs');
  }
}
