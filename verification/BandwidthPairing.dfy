/** BandwidthOptimalPairing: greedy GPU-NIC matching by measured loopback bandwidth, then a phase that
    lets leftover GPUs share the NICs already paired. */
module BandwidthPairing {
  import opened Cluster
  import opened Ordering
  import opened Matching

  datatype Entry = Entry(gpuId: int, nicDev: string, bw: real)

  /** sort.Slice order of the entries: descending bandwidth, then GPU ID, then device name. */
  predicate EntryLeq(a: Entry, b: Entry) {
    if a.bw != b.bw then a.bw > b.bw
    else if a.gpuId != b.gpuId then a.gpuId < b.gpuId
    else StrLeq(a.nicDev, b.nicDev)
  }

  lemma EntryLeqTotalPreorder()
    ensures TotalPreorder(EntryLeq)
  {
    StrLeqTotalPreorder();
  }

  function GpuMap(gpus: seq<GPU>): map<int, GPU> {
    if gpus == [] then map[] else GpuMap(gpus[..|gpus| - 1])[gpus[|gpus| - 1].id := gpus[|gpus| - 1]]
  }

  function NicMap(nics: seq<NIC>): map<string, NIC> {
    if nics == [] then map[] else NicMap(nics[..|nics| - 1])[nics[|nics| - 1].dev := nics[|nics| - 1]]
  }

  lemma {:induction false} GpuMapIds(gpus: seq<GPU>)
    ensures forall id :: id in GpuMap(gpus) ==> GpuMap(gpus)[id] in gpus && GpuMap(gpus)[id].id == id
    ensures forall g :: g in gpus ==> g.id in GpuMap(gpus)
    ensures |GpuMap(gpus)| <= |gpus|
  {
    if gpus != [] {
      var n := |gpus| - 1;
      assert gpus == gpus[..n] + [gpus[n]];
      GpuMapIds(gpus[..n]);
    }
  }

  lemma {:induction false} NicMapDevs(nics: seq<NIC>)
    ensures forall d :: d in NicMap(nics) ==> NicMap(nics)[d] in nics && NicMap(nics)[d].dev == d
    ensures forall x :: x in nics ==> x.dev in NicMap(nics)
    ensures |NicMap(nics)| <= |nics|
  {
    if nics != [] {
      var n := |nics| - 1;
      assert nics == nics[..n] + [nics[n]];
      NicMapDevs(nics[..n]);
    }
  }

  /** The GPUs and NICs of the node, as BandwidthOptimalPairing indexes them. */
  datatype Known = Known(gpus: map<int, GPU>, nics: map<string, NIC>)

  ghost predicate Indexed(k: Known) {
    && (forall id :: id in k.gpus ==> k.gpus[id].id == id)
    && (forall d :: d in k.nics ==> k.nics[d].dev == d)
  }

  predicate IsKnown(k: Known, e: Entry) {
    e.gpuId in k.gpus && e.nicDev in k.nics
  }

  function PairOf(k: Known, e: Entry): GPUNICPair
    requires IsKnown(k, e)
  {
    GPUNICPair(k.gpus[e.gpuId], k.nics[e.nicDev], 0, e.bw)
  }

  /** The pairs that the entries of known devices stand for. */
  function KnownPairs(k: Known, es: seq<Entry>): seq<GPUNICPair> {
    if es == [] then []
    else (if IsKnown(k, es[0]) then [PairOf(k, es[0])] else []) + KnownPairs(k, es[1..])
  }

  /** Phase 1 without the early exit. */
  function Greedy(k: Known, sorted: seq<Entry>): seq<GPUNICPair> {
    Assign(KnownPairs(k, sorted), 1, [])
  }

  // ---- Phase 1 ----

  lemma GreedyStep(k: Known, sorted: seq<Entry>, i: nat, chosen: seq<GPUNICPair>)
    requires i < |sorted|
    ensures Assign(KnownPairs(k, sorted[i..]), 1, chosen)
         == Assign(KnownPairs(k, sorted[i + 1..]), 1,
                   if IsKnown(k, sorted[i]) then Take(chosen, 1, PairOf(k, sorted[i])) else chosen)
  {
    var rest := KnownPairs(k, sorted[i + 1..]);
    assert sorted[i..][0] == sorted[i] && sorted[i..][1..] == sorted[i + 1..];
    if IsKnown(k, sorted[i]) {
      assert ([PairOf(k, sorted[i])] + rest)[1..] == rest;
    } else {
      assert [] + rest == rest;
    }
  }

  /** When every known GPU or every known NIC is used, nothing more can be taken. */
  lemma {:induction false} NothingLeft(k: Known, es: seq<Entry>, chosen: seq<GPUNICPair>)
    requires Indexed(k)
    requires (forall id :: id in k.gpus ==> HasGpu(chosen, id)) || (forall d :: d in k.nics ==> Load(chosen, d) >= 1)
    ensures Assign(KnownPairs(k, es), 1, chosen) == chosen
  {
    if es != [] {
      assert es[0..] == es;
      GreedyStep(k, es, 0, chosen);
      NothingLeft(k, es[1..], chosen);
    }
  }

  ghost predicate FromKnown(k: Known, pairs: seq<GPUNICPair>) {
    forall i :: 0 <= i < |pairs| ==> pairs[i].gpu.id in k.gpus && pairs[i].nic.dev in k.nics
  }

  /** As many pairs as there are GPUs, or NICs, means that all of them are used. */
  lemma Exhausted(k: Known, chosen: seq<GPUNICPair>)
    requires DistinctGpus(chosen) && (forall d :: Load(chosen, d) <= 1) && FromKnown(k, chosen)
    requires |chosen| >= |k.gpus| || |chosen| >= |k.nics|
    ensures (forall id :: id in k.gpus ==> HasGpu(chosen, id)) || (forall d :: d in k.nics ==> Load(chosen, d) >= 1)
  {
    if |chosen| >= |k.gpus| {
      forall id | id in k.gpus ensures HasGpu(chosen, id) { GpusExhausted(chosen, k.gpus.Keys, id); }
    } else {
      LoadsAtMostOne(chosen);
      NicsExhausted(chosen, k.nics.Keys);
    }
  }

  ghost function NicDevs(pairs: seq<GPUNICPair>): set<string> {
    set i | 0 <= i < |pairs| :: pairs[i].nic.dev
  }

  lemma NicsExhausted(chosen: seq<GPUNICPair>, devs: set<string>)
    requires DistinctNics(chosen) && |chosen| >= |devs|
    requires forall i :: 0 <= i < |chosen| ==> chosen[i].nic.dev in devs
    ensures forall d :: d in devs ==> Load(chosen, d) >= 1
  {
    NicDevsSize(chosen);
    assert NicDevs(chosen) <= devs;
    assert devs == NicDevs(chosen) + (devs - NicDevs(chosen));
    assert |devs| == |NicDevs(chosen)| + |devs - NicDevs(chosen)|;
    forall d | d in devs ensures Load(chosen, d) >= 1 {
      var i :| 0 <= i < |chosen| && chosen[i].nic.dev == d;
      LoadPositive(chosen, d);
    }
  }

  lemma {:induction false} NicDevsSize(pairs: seq<GPUNICPair>)
    requires DistinctNics(pairs)
    ensures |NicDevs(pairs)| == |pairs|
  {
    if pairs != [] {
      var n := |pairs| - 1;
      NicDevsSize(pairs[..n]);
      assert NicDevs(pairs) == NicDevs(pairs[..n]) + {pairs[n].nic.dev} by {
        forall x | x in NicDevs(pairs) ensures x in NicDevs(pairs[..n]) + {pairs[n].nic.dev} {
          var i :| 0 <= i < |pairs| && pairs[i].nic.dev == x;
          if i < n { assert pairs[..n][i].nic.dev == x; }
        }
      }
    }
  }

  /** The bookkeeping of phase 1 after some entries. */
  ghost predicate Progress(k: Known, pairs: seq<GPUNICPair>, assignedGpu: set<int>, assignedNic: set<string>) {
    && DistinctGpus(pairs) && FromKnown(k, pairs)
    && (forall d :: Load(pairs, d) <= 1)
    && (forall id :: id in assignedGpu <==> HasGpu(pairs, id))
    && (forall d :: d in assignedNic <==> Load(pairs, d) >= 1)
  }

  lemma ProgressStep(k: Known, pairs: seq<GPUNICPair>, assignedGpu: set<int>, assignedNic: set<string>, e: Entry)
    requires Indexed(k) && IsKnown(k, e) && Progress(k, pairs, assignedGpu, assignedNic)
    requires e.gpuId !in assignedGpu && e.nicDev !in assignedNic
    ensures Take(pairs, 1, PairOf(k, e)) == pairs + [PairOf(k, e)]
    ensures Progress(k, pairs + [PairOf(k, e)], assignedGpu + {e.gpuId}, assignedNic + {e.nicDev})
  {
    hide Load;
    TakenPair(k, pairs, e);
    assert !HasGpu(pairs, e.gpuId);
    assert forall i :: 0 <= i < |pairs| ==> pairs[i].gpu.id != e.gpuId;
    hide HasGpu;
  }

  /** The phase 1 loop: stopping at `limit` pairs changes nothing. */
  method PhaseOne(k: Known, sorted: seq<Entry>, limit: nat) returns (pairs: seq<GPUNICPair>, assignedGpu: set<int>)
    requires Indexed(k)
    requires |k.gpus| <= limit || |k.nics| <= limit
    ensures pairs == Greedy(k, sorted)
    ensures forall id :: id in assignedGpu <==> HasGpu(pairs, id)
  {
    hide Assign, KnownPairs;
    pairs, assignedGpu := [], {};
    var assignedNic: set<string> := {};
    var i := 0;
    assert sorted[0..] == sorted;
    while i < |sorted|
      invariant 0 <= i <= |sorted|
      invariant Assign(KnownPairs(k, sorted[i..]), 1, pairs) == Greedy(k, sorted)
      invariant Progress(k, pairs, assignedGpu, assignedNic)
    {
      if |pairs| >= limit {
        Exhausted(k, pairs);
        NothingLeft(k, sorted[i..], pairs);
        return;
      }
      hide DistinctGpus, FromKnown, Load, HasGpu;
      var e := sorted[i];
      GreedyStep(k, sorted, i, pairs);
      i := i + 1;
      if e.gpuId in assignedGpu || e.nicDev in assignedNic {
        continue;
      }
      if e.gpuId !in k.gpus || e.nicDev !in k.nics {
        continue;
      }
      ProgressStep(k, pairs, assignedGpu, assignedNic, e);
      pairs := pairs + [PairOf(k, e)];
      assignedGpu := assignedGpu + {e.gpuId};
      assignedNic := assignedNic + {e.nicDev};
    }
    NoneLeft(k, sorted, pairs);
  }

  lemma NoneLeft(k: Known, sorted: seq<Entry>, pairs: seq<GPUNICPair>)
    ensures Assign(KnownPairs(k, sorted[|sorted|..]), 1, pairs) == pairs
  {
  }

  lemma TakenPair(k: Known, pairs: seq<GPUNICPair>, e: Entry)
    requires Indexed(k) && IsKnown(k, e)
    requires !HasGpu(pairs, e.gpuId) && Load(pairs, e.nicDev) == 0
    ensures Take(pairs, 1, PairOf(k, e)) == pairs + [PairOf(k, e)]
    ensures forall id :: HasGpu(pairs + [PairOf(k, e)], id) <==> HasGpu(pairs, id) || id == e.gpuId
    ensures forall d :: Load(pairs + [PairOf(k, e)], d) == Load(pairs, d) + if d == e.nicDev then 1 else 0
  {
    var more := pairs + [PairOf(k, e)];
    forall d ensures Load(more, d) == Load(pairs, d) + if d == e.nicDev then 1 else 0 {
      LoadAppend(pairs, PairOf(k, e), d);
    }
    forall id ensures HasGpu(more, id) <==> HasGpu(pairs, id) || id == e.gpuId {
      HasGpuAppend(pairs, PairOf(k, e), id);
    }
  }

  // ---- How good greedy is ----

  function Total(pairs: seq<GPUNICPair>): real {
    if pairs == [] then 0.0 else Total(pairs[..|pairs| - 1]) + pairs[|pairs| - 1].bw
  }

  lemma TotalAppend(pairs: seq<GPUNICPair>, e: GPUNICPair)
    ensures Total(pairs + [e]) == Total(pairs) + e.bw
  {
    assert (pairs + [e])[..|pairs|] == pairs;
  }

  /** A 1:1 assignment. */
  ghost predicate OneToOne(m: seq<GPUNICPair>) {
    DistinctGpus(m) && DistinctNics(m)
  }

  function Without(m: seq<GPUNICPair>, i: nat): seq<GPUNICPair>
    requires i < |m|
  {
    m[..i] + m[i + 1..]
  }

  lemma {:induction false} TotalWithout(m: seq<GPUNICPair>, i: nat)
    requires i < |m|
    ensures Total(m) == Total(Without(m, i)) + m[i].bw
  {
    var n := |m| - 1;
    if i < n {
      TotalWithout(m[..n], i);
      assert Without(m, i)[..n - 1] == Without(m[..n], i);
      assert Without(m, i)[n - 1] == m[n];
    } else {
      assert Without(m, i) == m[..n];
    }
  }

  lemma WithoutMembers(m: seq<GPUNICPair>, i: nat)
    requires i < |m|
    ensures forall x :: x in Without(m, i) ==> x in m
    ensures DistinctGpus(m) ==> DistinctGpus(Without(m, i))
                                && forall x :: x in Without(m, i) ==> x.gpu.id != m[i].gpu.id
    ensures DistinctNics(m) ==> DistinctNics(Without(m, i))
                                && forall x :: x in Without(m, i) ==> x.nic.dev != m[i].nic.dev
  {
    var w := Without(m, i);
    assert forall j :: 0 <= j < |w| ==> w[j] == m[if j < i then j else j + 1];
  }

  /** Drop whatever uses the GPU of e: at most one pair, worth no more than e. */
  lemma DropGpu(m: seq<GPUNICPair>, e: GPUNICPair) returns (r: seq<GPUNICPair>)
    requires DistinctGpus(m) && e.bw >= 0.0 && forall x :: x in m ==> x.bw <= e.bw
    ensures DistinctGpus(r) && (DistinctNics(m) ==> DistinctNics(r))
    ensures forall x :: x in r ==> x in m && x.gpu.id != e.gpu.id
    ensures Total(m) <= Total(r) + e.bw
  {
    r := m;
    if i :| 0 <= i < |m| && m[i].gpu.id == e.gpu.id {
      TotalWithout(m, i);
      WithoutMembers(m, i);
      r := Without(m, i);
    }
  }

  lemma DropNic(m: seq<GPUNICPair>, e: GPUNICPair) returns (r: seq<GPUNICPair>)
    requires DistinctNics(m) && e.bw >= 0.0 && forall x :: x in m ==> x.bw <= e.bw
    ensures DistinctNics(r) && (DistinctGpus(m) ==> DistinctGpus(r))
    ensures forall x :: x in r ==> x in m && x.nic.dev != e.nic.dev
    ensures Total(m) <= Total(r) + e.bw
  {
    r := m;
    if i :| 0 <= i < |m| && m[i].nic.dev == e.nic.dev {
      TotalWithout(m, i);
      WithoutMembers(m, i);
      r := Without(m, i);
    }
  }

  /** Descending, non-negative bandwidths. */
  ghost predicate Descending(es: seq<GPUNICPair>) {
    && (forall i, j :: 0 <= i < j < |es| ==> es[i].bw >= es[j].bw)
    && (forall i :: 0 <= i < |es| ==> es[i].bw >= 0.0)
  }

  /** m is drawn from the candidates and avoids the devices already used. */
  ghost predicate DrawnFrom(m: seq<GPUNICPair>, es: seq<GPUNICPair>, chosen: seq<GPUNICPair>) {
    forall x :: x in m ==> x in es && Open(chosen, 1, x)
  }

  lemma StillOpen(chosen: seq<GPUNICPair>, e: GPUNICPair, x: GPUNICPair)
    requires Open(chosen, 1, x) && x.gpu.id != e.gpu.id && x.nic.dev != e.nic.dev
    ensures Open(chosen + [e], 1, x)
  {
    LoadAppend(chosen, e, x.nic.dev);
    HasGpuAppend(chosen, e, x.gpu.id);
  }

  lemma HeadIsMaximal(es: seq<GPUNICPair>, m: seq<GPUNICPair>)
    requires Descending(es) && es != [] && forall x :: x in m ==> x in es
    ensures es[0].bw >= 0.0 && forall x :: x in m ==> x.bw <= es[0].bw
  {
    forall x | x in m ensures x.bw <= es[0].bw { var i :| 0 <= i < |es| && es[i] == x; }
  }

  /** Charging: a pair that greedy takes rules out at most two pairs of any other assignment, one for
      its GPU and one for its NIC, and neither is worth more. */
  lemma {:induction false} HalfOptimal(es: seq<GPUNICPair>, chosen: seq<GPUNICPair>, m: seq<GPUNICPair>)
    requires Descending(es) && OneToOne(m) && DrawnFrom(m, es, chosen)
    ensures 2.0 * Total(chosen) + Total(m) <= 2.0 * Total(Assign(es, 1, chosen))
  {
    assert |m| > 0 ==> m[0] in m;
    if es != [] {
      var e := es[0];
      assert Descending(es[1..]);
      if Open(chosen, 1, e) {
        HeadIsMaximal(es, m);
        var r := DropGpu(m, e);
        var r' := DropNic(r, e);
        forall x | x in r' ensures x in es[1..] && Open(chosen + [e], 1, x) {
          StillOpen(chosen, e, x);
          var i :| 0 <= i < |es| && es[i] == x;
        }
        HalfOptimal(es[1..], chosen + [e], r');
        TotalAppend(chosen, e);
      } else {
        forall x | x in m ensures x in es[1..] { var i :| 0 <= i < |es| && es[i] == x; }
        HalfOptimal(es[1..], chosen, m);
      }
    }
  }

  // ---- When greedy is optimal ----

  /** The free GPU with this id measured its strictly highest bandwidth on the NIC best[id]. */
  ghost predicate HasBest(es: seq<GPUNICPair>, best: map<int, string>, id: int) {
    && id in best
    && exists b :: b in es && b.gpu.id == id && b.nic.dev == best[id]
         && forall e :: e in es && e.gpu.id == id && e.nic.dev != best[id] ==> e.bw < b.bw
  }

  /** Every free GPU that has candidates has a strictly best NIC, free and its own. */
  ghost predicate Dominant(es: seq<GPUNICPair>, best: map<int, string>, chosen: seq<GPUNICPair>) {
    && (forall i, j :: i in best && j in best && i != j ==> best[i] != best[j])
    && (forall e :: e in es && !HasGpu(chosen, e.gpu.id) ==>
          HasBest(es, best, e.gpu.id) && Load(chosen, best[e.gpu.id]) == 0)
  }

  /** The candidate at the head of the list is its GPU's best. */
  lemma HeadIsBest(es: seq<GPUNICPair>, best: map<int, string>, chosen: seq<GPUNICPair>)
    requires Descending(es) && Dominant(es, best, chosen) && es != [] && !HasGpu(chosen, es[0].gpu.id)
    ensures es[0].gpu.id in best && es[0].nic.dev == best[es[0].gpu.id] && Open(chosen, 1, es[0])
  {
    assert es[0] in es;
    var b :| b in es && b.gpu.id == es[0].gpu.id && b.nic.dev == best[es[0].gpu.id]
             && forall e :: e in es && e.gpu.id == es[0].gpu.id && e.nic.dev != best[es[0].gpu.id] ==> e.bw < b.bw;
    var i :| 0 <= i < |es| && es[i] == b;
    assert b.bw <= es[0].bw;
  }

  lemma DominantTail(es: seq<GPUNICPair>, best: map<int, string>, chosen: seq<GPUNICPair>)
    requires Descending(es) && Dominant(es, best, chosen) && es != []
    ensures Dominant(es[1..], best, Take(chosen, 1, es[0]))
  {
    var e0, next := es[0], Take(chosen, 1, es[0]);
    assert forall x :: x in es[1..] ==> x in es;
    if !HasGpu(chosen, e0.gpu.id) { HeadIsBest(es, best, chosen); }
    forall e | e in es[1..] && !HasGpu(next, e.gpu.id)
      ensures HasBest(es[1..], best, e.gpu.id) && Load(next, best[e.gpu.id]) == 0
    {
      HasGpuAppend(chosen, e0, e.gpu.id);
      BestInTail(es, best, e.gpu.id);
      if Open(chosen, 1, e0) { LoadAppend(chosen, e0, best[e.gpu.id]); }
    }
  }

  lemma BestInTail(es: seq<GPUNICPair>, best: map<int, string>, id: int)
    requires es != [] && HasBest(es, best, id) && id != es[0].gpu.id
    ensures HasBest(es[1..], best, id)
  {
    var b :| b in es && b.gpu.id == id && b.nic.dev == best[id]
             && forall e :: e in es && e.gpu.id == id && e.nic.dev != best[id] ==> e.bw < b.bw;
    var i :| 0 <= i < |es| && es[i] == b;
    assert b == es[1..][i - 1];
    assert forall e :: e in es[1..] ==> e in es;
  }

  /** With a strictly best NIC of its own for every GPU, no assignment at all that gives each GPU at
      most one NIC beats greedy, even if it may share NICs. */
  lemma {:induction false} OptimalIfDominant(es: seq<GPUNICPair>, best: map<int, string>, chosen: seq<GPUNICPair>,
                                             m: seq<GPUNICPair>)
    requires Descending(es) && Dominant(es, best, chosen)
    requires DistinctGpus(m) && forall x :: x in m ==> x in es && !HasGpu(chosen, x.gpu.id)
    ensures Total(chosen) + Total(m) <= Total(Assign(es, 1, chosen))
  {
    assert |m| > 0 ==> m[0] in m;
    if es != [] {
      var e, tail := es[0], es[1..];
      assert Descending(tail);
      assert es == [e] + tail;
      DominantTail(es, best, chosen);
      if HasGpu(chosen, e.gpu.id) {
        assert forall x :: x in m ==> x in tail;
        OptimalIfDominant(tail, best, chosen, m);
      } else {
        HeadIsBest(es, best, chosen);
        HeadIsMaximal(es, m);
        var r := DropGpu(m, e);
        forall x | x in r ensures x in tail && !HasGpu(chosen + [e], x.gpu.id) {
          HasGpuAppend(chosen, e, x.gpu.id);
        }
        hide Dominant, Descending, Open;
        OptimalIfDominant(tail, best, chosen + [e], r);
        TotalAppend(chosen, e);
      }
    }
  }

  // ---- The same about the measured entries ----

  ghost predicate SortedEntries(sorted: seq<Entry>, entries: seq<Entry>) {
    Sorted(sorted, EntryLeq) && multiset(sorted) == multiset(entries)
  }

  ghost predicate NonNegative(es: seq<Entry>) {
    forall e :: e in es ==> e.bw >= 0.0
  }

  /** x stands for a measured entry of known devices. */
  ghost predicate Measured(k: Known, es: seq<Entry>, x: GPUNICPair) {
    exists e :: e in es && IsKnown(k, e) && x == PairOf(k, e)
  }

  lemma {:induction false} KnownPairsMembers(k: Known, es: seq<Entry>)
    ensures forall x :: x in KnownPairs(k, es) <==> Measured(k, es, x)
  {
    if es != [] {
      KnownPairsMembers(k, es[1..]);
      forall x ensures x in KnownPairs(k, es) <==> Measured(k, es, x) {
        assert x in KnownPairs(k, es) <==> (IsKnown(k, es[0]) && x == PairOf(k, es[0])) || Measured(k, es[1..], x);
        assert es == [es[0]] + es[1..];
      }
    }
  }

  lemma {:induction false} KnownPairsDescending(k: Known, es: seq<Entry>)
    requires Sorted(es, EntryLeq) && NonNegative(es)
    ensures Descending(KnownPairs(k, es))
  {
    if es != [] {
      var e, rest := es[0], KnownPairs(k, es[1..]);
      assert es == [e] + es[1..];
      KnownPairsDescending(k, es[1..]);
      KnownPairsMembers(k, es[1..]);
      forall j | 0 <= j < |rest| ensures rest[j].bw <= e.bw {
        TailIsSmaller(k, es, rest[j]);
      }
    }
  }

  lemma TailIsSmaller(k: Known, es: seq<Entry>, x: GPUNICPair)
    requires Sorted(es, EntryLeq) && es != [] && Measured(k, es[1..], x)
    ensures x.bw <= es[0].bw
  {
    var e :| e in es[1..] && IsKnown(k, e) && x == PairOf(k, e);
    var i :| 1 <= i < |es| && es[i] == e;
    assert EntryLeq(es[0], es[i]);
  }

  lemma SortedFacts(k: Known, entries: seq<Entry>, sorted: seq<Entry>)
    requires SortedEntries(sorted, entries) && NonNegative(entries)
    ensures Descending(KnownPairs(k, sorted))
    ensures forall x :: x in KnownPairs(k, sorted) <==> Measured(k, entries, x)
  {
    SameElements(sorted, entries);
    KnownPairsDescending(k, sorted);
    KnownPairsMembers(k, sorted);
    forall x ensures Measured(k, sorted, x) <==> Measured(k, entries, x) {}
  }

  /** No 1:1 assignment of measured pairs has more than twice the bandwidth of phase 1. */
  lemma GreedyIsHalfOptimal(k: Known, entries: seq<Entry>, sorted: seq<Entry>, m: seq<GPUNICPair>)
    requires SortedEntries(sorted, entries) && NonNegative(entries)
    requires OneToOne(m) && forall x :: x in m ==> Measured(k, entries, x)
    ensures Total(m) <= 2.0 * Total(Greedy(k, sorted))
  {
    SortedFacts(k, entries, sorted);
    hide KnownPairs, Assign, Measured;
    HalfOptimal(KnownPairs(k, sorted), [], m);
  }

  /** The GPU measured its strictly highest bandwidth on this NIC. */
  ghost predicate BestNic(k: Known, entries: seq<Entry>, id: int, dev: string) {
    exists b :: Measured(k, entries, b) && b.gpu.id == id && b.nic.dev == dev
      && forall y :: Measured(k, entries, y) && y.gpu.id == id && y.nic.dev != dev ==> y.bw < b.bw
  }

  /** Every known GPU with measurements has one strictly best NIC, and no two share it. */
  ghost predicate OwnBestNics(k: Known, entries: seq<Entry>, best: map<int, string>) {
    && (forall i, j :: i in best && j in best && i != j ==> best[i] != best[j])
    && (forall x :: Measured(k, entries, x) ==> x.gpu.id in best && BestNic(k, entries, x.gpu.id, best[x.gpu.id]))
  }

  lemma OwnBest(k: Known, entries: seq<Entry>, es: seq<GPUNICPair>, best: map<int, string>, id: int)
    requires forall x :: x in es <==> Measured(k, entries, x)
    requires id in best && BestNic(k, entries, id, best[id])
    ensures HasBest(es, best, id)
  {
    hide Measured;
    var b :| Measured(k, entries, b) && b.gpu.id == id && b.nic.dev == best[id]
             && forall y :: Measured(k, entries, y) && y.gpu.id == id && y.nic.dev != best[id] ==> y.bw < b.bw;
    assert b in es;
  }

  lemma OwnBestNicsDominate(k: Known, entries: seq<Entry>, es: seq<GPUNICPair>, best: map<int, string>)
    requires (forall x :: x in es <==> Measured(k, entries, x)) && OwnBestNics(k, entries, best)
    ensures Dominant(es, best, [])
  {
    hide Measured, HasBest, BestNic;
    forall e | e in es ensures e.gpu.id in best && HasBest(es, best, e.gpu.id) {
      OwnBest(k, entries, es, best, e.gpu.id);
    }
  }

  /** What phase 1 returns is itself a 1:1 assignment of measured pairs. */
  lemma GreedyIsOneToOne(k: Known, entries: seq<Entry>, sorted: seq<Entry>)
    requires SortedEntries(sorted, entries) && NonNegative(entries)
    ensures OneToOne(Greedy(k, sorted)) && forall x :: x in Greedy(k, sorted) ==> Measured(k, entries, x)
  {
    SortedFacts(k, entries, sorted);
    hide KnownPairs, Measured, Assign;
    AssignKeeps(KnownPairs(k, sorted), 1, []);
    LoadsAtMostOne(Greedy(k, sorted));
  }

  /** In the common diagonal case no 1:1 assignment of measured pairs beats phase 1. */
  lemma GreedyIsOptimalForOwnBestNics(k: Known, entries: seq<Entry>, sorted: seq<Entry>, best: map<int, string>,
                                      m: seq<GPUNICPair>)
    requires SortedEntries(sorted, entries) && NonNegative(entries) && OwnBestNics(k, entries, best)
    requires OneToOne(m) && forall x :: x in m ==> Measured(k, entries, x)
    ensures Total(m) <= Total(Greedy(k, sorted))
  {
    SortedFacts(k, entries, sorted);
    hide KnownPairs, Measured, Assign, Dominant, OwnBestNics, SortedEntries, Descending;
    OwnBestNicsDominate(k, entries, KnownPairs(k, sorted), best);
    OptimalIfDominant(KnownPairs(k, sorted), best, [], m);
  }

  lemma TwoPairs(q: GPUNICPair, r: GPUNICPair)
    ensures Total([q, r]) == q.bw + r.bw && Total([q]) == q.bw
  {
    TotalAppend([], q);
    TotalAppend([q], r);
    assert [] + [q] == [q] && [q] + [r] == [q, r];
  }

  /** After a pair is taken, its GPU and its NIC are closed. */
  lemma ClosedByTaken(p: GPUNICPair, e: GPUNICPair)
    requires e.gpu.id == p.gpu.id || e.nic.dev == p.nic.dev
    ensures !Open([p], 1, e) && Open([], 1, p)
  {
    assert [] + [p] == [p];
    HasGpuAppend([], p, e.gpu.id);
    LoadAppend([], p, e.nic.dev);
  }

  function TopEntries(top: real, low: real): seq<Entry> {
    [Entry(0, "a", top), Entry(0, "b", low), Entry(1, "a", low)]
  }

  /** In general phase 1 does not maximise the total: it takes top where low + low was possible. */
  lemma GreedyIsNotAlwaysOptimal(g0: GPU, g1: GPU, a: NIC, b: NIC, top: real, low: real)
    requires g0.id == 0 && g1.id == 1 && a.dev == "a" && b.dev == "b" && top > low
    ensures var k := Known(map[0 := g0, 1 := g1], map["a" := a, "b" := b]);
            var sorted := TopEntries(top, low);
            var m := [PairOf(k, sorted[1]), PairOf(k, sorted[2])];
            Sorted(sorted, EntryLeq) && OneToOne(m) && Total(m) == low + low
            && Greedy(k, sorted) == [PairOf(k, sorted[0])] && Total(Greedy(k, sorted)) == top
  {
    var k := Known(map[0 := g0, 1 := g1], map["a" := a, "b" := b]);
    var sorted := TopEntries(top, low);
    var p, q, r := PairOf(k, sorted[0]), PairOf(k, sorted[1]), PairOf(k, sorted[2]);
    TwoPairs(q, r);
    TwoPairs(p, p);
    ClosedByTaken(p, q);
    ClosedByTaken(p, r);
    hide Open, Total;
    GreedyStep(k, sorted, 0, []);
    GreedyStep(k, sorted, 1, [p]);
    GreedyStep(k, sorted, 2, [p]);
    assert sorted[0..] == sorted && sorted[3..] == [];
  }

  /** So the factor 2 of GreedyIsHalfOptimal cannot be improved. */
  lemma FactorTwoIsTight(g0: GPU, g1: GPU, a: NIC, b: NIC, factor: real) returns (entries: seq<Entry>, m: seq<GPUNICPair>)
    requires g0.id == 0 && g1.id == 1 && a.dev == "a" && b.dev == "b" && 0.0 <= factor < 2.0
    ensures var k := Known(map[0 := g0, 1 := g1], map["a" := a, "b" := b]);
            && SortedEntries(entries, entries) && NonNegative(entries)
            && OneToOne(m) && (forall x :: x in m ==> Measured(k, entries, x))
            && Total(m) > factor * Total(Greedy(k, entries))
  {
    var k := Known(map[0 := g0, 1 := g1], map["a" := a, "b" := b]);
    var more := (2.0 - factor) / 4.0;
    entries := TopEntries(1.0 + more, 1.0);
    m := [PairOf(k, entries[1]), PairOf(k, entries[2])];
    GreedyIsNotAlwaysOptimal(g0, g1, a, b, 1.0 + more, 1.0);
    SlightlyMore(factor, more);
    assert factor * (1.0 + more) == Times(factor, 1.0 + more);
    hide Total, Greedy, Times;
    assert entries[1] in entries && entries[2] in entries;
    assert IsKnown(k, entries[1]) && IsKnown(k, entries[2]);
  }

  function Times(a: real, b: real): real { a * b }

  lemma SlightlyMore(factor: real, more: real)
    requires more > 0.0 && factor == 2.0 - 4.0 * more
    ensures Times(factor, 1.0 + more) < 2.0
  {
    hide Times;
    Distributes(factor, more);
    Scaled(factor, more);
  }

  lemma Distributes(factor: real, more: real)
    ensures Times(factor, 1.0 + more) == factor + Times(factor, more)
  {
  }

  lemma Scaled(factor: real, more: real)
    requires factor < 2.0 && more > 0.0
    ensures Times(factor, more) < more + more
  {
    assert (2.0 - factor) * more > 0.0;
  }
}
