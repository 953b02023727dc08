/** Lists of pairs in GPU order, the form in which every pairing strategy returns its result. */
module PairOrder {
  import opened Cluster
  import opened Ordering
  import opened Matching

  /** The final sort of the strategies. */
  predicate ByGpu(a: GPUNICPair, b: GPUNICPair) { a.gpu.id <= b.gpu.id }

  ghost predicate UniqueGpus(gpus: seq<GPU>) {
    forall i, j :: 0 <= i < j < |gpus| ==> gpus[i].id != gpus[j].id
  }

  ghost predicate UniqueNics(nics: seq<NIC>) {
    forall i, j :: 0 <= i < j < |nics| ==> nics[i].dev != nics[j].dev
  }

  /** A node with GPUs and NICs. */
  ghost predicate Node(gpus: seq<GPU>, nics: seq<NIC>) {
    gpus != [] && nics != [] && UniqueGpus(gpus) && UniqueNics(nics)
  }

  lemma PermutedGpus(a: seq<GPUNICPair>, b: seq<GPUNICPair>)
    requires DistinctGpus(a) && multiset(a) == multiset(b)
    ensures DistinctGpus(b)
  {
    PermutationDistinct(a, b);
    SameElements(a, b);
    forall i, j | 0 <= i < j < |b| ensures b[i].gpu.id != b[j].gpu.id {
      assert b[i] in a && b[j] in a && b[i] != b[j];
    }
  }

  lemma PermutedNics(a: seq<GPUNICPair>, b: seq<GPUNICPair>)
    requires DistinctNics(a) && multiset(a) == multiset(b)
    ensures DistinctNics(b)
  {
    PermutationDistinct(a, b);
    SameElements(a, b);
    forall i, j | 0 <= i < j < |b| ensures b[i].nic.dev != b[j].nic.dev {
      assert b[i] in a && b[j] in a && b[i] != b[j];
    }
  }

  /** The GPU IDs ascend. */
  ghost predicate Ascending(pairs: seq<GPUNICPair>) {
    forall i, j :: 0 <= i < j < |pairs| ==> pairs[i].gpu.id < pairs[j].gpu.id
  }

  /** Sorting distinct GPUs leaves no choice. */
  lemma StrictlyByGpu(pairs: seq<GPUNICPair>)
    requires DistinctGpus(pairs) && Sorted(pairs, ByGpu)
    ensures StrictlySorted(pairs, ByGpu) && Ascending(pairs)
  {
    forall i, j | 0 <= i < j < |pairs| ensures !ByGpu(pairs[j], pairs[i]) { assert ByGpu(pairs[i], pairs[j]); }
    forall i, j | 0 <= i < j < |pairs| ensures pairs[i].gpu.id < pairs[j].gpu.id { assert ByGpu(pairs[i], pairs[j]); }
  }

  lemma StrictIds(pairs: seq<GPUNICPair>)
    requires Ascending(pairs)
    ensures DistinctGpus(pairs) && StrictlySorted(pairs, ByGpu)
  {
  }

  /** The sorted list of pairs of distinct GPUs depends only on which pairs there are. */
  lemma SortedPairsUnique(a: seq<GPUNICPair>, b: seq<GPUNICPair>)
    requires DistinctGpus(a) && DistinctGpus(b) && Sorted(a, ByGpu) && Sorted(b, ByGpu)
    requires forall p :: p in a <==> p in b
    ensures a == b
  {
    StrictlyByGpu(a);
    StrictlyByGpu(b);
    StrictlySortedUnique(a, b, ByGpu);
  }

  lemma {:induction false} GpuSetSize(gpus: seq<GPU>)
    requires UniqueGpus(gpus)
    ensures |set i | 0 <= i < |gpus| :: gpus[i].id| == |gpus|
  {
    var ids := set i | 0 <= i < |gpus| :: gpus[i].id;
    if gpus != [] {
      var n := |gpus| - 1;
      GpuSetSize(gpus[..n]);
      var before := set i | 0 <= i < n :: gpus[..n][i].id;
      assert before == set i | 0 <= i < |gpus[..n]| :: gpus[..n][i].id;
      assert ids == before + {gpus[n].id} by {
        forall x | x in ids ensures x in before + {gpus[n].id} {
          var i :| 0 <= i < |gpus| && gpus[i].id == x;
          if i < n { assert gpus[..n][i].id == x; }
        }
      }
    }
  }

  ghost predicate Covers(gpus: seq<GPU>, pairs: seq<GPUNICPair>) {
    forall g :: g in gpus ==> HasGpu(pairs, g.id)
  }

  ghost predicate GpusOf(gpus: seq<GPU>, pairs: seq<GPUNICPair>) {
    forall i :: 0 <= i < |pairs| ==> pairs[i].gpu in gpus
  }

  lemma CoveringCount(gpus: seq<GPU>, pairs: seq<GPUNICPair>)
    requires UniqueGpus(gpus) && DistinctGpus(pairs) && GpusOf(gpus, pairs) && Covers(gpus, pairs)
    ensures |pairs| == |gpus|
  {
    GpuSetSize(gpus);
    GpuIdsSize(pairs);
    var ids := set i | 0 <= i < |gpus| :: gpus[i].id;
    assert GpuIds(pairs) <= ids;
    forall id | id in ids ensures id in GpuIds(pairs) {
      var i :| 0 <= i < |gpus| && gpus[i].id == id;
      assert gpus[i] in gpus;
      var j :| 0 <= j < |pairs| && pairs[j].gpu.id == id;
    }
    assert GpuIds(pairs) == ids;
  }

  /** One pair per GPU of the node, in GPU order. */
  ghost predicate EachGpuOnce(gpus: seq<GPU>, pairs: seq<GPUNICPair>) {
    && Ascending(pairs)
    && |pairs| == |gpus|
    && (forall i :: 0 <= i < |pairs| ==> pairs[i].gpu in gpus)
    && (forall g :: g in gpus ==> exists i :: 0 <= i < |pairs| && pairs[i].gpu == g)
  }

  lemma SameId(gpus: seq<GPU>, a: GPU, b: GPU)
    requires UniqueGpus(gpus) && a in gpus && b in gpus && a.id == b.id
    ensures a == b
  {
    var i :| 0 <= i < |gpus| && gpus[i] == a;
    var j :| 0 <= j < |gpus| && gpus[j] == b;
  }

  lemma SameDev(nics: seq<NIC>, a: NIC, b: NIC)
    requires UniqueNics(nics) && a in nics && b in nics && a.dev == b.dev
    ensures a == b
  {
    var i :| 0 <= i < |nics| && nics[i] == a;
    var j :| 0 <= j < |nics| && nics[j] == b;
  }

  lemma SortedCover(gpus: seq<GPU>, all: seq<GPUNICPair>, pairs: seq<GPUNICPair>)
    requires UniqueGpus(gpus) && DistinctGpus(all) && GpusOf(gpus, all) && Covers(gpus, all)
    requires Sorted(pairs, ByGpu) && multiset(pairs) == multiset(all)
    ensures EachGpuOnce(gpus, pairs)
  {
    CoveringCount(gpus, all);
    PermutedGpus(all, pairs);
    StrictlyByGpu(pairs);
    SameElements(pairs, all);
    forall i | 0 <= i < |pairs| ensures pairs[i].gpu in gpus { assert pairs[i] in all; }
    forall g | g in gpus ensures exists i :: 0 <= i < |pairs| && pairs[i].gpu == g {
      assert HasGpu(all, g.id);
      var j :| 0 <= j < |all| && all[j].gpu.id == g.id;
      SameId(gpus, all[j].gpu, g);
      assert all[j] in pairs;
    }
  }

  // ---- Devices that a list of pairs leaves over ----

  function Unpaired(gpus: seq<GPU>, first: seq<GPUNICPair>): (r: seq<GPU>)
    ensures forall g :: g in r <==> g in gpus && !HasGpu(first, g.id)
  {
    if gpus == [] then []
    else
      assert gpus == gpus[..|gpus| - 1] + [gpus[|gpus| - 1]];
      Unpaired(gpus[..|gpus| - 1], first) + if HasGpu(first, gpus[|gpus| - 1].id) then [] else [gpus[|gpus| - 1]]
  }

  lemma {:induction false} UnpairedUnique(gpus: seq<GPU>, first: seq<GPUNICPair>)
    requires UniqueGpus(gpus)
    ensures UniqueGpus(Unpaired(gpus, first))
  {
    if gpus != [] {
      var n := |gpus| - 1;
      UnpairedUnique(gpus[..n], first);
      var r := Unpaired(gpus[..n], first);
      forall i | 0 <= i < |r| ensures r[i].id != gpus[n].id {
        assert r[i] in gpus[..n];
      }
    }
  }

  function Unused(nics: seq<NIC>, pairs: seq<GPUNICPair>): (r: seq<NIC>)
    ensures forall n :: n in r <==> n in nics && Load(pairs, n.dev) == 0
  {
    if nics == [] then []
    else
      assert nics == nics[..|nics| - 1] + [nics[|nics| - 1]];
      Unused(nics[..|nics| - 1], pairs) + if Load(pairs, nics[|nics| - 1].dev) > 0 then [] else [nics[|nics| - 1]]
  }

  lemma {:induction false} UnusedUnique(nics: seq<NIC>, pairs: seq<GPUNICPair>)
    requires UniqueNics(nics)
    ensures UniqueNics(Unused(nics, pairs))
  {
    if nics != [] {
      var n := |nics| - 1;
      UnusedUnique(nics[..n], pairs);
      var r := Unused(nics[..n], pairs);
      forall i | 0 <= i < |r| ensures r[i].dev != nics[n].dev {
        assert r[i] in nics[..n];
      }
    }
  }

  // ---- Two phases cover the node ----

  lemma CoverTogether(gpus: seq<GPU>, first: seq<GPUNICPair>, second: seq<GPUNICPair>, leftover: seq<GPU>)
    requires UniqueGpus(gpus) && DistinctGpus(first) && UniqueGpus(leftover)
    requires forall g :: g in leftover <==> g in gpus && !HasGpu(first, g.id)
    requires |second| == |leftover| && forall i :: 0 <= i < |second| ==> second[i].gpu == leftover[i]
    ensures DistinctGpus(first + second)
    ensures Covers(gpus, first + second)
  {
    forall i | 0 <= i < |second| ensures !HasGpu(first, second[i].gpu.id) {
      assert leftover[i] in leftover;
    }
    forall g | g in gpus ensures HasGpu(first + second, g.id) {
      if HasGpu(first, g.id) {
        HasGpuMore(first, first + second, g.id);
      } else {
        assert g in leftover;
        var i :| 0 <= i < |leftover| && leftover[i] == g;
        assert (first + second)[|first| + i].gpu == g;
      }
    }
  }

  lemma FullFirstCovers(gpus: seq<GPU>, first: seq<GPUNICPair>)
    requires UniqueGpus(gpus) && DistinctGpus(first) && GpusOf(gpus, first) && |first| >= |gpus|
    ensures Covers(gpus, first)
  {
    GpuSetSize(gpus);
    var ids := set i | 0 <= i < |gpus| :: gpus[i].id;
    forall g | g in gpus ensures HasGpu(first, g.id) {
      GpusExhausted(first, ids, g.id);
    }
  }

  // ---- Devices in order ----

  predicate GpuLeq(a: GPU, b: GPU) { a.id <= b.id }

  predicate NicLeq(a: NIC, b: NIC) { StrLeq(a.dev, b.dev) }

  lemma NicLeqTotalPreorder()
    ensures TotalPreorder(NicLeq)
  {
    StrLeqTotalPreorder();
  }

  lemma GpusStrictlySorted(gs: seq<GPU>)
    requires UniqueGpus(gs) && Sorted(gs, GpuLeq)
    ensures StrictlySorted(gs, GpuLeq)
  {
    forall i, j | 0 <= i < j < |gs| ensures !GpuLeq(gs[j], gs[i]) { assert GpuLeq(gs[i], gs[j]); }
  }

  lemma NicsStrictlySorted(ns: seq<NIC>)
    requires UniqueNics(ns) && Sorted(ns, NicLeq)
    ensures StrictlySorted(ns, NicLeq)
  {
    forall i, j | 0 <= i < j < |ns| ensures !NicLeq(ns[j], ns[i]) {
      assert NicLeq(ns[i], ns[j]);
      StrLessTrichotomy(ns[i].dev, ns[j].dev);
    }
  }

  lemma PermutedGpuList(gpus: seq<GPU>, r: seq<GPU>)
    requires UniqueGpus(gpus) && multiset(r) == multiset(gpus)
    ensures UniqueGpus(r)
  {
    PermutationDistinct(gpus, r);
    SameElements(r, gpus);
    forall i, j | 0 <= i < j < |r| ensures r[i].id != r[j].id { assert r[i] in gpus && r[j] in gpus && r[i] != r[j]; }
  }

  lemma PermutedNicList(nics: seq<NIC>, r: seq<NIC>)
    requires UniqueNics(nics) && multiset(r) == multiset(nics)
    ensures UniqueNics(r)
  {
    PermutationDistinct(nics, r);
    SameElements(r, nics);
    forall i, j | 0 <= i < j < |r| ensures r[i].dev != r[j].dev { assert r[i] in nics && r[j] in nics && r[i] != r[j]; }
  }

  lemma SameGpuCount(a: seq<GPU>, b: seq<GPU>)
    requires UniqueGpus(a) && UniqueGpus(b) && forall g :: g in a <==> g in b
    ensures |a| == |b|
  {
    SameMembersSameSize(a, b);
  }

  lemma SameNicCount(a: seq<NIC>, b: seq<NIC>)
    requires UniqueNics(a) && UniqueNics(b) && forall n :: n in a <==> n in b
    ensures |a| == |b|
  {
    SameMembersSameSize(a, b);
  }
}
