/** What the pairing strategies of topology.go share: NUMA groups and sorted candidate pairs. */
module Topology {
  import opened Cluster
  import opened Ordering
  import opened Matching
  import opened PairOrder
  import opened Pcie

  const CROSS_NUMA_PENALTY: nat := 100
  const UNKNOWN_PATH_PENALTY: nat := 50

  /** The PCIe distance, or the penalty when a path is unknown. */
  function DeviceDistance(g: GPU, n: NIC): nat {
    if |g.path| >= 2 && |n.path| >= 2 then Distance(g.path, n.path) else UNKNOWN_PATH_PENALTY
  }

  function MakePair(g: GPU, n: NIC, hops: nat): GPUNICPair {
    GPUNICPair(g, n, hops, 0.0)
  }

  function Candidate(g: GPU, n: NIC): GPUNICPair {
    MakePair(g, n, DeviceDistance(g, n))
  }

  /** The order of the candidates: distance, then GPU ID, then device name. */
  predicate CandidateLeq(a: GPUNICPair, b: GPUNICPair) {
    if a.hops != b.hops then a.hops < b.hops
    else if a.gpu.id != b.gpu.id then a.gpu.id < b.gpu.id
    else StrLeq(a.nic.dev, b.nic.dev)
  }

  lemma CandidateLeqTotalPreorder()
    ensures TotalPreorder(CandidateLeq)
  {
    StrLeqTotalPreorder();
  }

  // ---- NUMA groups ----

  function GpusOn(gpus: seq<GPU>, numa: int): (r: seq<GPU>)
    ensures forall g :: g in r <==> g in gpus && g.numa == numa
  {
    if gpus == [] then []
    else
      assert gpus == gpus[..|gpus| - 1] + [gpus[|gpus| - 1]];
      GpusOn(gpus[..|gpus| - 1], numa) + if gpus[|gpus| - 1].numa == numa then [gpus[|gpus| - 1]] else []
  }

  function NicsOn(nics: seq<NIC>, numa: int): (r: seq<NIC>)
    ensures forall n :: n in r <==> n in nics && n.numa == numa
  {
    if nics == [] then []
    else
      assert nics == nics[..|nics| - 1] + [nics[|nics| - 1]];
      NicsOn(nics[..|nics| - 1], numa) + if nics[|nics| - 1].numa == numa then [nics[|nics| - 1]] else []
  }

  lemma {:induction false} GpusOnUnique(gpus: seq<GPU>, numa: int)
    requires UniqueGpus(gpus)
    ensures UniqueGpus(GpusOn(gpus, numa))
  {
    if gpus != [] {
      var n := |gpus| - 1;
      GpusOnUnique(gpus[..n], numa);
      var r := GpusOn(gpus[..n], numa);
      forall i | 0 <= i < |r| ensures r[i].id != gpus[n].id { assert r[i] in gpus[..n]; }
    }
  }

  lemma {:induction false} NicsOnUnique(nics: seq<NIC>, numa: int)
    requires UniqueNics(nics)
    ensures UniqueNics(NicsOn(nics, numa))
  {
    if nics != [] {
      var n := |nics| - 1;
      NicsOnUnique(nics[..n], numa);
      var r := NicsOn(nics[..n], numa);
      forall i | 0 <= i < |r| ensures r[i].dev != nics[n].dev { assert r[i] in nics[..n]; }
    }
  }

  method GroupGpusByNuma(gpus: seq<GPU>) returns (m: map<int, seq<GPU>>)
    ensures forall numa :: (if numa in m then m[numa] else []) == GpusOn(gpus, numa)
  {
    m := map[];
    for i := 0 to |gpus|
      invariant forall numa :: (if numa in m then m[numa] else []) == GpusOn(gpus[..i], numa)
    {
      var numa := gpus[i].numa;
      assert gpus[..i + 1][..i] == gpus[..i];
      m := m[numa := (if numa in m then m[numa] else []) + [gpus[i]]];
    }
    assert gpus[..|gpus|] == gpus;
  }

  method GroupNicsByNuma(nics: seq<NIC>) returns (m: map<int, seq<NIC>>)
    ensures forall numa :: (if numa in m then m[numa] else []) == NicsOn(nics, numa)
  {
    m := map[];
    for i := 0 to |nics|
      invariant forall numa :: (if numa in m then m[numa] else []) == NicsOn(nics[..i], numa)
    {
      var numa := nics[i].numa;
      assert nics[..i + 1][..i] == nics[..i];
      m := m[numa := (if numa in m then m[numa] else []) + [nics[i]]];
    }
    assert nics[..|nics|] == nics;
  }

  /** A group in the order of sortGPUsByID. */
  function GpusInOrder(gpus: seq<GPU>, numa: int): (r: seq<GPU>)
    ensures Sorted(r, GpuLeq) && multiset(r) == multiset(GpusOn(gpus, numa))
  {
    ArrangedSorted(GpusOn(gpus, numa), GpuLeq);
    Arranged(GpusOn(gpus, numa), GpuLeq)
  }

  /** A group in the order of sortNICsByDev. */
  function NicsInOrder(nics: seq<NIC>, numa: int): (r: seq<NIC>)
    ensures Sorted(r, NicLeq) && multiset(r) == multiset(NicsOn(nics, numa))
  {
    NicLeqTotalPreorder();
    ArrangedSorted(NicsOn(nics, numa), NicLeq);
    Arranged(NicsOn(nics, numa), NicLeq)
  }

  /** A list of distinct GPUs can be sorted in one way only, wherever it starts from. */
  lemma SortedGpusUnique(a: seq<GPU>, b: seq<GPU>)
    requires UniqueGpus(a) && UniqueGpus(b) && Sorted(a, GpuLeq) && Sorted(b, GpuLeq)
    requires forall g :: g in a <==> g in b
    ensures a == b
  {
    GpusStrictlySorted(a);
    GpusStrictlySorted(b);
    StrictlySortedUnique(a, b, GpuLeq);
  }

  lemma SortedNicsUnique(a: seq<NIC>, b: seq<NIC>)
    requires UniqueNics(a) && UniqueNics(b) && Sorted(a, NicLeq) && Sorted(b, NicLeq)
    requires forall n :: n in a <==> n in b
    ensures a == b
  {
    NicLeqTotalPreorder();
    NicsStrictlySorted(a);
    NicsStrictlySorted(b);
    StrictlySortedUnique(a, b, NicLeq);
  }

  // ---- Candidate lists ----

  function Row(g: GPU, nics: seq<NIC>): (r: seq<GPUNICPair>)
    ensures |r| == |nics| && forall i :: 0 <= i < |r| ==> r[i] == Candidate(g, nics[i])
  {
    if nics == [] then [] else Row(g, nics[..|nics| - 1]) + [Candidate(g, nics[|nics| - 1])]
  }

  /** Every GPU with every NIC, in the order of the nested loops. */
  function AllCandidates(gpus: seq<GPU>, nics: seq<NIC>): (r: seq<GPUNICPair>)
    ensures forall p :: p in r <==> IsCandidate(p, gpus, nics)
  {
    if gpus == [] then []
    else
      var n := |gpus| - 1;
      assert gpus == gpus[..n] + [gpus[n]];
      AllCandidates(gpus[..n], nics) + Row(gpus[n], nics)
  }

  ghost predicate IsCandidate(p: GPUNICPair, gpus: seq<GPU>, nics: seq<NIC>) {
    p.gpu in gpus && p.nic in nics && p == Candidate(p.gpu, p.nic)
  }

  /** The candidates in their order. */
  function Candidates(gpus: seq<GPU>, nics: seq<NIC>): (r: seq<GPUNICPair>)
    ensures Sorted(r, CandidateLeq)
    ensures forall p :: p in r <==> IsCandidate(p, gpus, nics)
  {
    CandidateLeqTotalPreorder();
    ArrangedSorted(AllCandidates(gpus, nics), CandidateLeq);
    SameElements(Arranged(AllCandidates(gpus, nics), CandidateLeq), AllCandidates(gpus, nics));
    Arranged(AllCandidates(gpus, nics), CandidateLeq)
  }

  lemma NoMembers<T(!new)>(s: seq<T>)
    requires forall x :: x !in s
    ensures s == []
  {
    assert forall x :: x in multiset(s) <==> x in s;
    assert |multiset(s)| == |s|;
  }

  lemma NoCandidates(gpus: seq<GPU>, nics: seq<NIC>)
    requires gpus == [] || nics == []
    ensures Candidates(gpus, nics) == []
  {
    NoMembers(Candidates(gpus, nics));
  }

  /** Go's map iteration: any key may come next. */
  method AnyKey<T>(keys: set<T>) returns (key: T)
    requires keys != {}
    ensures key in keys
  {
    key :| key in keys;
  }

  lemma {:induction false} AllCandidatesDistinct(gpus: seq<GPU>, nics: seq<NIC>)
    requires UniqueGpus(gpus) && UniqueNics(nics)
    ensures Distinct(AllCandidates(gpus, nics))
  {
    if gpus != [] {
      var n := |gpus| - 1;
      AllCandidatesDistinct(gpus[..n], nics);
      var before := AllCandidates(gpus[..n], nics);
      forall i | 0 <= i < |before| ensures before[i].gpu.id != gpus[n].id {
        assert before[i] in before;
      }
    }
  }

  lemma StrictOrder(es: seq<GPUNICPair>, gpus: seq<GPU>, nics: seq<NIC>)
    requires UniqueGpus(gpus) && UniqueNics(nics) && Sorted(es, CandidateLeq) && Distinct(es)
    requires forall p :: p in es ==> IsCandidate(p, gpus, nics)
    ensures StrictlySorted(es, CandidateLeq)
  {
    forall i, j | 0 <= i < j < |es| ensures !CandidateLeq(es[j], es[i]) {
      assert CandidateLeq(es[i], es[j]) && es[i] in es && es[j] in es;
      if CandidateLeq(es[j], es[i]) {
        StrLessTrichotomy(es[i].nic.dev, es[j].nic.dev);
        SameId(gpus, es[i].gpu, es[j].gpu);
        SameDev(nics, es[i].nic, es[j].nic);
        assert false;
      }
    }
  }

  /** There is one way to list all candidates in order. */
  lemma SortedCandidates(es: seq<GPUNICPair>, gpus: seq<GPU>, nics: seq<NIC>)
    requires UniqueGpus(gpus) && UniqueNics(nics)
    requires Sorted(es, CandidateLeq) && multiset(es) == multiset(AllCandidates(gpus, nics))
    ensures es == Candidates(gpus, nics) && StrictlySorted(es, CandidateLeq)
  {
    var all := AllCandidates(gpus, nics);
    SameElements(es, all);
    AllCandidatesDistinct(gpus, nics);
    PermutationDistinct(all, es);
    PermutationDistinct(all, Candidates(gpus, nics));
    StrictOrder(es, gpus, nics);
    StrictOrder(Candidates(gpus, nics), gpus, nics);
    CandidateLeqTotalPreorder();
    StrictlySortedUnique(es, Candidates(gpus, nics), CandidateLeq);
  }

  method BuildCandidates(gpus: seq<GPU>, nics: seq<NIC>) returns (candidates: seq<GPUNICPair>)
    requires UniqueGpus(gpus) && UniqueNics(nics)
    ensures candidates == Candidates(gpus, nics)
    ensures NearestFirst(candidates)
  {
    candidates := [];
    for i := 0 to |gpus|
      invariant candidates == AllCandidates(gpus[..i], nics)
    {
      var g := gpus[i];
      assert gpus[..i + 1][..i] == gpus[..i];
      for j := 0 to |nics|
        invariant candidates == AllCandidates(gpus[..i], nics) + Row(g, nics[..j])
      {
        candidates := candidates + [Candidate(g, nics[j])];
        assert nics[..j + 1][..j] == nics[..j];
      }
      assert nics[..|nics|] == nics;
    }
    assert gpus[..|gpus|] == gpus;
    CandidateLeqTotalPreorder();
    candidates := SortSlice(candidates, CandidateLeq);
    SortedCandidates(candidates, gpus, nics);
    OrderedMeansNearestFirst(candidates);
  }

  /** Fewer hops come first; among equally many the smaller GPU ID, then the smaller device name. */
  ghost predicate NearestFirst(es: seq<GPUNICPair>) {
    forall i, j :: 0 <= i < j < |es| ==>
      || es[i].hops < es[j].hops
      || (es[i].hops == es[j].hops && es[i].gpu.id < es[j].gpu.id)
      || (es[i].hops == es[j].hops && es[i].gpu.id == es[j].gpu.id && StrLess(es[i].nic.dev, es[j].nic.dev))
  }

  lemma OrderedMeansNearestFirst(es: seq<GPUNICPair>)
    requires StrictlySorted(es, CandidateLeq)
    ensures NearestFirst(es)
  {
    forall i, j | 0 <= i < j < |es| ensures CandidateLeq(es[i], es[j]) && !CandidateLeq(es[j], es[i]) {}
  }

  /** The distance in the PCIe tree, or 50 if the path of either device has fewer than two segments. */
  lemma DeviceDistanceIs(g: GPU, n: NIC, shared: nat)
    requires shared <= |g.path| && shared <= |n.path| && g.path[..shared] == n.path[..shared]
    requires shared < |g.path| && shared < |n.path| ==> g.path[shared] != n.path[shared]
    ensures |g.path| >= 2 && |n.path| >= 2 ==> DeviceDistance(g, n) == |g.path| + |n.path| - 2 * shared
    ensures |g.path| < 2 || |n.path| < 2 ==> DeviceDistance(g, n) == 50
  {
    PrefixIsShared(g.path, n.path, shared);
  }

  ghost predicate SameNode(gpus: seq<GPU>, nics: seq<NIC>, gpus': seq<GPU>, nics': seq<NIC>) {
    && (forall g :: g in gpus <==> g in gpus')
    && (forall n :: n in nics <==> n in nics')
  }

  /** The order of the devices does not matter. */
  lemma CandidatesOrderFree(gpus: seq<GPU>, nics: seq<NIC>, gpus': seq<GPU>, nics': seq<NIC>)
    requires UniqueGpus(gpus) && UniqueNics(nics) && UniqueGpus(gpus') && UniqueNics(nics')
    requires SameNode(gpus, nics, gpus', nics')
    ensures Candidates(gpus, nics) == Candidates(gpus', nics')
  {
    var es, es' := Candidates(gpus, nics), Candidates(gpus', nics');
    SortedCandidates(es, gpus, nics);
    SortedCandidates(es', gpus', nics');
    CandidateLeqTotalPreorder();
    forall p ensures p in es <==> p in es' {
      assert IsCandidate(p, gpus, nics) <==> IsCandidate(p, gpus', nics');
    }
    StrictlySortedUnique(es, es', CandidateLeq);
  }

  // ---- Candidate lists are complete ----

  function Ids(gpus: seq<GPU>): (r: set<int>) {
    set i | 0 <= i < |gpus| :: gpus[i].id
  }

  function Devs(nics: seq<NIC>): (r: seq<string>)
    ensures |r| == |nics| && forall i :: 0 <= i < |r| ==> r[i] == nics[i].dev
  {
    if nics == [] then [] else Devs(nics[..|nics| - 1]) + [nics[|nics| - 1].dev]
  }

  lemma DevsDistinct(nics: seq<NIC>)
    requires UniqueNics(nics)
    ensures Distinct(Devs(nics))
  {
  }

  lemma CandidatesComplete(gpus: seq<GPU>, nics: seq<NIC>)
    ensures Complete(Candidates(gpus, nics), Ids(gpus), Devs(nics))
  {
    var es, devs := Candidates(gpus, nics), Devs(nics);
    forall e | e in es ensures e.gpu.id in Ids(gpus) && e.nic.dev in devs {
      assert IsCandidate(e, gpus, nics);
      var i :| 0 <= i < |nics| && nics[i] == e.nic;
      assert devs[i] == e.nic.dev;
    }
    forall id, d | id in Ids(gpus) && d in devs ensures Offers(es, id, d) {
      var i :| 0 <= i < |gpus| && gpus[i].id == id;
      var j :| 0 <= j < |devs| && devs[j] == d;
      var k := CandidateAt(gpus, nics, gpus[i], nics[j]);
    }
  }

  lemma CandidateAt(gpus: seq<GPU>, nics: seq<NIC>, g: GPU, n: NIC) returns (k: nat)
    requires g in gpus && n in nics
    ensures k < |Candidates(gpus, nics)| && Candidates(gpus, nics)[k] == Candidate(g, n)
  {
    assert IsCandidate(Candidate(g, n), gpus, nics);
    k :| 0 <= k < |Candidates(gpus, nics)| && Candidates(gpus, nics)[k] == Candidate(g, n);
  }
}
