/** multiNICPCIePairing: every NIC goes to its closest GPU; a GPU may get several NICs. */
module MultiNic {
  import opened Cluster
  import opened Ordering
  import opened Matching
  import opened PairOrder
  import opened Pcie
  import opened Topology

  datatype Choice = Choice(gpu: GPU, dist: nat)

  /** The choice after the first i GPUs. It starts with the first GPU at the unknown-path penalty. */
  function Closest(gpus: seq<GPU>, nic: NIC, i: nat): Choice
    requires 0 < |gpus| && i <= |gpus|
  {
    if i == 0 then Choice(gpus[0], UNKNOWN_PATH_PENALTY)
    else
      var best, g := Closest(gpus, nic, i - 1), gpus[i - 1];
      var d := DeviceDistance(g, nic);
      if d < best.dist || (d == best.dist && g.id < best.gpu.id) then Choice(g, d) else best
  }

  /** By distance, then by ID. */
  predicate Nearer(nic: NIC, a: GPU, b: GPU) {
    DeviceDistance(a, nic) < DeviceDistance(b, nic)
    || (DeviceDistance(a, nic) == DeviceDistance(b, nic) && a.id <= b.id)
  }

  ghost predicate IsNearest(gpus: seq<GPU>, nic: NIC, g: GPU) {
    g in gpus && forall h :: h in gpus ==> Nearer(nic, g, h)
  }

  /** What the scan has found: never more than the penalty, never more than any distance seen. */
  ghost predicate Scanned(gpus: seq<GPU>, nic: NIC, i: nat, c: Choice) {
    && c.gpu in gpus && c.dist <= UNKNOWN_PATH_PENALTY
    && (forall j :: 0 <= j < i && j < |gpus| ==>
          c.dist < DeviceDistance(gpus[j], nic)
          || (c.dist == DeviceDistance(gpus[j], nic) && c.gpu.id <= gpus[j].id))
    && (c.dist == DeviceDistance(c.gpu, nic) || (c.dist == UNKNOWN_PATH_PENALTY && c.gpu == gpus[0]))
    && (c.dist == UNKNOWN_PATH_PENALTY && 0 < |gpus| ==> c.gpu.id <= gpus[0].id)
  }

  lemma {:induction false} ClosestScanned(gpus: seq<GPU>, nic: NIC, i: nat)
    requires 0 < |gpus| && i <= |gpus|
    ensures Scanned(gpus, nic, i, Closest(gpus, nic, i))
  {
    if i > 0 { ClosestScanned(gpus, nic, i - 1); }
  }

  lemma NearestExists(gpus: seq<GPU>, nic: NIC) returns (g: GPU)
    requires gpus != []
    ensures IsNearest(gpus, nic, g)
  {
    var k := NearestOf(gpus, nic, |gpus|);
    g := gpus[k];
  }

  lemma {:induction false} NearestOf(gpus: seq<GPU>, nic: NIC, i: nat) returns (k: nat)
    requires 0 < i <= |gpus|
    ensures k < i && forall j :: 0 <= j < i ==> Nearer(nic, gpus[k], gpus[j])
  {
    if i == 1 {
      k := 0;
    } else {
      k := NearestOf(gpus, nic, i - 1);
      if !Nearer(nic, gpus[k], gpus[i - 1]) { k := i - 1; }
    }
  }

  /** The NIC gets its nearest GPU, with the true distance, exactly if that distance is below the penalty,
      or equal to it and no GPU that is listed first has a smaller ID. */
  lemma NearestExactly(gpus: seq<GPU>, nic: NIC, g: GPU)
    requires UniqueGpus(gpus) && IsNearest(gpus, nic, g)
    ensures var d := DeviceDistance(g, nic);
            Closest(gpus, nic, |gpus|) == Choice(g, d)
            <==> d < UNKNOWN_PATH_PENALTY || (d == UNKNOWN_PATH_PENALTY && g.id <= gpus[0].id)
  {
    var c, d := Closest(gpus, nic, |gpus|), DeviceDistance(g, nic);
    ClosestScanned(gpus, nic, |gpus|);
    var i :| 0 <= i < |gpus| && gpus[i] == g;
    hide Closest, DeviceDistance;
    assert Nearer(nic, g, c.gpu) && Nearer(nic, g, gpus[0]);
    if c.gpu.id == g.id { SameId(gpus, c.gpu, g); }
    if c.gpu.id == gpus[0].id { SameId(gpus, c.gpu, gpus[0]); }
    if g.id == gpus[0].id { SameId(gpus, g, gpus[0]); }
  }

  /** No device is further away than one whose path is unknown. */
  ghost predicate WithinPenalty(gpus: seq<GPU>, nics: seq<NIC>) {
    forall g, n :: g in gpus && n in nics ==> DeviceDistance(g, n) <= UNKNOWN_PATH_PENALTY
  }

  lemma NearestWithinPenalty(gpus: seq<GPU>, nics: seq<NIC>, nic: NIC)
    requires gpus != [] && UniqueGpus(gpus) && WithinPenalty(gpus, nics) && nic in nics
    ensures var c := Closest(gpus, nic, |gpus|);
            IsNearest(gpus, nic, c.gpu) && c.dist == DeviceDistance(c.gpu, nic)
  {
    var g := NearestExists(gpus, nic);
    NearestExactly(gpus, nic, g);
    assert Nearer(nic, g, gpus[0]);
    assert DeviceDistance(gpus[0], nic) <= UNKNOWN_PATH_PENALTY;
  }

  /** Beyond the penalty the reported distance is not the true one. */
  lemma FarGpuIsReportedNearer(g: GPU, n: NIC)
    requires g.path == seq(30, _ => "gpu-side") && n.path == seq(30, _ => "nic-side")
    ensures DeviceDistance(g, n) == 60
    ensures Closest([g], n, 1) == Choice(g, 50)
  {
    PrefixIsShared(g.path, n.path, 0);
  }

  // ---- The pairs ----

  predicate ByGpuAndDev(a: GPUNICPair, b: GPUNICPair) {
    if a.gpu.id != b.gpu.id then a.gpu.id < b.gpu.id else StrLeq(a.nic.dev, b.nic.dev)
  }

  lemma ByGpuAndDevTotalPreorder()
    ensures TotalPreorder(ByGpuAndDev)
  {
    StrLeqTotalPreorder();
  }

  function ClosestPair(gpus: seq<GPU>, nic: NIC): GPUNICPair
    requires gpus != []
  {
    var c := Closest(gpus, nic, |gpus|);
    MakePair(c.gpu, nic, c.dist)
  }

  function ClosestPairs(gpus: seq<GPU>, nics: seq<NIC>): (r: seq<GPUNICPair>)
    requires gpus != []
    ensures |r| == |nics| && forall i :: 0 <= i < |r| ==> r[i] == ClosestPair(gpus, nics[i])
  {
    if nics == [] then [] else ClosestPairs(gpus, nics[..|nics| - 1]) + [ClosestPair(gpus, nics[|nics| - 1])]
  }

  method FindClosest(gpus: seq<GPU>, nic: NIC) returns (best: GPU, bestDist: nat)
    requires gpus != []
    ensures Choice(best, bestDist) == Closest(gpus, nic, |gpus|)
  {
    best, bestDist := gpus[0], UNKNOWN_PATH_PENALTY;
    for i := 0 to |gpus|
      invariant Choice(best, bestDist) == Closest(gpus, nic, i)
    {
      var dist := UNKNOWN_PATH_PENALTY;
      if |gpus[i].path| >= 2 && |nic.path| >= 2 {
        var shared := PcieSharedPrefix(gpus[i].path, nic.path);
        dist := (|gpus[i].path| - shared) + (|nic.path| - shared);
      }
      if dist < bestDist || (dist == bestDist && gpus[i].id < best.id) {
        best, bestDist := gpus[i], dist;
      }
    }
  }

  method MultiNicPciePairing(gpus: seq<GPU>, nics: seq<NIC>) returns (pairs: seq<GPUNICPair>)
    requires gpus != []
    ensures Sorted(pairs, ByGpuAndDev) && multiset(pairs) == multiset(ClosestPairs(gpus, nics))
  {
    pairs := [];
    for i := 0 to |nics|
      invariant pairs == ClosestPairs(gpus, nics[..i])
    {
      var best, bestDist := FindClosest(gpus, nics[i]);
      pairs := pairs + [MakePair(best, nics[i], bestDist)];
      assert nics[..i + 1][..i] == nics[..i];
    }
    assert nics[..|nics|] == nics;
    ByGpuAndDevTotalPreorder();
    pairs := SortSlice(pairs, ByGpuAndDev);
  }

  ghost predicate Outcome(gpus: seq<GPU>, nics: seq<NIC>, pairs: seq<GPUNICPair>) {
    gpus != [] && Sorted(pairs, ByGpuAndDev) && multiset(pairs) == multiset(ClosestPairs(gpus, nics))
  }

  /** One pair per NIC of the node, ordered by GPU ID and device. */
  ghost predicate EachNicOnce(nics: seq<NIC>, pairs: seq<GPUNICPair>) {
    && (forall i, j :: 0 <= i < j < |pairs| ==>
          pairs[i].gpu.id < pairs[j].gpu.id
          || (pairs[i].gpu.id == pairs[j].gpu.id && StrLess(pairs[i].nic.dev, pairs[j].nic.dev)))
    && DistinctNics(pairs) && |pairs| == |nics|
    && (forall p :: p in pairs ==> p.nic in nics)
    && (forall n :: n in nics ==> exists p :: p in pairs && p.nic == n)
  }

  lemma DistinctDevsSorted(pairs: seq<GPUNICPair>)
    requires DistinctNics(pairs) && Sorted(pairs, ByGpuAndDev)
    ensures forall i, j :: 0 <= i < j < |pairs| ==>
              pairs[i].gpu.id < pairs[j].gpu.id
              || (pairs[i].gpu.id == pairs[j].gpu.id && StrLess(pairs[i].nic.dev, pairs[j].nic.dev))
  {
    forall i, j | 0 <= i < j < |pairs| ensures ByGpuAndDev(pairs[i], pairs[j]) && pairs[i].nic.dev != pairs[j].nic.dev {}
  }

  lemma InListedOrder(nics: seq<NIC>, pairs: seq<GPUNICPair>)
    requires EachNicOnce(nics, pairs)
    ensures StrictlySorted(pairs, ByGpuAndDev)
  {
    forall i, j | 0 <= i < j < |pairs| ensures ByGpuAndDev(pairs[i], pairs[j]) && !ByGpuAndDev(pairs[j], pairs[i]) {
      StrLessTrichotomy(pairs[i].nic.dev, pairs[j].nic.dev);
    }
  }

  lemma EveryNicOnce(gpus: seq<GPU>, nics: seq<NIC>, pairs: seq<GPUNICPair>)
    requires UniqueNics(nics) && Outcome(gpus, nics, pairs)
    ensures EachNicOnce(nics, pairs)
    ensures forall p :: p in pairs ==> p == ClosestPair(gpus, p.nic)
  {
    var all := ClosestPairs(gpus, nics);
    SameElements(pairs, all);
    assert DistinctNics(all);
    PermutedNics(all, pairs);
    DistinctDevsSorted(pairs);
    forall n | n in nics ensures exists p :: p in pairs && p.nic == n {
      var i :| 0 <= i < |nics| && nics[i] == n;
      assert all[i] in pairs;
    }
  }

  /** Each NIC is with its nearest GPU, and the hop count is the distance. */
  lemma EveryNicNearest(gpus: seq<GPU>, nics: seq<NIC>, pairs: seq<GPUNICPair>, p: GPUNICPair)
    requires UniqueGpus(gpus) && UniqueNics(nics) && WithinPenalty(gpus, nics) && Outcome(gpus, nics, pairs)
    requires p in pairs
    ensures IsNearest(gpus, p.nic, p.gpu) && p == Candidate(p.gpu, p.nic)
  {
    EveryNicOnce(gpus, nics, pairs);
    NearestWithinPenalty(gpus, nics, p.nic);
  }

  // ---- The order of the devices ----

  /** Where no distance exceeds the penalty, the order of the GPUs and NICs does not matter. */
  lemma MultiNicOrderFree(gpus: seq<GPU>, nics: seq<NIC>, pairs: seq<GPUNICPair>,
                          gpus': seq<GPU>, nics': seq<NIC>, pairs': seq<GPUNICPair>)
    requires UniqueGpus(gpus) && UniqueNics(nics) && WithinPenalty(gpus, nics)
    requires multiset(gpus) == multiset(gpus') && multiset(nics) == multiset(nics')
    requires Outcome(gpus, nics, pairs) && Outcome(gpus', nics', pairs')
    ensures pairs == pairs'
  {
    SameElements(gpus, gpus');
    SameElements(nics, nics');
    PermutedGpuList(gpus, gpus');
    PermutedNicList(nics, nics');
    EveryNicOnce(gpus, nics, pairs);
    EveryNicOnce(gpus', nics', pairs');
    forall n | n in nics ensures ClosestPair(gpus, n) == ClosestPair(gpus', n) {
      NearestWithinPenalty(gpus, nics, n);
      NearestWithinPenalty(gpus', nics', n);
      SameNearest(gpus, n, Closest(gpus, n, |gpus|).gpu, Closest(gpus', n, |gpus'|).gpu);
    }
    hide ClosestPair, Outcome;
    InListedOrder(nics, pairs);
    InListedOrder(nics', pairs');
    ByGpuAndDevTotalPreorder();
    StrictlySortedUnique(pairs, pairs', ByGpuAndDev);
  }

  lemma SameNearest(gpus: seq<GPU>, nic: NIC, g: GPU, h: GPU)
    requires UniqueGpus(gpus) && IsNearest(gpus, nic, g) && IsNearest(gpus, nic, h)
    ensures g == h
  {
    assert Nearer(nic, g, h) && Nearer(nic, h, g);
    SameId(gpus, g, h);
  }

  /** The NIC's GPU does not depend on which of g and h is listed first: some GPU is nearer than the penalty,
      or one at just that distance has an ID that comes before both. */
  ghost predicate FirstIsIrrelevant(gpus: seq<GPU>, nic: NIC, g: GPU, h: GPU) {
    exists x :: x in gpus
      && (DeviceDistance(x, nic) < UNKNOWN_PATH_PENALTY
          || (DeviceDistance(x, nic) == UNKNOWN_PATH_PENALTY && x.id <= g.id && x.id <= h.id))
  }

  lemma ClosestIsScanned(gpus: seq<GPU>, nic: NIC)
    requires gpus != []
    ensures var c := Closest(gpus, nic, |gpus|);
            && c.gpu in gpus && c.dist <= UNKNOWN_PATH_PENALTY
            && (forall x :: x in gpus ==> c.dist < DeviceDistance(x, nic)
                                          || (c.dist == DeviceDistance(x, nic) && c.gpu.id <= x.id))
            && (c.dist == DeviceDistance(c.gpu, nic) || (c.dist == UNKNOWN_PATH_PENALTY && c.gpu == gpus[0]))
            && (c.dist == UNKNOWN_PATH_PENALTY ==> c.gpu.id <= gpus[0].id)
  {
    ClosestScanned(gpus, nic, |gpus|);
    hide Closest, DeviceDistance;
    forall x | x in gpus ensures var c := Closest(gpus, nic, |gpus|);
      c.dist < DeviceDistance(x, nic) || (c.dist == DeviceDistance(x, nic) && c.gpu.id <= x.id)
    {
      var i :| 0 <= i < |gpus| && gpus[i] == x;
    }
  }

  /** A NIC gets the same pair from both orders exactly if they start with the same GPU or that GPU is
      irrelevant for this NIC. */
  lemma SameClosestExactly(gpus: seq<GPU>, gpus': seq<GPU>, nic: NIC)
    requires gpus != [] && gpus' != [] && UniqueGpus(gpus) && forall g :: g in gpus <==> g in gpus'
    ensures Closest(gpus, nic, |gpus|) == Closest(gpus', nic, |gpus'|)
       <==> gpus[0] == gpus'[0] || FirstIsIrrelevant(gpus, nic, gpus[0], gpus'[0])
  {
    ClosestIsScanned(gpus, nic);
    ClosestIsScanned(gpus', nic);
    var c, c' := Closest(gpus, nic, |gpus|), Closest(gpus', nic, |gpus'|);
    hide Closest, DeviceDistance;
    assert gpus'[0] in gpus && gpus[0] in gpus;
    if c.gpu.id == c'.gpu.id { SameId(gpus, c.gpu, c'.gpu); }
    if c.gpu.id == gpus[0].id { SameId(gpus, c.gpu, gpus[0]); }
    if c'.gpu.id == gpus'[0].id { SameId(gpus, c'.gpu, gpus'[0]); }
    if c == c' && gpus[0] != gpus'[0] {
      assert DeviceDistance(c.gpu, nic) == c.dist;
    }
  }

  /** The two orders agree on every NIC. */
  ghost predicate OrderIsIrrelevant(gpus: seq<GPU>, gpus': seq<GPU>, nics: seq<NIC>)
    requires gpus != [] && gpus' != []
  {
    gpus[0] == gpus'[0] || forall n :: n in nics ==> FirstIsIrrelevant(gpus, n, gpus[0], gpus'[0])
  }

  /** Two orders of the devices give the same pairs exactly if they start with the same GPU, or for every NIC
      some GPU is nearer than the penalty or comes first at just that distance. */
  lemma MultiNicOrderExactly(gpus: seq<GPU>, nics: seq<NIC>, pairs: seq<GPUNICPair>,
                             gpus': seq<GPU>, nics': seq<NIC>, pairs': seq<GPUNICPair>)
    requires UniqueGpus(gpus) && UniqueNics(nics)
    requires multiset(gpus) == multiset(gpus') && multiset(nics) == multiset(nics')
    requires Outcome(gpus, nics, pairs) && Outcome(gpus', nics', pairs')
    ensures gpus != [] && gpus' != []
    ensures pairs == pairs' <==> OrderIsIrrelevant(gpus, gpus', nics)
  {
    SameElements(gpus, gpus');
    SameElements(nics, nics');
    PermutedNicList(nics, nics');
    EveryNicOnce(gpus, nics, pairs);
    EveryNicOnce(gpus', nics', pairs');
    forall n ensures Closest(gpus, n, |gpus|) == Closest(gpus', n, |gpus'|)
                <==> gpus[0] == gpus'[0] || FirstIsIrrelevant(gpus, n, gpus[0], gpus'[0])
    {
      SameClosestExactly(gpus, gpus', n);
    }
    hide Outcome, Closest, FirstIsIrrelevant;
    if OrderIsIrrelevant(gpus, gpus', nics) {
      InListedOrder(nics, pairs);
      InListedOrder(nics', pairs');
      ByGpuAndDevTotalPreorder();
      StrictlySortedUnique(pairs, pairs', ByGpuAndDev);
    }
    if pairs == pairs' {
      forall n | n in nics ensures Closest(gpus, n, |gpus|) == Closest(gpus', n, |gpus'|) {
        var p :| p in pairs && p.nic == n;
        assert p == ClosestPair(gpus, n) && p == ClosestPair(gpus', n);
      }
    }
  }

  /** Two GPUs beyond the penalty: the NIC goes to the one that is listed first. */
  lemma FirstGpuMatters(g: GPU, h: GPU, n: NIC, pairs: seq<GPUNICPair>, pairs': seq<GPUNICPair>)
    requires g.id != h.id && DeviceDistance(g, n) > UNKNOWN_PATH_PENALTY && DeviceDistance(h, n) > UNKNOWN_PATH_PENALTY
    requires Outcome([g, h], [n], pairs) && Outcome([h, g], [n], pairs')
    ensures pairs != pairs'
  {
    var gs, hs, ns := [g, h], [h, g], [n];
    assert multiset(gs) == multiset(hs);
    hide DeviceDistance, Outcome;
    MultiNicOrderExactly(gs, ns, pairs, hs, ns, pairs');
    assert n in ns && gs[0] != hs[0];
  }
}
