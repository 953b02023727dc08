/** Greedy assignment: walk a list of candidate pairs and take each one whose GPU is still free and
    whose NIC is below its capacity. With capacity 1 this is greedy matching. */
module Matching {
  import opened Cluster

  predicate HasGpu(pairs: seq<GPUNICPair>, id: int) {
    exists i :: 0 <= i < |pairs| && pairs[i].gpu.id == id
  }

  /** How many of the pairs use this NIC. */
  function Load(pairs: seq<GPUNICPair>, dev: string): nat {
    if pairs == [] then 0
    else Load(pairs[..|pairs| - 1], dev) + if pairs[|pairs| - 1].nic.dev == dev then 1 else 0
  }

  predicate Open(chosen: seq<GPUNICPair>, cap: nat, e: GPUNICPair) {
    !HasGpu(chosen, e.gpu.id) && Load(chosen, e.nic.dev) < cap
  }

  function Take(chosen: seq<GPUNICPair>, cap: nat, e: GPUNICPair): seq<GPUNICPair> {
    if Open(chosen, cap, e) then chosen + [e] else chosen
  }

  function Assign(es: seq<GPUNICPair>, cap: nat, chosen: seq<GPUNICPair>): seq<GPUNICPair> {
    if es == [] then chosen else Assign(es[1..], cap, Take(chosen, cap, es[0]))
  }

  ghost predicate DistinctGpus(pairs: seq<GPUNICPair>) {
    forall i, j :: 0 <= i < j < |pairs| ==> pairs[i].gpu.id != pairs[j].gpu.id
  }

  ghost predicate DistinctNics(pairs: seq<GPUNICPair>) {
    forall i, j :: 0 <= i < j < |pairs| ==> pairs[i].nic.dev != pairs[j].nic.dev
  }

  // ---- Loads ----

  lemma LoadAppend(pairs: seq<GPUNICPair>, e: GPUNICPair, dev: string)
    ensures Load(pairs + [e], dev) == Load(pairs, dev) + if e.nic.dev == dev then 1 else 0
  {
    assert (pairs + [e])[..|pairs|] == pairs;
  }

  lemma {:induction false} LoadConcat(a: seq<GPUNICPair>, b: seq<GPUNICPair>, dev: string)
    ensures Load(a + b, dev) == Load(a, dev) + Load(b, dev)
  {
    if b == [] {
      assert a + b == a;
    } else {
      var n := |b| - 1;
      assert (a + b)[..|a + b| - 1] == a + b[..n];
      LoadConcat(a, b[..n], dev);
    }
  }

  lemma {:induction false} LoadPositive(pairs: seq<GPUNICPair>, dev: string)
    ensures Load(pairs, dev) > 0 <==> exists i :: 0 <= i < |pairs| && pairs[i].nic.dev == dev
  {
    if pairs != [] {
      var n := |pairs| - 1;
      LoadPositive(pairs[..n], dev);
      if Load(pairs[..n], dev) > 0 {
        var i :| 0 <= i < n && pairs[..n][i].nic.dev == dev;
        assert pairs[i].nic.dev == dev;
      }
      if i :| 0 <= i < n && pairs[i].nic.dev == dev {
        assert pairs[..n][i].nic.dev == dev;
      }
    }
  }

  /** No NIC above one: the NICs are pairwise distinct. */
  lemma {:induction false} LoadsAtMostOne(pairs: seq<GPUNICPair>)
    requires forall d :: Load(pairs, d) <= 1
    ensures DistinctNics(pairs)
  {
    if pairs != [] {
      var n := |pairs| - 1;
      assert pairs == pairs[..n] + [pairs[n]];
      forall d ensures Load(pairs[..n], d) <= 1 { assert Load(pairs, d) <= 1; }
      LoadsAtMostOne(pairs[..n]);
      assert Load(pairs, pairs[n].nic.dev) <= 1;
      LoadPositive(pairs[..n], pairs[n].nic.dev);
    }
  }

  lemma {:induction false} LoadOfDistinct(pairs: seq<GPUNICPair>, dev: string)
    requires DistinctNics(pairs)
    ensures Load(pairs, dev) <= 1
  {
    if pairs != [] {
      var n := |pairs| - 1;
      LoadOfDistinct(pairs[..n], dev);
      LoadPositive(pairs[..n], dev);
    }
  }

  // ---- What greedy assignment keeps ----

  /** The choice is only extended, by candidates; it stays within the capacity and keeps GPUs apart. */
  lemma {:induction false} AssignKeeps(es: seq<GPUNICPair>, cap: nat, chosen: seq<GPUNICPair>)
    requires DistinctGpus(chosen) && forall d :: Load(chosen, d) <= cap
    ensures chosen <= Assign(es, cap, chosen)
    ensures DistinctGpus(Assign(es, cap, chosen))
    ensures forall d :: Load(Assign(es, cap, chosen), d) <= cap
    ensures forall e :: e in Assign(es, cap, chosen) ==> e in chosen || e in es
  {
    if es != [] {
      var next := Take(chosen, cap, es[0]);
      forall d ensures Load(next, d) <= cap { LoadAppend(chosen, es[0], d); }
      AssignKeeps(es[1..], cap, next);
      assert forall e :: e in next ==> e in chosen || e in es;
    }
  }

  lemma HasGpuAppend(pairs: seq<GPUNICPair>, e: GPUNICPair, id: int)
    ensures HasGpu(pairs + [e], id) <==> HasGpu(pairs, id) || e.gpu.id == id
  {
    if HasGpu(pairs, id) { HasGpuMore(pairs, pairs + [e], id); }
    assert (pairs + [e])[|pairs|] == e;
  }

  lemma HasGpuMore(a: seq<GPUNICPair>, b: seq<GPUNICPair>, id: int)
    requires a <= b && HasGpu(a, id)
    ensures HasGpu(b, id)
  {
    var i :| 0 <= i < |a| && a[i].gpu.id == id;
    assert b[i].gpu.id == id;
  }

  lemma LoadMore(a: seq<GPUNICPair>, b: seq<GPUNICPair>, dev: string)
    requires a <= b
    ensures Load(a, dev) <= Load(b, dev)
  {
    assert b == a + b[|a|..];
    LoadConcat(a, b[|a|..], dev);
  }

  /** Nothing that could still be taken is left out. */
  lemma {:induction false} AssignMaximal(es: seq<GPUNICPair>, cap: nat, chosen: seq<GPUNICPair>, k: nat)
    requires DistinctGpus(chosen) && (forall d :: Load(chosen, d) <= cap) && k < |es|
    ensures HasGpu(Assign(es, cap, chosen), es[k].gpu.id) || Load(Assign(es, cap, chosen), es[k].nic.dev) >= cap
  {
    var next := Take(chosen, cap, es[0]);
    forall d ensures Load(next, d) <= cap { LoadAppend(chosen, es[0], d); }
    if k > 0 {
      AssignMaximal(es[1..], cap, next, k - 1);
    } else {
      AssignKeeps(es[1..], cap, next);
      var all := Assign(es, cap, chosen);
      if Open(chosen, cap, es[0]) { assert next[|chosen|] == es[0]; assert HasGpu(next, es[0].gpu.id); }
      if HasGpu(next, es[0].gpu.id) { HasGpuMore(next, all, es[0].gpu.id); }
      LoadMore(next, all, es[0].nic.dev);
    }
  }

  lemma {:induction false} AssignSplit(es: seq<GPUNICPair>, cap: nat, chosen: seq<GPUNICPair>, k: nat)
    requires k <= |es|
    ensures Assign(es, cap, chosen) == Assign(es[k..], cap, Assign(es[..k], cap, chosen))
  {
    if k == 0 {
      assert es[0..] == es;
    } else {
      AssignSplit(es[1..], cap, Take(chosen, cap, es[0]), k - 1);
      assert es[..k][1..] == es[1..][..k - 1] && es[1..][k - 1..] == es[k..];
      assert es[..k][0] == es[0];
    }
  }

  /** Among the candidates up to the k-th, the choice already serves its GPU or has filled its NIC. */
  lemma ServedOrFull(es: seq<GPUNICPair>, cap: nat, k: nat) returns (early: seq<GPUNICPair>)
    requires k < |es|
    ensures early <= Assign(es, cap, []) && DistinctGpus(early)
    ensures forall p :: p in early ==> p in es[..k + 1]
    ensures HasGpu(early, es[k].gpu.id) || Load(early, es[k].nic.dev) == cap
  {
    early := Assign(es[..k + 1], cap, []);
    AssignKeeps(es[..k + 1], cap, []);
    AssignMaximal(es[..k + 1], cap, [], k);
    AssignSplit(es, cap, [], k + 1);
    AssignKeeps(es[k + 1..], cap, early);
  }

  /** With capacity 1, a candidate loses only to itself or to one before it in the list. */
  lemma {:induction false} AssignNotBlocked(es: seq<GPUNICPair>, chosen: seq<GPUNICPair>, k: nat) returns (r: GPUNICPair)
    requires DistinctGpus(chosen) && (forall d :: Load(chosen, d) <= 1) && k < |es|
    ensures r in Assign(es, 1, chosen)
    ensures r in chosen || exists j :: 0 <= j <= k && r == es[j]
    ensures r.gpu.id == es[k].gpu.id || r.nic.dev == es[k].nic.dev
  {
    var e, next := es[0], Take(chosen, 1, es[0]);
    forall d ensures Load(next, d) <= 1 { LoadAppend(chosen, e, d); }
    if k > 0 {
      r := AssignNotBlocked(es[1..], next, k - 1);
      if r !in chosen && r !in next {
        var j :| 0 <= j <= k - 1 && r == es[1..][j];
        assert r == es[j + 1];
      }
    } else {
      AssignKeeps(es[1..], 1, next);
      if Open(chosen, 1, e) {
        r := e;
        assert next[|chosen|] == e;
      } else if HasGpu(chosen, e.gpu.id) {
        var i :| 0 <= i < |chosen| && chosen[i].gpu.id == e.gpu.id;
        r := chosen[i];
      } else {
        LoadPositive(chosen, e.nic.dev);
        var i :| 0 <= i < |chosen| && chosen[i].nic.dev == e.nic.dev;
        r := chosen[i];
      }
      assert r in next;
    }
  }

  ghost predicate Apart(es: seq<GPUNICPair>, chosen: seq<GPUNICPair>) {
    forall e, c :: e in es && c in chosen ==> e.gpu.id != c.gpu.id && e.nic.dev != c.nic.dev
  }

  /** Pairs that share no device with the candidates do not influence the assignment. */
  lemma {:induction false} AssignFrame(es: seq<GPUNICPair>, cap: nat, other: seq<GPUNICPair>, chosen: seq<GPUNICPair>)
    requires Apart(es, other)
    ensures Assign(es, cap, other + chosen) == other + Assign(es, cap, chosen)
  {
    if es != [] {
      var e := es[0];
      LoadConcat(other, chosen, e.nic.dev);
      LoadPositive(other, e.nic.dev);
      assert forall i :: 0 <= i < |other| ==> other[i] in other;
      SameGpus(other, chosen, e.gpu.id);
      assert Take(other + chosen, cap, e) == other + Take(chosen, cap, e);
      AssignFrame(es[1..], cap, other, Take(chosen, cap, e));
    }
  }

  lemma SameGpus(other: seq<GPUNICPair>, chosen: seq<GPUNICPair>, id: int)
    requires forall i :: 0 <= i < |other| ==> other[i].gpu.id != id
    ensures HasGpu(other + chosen, id) <==> HasGpu(chosen, id)
  {
    if i :| 0 <= i < |chosen| && chosen[i].gpu.id == id {
      assert (other + chosen)[|other| + i].gpu.id == id;
    }
    if HasGpu(other + chosen, id) {
      var i :| 0 <= i < |other + chosen| && (other + chosen)[i].gpu.id == id;
      assert chosen[i - |other|].gpu.id == id;
    }
  }

  lemma {:induction false} AssignStep(es: seq<GPUNICPair>, cap: nat, chosen: seq<GPUNICPair>, i: nat)
    requires i < |es|
    ensures Assign(es[i..], cap, chosen) == Assign(es[i + 1..], cap, Take(chosen, cap, es[i]))
  {
    assert es[i..][1..] == es[i + 1..];
  }

  /** At the end of the list the assignment is complete. */
  lemma NoneToPlace(es: seq<GPUNICPair>, cap: nat, pairs: seq<GPUNICPair>)
    ensures Assign(es[|es|..], cap, pairs) == pairs
  {
  }

  // ---- Lists with the same pairs ----

  lemma SameMembersHasGpu(a: seq<GPUNICPair>, b: seq<GPUNICPair>, id: int)
    requires forall p :: p in a ==> p in b
    ensures HasGpu(a, id) ==> HasGpu(b, id)
  {
    if HasGpu(a, id) {
      var i :| 0 <= i < |a| && a[i].gpu.id == id;
      assert a[i] in b;
    }
  }

  lemma SameMembersLoad(a: seq<GPUNICPair>, b: seq<GPUNICPair>, d: string)
    requires forall p :: p in a ==> p in b
    ensures Load(a, d) > 0 ==> Load(b, d) > 0
  {
    LoadPositive(a, d);
    LoadPositive(b, d);
    if i :| 0 <= i < |a| && a[i].nic.dev == d { assert a[i] in b; }
  }

  // ---- Counting ----

  /** The loads of all listed NICs together. */
  function LoadSum(pairs: seq<GPUNICPair>, devs: seq<string>): nat {
    if devs == [] then 0 else LoadSum(pairs, devs[..|devs| - 1]) + Load(pairs, devs[|devs| - 1])
  }

  lemma {:induction false} LoadSumAppend(pairs: seq<GPUNICPair>, e: GPUNICPair, devs: seq<string>)
    requires Distinct(devs)
    ensures LoadSum(pairs + [e], devs) == LoadSum(pairs, devs) + if e.nic.dev in devs then 1 else 0
  {
    if devs != [] {
      LastIsNew(devs);
      LoadSumAppend(pairs, e, devs[..|devs| - 1]);
      LoadAppend(pairs, e, devs[|devs| - 1]);
      assert devs == devs[..|devs| - 1] + [devs[|devs| - 1]];
    }
  }

  lemma {:induction false} LoadSumBound(pairs: seq<GPUNICPair>, devs: seq<string>)
    requires Distinct(devs)
    ensures LoadSum(pairs, devs) <= |pairs|
    ensures (forall i :: 0 <= i < |pairs| ==> pairs[i].nic.dev in devs) ==> LoadSum(pairs, devs) == |pairs|
  {
    if pairs == [] {
      EmptyLoadSum(devs);
    } else {
      var n := |pairs| - 1;
      assert pairs == pairs[..n] + [pairs[n]];
      LoadSumBound(pairs[..n], devs);
      LoadSumAppend(pairs[..n], pairs[n], devs);
    }
  }

  lemma {:induction false} EmptyLoadSum(devs: seq<string>)
    ensures LoadSum([], devs) == 0
  {
    if devs != [] { EmptyLoadSum(devs[..|devs| - 1]); }
  }

  lemma {:induction false} LoadSumRange(pairs: seq<GPUNICPair>, devs: seq<string>, cap: nat)
    ensures (forall d :: d in devs ==> Load(pairs, d) >= cap) ==> LoadSum(pairs, devs) >= |devs| * cap
    ensures (forall d :: d in devs ==> Load(pairs, d) <= cap) ==> LoadSum(pairs, devs) <= |devs| * cap
  {
    if devs != [] {
      var n := |devs| - 1;
      assert devs == devs[..n] + [devs[n]];
      LoadSumRange(pairs, devs[..n], cap);
      assert |devs| * cap == n * cap + cap;
    }
  }

  ghost function GpuIds(pairs: seq<GPUNICPair>): set<int> {
    set i | 0 <= i < |pairs| :: pairs[i].gpu.id
  }

  lemma {:induction false} GpuIdsSize(pairs: seq<GPUNICPair>)
    requires DistinctGpus(pairs)
    ensures |GpuIds(pairs)| == |pairs|
  {
    if pairs != [] {
      var n := |pairs| - 1;
      GpuIdsSize(pairs[..n]);
      assert GpuIds(pairs) == GpuIds(pairs[..n]) + {pairs[n].gpu.id} by {
        forall x | x in GpuIds(pairs) ensures x in GpuIds(pairs[..n]) + {pairs[n].gpu.id} {
          var i :| 0 <= i < |pairs| && pairs[i].gpu.id == x;
          if i < n { assert pairs[..n][i].gpu.id == x; }
        }
      }
    }
  }

  /** More pairs than ids that they may use is impossible; as many pairs use them all. */
  lemma GpusExhausted(pairs: seq<GPUNICPair>, ids: set<int>, id: int)
    requires DistinctGpus(pairs) && (forall i :: 0 <= i < |pairs| ==> pairs[i].gpu.id in ids)
    ensures |pairs| <= |ids|
    ensures |pairs| == |ids| && id in ids ==> HasGpu(pairs, id)
  {
    GpuIdsSize(pairs);
    assert GpuIds(pairs) <= ids;
    assert ids == GpuIds(pairs) + (ids - GpuIds(pairs));
    assert |ids| == |GpuIds(pairs)| + |ids - GpuIds(pairs)|;
  }

  // ---- Complete candidate lists ----

  /** Every one of the GPUs with every one of the NICs, and nothing else. */
  ghost predicate Complete(es: seq<GPUNICPair>, ids: set<int>, devs: seq<string>) {
    && (forall e :: e in es ==> e.gpu.id in ids && e.nic.dev in devs)
    && (forall id, d :: id in ids && d in devs ==> Offers(es, id, d))
  }

  ghost predicate Offers(es: seq<GPUNICPair>, id: int, d: string) {
    exists k :: 0 <= k < |es| && es[k].gpu.id == id && es[k].nic.dev == d
  }

  /** A GPU that stays without NIC has found every NIC full. */
  lemma UnservedMeansFull(es: seq<GPUNICPair>, ids: set<int>, devs: seq<string>, cap: nat, id: int, d: string)
    requires Complete(es, ids, devs) && id in ids && d in devs
    ensures HasGpu(Assign(es, cap, []), id) || Load(Assign(es, cap, []), d) == cap
  {
    assert Offers(es, id, d);
    var k :| 0 <= k < |es| && es[k].gpu.id == id && es[k].nic.dev == d;
    AssignMaximal(es, cap, [], k);
    AssignKeeps(es, cap, []);
  }

  lemma AssignFacts(es: seq<GPUNICPair>, ids: set<int>, devs: seq<string>, cap: nat)
    requires Complete(es, ids, devs)
    ensures DistinctGpus(Assign(es, cap, []))
    ensures forall i :: 0 <= i < |Assign(es, cap, [])| ==>
              Assign(es, cap, [])[i] in es && Assign(es, cap, [])[i].gpu.id in ids && Assign(es, cap, [])[i].nic.dev in devs
    ensures forall d :: Load(Assign(es, cap, []), d) <= cap
  {
    AssignKeeps(es, cap, []);
  }

  /** Pigeonhole: if the NICs have room for all GPUs, greedy assignment places all GPUs. */
  lemma AssignPlacesAll(es: seq<GPUNICPair>, ids: set<int>, devs: seq<string>, cap: nat, id: int)
    requires Complete(es, ids, devs) && Distinct(devs) && |ids| <= |devs| * cap && id in ids
    ensures HasGpu(Assign(es, cap, []), id)
  {
    hide Assign;
    var r := Assign(es, cap, []);
    AssignFacts(es, ids, devs, cap);
    if !HasGpu(r, id) {
      forall d | d in devs ensures Load(r, d) >= cap { UnservedMeansFull(es, ids, devs, cap, id, d); }
      LoadSumRange(r, devs, cap);
      LoadSumBound(r, devs);
      GpusExhausted(r, ids, id);
    }
  }

  /** With capacity 1 greedy matching is as large as the smaller side: it leaves over GPUs or NICs,
      never both. */
  lemma MatchingSize(es: seq<GPUNICPair>, ids: set<int>, devs: seq<string>)
    requires Complete(es, ids, devs) && Distinct(devs)
    ensures |Assign(es, 1, [])| == if |ids| <= |devs| then |ids| else |devs|
    ensures (forall id :: id in ids ==> HasGpu(Assign(es, 1, []), id))
         || (forall d :: d in devs ==> Load(Assign(es, 1, []), d) == 1)
  {
    hide Assign;
    var r := Assign(es, 1, []);
    AssignFacts(es, ids, devs, 1);
    GpuIdsSize(r);
    LoadSumRange(r, devs, 1);
    LoadSumBound(r, devs);
    if forall id :: id in ids ==> HasGpu(r, id) {
      assert GpuIds(r) == ids by {
        forall id | id in ids ensures id in GpuIds(r) { var i :| 0 <= i < |r| && r[i].gpu.id == id; }
      }
    } else {
      var id :| id in ids && !HasGpu(r, id);
      forall d | d in devs ensures Load(r, d) == 1 { UnservedMeansFull(es, ids, devs, 1, id, d); }
      GpusExhausted(r, ids, id);
    }
  }
}
