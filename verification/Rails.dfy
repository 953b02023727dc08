/** NIC devices of a node topology, in order, and their rail index. */
module Rails {
  import opened Cluster

  /** The devices of the pairs, each where it occurs first. */
  function UniqueDevs(pairs: seq<GPUNICPair>): seq<string> {
    if pairs == [] then []
    else
      var n := |pairs| - 1;
      var prev := UniqueDevs(pairs[..n]);
      if pairs[n].nic.dev in prev then prev else prev + [pairs[n].nic.dev]
  }

  /** A device's rail is the position of its last pair. */
  function RailMap(pairs: seq<GPUNICPair>): map<string, nat> {
    if pairs == [] then map[]
    else
      var n := |pairs| - 1;
      RailMap(pairs[..n])[pairs[n].nic.dev := n]
  }

  method DevicesFromTopology(topo: NodeTopology) returns (devs: seq<string>)
    ensures devs == UniqueDevs(topo.pairs)
  {
    var seen: set<string> := {};
    devs := [];
    for i := 0 to |topo.pairs|
      invariant devs == UniqueDevs(topo.pairs[..i])
      invariant forall d :: d in seen <==> d in devs
    {
      assert topo.pairs[..i + 1][..i] == topo.pairs[..i];
      var dev := topo.pairs[i].nic.dev;
      if dev !in seen {
        devs := devs + [dev];
        seen := seen + {dev};
      }
    }
    assert topo.pairs[..|topo.pairs|] == topo.pairs;
  }

  method BuildRailMap(topo: NodeTopology) returns (m: map<string, nat>)
    ensures m == RailMap(topo.pairs)
  {
    m := map[];
    for i := 0 to |topo.pairs|
      invariant m == RailMap(topo.pairs[..i])
    {
      assert topo.pairs[..i + 1][..i] == topo.pairs[..i];
      m := m[topo.pairs[i].nic.dev := i];
    }
    assert topo.pairs[..|topo.pairs|] == topo.pairs;
  }

  /** Every device is listed once. */
  lemma {:induction false} UniqueDevsDistinct(pairs: seq<GPUNICPair>)
    ensures Distinct(UniqueDevs(pairs))
    ensures forall d :: d in UniqueDevs(pairs) <==> exists i :: 0 <= i < |pairs| && pairs[i].nic.dev == d
  {
    if pairs != [] {
      var n := |pairs| - 1;
      UniqueDevsDistinct(pairs[..n]);
      forall d ensures d in UniqueDevs(pairs) <==> exists i :: 0 <= i < |pairs| && pairs[i].nic.dev == d {
        assert d in UniqueDevs(pairs) <==> d in UniqueDevs(pairs[..n]) || d == pairs[n].nic.dev;
        if i :| 0 <= i < |pairs| && pairs[i].nic.dev == d {
          assert i < n ==> pairs[..n][i].nic.dev == d;
        }
      }
    }
  }

  /** Index i is the first one at which its device occurs. */
  ghost predicate FirstOccurrence(pairs: seq<GPUNICPair>, i: int) {
    0 <= i < |pairs| && forall j :: 0 <= j < i ==> pairs[j].nic.dev != pairs[i].nic.dev
  }

  lemma {:induction false} ListedAt(pairs: seq<GPUNICPair>, k: nat) returns (i: nat)
    requires k < |UniqueDevs(pairs)|
    ensures FirstOccurrence(pairs, i) && pairs[i].nic.dev == UniqueDevs(pairs)[k]
    ensures UniqueDevs(pairs[..i]) == UniqueDevs(pairs)[..k]
  {
    var n := |pairs| - 1;
    if k < |UniqueDevs(pairs[..n])| {
      i := ListedAt(pairs[..n], k);
      assert pairs[..n][..i] == pairs[..i];
    } else {
      i := n;
      UniqueDevsDistinct(pairs[..n]);
      forall j | 0 <= j < n ensures pairs[j].nic.dev != pairs[n].nic.dev {
        assert pairs[..n][j].nic.dev in UniqueDevs(pairs[..n]);
      }
    }
  }

  /** The devices are listed in the order of their first occurrences. */
  lemma ListedByFirstOccurrence(pairs: seq<GPUNICPair>, i: nat, j: nat)
    requires FirstOccurrence(pairs, i) && FirstOccurrence(pairs, j) && i < j
    ensures exists k, l :: 0 <= k < l < |UniqueDevs(pairs)|
                           && UniqueDevs(pairs)[k] == pairs[i].nic.dev && UniqueDevs(pairs)[l] == pairs[j].nic.dev
  {
    UniqueDevsDistinct(pairs);
    var devs := UniqueDevs(pairs);
    assert pairs[i].nic.dev in devs && pairs[j].nic.dev in devs;
    var k :| 0 <= k < |devs| && devs[k] == pairs[i].nic.dev;
    var l :| 0 <= l < |devs| && devs[l] == pairs[j].nic.dev;
    var i' := ListedAt(pairs, k);
    var j' := ListedAt(pairs, l);
    assert i' == i && j' == j;
    UniqueDevsDistinct(pairs[..j]);
    assert pairs[..j][i].nic.dev in devs[..l];
  }

  /** Index i is the last one at which its device occurs. */
  ghost predicate LastOccurrence(pairs: seq<GPUNICPair>, i: int) {
    0 <= i < |pairs| && forall j :: i < j < |pairs| ==> pairs[j].nic.dev != pairs[i].nic.dev
  }

  lemma {:induction false} RailMapKeys(pairs: seq<GPUNICPair>)
    ensures forall d :: d in RailMap(pairs) <==> d in UniqueDevs(pairs)
  {
    if pairs != [] { RailMapKeys(pairs[..|pairs| - 1]); }
  }

  lemma {:induction false} RailOf(pairs: seq<GPUNICPair>, d: string)
    requires d in RailMap(pairs)
    ensures LastOccurrence(pairs, RailMap(pairs)[d]) && pairs[RailMap(pairs)[d]].nic.dev == d
  {
    var n := |pairs| - 1;
    if pairs[n].nic.dev != d {
      RailOf(pairs[..n], d);
    }
  }

  lemma {:induction false} DeviceOf(pairs: seq<GPUNICPair>, i: nat)
    requires LastOccurrence(pairs, i)
    ensures pairs[i].nic.dev in RailMap(pairs) && RailMap(pairs)[pairs[i].nic.dev] == i
  {
    var n := |pairs| - 1;
    if i < n {
      assert LastOccurrence(pairs[..n], i);
      DeviceOf(pairs[..n], i);
    }
  }

  /** Rails are the last occurrences, so different devices are on different rails. */
  lemma RailMapIsLastOccurrence(pairs: seq<GPUNICPair>)
    ensures forall d :: d in RailMap(pairs) <==> d in UniqueDevs(pairs)
    ensures forall d :: d in RailMap(pairs) ==>
              LastOccurrence(pairs, RailMap(pairs)[d]) && pairs[RailMap(pairs)[d]].nic.dev == d
    ensures forall i: nat :: LastOccurrence(pairs, i) ==>
              pairs[i].nic.dev in RailMap(pairs) && RailMap(pairs)[pairs[i].nic.dev] == i
  {
    RailMapKeys(pairs);
    forall d | d in RailMap(pairs)
      ensures LastOccurrence(pairs, RailMap(pairs)[d]) && pairs[RailMap(pairs)[d]].nic.dev == d
    {
      RailOf(pairs, d);
    }
    forall i: nat | LastOccurrence(pairs, i)
      ensures pairs[i].nic.dev in RailMap(pairs) && RailMap(pairs)[pairs[i].nic.dev] == i
    {
      DeviceOf(pairs, i);
    }
  }

  /** The rails of a node. */
  ghost function RailSet(pairs: seq<GPUNICPair>): set<nat> {
    set i: nat | i < |pairs| && LastOccurrence(pairs, i)
  }

  /** A topology that pairs every NIC once has its rails numbered 0, 1, 2, ... */
  lemma DistinctNicsRails(pairs: seq<GPUNICPair>)
    requires forall i, j :: 0 <= i < j < |pairs| ==> pairs[i].nic.dev != pairs[j].nic.dev
    ensures forall i: nat :: i in RailSet(pairs) <==> i < |pairs|
  {
  }
}
