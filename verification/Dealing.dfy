/** Handing NICs out in turn: GPU i gets NIC i mod k. */
module Dealing {
  import opened Cluster
  import opened Matching
  import opened PairOrder
  import opened Topology

  function Dealt(gs: seq<GPU>, ns: seq<NIC>, hops: (GPU, NIC) -> nat): (r: seq<GPUNICPair>)
    requires ns != []
    ensures |r| == |gs|
    ensures forall i :: 0 <= i < |r| ==> r[i] == MakePair(gs[i], ns[i % |ns|], hops(gs[i], ns[i % |ns|]))
  {
    if gs == [] then []
    else
      var n := |gs| - 1;
      Dealt(gs[..n], ns, hops) + [MakePair(gs[n], ns[n % |ns|], hops(gs[n], ns[n % |ns|]))]
  }

  lemma NextTurn(n: nat, k: nat)
    requires k > 0
    ensures n % k + 1 < k ==> (n + 1) / k == n / k && (n + 1) % k == n % k + 1
    ensures n % k + 1 == k ==> (n + 1) / k == n / k + 1 && (n + 1) % k == 0
  {
    var q, m := n / k, n % k;
    assert n == q * k + m;
    if m + 1 < k {
      Quotient(n + 1, k, q, m + 1);
    } else {
      assert n + 1 == (q + 1) * k + 0;
      Quotient(n + 1, k, q + 1, 0);
    }
  }

  lemma Quotient(n: nat, k: nat, q: nat, m: nat)
    requires k > 0 && n == q * k + m && m < k
    ensures n / k == q && n % k == m
  {
    var d := n / k - q;
    assert n == (n / k) * k + n % k;
    assert d * k == m - n % k;
    MultipleOf(d, k);
  }

  lemma MultipleOf(d: int, k: int)
    requires k > 0
    ensures d >= 1 ==> d * k >= k
    ensures d <= -1 ==> d * k <= -k
  {
  }

  /** NIC r is used n / k times, and once more while the last turn has reached it. */
  lemma {:induction false} DealtLoad(gs: seq<GPU>, ns: seq<NIC>, hops: (GPU, NIC) -> nat, r: nat)
    requires UniqueNics(ns) && r < |ns|
    ensures Load(Dealt(gs, ns, hops), ns[r].dev) == |gs| / |ns| + if r < |gs| % |ns| then 1 else 0
  {
    var k := |ns|;
    if gs == [] {
      Quotient(0, k, 0, 0);
    } else {
      var n := |gs| - 1;
      DealtLoad(gs[..n], ns, hops, r);
      NextTurn(n, k);
      var p := MakePair(gs[n], ns[n % k], hops(gs[n], ns[n % k]));
      LoadAppend(Dealt(gs[..n], ns, hops), p, ns[r].dev);
    }
  }

  /** The loads of any two NICs differ by at most one. */
  lemma DealtEvenly(gs: seq<GPU>, ns: seq<NIC>, hops: (GPU, NIC) -> nat, a: NIC, b: NIC)
    requires UniqueNics(ns) && a in ns && b in ns
    ensures Load(Dealt(gs, ns, hops), a.dev) <= Load(Dealt(gs, ns, hops), b.dev) + 1
  {
    var i :| 0 <= i < |ns| && ns[i] == a;
    var j :| 0 <= j < |ns| && ns[j] == b;
    DealtLoad(gs, ns, hops, i);
    DealtLoad(gs, ns, hops, j);
  }

  /** ceil(g / k) */
  function EvenShare(g: nat, k: nat): nat
    requires k > 0
  {
    (g + k - 1) / k
  }

  lemma EvenShareIsCeiling(g: nat, k: nat)
    requires k > 0
    ensures EvenShare(g, k) == g / k + if g % k > 0 then 1 else 0
    ensures g <= k * EvenShare(g, k)
  {
    var q, m := g / k, g % k;
    assert g == q * k + m;
    if m > 0 {
      assert g + k - 1 == (q + 1) * k + (m - 1);
      Quotient(g + k - 1, k, q + 1, m - 1);
    } else {
      Quotient(g + k - 1, k, q, k - 1);
    }
  }

  /** No NIC gets less than the even share rounded down or more than it rounded up. */
  lemma DealtShare(gs: seq<GPU>, ns: seq<NIC>, hops: (GPU, NIC) -> nat, n: NIC)
    requires UniqueNics(ns) && n in ns
    ensures |gs| / |ns| <= Load(Dealt(gs, ns, hops), n.dev) <= EvenShare(|gs|, |ns|)
  {
    var i :| 0 <= i < |ns| && ns[i] == n;
    DealtLoad(gs, ns, hops, i);
    EvenShareIsCeiling(|gs|, |ns|);
  }
}
