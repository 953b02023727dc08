/** Distances in the PCIe tree: a device path lists the bus segments from the root down. */
module Pcie {
  import opened Cluster

  function SharedPrefix(a: seq<string>, b: seq<string>): (n: nat)
    ensures n <= |a| && n <= |b|
  {
    if a == [] || b == [] || a[0] != b[0] then 0 else 1 + SharedPrefix(a[1..], b[1..])
  }

  function Distance(a: seq<string>, b: seq<string>): nat {
    (|a| - SharedPrefix(a, b)) + (|b| - SharedPrefix(a, b))
  }

  method PcieSharedPrefix(a: seq<string>, b: seq<string>) returns (shared: nat)
    ensures shared == SharedPrefix(a, b)
  {
    var n := if |b| < |a| then |b| else |a|;
    for i := 0 to n
      invariant a[..i] == b[..i]
    {
      if a[i] != b[i] {
        PrefixIsShared(a, b, i);
        return i;
      }
      assert a[..i + 1] == a[..i] + [a[i]] && b[..i + 1] == b[..i] + [b[i]];
    }
    PrefixIsShared(a, b, n);
    return n;
  }

  /** The shared prefix is the one prefix that is common and cannot be extended. */
  lemma {:induction false} PrefixIsShared(a: seq<string>, b: seq<string>, n: nat)
    requires n <= |a| && n <= |b|
    ensures SharedPrefix(a, b) >= n <==> a[..n] == b[..n]
    ensures SharedPrefix(a, b) == n <==> a[..n] == b[..n] && (n < |a| && n < |b| ==> a[n] != b[n])
  {
    if a != [] && b != [] {
      if n > 0 {
        PrefixIsShared(a[1..], b[1..], n - 1);
        assert a[..n] == [a[0]] + a[1..][..n - 1] && b[..n] == [b[0]] + b[1..][..n - 1];
        assert a[..n][0] == a[0] && b[..n][0] == b[0];
        assert a[..n][1..] == a[1..][..n - 1] && b[..n][1..] == b[1..][..n - 1];
      } else {
        PrefixIsShared(a[1..], b[1..], 0);
      }
    }
  }

  /** Of three paths, the two shortest shared prefixes are equally long. */
  lemma {:induction false} SharedPrefixTriple(a: seq<string>, b: seq<string>, c: seq<string>)
    ensures SharedPrefix(a, c) >= SharedPrefix(a, b) || SharedPrefix(a, c) >= SharedPrefix(b, c)
  {
    if a != [] && b != [] && c != [] && a[0] == b[0] == c[0] {
      SharedPrefixTriple(a[1..], b[1..], c[1..]);
    }
  }

  lemma {:induction false} SharedPrefixSymmetric(a: seq<string>, b: seq<string>)
    ensures SharedPrefix(a, b) == SharedPrefix(b, a)
    ensures SharedPrefix(a, b) == |a| == |b| <==> a == b
  {
    if a != [] && b != [] {
      SharedPrefixSymmetric(a[1..], b[1..]);
      assert a == [a[0]] + a[1..] && b == [b[0]] + b[1..];
    }
  }

  /** The PCIe distance is a metric. */
  lemma DistanceIsAMetric(a: seq<string>, b: seq<string>, c: seq<string>)
    ensures Distance(a, b) == 0 <==> a == b
    ensures Distance(a, b) == Distance(b, a)
    ensures Distance(a, c) <= Distance(a, b) + Distance(b, c)
  {
    SharedPrefixSymmetric(a, b);
    SharedPrefixTriple(a, b, c);
  }

  /** The path of some device has at least two segments. */
  predicate Deep(gpus: seq<GPU>, nics: seq<NIC>) {
    || (exists i :: 0 <= i < |gpus| && |gpus[i].path| >= 2)
    || (exists i :: 0 <= i < |nics| && |nics[i].path| >= 2)
  }

  method IsFlat(gpus: seq<GPU>, nics: seq<NIC>) returns (flat: bool)
    ensures flat <==> !Deep(gpus, nics)
  {
    for i := 0 to |gpus|
      invariant forall j :: 0 <= j < i ==> |gpus[j].path| <= 1
    {
      if |gpus[i].path| > 1 { return false; }
    }
    for i := 0 to |nics|
      invariant forall j :: 0 <= j < i ==> |nics[j].path| <= 1
    {
      if |nics[i].path| > 1 { return false; }
    }
    return true;
  }

  method HasPciePaths(gpus: seq<GPU>, nics: seq<NIC>) returns (has: bool)
    ensures has <==> Deep(gpus, nics)
  {
    for i := 0 to |gpus|
      invariant forall j :: 0 <= j < i ==> |gpus[j].path| < 2
    {
      if |gpus[i].path| >= 2 { return true; }
    }
    for i := 0 to |nics|
      invariant forall j :: 0 <= j < i ==> |nics[j].path| < 2
    {
      if |nics[i].path| >= 2 { return true; }
    }
    return false;
  }
}
