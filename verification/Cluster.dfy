/** The records that the validation steps hand to one another. */
module Cluster {

  datatype Option<+T> = None | Some(value: T)

  datatype Status = Pass | Warn | Fail | Skip

  /** A server/client combination of nodes for a pairwise test. */
  datatype NodePair = NodePair(server: string, client: string)

  datatype GPU = GPU(id: int, numa: int, path: seq<string>)

  datatype NIC = NIC(dev: string, numa: int, path: seq<string>)

  datatype GPUNICPair = GPUNICPair(gpu: GPU, nic: NIC, hops: int, bw: real)

  datatype NodeTopology = NodeTopology(pairs: seq<GPUNICPair>)

  /** The outcome of one NIC pair, as the client pod reports it. */
  datatype NicResult = NicResult(src: string, dst: string, pass: bool, error: string)

  /** What one attempt of a job leaves behind; only pingmesh jobs carry per-NIC details. */
  datatype JobResult = JobResult(status: Status, details: Option<seq<NicResult>>)

  /** Every two positions hold different elements. */
  ghost predicate Distinct<T>(s: seq<T>) {
    forall i, j :: 0 <= i < j < |s| ==> s[i] != s[j]
  }

  lemma LastIsNew<T>(s: seq<T>)
    requires Distinct(s) && s != []
    ensures s[|s| - 1] !in s[..|s| - 1] && Distinct(s[..|s| - 1])
  {
  }

  lemma RemoveMember<T>(s: seq<T>, i: nat)
    requires Distinct(s) && i < |s|
    ensures Distinct(s[..i] + s[i + 1..])
    ensures forall x :: x in s[..i] + s[i + 1..] <==> x in s && x != s[i]
  {
    var r := s[..i] + s[i + 1..];
    assert s == s[..i] + [s[i]] + s[i + 1..];
    assert forall j :: 0 <= j < |r| ==> r[j] == if j < i then s[j] else s[j + 1];
  }

  lemma DistinctMultiplicity<T>(s: seq<T>, x: T)
    requires Distinct(s)
    ensures multiset(s)[x] == if x in s then 1 else 0
  {
    if s != [] {
      var n := |s| - 1;
      assert s == s[..n] + [s[n]];
      DistinctMultiplicity(s[..n], x);
      assert x in s <==> x in s[..n] || x == s[n];
      assert forall i :: 0 <= i < n ==> s[..n][i] != s[n];
    }
  }

  lemma RepeatedMultiplicity<T>(r: seq<T>, i: nat, j: nat)
    requires i < j < |r| && r[i] == r[j]
    ensures multiset(r)[r[i]] >= 2
  {
    assert r == r[..j] + [r[j]] + r[j + 1..];
    assert r[..j][i] == r[i];
  }

  lemma PermutationDistinct<T>(s: seq<T>, r: seq<T>)
    requires Distinct(s) && multiset(r) == multiset(s)
    ensures Distinct(r)
  {
    forall i, j | 0 <= i < j < |r| ensures r[i] != r[j] {
      DistinctMultiplicity(s, r[i]);
      if r[i] == r[j] { RepeatedMultiplicity(r, i, j); }
    }
  }

  lemma SameMembersSameSize<T(!new)>(a: seq<T>, b: seq<T>)
    requires Distinct(a) && Distinct(b) && forall x :: x in a <==> x in b
    ensures |a| == |b|
  {
    forall x ensures multiset(a)[x] == multiset(b)[x] {
      DistinctMultiplicity(a, x);
      DistinctMultiplicity(b, x);
    }
    assert multiset(a) == multiset(b);
    assert |multiset(a)| == |a|;
  }

  lemma SubsetSize<T>(a: set<T>, b: set<T>)
    requires a <= b
    ensures |a| <= |b|
    ensures |a| == |b| ==> a == b
  {
    assert b == a + (b - a);
    assert |b| == |a| + |b - a|;
  }

  lemma {:induction false} DistinctSize<T>(s: seq<T>)
    requires Distinct(s)
    ensures |set x | x in s| == |s|
  {
    if s != [] {
      var n := |s| - 1;
      LastIsNew(s);
      DistinctSize(s[..n]);
      assert (set x | x in s) == (set x | x in s[..n]) + {s[n]};
    }
  }

  ghost predicate InjectiveMap<A, B>(m: map<A, B>) {
    forall x, y :: x in m && y in m && m[x] == m[y] ==> x == y
  }

  lemma {:induction false} InjectiveMapSize<A, B>(m: map<A, B>)
    requires InjectiveMap(m)
    ensures |m.Keys| == |m.Values|
    decreases |m|
  {
    if m.Keys == {} {
      assert m.Values == {};
    } else {
      var x :| x in m.Keys;
      var rest := m - {x};
      assert rest.Keys == m.Keys - {x};
      forall v ensures v in rest.Values <==> v in m.Values && v != m[x] {
        if v in m.Values && v != m[x] {
          var y :| y in m && m[y] == v;
          assert y in rest && rest[y] == v;
        }
      }
      assert rest.Values == m.Values - {m[x]};
      InjectiveMapSize(rest);
    }
  }
}
