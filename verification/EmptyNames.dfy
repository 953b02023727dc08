/** The scan for the best served version on lists that contain empty names. */
module EmptyNames {
  import opened Text
  import opened Versions

  /** No served version is above the chosen one. */
  ghost predicate Maximal(versions: seq<Version>) {
    forall name :: Serves(versions, name) ==> ApiLeq(name, Best(versions))
  }

  /** Not empty, and not below the empty name, which is read as stable version 0. */
  predicate High(name: string) {
    name != "" && ApiLeq("", name)
  }

  ghost predicate ServesHigh(versions: seq<Version>) {
    exists name :: Serves(versions, name) && High(name)
  }

  /** The last served entry has no name. */
  predicate EndsEmpty(versions: seq<Version>) {
    versions != []
    && var v := versions[|versions| - 1];
       if v.served then v.name == "" else EndsEmpty(versions[..|versions| - 1])
  }

  function NextBest(best: string, v: Version): string {
    if v.served && (best == "" || CompareApiVersions(v.name, best) > 0) then v.name else best
  }

  lemma ServesAppend(versions: seq<Version>, v: Version, name: string)
    ensures Serves(versions + [v], name) <==> Serves(versions, name) || v == Version(name, true)
  {
  }

  // ---- What bounds the served versions ----

  /** The name is at most the best, or at most an empty name that is served. */
  ghost predicate BoundedBy(versions: seq<Version>, best: string, name: string) {
    ApiLeq(name, best) || (Serves(versions, "") && ApiLeq(name, ""))
  }

  ghost predicate Bounded(versions: seq<Version>, best: string) {
    forall name :: Serves(versions, name) ==> BoundedBy(versions, best, name) && (best == "" ==> Serves(versions, ""))
  }

  lemma BoundedAppend(versions: seq<Version>, v: Version, best: string)
    requires Bounded(versions, best)
    ensures Bounded(versions + [v], NextBest(best, v))
  {
    var all, next := versions + [v], NextBest(best, v);
    ServesAppend(versions, v, "");
    forall name | Serves(all, name) ensures BoundedBy(all, next, name) && (next == "" ==> Serves(all, "")) {
      ServesAppend(versions, v, name);
      ApiLeqTotalPreorder();
      hide CompareApiVersions, Serves;
    }
  }

  lemma {:induction false} BestIsBounded(versions: seq<Version>)
    ensures Bounded(versions, Best(versions))
  {
    hide CompareApiVersions;
    if versions != [] {
      var n := |versions| - 1;
      assert versions == versions[..n] + [versions[n]];
      BestIsBounded(versions[..n]);
      hide Bounded, Best;
      BestAppend(versions[..n], versions[n]);
      BoundedAppend(versions[..n], versions[n], Best(versions[..n]));
    }
  }

  // ---- High versions stay, others give way to an empty name ----

  lemma HighStays(best: string, v: Version)
    ensures High(NextBest(best, v)) <==> High(best) || (v.served && High(v.name))
  {
    ApiTransitive("", v.name, best);
    ApiTransitive("", best, v.name);
    hide CompareApiVersions;
  }

  lemma ApiTransitive(a: string, b: string, c: string)
    ensures ApiLeq(a, b) && ApiLeq(b, c) ==> ApiLeq(a, c)
    ensures CompareApiVersions(b, c) == -CompareApiVersions(c, b)
  {
    hide ParseApiVersion;
  }

  lemma ServesHighAppend(versions: seq<Version>, v: Version)
    ensures ServesHigh(versions + [v]) <==> ServesHigh(versions) || (v.served && High(v.name))
  {
    hide High;
    forall name ensures Serves(versions + [v], name) <==> Serves(versions, name) || v == Version(name, true) {
      ServesAppend(versions, v, name);
    }
    hide Serves;
    if v.served && High(v.name) { assert v == Version(v.name, true); }
  }

  lemma {:induction false} BestIsHigh(versions: seq<Version>)
    ensures High(Best(versions)) <==> ServesHigh(versions)
  {
    if versions != [] {
      hide High;
      var n := |versions| - 1;
      assert versions == versions[..n] + [versions[n]];
      BestIsHigh(versions[..n]);
      BestAppend(versions[..n], versions[n]);
      HighStays(Best(versions[..n]), versions[n]);
      ServesHighAppend(versions[..n], versions[n]);
    }
  }

  ghost predicate NothingServed(versions: seq<Version>) {
    forall name :: !Serves(versions, name)
  }

  lemma EmptyNext(best: string, v: Version)
    requires !High(best)
    ensures NextBest(best, v) == "" <==> if v.served then v.name == "" else best == ""
  {
    ApiLeqTotalPreorder();
    hide CompareApiVersions;
  }

  lemma {:induction false} BestIsEmpty(versions: seq<Version>)
    requires !ServesHigh(versions)
    ensures Best(versions) == "" <==> NothingServed(versions) || EndsEmpty(versions)
  {
    if versions != [] {
      hide High, CompareApiVersions;
      var n := |versions| - 1;
      var v := versions[n];
      assert versions == versions[..n] + [v];
      ServesHighAppend(versions[..n], v);
      BestIsEmpty(versions[..n]);
      BestIsHigh(versions[..n]);
      BestAppend(versions[..n], v);
      EmptyNext(Best(versions[..n]), v);
      forall name ensures Serves(versions, name) <==> Serves(versions[..n], name) || v == Version(name, true) {
        ServesAppend(versions[..n], v, name);
      }
      hide Serves, ServesHigh;
      if v.served { assert v == Version(v.name, true); }
    }
  }

  lemma {:induction false} BestIsServed(versions: seq<Version>)
    ensures Best(versions) != "" ==> Serves(versions, Best(versions))
  {
    if versions != [] {
      var n := |versions| - 1;
      assert versions == versions[..n] + [versions[n]];
      BestIsServed(versions[..n]);
      BestAppend(versions[..n], versions[n]);
      ServesAppend(versions[..n], versions[n], Best(versions));
      hide CompareApiVersions;
    }
  }

  /** On any list at all the choice is maximal exactly if no empty name is served, or some named version is
      not below the empty one, or the last served entry is empty itself. */
  lemma ScanIsMaximalExactly(versions: seq<Version>)
    ensures Maximal(versions) <==> !Serves(versions, "") || ServesHigh(versions) || EndsEmpty(versions)
  {
    BestIsBounded(versions);
    BestIsHigh(versions);
    BestIsServed(versions);
    ApiLeqTotalPreorder();
    if !ServesHigh(versions) { BestIsEmpty(versions); }
    hide Best, CompareApiVersions, Serves, ServesHigh, EndsEmpty;
    if Serves(versions, "") && !High(Best(versions)) && Best(versions) != "" {
      assert !ApiLeq("", Best(versions));
    }
  }

  /** For example v0alpha1 wins over v0beta1 behind an empty name. */
  lemma EmptyNameHidesABetterVersion()
    ensures var versions := [Version("v0beta1", true), Version("", true), Version("v0alpha1", true)];
            Best(versions) == "v0alpha1" && !ApiLeq("v0beta1", "v0alpha1") && !Maximal(versions)
  {
    hide ParseApiVersion, Best;
    ZeroVersions();
    var a, b, c := Version("v0beta1", true), Version("", true), Version("v0alpha1", true);
    assert [] + [a] == [a] && [a] + [b] == [a, b] && [a, b] + [c] == [a, b, c];
    EmptyBest();
    BestAppend([], a);
    BestAppend([a], b);
    BestAppend([a, b], c);
    assert Serves([a, b, c], "v0beta1");
  }

  lemma EmptyBest()
    ensures Best([]) == ""
  {
  }

  lemma ZeroVersions()
    ensures ParseApiVersion("v0beta1") == ApiVersion(0, 1, 1) && ParseApiVersion("v0alpha1") == ApiVersion(0, 0, 1)
    ensures ParseApiVersion("") == ApiVersion(0, 2, 0)
  {
    hide ParseApiVersion, ToInt;
    SmallDecimals();
    DecimalInt(0);
    DecimalInt(1);
    ReadBeta("0", "1");
    ReadAlpha("0", "1");
    assert "v" + ("0" + "beta" + "1") == "v0beta1" && "v" + ("0" + "alpha" + "1") == "v0alpha1";
    NoVersion();
  }

  lemma NoVersion()
    ensures ParseApiVersion("") == ApiVersion(0, 2, 0)
  {
    hide IndexFrom, ToInt;
    NotIn("", "alpha", 'a');
    NotIn("", "beta", 'a');
    NoMarker("", "alpha");
    NoMarker("", "beta");
    EmptyIsZero();
  }

  lemma EmptyIsZero()
    ensures ToInt("") == 0
  {
  }
}
