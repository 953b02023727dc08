/** The order of numbered API versions that the documentation promises: major number, then alpha before beta
    before stable, then minor number. */
module ApiOrder {
  import opened Text
  import opened Versions

  /** v3alpha1 is (3, 0, 1), v3beta2 is (3, 1, 2) and v3 is (3, 2, 0); the numbers have 64 bits. */
  predicate Numbered(v: ApiVersion) {
    && 0 <= v.major <= MAX_INT && 0 <= v.minor <= MAX_INT && 0 <= v.stability <= 2
    && (v.stability == 2 ==> v.minor == 0)
  }

  /** The comparison of two numbered names is the documented order. */
  lemma DocumentedOrder(v: ApiVersion, w: ApiVersion)
    requires Numbered(v) && Numbered(w)
    ensures CompareApiVersions(ApiName(v), ApiName(w)) < 0
       <==> || v.major < w.major
            || (v.major == w.major && v.stability < w.stability)
            || (v.major == w.major && v.stability == w.stability && v.minor < w.minor)
    ensures CompareApiVersions(ApiName(v), ApiName(w)) == 0 <==> v == w
  {
    hide ParseApiVersion, ApiName;
    ApiNameRoundTrip(v);
    ApiNameRoundTrip(w);
  }

  /** For example v1alpha1 < v1alpha2 < v1beta1 < v1beta2 < v1 < v2alpha1. */
  lemma DocumentedExample()
    ensures CompareApiVersions("v1alpha1", "v1alpha2") < 0 && CompareApiVersions("v1alpha2", "v1beta1") < 0
    ensures CompareApiVersions("v1beta1", "v1beta2") < 0 && CompareApiVersions("v1beta2", "v1") < 0
    ensures CompareApiVersions("v1", "v2alpha1") < 0
  {
    SmallNames();
    hide CompareApiVersions, ApiName;
    var a1, a2, b1, b2 := ApiVersion(1, 0, 1), ApiVersion(1, 0, 2), ApiVersion(1, 1, 1), ApiVersion(1, 1, 2);
    DocumentedOrder(a1, a2);
    DocumentedOrder(a2, b1);
    DocumentedOrder(b1, b2);
    DocumentedOrder(b2, ApiVersion(1, 2, 0));
    DocumentedOrder(ApiVersion(1, 2, 0), ApiVersion(2, 0, 1));
  }

  lemma SmallNames()
    ensures ApiName(ApiVersion(1, 0, 1)) == "v1alpha1" && ApiName(ApiVersion(1, 0, 2)) == "v1alpha2"
    ensures ApiName(ApiVersion(1, 1, 1)) == "v1beta1" && ApiName(ApiVersion(1, 1, 2)) == "v1beta2"
    ensures ApiName(ApiVersion(1, 2, 0)) == "v1" && ApiName(ApiVersion(2, 0, 1)) == "v2alpha1"
  {
    SmallDecimals();
    hide Decimal;
  }

  /** All served versions have numbered names, and there is one. */
  ghost predicate ServesNumbered(versions: seq<Version>) {
    && (forall name :: Serves(versions, name) ==> exists v :: Numbered(v) && ApiName(v) == name)
    && (exists name :: Serves(versions, name))
  }

  lemma NamesAreNotEmpty(v: ApiVersion)
    requires Numbered(v)
    ensures ApiName(v) != ""
  {
    hide Decimal;
    assert ApiName(v)[0] == 'v';
  }

  lemma NumberedMeansNamed(versions: seq<Version>)
    requires ServesNumbered(versions)
    ensures Named(versions)
  {
    forall v | Numbered(v) ensures ApiName(v) != "" { NamesAreNotEmpty(v); }
    hide ApiName;
  }

  /** The chosen version is the served one with the greatest numbers, in the documented order. */
  lemma BestIsGreatest(versions: seq<Version>) returns (best: ApiVersion)
    requires ServesNumbered(versions)
    ensures Numbered(best) && Best(versions) == ApiName(best) && Serves(versions, ApiName(best))
    ensures forall w :: Numbered(w) && Serves(versions, ApiName(w)) ==>
              || w == best || w.major < best.major
              || (w.major == best.major && w.stability < best.stability)
              || (w.major == best.major && w.stability == best.stability && w.minor < best.minor)
  {
    NumberedMeansNamed(versions);
    BestIsMaximal(versions);
    hide Best, ApiName, CompareApiVersions;
    best :| Numbered(best) && ApiName(best) == Best(versions);
    forall w | Numbered(w) && Serves(versions, ApiName(w))
      ensures || w == best || w.major < best.major
              || (w.major == best.major && w.stability < best.stability)
              || (w.major == best.major && w.stability == best.stability && w.minor < best.minor)
    {
      assert ApiLeq(ApiName(w), ApiName(best));
      DocumentedOrder(w, best);
    }
  }

  /** The minimum is reached exactly if some served version has at least its numbers. */
  lemma MinimumReachedByNumbers(versions: seq<Version>, min: ApiVersion)
    requires ServesNumbered(versions) && Numbered(min)
    ensures CompareApiVersions(Best(versions), ApiName(min)) >= 0
       <==> exists w :: Numbered(w) && Serves(versions, ApiName(w))
                        && (|| w == min || min.major < w.major
                            || (min.major == w.major && min.stability < w.stability)
                            || (min.major == w.major && min.stability == w.stability && min.minor < w.minor))
  {
    var best := BestIsGreatest(versions);
    DocumentedOrder(best, min);
    hide Best, ApiName, CompareApiVersions, Serves, ServesNumbered;
    assert Numbered(best) && Serves(versions, ApiName(best));
  }

  /** Among served versions that compare equal the first one listed is chosen. */
  lemma {:induction false} BestIsFirstOfEquals(versions: seq<Version>) returns (i: nat)
    requires Named(versions) && Best(versions) != ""
    ensures i < |versions| && versions[i] == Version(Best(versions), true)
    ensures forall j :: 0 <= j < i && versions[j].served ==> CompareApiVersions(versions[j].name, Best(versions)) < 0
  {
    var n := |versions| - 1;
    var before := versions[..n];
    assert versions == before + [versions[n]];
    BestAppend(before, versions[n]);
    FewerServed(before, versions[n]);
    BestIsMaximal(before);
    hide Best, CompareApiVersions, ParseApiVersion;
    if Best(versions) == Best(before) && Best(before) != "" {
      i := BestIsFirstOfEquals(before);
    } else {
      i := n;
      forall j | 0 <= j < n && versions[j].served ensures CompareApiVersions(versions[j].name, Best(versions)) < 0 {
        assert before[j] == versions[j] && Serves(before, versions[j].name);
        LowerStays(versions[j].name, Best(before), Best(versions));
      }
    }
  }

  lemma ServesMore(versions: seq<Version>, v: Version, name: string)
    ensures Serves(versions, name) ==> Serves(versions + [v], name)
  {
  }

  lemma FewerServed(versions: seq<Version>, v: Version)
    requires Named(versions + [v])
    ensures Named(versions)
  {
    ServesMore(versions, v, "");
  }

  lemma LowerStays(a: string, b: string, c: string)
    requires ApiLeq(a, b) && CompareApiVersions(c, b) > 0
    ensures CompareApiVersions(a, c) < 0
  {
    hide ParseApiVersion;
  }
}
