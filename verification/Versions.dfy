/** The version orders of the CRD checker: semantic versions and Kubernetes API versions. */
module Versions {
  import opened Cluster
  import opened Ordering
  import opened Text

  const MIN_INT: int := -0x8000_0000_0000_0000

  function TrimPrefix(s: string, p: string): string {
    if OccursAt(s, p, 0) then s[|p|..] else s
  }

  /** strconv.Atoi with its error ignored: 0 for anything but digits behind an optional sign, the
      nearest int for a number out of range. */
  function ToInt(s: string): int {
    if s != "" && s[0] == '-' then -(Unsigned(s[1..], -MIN_INT) as int)
    else if s != "" && s[0] == '+' then Unsigned(s[1..], MAX_INT)
    else Unsigned(s, MAX_INT)
  }

  function Unsigned(s: string, limit: nat): nat {
    if s == "" || !AllOf(s, IsDigit) then 0 else if Value(s) <= limit then Value(s) else limit
  }

  function CmpInt(a: int, b: int): (c: int)
    ensures -1 <= c <= 1
  {
    if a < b then -1 else if a > b then 1 else 0
  }

  // ---- compareSemver ----

  datatype Semver = Semver(numbers: seq<int>, tag: string)

  function SplitPrerelease(v: string): (string, string) {
    match IndexFrom(v, "-", 0)
    case None => (v, "")
    case Some(i) => (v[..i], v[i + 1..])
  }

  function Numbers(parts: seq<string>): (r: seq<int>)
    ensures |r| == |parts| && forall i :: 0 <= i < |r| ==> r[i] == ToInt(parts[i])
  {
    if parts == [] then [] else Numbers(parts[..|parts| - 1]) + [ToInt(parts[|parts| - 1])]
  }

  function ReadSemver(s: string): Semver {
    var (version, tag) := SplitPrerelease(TrimPrefix(s, "v"));
    Semver(Numbers(Split(version, ".")), tag)
  }

  /** Missing numbers count as 0. */
  function At(x: seq<int>, i: nat): int {
    if i < |x| then x[i] else 0
  }

  /** x comes before y: the first numbers that differ decide. */
  ghost predicate NumbersLess(x: seq<int>, y: seq<int>) {
    exists k: nat :: At(x, k) < At(y, k) && AgreeUpTo(x, y, k)
  }

  ghost predicate AgreeUpTo(x: seq<int>, y: seq<int>, k: nat) {
    forall i: nat :: i < k ==> At(x, i) == At(y, i)
  }

  ghost predicate SameNumbers(x: seq<int>, y: seq<int>) {
    forall i: nat :: At(x, i) == At(y, i)
  }

  /** A release comes after all its pre-releases. */
  predicate TagLess(a: string, b: string) {
    if a == "" then false else if b == "" then true else StrLess(a, b)
  }

  /** The order of versions that compareSemver decides. */
  ghost predicate SemverLess(a: Semver, b: Semver) {
    NumbersLess(a.numbers, b.numbers) || (SameNumbers(a.numbers, b.numbers) && TagLess(a.tag, b.tag))
  }

  method CompareSemver(a: string, b: string) returns (c: int)
    ensures c == -1 <==> SemverLess(ReadSemver(a), ReadSemver(b))
    ensures c == 1 <==> SemverLess(ReadSemver(b), ReadSemver(a))
    ensures c == 0 <==> SameNumbers(ReadSemver(a).numbers, ReadSemver(b).numbers) && ReadSemver(a).tag == ReadSemver(b).tag
    ensures -1 <= c <= 1
  {
    hide ToInt, Split, OccursAt;
    var (aVer, aPre) := SplitPrerelease(TrimPrefix(a, "v"));
    var (bVer, bPre) := SplitPrerelease(TrimPrefix(b, "v"));
    var aParts, bParts := Split(aVer, "."), Split(bVer, ".");
    var maxLen := if |bParts| > |aParts| then |bParts| else |aParts|;
    ghost var x, y := Numbers(aParts), Numbers(bParts);
    NumbersTrichotomy(x, y);
    StrLessTrichotomy(aPre, bPre);
    for i := 0 to maxLen
      invariant AgreeUpTo(x, y, i)
    {
      var aVal, bVal := 0, 0;
      if i < |aParts| { aVal := ToInt(aParts[i]); }
      if i < |bParts| { bVal := ToInt(bParts[i]); }
      assert aVal == At(x, i) && bVal == At(y, i);
      if aVal != bVal {
        DifferAt(x, y, i);
        return CmpInt(aVal, bVal);
      }
    }
    assert SameNumbers(x, y);
    if aPre == "" && bPre == "" { return 0; }
    if aPre == "" { return 1; }
    if bPre == "" { return -1; }
    if StrLess(aPre, bPre) { return -1; }
    if StrLess(bPre, aPre) { return 1; }
    return 0;
  }

  lemma DifferAt(x: seq<int>, y: seq<int>, i: nat)
    requires AgreeUpTo(x, y, i) && At(x, i) != At(y, i)
    ensures NumbersLess(x, y) <==> At(x, i) < At(y, i)
    ensures NumbersLess(y, x) <==> At(y, i) < At(x, i)
    ensures !SameNumbers(x, y)
  {
    assert AgreeUpTo(y, x, i);
    if NumbersLess(x, y) {
      var k: nat :| At(x, k) < At(y, k) && AgreeUpTo(x, y, k);
      assert !(i < k) && !(k < i);
    }
    if NumbersLess(y, x) {
      var k: nat :| At(y, k) < At(x, k) && AgreeUpTo(y, x, k);
      assert !(i < k) && !(k < i);
    }
  }

  /** Exactly one of less, equal and greater. */
  lemma NumbersTrichotomy(x: seq<int>, y: seq<int>)
    ensures NumbersLess(x, y) || NumbersLess(y, x) || SameNumbers(x, y)
    ensures !(NumbersLess(x, y) && NumbersLess(y, x))
    ensures SameNumbers(x, y) ==> !NumbersLess(x, y) && !NumbersLess(y, x)
  {
    var k := FirstDifference(x, y, 0);
    if At(x, k) != At(y, k) {
      DifferAt(x, y, k);
    }
  }

  /** The first position from i on where x and y differ, or one behind both. */
  lemma FirstDifference(x: seq<int>, y: seq<int>, i: nat) returns (k: nat)
    requires AgreeUpTo(x, y, i)
    ensures AgreeUpTo(x, y, k) && (At(x, k) == At(y, k) ==> SameNumbers(x, y))
    decreases |x| + |y| - i
  {
    k := i;
    if At(x, i) == At(y, i) && i < |x| + |y| {
      k := FirstDifference(x, y, i + 1);
    }
  }

  lemma NumbersLessTransitive(x: seq<int>, y: seq<int>, z: seq<int>)
    requires NumbersLess(x, y) && NumbersLess(y, z)
    ensures NumbersLess(x, z)
  {
    var i: nat :| At(x, i) < At(y, i) && AgreeUpTo(x, y, i);
    var j: nat :| At(y, j) < At(z, j) && AgreeUpTo(y, z, j);
    var k := if i < j then i else j;
    assert AgreeUpTo(x, z, k) && At(x, k) < At(z, k);
  }

  lemma SameNumbersLess(x: seq<int>, y: seq<int>, z: seq<int>)
    requires SameNumbers(x, y)
    ensures NumbersLess(x, z) <==> NumbersLess(y, z)
    ensures NumbersLess(z, x) <==> NumbersLess(z, y)
  {
    forall k: nat ensures (AgreeUpTo(x, z, k) <==> AgreeUpTo(y, z, k)) && (AgreeUpTo(z, x, k) <==> AgreeUpTo(z, y, k)) {}
  }

  /** a is not above b. */
  ghost predicate SemverLeq(a: string, b: string) {
    !SemverLess(ReadSemver(b), ReadSemver(a))
  }

  lemma TagTrichotomy(a: string, b: string)
    ensures a == b || TagLess(a, b) || TagLess(b, a)
    ensures !(TagLess(a, b) && TagLess(b, a)) && (a == b ==> !TagLess(a, b))
  {
    StrLessTrichotomy(a, b);
  }

  lemma TagLessTransitive(a: string, b: string, c: string)
    requires TagLess(a, b) && TagLess(b, c)
    ensures TagLess(a, c)
  {
    if c != "" { StrLessTransitive(a, b, c); }
  }

  lemma SemverTrichotomy(a: Semver, b: Semver)
    ensures SemverLess(a, b) || SemverLess(b, a) || (SameNumbers(a.numbers, b.numbers) && a.tag == b.tag)
    ensures !(SemverLess(a, b) && SemverLess(b, a))
    ensures SameNumbers(a.numbers, b.numbers) && a.tag == b.tag ==> !SemverLess(a, b)
  {
    NumbersTrichotomy(a.numbers, b.numbers);
    TagTrichotomy(a.tag, b.tag);
  }

  lemma SemverLessTransitive(a: Semver, b: Semver, c: Semver)
    requires SemverLess(a, b) && SemverLess(b, c)
    ensures SemverLess(a, c)
  {
    var x, y, z := a.numbers, b.numbers, c.numbers;
    hide NumbersLess, TagLess;
    if NumbersLess(x, y) {
      if NumbersLess(y, z) { NumbersLessTransitive(x, y, z); } else { SameNumbersLess(y, z, x); }
    } else {
      SameNumbersLess(x, y, z);
      if !NumbersLess(y, z) { TagLessTransitive(a.tag, b.tag, c.tag); }
    }
  }

  lemma EqualSemver(a: Semver, b: Semver, c: Semver)
    requires SameNumbers(a.numbers, b.numbers) && a.tag == b.tag
    ensures SemverLess(a, c) <==> SemverLess(b, c)
    ensures SemverLess(c, a) <==> SemverLess(c, b)
  {
    SameNumbersLess(a.numbers, b.numbers, c.numbers);
    hide NumbersLess, TagLess;
    assert SameNumbers(a.numbers, c.numbers) <==> SameNumbers(b.numbers, c.numbers);
  }

  /** compareSemver is a total preorder on all strings, in spite of the padding with zeros. */
  lemma SemverLeqTotalPreorder()
    ensures TotalPreorder(SemverLeq)
  {
    hide SemverLess, ReadSemver;
    forall a, b ensures SemverLeq(a, b) || SemverLeq(b, a) {
      SemverTrichotomy(ReadSemver(a), ReadSemver(b));
    }
    forall a, b, c | SemverLeq(a, b) && SemverLeq(b, c) ensures SemverLeq(a, c) {
      SemverLeqTransitive(ReadSemver(a), ReadSemver(b), ReadSemver(c));
    }
  }

  lemma SemverLeqTransitive(a: Semver, b: Semver, c: Semver)
    requires !SemverLess(b, a) && !SemverLess(c, b)
    ensures !SemverLess(c, a)
  {
    hide SemverLess, SameNumbers;
    SemverTrichotomy(a, b);
    SemverTrichotomy(b, c);
    SemverTrichotomy(a, c);
    if SemverLess(a, b) {
      if SemverLess(b, c) { SemverLessTransitive(a, b, c); } else { EqualSemver(b, c, a); }
    } else {
      EqualSemver(a, b, c);
    }
  }

  // ---- Semantic Versioning 2.0.0, section 11 ----

  /** A version as Semantic Versioning writes it, without build metadata. */
  datatype Release = Release(major: nat, minor: nat, patch: nat, tag: Option<string>)

  function Core(v: Release): string {
    Joined([Decimal(v.major), Decimal(v.minor), Decimal(v.patch)], ".")
  }

  function Written(v: Release): string {
    "v" + if v.tag.None? then Core(v) else Core(v) + "-" + v.tag.value
  }

  predicate Writable(v: Release) {
    v.major <= MAX_INT && v.minor <= MAX_INT && v.patch <= MAX_INT && (v.tag.Some? ==> v.tag.value != "")
  }

  function TagOf(v: Release): string {
    if v.tag.None? then "" else v.tag.value
  }

  lemma NotIn(s: string, m: string, c: char)
    requires c in m && c !in s
    ensures !Occurs(s, m)
  {
    var i :| 0 <= i < |m| && m[i] == c;
    forall j | 0 <= j <= |s| ensures !OccursAt(s, m, j) {
      if OccursAt(s, m, j) { CharAt(s, m, j, i); }
    }
  }

  lemma CharAt(s: string, m: string, j: nat, i: nat)
    requires OccursAt(s, m, j) && i < |m|
    ensures m[i] in s
  {
    assert s[j..j + |m|][i] == s[j + i];
  }

  lemma DigitsOnly(s: string, c: char)
    requires AllOf(s, IsDigit) && !IsDigit(c)
    ensures c !in s
  {
  }

  lemma DecimalInt(n: nat)
    requires n <= MAX_INT
    ensures ToInt(Decimal(n)) == n
  {
    DecimalDigits(n);
    assert IsDigit(Decimal(n)[0]);
  }

  /** Digits are read with an optional sign, up to 64 bits; anything else is 0. */
  lemma ToIntReads(n: nat, s: string)
    ensures n <= MAX_INT ==> ToInt(Decimal(n)) == n && ToInt("+" + Decimal(n)) == n && ToInt("-" + Decimal(n)) + n == 0
    ensures n > MAX_INT ==> ToInt(Decimal(n)) == MAX_INT
    ensures (exists c :: c in s && !IsDigit(c) && c != '+' && c != '-') ==> ToInt(s) == 0
  {
    DecimalDigits(n);
    hide Decimal, Value;
    var d := Decimal(n);
    assert IsDigit(d[0]) && ("+" + d)[1..] == d && ("-" + d)[1..] == d;
    if c :| c in s && !IsDigit(c) && c != '+' && c != '-' {
      var i :| 0 <= i < |s| && s[i] == c;
      assert i > 0 ==> s[1..][i - 1] == c;
    }
  }

  lemma CoreParts(v: Release)
    requires Writable(v)
    ensures Split(Core(v), ".") == [Decimal(v.major), Decimal(v.minor), Decimal(v.patch)]
    ensures '-' !in Core(v)
  {
    DecimalDigits(v.major);
    DecimalDigits(v.minor);
    DecimalDigits(v.patch);
    var parts := [Decimal(v.major), Decimal(v.minor), Decimal(v.patch)];
    hide Decimal, Split, Occurs;
    forall i | 0 <= i < |parts| ensures !Occurs(parts[i], ".") && '-' !in parts[i] {
      DigitsOnly(parts[i], '.');
      DigitsOnly(parts[i], '-');
      NotIn(parts[i], ".", '.');
    }
    SplitJoined(parts, ".");
    assert parts[1..] == [parts[1], parts[2]] && [parts[1], parts[2]][1..] == [parts[2]];
    assert Joined([parts[1], parts[2]], ".") == parts[1] + "." + parts[2];
  }

  lemma TrimsV(s: string)
    ensures TrimPrefix("v" + s, "v") == s
  {
    assert ("v" + s)[0..1] == "v";
  }

  lemma SplitsTag(core: string, tag: Option<string>)
    requires '-' !in core
    ensures SplitPrerelease(if tag.None? then core else core + "-" + tag.value)
         == (core, if tag.None? then "" else tag.value)
  {
    NotIn(core, "-", '-');
    if tag.None? {
      NoMarker(core, "-");
    } else {
      FirstMarker(core, "-", tag.value);
      var s := core + "-" + tag.value;
      assert s[..|core|] == core && s[|core| + 1..] == tag.value;
    }
  }

  /** Reading a written version gives back its three numbers and its pre-release tag. */
  lemma SemverRoundTrip(v: Release)
    requires Writable(v)
    ensures ReadSemver(Written(v)) == Semver([v.major, v.minor, v.patch], TagOf(v))
  {
    hide Core, Split, Decimal, ToInt, SplitPrerelease, TrimPrefix;
    CoreParts(v);
    TrimsV(if v.tag.None? then Core(v) else Core(v) + "-" + v.tag.value);
    SplitsTag(Core(v), v.tag);
    DecimalInt(v.major);
    DecimalInt(v.minor);
    DecimalInt(v.patch);
  }

  /** Sections 11.2 and 11.3: major, minor and patch numerically, then a pre-release before its release.
      Between two tags of the same version, plain string order. */
  predicate PrecedesPlainly(v: Release, w: Release) {
    if v.major != w.major then v.major < w.major
    else if v.minor != w.minor then v.minor < w.minor
    else if v.patch != w.patch then v.patch < w.patch
    else if v.tag.None? || w.tag.None? then v.tag.Some? && w.tag.None?
    else StrLess(v.tag.value, w.tag.value)
  }

  lemma CompareWritten(v: Release, w: Release)
    requires Writable(v) && Writable(w)
    ensures SemverLess(ReadSemver(Written(v)), ReadSemver(Written(w))) <==> PrecedesPlainly(v, w)
  {
    SemverRoundTrip(v);
    SemverRoundTrip(w);
    hide ReadSemver, Written;
    var x, y := [v.major, v.minor, v.patch], [w.major, w.minor, w.patch];
    assert At(x, 0) == v.major && At(x, 1) == v.minor && At(x, 2) == v.patch;
    assert At(y, 0) == w.major && At(y, 1) == w.minor && At(y, 2) == w.patch;
    if v.major != w.major { DifferAt(x, y, 0); }
    else if v.minor != w.minor { DifferAt(x, y, 1); }
    else if v.patch != w.patch { DifferAt(x, y, 2); }
    else { NumbersTrichotomy(x, y); }
  }

  // ---- compareAPIVersions ----

  datatype ApiVersion = ApiVersion(major: int, stability: int, minor: int)

  function ParseApiVersion(name: string): ApiVersion {
    var s := TrimPrefix(name, "v");
    var alpha := IndexFrom(s, "alpha", 0);
    if alpha.Some? then ApiVersion(ToInt(s[..alpha.value]), 0, ToInt(s[alpha.value + 5..]))
    else
      var beta := IndexFrom(s, "beta", 0);
      if beta.Some? then ApiVersion(ToInt(s[..beta.value]), 1, ToInt(s[beta.value + 4..]))
      else ApiVersion(ToInt(s), 2, 0)
  }

  function CompareApiVersions(a: string, b: string): int {
    var av, bv := ParseApiVersion(a), ParseApiVersion(b);
    if av.major != bv.major then CmpInt(av.major, bv.major)
    else if av.stability != bv.stability then CmpInt(av.stability, bv.stability)
    else CmpInt(av.minor, bv.minor)
  }

  predicate ApiLeq(a: string, b: string) {
    CompareApiVersions(a, b) <= 0
  }

  lemma ApiLeqTotalPreorder()
    ensures TotalPreorder(ApiLeq)
    ensures forall a, b :: CompareApiVersions(a, b) == -CompareApiVersions(b, a)
  {
    hide ParseApiVersion;
  }

  /** A numbered API version name: v3alpha1, v3beta2 or v3. */
  function ApiName(v: ApiVersion): string
    requires v.major >= 0 && v.minor >= 0
  {
    "v" + if v.stability == 2 then Decimal(v.major)
          else Decimal(v.major) + (if v.stability == 0 then "alpha" else "beta") + Decimal(v.minor)
  }

  lemma StartsThere(s: string, m: string, j: nat)
    requires OccursAt(s, m, j) && m != ""
    ensures j < |s| && s[j] == m[0]
  {
    assert s[j..j + |m|][0] == s[j];
  }

  lemma WordAfterDigits(p: string, m: string, rest: string)
    requires AllOf(p, IsDigit) && m != "" && !IsDigit(m[0])
    ensures IndexFrom(p + m + rest, m, 0) == Some(|p|)
  {
    var s := p + m + rest;
    assert s[|p|..|p| + |m|] == m;
    assert OccursAt(s, m, |p|);
    forall j | 0 <= j < |p| ensures !OccursAt(s, m, j) {
      assert s[j] == p[j] && IsDigit(p[j]);
      if OccursAt(s, m, j) { StartsThere(s, m, j); }
    }
  }

  lemma ReadAlpha(d: string, e: string)
    requires AllOf(d, IsDigit)
    ensures ParseApiVersion("v" + (d + "alpha" + e)) == ApiVersion(ToInt(d), 0, ToInt(e))
  {
    hide ToInt, IndexFrom, TrimPrefix;
    var s := d + "alpha" + e;
    TrimsV(s);
    WordAfterDigits(d, "alpha", e);
    assert s[..|d|] == d && s[|d| + 5..] == e;
  }

  lemma ReadBeta(d: string, e: string)
    requires AllOf(d, IsDigit) && AllOf(e, IsDigit)
    ensures ParseApiVersion("v" + (d + "beta" + e)) == ApiVersion(ToInt(d), 1, ToInt(e))
  {
    hide ToInt, IndexFrom, TrimPrefix;
    var s := d + "beta" + e;
    TrimsV(s);
    DigitsOnly(d, 'l');
    DigitsOnly(e, 'l');
    assert 'l' !in s;
    NotIn(s, "alpha", 'l');
    NoMarker(s, "alpha");
    WordAfterDigits(d, "beta", e);
    assert s[..|d|] == d && s[|d| + 4..] == e;
  }

  lemma ReadStable(d: string)
    requires AllOf(d, IsDigit)
    ensures ParseApiVersion("v" + d) == ApiVersion(ToInt(d), 2, 0)
  {
    hide ToInt, IndexFrom, TrimPrefix;
    TrimsV(d);
    DigitsOnly(d, 'a');
    NotIn(d, "alpha", 'a');
    NotIn(d, "beta", 'a');
    NoMarker(d, "alpha");
    NoMarker(d, "beta");
  }

  /** Parsing a numbered name gives back its parts. */
  lemma ApiNameRoundTrip(v: ApiVersion)
    requires 0 <= v.major <= MAX_INT && 0 <= v.minor <= MAX_INT && 0 <= v.stability <= 2
    requires v.stability == 2 ==> v.minor == 0
    ensures ParseApiVersion(ApiName(v)) == v
  {
    hide Decimal, ToInt, Value, ParseApiVersion;
    var d, e := Decimal(v.major), Decimal(v.minor);
    DecimalDigits(v.major);
    DecimalDigits(v.minor);
    DecimalInt(v.major);
    DecimalInt(v.minor);
    if v.stability == 0 { ReadAlpha(d, e); } else if v.stability == 1 { ReadBeta(d, e); } else { ReadStable(d); }
  }

  // ---- The best served version ----

  datatype Version = Version(name: string, served: bool)

  /** bestVersion after all of the versions. */
  function Best(versions: seq<Version>): string {
    if versions == [] then ""
    else
      var best, v := Best(versions[..|versions| - 1]), versions[|versions| - 1];
      if v.served && (best == "" || CompareApiVersions(v.name, best) > 0) then v.name else best
  }

  ghost predicate Serves(versions: seq<Version>, name: string) {
    Version(name, true) in versions
  }

  /** As the API server requires it. */
  ghost predicate Named(versions: seq<Version>) {
    !Serves(versions, "")
  }

  method BestServed(versions: seq<Version>) returns (best: string, servedVersions: seq<string>)
    ensures best == Best(versions)
    ensures forall name :: name in servedVersions <==> Serves(versions, name)
  {
    hide CompareApiVersions;
    best, servedVersions := "", [];
    for i := 0 to |versions|
      invariant best == Best(versions[..i])
      invariant forall name :: name in servedVersions <==> Serves(versions[..i], name)
    {
      var v := versions[i];
      assert versions[..i + 1] == versions[..i] + [v];
      assert versions[..i + 1][..i] == versions[..i];
      if v.served {
        servedVersions := servedVersions + [v.name];
        if best == "" || CompareApiVersions(v.name, best) > 0 {
          best := v.name;
        }
      }
    }
    assert versions[..|versions|] == versions;
  }

  /** best is served, unless nothing is, and no served version is above it. */
  ghost predicate Tops(versions: seq<Version>, best: string) {
    && (best == "" <==> forall name :: !Serves(versions, name))
    && (best != "" ==> Serves(versions, best))
    && (forall name :: Serves(versions, name) ==> ApiLeq(name, best))
  }

  lemma BestAppend(versions: seq<Version>, v: Version)
    ensures Best(versions + [v])
         == if v.served && (Best(versions) == "" || CompareApiVersions(v.name, Best(versions)) > 0) then v.name
            else Best(versions)
  {
    assert (versions + [v])[..|versions|] == versions;
  }

  lemma TopsAppend(versions: seq<Version>, v: Version, best: string)
    requires Tops(versions, best) && Named(versions + [v])
    ensures Tops(versions + [v], if v.served && (best == "" || CompareApiVersions(v.name, best) > 0) then v.name else best)
  {
    ApiLeqTotalPreorder();
    hide CompareApiVersions;
    forall name ensures Serves(versions + [v], name) <==> Serves(versions, name) || v == Version(name, true) {}
    if v.served { assert Serves(versions + [v], v.name); }
    hide Serves;
  }

  /** The chosen version is served and no served version is above it, in whatever order they are listed. */
  lemma {:induction false} BestIsMaximal(versions: seq<Version>)
    requires Named(versions)
    ensures Tops(versions, Best(versions))
  {
    hide CompareApiVersions, Tops;
    if versions == [] {
      NothingServed();
    } else {
      var n := |versions| - 1;
      assert versions == versions[..n] + [versions[n]];
      BestIsMaximal(versions[..n]);
      BestAppend(versions[..n], versions[n]);
      TopsAppend(versions[..n], versions[n], Best(versions[..n]));
    }
  }

  lemma NothingServed()
    ensures Tops([], "")
  {
  }

  /** The API check passes exactly if some served version reaches the minimum. */
  lemma MinimumReachedExactly(versions: seq<Version>, min: string)
    requires Named(versions) && Best(versions) != ""
    ensures CompareApiVersions(Best(versions), min) >= 0 <==> exists name :: Serves(versions, name) && ApiLeq(min, name)
  {
    BestIsMaximal(versions);
    ApiLeqTotalPreorder();
    hide Best, CompareApiVersions;
    if CompareApiVersions(Best(versions), min) >= 0 {
      assert Serves(versions, Best(versions)) && ApiLeq(min, Best(versions));
    }
  }

  lemma BestIsOrderFree(versions: seq<Version>, versions': seq<Version>)
    requires Named(versions) && multiset(versions) == multiset(versions')
    ensures CompareApiVersions(Best(versions), Best(versions')) == 0
  {
    SameElements(versions, versions');
    BestIsMaximal(versions);
    BestIsMaximal(versions');
    ApiLeqTotalPreorder();
    hide Best, CompareApiVersions;
    if Best(versions) != "" { assert Serves(versions', Best(versions)); }
    if Best(versions') != "" { assert Serves(versions, Best(versions')); }
  }

  lemma SmallDecimals()
    ensures Decimal(0) == "0" && Decimal(1) == "1" && Decimal(2) == "2"
  {
  }
}
