/** compareSemver against Semantic Versioning 2.0.0: when plain text order of pre-release tags is the
    precedence of section 11.4, and when build metadata is ignored as section 10 asks. */
module Precedence {
  import opened Cluster
  import opened Ordering
  import opened Text
  import opened Versions

  // ---- Sections 9 and 11.4 ----

  predicate IdentifierChar(c: char) {
    IsDigit(c) || 'a' <= c <= 'z' || 'A' <= c <= 'Z' || c == '-'
  }

  predicate Numeric(id: string) {
    id != "" && AllOf(id, IsDigit)
  }

  /** Section 9: not empty, and without leading zeros if numeric. */
  predicate Identifier(id: string) {
    id != "" && AllOf(id, IdentifierChar) && (Numeric(id) && |id| > 1 ==> id[0] != '0')
  }

  predicate Identifiers(ids: seq<string>) {
    forall i :: 0 <= i < |ids| ==> Identifier(ids[i])
  }

  /** A version whose tag is a dotted list of identifiers. */
  predicate Valid(v: Release) {
    Writable(v) && (v.tag.Some? ==> Identifiers(Split(v.tag.value, ".")))
  }

  /** Sections 11.4.1 to 11.4.3: numbers by value, before all other identifiers, which are in text order. */
  predicate IdentifierPrecedes(a: string, b: string) {
    if Numeric(a) && Numeric(b) then Value(a) < Value(b)
    else if Numeric(a) || Numeric(b) then Numeric(a)
    else StrLess(a, b)
  }

  /** Section 11.4: the first difference decides; without one the shorter list comes first. */
  predicate TagPrecedes(x: seq<string>, y: seq<string>) {
    if y == [] then false
    else if x == [] then true
    else if IdentifierPrecedes(x[0], y[0]) then true
    else if IdentifierPrecedes(y[0], x[0]) then false
    else TagPrecedes(x[1..], y[1..])
  }

  /** Section 11: precedence of two versions. */
  predicate Precedes(v: Release, w: Release) {
    if v.major != w.major then v.major < w.major
    else if v.minor != w.minor then v.minor < w.minor
    else if v.patch != w.patch then v.patch < w.patch
    else if v.tag.None? || w.tag.None? then v.tag.Some? && w.tag.None?
    else TagPrecedes(Split(v.tag.value, "."), Split(w.tag.value, "."))
  }

  // ---- When text order is right ----

  predicate IsPrefix(a: string, b: string) {
    |a| <= |b| && b[..|a|] == a
  }

  /** b goes on with a hyphen where a ends, and a dot follows a: the hyphen sorts before the dot. */
  predicate HyphenAgainstDot(a: string, lastA: bool, b: string) {
    IsPrefix(a, b) && |a| < |b| && !lastA && b[|a|] == '-'
  }

  /** Text order of two tags that differ first in the identifiers a and b is right: no hyphen meets a
      dot; of two numbers the shorter one comes first as text; and so does a number against a word. */
  predicate RightAsText(a: string, lastA: bool, b: string, lastB: bool) {
    && !HyphenAgainstDot(a, lastA, b) && !HyphenAgainstDot(b, lastB, a)
    && (Numeric(a) && Numeric(b) && |a| < |b| ==> StrLess(a, b))
    && (Numeric(a) && Numeric(b) && |b| < |a| ==> StrLess(b, a))
    && (Numeric(a) && !Numeric(b) ==> StrLess(a, b))
    && (Numeric(b) && !Numeric(a) ==> StrLess(b, a))
  }

  /** The condition on the first identifiers that differ, if there are any. */
  predicate FirstDifferenceIsRight(x: seq<string>, y: seq<string>) {
    if x == [] || y == [] then true
    else if x[0] == y[0] then FirstDifferenceIsRight(x[1..], y[1..])
    else RightAsText(x[0], |x| == 1, y[0], |y| == 1)
  }

  predicate SameCore(v: Release, w: Release) {
    v.major == w.major && v.minor == w.minor && v.patch == w.patch
  }

  predicate TextOrderIsRight(v: Release, w: Release) {
    SameCore(v, w) && v.tag.Some? && w.tag.Some?
    ==> FirstDifferenceIsRight(Split(v.tag.value, "."), Split(w.tag.value, "."))
  }

  // ---- Text order of concatenations ----

  lemma {:induction false} StrLessAfterPrefix(p: string, a: string, b: string)
    ensures StrLess(p + a, p + b) <==> StrLess(a, b)
  {
    if p == "" {
      assert p + a == a && p + b == b;
    } else {
      assert (p + a)[1..] == p[1..] + a && (p + b)[1..] == p[1..] + b;
      StrLessAfterPrefix(p[1..], a, b);
    }
  }

  lemma {:induction false} StrLessBeforeDifference(a: string, r: string, b: string, t: string)
    requires !IsPrefix(a, b) && !IsPrefix(b, a)
    ensures StrLess(a + r, b + t) <==> StrLess(a, b)
  {
    assert a[..0] == "" && b[..0] == "";
    if a[0] == b[0] {
      assert (a + r)[1..] == a[1..] + r && (b + t)[1..] == b[1..] + t;
      TailsDiffer(a, b);
      TailsDiffer(b, a);
      StrLessBeforeDifference(a[1..], r, b[1..], t);
    }
  }

  lemma TailsDiffer(a: string, b: string)
    requires a != "" && b != "" && a[0] == b[0] && !IsPrefix(a, b)
    ensures !IsPrefix(a[1..], b[1..])
  {
    if IsPrefix(a[1..], b[1..]) {
      PrefixOfTails(a, b);
    }
  }

  lemma PrefixOfTails(a: string, b: string)
    requires a != "" && b != "" && a[0] == b[0] && IsPrefix(a[1..], b[1..])
    ensures IsPrefix(a, b)
  {
    assert b[..|a|] == [b[0]] + b[1..][..|a| - 1] && a == [a[0]] + a[1..];
  }

  lemma ProperPrefix(a: string, b: string)
    requires IsPrefix(a, b) && a != b
    ensures |a| < |b|
  {
    assert b[..|b|] == b;
  }

  lemma PrefixIsLess(a: string, b: string)
    requires IsPrefix(a, b) && |a| < |b|
    ensures StrLess(a, b)
  {
    assert a + "" == a && b == a + b[|a|..];
    StrLessAfterPrefix(a, "", b[|a|..]);
  }

  /** What may follow an identifier in a tag. */
  predicate Continuation(r: string) {
    r == "" || r[0] == '.'
  }

  /** The text order of two tags, decided by their first differing identifiers. */
  predicate TextBefore(a: string, lastA: bool, b: string, lastB: bool) {
    if IsPrefix(a, b) then lastA || (|a| < |b| && b[|a|] != '-')
    else if IsPrefix(b, a) then !lastB && a[|b|] == '-'
    else StrLess(a, b)
  }

  lemma DotAgainstIdentifier(r: string, more: string)
    requires Continuation(r) && more != "" && IdentifierChar(more[0])
    ensures StrLess(r, more) <==> r == "" || more[0] != '-'
    ensures StrLess(more, r) <==> r != "" && more[0] == '-'
  {
  }

  lemma PrefixThenMore(a: string, r: string, b: string, t: string)
    requires IsPrefix(a, b) && a != b && Continuation(r) && Identifier(b)
    ensures |a| < |b|
    ensures StrLess(a + r, b + t) <==> r == "" || b[|a|] != '-'
    ensures StrLess(b + t, a + r) <==> r != "" && b[|a|] == '-'
  {
    hide StrLess;
    ProperPrefix(a, b);
    var more := b[|a|..] + t;
    assert IdentifierChar(b[|a|]) && more[0] == b[|a|];
    hide Identifier, IdentifierChar;
    assert b + t == a + more by { assert b == a + b[|a|..]; }
    StrLessAfterPrefix(a, r, more);
    StrLessAfterPrefix(a, more, r);
    DotAgainstIdentifier(r, more);
  }

  lemma FirstDifferenceDecides(a: string, r: string, b: string, t: string)
    requires Identifier(a) && Identifier(b) && a != b && Continuation(r) && Continuation(t)
    ensures StrLess(a + r, b + t) <==> TextBefore(a, r == "", b, t == "")
  {
    hide Identifier, StrLess;
    if IsPrefix(a, b) {
      ProperPrefix(a, b);
      PrefixThenMore(a, r, b, t);
    } else if IsPrefix(b, a) {
      ProperPrefix(b, a);
      PrefixThenMore(b, t, a, r);
    } else {
      StrLessBeforeDifference(a, r, b, t);
    }
  }

  // ---- Numbers as text ----

  lemma DigitTail(s: string)
    requires AllOf(s, IsDigit) && s != ""
    ensures AllOf(s[..|s| - 1], IsDigit) && Value(s) == Value(s[..|s| - 1]) * 10 + (s[|s| - 1] as int - '0' as int)
    ensures 0 <= s[|s| - 1] as int - '0' as int <= 9
  {
    assert IsDigit(s[|s| - 1]);
  }

  /** Without leading zeros the longer number is larger. */
  lemma {:induction false} LongerIsLarger(a: string, b: string)
    requires AllOf(a, IsDigit) && AllOf(b, IsDigit) && |a| < |b| && b[0] != '0'
    ensures Value(a) < Value(b)
  {
    DigitTail(b);
    var b' := b[..|b| - 1];
    if a == "" {
      if b' == "" { assert IsDigit(b[0]); } else { LongerIsLarger(a, b'); }
    } else {
      DigitTail(a);
      LongerIsLarger(a[..|a| - 1], b');
    }
  }

  lemma {:induction false} StrLessByLast(a: string, b: string)
    requires |a| == |b| > 0
    ensures var n := |a| - 1;
            StrLess(a, b) <==> StrLess(a[..n], b[..n]) || (a[..n] == b[..n] && a[n] < b[n])
  {
    var n := |a| - 1;
    if n > 0 {
      StrLessByLast(a[1..], b[1..]);
      InitTail(a);
      InitTail(b);
    }
  }

  lemma InitTail(a: string)
    requires |a| > 1
    ensures var n := |a| - 1;
            a[..n] == [a[0]] + a[1..][..n - 1] && a[..n][1..] == a[1..][..n - 1] && a[1..][n - 1] == a[n]
  {
  }

  /** Numbers of the same length are in text order. */
  lemma {:induction false} SameLengthAsText(a: string, b: string)
    requires AllOf(a, IsDigit) && AllOf(b, IsDigit) && |a| == |b|
    ensures StrLess(a, b) <==> Value(a) < Value(b)
    ensures a == b <==> Value(a) == Value(b)
  {
    if a != "" {
      var n := |a| - 1;
      DigitTail(a);
      DigitTail(b);
      StrLessByLast(a, b);
      SameLengthAsText(a[..n], b[..n]);
      assert a == a[..n] + [a[n]] && b == b[..n] + [b[n]];
    }
  }

  lemma NumbersByText(a: string, b: string)
    requires Identifier(a) && Identifier(b) && Numeric(a) && Numeric(b) && a != b
    ensures Value(a) < Value(b) <==> |a| < |b| || (|a| == |b| && StrLess(a, b))
    ensures Value(a) != Value(b)
  {
    if |a| < |b| { LongerIsLarger(a, b); }
    else if |b| < |a| { LongerIsLarger(b, a); }
    else { SameLengthAsText(a, b); }
  }

  // ---- One pair of identifiers ----

  lemma PrecedesEitherWay(a: string, b: string)
    requires Identifier(a) && Identifier(b)
    ensures a == b ==> !IdentifierPrecedes(a, b)
    ensures a != b ==> (IdentifierPrecedes(a, b) <==> !IdentifierPrecedes(b, a))
  {
    StrLessTrichotomy(a, b);
    if a != b && Numeric(a) && Numeric(b) { NumbersByText(a, b); }
  }

  lemma RightExactly(a: string, lastA: bool, b: string, lastB: bool)
    requires Identifier(a) && Identifier(b) && a != b
    ensures (TextBefore(a, lastA, b, lastB) <==> IdentifierPrecedes(a, b)) <==> RightAsText(a, lastA, b, lastB)
  {
    StrLessTrichotomy(a, b);
    if Numeric(a) && Numeric(b) { NumbersByText(a, b); }
    hide Value, StrLess;
    if IsPrefix(a, b) {
      ProperPrefix(a, b);
      PrefixIsLess(a, b);
      PrefixOfNumber(a, b);
    } else if IsPrefix(b, a) {
      ProperPrefix(b, a);
      PrefixIsLess(b, a);
      PrefixOfNumber(b, a);
    }
  }

  lemma PrefixOfNumber(a: string, b: string)
    requires IsPrefix(a, b) && a != ""
    ensures Numeric(b) ==> Numeric(a) && (|a| < |b| ==> b[|a|] != '-')
  {
    if Numeric(b) {
      assert forall i :: 0 <= i < |a| ==> a[i] == b[i];
    }
  }

  // ---- Whole tags ----

  function Rest(x: seq<string>): string
    requires x != []
  {
    if |x| == 1 then "" else "." + Joined(x[1..], ".")
  }

  lemma Regroup(a: string, m: string, b: string)
    ensures a + m + b == a + (m + b)
  {
  }

  lemma JoinedHead(x: seq<string>)
    requires x != []
    ensures Joined(x, ".") == x[0] + Rest(x) && Continuation(Rest(x)) && (Rest(x) == "" <==> |x| == 1)
  {
    if |x| > 1 { Regroup(x[0], ".", Joined(x[1..], ".")); }
  }

  lemma {:induction false} TagsRightExactly(x: seq<string>, y: seq<string>)
    requires Identifiers(x) && Identifiers(y) && x != [] && y != []
    ensures (StrLess(Joined(x, "."), Joined(y, ".")) <==> TagPrecedes(x, y)) <==> FirstDifferenceIsRight(x, y)
  {
    hide StrLess, IdentifierPrecedes, RightAsText, TextBefore, Joined, Identifier;
    JoinedHead(x);
    JoinedHead(y);
    PrecedesEitherWay(x[0], y[0]);
    PrecedesEitherWay(y[0], x[0]);
    if x[0] != y[0] {
      FirstDifferenceDecides(x[0], Rest(x), y[0], Rest(y));
      RightExactly(x[0], |x| == 1, y[0], |y| == 1);
    } else {
      StrLessAfterPrefix(x[0], Rest(x), Rest(y));
      if |x| > 1 && |y| > 1 {
        StrLessAfterPrefix(".", Joined(x[1..], "."), Joined(y[1..], "."));
        TagsRightExactly(x[1..], y[1..]);
      } else {
        OneEnds(x, y);
      }
    }
  }

  lemma OneEnds(x: seq<string>, y: seq<string>)
    requires x != [] && y != [] && (|x| == 1 || |y| == 1)
    ensures StrLess(Rest(x), Rest(y)) <==> TagPrecedes(x[1..], y[1..])
    ensures FirstDifferenceIsRight(x[1..], y[1..])
  {
  }

  lemma {:induction false} JoinedSplit(s: string, m: string)
    requires m != ""
    ensures Joined(Split(s, m), m) == s
    decreases |s|
  {
    var i := IndexFrom(s, m, 0);
    if i.Some? {
      JoinedSplit(s[i.value + |m|..], m);
      assert ([s[..i.value]] + Split(s[i.value + |m|..], m))[1..] == Split(s[i.value + |m|..], m);
      assert s == s[..i.value] + m + s[i.value + |m|..];
    }
  }

  /** compareSemver follows section 11 exactly where text order is right for the first identifiers that
      differ. */
  lemma FollowsSection11Exactly(v: Release, w: Release)
    requires Valid(v) && Valid(w)
    ensures (SemverLess(ReadSemver(Written(v)), ReadSemver(Written(w))) <==> Precedes(v, w)) <==> TextOrderIsRight(v, w)
  {
    hide ReadSemver, Written, SemverLess, Split, Joined, TagPrecedes, FirstDifferenceIsRight;
    CompareWritten(v, w);
    if SameCore(v, w) && v.tag.Some? && w.tag.Some? {
      JoinedSplit(v.tag.value, ".");
      JoinedSplit(w.tag.value, ".");
      TagsRightExactly(Split(v.tag.value, "."), Split(w.tag.value, "."));
    }
  }

  // ---- Where it is not ----

  function Tagged(tag: string): Release { Release(1, 0, 0, Some(tag)) }

  /** The order that compareSemver decides on two versions. */
  ghost predicate Below(v: Release, w: Release) {
    SemverLess(ReadSemver(Written(v)), ReadSemver(Written(w)))
  }

  lemma DottedTag(a: string, b: string)
    requires Identifier(a) && Identifier(b)
    ensures Split(a + "." + b, ".") == [a, b] && Valid(Tagged(a + "." + b))
  {
    hide Split;
    var parts := [a, b];
    forall i | 0 <= i < |parts| ensures !Occurs(parts[i], ".") { NotIn(parts[i], ".", '.'); }
    assert parts[1..] == [b];
    assert Joined(parts, ".") == a + "." + b by { assert Joined([b], ".") == b; }
    SplitJoined(parts, ".");
  }

  lemma PlainTag(a: string)
    requires Identifier(a)
    ensures Split(a, ".") == [a] && Valid(Tagged(a))
  {
    hide Split;
    NotIn(a, ".", '.');
    assert Joined([a], ".") == a;
    SplitJoined([a], ".");
  }

  /** rc.9 precedes rc.10 by section 11.4.1; compareSemver has it the other way round. */
  lemma NumericTagsAreComparedAsText()
    ensures var v, w := Tagged("rc.10"), Tagged("rc.9");
            Valid(v) && Valid(w) && Below(v, w) && Precedes(w, v) && !TextOrderIsRight(v, w)
  {
    hide Split, Written, ReadSemver, Value, TagPrecedes, FirstDifferenceIsRight, StrLess;
    DottedTag("rc", "10");
    DottedTag("rc", "9");
    assert "rc" + "." + "10" == "rc.10" && "rc" + "." + "9" == "rc.9";
    NineAndTen();
    NineBeforeTen();
    CompareWritten(Tagged("rc.10"), Tagged("rc.9"));
  }

  lemma NineBeforeTen()
    ensures TagPrecedes(["rc", "9"], ["rc", "10"]) && !FirstDifferenceIsRight(["rc", "10"], ["rc", "9"])
  {
    hide Value, StrLess;
    NineAndTen();
    StrLessTrichotomy("rc", "rc");
    StrLessTrichotomy("10", "9");
    assert ["rc", "10"][1..] == ["10"] && ["rc", "9"][1..] == ["9"];
  }

  lemma NineAndTen()
    ensures Value("9") < Value("10") && StrLess("10", "9") && StrLess("rc.10", "rc.9")
  {
    LongerIsLarger("9", "10");
    StrLessAfterPrefix("rc.", "10", "9");
    assert "rc." + "10" == "rc.10" && "rc." + "9" == "rc.9";
  }

  /** rc.1 precedes rc-1, whose one identifier is longer; as text the hyphen comes before the dot. */
  lemma HyphenSortsBeforeDot()
    ensures var v, w := Tagged("rc-1"), Tagged("rc.1");
            Valid(v) && Valid(w) && Below(v, w) && Precedes(w, v) && !TextOrderIsRight(v, w)
  {
    hide Split, Written, ReadSemver;
    DottedTag("rc", "1");
    PlainTag("rc-1");
    assert "rc" + "." + "1" == "rc.1";
    StrLessAfterPrefix("rc", "-1", ".1");
    StrLessAfterPrefix("rc", "", "-1");
    assert "rc" + "-1" == "rc-1" && "rc" + ".1" == "rc.1" && "rc" + "" == "rc";
    CompareWritten(Tagged("rc-1"), Tagged("rc.1"));
    FollowsSection11Exactly(Tagged("rc-1"), Tagged("rc.1"));
  }

  /** A number precedes a word by section 11.4.3, but -a comes before 1 as text. */
  lemma HyphenSortsBeforeNumbers()
    ensures var v, w := Tagged("-a"), Tagged("1");
            Valid(v) && Valid(w) && Below(v, w) && Precedes(w, v) && !TextOrderIsRight(v, w)
  {
    hide Split, Written, ReadSemver;
    PlainTag("-a");
    PlainTag("1");
    assert StrLess("-a", "1") && !IsDigit("-a"[0]);
    CompareWritten(Tagged("-a"), Tagged("1"));
    FollowsSection11Exactly(Tagged("-a"), Tagged("1"));
  }

  // ---- Section 10: build metadata ----

  function WithMetadata(v: Release, b: string): string {
    Written(v) + "+" + b
  }

  /** compareSemver returns 0 on these. */
  ghost predicate SameVersion(a: Semver, b: Semver) {
    SameNumbers(a.numbers, b.numbers) && a.tag == b.tag
  }

  /** A piece that is read as a number other than 0. */
  predicate Counts(piece: string) {
    AllOf(piece, IsDigit) && exists i :: 0 <= i < |piece| && piece[i] != '0'
  }

  /** The pieces of the metadata up to its first hyphen, and what stands behind that hyphen. */
  function Pieces(b: string): seq<string> { Split(SplitPrerelease(b).0, ".") }

  function BehindHyphen(b: string): string { SplitPrerelease(b).1 }

  lemma SplitHead(p: string, s: string)
    requires '.' !in p
    ensures Split(p + s, ".") == [p + Split(s, ".")[0]] + Split(s, ".")[1..]
  {
    var i := IndexFrom(s, ".", 0);
    if i.None? {
      NoSuchChar(s, ".");
      NotIn(p + s, ".", '.');
      NoMarker(p + s, ".");
    } else {
      var k := i.value;
      FirstChar(s, ".", k);
      var head, tail := p + s[..k], s[k + 1..];
      assert p + s == head + "." + tail;
      NotIn(head, ".", '.');
      assert NoBorder(".");
      FirstMarker(head, ".", tail);
      assert (p + s)[..|head|] == head && (p + s)[|head| + 1..] == tail;
    }
  }

  lemma OneChar(s: string, m: string, j: nat)
    requires |m| == 1
    ensures OccursAt(s, m, j) <==> j < |s| && s[j] == m[0]
  {
    if j < |s| { assert s[j..j + 1] == [s[j]] && m == [m[0]]; }
  }

  lemma NoSuchChar(s: string, m: string)
    requires |m| == 1 && IndexFrom(s, m, 0).None?
    ensures m[0] !in s
  {
    forall i | 0 <= i < |s| ensures s[i] != m[0] {
      assert !OccursAt(s, m, i);
      OneChar(s, m, i);
    }
  }

  lemma FirstChar(s: string, m: string, k: nat)
    requires |m| == 1 && IndexFrom(s, m, 0) == Some(k)
    ensures k < |s| && m[0] !in s[..k] && s == s[..k] + m + s[k + 1..]
  {
    OneChar(s, m, k);
    assert m == [m[0]];
    forall i | 0 <= i < k ensures s[i] != m[0] {
      assert !OccursAt(s, m, i);
      OneChar(s, m, i);
    }
  }

  lemma SplitAfterDot(p: string, rest: string)
    requires '.' !in p
    ensures Split(p + "." + rest, ".") == [p] + Split(rest, ".")
  {
    var s := p + "." + rest;
    NotIn(p, ".", '.');
    assert NoBorder(".");
    FirstMarker(p, ".", rest);
    assert s[..|p|] == p && s[|p| + 1..] == rest;
  }

  lemma CoreText(v: Release)
    requires Writable(v)
    ensures Core(v) == Decimal(v.major) + "." + (Decimal(v.minor) + "." + Decimal(v.patch))
    ensures AllOf(Decimal(v.major), IsDigit) && AllOf(Decimal(v.minor), IsDigit) && AllOf(Decimal(v.patch), IsDigit)
    ensures Decimal(v.patch) != ""
  {
    DecimalDigits(v.major);
    DecimalDigits(v.minor);
    DecimalDigits(v.patch);
    hide Decimal;
    var parts := [Decimal(v.major), Decimal(v.minor), Decimal(v.patch)];
    assert parts[1..] == [parts[1], parts[2]] && [parts[1], parts[2]][1..] == [parts[2]];
    assert Joined([parts[1], parts[2]], ".") == parts[1] + "." + parts[2];
  }

  lemma ThreeParts(x: string, y: string, z: string, more: string)
    requires '.' !in x && '.' !in y && '.' !in z
    ensures Split(x + "." + (y + "." + z) + more, ".") == [x, y, z + Split(more, ".")[0]] + Split(more, ".")[1..]
  {
    hide Split;
    Regrouped(x, y, z, more);
    SplitAfterDot(x, y + "." + (z + more));
    SplitAfterDot(y, z + more);
    SplitHead(z, more);
  }

  /** The dotted parts of a core with more text behind it. */
  lemma CoreThenMore(v: Release, more: string)
    requires Writable(v)
    ensures Split(Core(v) + more, ".")
         == [Decimal(v.major), Decimal(v.minor), Decimal(v.patch) + Split(more, ".")[0]] + Split(more, ".")[1..]
  {
    CoreText(v);
    hide Decimal, Split, Core;
    DigitsOnly(Decimal(v.major), '.');
    DigitsOnly(Decimal(v.minor), '.');
    DigitsOnly(Decimal(v.patch), '.');
    ThreeParts(Decimal(v.major), Decimal(v.minor), Decimal(v.patch), more);
  }

  lemma Regrouped(x: string, y: string, z: string, more: string)
    ensures x + "." + (y + "." + z) + more == x + "." + (y + "." + (z + more))
  {
    Regroup(y + ".", z, more);
    Regroup(x + ".", y + "." + z, more);
  }

  lemma NotANumber(z: string, piece: string)
    requires AllOf(z, IsDigit) && z != ""
    ensures ToInt(z + "+" + piece) == 0
  {
    var s := z + "+" + piece;
    assert s[0] == z[0] && IsDigit(z[0]);
    assert s[|z|] == '+' && !IsDigit(s[|z|]);
  }

  lemma {:induction false} ValueZero(s: string)
    requires AllOf(s, IsDigit)
    ensures Value(s) == 0 <==> forall i :: 0 <= i < |s| ==> s[i] == '0'
  {
    if s != "" {
      var n := |s| - 1;
      DigitTail(s);
      ValueZero(s[..n]);
      assert forall i :: 0 <= i < n ==> s[..n][i] == s[i];
    }
  }

  lemma CountsExactly(piece: string)
    requires '+' !in piece && '-' !in piece
    ensures ToInt(piece) != 0 <==> Counts(piece)
  {
    if AllOf(piece, IsDigit) { ValueZero(piece); }
  }

  /** No character appears in the pieces that is not in the text. */
  lemma {:induction false} SplitKeepsOut(s: string, c: char)
    requires c !in s
    ensures forall i :: 0 <= i < |Split(s, ".")| ==> c !in Split(s, ".")[i]
    decreases |s|
  {
    var i := IndexFrom(s, ".", 0);
    if i.Some? {
      assert s == s[..i.value] + s[i.value..] && s == s[..i.value + 1] + s[i.value + 1..];
      SplitKeepsOut(s[i.value + 1..], c);
    }
  }

  lemma HyphenSplit(b: string)
    ensures var (b0, rest) := SplitPrerelease(b);
            '-' !in b0 && (b == b0 || b == b0 + "-" + rest) && (b == b0 ==> rest == "")
    ensures '+' !in b ==> '+' !in SplitPrerelease(b).0
  {
    var i := IndexFrom(b, "-", 0);
    if i.Some? {
      FirstChar(b, "-", i.value);
    } else {
      NoSuchChar(b, "-");
    }
  }

  /** The hyphen that ends the version is the first one of the metadata. */
  lemma HyphenAfterCore(core: string, b: string)
    requires '-' !in core
    ensures SplitPrerelease(core + "+" + b) == (core + "+" + SplitPrerelease(b).0, BehindHyphen(b))
  {
    HyphenSplit(b);
    var (b0, rest) := SplitPrerelease(b);
    hide SplitPrerelease;
    var head := core + "+" + b0;
    if b == b0 {
      SplitsTag(head, None);
    } else {
      SplitsTag(head, Some(rest));
      assert core + "+" + b == head + "-" + rest;
    }
  }

  lemma VersionPart(v: Release, b0: string)
    requires Writable(v)
    ensures Numbers(Split(Core(v) + "+" + b0, ".")) == [v.major, v.minor, 0] + Numbers(Split(b0, ".")[1..])
  {
    CoreText(v);
    DecimalInt(v.major);
    DecimalInt(v.minor);
    hide Core, Decimal, Split, ToInt;
    var x, y, z, q := Decimal(v.major), Decimal(v.minor), Decimal(v.patch), Split(b0, ".");
    Regroup(Core(v), "+", b0);
    CoreThenMore(v, "+" + b0);
    SplitHead("+", b0);
    Regroup(z, "+", q[0]);
    NotANumber(z, q[0]);
    assert ([("+" + q[0])] + q[1..])[1..] == q[1..];
    FirstThree(x, y, z + "+" + q[0], q[1..]);
  }

  lemma FirstThree(x: string, y: string, z: string, more: seq<string>)
    ensures Numbers([x, y, z] + more) == [ToInt(x), ToInt(y), ToInt(z)] + Numbers(more)
  {
    hide ToInt;
  }

  /** What a release with metadata is read as: patch 0, one more number for every further dotted piece,
      and a tag behind the first hyphen. */
  lemma ReadReleaseWithMetadata(v: Release, b: string)
    requires Writable(v) && v.tag.None?
    ensures ReadSemver(WithMetadata(v, b)) == Semver([v.major, v.minor, 0] + Numbers(Pieces(b)[1..]), BehindHyphen(b))
  {
    CoreParts(v);
    hide Core, Split, SplitPrerelease, TrimPrefix, Numbers;
    VersionText(v, b);
    TrimsV(Core(v) + "+" + b);
    HyphenAfterCore(Core(v), b);
    VersionPart(v, SplitPrerelease(b).0);
  }

  lemma VersionText(v: Release, b: string)
    requires v.tag.None?
    ensures WithMetadata(v, b) == "v" + (Core(v) + "+" + b)
  {
    Regroup("v", Core(v), "+");
    Regroup("v", Core(v) + "+", b);
  }

  /** Behind a pre-release the metadata becomes part of the tag. */
  lemma ReadTagWithMetadata(v: Release, b: string)
    requires Writable(v) && v.tag.Some?
    ensures ReadSemver(WithMetadata(v, b)) == Semver([v.major, v.minor, v.patch], v.tag.value + "+" + b)
  {
    var w := v.(tag := Some(v.tag.value + "+" + b));
    hide Core, ReadSemver;
    TaggedText(Core(v), v.tag.value, b);
    assert Core(w) == Core(v) by { SameCoreText(v, w); }
    SemverRoundTrip(w);
  }

  lemma TaggedText(core: string, tag: string, b: string)
    ensures "v" + (core + "-" + tag) + "+" + b == "v" + (core + "-" + (tag + "+" + b))
  {
  }

  lemma SameCoreText(v: Release, w: Release)
    requires SameCore(v, w)
    ensures Core(v) == Core(w)
  {
  }

  lemma ExtraNumbersCount(x: seq<int>, more: seq<int>, y: seq<int>)
    requires |x| == |y| == 3 && x[0] == y[0] && x[1] == y[1]
    ensures SameNumbers(x + more, y) <==> x[2] == y[2] && forall i :: 0 <= i < |more| ==> more[i] == 0
  {
    if SameNumbers(x + more, y) {
      assert At(x + more, 2) == At(y, 2);
      forall i | 0 <= i < |more| ensures more[i] == 0 { assert At(x + more, i + 3) == At(y, i + 3); }
    }
  }

  /** Metadata is ignored exactly behind a release with patch 0, if nothing follows its first hyphen and no
      dotted piece after the first counts as a number. */
  lemma MetadataIsIgnoredExactly(v: Release, b: string)
    requires Writable(v) && '+' !in b
    ensures SameVersion(ReadSemver(WithMetadata(v, b)), ReadSemver(Written(v)))
       <==> v.tag.None? && v.patch == 0 && BehindHyphen(b) == ""
            && forall i :: 1 <= i < |Pieces(b)| ==> !Counts(Pieces(b)[i])
  {
    SemverRoundTrip(v);
    if v.tag.Some? {
      ReadTagWithMetadata(v, b);
      assert |v.tag.value + "+" + b| > |v.tag.value|;
    } else {
      ReadReleaseWithMetadata(v, b);
      HyphenSplit(b);
      SplitKeepsOut(SplitPrerelease(b).0, '+');
      SplitKeepsOut(SplitPrerelease(b).0, '-');
      var q := Pieces(b);
      hide ReadSemver, WithMetadata, Written, Pieces, SplitPrerelease, ToInt;
      ExtraNumbersCount([v.major, v.minor, 0], Numbers(q[1..]), [v.major, v.minor, v.patch]);
      LaterPieces(q);
    }
  }

  lemma LaterPieces(q: seq<string>)
    requires q != [] && forall i :: 0 <= i < |q| ==> '+' !in q[i] && '-' !in q[i]
    ensures (forall i :: 0 <= i < |q[1..]| ==> Numbers(q[1..])[i] == 0) <==> forall i :: 1 <= i < |q| ==> !Counts(q[i])
  {
    hide ToInt, Counts;
    forall i | 1 <= i < |q| ensures Numbers(q[1..])[i - 1] == 0 <==> !Counts(q[i]) {
      CountsExactly(q[i]);
      assert q[1..][i - 1] == q[i];
    }
    if forall i :: 1 <= i < |q| ==> !Counts(q[i]) {
      forall i | 0 <= i < |q[1..]| ensures Numbers(q[1..])[i] == 0 { assert !Counts(q[i + 1]); }
    }
  }

  /** Any metadata without dots and hyphens puts a release with a patch number below itself. */
  lemma MetadataHidesThePatch(v: Release, b: string)
    requires Writable(v) && v.tag.None? && v.patch > 0 && '.' !in b && '-' !in b
    ensures SemverLess(ReadSemver(WithMetadata(v, b)), ReadSemver(Written(v)))
  {
    SemverRoundTrip(v);
    ReadReleaseWithMetadata(v, b);
    SplitsTag(b, None);
    NotIn(b, ".", '.');
    NoMarker(b, ".");
    assert Pieces(b) == [b];
    hide ReadSemver, WithMetadata, Written, Pieces;
    var x, y := [v.major, v.minor, 0], [v.major, v.minor, v.patch];
    assert Numbers(Pieces(b)[1..]) == [] && x + [] == x;
    DifferAt(x, y, 2);
  }

  lemma VersionOneText(patch: nat, tag: Option<string>)
    requires patch < 2
    ensures Written(Release(1, 0, patch, tag))
         == (if patch == 0 then "v1.0.0" else "v1.0.1") + (if tag.None? then "" else "-" + tag.value)
  {
    var v := Release(1, 0, patch, tag);
    CoreText(v.(tag := None));
    SameCoreText(v, v.(tag := None));
    SmallDecimals();
    hide Core, Decimal;
    var core := if patch == 0 then "1.0.0" else "1.0.1";
    assert Core(v) == core;
    if tag.Some? { Regroup("v" + core, "-", tag.value); Regroup("v", core, "-" + tag.value); Regroup(core, "-", tag.value); }
  }

  /** The metadata may hide the patch number, ... */
  lemma PatchIsNotIgnored()
    ensures SemverLess(ReadSemver("v1.0.1+b"), ReadSemver("v1.0.1"))
  {
    hide ReadSemver, Written;
    VersionOneText(1, None);
    assert "v1.0.1" + "" == "v1.0.1" && "v1.0.1" + "+" + "b" == "v1.0.1+b";
    MetadataHidesThePatch(Release(1, 0, 1, None), "b");
  }

  /** ... add a number, ... */
  lemma DottedMetadataIsNotIgnored()
    ensures !SameVersion(ReadSemver("v1.0.0+a.5"), ReadSemver("v1.0.0"))
  {
    hide ReadSemver, Written, Counts, Pieces, SameVersion;
    VersionOneText(0, None);
    assert "v1.0.0" + "" == "v1.0.0" && "v1.0.0" + "+" + "a.5" == "v1.0.0+a.5";
    ExtraNumber();
    MetadataIsIgnoredExactly(Release(1, 0, 0, None), "a.5");
  }

  lemma ExtraNumber()
    ensures |Pieces("a.5")| == 2 && Counts(Pieces("a.5")[1])
  {
    SplitsTag("a.5", None);
    DottedTag("a", "5");
    assert "a" + "." + "5" == "a.5";
    assert "5"[0] != '0';
  }

  /** ... make a pre-release of a release, ... */
  lemma HyphenatedMetadataIsNotIgnored()
    ensures !SameVersion(ReadSemver("v1.0.0+a-b"), ReadSemver("v1.0.0"))
  {
    hide ReadSemver, Written, Pieces, SameVersion;
    VersionOneText(0, None);
    assert "v1.0.0" + "" == "v1.0.0" && "v1.0.0" + "+" + "a-b" == "v1.0.0+a-b";
    SplitsTag("a", Some("b"));
    assert "a" + "-" + "b" == "a-b";
    MetadataIsIgnoredExactly(Release(1, 0, 0, None), "a-b");
  }

  /** ... or change the tag. */
  lemma TagIsNotKept()
    ensures !SameVersion(ReadSemver("v1.0.0-rc+b"), ReadSemver("v1.0.0-rc"))
  {
    hide ReadSemver, Written, Pieces, BehindHyphen, SameVersion;
    VersionOneText(0, Some("rc"));
    assert "v1.0.0" + ("-" + "rc") == "v1.0.0-rc" && "v1.0.0-rc" + "+" + "b" == "v1.0.0-rc+b";
    MetadataIsIgnoredExactly(Release(1, 0, 0, Some("rc")), "b");
  }
}
