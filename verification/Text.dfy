/** Splitting text at a marker, decimal numbers, and fields of a fixed header line. */
module Text {
  import opened Cluster

  // ---- Occurrences of a marker ----

  predicate OccursAt(s: string, m: string, i: nat) {
    i + |m| <= |s| && s[i..i + |m|] == m
  }

  predicate Occurs(s: string, m: string) {
    exists i :: 0 <= i <= |s| && OccursAt(s, m, i)
  }

  function IndexFrom(s: string, m: string, i: nat): (r: Option<nat>)
    ensures r.Some? ==> i <= r.value && OccursAt(s, m, r.value) && forall j :: i <= j < r.value ==> !OccursAt(s, m, j)
    ensures r.None? ==> forall j :: i <= j <= |s| ==> !OccursAt(s, m, j)
    decreases |s| - i
  {
    if i + |m| > |s| then None else if OccursAt(s, m, i) then Some(i) else IndexFrom(s, m, i + 1)
  }

  /** strings.Split */
  function Split(s: string, m: string): (r: seq<string>)
    requires m != ""
    ensures r != []
    decreases |s|
  {
    match IndexFrom(s, m, 0)
    case None => [s]
    case Some(i) => [s[..i]] + Split(s[i + |m|..], m)
  }

  function Joined(parts: seq<string>, m: string): string
    requires parts != []
  {
    if |parts| == 1 then parts[0] else parts[0] + m + Joined(parts[1..], m)
  }

  /** No proper end of the marker is also its beginning, so two occurrences never overlap. */
  ghost predicate NoBorder(m: string) {
    forall k :: 0 < k < |m| ==> m[k..] != m[..|m| - k]
  }

  lemma InsideOccurs(p: string, m: string, rest: string, j: nat)
    requires j + |m| <= |p| && OccursAt(p + m + rest, m, j)
    ensures Occurs(p, m)
  {
    assert (p + m + rest)[j..j + |m|] == p[j..j + |m|];
    assert OccursAt(p, m, j);
  }

  lemma OverlapIsBorder(p: string, m: string, rest: string, j: nat)
    requires j < |p| < j + |m| && OccursAt(p + m + rest, m, j)
    ensures var k := |p| - j; m[k..] == m[..|m| - k]
  {
    var s, k := p + m + rest, |p| - j;
    assert m[k..] == s[j..j + |m|][k..] == s[|p|..j + |m|];
    assert s[|p|..j + |m|] == m[..|m| - k];
  }

  lemma NotBefore(p: string, m: string, rest: string, j: nat)
    requires NoBorder(m) && !Occurs(p, m) && j < |p|
    ensures !OccursAt(p + m + rest, m, j)
  {
    if OccursAt(p + m + rest, m, j) {
      if j + |m| <= |p| { InsideOccurs(p, m, rest, j); } else { OverlapIsBorder(p, m, rest, j); }
    }
  }

  lemma FirstMarker(p: string, m: string, rest: string)
    requires NoBorder(m) && !Occurs(p, m)
    ensures IndexFrom(p + m + rest, m, 0) == Some(|p|)
  {
    var s := p + m + rest;
    assert s[|p|..|p| + |m|] == m;
    assert OccursAt(s, m, |p|);
    forall j | 0 <= j < |p| ensures !OccursAt(s, m, j) { NotBefore(p, m, rest, j); }
  }

  lemma NoMarker(p: string, m: string)
    requires !Occurs(p, m)
    ensures IndexFrom(p, m, 0) == None
  {
  }

  /** Splitting recovers exactly the parts that were joined. */
  lemma {:induction false} SplitJoined(parts: seq<string>, m: string)
    requires m != "" && NoBorder(m) && parts != []
    requires forall i :: 0 <= i < |parts| ==> !Occurs(parts[i], m)
    ensures Split(Joined(parts, m), m) == parts
  {
    if |parts| == 1 {
      NoMarker(parts[0], m);
    } else {
      var rest := Joined(parts[1..], m);
      FirstMarker(parts[0], m, rest);
      var s := parts[0] + m + rest;
      assert s[..|parts[0]|] == parts[0] && s[|parts[0]| + |m|..] == rest;
      SplitJoined(parts[1..], m);
    }
  }

  // ---- Decimal numbers ----

  const MAX_INT: nat := 0x7fff_ffff_ffff_ffff

  predicate IsDigit(c: char) { '0' <= c <= '9' }

  function Digit(n: nat): (c: char)
    requires n < 10
    ensures IsDigit(c) && c as int - '0' as int == n
  {
    ('0' as int + n) as char
  }

  /** %d */
  function Decimal(n: nat): string {
    if n < 10 then [Digit(n)] else Decimal(n / 10) + [Digit(n % 10)]
  }

  predicate AllOf(s: string, p: char -> bool) {
    forall i :: 0 <= i < |s| ==> p(s[i])
  }

  function Value(s: string): nat
    requires AllOf(s, IsDigit)
  {
    if s == "" then 0 else Value(s[..|s| - 1]) * 10 + (s[|s| - 1] as int - '0' as int)
  }

  /** strconv.Atoi on digits, its error ignored: too large a number gives the largest int. */
  function Atoi(s: string): nat
    requires AllOf(s, IsDigit)
  {
    if Value(s) <= MAX_INT then Value(s) else MAX_INT
  }

  lemma {:induction false} DecimalDigits(n: nat)
    ensures Decimal(n) != "" && AllOf(Decimal(n), IsDigit)
    ensures Value(Decimal(n)) == n
  {
    if n >= 10 { DecimalDigits(n / 10); }
  }

  // ---- Fields of a header line ----

  function SpanOf(s: string, p: char -> bool): nat {
    if s == "" || !p(s[0]) then 0 else 1 + SpanOf(s[1..], p)
  }

  /** The longest run of such characters at the start. */
  lemma {:induction false} SpanFacts(s: string, p: char -> bool)
    ensures SpanOf(s, p) <= |s| && AllOf(s[..SpanOf(s, p)], p)
    ensures SpanOf(s, p) < |s| ==> !p(s[SpanOf(s, p)])
  {
    if s != "" && p(s[0]) {
      var n := SpanOf(s[1..], p);
      SpanFacts(s[1..], p);
      assert s[..1 + n] == [s[0]] + s[1..][..n];
    }
  }

  lemma {:induction false} SpanIs(s: string, p: char -> bool, k: nat)
    requires k <= |s| && AllOf(s[..k], p) && (k < |s| ==> !p(s[k]))
    ensures SpanOf(s, p) == k
  {
    if k > 0 {
      assert s[..k][0] == s[0];
      assert s[1..][..k - 1] == s[..k][1..];
      SpanIs(s[1..], p, k - 1);
    }
  }

  datatype Field = Field(text: string, rest: string)

  ghost predicate IsField(s: string, p: char -> bool, lit: string, f: Field) {
    s == f.text + lit + f.rest && f.text != "" && AllOf(f.text, p)
  }

  /** A maximal run of such characters, then a literal that cannot continue the run. */
  function TakeField(s: string, p: char -> bool, lit: string): (r: Option<Field>)
    requires lit != "" && !p(lit[0])
    ensures r.Some? ==> IsField(s, p, lit, r.value)
  {
    SpanFacts(s, p);
    var n := SpanOf(s, p);
    if n > 0 && OccursAt(s, lit, n) then
      assert s == s[..n] + lit + s[n + |lit|..];
      Some(Field(s[..n], s[n + |lit|..]))
    else None
  }

  /** There is at most one way to read the field. */
  lemma FieldIsUnique(s: string, p: char -> bool, lit: string, f: Field)
    requires lit != "" && !p(lit[0]) && IsField(s, p, lit, f)
    ensures TakeField(s, p, lit) == Some(f)
  {
    var k := |f.text|;
    assert s[k] == lit[0] && s[..k] == f.text;
    SpanFacts(s, p);
    SpanIs(s, p, k);
    assert s[k..k + |lit|] == lit;
    assert s[k + |lit|..] == f.rest;
  }

  // ---- strings.TrimSpace ----

  predicate IsSpace(c: char) {
    c in {' ', '\t', '\n', '\U{000B}', '\U{000C}', '\r', '\U{0085}', '\U{00A0}', '\U{1680}', '\U{2028}', '\U{2029}',
          '\U{202F}', '\U{205F}', '\U{3000}'}
    || '\U{2000}' <= c <= '\U{200A}'
  }

  function TrimLeft(s: string): string {
    if s != "" && IsSpace(s[0]) then TrimLeft(s[1..]) else s
  }

  function TrimRight(s: string): string {
    if s != "" && IsSpace(s[|s| - 1]) then TrimRight(s[..|s| - 1]) else s
  }

  function TrimSpace(s: string): string {
    TrimRight(TrimLeft(s))
  }

  lemma {:induction false} TrimsLeft(a: string, s: string)
    requires AllOf(a, IsSpace) && s != "" && !IsSpace(s[0])
    ensures TrimLeft(a + s) == s
  {
    if a == "" {
      assert a + s == s;
    } else {
      assert (a + s)[1..] == a[1..] + s;
      TrimsLeft(a[1..], s);
    }
  }

  lemma {:induction false} TrimsRight(s: string, b: string)
    requires AllOf(b, IsSpace) && s != "" && !IsSpace(s[|s| - 1])
    ensures TrimRight(s + b) == s
  {
    if b == "" {
      assert s + b == s;
    } else {
      assert (s + b)[..|s + b| - 1] == s + b[..|b| - 1];
      TrimsRight(s, b[..|b| - 1]);
    }
  }

  /** White space around the text goes, the text itself stays. */
  lemma TrimsAround(a: string, s: string, b: string)
    requires AllOf(a, IsSpace) && AllOf(b, IsSpace) && s != "" && !IsSpace(s[0]) && !IsSpace(s[|s| - 1])
    ensures TrimSpace(a + s + b) == s
  {
    assert a + s + b == a + (s + b);
    TrimsLeft(a, s + b);
    TrimsRight(s, b);
  }
}
