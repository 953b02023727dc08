/** The output of an EFA bandwidth client: one framed section per lane, and parseEFARMAOutput, which
    recovers the lanes from it. */
module EfaOutput {
  import opened Cluster
  import opened Ordering
  import opened Text
  import PingMesh

  const MARKER: string := "--- EFA LANE "

  datatype Header = Header(slot: nat, device: string, gpu: nat, rc: nat)

  /** One lane's part of the client output. */
  datatype Section = Section(header: Header, log: string)

  datatype LaneResult = LaneResult(slot: nat, gpu: nat, device: string, exitCode: nat, gbps: real)

  // ---- The header line ----

  predicate NameChar(c: char) {
    'A' <= c <= 'Z' || 'a' <= c <= 'z' || '0' <= c <= '9' || c == '_' || c == '.' || c == '-'
  }

  /** The header line after the marker, as the script prints it. */
  function HeaderLine(h: Header): string {
    Decimal(h.slot) + " DEVICE " + (h.device + " GPU " + (Decimal(h.gpu) + " RC " + (Decimal(h.rc) + " ---")))
  }

  /** efaLaneHeaderRE with its four groups. */
  ghost predicate Matches(s: string, slot: string, device: string, gpu: string, rc: string) {
    && s == slot + " DEVICE " + (device + " GPU " + (gpu + " RC " + (rc + " ---")))
    && slot != "" && device != "" && gpu != "" && rc != ""
    && AllOf(slot, IsDigit) && AllOf(device, NameChar) && AllOf(gpu, IsDigit) && AllOf(rc, IsDigit)
  }

  function ReadHeader(s: string): Option<Header> {
    var a := TakeField(s, IsDigit, " DEVICE ");
    if a.None? then None
    else
      var b := TakeField(a.value.rest, NameChar, " GPU ");
      if b.None? then None
      else
        var c := TakeField(b.value.rest, IsDigit, " RC ");
        if c.None? then None
        else
          var d := TakeField(c.value.rest, IsDigit, " ---");
          if d.None? || d.value.rest != "" then None
          else Some(Header(Atoi(a.value.text), b.value.text, Atoi(c.value.text), Atoi(d.value.text)))
  }

  /** Whatever the regular expression matches is read, group by group. */
  lemma ReadHeaderFinds(s: string, slot: string, device: string, gpu: string, rc: string)
    requires Matches(s, slot, device, gpu, rc)
    ensures ReadHeader(s) == Some(Header(Atoi(slot), device, Atoi(gpu), Atoi(rc)))
  {
    hide SpanOf, TakeField, OccursAt, AllOf, Atoi;
    var s3 := rc + " ---";
    var s2 := gpu + " RC " + s3;
    var s1 := device + " GPU " + s2;
    FieldIsUnique(s, IsDigit, " DEVICE ", Field(slot, s1));
    FieldIsUnique(s1, NameChar, " GPU ", Field(device, s2));
    FieldIsUnique(s2, IsDigit, " RC ", Field(gpu, s3));
    assert s3 == rc + " ---" + "";
    FieldIsUnique(s3, IsDigit, " ---", Field(rc, ""));
  }

  /** And nothing else is. */
  lemma ReadHeaderMatches(s: string)
    requires ReadHeader(s).Some?
    ensures exists slot, device, gpu, rc :: Matches(s, slot, device, gpu, rc)
  {
    hide SpanOf, TakeField, OccursAt, AllOf, Atoi;
    var a := TakeField(s, IsDigit, " DEVICE ").value;
    var b := TakeField(a.rest, NameChar, " GPU ").value;
    var c := TakeField(b.rest, IsDigit, " RC ").value;
    var d := TakeField(c.rest, IsDigit, " ---").value;
    assert c.rest == d.text + " ---";
    assert Matches(s, a.text, b.text, c.text, d.text);
  }

  /** A header that the client can print: Go ints and a valid device name. */
  predicate Printable(h: Header) {
    h.slot <= MAX_INT && h.gpu <= MAX_INT && h.rc <= MAX_INT && PingMesh.ValidDevice(h.device)
  }

  lemma HeaderRoundTrip(h: Header)
    requires Printable(h)
    ensures ReadHeader(HeaderLine(h)) == Some(h)
  {
    DecimalDigits(h.slot);
    DecimalDigits(h.gpu);
    DecimalDigits(h.rc);
    hide Decimal, Value;
    ReadHeaderFinds(HeaderLine(h), Decimal(h.slot), h.device, Decimal(h.gpu), Decimal(h.rc));
  }

  /** The line that starts a section. */
  lemma HeaderExample()
    ensures MARKER + HeaderLine(Header(2, "rdmap0s0", 1, 0)) == "--- EFA LANE 2 DEVICE rdmap0s0 GPU 1 RC 0 ---"
  {
  }

  // ---- The marker does not occur by accident ----

  /** No place looks like the inside of the marker: a dash, a blank and an E. */
  ghost predicate NoTriple(s: string) {
    forall j :: 0 <= j && j + 2 < |s| ==> !(s[j] == '-' && s[j + 1] == ' ' && s[j + 2] == 'E')
  }

  lemma NoTripleJoin(a: string, b: string)
    requires NoTriple(a) && NoTriple(b)
    requires |a| >= 2 && |b| >= 2
    requires a[|a| - 1] != ' ' || a[|a| - 2] != '-' || b[0] != 'E'
    requires a[|a| - 1] != '-' || b[0] != ' ' || b[1] != 'E'
    ensures NoTriple(a + b)
  {
    var s := a + b;
    forall j | 0 <= j && j + 2 < |s| ensures !(s[j] == '-' && s[j + 1] == ' ' && s[j + 2] == 'E') {
      if j >= |a| { assert s[j] == b[j - |a|] && s[j + 1] == b[j + 1 - |a|] && s[j + 2] == b[j + 2 - |a|]; }
    }
  }

  lemma PieceNoTriple(a: string, lit: string)
    requires a != "" && forall i :: 0 <= i < |a| ==> a[i] != ' '
    requires lit == " DEVICE " || lit == " GPU " || lit == " RC " || lit == " ---"
    ensures NoTriple(a + lit)
  {
    var s := a + lit;
    forall j | 0 <= j && j + 2 < |s| ensures !(s[j] == '-' && s[j + 1] == ' ' && s[j + 2] == 'E') {
      if j + 1 < |a| { assert s[j + 1] == a[j + 1]; }
    }
  }

  lemma HeaderNoTriple(h: Header)
    requires Printable(h)
    ensures NoTriple(HeaderLine(h))
  {
    DecimalDigits(h.slot);
    DecimalDigits(h.gpu);
    DecimalDigits(h.rc);
    var a, b, c, d := Decimal(h.slot) + " DEVICE ", h.device + " GPU ", Decimal(h.gpu) + " RC ", Decimal(h.rc) + " ---";
    hide Decimal, Value;
    PieceNoTriple(Decimal(h.slot), " DEVICE ");
    PieceNoTriple(h.device, " GPU ");
    PieceNoTriple(Decimal(h.gpu), " RC ");
    PieceNoTriple(Decimal(h.rc), " ---");
    assert a[|a| - 2] == 'E' && b[|b| - 2] == 'U' && c[|c| - 2] == 'C';
    assert a[|a| - 1] == b[|b| - 1] == c[|c| - 1] == ' ';
    hide NoTriple;
    NoTripleJoin(c, d);
    NoTripleJoin(b, c + d);
    NoTripleJoin(a, b + (c + d));
  }

  lemma NoTripleNoMarker(s: string)
    requires NoTriple(s)
    ensures !Occurs(s, MARKER)
  {
    if i :| 0 <= i <= |s| && OccursAt(s, MARKER, i) {
      TripleInMarker(s, i);
    }
  }

  lemma TripleInMarker(s: string, i: nat)
    requires OccursAt(s, MARKER, i)
    ensures !NoTriple(s)
  {
    var w := s[i..i + |MARKER|];
    assert w[2] == '-' && w[3] == ' ' && w[4] == 'E';
    assert s[i + 2] == w[2] && s[i + 2 + 1] == w[3] && s[i + 2 + 2] == w[4];
  }

  lemma LineBreakStops(a: string, b: string, m: string)
    requires !Occurs(a, m) && !Occurs(b, m) && '\n' !in m && m != ""
    ensures !Occurs(a + "\n" + b, m)
  {
    var s := a + "\n" + b;
    forall i | 0 <= i <= |s| ensures !OccursAt(s, m, i) {
      if OccursAt(s, m, i) { OccursOnOneSide(a, b, m, i); }
    }
  }

  lemma OccursOnOneSide(a: string, b: string, m: string, i: nat)
    requires '\n' !in m && m != "" && OccursAt(a + "\n" + b, m, i)
    ensures Occurs(a, m) || Occurs(b, m)
  {
    var s := a + "\n" + b;
    if i + |m| <= |a| {
      assert s[i..i + |m|] == a[i..i + |m|];
      assert OccursAt(a, m, i);
    } else if i > |a| {
      assert s[i..i + |m|] == b[i - |a| - 1..i - |a| - 1 + |m|];
      assert OccursAt(b, m, i - |a| - 1);
    } else {
      BreakInside(a, b, m, i);
    }
  }

  lemma BreakInside(a: string, b: string, m: string, i: nat)
    requires i <= |a| < i + |m| && OccursAt(a + "\n" + b, m, i)
    ensures '\n' in m
  {
    assert (a + "\n" + b)[i..i + |m|][|a| - i] == '\n';
  }

  lemma MarkerHasNoBorder()
    ensures NoBorder(MARKER) && '\n' !in MARKER
  {
    forall k | 0 < k < |MARKER| ensures MARKER[k..] != MARKER[..|MARKER| - k] {
      assert MARKER[k..][0] == MARKER[k];
      if k <= 2 { assert MARKER[k..][3 - k] == ' ' && MARKER[..|MARKER| - k][3 - k] == '-'; }
    }
  }

  // ---- Sections ----

  function Body(s: Section): string {
    HeaderLine(s.header) + "\n" + s.log
  }

  function Bodies(secs: seq<Section>): (r: seq<string>)
    ensures |r| == |secs| && forall i :: 0 <= i < |r| ==> r[i] == Body(secs[i])
  {
    if secs == [] then [] else Bodies(secs[..|secs| - 1]) + [Body(secs[|secs| - 1])]
  }

  /** What the client prints: anything, then the sections, each behind the marker. */
  function Rendered(preamble: string, secs: seq<Section>): string {
    Joined([preamble] + Bodies(secs), MARKER)
  }

  ghost predicate MarkerFree(preamble: string, secs: seq<Section>) {
    !Occurs(preamble, MARKER) && forall i :: 0 <= i < |secs| ==> Printable(secs[i].header) && !Occurs(secs[i].log, MARKER)
  }

  lemma BodyIsFree(s: Section)
    requires Printable(s.header) && !Occurs(s.log, MARKER)
    ensures !Occurs(Body(s), MARKER)
  {
    HeaderNoTriple(s.header);
    NoTripleNoMarker(HeaderLine(s.header));
    MarkerHasNoBorder();
    hide Occurs, HeaderLine;
    LineBreakStops(HeaderLine(s.header), s.log, MARKER);
  }

  lemma SplitRendered(preamble: string, secs: seq<Section>)
    requires MarkerFree(preamble, secs)
    ensures Split(Rendered(preamble, secs), MARKER) == [preamble] + Bodies(secs)
  {
    MarkerHasNoBorder();
    hide Occurs, NoBorder;
    var parts := [preamble] + Bodies(secs);
    forall i | 0 <= i < |parts| ensures !Occurs(parts[i], MARKER) {
      if i > 0 { BodyIsFree(secs[i - 1]); }
    }
    SplitJoined(parts, MARKER);
  }

  /** measure stands for efaMBPerSecRE with ParseFloat: all measurements of a log, None for a number
      out of range. */
  type Measure = string -> seq<Option<real>>

  function Usable(ms: seq<Option<real>>): Option<real> {
    if |ms| == 1 then ms[0] else None
  }

  function ResultOf(h: Header, log: string, measure: Measure): Option<LaneResult> {
    if h.rc != 0 then Some(LaneResult(h.slot, h.gpu, h.device, h.rc, 0.0))
    else
      match Usable(measure(log))
      case None => None
      case Some(mb) => Some(LaneResult(h.slot, h.gpu, h.device, 0, mb * 8.0 / 1000.0))
  }

  function ParseSection(section: string, measure: Measure): Option<LaneResult> {
    match IndexFrom(section, "\n", 0)
    case None => None
    case Some(end) =>
      var header := ReadHeader(TrimSpace(section[..end]));
      if header.None? then None else ResultOf(header.value, section[end + 1..], measure)
  }

  lemma BreakAt(s: string, i: nat)
    requires OccursAt(s, "\n", i)
    ensures i < |s| && s[i] == '\n'
  {
    assert s[i..i + 1][0] == s[i];
  }

  lemma HeaderLineShape(h: Header)
    requires Printable(h)
    ensures !Occurs(HeaderLine(h), "\n")
    ensures TrimSpace(HeaderLine(h)) == HeaderLine(h)
  {
    DecimalDigits(h.slot);
    DecimalDigits(h.gpu);
    DecimalDigits(h.rc);
    hide Decimal, Value;
    var s := HeaderLine(h);
    assert s[0] == Decimal(h.slot)[0] && s[|s| - 1] == '-';
    var a, b, c, d := Decimal(h.slot) + " DEVICE ", h.device + " GPU ", Decimal(h.gpu) + " RC ", Decimal(h.rc) + " ---";
    forall i | 0 <= i <= |s| ensures !OccursAt(s, "\n", i) {
      if i < |s| {
        assert s[i] in a || s[i] in b || s[i] in c || s[i] in d;
        assert s[i] != '\n';
        if OccursAt(s, "\n", i) { BreakAt(s, i); }
      }
    }
  }

  /** Parsing a section gives back its header, and its bandwidth if it ran. */
  lemma SectionRoundTrip(s: Section, measure: Measure)
    requires Printable(s.header)
    ensures ParseSection(Body(s), measure) == ResultOf(s.header, s.log, measure)
  {
    HeaderLineShape(s.header);
    var line := HeaderLine(s.header);
    FirstMarker(line, "\n", s.log);
    HeaderRoundTrip(s.header);
    assert Body(s)[..|line|] == line && Body(s)[|line| + 1..] == s.log;
  }

  // ---- parseEFARMAOutput ----

  ghost predicate AllParse(sections: seq<string>, measure: Measure) {
    forall i :: 0 <= i < |sections| ==> ParseSection(sections[i], measure).Some?
  }

  function Results(sections: seq<string>, measure: Measure): (r: seq<LaneResult>)
    requires AllParse(sections, measure)
    ensures |r| == |sections| && forall i :: 0 <= i < |r| ==> ParseSection(sections[i], measure) == Some(r[i])
  {
    seq(|sections|, i requires 0 <= i < |sections| => ParseSection(sections[i], measure).value)
  }

  ghost predicate DistinctSlots(rs: seq<LaneResult>) {
    forall i, j :: 0 <= i < j < |rs| ==> rs[i].slot != rs[j].slot
  }

  /** The output is accepted: every section is readable, and the slots are 0 to expected - 1, each once. */
  ghost predicate Accepted(sections: seq<string>, expected: nat, measure: Measure) {
    && AllParse(sections, measure)
    && |sections| == expected
    && DistinctSlots(Results(sections, measure))
    && forall i :: 0 <= i < expected ==> Results(sections, measure)[i].slot < expected
  }

  ghost predicate NumberedSlots(rs: seq<LaneResult>) {
    forall s :: 0 <= s < |rs| ==> rs[s].slot == s
  }

  predicate SlotLeq(a: LaneResult, b: LaneResult) { a.slot <= b.slot }

  /** Strictly increasing numbers below n, n of them, are 0 to n - 1. */
  lemma {:induction false} AtLeastIndex(rs: seq<LaneResult>, i: nat)
    requires i < |rs| && forall a, b :: 0 <= a < b < |rs| ==> rs[a].slot < rs[b].slot
    ensures rs[i].slot >= i
  {
    if i > 0 { AtLeastIndex(rs, i - 1); }
  }

  lemma {:induction false} AtMostIndex(rs: seq<LaneResult>, i: nat)
    requires i < |rs| && forall a, b :: 0 <= a < b < |rs| ==> rs[a].slot < rs[b].slot
    requires forall a :: 0 <= a < |rs| ==> rs[a].slot < |rs|
    ensures rs[i].slot <= i
    decreases |rs| - i
  {
    if i < |rs| - 1 { AtMostIndex(rs, i + 1); }
  }

  lemma SortedSlots(rs: seq<LaneResult>, sorted: seq<LaneResult>)
    requires DistinctSlots(rs) && Sorted(sorted, SlotLeq) && multiset(sorted) == multiset(rs)
    ensures |sorted| == |rs|
    ensures NumberedSlots(sorted) <==> forall i :: 0 <= i < |rs| ==> rs[i].slot < |rs|
  {
    SameElements(sorted, rs);
    PermutationDistinct(rs, sorted);
    forall a, b | 0 <= a < b < |sorted| ensures sorted[a].slot < sorted[b].slot {
      assert SlotLeq(sorted[a], sorted[b]) && sorted[a] in rs && sorted[b] in rs && sorted[a] != sorted[b];
    }
    if NumberedSlots(sorted) {
      forall i | 0 <= i < |rs| ensures rs[i].slot < |rs| { assert rs[i] in sorted; }
    }
    if forall i :: 0 <= i < |rs| ==> rs[i].slot < |rs| {
      forall s | 0 <= s < |sorted| ensures sorted[s].slot < |rs| { assert sorted[s] in rs; }
      forall s | 0 <= s < |sorted| ensures sorted[s].slot == s {
        AtLeastIndex(sorted, s);
        AtMostIndex(sorted, s);
      }
    }
  }

  /** Every section's result stands at its own slot. */
  ghost predicate Placed(sections: seq<string>, measure: Measure, rs: seq<LaneResult>) {
    && NumberedSlots(rs) && |rs| == |sections|
    && forall i :: 0 <= i < |sections| ==> Reported(sections[i], measure, rs)
  }

  ghost predicate Reported(section: string, measure: Measure, rs: seq<LaneResult>) {
    exists s :: 0 <= s < |rs| && ParseSection(section, measure) == Some(rs[s])
  }

  lemma SortedIsPlaced(sections: seq<string>, measure: Measure, sorted: seq<LaneResult>)
    requires AllParse(sections, measure) && NumberedSlots(sorted)
    requires multiset(sorted) == multiset(Results(sections, measure))
    ensures Placed(sections, measure, sorted)
  {
    var rs := Results(sections, measure);
    SameElements(sorted, rs);
    hide ParseSection;
    forall i | 0 <= i < |sections| ensures Reported(sections[i], measure, sorted) {
      assert rs[i] in sorted;
      var s :| 0 <= s < |sorted| && sorted[s] == rs[i];
      assert ParseSection(sections[i], measure) == Some(sorted[s]);
    }
  }

  /** Header, duplicate check and measurement of one section, in the order of the source. */
  method ReadSection(section: string, seenSlots: set<nat>, measure: Measure) returns (r: Option<LaneResult>)
    ensures r.Some? <==> ParseSection(section, measure).Some? && ParseSection(section, measure).value.slot !in seenSlots
    ensures r.Some? ==> r == ParseSection(section, measure)
  {
    hide ReadHeader, IndexFrom, TrimSpace;
    var lineEnd := IndexFrom(section, "\n", 0);
    if lineEnd.None? { return None; }
    var header := ReadHeader(TrimSpace(section[..lineEnd.value]));
    if header.None? { return None; }
    if header.value.slot in seenSlots { return None; }
    var measurements := measure(section[lineEnd.value + 1..]);
    if header.value.rc == 0 {
      if |measurements| != 1 { return None; }
      if measurements[0].None? { return None; }
      return Some(LaneResult(header.value.slot, header.value.gpu, header.value.device, 0,
                             measurements[0].value * 8.0 / 1000.0));
    }
    return Some(LaneResult(header.value.slot, header.value.gpu, header.value.device, header.value.rc, 0.0));
  }

  method CollectSections(sections: seq<string>, measure: Measure) returns (r: Option<seq<LaneResult>>)
    ensures r.Some? <==> AllParse(sections, measure) && DistinctSlots(Results(sections, measure))
    ensures r.Some? ==> r.value == Results(sections, measure)
  {
    hide ParseSection;
    var results: seq<LaneResult> := [];
    var seenSlots: set<nat> := {};
    for i := 0 to |sections|
      invariant AllParse(sections[..i], measure) && results == Results(sections[..i], measure)
      invariant DistinctSlots(results)
      invariant forall s :: s in seenSlots <==> exists j :: 0 <= j < |results| && results[j].slot == s
    {
      var lane := ReadSection(sections[i], seenSlots, measure);
      if lane.None? {
        BadSection(sections, measure, i, results);
        return None;
      }
      assert sections[..i + 1] == sections[..i] + [sections[i]];
      assert Results(sections[..i + 1], measure) == results + [lane.value];
      seenSlots := seenSlots + {lane.value.slot};
      results := results + [lane.value];
    }
    assert sections[..|sections|] == sections;
    r := Some(results);
  }

  lemma BadSection(sections: seq<string>, measure: Measure, i: nat, results: seq<LaneResult>)
    requires i < |sections| && AllParse(sections[..i], measure) && results == Results(sections[..i], measure)
    requires ParseSection(sections[i], measure).None?
          || exists j :: 0 <= j < |results| && results[j].slot == ParseSection(sections[i], measure).value.slot
    ensures !(AllParse(sections, measure) && DistinctSlots(Results(sections, measure)))
  {
    hide ParseSection;
    if AllParse(sections, measure) {
      var all := Results(sections, measure);
      var j :| 0 <= j < |results| && results[j].slot == ParseSection(sections[i], measure).value.slot;
      assert sections[..i][j] == sections[j];
      assert all[j].slot == all[i].slot;
    }
  }

  method ParseEfaRmaOutput(logs: string, expected: nat, measure: Measure) returns (r: Option<seq<LaneResult>>)
    ensures r.Some? <==> Accepted(Split(logs, MARKER)[1..], expected, measure)
    ensures r.Some? ==> Placed(Split(logs, MARKER)[1..], measure, r.value)
  {
    hide ParseSection, Placed;
    var sections := Split(logs, MARKER)[1..];
    var collected := CollectSections(sections, measure);
    if collected.None? { return None; }
    if |collected.value| != expected { return None; }
    var sorted := SortSlice(collected.value, SlotLeq);
    SortedSlots(collected.value, sorted);
    for slot := 0 to |sorted|
      invariant forall s :: 0 <= s < slot ==> sorted[s].slot == s
    {
      if sorted[slot].slot != slot { return None; }
    }
    SortedIsPlaced(sections, measure, sorted);
    r := Some(sorted);
  }

  // ---- Framing round trip ----

  ghost predicate Measured(s: Section, measure: Measure) {
    s.header.rc == 0 ==> Usable(measure(s.log)).Some?
  }

  /** One section for each slot from 0, and one measurement wherever the process succeeded. */
  ghost predicate Complete(secs: seq<Section>, expected: nat, measure: Measure) {
    && |secs| == expected
    && (forall i, j :: 0 <= i < j < |secs| ==> secs[i].header.slot != secs[j].header.slot)
    && (forall i :: 0 <= i < |secs| ==> secs[i].header.slot < expected && Measured(secs[i], measure))
  }

  lemma RenderedSections(preamble: string, secs: seq<Section>, measure: Measure)
    requires MarkerFree(preamble, secs)
    ensures var ss := Split(Rendered(preamble, secs), MARKER)[1..];
            |ss| == |secs|
            && forall i :: 0 <= i < |secs| ==> ParseSection(ss[i], measure) == ResultOf(secs[i].header, secs[i].log, measure)
  {
    SplitRendered(preamble, secs);
    hide ParseSection, Split, Rendered, Occurs, ResultOf;
    forall i | 0 <= i < |secs| ensures ParseSection(Bodies(secs)[i], measure) == ResultOf(secs[i].header, secs[i].log, measure) {
      SectionRoundTrip(secs[i], measure);
    }
  }

  lemma ResultOfFacts(s: Section, measure: Measure)
    ensures ResultOf(s.header, s.log, measure).Some? <==> Measured(s, measure)
    ensures Measured(s, measure) ==> ResultOf(s.header, s.log, measure).value.slot == s.header.slot
  {
  }

  /** The parser accepts the output of a client exactly if the sections are complete. */
  lemma AcceptedExactly(preamble: string, secs: seq<Section>, expected: nat, measure: Measure)
    requires MarkerFree(preamble, secs)
    ensures Accepted(Split(Rendered(preamble, secs), MARKER)[1..], expected, measure) <==> Complete(secs, expected, measure)
  {
    RenderedSections(preamble, secs, measure);
    var ss := Split(Rendered(preamble, secs), MARKER)[1..];
    hide ParseSection, Split, Rendered, MarkerFree, ResultOf, Measured;
    forall i | 0 <= i < |secs|
      ensures ParseSection(ss[i], measure).Some? <==> Measured(secs[i], measure)
      ensures Measured(secs[i], measure) ==> ParseSection(ss[i], measure).value.slot == secs[i].header.slot
    {
      ResultOfFacts(secs[i], measure);
    }
    AcceptedIfComplete(ss, secs, expected, measure);
  }

  lemma AcceptedIfComplete(ss: seq<string>, secs: seq<Section>, expected: nat, measure: Measure)
    requires |ss| == |secs|
    requires forall i :: 0 <= i < |secs| ==> (ParseSection(ss[i], measure).Some? <==> Measured(secs[i], measure))
    requires forall i :: 0 <= i < |secs| && Measured(secs[i], measure) ==>
               ParseSection(ss[i], measure).value.slot == secs[i].header.slot
    ensures Accepted(ss, expected, measure) <==> Complete(secs, expected, measure)
  {
    hide ParseSection, Measured;
    if forall i :: 0 <= i < |secs| ==> Measured(secs[i], measure) {
      var rs := Results(ss, measure);
      assert forall i :: 0 <= i < |secs| ==> rs[i].slot == secs[i].header.slot;
    } else {
      var i :| 0 <= i < |secs| && !Measured(secs[i], measure);
      assert ParseSection(ss[i], measure).None?;
    }
  }

  /** What is parsed is what was printed: section by section, at its slot, in whatever order they came. */
  lemma FramingRoundTrip(preamble: string, secs: seq<Section>, measure: Measure, rs: seq<LaneResult>, i: nat)
    requires MarkerFree(preamble, secs) && Placed(Split(Rendered(preamble, secs), MARKER)[1..], measure, rs)
    requires i < |secs|
    ensures |rs| == |secs| && secs[i].header.slot < |rs|
    ensures Some(rs[secs[i].header.slot]) == ResultOf(secs[i].header, secs[i].log, measure)
  {
    RenderedSections(preamble, secs, measure);
    var ss := Split(Rendered(preamble, secs), MARKER)[1..];
    hide ParseSection, Split, Rendered, MarkerFree, ResultOf, Measured;
    ResultOfFacts(secs[i], measure);
    assert Reported(ss[i], measure, rs);
    var s :| 0 <= s < |rs| && ParseSection(ss[i], measure) == Some(rs[s]);
  }
}
