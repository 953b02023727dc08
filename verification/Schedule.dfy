/** The round-robin tournament (circle method) behind pairwise testing. */
module Schedule {
  import opened Cluster
  import opened Ordering

  // ---- Who sits where ----
  //
  // `q + 1` seats around a table, q odd. Seat 0 never moves; the other q seats rotate by one after
  // every round. `Base` is the seating before round 0.

  function Base(nodes: seq<string>): (b: seq<string>)
    ensures |b| % 2 == 0
  {
    if |nodes| % 2 == 0 then nodes else nodes + [""]
  }

  /** The original seat of whoever is at seat k in round r. */
  function Origin(q: nat, r: nat, k: nat): (o: nat)
    requires r < q && k <= q
    ensures o <= q
  {
    if k == 0 then 0 else if k - 1 >= r then k - r else k - r + q
  }

  /** The seat that original seat o has moved to in round r. */
  function SeatOf(q: nat, r: nat, o: nat): (k: nat)
    requires r < q && o <= q
    ensures k <= q
    ensures Origin(q, r, k) == o
  {
    if o == 0 then 0 else if o - 1 + r < q then o + r else o + r - q
  }

  /** The only round in which original seats x and y face each other: x = 0 meets y when y reaches
      seat q; otherwise 2r + x + y must be a multiple of q, and q is odd. */
  function MeetingRound(q: nat, x: nat, y: nat): (r: nat)
    requires q % 2 == 1 && x < y <= q
    ensures r < q
  {
    if x == 0 then q - y
    else if (x + y) % 2 == 0 then (2 * q - x - y) / 2
    else if x + y <= q then (q - x - y) / 2
    else (3 * q - x - y) / 2
  }

  /** Seat 0 meets the seat that has reached the other end. */
  lemma FaceSeatZero(q: nat, y: nat)
    requires 0 < y <= q
    ensures SeatOf(q, q - y, 0) + SeatOf(q, q - y, y) == q
  {
  }

  /** Two rotating seats: neither, one or both of them have passed seat q. */
  lemma FaceRotating(q: nat, x: nat, y: nat, r: nat)
    requires 0 < x < y <= q && r < q
    requires 2 * r + x + y == q || 2 * r + x + y == 2 * q || 2 * r + x + y == 3 * q
    ensures SeatOf(q, r, x) + SeatOf(q, r, y) == q
  {
  }

  lemma SeatsFace(q: nat, x: nat, y: nat)
    requires q % 2 == 1 && x < y <= q
    ensures SeatOf(q, MeetingRound(q, x, y), x) + SeatOf(q, MeetingRound(q, x, y), y) == q
  {
    hide SeatOf;
    if x == 0 { FaceSeatZero(q, y); } else { FaceRotating(q, x, y, MeetingRound(q, x, y)); }
  }

  lemma MeetOnlyOnce(q: nat, x: nat, y: nat, r: nat)
    requires q % 2 == 1 && x < y <= q && r < q
    requires SeatOf(q, r, x) + SeatOf(q, r, y) == q
    ensures r == MeetingRound(q, x, y)
  {
  }

  // ---- One round ----

  function Canonical(a: string, b: string): NodePair {
    if StrLess(b, a) then NodePair(b, a) else NodePair(a, b)
  }

  function Occupant(base: seq<string>, r: nat, k: nat): string
    requires r < |base| - 1 && k < |base|
  {
    base[Origin(|base| - 1, r, k)]
  }

  /** The pairs of the first t tables in round r; table i seats i and q - i. */
  function Tables(base: seq<string>, r: nat, t: nat): seq<NodePair>
    requires r < |base| - 1 && t <= |base| / 2
  {
    if t == 0 then []
    else
      var a, b := Occupant(base, r, t - 1), Occupant(base, r, |base| - t);
      Tables(base, r, t - 1) + (if a == "" || b == "" then [] else [Canonical(a, b)])
  }

  function Round(base: seq<string>, r: nat): seq<NodePair>
    requires r < |base| - 1
  {
    Tables(base, r, |base| / 2)
  }

  function Rounds(base: seq<string>, n: nat): seq<seq<NodePair>>
    requires n < |base|
  {
    if n == 0 then []
    else if Round(base, n - 1) == [] then Rounds(base, n - 1)
    else Rounds(base, n - 1) + [Round(base, n - 1)]
  }

  /** roundRobinSchedule, by the closed form of the seating instead of by rotation. */
  function RoundRobin(nodes: seq<string>): seq<seq<NodePair>> {
    if |nodes| < 2 then [] else Rounds(Base(nodes), |Base(nodes)| - 1)
  }

  /** The schedule as the source computes it: an array that is rotated in place. */
  method RoundRobinSchedule(nodes: seq<string>) returns (rounds: seq<seq<NodePair>>)
    ensures rounds == RoundRobin(nodes)
  {
    hide Tables, Occupant;
    var n := |nodes|;
    if n < 2 {
      return [];
    }
    var working := SeatEveryone(nodes);
    var m := working.Length;
    ghost var base := Base(nodes);
    SeatedAtStart(base);
    rounds := [];
    var round := 0;
    while round < m - 1
      invariant 0 <= round <= m - 1
      invariant |base| == m >= 2
      invariant round < m - 1 ==> Seated(base, round, working[..])
      invariant rounds == Rounds(base, round)
    {
      var pairs := PairUp(base, round, working);
      if |pairs| > 0 {
        rounds := rounds + [pairs];
      }
      if round + 1 < m - 1 { RotatedSeating(base, round, working[..]); }
      Rotate(working);
      round := round + 1;
    }
  }

  lemma SeatedAtStart(base: seq<string>)
    requires |base| >= 2
    ensures Seated(base, 0, base)
  {
  }

  /** A copy of the nodes, with a bye ("") added to make their number even. */
  method SeatEveryone(nodes: seq<string>) returns (working: array<string>)
    ensures fresh(working) && working[..] == Base(nodes)
  {
    var m := if |nodes| % 2 != 0 then |nodes| + 1 else |nodes|;
    working := new string[m](_ => "");
    forall i | 0 <= i < |nodes| { working[i] := nodes[i]; }
  }

  /** Who sits where in round r. */
  ghost predicate Seated(base: seq<string>, r: nat, working: seq<string>)
    requires r < |base| - 1
  {
    |working| == |base| && forall k :: 0 <= k < |base| ==> working[k] == Occupant(base, r, k)
  }

  /** The inner loop: seat i plays seat m - 1 - i, the smaller name as server. */
  method PairUp(ghost base: seq<string>, ghost r: nat, working: array<string>) returns (pairs: seq<NodePair>)
    requires r < |base| - 1 && Seated(base, r, working[..])
    ensures pairs == Round(base, r)
  {
    var m := working.Length;
    pairs := [];
    var i := 0;
    while i < m / 2
      invariant 0 <= i <= m / 2
      invariant pairs == Tables(base, r, i)
    {
      var a := working[i];
      var b := working[m - 1 - i];
      assert a == working[..][i] && b == working[..][m - 1 - i];
      if !(a == "" || b == "") {
        if StrLess(b, a) {
          a, b := b, a;
        }
        pairs := pairs + [NodePair(a, b)];
      }
      i := i + 1;
    }
  }

  function Rotated(w: seq<string>): seq<string>
    requires |w| >= 2
  {
    [w[0], w[|w| - 1]] + w[1..|w| - 1]
  }

  /** Seat 0 stays, everyone else moves up one seat, the last one to seat 1. */
  method Rotate(working: array<string>)
    requires working.Length >= 2
    modifies working
    ensures working[..] == Rotated(old(working[..]))
  {
    var m := working.Length;
    var last := working[m - 1];
    forall k | 2 <= k < m { working[k] := working[k - 1]; }
    working[1] := last;
  }

  /** One rotation of the seating of round r is the seating of round r + 1. */
  lemma RotatedSeating(base: seq<string>, r: nat, w: seq<string>)
    requires r + 1 < |base| - 1 && Seated(base, r, w)
    ensures Seated(base, r + 1, Rotated(w))
  {
    var q := |base| - 1;
    forall k | 0 <= k < |base| ensures Rotated(w)[k] == Occupant(base, r + 1, k) {
      assert Rotated(w)[k] == w[if k == 0 then 0 else if k == 1 then q else k - 1];
      assert Origin(q, r + 1, k) == Origin(q, r, if k == 0 then 0 else if k == 1 then q else k - 1);
    }
  }

  // ---- Every pair meets exactly once ----

  /** Distinct names, except that the bye may stand next to a node without a name. */
  ghost predicate ValidBase(base: seq<string>) {
    && |base| >= 2 && |base| % 2 == 0
    && forall i, j :: 0 <= i < j < |base| && base[i] == base[j] ==> base[i] == ""
  }

  /** In one round a node sits at no more than one table. */
  ghost predicate NodeDisjoint(pairs: seq<NodePair>) {
    forall i, j :: 0 <= i < j < |pairs| ==> Disjoint(pairs[i], pairs[j])
  }

  predicate Disjoint(p: NodePair, q: NodePair) {
    p.server != q.server && p.server != q.client && p.client != q.server && p.client != q.client
  }

  /** How often the schedule runs p. */
  function Occurrences(rounds: seq<seq<NodePair>>, p: NodePair): nat {
    if rounds == [] then 0
    else Occurrences(rounds[..|rounds| - 1], p) + multiset(rounds[|rounds| - 1])[p]
  }

  /** Whether table i of round r seats exactly the two nodes of p. */
  ghost predicate AtTable(base: seq<string>, r: nat, i: nat, p: NodePair)
    requires r < |base| - 1 && i < |base| / 2
  {
    var a, b := Occupant(base, r, i), Occupant(base, r, |base| - 1 - i);
    a != "" && b != "" && p == Canonical(a, b)
  }

  /** Every pair of a round is played at some table... */
  lemma {:induction false} TableOf(base: seq<string>, r: nat, t: nat, p: NodePair) returns (i: nat)
    requires r < |base| - 1 && t <= |base| / 2 && p in Tables(base, r, t)
    ensures i < t && AtTable(base, r, i, p)
  {
    if p in Tables(base, r, t - 1) {
      i := TableOf(base, r, t - 1, p);
    } else {
      i := t - 1;
    }
  }

  /** ... and every occupied table adds its pair to the round. */
  lemma {:induction false} TableAdds(base: seq<string>, r: nat, t: nat, i: nat, p: NodePair)
    requires r < |base| - 1 && i < t <= |base| / 2 && AtTable(base, r, i, p)
    ensures p in Tables(base, r, t)
  {
    hide Canonical, Occupant;
    if i < t - 1 { TableAdds(base, r, t - 1, i, p); }
  }

  /** Different tables of one round seat different nodes. */
  lemma TablesApart(base: seq<string>, r: nat, i: nat, j: nat, p: NodePair, p': NodePair)
    requires ValidBase(base) && r < |base| - 1 && i < j < |base| / 2
    requires AtTable(base, r, i, p) && AtTable(base, r, j, p')
    ensures Disjoint(p, p')
  {
    var q := |base| - 1;
    SeatsApart(base, r, i, j);
    SeatsApart(base, r, i, q - j);
    SeatsApart(base, r, j, q - i);
    SeatsApart(base, r, q - j, q - i);
  }

  lemma SeatsApart(base: seq<string>, r: nat, i: nat, j: nat)
    requires ValidBase(base) && r < |base| - 1 && i < j < |base|
    requires Occupant(base, r, i) != ""
    ensures Occupant(base, r, i) != Occupant(base, r, j)
  {
    var a, b := Origin(|base| - 1, r, i), Origin(|base| - 1, r, j);
    assert a != b;
    if a < b { assert base[a] != base[b]; } else { assert base[b] != base[a]; }
  }

  lemma {:induction false} TablesDisjoint(base: seq<string>, r: nat, t: nat)
    requires ValidBase(base) && r < |base| - 1 && t <= |base| / 2
    ensures NodeDisjoint(Tables(base, r, t))
  {
    if t > 0 {
      TablesDisjoint(base, r, t - 1);
      var prev, all := Tables(base, r, t - 1), Tables(base, r, t);
      if |all| > |prev| {
        assert AtTable(base, r, t - 1, all[|prev|]);
        hide Occupant, Canonical, Tables, AtTable, Disjoint;
        forall j | 0 <= j < |prev| ensures Disjoint(prev[j], all[|prev|]) {
          EarlierTableApart(base, r, t, prev[j], all[|prev|]);
        }
      }
    }
  }

  lemma EarlierTableApart(base: seq<string>, r: nat, t: nat, p: NodePair, p': NodePair)
    requires ValidBase(base) && r < |base| - 1 && 0 < t <= |base| / 2
    requires p in Tables(base, r, t - 1) && AtTable(base, r, t - 1, p')
    ensures Disjoint(p, p')
  {
    hide Occupant, Canonical, Tables, AtTable, Disjoint;
    var i := TableOf(base, r, t - 1, p);
    TablesApart(base, r, i, t - 1, p, p');
  }

  lemma CanonicalSymmetric(a: string, b: string)
    ensures Canonical(a, b) == Canonical(b, a)
    ensures a != b ==> StrLess(Canonical(a, b).server, Canonical(a, b).client)
  {
    StrLessTrichotomy(a, b);
  }

  /** A pair is played in round r exactly when its original seats face each other there. */
  lemma RoundPlays(base: seq<string>, r: nat, x: nat, y: nat)
    requires ValidBase(base) && r < |base| - 1 && x < y < |base|
    requires base[x] != "" && base[y] != ""
    ensures Canonical(base[x], base[y]) in Round(base, r) <==> r == MeetingRound(|base| - 1, x, y)
  {
    hide Tables, Canonical, MeetingRound, SeatOf;
    if Canonical(base[x], base[y]) in Round(base, r) { PlayedAtMeeting(base, r, x, y); }
    MeetingPlays(base, x, y);
  }

  lemma PlayedAtMeeting(base: seq<string>, r: nat, x: nat, y: nat)
    requires ValidBase(base) && r < |base| - 1 && x < y < |base|
    requires base[x] != "" && base[y] != ""
    requires Canonical(base[x], base[y]) in Round(base, r)
    ensures r == MeetingRound(|base| - 1, x, y)
  {
    hide Tables, Canonical, MeetingRound, SeatOf;
    var p := Canonical(base[x], base[y]);
    var i := TableOf(base, r, |base| / 2, p);
    SeatsOfPair(base, r, i, x, y);
    MeetOnlyOnce(|base| - 1, x, y, r);
  }

  lemma MeetingPlays(base: seq<string>, x: nat, y: nat)
    requires ValidBase(base) && x < y < |base|
    requires base[x] != "" && base[y] != ""
    ensures Canonical(base[x], base[y]) in Round(base, MeetingRound(|base| - 1, x, y))
  {
    hide Tables, Canonical, MeetingRound;
    var i := PairAtTable(base, x, y);
    TableAdds(base, MeetingRound(|base| - 1, x, y), |base| / 2, i, Canonical(base[x], base[y]));
  }

  /** Names are unique, so a table that seats a pair seats its two original seats. */
  lemma SeatsOfPair(base: seq<string>, r: nat, i: nat, x: nat, y: nat)
    requires ValidBase(base) && r < |base| - 1 && x < y < |base| && i < |base| / 2
    requires base[x] != "" && base[y] != ""
    requires AtTable(base, r, i, Canonical(base[x], base[y]))
    ensures SeatOf(|base| - 1, r, x) + SeatOf(|base| - 1, r, y) == |base| - 1
  {
    var q := |base| - 1;
    var a, b := Origin(q, r, i), Origin(q, r, q - i);
    assert {base[a], base[b]} == {base[x], base[y]} by {
      CanonicalSymmetric(base[x], base[y]);
    }
    assert base[x] != base[y];
    assert base[a] == base[x] || base[a] == base[y];
    assert a == x || a == y by { SameName(base, a, x); SameName(base, a, y); }
    assert b == x || b == y by { SameName(base, b, x); SameName(base, b, y); }
    assert a != b;
  }

  lemma SameName(base: seq<string>, a: nat, b: nat)
    requires ValidBase(base) && a < |base| && b < |base| && base[a] != ""
    ensures base[a] == base[b] ==> a == b
  {
  }

  lemma OccupantOfSeat(base: seq<string>, r: nat, o: nat)
    requires r < |base| - 1 && o < |base|
    ensures Occupant(base, r, SeatOf(|base| - 1, r, o)) == base[o]
  {
  }

  lemma PairAtTable(base: seq<string>, x: nat, y: nat) returns (i: nat)
    requires ValidBase(base) && x < y < |base|
    requires base[x] != "" && base[y] != ""
    ensures i < |base| / 2
    ensures AtTable(base, MeetingRound(|base| - 1, x, y), i, Canonical(base[x], base[y]))
  {
    var q := |base| - 1;
    assert q % 2 == 1;
    var r := MeetingRound(q, x, y);
    hide MeetingRound, SeatOf, Occupant, Canonical, ValidBase, AtTable;
    SeatsFace(q, x, y);
    OccupantOfSeat(base, r, x);
    OccupantOfSeat(base, r, y);
    var s, t := SeatOf(q, r, x), SeatOf(q, r, y);
    if s < t {
      i := s;
      SeatedPair(base, r, i, base[x], base[y]);
    } else {
      i := t;
      SeatedPair(base, r, i, base[y], base[x]);
      CanonicalSymmetric(base[x], base[y]);
    }
  }

  lemma SeatedPair(base: seq<string>, r: nat, i: nat, a: string, b: string)
    requires r < |base| - 1 && i < |base| / 2 && a != "" && b != ""
    requires Occupant(base, r, i) == a && Occupant(base, r, |base| - 1 - i) == b
    ensures AtTable(base, r, i, Canonical(a, b))
  {
  }

  lemma DisjointIsDistinct(pairs: seq<NodePair>)
    requires NodeDisjoint(pairs)
    ensures Distinct(pairs)
  {
  }

  lemma OccurrencesAppend(rounds: seq<seq<NodePair>>, round: seq<NodePair>, p: NodePair)
    ensures Occurrences(rounds + [round], p) == Occurrences(rounds, p) + multiset(round)[p]
  {
    assert (rounds + [round])[..|rounds|] == rounds;
  }

  /** A round that plays p plays it once. */
  lemma RoundMultiplicity(base: seq<string>, r: nat, p: NodePair)
    requires ValidBase(base) && r < |base| - 1
    ensures multiset(Round(base, r))[p] == if p in Round(base, r) then 1 else 0
  {
    TablesDisjoint(base, r, |base| / 2);
    DisjointIsDistinct(Round(base, r));
    DistinctMultiplicity(Round(base, r), p);
  }

  /** What round n adds to the count. */
  lemma OccurrencesStep(base: seq<string>, n: nat, p: NodePair)
    requires ValidBase(base) && n < |base| - 1
    ensures Occurrences(Rounds(base, n + 1), p)
         == Occurrences(Rounds(base, n), p) + if p in Round(base, n) then 1 else 0
  {
    RoundMultiplicity(base, n, p);
    OccurrencesAppend(Rounds(base, n), Round(base, n), p);
  }

  lemma NoRounds(base: seq<string>, p: NodePair)
    requires |base| > 0
    ensures Occurrences(Rounds(base, 0), p) == 0
  {
  }

  lemma {:induction false} RoundsOccurrences(base: seq<string>, n: nat, x: nat, y: nat)
    requires ValidBase(base) && n < |base| && x < y < |base|
    requires base[x] != "" && base[y] != ""
    ensures Occurrences(Rounds(base, n), Canonical(base[x], base[y]))
         == if MeetingRound(|base| - 1, x, y) < n then 1 else 0
  {
    hide Tables, Rounds, Occurrences, MeetingRound, Canonical;
    if n == 0 {
      NoRounds(base, Canonical(base[x], base[y]));
    } else {
      RoundsOccurrences(base, n - 1, x, y);
      RoundPlays(base, n - 1, x, y);
      OccurrencesStep(base, n - 1, Canonical(base[x], base[y]));
    }
  }

  lemma RoundPlaysOnlyPairs(base: seq<string>, r: nat, p: NodePair)
    requires ValidBase(base) && r < |base| - 1 && p in Round(base, r)
    ensures p.server in base && p.client in base && p.server != "" && StrLess(p.server, p.client)
  {
    var i := TableOf(base, r, |base| / 2, p);
    SeatsApart(base, r, i, |base| - 1 - i);
    CanonicalSymmetric(Occupant(base, r, i), Occupant(base, r, |base| - 1 - i));
  }

  /** A pair that some round plays is a canonical pair of two named nodes. */
  lemma {:induction false} RoundsPlayOnlyPairs(base: seq<string>, n: nat, p: NodePair)
    requires ValidBase(base) && n < |base| && Occurrences(Rounds(base, n), p) > 0
    ensures p.server in base && p.client in base && p.server != "" && StrLess(p.server, p.client)
  {
    hide Tables, Rounds, Occurrences;
    if n == 0 {
      NoRounds(base, p);
    } else {
      OccurrencesStep(base, n - 1, p);
      if p in Round(base, n - 1) {
        RoundPlaysOnlyPairs(base, n - 1, p);
      } else {
        RoundsPlayOnlyPairs(base, n - 1, p);
      }
    }
  }

  lemma BaseIsValid(nodes: seq<string>)
    requires Distinct(nodes) && |nodes| >= 2
    ensures ValidBase(Base(nodes))
  {
  }

  /** The tournament plays a pair once if it is (smaller name, larger name) of two named nodes, and
      never otherwise. */
  lemma EachPairExactlyOnce(nodes: seq<string>, p: NodePair)
    requires Distinct(nodes)
    ensures Occurrences(RoundRobin(nodes), p) == if Playable(nodes, p) then 1 else 0
  {
    hide Rounds;
    if |nodes| < 2 {
      StrLessTrichotomy(p.server, p.client);
      assert p.server in nodes && p.client in nodes ==> p.server == p.client;
      assert Occurrences([], p) == 0;
    } else if Playable(nodes, p) {
      PlayableOnce(nodes, p);
    } else if Occurrences(RoundRobin(nodes), p) > 0 {
      PlayedIsPlayable(nodes, p);
    }
  }

  lemma PlayedIsPlayable(nodes: seq<string>, p: NodePair)
    requires Distinct(nodes) && |nodes| >= 2 && Occurrences(RoundRobin(nodes), p) > 0
    ensures Playable(nodes, p)
  {
    hide Rounds, Occurrences;
    BaseIsValid(nodes);
    RoundsPlayOnlyPairs(Base(nodes), |Base(nodes)| - 1, p);
    StrLessTrichotomy(p.server, p.client);
    assert StrLess("", p.client);
    assert forall z :: z in Base(nodes) && z != "" ==> z in nodes;
  }

  predicate Playable(nodes: seq<string>, p: NodePair) {
    p.server in nodes && p.client in nodes && p.server != "" && StrLess(p.server, p.client)
  }

  lemma PlayableOnce(nodes: seq<string>, p: NodePair)
    requires Distinct(nodes) && |nodes| >= 2 && Playable(nodes, p)
    ensures Occurrences(RoundRobin(nodes), p) == 1
  {
    hide Rounds, Occurrences;
    BaseIsValid(nodes);
    StrLessTrichotomy(p.server, p.client);
    CanonicalSymmetric(p.server, p.client);
    var x :| 0 <= x < |nodes| && nodes[x] == p.server;
    var y :| 0 <= y < |nodes| && nodes[y] == p.client;
    RoundsOccurrences(Base(nodes), |Base(nodes)| - 1, if x < y then x else y, if x < y then y else x);
  }

  // ---- Shape of the schedule ----

  lemma {:induction false} RoundsDisjoint(base: seq<string>, n: nat)
    requires ValidBase(base) && n < |base|
    ensures forall i :: 0 <= i < |Rounds(base, n)| ==> NodeDisjoint(Rounds(base, n)[i])
  {
    if n > 0 {
      RoundsDisjoint(base, n - 1);
      TablesDisjoint(base, n - 1, |base| / 2);
    }
  }

  /** No node is in two pairs of one round. */
  lemma ScheduleDisjoint(nodes: seq<string>)
    requires Distinct(nodes)
    ensures forall i :: 0 <= i < |RoundRobin(nodes)| ==> NodeDisjoint(RoundRobin(nodes)[i])
  {
    if |nodes| >= 2 {
      BaseIsValid(nodes);
      RoundsDisjoint(Base(nodes), |Base(nodes)| - 1);
    }
  }

  lemma {:induction false} TablesCount(nodes: seq<string>, r: nat, t: nat)
    requires "" !in nodes && |nodes| >= 2
    requires r < |Base(nodes)| - 1 && t <= |Base(nodes)| / 2
    ensures |Tables(Base(nodes), r, t)| ==
            if |nodes| % 2 == 1 && (SeatOf(|nodes|, r, |nodes|) < t || |nodes| - SeatOf(|nodes|, r, |nodes|) < t)
            then t - 1 else t
  {
    if t > 0 { TablesCount(nodes, r, t - 1); }
  }

  lemma {:induction false} RoundsCount(nodes: seq<string>, n: nat)
    requires "" !in nodes && |nodes| >= 2 && n < |Base(nodes)|
    ensures |Rounds(Base(nodes), n)| == n
    ensures forall i :: 0 <= i < n ==> |Rounds(Base(nodes), n)[i]| == |nodes| / 2
  {
    hide Tables, SeatOf;
    if n > 0 {
      RoundsCount(nodes, n - 1);
      TablesCount(nodes, n - 1, |Base(nodes)| / 2);
    }
  }

  /** n named nodes: m - 1 rounds of floor(n/2) pairs, m being n rounded up to even. */
  lemma ScheduleShape(nodes: seq<string>)
    requires "" !in nodes && |nodes| >= 2
    ensures |RoundRobin(nodes)| == |nodes| + |nodes| % 2 - 1
    ensures forall i :: 0 <= i < |RoundRobin(nodes)| ==> |RoundRobin(nodes)[i]| == |nodes| / 2
  {
    RoundsCount(nodes, |Base(nodes)| - 1);
  }
}
