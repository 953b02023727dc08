/** The names of Kubernetes Jobs as text: job type, role, node, round and attempt. */
module JobNames {
  import opened Cluster
  import opened Text
  import opened Pairwise

  function RoleText(role: Role): string {
    if role == Server then "server" else "client"
  }

  /** SetNameSuffix: rounds are counted from 1. */
  function Suffix(n: JobName): string {
    "r" + Decimal(n.round + 1) + "a" + Decimal(n.attempt)
  }

  function FullName(job: string, n: JobName): string {
    job + "-" + RoleText(n.role) + "-" + n.node + "-" + Suffix(n)
  }

  /** strings.TrimRight(s, "-.") */
  function TrimEnd(s: string): string {
    if s != "" && (s[|s| - 1] == '-' || s[|s| - 1] == '.') then TrimEnd(s[..|s| - 1]) else s
  }

  /** The name that BuildJobSpec gives: more than 63 characters are cut and hashed. */
  function KubernetesName(full: string, hash: string -> string): string {
    if |full| > 63 then
      var prefix := TrimEnd(full[..56]);
      TrimEnd((if prefix == "" then "job" else prefix) + "-" + hash(full))
    else TrimEnd(full)
  }

  /** The client's Job in the third round, second attempt. */
  lemma NameExample()
    ensures FullName("pingmesh", JobName(Client, "node-a", 2, 2)) == "pingmesh-client-node-a-r3a2"
  {
  }

  lemma {:induction false} TrimEndShortens(s: string)
    ensures |TrimEnd(s)| <= |s| && TrimEnd(s) == s[..|TrimEnd(s)|]
    ensures TrimEnd(s) != "" ==> TrimEnd(s)[|TrimEnd(s)| - 1] != '-' && TrimEnd(s)[|TrimEnd(s)| - 1] != '.'
  {
    if s != "" && (s[|s| - 1] == '-' || s[|s| - 1] == '.') { TrimEndShortens(s[..|s| - 1]); }
  }

  /** Kubernetes takes names of at most 63 characters that do not end in a dash or a dot; the hash has six. */
  lemma NameFits(full: string, hash: string -> string)
    requires |hash(full)| == 6
    ensures |KubernetesName(full, hash)| <= 63
    ensures var name := KubernetesName(full, hash);
            name != "" ==> name[|name| - 1] != '-' && name[|name| - 1] != '.'
  {
    hide TrimEnd;
    TrimEndShortens(full);
    if |full| > 63 {
      TrimEndShortens(full[..56]);
      var prefix := TrimEnd(full[..56]);
      TrimEndShortens((if prefix == "" then "job" else prefix) + "-" + hash(full));
    }
  }

  lemma DigitsBehind(p: string, d: string, c: char)
    requires AllOf(d, IsDigit)
    ensures forall k :: |p| < k < |p + [c] + d| ==> IsDigit((p + [c] + d)[k])
  {
    forall k | |p| < k < |p + [c] + d| ensures IsDigit((p + [c] + d)[k]) {
      assert (p + [c] + d)[k] == d[k - |p| - 1];
    }
  }

  /** What stands behind the last occurrence of a letter, if that is a number, can be told from the rest. */
  lemma LastNumber(p: string, d: string, p': string, d': string, c: char)
    requires AllOf(d, IsDigit) && AllOf(d', IsDigit) && !IsDigit(c) && p + [c] + d == p' + [c] + d'
    ensures p == p' && d == d'
  {
    var s := p + [c] + d;
    assert s[|p|] == c && s[|p'|] == c;
    DigitsBehind(p, d, c);
    DigitsBehind(p', d', c);
    assert s[..|p|] == p && s[|p| + 1..] == d;
    assert (p' + [c] + d')[..|p'|] == p' && (p' + [c] + d')[|p'| + 1..] == d';
  }

  lemma DecimalInjective(n: nat, m: nat)
    requires Decimal(n) == Decimal(m)
    ensures n == m
  {
    DecimalDigits(n);
    DecimalDigits(m);
  }

  function NodePart(job: string, n: JobName): string {
    job + "-" + RoleText(n.role) + "-" + n.node
  }

  lemma NodePartInjective(job: string, n: JobName, m: JobName)
    requires NodePart(job, n) == NodePart(job, m)
    ensures n.role == m.role && n.node == m.node
  {
    var a, b := NodePart(job, n), NodePart(job, m);
    var k := |job| + 1;
    assert a[k..k + 6] == RoleText(n.role) && b[k..k + 6] == RoleText(m.role);
    assert RoleText(n.role)[0] == RoleText(m.role)[0];
    assert a[k + 7..] == n.node && b[k + 7..] == m.node;
  }

  lemma NameGrouped(job: string, n: JobName)
    ensures FullName(job, n) == NodePart(job, n) + "-" + "r" + Decimal(n.round + 1) + "a" + Decimal(n.attempt)
  {
    hide Decimal, NodePart;
    var x, d, e := NodePart(job, n) + "-", Decimal(n.round + 1), Decimal(n.attempt);
    assert x + ("r" + d + "a" + e) == x + "r" + d + "a" + e;
    SameNodePart(job, n);
  }

  lemma SameNodePart(job: string, n: JobName)
    ensures FullName(job, n) == NodePart(job, n) + "-" + Suffix(n)
  {
  }

  /** Different Jobs of one type have different full names, whatever the node is called. */
  lemma FullNameInjective(job: string, n: JobName, m: JobName)
    requires FullName(job, n) == FullName(job, m)
    ensures n == m
  {
    NameGrouped(job, n);
    NameGrouped(job, m);
    DecimalDigits(n.round + 1);
    DecimalDigits(m.round + 1);
    DecimalDigits(n.attempt);
    DecimalDigits(m.attempt);
    hide Decimal, FullName, NodePart, Value;
    var x, y := NodePart(job, n), NodePart(job, m);
    LastNumber(x + "-" + "r" + Decimal(n.round + 1), Decimal(n.attempt), y + "-" + "r" + Decimal(m.round + 1), Decimal(m.attempt), 'a');
    LastNumber(x + "-", Decimal(n.round + 1), y + "-", Decimal(m.round + 1), 'r');
    assert (x + "-")[..|x|] == x && (y + "-")[..|y|] == y && |x| == |y|;
    NodePartInjective(job, n, m);
    DecimalInjective(n.round + 1, m.round + 1);
    DecimalInjective(n.attempt, m.attempt);
  }

  lemma NothingToTrim(job: string, n: JobName)
    ensures TrimEnd(FullName(job, n)) == FullName(job, n)
  {
    NameGrouped(job, n);
    DecimalDigits(n.attempt);
    hide Decimal, NodePart, FullName, Value;
    var d := Decimal(n.attempt);
    assert FullName(job, n)[|FullName(job, n)| - 1] == d[|d| - 1] && IsDigit(d[|d| - 1]);
  }

  /** Up to 63 characters the Kubernetes names tell the Jobs of one type apart. */
  lemma KubernetesNameInjective(job: string, n: JobName, m: JobName, hash: string -> string)
    requires |FullName(job, n)| <= 63 && |FullName(job, m)| <= 63
    requires KubernetesName(FullName(job, n), hash) == KubernetesName(FullName(job, m), hash)
    ensures n == m
  {
    hide FullName, TrimEnd;
    NothingToTrim(job, n);
    NothingToTrim(job, m);
    FullNameInjective(job, n, m);
  }

  /** No live Job has the Kubernetes name of the Job that a goroutine is about to create. */
  lemma KubernetesNameIsFree(cfg: Config, nodes: seq<string>, acts: seq<Action>, s: State, p: NodePair, role: Role,
                             live: JobName, job: string, hash: string -> string)
    requires Started(cfg, nodes) && Run(cfg, acts) == Some(s) && p in s.workers && live in s.live
    requires if role == Server then s.workers[p].phase.CreateServer? else s.workers[p].phase.CreateClient?
    requires var next := Name(p, s.workers[p], role, s.workers[p].phase.attempt);
             |FullName(job, next)| <= 63 && |FullName(job, live)| <= 63
    ensures var next := Name(p, s.workers[p], role, s.workers[p].phase.attempt);
            KubernetesName(FullName(job, next), hash) != KubernetesName(FullName(job, live), hash)
  {
    var next := Name(p, s.workers[p], role, s.workers[p].phase.attempt);
    hide Started, Run, FullName, KubernetesName;
    NameIsFree(cfg, nodes, acts, s, p);
    if KubernetesName(FullName(job, next), hash) == KubernetesName(FullName(job, live), hash) {
      KubernetesNameInjective(job, next, live, hash);
    }
  }
}
