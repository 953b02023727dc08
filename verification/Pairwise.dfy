/** RunPairwise as a protocol: the main goroutine walks the rounds, one goroutine per pair retries
    its job, and the interleaving, the job outcomes and the cancellation are arbitrary. */
module Pairwise {
  import opened Cluster
  import opened Ordering
  import opened Schedule

  datatype Role = Server | Client

  /** Identity of a Kubernetes Job: role, node and the r<round>a<attempt> suffix. */
  datatype JobName = JobName(role: Role, node: string, round: nat, attempt: nat)

  /** How RunJob returns: with an error, or with the parsed results of its client jobs. */
  datatype Outcome = Errored | Collected(results: seq<JobResult>)

  /** Program counter of a pair's goroutine: the retry loop around the steps of RunJob. */
  datatype Phase =
    | LoopHead(attempt: nat)
    | CreateServer(attempt: nat)
    | AwaitServer(attempt: nat)
    | CreateClient(attempt: nat)
    | AwaitClient(attempt: nat)
    | Cleanup(attempt: nat, outcome: Outcome)
    | Publish(attempt: nat, outcome: Outcome)
    | Exited

  /** `created` is RunJob's createdJobs; `outcomes` records what RunJob returned, in order. */
  datatype Worker = Worker(round: nat, phase: Phase, created: seq<JobName>, outcomes: seq<Outcome>)

  datatype Config = Config(jobs: set<NodePair>, schedule: seq<seq<NodePair>>, maxAttempts: nat, debug: bool)

  /** `live` are the Jobs created and not yet sent for deletion; `spawned` lists the goroutines in
      the order they were started. */
  datatype State = State(
    round: nat, next: nat, spawned: seq<NodePair>, workers: map<NodePair, Worker>,
    results: map<NodePair, seq<JobResult>>, live: set<JobName>, cancelled: bool)

  /** What the cluster answers to the pending call of a goroutine. */
  datatype Event = Done | Failed | Finished(result: JobResult)

  datatype Action = Spawn | EndRound | Cancel | Work(pair: NodePair, event: Event)

  // ---- Transitions ----

  function NodeOf(p: NodePair, role: Role): string {
    if role == Server then p.server else p.client
  }

  function Name(p: NodePair, w: Worker, role: Role, attempt: nat): JobName {
    JobName(role, NodeOf(p, role), w.round, attempt)
  }

  /** An error is published as one failed result. */
  function Published(o: Outcome): seq<JobResult> {
    match o
    case Errored => [JobResult(Fail, None)]
    case Collected(results) => results
  }

  predicate AllPass(o: Outcome) {
    o.Collected? && forall i :: 0 <= i < |o.results| ==> o.results[i].status == Pass
  }

  function Get(results: map<NodePair, seq<JobResult>>, p: NodePair): seq<JobResult> {
    if p in results then results[p] else []
  }

  predicate AllExited(s: State) {
    forall p :: p in s.workers ==> s.workers[p].phase.Exited?
  }

  function Init(): State {
    State(0, 0, [], map[], map[], {}, false)
  }

  /** The state after one action, if that action is possible. */
  function Apply(cfg: Config, s: State, a: Action): Option<State> {
    match a
    case Cancel => if s.cancelled then None else Some(s.(cancelled := true))
    case Spawn =>
      if s.round < |cfg.schedule| && s.next < |cfg.schedule[s.round]| then
        var p := cfg.schedule[s.round][s.next];
        if p in cfg.jobs then
          Some(s.(next := s.next + 1, spawned := s.spawned + [p],
                  workers := s.workers[p := Worker(s.round, LoopHead(1), [], [])]))
        else Some(s.(next := s.next + 1))
      else None
    case EndRound =>
      if s.round < |cfg.schedule| && s.next == |cfg.schedule[s.round]| && AllExited(s)
      then Some(s.(round := s.round + 1, next := 0))
      else None
    case Work(p, e) => if p in s.workers then WorkStep(cfg, s, p, e) else None
  }

  /** What one step of a goroutine does: its new local state, the Jobs it creates and sends for
      deletion, and what it appends to the shared results under the lock. */
  datatype Effect = Effect(worker: Worker, creates: set<JobName>, deletes: set<JobName>, publishes: Option<Outcome>)

  function Local(cfg: Config, p: NodePair, w: Worker, cancelled: bool, e: Event): Option<Effect> {
    match (w.phase, e)
    case (LoopHead(a), Done) =>
      Goto(w, if a <= cfg.maxAttempts && !cancelled then CreateServer(a) else Exited)
    case (CreateServer(a), Done) => Create(w, AwaitServer(a), Name(p, w, Server, a))
    case (CreateServer(a), Failed) => Goto(w, Cleanup(a, Errored))
    case (AwaitServer(a), Done) => Goto(w, CreateClient(a))
    case (AwaitServer(a), Failed) => Goto(w, Cleanup(a, Errored))
    case (CreateClient(a), Done) => Create(w, AwaitClient(a), Name(p, w, Client, a))
    case (CreateClient(a), Failed) => Goto(w, Cleanup(a, Errored))
    case (AwaitClient(a), Finished(result)) => Goto(w, Cleanup(a, Collected([result])))
    case (AwaitClient(a), Failed) => Goto(w, Cleanup(a, Errored))
    case (Cleanup(a, o), Done) =>
      var deletes := if cfg.debug then {} else set n | n in w.created;
      Some(Effect(w.(phase := Publish(a, o), created := []), {}, deletes, None))
    case (Publish(a, o), Done) =>
      var phase := if AllPass(o) then Exited else LoopHead(a + 1);
      Some(Effect(w.(phase := phase, outcomes := w.outcomes + [o]), {}, {}, Some(o)))
    case _ => None
  }

  function Goto(w: Worker, phase: Phase): Option<Effect> {
    Some(Effect(w.(phase := phase), {}, {}, None))
  }

  function Create(w: Worker, phase: Phase, n: JobName): Option<Effect> {
    Some(Effect(w.(phase := phase, created := w.created + [n]), {n}, {}, None))
  }

  /** A local step in the shared state; the API server refuses a second Job of the same name. */
  function WorkStep(cfg: Config, s: State, p: NodePair, e: Event): Option<State>
    requires p in s.workers
  {
    match Local(cfg, p, s.workers[p], s.cancelled, e)
    case None => None
    case Some(f) =>
      if f.creates !! s.live then
        Some(s.(workers := s.workers[p := f.worker],
                live := s.live - f.deletes + f.creates,
                results := match f.publishes
                           case None => s.results
                           case Some(o) => s.results[p := Get(s.results, p) + Published(o)]))
      else None
  }

  /** The state after a whole sequence of actions; RunPairwise refuses maxAttempts < 1. */
  function Run(cfg: Config, acts: seq<Action>): Option<State> {
    if cfg.maxAttempts < 1 then None
    else if acts == [] then Some(Init())
    else
      match Run(cfg, acts[..|acts| - 1])
      case None => None
      case Some(s) => Apply(cfg, s, acts[|acts| - 1])
  }

  // ---- What RunPairwise is started with ----

  /** `nodes` are the sorted names found in the keys of the job map, as RunPairwise collects them. */
  ghost predicate Started(cfg: Config, nodes: seq<string>) {
    && Distinct(nodes) && Sorted(nodes, StrLeq)
    && (forall n :: n in nodes <==> Named(cfg.jobs, n))
    && cfg.schedule == RoundRobin(nodes)
  }

  /** n is a node of one of these pairs. */
  ghost predicate Named(pairs: set<NodePair>, n: string) {
    exists p :: p in pairs && (n == p.server || n == p.client)
  }

  lemma NamedStep(pairs: set<NodePair>, p: NodePair, n: string)
    ensures Named(pairs + {p}, n) <==> Named(pairs, n) || n == p.server || n == p.client
  {
    if n == p.server || n == p.client { assert p in pairs + {p}; }
  }

  /** The names in the keys, in whatever order the map yields them. */
  method CollectNames(pairs: set<NodePair>) returns (nodes: seq<string>)
    ensures Distinct(nodes) && forall n :: n in nodes <==> Named(pairs, n)
  {
    hide Named;
    nodes := [];
    var todo := pairs;
    ghost var done: set<NodePair> := {};
    NoNames();
    while todo != {}
      invariant pairs == done + todo
      invariant Distinct(nodes) && forall n :: n in nodes <==> Named(done, n)
      decreases |todo|
    {
      var pair :| pair in todo;
      todo := todo - {pair};
      forall n ensures Named(done + {pair}, n) <==> Named(done, n) || n == pair.server || n == pair.client {
        NamedStep(done, pair, n);
      }
      done := done + {pair};
      if pair.server !in nodes { nodes := nodes + [pair.server]; }
      if pair.client !in nodes { nodes := nodes + [pair.client]; }
    }
    assert done == pairs;
  }

  lemma NoNames()
    ensures forall n :: !Named({}, n)
  {
  }

  /** The prologue of RunPairwise: collect the names in the keys, sort them, and lay out the rounds. */
  method Start<J>(jobs: map<NodePair, J>, maxAttempts: nat, debug: bool) returns (cfg: Config, nodes: seq<string>)
    ensures cfg.jobs == jobs.Keys && cfg.maxAttempts == maxAttempts && cfg.debug == debug
    ensures Started(cfg, nodes)
  {
    var names := CollectNames(jobs.Keys);
    StrLeqTotalPreorder();
    nodes := SortSlice(names, StrLeq);
    PermutationDistinct(names, nodes);
    var schedule := RoundRobinSchedule(nodes);
    cfg := Config(jobs.Keys, schedule, maxAttempts, debug);
  }

  /** What the protocol needs of its schedule. */
  ghost predicate Tournament(schedule: seq<seq<NodePair>>) {
    && (forall i :: 0 <= i < |schedule| ==> NodeDisjoint(schedule[i]))
    && (forall i, p: NodePair :: 0 <= i < |schedule| && p in schedule[i] ==> p.server != p.client)
    && (forall i, j, p :: 0 <= i < |schedule| && 0 <= j < |schedule| && p in schedule[i] && p in schedule[j]
                          ==> i == j)
  }

  lemma {:induction false} OccurrencesAtLeast(rounds: seq<seq<NodePair>>, p: NodePair, i: nat, j: nat)
    requires i <= j < |rounds| && p in rounds[i] && p in rounds[j]
    ensures Occurrences(rounds, p) >= if i < j then 2 else 1
  {
    var n := |rounds| - 1;
    var prev := rounds[..n];
    if j < n {
      OccurrencesAtLeast(prev, p, i, j);
    } else if i < j {
      OccurrencesAtLeast(prev, p, i, i);
      assert multiset(rounds[n])[p] > 0;
    } else {
      assert multiset(rounds[n])[p] > 0;
    }
  }

  lemma {:induction false} OccurrencesPositive(rounds: seq<seq<NodePair>>, p: NodePair) returns (i: nat)
    requires Occurrences(rounds, p) > 0
    ensures i < |rounds| && p in rounds[i]
  {
    var n := |rounds| - 1;
    if p in rounds[n] { i := n; } else { i := OccurrencesPositive(rounds[..n], p); }
  }

  lemma StartedTournament(cfg: Config, nodes: seq<string>)
    requires Started(cfg, nodes)
    ensures Tournament(cfg.schedule)
  {
    hide Rounds;
    var S := cfg.schedule;
    ScheduleDisjoint(nodes);
    forall i, p: NodePair | 0 <= i < |S| && p in S[i] ensures p.server != p.client {
      OccurrencesAtLeast(S, p, i, i);
      EachPairExactlyOnce(nodes, p);
      StrLessTrichotomy(p.server, p.client);
    }
    forall i, j, p: NodePair | 0 <= i < |S| && 0 <= j < |S| && p in S[i] && p in S[j] ensures i == j {
      OccurrencesAtLeast(S, p, if i < j then i else j, if i < j then j else i);
      EachPairExactlyOnce(nodes, p);
    }
  }

  // ---- The invariant ----

  /** The results of a sequence of attempts, one after the other. */
  function Flat(outcomes: seq<Outcome>): seq<JobResult> {
    if outcomes == [] then []
    else Flat(outcomes[..|outcomes| - 1]) + Published(outcomes[|outcomes| - 1])
  }

  /** None of the first n attempts passed. */
  predicate Retried(outcomes: seq<Outcome>, n: nat)
    requires n <= |outcomes|
  {
    forall i :: 0 <= i < n ==> !AllPass(outcomes[i])
  }

  /** How an exited goroutine came to stop. */
  predicate Stopped(cfg: Config, outcomes: seq<Outcome>, cancelled: bool) {
    cancelled || |outcomes| == cfg.maxAttempts || (outcomes != [] && AllPass(outcomes[|outcomes| - 1]))
  }

  ghost predicate WorkerInv(cfg: Config, p: NodePair, w: Worker, published: seq<JobResult>, cancelled: bool) {
    var k := |w.outcomes|;
    var server, client := Name(p, w, Server, k + 1), Name(p, w, Client, k + 1);
    && k <= cfg.maxAttempts
    && published == Flat(w.outcomes)
    && Retried(w.outcomes, if w.phase.Exited? && k > 0 then k - 1 else k)
    && (w.phase.Exited? ==> w.created == [] && Stopped(cfg, w.outcomes, cancelled))
    && (!w.phase.Exited? ==> w.phase.attempt == k + 1)
    && (!w.phase.Exited? && !w.phase.LoopHead? ==> k < cfg.maxAttempts)
    && (w.phase.LoopHead? || w.phase.CreateServer? || w.phase.Publish? ==> w.created == [])
    && (w.phase.AwaitServer? || w.phase.CreateClient? ==> w.created == [server])
    && (w.phase.AwaitClient? ==> w.created == [server, client])
    && (w.phase.Cleanup? ==> w.created == [] || w.created == [server] || w.created == [server, client])
  }

  ghost predicate PlaceInv(cfg: Config, s: State, p: NodePair, w: Worker)
    requires s.round < |cfg.schedule| ==> s.next <= |cfg.schedule[s.round]|
  {
    && p in cfg.jobs
    && w.round <= s.round && w.round < |cfg.schedule| && p in cfg.schedule[w.round]
    && (w.round == s.round ==> p in cfg.schedule[s.round][..s.next])
    && (w.round < s.round ==> w.phase.Exited?)
  }

  /** n belongs to p's goroutine: to its current attempt, or in debug mode to an earlier one. */
  predicate Owns(cfg: Config, p: NodePair, w: Worker, n: JobName) {
    && n.round == w.round && n.node == NodeOf(p, n.role)
    && (n in w.created || (cfg.debug && n.attempt <= |w.outcomes|)
        || (cfg.debug && w.phase.Publish? && n.attempt == |w.outcomes| + 1))
  }

  ghost predicate WorkersInv(cfg: Config, s: State)
    requires Positioned(cfg, s)
  {
    && (forall p :: p in s.workers ==> WorkerInv(cfg, p, s.workers[p], Get(s.results, p), s.cancelled))
    && (forall p :: p in s.workers ==> PlaceInv(cfg, s, p, s.workers[p]))
    && (forall p :: p !in s.workers ==> p !in s.results)
  }

  ghost predicate LiveInv(cfg: Config, s: State) {
    forall n :: n in s.live ==> exists p :: p in s.workers && Owns(cfg, p, s.workers[p], n)
  }

  ghost predicate SpawnedInv(s: State) {
    Distinct(s.spawned) && (forall p :: p in s.spawned <==> p in s.workers)
  }

  ghost predicate Inv(cfg: Config, s: State) {
    Positioned(cfg, s) && WorkersInv(cfg, s) && LiveInv(cfg, s) && Covered(cfg, s) && SpawnedInv(s)
  }

  predicate Positioned(cfg: Config, s: State) {
    && s.round <= |cfg.schedule|
    && s.next <= if s.round < |cfg.schedule| then |cfg.schedule[s.round]| else 0
  }

  /** Every job whose turn has come has been started. */
  ghost predicate Covered(cfg: Config, s: State)
    requires Positioned(cfg, s)
  {
    && (forall i, p :: 0 <= i < s.round && p in cfg.schedule[i] && p in cfg.jobs ==> p in s.workers)
    && (forall k :: 0 <= k < s.next && cfg.schedule[s.round][k] in cfg.jobs
                    ==> cfg.schedule[s.round][k] in s.workers)
  }

  // ---- Every action keeps the invariant ----

  lemma FlatAppend(outcomes: seq<Outcome>, o: Outcome)
    ensures Flat(outcomes + [o]) == Flat(outcomes) + Published(o)
  {
    assert (outcomes + [o])[..|outcomes|] == outcomes;
  }

  /** The goroutine that moves keeps its own part. */
  lemma LocalKeepsWorker(cfg: Config, p: NodePair, w: Worker, published: seq<JobResult>, cancelled: bool,
                         e: Event, f: Effect)
    requires Local(cfg, p, w, cancelled, e) == Some(f) && WorkerInv(cfg, p, w, published, cancelled)
    ensures !w.phase.Exited? && f.worker.round == w.round
    ensures WorkerInv(cfg, p, f.worker, published + (if f.publishes.Some? then Published(f.publishes.value) else []),
                      cancelled)
  {
    if w.phase.Publish? {
      PublishKeepsWorker(cfg, p, w, published, cancelled, e, f);
    } else {
      hide Flat;
    }
  }

  lemma PublishKeepsWorker(cfg: Config, p: NodePair, w: Worker, published: seq<JobResult>, cancelled: bool,
                           e: Event, f: Effect)
    requires Local(cfg, p, w, cancelled, e) == Some(f) && WorkerInv(cfg, p, w, published, cancelled)
    requires w.phase.Publish?
    ensures f.worker.round == w.round && f.publishes == Some(w.phase.outcome)
    ensures WorkerInv(cfg, p, f.worker, published + Published(w.phase.outcome), cancelled)
  {
    hide AllPass, Published;
    FlatAppend(w.outcomes, w.phase.outcome);
  }

  /** A Job that stays live stays with its goroutine; a new one belongs to its creator. */
  lemma LocalKeepsOwner(cfg: Config, p: NodePair, w: Worker, published: seq<JobResult>, cancelled: bool,
                        e: Event, f: Effect, n: JobName)
    requires Local(cfg, p, w, cancelled, e) == Some(f) && WorkerInv(cfg, p, w, published, cancelled)
    requires n in f.creates || (n !in f.deletes && Owns(cfg, p, w, n))
    ensures Owns(cfg, p, f.worker, n)
  {
  }

  lemma WorkKeepsWorkers(cfg: Config, s: State, p: NodePair, e: Event, t: State)
    requires Inv(cfg, s) && p in s.workers && WorkStep(cfg, s, p, e) == Some(t)
    ensures Positioned(cfg, t) && WorkersInv(cfg, t)
  {
    hide Local, WorkerInv, LiveInv, Covered, SpawnedInv;
    var f := Local(cfg, p, s.workers[p], s.cancelled, e).value;
    LocalKeepsWorker(cfg, p, s.workers[p], Get(s.results, p), s.cancelled, e, f);
    var more := if f.publishes.Some? then Published(f.publishes.value) else [];
    assert Get(t.results, p) == Get(s.results, p) + more;
  }

  lemma WorkKeepsLive(cfg: Config, s: State, p: NodePair, e: Event, t: State)
    requires Inv(cfg, s) && p in s.workers && WorkStep(cfg, s, p, e) == Some(t)
    ensures LiveInv(cfg, t)
  {
    hide Local, WorkerInv, Owns, PlaceInv;
    var f := Local(cfg, p, s.workers[p], s.cancelled, e).value;
    forall n | n in t.live ensures exists q :: q in t.workers && Owns(cfg, q, t.workers[q], n) {
      var q := if n in f.creates then p else
        var o :| o in s.workers && Owns(cfg, o, s.workers[o], n); o;
      if q == p {
        LocalKeepsOwner(cfg, p, s.workers[p], Get(s.results, p), s.cancelled, e, f, n);
      }
      assert q in t.workers && Owns(cfg, q, t.workers[q], n);
    }
  }

  lemma WorkKeepsInv(cfg: Config, s: State, p: NodePair, e: Event, t: State)
    requires Inv(cfg, s) && p in s.workers && WorkStep(cfg, s, p, e) == Some(t)
    ensures Inv(cfg, t)
  {
    hide Local, WorkersInv, LiveInv;
    WorkKeepsWorkers(cfg, s, p, e, t);
    WorkKeepsLive(cfg, s, p, e, t);
  }

  /** The pair whose turn it is has no goroutine yet: it is in no earlier round and nowhere else in
      this one. */
  lemma NotYetSpawned(cfg: Config, s: State)
    requires Tournament(cfg.schedule) && Inv(cfg, s)
    requires s.round < |cfg.schedule| && s.next < |cfg.schedule[s.round]|
    ensures cfg.schedule[s.round][s.next] !in s.workers
  {
    hide WorkerInv, Owns;
    var round := cfg.schedule[s.round];
    forall p | p in s.workers ensures p != round[s.next] {
      if s.workers[p].round == s.round {
        var k :| 0 <= k < s.next && round[k] == p;
        assert Disjoint(round[k], round[s.next]);
      }
    }
  }

  lemma NewWorker(cfg: Config, p: NodePair, round: nat, cancelled: bool)
    ensures WorkerInv(cfg, p, Worker(round, LoopHead(1), [], []), [], cancelled)
  {
  }

  /** A goroutine that is running already is not touched. */
  lemma SpawnKeepsOthers(cfg: Config, s: State, t: State, q: NodePair)
    requires Positioned(cfg, s) && WorkersInv(cfg, s) && Apply(cfg, s, Spawn) == Some(t) && q in s.workers
    requires cfg.schedule[s.round][s.next] !in s.workers
    ensures q in t.workers && Positioned(cfg, t)
    ensures WorkerInv(cfg, q, t.workers[q], Get(t.results, q), t.cancelled) && PlaceInv(cfg, t, q, t.workers[q])
  {
    hide WorkerInv;
    assert t.workers[q] == s.workers[q] && t.results == s.results;
    assert cfg.schedule[s.round][..s.next] <= cfg.schedule[s.round][..t.next];
  }

  lemma SpawnStartsWorker(cfg: Config, s: State, t: State)
    requires Positioned(cfg, s) && WorkersInv(cfg, s) && Apply(cfg, s, Spawn) == Some(t)
    requires cfg.schedule[s.round][s.next] !in s.workers
    ensures var p := cfg.schedule[s.round][s.next];
            p in cfg.jobs ==> p in t.workers && Positioned(cfg, t)
                              && WorkerInv(cfg, p, t.workers[p], Get(t.results, p), t.cancelled)
                              && PlaceInv(cfg, t, p, t.workers[p])
  {
    hide WorkerInv;
    var p := cfg.schedule[s.round][s.next];
    assert cfg.schedule[s.round][..s.next + 1][s.next] == p;
    NewWorker(cfg, p, s.round, s.cancelled);
  }

  lemma SpawnKeepsWorkers(cfg: Config, s: State, t: State)
    requires Tournament(cfg.schedule) && Inv(cfg, s) && Apply(cfg, s, Spawn) == Some(t)
    ensures Positioned(cfg, t) && WorkersInv(cfg, t)
  {
    hide WorkerInv, PlaceInv, LiveInv, Covered, SpawnedInv;
    var p := cfg.schedule[s.round][s.next];
    NotYetSpawned(cfg, s);
    hide Tournament;
    SpawnStartsWorker(cfg, s, t);
    forall q | q in t.workers
      ensures WorkerInv(cfg, q, t.workers[q], Get(t.results, q), t.cancelled) && PlaceInv(cfg, t, q, t.workers[q])
    {
      if q in s.workers { SpawnKeepsOthers(cfg, s, t, q); }
    }
  }

  lemma SpawnKeepsInv(cfg: Config, s: State, t: State)
    requires Tournament(cfg.schedule) && Inv(cfg, s) && Apply(cfg, s, Spawn) == Some(t)
    ensures Inv(cfg, t)
  {
    hide WorkersInv, Owns;
    NotYetSpawned(cfg, s);
    SpawnKeepsWorkers(cfg, s, t);
    forall n | n in t.live ensures exists q :: q in t.workers && Owns(cfg, q, t.workers[q], n) {
      var q :| q in s.workers && Owns(cfg, q, s.workers[q], n);
      assert t.workers[q] == s.workers[q];
    }
  }

  lemma EndRoundKeepsInv(cfg: Config, s: State, t: State)
    requires Inv(cfg, s) && Apply(cfg, s, EndRound) == Some(t)
    ensures Inv(cfg, t)
  {
    hide WorkerInv, Owns;
    var round := cfg.schedule[s.round];
    forall p | p in round && p in cfg.jobs ensures p in t.workers {
      var k :| 0 <= k < |round| && round[k] == p;
    }
  }

  lemma CancelKeepsInv(cfg: Config, s: State, t: State)
    requires Inv(cfg, s) && Apply(cfg, s, Cancel) == Some(t)
    ensures Inv(cfg, t)
  {
    hide Owns, Retried, AllPass, Name;
    forall p | p in t.workers ensures WorkerInv(cfg, p, t.workers[p], Get(t.results, p), true) {
      assert WorkerInv(cfg, p, s.workers[p], Get(s.results, p), s.cancelled);
    }
    hide WorkerInv;
  }

  /** Every state of every run satisfies the invariant. */
  lemma {:induction false} RunInv(cfg: Config, acts: seq<Action>, s: State)
    requires Tournament(cfg.schedule) && Run(cfg, acts) == Some(s)
    ensures Inv(cfg, s)
  {
    hide WorkerInv, PlaceInv, Owns, WorkStep;
    if acts != [] {
      var before := Run(cfg, acts[..|acts| - 1]).value;
      RunInv(cfg, acts[..|acts| - 1], before);
      match acts[|acts| - 1]
      case Spawn => SpawnKeepsInv(cfg, before, s);
      case EndRound => EndRoundKeepsInv(cfg, before, s);
      case Cancel => CancelKeepsInv(cfg, before, s);
      case Work(p, e) => WorkKeepsInv(cfg, before, p, e, s);
    }
  }

  // ---- Safety, in every reachable state ----

  lemma RoundIsDisjoint(round: seq<NodePair>, p: NodePair, q: NodePair)
    requires NodeDisjoint(round) && p in round && q in round && p != q
    ensures Disjoint(p, q)
  {
    var i :| 0 <= i < |round| && round[i] == p;
    var j :| 0 <= j < |round| && round[j] == q;
    if i < j { assert Disjoint(round[i], round[j]); } else { assert Disjoint(round[j], round[i]); }
  }

  /** Two pairs that run at the same time share no node. */
  lemma RunningPairsDisjoint(cfg: Config, nodes: seq<string>, acts: seq<Action>, s: State, p: NodePair, q: NodePair)
    requires Started(cfg, nodes) && Run(cfg, acts) == Some(s)
    requires p in s.workers && q in s.workers && p != q
    requires !s.workers[p].phase.Exited? && !s.workers[q].phase.Exited?
    ensures Disjoint(p, q)
  {
    hide WorkerInv, Owns;
    StartedTournament(cfg, nodes);
    RunInv(cfg, acts, s);
    assert PlaceInv(cfg, s, p, s.workers[p]) && PlaceInv(cfg, s, q, s.workers[q]);
    RoundIsDisjoint(cfg.schedule[s.round], p, q);
  }

  lemma OwnerSharesNode(cfg: Config, s: State, p: NodePair, q: NodePair, n: JobName)
    requires Tournament(cfg.schedule) && Inv(cfg, s)
    requires p in s.workers && q in s.workers && s.workers[p].round == s.workers[q].round
    requires Owns(cfg, q, s.workers[q], n) && (n.node == p.server || n.node == p.client)
    ensures q == p
  {
    hide WorkerInv;
    var round := cfg.schedule[s.workers[p].round];
    assert PlaceInv(cfg, s, p, s.workers[p]) && PlaceInv(cfg, s, q, s.workers[q]);
    if q != p { RoundIsDisjoint(round, p, q); }
  }

  /** Without debug only the current attempt of a running goroutine owns anything. */
  lemma OwnedNow(cfg: Config, p: NodePair, w: Worker, published: seq<JobResult>, cancelled: bool, n: JobName)
    requires !cfg.debug && WorkerInv(cfg, p, w, published, cancelled) && Owns(cfg, p, w, n)
    ensures n in w.created && n.attempt == |w.outcomes| + 1 && !w.phase.Exited?
    ensures forall n' :: n' in w.created && n'.role == n.role ==> n' == n
  {
  }

  lemma LiveOwner(cfg: Config, s: State, n: JobName) returns (q: NodePair)
    requires Inv(cfg, s) && n in s.live && !cfg.debug
    ensures q in s.workers && Owns(cfg, q, s.workers[q], n)
    ensures n in s.workers[q].created && n.attempt == |s.workers[q].outcomes| + 1
    ensures s.workers[q].round == s.round < |cfg.schedule| && q in cfg.schedule[s.round]
    ensures forall n' :: n' in s.workers[q].created && n'.role == n.role ==> n' == n
  {
    hide WorkerInv, Owns;
    q :| q in s.workers && Owns(cfg, q, s.workers[q], n);
    assert PlaceInv(cfg, s, q, s.workers[q]);
    OwnedNow(cfg, q, s.workers[q], Get(s.results, q), s.cancelled, n);
  }

  /** Without debug, the Jobs still live on the nodes of a pair of the current round are Jobs of
      that pair's current attempt: every earlier attempt, of this or of any other pair, was cleaned up. */
  lemma OnlyCurrentAttemptIsLive(cfg: Config, nodes: seq<string>, acts: seq<Action>, s: State, p: NodePair, n: JobName)
    requires Started(cfg, nodes) && Run(cfg, acts) == Some(s) && !cfg.debug
    requires p in s.workers && s.workers[p].round == s.round
    requires n in s.live && (n.node == p.server || n.node == p.client)
    ensures n in s.workers[p].created && n.attempt == |s.workers[p].outcomes| + 1
  {
    hide WorkerInv, Owns;
    StartedTournament(cfg, nodes);
    RunInv(cfg, acts, s);
    var q := LiveOwner(cfg, s, n);
    OwnerSharesNode(cfg, s, p, q, n);
  }

  /** Without debug, no node ever hosts two live Jobs. */
  lemma OneLiveJobPerNode(cfg: Config, nodes: seq<string>, acts: seq<Action>, s: State, n: JobName, n': JobName)
    requires Started(cfg, nodes) && Run(cfg, acts) == Some(s) && !cfg.debug
    requires n in s.live && n' in s.live && n.node == n'.node
    ensures n == n'
  {
    hide WorkerInv;
    StartedTournament(cfg, nodes);
    RunInv(cfg, acts, s);
    var q := LiveOwner(cfg, s, n);
    var q' := LiveOwner(cfg, s, n');
    OwnerSharesNode(cfg, s, q, q', n');
    assert q.server != q.client;
  }

  /** The name of the Job a goroutine is about to create is free, so its create cannot be refused as
      a duplicate; in debug mode, where nothing is deleted, that is what the name suffix is for. */
  lemma NameIsFree(cfg: Config, nodes: seq<string>, acts: seq<Action>, s: State, p: NodePair)
    requires Started(cfg, nodes) && Run(cfg, acts) == Some(s) && p in s.workers
    ensures s.workers[p].phase.CreateServer? ==> Name(p, s.workers[p], Server, s.workers[p].phase.attempt) !in s.live
    ensures s.workers[p].phase.CreateClient? ==> Name(p, s.workers[p], Client, s.workers[p].phase.attempt) !in s.live
  {
    StartedTournament(cfg, nodes);
    RunInv(cfg, acts, s);
    hide Started, Run, Inv, Tournament, WorkerInv;
    NotYetCreated(cfg, s, p);
    var w := s.workers[p];
    if w.phase.CreateServer? || w.phase.CreateClient? {
      FreshName(cfg, s, p, if w.phase.CreateServer? then Server else Client);
    }
  }

  lemma NotYetCreated(cfg: Config, s: State, p: NodePair)
    requires Inv(cfg, s) && p in s.workers
    ensures var w := s.workers[p];
            && (!w.phase.Exited? ==> w.phase.attempt == |w.outcomes| + 1)
            && (w.phase.CreateServer? ==> Name(p, w, Server, w.phase.attempt) !in w.created)
            && (w.phase.CreateClient? ==> Name(p, w, Client, w.phase.attempt) !in w.created)
  {
    hide LiveInv, Covered, SpawnedInv, PlaceInv;
    assert WorkerInv(cfg, p, s.workers[p], Get(s.results, p), s.cancelled);
  }

  lemma FreshName(cfg: Config, s: State, p: NodePair, role: Role)
    requires Tournament(cfg.schedule) && Inv(cfg, s) && p in s.workers
    requires var w := s.workers[p]; !w.phase.Exited? && !w.phase.Publish?
    requires Name(p, s.workers[p], role, |s.workers[p].outcomes| + 1) !in s.workers[p].created
    ensures Name(p, s.workers[p], role, |s.workers[p].outcomes| + 1) !in s.live
  {
    hide WorkerInv;
    var n := Name(p, s.workers[p], role, |s.workers[p].outcomes| + 1);
    forall q | q in s.workers ensures !Owns(cfg, q, s.workers[q], n) {
      if Owns(cfg, q, s.workers[q], n) { OwnerSharesNode(cfg, s, p, q, n); }
    }
  }

  /** What a pair has published is what its own attempts returned, in order; only the last attempt
      can have passed, and there are at most maxAttempts. */
  lemma ResultsAreOwnAttempts(cfg: Config, nodes: seq<string>, acts: seq<Action>, s: State, p: NodePair)
    requires Started(cfg, nodes) && Run(cfg, acts) == Some(s)
    ensures p !in s.workers ==> p !in s.results
    ensures p in s.workers ==>
              var outcomes := s.workers[p].outcomes;
              && Get(s.results, p) == Flat(outcomes)
              && |outcomes| <= cfg.maxAttempts
              && (forall i :: 0 <= i < |outcomes| - 1 ==> !AllPass(outcomes[i]))
              && (s.workers[p].phase.Exited? ==> Stopped(cfg, outcomes, s.cancelled))
  {
    StartedTournament(cfg, nodes);
    RunInv(cfg, acts, s);
    if p in s.workers {
      assert WorkerInv(cfg, p, s.workers[p], Get(s.results, p), s.cancelled);
    }
  }

  /** A run that has walked all rounds has started exactly the jobs keyed (smaller name, larger name),
      each of them once, and all of them have stopped. A job keyed the other way never runs. */
  lemma CompletedRunCoversJobs(cfg: Config, nodes: seq<string>, acts: seq<Action>, s: State)
    requires Started(cfg, nodes) && Run(cfg, acts) == Some(s) && s.round == |cfg.schedule|
    ensures forall p :: p in s.workers <==> p in cfg.jobs && p.server != "" && StrLess(p.server, p.client)
    ensures forall p :: p in s.workers ==> s.workers[p].phase.Exited?
    ensures Distinct(s.spawned) && forall p :: p in s.spawned <==> p in s.workers
  {
    hide WorkerInv, Owns, Rounds, Occurrences;
    StartedTournament(cfg, nodes);
    RunInv(cfg, acts, s);
    forall p ensures p in s.workers <==> p in cfg.jobs && p.server != "" && StrLess(p.server, p.client) {
      EachPairExactlyOnce(nodes, p);
      if p in s.workers {
        assert PlaceInv(cfg, s, p, s.workers[p]);
        OccurrencesAtLeast(cfg.schedule, p, s.workers[p].round, s.workers[p].round);
      } else if p in cfg.jobs && Playable(nodes, p) {
        var i := OccurrencesPositive(cfg.schedule, p);
      }
    }
    forall p | p in s.workers ensures s.workers[p].phase.Exited? {
      assert PlaceInv(cfg, s, p, s.workers[p]);
    }
  }

  // ---- Every run ends, and only when it is complete ----

  /** Most steps the goroutine can still take: seven for every attempt left, one to leave the loop. */
  function Rank(cfg: Config, w: Worker): int {
    var left := cfg.maxAttempts - |w.outcomes|;
    match w.phase
    case LoopHead(_) => 7 * left + 1
    case CreateServer(_) => 7 * left
    case AwaitServer(_) => 7 * left - 1
    case CreateClient(_) => 7 * left - 2
    case AwaitClient(_) => 7 * left - 3
    case Cleanup(_, _) => 7 * left - 4
    case Publish(_, _) => 7 * left - 5
    case Exited => 0
  }

  function Ranks(cfg: Config, workers: map<NodePair, Worker>, spawned: seq<NodePair>): int
    requires forall p :: p in spawned ==> p in workers
  {
    if spawned == [] then 0
    else
      var n := |spawned| - 1;
      assert spawned[n] in spawned;
      Ranks(cfg, workers, spawned[..n]) + Rank(cfg, workers[spawned[n]])
  }

  /** The walk that is left: one step to end every round, and a whole goroutine for every pair. */
  function Walk(cfg: Config, round: nat, next: nat): nat
    decreases |cfg.schedule| - round, if round < |cfg.schedule| then |cfg.schedule[round]| - next else 0
  {
    if round >= |cfg.schedule| then 0
    else if next < |cfg.schedule[round]| then 7 * cfg.maxAttempts + 2 + Walk(cfg, round, next + 1)
    else 1 + Walk(cfg, round + 1, 0)
  }

  function Remaining(cfg: Config, s: State): int
    requires forall p :: p in s.spawned ==> p in s.workers
  {
    Walk(cfg, s.round, s.next) + Ranks(cfg, s.workers, s.spawned) + if s.cancelled then 0 else 1
  }

  lemma {:induction false} RanksNonNegative(cfg: Config, s: State, spawned: seq<NodePair>)
    requires Inv(cfg, s) && (forall p :: p in spawned ==> p in s.workers)
    ensures Ranks(cfg, s.workers, spawned) >= 0
  {
    if spawned != [] {
      var n := |spawned| - 1;
      RanksNonNegative(cfg, s, spawned[..n]);
      var p := spawned[n];
      assert p in spawned;
      assert WorkerInv(cfg, p, s.workers[p], Get(s.results, p), s.cancelled);
    }
  }

  /** Moving one goroutine changes the sum by that goroutine's rank alone. */
  lemma {:induction false} RanksUpdate(cfg: Config, workers: map<NodePair, Worker>, spawned: seq<NodePair>,
                                       p: NodePair, w: Worker)
    requires Distinct(spawned) && (forall q :: q in spawned ==> q in workers)
    ensures Ranks(cfg, workers[p := w], spawned)
         == Ranks(cfg, workers, spawned) + if p in spawned then Rank(cfg, w) - Rank(cfg, workers[p]) else 0
  {
    if spawned != [] {
      var n := |spawned| - 1;
      RanksUpdate(cfg, workers, spawned[..n], p, w);
      assert spawned == spawned[..n] + [spawned[n]];
      assert forall i :: 0 <= i < n ==> spawned[..n][i] != spawned[n];
      assert spawned[n] in spawned;
    }
  }

  lemma LocalRanksDown(cfg: Config, p: NodePair, w: Worker, published: seq<JobResult>, cancelled: bool,
                       e: Event, f: Effect)
    requires Local(cfg, p, w, cancelled, e) == Some(f) && WorkerInv(cfg, p, w, published, cancelled)
    ensures Rank(cfg, f.worker) < Rank(cfg, w)
  {
  }

  /** Every action uses up some of the remaining steps. */
  lemma StepDecreases(cfg: Config, s: State, a: Action, t: State)
    requires Tournament(cfg.schedule) && Inv(cfg, s) && Apply(cfg, s, a) == Some(t)
    requires forall p :: p in t.spawned ==> p in t.workers
    ensures Remaining(cfg, t) < Remaining(cfg, s)
  {
    hide WorkerInv, Owns, Local, Rank, Covered, LiveInv;
    match a
    case Work(p, e) =>
      var f := Local(cfg, p, s.workers[p], s.cancelled, e).value;
      LocalRanksDown(cfg, p, s.workers[p], Get(s.results, p), s.cancelled, e, f);
      RanksUpdate(cfg, s.workers, s.spawned, p, f.worker);
    case Spawn =>
      var p := cfg.schedule[s.round][s.next];
      if p in cfg.jobs { SpawnRanks(cfg, s, p, t); }
    case EndRound =>
    case Cancel =>
  }

  lemma SpawnRanks(cfg: Config, s: State, p: NodePair, t: State)
    requires Tournament(cfg.schedule) && Inv(cfg, s) && Apply(cfg, s, Spawn) == Some(t)
    requires p == cfg.schedule[s.round][s.next] && p in cfg.jobs
    requires forall q :: q in t.spawned ==> q in t.workers
    ensures Ranks(cfg, t.workers, t.spawned) == Ranks(cfg, s.workers, s.spawned) + 7 * cfg.maxAttempts + 1
  {
    hide WorkerInv, Owns, Covered, LiveInv;
    NotYetSpawned(cfg, s);
    RanksUpdate(cfg, s.workers, s.spawned, p, t.workers[p]);
    assert t.spawned[..|s.spawned|] == s.spawned;
  }

  /** No run has more actions than the schedule and the attempts allow. */
  lemma {:induction false} RunsAreBounded(cfg: Config, acts: seq<Action>, s: State)
    requires Tournament(cfg.schedule) && Run(cfg, acts) == Some(s)
    ensures |acts| <= Walk(cfg, 0, 0) + 1
    ensures (forall p :: p in s.spawned ==> p in s.workers)
    ensures |acts| + Remaining(cfg, s) <= Walk(cfg, 0, 0) + 1
  {
    hide WorkerInv, Owns, Apply, Walk, Covered, LiveInv, WorkersInv;
    RunInv(cfg, acts, s);
    if acts != [] {
      var before := Run(cfg, acts[..|acts| - 1]).value;
      RunsAreBounded(cfg, acts[..|acts| - 1], before);
      RunInv(cfg, acts[..|acts| - 1], before);
      StepDecreases(cfg, before, acts[|acts| - 1], s);
    }
    RanksNonNegative(cfg, s, s.spawned);
  }

  lemma WorkerCanMove(cfg: Config, nodes: seq<string>, acts: seq<Action>, s: State, p: NodePair, result: JobResult)
    returns (e: Event)
    requires Started(cfg, nodes) && Run(cfg, acts) == Some(s)
    requires p in s.workers && !s.workers[p].phase.Exited?
    ensures e != Failed && WorkStep(cfg, s, p, e).Some?
  {
    hide Run, Started;
    NameIsFree(cfg, nodes, acts, s, p);
    e := if s.workers[p].phase.AwaitClient? then Finished(result) else Done;
  }

  /** A run that has not walked all rounds can go on: with a success of whatever is pending, no
      goroutine is ever stuck, and the main goroutine waits only for goroutines that can move. */
  lemma RunsNeverStick(cfg: Config, nodes: seq<string>, acts: seq<Action>, s: State, result: JobResult) returns (a: Action)
    requires Started(cfg, nodes) && Run(cfg, acts) == Some(s) && s.round < |cfg.schedule|
    ensures Run(cfg, acts + [a]).Some?
    ensures a == Spawn || a == EndRound || (a.Work? && a.event != Failed)
  {
    hide WorkerInv, Owns, Covered, WorkStep, Started, LiveInv, SpawnedInv, WorkersInv;
    StartedTournament(cfg, nodes);
    RunInv(cfg, acts, s);
    if s.next < |cfg.schedule[s.round]| {
      a := Spawn;
    } else if AllExited(s) {
      a := EndRound;
    } else {
      var p :| p in s.workers && !s.workers[p].phase.Exited?;
      var e := WorkerCanMove(cfg, nodes, acts, s, p, result);
      a := Work(p, e);
    }
    assert (acts + [a])[..|acts|] == acts;
  }

  lemma StaysUncancelled(cfg: Config, s: State, a: Action, t: State)
    requires Apply(cfg, s, a) == Some(t) && a != Cancel
    ensures t.cancelled == s.cancelled
  {
  }

  /** A run with rounds left has a longer one, not cancelled either, and no run is longer than the bound. */
  lemma OneActionMore(cfg: Config, nodes: seq<string>, acts: seq<Action>, s: State, result: JobResult)
    returns (a: Action, t: State)
    requires Started(cfg, nodes) && Run(cfg, acts) == Some(s) && s.round < |cfg.schedule|
    ensures Run(cfg, acts + [a]) == Some(t) && t.cancelled == s.cancelled && |acts| + 1 <= Walk(cfg, 0, 0) + 1
  {
    hide Started, Apply, Walk;
    a := RunsNeverStick(cfg, nodes, acts, s, result);
    t := Run(cfg, acts + [a]).value;
    assert (acts + [a])[..|acts|] == acts;
    StaysUncancelled(cfg, s, a, t);
    StartedTournament(cfg, nodes);
    hide Run, Tournament;
    RunsAreBounded(cfg, acts + [a], t);
  }

  lemma RunStaysOnSchedule(cfg: Config, nodes: seq<string>, acts: seq<Action>, s: State)
    requires Started(cfg, nodes) && Run(cfg, acts) == Some(s)
    ensures s.round <= |cfg.schedule|
  {
    hide Started, Run, Tournament, WorkersInv, LiveInv, Covered, SpawnedInv;
    StartedTournament(cfg, nodes);
    RunInv(cfg, acts, s);
  }

  /** Any run can be completed, and without cancelling it. */
  lemma {:induction false} EveryRunCompletes(cfg: Config, nodes: seq<string>, acts: seq<Action>, s: State,
                                             result: JobResult) returns (more: seq<Action>, t: State)
    requires Started(cfg, nodes) && Run(cfg, acts) == Some(s)
    ensures Run(cfg, acts + more) == Some(t) && t.round == |cfg.schedule| && t.cancelled == s.cancelled
    decreases Walk(cfg, 0, 0) + 1 - |acts|
  {
    hide Started, Run, Walk;
    RunStaysOnSchedule(cfg, nodes, acts, s);
    if s.round < |cfg.schedule| {
      var a, next := OneActionMore(cfg, nodes, acts, s, result);
      var rest;
      rest, t := EveryRunCompletes(cfg, nodes, acts + [a], next, result);
      more := [a] + rest;
      assert acts + more == acts + [a] + rest;
    } else {
      more, t := [], s;
      assert acts + [] == acts;
    }
  }

  // ---- Every job of a completed run has results ----

  ghost predicate Publishes(s: State) {
    && (forall p :: p in s.workers && s.workers[p].outcomes != [] ==> p in s.results)
    && (forall p :: p in s.results ==> p in s.workers)
  }

  lemma StepPublishes(cfg: Config, s: State, a: Action, t: State)
    requires Publishes(s) && Apply(cfg, s, a) == Some(t)
    ensures Publishes(t)
  {
  }

  lemma {:induction false} RunPublishes(cfg: Config, acts: seq<Action>, s: State)
    requires Run(cfg, acts) == Some(s)
    ensures Publishes(s)
  {
    if acts != [] {
      hide Apply, Publishes;
      var before := Run(cfg, acts[..|acts| - 1]).value;
      RunPublishes(cfg, acts[..|acts| - 1], before);
      StepPublishes(cfg, before, acts[|acts| - 1], s);
    }
  }

  /** After a completed run that was not cancelled the result map has an entry for exactly the jobs keyed
      (smaller name, larger name). */
  lemma CompletedRunHasResults(cfg: Config, nodes: seq<string>, acts: seq<Action>, s: State)
    requires Started(cfg, nodes) && Run(cfg, acts) == Some(s) && s.round == |cfg.schedule| && !s.cancelled
    ensures forall p :: p in s.results <==> p in cfg.jobs && p.server != "" && StrLess(p.server, p.client)
  {
    assert cfg.maxAttempts >= 1;
    RunPublishes(cfg, acts, s);
    CompletedRunCoversJobs(cfg, nodes, acts, s);
    forall p | p in s.workers ensures s.workers[p].outcomes != [] {
      ResultsAreOwnAttempts(cfg, nodes, acts, s, p);
    }
    hide Started, Run;
  }
}
