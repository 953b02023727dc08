/** What RunPairwise makes of the answers of the cluster: when a job is retried, what is published, and which
    Jobs are left behind. */
module Retries {
  import opened Cluster
  import opened Pairwise

  // ---- Results are the answers up to the first PASS ----

  /** What this action tells about an attempt of p: its result, or one FAIL for an error. */
  function AnswerOf(a: Action, p: NodePair): seq<JobResult> {
    if !a.Work? || a.pair != p || a.event == Done then []
    else if a.event == Failed then [JobResult(Fail, None)]
    else [a.event.result]
  }

  /** The answers to all attempts of p, in order. */
  function Answers(acts: seq<Action>, p: NodePair): seq<JobResult> {
    if acts == [] then [] else Answers(acts[..|acts| - 1], p) + AnswerOf(acts[|acts| - 1], p)
  }

  /** The outcome of the attempt that is being cleaned up or published. */
  function Pending(w: Worker): seq<Outcome> {
    match w.phase
    case Cleanup(_, o) => [o]
    case Publish(_, o) => [o]
    case _ => []
  }

  predicate IsSingle(o: Outcome) {
    o.Collected? ==> |o.results| == 1
  }

  /** All attempts of the goroutine that were answered, one answer each. */
  ghost predicate Answered(w: Worker, answers: seq<JobResult>) {
    var all := w.outcomes + Pending(w);
    Flat(all) == answers && forall i :: 0 <= i < |all| ==> IsSingle(all[i])
  }

  /** Only an answer ends an attempt; what it leaves pending is published unchanged. */
  lemma LocalPending(cfg: Config, p: NodePair, w: Worker, cancelled: bool, e: Event, f: Effect)
    requires Local(cfg, p, w, cancelled, e) == Some(f)
    ensures e == Done ==> f.worker.outcomes + Pending(f.worker) == w.outcomes + Pending(w)
    ensures e != Done ==> Pending(w) == [] && f.worker.outcomes == w.outcomes && |Pending(f.worker)| == 1
                          && Published(Pending(f.worker)[0]) == AnswerOf(Work(p, e), p)
                          && IsSingle(Pending(f.worker)[0])
  {
  }

  lemma LocalAnswers(cfg: Config, p: NodePair, w: Worker, cancelled: bool, e: Event, f: Effect, answers: seq<JobResult>)
    requires Local(cfg, p, w, cancelled, e) == Some(f) && Answered(w, answers)
    ensures Answered(f.worker, answers + AnswerOf(Work(p, e), p))
  {
    LocalPending(cfg, p, w, cancelled, e, f);
    hide Local, Pending, Flat, Published, IsSingle;
    if e == Done {
      assert answers + AnswerOf(Work(p, e), p) == answers;
    } else {
      assert w.outcomes + Pending(w) == w.outcomes;
      FlatAppend(w.outcomes, Pending(f.worker)[0]);
      assert f.worker.outcomes + Pending(f.worker) == w.outcomes + [Pending(f.worker)[0]];
    }
  }

  ghost predicate AllAnswered(acts: seq<Action>, s: State) {
    forall p :: if p in s.workers then Answered(s.workers[p], Answers(acts, p)) else Answers(acts, p) == []
  }

  lemma {:induction false} RunAnswers(cfg: Config, acts: seq<Action>, s: State)
    requires Tournament(cfg.schedule) && Run(cfg, acts) == Some(s)
    ensures AllAnswered(acts, s)
  {
    if acts != [] {
      var earlier, a := acts[..|acts| - 1], acts[|acts| - 1];
      var before := Run(cfg, earlier).value;
      RunAnswers(cfg, earlier, before);
      RunInv(cfg, earlier, before);
      hide Run, Inv, Answered, Local, Tournament;
      forall p ensures if p in s.workers then Answered(s.workers[p], Answers(acts, p)) else Answers(acts, p) == [] {
        StepAnswers(cfg, before, a, s, p, Answers(earlier, p));
      }
    }
  }

  lemma StepAnswers(cfg: Config, s: State, a: Action, t: State, p: NodePair, answers: seq<JobResult>)
    requires Tournament(cfg.schedule) && Inv(cfg, s) && Apply(cfg, s, a) == Some(t)
    requires if p in s.workers then Answered(s.workers[p], answers) else answers == []
    ensures if p in t.workers then Answered(t.workers[p], answers + AnswerOf(a, p)) else answers + AnswerOf(a, p) == []
  {
    hide Local, Inv, Tournament;
    match a
    case Work(q, e) =>
      if q == p {
        hide Answered, AnswerOf;
        LocalAnswers(cfg, p, s.workers[p], s.cancelled, e, Local(cfg, p, s.workers[p], s.cancelled, e).value, answers);
      }
    case Spawn => FreshIsNew(cfg, s);
    case EndRound =>
    case Cancel =>
  }

  lemma FreshIsNew(cfg: Config, s: State)
    requires Tournament(cfg.schedule) && Inv(cfg, s) && Apply(cfg, s, Spawn).Some?
    ensures cfg.schedule[s.round][s.next] !in s.workers
  {
    NotYetSpawned(cfg, s);
  }

  lemma {:induction false} FlatSingle(outcomes: seq<Outcome>)
    requires forall i :: 0 <= i < |outcomes| ==> IsSingle(outcomes[i])
    ensures |Flat(outcomes)| == |outcomes|
    ensures forall i :: 0 <= i < |outcomes| ==>
              Published(outcomes[i]) == [Flat(outcomes)[i]] && (AllPass(outcomes[i]) <==> Flat(outcomes)[i].status == Pass)
  {
    if outcomes != [] { FlatSingle(outcomes[..|outcomes| - 1]); }
  }

  lemma AnswersOfStopped(cfg: Config, outcomes: seq<Outcome>, cancelled: bool, answers: seq<JobResult>)
    requires answers == Flat(outcomes) && forall i :: 0 <= i < |outcomes| ==> IsSingle(outcomes[i])
    requires Retried(outcomes, if outcomes == [] then 0 else |outcomes| - 1) && Stopped(cfg, outcomes, cancelled)
    ensures |answers| == |outcomes|
    ensures forall i :: 0 <= i < |answers| - 1 ==> answers[i].status != Pass
    ensures !cancelled ==> |answers| == cfg.maxAttempts || (answers != [] && answers[|answers| - 1].status == Pass)
  {
    FlatSingle(outcomes);
    hide AllPass, Published, Flat;
  }

  lemma WorkerFacts(cfg: Config, nodes: seq<string>, acts: seq<Action>, s: State, p: NodePair)
    requires Started(cfg, nodes) && Run(cfg, acts) == Some(s) && p in s.workers
    ensures WorkerInv(cfg, p, s.workers[p], Get(s.results, p), s.cancelled)
    ensures Answered(s.workers[p], Answers(acts, p))
  {
    StartedTournament(cfg, nodes);
    RunInv(cfg, acts, s);
    RunAnswers(cfg, acts, s);
    hide Started, Run, Tournament, LiveInv, Covered, SpawnedInv, PlaceInv, WorkerInv, Answered;
  }

  lemma ExitedAnswers(cfg: Config, p: NodePair, w: Worker, published: seq<JobResult>, cancelled: bool,
                      answers: seq<JobResult>)
    requires WorkerInv(cfg, p, w, published, cancelled) && Answered(w, answers) && w.phase.Exited?
    ensures published == answers && |answers| <= cfg.maxAttempts
    ensures forall i :: 0 <= i < |answers| - 1 ==> answers[i].status != Pass
    ensures !cancelled ==> |answers| == cfg.maxAttempts || (answers != [] && answers[|answers| - 1].status == Pass)
  {
    hide Flat, Name, IsSingle;
    assert w.outcomes + Pending(w) == w.outcomes;
    AnswersOfStopped(cfg, w.outcomes, cancelled, answers);
  }

  lemma RunningAnswers(cfg: Config, p: NodePair, w: Worker, published: seq<JobResult>, cancelled: bool,
                       answers: seq<JobResult>)
    requires WorkerInv(cfg, p, w, published, cancelled) && Answered(w, answers) && !w.phase.Exited?
    ensures published <= answers && |answers| <= |published| + 1
    ensures forall i :: 0 <= i < |published| ==> published[i].status != Pass
  {
    hide Flat, Name, IsSingle, AllPass, Published;
    var all, k := w.outcomes + Pending(w), |w.outcomes|;
    assert forall i :: 0 <= i < k ==> all[i] == w.outcomes[i];
    FlatSingle(w.outcomes);
    FlatSingle(all);
    if Pending(w) == [] { assert all == w.outcomes; } else { FlatAppend(w.outcomes, Pending(w)[0]); }
  }

  /** A pair is tried up to its first PASS or maxAttempts times, unless the run is cancelled; the published
      results are the answers to these attempts, an error counting as one FAIL. */
  lemma ResultsAreTheAnswers(cfg: Config, nodes: seq<string>, acts: seq<Action>, s: State, p: NodePair)
    requires Started(cfg, nodes) && Run(cfg, acts) == Some(s)
    requires p in s.workers && s.workers[p].phase.Exited?
    ensures Get(s.results, p) == Answers(acts, p)
    ensures |Answers(acts, p)| <= cfg.maxAttempts
    ensures forall i :: 0 <= i < |Answers(acts, p)| - 1 ==> Answers(acts, p)[i].status != Pass
    ensures !s.cancelled ==>
              var n := |Answers(acts, p)|;
              n == cfg.maxAttempts || (n > 0 && Answers(acts, p)[n - 1].status == Pass)
  {
    WorkerFacts(cfg, nodes, acts, s, p);
    hide Started, Run, WorkerInv, Answered, Answers;
    ExitedAnswers(cfg, p, s.workers[p], Get(s.results, p), s.cancelled, Answers(acts, p));
  }

  /** While a pair is still running, all of its published results are answers that did not pass, and at most
      one answer is not yet published. */
  lemma RunningResultsAreAnswers(cfg: Config, nodes: seq<string>, acts: seq<Action>, s: State, p: NodePair)
    requires Started(cfg, nodes) && Run(cfg, acts) == Some(s)
    requires p in s.workers && !s.workers[p].phase.Exited?
    ensures Get(s.results, p) <= Answers(acts, p) && |Answers(acts, p)| <= |Get(s.results, p)| + 1
    ensures forall r :: r in Get(s.results, p) ==> r.status != Pass
  {
    WorkerFacts(cfg, nodes, acts, s, p);
    hide Started, Run, WorkerInv, Answered, Answers;
    RunningAnswers(cfg, p, s.workers[p], Get(s.results, p), s.cancelled, Answers(acts, p));
  }

  /** In terms of what RunJob returned: every attempt before the last one was an error or held a result that
      did not pass, and a goroutine that stopped early has a last attempt that passed in all its results. */
  lemma StoppedEarlyMeansPassed(cfg: Config, nodes: seq<string>, acts: seq<Action>, s: State, p: NodePair)
    requires Started(cfg, nodes) && Run(cfg, acts) == Some(s) && p in s.workers
    ensures var w := s.workers[p];
            forall i :: 0 <= i < (if w.phase.Exited? then |w.outcomes| - 1 else |w.outcomes|) ==>
              w.outcomes[i].Errored?
              || exists k :: 0 <= k < |w.outcomes[i].results| && w.outcomes[i].results[k].status != Pass
    ensures var w := s.workers[p];
            w.phase.Exited? && !s.cancelled && |w.outcomes| < cfg.maxAttempts ==>
              w.outcomes != []
              && var last := w.outcomes[|w.outcomes| - 1];
                 last.Collected? && forall r :: r in last.results ==> r.status == Pass
  {
    WorkerFacts(cfg, nodes, acts, s, p);
    hide Started, Run, Answered, Flat, Name;
  }

  // ---- Cancellation ----

  /** How many attempts the goroutine has begun. */
  function Begun(w: Worker): nat {
    |w.outcomes| + if w.phase.Exited? || w.phase.LoopHead? then 0 else 1
  }

  /** How many attempts of this pair have begun. */
  function Attempts(s: State, p: NodePair): nat {
    if p in s.workers then Begun(s.workers[p]) else 0
  }

  lemma CancelledLocal(cfg: Config, p: NodePair, w: Worker, e: Event, f: Effect)
    requires Local(cfg, p, w, true, e) == Some(f)
    ensures Begun(f.worker) == Begun(w)
  {
  }

  lemma CancelledStep(cfg: Config, s: State, a: Action, t: State, p: NodePair)
    requires Tournament(cfg.schedule) && Inv(cfg, s) && Apply(cfg, s, a) == Some(t) && s.cancelled
    ensures t.cancelled && Attempts(t, p) == Attempts(s, p)
  {
    if a == Spawn { FreshIsNew(cfg, s); }
    hide Inv, Tournament, Local;
    if a.Work? && a.pair == p {
      CancelledLocal(cfg, p, s.workers[p], a.event, Local(cfg, p, s.workers[p], true, a.event).value);
    }
  }

  lemma LastAction(cfg: Config, acts: seq<Action>, t: State) returns (before: State)
    requires acts != [] && Run(cfg, acts) == Some(t)
    ensures Run(cfg, acts[..|acts| - 1]) == Some(before) && Apply(cfg, before, acts[|acts| - 1]) == Some(t)
  {
    hide Apply;
    before := Run(cfg, acts[..|acts| - 1]).value;
  }

  /** After a cancellation no attempt is begun any more: running attempts end, goroutines started later do
      nothing. */
  lemma {:induction false} CancelStopsRetries(cfg: Config, nodes: seq<string>, acts: seq<Action>, s: State,
                                              more: seq<Action>, t: State, p: NodePair)
    requires Started(cfg, nodes) && Run(cfg, acts) == Some(s) && s.cancelled
    requires Run(cfg, acts + more) == Some(t)
    ensures t.cancelled && Attempts(t, p) == Attempts(s, p)
    decreases |more|
  {
    hide Run, Started, Apply, Inv, Tournament, Attempts;
    if more == [] {
      assert acts + more == acts;
    } else {
      var fewer := more[..|more| - 1];
      assert (acts + more)[..|acts + more| - 1] == acts + fewer;
      var before := LastAction(cfg, acts + more, t);
      StartedTournament(cfg, nodes);
      RunInv(cfg, acts + fewer, before);
      CancelStopsRetries(cfg, nodes, acts, s, fewer, before, p);
      CancelledStep(cfg, before, more[|more| - 1], t, p);
    }
  }

  // ---- Which Jobs are left behind ----

  /** Debug mode deletes nothing. */
  lemma DebugKeepsJobs(cfg: Config, s: State, a: Action, t: State)
    requires cfg.debug && Apply(cfg, s, a) == Some(t)
    ensures s.live <= t.live
  {
  }

  /** Without it, a completed run has sent every Job for deletion. */
  lemma NothingIsLeftBehind(cfg: Config, nodes: seq<string>, acts: seq<Action>, s: State)
    requires Started(cfg, nodes) && Run(cfg, acts) == Some(s) && s.round == |cfg.schedule| && !cfg.debug
    ensures s.live == {}
  {
    StartedTournament(cfg, nodes);
    RunInv(cfg, acts, s);
    hide Started, Run, Tournament, Inv;
    if s.live != {} {
      var n :| n in s.live;
      var p := LiveOwner(cfg, s, n);
    }
  }

  ghost predicate CreatedLive(s: State) {
    forall p, n :: p in s.workers && n in s.workers[p].created ==> n in s.live
  }

  lemma OthersKeepTheirs(cfg: Config, s: State, p: NodePair, q: NodePair, n: JobName)
    requires Tournament(cfg.schedule) && Inv(cfg, s) && p in s.workers && q in s.workers && p != q
    requires n in s.workers[p].created
    ensures n !in s.workers[q].created
  {
    CreatedIsOwned(cfg, s, p, n);
    if n in s.workers[q].created {
      CreatedIsOwned(cfg, s, q, n);
      hide Inv, Tournament;
      OwnerSharesNode(cfg, s, p, q, n);
    }
  }

  lemma CreatedIsOwned(cfg: Config, s: State, p: NodePair, n: JobName)
    requires Inv(cfg, s) && p in s.workers && n in s.workers[p].created
    ensures Owns(cfg, p, s.workers[p], n)
  {
    hide LiveInv, Covered, SpawnedInv, PlaceInv;
    assert WorkerInv(cfg, p, s.workers[p], Get(s.results, p), s.cancelled);
  }

  lemma LocalCreates(cfg: Config, p: NodePair, w: Worker, cancelled: bool, e: Event, f: Effect)
    requires Local(cfg, p, w, cancelled, e) == Some(f)
    ensures forall n :: n in f.worker.created ==> n in f.creates || (n in w.created && f.deletes == {})
    ensures forall n :: n in f.deletes ==> n in w.created
  {
  }

  lemma StepCreatedLive(cfg: Config, s: State, a: Action, t: State)
    requires Tournament(cfg.schedule) && Inv(cfg, s) && CreatedLive(s) && Apply(cfg, s, a) == Some(t)
    ensures CreatedLive(t)
  {
    hide Tournament, Inv, Local;
    if a.Work? {
      var p := a.pair;
      var f := Local(cfg, p, s.workers[p], s.cancelled, a.event).value;
      LocalCreates(cfg, p, s.workers[p], s.cancelled, a.event, f);
      forall q, n | q in t.workers && n in t.workers[q].created ensures n in t.live {
        if q != p { OthersStayLive(cfg, s, q, p, n, f.deletes); }
      }
    }
  }

  lemma OthersStayLive(cfg: Config, s: State, q: NodePair, p: NodePair, n: JobName, deletes: set<JobName>)
    requires Tournament(cfg.schedule) && Inv(cfg, s) && CreatedLive(s) && p in s.workers && q in s.workers && p != q
    requires n in s.workers[q].created && forall m :: m in deletes ==> m in s.workers[p].created
    ensures n in s.live && n !in deletes
  {
    hide Tournament, Inv;
    OthersKeepTheirs(cfg, s, q, p, n);
  }

  lemma {:induction false} RunCreatedLive(cfg: Config, acts: seq<Action>, s: State)
    requires Tournament(cfg.schedule) && Run(cfg, acts) == Some(s)
    ensures CreatedLive(s)
  {
    if acts != [] {
      var before := Run(cfg, acts[..|acts| - 1]).value;
      RunCreatedLive(cfg, acts[..|acts| - 1], before);
      RunInv(cfg, acts[..|acts| - 1], before);
      hide Tournament, Inv, CreatedLive, Apply;
      StepCreatedLive(cfg, before, acts[|acts| - 1], s);
    }
  }

  /** Without debug a client Job lives only beside the server Job of its own attempt, on the other node of
      its pair. */
  lemma ClientsHaveServers(cfg: Config, nodes: seq<string>, acts: seq<Action>, s: State, n: JobName) returns (p: NodePair)
    requires Started(cfg, nodes) && Run(cfg, acts) == Some(s) && !cfg.debug && n in s.live && n.role == Client
    ensures p in s.workers && n.node == p.client && p in cfg.jobs
    ensures JobName(Server, p.server, n.round, n.attempt) in s.live
  {
    StartedTournament(cfg, nodes);
    RunInv(cfg, acts, s);
    RunCreatedLive(cfg, acts, s);
    hide Started, Run, Tournament, LiveInv, Covered, SpawnedInv;
    p := LiveOwner(cfg, s, n);
    var w := s.workers[p];
    assert WorkerInv(cfg, p, w, Get(s.results, p), s.cancelled) && PlaceInv(cfg, s, p, w);
    hide Inv, PlaceInv;
    assert Name(p, w, Server, n.attempt) in w.created;
  }

  /** A result can only arrive while both Jobs of that attempt are live: attempt number n + 1 of a pair with n
      answers so far, its server Job on the server node and its client Job on the client node. */
  lemma ResultsComeFromBothJobs(cfg: Config, nodes: seq<string>, acts: seq<Action>, s: State, p: NodePair, r: JobResult)
    requires Started(cfg, nodes) && Run(cfg, acts) == Some(s)
    requires p in s.workers && Apply(cfg, s, Work(p, Finished(r))).Some?
    ensures var round, attempt := s.workers[p].round, |Answers(acts, p)| + 1;
            JobName(Server, p.server, round, attempt) in s.live && JobName(Client, p.client, round, attempt) in s.live
  {
    StartedTournament(cfg, nodes);
    RunCreatedLive(cfg, acts, s);
    WorkerFacts(cfg, nodes, acts, s, p);
    hide Started, Run, Tournament, Answers, WorkerInv, Answered;
    OnlyAwaitedResults(cfg, s, p, r);
    BothCreated(cfg, p, s.workers[p], Get(s.results, p), s.cancelled, Answers(acts, p));
  }

  lemma OnlyAwaitedResults(cfg: Config, s: State, p: NodePair, r: JobResult)
    requires Apply(cfg, s, Work(p, Finished(r))).Some?
    ensures p in s.workers && s.workers[p].phase.AwaitClient?
  {
  }

  lemma BothCreated(cfg: Config, p: NodePair, w: Worker, published: seq<JobResult>, cancelled: bool, answers: seq<JobResult>)
    requires WorkerInv(cfg, p, w, published, cancelled) && Answered(w, answers) && w.phase.AwaitClient?
    ensures JobName(Server, p.server, w.round, |answers| + 1) in w.created
    ensures JobName(Client, p.client, w.round, |answers| + 1) in w.created
  {
    OneAnswerEach(w, answers);
    hide Flat, Retried, Stopped;
  }

  lemma OneAnswerEach(w: Worker, answers: seq<JobResult>)
    requires Answered(w, answers)
    ensures |answers| == |w.outcomes| + |Pending(w)|
  {
    FlatSingle(w.outcomes + Pending(w));
  }
}
