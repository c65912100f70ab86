/**
 Every interleaving of workers, cancellers, removers, listers and submitters of deferred jobs
 (packages/rust-core/src/platform/jobs.rs, lines 94 to 131, 151 to 237, 276 to 305 and 312 to 411).

 An event is one lock region of the source. A call of `cancel` or `remove` keeps its handle on the job
 even after the registry has dropped it.
 */
module JobProtocol {
  import opened Wrappers
  import opened Jobs

  /** How far a call of `cancel` or `remove` has come. */
  datatype Stage =
    | Found                                          // holds the handle
    | Waiting                                        // waits for the worker's `done`
    | Ready                                          // the job is over
    | Cleared(was: Status)                           // remover: payload dropped, entry still to be erased
    | Answered(status: Status, result: Option<Value>)

  datatype Call = Call(job: Id, remover: bool, stage: Stage)

  datatype World = World(jobs: map<Id, JobState>, registry: set<Id>, calls: map<nat, Call>, now: nat)

  const START := World(map[], {}, map[], 0)

  datatype Event =
    | Submit(id: Id, before: map<Id, JobState>)
    | List
    | Update(id: Id, status: Status, reason: string, detail: Option<int>)
    | Commit(id: Id, commit: bool)
    | Finish(id: Id, outcome: Outcome)
    | Report(id: Id)
    | Find(call: nat, id: Id, remover: bool)
    | Request(call: nat)
    | Wake(call: nat)
    | Answer(call: nat)
    | Clear(call: nat)
    | Erase(call: nat)
    | Tick(passed: nat)

  /** The records in the registry. */
  function Registered(w: World): map<Id, JobState>
    requires w.registry <= w.jobs.Keys
  {
    map id | id in w.registry :: w.jobs[id]
  }

  function WithJob(w: World, id: Id, s: JobState): World { w.(jobs := w.jobs[id := s]) }

  function WithStage(w: World, call: nat, stage: Stage): World
    requires call in w.calls
  {
    w.(calls := w.calls[call := w.calls[call].(stage := stage)])
  }

  predicate At(w: World, call: nat, stage: Stage) {
    call in w.calls && w.calls[call].stage == stage && w.calls[call].job in w.jobs
  }

  ghost predicate StepSubmit(w: World, id: Id, before: map<Id, JobState>, next: World)
    requires w.registry <= w.jobs.Keys
  {
    && id !in w.jobs
    && Evicted(Pruned(Registered(w), w.now), before)
    && next == if |before| >= MAX_JOBS then w.(registry := before.Keys)
               else w.(jobs := w.jobs[id := NEW_JOB], registry := before.Keys + {id})
  }

  ghost predicate StepFind(w: World, call: nat, id: Id, remover: bool, next: World)
    requires w.registry <= w.jobs.Keys
  {
    var kept := Pruned(Registered(w), w.now).Keys;
    && call !in w.calls
    && next == if id in kept then w.(registry := kept, calls := w.calls[call := Call(id, remover, Found)])
               else w.(registry := kept)
  }

  ghost predicate StepRequest(w: World, call: nat, next: World) {
    && At(w, call, Found)
    && var id := w.calls[call].job;
       next == WithStage(WithJob(w, id, CancelRequested(w.jobs[id])), call,
                         if Terminal(w.jobs[id].status) then Ready else Waiting)
  }

  ghost predicate Step(w: World, e: Event, next: World)
    requires w.registry <= w.jobs.Keys
  {
    match e
    case Submit(id, before) => StepSubmit(w, id, before, next)
    case List => next == w.(registry := Pruned(Registered(w), w.now).Keys)
    case Update(id, status, reason, detail) =>
      // Workers report only what they are doing.
      && id in w.jobs && InProgress(status)
      && next == WithJob(w, id, Updated(w.jobs[id], status, reason, detail))
    case Commit(id, commit) => id in w.jobs && next == WithJob(w, id, CommitTried(w.jobs[id], commit))
    case Finish(id, outcome) =>
      // The supervisor of a job ends it once.
      && id in w.jobs && w.jobs[id].finished.None?
      && next == WithJob(w, id, FinishedWith(w.jobs[id], outcome, w.now))
    case Report(id) =>
      && id in w.jobs && w.jobs[id].finished.Some?
      && next == WithJob(w, id, w.jobs[id].(done := true))
    case Find(call, id, remover) => StepFind(w, call, id, remover, next)
    case Request(call) => StepRequest(w, call, next)
    case Wake(call) => At(w, call, Waiting) && w.jobs[w.calls[call].job].done && next == WithStage(w, call, Ready)
    case Answer(call) =>
      && At(w, call, Ready) && !w.calls[call].remover
      && var s := w.jobs[w.calls[call].job];
         next == WithStage(w, call, Answered(s.status, s.result))
    case Clear(call) =>
      && At(w, call, Ready) && w.calls[call].remover
      && var id := w.calls[call].job;
         next == WithStage(WithJob(w, id, w.jobs[id].(result := None, error := None)), call, Cleared(w.jobs[id].status))
    case Erase(call) =>
      && call in w.calls && w.calls[call].stage.Cleared?
      && next == WithStage(w, call, Answered(w.calls[call].stage.was, None)).(registry := w.registry - {w.calls[call].job})
    case Tick(passed) => next == w.(now := w.now + passed)
  }

  // ---------------------------------------------------------------- what always holds

  ghost predicate JobOk(s: JobState, now: nat) {
    && !(s.cancelled && s.committed)
    && (Terminal(s.status) <==> s.finished.Some?)
    && (s.finished.Some? ==> s.finished.value <= now)
    && (s.status.Cancelling? ==> s.cancelled)
    && (s.cancelled ==> s.result.None? && (s.status.Cancelling? || s.status.Cancelled?))
    && (s.finished.None? ==> s.result.None? && s.error.None? && !s.done)
    && (s.result.Some? ==> s.status.Completed? && Fits(s.result.value.encodedBytes))
    && (s.error.Some? ==> !s.status.Completed? && Fits(s.error.value.encodedBytes))
  }

  ghost predicate CallOk(jobs: map<Id, JobState>, c: Call) {
    && c.job in jobs
    && var s := jobs[c.job];
       match c.stage
       case Found => true
       case Waiting => s.cancelled || s.committed
       case Ready => Terminal(s.status)
       case Cleared(was) => c.remover && Terminal(was) && s.status == was
       case Answered(status, result) =>
         && Terminal(status) && s.status == status
         && (result.Some? ==> status.Completed? && !s.cancelled)
  }

  ghost predicate Inv(w: World) {
    && w.registry <= w.jobs.Keys && |w.registry| <= MAX_JOBS
    && (forall id :: id in w.jobs ==> JobOk(w.jobs[id], w.now))
    && (forall id :: id in w.jobs && w.jobs[id].finished.None? ==> id in w.registry)
    && (forall c :: c in w.calls ==> CallOk(w.jobs, w.calls[c]))
  }

  lemma StartInv()
    ensures Inv(START)
  {
  }

  /** What one step may do to a job: verdicts, flags and dropped payloads are final. */
  ghost predicate Forward(s: JobState, next: JobState) {
    && (s.cancelled ==> next.cancelled) && (s.committed ==> next.committed) && (s.done ==> next.done)
    && (s.finished.Some? ==> next.finished == s.finished && next.status == s.status && next.reason == s.reason)
    && (s.finished.Some? ==> next.result == s.result || next.result.None?)
  }

  lemma ForwardCalls(w: World, jobs: map<Id, JobState>, now: nat)
    requires w.jobs.Keys <= jobs.Keys
    requires forall id :: id in w.jobs ==> JobOk(w.jobs[id], w.now) && JobOk(jobs[id], now) && Forward(w.jobs[id], jobs[id])
    requires forall c :: c in w.calls ==> CallOk(w.jobs, w.calls[c])
    ensures forall c :: c in w.calls ==> CallOk(jobs, w.calls[c])
  {
    forall c | c in w.calls ensures CallOk(jobs, w.calls[c]) {
      var id := w.calls[c].job;
      assert JobOk(w.jobs[id], w.now) && JobOk(jobs[id], now) && Forward(w.jobs[id], jobs[id]);
    }
  }

  /** Steps that change one job's record keep the invariant when that record stays in order. */
  lemma JobStepInv(w: World, id: Id, s: JobState)
    requires Inv(w) && id in w.jobs && JobOk(s, w.now) && Forward(w.jobs[id], s)
    ensures Inv(WithJob(w, id, s))
  {
    hide CallOk, JobOk, Forward;
    var next := WithJob(w, id, s);
    forall j | j in w.jobs ensures JobOk(next.jobs[j], w.now) && Forward(w.jobs[j], next.jobs[j]) {
      if j != id { ForwardSelf(w.jobs[j]); }
    }
    ForwardCalls(w, next.jobs, w.now);
    ForwardFinished(w.jobs[id], s);
  }

  lemma ForwardSelf(s: JobState)
    ensures Forward(s, s)
  {
  }

  lemma ForwardFinished(s: JobState, next: JobState)
    requires Forward(s, next)
    ensures s.finished.Some? ==> next.finished.Some?
  {
  }

  lemma StageInv(w: World, call: nat, stage: Stage)
    requires Inv(w) && call in w.calls && CallOk(w.jobs, w.calls[call].(stage := stage))
    ensures Inv(WithStage(w, call, stage))
  {
    hide CallOk, JobOk;
  }

  // ---------------------------------------------------------------- the registry

  lemma RegistrySubset(w: World, kept: set<Id>)
    requires Inv(w) && kept <= w.registry
    requires forall id :: id in w.registry && w.jobs[id].finished.None? ==> id in kept
    ensures Inv(w.(registry := kept))
  {
    hide CallOk, JobOk;
    SmallerSet(kept, w.registry);
  }

  lemma {:induction false} SmallerSet(a: set<Id>, b: set<Id>)
    requires a <= b
    ensures |a| <= |b|
    ensures a != b ==> |a| < |b|
  {
    var rest := b - a;
    assert b == a + rest && a !! rest;
  }

  lemma PrunedKeeps(w: World)
    requires Inv(w)
    ensures var kept := Pruned(Registered(w), w.now);
            && kept.Keys <= w.registry
            && forall id :: id in w.registry && Retained(w.jobs[id], w.now) ==> id in kept
  {
  }

  lemma EvictedKeeps(jobs: map<Id, JobState>, before: map<Id, JobState>)
    requires Evicted(jobs, before)
    ensures before.Keys <= jobs.Keys && forall id :: id in jobs && jobs[id].finished.None? ==> id in before
    ensures |jobs| <= MAX_JOBS ==> (|before| >= MAX_JOBS <==> |jobs| == MAX_JOBS && NoneFinished(jobs))
  {
    if |jobs| >= MAX_JOBS && !NoneFinished(jobs) {
      var id :| IsOldest(jobs, id) && before == jobs - {id};
      assert before.Keys == jobs.Keys - {id};
      SmallerSet(before.Keys, jobs.Keys);
    }
  }

  lemma SubmitInv(w: World, id: Id, before: map<Id, JobState>, next: World)
    requires Inv(w) && StepSubmit(w, id, before, next)
    ensures Inv(next)
  {
    hide CallOk, JobOk, Evicted;
    var kept := Pruned(Registered(w), w.now);
    PrunedKeeps(w);
    EvictedKeeps(kept, before);
    SmallerSet(kept.Keys, w.registry);
    assert forall j :: j in kept ==> kept[j] == w.jobs[j];
    RegistrySubset(w, before.Keys);
    if |before| < MAX_JOBS {
      NewJobInv(w.(registry := before.Keys), id);
    }
  }

  lemma NewJobInv(w: World, id: Id)
    requires Inv(w) && id !in w.jobs && |w.registry| < MAX_JOBS
    ensures Inv(w.(jobs := w.jobs[id := NEW_JOB], registry := w.registry + {id}))
  {
    var jobs := w.jobs[id := NEW_JOB];
    assert forall j :: j in w.jobs ==> jobs[j] == w.jobs[j];
    ForwardCalls(w, jobs, w.now);
  }

  lemma FindInv(w: World, call: nat, id: Id, remover: bool, next: World)
    requires Inv(w) && StepFind(w, call, id, remover, next)
    ensures Inv(next)
  {
    hide JobOk;
    PrunedKeeps(w);
    RegistrySubset(w, Pruned(Registered(w), w.now).Keys);
  }

  // ---------------------------------------------------------------- jobs under their own lock

  lemma UpdatedOk(s: JobState, status: Status, reason: string, detail: Option<int>, now: nat)
    requires JobOk(s, now) && InProgress(status)
    ensures var t := Updated(s, status, reason, detail); JobOk(t, now) && Forward(s, t)
  {
  }

  lemma FinishedOk(s: JobState, outcome: Outcome, now: nat)
    requires JobOk(s, now) && s.finished.None?
    ensures var t := FinishedWith(s, outcome, now); JobOk(t, now) && Forward(s, t)
  {
  }

  lemma RequestedOk(s: JobState, now: nat)
    requires JobOk(s, now)
    ensures var t := CancelRequested(s);
            && JobOk(t, now) && Forward(s, t)
            && (!Terminal(s.status) ==> t.cancelled || t.committed)
            && (Terminal(s.status) ==> t == s)
  {
  }

  lemma RequestInv(w: World, call: nat, next: World)
    requires Inv(w) && StepRequest(w, call, next)
    ensures Inv(next)
  {
    var id := w.calls[call].job;
    var t := CancelRequested(w.jobs[id]);
    RequestedOk(w.jobs[id], w.now);
    JobStepInv(w, id, t);
    var middle := WithJob(w, id, t);
    StageInv(middle, call, if Terminal(w.jobs[id].status) then Ready else Waiting);
  }

  lemma ClearInv(w: World, call: nat)
    requires Inv(w) && At(w, call, Ready) && w.calls[call].remover
    ensures var id := w.calls[call].job;
            Inv(WithStage(WithJob(w, id, w.jobs[id].(result := None, error := None)), call, Cleared(w.jobs[id].status)))
  {
    var id := w.calls[call].job;
    var s := w.jobs[id];
    assert CallOk(w.jobs, w.calls[call]) && JobOk(s, w.now);
    var t := s.(result := None, error := None);
    JobStepInv(w, id, t);
    StageInv(WithJob(w, id, t), call, Cleared(s.status));
  }

  lemma EraseInv(w: World, call: nat)
    requires Inv(w) && call in w.calls && w.calls[call].stage.Cleared?
    ensures Inv(WithStage(w, call, Answered(w.calls[call].stage.was, None)).(registry := w.registry - {w.calls[call].job}))
  {
    var c := w.calls[call];
    assert CallOk(w.jobs, c) && JobOk(w.jobs[c.job], w.now);
    StageInv(w, call, Answered(c.stage.was, None));
    RegistrySubset(WithStage(w, call, Answered(c.stage.was, None)), w.registry - {c.job});
  }

  lemma TickInv(w: World, passed: nat)
    requires Inv(w)
    ensures Inv(w.(now := w.now + passed))
  {
    hide CallOk;
  }

  /** Whatever happens next keeps the invariant. */
  lemma StepInv(w: World, e: Event, next: World)
    requires Inv(w) && Step(w, e, next)
    ensures Inv(next)
  {
    hide StepSubmit, StepFind, StepRequest, CallOk, JobOk, Updated, FinishedWith, CancelRequested, Pruned, Evicted;
    match e
    case Submit(id, before) => SubmitInv(w, id, before, next);
    case List =>
      PrunedKeeps(w);
      RegistrySubset(w, Pruned(Registered(w), w.now).Keys);
    case Update(id, status, reason, detail) =>
      UpdatedOk(w.jobs[id], status, reason, detail, w.now);
      JobStepInv(w, id, Updated(w.jobs[id], status, reason, detail));
    case Commit(id, commit) =>
      CommitOk(w.jobs[id], commit, w.now);
      JobStepInv(w, id, CommitTried(w.jobs[id], commit));
    case Finish(id, outcome) =>
      FinishedOk(w.jobs[id], outcome, w.now);
      JobStepInv(w, id, FinishedWith(w.jobs[id], outcome, w.now));
    case Report(id) =>
      ReportOk(w.jobs[id], w.now);
      JobStepInv(w, id, w.jobs[id].(done := true));
    case Find(call, id, remover) => FindInv(w, call, id, remover, next);
    case Request(call) => RequestInv(w, call, next);
    case Wake(call) => WakeOk(w, call); StageInv(w, call, Ready);
    case Answer(call) =>
      AnswerOk(w, call);
      StageInv(w, call, Answered(w.jobs[w.calls[call].job].status, w.jobs[w.calls[call].job].result));
    case Clear(call) => ClearInv(w, call);
    case Erase(call) => EraseInv(w, call);
    case Tick(passed) => TickInv(w, passed);
  }

  lemma CommitOk(s: JobState, commit: bool, now: nat)
    requires JobOk(s, now)
    ensures var t := CommitTried(s, commit); JobOk(t, now) && Forward(s, t)
  {
  }

  lemma ReportOk(s: JobState, now: nat)
    requires JobOk(s, now) && s.finished.Some?
    ensures var t := s.(done := true); JobOk(t, now) && Forward(s, t)
  {
  }

  lemma WakeOk(w: World, call: nat)
    requires Inv(w) && At(w, call, Waiting) && w.jobs[w.calls[call].job].done
    ensures CallOk(w.jobs, w.calls[call].(stage := Ready))
  {
    assert JobOk(w.jobs[w.calls[call].job], w.now);
  }

  lemma AnswerOk(w: World, call: nat)
    requires Inv(w) && At(w, call, Ready)
    ensures var s := w.jobs[w.calls[call].job]; CallOk(w.jobs, w.calls[call].(stage := Answered(s.status, s.result)))
  {
    assert JobOk(w.jobs[w.calls[call].job], w.now) && CallOk(w.jobs, w.calls[call]);
  }

  // ---------------------------------------------------------------- runs

  /** `worlds` is a run of the events, one world before each event and one at the end. */
  ghost predicate Run(worlds: seq<World>, events: seq<Event>) {
    && |worlds| == |events| + 1
    && forall i :: 0 <= i < |events| ==>
         worlds[i].registry <= worlds[i].jobs.Keys && Step(worlds[i], events[i], worlds[i + 1])
  }

  lemma {:induction false} RunInv(worlds: seq<World>, events: seq<Event>, n: nat)
    requires Run(worlds, events) && Inv(worlds[0]) && n < |worlds|
    ensures Inv(worlds[n])
    decreases n
  {
    hide Inv, Step;
    if n > 0 {
      RunInv(worlds, events, n - 1);
      StepInv(worlds[n - 1], events[n - 1], worlds[n]);
    }
  }

  /** One step moves every job forward, and forgets none. */
  lemma StepForward(w: World, e: Event, next: World, id: Id)
    requires Inv(w) && Step(w, e, next) && id in w.jobs
    ensures id in next.jobs && Forward(w.jobs[id], next.jobs[id])
  {
    hide Pruned, Evicted, CallOk;
    assert JobOk(w.jobs[id], w.now);
    ForwardSelf(w.jobs[id]);
  }

  lemma {:induction false} RunForward(worlds: seq<World>, events: seq<Event>, m: nat, n: nat, id: Id)
    requires Run(worlds, events) && Inv(worlds[0]) && m <= n < |worlds| && id in worlds[m].jobs
    ensures id in worlds[n].jobs && Forward(worlds[m].jobs[id], worlds[n].jobs[id])
    decreases n - m
  {
    hide Inv, Step;
    if m < n {
      RunForward(worlds, events, m, n - 1, id);
      RunInv(worlds, events, n - 1);
      StepForward(worlds[n - 1], events[n - 1], worlds[n], id);
    }
  }

  // ---------------------------------------------------------------- main results

  /** In every reachable world: bounded registry, no unfinished job lost, cancel and commit exclusive. */
  lemma ReachableIsSafe(worlds: seq<World>, events: seq<Event>, n: nat)
    requires Run(worlds, events) && worlds[0] == START && n < |worlds|
    ensures |worlds[n].registry| <= MAX_JOBS
    ensures forall id :: id in worlds[n].jobs && worlds[n].jobs[id].finished.None? ==> id in worlds[n].registry
    ensures forall id :: id in worlds[n].jobs ==> !(worlds[n].jobs[id].cancelled && worlds[n].jobs[id].committed)
  {
    StartInv();
    RunInv(worlds, events, n);
    forall id | id in worlds[n].jobs ensures !(worlds[n].jobs[id].cancelled && worlds[n].jobs[id].committed) {
      assert JobOk(worlds[n].jobs[id], worlds[n].now);
    }
  }

  /** A cancel request that won stays: no commit ever follows, and the job can only end cancelled, without a result. */
  lemma CancelWins(worlds: seq<World>, events: seq<Event>, m: nat, n: nat, id: Id)
    requires Run(worlds, events) && worlds[0] == START && m <= n < |worlds|
    requires id in worlds[m].jobs && worlds[m].jobs[id].cancelled
    ensures id in worlds[n].jobs
    ensures var s := worlds[n].jobs[id];
            && s.cancelled && !s.committed && s.result.None?
            && (s.finished.Some? ==> s.status == Cancelled)
  {
    StartInv();
    RunInv(worlds, events, n);
    RunForward(worlds, events, m, n, id);
    assert JobOk(worlds[n].jobs[id], worlds[n].now);
  }

  /** A committed result stays committed: no later request marks the job as cancelled. */
  lemma CommitWins(worlds: seq<World>, events: seq<Event>, m: nat, n: nat, id: Id)
    requires Run(worlds, events) && worlds[0] == START && m <= n < |worlds|
    requires id in worlds[m].jobs && worlds[m].jobs[id].committed
    ensures id in worlds[n].jobs
    ensures worlds[n].jobs[id].committed && !worlds[n].jobs[id].cancelled && !worlds[n].jobs[id].status.Cancelling?
  {
    StartInv();
    RunInv(worlds, events, n);
    RunForward(worlds, events, m, n, id);
    assert JobOk(worlds[n].jobs[id], worlds[n].now);
  }

  /** A job that is over keeps its status, its end and its reason; its payload is kept or dropped, never replaced. */
  lemma VerdictIsFinal(worlds: seq<World>, events: seq<Event>, m: nat, n: nat, id: Id)
    requires Run(worlds, events) && worlds[0] == START && m <= n < |worlds|
    requires id in worlds[m].jobs && Terminal(worlds[m].jobs[id].status)
    ensures id in worlds[n].jobs
    ensures var s, t := worlds[m].jobs[id], worlds[n].jobs[id];
            && t.status == s.status && t.finished == s.finished && t.reason == s.reason
            && (t.result == s.result || t.result.None?)
  {
    StartInv();
    RunInv(worlds, events, m);
    RunForward(worlds, events, m, n, id);
    assert JobOk(worlds[m].jobs[id], worlds[m].now);
  }

  /** An answered call reports a job that is over, with the status it keeps; if its cancel won, cancelled and empty. */
  lemma AnswerIsTrue(worlds: seq<World>, events: seq<Event>, m: nat, n: nat, call: nat)
    requires Run(worlds, events) && worlds[0] == START && m <= n < |worlds|
    requires call in worlds[m].calls && worlds[m].calls[call].stage.Answered?
    ensures var c := worlds[m].calls[call];
            && Terminal(c.stage.status)
            && c.job in worlds[n].jobs && worlds[n].jobs[c.job].status == c.stage.status
            && c.job in worlds[m].jobs
            && (worlds[m].jobs[c.job].cancelled ==> c.stage.status == Cancelled && c.stage.result.None?)
  {
    StartInv();
    RunInv(worlds, events, m);
    var c := worlds[m].calls[call];
    assert CallOk(worlds[m].jobs, c);
    VerdictIsFinal(worlds, events, m, n, c.job);
    assert JobOk(worlds[m].jobs[c.job], worlds[m].now);
  }

  /** A waiting caller is only ever held up by the worker: once it has reported, the caller can go on, for good. */
  lemma WaitingIsWoken(worlds: seq<World>, events: seq<Event>, m: nat, n: nat, call: nat)
    requires Run(worlds, events) && worlds[0] == START && m <= n < |worlds|
    requires At(worlds[m], call, Waiting) && worlds[m].jobs[worlds[m].calls[call].job].done
    requires At(worlds[n], call, Waiting) && worlds[n].calls[call].job == worlds[m].calls[call].job
    ensures worlds[n].registry <= worlds[n].jobs.Keys && Step(worlds[n], Wake(call), WithStage(worlds[n], call, Ready))
  {
    StartInv();
    RunInv(worlds, events, n);
    RunForward(worlds, events, m, n, worlds[m].calls[call].job);
  }

  /** Only finished jobs leave the registry: expired, oldest of a full registry, or removed by request. */
  lemma OnlyFinishedLeave(w: World, e: Event, next: World, id: Id)
    requires Inv(w) && Step(w, e, next) && id in w.registry && id !in next.registry
    ensures w.jobs[id].finished.Some?
    ensures
      || w.now >= w.jobs[id].finished.value + RESULT_TTL
      || (e.Submit? && |w.registry| == MAX_JOBS && IsOldest(Registered(w), id))
      || (e.Erase? && e.call in w.calls && w.calls[e.call].remover && w.calls[e.call].job == id)
  {
    PrunedKeeps(w);
    match e
    case Submit(_, before) =>
      var kept := Pruned(Registered(w), w.now);
      if id in kept { EvictedOne(w, kept, before, id); }
    case Erase(call) =>
      var c := w.calls[call];
      assert CallOk(w.jobs, c) && JobOk(w.jobs[c.job], w.now);
    case _ =>
  }

  lemma EvictedOne(w: World, kept: map<Id, JobState>, before: map<Id, JobState>, id: Id)
    requires Inv(w) && kept == Pruned(Registered(w), w.now) && Evicted(kept, before) && id in kept && id !in before
    ensures w.jobs[id].finished.Some? && |w.registry| == MAX_JOBS && IsOldest(Registered(w), id)
  {
    SmallerSet(kept.Keys, w.registry);
    assert |kept| == |kept.Keys|;
    assert kept.Keys == w.registry;
    assert kept == Registered(w);
  }

  /** A submission is refused exactly when the registry is full of unfinished jobs. */
  lemma RefusedExactly(w: World, id: Id, before: map<Id, JobState>, next: World)
    requires Inv(w) && StepSubmit(w, id, before, next)
    ensures id !in next.jobs <==> |w.registry| == MAX_JOBS && forall j :: j in w.registry ==> w.jobs[j].finished.None?
  {
    hide Evicted, JobOk, CallOk;
    var kept := Pruned(Registered(w), w.now);
    PrunedKeeps(w);
    SmallerSet(kept.Keys, w.registry);
    assert |kept| == |kept.Keys|;
    EvictedKeeps(kept, before);
    assert forall j :: j in kept ==> kept[j] == w.jobs[j];
    if |before| >= MAX_JOBS {
      assert kept.Keys == w.registry;
    } else if forall j :: j in w.registry ==> w.jobs[j].finished.None? {
      assert kept.Keys == w.registry;
    }
  }
}
