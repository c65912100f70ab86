/**
 What a job's record says about its past (packages/rust-core/src/platform/jobs.rs, lines 151 to 237 and 366 to 380).

 Whether a job is committed or cancelled, and how it ended, is told from the events of the run alone.
 */
module JobHistory {
  import opened Wrappers
  import opened Jobs
  import opened JobProtocol

  /** A successful commit happens at this event: none follows a cancel that won. */
  ghost predicate Commits(w: World, e: Event, id: Id) {
    e == Commit(id, true) && id in w.jobs && !w.jobs[id].cancelled
  }

  /** A cancel request wins at this event: the job is neither over nor committed. */
  ghost predicate Cancels(w: World, e: Event, id: Id) {
    && e.Request? && e.call in w.calls && w.calls[e.call].job == id && id in w.jobs
    && w.jobs[id].finished.None? && !w.jobs[id].committed
  }

  /** What one step does to the two flags of a job. */
  lemma FlagsStep(w: World, e: Event, next: World, id: Id)
    requires Inv(w) && Step(w, e, next) && id in w.jobs
    ensures id in next.jobs
    ensures next.jobs[id].committed <==> w.jobs[id].committed || Commits(w, e, id)
    ensures next.jobs[id].cancelled <==> w.jobs[id].cancelled || Cancels(w, e, id)
  {
    hide Pruned, Evicted, CallOk;
    assert JobOk(w.jobs[id], w.now);
  }

  lemma FlagsAtBirth(w: World, e: Event, next: World, id: Id)
    requires Inv(w) && Step(w, e, next) && id !in w.jobs && id in next.jobs
    ensures e.Submit? && e.id == id && next.jobs[id] == NEW_JOB
  {
    hide Pruned, Evicted, CallOk, JobOk;
  }

  /** A job is marked committed exactly if a successful commit of it came before. */
  lemma {:induction false} CommittedExactly(worlds: seq<World>, events: seq<Event>, n: nat, id: Id)
    requires Run(worlds, events) && worlds[0] == START && n < |worlds| && id in worlds[n].jobs
    ensures worlds[n].jobs[id].committed <==> exists m :: 0 <= m < n && Commits(worlds[m], events[m], id)
    decreases n
  {
    hide Inv, Step, Commits;
    StartInv();
    if n > 0 {
      RunInv(worlds, events, n - 1);
      if id in worlds[n - 1].jobs {
        CommittedExactly(worlds, events, n - 1, id);
        FlagsStep(worlds[n - 1], events[n - 1], worlds[n], id);
      } else {
        FlagsAtBirth(worlds[n - 1], events[n - 1], worlds[n], id);
        NotYetBorn(worlds, events, n - 1, id);
      }
    }
  }

  /** Before it is submitted nothing happens to a job. */
  lemma NotYetBorn(worlds: seq<World>, events: seq<Event>, n: nat, id: Id)
    requires Run(worlds, events) && worlds[0] == START && n < |events| && id !in worlds[n].jobs
    ensures forall m :: 0 <= m <= n ==> !Commits(worlds[m], events[m], id) && !Cancels(worlds[m], events[m], id)
  {
    hide Inv, Step;
    StartInv();
    forall m | 0 <= m <= n ensures id !in worlds[m].jobs {
      if id in worlds[m].jobs { RunForward(worlds, events, m, n, id); }
    }
  }

  /** A job is marked cancelled exactly if a cancel request of it has won before. */
  lemma {:induction false} CancelledExactly(worlds: seq<World>, events: seq<Event>, n: nat, id: Id)
    requires Run(worlds, events) && worlds[0] == START && n < |worlds| && id in worlds[n].jobs
    ensures worlds[n].jobs[id].cancelled <==> exists m :: 0 <= m < n && Cancels(worlds[m], events[m], id)
    decreases n
  {
    hide Inv, Step, Cancels;
    StartInv();
    if n > 0 {
      RunInv(worlds, events, n - 1);
      if id in worlds[n - 1].jobs {
        CancelledExactly(worlds, events, n - 1, id);
        FlagsStep(worlds[n - 1], events[n - 1], worlds[n], id);
      } else {
        FlagsAtBirth(worlds[n - 1], events[n - 1], worlds[n], id);
        NotYetBorn(worlds, events, n - 1, id);
      }
    }
  }

  /** How a job ends: the cancel that won before everything, then what the worker brought, if it fits. */
  lemma EndsExactly(w: World, id: Id, outcome: Outcome, next: World)
    requires Inv(w) && Step(w, Finish(id, outcome), next)
    ensures id in w.jobs && id in next.jobs
    ensures var s, t := w.jobs[id], next.jobs[id];
            && t.finished == Some(w.now) && t.detail == None && t.cancelled == s.cancelled && t.committed == s.committed
            && (s.cancelled ==> t.status == Cancelled && t.reason == "cancelled" && t.result == None && t.error == Some(TASK_CANCELLED))
            && (!s.cancelled && outcome.Ok? && outcome.value.encodedBytes <= 2_097_152 ==>
                  t.status == Completed && t.reason == "completed" && t.result == Some(outcome.value) && t.error == None)
            && (!s.cancelled && outcome.Ok? && outcome.value.encodedBytes > 2_097_152 ==>
                  t.status == Failed && t.reason == "failed" && t.result == None && t.error == Some(RESULT_TOO_LARGE))
            && (!s.cancelled && outcome.Err? ==>
                  && t.result == None
                  && t.error == Some(if outcome.error.encodedBytes <= 2_097_152 then outcome.error else ERROR_TOO_LARGE)
                  && (t.status == Cancelled <==> outcome.error.code == TaskCancelled || outcome.error.code == SessionKilled)
                  && (t.status == Expired <==> outcome.error.code == DeadlineExceeded)
                  && (t.status == Cancelled || t.status == Expired || t.status == Failed)
                  && (t.reason == "cancelled" <==> t.status == Cancelled)
                  && (t.reason == "deadline_exceeded" <==> t.status == Expired)
                  && (t.reason == "failed" <==> t.status == Failed))
  {
    assert JobOk(w.jobs[id], w.now);
  }

  /**
   Once a commit has succeeded no cancel request wins any more, and what the worker then brings is the result,
   if it fits.
   */
  lemma CommitStands(worlds: seq<World>, events: seq<Event>, m: nat, n: nat, id: Id)
    requires Run(worlds, events) && worlds[0] == START && m < n < |worlds|
    requires events[m] == Commit(id, true) && id in worlds[m].jobs && !worlds[m].jobs[id].cancelled
    ensures id in worlds[n].jobs && !worlds[n].jobs[id].cancelled && worlds[n].jobs[id].status != Cancelling
    ensures n < |events| && events[n].Finish? && events[n].id == id && events[n].outcome.Ok?
            && events[n].outcome.value.encodedBytes <= 2_097_152 ==>
              id in worlds[n + 1].jobs && worlds[n + 1].jobs[id].status == Completed
              && worlds[n + 1].jobs[id].result == Some(events[n].outcome.value)
  {
    hide Inv, Step;
    StartInv();
    RunForward(worlds, events, m, n, id);
    CommittedExactly(worlds, events, n, id);
    assert Commits(worlds[m], events[m], id);
    CommitWins(worlds, events, n, n, id);
    if n < |events| && events[n].Finish? && events[n].id == id {
      RunInv(worlds, events, n);
      EndsExactly(worlds[n], id, events[n].outcome, worlds[n + 1]);
    }
  }

  /** Once a cancel request has won no commit succeeds any more, and the job ends cancelled without a result. */
  lemma CancelStands(worlds: seq<World>, events: seq<Event>, m: nat, n: nat, id: Id)
    requires Run(worlds, events) && worlds[0] == START && m < n < |worlds|
    requires events[m].Request? && At(worlds[m], events[m].call, Found) && worlds[m].calls[events[m].call].job == id
    requires !Terminal(worlds[m].jobs[id].status)
    requires forall k :: 0 <= k < m ==> !Commits(worlds[k], events[k], id)
    ensures id in worlds[n].jobs && worlds[n].jobs[id].result == None
    ensures worlds[n].jobs[id].status == Cancelling || worlds[n].jobs[id].status == Cancelled
    ensures forall k :: 0 <= k < n ==> !Commits(worlds[k], events[k], id)
  {
    hide Inv, Step, Commits;
    StartInv();
    RunInv(worlds, events, m);
    CommittedExactly(worlds, events, m, id);
    assert JobOk(worlds[m].jobs[id], worlds[m].now) by { OkAt(worlds[m], id); }
    assert Cancels(worlds[m], events[m], id);
    RunForward(worlds, events, m, n, id);
    CancelledExactly(worlds, events, n, id);
    RunInv(worlds, events, n);
    OkAt(worlds[n], id);
    CommittedExactly(worlds, events, n, id);
  }

  lemma OkAt(w: World, id: Id)
    requires Inv(w) && id in w.jobs
    ensures JobOk(w.jobs[id], w.now)
  {
  }

  /** A report is shown, unless the job is over or a cancel has won. */
  lemma ReportShows(w: World, id: Id, status: Status, reason: string, detail: Option<int>, next: World)
    requires Inv(w) && Step(w, Update(id, status, reason, detail), next)
    ensures id in w.jobs && id in next.jobs
    ensures var s := w.jobs[id];
            next.jobs[id] == if s.finished.Some? || s.cancelled then s else s.(status := status, reason := reason, detail := detail)
  {
    assert JobOk(w.jobs[id], w.now);
  }

  /** What pruning keeps: the jobs that are not over, and those that ended less than ten minutes ago. */
  lemma PrunedExactly(jobs: map<Id, JobState>, now: nat, id: Id)
    ensures id in Pruned(jobs, now) <==>
            id in jobs && (jobs[id].finished == None || now - jobs[id].finished.value < 600_000_000_000)
    ensures id in Pruned(jobs, now) ==> Pruned(jobs, now)[id] == jobs[id]
  {
  }

  /** A cancel request shows at once, and only where it wins; a job that is over or committed stays as it is. */
  lemma RequestShows(w: World, call: nat, next: World)
    requires Inv(w) && Step(w, Request(call), next)
    ensures call in w.calls && w.calls[call].job in w.jobs && w.calls[call].job in next.jobs
    ensures var s, t := w.jobs[w.calls[call].job], next.jobs[w.calls[call].job];
            if s.finished.Some? || s.committed then t == s
            else t == s.(status := Cancelling, reason := "cancellation_requested", cancelled := true)
    ensures next.calls[call].stage == if w.jobs[w.calls[call].job].finished.Some? then Ready else Waiting
  {
    assert JobOk(w.jobs[w.calls[call].job], w.now);
  }

  /** The registry never holds more than 64 jobs, and turns one away exactly when it holds 64 that are not over. */
  lemma SixtyFour(w: World, id: Id, before: map<Id, JobState>, next: World)
    requires Inv(w) && Step(w, Submit(id, before), next)
    ensures |w.registry| <= 64 && |next.registry| <= 64
    ensures id !in next.jobs <==> |w.registry| == 64 && forall j :: j in w.registry ==> w.jobs[j].finished.None?
    ensures id in next.jobs ==> id in next.registry && next.jobs[id] == NEW_JOB
  {
    SubmitInv(w, id, before, next);
    RefusedExactly(w, id, before, next);
  }

  /** A submission drops what has expired, and otherwise only the one job of 64 that ended first, the least identifier first. */
  lemma EvictionExactly(w: World, id: Id, before: map<Id, JobState>, next: World, gone: Id)
    requires Inv(w) && Step(w, Submit(id, before), next) && gone in w.registry && gone !in next.registry
    ensures w.jobs[gone].finished != None
    ensures w.now - w.jobs[gone].finished.value < 600_000_000_000 ==>
              && |w.registry| == 64
              && forall j :: j in w.registry && w.jobs[j].finished != None ==>
                   || w.jobs[gone].finished.value < w.jobs[j].finished.value
                   || (w.jobs[gone].finished.value == w.jobs[j].finished.value && gone <= j)
  {
    hide JobOk, CallOk;
    OnlyFinishedLeave(w, Submit(id, before), next, gone);
    if w.now - w.jobs[gone].finished.value < 600_000_000_000 {
      forall j | j in w.registry && w.jobs[j].finished != None
        ensures || w.jobs[gone].finished.value < w.jobs[j].finished.value
                || (w.jobs[gone].finished.value == w.jobs[j].finished.value && gone <= j)
      {
        assert j in Registered(w);
      }
    }
  }
}
