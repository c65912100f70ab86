/**
 Deferred jobs (packages/rust-core/src/platform/jobs.rs): one job's record under its lock, and the
 bounded registry that retains the records.

 Every lock region of the source is one method here. Instants are nanoseconds and come from the caller;
 a job's identifier stands for its place in the registry's key order.
 */
module Jobs {
  import opened Wrappers

  type Id = nat

  const MAX_JOBS: nat := 64
  const RESULT_TTL: nat := 600_000_000_000
  const MAX_RESULT_BYTES: nat := 2 * 1024 * 1024

  datatype Status =
    | Queued | WaitingForAdmission | WaitingForResources | WaitingForRunner | Loading | Running
    | Cancelling | Completed | Failed | Cancelled | Expired

  predicate Terminal(s: Status) { s.Completed? || s.Failed? || s.Cancelled? || s.Expired? }

  /** What a worker reports while it works. */
  predicate InProgress(s: Status) { !Terminal(s) && !s.Cancelling? }

  /** A JSON value, by its content and the length of its encoding. */
  datatype Value = Value(content: int, encodedBytes: nat)

  datatype Code = TaskCancelled | SessionKilled | DeadlineExceeded | ResultTooLarge | ErrorTooLarge | OtherCode(number: int)

  datatype TaskError = TaskError(code: Code, encodedBytes: nat)

  type Outcome = Result<Value, TaskError>

  datatype JobState = JobState(
    status: Status,
    reason: string,
    detail: Option<int>,
    finished: Option<nat>,
    result: Option<Value>,
    error: Option<TaskError>,
    cancelled: bool,
    done: bool,
    committed: bool
  )

  const NEW_JOB := JobState(Queued, "discovering_model", None, None, None, None, false, false, false)

  const TASK_CANCELLED := TaskError(TaskCancelled, 64)
  const RESULT_TOO_LARGE := TaskError(ResultTooLarge, 256)
  const ERROR_TOO_LARGE := TaskError(ErrorTooLarge, 128)

  predicate Fits(encodedBytes: nat) { encodedBytes <= MAX_RESULT_BYTES }

  // ---------------------------------------------------------------- one job

  /** A worker's report, unless the job is over or being cancelled. */
  function Updated(s: JobState, status: Status, reason: string, detail: Option<int>): JobState {
    if Terminal(s.status) || s.status.Cancelling? then s else s.(status := status, reason := reason, detail := detail)
  }

  datatype CommitOutcome = Refused | CommitFailed | Committed

  function StatusOf(code: Code): Status {
    match code
    case TaskCancelled => Cancelled
    case SessionKilled => Cancelled
    case DeadlineExceeded => Expired
    case _ => Failed
  }

  function ReasonOf(status: Status): string {
    match status
    case Completed => "completed"
    case Cancelled => "cancelled"
    case Expired => "deadline_exceeded"
    case _ => "failed"
  }

  /** The outcome that counts: a result must fit, and a requested cancel overrides everything. */
  function Effective(s: JobState, outcome: Outcome): Outcome {
    if s.cancelled then Err(TASK_CANCELLED)
    else if outcome.Ok? && !Fits(outcome.value.encodedBytes) then Err(RESULT_TOO_LARGE)
    else outcome
  }

  function FinishedWith(s: JobState, outcome: Outcome, now: nat): JobState {
    var over := s.(finished := Some(now), detail := None);
    match Effective(s, outcome)
    case Ok(value) => over.(status := Completed, reason := ReasonOf(Completed), result := Some(value))
    case Err(e) =>
      var status := StatusOf(e.code);
      over.(status := status, reason := ReasonOf(status),
            error := Some(if Fits(e.encodedBytes) then e else ERROR_TOO_LARGE))
  }

  /** A cancel request under the job's lock: it wins unless the job is over or its result is committed. */
  function CancelRequested(s: JobState): JobState {
    if Terminal(s.status) || s.committed then s
    else s.(status := Cancelling, reason := "cancellation_requested", cancelled := true)
  }

  /** The result of running `commit`, which succeeds or not, under the job's lock. */
  function CommitTried(s: JobState, commit: bool): JobState {
    if s.cancelled || !commit then s else s.(committed := true)
  }

  class Job {
    var status: Status
    var reason: string
    var detail: Option<int>
    var finished: Option<nat>
    var result: Option<Value>
    var error: Option<TaskError>
    var cancel: bool
    var done: bool
    var completionCommitted: bool

    ghost function State(): JobState
      reads this
    {
      JobState(status, reason, detail, finished, result, error, cancel, done, completionCommitted)
    }

    constructor ()
      ensures State() == NEW_JOB
    {
      status, reason, detail, finished := Queued, "discovering_model", None, None;
      result, error, cancel, done, completionCommitted := None, None, false, false, false;
    }

    method Update(status: Status, reason: string, detail: Option<int>)
      modifies this
      ensures State() == Updated(old(State()), status, reason, detail)
    {
      if !Terminal(this.status) && this.status != Cancelling {
        this.status, this.reason, this.detail := status, reason, detail;
      }
    }

    /** Run `commit`, which succeeds or not, only when no cancel was requested. */
    method CommitResult(commit: bool) returns (r: CommitOutcome)
      modifies this
      ensures r == if old(cancel) then Refused else if commit then Committed else CommitFailed
      ensures State() == CommitTried(old(State()), commit)
      ensures r == Committed ==> completionCommitted && !cancel
      ensures r != Committed ==> completionCommitted == old(completionCommitted)
      ensures cancel == old(cancel) && status == old(status) && result == old(result) && error == old(error)
    {
      if cancel { return Refused; }
      if !commit { return CommitFailed; }
      completionCommitted := true;
      r := Committed;
    }

    method Finish(outcome: Outcome, now: nat)
      modifies this
      ensures State() == FinishedWith(old(State()), outcome, now)
    {
      var sized := outcome;
      if outcome.Ok? && !Fits(outcome.value.encodedBytes) {
        sized := Err(RESULT_TOO_LARGE);
      }
      finished := Some(now);
      detail := None;
      var effective: Outcome := if cancel then Err(TASK_CANCELLED) else sized;
      match effective {
        case Ok(value) =>
          status, reason, result := Completed, "completed", Some(value);
        case Err(e) =>
          status := match e.code
            case TaskCancelled => Cancelled
            case SessionKilled => Cancelled
            case DeadlineExceeded => Expired
            case _ => Failed;
          reason := match status
            case Cancelled => "cancelled"
            case Expired => "deadline_exceeded"
            case _ => "failed";
          error := Some(if Fits(e.encodedBytes) then e else ERROR_TOO_LARGE);
      }
    }

    /** The lock region of `cancel_job`; `over` when there is nothing to wait for. */
    method RequestCancel() returns (over: bool)
      modifies this
      ensures over == Terminal(old(status))
      ensures State() == CancelRequested(old(State()))
    {
      if Terminal(status) { return true; }
      if !completionCommitted {
        status, reason, cancel := Cancelling, "cancellation_requested", true;
      }
      over := false;
    }

    /** The lock region of `remove`: drop the payload, keep the status. */
    method Clear() returns (was: Status)
      modifies this
      ensures was == old(status) && State() == old(State()).(result := None, error := None)
    {
      result, error := None, None;
      was := status;
    }
  }

  // ---------------------------------------------------------------- the registry

  predicate Retained(s: JobState, now: nat) {
    s.finished.None? || now < s.finished.value + RESULT_TTL
  }

  function Pruned(jobs: map<Id, JobState>, now: nat): map<Id, JobState> {
    map id | id in jobs && Retained(jobs[id], now) :: jobs[id]
  }

  /** The finished job that finished first; of those, the one with the least identifier. */
  predicate IsOldest(jobs: map<Id, JobState>, id: Id) {
    && id in jobs && jobs[id].finished.Some?
    && forall j :: j in jobs && jobs[j].finished.Some? ==>
         || jobs[id].finished.value < jobs[j].finished.value
         || (jobs[id].finished.value == jobs[j].finished.value && id <= j)
  }

  predicate NoneFinished(jobs: map<Id, JobState>) {
    forall j :: j in jobs ==> jobs[j].finished.None?
  }

  /** A full registry gives up its oldest finished job, if it has one. */
  ghost predicate Evicted(jobs: map<Id, JobState>, after: map<Id, JobState>) {
    if |jobs| < MAX_JOBS || NoneFinished(jobs) then after == jobs
    else exists id :: IsOldest(jobs, id) && after == jobs - {id}
  }

  class JobRegistry {
    var entries: map<Id, Job>

    ghost function Snapshot(): map<Id, JobState>
      reads this, entries.Values
    {
      map id | id in entries :: entries[id].State()
    }

    constructor ()
      ensures entries == map[]
    {
      entries := map[];
    }

    method Prune(now: nat)
      modifies this
      ensures Snapshot() == Pruned(old(Snapshot()), now)
      ensures forall id :: id in entries ==> id in old(entries) && entries[id] == old(entries[id])
    {
      entries := map id | id in entries && (entries[id].finished.None? || now < entries[id].finished.value + RESULT_TTL)
                 :: entries[id];
    }

    /** `filter_map` over the finished jobs, then `min_by_key`. */
    method Oldest() returns (r: Option<Id>)
      ensures r.None? <==> NoneFinished(Snapshot())
      ensures r.Some? ==> IsOldest(Snapshot(), r.value)
    {
      r := None;
      var rest := entries.Keys;
      ghost var jobs := Snapshot();
      while rest != {}
        invariant rest <= entries.Keys
        invariant r.None? ==> forall j :: j in jobs && j !in rest ==> jobs[j].finished.None?
        invariant r.Some? ==> r.value in jobs && jobs[r.value].finished.Some?
        invariant r.Some? ==> forall j :: j in jobs && j !in rest && jobs[j].finished.Some? ==>
                    || jobs[r.value].finished.value < jobs[j].finished.value
                    || (jobs[r.value].finished.value == jobs[j].finished.value && r.value <= j)
        decreases |rest|
      {
        var id :| id in rest;
        rest := rest - {id};
        var at := entries[id].finished;
        assert jobs[id].finished == at;
        if at.Some? {
          if r.None? {
            r := Some(id);
          } else {
            var best := entries[r.value].finished.value;
            assert jobs[r.value].finished.value == best;
            if at.value < best || (at.value == best && id < r.value) { r := Some(id); }
          }
        }
      }
    }

    method EvictOldest()
      modifies this
      ensures Evicted(old(Snapshot()), Snapshot())
      ensures forall id :: id in entries ==> id in old(entries) && entries[id] == old(entries[id])
    {
      SnapshotSize();
      if |entries| >= MAX_JOBS {
        var oldest := Oldest();
        if oldest.Some? {
          ghost var jobs := Snapshot();
          entries := entries - {oldest.value};
          assert Snapshot() == jobs - {oldest.value};
        }
      }
    }

    /** Room for one more, after dropping what has expired and, if need be, the oldest finished job. */
    method MakeRoom(now: nat) returns (room: bool)
      modifies this
      ensures Evicted(Pruned(old(Snapshot()), now), Snapshot())
      ensures room <==> |Snapshot()| < MAX_JOBS
      ensures forall id :: id in entries ==> id in old(entries) && entries[id] == old(entries[id])
    {
      hide Evicted, Pruned;
      Prune(now);
      EvictOldest();
      SnapshotSize();
      room := |entries| < MAX_JOBS;
    }

    lemma SnapshotSize()
      ensures |Snapshot()| == |entries|
    {
      assert Snapshot().Keys == entries.Keys;
      assert |Snapshot()| == |Snapshot().Keys| && |entries| == |entries.Keys|;
    }

    /** The registry's part of `submit`; `before` is what room was made to. */
    method Submit(id: Id, now: nat) returns (r: Option<Job>, ghost before: map<Id, JobState>)
      requires id !in entries
      modifies this
      ensures Evicted(Pruned(old(Snapshot()), now), before)
      ensures r.None? <==> |before| >= MAX_JOBS
      ensures Snapshot() == if r.None? then before else before[id := NEW_JOB]
      ensures r.Some? ==> fresh(r.value) && id in entries && entries[id] == r.value
    {
      hide Evicted, Pruned;
      var room := MakeRoom(now);
      before := Snapshot();
      if !room { return None, before; }
      var job := new Job();
      entries := entries[id := job];
      assert Snapshot() == before[id := NEW_JOB];
      r := Some(job);
    }

    method Lookup(id: Id, now: nat) returns (r: Option<Job>)
      modifies this
      ensures Snapshot() == Pruned(old(Snapshot()), now)
      ensures r.Some? <==> id in Snapshot()
      ensures r.Some? ==> id in old(entries) && r.value == old(entries[id])
    {
      Prune(now);
      r := if id in entries then Some(entries[id]) else None;
    }

    method Erase(id: Id)
      modifies this
      ensures Snapshot() == old(Snapshot()) - {id}
    {
      entries := entries - {id};
    }
  }
}
