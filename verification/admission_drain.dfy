/**
 Progress of the admission protocol: once nothing new arrives and nothing is resized, every schedule
 of the remaining steps is finite, and a schedule without cancellations or deadlines can only come to
 rest when every waiter has been admitted and every permit returned.
 */
module AdmissionDrain {
  import opened Wrappers
  import opened Admission
  import opened AdmissionProtocol
  import opened AdmissionInvariants

  /** A step that brings no new work and changes no policy. */
  predicate Internal(e: Event) {
    e.PollBy? || e.DeadlinePasses? || e.GuardDrops? || e.Cancel? || e.Release? || e.Notify?
  }

  /** An internal step in which nobody gives up. */
  predicate Patient(e: Event) {
    (e.PollBy? && !e.late) || e.GuardDrops? || e.Release? || e.Notify?
  }

  function ReadyOnes(phase: map<nat, Phase>): set<nat> { set t | t in phase && phase[t] == Ready }

  function Staying(phase: map<nat, Phase>): set<nat> { set t | t in phase && phase[t] != Leaving }

  /** Work left: places in the queue, waiters that may still give up, permits, and an open choice. */
  function Work(w: World): nat {
    2 * (2 * |w.phase| + |Staying(w.phase)| + |w.permits|) + if w.pool.granted.None? then 1 else 0
  }

  /** Every internal step lowers this, for any `n` that bounds the queue. */
  function Measure(w: World, n: nat): nat {
    (n + 2) * Work(w) + (n + 1) * w.owed + |ReadyOnes(w.phase)|
  }

  lemma ReadyWithin(phase: map<nat, Phase>)
    ensures ReadyOnes(phase) <= phase.Keys && |ReadyOnes(phase)| <= |phase|
    ensures Staying(phase) <= phase.Keys && |Staying(phase)| <= |phase|
  {
    SubsetSize(ReadyOnes(phase), phase.Keys);
    SubsetSize(Staying(phase), phase.Keys);
  }

  lemma {:induction false} SubsetSize<T>(a: set<T>, b: set<T>)
    requires a <= b
    ensures |a| <= |b|
  {
    if x :| x in a {
      SubsetSize(a - {x}, b - {x});
    }
  }

  lemma WithoutOne(a: set<nat>, t: nat)
    ensures |a - {t}| + (if t in a then 1 else 0) == |a|
  {
    if t !in a {
      assert a - {t} == a;
    }
  }

  /** Putting a queued ticket in another phase. */
  lemma PhaseChange(phase: map<nat, Phase>, t: nat, to: Phase)
    requires t in phase
    ensures |phase[t := to]| == |phase|
    ensures |Staying(phase[t := to])| + (if phase[t] != Leaving then 1 else 0)
         == |Staying(phase)| + (if to != Leaving then 1 else 0)
    ensures |ReadyOnes(phase[t := to])| + (if phase[t] == Ready then 1 else 0)
         == |ReadyOnes(phase)| + (if to == Ready then 1 else 0)
  {
    var after := phase[t := to];
    assert after.Keys == phase.Keys;
    assert Staying(after) - {t} == Staying(phase) - {t};
    assert ReadyOnes(after) - {t} == ReadyOnes(phase) - {t};
    WithoutOne(Staying(after), t);
    WithoutOne(Staying(phase), t);
    WithoutOne(ReadyOnes(after), t);
    WithoutOne(ReadyOnes(phase), t);
  }

  /** Taking a queued ticket out. */
  lemma PhaseRemoved(phase: map<nat, Phase>, t: nat)
    requires t in phase
    ensures |phase - {t}| + 1 == |phase|
    ensures |Staying(phase - {t})| + (if phase[t] != Leaving then 1 else 0) == |Staying(phase)|
    ensures |ReadyOnes(phase - {t})| <= |ReadyOnes(phase)|
  {
    var after := phase - {t};
    assert after.Keys == phase.Keys - {t};
    assert Staying(after) == Staying(phase) - {t};
    assert ReadyOnes(after) == ReadyOnes(phase) - {t};
  }

  lemma PhaseWoken(phase: map<nat, Phase>)
    ensures |Wake(phase)| == |phase| && Staying(Wake(phase)) == Staying(phase)
  {
    assert Wake(phase).Keys == phase.Keys;
  }

  /** How an internal step moves work, owed notifications and pending wakes. */
  ghost predicate Progress(w: World, next: World) {
    && |next.phase| <= |w.phase|
    && (|| (Work(next) < Work(w) && next.owed <= w.owed + 1 && |ReadyOnes(next.phase)| <= |ReadyOnes(w.phase)|)
        || (Work(next) == Work(w) && next.owed + 1 == w.owed)
        || (Work(next) == Work(w) && next.owed == w.owed && |ReadyOnes(next.phase)| < |ReadyOnes(w.phase)|))
  }

  lemma ProgressLowers(w: World, next: World, n: nat)
    requires Progress(w, next) && |w.phase| <= n
    ensures Measure(next, n) < Measure(w, n)
  {
    ReadyWithin(next.phase);
    var (a, b) := (Work(next), Work(w));
    if a < b {
      Scaled(n + 2, a, b);
      assert (n + 1) * (w.owed + 1) == (n + 1) * w.owed + (n + 1);
      if next.owed < w.owed + 1 {
        Scaled(n + 1, next.owed, w.owed + 1);
      }
    } else if next.owed + 1 == w.owed {
      Scaled(n + 1, next.owed, w.owed);
    }
  }

  lemma Scaled(k: nat, a: nat, b: nat)
    requires a < b
    ensures k * a + k <= k * b
  {
    var d := b - a - 1;
    assert k * (a + 1 + d) == k * a + k + k * d;
  }

  lemma PollProgress(w: World, t: nat, late: bool)
    requires Inv(w) && Enabled(w, PollBy(t, late))
    ensures Progress(w, Step(w, PollBy(t, late)))
  {
    PollFrame(w.pool, t, late);
    var (s, outcome) := Poll(w.pool, t, late);
    if outcome.Expired? {
      PhaseChange(w.phase, t, Leaving);
    } else if outcome.Claimed? {
      PhaseRemoved(w.phase, t);
    } else {
      PhaseChange(w.phase, t, Asleep);
      PendingGrant(w.pool, t);
    }
  }

  /** A poll that only waits opens the grant exactly when it made a choice. */
  lemma PendingGrant(s: State, t: nat)
    requires Sound(s) && Poll(s, t, false).1.Pending?
    ensures var (next, outcome) := Poll(s, t, false);
            if outcome.selected then s.granted.None? && next.granted.Some? else next.granted == s.granted
  {
    OfferFrame(s);
  }

  lemma DepartureProgress(w: World, t: nat, fate: Fate)
    requires Sound(w.pool) && t in w.phase
    ensures Progress(w, Depart(w, t, fate))
  {
    PhaseRemoved(w.phase, t);
  }

  lemma InternalProgress(w: World, e: Event)
    requires Inv(w) && Enabled(w, e) && Internal(e)
    ensures Progress(w, Step(w, e))
  {
    match e
    case PollBy(t, late) => PollProgress(w, t, late);
    case DeadlinePasses(t) => PhaseChange(w.phase, t, Leaving);
    case GuardDrops(t) => DepartureProgress(w, t, TimedOut);
    case Cancel(t) => DepartureProgress(w, t, Cancelled);
    case Release(i) =>
    case Notify => PhaseWoken(w.phase);
  }

  /** Every internal run is finite: its length is bounded by the measure at its start. */
  lemma {:induction false} InternalRunsEnd(w: World, es: seq<Event>, n: nat)
    requires Inv(w) && Runs(w, es) && (forall e :: e in es ==> Internal(e)) && |w.phase| <= n
    ensures |es| + Measure(After(w, es), n) <= Measure(w, n)
    decreases |es|
  {
    if es != [] {
      InvStep(w, es[0]);
      InternalProgress(w, es[0]);
      ProgressLowers(w, Step(w, es[0]), n);
      InternalRunsEnd(Step(w, es[0]), es[1..], n);
    }
  }

  /** No task that has not given up can take another step. */
  ghost predicate AtRest(w: World) {
    forall e :: Patient(e) ==> !Enabled(w, e)
  }

  /** A protocol at rest has admitted or released everybody: it never stalls with work queued. */
  lemma RestIsEmpty(w: World)
    requires Inv(w) && AtRest(w)
    ensures w.pool.waiting == [] && w.permits == [] && w.pool.active == 0 && w.pool.granted.None?
  {
    assert w.permits == [] by {
      assert Patient(Release(0)) && !Enabled(w, Release(0));
    }
    assert w.owed == 0 by {
      assert w.owed > 0 ==> Enabled(w, Notify);
    }
    forall t | t in w.phase ensures w.phase[t] == Asleep {
      assert w.phase[t] == Ready ==> Enabled(w, PollBy(t, false));
      assert w.phase[t] == Leaving ==> Enabled(w, GuardDrops(t));
    }
    if w.pool.waiting != [] {
      assert forall x: Waiter :: Fits(w.pool, x);
      if w.pool.granted.Some? {
        assert GrantClaimable(w.pool);
      } else {
        IdlePoolSelects(w.pool);
        SelectFindsExactly(w.pool);
      }
      assert false;
    }
  }

  lemma PatientPollAdmits(w: World, t: nat)
    requires Accounted(w) && Enabled(w, PollBy(t, false))
    ensures var next := Step(w, PollBy(t, false));
            next.pool.admitted + |Staying(next.phase)| == w.pool.admitted + |Staying(w.phase)|
  {
    PollFrame(w.pool, t, false);
    PhaseChange(w.phase, t, Asleep);
    PhaseRemoved(w.phase, t);
  }

  lemma PatientStepAdmits(w: World, e: Event)
    requires Inv(w) && Enabled(w, e) && Patient(e)
    ensures var next := Step(w, e);
            next.pool.admitted + |Staying(next.phase)| == w.pool.admitted + |Staying(w.phase)|
  {
    match e
    case PollBy(t, late) => PatientPollAdmits(w, t);
    case GuardDrops(t) => PhaseRemoved(w.phase, t);
    case Release(i) =>
    case Notify => PhaseWoken(w.phase);
  }

  /** A patient run that has come to rest has admitted every waiter that had not already timed out. */
  lemma {:induction false} PatientRunsAdmitAll(w: World, es: seq<Event>)
    requires Inv(w) && Runs(w, es) && forall e :: e in es ==> Patient(e)
    ensures var end := After(w, es);
            && end.pool.admitted + |Staying(end.phase)| == w.pool.admitted + |Staying(w.phase)|
            && (AtRest(end) ==> end.pool.waiting == [] && end.permits == []
                                && end.pool.admitted == w.pool.admitted + |Staying(w.phase)|)
    decreases |es|
  {
    if es == [] {
      if AtRest(w) {
        RestIsEmpty(w);
        RestHasNoPhases(w);
      }
    } else {
      InvStep(w, es[0]);
      PatientStepAdmits(w, es[0]);
      PatientRunsAdmitAll(Step(w, es[0]), es[1..]);
    }
  }

  lemma RestHasNoPhases(w: World)
    requires Inv(w) && w.pool.waiting == []
    ensures Staying(w.phase) == {}
  {
    assert forall t :: !Holds(w.pool.waiting, t);
  }

  /** From every reachable state a patient schedule does drain the pool. */
  lemma {:induction false} Drains(w: World) returns (es: seq<Event>)
    requires Inv(w)
    ensures Runs(w, es) && (forall e :: e in es ==> Patient(e)) && AtRest(After(w, es))
    decreases Measure(w, |w.phase|)
  {
    if AtRest(w) {
      es := [];
    } else {
      var e :| Patient(e) && Enabled(w, e);
      var next := Step(w, e);
      InvStep(w, e);
      InternalProgress(w, e);
      ProgressLowers(w, next, |w.phase|);
      MeasureShrinks(next, |next.phase|, |w.phase|);
      var rest := Drains(next);
      es := [e] + rest;
    }
  }

  lemma MeasureShrinks(w: World, a: nat, b: nat)
    requires a <= b
    ensures Measure(w, a) <= Measure(w, b)
  {
    assert (b - a) * Work(w) >= 0 && (b - a) * w.owed >= 0;
    assert (b + 2) * Work(w) == (a + 2) * Work(w) + (b - a) * Work(w);
    assert (b + 1) * w.owed == (a + 1) * w.owed + (b - a) * w.owed;
  }
}
