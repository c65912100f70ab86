/**
 Places, limits and counters of the admission pool along every run
 (packages/rust-core/src/platform/admission.rs, lines 207 to 272, 388 to 409 and 433 to 437).
 */
module AdmissionCounts {
  import opened Wrappers
  import opened Admission
  import opened AdmissionProtocol
  import opened AdmissionInvariants

  function Depth(s: State): nat { |s.waiting| + |s.resourceWaiting| }

  /** The step asks for a place of its own. */
  predicate Asks(e: Event) { (e.Arrive? && !e.late) || e.ArriveForResource? }

  /** What a pass through the critical section leaves alone. */
  lemma PollKeeps(s: State, t: nat, late: bool)
    requires Sound(s)
    ensures var next := Poll(s, t, late).0;
            && next.limit == s.limit && next.ceiling == s.ceiling && next.maxWaiters == s.maxWaiters
            && next.resourceWaiting == s.resourceWaiting && |next.waiting| <= |s.waiting|
            && next.queueTimeouts == s.queueTimeouts + (if late then 1 else 0)
            && (next.active <= s.active || next.active <= s.limit)
  {
    hide Select, Fits;
    OfferFrame(s);
    if !late && Poll(s, t, false).1.Claimed? { ClaimWithinLimit(s, t); }
  }

  /** A place is given exactly if fewer are taken than there are; otherwise only a rejection is counted. */
  lemma PlaceExactly(w: World, e: Event)
    requires Inv(w) && Enabled(w, e) && Asks(e)
    ensures var s, next := w.pool, Step(w, e).pool;
            if Depth(s) < s.maxWaiters
            then next.nextTicket == s.nextTicket + 1 && Depth(next) == Depth(s) + 1
                 && next.queueFullRejections == s.queueFullRejections
            else next == s.(queueFullRejections := s.queueFullRejections + 1)
  {
  }

  /** Nothing but asking for a place takes one. */
  lemma DepthStep(w: World, e: Event)
    requires Inv(w) && Enabled(w, e) && !Asks(e)
    ensures Depth(Step(w, e).pool) <= Depth(w.pool)
  {
    hide Poll;
    match e
    case PollBy(t, late) => PollKeeps(w.pool, t, late);
    case GuardDrops(t) => WithoutIs(w.pool.waiting, t);
    case Cancel(t) => WithoutIs(w.pool.waiting, t);
    case MoveToQueue(t, _, _) => PlaceGivenBack(w.pool.resourceWaiting, t);
    case LeaveResource(t, _) => PlaceGivenBack(w.pool.resourceWaiting, t);
    case _ =>
  }

  lemma {:induction false} PlaceGivenBack(ts: seq<nat>, t: nat)
    ensures |WithoutTicket(ts, t)| + (if t in ts then 1 else 0) <= |ts|
  {
    if ts != [] { PlaceGivenBack(ts[1..], t); }
  }

  ghost predicate NeverResized(es: seq<Event>) { forall i :: 0 <= i < |es| ==> !es[i].ResizeQueue? }

  /** While the number of places stays, no more are ever taken than there are. */
  lemma {:induction false} PlacesBound(w: World, es: seq<Event>)
    requires Inv(w) && Runs(w, es) && NeverResized(es) && Depth(w.pool) <= w.pool.maxWaiters
    ensures After(w, es).pool.maxWaiters == w.pool.maxWaiters && Depth(After(w, es).pool) <= w.pool.maxWaiters
    decreases |es|
  {
    assert Sound(w.pool);
    hide Inv, Step, NeverResized;
    if es != [] {
      assert !es[0].ResizeQueue? && NeverResized(es[1..]) by { FirstAndRest(es); }
      InvStep(w, es[0]);
      PlacesStay(w, es[0]);
      if Asks(es[0]) { PlaceExactly(w, es[0]); } else { DepthStep(w, es[0]); }
      PlacesBound(Step(w, es[0]), es[1..]);
    }
  }

  lemma FirstAndRest(es: seq<Event>)
    requires es != [] && NeverResized(es)
    ensures !es[0].ResizeQueue? && NeverResized(es[1..])
  {
  }

  lemma PlacesStay(w: World, e: Event)
    requires Inv(w) && Enabled(w, e) && !e.ResizeQueue?
    ensures Step(w, e).pool.maxWaiters == w.pool.maxWaiters
  {
    hide Poll;
    if e.PollBy? { PollKeeps(w.pool, e.ticket, e.late); }
  }

  /** A timeout is counted exactly when a deadline is found to have passed: on arrival, at a wake-up, or asleep. */
  lemma TimeoutsExactly(w: World, e: Event)
    requires Inv(w) && Enabled(w, e)
    ensures Step(w, e).pool.queueTimeouts
            == w.pool.queueTimeouts + if (e.Arrive? && e.late) || (e.PollBy? && e.late) || e.DeadlinePasses? then 1 else 0
  {
    hide Poll;
    if e.PollBy? { PollKeeps(w.pool, e.ticket, e.late); }
  }

  // ---------------------------------------------------------------- the limit

  /** A new ceiling is at least one; the limit follows it down, and up only from the old ceiling. */
  lemma CeilingExactly(s: State, ceiling: nat)
    requires Sound(s)
    ensures var next := SetCeiling(s, ceiling);
            && next.ceiling == (if ceiling == 0 then 1 else ceiling)
            && next.limit == (if s.limit == s.ceiling || s.limit > next.ceiling then next.ceiling else s.limit)
            && next.policyEpoch == s.policyEpoch + (if next.limit == s.limit && next.ceiling == s.ceiling then 0 else 1)
            && next == s.(limit := next.limit, ceiling := next.ceiling, policyEpoch := next.policyEpoch)
  {
  }

  /** A new limit is brought between one and the ceiling. */
  lemma LimitExactly(s: State, limit: nat)
    requires Sound(s)
    ensures var next := SetLimit(s, limit);
            && 1 <= next.limit <= s.ceiling
            && (1 <= limit <= s.ceiling ==> next.limit == limit)
            && (limit > s.ceiling ==> next.limit == s.ceiling)
            && next.policyEpoch == s.policyEpoch + (if next.limit == s.limit then 0 else 1)
            && next == s.(limit := next.limit, policyEpoch := next.policyEpoch)
  {
  }

  // ---------------------------------------------------------------- only a resize moves the limit

  predicate Resizes(e: Event) { e.ResizeLimit? || e.ResizeCeiling? }

  lemma LimitStays(w: World, e: Event)
    requires Inv(w) && Enabled(w, e) && !Resizes(e)
    ensures Step(w, e).pool.limit == w.pool.limit && Step(w, e).pool.ceiling == w.pool.ceiling
  {
    hide Poll;
    if e.PollBy? { PollKeeps(w.pool, e.ticket, e.late); }
  }

  /** Until the limit is lowered, no more is ever charged than it allows. */
  lemma {:induction false} NeverOverLimit(w: World, es: seq<Event>)
    requires Inv(w) && Runs(w, es) && w.pool.active <= w.pool.limit
    requires forall i :: 0 <= i < |es| ==> !Resizes(es[i])
    ensures After(w, es).pool.limit == w.pool.limit && After(w, es).pool.active <= w.pool.limit
    decreases |es|
  {
    assert Sound(w.pool);
    hide Inv, Step;
    if es != [] {
      InvStep(w, es[0]);
      LimitStays(w, es[0]);
      ActiveStep(w, es[0]);
      assert forall i :: 0 <= i < |es[1..]| ==> es[1..][i] == es[i + 1];
      NeverOverLimit(Step(w, es[0]), es[1..]);
    }
  }

  lemma ActiveStep(w: World, e: Event)
    requires Inv(w) && Enabled(w, e) && !Resizes(e) && w.pool.active <= w.pool.limit
    ensures Step(w, e).pool.active <= w.pool.limit
  {
    hide Poll;
    if e.PollBy? { PollKeeps(w.pool, e.ticket, e.late); }
  }

  /** A new pool is idle, has at least one unit and one place, and full credits. */
  lemma NewPoolExactly(total: nat, places: nat)
    ensures var s := Initial(total, places);
            && s.limit == s.ceiling == (if total == 0 then 1 else total) && s.maxWaiters == (if places == 0 then 1 else places)
            && s.active == s.inFlight == s.admitted == s.released == 0
            && s.waiting == [] && s.resourceWaiting == [] && s.granted == None && s.credits == [3, 2, 1]
            && s.nextTicket == s.policyEpoch == s.queueFullRejections == 0
            && s.queueTimeouts == s.queueCancellations == s.transitionTimeouts == 0
  {
  }
}
