/**
 What every reachable state of the admission protocol satisfies: tickets are never lost or
 duplicated, capacity is conserved, no wake-up is lost, and bypassing is bounded.
 */
module AdmissionInvariants {
  import opened Wrappers
  import opened Admission
  import opened AdmissionProtocol

  // ---------------------------------------------------------------- tickets are accounted for

  /** A polled waiter keeps or leaves its place; nobody else's place changes. */
  lemma PollFrame(s: State, ticket: nat, late: bool)
    requires Sound(s) && Holds(s.waiting, ticket)
    ensures var (next, outcome) := Poll(s, ticket, late);
            && Sound(next)
            && next.nextTicket == s.nextTicket && next.resourceWaiting == s.resourceWaiting
            && next.limit == s.limit && next.released == s.released
            && (outcome.Claimed? ==>
                  && (forall t :: Holds(next.waiting, t) <==> t != ticket && Holds(s.waiting, t))
                  && next.granted.None?
                  && next.active == s.active + outcome.units && outcome.units >= 1
                  && next.inFlight == s.inFlight + 1 && next.admitted == s.admitted + 1)
            && (!outcome.Claimed? ==>
                  && SameTickets(s.waiting, next.waiting)
                  && (forall t :: Holds(next.waiting, t) <==> Holds(s.waiting, t))
                  && next.active == s.active && next.inFlight == s.inFlight && next.admitted == s.admitted)
  {
    SameTicketsHold(s.waiting, s.waiting);
    if !late {
      OfferFrame(s);
      var (o, selected) := Offer(s);
      SameTicketsHold(s.waiting, o.waiting);
      WithoutIs(o.waiting, ticket);
      WithoutHolds(o.waiting, ticket);
    }
  }

  lemma SoundAfterDepart(s: State, ticket: nat, count: bool)
    requires Sound(s)
    ensures Sound(DropWait(s, ticket, count))
  {
    WithoutHolds(s.waiting, ticket);
  }

  /** A fresh waiter at the back keeps the queue sound. */
  lemma SoundAfterJoin(s: State, next: State, x: Waiter)
    requires Sound(s) && !Holds(s.waiting, x.ticket)
    requires next == s.(waiting := s.waiting + [x], nextTicket := next.nextTicket, resourceWaiting := next.resourceWaiting)
    ensures Sound(next)
    ensures forall t :: Holds(next.waiting, t) <==> t == x.ticket || Holds(s.waiting, t)
  {
    AppendHolds(s.waiting, x);
  }

  lemma AccountedArrive(w: World, cost: nat, priority: Priority, late: bool)
    requires Accounted(w)
    ensures Accounted(Step(w, Arrive(cost, priority, late)))
  {
    var s := w.pool;
    assert s.nextTicket !in w.phase;
    var (next, ticket) := Register(s, cost, priority, late);
    if ticket.Some? {
      SoundAfterJoin(s, next, Waiter(s.nextTicket, cost, priority, 0));
    }
  }

  lemma AccountedArriveForResource(w: World)
    requires Accounted(w)
    ensures Accounted(Step(w, ArriveForResource))
  {
    var s := w.pool;
    assert s.nextTicket !in s.resourceWaiting && s.nextTicket !in w.phase && s.nextTicket !in w.fate;
  }

  lemma AccountedMove(w: World, t: nat, cost: nat, priority: Priority)
    requires Accounted(w) && t in w.pool.resourceWaiting
    ensures Accounted(Step(w, MoveToQueue(t, cost, priority)))
  {
    var s := w.pool;
    assert t !in w.phase;
    SoundAfterJoin(s, HandOff(s, t, cost, priority), Waiter(t, cost, priority, 0));
    WithoutTicketIs(s.resourceWaiting, t);
  }

  lemma AccountedLeaveResource(w: World, t: nat, cancelled: bool)
    requires Accounted(w) && t in w.pool.resourceWaiting
    ensures Accounted(Step(w, LeaveResource(t, cancelled)))
  {
    WithoutTicketIs(w.pool.resourceWaiting, t);
    assert t < w.pool.nextTicket && t !in w.phase;
  }

  lemma AccountedPoll(w: World, t: nat, late: bool)
    requires Accounted(w) && Enabled(w, PollBy(t, late))
    ensures Accounted(Step(w, PollBy(t, late)))
  {
    PollFrame(w.pool, t, late);
  }

  lemma AccountedDepart(w: World, t: nat, fate: Fate)
    requires Accounted(w) && t in w.phase
    ensures Accounted(Depart(w, t, fate))
  {
    SoundAfterDepart(w.pool, t, fate == Cancelled);
    WithoutHolds(w.pool.waiting, t);
  }

  lemma AccountedStep(w: World, e: Event)
    requires Accounted(w) && Enabled(w, e)
    ensures Accounted(Step(w, e))
  {
    match e
    case Arrive(cost, priority, late) => AccountedArrive(w, cost, priority, late);
    case ArriveForResource => AccountedArriveForResource(w);
    case MoveToQueue(t, cost, priority) => AccountedMove(w, t, cost, priority);
    case LeaveResource(t, cancelled) => AccountedLeaveResource(w, t, cancelled);
    case PollBy(t, late) => AccountedPoll(w, t, late);
    case GuardDrops(t) => AccountedDepart(w, t, TimedOut);
    case Cancel(t) => AccountedDepart(w, t, Cancelled);
    case _ =>
  }

  // ---------------------------------------------------------------- capacity is conserved

  lemma {:induction false} UnitsAppend(a: seq<Permit>, b: seq<Permit>)
    ensures Units(a + b) == Units(a) + Units(b)
  {
    if a == [] {
      assert a + b == b;
    } else {
      assert (a + b)[1..] == a[1..] + b;
      UnitsAppend(a[1..], b);
    }
  }

  lemma UnitsRemove(ps: seq<Permit>, i: nat)
    requires i < |ps|
    ensures Units(ps[..i] + ps[i + 1..]) + ps[i].units == Units(ps)
  {
    UnitsAppend(ps[..i], ps[i + 1..]);
    UnitsAppend(ps[..i], ps[i..]);
    assert ps[..i] + ps[i..] == ps;
    assert ps[i..][1..] == ps[i + 1..];
  }

  lemma ConservedPoll(w: World, t: nat, late: bool)
    requires Accounted(w) && Conserved(w) && Enabled(w, PollBy(t, late))
    ensures Conserved(Step(w, PollBy(t, late)))
  {
    PollFrame(w.pool, t, late);
    var outcome := Poll(w.pool, t, late).1;
    if outcome.Claimed? {
      UnitsAppend(w.permits, [Permit(t, outcome.units)]);
    }
  }

  lemma ConservedRelease(w: World, i: nat)
    requires Accounted(w) && Conserved(w) && i < |w.permits|
    ensures Conserved(Step(w, Release(i)))
  {
    UnitsRemove(w.permits, i);
  }

  lemma ConservedStep(w: World, e: Event)
    requires Accounted(w) && Conserved(w) && Enabled(w, e)
    ensures Conserved(Step(w, e))
  {
    match e
    case PollBy(t, late) => ConservedPoll(w, t, late);
    case Release(i) => ConservedRelease(w, i);
    case _ =>
  }

  // ---------------------------------------------------------------- counters count tickets

  lemma FateAdded(fate: map<nat, Fate>, t: nat, f: Fate, g: Fate)
    requires t !in fate
    ensures FateCount(fate[t := f], g) == FateCount(fate, g) + if f == g then 1 else 0
  {
    if f == g {
      OneMore(Fated(fate, g), Fated(fate[t := f], g), t);
    } else {
      assert Fated(fate[t := f], g) == Fated(fate, g);
    }
  }

  lemma OneMore(a: set<nat>, b: set<nat>, t: nat)
    requires t !in a && forall x :: x in b <==> x in a || x == t
    ensures |b| == |a| + 1
  {
    assert b == a + {t};
  }

  lemma CountedPoll(w: World, t: nat, late: bool)
    requires Accounted(w) && Counted(w) && Enabled(w, PollBy(t, late))
    ensures Counted(Step(w, PollBy(t, late)))
  {
    PollFrame(w.pool, t, late);
    OfferFrame(w.pool);
    FateAdded(w.fate, t, Admitted, Admitted);
    FateAdded(w.fate, t, Admitted, Cancelled);
  }

  lemma CountedStep(w: World, e: Event)
    requires Accounted(w) && Counted(w) && Enabled(w, e)
    ensures Counted(Step(w, e))
  {
    match e
    case PollBy(t, late) => CountedPoll(w, t, late);
    case LeaveResource(t, cancelled) =>
      var f := if cancelled then Cancelled else Finished;
      FateAdded(w.fate, t, f, Admitted);
      FateAdded(w.fate, t, f, Cancelled);
    case GuardDrops(t) =>
      FateAdded(w.fate, t, TimedOut, Admitted);
      FateAdded(w.fate, t, TimedOut, Cancelled);
    case Cancel(t) =>
      FateAdded(w.fate, t, Cancelled, Admitted);
      FateAdded(w.fate, t, Cancelled, Cancelled);
    case _ =>
  }

  // ---------------------------------------------------------------- no wake-up is lost

  lemma NoLostWakeUpNotify(w: World)
    requires Accounted(w) && w.owed > 0
    ensures NoLostWakeUp(Step(w, Notify))
  {
    var after := Step(w, Notify);
    if after.owed == 0 && (forall t :: t in after.phase ==> after.phase[t] != Leaving) {
      assert forall t :: t in after.phase ==> after.phase[t] == Ready;
      assert GrantClaimable(w.pool) ==> Holds(w.pool.waiting, w.pool.granted.value);
      if Selectable(w.pool) {
        var t := w.pool.waiting[0].ticket;
        assert Holds(w.pool.waiting, t);
        assert t in after.phase && after.phase[t] == Ready;
      }
    }
  }

  /** A poll that neither claimed nor chose leaves nothing undone that anyone asleep should do. */
  lemma NoLostWakeUpIdlePoll(w: World, t: nat)
    requires Accounted(w) && NoLostWakeUp(w) && Enabled(w, PollBy(t, false))
    requires Poll(w.pool, t, false).1 == Pending(false)
    ensures NoLostWakeUp(Step(w, PollBy(t, false)))
  {
    var s := w.pool;
    OfferFrame(s);
    SelectFrame(s);
    var o := Offer(s).0;
    var after := Step(w, PollBy(t, false));
    assert after.pool == o == s.(credits := o.credits);
    RefillKeepsSelectable(s, o);
    if after.owed == 0 && (forall x :: x in after.phase ==> after.phase[x] != Leaving) {
      assert forall x :: x in w.phase ==> w.phase[x] != Leaving by {
        assert forall x :: x in w.phase ==> x == t || w.phase[x] == after.phase[x];
      }
      if GrantClaimable(o) {
        var i :| 0 <= i < |o.waiting| && o.waiting[i].ticket == o.granted.value && Fits(o, o.waiting[i]);
        assert s.waiting[i].ticket == s.granted.value && Fits(s, s.waiting[i]);
        assert o.granted.value != t || Position(o.waiting, t) == Some(i);
      }
    }
  }

  lemma RefillKeepsSelectable(s: State, next: State)
    requires next == s.(credits := next.credits)
    ensures Selectable(s) <==> Selectable(next)
  {
    assert forall i :: 0 <= i < |s.waiting| ==> (Fits(s, s.waiting[i]) <==> Fits(next, next.waiting[i]));
  }

  lemma NoLostWakeUpPoll(w: World, t: nat, late: bool)
    requires Accounted(w) && NoLostWakeUp(w) && Enabled(w, PollBy(t, late))
    ensures NoLostWakeUp(Step(w, PollBy(t, late)))
  {
    var after := Step(w, PollBy(t, late));
    var outcome := Poll(w.pool, t, late).1;
    if outcome.Expired? {
      assert after.phase[t] == Leaving;
    } else if outcome == Pending(false) {
      NoLostWakeUpIdlePoll(w, t);
    }
  }

  lemma NoLostWakeUpStep(w: World, e: Event)
    requires Accounted(w) && NoLostWakeUp(w) && Enabled(w, e)
    ensures NoLostWakeUp(Step(w, e))
  {
    match e
    case PollBy(t, late) => NoLostWakeUpPoll(w, t, late);
    case Notify => NoLostWakeUpNotify(w);
    case DeadlinePasses(t) => assert Step(w, e).phase[t] == Leaving;
    case _ => NoLostWakeUpQuiet(w, e);
  }

  /** Every other step either owes a notification or changes nothing a selection looks at. */
  lemma NoLostWakeUpQuiet(w: World, e: Event)
    requires Accounted(w) && NoLostWakeUp(w) && Enabled(w, e)
    requires !e.PollBy? && !e.Notify? && !e.DeadlinePasses?
    ensures NoLostWakeUp(Step(w, e))
  {
    var after := Step(w, e);
    if after.owed == 0 {
      assert after.phase == w.phase && after.pool.waiting == w.pool.waiting && after.pool.granted == w.pool.granted;
      assert forall x :: Fits(w.pool, x) <==> Fits(after.pool, x);
    }
  }

  // ---------------------------------------------------------------- bypassing is bounded

  /** Counting a selection keeps the bound: only a first reserved waiter ahead can pass a reserved one. */
  lemma BypassesByOffer(s: State, ahead: map<nat, nat>)
    requires Sound(s) && BypassesBounded(s, ahead)
    ensures BypassesBounded(Offer(s).0, ahead)
  {
    var (o, selected) := Offer(s);
    OfferFrame(s);
    SelectFrame(s);
    if selected {
      var g := Select(s).1.value;
      assert o.granted == Some(o.waiting[g].ticket);
      forall i | 0 <= i < |o.waiting| ensures BypassesPaid(o, ahead, i) {
        var x, y := s.waiting[i], o.waiting[i];
        assert BypassesPaid(s, ahead, i) && !GrantAhead(s, i);
        if y.bypasses > MAX_CAPACITY_BYPASSES && y != x {
          assert !Fits(s, x) && i != g;
          assert Reserved(x);
          assert FirstReserved(s.waiting) == Some(g) && g < i;
          assert GrantAhead(o, i);
        }
      }
    } else {
      SameQueueSameBound(s, o, ahead);
    }
  }

  /** Removing a waiter moves those behind it forward by the one place its grant counted for. */
  lemma BypassesByRemoval(a: State, b: State, ahead: map<nat, nat>, p: nat)
    requires Distinct(a.waiting) && BypassesBounded(a, ahead) && p < |a.waiting|
    requires b.waiting == a.waiting[..p] + a.waiting[p + 1..]
    requires b.granted == if a.granted == Some(a.waiting[p].ticket) then None else a.granted
    ensures BypassesBounded(b, ahead)
  {
    forall i | 0 <= i < |b.waiting| ensures BypassesPaid(b, ahead, i) {
      var k := if i < p then i else i + 1;
      assert b.waiting[i] == a.waiting[k] && BypassesPaid(a, ahead, k);
      if GrantAhead(a, k) {
        var j :| 0 <= j < k && a.granted == Some(a.waiting[j].ticket);
        if j != p {
          assert b.waiting[if j < p then j else j - 1] == a.waiting[j];
          assert GrantAhead(b, i);
        }
      }
    }
  }

  lemma BypassesByPoll(s: State, ahead: map<nat, nat>, ticket: nat, late: bool)
    requires Sound(s) && BypassesBounded(s, ahead)
    ensures BypassesBounded(Poll(s, ticket, late).0, ahead)
  {
    BypassesByOffer(s, ahead);
    OfferFrame(s);
    var o := Offer(s).0;
    var (next, outcome) := Poll(s, ticket, late);
    if outcome.Claimed? {
      BypassesByRemoval(o, next, ahead, Position(o.waiting, ticket).value);
    } else if outcome.Expired? {
      SameQueueSameBound(s, next, ahead);
    }
  }

  lemma SameQueueSameBound(a: State, b: State, ahead: map<nat, nat>)
    requires a.waiting == b.waiting && a.granted == b.granted && BypassesBounded(a, ahead)
    ensures BypassesBounded(b, ahead)
  {
    forall i | 0 <= i < |b.waiting| ensures BypassesPaid(b, ahead, i) {
      assert BypassesPaid(a, ahead, i);
      assert GrantAhead(a, i) == GrantAhead(b, i);
    }
  }

  lemma BypassesByJoin(w: World, s: State, x: Waiter)
    requires BypassesBounded(w.pool, w.ahead)
    requires s.waiting == w.pool.waiting + [x] && s.granted == w.pool.granted && x.bypasses == 0
    requires !Holds(w.pool.waiting, x.ticket)
    ensures BypassesBounded(s, w.ahead[x.ticket := |w.pool.waiting|])
  {
    var ahead := w.ahead[x.ticket := |w.pool.waiting|];
    forall i | 0 <= i < |s.waiting| ensures BypassesPaid(s, ahead, i) {
      if i < |w.pool.waiting| {
        assert BypassesPaid(w.pool, w.ahead, i) && s.waiting[i] == w.pool.waiting[i];
        if GrantAhead(w.pool, i) {
          var j :| 0 <= j < i && w.pool.granted == Some(w.pool.waiting[j].ticket);
          assert s.granted == Some(s.waiting[j].ticket);
        }
      }
    }
  }

  lemma BypassesByDeparture(s: State, ahead: map<nat, nat>, ticket: nat, count: bool)
    requires Sound(s) && BypassesBounded(s, ahead) && Holds(s.waiting, ticket)
    ensures BypassesBounded(DropWait(s, ticket, count), ahead)
  {
    WithoutIs(s.waiting, ticket);
    BypassesByRemoval(s, DropWait(s, ticket, count), ahead, Position(s.waiting, ticket).value);
  }

  lemma BypassesStep(w: World, e: Event)
    requires Accounted(w) && BypassesBounded(w.pool, w.ahead) && Enabled(w, e)
    ensures BypassesBounded(Step(w, e).pool, Step(w, e).ahead)
  {
    var s, next := w.pool, Step(w, e).pool;
    match e
    case Arrive(cost, priority, late) =>
      if Register(s, cost, priority, late).1.Some? {
        assert s.nextTicket !in w.phase;
        BypassesByJoin(w, next, Waiter(s.nextTicket, cost, priority, 0));
      } else {
        SameQueueSameBound(s, next, w.ahead);
      }
    case MoveToQueue(t, cost, priority) =>
      assert t !in w.phase;
      BypassesByJoin(w, next, Waiter(t, cost, priority, 0));
    case PollBy(t, late) => BypassesByPoll(s, w.ahead, t, late);
    case GuardDrops(t) => BypassesByDeparture(s, w.ahead, t, false);
    case Cancel(t) => BypassesByDeparture(s, w.ahead, t, true);
    case _ => SameQueueSameBound(s, next, w.ahead);
  }

  // ---------------------------------------------------------------- every run

  /** `es` can be taken from `w`, one step after another. */
  ghost predicate Runs(w: World, es: seq<Event>)
    requires Inv(w)
    decreases |es|
  {
    es == [] || (Enabled(w, es[0]) && (InvStep(w, es[0]); Runs(Step(w, es[0]), es[1..])))
  }

  /** Where the run `es` from `w` ends. */
  ghost function After(w: World, es: seq<Event>): (r: World)
    requires Inv(w) && Runs(w, es)
    ensures Inv(r)
    decreases |es|
  {
    if es == [] then w else
      InvStep(w, es[0]);
      After(Step(w, es[0]), es[1..])
  }

  /** Each step keeps accounting, conservation, wake-ups and the bypass bound. */
  lemma InvStep(w: World, e: Event)
    requires Inv(w) && Enabled(w, e)
    ensures Inv(Step(w, e))
  {
    AccountedStep(w, e);
    ConservedStep(w, e);
    CountedStep(w, e);
    NoLostWakeUpStep(w, e);
    BypassesStep(w, e);
  }

  lemma StartInv(total: nat, maxWaiters: nat)
    ensures Inv(Start(total, maxWaiters))
  {
  }

  /** What the invariant says of any state a run from an empty pool can reach. */
  lemma ReachableIsSafe(total: nat, maxWaiters: nat, es: seq<Event>, ticket: nat)
    requires Inv(Start(total, maxWaiters)) && Runs(Start(total, maxWaiters), es)
    ensures var w := After(Start(total, maxWaiters), es);
            && 1 <= w.pool.limit <= w.pool.ceiling
            && w.pool.active == Units(w.permits)
            && w.pool.inFlight == |w.permits| == w.pool.admitted - w.pool.released
            && (w.pool.granted.Some? ==> Holds(w.pool.waiting, w.pool.granted.value))
            && (ticket < w.pool.nextTicket ==>
                  (if Holds(w.pool.waiting, ticket) then 1 else 0)
                  + (if ticket in w.pool.resourceWaiting then 1 else 0)
                  + (if ticket in w.fate then 1 else 0) == 1)
            && (ticket >= w.pool.nextTicket ==>
                  !Holds(w.pool.waiting, ticket) && ticket !in w.pool.resourceWaiting && ticket !in w.fate)
  {
    var w := After(Start(total, maxWaiters), es);
    assert ticket in w.phase <==> Holds(w.pool.waiting, ticket);
  }

  /** A waiter is counted as bypassed at most six times more than the waiters it found ahead of it. */
  lemma BypassBound(w: World, i: nat)
    requires Inv(w) && i < |w.pool.waiting|
    ensures var x := w.pool.waiting[i];
            x.ticket in w.ahead && x.bypasses <= MAX_CAPACITY_BYPASSES + w.ahead[x.ticket]
  {
    assert BypassesPaid(w.pool, w.ahead, i);
    if GrantAhead(w.pool, i) {
      assert i >= 1;
    }
  }

  lemma FateStays(w: World, e: Event, ticket: nat)
    requires Accounted(w) && Enabled(w, e) && ticket in w.fate
    ensures ticket in Step(w, e).fate && Step(w, e).fate[ticket] == w.fate[ticket]
  {
    hide Select;
  }

  /** A settled ticket is settled for good: no later step queues it again or changes its fate. */
  lemma {:induction false} FateIsFinal(w: World, es: seq<Event>, ticket: nat)
    requires Inv(w) && Runs(w, es) && ticket in w.fate
    ensures ticket in After(w, es).fate && After(w, es).fate[ticket] == w.fate[ticket]
    ensures ticket !in After(w, es).phase && ticket !in After(w, es).pool.resourceWaiting
    decreases |es|
  {
    if es != [] {
      InvStep(w, es[0]);
      FateStays(w, es[0], ticket);
      FateIsFinal(Step(w, es[0]), es[1..], ticket);
    }
  }

  /** The registration guard an admitted task still holds finds nothing to undo when it drops. */
  lemma ClaimedGuardIsHarmless(w: World, ticket: nat)
    requires Inv(w) && ticket in w.fate
    ensures DropWait(w.pool, ticket, false) == w.pool
  {
    assert ticket !in w.phase;
    WithoutIs(w.pool.waiting, ticket);
  }
}
