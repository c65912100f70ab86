/**
 The admission protocol over whole runs (packages/rust-core/src/platform/admission.rs).

 A `World` is the pool together with what lives outside its mutex: where each waiting task is in its
 poll loop, the permits held, and the `notify_waiters` calls that code which has left a lock region
 still owes. Notifications are steps of their own, so everything below holds for every interleaving
 of lock regions and wake-ups. Deadlines and cancellation are nondeterministic steps.
 */
module AdmissionProtocol {
  import opened Wrappers
  import opened Admission

  /** `Ready`: a wake is pending. `Asleep`: parked until notified. `Leaving`: timed out, guard not yet dropped. */
  datatype Phase = Ready | Asleep | Leaving

  datatype Permit = Permit(ticket: nat, units: nat)

  datatype Fate = Admitted | TimedOut | Cancelled | Finished

  datatype World = World(
    pool: State,
    phase: map<nat, Phase>,
    permits: seq<Permit>,
    owed: nat,
    fate: map<nat, Fate>,
    /** How many waiters stood ahead of each ticket when it joined the slot queue. */
    ahead: map<nat, nat>)

  datatype Event =
    | Arrive(cost: nat, priority: Priority, late: bool)
    | ArriveForResource
    | MoveToQueue(ticket: nat, cost: nat, priority: Priority)
    | LeaveResource(ticket: nat, cancelled: bool)
    | PollBy(ticket: nat, late: bool)
    | DeadlinePasses(ticket: nat)
    | GuardDrops(ticket: nat)
    | Cancel(ticket: nat)
    | Release(index: nat)
    | Notify
    | ResizeLimit(to: nat)
    | ResizeCeiling(to: nat)
    | ResizeQueue(to: nat)
    | TransitionTimesOut

  function Start(total: nat, maxWaiters: nat): World {
    World(Initial(total, maxWaiters), map[], [], 0, map[], map[])
  }

  predicate Enabled(w: World, e: Event) {
    match e
    case MoveToQueue(t, _, _) => t in w.pool.resourceWaiting
    case LeaveResource(t, _) => t in w.pool.resourceWaiting
    case PollBy(t, _) => t in w.phase && w.phase[t] == Ready
    case DeadlinePasses(t) => t in w.phase && w.phase[t] == Asleep
    case GuardDrops(t) => t in w.phase && w.phase[t] == Leaving
    case Cancel(t) => t in w.phase && w.phase[t] != Leaving
    case Release(i) => i < |w.permits|
    case Notify => w.owed > 0
    case _ => true
  }

  function Wake(phase: map<nat, Phase>): map<nat, Phase> {
    map t | t in phase :: if phase[t] == Asleep then Ready else phase[t]
  }

  function Join(w: World, s: State, ticket: nat, notices: nat): World {
    w.(pool := s, phase := w.phase[ticket := Ready], owed := w.owed + notices,
       ahead := w.ahead[ticket := |w.pool.waiting|])
  }

  function Depart(w: World, ticket: nat, fate: Fate): World {
    w.(pool := DropWait(w.pool, ticket, fate == Cancelled), phase := w.phase - {ticket},
       owed := w.owed + 1, fate := w.fate[ticket := fate])
  }

  function AfterPoll(w: World, ticket: nat, s: State, outcome: PollOutcome): World {
    match outcome
    case Expired => w.(pool := s, phase := w.phase[ticket := Leaving])
    case Claimed(units, _) =>
      // Returning drops the registration guard, which finds nothing to remove and notifies.
      w.(pool := s, phase := w.phase - {ticket}, permits := w.permits + [Permit(ticket, units)],
         owed := w.owed + 1, fate := w.fate[ticket := Admitted])
    case Pending(selected) =>
      w.(pool := s, phase := w.phase[ticket := Asleep], owed := w.owed + if selected then 1 else 0)
  }

  function Step(w: World, e: Event): World
    requires Sound(w.pool) && Enabled(w, e)
  {
    match e
    case Arrive(cost, priority, late) =>
      var (s, ticket) := Register(w.pool, cost, priority, late);
      if ticket.Some? then Join(w, s, ticket.value, 1) else w.(pool := s)
    case ArriveForResource => w.(pool := RegisterResource(w.pool).0)
    case MoveToQueue(t, cost, priority) => Join(w, HandOff(w.pool, t, cost, priority), t, 2)
    case LeaveResource(t, cancelled) =>
      w.(pool := DropResource(w.pool, t, cancelled), owed := w.owed + 1,
         fate := w.fate[t := if cancelled then Cancelled else Finished])
    case PollBy(t, late) =>
      var (s, outcome) := Poll(w.pool, t, late);
      AfterPoll(w, t, s, outcome)
    case DeadlinePasses(t) => w.(pool := ExpireWait(w.pool), phase := w.phase[t := Leaving])
    case GuardDrops(t) => Depart(w, t, TimedOut)
    case Cancel(t) => Depart(w, t, Cancelled)
    case Release(i) =>
      w.(pool := DropPermit(w.pool, w.permits[i].units), permits := w.permits[..i] + w.permits[i + 1..],
         owed := w.owed + 1)
    case Notify => w.(owed := w.owed - 1, phase := Wake(w.phase))
    case ResizeLimit(l) => w.(pool := SetLimit(w.pool, l), owed := w.owed + 1)
    case ResizeCeiling(c) => w.(pool := SetCeiling(w.pool, c), owed := w.owed + 1)
    case ResizeQueue(m) => w.(pool := SetMaxWaiters(w.pool, m))
    case TransitionTimesOut => w.(pool := RecordTransitionTimeout(w.pool))
  }

  // ---------------------------------------------------------------- invariants

  /** Every issued ticket is in exactly one of: slot queue, resource queue, settled fates. */
  ghost predicate Accounted(w: World) {
    && Sound(w.pool)
    && (forall t :: t in w.phase <==> Holds(w.pool.waiting, t))
    && NoRepeats(w.pool.resourceWaiting)
    && (forall t: nat :: t < w.pool.nextTicket <==> t in w.phase || t in w.pool.resourceWaiting || t in w.fate)
    && (forall t :: t in w.phase ==> t !in w.pool.resourceWaiting && t !in w.fate)
    && (forall t :: t in w.pool.resourceWaiting ==> t !in w.fate)
  }

  ghost function Units(permits: seq<Permit>): nat {
    if permits == [] then 0 else permits[0].units + Units(permits[1..])
  }

  /** Charged units are exactly the units of the permits held, and the counters agree with them. */
  ghost predicate Conserved(w: World) {
    && w.pool.active == Units(w.permits)
    && w.pool.inFlight == |w.permits|
    && w.pool.admitted == w.pool.released + w.pool.inFlight
    && (forall i :: 0 <= i < |w.permits| ==> w.permits[i].units >= 1)
  }

  ghost function Fated(fate: map<nat, Fate>, f: Fate): set<nat> { set t | t in fate && fate[t] == f }

  ghost function FateCount(fate: map<nat, Fate>, f: Fate): nat { |Fated(fate, f)| }

  /** The counters count tickets: each admission and each cancellation is one settled ticket. */
  ghost predicate Counted(w: World) {
    && w.pool.admitted == FateCount(w.fate, Admitted)
    && w.pool.queueCancellations == FateCount(w.fate, Cancelled)
  }

  /** Somebody could take a step on the slot queue: claim the grant, or make a selection. */
  ghost predicate GrantClaimable(s: State) {
    s.granted.Some? && exists i :: 0 <= i < |s.waiting| && s.waiting[i].ticket == s.granted.value && Fits(s, s.waiting[i])
  }

  ghost predicate SomeReady(w: World) {
    exists t :: t in w.phase && w.phase[t] == Ready
  }

  /** Once no notification is owed, whoever can take the possible step has a pending wake. */
  ghost predicate NoLostWakeUp(w: World) {
    w.owed == 0 && (forall t :: t in w.phase ==> w.phase[t] != Leaving) ==>
      && (GrantClaimable(w.pool) ==> w.pool.granted.value in w.phase && w.phase[w.pool.granted.value] == Ready)
      && (w.pool.granted.None? && Selectable(w.pool) ==> SomeReady(w))
  }

  /** The grant is owned by a waiter that stands ahead of queue position `i`. */
  ghost predicate GrantAhead(s: State, i: nat)
    requires i <= |s.waiting|
  {
    exists j :: 0 <= j < i && s.granted == Some(s.waiting[j].ticket)
  }

  /** Bypasses past the sixth are paid for, one each, by waiters that stood ahead and are gone or granted. */
  ghost predicate BypassesBounded(s: State, ahead: map<nat, nat>) {
    forall i :: 0 <= i < |s.waiting| ==> BypassesPaid(s, ahead, i)
  }

  ghost predicate BypassesPaid(s: State, ahead: map<nat, nat>, i: nat)
    requires i < |s.waiting|
  {
    var x := s.waiting[i];
    && x.ticket in ahead
    && i <= ahead[x.ticket]
    && (x.bypasses <= MAX_CAPACITY_BYPASSES
        || x.bypasses + i <= MAX_CAPACITY_BYPASSES + ahead[x.ticket] + if GrantAhead(s, i) then 1 else 0)
  }

  ghost predicate Inv(w: World) {
    Accounted(w) && Conserved(w) && Counted(w) && NoLostWakeUp(w) && BypassesBounded(w.pool, w.ahead)
  }

  // ---------------------------------------------------------------- queue lemmas

  lemma WithoutHolds(ws: seq<Waiter>, ticket: nat)
    requires Distinct(ws)
    ensures Distinct(Without(ws, ticket))
    ensures forall t :: Holds(Without(ws, ticket), t) <==> t != ticket && Holds(ws, t)
  {
    WithoutIs(ws, ticket);
    var r := Without(ws, ticket);
    if Holds(ws, ticket) {
      var p := Position(ws, ticket).value;
      forall t ensures Holds(r, t) <==> t != ticket && Holds(ws, t) {
        if t != ticket && Holds(ws, t) {
          var i :| 0 <= i < |ws| && ws[i].ticket == t;
          assert r[if i < p then i else i - 1].ticket == t;
        }
        if Holds(r, t) {
          var i :| 0 <= i < |r| && r[i].ticket == t;
          assert ws[if i < p then i else i + 1].ticket == t;
        }
      }
    }
  }

  lemma AppendHolds(ws: seq<Waiter>, x: Waiter)
    ensures forall t :: Holds(ws + [x], t) <==> t == x.ticket || Holds(ws, t)
  {
    forall t ensures Holds(ws + [x], t) <==> t == x.ticket || Holds(ws, t) {
      assert (ws + [x])[|ws|] == x;
      if Holds(ws, t) {
        var i :| 0 <= i < |ws| && ws[i].ticket == t;
        assert (ws + [x])[i].ticket == t;
      }
    }
  }

  predicate NoRepeats(ts: seq<nat>) {
    forall i, j :: 0 <= i < j < |ts| ==> ts[i] != ts[j]
  }

  lemma {:induction false} WithoutTicketIs(ts: seq<nat>, ticket: nat)
    requires NoRepeats(ts)
    ensures forall t :: t in WithoutTicket(ts, ticket) <==> t != ticket && t in ts
    ensures NoRepeats(WithoutTicket(ts, ticket))
  {
    if ts != [] {
      var rest := ts[1..];
      assert forall i :: 0 <= i < |rest| ==> rest[i] == ts[i + 1];
      WithoutTicketIs(rest, ticket);
      assert ts == [ts[0]] + rest;
      assert ts[0] !in rest;
    }
  }

  /** Two queues with the same tickets in the same places. */
  ghost predicate SameTickets(a: seq<Waiter>, b: seq<Waiter>) {
    && |a| == |b|
    && forall i :: 0 <= i < |a| ==>
         a[i].ticket == b[i].ticket && a[i].cost == b[i].cost && a[i].priority == b[i].priority
  }

  lemma SameTicketsHold(a: seq<Waiter>, b: seq<Waiter>)
    requires SameTickets(a, b)
    ensures forall t :: Holds(a, t) <==> Holds(b, t)
    ensures Distinct(a) <==> Distinct(b)
  {
    forall t ensures Holds(a, t) <==> Holds(b, t) {
      if Holds(a, t) {
        var i :| 0 <= i < |a| && a[i].ticket == t;
        assert b[i].ticket == t;
      }
      if Holds(b, t) {
        var i :| 0 <= i < |b| && b[i].ticket == t;
        assert a[i].ticket == t;
      }
    }
    if Distinct(a) {
      forall i, j | 0 <= i < j < |b| ensures b[i].ticket != b[j].ticket {
        assert a[i].ticket != a[j].ticket;
      }
    }
    if Distinct(b) {
      forall i, j | 0 <= i < j < |a| ensures a[i].ticket != a[j].ticket {
        assert b[i].ticket != b[j].ticket;
      }
    }
  }

  /** An offer keeps everything but credits, bypass counts and the grant. */
  lemma OfferFrame(s: State)
    requires Sound(s)
    ensures var (o, selected) := Offer(s);
            && Sound(o) && SameTickets(s.waiting, o.waiting)
            && o == s.(credits := o.credits, waiting := o.waiting, granted := o.granted)
            && (!selected ==> o.waiting == s.waiting && o.granted == s.granted)
            && (selected ==> s.granted.None? && o.granted.Some? && Holds(o.waiting, o.granted.value))
            && (selected <==> s.granted.None? && Selectable(s))
            && (selected ==> GrantClaimable(o))
  {
    SelectFrame(s);
    SelectFindsExactly(s);
    SelectIndexInRange(s);
    var (o, selected) := Offer(s);
    SameTicketsHold(s.waiting, o.waiting);
    if selected {
      var i := Select(s).1.value;
      assert o.waiting[i].ticket == o.granted.value;
      assert Fits(s, s.waiting[i]);
      assert Fits(o, o.waiting[i]);
    }
  }

  /** A claim never pushes the charged units past the limit in force when it is made. */
  lemma ClaimWithinLimit(s: State, ticket: nat)
    requires Sound(s) && Poll(s, ticket, false).1.Claimed?
    ensures var (next, outcome) := Poll(s, ticket, false);
            && next.active == s.active + outcome.units
            && outcome.units >= 1
            && next.limit == s.limit && next.active <= next.limit
  {
    OfferFrame(s);
  }
}
