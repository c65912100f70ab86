/**
 What a task is charged and who is chosen, said of the numbers alone
 (packages/rust-core/src/platform/admission.rs, lines 51 to 59, 196 to 222, 333 to 380 and 419 to 480).

 A request of cost `c` takes `c` units, but one at least and never more than the whole limit; nobody else's
 cost, no priority and no earlier charge enters. Units that are free go to whoever may have them.
 */
module AdmissionCharge {
  import opened Wrappers
  import opened Admission
  import opened AdmissionProtocol
  import opened AdmissionInvariants
  import opened AdmissionService

  /** What a request of this cost takes under this limit. */
  function UnitsFor(cost: nat, limit: nat): nat {
    if cost == 0 then 1 else if cost > limit then limit else cost
  }

  /** There is room for it now. */
  predicate HasRoom(s: State, x: Waiter) { s.active + UnitsFor(x.cost, s.limit) <= s.limit }

  function Rank(p: Priority): nat { if p == Interactive then 0 else if p == Normal then 1 else 2 }

  lemma RoomIsFit(s: State, x: Waiter)
    requires 1 <= s.limit
    ensures HasRoom(s, x) <==> Fits(s, x)
    ensures Charge(s, x.cost) == UnitsFor(x.cost, s.limit)
  {
  }

  // ---------------------------------------------------------------- a claim

  /** A claim charges its own cost, raised to one and cut to the limit, and takes exactly its waiter out. */
  lemma ClaimCharges(s: State, i: nat)
    requires Sound(s) && i < |s.waiting| && Poll(s, s.waiting[i].ticket, false).1.Claimed?
    ensures var (next, outcome) := Poll(s, s.waiting[i].ticket, false);
            var cost := s.waiting[i].cost;
            && outcome.units == (if cost == 0 then 1 else if cost <= s.limit then cost else s.limit)
            && next.active == s.active + outcome.units <= s.limit == next.limit
            && next.granted == None && |next.waiting| == |s.waiting| - 1
            && (forall j :: 0 <= j < i ==> next.waiting[j].ticket == s.waiting[j].ticket)
            && (forall j :: i <= j < |next.waiting| ==> next.waiting[j].ticket == s.waiting[j + 1].ticket)
  {
    OfferFrame(s);
    ClaimWithinLimit(s, s.waiting[i].ticket);
    var o := Offer(s).0;
    assert o.limit == s.limit && o.active == s.active && SameTickets(s.waiting, o.waiting) && Distinct(o.waiting);
    hide Offer, Select, Fits, Charge, Sound, Holds;
    RoomIsFit(o, o.waiting[i]);
    assert Position(o.waiting, s.waiting[i].ticket) == Some(i);
  }

  // ---------------------------------------------------------------- the choice

  predicate Waits(x: Waiter) { x.bypasses < 6 }

  /** The class credits a choice is made from: those left, unless nobody with room has one; then three, two and one. */
  function CreditsUsed(s: State): seq<nat>
    requires |s.credits| == 3
  {
    if exists i :: 0 <= i < |s.waiting| && HasRoom(s, s.waiting[i]) && s.credits[Rank(s.waiting[i].priority)] > 0
    then s.credits else [3, 2, 1]
  }

  /** The oldest of its class with room, and no better class with a credit has anyone with room. */
  ghost predicate Deserves(s: State, credits: seq<nat>, i: nat)
    requires |credits| == 3 && i < |s.waiting|
  {
    var rank := Rank(s.waiting[i].priority);
    && HasRoom(s, s.waiting[i]) && credits[rank] > 0
    && (forall j :: 0 <= j < i && Rank(s.waiting[j].priority) == rank ==> !HasRoom(s, s.waiting[j]))
    && (forall j :: 0 <= j < |s.waiting| && Rank(s.waiting[j].priority) < rank && HasRoom(s, s.waiting[j]) ==>
          credits[Rank(s.waiting[j].priority)] == 0)
  }

  lemma EligibleIs(s: State)
    requires 1 <= s.limit
    ensures forall i, c :: 0 <= i < |s.waiting| ==>
              (Eligible(s, s.waiting[i], c) <==> Rank(s.waiting[i].priority) == c && HasRoom(s, s.waiting[i]))
  {
    forall i, c | 0 <= i < |s.waiting|
      ensures Eligible(s, s.waiting[i], c) <==> Rank(s.waiting[i].priority) == c && HasRoom(s, s.waiting[i])
    {
      RoomIsFit(s, s.waiting[i]);
    }
  }

  /** A choice from credits as they stand. */
  lemma CreditRule(s: State)
    requires Sound(s)
    ensures SelectByCredit(s).None? <==>
            forall i :: 0 <= i < |s.waiting| && HasRoom(s, s.waiting[i]) ==> s.credits[Rank(s.waiting[i].priority)] == 0
    ensures SelectByCredit(s).Some? ==>
              && SelectByCredit(s).value.1 < |s.waiting| && Deserves(s, s.credits, SelectByCredit(s).value.1)
              && var rank := Rank(s.waiting[SelectByCredit(s).value.1].priority);
                 SelectByCredit(s).value.0.credits == s.credits[rank := s.credits[rank] - 1]
  {
    hide HasRoom, Fits;
    EligibleIs(s);
    forall i | 0 <= i < |s.waiting| && HasRoom(s, s.waiting[i])
      ensures Rank(s.waiting[i].priority) < 3 && FirstFit(s, Rank(s.waiting[i].priority)).Some?
    {
      assert Eligible(s, s.waiting[i], Rank(s.waiting[i].priority));
    }
    if PickClass(s, 0).Some? {
      var kind := PickClass(s, 0).value;
      var g := FirstFit(s, kind).value;
      assert Eligible(s, s.waiting[g], kind);
    }
  }

  /** Without a reservation: somebody is chosen exactly if somebody has room, and it is who deserves it. */
  lemma ChoiceExactly(s: State)
    requires Sound(s) && forall i :: 0 <= i < |s.waiting| ==> Waits(s.waiting[i])
    ensures var (next, chosen) := Select(s);
            && (chosen.Some? <==> exists i :: 0 <= i < |s.waiting| && HasRoom(s, s.waiting[i]))
            && (chosen.Some? ==>
                  && chosen.value < |s.waiting| && Deserves(s, CreditsUsed(s), chosen.value)
                  && var rank := Rank(s.waiting[chosen.value].priority);
                     next.credits == CreditsUsed(s)[rank := CreditsUsed(s)[rank] - 1])
  {
    hide HasRoom, Deserves, SelectByCredit;
    NoneReserved(s);
    CreditRule(s);
    var refilled := s.(credits := PRIORITY_WEIGHTS);
    CreditRule(refilled);
    SameRoom(s, refilled);
  }

  lemma NoneReserved(s: State)
    requires forall i :: 0 <= i < |s.waiting| ==> Waits(s.waiting[i])
    ensures FirstReserved(s.waiting).None?
  {
  }

  lemma SameRoom(s: State, t: State)
    requires s.active == t.active && s.limit == t.limit && s.waiting == t.waiting
    ensures forall x :: HasRoom(s, x) <==> HasRoom(t, x)
    ensures forall credits, i :: |credits| == 3 && 0 <= i < |s.waiting| ==> (Deserves(s, credits, i) <==> Deserves(t, credits, i))
  {
  }

  /** With a reservation the oldest reserved waiter is chosen if it has room, and nobody otherwise. */
  lemma ReservedChoiceExactly(s: State, r: nat)
    requires Sound(s) && r < |s.waiting| && !Waits(s.waiting[r]) && forall i :: 0 <= i < r ==> Waits(s.waiting[i])
    ensures Select(s).1 == if HasRoom(s, s.waiting[r]) then Some(r) else None
  {
    RoomIsFit(s, s.waiting[r]);
  }

  /** A choice counts as passed over exactly those that have no room, and stops counting at 255. */
  lemma PassedOverExactly(s: State, i: nat)
    requires Sound(s) && i < |s.waiting| && Select(s).1.Some?
    ensures var x := s.waiting[i];
            Select(s).0.waiting[i]
            == if HasRoom(s, x) then x else x.(bypasses := if x.bypasses + 1 <= 255 then x.bypasses + 1 else 255)
  {
    SelectFrame(s);
  }

  // ---------------------------------------------------------------- along a run

  /** Whoever waits under this ticket asked for this much, at this priority. */
  ghost predicate AskedFor(ws: seq<Waiter>, ticket: nat, cost: nat, priority: Priority) {
    forall i :: 0 <= i < |ws| && ws[i].ticket == ticket ==> ws[i].cost == cost && ws[i].priority == priority
  }

  lemma AskedAfterPoll(s: State, t: nat, late: bool, ticket: nat, cost: nat, priority: Priority)
    requires Sound(s) && AskedFor(s.waiting, ticket, cost, priority)
    ensures AskedFor(Poll(s, t, late).0.waiting, ticket, cost, priority)
  {
    OfferFrame(s);
    hide Select, Offer, Fits, AskedFor, Sound;
    var ws, next := Offer(s).0.waiting, Poll(s, t, late).0.waiting;
    SameAsked(s.waiting, ws, ticket, cost, priority);
    if !late && Poll(s, t, late).1.Claimed? {
      AskedAfterRemoval(ws, Position(ws, t).value, ticket, cost, priority);
    }
  }

  lemma SameAsked(a: seq<Waiter>, b: seq<Waiter>, ticket: nat, cost: nat, priority: Priority)
    requires SameTickets(a, b) && AskedFor(a, ticket, cost, priority)
    ensures AskedFor(b, ticket, cost, priority)
  {
  }

  lemma AskedAfterRemoval(ws: seq<Waiter>, p: nat, ticket: nat, cost: nat, priority: Priority)
    requires p < |ws| && AskedFor(ws, ticket, cost, priority)
    ensures AskedFor(ws[..p] + ws[p + 1..], ticket, cost, priority)
  {
  }

  lemma AskedAfterDeparture(ws: seq<Waiter>, t: nat, ticket: nat, cost: nat, priority: Priority)
    requires Distinct(ws) && AskedFor(ws, ticket, cost, priority)
    ensures AskedFor(Without(ws, t), ticket, cost, priority)
  {
    WithoutIs(ws, t);
  }

  /** No step changes what a waiter asked for, and nobody joins under a ticket that is queued or settled. */
  lemma AskedForStays(w: World, e: Event, ticket: nat, cost: nat, priority: Priority)
    requires Accounted(w) && Enabled(w, e) && AskedFor(w.pool.waiting, ticket, cost, priority)
    requires ticket in w.phase || ticket in w.fate
    ensures AskedFor(Step(w, e).pool.waiting, ticket, cost, priority)
  {
    hide AskedFor, Poll;
    assert Distinct(w.pool.waiting);
    match e
    case PollBy(t, late) => AskedAfterPoll(w.pool, t, late, ticket, cost, priority);
    case GuardDrops(t) => AskedAfterDeparture(w.pool.waiting, t, ticket, cost, priority);
    case Cancel(t) => AskedAfterDeparture(w.pool.waiting, t, ticket, cost, priority);
    case Arrive(c, p, late) => AskedAfterJoin(w.pool.waiting, Waiter(w.pool.nextTicket, c, p, 0), ticket, cost, priority);
    case MoveToQueue(t, c, p) => AskedAfterJoin(w.pool.waiting, Waiter(t, c, p, 0), ticket, cost, priority);
    case _ =>
  }

  lemma AskedAfterJoin(ws: seq<Waiter>, x: Waiter, ticket: nat, cost: nat, priority: Priority)
    requires AskedFor(ws, ticket, cost, priority) && x.ticket != ticket
    ensures AskedFor(ws + [x], ticket, cost, priority)
  {
  }

  lemma {:induction false} AskedForAlong(w: World, es: seq<Event>, ticket: nat, cost: nat, priority: Priority)
    requires Inv(w) && Runs(w, es) && AskedFor(w.pool.waiting, ticket, cost, priority) && (ticket in w.phase || ticket in w.fate)
    ensures AskedFor(After(w, es).pool.waiting, ticket, cost, priority)
    decreases |es|
  {
    hide AskedFor, Step;
    if es != [] {
      InvStep(w, es[0]);
      AskedForStays(w, es[0], ticket, cost, priority);
      StillKnown(w, es[0], ticket);
      AskedForAlong(Step(w, es[0]), es[1..], ticket, cost, priority);
    }
  }

  /** The step puts a task into the slot queue: a new arrival, or one that waited for resources. */
  predicate Joins(w: World, e: Event) {
    match e
    case Arrive(cost, priority, late) => Register(w.pool, cost, priority, late).1.Some?
    case MoveToQueue(t, _, _) => t in w.pool.resourceWaiting
    case _ => false
  }

  function JoinsAs(w: World, e: Event): nat
    requires Joins(w, e)
  {
    if e.Arrive? then w.pool.nextTicket else e.ticket
  }

  /**
   What was asked for on joining is what waits, and what is charged at the claim, however long the wait and whatever
   happened meanwhile: one at least, and no more than the limit in force at the claim.
   */
  lemma ChargedAsAsked(w: World, es: seq<Event>)
    requires Inv(w) && Runs(w, es) && es != [] && Joins(w, es[0])
    requires var ticket, last := JoinsAs(w, es[0]), After(w, es);
             ticket in last.phase && last.phase[ticket] == Ready && Poll(last.pool, ticket, false).1.Claimed?
    ensures var ticket, last, cost := JoinsAs(w, es[0]), After(w, es), es[0].cost;
            && Enabled(last, PollBy(ticket, false)) && AskedFor(last.pool.waiting, ticket, cost, es[0].priority)
            && var limit, next := last.pool.limit, Step(last, PollBy(ticket, false));
               && next.permits == last.permits + [Permit(ticket, if cost == 0 then 1 else if cost > limit then limit else cost)]
               && next.pool.active == last.pool.active + next.permits[|last.permits|].units <= limit
  {
    var ticket, last := JoinsAs(w, es[0]), After(w, es);
    InvStep(w, es[0]);
    Joined(w, es[0]);
    AskedForAlong(Step(w, es[0]), es[1..], ticket, es[0].cost, es[0].priority);
    ClaimStep(last, ticket, es[0].cost, es[0].priority);
  }

  lemma ClaimStep(w: World, ticket: nat, cost: nat, priority: Priority)
    requires Accounted(w) && AskedFor(w.pool.waiting, ticket, cost, priority)
    requires ticket in w.phase && w.phase[ticket] == Ready && Poll(w.pool, ticket, false).1.Claimed?
    ensures Enabled(w, PollBy(ticket, false))
    ensures var limit, next := w.pool.limit, Step(w, PollBy(ticket, false));
            && next.permits == w.permits + [Permit(ticket, if cost == 0 then 1 else if cost > limit then limit else cost)]
            && next.pool.active == w.pool.active + next.permits[|w.permits|].units <= limit
  {
    hide Poll;
    var i :| 0 <= i < |w.pool.waiting| && w.pool.waiting[i].ticket == ticket;
    ClaimCharges(w.pool, i);
  }

  lemma Joined(w: World, e: Event)
    requires Inv(w) && Joins(w, e) && Enabled(w, e)
    ensures JoinsAs(w, e) in Step(w, e).phase && AskedFor(Step(w, e).pool.waiting, JoinsAs(w, e), e.cost, e.priority)
  {
    var ws := w.pool.waiting;
    assert !Holds(ws, JoinsAs(w, e));
    forall i | 0 <= i < |ws| ensures ws[i].ticket != JoinsAs(w, e) { assert Holds(ws, ws[i].ticket); }
  }

  lemma StillKnown(w: World, e: Event, ticket: nat)
    requires Inv(w) && Enabled(w, e) && (ticket in w.phase || ticket in w.fate)
    ensures ticket in Step(w, e).phase || ticket in Step(w, e).fate
  {
    hide Select, Offer, Fits;
  }

  // ---------------------------------------------------------------- room for all

  /** What all that wait take together. */
  function TotalUnits(ws: seq<Waiter>, limit: nat): nat {
    if ws == [] then 0 else UnitsFor(ws[0].cost, limit) + TotalUnits(ws[1..], limit)
  }

  lemma {:induction false} TotalWithout(ws: seq<Waiter>, limit: nat, i: nat)
    requires i < |ws|
    ensures TotalUnits(ws[..i] + ws[i + 1..], limit) == TotalUnits(ws, limit) - UnitsFor(ws[i].cost, limit)
    decreases i
  {
    if i == 0 {
      assert ws[..0] + ws[1..] == ws[1..];
    } else {
      var rest := ws[..i] + ws[i + 1..];
      assert rest[0] == ws[0] && rest[1..] == ws[1..][..i - 1] + ws[1..][i..];
      TotalWithout(ws[1..], limit, i - 1);
    }
  }

  lemma {:induction false} TotalAppend(ws: seq<Waiter>, limit: nat, x: Waiter)
    ensures TotalUnits(ws + [x], limit) == TotalUnits(ws, limit) + UnitsFor(x.cost, limit)
  {
    if ws == [] {
      assert [x][1..] == [];
      assert ws + [x] == [x];
    } else {
      assert (ws + [x])[0] == ws[0] && (ws + [x])[1..] == ws[1..] + [x];
      TotalAppend(ws[1..], limit, x);
    }
  }

  lemma {:induction false} EachWithin(ws: seq<Waiter>, limit: nat, i: nat)
    requires i < |ws|
    ensures UnitsFor(ws[i].cost, limit) <= TotalUnits(ws, limit)
    decreases i
  {
    if i > 0 { EachWithin(ws[1..], limit, i - 1); }
  }

  /** Nobody has been passed over, and there is room for all of them at once. */
  ghost predicate Roomy(s: State) {
    && Sound(s) && s.active + TotalUnits(s.waiting, s.limit) <= s.limit
    && forall i :: 0 <= i < |s.waiting| ==> s.waiting[i].bypasses == 0
  }

  /** With room for all, a pass by any waiter grants somebody, passes over nobody, and claims if it is its own turn. */
  lemma RoomyPoll(s: State, i: nat)
    requires Roomy(s) && i < |s.waiting|
    ensures var (next, outcome) := Poll(s, s.waiting[i].ticket, false);
            && Roomy(next) && next.limit == s.limit && next.released == s.released && next.resourceWaiting == s.resourceWaiting
            && (outcome.Claimed? ==>
                  && outcome.units == UnitsFor(s.waiting[i].cost, s.limit)
                  && next.active == s.active + outcome.units && next.inFlight == s.inFlight + 1
                  && next.waiting == s.waiting[..i] + s.waiting[i + 1..])
            && (!outcome.Claimed? ==>
                  && outcome.Pending? && next.active == s.active && next.inFlight == s.inFlight && next.waiting == s.waiting
                  && next.granted.Some? && next.granted != Some(s.waiting[i].ticket))
            && (s.granted == Some(s.waiting[i].ticket) ==> outcome.Claimed?)
  {
    hide Select, TotalUnits, Fits, Charge, Position;
    forall j | 0 <= j < |s.waiting| ensures HasRoom(s, s.waiting[j]) && Fits(s, s.waiting[j]) {
      EachWithin(s.waiting, s.limit, j);
      RoomIsFit(s, s.waiting[j]);
    }
    var o := Offer(s).0;
    OfferFrame(s);
    OfferPassesNobody(s);
    TotalWithout(s.waiting, s.limit, i);
    RoomIsFit(s, s.waiting[i]);
    assert o.waiting == s.waiting;
    assert Position(s.waiting, s.waiting[i].ticket) == Some(i);
    assert Fits(o, o.waiting[i]) && Charge(o, o.waiting[i].cost) == UnitsFor(s.waiting[i].cost, s.limit) by {
      RoomIsFit(o, o.waiting[i]);
    }
  }

  lemma OfferPassesNobody(s: State)
    requires Sound(s) && s.waiting != [] && forall j :: 0 <= j < |s.waiting| ==> HasRoom(s, s.waiting[j])
    requires forall j :: 0 <= j < |s.waiting| ==> s.waiting[j].bypasses == 0
    ensures Offer(s).0.waiting == s.waiting && Offer(s).0.granted.Some?
  {
    hide Select, HasRoom;
    if s.granted.None? {
      ChoiceExactly(s);
      assert HasRoom(s, s.waiting[0]);
      OfferSelected(s);
      forall j | 0 <= j < |s.waiting| ensures Offer(s).0.waiting[j] == s.waiting[j] {
        PassedOverExactly(s, j);
      }
    }
  }

  lemma OfferSelected(s: State)
    requires Sound(s) && s.granted.None? && Select(s).1.Some?
    ensures Offer(s).0.waiting == Select(s).0.waiting && |Select(s).0.waiting| == |s.waiting| && Offer(s).0.granted.Some?
  {
    SelectIndexInRange(s);
  }

  function SumUnits(costs: seq<nat>, limit: nat): nat {
    if costs == [] then 0 else SumUnits(costs[..|costs| - 1], limit) + UnitsFor(costs[|costs| - 1], limit)
  }

  /** The tasks asked for `costs`, one ticket each in order; `charged` is what those that run were charged. */
  ghost predicate Served(s: State, costs: seq<nat>, charged: map<nat, nat>) {
    && Roomy(s) && s.released == 0
    && s.active + TotalUnits(s.waiting, s.limit) == SumUnits(costs, s.limit)
    && s.inFlight + |s.waiting| == |costs|
    && (forall i :: 0 <= i < |s.waiting| ==>
          s.waiting[i].ticket < |costs| && s.waiting[i].cost == costs[s.waiting[i].ticket] && s.waiting[i].ticket !in charged)
    && (forall t :: t in charged ==> t < |costs| && charged[t] == UnitsFor(costs[t], s.limit))
    && (forall t: nat :: t < |costs| ==> t in charged || Holds(s.waiting, t))
  }

  lemma ServedNext(s: State, costs: seq<nat>, charged: map<nat, nat>, i: nat)
    requires Served(s, costs, charged) && i < |s.waiting| && Poll(s, s.waiting[i].ticket, false).1.Claimed?
    ensures var (next, outcome) := Poll(s, s.waiting[i].ticket, false);
            Served(next, costs, charged[s.waiting[i].ticket := outcome.units])
  {
    hide Poll, TotalUnits, SumUnits, UnitsFor;
    RoomyPoll(s, i);
    TotalWithout(s.waiting, s.limit, i);
    var ticket := s.waiting[i].ticket;
    var next := Poll(s, ticket, false).0;
    forall t: nat | t < |costs| && t != ticket && Holds(s.waiting, t) ensures Holds(next.waiting, t) {
      var j :| 0 <= j < |s.waiting| && s.waiting[j].ticket == t;
      assert next.waiting[if j < i then j else j - 1].ticket == t;
    }
  }

  lemma ServedStays(s: State, costs: seq<nat>, charged: map<nat, nat>, i: nat)
    requires Served(s, costs, charged) && i < |s.waiting| && !Poll(s, s.waiting[i].ticket, false).1.Claimed?
    ensures var next := Poll(s, s.waiting[i].ticket, false).0;
            && Served(next, costs, charged) && next.waiting == s.waiting && next.limit == s.limit
            && next.granted.Some? && Holds(next.waiting, next.granted.value)
  {
    hide Poll, TotalUnits, SumUnits, UnitsFor;
    RoomyPoll(s, i);
  }

  /**
   Requests that fit together are all admitted without any being released: whatever their costs and priorities,
   each is charged its own cost, and the pool ends with just these units taken.
   */
  method AdmitTogether(total: nat, places: nat, costs: seq<nat>, priorities: seq<Priority>)
    returns (pool: AdmissionPool, charged: map<nat, nat>)
    requires |costs| == |priorities| <= places
    requires SumUnits(costs, if total == 0 then 1 else total) <= if total == 0 then 1 else total
    ensures fresh(pool) && pool.Valid()
    ensures var limit := if total == 0 then 1 else total;
            && charged == (map t | 0 <= t < |costs| :: UnitsFor(costs[t], limit))
            && pool.limit == limit && pool.active == SumUnits(costs, limit)
            && pool.inFlight == |costs| && pool.waiting == [] && pool.released == 0
  {
    hide TotalUnits, SumUnits, UnitsFor, Served, Poll;
    charged := map[];
    var limit := if total == 0 then 1 else total;
    pool := QueueAll(total, places, costs, priorities);
    while pool.waiting != []
      invariant fresh(pool) && pool.Valid() && pool.limit == limit
      invariant Served(pool.Snapshot(), costs, charged)
      decreases |pool.waiting|
    {
      var ticket := pool.waiting[0].ticket;
      ghost var before := pool.Snapshot();
      RoomyPoll(before, 0) by { ServedIsRoomy(before, costs, charged); }
      var outcome := pool.PollOnce(ticket, false);
      if outcome.Claimed? {
        ServedNext(before, costs, charged, 0);
      } else {
        ServedStays(before, costs, charged, 0);
        ticket := pool.granted.value;
        ghost var again := pool.Snapshot();
        ghost var i := Position(pool.waiting, ticket).value;
        RoomyPoll(again, i) by { ServedIsRoomy(again, costs, charged); }
        ServedNext(again, costs, charged, i);
        outcome := pool.PollOnce(ticket, false);
      }
      charged := charged[ticket := outcome.units];
    }
    AllServed(pool.Snapshot(), costs, charged);
  }

  lemma ServedIsRoomy(s: State, costs: seq<nat>, charged: map<nat, nat>)
    requires Served(s, costs, charged)
    ensures Roomy(s)
  {
  }

  lemma AllServed(s: State, costs: seq<nat>, charged: map<nat, nat>)
    requires Served(s, costs, charged) && s.waiting == []
    ensures charged == map t | 0 <= t < |costs| :: UnitsFor(costs[t], s.limit)
    ensures s.active == SumUnits(costs, s.limit) && s.inFlight == |costs| && s.released == 0
  {
  }

  /** All ask before the first is admitted. */
  method QueueAll(total: nat, places: nat, costs: seq<nat>, priorities: seq<Priority>) returns (pool: AdmissionPool)
    requires |costs| == |priorities| <= places
    requires SumUnits(costs, if total == 0 then 1 else total) <= if total == 0 then 1 else total
    ensures fresh(pool) && pool.Valid() && pool.limit == if total == 0 then 1 else total
    ensures Served(pool.Snapshot(), costs, map[])
  {
    hide TotalUnits, SumUnits, UnitsFor, Served, Poll;
    pool := new AdmissionPool(total, places);
    var n := 0;
    assert costs[..0] == [];
    NothingQueued(total, places);
    while n < |costs|
      invariant n <= |costs| && fresh(pool) && pool.Valid() && pool.limit == if total == 0 then 1 else total
      invariant Queued(pool.Snapshot(), costs[..n], places)
    {
      QueuedNext(pool.Snapshot(), costs[..n], places, costs[n], priorities[n]);
      assert costs[..n + 1] == costs[..n] + [costs[n]];
      var ticket := pool.Enqueue(costs[n], priorities[n], false);
      n := n + 1;
    }
    assert costs[..n] == costs;
    QueuedServed(pool.Snapshot(), costs, places);
  }

  ghost predicate Queued(s: State, costs: seq<nat>, places: nat) {
    && Sound(s) && s.maxWaiters >= places && s.resourceWaiting == [] && s.granted.None?
    && s.active == s.inFlight == s.released == 0 && s.nextTicket == |costs| == |s.waiting|
    && TotalUnits(s.waiting, s.limit) == SumUnits(costs, s.limit)
    && forall i :: 0 <= i < |s.waiting| ==>
         s.waiting[i].ticket == i && s.waiting[i].cost == costs[i] && s.waiting[i].bypasses == 0
  }

  lemma NothingQueued(total: nat, places: nat)
    ensures Queued(Initial(total, places), [], places)
  {
  }

  lemma QueuedNext(s: State, costs: seq<nat>, places: nat, cost: nat, priority: Priority)
    requires Queued(s, costs, places) && |costs| < places
    ensures Register(s, cost, priority, false).1.Some? && Queued(Register(s, cost, priority, false).0, costs + [cost], places)
  {
    TotalAppend(s.waiting, s.limit, Waiter(s.nextTicket, cost, priority, 0));
    assert (costs + [cost])[..|costs|] == costs;
  }

  lemma QueuedServed(s: State, costs: seq<nat>, places: nat)
    requires Queued(s, costs, places) && SumUnits(costs, s.limit) <= s.limit
    ensures Served(s, costs, map[])
  {
    forall t: nat | t < |costs| ensures Holds(s.waiting, t) { assert s.waiting[t].ticket == t; }
  }
}
