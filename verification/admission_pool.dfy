/**
 The mutable pool (packages/rust-core/src/platform/admission.rs). Every method is one lock region of
 the source, done in place, and its contract names the function of module `Admission` that the new
 snapshot equals. `Admission` and `AdmissionProtocol` prove what those functions promise.
 */
module AdmissionService {
  import opened Wrappers
  import opened Admission
  import opened AdmissionProtocol

  class AdmissionPool {
    var active: nat
    var limit: nat
    var ceiling: nat
    var maxWaiters: nat
    var nextTicket: nat
    var waiting: seq<Waiter>
    var resourceWaiting: seq<nat>
    var credits: seq<nat>
    var granted: Option<nat>
    var inFlight: nat
    var admitted: nat
    var released: nat
    var policyEpoch: nat
    var queueFullRejections: nat
    var queueTimeouts: nat
    var queueCancellations: nat
    var transitionTimeouts: nat

    ghost function Snapshot(): State
      reads this
    {
      State(active, limit, ceiling, maxWaiters, nextTicket, waiting, resourceWaiting, credits, granted,
            inFlight, admitted, released, policyEpoch, queueFullRejections, queueTimeouts,
            queueCancellations, transitionTimeouts)
    }

    ghost predicate Valid()
      reads this
    {
      Sound(Snapshot())
    }

    constructor (total: nat, maxWaiters: nat)
      ensures Valid()
      ensures Snapshot() == Initial(total, maxWaiters)
    {
      active, limit, ceiling := 0, Max(total, 1), Max(total, 1);
      this.maxWaiters := Max(maxWaiters, 1);
      nextTicket, waiting, resourceWaiting := 0, [], [];
      credits, granted := PRIORITY_WEIGHTS, None;
      inFlight, admitted, released, policyEpoch := 0, 0, 0, 0;
      queueFullRejections, queueTimeouts, queueCancellations, transitionTimeouts := 0, 0, 0, 0;
    }

    method Available() returns (units: nat)
      ensures units == Free(Snapshot())
    {
      units := if active <= limit then limit - active else 0;
    }

    method ChargeFor(cost: nat) returns (units: nat)
      ensures units == Charge(Snapshot(), cost)
    {
      units := if cost < limit then cost else limit;
      if units < 1 { units := 1; }
    }

    /** Count a bypass for every waiter that does not fit the units free now. */
    method RecordBypasses()
      modifies this`waiting
      ensures Snapshot() == RecordCapacityBypasses(old(Snapshot()))
    {
      var free := Available();
      var i := 0;
      while i < |waiting|
        invariant 0 <= i <= |waiting| == |old(waiting)|
        invariant forall j :: 0 <= j < i ==> waiting[j] == Bump(old(waiting)[j], limit, free)
        invariant forall j :: i <= j < |waiting| ==> waiting[j] == old(waiting)[j]
      {
        var waiter := waiting[i];
        var capped := if waiter.cost < limit then waiter.cost else limit;
        if capped > free {
          var bypasses := if waiter.bypasses < MAX_U8 then waiter.bypasses + 1 else MAX_U8;
          waiting := waiting[i := waiter.(bypasses := bypasses)];
        }
        i := i + 1;
      }
    }

    /** Queue position of the first waiter that satisfies the reservation rule. */
    method FindReserved() returns (index: Option<nat>)
      ensures index == FirstReserved(waiting)
    {
      var i := 0;
      while i < |waiting|
        invariant 0 <= i <= |waiting|
        invariant FirstReserved(waiting) == FirstReservedFrom(waiting, i)
      {
        if waiting[i].bypasses >= MAX_CAPACITY_BYPASSES { return Some(i); }
        i := i + 1;
      }
      index := None;
    }

    method FindFitting(kind: nat) returns (index: Option<nat>)
      ensures index == FirstFit(Snapshot(), kind)
    {
      var free := Available();
      var i := 0;
      while i < |waiting|
        invariant 0 <= i <= |waiting|
        invariant FirstFit(Snapshot(), kind) == FirstFitFrom(Snapshot(), kind, i)
      {
        var units := ChargeFor(waiting[i].cost);
        if PriorityIndex(waiting[i].priority) == kind && units <= free { return Some(i); }
        i := i + 1;
      }
      index := None;
    }

    /** One pass over the classes in priority order; spends a credit of the class it chooses. */
    method SelectInPass() returns (index: Option<nat>)
      requires |credits| == 3
      modifies this`waiting, this`credits
      ensures match SelectByCredit(old(Snapshot()))
              case Some((next, i)) => Snapshot() == next && index == Some(i)
              case None => Snapshot() == old(Snapshot()) && index.None?
    {
      var kind := 0;
      while kind < 3
        invariant 0 <= kind <= 3
        invariant Snapshot() == old(Snapshot())
        invariant PickClass(Snapshot(), 0) == PickClass(Snapshot(), kind)
      {
        if credits[kind] != 0 {
          index := FindFitting(kind);
          if index.Some? {
            credits := credits[kind := credits[kind] - 1];
            RecordBypasses();
            return;
          }
        }
        kind := kind + 1;
      }
      index := None;
    }

    /** Weighted round robin with bounded backfill; the chosen waiter's queue position, if any. */
    method SelectedWaiter() returns (index: Option<nat>)
      requires |credits| == 3
      modifies this`waiting, this`credits
      ensures (Snapshot(), index) == Select(old(Snapshot()))
    {
      index := FindReserved();
      if index.Some? {
        var units := ChargeFor(waiting[index.value].cost);
        var free := Available();
        if units > free { return None; }
        var kind := PriorityIndex(waiting[index.value].priority);
        credits := credits[kind := if credits[kind] > 0 then credits[kind] - 1 else 0];
        RecordBypasses();
        return;
      }
      ghost var start := Snapshot();
      var pass := 0;
      while pass < 2
        invariant 0 <= pass <= 2
        invariant Snapshot() == if pass == 0 then start else start.(credits := PRIORITY_WEIGHTS)
        invariant pass >= 1 ==> SelectByCredit(start).None?
        invariant pass == 2 ==> SelectByCredit(start.(credits := PRIORITY_WEIGHTS)).None?
      {
        index := SelectInPass();
        if index.Some? { return; }
        if pass == 0 { credits := PRIORITY_WEIGHTS; }
        pass := pass + 1;
      }
      index := None;
    }

    /** Drop every queue entry that holds `ticket`. */
    method Retain(ticket: nat)
      modifies this`waiting
      ensures waiting == Without(old(waiting), ticket)
    {
      var kept: seq<Waiter> := [];
      var i := |waiting|;
      while i > 0
        invariant 0 <= i <= |waiting|
        invariant kept == Without(waiting[i..], ticket)
      {
        i := i - 1;
        assert waiting[i..][1..] == waiting[i + 1..];
        if waiting[i].ticket != ticket { kept := [waiting[i]] + kept; }
      }
      waiting := kept;
    }

    method RetainResource(ticket: nat)
      modifies this`resourceWaiting
      ensures resourceWaiting == WithoutTicket(old(resourceWaiting), ticket)
    {
      var kept: seq<nat> := [];
      var i := |resourceWaiting|;
      while i > 0
        invariant 0 <= i <= |resourceWaiting|
        invariant kept == WithoutTicket(resourceWaiting[i..], ticket)
      {
        i := i - 1;
        assert resourceWaiting[i..][1..] == resourceWaiting[i + 1..];
        if resourceWaiting[i] != ticket { kept := [resourceWaiting[i]] + kept; }
      }
      resourceWaiting := kept;
    }

    /** The registering region of `acquire`. */
    method Enqueue(cost: nat, priority: Priority, expired: bool) returns (ticket: Option<nat>)
      modifies this
      ensures (Snapshot(), ticket) == Register(old(Snapshot()), cost, priority, expired)
    {
      if expired {
        queueTimeouts := queueTimeouts + 1;
        return None;
      }
      if |waiting| + |resourceWaiting| >= maxWaiters {
        queueFullRejections := queueFullRejections + 1;
        return None;
      }
      ticket := Some(nextTicket);
      waiting := waiting + [Waiter(nextTicket, cost, priority, 0)];
      nextTicket := nextTicket + 1;
    }

    method RegisterResourceWaiter() returns (ticket: Option<nat>)
      modifies this
      ensures (Snapshot(), ticket) == RegisterResource(old(Snapshot()))
    {
      if |waiting| + |resourceWaiting| >= maxWaiters {
        queueFullRejections := queueFullRejections + 1;
        return None;
      }
      ticket := Some(nextTicket);
      resourceWaiting := resourceWaiting + [nextTicket];
      nextTicket := nextTicket + 1;
    }

    /** `ResourceWaitGuard::acquire`: turn a resource registration into a slot registration. */
    method MoveToSlotQueue(ticket: nat, cost: nat, priority: Priority)
      modifies this
      ensures Snapshot() == HandOff(old(Snapshot()), ticket, cost, priority)
    {
      RetainResource(ticket);
      waiting := waiting + [Waiter(ticket, cost, priority, 0)];
    }

    method DropResourceGuard(ticket: nat, countCancellation: bool)
      modifies this
      ensures Snapshot() == DropResource(old(Snapshot()), ticket, countCancellation)
    {
      RetainResource(ticket);
      if countCancellation { queueCancellations := queueCancellations + 1; }
    }

    method DropWaitGuard(ticket: nat, countCancellation: bool)
      requires Valid()
      modifies this
      ensures Snapshot() == DropWait(old(Snapshot()), ticket, countCancellation)
    {
      var before := |waiting|;
      WithoutIs(waiting, ticket);
      Retain(ticket);
      if granted == Some(ticket) { granted := None; }
      if countCancellation && |waiting| < before { queueCancellations := queueCancellations + 1; }
    }

    method DropAdmissionPermit(units: nat)
      modifies this
      ensures Snapshot() == DropPermit(old(Snapshot()), units)
    {
      active := if units <= active then active - units else 0;
      inFlight := if inFlight > 0 then inFlight - 1 else 0;
      released := released + 1;
    }

    /** Grant the next charge to a chosen waiter when nobody owns it yet. */
    method OfferGrant() returns (selected: bool)
      requires |credits| == 3
      modifies this`waiting, this`credits, this`granted
      ensures (Snapshot(), selected) == Offer(old(Snapshot()))
    {
      selected := false;
      if granted.None? {
        SelectIndexInRange(Snapshot());
        var index := SelectedWaiter();
        if index.Some? {
          granted := Some(waiting[index.value].ticket);
          selected := true;
        }
      }
    }

    /** Admit the waiter at queue position `i`. */
    method Admit(i: nat, units: nat)
      requires i < |waiting| && units == Charge(Snapshot(), waiting[i].cost)
      modifies this
      ensures Snapshot() == Claim(old(Snapshot()), i)
    {
      waiting := waiting[..i] + waiting[i + 1..];
      active := active + units;
      inFlight := inFlight + 1;
      admitted := admitted + 1;
      granted := None;
    }

    method FindTicket(ticket: nat) returns (index: Option<nat>)
      ensures index == Position(waiting, ticket)
    {
      var i := 0;
      while i < |waiting|
        invariant 0 <= i <= |waiting|
        invariant Position(waiting, ticket) == PositionFrom(waiting, ticket, i)
      {
        if waiting[i].ticket == ticket { return Some(i); }
        i := i + 1;
      }
      index := None;
    }

    /** One pass of the admission loop's critical section for the waiter holding `ticket`. */
    method PollOnce(ticket: nat, expired: bool) returns (outcome: PollOutcome)
      requires Valid()
      modifies this
      ensures (Snapshot(), outcome) == Poll(old(Snapshot()), ticket, expired)
    {
      if expired {
        queueTimeouts := queueTimeouts + 1;
        return Expired;
      }
      OfferFrame(Snapshot());
      var selected := OfferGrant();
      if granted == Some(ticket) {
        var index := FindTicket(ticket);
        assert index.Some?;  // a granted waiter is still queued
        var units := ChargeFor(waiting[index.value].cost);
        var free := Available();
        if units <= free {
          Admit(index.value, units);
          return Claimed(units, selected);
        }
      }
      outcome := Pending(selected);
    }

    method ChangeCeiling(newCeiling: nat)
      modifies this
      ensures Snapshot() == SetCeiling(old(Snapshot()), newCeiling)
    {
      var c := if newCeiling > 1 then newCeiling else 1;
      var previousLimit, previousCeiling := limit, ceiling;
      if limit >= ceiling || limit > c { limit := c; }
      ceiling := c;
      if previousLimit != limit || previousCeiling != ceiling { policyEpoch := policyEpoch + 1; }
    }

    method ChangeLimit(newLimit: nat) returns (applied: nat)
      requires Valid()
      modifies this
      ensures Snapshot() == SetLimit(old(Snapshot()), newLimit)
      ensures applied == limit
    {
      var next := if newLimit < 1 then 1 else if newLimit > ceiling then ceiling else newLimit;
      if next != limit {
        policyEpoch := policyEpoch + 1;
        limit := next;
      }
      applied := limit;
    }
  }
}
