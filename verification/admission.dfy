/**
 The weighted admission pool (packages/rust-core/src/platform/admission.rs).

 `State` is what the mutex guards. Each lock region of the source is a function on `State`; the class
 `AdmissionPool` performs the same regions in place and is proved to compute those functions.
 Waiting times, which only feed a gauge, are not kept.
 */
module Admission {
  import opened Wrappers

  datatype Priority = Interactive | Normal | Background

  datatype Waiter = Waiter(ticket: nat, cost: nat, priority: Priority, bypasses: nat)

  datatype State = State(
    active: nat,
    limit: nat,
    ceiling: nat,
    maxWaiters: nat,
    nextTicket: nat,
    waiting: seq<Waiter>,
    resourceWaiting: seq<nat>,
    credits: seq<nat>,
    granted: Option<nat>,
    inFlight: nat,
    admitted: nat,
    released: nat,
    policyEpoch: nat,
    queueFullRejections: nat,
    queueTimeouts: nat,
    queueCancellations: nat,
    transitionTimeouts: nat)

  /** What one pass through the critical section of the admission loop did for its caller. */
  datatype PollOutcome =
    | Expired
    | Claimed(units: nat, selected: bool)
    | Pending(selected: bool)

  const PRIORITY_WEIGHTS: seq<nat> := [3, 2, 1]
  const MAX_CAPACITY_BYPASSES: nat := 6
  const MAX_U8: nat := 255

  function PriorityIndex(p: Priority): (c: nat)
    ensures c < 3
  {
    match p
    case Interactive => 0
    case Normal => 1
    case Background => 2
  }

  function Min(a: nat, b: nat): nat { if a <= b then a else b }

  function Max(a: nat, b: nat): nat { if a <= b then b else a }

  /** Saturating subtraction. */
  function Monus(a: nat, b: nat): nat { if b <= a then a - b else 0 }

  // ---------------------------------------------------------------- queue helpers

  predicate Holds(ws: seq<Waiter>, ticket: nat) {
    exists i :: 0 <= i < |ws| && ws[i].ticket == ticket
  }

  predicate Distinct(ws: seq<Waiter>) {
    forall i, j :: 0 <= i < j < |ws| ==> ws[i].ticket != ws[j].ticket
  }

  function PositionFrom(ws: seq<Waiter>, ticket: nat, k: nat): (r: Option<nat>)
    requires k <= |ws|
    ensures r.Some? ==> k <= r.value < |ws| && ws[r.value].ticket == ticket
    ensures r.Some? ==> forall i :: k <= i < r.value ==> ws[i].ticket != ticket
    ensures r.None? ==> forall i :: k <= i < |ws| ==> ws[i].ticket != ticket
    decreases |ws| - k
  {
    if k == |ws| then None else if ws[k].ticket == ticket then Some(k) else PositionFrom(ws, ticket, k + 1)
  }

  function Position(ws: seq<Waiter>, ticket: nat): (r: Option<nat>)
    ensures r.Some? <==> Holds(ws, ticket)
    ensures r.Some? ==> r.value < |ws| && ws[r.value].ticket == ticket
    ensures r.Some? ==> forall i :: 0 <= i < r.value ==> ws[i].ticket != ticket
  {
    PositionFrom(ws, ticket, 0)
  }

  /** The queue without `ticket`, order kept. */
  function Without(ws: seq<Waiter>, ticket: nat): seq<Waiter> {
    if ws == [] then []
    else if ws[0].ticket == ticket then Without(ws[1..], ticket)
    else [ws[0]] + Without(ws[1..], ticket)
  }

  function WithoutTicket(ts: seq<nat>, ticket: nat): seq<nat> {
    if ts == [] then []
    else if ts[0] == ticket then WithoutTicket(ts[1..], ticket)
    else [ts[0]] + WithoutTicket(ts[1..], ticket)
  }

  // ---------------------------------------------------------------- selection

  function QueueDepth(s: State): nat { |s.waiting| + |s.resourceWaiting| }

  function Free(s: State): nat { Monus(s.limit, s.active) }

  /** A task never costs more than the whole current limit, and never less than one unit. */
  function Charge(s: State, cost: nat): nat { Max(Min(cost, s.limit), 1) }

  predicate Fits(s: State, w: Waiter) { Charge(s, w.cost) <= Free(s) }

  predicate Reserved(w: Waiter) { w.bypasses >= MAX_CAPACITY_BYPASSES }

  function FirstReservedFrom(ws: seq<Waiter>, k: nat): (r: Option<nat>)
    requires k <= |ws|
    ensures r.Some? ==> k <= r.value < |ws| && Reserved(ws[r.value])
    ensures r.Some? ==> forall i :: k <= i < r.value ==> !Reserved(ws[i])
    ensures r.None? ==> forall i :: k <= i < |ws| ==> !Reserved(ws[i])
    decreases |ws| - k
  {
    if k == |ws| then None else if Reserved(ws[k]) then Some(k) else FirstReservedFrom(ws, k + 1)
  }

  /** Queue position of the oldest waiter whose capacity is reserved. */
  function FirstReserved(ws: seq<Waiter>): (r: Option<nat>)
    ensures r.Some? ==> r.value < |ws| && Reserved(ws[r.value])
    ensures r.Some? ==> forall i :: 0 <= i < r.value ==> !Reserved(ws[i])
    ensures r.None? ==> forall i :: 0 <= i < |ws| ==> !Reserved(ws[i])
  {
    FirstReservedFrom(ws, 0)
  }

  predicate Eligible(s: State, w: Waiter, kind: nat) {
    PriorityIndex(w.priority) == kind && Fits(s, w)
  }

  function FirstFitFrom(s: State, kind: nat, k: nat): (r: Option<nat>)
    requires k <= |s.waiting|
    ensures r.Some? ==> k <= r.value < |s.waiting| && Eligible(s, s.waiting[r.value], kind)
    ensures r.Some? ==> forall i :: k <= i < r.value ==> !Eligible(s, s.waiting[i], kind)
    ensures r.None? ==> forall i :: k <= i < |s.waiting| ==> !Eligible(s, s.waiting[i], kind)
    decreases |s.waiting| - k
  {
    if k == |s.waiting| then None
    else if Eligible(s, s.waiting[k], kind) then Some(k)
    else FirstFitFrom(s, kind, k + 1)
  }

  /** Queue position of the oldest waiter of `class` that fits the free units. */
  function FirstFit(s: State, kind: nat): (r: Option<nat>)
    ensures r.Some? ==> r.value < |s.waiting| && Eligible(s, s.waiting[r.value], kind)
    ensures r.Some? ==> forall i :: 0 <= i < r.value ==> !Eligible(s, s.waiting[i], kind)
    ensures r.None? ==> forall i :: 0 <= i < |s.waiting| ==> !Eligible(s, s.waiting[i], kind)
  {
    FirstFitFrom(s, kind, 0)
  }

  /** The first class from `class` on that has both a credit and a fitting waiter. */
  function PickClass(s: State, kind: nat): (r: Option<nat>)
    requires kind <= 3 && |s.credits| == 3
    ensures r.Some? ==> kind <= r.value < 3 && s.credits[r.value] > 0 && FirstFit(s, r.value).Some?
    ensures r.Some? ==> forall c :: kind <= c < r.value ==> s.credits[c] == 0 || FirstFit(s, c).None?
    ensures r.None? ==> forall c :: kind <= c < 3 ==> s.credits[c] == 0 || FirstFit(s, c).None?
    decreases 3 - kind
  {
    if kind == 3 then None
    else if s.credits[kind] > 0 && FirstFit(s, kind).Some? then Some(kind)
    else PickClass(s, kind + 1)
  }

  function Bump(w: Waiter, limit: nat, free: nat): Waiter {
    if Min(w.cost, limit) > free then w.(bypasses := Min(w.bypasses + 1, MAX_U8)) else w
  }

  /** One admission has passed every waiter that did not fit the units free at the time. */
  function RecordCapacityBypasses(s: State): State {
    s.(waiting := seq(|s.waiting|, i requires 0 <= i < |s.waiting| => Bump(s.waiting[i], s.limit, Free(s))))
  }

  function Spend(s: State, kind: nat): State
    requires kind < |s.credits|
  {
    s.(credits := s.credits[kind := Monus(s.credits[kind], 1)])
  }

  /** Choose from the class credits as they stand. */
  function SelectByCredit(s: State): Option<(State, nat)>
    requires |s.credits| == 3
  {
    match PickClass(s, 0)
    case None => None
    case Some(kind) => Some((RecordCapacityBypasses(Spend(s, kind)), FirstFit(s, kind).value))
  }

  /** The next waiter to grant, if any, with the state its choice leaves behind. */
  function Select(s: State): (State, Option<nat>)
    requires |s.credits| == 3
  {
    match FirstReserved(s.waiting)
    case Some(index) =>
      if !Fits(s, s.waiting[index]) then (s, None)
      else (RecordCapacityBypasses(Spend(s, PriorityIndex(s.waiting[index].priority))), Some(index))
    case None =>
      match SelectByCredit(s)
      case Some((next, index)) => (next, Some(index))
      case None =>
        var refilled := s.(credits := PRIORITY_WEIGHTS);
        match SelectByCredit(refilled)
        case Some((next, index)) => (next, Some(index))
        case None => (refilled, None)
  }

  // ---------------------------------------------------------------- lock regions

  /** What the mutex always protects: room for one unit, three classes, and a grant that still waits. */
  predicate Sound(s: State) {
    && 1 <= s.limit <= s.ceiling
    && 1 <= s.maxWaiters
    && |s.credits| == 3
    && (forall c :: 0 <= c < 3 ==> s.credits[c] <= PRIORITY_WEIGHTS[c])
    && Distinct(s.waiting)
    && (s.granted.Some? ==> Holds(s.waiting, s.granted.value))
  }

  function Initial(total: nat, maxWaiters: nat): (s: State)
    ensures Sound(s)
  {
    State(0, Max(total, 1), Max(total, 1), Max(maxWaiters, 1), 0, [], [], PRIORITY_WEIGHTS, None,
          0, 0, 0, 0, 0, 0, 0, 0)
  }

  /** `acquire`'s first region: a ticket, or a refusal. */
  function Register(s: State, cost: nat, priority: Priority, expired: bool): (State, Option<nat>) {
    if expired then (s.(queueTimeouts := s.queueTimeouts + 1), None)
    else if QueueDepth(s) >= s.maxWaiters then (s.(queueFullRejections := s.queueFullRejections + 1), None)
    else (s.(nextTicket := s.nextTicket + 1,
             waiting := s.waiting + [Waiter(s.nextTicket, cost, priority, 0)]), Some(s.nextTicket))
  }

  function RegisterResource(s: State): (State, Option<nat>) {
    if QueueDepth(s) >= s.maxWaiters then (s.(queueFullRejections := s.queueFullRejections + 1), None)
    else (s.(nextTicket := s.nextTicket + 1, resourceWaiting := s.resourceWaiting + [s.nextTicket]),
          Some(s.nextTicket))
  }

  /** A resource waiter keeps its ticket but joins the back of the slot queue. */
  function HandOff(s: State, ticket: nat, cost: nat, priority: Priority): State {
    s.(resourceWaiting := WithoutTicket(s.resourceWaiting, ticket),
       waiting := s.waiting + [Waiter(ticket, cost, priority, 0)])
  }

  function DropResource(s: State, ticket: nat, count: bool): State {
    s.(resourceWaiting := WithoutTicket(s.resourceWaiting, ticket),
       queueCancellations := s.queueCancellations + if count then 1 else 0)
  }

  function DropWait(s: State, ticket: nat, count: bool): State {
    s.(waiting := Without(s.waiting, ticket),
       granted := if s.granted == Some(ticket) then None else s.granted,
       queueCancellations := s.queueCancellations + if count && Holds(s.waiting, ticket) then 1 else 0)
  }

  function DropPermit(s: State, units: nat): State {
    s.(active := Monus(s.active, units), inFlight := Monus(s.inFlight, 1), released := s.released + 1)
  }

  function ExpireWait(s: State): State { s.(queueTimeouts := s.queueTimeouts + 1) }

  /** Choose a waiter when nothing is granted yet. */
  function Offer(s: State): (r: (State, bool))
    requires |s.credits| == 3
  {
    if s.granted.None? then
      var (next, index) := Select(s);
      match index
      case None => (next, false)
      case Some(i) => assert i < |next.waiting| by { SelectIndexInRange(s); }
                      (next.(granted := Some(next.waiting[i].ticket)), true)
    else (s, false)
  }

  function Claim(s: State, index: nat): State
    requires index < |s.waiting|
  {
    s.(waiting := s.waiting[..index] + s.waiting[index + 1..],
       active := s.active + Charge(s, s.waiting[index].cost),
       inFlight := s.inFlight + 1,
       admitted := s.admitted + 1,
       granted := None)
  }

  /** The critical section of `acquire_registered` for the waiter holding `ticket`. */
  function Poll(s: State, ticket: nat, expired: bool): (State, PollOutcome)
    requires |s.credits| == 3
  {
    if expired then (ExpireWait(s), Expired)
    else
      var (offered, selected) := Offer(s);
      var index := if offered.granted == Some(ticket) then Position(offered.waiting, ticket) else None;
      if index.Some? && Fits(offered, offered.waiting[index.value])
      then (Claim(offered, index.value), Claimed(Charge(offered, offered.waiting[index.value].cost), selected))
      else (offered, Pending(selected))
  }

  function SetLimit(s: State, limit: nat): State {
    var next := Min(Max(limit, 1), s.ceiling);
    if next != s.limit then s.(policyEpoch := s.policyEpoch + 1, limit := next) else s
  }

  function SetCeiling(s: State, ceiling: nat): State {
    var c := Max(ceiling, 1);
    var l := if s.limit >= s.ceiling || s.limit > c then c else s.limit;
    s.(limit := l, ceiling := c,
       policyEpoch := s.policyEpoch + if (l, c) != (s.limit, s.ceiling) then 1 else 0)
  }

  function SetMaxWaiters(s: State, maxWaiters: nat): State { s.(maxWaiters := Max(maxWaiters, 1)) }

  function RecordTransitionTimeout(s: State): State { s.(transitionTimeouts := s.transitionTimeouts + 1) }

  // ---------------------------------------------------------------- facts about selection

  lemma SelectIndexInRange(s: State)
    requires |s.credits| == 3
    ensures |Select(s).0.waiting| == |s.waiting|
    ensures Select(s).1.Some? ==> Select(s).1.value < |s.waiting|
  {
  }

  /** Whether a selection attempt on `s` finds a waiter; the credits do not matter. */
  predicate Selectable(s: State) {
    match FirstReserved(s.waiting)
    case Some(index) => Fits(s, s.waiting[index])
    case None => exists i :: 0 <= i < |s.waiting| && Fits(s, s.waiting[i])
  }

  lemma SelectFindsExactly(s: State)
    requires Sound(s)
    ensures Select(s).1.Some? <==> Selectable(s)
  {
    if FirstReserved(s.waiting).None? {
      var refilled := s.(credits := PRIORITY_WEIGHTS);
      if i :| 0 <= i < |s.waiting| && Fits(s, s.waiting[i]) {
        var c := PriorityIndex(s.waiting[i].priority);
        assert Eligible(refilled, refilled.waiting[i], c);
        assert FirstFit(refilled, c).Some?;
      }
      if Select(s).1.Some? {
        assert PickClass(s, 0).Some? || PickClass(refilled, 0).Some?;
      }
    }
  }

  /** What a selection leaves behind: the waiters it passed are counted, nothing else but credits moves. */
  lemma SelectFrame(s: State)
    requires Sound(s)
    ensures var (next, index) := Select(s);
            && next == s.(credits := next.credits, waiting := next.waiting)
            && |next.credits| == 3 && (forall c :: 0 <= c < 3 ==> next.credits[c] <= PRIORITY_WEIGHTS[c])
            && |next.waiting| == |s.waiting|
            && (index.None? ==> next.waiting == s.waiting)
            && (index.Some? ==> forall i :: 0 <= i < |s.waiting| ==> next.waiting[i] == Bump(s.waiting[i], s.limit, Free(s)))
            && (index.Some? ==> index.value < |s.waiting| && Fits(s, s.waiting[index.value]))
  {
    SelectIndexInRange(s);
  }

  /** An idle pool with a waiter always has a choice, whatever the costs, credits and bypass counts. */
  lemma IdlePoolSelects(s: State)
    requires Sound(s) && s.active == 0 && s.waiting != []
    ensures Select(s).1.Some?
  {
    assert forall w: Waiter :: Fits(s, w);
    SelectFindsExactly(s);
    assert Fits(s, s.waiting[0]);
  }

  lemma {:induction false} WithoutAbsent(ws: seq<Waiter>, ticket: nat)
    requires forall i :: 0 <= i < |ws| ==> ws[i].ticket != ticket
    ensures Without(ws, ticket) == ws
  {
    if ws != [] {
      WithoutAbsent(ws[1..], ticket);
      assert ws == [ws[0]] + ws[1..];
    }
  }

  lemma {:induction false} WithoutAt(ws: seq<Waiter>, ticket: nat, p: nat)
    requires p < |ws| && ws[p].ticket == ticket
    requires forall i :: 0 <= i < |ws| && i != p ==> ws[i].ticket != ticket
    ensures Without(ws, ticket) == ws[..p] + ws[p + 1..]
  {
    var rest := ws[1..];
    if p == 0 {
      WithoutAbsent(rest, ticket);
    } else {
      WithoutAt(rest, ticket, p - 1);
      assert ws[..p] + ws[p + 1..] == [ws[0]] + (rest[..p - 1] + rest[p..]);
    }
  }

  /** Retaining everybody else takes out the one entry that holds the ticket, if there is one. */
  lemma WithoutIs(ws: seq<Waiter>, ticket: nat)
    requires Distinct(ws)
    ensures Position(ws, ticket).None? ==> Without(ws, ticket) == ws
    ensures Position(ws, ticket).Some? ==>
              var p := Position(ws, ticket).value;
              Without(ws, ticket) == ws[..p] + ws[p + 1..]
  {
    match Position(ws, ticket)
    case None => WithoutAbsent(ws, ticket);
    case Some(p) => WithoutAt(ws, ticket, p);
  }
}
