/**
 The weighted share of a class (3:2:1): a waiter that fits whenever a choice is made, with no
 reservation pending, is chosen within a bound set by its class weight and the rivals ahead of it.
 */
module AdmissionShare {
  import opened Wrappers
  import opened Admission
  import opened AdmissionProtocol
  import opened AdmissionInvariants
  import opened AdmissionFairness

  /** Waiters of `kind` among the first `n`, not counting the one that already owns the grant. */
  function Rivals(ws: seq<Waiter>, kind: nat, granted: Option<nat>, n: nat): (k: nat)
    requires n <= |ws|
    ensures k <= n
  {
    if n == 0 then 0
    else Rivals(ws, kind, granted, n - 1)
         + if PriorityIndex(ws[n - 1].priority) == kind && granted != Some(ws[n - 1].ticket) then 1 else 0
  }

  /** Refills needed before a class with `credit` left and the given weight is chosen `need` times. */
  function Refills(need: nat, credit: nat, weight: nat): nat
    requires weight >= 1
    decreases need
  {
    if need <= credit then 0 else 1 + Refills(need - credit - 1, weight - 1, weight)
  }

  lemma {:induction false} RefillsMonotone(a: nat, b: nat, credit: nat, weight: nat)
    requires weight >= 1 && a <= b
    ensures Refills(a, credit, weight) <= Refills(b, credit, weight) <= b
    decreases b
  {
    if credit < b {
      RefillsMonotone(if credit < a then a - credit - 1 else 0, b - credit - 1, weight - 1, weight);
    }
  }

  /** One choice of the class uses up one credit and one of the choices still needed. */
  lemma RefillsShift(need: nat, credit: nat, weight: nat)
    requires weight >= 1 && need >= 1 && credit >= 1
    ensures Refills(need - 1, credit - 1, weight) == Refills(need, credit, weight)
  {
  }

  /** A class out of credit gets its whole weight back at a refill. */
  lemma RefillStart(need: nat, weight: nat)
    requires weight >= 1 && need >= 1
    ensures Refills(need, 0, weight) == 1 + Refills(need, weight, weight)
  {
    RefillsShift(need, weight, weight);
  }

  /** How many choices a waiter of class `kind` may still wait for, counted from credits and rivals. */
  function Budget(credits: seq<nat>, kind: nat, rivals: nat): nat
    requires |credits| == 3 && kind < 3
  {
    credits[0] + credits[1] + credits[2] + 6 * Refills(rivals + 1, credits[kind], PRIORITY_WEIGHTS[kind])
  }

  /** Selections that can still happen before the waiter at `i` is chosen. */
  function Potential(s: State, i: nat): nat
    requires |s.credits| == 3 && i < |s.waiting|
  {
    var kind := PriorityIndex(s.waiting[i].priority);
    Budget(s.credits, kind, Rivals(s.waiting, kind, s.granted, i))
  }

  /** At most 6 * (k + 2), with k the rivals ahead. */
  lemma PotentialBound(s: State, i: nat)
    requires Sound(s) && i < |s.waiting|
    ensures var kind := PriorityIndex(s.waiting[i].priority);
            1 <= Potential(s, i) <= 6 * (Rivals(s.waiting, kind, s.granted, i) + 2)
  {
    var kind := PriorityIndex(s.waiting[i].priority);
    var k := Rivals(s.waiting, kind, s.granted, i);
    RefillsMonotone(k + 1, k + 1, s.credits[kind], PRIORITY_WEIGHTS[kind]);
    assert s.credits[0] <= 3 && s.credits[1] <= 2 && s.credits[2] <= 1;
  }

  // ---------------------------------------------------------------- rivals

  lemma {:induction false} RivalsSame(a: seq<Waiter>, b: seq<Waiter>, kind: nat, granted: Option<nat>, n: nat)
    requires n <= |a| && n <= |b|
    requires forall j :: 0 <= j < n ==> a[j].ticket == b[j].ticket && a[j].priority == b[j].priority
    ensures Rivals(a, kind, granted, n) == Rivals(b, kind, granted, n)
  {
    if n > 0 {
      RivalsSame(a, b, kind, granted, n - 1);
    }
  }

  /** Taking an entry out never adds rivals, and a grant taken out with its owner is neutral. */
  lemma {:induction false} RivalsAfterRemoval(a: seq<Waiter>, b: seq<Waiter>, kind: nat, granted: Option<nat>, p: nat, n: nat)
    requires Distinct(a) && p < |a| && n <= |a| && RemovedAt(a, b, p)
    ensures var after := if granted == Some(a[p].ticket) then None else granted;
            Rivals(b, kind, after, if p < n then n - 1 else n) <= Rivals(a, kind, granted, n)
    decreases n
  {
    if n > 0 {
      RivalsAfterRemoval(a, b, kind, granted, p, n - 1);
      if p < n - 1 {
        assert b[n - 2] == a[n - 1];
      } else if n - 1 < p {
        assert b[n - 1] == a[n - 1];
      }
    }
  }

  /** Granting a rival ahead takes one off the count. */
  lemma {:induction false} RivalsAfterGrant(ws: seq<Waiter>, kind: nat, g: nat, n: nat)
    requires Distinct(ws) && g < |ws| && n <= |ws|
    ensures Rivals(ws, kind, Some(ws[g].ticket), n)
         == Rivals(ws, kind, None, n) - if g < n && PriorityIndex(ws[g].priority) == kind then 1 else 0
    decreases n
  {
    if n > 0 {
      RivalsAfterGrant(ws, kind, g, n - 1);
      assert g == n - 1 || ws[g].ticket != ws[n - 1].ticket;
    }
  }

  // ---------------------------------------------------------------- one step

  /** The waiter at `i` fits and no reservation is pending. */
  ghost predicate FairChance(s: State, i: nat)
    requires i < |s.waiting|
  {
    FirstReserved(s.waiting).None? && Fits(s, s.waiting[i])
  }

  /** A choice from the credits as they stand: the class that pays, and who gets the grant. */
  lemma CreditChoice(s: State, i: nat)
    requires Sound(s) && i < |s.waiting| && Fits(s, s.waiting[i]) && PickClass(s, 0).Some?
    ensures var (next, g) := SelectByCredit(s).value;
            && g < |s.waiting|
            && var chosen := PriorityIndex(s.waiting[g].priority);
            && s.credits[chosen] > 0 && next.credits == s.credits[chosen := s.credits[chosen] - 1]
            && (chosen == PriorityIndex(s.waiting[i].priority) ==> g <= i)
  {
    assert Eligible(s, s.waiting[i], PriorityIndex(s.waiting[i].priority));
    var c := PickClass(s, 0).value;
    assert Eligible(s, s.waiting[FirstFit(s, c).value], c);
  }

  /** A fitting waiter's class must be out of credit before the credits are refilled. */
  lemma RefillOnlyWhenSpent(s: State, i: nat)
    requires Sound(s) && i < |s.waiting| && Fits(s, s.waiting[i]) && PickClass(s, 0).None?
    ensures s.credits[PriorityIndex(s.waiting[i].priority)] == 0
    ensures PickClass(s.(credits := PRIORITY_WEIGHTS), 0).Some?
  {
    var kind := PriorityIndex(s.waiting[i].priority);
    assert Eligible(s, s.waiting[i], kind);
    assert FirstFit(s, kind).Some?;
    var refilled := s.(credits := PRIORITY_WEIGHTS);
    assert Eligible(refilled, refilled.waiting[i], kind);
    assert FirstFit(refilled, kind).Some?;
  }

  /** Paying one credit for a rival, or for another class, costs one unit of the budget. */
  lemma BudgetDrops(credits: seq<nat>, kind: nat, chosen: nat, rivals: nat)
    requires |credits| == 3 && kind < 3 && chosen < 3 && credits[chosen] > 0
    requires chosen == kind ==> rivals > 0
    ensures Budget(credits[chosen := credits[chosen] - 1], kind, if chosen == kind then rivals - 1 else rivals) + 1
         == Budget(credits, kind, rivals)
  {
    if chosen == kind {
      RefillsShift(rivals + 1, credits[kind], PRIORITY_WEIGHTS[kind]);
    }
  }

  /** A refill of a spent class is already counted in the budget. */
  lemma RefillIsCounted(credits: seq<nat>, kind: nat, rivals: nat)
    requires |credits| == 3 && kind < 3 && credits[kind] == 0
    ensures Budget(PRIORITY_WEIGHTS, kind, rivals) <= Budget(credits, kind, rivals)
  {
    RefillStart(rivals + 1, PRIORITY_WEIGHTS[kind]);
  }

  /** The credits a choice is paid from: the current ones, or a fresh round. */
  function PaidFrom(s: State): State
    requires |s.credits| == 3
  {
    if PickClass(s, 0).Some? then s else s.(credits := PRIORITY_WEIGHTS)
  }

  lemma UnreservedSelect(s: State)
    requires |s.credits| == 3 && FirstReserved(s.waiting).None? && SelectByCredit(PaidFrom(s)).Some?
    ensures Select(s) == (SelectByCredit(PaidFrom(s)).value.0, Some(SelectByCredit(PaidFrom(s)).value.1))
  {
  }

  lemma OfferSelected(s: State)
    requires |s.credits| == 3 && s.granted.None? && Select(s).1.Some?
    ensures Select(s).1.value < |s.waiting| == |Select(s).0.waiting|
    ensures var (next, index) := Select(s);
            Offer(s).0 == next.(granted := Some(next.waiting[index.value].ticket))
  {
    SelectIndexInRange(s);
  }

  /** What a fair choice pays, and from which credits. */
  lemma FairChoice(s: State, i: nat)
    requires Sound(s) && i < |s.waiting| && FairChance(s, i)
    ensures var base, kind := PaidFrom(s).credits, PriorityIndex(s.waiting[i].priority);
            && Select(s).1.Some? && Select(s).1.value < |s.waiting| && |base| == 3
            && (base == s.credits || (base == PRIORITY_WEIGHTS && s.credits[kind] == 0))
            && var chosen := PriorityIndex(s.waiting[Select(s).1.value].priority);
            && base[chosen] > 0 && Select(s).0.credits == base[chosen := base[chosen] - 1]
            && (chosen == kind ==> Select(s).1.value <= i)
  {
    var base := PaidFrom(s);
    if PickClass(s, 0).None? {
      RefillOnlyWhenSpent(s, i);
    }
    assert Fits(base, base.waiting[i]);
    CreditChoice(base, i);
    UnreservedSelect(s);
  }

  /** A choice that passes over the waiter at `i` costs at least one unit of its potential. */
  lemma PassedOverCosts(s: State, i: nat)
    requires Sound(s) && s.granted.None? && i < |s.waiting| && FairChance(s, i)
    ensures Select(s).1.Some?
    ensures Select(s).1 != Some(i) ==>
              |Offer(s).0.waiting| == |s.waiting| && |Offer(s).0.credits| == 3
              && Potential(Offer(s).0, i) + 1 <= Potential(s, i)
  {
    FairChoice(s, i);
    var g, base := Select(s).1.value, PaidFrom(s).credits;
    if g != i {
      var kind := PriorityIndex(s.waiting[i].priority);
      var rivals := Rivals(s.waiting, kind, None, i);
      OfferRivals(s, i, g);
      RivalAhead(s, i, g);
      BudgetDrops(base, kind, PriorityIndex(s.waiting[g].priority), rivals);
      if base != s.credits {
        RefillIsCounted(s.credits, kind, rivals);
      }
    }
  }

  /** A same-class waiter chosen first was counted as a rival. */
  lemma RivalAhead(s: State, i: nat, g: nat)
    requires Distinct(s.waiting) && i < |s.waiting| && g < |s.waiting| && g != i
    requires PriorityIndex(s.waiting[g].priority) == PriorityIndex(s.waiting[i].priority) ==> g < i
    ensures PriorityIndex(s.waiting[g].priority) == PriorityIndex(s.waiting[i].priority) ==>
              Rivals(s.waiting, PriorityIndex(s.waiting[i].priority), None, i) > 0
  {
    RivalsAfterGrant(s.waiting, PriorityIndex(s.waiting[i].priority), g, i);
  }

  /** Granting somebody else takes one rival off the count exactly when it is a rival ahead. */
  lemma OfferRivals(s: State, i: nat, g: nat)
    requires Sound(s) && s.granted.None? && i < |s.waiting| && Select(s).1 == Some(g) && g < |s.waiting| && g != i
    requires PriorityIndex(s.waiting[g].priority) == PriorityIndex(s.waiting[i].priority) ==> g < i
    ensures var o, kind, chosen := Offer(s).0, PriorityIndex(s.waiting[i].priority), PriorityIndex(s.waiting[g].priority);
            && |o.waiting| == |s.waiting| && |o.credits| == 3 && o.credits == Select(s).0.credits
            && o.waiting[i].priority == s.waiting[i].priority
            && var rivals := Rivals(s.waiting, kind, None, i);
            && Rivals(o.waiting, kind, o.granted, i) == rivals - (if chosen == kind then 1 else 0)
  {
    OfferFrame(s);
    OfferSelected(s);
    var o, kind := Offer(s).0, PriorityIndex(s.waiting[i].priority);
    RivalsSame(s.waiting, o.waiting, kind, o.granted, i);
    RivalsAfterGrant(s.waiting, kind, g, i);
  }

  /** Same entry, possibly one place further forward, with no more rivals ahead of it. */
  ghost predicate NoMoreRivals(s: State, next: State, i: nat)
    requires i < |s.waiting|
  {
    && next.granted != Some(s.waiting[i].ticket)
    && match Position(next.waiting, s.waiting[i].ticket)
       case None => false
       case Some(k) =>
         && next.waiting[k] == s.waiting[i]
         && var kind := PriorityIndex(s.waiting[i].priority);
         Rivals(next.waiting, kind, next.granted, k) <= Rivals(s.waiting, kind, s.granted, i)
  }

  lemma LowerRivalsLowerPotential(s: State, next: State, i: nat)
    requires Sound(s) && Sound(next) && i < |s.waiting| && next.credits == s.credits && NoMoreRivals(s, next, i)
    ensures Potential(next, Position(next.waiting, s.waiting[i].ticket).value) <= Potential(s, i)
  {
    var kind, k := PriorityIndex(s.waiting[i].priority), Position(next.waiting, s.waiting[i].ticket).value;
    RefillsMonotone(Rivals(next.waiting, kind, next.granted, k) + 1, Rivals(s.waiting, kind, s.granted, i) + 1,
                    s.credits[kind], PRIORITY_WEIGHTS[kind]);
  }

  lemma RemovalRivals(s: State, next: State, i: nat, p: nat)
    requires Distinct(s.waiting) && i < |s.waiting| && Leaves(s, next, p) && i != p
    requires s.granted != Some(s.waiting[i].ticket)
    ensures NoMoreRivals(s, next, i)
  {
    var k := if i < p then i else i - 1;
    assert next.waiting[k] == s.waiting[i];
    assert Holds(next.waiting, s.waiting[i].ticket);
    assert forall j :: 0 <= j < k ==> next.waiting[j] == s.waiting[if j < p then j else j + 1];
    assert Position(next.waiting, s.waiting[i].ticket) == Some(k);
    RivalsAfterRemoval(s.waiting, next.waiting, PriorityIndex(s.waiting[i].priority), s.granted, p, i);
  }

  lemma SamePlaceRivals(s: State, next: State, i: nat)
    requires Distinct(s.waiting) && i < |s.waiting| <= |next.waiting| && next.granted == s.granted
    requires forall j :: 0 <= j < |s.waiting| ==> next.waiting[j] == s.waiting[j]
    requires s.granted != Some(s.waiting[i].ticket)
    ensures NoMoreRivals(s, next, i)
  {
    assert Holds(next.waiting, s.waiting[i].ticket);
    assert Position(next.waiting, s.waiting[i].ticket) == Some(i);
    RivalsSame(s.waiting, next.waiting, PriorityIndex(s.waiting[i].priority), next.granted, i);
  }

  /** Moving the queue without a new grant adds no rivals ahead of a waiter that stays. */
  lemma MoveRivals(s: State, next: State, i: nat)
    requires Distinct(s.waiting) && i < |s.waiting| && QueueMoves(s, next)
    requires s.granted != Some(s.waiting[i].ticket) && Holds(next.waiting, s.waiting[i].ticket)
    ensures NoMoreRivals(s, next, i)
  {
    if p: nat :| Leaves(s, next, p) {
      StillQueued(s.waiting, next.waiting, i, p);
      RemovalRivals(s, next, i, p);
    } else {
      SamePlaceRivals(s, next, i);
    }
  }

  lemma FairSelectCredits(s: State, i: nat)
    requires Sound(s) && i < |s.waiting| && FairChance(s, i)
    ensures Select(s).1.Some?
  {
    SelectFindsExactly(s);
  }

  lemma QuietStepCredits(w: World, e: Event, i: nat)
    requires Accounted(w) && Enabled(w, e) && NewGrant(w, e) == [] && i < |w.pool.waiting|
    requires Attempts(w, e) ==> FairChance(w.pool, i)
    ensures Step(w, e).pool.credits == w.pool.credits
  {
    if Attempts(w, e) {
      FairSelectCredits(w.pool, i);
    }
  }

  /** A step that grants nobody never raises the potential of a waiter that stays. */
  lemma QuietStepPotential(w: World, e: Event, i: nat)
    requires Accounted(w) && Enabled(w, e) && NewGrant(w, e) == [] && i < |w.pool.waiting|
    requires w.pool.granted != Some(w.pool.waiting[i].ticket)
    requires Attempts(w, e) ==> FairChance(w.pool, i)
    requires Holds(Step(w, e).pool.waiting, w.pool.waiting[i].ticket)
    ensures var next := Step(w, e).pool;
            && Sound(next) && NoMoreRivals(w.pool, next, i)
            && Potential(next, Position(next.waiting, w.pool.waiting[i].ticket).value) <= Potential(w.pool, i)
  {
    AccountedStep(w, e);
    QuietStepMoves(w, e);
    QuietStepCredits(w, e, i);
    MoveRivals(w.pool, Step(w, e).pool, i);
    LowerRivalsLowerPotential(w.pool, Step(w, e).pool, i);
  }

  // ---------------------------------------------------------------- whole runs

  /** Whenever the run tries to choose, `ticket` fits and no reservation is pending. */
  ghost predicate FairRun(w: World, es: seq<Event>, ticket: nat)
    requires Inv(w) && Runs(w, es)
    decreases |es|
  {
    es == [] ||
    (InvStep(w, es[0]);
     && (Attempts(w, es[0]) ==>
           match Position(w.pool.waiting, ticket)
           case Some(i) => FairChance(w.pool, i)
           case None => true)
     && FairRun(Step(w, es[0]), es[1..], ticket))
  }

  /**
   Weighted share: along a run that treats `ticket` fairly and has not chosen it yet, every choice of
   somebody else has used up potential, so fewer than 6 * (k + 2) others are chosen first.
   */
  lemma {:induction false} ShareAlongRun(w: World, es: seq<Event>, ticket: nat)
    requires Inv(w) && Runs(w, es) && FairRun(w, es, ticket)
    requires Holds(w.pool.waiting, ticket) && w.pool.granted != Some(ticket)
    requires Holds(After(w, es).pool.waiting, ticket) && ticket !in Grants(w, es)
    ensures var i := Position(w.pool.waiting, ticket).value;
            |Grants(w, es)| < Potential(w.pool, i)
    decreases |es|
  {
    var i := Position(w.pool.waiting, ticket).value;
    PotentialBound(w.pool, i);
    if es != [] {
      var e, next := es[0], Step(w, es[0]);
      InvStep(w, e);
      QueuedUntilTheEnd(w, es, ticket);
      assert NewGrant(w, e) <= Grants(w, es);
      if NewGrant(w, e) == [] {
        QuietStepPotential(w, e, i);
      } else {
        GrantStepPotential(w, e, i);
      }
      ShareAlongRun(next, es[1..], ticket);
    }
  }

  /** A claim takes out the granted entry and keeps the credits. */
  lemma ClaimRemoves(s: State, ticket: nat)
    requires Sound(s) && Poll(s, ticket, false).1.Claimed?
    ensures var o, next := Offer(s).0, Poll(s, ticket, false).0;
            && next.credits == o.credits && o.granted == Some(ticket)
            && var p := Position(o.waiting, ticket);
            p.Some? && Leaves(o, next, p.value)
  {
  }

  /** After an offer to somebody else, the rest of the poll does not raise the potential. */
  lemma PollKeepsPotential(s: State, ticket: nat, i: nat)
    requires Sound(s) && i < |s.waiting| && Sound(Poll(s, ticket, false).0)
    requires Offer(s).0.granted != Some(s.waiting[i].ticket)
    requires Holds(Poll(s, ticket, false).0.waiting, s.waiting[i].ticket)
    ensures var o, next := Offer(s).0, Poll(s, ticket, false).0;
            && Sound(o) && |o.waiting| == |s.waiting|
            && next.granted != Some(s.waiting[i].ticket)
            && Potential(next, Position(next.waiting, s.waiting[i].ticket).value) <= Potential(o, i)
  {
    OfferFrame(s);
    var o, next := Offer(s).0, Poll(s, ticket, false).0;
    assert o.waiting[i].ticket == s.waiting[i].ticket;
    if Poll(s, ticket, false).1.Claimed? {
      ClaimRemoves(s, ticket);
    }
    assert QueueMoves(o, next);
    MoveRivals(o, next, i);
    LowerRivalsLowerPotential(o, next, i);
  }

  lemma OfferedToAnother(s: State, i: nat)
    requires Sound(s) && s.granted.None? && i < |s.waiting| && Select(s).1.Some? && Select(s).1 != Some(i)
    ensures Offer(s).0.granted != Some(s.waiting[i].ticket)
  {
    hide Select;
    OfferSelected(s);
    OfferFrame(s);
  }

  /** Choosing somebody else lowers the potential of a waiter that stays, even if the choice claims at once. */
  lemma GrantPotential(s: State, ticket: nat, i: nat)
    requires Sound(s) && s.granted.None? && i < |s.waiting| && FairChance(s, i)
    requires Select(s).1 != Some(i)
    requires Sound(Poll(s, ticket, false).0) && Holds(Poll(s, ticket, false).0.waiting, s.waiting[i].ticket)
    ensures var next := Poll(s, ticket, false).0;
            && next.granted != Some(s.waiting[i].ticket)
            && Potential(next, Position(next.waiting, s.waiting[i].ticket).value) + 1 <= Potential(s, i)
  {
    hide Potential, Offer, Poll, Select, FairChance;
    PassedOverCosts(s, i);
    OfferedToAnother(s, i);
    PollKeepsPotential(s, ticket, i);
  }

  lemma GrantStepPotential(w: World, e: Event, i: nat)
    requires Accounted(w) && Enabled(w, e) && i < |w.pool.waiting|
    requires NewGrant(w, e) != [] && w.pool.waiting[i].ticket !in NewGrant(w, e) && FairChance(w.pool, i)
    requires Holds(Step(w, e).pool.waiting, w.pool.waiting[i].ticket)
    ensures var next, ticket := Step(w, e).pool, w.pool.waiting[i].ticket;
            && Sound(next)
            && next.granted != Some(ticket)
            && Potential(next, Position(next.waiting, ticket).value) + 1 <= Potential(w.pool, i)
  {
    AccountedStep(w, e);
    PollStepPool(w, e.ticket, false);
    GrantPotential(w.pool, e.ticket, i);
  }

  /** The stated form of the share: within 6 * (k + 2) choices, k being the same-class waiters ahead. */
  lemma WeightedShare(w: World, es: seq<Event>, ticket: nat)
    requires Inv(w) && Runs(w, es) && FairRun(w, es, ticket)
    requires Holds(w.pool.waiting, ticket) && w.pool.granted != Some(ticket)
    requires var i := Position(w.pool.waiting, ticket).value;
             |Grants(w, es)| >= 6 * (Rivals(w.pool.waiting, PriorityIndex(w.pool.waiting[i].priority), w.pool.granted, i) + 2)
    ensures ticket in Grants(w, es) || !Holds(After(w, es).pool.waiting, ticket)
  {
    var i := Position(w.pool.waiting, ticket).value;
    PotentialBound(w.pool, i);
    if ticket !in Grants(w, es) && Holds(After(w, es).pool.waiting, ticket) {
      ShareAlongRun(w, es, ticket);
    }
  }
}
