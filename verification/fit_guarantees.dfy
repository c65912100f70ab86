/**
 What fitting a conversation guarantees, and exactly when two expectations hold that it does not always meet:
 a refusal leaves nothing to shrink, and a fitted conversation is nowhere longer
 (packages/mcp/src/research/fit.ts, lines 171 to 251).
 */
module FitGuarantees {
  import opened Wrappers
  import opened Text16
  import opened Clipping
  import opened ContextFit
  import opened FitRounds
  import opened FitConversation

  // ---------------------------------------------------------------- the stages keep the shape

  /** As many messages, with texts at the same places. */
  ghost predicate Alike(a: Messages, b: Messages) {
    |b| == |a| && forall i :: 0 <= i < |a| ==> IsText(b[i]) == IsText(a[i])
  }

  lemma SamePlaces(a: Messages, b: Messages)
    requires Alike(a, b)
    ensures Texts(a) == Texts(b) && PinnedTexts(a) == PinnedTexts(b)
    ensures Places(Texts(a), b) && Places(PinnedTexts(a), b) && Places(Observed(a), b)
  {
    SameTexts(a, b, Pinned(a), |a|);
    SameTexts(a, b, 0, Pinned(a));
  }

  lemma StagesAlike(q: Case, g: Progress)
    requires ValidPolicy(q.policy) && g.compacted <= |Observed(q.messages)|
    ensures Alike(q.messages, Compacted(q, g.compacted)) && Alike(q.messages, ObservationsShrunk(q, g))
    ensures Alike(q.messages, ThinkingReduced(q, g)) && Alike(q.messages, TextsShrunk(q, g))
    ensures Alike(q.messages, Reached(q, g))
  {
    hide PlacesWhere, ShrunkBy, CompactedUpTo, IsText, RethoughtUpTo;
  }

  lemma TextsAscend(messages: Messages)
    ensures Ascending(Observed(messages)) && Ascending(Texts(messages)) && Ascending(PinnedTexts(messages))
    ensures Within(Observed(messages), Texts(messages))
    ensures forall i :: 0 <= i < |messages| && IsText(messages[i]) ==>
              i in if i < Pinned(messages) then PinnedTexts(messages) else Texts(messages)
  {
    PlacesAre(IsObservation, messages, Pinned(messages), |messages|);
    PlacesAre(IsText, messages, Pinned(messages), |messages|);
    PlacesAre(IsText, messages, 0, Pinned(messages));
  }

  /** How each stage differs from the one before. */
  lemma StagesReduce(q: Case, g: Progress)
    requires ValidPolicy(q.policy) && g.compacted <= |Observed(q.messages)|
    ensures AllReduced(q.messages, Compacted(q, g.compacted), Observed(q.messages))
    ensures AllReduced(Compacted(q, g.compacted), ObservationsShrunk(q, g), Observed(q.messages))
    ensures AllReduced(ThinkingReduced(q, g), TextsShrunk(q, g), Texts(q.messages))
    ensures AllReduced(TextsShrunk(q, g), Reached(q, g), if q.policy.overflow.Fail? then [] else PinnedTexts(q.messages))
  {
    hide PlacesWhere, ShrunkBy, CompactedUpTo, IsText, RethoughtUpTo, Width;
    StagesAlike(q, g);
    SamePlaces(q.messages, ThinkingReduced(q, g));
    SamePlaces(q.messages, TextsShrunk(q, g));
    TextsAscend(q.messages);
    CompactingReduces(q, g.compacted);
    ShrinkingReduces(Compacted(q, g.compacted), Observed(q.messages), q.policy, g.observed);
    ShrinkingReduces(ThinkingReduced(q, g), Texts(q.messages), q.policy, g.shortened);
    ShrinkingReduces(TextsShrunk(q, g), PinnedTexts(q.messages), q.policy, g.pinned);
  }

  // ---------------------------------------------------------------- what a fitted conversation is

  /** Contents are the same or strictly shorter; thinking is the same, or compacted where it was long and old. */
  ghost predicate Fitted(q: Case, r: Messages) {
    var m := q.messages;
    && |r| == |m|
    && forall i :: 0 <= i < |m| ==>
         && r[i] == m[i].(content := r[i].content, thinking := r[i].thinking)
         && (r[i].content == m[i].content || (IsText(m[i]) && IsText(r[i]) && Width(r[i]) < Width(m[i])))
         && (|| r[i].thinking == m[i].thinking
             || (2 <= i < |m| - 2 && LongThinking(m[i], q.policy.preview) && r[i].thinking == Some(q.compact(m[i].thinking.value))))
         && (i < 2 && q.policy.overflow.Fail? ==> r[i] == m[i])
  }

  /** The thinking in the end depends only on how far that stage went. */
  lemma FinalThinking(q: Case, g: Progress)
    requires ValidPolicy(q.policy) && g.compacted <= |Observed(q.messages)|
    ensures forall i :: 0 <= i < |q.messages| ==>
              Reached(q, g)[i].thinking
              == if Pinned(q.messages) <= i < g.rethought then Rethink(q.messages[i], q.policy.preview, q.compact).thinking
                 else q.messages[i].thinking
  {
    hide PlacesWhere, ShrunkBy, CompactedUpTo, Width, Length;
    hide Compacted, ObservationsShrunk, TextsShrunk, Reached;
    StagesReduce(q, g);
  }

  lemma StagesFit(q: Case, g: Progress)
    requires ValidPolicy(q.policy) && g.compacted <= |Observed(q.messages)| && g.rethought <= ThinkingEnd(q.messages)
    ensures Fitted(q, Reached(q, g))
  {
    hide PlacesWhere, ShrunkBy, CompactedUpTo, Width, LongThinking, IsText;
    hide Compacted, ObservationsShrunk, TextsShrunk, Reached;
    StagesReduce(q, g);
    FinalThinking(q, g);
    var m, r := q.messages, Reached(q, g);
    forall i | 0 <= i < |m|
      ensures r[i] == m[i].(content := r[i].content, thinking := r[i].thinking)
      ensures r[i].content == m[i].content || (IsText(m[i]) && IsText(r[i]) && Width(r[i]) < Width(m[i]))
      ensures i < 2 && q.policy.overflow.Fail? ==> r[i] == m[i]
    {
      var a, b, c, d := Compacted(q, g.compacted), ObservationsShrunk(q, g), ThinkingReduced(q, g), TextsShrunk(q, g);
      assert Reduced(m[i], a[i]) && Reduced(a[i], b[i]) && Reduced(c[i], d[i]) && Reduced(d[i], r[i]);
      assert c[i] == b[i].(thinking := c[i].thinking);
      SameWidth(b[i], c[i]);
    }
  }

  lemma SameWidth(m: Message, n: Message)
    requires m.content == n.content
    ensures Width(m) == Width(n) && IsText(m) == IsText(n)
  {
  }

  // ---------------------------------------------------------------- the order of the stages

  /** Rounds needed once every old observation is compacted: by observations, by texts that are not pinned, by pinned ones. */
  datatype Needs = Needs(observed: nat, texts: nat, pinned: nat)

  function RoundsNeeded(q: Case): (n: Needs)
    requires ValidPolicy(q.policy)
    ensures n.observed <= n.texts
  {
    var s := Compacted(q, |Observed(q.messages)|);
    StagesAlike(q, Progress(|Observed(q.messages)|, 0, 0, 0, 0));
    SamePlaces(q.messages, s);
    TextsAscend(q.messages);
    var n := Needs(TotalRounds(s, Observed(q.messages), q.policy),
                   TotalRounds(s, Texts(q.messages), q.policy),
                   TotalRounds(q.messages, PinnedTexts(q.messages), q.policy));
    RoundsTake(s, Observed(q.messages), Texts(q.messages), q.policy, n.observed);
    n
  }

  /** As far as every stage can go. */
  function AllTheWay(q: Case): Progress
    requires ValidPolicy(q.policy)
  {
    var n := RoundsNeeded(q);
    Progress(
      |Observed(q.messages)|,
      Least(ROUNDS, n.observed),
      ThinkingEnd(q.messages),
      Least(ROUNDS, n.texts - Least(ROUNDS, n.observed)),
      if q.policy.overflow.Fail? then 0 else Least(ROUNDS, n.pinned)
    )
  }

  /** The rounds that are left at each loop, when all observations have been compacted. */
  lemma RoundsAtStages(q: Case, g: Progress)
    requires ValidPolicy(q.policy) && g.compacted == |Observed(q.messages)|
    ensures TotalRounds(Compacted(q, g.compacted), Observed(q.messages), q.policy) == RoundsNeeded(q).observed
    ensures TotalRounds(ThinkingReduced(q, g), Texts(ThinkingReduced(q, g)), q.policy)
            == RoundsNeeded(q).texts - Least(g.observed, RoundsNeeded(q).observed)
    ensures TotalRounds(TextsShrunk(q, g), PinnedTexts(TextsShrunk(q, g)), q.policy) == RoundsNeeded(q).pinned
  {
    hide PlacesWhere, ShrunkBy, CompactedUpTo, Width, IsText, RoundsLeft, TotalRounds;
    hide Compacted, TextsShrunk, Observed, Texts, PinnedTexts;
    StagesAlike(q, g);
    SamePlaces(q.messages, Compacted(q, g.compacted));
    SamePlaces(q.messages, ObservationsShrunk(q, g));
    SamePlaces(q.messages, ThinkingReduced(q, g));
    SamePlaces(q.messages, TextsShrunk(q, g));
    TextsAscend(q.messages);
    RoundsTake(Compacted(q, g.compacted), Observed(q.messages), Texts(q.messages), q.policy, g.observed);
    SameContents(ObservationsShrunk(q, g), ThinkingReduced(q, g), Texts(q.messages), q.policy);
    PinnedUntouched(q, g);
  }

  lemma SameContents(a: Messages, b: Messages, places: seq<nat>, p: Policy)
    requires ValidPolicy(p) && Places(places, a) && Places(places, b) && |a| == |b|
    requires forall i :: 0 <= i < |a| ==> a[i].content == b[i].content
    ensures TotalRounds(a, places, p) == TotalRounds(b, places, p)
  {
    SameTotal(a, b, places, p);
  }

  /** Until the last stage pinned messages are as they were. */
  lemma PinnedUntouched(q: Case, g: Progress)
    requires ValidPolicy(q.policy) && g.compacted <= |Observed(q.messages)|
    ensures Places(PinnedTexts(q.messages), TextsShrunk(q, g))
    ensures TotalRounds(TextsShrunk(q, g), PinnedTexts(q.messages), q.policy)
            == TotalRounds(q.messages, PinnedTexts(q.messages), q.policy)
  {
    hide ShrunkBy, CompactedUpTo, Width, IsText, RoundsLeft, TotalRounds, PlacesWhere;
    hide Compacted, ObservationsShrunk, TextsShrunk;
    StagesReduce(q, g);
    StagesAlike(q, g);
    SamePlaces(q.messages, TextsShrunk(q, g));
    var a, b, c, d := Compacted(q, g.compacted), ObservationsShrunk(q, g), ThinkingReduced(q, g), TextsShrunk(q, g);
    var places := PinnedTexts(q.messages);
    forall k | 0 <= k < |places| ensures d[places[k]] == q.messages[places[k]] {
      var i := places[k];
      assert i < Pinned(q.messages);
      assert i !in Observed(q.messages) && i !in Texts(q.messages);
      assert c[i] == b[i];
    }
    SameTotal(q.messages, d, places, q.policy);
  }

  lemma NothingRethought(messages: Messages, from: nat, preview: nat, compact: Compactor)
    ensures RethoughtUpTo(messages, from, from, preview, compact) == messages
  {
  }

  lemma NoRounds(messages: Messages, places: seq<nat>, p: Policy)
    requires ValidPolicy(p) && Places(places, messages)
    ensures ShrunkBy(messages, places, p, 0) == messages
  {
  }

  /** Once the estimate fits, nothing more is done. */
  lemma FitsAndStays(q: Case, count: Counter, budget: nat, g: Progress)
    requires ValidPolicy(q.policy) && Stops(q, count, budget, g)
    ensures count(TextsShrunk(q, g)) <= budget ==> Reached(q, g) == TextsShrunk(q, g)
    ensures count(ThinkingReduced(q, g)) <= budget ==> TextsShrunk(q, g) == ThinkingReduced(q, g)
    ensures count(ObservationsShrunk(q, g)) <= budget ==> ThinkingReduced(q, g) == ObservationsShrunk(q, g)
    ensures count(Compacted(q, g.compacted)) <= budget ==> ObservationsShrunk(q, g) == Compacted(q, g.compacted)
  {
    hide CompactingStops, AllNarrow, RethoughtUpTo, ShrunkBy, CompactedUpTo, PlacesWhere;
    var a, b, c, d := Compacted(q, g.compacted), ObservationsShrunk(q, g), ThinkingReduced(q, g), TextsShrunk(q, g);
    NoRounds(a, Observed(q.messages), q.policy);
    NothingRethought(b, Pinned(b), q.policy.preview, q.compact);
    NoRounds(c, Texts(c), q.policy);
    NoRounds(d, PinnedTexts(d), q.policy);
  }

  /** A stage does something only when the stages before it went all the way, which was not enough. */
  lemma OrderOfLoss(q: Case, count: Counter, budget: nat, g: Progress)
    requires ValidPolicy(q.policy) && Stops(q, count, budget, g)
    ensures var all := AllTheWay(q);
            && (g.observed > 0 ==> g.compacted == all.compacted)
            && (g.rethought > Pinned(q.messages) ==> g.observed == all.observed && g.compacted == all.compacted)
            && (g.shortened > 0 ==> g.rethought == all.rethought && g.observed == all.observed && g.compacted == all.compacted)
            && (g.pinned > 0 || count(Reached(q, g)) > budget ==>
                  && g.shortened == all.shortened && g.rethought == all.rethought
                  && g.observed == all.observed && g.compacted == all.compacted)
            && (count(Reached(q, g)) > budget ==> g == all)
  {
    hide AllNarrow, RethoughtUpTo, ShrunkBy, CompactedUpTo, PlacesWhere, TotalRounds, RoundsNeeded, Observed, Texts, PinnedTexts;
    var a, b, c, d := Compacted(q, g.compacted), ObservationsShrunk(q, g), ThinkingReduced(q, g), TextsShrunk(q, g);
    FitsAndStays(q, count, budget, g);
    NoRounds(a, Observed(q.messages), q.policy);
    NothingRethought(b, Pinned(b), q.policy.preview, q.compact);
    NoRounds(c, Texts(c), q.policy);
    NoRounds(d, PinnedTexts(d), q.policy);
    TextsAscend(q.messages);
    TextsAscend(c);
    TextsAscend(d);
    if count(a) > budget {
      assert g.compacted == |Observed(q.messages)|;
      RoundsAtStages(q, g);
      if count(b) > budget { OverBudgetRounds(a, Observed(q.messages), q.policy, count, budget, g.observed); }
      if count(d) > budget { OverBudgetRounds(c, Texts(c), q.policy, count, budget, g.shortened); }
      if count(Reached(q, g)) > budget && q.policy.overflow.ClipPinned? {
        OverBudgetRounds(d, PinnedTexts(d), q.policy, count, budget, g.pinned);
      }
    }
  }

  /** Where fitting stops is determined. */
  lemma StopsUnique(q: Case, count: Counter, budget: nat, g: Progress, h: Progress)
    requires ValidPolicy(q.policy) && Stops(q, count, budget, g) && Stops(q, count, budget, h)
    ensures g == h
  {
    hide RoundsStop, RethoughtUpTo, ShrunkBy, CompactedUpTo, PlacesWhere;
    assert g.compacted == h.compacted;
    RoundsUnique(Compacted(q, g.compacted), Observed(q.messages), q.policy, count, budget, g.observed, h.observed);
    assert g.rethought == h.rethought;
    var c := ThinkingReduced(q, g);
    RoundsUnique(c, Texts(c), q.policy, count, budget, g.shortened, h.shortened);
    var d := TextsShrunk(q, g);
    if q.policy.overflow.ClipPinned? { RoundsUnique(d, PinnedTexts(d), q.policy, count, budget, g.pinned, h.pinned); }
  }

  /** A counter under which nothing ever fits drives every stage all the way. */
  lemma NeverFits(q: Case, count: Counter, budget: nat)
    requires ValidPolicy(q.policy) && forall c :: count(c) > budget
    ensures Stops(q, count, budget, AllTheWay(q))
  {
    hide AllNarrow, RethoughtUpTo, ShrunkBy, CompactedUpTo, PlacesWhere, TotalRounds, RoundsNeeded, Observed, Texts, PinnedTexts;
    hide RoundsStop;
    var g := AllTheWay(q);
    var a, c, d := Compacted(q, g.compacted), ThinkingReduced(q, g), TextsShrunk(q, g);
    RoundsAtStages(q, g);
    TextsAscend(q.messages);
    TextsAscend(c);
    TextsAscend(d);
    NeverFitting(a, Observed(q.messages), q.policy, count, budget);
    NeverFitting(c, Texts(c), q.policy, count, budget);
    NeverFitting(d, PinnedTexts(d), q.policy, count, budget);
  }

  // ---------------------------------------------------------------- a refusal

  /** Nothing is left to shrink: no text is wider than the preview, pinned ones included if they may be clipped. */
  ghost predicate Exhausted(r: Messages, p: Policy) {
    forall i :: 0 <= i < |r| && (i >= 2 || p.overflow.ClipPinned?) ==> Width(r[i]) <= p.preview
  }

  /** 200 rounds are enough for each loop. Known before anything is counted. */
  predicate RoundsSuffice(q: Case)
    requires ValidPolicy(q.policy)
  {
    var n := RoundsNeeded(q);
    && n.texts - Least(ROUNDS, n.observed) <= ROUNDS
    && (q.policy.overflow.ClipPinned? ==> n.pinned <= ROUNDS)
  }

  lemma ExhaustedExactly(q: Case)
    requires ValidPolicy(q.policy)
    ensures Exhausted(Reached(q, AllTheWay(q)), q.policy) <==> RoundsSuffice(q)
  {
    hide RethoughtUpTo, ShrunkBy, CompactedUpTo, PlacesWhere, TotalRounds, RoundsNeeded, Observed, Texts, PinnedTexts;
    hide Compacted, Width, ThinkingReduced;
    var m, p, g := q.messages, q.policy, AllTheWay(q);
    var c, d, r := ThinkingReduced(q, g), TextsShrunk(q, g), Reached(q, g);
    RoundsAtStages(q, g);
    StagesAlike(q, g);
    SamePlaces(m, c);
    SamePlaces(m, d);
    SamePlaces(m, r);
    TextsAscend(m);
    NarrowExactly(c, Texts(c), p, g.shortened);
    StagesReduce(q, g);
    PinnedPlaces(m);
    if p.overflow.ClipPinned? { NarrowExactly(d, PinnedTexts(d), p, g.pinned); }
    assert forall k :: 0 <= k < |Texts(m)| ==> r[Texts(m)[k]] == d[Texts(m)[k]];
    NarrowMeans(m, r, p);
  }

  lemma PinnedPlaces(messages: Messages)
    ensures forall k :: 0 <= k < |Texts(messages)| ==> Texts(messages)[k] !in PinnedTexts(messages)
  {
    assert forall k :: 0 <= k < |PinnedTexts(messages)| ==> PinnedTexts(messages)[k] < Pinned(messages);
  }

  lemma NarrowMeans(messages: Messages, r: Messages, p: Policy)
    requires Alike(messages, r)
    ensures Exhausted(r, p) <==>
            && AllNarrow(r, Texts(messages), p.preview)
            && (p.overflow.ClipPinned? ==> AllNarrow(r, PinnedTexts(messages), p.preview))
  {
    hide PlacesWhere;
    TextsAscend(messages);
  }

  /** What a refusal says about the conversation left. */
  lemma RefusedExactly(q: Case, count: Counter, budget: nat, g: Progress)
    requires ValidPolicy(q.policy) && Stops(q, count, budget, g)
    requires count(Reached(q, g)) > budget
    ensures g == AllTheWay(q)
    ensures Exhausted(Reached(q, g), q.policy) <==> RoundsSuffice(q)
  {
    OrderOfLoss(q, count, budget, g);
    ExhaustedExactly(q);
  }

  /** "A refusal leaves nothing to shrink" holds for every counter and budget exactly if 200 rounds are enough. */
  lemma NothingLeftExactly(q: Case)
    requires ValidPolicy(q.policy)
    ensures (forall count: Counter, budget: nat, g: Progress ::
               count(q.messages) > budget && Stops(q, count, budget, g) && count(Reached(q, g)) > budget ==>
                 Exhausted(Reached(q, g), q.policy))
            <==> RoundsSuffice(q)
  {
    hide Stops, Reached, Exhausted, RoundsSuffice, AllTheWay;
    var one: Counter := c => 1;
    NeverFits(q, one, 0);
    AllObserved(q);
    RefusedExactly(q, one, 0, AllTheWay(q));
    forall count: Counter, budget: nat, g: Progress
      | count(q.messages) > budget && Stops(q, count, budget, g) && count(Reached(q, g)) > budget
      ensures Exhausted(Reached(q, g), q.policy) <==> RoundsSuffice(q)
    {
      RefusedExactly(q, count, budget, g);
    }
  }

  lemma AllObserved(q: Case)
    requires ValidPolicy(q.policy)
    ensures AllTheWay(q).compacted == |Observed(q.messages)|
  {
  }

  // ---------------------------------------------------------------- thinking

  ghost predicate Grown(m: Message, n: Message) {
    m.thinking.Some? && n.thinking.Some? && Length(n.thinking.value) > Length(m.thinking.value)
  }

  /** Long thinking that compaction does not make shorter: it is not compared with what it replaces. */
  predicate GrowsWhenCompacted(m: Message, preview: nat, compact: Compactor) {
    LongThinking(m, preview) && Length(compact(m.thinking.value)) > Length(m.thinking.value)
  }

  /** Which thinking is longer in the end. */
  lemma GrowsExactly(q: Case, count: Counter, budget: nat, g: Progress, i: nat)
    requires ValidPolicy(q.policy) && Stops(q, count, budget, g) && i < |q.messages|
    ensures Grown(q.messages[i], Reached(q, g)[i]) <==>
            2 <= i < |q.messages| - 2 && i < g.rethought && GrowsWhenCompacted(q.messages[i], q.policy.preview, q.compact)
  {
    hide Length, Reached, CompactingStops, RoundsStop;
    FinalThinking(q, g);
  }

  /** No counter and no budget make a fitted thinking longer exactly if no long old thinking grows when compacted. */
  lemma NeverGrowsExactly(q: Case)
    requires ValidPolicy(q.policy)
    ensures (forall count: Counter, budget: nat, g: Progress, i: nat ::
               count(q.messages) > budget && Stops(q, count, budget, g) && i < |q.messages| ==>
                 !Grown(q.messages[i], Reached(q, g)[i]))
            <==> forall i :: 2 <= i < |q.messages| - 2 ==> !GrowsWhenCompacted(q.messages[i], q.policy.preview, q.compact)
  {
    hide Stops, Reached, Grown, GrowsWhenCompacted, RoundsNeeded;
    var one: Counter := c => 1;
    NeverFits(q, one, 0);
    forall i | 2 <= i < |q.messages| - 2
      ensures Grown(q.messages[i], Reached(q, AllTheWay(q))[i])
              <==> GrowsWhenCompacted(q.messages[i], q.policy.preview, q.compact)
    {
      GrowsExactly(q, one, 0, AllTheWay(q), i);
    }
    forall count: Counter, budget: nat, g: Progress, i: nat
      | count(q.messages) > budget && Stops(q, count, budget, g) && i < |q.messages|
      ensures Grown(q.messages[i], Reached(q, g)[i]) ==>
                2 <= i < |q.messages| - 2 && GrowsWhenCompacted(q.messages[i], q.policy.preview, q.compact)
    {
      GrowsExactly(q, count, budget, g, i);
    }
  }

  // ---------------------------------------------------------------- recent observations

  lemma {:induction false} PlacesSplit(f: Message -> bool, messages: Messages, from: nat, middle: nat, end: nat)
    requires from <= middle <= end <= |messages|
    ensures PlacesWhere(f, messages, from, end)
            == PlacesWhere(f, messages, from, middle) + PlacesWhere(f, messages, middle, end)
    decreases end
  {
    if middle < end { PlacesSplit(f, messages, from, middle, end - 1); }
  }

  /** How many texts of users and tools there are in a stretch. */
  function ObservationsIn(messages: Messages, from: nat, end: nat): (n: nat)
    requires end <= |messages|
    decreases end
  {
    if end <= from then 0 else
      var m := messages[end - 1];
      ObservationsIn(messages, from, end - 1) + if (m.role == "user" || m.role == "tool") && m.content.Words? then 1 else 0
  }

  lemma {:induction false} CountIs(messages: Messages, from: nat, end: nat)
    requires end <= |messages|
    ensures |PlacesWhere(IsObservation, messages, from, end)| == ObservationsIn(messages, from, end)
    decreases end
  {
    if from < end { CountIs(messages, from, end - 1); }
  }

  /** The place of an observation among all of them is how many stand before it. */
  lemma PlaceOf(messages: Messages, i: nat)
    requires i < |messages| && Pinned(messages) <= i && IsObservation(messages[i])
    ensures var places, k := Observed(messages), ObservationsIn(messages, Pinned(messages), i);
            && k < |places| && places[k] == i
            && |places| == k + 1 + ObservationsIn(messages, i + 1, |messages|)
  {
    var m := messages;
    CountIs(m, Pinned(m), i);
    CountIs(m, i + 1, |m|);
    PlacesSplit(IsObservation, m, Pinned(m), i, |m|);
    PlacesSplit(IsObservation, m, i, i + 1, |m|);
    assert PlacesWhere(IsObservation, m, i, i + 1) == [i];
  }

  /** Exactly the last `keep` of the observations are protected. */
  lemma ProtectedExactly(places: seq<nat>, keep: nat, k: nat)
    requires Ascending(places) && k < |places|
    ensures places[k] in Protected(places, keep) <==> |places| - k - 1 < keep
  {
    var kept := Protected(places, keep);
    if keep < |places| {
      var d := |places| - keep;
      assert forall j :: 0 <= j < |kept| ==> kept[j] == places[d + j];
      if k >= d { assert kept[k - d] == places[k]; }
    }
  }

  /** After `n` of them each of the first `n` is compacted, unless it is kept. */
  lemma {:induction false} CompactedDone(messages: Messages, places: seq<nat>, kept: seq<nat>, compact: Compactor, n: nat, k: nat)
    requires Places(places, messages) && Ascending(places) && k < n <= |places|
    ensures CompactedUpTo(messages, places, kept, compact, n)[places[k]]
            == if places[k] in kept then messages[places[k]]
               else messages[places[k]].(content := CompactedContent(messages[places[k]].content, compact))
    decreases n
  {
    hide CompactedContent;
    CompactedAt(messages, places, kept, compact, n - 1);
    if k < n - 1 { CompactedDone(messages, places, kept, compact, n - 1, k); }
  }

  /**
   Compacting alone changes exactly this: a text of a user or tool after the first two messages, with fewer than
   `n` such before it and at least `keep` after it, that its breadcrumb is shorter than.
   */
  lemma CompactedExactly(q: Case, n: nat, i: nat)
    requires n <= |Observed(q.messages)| && i < |q.messages|
    ensures var m, r := q.messages[i], Compacted(q, n)[i];
            var changed :=
              && i >= 2 && (m.role == "user" || m.role == "tool") && m.content.Words?
              && ObservationsIn(q.messages, 2, i) < n
              && ObservationsIn(q.messages, i + 1, |q.messages|) >= q.keep
              && Length(q.compact(m.content.text)) < Length(m.content.text);
            r == if changed then m.(content := Words(q.compact(m.content.text))) else m
  {
    hide Length, PlacesWhere, CompactedUpTo, Protected, ObservationsIn;
    var m, places := q.messages, Observed(q.messages);
    TextsAscend(m);
    CompactedAt(m, places, Protected(places, q.keep), q.compact, n);
    if Pinned(m) <= i && IsObservation(m[i]) {
      PlaceOf(m, i);
      var k := ObservationsIn(m, Pinned(m), i);
      ProtectedExactly(places, q.keep, k);
      if k < n { CompactedDone(m, places, Protected(places, q.keep), q.compact, n, k); }
    }
  }

  /** Compacting goes on to nine tenths of the budget: the first number of observations that suffices, or all. */
  lemma CompactsToNineTenths(q: Case, count: Counter, budget: nat, g: Progress)
    requires ValidPolicy(q.policy) && Stops(q, count, budget, g)
    ensures g.compacted < |Observed(q.messages)| ==> 10 * count(Compacted(q, g.compacted)) <= 9 * budget
    ensures forall n :: 0 <= n < g.compacted ==> 10 * count(Compacted(q, n)) > 9 * budget
  {
    hide RoundsStop, RethinkingStops, CompactedUpTo, PlacesWhere, Protected;
  }

  /**
   A round on the first widest text cuts it to a share of its length, or to the preview where that is more,
   and touches nothing else.
   */
  lemma RoundExactly(messages: Messages, places: seq<nat>, p: Policy, w: nat, share: nat)
    requires ValidPolicy(p) && Places(places, messages) && Ascending(places)
    requires w in places && Width(messages[w]) > p.preview
    requires forall i :: i in places ==> Width(messages[i]) < Width(messages[w]) || (Width(messages[i]) == Width(messages[w]) && w <= i)
    requires share as real <= Width(messages[w]) as real * p.retainRatio < share as real + 1.0
    ensures Round(messages, places, p)
            == messages[w := messages[w].(content :=
                 Words(ClipText(messages[w].content.text, if share > p.preview then share else p.preview, p.headRatio)))]
  {
    hide Width, ClipText, Share, WidestPlace, Ascending;
    FirstWidestIs(messages, places, w);
    ShareIs(Width(messages[w]), p.retainRatio, share);
    assert !AllNarrow(messages, places, p.preview) by {
      var k :| 0 <= k < |places| && places[k] == w;
    }
  }

  lemma FirstWidestIs(messages: Messages, places: seq<nat>, w: nat)
    requires w in places && Places(places, messages) && Ascending(places)
    requires forall i :: i in places ==> Width(messages[i]) < Width(messages[w]) || (Width(messages[i]) == Width(messages[w]) && w <= i)
    ensures WidestPlace(places, messages) == w
  {
    hide Width;
    WidestIs(places, messages);
  }

  lemma ShareIs(n: nat, ratio: real, share: nat)
    requires 0.0 < ratio < 1.0 && share as real <= n as real * ratio < share as real + 1.0
    ensures Share(n, ratio) == share
  {
  }

  /** All that happens to thinking: what is longer than the preview is compacted, from the third message to where it stopped. */
  lemma ThinkingExactly(q: Case, count: Counter, budget: nat, g: Progress, i: nat)
    requires ValidPolicy(q.policy) && Stops(q, count, budget, g) && i < |q.messages|
    ensures var t := q.messages[i].thinking;
            Reached(q, g)[i].thinking
            == if 2 <= i < g.rethought && i < |q.messages| - 2 && t.Some? && |CodePoints(t.value)| > q.policy.preview
               then Some(q.compact(t.value)) else t
  {
    hide Reached, CompactingStops, RoundsStop, CodePoints;
    FinalThinking(q, g);
  }

  /** The budget is what the window leaves beside the answer and the margin, if anything. */
  lemma BudgetExactly(numCtx: int, numPredict: int, margin: nat)
    ensures var b := ContextBudget(numCtx, numPredict, margin);
            if numPredict + margin < numCtx then b + numPredict + margin == numCtx else b == 0
  {
  }
}
