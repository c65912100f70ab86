/**
 Fitting a whole conversation into the context window
 (packages/mcp/src/research/fit.ts, lines 171 to 251).

 Five stages follow one another. What is reached is a function of how far each of them went, and each goes on
 exactly while the estimate is too high and it has something left to do.
 */
module FitConversation {
  import opened Wrappers
  import opened Clipping
  import opened ContextFit

  datatype FitError = DoesNotFit(estimate: nat, budget: nat)

  /** A conversation to fit, how many of its last observations to protect, and how. */
  datatype Case = Case(messages: Messages, keep: nat, policy: Policy, compact: Compactor)

  /** Observations walked over, rounds on observations, end of the thinking gone through, rounds on texts and on pinned texts. */
  datatype Progress = Progress(compacted: nat, observed: nat, rethought: nat, shortened: nat, pinned: nat)

  /** How many of the first messages are pinned. */
  function Pinned(messages: Messages): nat { if |messages| < 2 then |messages| else 2 }

  /** The last two messages keep their thinking. */
  function ThinkingEnd(messages: Messages): (end: nat)
    ensures Pinned(messages) <= end <= |messages|
  {
    if |messages| >= Pinned(messages) + 2 then |messages| - 2 else Pinned(messages)
  }

  function Observed(messages: Messages): (places: seq<nat>)
    ensures Places(places, messages)
  {
    PlacesWhere(IsObservation, messages, Pinned(messages), |messages|)
  }

  function Texts(messages: Messages): (places: seq<nat>)
    ensures Places(places, messages)
  {
    PlacesWhere(IsText, messages, Pinned(messages), |messages|)
  }

  function PinnedTexts(messages: Messages): (places: seq<nat>)
    ensures Places(places, messages)
  {
    PlacesWhere(IsText, messages, 0, Pinned(messages))
  }

  // ---------------------------------------------------------------- the stages

  function Compacted(q: Case, n: nat): (r: Messages)
    requires n <= |Observed(q.messages)|
    ensures |r| == |q.messages| && Places(Observed(q.messages), r)
  {
    var places := Observed(q.messages);
    CompactedUpTo(q.messages, places, Protected(places, q.keep), q.compact, n)
  }

  function ObservationsShrunk(q: Case, g: Progress): (r: Messages)
    requires ValidPolicy(q.policy) && g.compacted <= |Observed(q.messages)|
    ensures |r| == |q.messages|
  {
    ShrunkBy(Compacted(q, g.compacted), Observed(q.messages), q.policy, g.observed)
  }

  function ThinkingReduced(q: Case, g: Progress): (r: Messages)
    requires ValidPolicy(q.policy) && g.compacted <= |Observed(q.messages)|
    ensures |r| == |q.messages|
  {
    RethoughtUpTo(ObservationsShrunk(q, g), Pinned(q.messages), g.rethought, q.policy.preview, q.compact)
  }

  function TextsShrunk(q: Case, g: Progress): (r: Messages)
    requires ValidPolicy(q.policy) && g.compacted <= |Observed(q.messages)|
    ensures |r| == |q.messages|
  {
    var before := ThinkingReduced(q, g);
    ShrunkBy(before, Texts(before), q.policy, g.shortened)
  }

  function Reached(q: Case, g: Progress): (r: Messages)
    requires ValidPolicy(q.policy) && g.compacted <= |Observed(q.messages)|
    ensures |r| == |q.messages|
  {
    var before := TextsShrunk(q, g);
    if q.policy.overflow.Fail? then before else ShrunkBy(before, PinnedTexts(before), q.policy, g.pinned)
  }

  /** Every stage went on exactly as long as it had to. */
  ghost predicate Stops(q: Case, count: Counter, budget: nat, g: Progress): (b: bool)
    requires ValidPolicy(q.policy)
    ensures b ==> g.compacted <= |Observed(q.messages)|
  {
    var m, p := q.messages, q.policy;
    && CompactingStops(m, Observed(m), Protected(Observed(m), q.keep), q.compact, count, Target(budget), g.compacted)
    && RoundsStop(Compacted(q, g.compacted), Observed(m), p, count, budget, g.observed)
    && RethinkingStops(ObservationsShrunk(q, g), Pinned(m), ThinkingEnd(m), p.preview, q.compact, count, budget, g.rethought)
    && RoundsStop(ThinkingReduced(q, g), Texts(ThinkingReduced(q, g)), p, count, budget, g.shortened)
    && (if p.overflow.Fail? then g.pinned == 0
        else RoundsStop(TextsShrunk(q, g), PinnedTexts(TextsShrunk(q, g)), p, count, budget, g.pinned))
  }

  /** Something was compacted or clipped. */
  ghost predicate Changed(q: Case, g: Progress)
    requires ValidPolicy(q.policy) && g.compacted <= |Observed(q.messages)|
  {
    || Compacted(q, g.compacted) != q.messages
    || g.observed + g.shortened + g.pinned > 0
    || exists i :: Pinned(q.messages) <= i < g.rethought && i < |q.messages| && LongThinking(q.messages[i], q.policy.preview)
  }

  /** Fit a conversation into its budget, or say that it does not fit. */
  method FitToContext(messages: Messages, numCtx: int, numPredict: int, keepRecent: Option<nat>, p: Policy,
                      count: Counter, compact: Compactor)
    returns (r: Result<(Messages, bool), FitError>, ghost g: Progress)
    requires ValidPolicy(p)
    ensures var budget := ContextBudget(numCtx, numPredict, p.safetyMargin);
            var q := Case(messages, if keepRecent.Some? then keepRecent.value else p.keepRecent, p, compact);
            if count(messages) <= budget then r == Ok((messages, false))
            else
              && Stops(q, count, budget, g)
              && r == if count(Reached(q, g)) <= budget then Ok((Reached(q, g), Changed(q, g)))
                      else Err(DoesNotFit(count(Reached(q, g)), budget))
  {
    hide Stops, Reached, Changed;
    var keep := if keepRecent.Some? then keepRecent.value else p.keepRecent;
    var budget := ContextBudget(numCtx, numPredict, p.safetyMargin);
    g := Progress(0, 0, 0, 0, 0);
    if count(messages) <= budget { return Ok((messages, false)), g; }
    var trimmed, compacted;
    trimmed, compacted, g := Trim(messages, keep, budget, p, count, compact);
    if count(trimmed) > budget { return Err(DoesNotFit(count(trimmed), budget)), g; }
    r := Ok((trimmed, compacted));
  }

  /** The stages, once it is known that there is too much. */
  method Trim(messages: Messages, keep: nat, budget: nat, p: Policy, count: Counter, compact: Compactor)
    returns (trimmed: Messages, compacted: bool, ghost g: Progress)
    requires ValidPolicy(p)
    ensures var q := Case(messages, keep, p, compact);
            Stops(q, count, budget, g) && trimmed == Reached(q, g) && compacted == Changed(q, g)
  {
    hide CompactedUpTo, ShrunkBy, RethoughtUpTo, PlacesWhere, Protected, LongThinking;
    hide CompactingStops, RoundsStop, RethinkingStops, Ascending, IsText, IsObservation, Target;
    hide ObservationsShrunk, ThinkingReduced, TextsShrunk, Reached, Stops, Changed;
    ghost var q := Case(messages, keep, p, compact);
    var pinned := if |messages| < 2 then |messages| else 2;
    var observations := ListPlaces(IsObservation, messages, pinned, |messages|);
    PlacesAre(IsObservation, messages, pinned, |messages|);
    assert observations == Observed(messages);
    ghost var n1, n2, n3, n4, n5;
    var step;
    trimmed, compacted, n1 := CompactOld(messages, observations, Protected(observations, keep), Target(budget), count, compact);
    ghost var t1 := trimmed;
    assert t1 == Compacted(q, n1);
    trimmed, step, n2 := ShrinkObservations(trimmed, observations, budget, p, count);
    ghost var t2 := trimmed;
    compacted := compacted || step;
    var end := if |trimmed| - 2 > pinned then |trimmed| - 2 else pinned;
    trimmed, step, n3 := ReduceThinking(trimmed, pinned, end, budget, p.preview, count, compact);
    ghost var t3 := trimmed;
    compacted := compacted || step;
    trimmed, step, n4 := ShrinkRange(trimmed, pinned, |trimmed|, budget, p, count);
    ghost var t4 := trimmed;
    compacted := compacted || step;
    n5 := 0;
    if p.overflow == ClipPinned {
      trimmed, step, n5 := ShrinkRange(trimmed, 0, pinned, budget, p, count);
      compacted := compacted || step;
    }
    g := Progress(n1, n2, n3, n4, n5);
    StagesStop(q, count, budget, g, t1, t2, t3, t4, trimmed);
    ThoughtChanges(q, g);
  }

  /** The stages one after another. */
  lemma StagesStop(q: Case, count: Counter, budget: nat, g: Progress,
                   a: Messages, b: Messages, c: Messages, d: Messages, e: Messages)
    requires ValidPolicy(q.policy)
    requires g.compacted <= |Observed(q.messages)| && a == Compacted(q, g.compacted)
    requires CompactingStops(q.messages, Observed(q.messages), Protected(Observed(q.messages), q.keep), q.compact, count,
                             Target(budget), g.compacted)
    requires RoundsStop(a, Observed(q.messages), q.policy, count, budget, g.observed)
    requires b == ShrunkBy(a, Observed(q.messages), q.policy, g.observed)
    requires RethinkingStops(b, Pinned(b), ThinkingEnd(b), q.policy.preview, q.compact, count, budget, g.rethought)
    requires c == RethoughtUpTo(b, Pinned(b), g.rethought, q.policy.preview, q.compact)
    requires RoundsStop(c, Texts(c), q.policy, count, budget, g.shortened)
    requires d == ShrunkBy(c, Texts(c), q.policy, g.shortened)
    requires if q.policy.overflow.Fail? then g.pinned == 0 && e == d
             else RoundsStop(d, PinnedTexts(d), q.policy, count, budget, g.pinned) && e == ShrunkBy(d, PinnedTexts(d), q.policy, g.pinned)
    ensures Stops(q, count, budget, g)
    ensures b == ObservationsShrunk(q, g) && e == Reached(q, g)
  {
    hide CompactedUpTo, ShrunkBy, RethoughtUpTo, PlacesWhere, Protected;
    hide CompactingStops, RoundsStop, RethinkingStops, Places, Target;
  }

  /** Which thinking is long does not depend on the stages before. */
  lemma ThoughtChanges(q: Case, g: Progress)
    requires ValidPolicy(q.policy) && g.compacted <= |Observed(q.messages)| && g.rethought <= |q.messages|
    ensures Changed(q, g) <==>
            || Compacted(q, g.compacted) != q.messages
            || g.observed > 0
            || (exists i :: Pinned(q.messages) <= i < g.rethought && LongThinking(ObservationsShrunk(q, g)[i], q.policy.preview))
            || g.shortened > 0
            || g.pinned > 0
  {
    hide LongThinking, Compacted, ObservationsShrunk, AllReduced;
    ThinkingUntouched(q, g);
    var r := ObservationsShrunk(q, g);
    assert forall i :: 0 <= i < |r| ==>
             LongThinking(r[i], q.policy.preview) == LongThinking(q.messages[i], q.policy.preview);
  }

  // ---------------------------------------------------------------- what may change

  /** The content is unchanged or strictly shorter, and all else is unchanged. */
  ghost predicate Reduced(m: Message, n: Message) {
    && n == m.(content := n.content)
    && (n.content == m.content || (IsText(m) && IsText(n) && Width(n) < Width(m)))
  }

  ghost predicate AllReduced(a: Messages, b: Messages, places: seq<nat>) {
    && |b| == |a|
    && forall i :: 0 <= i < |a| ==> Reduced(a[i], b[i]) && (i in places || b[i] == a[i])
  }

  lemma {:induction false} ShrinkingReduces(messages: Messages, places: seq<nat>, p: Policy, n: nat)
    requires ValidPolicy(p) && Places(places, messages) && Ascending(places)
    ensures AllReduced(messages, ShrunkBy(messages, places, p, n), places)
    decreases n
  {
    hide Width, Shrunk;
    if n > 0 {
      ShrinkingReduces(messages, places, p, n - 1);
      RoundReduces(ShrunkBy(messages, places, p, n - 1), places, p);
    }
  }

  lemma RoundReduces(messages: Messages, places: seq<nat>, p: Policy)
    requires ValidPolicy(p) && Places(places, messages) && Ascending(places)
    ensures AllReduced(messages, Round(messages, places, p), places)
  {
    hide Width;
    if !AllNarrow(messages, places, p.preview) {
      WidestIs(places, messages);
      var w := WidestPlace(places, messages);
      var k :| 0 <= k < |places| && Width(messages[places[k]]) > p.preview;
      assert places[k] in places;
      ShrunkWidth(messages[w], p);
    }
  }

  lemma CompactingReduces(q: Case, n: nat)
    requires n <= |Observed(q.messages)|
    ensures AllReduced(q.messages, Compacted(q, n), Observed(q.messages))
  {
    hide Length;
    var places := Observed(q.messages);
    PlacesAre(IsObservation, q.messages, Pinned(q.messages), |q.messages|);
    CompactedAt(q.messages, places, Protected(places, q.keep), q.compact, n);
  }

  /** Compacting and shrinking observations leaves all thinking as it is. */
  lemma ThinkingUntouched(q: Case, g: Progress)
    requires ValidPolicy(q.policy) && g.compacted <= |Observed(q.messages)|
    ensures var r := ObservationsShrunk(q, g);
            && AllReduced(q.messages, Compacted(q, g.compacted), Observed(q.messages))
            && AllReduced(Compacted(q, g.compacted), r, Observed(q.messages))
            && forall i :: 0 <= i < |r| ==>
                 && r[i].thinking == q.messages[i].thinking
                 && LongThinking(r[i], q.policy.preview) == LongThinking(q.messages[i], q.policy.preview)
  {
    hide Width, Shrunk, PlacesWhere, ShrunkBy, CompactedUpTo;
    PlacesAre(IsObservation, q.messages, Pinned(q.messages), |q.messages|);
    CompactingReduces(q, g.compacted);
    ShrinkingReduces(Compacted(q, g.compacted), Observed(q.messages), q.policy, g.observed);
  }
}
