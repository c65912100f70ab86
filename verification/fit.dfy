/**
 The stages of fitting a conversation into the context window
 (packages/mcp/src/research/fit.ts, lines 138 to 242).

 Each stage is a function of how far it got, and the method that performs it is proved to compute that
 function and to stop exactly where the source does. The token counter and `compact` are parameters: any
 functions. A message is its role, its content, its thinking and the rest, which nothing here touches.
 */
module ContextFit {
  import opened Wrappers
  import opened Text16
  import opened Clipping

  datatype Content = Words(text: Text) | Other(data: int)

  datatype Message = Message(role: string, content: Content, thinking: Option<Text>, rest: int)

  type Messages = seq<Message>

  type Counter = Messages -> nat

  type Compactor = Text -> Text

  datatype Overflow = Fail | ClipPinned

  datatype Policy = Policy(
    safetyMargin: nat,
    keepRecent: nat,
    preview: nat,
    retainRatio: real,
    headRatio: real,
    overflow: Overflow
  )

  /** What the constructor of a policy checks. */
  predicate ValidPolicy(p: Policy) { p.preview > 0 && 0.0 < p.retainRatio < 1.0 && 0.0 < p.headRatio < 1.0 }

  const ROUNDS: nat := 200

  function ContextBudget(numCtx: int, numPredict: int, safetyMargin: int): nat {
    if numCtx - numPredict - safetyMargin > 0 then numCtx - numPredict - safetyMargin else 0
  }

  /** Nine tenths of the budget, rounded down. */
  function Target(budget: nat): nat { budget * 9 / 10 }

  /** Length of a text content; 0 for any other. */
  function ContentWidth(c: Content): nat { if c.Words? then Length(c.text) else 0 }

  function Width(m: Message): nat { ContentWidth(m.content) }

  predicate IsText(m: Message) { m.content.Words? }

  predicate IsObservation(m: Message) { (m.role == "user" || m.role == "tool") && IsText(m) }

  function WiderThan(minimum: nat): Message -> bool { (m: Message) => IsText(m) && Width(m) > minimum }

  // ---------------------------------------------------------------- places in a conversation

  /** The indexes of a range whose messages satisfy `f`, in order. */
  function PlacesWhere(f: Message -> bool, messages: Messages, from: nat, end: nat): (places: seq<nat>)
    requires end <= |messages|
    ensures forall k :: 0 <= k < |places| ==> from <= places[k] < end && f(messages[places[k]])
    decreases end
  {
    if end <= from then []
    else
      var before := PlacesWhere(f, messages, from, end - 1);
      if f(messages[end - 1]) then before + [end - 1] else before
  }

  ghost predicate Ascending(places: seq<nat>) { forall j, k :: 0 <= j < k < |places| ==> places[j] < places[k] }

  ghost predicate Places(places: seq<nat>, messages: Messages) {
    forall k :: 0 <= k < |places| ==> places[k] < |messages| && IsText(messages[places[k]])
  }

  lemma {:induction false} PlacesAre(f: Message -> bool, messages: Messages, from: nat, end: nat)
    requires end <= |messages|
    ensures Ascending(PlacesWhere(f, messages, from, end))
    ensures forall i :: from <= i < end && f(messages[i]) ==> i in PlacesWhere(f, messages, from, end)
    decreases end
  {
    if from < end {
      PlacesAre(f, messages, from, end - 1);
      var before, all := PlacesWhere(f, messages, from, end - 1), PlacesWhere(f, messages, from, end);
      assert before <= all;
      forall i | from <= i < end && f(messages[i]) ensures i in all {
        if i == end - 1 { assert all[|all| - 1] == i; }
      }
    }
  }

  /** `for` over the indexes of a range. */
  method ListPlaces(f: Message -> bool, messages: Messages, from: nat, end: nat) returns (places: seq<nat>)
    requires end <= |messages|
    ensures places == PlacesWhere(f, messages, from, end)
  {
    places := [];
    var i := from;
    while i < end
      invariant from <= i && (i <= end || (i == from && places == []))
      invariant i <= end ==> places == PlacesWhere(f, messages, from, i)
    {
      if f(messages[i]) { places := places + [i]; }
      i := i + 1;
    }
  }

  /** The first of some ascending places with the widest content. */
  function WidestPlace(places: seq<nat>, messages: Messages): (w: nat)
    requires places != [] && forall k :: 0 <= k < |places| ==> places[k] < |messages|
    ensures w in places
  {
    if |places| == 1 then places[0] else
      var best, last := WidestPlace(places[..|places| - 1], messages), places[|places| - 1];
      if Width(messages[last]) > Width(messages[best]) then last else best
  }

  lemma {:induction false} WidestIs(places: seq<nat>, messages: Messages)
    requires places != [] && Ascending(places) && forall k :: 0 <= k < |places| ==> places[k] < |messages|
    ensures var w := WidestPlace(places, messages);
            forall i :: i in places ==>
              && Width(messages[i]) <= Width(messages[w])
              && (Width(messages[i]) == Width(messages[w]) ==> w <= i)
    decreases |places|
  {
    hide Width;
    if |places| > 1 {
      var front, last := places[..|places| - 1], places[|places| - 1];
      assert forall j, k :: 0 <= j < k < |front| ==> front[j] == places[j] && front[k] == places[k];
      WidestIs(front, messages);
      assert places == front + [last];
    }
  }

  /** Leaving out what is not wide does not change which place is the first widest. */
  lemma WidestOfWide(messages: Messages, from: nat, end: nat, minimum: nat)
    requires end <= |messages|
    ensures var wide, texts := PlacesWhere(WiderThan(minimum), messages, from, end), PlacesWhere(IsText, messages, from, end);
            && (wide == [] <==> forall i :: i in texts ==> Width(messages[i]) <= minimum)
            && (wide != [] ==> texts != [] && WidestPlace(wide, messages) == WidestPlace(texts, messages))
  {
    hide Width, WidestPlace, PlacesWhere;
    var wide, texts := PlacesWhere(WiderThan(minimum), messages, from, end), PlacesWhere(IsText, messages, from, end);
    PlacesAre(WiderThan(minimum), messages, from, end);
    PlacesAre(IsText, messages, from, end);
    assert forall i :: i in wide <==> i in texts && Width(messages[i]) > minimum;
    if wide != [] {
      assert wide[0] in texts;
      WidestIs(wide, messages);
      WidestIs(texts, messages);
    } else {
      assert forall i :: i in texts ==> i !in wide;
    }
  }

  /** The first index with the longest content. */
  method WidestIndex(indexes: seq<nat>, messages: Messages) returns (best: Option<nat>)
    requires forall k :: 0 <= k < |indexes| ==> indexes[k] < |messages|
    ensures best == if indexes == [] then None else Some(WidestPlace(indexes, messages))
  {
    hide Width;
    best := None;
    var bestLength: int := -1;
    var k := 0;
    while k < |indexes|
      invariant 0 <= k <= |indexes|
      invariant k == 0 ==> best.None? && bestLength == -1
      invariant k > 0 ==> best == Some(WidestPlace(indexes[..k], messages)) && bestLength == Width(messages[best.value])
    {
      var index := indexes[k];
      var length := Width(messages[index]);
      assert indexes[..k + 1][..k] == indexes[..k];
      if length > bestLength {
        best, bestLength := Some(index), length;
      }
      k := k + 1;
    }
    assert indexes[..k] == indexes;
  }

  // ---------------------------------------------------------------- shrinking the widest

  /** How much of a content of this width stays. */
  function Keep(width: nat, p: Policy): nat
    requires ValidPolicy(p)
  {
    if Share(width, p.retainRatio) >= p.preview then Share(width, p.retainRatio) else p.preview
  }

  /** A message with its content clipped to what is kept of it. */
  function Shrunk(m: Message, p: Policy): Message
    requires ValidPolicy(p) && IsText(m)
  {
    m.(content := Words(ClipText(m.content.text, Keep(Width(m), p), p.headRatio)))
  }

  /** The width of a content wider than the preview once it is shrunk. */
  function NextWidth(width: nat, p: Policy): nat
    requires ValidPolicy(p)
  {
    ClippedLength(width, Keep(width, p))
  }

  lemma ShrunkWidth(m: Message, p: Policy)
    requires ValidPolicy(p) && IsText(m) && Width(m) > p.preview
    ensures Width(Shrunk(m, p)) == NextWidth(Width(m), p) <= Keep(Width(m), p) < Width(m)
  {
    hide ClippedLength, Length, ClipText;
    LengthIs(m.content.text);
    ClipReads(m.content.text, Keep(Width(m), p), p.headRatio);
    ClippedLengthIs(CodePoints(m.content.text), Keep(Width(m), p), p.headRatio);
  }

  lemma LengthIs(text: Text)
    ensures Length(text) == |CodePoints(text)|
  {
  }

  predicate AllNarrow(messages: Messages, places: seq<nat>, preview: nat)
    requires forall k :: 0 <= k < |places| ==> places[k] < |messages|
  {
    forall k :: 0 <= k < |places| ==> Width(messages[places[k]]) <= preview
  }

  /** One round: the first widest content is shrunk, unless none is wider than the preview. */
  function Round(messages: Messages, places: seq<nat>, p: Policy): (next: Messages)
    requires ValidPolicy(p) && Places(places, messages)
    ensures |next| == |messages| && forall i :: 0 <= i < |messages| ==> IsText(next[i]) == IsText(messages[i])
  {
    if AllNarrow(messages, places, p.preview) then messages else
      var w := WidestPlace(places, messages);
      messages[w := Shrunk(messages[w], p)]
  }

  function ShrunkBy(messages: Messages, places: seq<nat>, p: Policy, rounds: nat): (next: Messages)
    requires ValidPolicy(p) && Places(places, messages)
    ensures |next| == |messages| && forall i :: 0 <= i < |messages| ==> IsText(next[i]) == IsText(messages[i])
  {
    if rounds == 0 then messages else Round(ShrunkBy(messages, places, p, rounds - 1), places, p)
  }

  /** Clip the widest candidate; `false` when none is wider than the preview. */
  method ShrinkWidest(candidates: seq<nat>, messages: Messages, p: Policy) returns (shrunk: bool, next: Messages)
    requires ValidPolicy(p) && Places(candidates, messages) && Ascending(candidates)
    ensures shrunk <==> !AllNarrow(messages, candidates, p.preview)
    ensures next == Round(messages, candidates, p)
  {
    hide Length, ClipText, WidestPlace;
    var widest := WidestIndex(candidates, messages);
    if widest.None? { return false, messages; }
    var i := widest.value;
    WidestIs(candidates, messages);
    var content := messages[i].content.text;
    var length := CpLength(content);
    LengthIs(content);
    var keep := Keep(length, p);
    if keep >= length { return false, messages; }
    var clipped := Clip(content, keep, p.headRatio);
    next := messages[i := messages[i].(content := Words(clipped.value))];
    shrunk := true;
  }

  // ---------------------------------------------------------------- compacting old observations

  /** `observations.slice(-keepRecent)`, or nothing when it is zero. */
  function Protected(places: seq<nat>, keepRecent: nat): seq<nat> {
    if keepRecent >= |places| then places else places[|places| - keepRecent..]
  }

  /** The content after compaction, which must be strictly shorter to be used. */
  function CompactedContent(c: Content, compact: Compactor): Content {
    if c.Words? && Length(compact(c.text)) < Length(c.text) then Words(compact(c.text)) else c
  }

  /** The first `n` of the given observations compacted, but for those kept. */
  function CompactedUpTo(messages: Messages, places: seq<nat>, kept: seq<nat>, compact: Compactor, n: nat): (next: Messages)
    requires Places(places, messages) && n <= |places|
    ensures |next| == |messages| && forall i :: 0 <= i < |messages| ==> IsText(next[i]) == IsText(messages[i])
  {
    if n == 0 then messages else
      var before := CompactedUpTo(messages, places, kept, compact, n - 1);
      var i := places[n - 1];
      if i in kept then before else before[i := messages[i].(content := CompactedContent(messages[i].content, compact))]
  }

  /** After `n` of them: changed are only those, each as a whole; the others are as they were. */
  lemma {:induction false} CompactedAt(messages: Messages, places: seq<nat>, kept: seq<nat>, compact: Compactor, n: nat)
    requires Places(places, messages) && n <= |places| && Ascending(places)
    ensures var r := CompactedUpTo(messages, places, kept, compact, n);
            && (forall i :: 0 <= i < |messages| && r[i] != messages[i] ==>
                  && i !in kept && i in places
                  && r[i] == messages[i].(content := CompactedContent(messages[i].content, compact)))
            && (forall k :: n <= k < |places| ==> r[places[k]] == messages[places[k]])
    decreases n
  {
    hide CompactedContent;
    if n > 0 { CompactedAt(messages, places, kept, compact, n - 1); }
  }

  /** Once something is compacted it stays so: the conversation differs from the given one. */
  lemma CompactedStep(messages: Messages, places: seq<nat>, kept: seq<nat>, compact: Compactor, n: nat)
    requires Places(places, messages) && n < |places| && Ascending(places)
    ensures var before, i := CompactedUpTo(messages, places, kept, compact, n), places[n];
            && before[i] == messages[i]
            && CompactedUpTo(messages, places, kept, compact, n + 1)
               == (if i in kept then before
                   else before[i := messages[i].(content := CompactedContent(messages[i].content, compact))])
            && (before != messages ==> CompactedUpTo(messages, places, kept, compact, n + 1) != messages)
  {
    hide CompactedContent;
    CompactedAt(messages, places, kept, compact, n);
    var before, i := CompactedUpTo(messages, places, kept, compact, n), places[n];
    if before != messages {
      var j :| 0 <= j < |messages| && before[j] != messages[j];
      assert CompactedUpTo(messages, places, kept, compact, n + 1)[j] == before[j];
    }
  }

  /** Oldest first, exactly for as long as the estimate is above the target and observations are left. */
  ghost predicate CompactingStops(messages: Messages, places: seq<nat>, kept: seq<nat>, compact: Compactor,
                                  count: Counter, target: nat, n: nat)
    requires Places(places, messages)
  {
    && n <= |places|
    && (forall m :: 0 <= m < n ==> count(CompactedUpTo(messages, places, kept, compact, m)) > target)
    && (n == |places| || count(CompactedUpTo(messages, places, kept, compact, n)) <= target)
  }

  method CompactOld(messages: Messages, places: seq<nat>, kept: seq<nat>, target: nat, count: Counter, compact: Compactor)
    returns (next: Messages, compacted: bool, ghost n: nat)
    requires Places(places, messages) && Ascending(places)
    ensures n <= |places| && CompactingStops(messages, places, kept, compact, count, target, n)
    ensures next == CompactedUpTo(messages, places, kept, compact, n)
    ensures compacted <==> next != messages
  {
    hide Length, CompactedUpTo;
    NoneCompacted(messages, places, kept, compact);
    next, compacted, n := messages, false, 0;
    var k := 0;
    while k < |places| && count(next) > target
      invariant k == n <= |places| && next == CompactedUpTo(messages, places, kept, compact, n)
      invariant forall m :: 0 <= m < n ==> count(CompactedUpTo(messages, places, kept, compact, m)) > target
      invariant compacted <==> next != messages
      decreases |places| - k
    {
      var i := places[k];
      CompactedStep(messages, places, kept, compact, n);
      if i !in kept {
        var content := messages[i].content.text;
        var replacement := compact(content);
        var oldLength := CpLength(content);
        var newLength := CpLength(replacement);
        LengthIs(content);
        LengthIs(replacement);
        if newLength < oldLength {
          ghost var before := next;
          next := next[i := messages[i].(content := Words(replacement))];
          compacted := true;
          assert next[i] != messages[i];
        } else {
          assert next[i := messages[i]] == next;
        }
      }
      k, n := k + 1, n + 1;
    }
  }

  lemma NoneCompacted(messages: Messages, places: seq<nat>, kept: seq<nat>, compact: Compactor)
    requires Places(places, messages)
    ensures CompactedUpTo(messages, places, kept, compact, 0) == messages
  {
  }

  // ---------------------------------------------------------------- shrinking while over budget

  /** Rounds go on exactly while the estimate is over budget, something is wide, and fewer than 200 were made. */
  ghost predicate RoundsStop(messages: Messages, places: seq<nat>, p: Policy, count: Counter, budget: nat, rounds: nat)
    requires ValidPolicy(p) && Places(places, messages)
  {
    && rounds <= ROUNDS
    && (forall m :: 0 <= m < rounds ==>
          && count(ShrunkBy(messages, places, p, m)) > budget
          && !AllNarrow(ShrunkBy(messages, places, p, m), places, p.preview))
    && (|| rounds == ROUNDS
        || count(ShrunkBy(messages, places, p, rounds)) <= budget
        || AllNarrow(ShrunkBy(messages, places, p, rounds), places, p.preview))
  }

  method ShrinkObservations(messages: Messages, places: seq<nat>, budget: nat, p: Policy, count: Counter)
    returns (next: Messages, compacted: bool, ghost rounds: nat)
    requires ValidPolicy(p) && Places(places, messages) && Ascending(places)
    ensures RoundsStop(messages, places, p, count, budget, rounds)
    ensures next == ShrunkBy(messages, places, p, rounds)
    ensures compacted <==> rounds > 0
  {
    hide AllNarrow, Round;
    next, compacted, rounds := messages, false, 0;
    var guard := 0;
    while count(next) > budget && guard < ROUNDS
      invariant guard == rounds <= ROUNDS && next == ShrunkBy(messages, places, p, rounds)
      invariant forall m :: 0 <= m < rounds ==>
                  && count(ShrunkBy(messages, places, p, m)) > budget
                  && !AllNarrow(ShrunkBy(messages, places, p, m), places, p.preview)
      invariant compacted <==> rounds > 0
      decreases ROUNDS - guard
    {
      var shrunk, smaller := ShrinkWidest(places, next, p);
      if !shrunk { break; }
      next, compacted := smaller, true;
      guard, rounds := guard + 1, rounds + 1;
    }
  }

  /** The same over the texts of a range, listing those wider than the preview anew in each round. */
  method ShrinkRange(messages: Messages, from: nat, end: nat, budget: nat, p: Policy, count: Counter)
    returns (next: Messages, compacted: bool, ghost rounds: nat)
    requires ValidPolicy(p) && end <= |messages|
    ensures RoundsStop(messages, PlacesWhere(IsText, messages, from, end), p, count, budget, rounds)
    ensures next == ShrunkBy(messages, PlacesWhere(IsText, messages, from, end), p, rounds)
    ensures compacted <==> rounds > 0
  {
    hide AllNarrow, Round, PlacesWhere;
    ghost var texts := PlacesWhere(IsText, messages, from, end);
    next, compacted, rounds := messages, false, 0;
    var guard := 0;
    while count(next) > budget && guard < ROUNDS
      invariant guard == rounds <= ROUNDS && next == ShrunkBy(messages, texts, p, rounds)
      invariant forall m :: 0 <= m < rounds ==>
                  && count(ShrunkBy(messages, texts, p, m)) > budget
                  && !AllNarrow(ShrunkBy(messages, texts, p, m), texts, p.preview)
      invariant compacted <==> rounds > 0
      decreases ROUNDS - guard
    {
      SameTexts(messages, next, from, end);
      var candidates := ListPlaces(WiderThan(p.preview), next, from, end);
      WideRound(next, from, end, p);
      if candidates == [] { break; }
      PlacesAre(WiderThan(p.preview), next, from, end);
      var shrunk, smaller := ShrinkWidest(candidates, next, p);
      if !shrunk { break; }
      next, compacted := smaller, true;
      guard, rounds := guard + 1, rounds + 1;
    }
  }

  lemma {:induction false} SameTexts(a: Messages, b: Messages, from: nat, end: nat)
    requires |a| == |b| && end <= |a| && forall i :: 0 <= i < |a| ==> IsText(b[i]) == IsText(a[i])
    ensures PlacesWhere(IsText, a, from, end) == PlacesWhere(IsText, b, from, end)
    decreases end
  {
    if from < end { SameTexts(a, b, from, end - 1); }
  }

  /** A round over the wide texts of a range is a round over all its texts. */
  lemma WideRound(messages: Messages, from: nat, end: nat, p: Policy)
    requires ValidPolicy(p) && end <= |messages|
    ensures var wide, texts := PlacesWhere(WiderThan(p.preview), messages, from, end), PlacesWhere(IsText, messages, from, end);
            && Places(wide, messages) && Places(texts, messages)
            && (AllNarrow(messages, wide, p.preview) <==> wide == [])
            && (AllNarrow(messages, texts, p.preview) <==> wide == [])
            && Round(messages, wide, p) == Round(messages, texts, p)
  {
    hide Width, WidestPlace, PlacesWhere, Shrunk;
    var wide, texts := PlacesWhere(WiderThan(p.preview), messages, from, end), PlacesWhere(IsText, messages, from, end);
    WidestOfWide(messages, from, end, p.preview);
    if wide != [] {
      assert Width(messages[wide[0]]) > p.preview;
      var i :| i in texts && Width(messages[i]) > p.preview;
    } else {
      assert forall k :: 0 <= k < |texts| ==> texts[k] in texts;
    }
  }

  // ---------------------------------------------------------------- old thinking

  predicate LongThinking(m: Message, preview: nat) { m.thinking.Some? && Length(m.thinking.value) > preview }

  function Rethink(m: Message, preview: nat, compact: Compactor): Message {
    if LongThinking(m, preview) then m.(thinking := Some(compact(m.thinking.value))) else m
  }

  /** Long thinking of the messages from `from` to before `n` compacted. */
  function RethoughtUpTo(messages: Messages, from: nat, n: nat, preview: nat, compact: Compactor): (next: Messages)
    ensures |next| == |messages| && forall i :: 0 <= i < |messages| ==> IsText(next[i]) == IsText(messages[i])
  {
    seq(|messages|, i requires 0 <= i < |messages| =>
      if from <= i < n then Rethink(messages[i], preview, compact) else messages[i])
  }

  /** Message by message, exactly while the estimate is over budget. */
  ghost predicate RethinkingStops(messages: Messages, from: nat, end: nat, preview: nat, compact: Compactor,
                                  count: Counter, budget: nat, n: nat)
  {
    && from <= n <= end
    && (forall m :: from <= m < n ==> count(RethoughtUpTo(messages, from, m, preview, compact)) > budget)
    && (n == end || count(RethoughtUpTo(messages, from, n, preview, compact)) <= budget)
  }

  method ReduceThinking(messages: Messages, from: nat, end: nat, budget: nat, preview: nat, count: Counter, compact: Compactor)
    returns (next: Messages, compacted: bool, ghost n: nat)
    requires from <= end <= |messages|
    ensures n <= end && RethinkingStops(messages, from, end, preview, compact, count, budget, n)
    ensures next == RethoughtUpTo(messages, from, n, preview, compact)
    ensures compacted <==> exists i :: from <= i < n && LongThinking(messages[i], preview)
  {
    hide Length;
    next, compacted, n := messages, false, from;
    var i := from;
    assert next == RethoughtUpTo(messages, from, from, preview, compact);
    while i < end && count(next) > budget
      invariant from <= i == n <= end
      invariant next == RethoughtUpTo(messages, from, n, preview, compact)
      invariant forall m :: from <= m < n ==> count(RethoughtUpTo(messages, from, m, preview, compact)) > budget
      invariant compacted <==> exists j :: from <= j < n && LongThinking(messages[j], preview)
      decreases |messages| - i
    {
      var thinking := next[i].thinking;
      if thinking.Some? {
        var length := CpLength(thinking.value);
        LengthIs(thinking.value);
        if length > preview {
          next := next[i := next[i].(thinking := Some(compact(thinking.value)))];
          compacted := true;
        }
      }
      i, n := i + 1, n + 1;
      assert next == RethoughtUpTo(messages, from, n, preview, compact);
    }
  }
}
