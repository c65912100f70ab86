/**
 Two conversations at which fitting falls short of what one might expect of it
 (packages/mcp/src/research/fit.ts, lines 111 to 136 and 217 to 250).
 */
module FitCases {
  import opened Wrappers
  import opened Text16
  import opened Clipping
  import opened ContextFit
  import FitRounds
  import opened FitConversation
  import opened FitGuarantees

  const TINY: Policy := Policy(0, 2, 1, 0.5, 0.5, Fail)

  lemma NoObservations(messages: Messages)
    requires forall i :: 0 <= i < |messages| ==> !IsObservation(messages[i])
    ensures Observed(messages) == []
  {
    NoPlaces(IsObservation, messages, Pinned(messages), |messages|);
  }

  lemma {:induction false} NoPlaces(f: Message -> bool, messages: Messages, from: nat, end: nat)
    requires end <= |messages| && forall i :: 0 <= i < |messages| ==> !f(messages[i])
    ensures PlacesWhere(f, messages, from, end) == []
    decreases end
  {
    if from < end { NoPlaces(f, messages, from, end - 1); }
  }

  /** Without observations the conversation reaches its thinking as it was. */
  lemma StraightToThinking(q: Case, count: Counter, budget: nat, g: Progress)
    requires ValidPolicy(q.policy) && Stops(q, count, budget, g) && Observed(q.messages) == []
    ensures ObservationsShrunk(q, g) == q.messages
  {
    hide Observed, RethinkingStops;
    NoRounds(q.messages, [], q.policy);
  }

  // ---------------------------------------------------------------- 200 rounds are not enough

  function TotalWidth(messages: Messages): nat {
    if messages == [] then 0 else TotalWidth(messages[..|messages| - 1]) + Width(messages[|messages| - 1])
  }

  lemma {:induction false} WidthUpdated(messages: Messages, i: nat, m: Message)
    requires i < |messages|
    ensures TotalWidth(messages[i := m]) == TotalWidth(messages) - Width(messages[i]) + Width(m)
    decreases |messages|
  {
    hide Width;
    var front, last := messages[..|messages| - 1], |messages| - 1;
    var next := messages[i := m];
    if i < last {
      assert next[..last] == front[i := m];
      WidthUpdated(front, i, m);
    } else {
      assert next[..last] == front;
    }
  }

  /** So many messages, all but the first two with two letters. */
  function Crowd(n: nat): Messages {
    seq(n, i requires 0 <= i < n => Message("assistant", if i < 2 then Other(0) else Words([97, 98]), None, 0))
  }

  lemma TwoLetters()
    ensures Length([97, 98]) == 2 && CodePoints([97, 98]) == [97, 98]
  {
    NoPairsNoPoints([97, 98]);
  }

  lemma {:induction false} CrowdWidth(n: nat)
    ensures TotalWidth(Crowd(n)) == if n < 2 then 0 else 2 * (n - 2)
    decreases n
  {
    hide Length;
    TwoLetters();
    if n > 0 {
      assert Crowd(n)[..n - 1] == Crowd(n - 1);
      CrowdWidth(n - 1);
    }
  }

  lemma {:induction false} NarrowWidth(messages: Messages)
    requires forall i :: 0 <= i < |messages| ==> Width(messages[i]) <= if i < 2 then 0 else 1
    ensures TotalWidth(messages) <= if |messages| < 2 then 0 else |messages| - 2
    decreases |messages|
  {
    hide Width;
    if messages != [] { NarrowWidth(messages[..|messages| - 1]); }
  }

  ghost predicate OneOrTwo(messages: Messages) {
    && |messages| == 203
    && forall i :: 0 <= i < 203 ==> IsText(messages[i]) == (i >= 2) && Width(messages[i]) <= 2
  }

  /** While there are more than 201 letters some message has two. */
  lemma TwoLeft(messages: Messages)
    requires OneOrTwo(messages) && TotalWidth(messages) > 201
    ensures !AllNarrow(messages, Texts(messages), 1)
    ensures Texts(messages) != [] && Width(messages[WidestPlace(Texts(messages), messages)]) == 2
  {
    hide PlacesWhere, WidestPlace, Width;
    var texts := Texts(messages);
    TextsAscend(messages);
    forall i | 2 <= i < 203 ensures i in texts { assert IsText(messages[i]); }
    assert AllNarrow(messages, texts, 1) ==> forall i :: 2 <= i < 203 ==> i in texts && Width(messages[i]) <= 1;
    NotText(messages);
    if AllNarrow(messages, texts, 1) { NarrowWidth(messages); }
    WidestIs(texts, messages);
    var k :| 0 <= k < |texts| && Width(messages[texts[k]]) > 1;
    assert texts[k] in texts;
  }

  lemma NotText(messages: Messages)
    ensures forall i :: 0 <= i < |messages| && !IsText(messages[i]) ==> Width(messages[i]) == 0
  {
  }

  /** Each round takes one letter away. */
  lemma OneLetterLess(messages: Messages)
    requires OneOrTwo(messages) && TotalWidth(messages) > 201
    ensures !AllNarrow(messages, Texts(messages), 1)
    ensures var next := Round(messages, Texts(messages), TINY);
            OneOrTwo(next) && Texts(next) == Texts(messages) && TotalWidth(next) == TotalWidth(messages) - 1
  {
    hide Texts, PlacesWhere, WidestPlace, Shrunk, NextWidth, Width, AllNarrow, TotalWidth, IsText;
    var texts := Texts(messages);
    TwoLeft(messages);
    var w := WidestPlace(texts, messages);
    var m := messages[w];
    assert IsText(m) by { assert w in texts; }
    ShrunkWidth(m, TINY);
    FitRounds.IsShrunkText(m, TINY);
    NextOfTwo();
    WidthUpdated(messages, w, Shrunk(m, TINY));
    SamePlaces(messages, messages[w := Shrunk(m, TINY)]);
  }

  lemma NextOfTwo()
    ensures NextWidth(2, TINY) == 1
  {
    MarkerPlain(2);
  }

  lemma {:induction false} CrowdShrinks(n: nat)
    requires n <= 201
    ensures var messages := Crowd(203);
            var next := ShrunkBy(messages, Texts(messages), TINY, n);
            OneOrTwo(next) && Texts(next) == Texts(messages) && TotalWidth(next) == 402 - n
    decreases n
  {
    hide Round, PlacesWhere, TotalWidth, Length;
    TwoLetters();
    CrowdWidth(203);
    if n > 0 {
      CrowdShrinks(n - 1);
      OneLetterLess(ShrunkBy(Crowd(203), Texts(Crowd(203)), TINY, n - 1));
    }
  }

  /** The conversation is refused one letter above its budget, and one more round would take that letter away. */
  lemma OneRoundShort(compact: Compactor, g: Progress)
    requires Stops(Case(Crowd(203), 2, TINY, compact), TotalWidth, 201, g)
    ensures var q := Case(Crowd(203), 2, TINY, compact);
            && TotalWidth(Reached(q, g)) == 202
            && Places(Texts(q.messages), Reached(q, g))
            && TotalWidth(ShrunkBy(Reached(q, g), Texts(q.messages), TINY, 1)) == 201
  {
    hide PlacesWhere, TotalWidth, Round, Length, AllNarrow, Width, CompactingStops;
    var q := Case(Crowd(203), 2, TINY, compact);
    NoObservations(q.messages);
    StraightToThinking(q, TotalWidth, 201, g);
    assert ThinkingReduced(q, g) == q.messages;
    var n := g.shortened;
    CrowdShrinks(n);
    OneLetterLess(ShrunkBy(q.messages, Texts(q.messages), TINY, n));
    CrowdShrinks(n + 1);
    NoRounds(Reached(q, g), Texts(q.messages), TINY);
  }

  method RefusedOneRoundShort(compact: Compactor) returns (r: Result<(Messages, bool), FitError>)
    ensures r == Err(DoesNotFit(202, 201))
  {
    hide Stops, Reached;
    CrowdWidth(203);
    ghost var g;
    r, g := FitToContext(Crowd(203), 201, 0, None, TINY, TotalWidth, compact);
    OneRoundShort(compact, g);
  }

  // ---------------------------------------------------------------- thinking that grows

  function Ascii(s: string): Text { seq(|s|, i requires 0 <= i < |s| => if s[i] < 128 as char then s[i] as int else 63) }

  const COMPACT_MARKER: Text := Ascii("[") + Ascii("earlier observation compacted to save context")

  /** What `compact` makes of a text without a step header, with a preview of one letter. */
  function Breadcrumb(text: Text): Text {
    if COMPACT_MARKER <= text then text else COMPACT_MARKER + Ascii("] ") + ClipText(text, TINY.preview, TINY.headRatio)
  }

  function Letters(n: nat): Text { seq(n, _ => 97) }

  lemma LettersRead(n: nat)
    ensures CodePoints(Letters(n)) == Letters(n) && Length(Letters(n)) == n
  {
    NoPairsNoPoints(Letters(n));
  }

  lemma BreadcrumbLength(n: nat)
    requires n > 1
    ensures Length(Breadcrumb(Letters(n))) == 49
  {
    hide CodePoints;
    LettersRead(n);
    MarkerPlain(n);
    assert Letters(n)[0] == 97 && COMPACT_MARKER[0] == 91;
    assert Letters(n)[..1] == [97] && Encode16([97]) == [97];
    var crumb := COMPACT_MARKER + Ascii("] ") + [97];
    NoPairsNoPoints(crumb);
  }

  function Thinking(m: Message): nat { if m.thinking.Some? then Length(m.thinking.value) else 0 }

  function TotalThinking(messages: Messages): nat {
    if messages == [] then 0 else TotalThinking(messages[..|messages| - 1]) + Thinking(messages[|messages| - 1])
  }

  function Thinker(n: nat): Message { Message("assistant", Other(0), Some(Letters(n)), 0) }

  const PLAIN: Message := Message("user", Other(0), None, 0)

  lemma TotalOfSix(messages: Messages)
    requires |messages| == 6
    ensures TotalThinking(messages)
            == Thinking(messages[0]) + Thinking(messages[1]) + Thinking(messages[2])
               + Thinking(messages[3]) + Thinking(messages[4]) + Thinking(messages[5])
  {
    hide Thinking;
    assert messages[..5][..4] == messages[..4] && messages[..4][..3] == messages[..3];
    assert messages[..3][..2] == messages[..2] && messages[..2][..1] == messages[..1] && messages[..1][..0] == [];
    assert TotalThinking(messages[..1]) == Thinking(messages[0]);
    assert TotalThinking(messages[..2]) == TotalThinking(messages[..1]) + Thinking(messages[1]);
    assert TotalThinking(messages[..3]) == TotalThinking(messages[..2]) + Thinking(messages[2]);
    assert TotalThinking(messages[..4]) == TotalThinking(messages[..3]) + Thinking(messages[3]);
    assert TotalThinking(messages[..5]) == TotalThinking(messages[..4]) + Thinking(messages[4]);
  }

  /** A thinking of two letters is 49 long once the conversation fits, though all thinking together is shorter. */
  method ThinkingCanGrow() returns (given: Messages, r: Result<(Messages, bool), FitError>)
    ensures |given| == 6 && TotalThinking(given) == 202
    ensures r.Ok? && |r.value.0| == 6 && TotalThinking(r.value.0) == 98
    ensures given[2].thinking == Some(Letters(2)) && r.value.0[2].thinking == Some(Breadcrumb(Letters(2)))
    ensures Length(Letters(2)) == 2 && Length(Breadcrumb(Letters(2))) == 49
  {
    hide Stops, Reached, TotalThinking, RethoughtUpTo, Letters, Breadcrumb;
    given := [PLAIN, PLAIN, Thinker(2), Thinker(200), PLAIN, PLAIN];
    LettersRead(2);
    LettersRead(200);
    BreadcrumbLength(2);
    TotalOfSix(given);
    ghost var g;
    r, g := FitToContext(given, 150, 0, None, TINY, TotalThinking, Breadcrumb);
    BothRethought(given, g);
    ShortThinking(given);
  }

  /** How the total goes up by 47 and then down by 151. */
  lemma ThreeTotals(given: Messages)
    requires given == [PLAIN, PLAIN, Thinker(2), Thinker(200), PLAIN, PLAIN]
    ensures RethoughtUpTo(given, 2, 2, 1, Breadcrumb) == given && TotalThinking(given) == 202
    ensures TotalThinking(RethoughtUpTo(given, 2, 3, 1, Breadcrumb)) == 249
    ensures TotalThinking(RethoughtUpTo(given, 2, 4, 1, Breadcrumb)) == 98
  {
    hide TotalThinking, Length, Letters, Breadcrumb;
    LettersRead(2);
    LettersRead(200);
    BreadcrumbLength(2);
    BreadcrumbLength(200);
    NothingRethought(given, 2, 1, Breadcrumb);
    TotalOfSix(given);
    TotalOfSix(RethoughtUpTo(given, 2, 3, 1, Breadcrumb));
    TotalOfSix(RethoughtUpTo(given, 2, 4, 1, Breadcrumb));
  }

  /** One growing makes it worse, so the next is compacted too, and then everything fits. */
  lemma BothRethought(given: Messages, g: Progress)
    requires given == [PLAIN, PLAIN, Thinker(2), Thinker(200), PLAIN, PLAIN]
    requires Stops(Case(given, 2, TINY, Breadcrumb), TotalThinking, 150, g)
    ensures var r := Reached(Case(given, 2, TINY, Breadcrumb), g);
            TotalThinking(r) == 98 && r == RethoughtUpTo(given, 2, 4, 1, Breadcrumb)
  {
    hide PlacesWhere, TotalThinking, Letters, Breadcrumb, CompactingStops, RoundsStop, RethoughtUpTo, ShrunkBy;
    var q := Case(given, 2, TINY, Breadcrumb);
    NoObservations(given);
    StraightToThinking(q, TotalThinking, 150, g);
    ThreeTotals(given);
    FitsAndStays(q, TotalThinking, 150, g);
  }

  lemma ShortThinking(given: Messages)
    requires |given| == 6 && given[2] == Thinker(2)
    ensures RethoughtUpTo(given, 2, 4, 1, Breadcrumb)[2].thinking == Some(Breadcrumb(Letters(2)))
  {
    LettersRead(2);
  }
}
