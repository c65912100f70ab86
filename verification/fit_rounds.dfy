/**
 How many rounds of shrinking a conversation needs (packages/mcp/src/research/fit.ts, lines 206 to 222).

 The rounds a single content needs depend on its width alone. Their sum over the candidates falls by exactly
 one in each round, whichever candidate is the widest, so the outcome of 200 rounds is known beforehand.
 */
module FitRounds {
  import opened Clipping
  import opened ContextFit

  lemma NextIsNarrower(width: nat, p: Policy)
    requires ValidPolicy(p) && width > p.preview
    ensures NextWidth(width, p) <= Keep(width, p) < width
  {
    hide ClippedLength;
    var points := seq(width, i => 0);
    ClippedLengthIs(points, Keep(width, p), p.headRatio);
  }

  /** How often a content of this width has to be clipped to be no wider than the preview. */
  function RoundsLeft(width: nat, p: Policy): (n: nat)
    requires ValidPolicy(p)
    ensures n == 0 <==> width <= p.preview
    decreases width
  {
    if width <= p.preview then 0 else
      NextIsNarrower(width, p);
      1 + RoundsLeft(NextWidth(width, p), p)
  }

  function TotalRounds(messages: Messages, places: seq<nat>, p: Policy): nat
    requires ValidPolicy(p) && Places(places, messages)
  {
    if places == [] then 0
    else TotalRounds(messages, places[..|places| - 1], p) + RoundsLeft(Width(messages[places[|places| - 1]]), p)
  }

  lemma {:induction false} SameTotal(a: Messages, b: Messages, places: seq<nat>, p: Policy)
    requires ValidPolicy(p) && Places(places, a) && Places(places, b)
    requires forall k :: 0 <= k < |places| ==> Width(a[places[k]]) == Width(b[places[k]])
    ensures TotalRounds(a, places, p) == TotalRounds(b, places, p)
    decreases |places|
  {
    if places != [] { SameTotal(a, b, places[..|places| - 1], p); }
  }

  lemma {:induction false} ZeroExactly(messages: Messages, places: seq<nat>, p: Policy)
    requires ValidPolicy(p) && Places(places, messages)
    ensures TotalRounds(messages, places, p) == 0 <==> AllNarrow(messages, places, p.preview)
    decreases |places|
  {
    hide Width;
    if places != [] {
      var front, last := places[..|places| - 1], places[|places| - 1];
      ZeroExactly(messages, front, p);
      assert AllNarrow(messages, places, p.preview) <==>
             AllNarrow(messages, front, p.preview) && Width(messages[last]) <= p.preview by {
        assert forall k :: 0 <= k < |front| ==> front[k] == places[k];
        assert places == front + [last];
      }
    }
  }

  /** Clipping one wide content takes one round off the total of any candidates it is among. */
  lemma {:induction false} OneLess(messages: Messages, next: Messages, places: seq<nat>, i: nat, p: Policy)
    requires ValidPolicy(p) && Places(places, messages) && Ascending(places) && i < |messages|
    requires IsText(messages[i]) && Width(messages[i]) > p.preview
    requires next == messages[i := Shrunk(messages[i], p)]
    ensures Places(places, next)
    ensures TotalRounds(next, places, p) == TotalRounds(messages, places, p) - if i in places then 1 else 0
    decreases |places|
  {
    hide Width, Shrunk, NextWidth;
    assert IsText(next[i]) by { assert next[i] == Shrunk(messages[i], p); IsShrunkText(messages[i], p); }
    if places != [] {
      var front, last := places[..|places| - 1], places[|places| - 1];
      OneLess(messages, next, front, i, p);
      assert places == front + [last];
      ShrunkWidth(messages[i], p);
      NextIsNarrower(Width(messages[i]), p);
      assert last == i ==> i !in front by { assert forall k :: 0 <= k < |front| ==> places[k] == front[k]; }
    }
  }

  lemma IsShrunkText(m: Message, p: Policy)
    requires ValidPolicy(p) && IsText(m)
    ensures IsText(Shrunk(m, p))
  {
  }

  ghost predicate Within(places: seq<nat>, more: seq<nat>) { forall k :: 0 <= k < |places| ==> places[k] in more }

  /** A round over some candidates, as seen from any list that holds them. */
  lemma RoundTakesOne(messages: Messages, places: seq<nat>, more: seq<nat>, p: Policy)
    requires ValidPolicy(p) && Places(places, messages) && Places(more, messages)
    requires Ascending(places) && Ascending(more) && Within(places, more)
    ensures TotalRounds(Round(messages, places, p), more, p)
            == TotalRounds(messages, more, p) - if TotalRounds(messages, places, p) == 0 then 0 else 1
  {
    hide Width, Shrunk;
    ZeroExactly(messages, places, p);
    if !AllNarrow(messages, places, p.preview) {
      WidestIs(places, messages);
      var w := WidestPlace(places, messages);
      var k :| 0 <= k < |places| && Width(messages[places[k]]) > p.preview;
      assert places[k] in places;
      OneLess(messages, messages[w := Shrunk(messages[w], p)], more, w, p);
    }
  }

  lemma WithinItself(places: seq<nat>)
    ensures Within(places, places)
  {
  }

  function Least(a: nat, b: nat): nat { if a < b then a else b }

  /** `n` rounds over some candidates take `n` off the total, or all that the candidates need. */
  lemma {:induction false} RoundsTake(messages: Messages, places: seq<nat>, more: seq<nat>, p: Policy, n: nat)
    requires ValidPolicy(p) && Places(places, messages) && Places(more, messages)
    requires Ascending(places) && Ascending(more) && Within(places, more)
    ensures TotalRounds(ShrunkBy(messages, places, p, n), more, p)
            == TotalRounds(messages, more, p) - Least(n, TotalRounds(messages, places, p))
    decreases n
  {
    hide Round, TotalRounds, Ascending, Within;
    if n > 0 {
      assert Within(places, places) by { WithinItself(places); }
      RoundsTake(messages, places, more, p, n - 1);
      RoundsTake(messages, places, places, p, n - 1);
      RoundTakesOne(ShrunkBy(messages, places, p, n - 1), places, more, p);
    }
  }

  /** Everything is narrow after `n` rounds exactly if the candidates together need no more. */
  lemma NarrowExactly(messages: Messages, places: seq<nat>, p: Policy, n: nat)
    requires ValidPolicy(p) && Places(places, messages) && Ascending(places)
    ensures AllNarrow(ShrunkBy(messages, places, p, n), places, p.preview) <==> TotalRounds(messages, places, p) <= n
  {
    WithinItself(places);
    RoundsTake(messages, places, places, p, n);
    ZeroExactly(ShrunkBy(messages, places, p, n), places, p);
  }

  /** A loop that ends over budget has made all the rounds its candidates need, or 200. */
  lemma OverBudgetRounds(messages: Messages, places: seq<nat>, p: Policy, count: Counter, budget: nat, rounds: nat)
    requires ValidPolicy(p) && Places(places, messages) && Ascending(places)
    requires RoundsStop(messages, places, p, count, budget, rounds)
    requires count(ShrunkBy(messages, places, p, rounds)) > budget
    ensures rounds == Least(ROUNDS, TotalRounds(messages, places, p))
  {
    hide ShrunkBy, AllNarrow, TotalRounds;
    NarrowExactly(messages, places, p, rounds);
    if rounds > 0 { NarrowExactly(messages, places, p, rounds - 1); }
  }

  /** With a counter that is always over budget the loop makes just these rounds. */
  lemma NeverFitting(messages: Messages, places: seq<nat>, p: Policy, count: Counter, budget: nat)
    requires ValidPolicy(p) && Places(places, messages) && Ascending(places)
    requires forall c :: count(c) > budget
    ensures RoundsStop(messages, places, p, count, budget, Least(ROUNDS, TotalRounds(messages, places, p)))
  {
    hide ShrunkBy, AllNarrow, TotalRounds;
    var rounds := Least(ROUNDS, TotalRounds(messages, places, p));
    forall m | 0 <= m <= rounds
      ensures AllNarrow(ShrunkBy(messages, places, p, m), places, p.preview) <==> TotalRounds(messages, places, p) <= m
    {
      NarrowExactly(messages, places, p, m);
    }
  }

  /** Where a loop stops is determined. */
  lemma RoundsUnique(messages: Messages, places: seq<nat>, p: Policy, count: Counter, budget: nat, a: nat, b: nat)
    requires ValidPolicy(p) && Places(places, messages)
    requires RoundsStop(messages, places, p, count, budget, a) && RoundsStop(messages, places, p, count, budget, b)
    ensures a == b
  {
    hide ShrunkBy, AllNarrow;
  }
}
