/**
 Tail-loop detection (packages/rust-core/src/platform/repetition.rs).

 The detector chooses a repeated unit from a bounded window at the end of the text, stops its period
 loop early, and follows the winner back through the earlier text. `Detects` says what an exhaustive,
 unwindowed search would answer; `DetectTailLoop` is proved to answer exactly that.
 */
module Repetition {
  import opened Wrappers

  const MAX_PERIOD: nat := 4_096
  const SCAN_WINDOW: nat := 65_536

  datatype TailLoop = TailLoop(uniquePrefix: nat, period: nat, repeated: nat)

  // ---------------------------------------------------------------- specification

  /** Each of the last `k` characters equals the one `p` before it. */
  ghost predicate Repeats(s: seq<char>, p: nat, k: nat) {
    && p + k <= |s|
    && forall i :: |s| - k <= i < |s| ==> s[i] == s[i - p]
  }

  /** `k` is the length of the longest tail that repeats with period `p`. */
  ghost predicate IsRun(s: seq<char>, p: nat, k: nat) {
    && Repeats(s, p, k)
    && (p + k == |s| || s[|s| - k - 1] != s[|s| - k - 1 - p])
  }

  ghost predicate HasPeriod(s: seq<char>, p: nat) {
    forall i :: p <= i < |s| ==> s[i] == s[i - p]
  }

  ghost function RunFrom(s: seq<char>, p: nat, k: nat): (r: nat)
    requires Repeats(s, p, k)
    ensures IsRun(s, p, r)
    decreases |s| - k
  {
    if p + k < |s| && s[|s| - k - 1] == s[|s| - k - 1 - p] then RunFrom(s, p, k + 1) else k
  }

  /** The number of trailing characters that repeat the one `p` before. */
  ghost function Run(s: seq<char>, p: nat): (r: nat)
    requires p <= |s|
    ensures IsRun(s, p, r)
  {
    RunFrom(s, p, 0)
  }

  predicate Qualifies(p: nat, repeated: nat) {
    (repeated >= p && repeated + p >= 48) || repeated >= 128
  }

  ghost predicate Candidate(s: seq<char>, p: nat) {
    1 <= p <= MAX_PERIOD && p < |s| && Qualifies(p, Run(s, p))
  }

  /** `p` is a better answer than `q`: its first copy ends earlier, or equally early and it is shorter. */
  ghost predicate NoWorse(s: seq<char>, p: nat, q: nat)
    requires p <= |s| && q <= |s|
  {
    Run(s, q) < Run(s, p) || (Run(s, q) == Run(s, p) && p <= q)
  }

  /** `found` answers the exhaustive search over every period below `bound`. */
  ghost predicate DetectsBelow(s: seq<char>, bound: nat, found: Option<TailLoop>) {
    match found
    case None => forall q: nat :: q < bound ==> !Candidate(s, q)
    case Some(t) =>
      && Candidate(s, t.period) && t.period < bound
      && t.repeated == Run(s, t.period)
      && t.uniquePrefix == |s| - t.repeated
      && forall q: nat :: Candidate(s, q) && q < bound ==> NoWorse(s, t.period, q)
  }

  /** `found` answers the exhaustive search of the whole of `s`. */
  ghost predicate Detects(s: seq<char>, found: Option<TailLoop>) {
    DetectsBelow(s, MAX_PERIOD + 1, found)
  }

  // ---------------------------------------------------------------- runs and periods

  lemma RunIsLongest(s: seq<char>, p: nat, k: nat)
    requires Repeats(s, p, k)
    ensures k <= Run(s, p)
  {
    var r := Run(s, p);
    assert p + r == |s| || s[|s| - r - 1] != s[|s| - r - 1 - p];
  }

  lemma RunOf(s: seq<char>, p: nat, k: nat)
    requires IsRun(s, p, k)
    ensures Run(s, p) == k
  {
    RunIsLongest(s, p, k);
    var r := Run(s, p);
    assert p + k == |s| || s[|s| - k - 1] != s[|s| - k - 1 - p];
  }

  /** The answer of the exhaustive search is unique. */
  lemma DetectsUnique(s: seq<char>, a: Option<TailLoop>, b: Option<TailLoop>)
    requires Detects(s, a) && Detects(s, b)
    ensures a == b
  {
    if a.Some? && b.Some? {
      assert NoWorse(s, a.value.period, b.value.period);
      assert NoWorse(s, b.value.period, a.value.period);
    }
  }

  /** A suffix that repeats with period `p` has period `p`, and conversely. */
  lemma SuffixPeriod(s: seq<char>, p: nat, k: nat)
    requires p + k <= |s|
    ensures Repeats(s, p, k) <==> HasPeriod(s[|s| - k - p..], p)
  {
    var u := s[|s| - k - p..];
    var d := |s| - k - p;
    if HasPeriod(u, p) {
      forall i | |s| - k <= i < |s| ensures s[i] == s[i - p] {
        assert u[i - d] == u[i - d - p];
      }
    }
  }

  function Gcd(a: nat, b: nat): (g: nat)
    requires 1 <= a && 1 <= b
    ensures 1 <= g <= a && g <= b
    decreases a + b
  {
    if a == b then a else if a < b then Gcd(a, b - a) else Gcd(a - b, b)
  }

  /** Two periods that both fit in the word give their greatest common divisor as a period (Fine and Wilf). */
  lemma {:induction false} FineWilf(u: seq<char>, p: nat, q: nat)
    requires 1 <= p && 1 <= q && p + q <= |u|
    requires HasPeriod(u, p) && HasPeriod(u, q)
    ensures HasPeriod(u, Gcd(p, q))
    decreases p + q
  {
    if p < q {
      DifferencePeriod(u, p, q);
      FineWilf(u, p, q - p);
    } else if q < p {
      DifferencePeriod(u, q, p);
      FineWilf(u, p - q, q);
    }
  }

  lemma DifferencePeriod(u: seq<char>, p: nat, q: nat)
    requires 1 <= p < q && p + q <= |u|
    requires HasPeriod(u, p) && HasPeriod(u, q)
    ensures HasPeriod(u, q - p)
  {
    forall i | q - p <= i < |u| ensures u[i] == u[i - (q - p)] {
      if i + p < |u| {
        assert u[i + p] == u[i];
        assert u[i + p] == u[i + p - q];
      } else {
        assert u[i] == u[i - p] || i < p;
        assert u[i - (q - p)] == u[i - q] || i < q;
      }
    }
  }

  /** A period seen at the end of a word with a longer period is a period of the whole word. */
  lemma PeriodSpreads(x: seq<char>, q: nat, m: nat, g: nat)
    requires 1 <= q && 1 <= g && q + g <= m <= |x|
    requires HasPeriod(x, q) && HasPeriod(x[|x| - m..], g)
    ensures HasPeriod(x, g)
  {
    forall i | g <= i < |x| ensures x[i] == x[i - g] {
      PeriodSpreadsAt(x, q, m, g, i);
    }
  }

  lemma {:induction false} PeriodSpreadsAt(x: seq<char>, q: nat, m: nat, g: nat, i: nat)
    requires 1 <= q && 1 <= g && q + g <= m <= |x| && g <= i < |x|
    requires HasPeriod(x, q) && HasPeriod(x[|x| - m..], g)
    ensures x[i] == x[i - g]
    decreases |x| - i
  {
    var d := |x| - m;
    if d + g <= i {
      assert x[d..][i - d] == x[d..][i - d - g];
    } else {
      PeriodSpreadsAt(x, q, m, g, i + q);
      assert x[i + q] == x[i];
      assert x[i + q - g] == x[i - g];
    }
  }

  // ---------------------------------------------------------------- window against whole text

  /** Inside a window a run is the whole run, cut at the window's start. */
  lemma RunInWindow(s: seq<char>, offset: nat, p: nat)
    requires offset <= |s| && offset + p <= |s|
    ensures var w := s[offset..];
            Run(w, p) == if Run(s, p) <= |w| - p then Run(s, p) else |w| - p
  {
    var w := s[offset..];
    var r := Run(s, p);
    var k := if r <= |w| - p then r else |w| - p;
    forall i | |w| - k <= i < |w| ensures w[i] == w[i - p] {
      assert s[offset + i] == s[offset + i - p];
    }
    assert IsRun(w, p, k);
    RunOf(w, p, k);
  }

  /** `p` repeats through the whole of `w`. */
  ghost predicate Fills(w: seq<char>, p: nat) {
    1 <= p <= MAX_PERIOD && p < |w| && Run(w, p) == |w| - p
  }

  lemma FillsIsPeriod(w: seq<char>, p: nat)
    requires 1 <= p <= MAX_PERIOD && p < |w|
    ensures Fills(w, p) <==> HasPeriod(w, p)
  {
    SuffixPeriod(w, p, |w| - p);
    assert w[|w| - (|w| - p) - p..] == w;
    if HasPeriod(w, p) {
      RunIsLongest(w, p, |w| - p);
    }
  }

  lemma LeastFilling(w: seq<char>, p: nat) returns (least: nat)
    requires Fills(w, p)
    ensures Fills(w, least) && least <= p
    ensures forall q :: Fills(w, q) ==> least <= q
  {
    least := 1;
    while !Fills(w, least)
      invariant 1 <= least <= p
      invariant forall q :: Fills(w, q) ==> least <= q
      decreases p - least
    {
      least := least + 1;
    }
  }

  /** No other period comes close to the least one that fills a window of at least two periods. */
  lemma LeastFillingWins(w: seq<char>, p: nat, q: nat)
    requires |w| >= 2 * MAX_PERIOD
    requires Fills(w, p) && forall r :: Fills(w, r) ==> p <= r
    requires 1 <= q <= MAX_PERIOD && q < |w| && q != p
    ensures Run(w, q) < |w| - p
  {
    var r := Run(w, q);
    if |w| - p <= r && q < p {
      var y := w[|w| - r - q..];
      SuffixPeriod(w, q, r);
      FillsIsPeriod(w, p);
      forall i | p <= i < |y| ensures y[i] == y[i - p] {
        assert w[|w| - r - q + i] == w[|w| - r - q + i - p];
      }
      FineWilf(y, p, q);
      var g := Gcd(p, q);
      PeriodSpreads(w, p, |y|, g);
      FillsIsPeriod(w, g);
      assert false;
    }
  }

  /** What repeats with `q` from before the window on also repeats with a `p` that fills the window. */
  lemma FillingSpreads(s: seq<char>, offset: nat, p: nat, q: nat, r: nat)
    requires offset <= |s| && 1 <= p <= q && p + q <= |s| - offset <= r + q <= |s|
    requires Repeats(s, q, r) && HasPeriod(s[offset..], p)
    ensures Repeats(s, p, r + q - p)
  {
    hide HasPeriod, Repeats;
    var x := s[|s| - r - q..];
    SuffixPeriod(s, q, r);
    assert x[|x| - (|s| - offset)..] == s[offset..];
    PeriodSpreads(x, q, |s| - offset, p);
    assert |s| - (r + q - p) - p == |s| - r - q;
    SuffixPeriod(s, p, r + q - p);
  }

  /** A longer period that also fills the window cannot reach further back in the whole text. */
  lemma LeastFillingReachesFurther(s: seq<char>, offset: nat, p: nat, q: nat)
    requires offset <= |s| && |s| - offset >= 2 * MAX_PERIOD
    requires Fills(s[offset..], p) && Fills(s[offset..], q) && p < q
    ensures Run(s, q) < Run(s, p)
  {
    var r := Run(s, q);
    assert r + q <= |s| && Repeats(s, q, r);
    hide HasPeriod, Repeats, Run;
    RunInWindow(s, offset, q);
    FillsIsPeriod(s[offset..], p);
    FillingSpreads(s, offset, p, q, r);
    RunIsLongest(s, p, r + q - p);
  }

  /** A unit that fills the window is the unit an exhaustive search of the whole text chooses. */
  lemma FillingWinnerIsGlobal(s: seq<char>, offset: nat, p: nat)
    requires offset <= |s| && |s| - offset >= 2 * MAX_PERIOD
    requires Fills(s[offset..], p)
    requires forall r :: Fills(s[offset..], r) ==> p <= r
    ensures Detects(s, Some(TailLoop(|s| - Run(s, p), p, Run(s, p))))
  {
    var w := s[offset..];
    RunInWindow(s, offset, p);
    assert Run(s, p) >= |w| - p;
    forall q | Candidate(s, q) ensures NoWorse(s, p, q) {
      if q != p {
        RunInWindow(s, offset, q);
        LeastFillingWins(w, p, q);
        if Run(w, q) == |w| - q {
          assert Fills(w, q);
          LeastFillingReachesFurther(s, offset, p, q);
        }
      }
    }
  }

  /** When nothing fills the window, window and whole text have the same candidates and runs. */
  lemma UnfilledWindowIsGlobal(s: seq<char>, offset: nat, found: Option<TailLoop>)
    requires offset <= |s| && |s| - offset >= 2 * MAX_PERIOD
    requires Detects(s[offset..], found)
    requires forall q :: !Fills(s[offset..], q)
    ensures Detects(s, match found case None => None case Some(t) => Some(t.(uniquePrefix := t.uniquePrefix + offset)))
  {
    var w := s[offset..];
    forall q | 1 <= q <= MAX_PERIOD ensures Run(w, q) == Run(s, q) {
      RunInWindow(s, offset, q);
      assert !Fills(w, q);
    }
    forall q ensures Candidate(s, q) == Candidate(w, q) {
    }
    if found.Some? {
      forall q | Candidate(s, q) ensures NoWorse(s, found.value.period, q) {
        assert NoWorse(w, found.value.period, q);
      }
    }
  }

  /** A window holding a filling period is won by the least of them. */
  lemma FilledWindowWinner(w: seq<char>, found: Option<TailLoop>, p: nat)
    requires |w| >= 2 * MAX_PERIOD
    requires Detects(w, found) && Fills(w, p)
    ensures found.Some? && found.value.uniquePrefix == found.value.period
    ensures Fills(w, found.value.period) && forall q :: Fills(w, q) ==> found.value.period <= q
  {
    var least := LeastFilling(w, p);
    assert Candidate(w, least);
    assert found.Some?;
    var t := found.value;
    if t.period != least {
      LeastFillingWins(w, least, t.period);
      assert false;
    }
  }

  /** The windowed choice, followed back, is the exhaustive answer: the window loses nothing. */
  lemma WindowLosesNothing(s: seq<char>, offset: nat, found: Option<TailLoop>)
    requires offset <= |s| && |s| - offset == SCAN_WINDOW
    requires Detects(s[offset..], found)
    ensures found.None? ==> Detects(s, None)
    ensures found.Some? && found.value.uniquePrefix == found.value.period ==>
              var p := found.value.period;
              Detects(s, Some(TailLoop(|s| - Run(s, p), p, Run(s, p))))
    ensures found.Some? && found.value.uniquePrefix != found.value.period ==>
              Detects(s, Some(found.value.(uniquePrefix := found.value.uniquePrefix + offset)))
  {
    var w := s[offset..];
    if p :| Fills(w, p) {
      FilledWindowWinner(w, found, p);
      FillingWinnerIsGlobal(s, offset, found.value.period);
    } else {
      UnfilledWindowIsGlobal(s, offset, found);
      if found.Some? && found.value.uniquePrefix == found.value.period {
        assert Fills(w, found.value.period);
        assert false;
      }
    }
  }

  // ---------------------------------------------------------------- the detector

  /** Trailing characters of `chars` that repeat the one `period` before. */
  method CountRepeated(chars: seq<char>, period: nat) returns (repeated: nat)
    requires period <= |chars|
    ensures repeated == Run(chars, period)
  {
    repeated := 0;
    while period + repeated < |chars| && chars[|chars| - repeated - 1] == chars[|chars| - repeated - 1 - period]
      invariant Repeats(chars, period, repeated)
      decreases |chars| - repeated
    {
      repeated := repeated + 1;
    }
    RunOf(chars, period, repeated);
  }

  /**
   A run of period `q` ends its first copy at `q` or later, so once the period reaches the best prefix
   no remaining candidate can win: stopping early loses nothing.
   */
  lemma EarlyBreak(chars: seq<char>, period: nat, best: Option<TailLoop>)
    requires DetectsBelow(chars, period, best)
    requires best.Some? && period >= best.value.uniquePrefix
    ensures Detects(chars, best)
  {
    forall q: nat | Candidate(chars, q) ensures NoWorse(chars, best.value.period, q) {
      assert IsRun(chars, q, Run(chars, q));
    }
  }

  /** The best answer below `period + 1`, from the best below `period` and the run at `period`. */
  function Improve(n: nat, best: Option<TailLoop>, period: nat, repeated: nat): Option<TailLoop>
    requires period + repeated <= n
  {
    if Qualifies(period, repeated) && (best.None? || n - repeated < best.value.uniquePrefix)
    then Some(TailLoop(n - repeated, period, repeated))
    else best
  }

  lemma ImproveDetects(chars: seq<char>, best: Option<TailLoop>, period: nat)
    requires 1 <= period <= MAX_PERIOD && period < |chars|
    requires DetectsBelow(chars, period, best)
    ensures DetectsBelow(chars, period + 1, Improve(|chars|, best, period, Run(chars, period)))
  {
    hide Run;
    var next := Improve(|chars|, best, period, Run(chars, period));
    if next.Some? {
      forall q: nat | Candidate(chars, q) && q < period + 1 ensures NoWorse(chars, next.value.period, q) {
        if q < period {
          assert best.Some? && NoWorse(chars, best.value.period, q);
        }
      }
    }
  }

  method DetectInWindow(chars: seq<char>) returns (best: Option<TailLoop>)
    ensures Detects(chars, best)
  {
    var n := |chars|;
    best := None;
    var last := if n == 0 then 0 else if n - 1 < MAX_PERIOD then n - 1 else MAX_PERIOD;
    for period := 1 to last + 1
      invariant DetectsBelow(chars, period, best)
    {
      if best.Some? && period >= best.value.uniquePrefix {
        EarlyBreak(chars, period, best);
        break;
      }
      var repeated := CountRepeated(chars, period);
      ImproveDetects(chars, best, period);
      if Qualifies(period, repeated) {
        var start := n - repeated - period;
        if best.None? || start + period < best.value.uniquePrefix {
          best := Some(TailLoop(start + period, period, repeated));
        }
      }
    }
  }

  /** Find the earliest-starting periodic run that extends to the end of `text`, whatever its length. */
  method DetectTailLoop(text: seq<char>) returns (found: Option<TailLoop>)
    ensures Detects(text, found)
  {
    hide Run, NoWorse, HasPeriod, Qualifies;
    var total := |text|;
    var offset := if total <= SCAN_WINDOW then 0 else total - SCAN_WINDOW;
    var window := text[offset..];
    var inWindow := DetectInWindow(window);
    if offset > 0 {
      WindowLosesNothing(text, offset, inWindow);
    }
    if inWindow.None? {
      assert offset == 0 ==> window == text;
      return None;
    }
    var t := inWindow.value;
    if offset > 0 && t.uniquePrefix == t.period {
      RunInWindow(text, offset, t.period);
      var start := offset;
      while start > 0 && text[start - 1] == text[start - 1 + t.period]
        invariant 0 <= start <= offset
        invariant Repeats(text, t.period, total - start - t.period)
      {
        start := start - 1;
      }
      RunOf(text, t.period, total - start - t.period);
      t := t.(repeated := t.repeated + (offset - start), uniquePrefix := start + t.period);
    } else {
      assert offset == 0 ==> window == text;
      t := t.(uniquePrefix := t.uniquePrefix + offset);
    }
    found := Some(t);
  }

  /** Whether a growing stream should be stopped: it already ends in three whole copies of one unit. */
  method ShouldStopStreaming(text: seq<char>) returns (stop: bool)
    ensures stop <==> exists t :: Detects(text, Some(t)) && t.repeated >= 2 * t.period && t.repeated >= 96
    ensures stop ==> exists p :: 1 <= p && 3 * p <= |text| && EndsInThreeCopies(text, p)
  {
    var found := DetectTailLoop(text);
    stop := found.Some? && found.value.repeated >= 2 * found.value.period && found.value.repeated >= 96;
    if stop {
      ThreeCopies(text, found.value.period);
    }
    forall t | Detects(text, Some(t)) ensures found == Some(t) {
      DetectsUnique(text, found, Some(t));
    }
  }

  ghost predicate EndsInThreeCopies(text: seq<char>, p: nat)
    requires 3 * p <= |text|
  {
    var n := |text|;
    text[n - p..] == text[n - 2 * p..n - p] == text[n - 3 * p..n - 2 * p]
  }

  lemma ThreeCopies(text: seq<char>, p: nat)
    requires 1 <= p && 3 * p <= |text| && Repeats(text, p, 2 * p)
    ensures EndsInThreeCopies(text, p)
  {
    var n := |text|;
    assert forall i :: n - p <= i < n ==> text[i] == text[i - p];
    assert forall i :: n - 2 * p <= i < n - p ==> text[i] == text[i - p];
    assert text[n - p..] == text[n - 2 * p..n - p];
    assert text[n - 2 * p..n - p] == text[n - 3 * p..n - 2 * p];
  }

  /** Three copies of thirty-one letters 'a' and a 'b'. */
  function ShortCopies(): seq<char> { seq(96, i => if i % 32 == 31 then 'b' else 'a') }

  /** They span 96 characters, but what repeats is only the last 64 of them: the stream goes on. */
  lemma ThreeCopiesNotStopped()
    ensures |ShortCopies()| == 96 && EndsInThreeCopies(ShortCopies(), 32)
    ensures Detects(ShortCopies(), Some(TailLoop(32, 32, 64)))
    ensures !exists t :: Detects(ShortCopies(), Some(t)) && t.repeated >= 2 * t.period && t.repeated >= 96
  {
    hide Run, Detects;
    var s := ShortCopies();
    assert Repeats(s, 32, 64);
    ThreeCopies(s, 32);
    RunOf(s, 32, 64);
    assert s[95] == 'b' && forall i :: 64 <= i < 95 ==> s[i] == 'a';
    forall q | Candidate(s, q) ensures NoWorse(s, 32, q) {
      RunIsWithin(s, q);
    }
    DetectsWhen(s, TailLoop(32, 32, 64));
    forall t | Detects(s, Some(t)) ensures t == TailLoop(32, 32, 64) {
      DetectsUnique(s, Some(t), Some(TailLoop(32, 32, 64)));
    }
  }

  lemma RunIsWithin(s: seq<char>, q: nat)
    requires q <= |s|
    ensures q + Run(s, q) <= |s| && (Run(s, q) > 0 ==> s[|s| - 1] == s[|s| - 1 - q])
  {
    var r := Run(s, q);
    assert Repeats(s, q, r);
  }

  lemma DetectsWhen(s: seq<char>, t: TailLoop)
    requires Candidate(s, t.period) && t.repeated == Run(s, t.period) && t.uniquePrefix == |s| - t.repeated
    requires forall q :: Candidate(s, q) ==> NoWorse(s, t.period, q)
    ensures Detects(s, Some(t))
  {
  }

  // ---------------------------------------------------------------- shape of the answer

  /** Prefix and repeated tail tile the text, and the run cannot be extended to the left. */
  lemma AnswerTiles(s: seq<char>, t: TailLoop)
    requires Detects(s, Some(t))
    ensures t.uniquePrefix + t.repeated == |s| && t.period <= t.uniquePrefix
    ensures forall i :: t.uniquePrefix <= i < |s| ==> s[i] == s[i - t.period]
    ensures t.uniquePrefix == t.period || s[t.uniquePrefix - 1] != s[t.uniquePrefix - 1 - t.period]
  {
    var r := Run(s, t.period);
    assert IsRun(s, t.period, r);
  }

  /**
   A loop is found exactly if some unit of at most 4,096 characters is repeated at the end: once at least, over 48
   characters in all, or for 128 characters beyond a first copy.
   */
  lemma LoopExactly(s: seq<char>, found: Option<TailLoop>)
    requires Detects(s, found)
    ensures found.Some? <==>
            exists p, k :: 1 <= p <= 4096 && Repeats(s, p, k) && ((p <= k && p + k >= 48) || k >= 128)
  {
    hide Run, NoWorse;
    if found.Some? {
      var p := found.value.period;
      assert Repeats(s, p, Run(s, p));
    }
    if p, k :| 1 <= p <= 4096 && Repeats(s, p, k) && ((p <= k && p + k >= 48) || k >= 128) {
      RunIsLongest(s, p, k);
      assert Candidate(s, p);
    }
  }

  /** `k` copies of `v`. */
  ghost function Power(v: seq<char>, k: nat): seq<char> {
    if k == 0 then [] else v + Power(v, k - 1)
  }

  lemma {:induction false} PowerAt(v: seq<char>, k: nat)
    ensures |Power(v, k)| == k * |v|
    ensures HasPeriod(Power(v, k), |v|)
    decreases k
  {
    if k > 0 {
      var rest := Power(v, k - 1);
      PowerAt(v, k - 1);
      assert (k - 1) * |v| + |v| == k * |v|;
      forall i | |v| <= i < |v| + |rest| ensures (v + rest)[i] == (v + rest)[i - |v|] {
        if i >= 2 * |v| {
          assert rest[i - |v|] == rest[i - 2 * |v|];
        } else {
          assert k >= 2;
          assert rest[i - |v|] == v[i - |v|] by {
            assert rest == v + Power(v, k - 2);
          }
        }
      }
    }
  }

  /** The repeated unit is primitive: it is not itself a shorter word written several times. */
  lemma UnitIsPrimitive(s: seq<char>, t: TailLoop, v: seq<char>, k: nat)
    requires Detects(s, Some(t))
    requires t.period <= t.uniquePrefix <= |s|
    requires s[t.uniquePrefix - t.period..t.uniquePrefix] == Power(v, k)
    ensures k == 1
  {
    PowerAt(v, k);
    if k != 1 {
      AtLeastTwice(t.period, |v|, k);
      ShorterUnitWins(s, t.period, v, k);
    }
  }

  lemma AtLeastTwice(p: nat, d: nat, k: nat)
    requires p == k * d && p >= 1 && k != 1
    ensures d >= 1 && 2 * d <= p
  {
    assert k == 0 || d == 0 ==> k * d == 0;
    assert k * d == 2 * d + (k - 2) * d;
    assert (k - 2) * d >= 0;
  }

  /** If the unit were several copies of `v`, the period of `v` would give a longer run. */
  lemma ShorterUnitWins(s: seq<char>, p: nat, v: seq<char>, k: nat)
    requires Candidate(s, p) && 1 <= |v| && 2 * |v| <= p && p == k * |v|
    requires HasPeriod(Power(v, k), |v|)
    requires var a := |s| - Run(s, p) - p; s[a..a + p] == Power(v, k)
    ensures Candidate(s, |v|) && !NoWorse(s, p, |v|)
  {
    hide Power;
    var r, d := Run(s, p), |v|;
    var a := |s| - r - p;
    var unit, y := s[a..a + p], s[a..];
    SuffixPeriod(s, p, r);
    forall j | 0 <= j < d ensures unit[j] == unit[p - d + j] {
      WrapAround(unit, d, k, j);
    }
    forall i | d <= i < |y| ensures y[i] == y[i - d] {
      UnitPeriodSpreads(y, p, d, unit, i);
    }
    SuffixPeriod(s, d, r + p - d);
    assert s[|s| - (r + p - d) - d..] == y;
    RunIsLongest(s, d, r + p - d);
  }

  lemma {:induction false} UnitPeriodSpreads(y: seq<char>, p: nat, d: nat, unit: seq<char>, i: nat)
    requires 1 <= d && 2 * d <= p && |unit| == p <= |y| && unit == y[..p]
    requires HasPeriod(y, p) && HasPeriod(unit, d)
    requires forall j :: 0 <= j < d ==> unit[j] == unit[p - d + j]
    requires d <= i < |y|
    ensures y[i] == y[i - d]
    decreases i
  {
    if i < p {
      assert unit[i] == unit[i - d];
    } else if i - p >= d {
      UnitPeriodSpreads(y, p, d, unit, i - p);
    } else {
      assert y[i] == y[i - p] == unit[i - p];
      assert y[i - d] == unit[i - d];
    }
  }

  /** In a word of `k` blocks with period `d`, the last block repeats the first. */
  lemma {:induction false} WrapAround(unit: seq<char>, d: nat, k: nat, j: nat)
    requires 1 <= d && k >= 1 && |unit| == k * d && HasPeriod(unit, d) && j < d
    ensures 0 <= |unit| - d + j < |unit| && unit[j] == unit[|unit| - d + j]
    decreases k
  {
    assert k * d == (k - 1) * d + d;
    assert (k - 1) * d >= 0;
    if k > 1 {
      var shorter := unit[..(k - 1) * d];
      assert (k - 1) * d == (k - 2) * d + d;
      assert (k - 2) * d >= 0;
      WrapAround(shorter, d, k - 1, j);
      assert unit[|unit| - d + j] == unit[|unit| - d + j - d];
    }
  }
}
