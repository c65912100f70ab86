/**
 The self-calibrating token estimate (packages/mcp/src/research/fit.ts, lines 26 to 79). The scale and the
 ratios are real numbers.
 */
module Budgeter {
  import opened Wrappers
  import opened Text16
  import opened Clipping

  /** What the estimate sees of a message: the text of its content, its images, and the text of all else. */
  datatype Parts = Parts(content: Text, images: nat, metadata: Text)

  function EstimateTokens(text: Text, charsPerToken: real): (n: nat)
    requires charsPerToken > 0.0
    ensures n >= 1
  {
    assert Length(text) as real / charsPerToken >= 0.0;
    (Length(text) as real / charsPerToken).Floor + 1
  }

  function MessageTokens(m: Parts, charsPerToken: real, imageTokens: nat): (n: nat)
    requires charsPerToken > 0.0
    ensures n >= 2
  {
    assert m.images * imageTokens >= 0;
    EstimateTokens(m.content, charsPerToken) + m.images * imageTokens + EstimateTokens(m.metadata, charsPerToken)
  }

  function Total(messages: seq<Parts>, charsPerToken: real, imageTokens: nat): (n: nat)
    requires charsPerToken > 0.0
    ensures n >= 2 * |messages|
  {
    if messages == [] then 0
    else Total(messages[..|messages| - 1], charsPerToken, imageTokens)
         + MessageTokens(messages[|messages| - 1], charsPerToken, imageTokens)
  }

  method MessagesTokens(messages: seq<Parts>, charsPerToken: real, imageTokens: nat) returns (total: nat)
    requires charsPerToken > 0.0
    ensures total == Total(messages, charsPerToken, imageTokens)
  {
    total := 0;
    var i := 0;
    while i < |messages|
      invariant 0 <= i <= |messages|
      invariant total == Total(messages[..i], charsPerToken, imageTokens)
    {
      var message := messages[i];
      total := total + EstimateTokens(message.content, charsPerToken);
      total := total + message.images * imageTokens;
      total := total + EstimateTokens(message.metadata, charsPerToken);
      assert messages[..i + 1][..i] == messages[..i];
      i := i + 1;
    }
    assert messages[..i] == messages;
  }

  function Characters(messages: seq<Parts>): nat {
    if messages == [] then 0
    else
      var last := messages[|messages| - 1];
      Characters(messages[..|messages| - 1]) + Length(last.content) + Length(last.metadata)
  }

  function Images(messages: seq<Parts>): nat {
    if messages == [] then 0 else Images(messages[..|messages| - 1]) + messages[|messages| - 1].images
  }

  /** What so many characters come to. */
  function Worth(characters: nat, charsPerToken: real): real
    requires charsPerToken > 0.0
  {
    characters as real / charsPerToken
  }

  /** Apart from images, the estimate is what the characters come to, rounded up by at most one for each of two texts a message. */
  lemma {:induction false} EstimateBounds(messages: seq<Parts>, charsPerToken: real, imageTokens: nat)
    requires charsPerToken > 0.0
    ensures var tokens := Total(messages, charsPerToken, imageTokens) - Images(messages) * imageTokens;
            && tokens as real - 2.0 * |messages| as real <= Worth(Characters(messages), charsPerToken) <= tokens as real
            && (messages != [] ==> Worth(Characters(messages), charsPerToken) < tokens as real)
  {
    hide EstimateTokens, Length, Worth;
    if messages == [] {
      NothingWorth(charsPerToken);
    } else {
      var front, last := messages[..|messages| - 1], messages[|messages| - 1];
      EstimateBounds(front, charsPerToken, imageTokens);
      EstimateBound(last.content, charsPerToken);
      EstimateBound(last.metadata, charsPerToken);
      ProductSum(Images(front), last.images, imageTokens);
      WorthSum(Characters(front), Length(last.content), charsPerToken);
      WorthSum(Characters(front) + Length(last.content), Length(last.metadata), charsPerToken);
    }
  }

  lemma EstimateBound(text: Text, charsPerToken: real)
    requires charsPerToken > 0.0
    ensures EstimateTokens(text, charsPerToken) as real - 1.0 <= Worth(Length(text), charsPerToken)
            < EstimateTokens(text, charsPerToken) as real
  {
    hide Length;
  }

  lemma NothingWorth(charsPerToken: real)
    requires charsPerToken > 0.0
    ensures Worth(0, charsPerToken) == 0.0
  {
  }

  lemma WorthSum(a: nat, b: nat, charsPerToken: real)
    requires charsPerToken > 0.0
    ensures Worth(a + b, charsPerToken) == Worth(a, charsPerToken) + Worth(b, charsPerToken)
  {
  }

  lemma ProductSum(a: nat, b: nat, c: nat)
    ensures (a + b) * c == a * c + b * c
  {
  }

  /** The least integer that is not below `x`. */
  function Ceil(x: real): (n: int)
    ensures n as real - 1.0 < x <= n as real
  {
    -((-x).Floor)
  }

  /** `Math.trunc` */
  function Trunc(x: real): int { if x >= 0.0 then x.Floor else Ceil(x) }

  lemma CeilGrows(x: real, y: real)
    requires x <= y
    ensures Ceil(x) <= Ceil(y)
  {
  }

  lemma Times(t: real, low: real, high: real)
    requires t >= 0.0 && low <= high
    ensures t * low <= t * high
  {
    assert t * (high - low) >= 0.0;
    assert t * (high - low) == t * high - t * low;
  }

  lemma Scaled(tokens: nat, low: real, high: real)
    requires low <= high
    ensures Ceil(tokens as real * low) <= Ceil(tokens as real * high)
  {
    hide Ceil;
    Times(tokens as real, low, high);
    CeilGrows(tokens as real * low, tokens as real * high);
  }

  lemma ScaledBack(tokens: nat, actual: nat)
    requires tokens >= 1
    ensures Ceil(tokens as real * (actual as real / tokens as real)) == actual
  {
    var t: real := tokens as real;
    assert t * (actual as real / t) == actual as real;
  }

  /** The estimate of a conversation under a given scale. */
  function Scale(messages: seq<Parts>, charsPerToken: real, imageTokens: nat, scale: real): int
    requires charsPerToken > 0.0
  {
    Ceil(Total(messages, charsPerToken, imageTokens) as real * scale)
  }

  lemma Rises(messages: seq<Parts>, charsPerToken: real, imageTokens: nat, low: real, high: real)
    requires charsPerToken > 0.0 && low <= high
    ensures Scale(messages, charsPerToken, imageTokens, low) <= Scale(messages, charsPerToken, imageTokens, high)
  {
    Scaled(Total(messages, charsPerToken, imageTokens), low, high);
  }

  lemma Calibrated(messages: seq<Parts>, charsPerToken: real, imageTokens: nat, actual: nat, tokens: nat)
    requires charsPerToken > 0.0 && messages != [] && tokens == Total(messages, charsPerToken, imageTokens)
    ensures tokens >= 2 && Scale(messages, charsPerToken, imageTokens, actual as real / tokens as real) == actual
  {
    ScaledBack(tokens, actual);
  }

  class ContextBudgeter {
    const charsPerToken: real
    const imageTokens: nat
    var scale: real
    var samples: nat
    /** Every conversation observed, with the count the model reported for it. */
    ghost var observed: seq<(seq<Parts>, nat)>

    ghost predicate Valid()
      reads this
    {
      && charsPerToken > 0.0 && scale >= 1.0 && samples >= |observed|
      && forall k :: 0 <= k < |observed| && observed[k].0 != [] ==> Estimate(observed[k].0) >= observed[k].1
    }

    constructor (charsPerToken: real, imageTokens: nat, initialScale: real, calibrationSamples: int)
      requires charsPerToken > 0.0
      ensures Valid() && observed == [] && this.charsPerToken == charsPerToken && this.imageTokens == imageTokens
      ensures scale == if initialScale > 1.0 then initialScale else 1.0
      ensures samples as int == if calibrationSamples > 0 then calibrationSamples else 0
    {
      this.charsPerToken, this.imageTokens := charsPerToken, imageTokens;
      scale := if initialScale > 1.0 then initialScale else 1.0;
      samples := if calibrationSamples > 0 then calibrationSamples else 0;
      observed := [];
    }

    function Estimate(messages: seq<Parts>): int
      requires charsPerToken > 0.0
      reads this
    {
      Scale(messages, charsPerToken, imageTokens, scale)
    }

    /**
     Learn from the prompt count the model reported, `None` when it is not a finite number.

     The estimate of every conversation only rises, and no non-empty conversation ever observed is again
     estimated below its count; a rise is just enough for the conversation at hand.
     */
    method Observe(messages: seq<Parts>, promptEvalCount: Option<real>) returns (raised: bool)
      requires Valid()
      modifies this
      ensures Valid()
      ensures raised <==> scale > old(scale)
      ensures scale >= old(scale)
      ensures forall other: seq<Parts> :: Estimate(other) >= old(Estimate(other))
      ensures if promptEvalCount.Some? && Trunc(promptEvalCount.value) > 0
              then && observed == old(observed) + [(messages, Trunc(promptEvalCount.value))]
                   && samples == old(samples) + 1
                   && (messages != [] ==> Estimate(messages) >= Trunc(promptEvalCount.value))
                   && (messages != [] && raised ==> Estimate(messages) == Trunc(promptEvalCount.value))
              else observed == old(observed) && samples == old(samples) && !raised
    {
      hide Total, Scale, Trunc;
      raised := false;
      if promptEvalCount.None? { return; }
      var actual := Trunc(promptEvalCount.value);
      if actual <= 0 { return; }
      var tokens := MessagesTokens(messages, charsPerToken, imageTokens);
      var baseline := if tokens > 1 then tokens else 1;
      var previous := scale;
      var ratio := actual as real / baseline as real;
      if ratio > scale { scale := ratio; }
      samples := samples + 1;
      forall other: seq<Parts> ensures Estimate(other) >= old(Estimate(other)) {
        Rises(other, charsPerToken, imageTokens, previous, scale);
      }
      if messages != [] {
        Calibrated(messages, charsPerToken, imageTokens, actual, tokens);
        Rises(messages, charsPerToken, imageTokens, ratio, scale);
      }
      observed := observed + [(messages, actual)];
      raised := scale > previous;
    }
  }
}
