/**
 Texts as UTF-16 code units and as code points (packages/mcp/src/research/text.ts, lines 13 to 47).

 A JavaScript string is any sequence of 16-bit units. `CodePoints` reads it as the source does: a high
 surrogate followed by a low one is one code point, every other unit is one by itself (section 2 of
 RFC 2781).
 */
module Text16 {
  import S = Sequences

  type Unit = u: nat | u < 0x1_0000
  type Text = seq<Unit>
  type Point = p: nat | p <= 0x10_FFFF

  const NEWLINE: Unit := 10

  predicate High(u: nat) { 0xD800 <= u <= 0xDBFF }

  predicate Low(u: nat) { 0xDC00 <= u <= 0xDFFF }

  /** A high and a low surrogate stand next to each other at `i`. */
  predicate PairAt(text: Text, i: nat) {
    i + 1 < |text| && High(text[i]) && Low(text[i + 1])
  }

  function Combine(high: Unit, low: Unit): Point
    requires High(high) && Low(low)
  {
    0x1_0000 + (high - 0xD800) * 0x400 + (low - 0xDC00)
  }

  function CodePoints(text: Text): seq<Point> {
    if text == [] then []
    else if PairAt(text, 0) then [Combine(text[0], text[1])] + CodePoints(text[2..])
    else [text[0]] + CodePoints(text[1..])
  }

  function UnitsOf(p: Point): (units: Text)
    ensures 1 <= |units| <= 2
  {
    if p < 0x1_0000 then [p] else [0xD800 + (p - 0x1_0000) / 0x400, 0xDC00 + (p - 0x1_0000) % 0x400]
  }

  function Encode16(points: seq<Point>): Text {
    if points == [] then [] else UnitsOf(points[0]) + Encode16(points[1..])
  }

  /** No two neighbouring single units would read as one code point. */
  predicate Canonical(points: seq<Point>) {
    forall i :: 0 < i < |points| ==> !(High(points[i - 1]) && Low(points[i]))
  }

  /** UTF-16 offset of the code point number `k`. */
  function Offset(points: seq<Point>, k: nat): nat
    requires k <= |points|
  {
    if k == 0 then 0 else Offset(points, k - 1) + |UnitsOf(points[k - 1])|
  }

  // ---------------------------------------------------------------- units and points

  lemma {:induction false} Encode16Concat(a: seq<Point>, b: seq<Point>)
    ensures Encode16(a + b) == Encode16(a) + Encode16(b)
  {
    if a == [] {
      assert a + b == b;
    } else {
      assert (a + b)[1..] == a[1..] + b;
      Encode16Concat(a[1..], b);
    }
  }

  lemma CombineUnits(high: Unit, low: Unit)
    requires High(high) && Low(low)
    ensures UnitsOf(Combine(high, low)) == [high, low]
  {
  }

  /** Reading a text as code points loses nothing, lone surrogates included. */
  lemma {:induction false} PointsEncodeBack(text: Text)
    ensures Encode16(CodePoints(text)) == text
    decreases |text|
  {
    if text != [] {
      if PairAt(text, 0) {
        CombineUnits(text[0], text[1]);
        PointsEncodeBack(text[2..]);
        assert text == [text[0], text[1]] + text[2..];
      } else {
        PointsEncodeBack(text[1..]);
        assert text == [text[0]] + text[1..];
      }
    }
  }

  lemma FirstUnit(p: Point)
    ensures p < 0x1_0000 ==> UnitsOf(p) == [p]
    ensures p >= 0x1_0000 ==> |UnitsOf(p)| == 2 && High(UnitsOf(p)[0]) && Low(UnitsOf(p)[1])
                              && Combine(UnitsOf(p)[0], UnitsOf(p)[1]) == p
  {
  }

  lemma {:induction false} EncodeReadsBack(points: seq<Point>)
    requires Canonical(points)
    ensures CodePoints(Encode16(points)) == points
    decreases |points|
  {
    if points != [] {
      var rest := points[1..];
      assert Canonical(rest) by {
        assert forall i :: 0 <= i < |rest| ==> rest[i] == points[i + 1];
      }
      EncodeReadsBack(rest);
      var text := Encode16(points);
      FirstUnit(points[0]);
      assert text[|UnitsOf(points[0])|..] == Encode16(rest);
      if rest != [] {
        FirstUnit(rest[0]);
        assert Encode16(rest)[0] == UnitsOf(rest[0])[0];
        assert rest[0] == points[1];
      }
      assert points == [points[0]] + rest;
    }
  }

  lemma {:induction false} PointsAreCanonical(text: Text)
    ensures Canonical(CodePoints(text))
    ensures text != [] ==> CodePoints(text) != []
                           && (CodePoints(text)[0] < 0x1_0000 ==> CodePoints(text)[0] == text[0])
    decreases |text|
  {
    if text != [] {
      var n := if PairAt(text, 0) then 2 else 1;
      PointsAreCanonical(text[n..]);
      var first, rest := CodePoints(text)[0], CodePoints(text[n..]);
      assert CodePoints(text) == [first] + rest;
      forall i | 0 < i < |CodePoints(text)| ensures !(High(CodePoints(text)[i - 1]) && Low(CodePoints(text)[i])) {
        assert CodePoints(text)[i] == rest[i - 1];
        assert i == 1 || CodePoints(text)[i - 1] == rest[i - 2];
        assert n == 1 ==> first == text[0] && (rest[0] < 0x1_0000 ==> rest[0] == text[1]);
      }
    }
  }

  lemma {:induction false} OffsetCounts(points: seq<Point>, k: nat)
    requires k <= |points|
    ensures |Encode16(points[..k])| == Offset(points, k)
    decreases k
  {
    if k > 0 {
      OffsetCounts(points, k - 1);
      S.Parts(points, k - 1, k);
      assert points[k - 1..k] == [points[k - 1]];
      Encode16Concat(points[..k - 1], [points[k - 1]]);
      assert [points[k - 1]][1..] == [];
    }
  }

  lemma SliceIsCanonical(points: seq<Point>, a: nat, b: nat)
    requires Canonical(points) && a <= b <= |points|
    ensures Canonical(points[a..b])
  {
    var s := points[a..b];
    assert forall i :: 0 <= i < |s| ==> s[i] == points[a + i];
  }

  /** A slice between code-point boundaries is a slice of the code points. */
  lemma SliceOfPoints(text: Text, points: seq<Point>, a: nat, b: nat)
    requires points == CodePoints(text) && a <= b <= |points|
    ensures Offset(points, a) <= Offset(points, b) <= |text|
    ensures text[Offset(points, a)..Offset(points, b)] == Encode16(points[a..b])
    ensures CodePoints(text[Offset(points, a)..Offset(points, b)]) == points[a..b]
  {
    PointsEncodeBack(text);
    PointsAreCanonical(text);
    SliceIsCanonical(points, a, b);
    EncodeReadsBack(points[a..b]);
    S.Parts(points, a, b);
    OffsetCounts(points, a);
    OffsetCounts(points, b);
    Encode16Concat(points[..a], points[a..b]);
    Encode16Concat(points[..b], points[b..]);
    S.Middle(Encode16(points[..a]), Encode16(points[a..b]), Encode16(points[b..]));
  }

  lemma OffsetEnds(text: Text, points: seq<Point>)
    requires points == CodePoints(text)
    ensures Offset(points, 0) == 0 && Offset(points, |points|) == |text|
  {
    PointsEncodeBack(text);
    OffsetCounts(points, |points|);
    S.Ends(points);
  }

  /** The first code point of a text, read from its units. */
  lemma FirstPoint(text: Text)
    requires text != []
    ensures CodePoints(text) != []
    ensures CodePoints(text)[0] == if PairAt(text, 0) then Combine(text[0], text[1]) else text[0]
    ensures |UnitsOf(CodePoints(text)[0])| == if PairAt(text, 0) then 2 else 1
  {
  }

  /** The code point at an offset takes two units exactly when it is a surrogate pair. */
  lemma StepOverPoint(text: Text, points: seq<Point>, k: nat)
    requires points == CodePoints(text) && k < |points|
    ensures Offset(points, k) < |text|
    ensures Offset(points, k + 1) == Offset(points, k) + (if PairAt(text, Offset(points, k)) then 2 else 1)
    ensures points[k] == (if PairAt(text, Offset(points, k)) then Combine(text[Offset(points, k)], text[Offset(points, k) + 1])
                          else text[Offset(points, k)])
  {
    SliceOfPoints(text, points, k, |points|);
    OffsetEnds(text, points);
    var at := Offset(points, k);
    var tail := text[at..];
    assert tail == text[at..Offset(points, |points|)];
    assert CodePoints(tail)[0] == points[k];
    FirstPoint(tail);
    assert PairAt(tail, 0) <==> PairAt(text, at);
  }

  lemma {:induction false} OffsetMonotone(points: seq<Point>, a: nat, b: nat)
    requires a <= b <= |points|
    ensures Offset(points, a) + (b - a) <= Offset(points, b)
    decreases b - a
  {
    if a < b {
      OffsetMonotone(points, a, b - 1);
    }
  }

  lemma {:induction false} NoPairsNoPoints(text: Text)
    requires forall i :: 0 <= i < |text| ==> !PairAt(text, i)
    ensures CodePoints(text) == text
    decreases |text|
  {
    if text != [] {
      assert forall i :: 0 <= i < |text[1..]| ==> (PairAt(text[1..], i) ==> PairAt(text, i + 1));
      NoPairsNoPoints(text[1..]);
      assert text == [text[0]] + text[1..];
    }
  }

  // ---------------------------------------------------------------- the helpers of text.ts

  /** Whether some surrogate pair occurs. */
  method HasPair(text: Text) returns (found: bool)
    ensures found <==> exists i :: 0 <= i < |text| && PairAt(text, i)
  {
    var i := 0;
    while i < |text|
      invariant 0 <= i <= |text|
      invariant forall j :: 0 <= j < i ==> !PairAt(text, j)
    {
      if PairAt(text, i) { return true; }
      i := i + 1;
    }
    found := false;
  }

  method CpLength(text: Text) returns (count: nat)
    ensures count == |CodePoints(text)|
  {
    var astral := HasPair(text);
    if !astral {
      NoPairsNoPoints(text);
      return |text|;
    }
    count := 0;
    var index := 0;
    ghost var points := CodePoints(text);
    OffsetEnds(text, points);
    while index < |text|
      invariant count <= |points| && index == Offset(points, count)
      decreases |text| - index
    {
      assert count < |points| by { OffsetEnds(text, points); }
      StepOverPoint(text, points, count);
      index := index + if PairAt(text, index) then 2 else 1;
      count := count + 1;
    }
    if count < |points| { StepOverPoint(text, points, count); }
  }

  /** The offset after advancing `count` code points from the boundary of code point number `k`. */
  method CpAdvance(text: Text, start: nat, count: nat, ghost k: nat) returns (index: nat)
    requires k <= |CodePoints(text)| && start == Offset(CodePoints(text), k)
    ensures var points := CodePoints(text);
            index == Offset(points, if k + count <= |points| then k + count else |points|)
    ensures start <= index <= |text|
  {
    hide CodePoints, Encode16, UnitsOf, Combine;
    index := start;
    ghost var points := CodePoints(text);
    OffsetEnds(text, points);
    SliceOfPoints(text, points, k, |points|);
    var step := 0;
    while step < count && index < |text|
      invariant step <= count && k + step <= |points|
      invariant index == Offset(points, k + step) && start <= index <= |text|
    {
      assert k + step < |points| by { OffsetEnds(text, points); }
      StepOverPoint(text, points, k + step);
      SliceOfPoints(text, points, k + step + 1, |points|);
      index := index + if PairAt(text, index) then 2 else 1;
      step := step + 1;
    }
    if k + step < |points| { StepOverPoint(text, points, k + step); }
  }

  /** Code points `[start, end)` of `text`, as far as it has them. */
  method CpSlice(text: Text, start: nat, end: nat) returns (slice: Text)
    ensures var points := CodePoints(text);
            var from := if start <= |points| then start else |points|;
            var to := if end <= from then from else if end <= |points| then end else |points|;
            slice == Encode16(points[from..to]) && CodePoints(slice) == points[from..to]
  {
    hide Encode16, UnitsOf, Combine;
    ghost var points := CodePoints(text);
    var astral := HasPair(text);
    if !astral {
      NoPairsNoPoints(text);
      var from := if start <= |text| then start else |text|;
      var to := if end <= from then from else if end <= |text| then end else |text|;
      PlainOffset(text, from);
      PlainOffset(text, to);
      SliceOfPoints(text, points, from, to);
      return text[from..to];
    }
    OffsetEnds(text, points);
    var from := CpAdvance(text, 0, start, 0);
    ghost var k := if start <= |points| then start else |points|;
    if end <= start {
      EncodeReadsBack(points[k..k]);
      return [];
    }
    var to := CpAdvance(text, from, end - start, k);
    ghost var m := if end <= k then k else if end <= |points| then end else |points|;
    SliceOfPoints(text, points, k, m);
    slice := text[from..to];
  }

  function PointAt(text: Text): Point
    requires text != []
  {
    if PairAt(text, 0) then Combine(text[0], text[1]) else text[0]
  }

  lemma PointsStart(text: Text)
    requires text != []
    ensures CodePoints(text) == [PointAt(text)] + CodePoints(text[if PairAt(text, 0) then 2 else 1..])
  {
  }

  /** The first code point of a text is that of the text with more after it. */
  lemma FirstOfBoth(a: Text, b: Text)
    requires a != [] && (b != [] ==> !(High(a[|a| - 1]) && Low(b[0])))
    ensures PointAt(a + b) == PointAt(a) && (PairAt(a + b, 0) <==> PairAt(a, 0))
    ensures var n := if PairAt(a, 0) then 2 else 1;
            n <= |a| && (a + b)[n..] == a[n..] + b && (n < |a| ==> a[n..][|a[n..]| - 1] == a[|a| - 1])
  {
  }

  /** Code points of a text cut anywhere but inside a surrogate pair. */
  lemma {:induction false} PointsConcat(a: Text, b: Text)
    requires a != [] && b != [] ==> !(High(a[|a| - 1]) && Low(b[0]))
    ensures CodePoints(a + b) == CodePoints(a) + CodePoints(b)
    decreases |a|
  {
    if a == [] {
      assert a + b == b;
    } else {
      hide CodePoints, PairAt, PointAt;
      var n := if PairAt(a, 0) then 2 else 1;
      FirstOfBoth(a, b);
      PointsStart(a);
      PointsStart(a + b);
      PointsConcat(a[n..], b);
      S.Assoc([PointAt(a)], CodePoints(a[n..]), CodePoints(b));
    }
  }

  lemma {:induction false} PlainOffset(text: Text, k: nat)
    requires k <= |text| && CodePoints(text) == text
    ensures Offset(CodePoints(text), k) == k
    decreases k
  {
    var points := CodePoints(text);
    if k > 0 {
      PlainOffset(text, k - 1);
    }
  }

  /** The last `count` code points of `text`. */
  method CpTail(text: Text, count: nat) returns (tail: Text)
    ensures var points := CodePoints(text);
            CodePoints(tail) == points[if count <= |points| then |points| - count else 0..]
  {
    var length := CpLength(text);
    if count >= length {
      tail := text;
    } else {
      tail := CpSlice(text, length - count, length);
    }
  }

  /** The example of section 5 of RFC 2781, and the ends of the range. */
  lemma StandardPairs()
    ensures UnitsOf(0x12345) == [0xD808, 0xDF45] && Combine(0xD808, 0xDF45) == 0x12345
    ensures UnitsOf(0x10_0000) == [0xDBC0, 0xDC00] && UnitsOf(0x10_FFFF) == [0xDBFF, 0xDFFF]
    ensures UnitsOf(0x1_0000) == [0xD800, 0xDC00]
  {
  }
}
