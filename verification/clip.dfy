/**
 Clipping a text to a number of code points, keeping both ends
 (packages/mcp/src/research/fit.ts, lines 85 to 98).
 */
module Clipping {
  import opened Wrappers
  import opened Text16
  import CanonicalJson

  datatype ClipError = BadHeadRatio

  /** `"\n… ["` and `" characters elided] …\n"` */
  const MARKER_HEAD: Text := [10, 0x2026, 32, 91]
  const MARKER_TAIL: Text := [
    32, 99, 104, 97, 114, 97, 99, 116, 101, 114, 115, 32, 101, 108, 105, 100, 101, 100, 93, 32, 0x2026, 10
  ]

  function Marker(dropped: nat): Text { MARKER_HEAD + CanonicalJson.Digits(dropped) + MARKER_TAIL }

  function Length(text: Text): nat { |CodePoints(text)| }

  /** Whole part of a positive share. */
  function Share(n: nat, ratio: real): (r: nat)
    requires 0.0 < ratio < 1.0
    ensures n > 0 ==> r < n
    ensures n == 0 ==> r == 0
  {
    assert n > 0 ==> 0.0 <= n as real * ratio < n as real;
    (n as real * ratio).Floor
  }

  /** Numbers do not get shorter as they grow. */
  lemma {:induction false} DigitsGrow(a: nat, b: nat)
    requires a <= b
    ensures |CanonicalJson.Digits(a)| <= |CanonicalJson.Digits(b)|
    decreases b
  {
    if b >= 10 && a >= 10 { DigitsGrow(a / 10, b / 10); }
  }

  lemma MarkerPlain(dropped: nat)
    ensures CodePoints(Marker(dropped)) == Marker(dropped)
    ensures |Marker(dropped)| == 26 + |CanonicalJson.Digits(dropped)|
    ensures Marker(dropped)[0] == 10 && Marker(dropped)[|Marker(dropped)| - 1] == 10
  {
    var marker := Marker(dropped);
    var digits := CanonicalJson.Digits(dropped);
    forall i | 0 <= i < |marker| ensures !High(marker[i]) {
      assert i < 4 ==> marker[i] == MARKER_HEAD[i];
      assert 4 <= i < 4 + |digits| ==> marker[i] == digits[i - 4];
      assert 4 + |digits| <= i ==> marker[i] == MARKER_TAIL[i - 4 - |digits|];
    }
    NoPairsNoPoints(marker);
  }

  /** A text with a marker inside has the code points of its three parts. */
  lemma PointsAround(head: Text, marker: Text, tail: Text)
    requires marker != [] && marker[0] == 10 && marker[|marker| - 1] == 10
    ensures CodePoints(head + marker + tail) == CodePoints(head) + CodePoints(marker) + CodePoints(tail)
  {
    hide CodePoints;
    PointsConcat(head, marker);
    assert (head + marker)[|head + marker| - 1] == 10;
    PointsConcat(head + marker, tail);
  }

  /** What a clipped text keeps: all of it, a prefix, or both ends around the count of what was dropped. */
  function ClipPoints(points: seq<Point>, limit: int, ratio: real): seq<Point>
    requires 0.0 < ratio < 1.0
  {
    if limit <= 0 || |points| <= limit then points
    else if limit <= |Marker(|points|)| then points[..limit]
    else
      var usable := limit - |Marker(|points|)|;
      var head := Share(usable, ratio);
      points[..head] + Marker(|points| - usable) + points[|points| - (usable - head)..]
  }

  function ClipText(text: Text, limit: int, ratio: real): Text
    requires 0.0 < ratio < 1.0
  {
    Encode16(ClipPoints(CodePoints(text), limit, ratio))
  }

  /** How long a text of `n` code points is once clipped. */
  function ClippedLength(n: nat, limit: int): nat {
    if limit <= 0 || n <= limit then n
    else if limit <= |Marker(n)| then limit
    else
      var usable := limit - |Marker(n)|;
      usable + |Marker(n - usable)|
  }

  lemma ClippedWithin(n: nat, limit: int)
    ensures limit > 0 ==> ClippedLength(n, limit) <= limit
  {
    hide Marker, CanonicalJson.Digits;
    if 0 < limit < n && limit > |Marker(n)| {
      var usable := limit - |Marker(n)|;
      MarkerPlain(n);
      MarkerPlain(n - usable);
      DigitsGrow(n - usable, n);
    }
  }

  lemma ClippedLengthIs(points: seq<Point>, limit: int, ratio: real)
    requires 0.0 < ratio < 1.0
    ensures |ClipPoints(points, limit, ratio)| == ClippedLength(|points|, limit)
    ensures limit > 0 ==> ClippedLength(|points|, limit) <= limit
  {
    hide Marker, Share;
    ClippedWithin(|points|, limit);
    if 0 < limit < |points| && limit > |Marker(|points|)| {
      var usable := limit - |Marker(|points|)|;
      var head := Share(usable, ratio);
      assert |points[..head]| == head && |points[|points| - (usable - head)..]| == usable - head;
    }
  }

  /** The ends of a text, between code-point boundaries. */
  lemma EndsRead(text: Text, head: nat, tail: nat)
    requires head <= Length(text) && tail <= Length(text)
    ensures var points := CodePoints(text);
            && CodePoints(Encode16(points[..head])) == points[..head]
            && CodePoints(Encode16(points[tail..])) == points[tail..]
  {
    hide CodePoints, Encode16;
    var points := CodePoints(text);
    SliceOfPoints(text, points, 0, head);
    SliceOfPoints(text, points, tail, |points|);
    assert points[0..head] == points[..head] && points[tail..|points|] == points[tail..];
  }

  /** A clipped text reads back as the code points it was made of. */
  lemma ClipReads(text: Text, limit: int, ratio: real)
    requires 0.0 < ratio < 1.0
    ensures CodePoints(ClipText(text, limit, ratio)) == ClipPoints(CodePoints(text), limit, ratio)
    ensures Length(ClipText(text, limit, ratio)) == ClippedLength(Length(text), limit)
  {
    hide CodePoints, Encode16, ClippedLength;
    var points := CodePoints(text);
    ClippedLengthIs(points, limit, ratio);
    if limit <= 0 || |points| <= limit {
      PointsEncodeBack(text);
    } else if limit <= |Marker(|points|)| {
      EndsRead(text, limit, 0);
    } else {
      var usable := limit - |Marker(|points|)|;
      var h := Share(usable, ratio);
      var t := |points| - (usable - h);
      EndsRead(text, h, t);
      MarkerPlain(|points| - usable);
      var head, marker, tail := Encode16(points[..h]), Marker(|points| - usable), Encode16(points[t..]);
      PointsAround(head, marker, tail);
      PointsEncodeBack(head + marker + tail);
    }
  }

  method Clip(text: Text, limit: int, headRatio: real) returns (r: Result<Text, ClipError>)
    ensures r.Err? <==> !(0.0 < headRatio < 1.0)
    ensures r.Ok? ==> r.value == ClipText(text, limit, headRatio)
    ensures r.Ok? ==> CodePoints(r.value) == ClipPoints(CodePoints(text), limit, headRatio)
    ensures r.Ok? && limit > 0 ==> Length(r.value) <= limit
    ensures r.Ok? && (limit <= 0 || Length(text) <= limit) ==> r.value == text
  {
    hide CodePoints, Encode16, ClippedLength;
    if !(0.0 < headRatio < 1.0) { return Err(BadHeadRatio); }
    ClipReads(text, limit, headRatio);
    ClippedWithin(Length(text), limit);
    PointsEncodeBack(text);
    var length := CpLength(text);
    if limit <= 0 || length <= limit { return Ok(text); }
    MarkerPlain(length);
    var markerLength := CpLength(Marker(length));
    var usable := if limit - markerLength > 0 then limit - markerLength else 0;
    if usable == 0 {
      var start := CpSlice(text, 0, limit);
      PointsEncodeBack(start);
      return Ok(start);
    }
    var headChars := Share(usable, headRatio);
    var tailChars := usable - headChars;
    var dropped := length - headChars - tailChars;
    var tail := [];
    if tailChars > 0 { tail := CpTail(text, tailChars); }
    var head := CpSlice(text, 0, headChars);
    MarkerPlain(dropped);
    PointsAround(head, Marker(dropped), tail);
    PointsEncodeBack(head + Marker(dropped) + tail);
    r := Ok(head + Marker(dropped) + tail);
  }

  /**
   A text too long for the limit keeps its beginning and its end around the marker, which tells how many characters
   are gone: the ends take what the limit leaves beside the marker, and the beginning has its share of that.
   */
  lemma ClipKeepsEnds(text: Text, limit: nat, ratio: real, share: nat)
    requires 0.0 < ratio < 1.0
    requires var room := limit - |MARKER_HEAD| - |CanonicalJson.Digits(Length(text))| - |MARKER_TAIL|;
             0 < room && limit < Length(text) && share as real <= room as real * ratio < share as real + 1.0
    ensures var room := limit - |MARKER_HEAD| - |CanonicalJson.Digits(Length(text))| - |MARKER_TAIL|;
            var points, r, gone := CodePoints(text), CodePoints(ClipText(text, limit, ratio)), Length(text) - room;
            && share <= room
            && r == points[..share] + (MARKER_HEAD + CanonicalJson.Digits(gone) + MARKER_TAIL) + points[|points| - (room - share)..]
  {
    hide CodePoints, Encode16, CanonicalJson.Digits;
    ClipReads(text, limit, ratio);
    var room := limit - |Marker(Length(text))|;
    assert Share(room, ratio) == share;
  }

  /** With no room beside the marker only the beginning is kept, and a text within the limit is kept whole. */
  lemma ClipKeepsBeginning(text: Text, limit: int, ratio: real)
    requires 0.0 < ratio < 1.0
    ensures limit <= 0 || Length(text) <= limit ==> ClipText(text, limit, ratio) == text
    ensures 0 < limit < Length(text) && limit <= |MARKER_HEAD| + |CanonicalJson.Digits(Length(text))| + |MARKER_TAIL| ==>
              CodePoints(ClipText(text, limit, ratio)) == CodePoints(text)[..limit]
  {
    hide CodePoints, Encode16, CanonicalJson.Digits;
    ClipReads(text, limit, ratio);
    PointsEncodeBack(text);
  }

  /** "\n… [7 characters elided] …\n" */
  lemma MarkerExample()
    ensures Marker(7)
            == [10, 0x2026, 32, 91, 55, 32, 99, 104, 97, 114, 97, 99, 116, 101, 114, 115, 32, 101, 108, 105, 100, 101, 100, 93, 32, 0x2026, 10]
  {
    assert CanonicalJson.Digits(7) == [55];
  }
}
