/**
 UTF-8 as the observation store writes and reads it (packages/mcp/src/research/observations.ts, lines
 61 to 67 and 90): strict encoding of scalar values and fatal decoding, per section 3 of RFC 3629.
 */
module Utf8 {
  import opened Wrappers
  import opened Text16
  import S = Sequences

  type Byte = b: nat | b < 0x100

  /** A code point that has a UTF-8 encoding. */
  predicate Scalar(p: nat) { p <= 0x10_FFFF && !(0xD800 <= p <= 0xDFFF) }

  predicate AllScalar(points: seq<Point>) { forall i :: 0 <= i < |points| ==> Scalar(points[i]) }

  function EncodePoint(p: Point): (bytes: seq<Byte>)
    ensures 1 <= |bytes| <= 4
  {
    if p < 0x80 then [p]
    else if p < 0x800 then [0xC0 + p / 64, 0x80 + p % 64]
    else if p < 0x1_0000 then [0xE0 + p / 4096, 0x80 + p / 64 % 64, 0x80 + p % 64]
    else [0xF0 + p / 262144, 0x80 + p / 4096 % 64, 0x80 + p / 64 % 64, 0x80 + p % 64]
  }

  function Encode8(points: seq<Point>): seq<Byte> {
    if points == [] then [] else EncodePoint(points[0]) + Encode8(points[1..])
  }

  predicate Continuation(b: Byte) { 0x80 <= b < 0xC0 }

  /** The payload of a byte whose marker bits are `mark`. */
  function Payload(b: Byte, mark: nat): int { b as int - mark as int }

  /** The value of a two-, three- or four-byte form; overlong forms and surrogates are refused. */
  function DecodeOne(bytes: seq<Byte>): (r: Option<(Point, nat)>)
    ensures r.Some? ==> 1 <= r.value.1 <= |bytes|
  {
    if bytes == [] then None
    else if bytes[0] < 0x80 then Some((bytes[0], 1))
    else if 0xC0 <= bytes[0] < 0xE0 && |bytes| >= 2 && Continuation(bytes[1]) then
      var p := Payload(bytes[0], 0xC0) * 64 + Payload(bytes[1], 0x80);
      if p >= 0x80 then Some((p, 2)) else None
    else if 0xE0 <= bytes[0] < 0xF0 && |bytes| >= 3 && Continuation(bytes[1]) && Continuation(bytes[2]) then
      var p := Payload(bytes[0], 0xE0) * 4096 + Payload(bytes[1], 0x80) * 64 + Payload(bytes[2], 0x80);
      if p >= 0x800 && Scalar(p) then Some((p, 3)) else None
    else if 0xF0 <= bytes[0] < 0xF8 && |bytes| >= 4
            && Continuation(bytes[1]) && Continuation(bytes[2]) && Continuation(bytes[3]) then
      var p := Payload(bytes[0], 0xF0) * 262144 + Payload(bytes[1], 0x80) * 4096 + Payload(bytes[2], 0x80) * 64
               + Payload(bytes[3], 0x80);
      if p >= 0x1_0000 && Scalar(p) then Some((p, 4)) else None
    else None
  }

  /** Fatal decoding: all of the bytes, or nothing. */
  function Decode8(bytes: seq<Byte>): Option<seq<Point>>
    decreases |bytes|
  {
    if bytes == [] then Some([])
    else match DecodeOne(bytes)
      case None => None
      case Some((p, n)) =>
        match Decode8(bytes[n..])
        case None => None
        case Some(rest) => Some([p] + rest)
  }

  lemma {:induction false} Encode8Concat(a: seq<Point>, b: seq<Point>)
    ensures Encode8(a + b) == Encode8(a) + Encode8(b)
  {
    if a == [] {
      assert a + b == b;
    } else {
      assert (a + b)[1..] == a[1..] + b;
      Encode8Concat(a[1..], b);
    }
  }

  lemma Digits(p: nat)
    ensures p == p / 64 * 64 + p % 64
    ensures p == p / 4096 * 4096 + p / 64 % 64 * 64 + p % 64
    ensures p == p / 262144 * 262144 + p / 4096 % 64 * 4096 + p / 64 % 64 * 64 + p % 64
  {
    assert p / 64 / 64 == p / 4096;
    assert p / 4096 / 64 == p / 262144;
  }

  /** One encoded code point decodes to itself, whatever follows. */
  lemma DecodeEncoded(p: Point, rest: seq<Byte>)
    requires Scalar(p)
    ensures DecodeOne(EncodePoint(p) + rest) == Some((p, |EncodePoint(p)|))
  {
    Digits(p);
    var bytes := EncodePoint(p) + rest;
    assert forall i :: 0 <= i < |EncodePoint(p)| ==> bytes[i] == EncodePoint(p)[i];
  }

  /** Base-64 digits read back. */
  lemma TwoDigits(a: nat, b: nat, p: nat)
    requires b < 64 && p == a * 64 + b
    ensures p / 64 == a && p % 64 == b
  {
  }

  lemma ThreeDigits(a: nat, b: nat, c: nat, p: nat)
    requires b < 64 && c < 64 && p == a * 4096 + b * 64 + c
    ensures p / 4096 == a && p / 64 % 64 == b && p % 64 == c
  {
    TwoDigits(a * 64 + b, c, p);
    TwoDigits(a, b, a * 64 + b);
    assert p / 4096 == p / 64 / 64;
  }

  lemma FourDigits(a: nat, b: nat, c: nat, d: nat, p: nat)
    requires b < 64 && c < 64 && d < 64 && p == a * 262144 + b * 4096 + c * 64 + d
    ensures p / 262144 == a && p / 4096 % 64 == b && p / 64 % 64 == c && p % 64 == d
  {
    TwoDigits(a * 4096 + b * 64 + c, d, p);
    ThreeDigits(a, b, c, p / 64);
    assert p / 262144 == p / 64 / 4096 && p / 4096 == p / 64 / 64;
  }

  /** Whatever decodes is the encoding of what it decodes to: no second spelling is accepted. */
  lemma DecodedIsEncoding(bytes: seq<Byte>)
    requires DecodeOne(bytes).Some?
    ensures Scalar(DecodeOne(bytes).value.0)
    ensures EncodePoint(DecodeOne(bytes).value.0) == bytes[..DecodeOne(bytes).value.1]
  {
    var p, n := DecodeOne(bytes).value.0, DecodeOne(bytes).value.1;
    if n == 2 {
      TwoDigits(Payload(bytes[0], 0xC0), Payload(bytes[1], 0x80), p);
    } else if n == 3 {
      ThreeDigits(Payload(bytes[0], 0xE0), Payload(bytes[1], 0x80), Payload(bytes[2], 0x80), p);
    } else if n == 4 {
      FourDigits(Payload(bytes[0], 0xF0), Payload(bytes[1], 0x80), Payload(bytes[2], 0x80), Payload(bytes[3], 0x80), p);
    }
  }

  lemma {:induction false} Decode8RoundTrip(points: seq<Point>)
    requires AllScalar(points)
    ensures Decode8(Encode8(points)) == Some(points)
  {
    if points != [] {
      var head, rest := EncodePoint(points[0]), Encode8(points[1..]);
      DecodeEncoded(points[0], rest);
      Decode8RoundTrip(points[1..]);
      assert (head + rest)[|head|..] == rest;
      assert [points[0]] + points[1..] == points;
    }
  }

  /** Decoding accepts exactly the encodings of scalar values. */
  lemma {:induction false} Decode8Exactly(bytes: seq<Byte>)
    requires Decode8(bytes).Some?
    ensures AllScalar(Decode8(bytes).value) && Encode8(Decode8(bytes).value) == bytes
    decreases |bytes|
  {
    if bytes != [] {
      var one := DecodeOne(bytes).value;
      DecodedIsEncoding(bytes);
      Decode8Exactly(bytes[one.1..]);
      DecodeStep(bytes, one.0, one.1);
      EncodeCons(one.0, Decode8(bytes[one.1..]).value);
      S.Parts(bytes, 0, one.1);
    }
  }

  lemma DecodeStep(bytes: seq<Byte>, p: Point, n: nat)
    requires bytes != [] && DecodeOne(bytes) == Some((p, n)) && Decode8(bytes).Some?
    ensures Decode8(bytes[n..]).Some? && Decode8(bytes).value == [p] + Decode8(bytes[n..]).value
  {
  }

  lemma EncodeCons(p: Point, rest: seq<Point>)
    ensures Encode8([p] + rest) == EncodePoint(p) + Encode8(rest)
    ensures Scalar(p) && AllScalar(rest) ==> AllScalar([p] + rest)
  {
    assert ([p] + rest)[1..] == rest;
  }

  /** The examples of section 7 of RFC 3629. */
  lemma StandardExamples()
    ensures EncodePoint(0x41) == [0x41] && EncodePoint(0x2262) == [0xE2, 0x89, 0xA2] && EncodePoint(0x391) == [0xCE, 0x91]
    ensures EncodePoint(0xD55C) == [0xED, 0x95, 0x9C] && EncodePoint(0x65E5) == [0xE6, 0x97, 0xA5]
    ensures EncodePoint(0x233B4) == [0xF0, 0xA3, 0x8E, 0xB4]
  {
  }
}
