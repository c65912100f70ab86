/**
 A reader of JSON texts after sections 2 to 7 of RFC 8259, for integers only, and the proof that it reads back
 whatever the printer writes (packages/mcp/src/research/canonical-json.ts, lines 13 to 40).

 The reader shares nothing with the printer: it skips blanks, knows every escape and both cases of hex digits.
 */
module JsonReading {
  import opened Wrappers
  import opened Text16
  import opened CanonicalJson
  import S = Sequences

  // ---------------------------------------------------------------- the reader

  predicate BlankUnit(u: Unit) { u == 32 || u == 9 || u == 10 || u == 13 }

  predicate Digit(u: Unit) { 48 <= u < 58 }

  function SkipBlanks(text: Text): (r: Text)
    ensures |r| <= |text|
  {
    if text != [] && BlankUnit(text[0]) then SkipBlanks(text[1..]) else text
  }

  function HexOf(u: Unit): (n: Option<nat>)
    ensures n.Some? ==> n.value < 16
  {
    if 48 <= u <= 57 then Some(u - 48)
    else if 97 <= u <= 102 then Some(u - 87)
    else if 65 <= u <= 70 then Some(u - 55)
    else None
  }

  /** The unit that a backslash and what follows it stand for, and how long that is. */
  function ReadEscape(text: Text): (r: Option<(Unit, nat)>)
    requires text != [] && text[0] == 92
    ensures r.Some? ==> 2 <= r.value.1 <= |text|
  {
    if |text| < 2 then None
    else if text[1] == 34 || text[1] == 92 || text[1] == 47 then Some((text[1], 2))
    else if text[1] == 98 then Some((8, 2))
    else if text[1] == 102 then Some((12, 2))
    else if text[1] == 110 then Some((10, 2))
    else if text[1] == 114 then Some((13, 2))
    else if text[1] == 116 then Some((9, 2))
    else if text[1] != 117 || |text| < 6 then None
    else
      var a, b, c, d := HexOf(text[2]), HexOf(text[3]), HexOf(text[4]), HexOf(text[5]);
      if a.None? || b.None? || c.None? || d.None? then None
      else Some((a.value * 4096 + b.value * 256 + c.value * 16 + d.value, 6))
  }

  function With(u: Unit, r: Option<(Text, Text)>): Option<(Text, Text)> {
    if r.None? then None else Some(([u] + r.value.0, r.value.1))
  }

  /** What stands before the closing quote, and what follows it. */
  function ReadString(text: Text): (r: Option<(Text, Text)>)
    ensures r.Some? ==> |r.value.1| < |text|
    decreases |text|
  {
    if text == [] then None
    else if text[0] == 34 then Some(([], text[1..]))
    else if text[0] == 92 then
      match ReadEscape(text)
      case None => None
      case Some((u, n)) => With(u, ReadString(text[n..]))
    else if text[0] < 32 then None
    else With(text[0], ReadString(text[1..]))
  }

  function DigitsLength(text: Text): (n: nat)
    ensures n <= |text| && (n > 0 ==> Digit(text[0]))
  {
    if text == [] || !Digit(text[0]) then 0 else 1 + DigitsLength(text[1..])
  }

  function ReadDigits(text: Text): int {
    if text == [] then 0 else ReadDigits(text[..|text| - 1]) * 10 + (text[|text| - 1] as int - 48)
  }

  /** An integer without needless zeros in front. */
  function ReadNumber(text: Text): (r: Option<(Json, Text)>)
    ensures r.Some? ==> |r.value.1| < |text|
  {
    var negative := text != [] && text[0] == 45;
    var body := if negative then text[1..] else text;
    var n := DigitsLength(body);
    if n == 0 || (n > 1 && body[0] == 48) then None
    else Some((Num(if negative then -ReadDigits(body[..n]) else ReadDigits(body[..n])), body[n..]))
  }

  function ReadWord(text: Text, word: Text, v: Json): (r: Option<(Json, Text)>)
    requires word != []
    ensures r.Some? ==> |r.value.1| < |text|
  {
    if word <= text then Some((v, text[|word|..])) else None
  }

  function ReadValue(text: Text): (r: Option<(Json, Text)>)
    ensures r.Some? ==> |r.value.1| < |text|
    decreases |text|, 1
  {
    var t := SkipBlanks(text);
    if t == [] then None
    else if t[0] == 110 then ReadWord(t, [110, 117, 108, 108], Null)
    else if t[0] == 116 then ReadWord(t, [116, 114, 117, 101], Bool(true))
    else if t[0] == 102 then ReadWord(t, [102, 97, 108, 115, 101], Bool(false))
    else if t[0] == 34 then
      match ReadString(t[1..])
      case None => None
      case Some((s, rest)) => Some((Str(s), rest))
    else if t[0] == 91 then
      var inside := SkipBlanks(t[1..]);
      if inside != [] && inside[0] == 93 then Some((Arr([]), inside[1..])) else
        match ReadItems(inside)
        case None => None
        case Some((items, rest)) => Some((Arr(items), rest))
    else if t[0] == 123 then
      var inside := SkipBlanks(t[1..]);
      if inside != [] && inside[0] == 125 then Some((Obj([]), inside[1..])) else
        match ReadMembers(inside)
        case None => None
        case Some((entries, rest)) => Some((Obj(entries), rest))
    else ReadNumber(t)
  }

  function ReadItems(text: Text): (r: Option<(seq<Json>, Text)>)
    ensures r.Some? ==> |r.value.1| < |text|
    decreases |text|, 2
  {
    match ReadValue(text)
    case None => None
    case Some((v, rest)) =>
      var t := SkipBlanks(rest);
      if t == [] then None
      else if t[0] == 93 then Some(([v], t[1..]))
      else if t[0] != 44 then None
      else match ReadItems(t[1..])
        case None => None
        case Some((more, end)) => Some(([v] + more, end))
  }

  function ReadMembers(text: Text): (r: Option<(seq<Entry<Json>>, Text)>)
    ensures r.Some? ==> |r.value.1| < |text|
    decreases |text|, 2
  {
    match ReadMember(text)
    case None => None
    case Some((e, rest)) =>
      var t := SkipBlanks(rest);
      if t == [] then None
      else if t[0] == 125 then Some(([e], t[1..]))
      else if t[0] != 44 then None
      else match ReadMembers(t[1..])
        case None => None
        case Some((more, end)) => Some(([e] + more, end))
  }

  function ReadMember(text: Text): (r: Option<(Entry<Json>, Text)>)
    ensures r.Some? ==> |r.value.1| < |text|
    decreases |text|, 0
  {
    var t := SkipBlanks(text);
    if t == [] || t[0] != 34 then None else
      match ReadString(t[1..])
      case None => None
      case Some((key, rest)) =>
        var colon := SkipBlanks(rest);
        if colon == [] || colon[0] != 58 then None else
          match ReadValue(colon[1..])
          case None => None
          case Some((v, end)) => Some((Entry(key, v), end))
  }

  // ---------------------------------------------------------------- numbers read back

  /** A text that cannot continue a number. */
  predicate Stops(text: Text) { text == [] || !Digit(text[0]) }

  lemma {:induction false} DigitsReadBack(n: nat)
    ensures ReadDigits(Digits(n)) == n
    ensures |Digits(n)| > 1 ==> Digits(n)[0] != 48
    ensures n > 0 ==> Digits(n)[0] != 48
  {
    var text := Digits(n);
    if n < 10 {
      assert text[..|text| - 1] == [];
    } else {
      DigitsReadBack(n / 10);
      assert text[..|text| - 1] == Digits(n / 10);
    }
  }

  lemma {:induction false} DigitsEnd(a: Text, x: Text)
    requires Stops(x) && forall i :: 0 <= i < |a| ==> Digit(a[i])
    ensures DigitsLength(a + x) == |a|
    decreases |a|
  {
    if a == [] {
      S.Ends(x);
    } else {
      S.Head(a, x);
      DigitsEnd(a[1..], x);
    }
  }

  lemma NumberBack(n: int, x: Text)
    requires Stops(x)
    ensures ReadNumber(Decimal(n) + x) == Some((Num(n), x))
    ensures (Decimal(n) + x)[0] == 45 || Digit((Decimal(n) + x)[0])
  {
    hide Digits, ReadDigits;
    var digits := if n < 0 then Digits(-n) else Digits(n);
    var text := Decimal(n) + x;
    if n < 0 {
      S.Assoc([MINUS], digits, x);
      S.Cons(MINUS, digits + x);
    }
    var body := if n < 0 then text[1..] else text;
    assert body == digits + x;
    S.Middle(digits, x, []);
    DigitsEnd(digits, x);
    DigitsReadBack(if n < 0 then -n else n);
    assert body[0] == digits[0];
  }

  // ---------------------------------------------------------------- strings read back

  lemma HexBack(n: nat)
    requires n < 16
    ensures HexOf(HexDigit(n)) == Some(n)
  {
  }

  lemma HexValue(u: Unit)
    ensures u == u / 4096 * 4096 + u / 256 % 16 * 256 + u / 16 % 16 * 16 + u % 16
  {
    assert u / 256 == u / 4096 * 16 + u / 256 % 16 by { assert u / 256 / 16 == u / 4096; }
    assert u / 16 == u / 256 * 16 + u / 16 % 16 by { assert u / 16 / 16 == u / 256; }
  }

  lemma Hex4Back(u: Unit, x: Text)
    ensures ReadEscape(Hex4(u) + x) == Some((u, 6))
  {
    hide HexOf, HexDigit;
    HexBack(u / 4096);
    HexBack(u / 256 % 16);
    HexBack(u / 16 % 16);
    HexBack(u % 16);
    HexValue(u);
    var t := Hex4(u) + x;
    assert t[1] == 117 && t[2] == HexDigit(u / 4096) && t[3] == HexDigit(u / 256 % 16);
    assert t[4] == HexDigit(u / 16 % 16) && t[5] == HexDigit(u % 16);
  }

  lemma UnitBack(u: Unit, ascii: bool, x: Text)
    ensures ReadString(EscapeUnit(u, ascii) + x) == With(u, ReadString(x))
  {
    hide Hex4;
    var e := EscapeUnit(u, ascii);
    S.Middle(e, x, []);
    if e == Hex4(u) {
      Hex4Back(u, x);
      HexStarts(u, x);
    } else {
      assert (e + x)[0] == e[0] && (|e| > 1 ==> (e + x)[1] == e[1]);
    }
  }

  lemma HexStarts(u: Unit, x: Text)
    ensures (Hex4(u) + x)[0] == 92
  {
  }

  /** The units `Escape` takes from the front of a text, and what it writes for them. */
  function FrontUnits(text: Text, ascii: bool): (n: nat)
    requires text != []
    ensures 1 <= n <= |text|
  {
    if !ascii && PairAt(text, 0) then 2 else 1
  }

  function FrontEscape(text: Text, ascii: bool): Text
    requires text != []
  {
    if !ascii && PairAt(text, 0) then [text[0], text[1]] else EscapeUnit(text[0], ascii)
  }

  lemma EscapeSplit(text: Text, ascii: bool)
    ensures text == [] ==> Escape(text, ascii) == []
    ensures text != [] ==>
              Escape(text, ascii) == FrontEscape(text, ascii) + Escape(text[FrontUnits(text, ascii)..], ascii)
  {
  }

  lemma PairBack(high: Unit, low: Unit, x: Text)
    requires High(high) && Low(low)
    ensures ReadString([high, low] + x) == With(high, With(low, ReadString(x)))
  {
    assert [high, low] + x == [high] + ([low] + x);
    S.Cons(high, [low] + x);
    S.Cons(low, x);
  }

  /** An escaped string reads back as itself, and ends at its closing quote. */
  lemma {:induction false} StringBack(text: Text, ascii: bool, x: Text)
    ensures ReadString(Escape(text, ascii) + ([QUOTE] + x)) == Some((text, x))
    decreases |text|
  {
    hide Escape, EscapeUnit, ReadString;
    EscapeSplit(text, ascii);
    if text == [] {
      S.Ends([QUOTE] + x);
      StringEnds(x);
    } else {
      var n := FrontUnits(text, ascii);
      var more := Escape(text[n..], ascii) + ([QUOTE] + x);
      S.Assoc(FrontEscape(text, ascii), Escape(text[n..], ascii), [QUOTE] + x);
      StringBack(text[n..], ascii, x);
      if n == 2 { PairBack(text[0], text[1], more); } else { UnitBack(text[0], ascii, more); }
      assert text == if n == 2 then [text[0]] + ([text[1]] + text[2..]) else [text[0]] + text[1..];
    }
  }

  lemma StringEnds(x: Text)
    ensures ReadString([QUOTE] + x) == Some(([], x))
  {
    S.Cons(QUOTE, x);
  }

  lemma QuoteFront(s: Text, x: Text, ascii: bool)
    ensures Quote(s, ascii) + x == [QUOTE] + (Escape(s, ascii) + ([QUOTE] + x))
  {
    hide Escape;
    var e := Escape(s, ascii);
    S.Assoc([QUOTE] + e, [QUOTE], x);
    S.Assoc([QUOTE], e, [QUOTE] + x);
  }

  /** A quoted string, read after its opening quote. */
  lemma QuoteBack(s: Text, ascii: bool, x: Text)
    ensures var t := Quote(s, ascii) + x;
            t != [] && t[0] == 34 && SkipBlanks(t) == t && ReadString(t[1..]) == Some((s, x))
  {
    hide Escape, ReadString, Quote;
    QuoteFront(s, x, ascii);
    S.Cons(QUOTE, Escape(s, ascii) + ([QUOTE] + x));
    StringBack(s, ascii, x);
  }

  // ---------------------------------------------------------------- values read back

  /** What follows the first of some joined texts. */
  function AfterFirst(texts: seq<Text>, close: Unit, x: Text): (r: Text)
    requires texts != []
    ensures Stops(r) <== !Digit(close)
    ensures r != [] && (|texts| == 1 ==> r[0] == close) && (|texts| > 1 ==> r[0] == COMMA)
  {
    if |texts| == 1 then [close] + x else SEPARATOR + (Join(texts[1..]) + ([close] + x))
  }

  lemma JoinFirst(texts: seq<Text>, close: Unit, x: Text)
    requires texts != []
    ensures Join(texts) + ([close] + x) == texts[0] + AfterFirst(texts, close, x)
  {
    if |texts| > 1 {
      var more := Join(texts[1..]);
      S.Assoc(texts[0] + SEPARATOR, more, [close] + x);
      S.Assoc(texts[0], SEPARATOR, more + ([close] + x));
    }
  }

  /** After a comma and a blank the list goes on. */
  lemma AfterComma(rest: Text)
    ensures var t := SEPARATOR + rest;
            SkipBlanks(t) == t && t[0] == 44 && SkipBlanks(t[1..]) == SkipBlanks(rest)
  {
    var t := SEPARATOR + rest;
    assert t[1..] == [32] + rest;
    S.Cons(32, rest);
  }

  lemma SameItems(a: Text, b: Text)
    requires SkipBlanks(a) == SkipBlanks(b)
    ensures ReadItems(a) == ReadItems(b) && ReadMembers(a) == ReadMembers(b) && ReadValue(a) == ReadValue(b)
  {
    hide SkipBlanks;
  }

  lemma Closing(close: Unit, x: Text)
    requires close == 93 || close == 125
    ensures var t := [close] + x; SkipBlanks(t) == t && t[0] == close && t[1..] == x
  {
    S.Cons(close, x);
  }

  function TextsOf(entries: seq<Entry<Json>>, ascii: bool): (texts: seq<Text>)
    ensures |texts| == |entries|
    ensures entries != [] ==>
              && texts[0] == Quote(entries[0].key, ascii) + KEY_SEPARATOR + Render(entries[0].value, false, ascii)
              && texts[1..] == TextsOf(entries[1..], ascii)
  {
    MemberTexts(RenderMembers(entries, false, ascii), ascii)
  }

  lemma TextsOfObject(entries: seq<Entry<Json>>, ascii: bool)
    ensures Render(Obj(entries), false, ascii) == [OPEN_BRACE] + Join(TextsOf(entries, ascii)) + [CLOSE_BRACE]
  {
    hide Join, RenderMembers, MemberTexts;
  }

  /** A member's text, with what follows. */
  lemma MemberFront(e: Entry<Json>, rest: Text, ascii: bool)
    ensures (Quote(e.key, ascii) + KEY_SEPARATOR + Render(e.value, false, ascii)) + rest
         == Quote(e.key, ascii) + (KEY_SEPARATOR + (Render(e.value, false, ascii) + rest))
  {
    hide Render, Quote;
    S.Assoc(Quote(e.key, ascii) + KEY_SEPARATOR, Render(e.value, false, ascii), rest);
    S.Assoc(Quote(e.key, ascii), KEY_SEPARATOR, Render(e.value, false, ascii) + rest);
  }

  lemma Bracketed(open: Unit, body: Text, close: Unit, x: Text)
    ensures var t := [open] + body + [close] + x; t[0] == open && t[1..] == body + ([close] + x)
  {
    S.Assoc([open] + body, [close], x);
    S.Assoc([open], body, [close] + x);
    S.Cons(open, body + ([close] + x));
  }

  /** The first unit of a printed value is no blank and closes nothing. */
  lemma PrintedStarts(v: Json, ascii: bool, x: Text)
    ensures var t := Render(v, false, ascii) + x;
            t != [] && SkipBlanks(t) == t && t[0] != 93 && t[0] != 125
  {
    hide Escape, Digits, Join, RenderItems, RenderMembers, MemberTexts;
    assert (Render(v, false, ascii) + x)[0] == Render(v, false, ascii)[0];
  }

  /** A printed value reads back from the front of a text, and the rest of the text is left. */
  lemma {:induction false} ValueBack(v: Json, ascii: bool, x: Text)
    requires Stops(x)
    ensures ReadValue(Render(v, false, ascii) + x) == Some((v, x))
    decreases v, 1
  {
    hide Digits, Escape, Quote, Decimal, Join, RenderItems, RenderMembers, MemberTexts, TextsOf;
    hide ReadItems, ReadMembers, ReadString, ReadNumber;
    PrintedStarts(v, ascii, x);
    match v
    case Null => S.Middle(Render(v, false, ascii), x, []);
    case Bool(_) => S.Middle(Render(v, false, ascii), x, []);
    case Num(n) => NumberBack(n, x);
    case Str(text) => QuoteBack(text, ascii, x);
    case Arr(items) =>
      Bracketed(OPEN_BRACKET, Join(RenderItems(items, false, ascii)), CLOSE_BRACKET, x);
      ItemsBack(items, ascii, x);
    case Obj(entries) =>
      TextsOfObject(entries, ascii);
      Bracketed(OPEN_BRACE, Join(TextsOf(entries, ascii)), CLOSE_BRACE, x);
      MembersBack(entries, ascii, x);
  }

  lemma {:induction false} ItemsBack(items: seq<Json>, ascii: bool, x: Text)
    ensures var t := Join(RenderItems(items, false, ascii)) + ([CLOSE_BRACKET] + x);
            && SkipBlanks(t) == t
            && (items == [] ==> t != [] && t[0] == 93 && t[1..] == x)
            && (items != [] ==> t != [] && t[0] != 93 && ReadItems(t) == Some((items, x)))
    decreases items, 0
  {
    hide Render, ReadValue, AfterFirst, SkipBlanks;
    var texts := RenderItems(items, false, ascii);
    Closing(CLOSE_BRACKET, x);
    if items == [] {
      S.Ends([CLOSE_BRACKET] + x);
    } else {
      var after := AfterFirst(texts, CLOSE_BRACKET, x);
      hide Join;
      JoinFirst(texts, CLOSE_BRACKET, x);
      PrintedStarts(items[0], ascii, after);
      ValueBack(items[0], ascii, after);
      if |items| == 1 {
        assert after == [CLOSE_BRACKET] + x by { OneAfter(texts, CLOSE_BRACKET, x); }
        assert items == [items[0]];
      } else {
        var more := Join(texts[1..]) + ([CLOSE_BRACKET] + x);
        MoreAfter(texts, CLOSE_BRACKET, x);
        AfterComma(more);
        SameItems(after[1..], more);
        ItemsBack(items[1..], ascii, x);
        S.Cons(texts[0], RenderItems(items[1..], false, ascii));
        S.Head(items, []);
      }
    }
  }

  lemma OneAfter(texts: seq<Text>, close: Unit, x: Text)
    requires |texts| == 1
    ensures AfterFirst(texts, close, x) == [close] + x
  {
  }

  lemma MoreAfter(texts: seq<Text>, close: Unit, x: Text)
    requires |texts| > 1
    ensures AfterFirst(texts, close, x) == SEPARATOR + (Join(texts[1..]) + ([close] + x))
  {
  }

  lemma {:induction false} MemberBack(e: Entry<Json>, ascii: bool, x: Text)
    requires Stops(x)
    ensures var t := (Quote(e.key, ascii) + KEY_SEPARATOR + Render(e.value, false, ascii)) + x;
            t != [] && t[0] == 34 && SkipBlanks(t) == t && ReadMember(t) == Some((e, x))
    decreases e, 2
  {
    hide Render, Quote, ReadValue, ReadString, SkipBlanks;
    var value := Render(e.value, false, ascii) + x;
    MemberFront(e, x, ascii);
    QuoteBack(e.key, ascii, KEY_SEPARATOR + value);
    AfterColon(value);
    SameItems((KEY_SEPARATOR + value)[1..], value);
    ValueBack(e.value, ascii, x);
  }

  lemma AfterColon(rest: Text)
    ensures var t := KEY_SEPARATOR + rest;
            SkipBlanks(t) == t && t[0] == 58 && SkipBlanks(t[1..]) == SkipBlanks(rest)
  {
    var t := KEY_SEPARATOR + rest;
    assert t[1..] == [32] + rest;
    S.Cons(32, rest);
  }

  lemma {:induction false} MembersBack(entries: seq<Entry<Json>>, ascii: bool, x: Text)
    ensures var t := Join(TextsOf(entries, ascii)) + ([CLOSE_BRACE] + x);
            && SkipBlanks(t) == t
            && (entries == [] ==> t != [] && t[0] == 125 && t[1..] == x)
            && (entries != [] ==> t != [] && t[0] != 125 && ReadMembers(t) == Some((entries, x)))
    decreases entries, 0
  {
    hide Render, Quote, ReadMember, AfterFirst, SkipBlanks, TextsOf;
    var texts := TextsOf(entries, ascii);
    Closing(CLOSE_BRACE, x);
    if entries == [] {
      S.Ends([CLOSE_BRACE] + x);
    } else {
      var after := AfterFirst(texts, CLOSE_BRACE, x);
      hide Join;
      JoinFirst(texts, CLOSE_BRACE, x);
      MemberBack(entries[0], ascii, after);
      if |entries| == 1 {
        assert after == [CLOSE_BRACE] + x by { OneAfter(texts, CLOSE_BRACE, x); }
        assert entries == [entries[0]];
      } else {
        var more := Join(texts[1..]) + ([CLOSE_BRACE] + x);
        MoreAfter(texts, CLOSE_BRACE, x);
        AfterComma(more);
        SameItems(after[1..], more);
        MembersBack(entries[1..], ascii, x);
        S.Head(entries, []);
      }
    }
  }
}
