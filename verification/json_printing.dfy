/**
 The printer is read back by a reader of the standard, and so it is injective
 (packages/mcp/src/research/canonical-json.ts, lines 13 to 36): two tool calls have the same signature exactly
 when they are the same JSON value up to the order of object keys.
 */
module JsonPrinting {
  import opened Wrappers
  import opened Text16
  import opened CanonicalJson
  import opened JsonMeaning
  import opened JsonReading
  import S = Sequences

  // ---------------------------------------------------------------- read in one way only

  lemma FirstOf<T>(a: seq<T>, x: seq<T>)
    requires a != []
    ensures (a + x)[0] == a[0]
  {
  }

  lemma DecimalReads(n: int, x: Text, m: int, y: Text)
    requires Decimal(n) + x == Decimal(m) + y && Stops(x) && Stops(y)
    ensures n == m && x == y
  {
    NumberBack(n, x);
    NumberBack(m, y);
  }

  /** A closing quote ends an escaped string, and nothing inside it does. */
  lemma EscapeReads(s: Text, x: Text, t: Text, y: Text, ascii: bool)
    requires Escape(s, ascii) + ([QUOTE] + x) == Escape(t, ascii) + ([QUOTE] + y)
    ensures s == t && x == y
  {
    StringBack(s, ascii, x);
    StringBack(t, ascii, y);
  }

  /** A printed value is read off the front of a text in only one way. */
  lemma RenderReads(a: Json, x: Text, b: Json, y: Text, ascii: bool)
    requires Render(a, false, ascii) + x == Render(b, false, ascii) + y && Stops(x) && Stops(y)
    ensures a == b && x == y
  {
    ValueBack(a, ascii, x);
    ValueBack(b, ascii, y);
  }

  // ---------------------------------------------------------------- sorted printing

  /** Sorting while printing is printing the canonical form. */
  lemma {:induction false} SortedIsCanon(v: Json, ascii: bool)
    ensures Render(v, true, ascii) == Render(Canon(v), false, ascii)
    decreases v
  {
    hide Join, Quote, Decimal;
    match v
    case Arr(items) => SortedItems(items, ascii);
    case Obj(entries) =>
      SortedMembers(entries, ascii);
      SortCommutes(CanonEntries(entries), ascii);
    case _ =>
  }

  lemma {:induction false} SortedItems(items: seq<Json>, ascii: bool)
    ensures RenderItems(items, true, ascii) == RenderItems(CanonItems(items), false, ascii)
    decreases items
  {
    hide Render, Canon;
    if items != [] {
      SortedIsCanon(items[0], ascii);
      SortedItems(items[1..], ascii);
      S.Cons(Canon(items[0]), CanonItems(items[1..]));
    }
  }

  lemma {:induction false} SortedMembers(entries: seq<Entry<Json>>, ascii: bool)
    ensures RenderMembers(entries, true, ascii) == RenderMembers(CanonEntries(entries), false, ascii)
    decreases entries
  {
    hide Render, Canon;
    if entries != [] {
      SortedIsCanon(entries[0].value, ascii);
      SortedMembers(entries[1..], ascii);
      S.Cons(Entry(entries[0].key, Canon(entries[0].value)), CanonEntries(entries[1..]));
    }
  }

  /** Printing the members, then sorting, or the other way round. */
  lemma {:induction false} SortCommutes(entries: seq<Entry<Json>>, ascii: bool)
    ensures RenderMembers(SortByKey(entries), false, ascii) == SortByKey(RenderMembers(entries, false, ascii))
    decreases |entries|
  {
    hide Render;
    if entries != [] {
      var e, rest := entries[0], entries[1..];
      SortCommutes(rest, ascii);
      InsertCommutes(e, SortByKey(rest), ascii);
      S.Cons(Entry(e.key, Render(e.value, false, ascii)), RenderMembers(rest, false, ascii));
    }
  }

  lemma {:induction false} InsertCommutes(e: Entry<Json>, sorted: seq<Entry<Json>>, ascii: bool)
    ensures RenderMembers(Insert(e, sorted), false, ascii)
         == Insert(Entry(e.key, Render(e.value, false, ascii)), RenderMembers(sorted, false, ascii))
    decreases |sorted|
  {
    hide Render, Before;
    if sorted == [] || Before(e.key, sorted[0].key) {
      S.Cons(e, sorted);
    } else {
      InsertCommutes(e, sorted[1..], ascii);
      S.Cons(sorted[0], Insert(e, sorted[1..]));
      S.Cons(Entry(sorted[0].key, Render(sorted[0].value, false, ascii)), RenderMembers(sorted[1..], false, ascii));
    }
  }

  // ---------------------------------------------------------------- printed units are visible

  /** No control characters, and with `ascii` nothing but printable ASCII. */
  ghost predicate Visible(text: Text, ascii: bool) { forall i :: 0 <= i < |text| ==> text[i] >= 32 && (ascii ==> text[i] < 127) }

  lemma VisibleConcat(a: Text, b: Text, ascii: bool)
    requires Visible(a, ascii) && Visible(b, ascii)
    ensures Visible(a + b, ascii)
  {
  }

  lemma {:induction false} EscapeVisible(text: Text, ascii: bool)
    ensures Visible(Escape(text, ascii), ascii)
    decreases |text|
  {
    hide Escape, FrontEscape, FrontUnits;
    EscapeSplit(text, ascii);
    if text != [] {
      var n := FrontUnits(text, ascii);
      FrontVisible(text, ascii);
      EscapeVisible(text[n..], ascii);
      VisibleConcat(FrontEscape(text, ascii), Escape(text[n..], ascii), ascii);
    }
  }

  lemma FrontVisible(text: Text, ascii: bool)
    requires text != []
    ensures Visible(FrontEscape(text, ascii), ascii)
  {
  }

  lemma QuoteVisible(text: Text, ascii: bool)
    ensures Visible(Quote(text, ascii), ascii)
  {
    hide Escape;
    EscapeVisible(text, ascii);
  }

  lemma {:induction false} JoinVisible(texts: seq<Text>, ascii: bool)
    requires forall i :: 0 <= i < |texts| ==> Visible(texts[i], ascii)
    ensures Visible(Join(texts), ascii)
    decreases |texts|
  {
    if |texts| > 1 {
      JoinVisible(texts[1..], ascii);
      VisibleConcat(texts[0], SEPARATOR, ascii);
      VisibleConcat(texts[0] + SEPARATOR, Join(texts[1..]), ascii);
    }
  }

  lemma {:induction false} RenderVisible(v: Json, ascii: bool)
    ensures Visible(Render(v, false, ascii), ascii)
    decreases v, 1
  {
    hide Quote, Join, Digits, RenderItems, RenderMembers, MemberTexts, TextsOf;
    match v
    case Str(text) => QuoteVisible(text, ascii);
    case Arr(items) =>
      ItemsVisible(items, ascii);
      JoinVisible(RenderItems(items, false, ascii), ascii);
    case Obj(entries) =>
      MembersVisible(entries, ascii);
      TextsOfObject(entries, ascii);
      JoinVisible(TextsOf(entries, ascii), ascii);
    case _ =>
  }

  lemma {:induction false} ItemsVisible(items: seq<Json>, ascii: bool)
    ensures forall i :: 0 <= i < |items| ==> Visible(RenderItems(items, false, ascii)[i], ascii)
    decreases items, 0
  {
    hide Render;
    if items != [] {
      RenderVisible(items[0], ascii);
      ItemsVisible(items[1..], ascii);
    }
  }

  lemma {:induction false} MembersVisible(entries: seq<Entry<Json>>, ascii: bool)
    ensures forall i :: 0 <= i < |entries| ==> Visible(TextsOf(entries, ascii)[i], ascii)
    decreases entries, 0
  {
    hide Render, Quote, TextsOf;
    if entries != [] {
      var key, value := Quote(entries[0].key, ascii), Render(entries[0].value, false, ascii);
      QuoteVisible(entries[0].key, ascii);
      RenderVisible(entries[0].value, ascii);
      VisibleConcat(key, KEY_SEPARATOR, ascii);
      VisibleConcat(key + KEY_SEPARATOR, value, ascii);
      MembersVisible(entries[1..], ascii);
      assert forall i :: 1 <= i < |entries| ==> TextsOf(entries, ascii)[i] == TextsOf(entries, ascii)[1..][i - 1];
    }
  }

  /** How a single unit is printed: itself where that may be, else a backslash and a letter, else four lower-case hex digits. */
  lemma EscapedExactly(u: Unit, ascii: bool)
    ensures var e := EscapeUnit(u, ascii);
            && (u == 34 || u == 92 || u == 8 || u == 9 || u == 10 || u == 12 || u == 13 <==> |e| == 2)
            && (|e| != 2 && (u < 32 || 0xD800 <= u <= 0xDFFF || (ascii && u >= 127)) <==> |e| == 6)
            && (|e| == 1 ==> e == [u])
            && (|e| == 6 ==> forall i :: 2 <= i < 6 ==> 48 <= e[i] <= 57 || 97 <= e[i] <= 102)
  {
  }

  /** Brackets around the items, with a comma and one blank between two. */
  lemma ListSpacing(items: seq<Json>, sorted: bool, ascii: bool)
    ensures Render(Arr(items), sorted, ascii) == [91] + Join(RenderItems(items, sorted, ascii)) + [93]
    ensures forall i :: 0 <= i < |items| ==> RenderItems(items, sorted, ascii)[i] == Render(items[i], sorted, ascii)
  {
    hide Join, Render, Quote;
    EachItem(items, sorted, ascii);
    ListBrackets(items, sorted, ascii);
  }

  lemma ListBrackets(items: seq<Json>, sorted: bool, ascii: bool)
    ensures Render(Arr(items), sorted, ascii) == [91] + Join(RenderItems(items, sorted, ascii)) + [93]
  {
    hide Join, RenderItems;
  }

  lemma {:induction false} EachItem(items: seq<Json>, sorted: bool, ascii: bool)
    ensures forall i :: 0 <= i < |items| ==> RenderItems(items, sorted, ascii)[i] == Render(items[i], sorted, ascii)
    decreases |items|
  {
    hide Render;
    if items != [] { EachItem(items[1..], sorted, ascii); }
  }

  lemma JoinSpacing(first: Text, second: Text, more: seq<Text>)
    ensures Join([]) == [] && Join([first]) == first
    ensures Join([first, second] + more) == first + [44, 32] + Join([second] + more)
  {
    assert ([first, second] + more)[1..] == [second] + more;
  }

  /** One blank after the colon. */
  lemma MemberSpacing(key: Text, value: Json, sorted: bool, ascii: bool)
    ensures Render(Obj([]), sorted, ascii) == [123, 125]
    ensures Render(Obj([Entry(key, value)]), sorted, ascii)
            == [123] + (Quote(key, ascii) + [58, 32] + Render(value, sorted, ascii)) + [125]
  {
    hide Quote;
    var entries: seq<Entry<Json>> := [Entry(key, value)];
    assert entries[1..] == [];
    var members := RenderMembers(entries, sorted, ascii);
    assert members == [Entry(key, Render(value, sorted, ascii))] && members[1..] == [];
    assert SortByKey(members) == members by { assert SortByKey(members[1..]) == []; }
    assert MemberTexts(members, ascii) == [Quote(key, ascii) + [58, 32] + Render(value, sorted, ascii)];
  }

  // ---------------------------------------------------------------- main results

  /** Whatever is printed reads back, in either mode: the value itself, or with its keys sorted, and it means the same. */
  lemma PrintedReadsBack(v: Json, sorted: bool, ascii: bool)
    requires WellFormed(v)
    ensures ReadValue(Render(v, sorted, ascii)) == Some((if sorted then Canon(v) else v, []))
    ensures MeaningOf(if sorted then Canon(v) else v) == MeaningOf(v)
  {
    var w := if sorted then Canon(v) else v;
    SortedIsCanon(v, ascii);
    CanonMeans(v);
    ValueBack(w, ascii, []);
    S.Ends(Render(w, false, ascii));
  }

  /** The sorted-key printer tells apart exactly what differs beyond key order, in either escaping mode. */
  lemma RenderExactly(a: Json, b: Json, ascii: bool)
    requires WellFormed(a) && WellFormed(b)
    ensures Render(a, true, ascii) == Render(b, true, ascii) <==> MeaningOf(a) == MeaningOf(b)
  {
    SortedIsCanon(a, ascii);
    SortedIsCanon(b, ascii);
    CanonExactly(a, b);
    if Render(a, true, ascii) == Render(b, true, ascii) {
      RenderReads(Canon(a), [], Canon(b), [], ascii);
    }
  }

  /** Without sorting, the text gives back the value and the order of its keys. */
  lemma UnsortedExactly(a: Json, b: Json, ascii: bool)
    ensures Render(a, false, ascii) == Render(b, false, ascii) <==> a == b
  {
    if Render(a, false, ascii) == Render(b, false, ascii) {
      RenderReads(a, [], b, [], ascii);
    }
  }

  /** An exact repeat of a tool call is a call with the same signature, and nothing else is. */
  lemma SignatureExactly(a: Json, b: Json)
    requires WellFormed(a) && WellFormed(b)
    ensures CallSignature(a) == CallSignature(b) <==> MeaningOf(a) == MeaningOf(b)
  {
    RenderExactly(a, b, false);
  }
}
