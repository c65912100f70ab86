/**
 Recovering a tool call from a model's reply (packages/mcp/src/research/actions.ts, lines 9 to 50).

 `JSON.parse` is a parameter: any partial function from texts to values.
 */
module Actions {
  import opened Wrappers
  import opened Text16
  import opened CanonicalJson
  import opened JsonPrinting
  import opened JsonReading
  import S = Sequences

  // ---------------------------------------------------------------- the balancing brace

  function Plus(n: nat, rest: Option<nat>): Option<nat> {
    match rest
    case None => None
    case Some(m) => Some(n + m)
  }

  predicate Opens(u: Unit) { u == OPEN_BRACE || u == OPEN_BRACKET }

  predicate Closes(u: Unit) { u == CLOSE_BRACE || u == CLOSE_BRACKET }

  /** How many units of `text` it takes, from this depth, to reach depth zero outside strings. */
  function Balance(text: Text, depth: int, inString: bool): (r: Option<nat>)
    ensures r.Some? ==> 1 <= r.value <= |text|
    decreases |text|
  {
    if text == [] then None
    else if inString && text[0] == BACKSLASH then
      if |text| == 1 then None else Plus(2, Balance(text[2..], depth, true))
    else if inString then Plus(1, Balance(text[1..], depth, text[0] != QUOTE))
    else if text[0] == QUOTE then Plus(1, Balance(text[1..], depth, true))
    else if Opens(text[0]) then Plus(1, Balance(text[1..], depth + 1, false))
    else if Closes(text[0]) then if depth == 1 then Some(1) else Plus(1, Balance(text[1..], depth - 1, false))
    else Plus(1, Balance(text[1..], depth, false))
  }

  /** One unit further: the new depth, whether a string is open, and how many units were taken. */
  function Next(text: Text, index: nat, depth: int, inString: bool): (int, bool, nat)
    requires index < |text|
  {
    var unit := text[index];
    if inString then (depth, unit != QUOTE, if unit == BACKSLASH then 2 else 1)
    else if unit == QUOTE then (depth, true, 1)
    else (if Opens(unit) then depth + 1 else if Closes(unit) then depth - 1 else depth, false, 1)
  }

  lemma BalanceNext(text: Text, index: nat, depth: int, inString: bool)
    requires index < |text|
    ensures var (d, s, n) := Next(text, index, depth, inString);
            Balance(text[index..], depth, inString)
            == if !inString && Closes(text[index]) && d == 0 then Some(1)
               else if index + n > |text| then None
               else Plus(n, Balance(text[index + n..], d, s))
  {
    S.DropDrop(text, index, 1);
    if index + 2 <= |text| { S.DropDrop(text, index, 2); }
  }

  /** The text of the object that starts at `start`: up to the brace that balances the first. */
  method ObjectAt(text: Text, start: nat) returns (r: Option<Text>)
    requires start <= |text|
    ensures match Balance(text[start..], 0, false)
            case None => r == None
            case Some(n) => r == Some(text[start..start + n])
  {
    hide Balance;
    var depth, inString, index := 0, false, start;
    NoneBalances(text);
    while index < |text|
      invariant start <= index
      invariant index <= |text| ==>
                  Balance(text[start..], 0, false) == Plus(index - start, Balance(text[index..], depth, inString))
      invariant index > |text| ==> Balance(text[start..], 0, false) == None
      decreases |text| - index
    {
      var unit := text[index];
      BalanceNext(text, index, depth, inString);
      if inString {
        if unit == BACKSLASH {
          index := index + 1;
        } else if unit == QUOTE {
          inString := false;
        }
      } else if unit == QUOTE {
        inString := true;
      } else if Opens(unit) {
        depth := depth + 1;
      } else if Closes(unit) {
        depth := depth - 1;
        if depth == 0 { return Some(text[start..index + 1]); }
      }
      index := index + 1;
    }
    r := None;
  }

  lemma NoneBalances(text: Text)
    ensures forall depth, inString :: Balance(text[|text|..], depth, inString) == None
  {
  }

  // ---------------------------------------------------------------- where an object ends

  /** Outside strings, inside one, or inside one right after a backslash. */
  datatype Mode = Outside | Inside | AfterBackslash

  /** What the first `n` units leave the reader in. */
  function ModeAt(text: Text, n: nat): Mode
    requires n <= |text|
  {
    if n == 0 then Outside
    else match ModeAt(text, n - 1)
      case Outside => if text[n - 1] == 34 then Inside else Outside
      case Inside => if text[n - 1] == 34 then Outside else if text[n - 1] == 92 then AfterBackslash else Inside
      case AfterBackslash => Inside
  }

  /** Brackets and braces opened and not closed in the first `n` units, strings left out. */
  function DepthAt(text: Text, n: nat): int
    requires n <= |text|
  {
    if n == 0 then 0
    else if ModeAt(text, n - 1) != Outside then DepthAt(text, n - 1)
    else if text[n - 1] == 123 || text[n - 1] == 91 then DepthAt(text, n - 1) + 1
    else if text[n - 1] == 125 || text[n - 1] == 93 then DepthAt(text, n - 1) - 1
    else DepthAt(text, n - 1)
  }

  /** A bracket or brace closes here, outside strings, and leaves none open. */
  predicate BalancedAt(text: Text, n: nat)
    requires n <= |text|
  {
    n > 0 && ModeAt(text, n - 1) == Outside && (text[n - 1] == 125 || text[n - 1] == 93) && DepthAt(text, n) == 0
  }

  /** From any point between units on, the first balanced place is what is looked for. */
  lemma {:induction false} BalanceFrom(text: Text, n: nat)
    requires n <= |text| && ModeAt(text, n) != AfterBackslash
    ensures var r := Balance(text[n..], DepthAt(text, n), ModeAt(text, n) == Inside);
            && (r.Some? ==> n + r.value <= |text| && BalancedAt(text, n + r.value)
                            && forall k :: n < k < n + r.value ==> !BalancedAt(text, k))
            && (r.None? ==> forall k :: n < k <= |text| ==> !BalancedAt(text, k))
    decreases |text| - n
  {
    hide Balance;
    if n == |text| {
      NoneBalances(text);
    } else {
      BalanceNext(text, n, DepthAt(text, n), ModeAt(text, n) == Inside);
      if ModeAt(text, n) == Inside && text[n] == 92 {
        if n + 2 <= |text| { BalanceFrom(text, n + 2); }
      } else {
        BalanceFrom(text, n + 1);
      }
    }
  }

  /** An object's text ends at the first place where everything opened since its start is closed, or there is none. */
  method ObjectEnds(text: Text, start: nat) returns (r: Option<Text>)
    requires start <= |text|
    ensures r.Some? ==>
              && r.value <= text[start..] && BalancedAt(text[start..], |r.value|)
              && forall k :: 0 < k < |r.value| ==> !BalancedAt(text[start..], k)
    ensures r.None? ==> forall k :: 0 < k <= |text| - start ==> !BalancedAt(text[start..], k)
  {
    hide Balance, BalancedAt;
    r := ObjectAt(text, start);
    var rest := text[start..];
    FirstBalance(rest);
    if r.Some? { S.DropDrop(text, start, |r.value|); }
  }

  lemma FirstBalance(text: Text)
    ensures var r := Balance(text, 0, false);
            && (r.Some? ==> r.value <= |text| && BalancedAt(text, r.value) && forall k :: 0 < k < r.value ==> !BalancedAt(text, k))
            && (r.None? ==> forall k :: 0 < k <= |text| ==> !BalancedAt(text, k))
  {
    hide Balance, BalancedAt;
    BalanceFrom(text, 0);
    S.Ends(text);
  }

  // ---------------------------------------------------------------- scanning printed values

  lemma PlusPlus(a: nat, b: nat, rest: Option<nat>)
    ensures Plus(a, Plus(b, rest)) == Plus(a + b, rest)
    ensures Plus(0, rest) == rest
  {
  }

  predicate Plain(u: Unit) { u != QUOTE && !Opens(u) && !Closes(u) }

  /** Outside strings, units that are neither quotes nor brackets are passed over. */
  lemma {:induction false} SkipPlain(text: Text, rest: Text, depth: int)
    requires forall i :: 0 <= i < |text| ==> Plain(text[i])
    ensures Balance(text + rest, depth, false) == Plus(|text|, Balance(rest, depth, false))
    decreases |text|
  {
    if text == [] {
      S.Ends(rest);
      PlusPlus(0, 0, Balance(rest, depth, false));
    } else {
      S.Head(text, rest);
      SkipPlain(text[1..], rest, depth);
      PlusPlus(1, |text| - 1, Balance(rest, depth, false));
    }
  }

  /** Inside a string, so are units that are neither quotes nor backslashes. */
  lemma {:induction false} SkipInside(text: Text, rest: Text, depth: int)
    requires forall i :: 0 <= i < |text| ==> text[i] != QUOTE && text[i] != BACKSLASH
    ensures Balance(text + rest, depth, true) == Plus(|text|, Balance(rest, depth, true))
    decreases |text|
  {
    if text == [] {
      S.Ends(rest);
      PlusPlus(0, 0, Balance(rest, depth, true));
    } else {
      S.Head(text, rest);
      SkipInside(text[1..], rest, depth);
      PlusPlus(1, |text| - 1, Balance(rest, depth, true));
    }
  }

  predicate Tame(text: Text) { forall i :: 0 <= i < |text| ==> text[i] != QUOTE && text[i] != BACKSLASH }

  /** An escaped unit is tame, or a backslash with one unit and tame units after it. */
  lemma EscapeShape(u: Unit, ascii: bool)
    ensures var e := EscapeUnit(u, ascii);
            Tame(e) || (|e| >= 2 && e[0] == BACKSLASH && Tame(e[2..]))
  {
  }

  lemma SkipBackslash(u: Unit, more: Text, rest: Text, depth: int)
    requires Tame(more)
    ensures Balance([BACKSLASH, u] + (more + rest), depth, true) == Plus(2 + |more|, Balance(rest, depth, true))
  {
    S.Middle([BACKSLASH, u], more + rest, []);
    SkipInside(more, rest, depth);
    PlusPlus(2, |more|, Balance(rest, depth, true));
  }

  lemma SkipEscapeUnit(u: Unit, ascii: bool, rest: Text, depth: int)
    ensures Balance(EscapeUnit(u, ascii) + rest, depth, true) == Plus(|EscapeUnit(u, ascii)|, Balance(rest, depth, true))
  {
    hide Balance, EscapeUnit;
    var e := EscapeUnit(u, ascii);
    EscapeShape(u, ascii);
    if Tame(e) {
      SkipInside(e, rest, depth);
    } else {
      SkipBackslash(e[1], e[2..], rest, depth);
      assert e + rest == [BACKSLASH, e[1]] + (e[2..] + rest);
    }
  }

  lemma SkipFront(text: Text, ascii: bool, rest: Text, depth: int)
    requires text != []
    ensures Balance(FrontEscape(text, ascii) + rest, depth, true)
         == Plus(|FrontEscape(text, ascii)|, Balance(rest, depth, true))
  {
    if !ascii && PairAt(text, 0) {
      SkipInside([text[0], text[1]], rest, depth);
    } else {
      SkipEscapeUnit(text[0], ascii, rest, depth);
    }
  }

  lemma {:induction false} SkipEscape(text: Text, ascii: bool, rest: Text, depth: int)
    ensures Balance(Escape(text, ascii) + rest, depth, true) == Plus(|Escape(text, ascii)|, Balance(rest, depth, true))
    decreases |text|
  {
    hide Balance, Escape, FrontEscape, FrontUnits;
    EscapeSplit(text, ascii);
    if text == [] {
      S.Ends(rest);
      PlusPlus(0, 0, Balance(rest, depth, true));
    } else {
      var n, front := FrontUnits(text, ascii), FrontEscape(text, ascii);
      var more := Escape(text[n..], ascii);
      S.Assoc(front, more, rest);
      SkipFront(text, ascii, more + rest, depth);
      SkipEscape(text[n..], ascii, rest, depth);
      PlusPlus(|front|, |more|, Balance(rest, depth, true));
    }
  }

  lemma SkipQuote(text: Text, ascii: bool, rest: Text, depth: int)
    ensures Balance(Quote(text, ascii) + rest, depth, false) == Plus(|Quote(text, ascii)|, Balance(rest, depth, false))
  {
    hide Escape;
    var e := Escape(text, ascii);
    QuoteFront(text, rest, ascii);
    S.Cons(QUOTE, e + ([QUOTE] + rest));
    SkipEscape(text, ascii, [QUOTE] + rest, depth);
    S.Cons(QUOTE, rest);
    PlusPlus(|e|, 1, Balance(rest, depth, false));
    PlusPlus(1, |e| + 1, Balance(rest, depth, false));
  }

  /** A whole printed value inside an object or array changes nothing but the position. */
  lemma {:induction false} SkipValue(v: Json, ascii: bool, rest: Text, depth: int)
    requires depth >= 1
    ensures Balance(Render(v, false, ascii) + rest, depth, false) == Plus(|Render(v, false, ascii)|, Balance(rest, depth, false))
    decreases v, 1
  {
    hide Balance, Quote, Digits, Join, RenderItems, RenderMembers, MemberTexts, TextsOf;
    match v
    case Null => SkipPlain(Render(v, false, ascii), rest, depth);
    case Bool(_) => SkipPlain(Render(v, false, ascii), rest, depth);
    case Num(n) => SkipPlain(Render(v, false, ascii), rest, depth);
    case Str(text) => SkipQuote(text, ascii, rest, depth);
    case Arr(items) =>
      SkipItems(items, ascii, [CLOSE_BRACKET] + rest, depth + 1);
      SkipBody(OPEN_BRACKET, Join(RenderItems(items, false, ascii)), CLOSE_BRACKET, rest, depth);
    case Obj(entries) =>
      SkipMembers(entries, ascii, [CLOSE_BRACE] + rest, depth + 1);
      TextsOfObject(entries, ascii);
      SkipBody(OPEN_BRACE, Join(TextsOf(entries, ascii)), CLOSE_BRACE, rest, depth);
  }

  /** Brackets around a body that keeps the depth. */
  lemma SkipBody(open: Unit, body: Text, close: Unit, rest: Text, depth: int)
    requires depth >= 0 && Opens(open) && Closes(close)
    requires Balance(body + ([close] + rest), depth + 1, false) == Plus(|body|, Balance([close] + rest, depth + 1, false))
    ensures var text := [open] + body + [close];
            Balance(text + rest, depth, false) == if depth == 0 then Some(|text|) else Plus(|text|, Balance(rest, depth, false))
  {
    S.Assoc([open] + body, [close], rest);
    S.Assoc([open], body, [close] + rest);
    S.Cons(open, body + ([close] + rest));
    S.Cons(close, rest);
    PlusPlus(|body|, 1, Balance(rest, depth, false));
    PlusPlus(1, |body| + 1, Balance(rest, depth, false));
  }

  /** One text of a joined list, and the separator after it. */
  lemma SkipSeparator(rest: Text, depth: int)
    ensures Balance(SEPARATOR + rest, depth, false) == Plus(2, Balance(rest, depth, false))
  {
    SkipPlain(SEPARATOR, rest, depth);
  }

  lemma {:induction false} SkipItems(items: seq<Json>, ascii: bool, rest: Text, depth: int)
    requires depth >= 1
    ensures var text := Join(RenderItems(items, false, ascii));
            Balance(text + rest, depth, false) == Plus(|text|, Balance(rest, depth, false))
    decreases items, 0
  {
    hide Balance, Render;
    var texts := RenderItems(items, false, ascii);
    if items == [] {
      S.Ends(rest);
      PlusPlus(0, 0, Balance(rest, depth, false));
    } else if |items| == 1 {
      SkipValue(items[0], ascii, rest, depth);
    } else {
      var more := Join(texts[1..]);
      S.Cons(texts[0], RenderItems(items[1..], false, ascii));
      SkipItems(items[1..], ascii, rest, depth);
      SkipJoined(texts[0], more, rest, depth);
      SkipSeparator(more + rest, depth);
      SkipValue(items[0], ascii, SEPARATOR + (more + rest), depth);
    }
  }

  lemma SkipJoined(first: Text, more: Text, rest: Text, depth: int)
    ensures (first + SEPARATOR + more) + rest == first + (SEPARATOR + (more + rest))
    ensures Plus(|first|, Plus(2, Plus(|more|, Balance(rest, depth, false))))
         == Plus(|first + SEPARATOR + more|, Balance(rest, depth, false))
  {
    S.Assoc(first + SEPARATOR, more, rest);
    S.Assoc(first, SEPARATOR, more + rest);
  }

  lemma {:induction false} SkipMember(e: Entry<Json>, ascii: bool, rest: Text, depth: int)
    requires depth >= 1
    ensures var text := Quote(e.key, ascii) + KEY_SEPARATOR + Render(e.value, false, ascii);
            Balance(text + rest, depth, false) == Plus(|text|, Balance(rest, depth, false))
    decreases e, 2
  {
    hide Balance, Render, Quote;
    var value := Render(e.value, false, ascii);
    MemberFront(e, rest, ascii);
    SkipQuote(e.key, ascii, KEY_SEPARATOR + (value + rest), depth);
    SkipPlain(KEY_SEPARATOR, value + rest, depth);
    SkipValue(e.value, ascii, rest, depth);
    PlusPlus(2, |value|, Balance(rest, depth, false));
    PlusPlus(|Quote(e.key, ascii)|, 2 + |value|, Balance(rest, depth, false));
  }

  lemma {:induction false} SkipMembers(entries: seq<Entry<Json>>, ascii: bool, rest: Text, depth: int)
    requires depth >= 1
    ensures var text := Join(TextsOf(entries, ascii));
            Balance(text + rest, depth, false) == Plus(|text|, Balance(rest, depth, false))
    decreases entries, 0
  {
    hide Balance, Render, Quote, RenderMembers, MemberTexts, TextsOf;
    var texts := TextsOf(entries, ascii);
    if entries == [] {
      S.Ends(rest);
      PlusPlus(0, 0, Balance(rest, depth, false));
    } else if |entries| == 1 {
      SkipMember(entries[0], ascii, rest, depth);
    } else {
      var more := Join(texts[1..]);
      SkipMembers(entries[1..], ascii, rest, depth);
      SkipJoined(texts[0], more, rest, depth);
      SkipSeparator(more + rest, depth);
      SkipMember(entries[0], ascii, SEPARATOR + (more + rest), depth);
    }
  }

  /** The scanner stops exactly at the closing brace of a printed object, whatever follows. */
  lemma PrintedObjectEnds(v: Json, sorted: bool, ascii: bool, rest: Text)
    requires v.Obj?
    ensures Balance(Render(v, sorted, ascii) + rest, 0, false) == Some(|Render(v, sorted, ascii)|)
  {
    hide Balance, Render;
    var w := if sorted then Canon(v) else v;
    if sorted { SortedIsCanon(v, ascii); }
    SkipMembers(w.entries, ascii, [CLOSE_BRACE] + rest, 1);
    TextsOfObject(w.entries, ascii);
    SkipBody(OPEN_BRACE, Join(TextsOf(w.entries, ascii)), CLOSE_BRACE, rest, 0);
  }
}
