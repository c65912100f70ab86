/**
 From a model's reply to its action (packages/mcp/src/research/actions.ts, lines 31 to 50): trimming,
 fences, direct parsing, and recovery of the first balanced object.
 */
module ActionReply {
  import opened Wrappers
  import opened Text16
  import opened CanonicalJson
  import opened JsonPrinting
  import opened Actions
  import S = Sequences

  // ---------------------------------------------------------------- trimming and fences

  const RETURN: Unit := 13
  const FENCE: Text := [96, 96, 96]
  const ACTION: Text := [97, 99, 116, 105, 111, 110]

  /** What `String.prototype.trim` removes. */
  predicate Whitespace(u: Unit) {
    || 9 <= u <= 13 || u == 32 || u == 0xA0 || u == 0x1680 || 0x2000 <= u <= 0x200A
    || u == 0x2028 || u == 0x2029 || u == 0x202F || u == 0x205F || u == 0x3000 || u == 0xFEFF
  }

  predicate AllWhitespace(text: Text) { forall i :: 0 <= i < |text| ==> Whitespace(text[i]) }

  function TrimStart(text: Text): Text {
    if text != [] && Whitespace(text[0]) then TrimStart(text[1..]) else text
  }

  function TrimEnd(text: Text): Text {
    if text != [] && Whitespace(text[|text| - 1]) then TrimEnd(text[..|text| - 1]) else text
  }

  function Trim(text: Text): Text { TrimEnd(TrimStart(text)) }

  /** Position of the first line break, or the length. */
  function FirstBreak(text: Text): (n: nat)
    ensures n <= |text|
    ensures forall i :: 0 <= i < n ==> text[i] != NEWLINE && text[i] != RETURN
    ensures n < |text| ==> text[n] == NEWLINE || text[n] == RETURN
  {
    if text == [] || text[0] == NEWLINE || text[0] == RETURN then 0 else 1 + FirstBreak(text[1..])
  }

  /** `split(/\r\n|\r|\n/)` */
  function SplitLines(text: Text): (lines: seq<Text>)
    ensures |lines| >= 1
    decreases |text|
  {
    var n := FirstBreak(text);
    if n == |text| then [text]
    else if text[n] == RETURN && n + 1 < |text| && text[n + 1] == NEWLINE then [text[..n]] + SplitLines(text[n + 2..])
    else [text[..n]] + SplitLines(text[n + 1..])
  }

  function JoinWithNewlines(lines: seq<Text>): Text {
    if lines == [] then []
    else if |lines| == 1 then lines[0]
    else lines[0] + [NEWLINE] + JoinWithNewlines(lines[1..])
  }

  /** The text that is parsed: trimmed, and without the first and last line of a fenced block. */
  function ActionText(content: Text): Text {
    var text := Trim(content);
    if FENCE <= text then
      var lines := SplitLines(text);
      Trim(JoinWithNewlines(if |lines| < 2 then [] else lines[1..|lines| - 1]))
    else text
  }

  // ---------------------------------------------------------------- parsing

  type Parser = Text -> Option<Json>

  datatype ActionError = NoAction | InvalidAction | NotAnAction

  predicate IsAction(v: Json) {
    v.Obj? && exists i :: 0 <= i < |v.entries| && v.entries[i].key == ACTION && v.entries[i].value.Str?
  }

  /** Position of the first opening brace, or the length. */
  function FirstBrace(text: Text): (n: nat)
    ensures n <= |text|
    ensures forall i :: 0 <= i < n ==> text[i] != OPEN_BRACE
    ensures n < |text| ==> text[n] == OPEN_BRACE
  {
    if text == [] || text[0] == OPEN_BRACE then 0 else 1 + FirstBrace(text[1..])
  }

  /** The value in a reply: all of the text, or else its first balanced object. */
  function ValueIn(text: Text, parse: Parser): Result<Json, ActionError> {
    if parse(text).Some? then Ok(parse(text).value) else
      var start := FirstBrace(text);
      if start == |text| then Err(NoAction) else
        match Balance(text[start..], 0, false)
        case None => Err(InvalidAction)
        case Some(n) =>
          match parse(text[start..start + n])
          case None => Err(InvalidAction)
          case Some(v) => Ok(v)
  }

  function ActionIn(content: Text, parse: Parser): Result<Json, ActionError> {
    match ValueIn(ActionText(content), parse)
    case Err(e) => Err(e)
    case Ok(v) => if IsAction(v) then Ok(v) else Err(NotAnAction)
  }

  method ParseJsonAction(content: Text, parse: Parser) returns (r: Result<Json, ActionError>)
    ensures r == ActionIn(content, parse)
    ensures r.Ok? ==> IsAction(r.value)
  {
    var text := ActionText(content);
    var value := parse(text);
    if value.None? {
      var start := FirstBrace(text);
      if start == |text| { return Err(NoAction); }
      var slice := ObjectAt(text, start);
      if slice.None? { return Err(InvalidAction); }
      value := parse(slice.value);
      if value.None? { return Err(InvalidAction); }
    }
    r := if IsAction(value.value) then Ok(value.value) else Err(NotAnAction);
  }

  // ---------------------------------------------------------------- printed objects

  /** A printed object: braces around visible units. */
  ghost predicate ObjectText(text: Text) {
    && |text| >= 2 && text[0] == OPEN_BRACE && text[|text| - 1] == CLOSE_BRACE
    && Visible(text, false)
  }

  lemma PrintedObject(v: Json, sorted: bool, ascii: bool)
    requires v.Obj?
    ensures ObjectText(Render(v, sorted, ascii))
  {
    if sorted {
      SortedIsCanon(v, ascii);
      RenderVisible(Canon(v), ascii);
    } else {
      RenderVisible(v, ascii);
    }
  }

  // ---------------------------------------------------------------- trimming around an object

  lemma {:induction false} TrimStartOf(before: Text, rest: Text)
    requires rest != [] && !Whitespace(rest[0])
    ensures TrimStart(before + rest) == TrimStart(before) + rest
    decreases |before|
  {
    if before == [] {
      S.Ends(rest);
    } else {
      S.Head(before, rest);
      if Whitespace(before[0]) { TrimStartOf(before[1..], rest); }
    }
  }

  lemma {:induction false} TrimEndOf(rest: Text, after: Text)
    requires rest != [] && !Whitespace(rest[|rest| - 1])
    ensures TrimEnd(rest + after) == rest + TrimEnd(after)
    decreases |after|
  {
    if after == [] {
      S.Ends(rest);
    } else {
      assert (rest + after)[..|rest + after| - 1] == rest + after[..|after| - 1];
      if Whitespace(after[|after| - 1]) { TrimEndOf(rest, after[..|after| - 1]); }
    }
  }

  /** Trimming works on what surrounds a text that begins and ends visibly. */
  lemma TrimAround(before: Text, middle: Text, after: Text)
    requires middle != [] && !Whitespace(middle[0]) && !Whitespace(middle[|middle| - 1])
    ensures Trim(before + middle + after) == TrimStart(before) + middle + TrimEnd(after)
  {
    S.Assoc(before, middle, after);
    FirstOf(middle, after);
    TrimStartOf(before, middle + after);
    S.Assoc(TrimStart(before), middle, after);
    var text := TrimStart(before) + middle;
    assert text[|text| - 1] == middle[|middle| - 1];
    TrimEndOf(text, after);
  }

  lemma {:induction false} TrimStartKeepsOut(text: Text, u: Unit)
    requires u !in text
    ensures u !in TrimStart(text)
    decreases |text|
  {
    if text != [] && Whitespace(text[0]) { TrimStartKeepsOut(text[1..], u); }
  }

  lemma {:induction false} BlankTrims(text: Text)
    requires AllWhitespace(text)
    ensures TrimStart(text) == [] && TrimEnd(text) == []
    decreases |text|
  {
    if text != [] {
      BlankTrims(text[1..]);
      BlankTrims(text[..|text| - 1]);
    }
  }

  // ---------------------------------------------------------------- main results

  lemma {:induction false} FirstBraceAfter(before: Text, rest: Text)
    requires OPEN_BRACE !in before && rest != [] && rest[0] == OPEN_BRACE
    ensures FirstBrace(before + rest) == |before|
  {
    var text := before + rest;
    assert text[|before|] == rest[0];
    assert forall i :: 0 <= i < |before| ==> text[i] == before[i];
  }

  /** Printing an object into prose and recovering it gives the text that was printed, and no other. */
  lemma RecoversPrinted(before: Text, v: Json, sorted: bool, ascii: bool, after: Text, parse: Parser)
    requires v.Obj? && OPEN_BRACE !in before
    requires parse(before + Render(v, sorted, ascii) + after).None?
    ensures ValueIn(before + Render(v, sorted, ascii) + after, parse)
         == match parse(Render(v, sorted, ascii)) case Some(w) => Ok(w) case None => Err(InvalidAction)
  {
    hide Render, Balance;
    var printed := Render(v, sorted, ascii);
    var text := before + printed + after;
    PrintedObject(v, sorted, ascii);
    S.Assoc(before, printed, after);
    FirstOf(printed, after);
    FirstBraceAfter(before, printed + after);
    S.Middle(before, printed + after, []);
    PrintedObjectEnds(v, sorted, ascii, after);
    S.Middle(before, printed, after);
  }

  /** A reply that is a printed action in prose yields that action, unless all of it parses. */
  lemma ProseGivesAction(before: Text, v: Json, sorted: bool, ascii: bool, after: Text, parse: Parser, w: Json)
    requires v.Obj? && OPEN_BRACE !in before
    requires parse(Render(v, sorted, ascii)) == Some(w) && IsAction(w)
    requires var text := TrimStart(before) + Render(v, sorted, ascii) + TrimEnd(after); !(FENCE <= text) && parse(text).None?
    ensures ActionIn(before + Render(v, sorted, ascii) + after, parse) == Ok(w)
  {
    hide Render, ValueIn, Trim, TrimStart, TrimEnd, SplitLines, JoinWithNewlines, IsAction;
    PrintedObject(v, sorted, ascii);
    TrimAround(before, Render(v, sorted, ascii), after);
    TrimStartKeepsOut(before, OPEN_BRACE);
    RecoversPrinted(TrimStart(before), v, sorted, ascii, TrimEnd(after), parse);
  }

  /** So does a reply that is the printed action alone, with whitespace around it. */
  lemma BareGivesAction(before: Text, v: Json, sorted: bool, ascii: bool, after: Text, parse: Parser, w: Json)
    requires v.Obj? && AllWhitespace(before) && AllWhitespace(after)
    requires parse(Render(v, sorted, ascii)) == Some(w) && IsAction(w)
    ensures ActionIn(before + Render(v, sorted, ascii) + after, parse) == Ok(w)
  {
    hide Render;
    var printed := Render(v, sorted, ascii);
    PrintedObject(v, sorted, ascii);
    TrimAround(before, printed, after);
    BlankTrims(before);
    BlankTrims(after);
    S.Ends(printed);
  }

  lemma SplitFirst(line: Text, rest: Text)
    requires NEWLINE !in line && RETURN !in line
    ensures SplitLines(line + [NEWLINE] + rest) == [line] + SplitLines(rest)
  {
    var text := line + [NEWLINE] + rest;
    assert text[|line|] == NEWLINE;
    assert forall i :: 0 <= i < |line| ==> text[i] == line[i];
    assert FirstBreak(text) == |line|;
    assert text[..|line|] == line && text[|line| + 1..] == rest;
  }

  lemma SplitWhole(line: Text)
    requires NEWLINE !in line && RETURN !in line
    ensures SplitLines(line) == [line]
  {
  }

  /** A fenced block around one printed object, with any tag on the opening fence. */
  function Fenced(tag: Text, printed: Text): Text { FENCE + tag + [NEWLINE] + printed + [NEWLINE] + FENCE }

  lemma TrimVisible(text: Text)
    requires text != [] && !Whitespace(text[0]) && !Whitespace(text[|text| - 1])
    ensures Trim(text) == text
  {
    TrimAround([], text, []);
    S.Ends(text);
  }

  lemma FencedEnds(tag: Text, printed: Text)
    ensures var text := Fenced(tag, printed);
            |text| >= 6 && FENCE <= text && text[0] == FENCE[0] && text[|text| - 1] == FENCE[2]
  {
  }

  lemma FencedLines(tag: Text, printed: Text)
    requires NEWLINE !in tag && RETURN !in tag && ObjectText(printed)
    ensures SplitLines(Fenced(tag, printed)) == [FENCE + tag, printed, FENCE]
  {
    hide SplitLines;
    var tail := printed + [NEWLINE] + FENCE;
    S.Assoc(FENCE + tag + [NEWLINE], printed + [NEWLINE], FENCE);
    S.Assoc(FENCE + tag + [NEWLINE], printed, [NEWLINE]);
    assert Fenced(tag, printed) == (FENCE + tag) + [NEWLINE] + tail;
    SplitFirst(FENCE + tag, tail);
    SplitFirst(printed, FENCE);
    SplitWhole(FENCE);
  }

  lemma FencedText(tag: Text, printed: Text)
    requires NEWLINE !in tag && RETURN !in tag && ObjectText(printed)
    ensures ActionText(Fenced(tag, printed)) == printed
  {
    hide SplitLines, Trim, Fenced;
    var text := Fenced(tag, printed);
    FencedEnds(tag, printed);
    TrimVisible(text);
    FencedLines(tag, printed);
    var lines := SplitLines(text);
    assert lines[1..2] == [printed];
    TrimVisible(printed);
  }

  /** A fenced action is that action. */
  lemma FenceGivesAction(tag: Text, v: Json, sorted: bool, ascii: bool, parse: Parser, w: Json)
    requires v.Obj? && NEWLINE !in tag && RETURN !in tag
    requires parse(Render(v, sorted, ascii)) == Some(w) && IsAction(w)
    ensures ActionIn(Fenced(tag, Render(v, sorted, ascii)), parse) == Ok(w)
  {
    hide Render, ActionText;
    PrintedObject(v, sorted, ascii);
    FencedText(tag, Render(v, sorted, ascii));
  }

  // ---------------------------------------------------------------- what each reply gives

  /** An object with a member named "action" that is a string. */
  ghost predicate HasAction(v: Json) {
    v.Obj? && exists i :: 0 <= i < |v.entries| && v.entries[i].key == [97, 99, 116, 105, 111, 110] && v.entries[i].value.Str?
  }

  /** What a parsed value gives. */
  ghost function Judged(v: Json): Result<Json, ActionError> { if HasAction(v) then Ok(v) else Err(NotAnAction) }

  /** The first place at which what was opened is closed again is after `k` units. */
  ghost predicate EndsAt(text: Text, k: nat) {
    0 < k <= |text| && BalancedAt(text, k) && forall j :: 0 < j < k ==> !BalancedAt(text, j)
  }

  /** The first brace of a text is at `s`. */
  predicate BraceAt(text: Text, s: nat) { s < |text| && text[s] == 123 && 123 !in text[..s] }

  /** Every outcome: the whole text if it parses, else the object at the first brace if it ends and parses, else its error. */
  lemma RepliesExactly(content: Text, parse: Parser, s: nat, k: nat)
    ensures var t, r := ActionText(content), ActionIn(content, parse);
            && (parse(t).Some? ==> r == Judged(parse(t).value))
            && (parse(t).None? && 123 !in t ==> r == Err(NoAction))
            && (parse(t).None? && BraceAt(t, s) && (forall n :: !EndsAt(t[s..], n)) ==> r == Err(InvalidAction))
            && (parse(t).None? && BraceAt(t, s) && EndsAt(t[s..], k) ==>
                  r == if parse(t[s..s + k]).None? then Err(InvalidAction) else Judged(parse(t[s..s + k]).value))
  {
    hide ActionText, Balance, EndsAt;
    var t := ActionText(content);
    assert forall v :: IsAction(v) <==> HasAction(v);
    hide IsAction, HasAction;
    if BraceAt(t, s) {
      BraceIsFirst(t, s);
      FirstBalanced(t[s..], k);
    }
  }

  lemma BraceIsFirst(t: Text, s: nat)
    requires BraceAt(t, s)
    ensures FirstBrace(t) == s
  {
    assert forall i :: 0 <= i < s ==> t[..s][i] == t[i];
  }

  lemma FirstBalanced(text: Text, k: nat)
    ensures Balance(text, 0, false).None? <==> forall n :: !EndsAt(text, n)
    ensures EndsAt(text, k) ==> Balance(text, 0, false) == Some(k)
  {
    hide Balance, BalancedAt;
    FirstBalance(text);
    var r := Balance(text, 0, false);
    if r.Some? { assert EndsAt(text, r.value); }
  }

  // ---------------------------------------------------------------- trimmed and fenced texts

  /** Trimming takes away whitespace at both ends, all of it, and nothing else. */
  lemma TrimExactly(text: Text) returns (before: Text, after: Text)
    ensures text == before + Trim(text) + after && AllWhitespace(before) && AllWhitespace(after)
    ensures Trim(text) != [] ==> !Whitespace(Trim(text)[0]) && !Whitespace(Trim(text)[|Trim(text)| - 1])
  {
    hide Whitespace;
    before := TrimmedStart(text);
    after := TrimmedEnd(TrimStart(text));
    S.Assoc(before, Trim(text), after);
    if Trim(text) != [] { assert TrimStart(text)[0] == Trim(text)[0]; }
  }

  lemma {:induction false} TrimmedStart(text: Text) returns (before: Text)
    ensures text == before + TrimStart(text) && AllWhitespace(before)
    ensures TrimStart(text) != [] ==> !Whitespace(TrimStart(text)[0])
    decreases |text|
  {
    hide Whitespace;
    before := [];
    if text != [] && Whitespace(text[0]) {
      var more := TrimmedStart(text[1..]);
      before := [text[0]] + more;
      S.Assoc([text[0]], more, TrimStart(text));
      S.Head(text, []);
    } else {
      S.Ends(text);
    }
  }

  lemma {:induction false} TrimmedEnd(text: Text) returns (after: Text)
    ensures text == TrimEnd(text) + after && AllWhitespace(after)
    ensures TrimEnd(text) != [] ==> !Whitespace(TrimEnd(text)[|TrimEnd(text)| - 1])
    decreases |text|
  {
    hide Whitespace;
    after := [];
    if text != [] && Whitespace(text[|text| - 1]) {
      var more := TrimmedEnd(text[..|text| - 1]);
      after := more + [text[|text| - 1]];
      S.Assoc(TrimEnd(text), more, [text[|text| - 1]]);
    } else {
      S.Ends(text);
    }
  }

  /** Lines written out with their breaks. */
  function Written(lines: seq<Text>, breaks: seq<Text>): Text
    requires |lines| == |breaks| + 1
  {
    if breaks == [] then lines[0] else lines[0] + breaks[0] + Written(lines[1..], breaks[1..])
  }

  /** No break inside a line; a break is LF, CR or CR LF, and no CR alone stands before an LF. */
  ghost predicate CleanLines(lines: seq<Text>, breaks: seq<Text>)
    requires |lines| == |breaks| + 1
    decreases |breaks|
  {
    && 10 !in lines[0] && 13 !in lines[0]
    && (breaks != [] ==>
          && CleanLines(lines[1..], breaks[1..])
          && (breaks[0] == [10] || breaks[0] == [13, 10]
              || (breaks[0] == [13] && var rest := Written(lines[1..], breaks[1..]); rest == [] || rest[0] != 10)))
  }

  lemma OneBreak(line: Text, lineBreak: Text, rest: Text)
    requires 10 !in line && 13 !in line
    requires lineBreak == [10] || lineBreak == [13, 10] || (lineBreak == [13] && (rest == [] || rest[0] != 10))
    ensures SplitLines(line + lineBreak + rest) == [line] + SplitLines(rest)
  {
    var text := line + lineBreak + rest;
    assert text[|line|] == lineBreak[0];
    assert forall i :: 0 <= i < |line| ==> text[i] == line[i];
    assert FirstBreak(text) == |line|;
    assert text[..|line|] == line && text[|line| + |lineBreak|..] == rest;
    if |lineBreak| == 2 { assert text[|line| + 1] == 10; }
    else if rest != [] { assert text[|line| + 1] == rest[0]; }
  }

  lemma {:induction false} SplitExactly(lines: seq<Text>, breaks: seq<Text>)
    requires |lines| == |breaks| + 1 && CleanLines(lines, breaks)
    ensures SplitLines(Written(lines, breaks)) == lines
    decreases |breaks|
  {
    if breaks == [] {
      SplitWhole(lines[0]);
      assert lines == [lines[0]];
    } else {
      SplitExactly(lines[1..], breaks[1..]);
      OneBreak(lines[0], breaks[0], Written(lines[1..], breaks[1..]));
      S.Head(lines, []);
    }
  }

  /** What is parsed of a reply: what is left of it when trimmed, or, in a fenced block, the lines between the fences. */
  lemma ActionTextExactly(content: Text, lines: seq<Text>, breaks: seq<Text>)
    requires |lines| == |breaks| + 1 && CleanLines(lines, breaks) && Trim(content) == Written(lines, breaks)
    ensures [96, 96, 96] <= lines[0] ==>
              ActionText(content) == Trim(JoinWithNewlines(if |lines| < 2 then [] else lines[1..|lines| - 1]))
    ensures !([96, 96, 96] <= Trim(content)) ==> ActionText(content) == Trim(content)
  {
    hide Trim, SplitLines;
    SplitExactly(lines, breaks);
    if [96, 96, 96] <= lines[0] { assert Written(lines, breaks)[..3] == [96, 96, 96]; }
  }
}
