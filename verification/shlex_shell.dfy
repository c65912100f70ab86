/**
 The shell grammar the lexer reads in posix mode with punctuation
 (packages/mcp/src/research/shlex.ts, lines 29 to 177, called from
 packages/mcp/src/research/sandbox-validate.ts, line 125).

 A text is blanks, operators and words in a row. A word is made of plain characters, characters after a
 backslash, and quoted parts. `ShellLexesExactly` says what any such text lexes to, and `EveryTextHasShape`
 that every text is of this form, or ends inside a quoted part or right after a backslash.
 */
module ShlexShell {
  import opened Wrappers
  import opened Shlex
  import opened ShlexWords
  import S = Sequences

  // ---------------------------------------------------------------- the grammar

  /** Between double quotes: a character, or a backslash with the character after it. */
  datatype Inner = Itself(c: Char) | Slashed(c: Char)

  datatype Part =
    | Plain(c: Char)
    | Escaped(c: Char)
    | InSingle(text: Chars)
    | InDouble(inners: seq<Inner>)

  datatype Piece = Space(c: Char) | Operator(op: Chars) | Compound(parts: seq<Part>)

  /** Where a text may break off. */
  datatype Open = OpenSingle(text: Chars) | OpenDouble(inners: seq<Inner>) | Dangling | DanglingInDouble(inners: seq<Inner>)

  datatype Shape = Shape(pieces: seq<Piece>, tail: Option<(seq<Part>, Open)>)

  predicate BlankChar(c: Char) { c == 32 || c == 9 || c == 13 || c == 10 }

  /** `;&|()<>` */
  predicate OperatorChar(c: Char) { c == 59 || c == 38 || c == 124 || c == 40 || c == 41 || c == 60 || c == 62 }

  predicate PlainChar(c: Char) { !BlankChar(c) && !OperatorChar(c) && c != 39 && c != 34 && c != 92 }

  predicate InnerOk(i: Inner) { i.Itself? ==> i.c != 34 && i.c != 92 }

  predicate InnersOk(inners: seq<Inner>) { forall k :: 0 <= k < |inners| ==> InnerOk(inners[k]) }

  predicate PartOk(p: Part) {
    match p
    case Plain(c) => PlainChar(c)
    case Escaped(c) => true
    case InSingle(text) => 39 !in text
    case InDouble(inners) => InnersOk(inners)
  }

  predicate PartsOk(parts: seq<Part>) { forall k :: 0 <= k < |parts| ==> PartOk(parts[k]) }

  predicate PieceOk(p: Piece) {
    match p
    case Space(c) => BlankChar(c)
    case Operator(op) => op != [] && forall k :: 0 <= k < |op| ==> OperatorChar(op[k])
    case Compound(parts) => parts != [] && PartsOk(parts)
  }

  predicate OpenOk(o: Open) {
    match o
    case OpenSingle(text) => 39 !in text
    case OpenDouble(inners) => InnersOk(inners)
    case Dangling => true
    case DanglingInDouble(inners) => InnersOk(inners)
  }

  /** Neighbouring words, or operators, would be one. */
  predicate Apart(a: Piece, b: Piece) { !(a.Operator? && b.Operator?) && !(a.Compound? && b.Compound?) }

  predicate WellFormed(s: Shape) {
    && (forall k :: 0 <= k < |s.pieces| ==> PieceOk(s.pieces[k]))
    && (forall k :: 0 < k < |s.pieces| ==> Apart(s.pieces[k - 1], s.pieces[k]))
    && (s.tail.Some? ==>
          && PartsOk(s.tail.value.0) && OpenOk(s.tail.value.1)
          && (s.pieces != [] ==> !s.pieces[|s.pieces| - 1].Compound?))
  }

  // ---------------------------------------------------------------- how it is written

  function WriteInners(inners: seq<Inner>): Chars {
    if inners == [] then []
    else (if inners[0].Itself? then [inners[0].c] else [92, inners[0].c]) + WriteInners(inners[1..])
  }

  function WritePart(p: Part): Chars {
    match p
    case Plain(c) => [c]
    case Escaped(c) => [92, c]
    case InSingle(text) => [39] + text + [39]
    case InDouble(inners) => [34] + WriteInners(inners) + [34]
  }

  function WriteParts(parts: seq<Part>): Chars {
    if parts == [] then [] else WritePart(parts[0]) + WriteParts(parts[1..])
  }

  function WriteOpen(o: Open): Chars {
    match o
    case OpenSingle(text) => [39] + text
    case OpenDouble(inners) => [34] + WriteInners(inners)
    case Dangling => [92]
    case DanglingInDouble(inners) => [34] + (WriteInners(inners) + [92])
  }

  function WritePiece(p: Piece): Chars {
    match p
    case Space(c) => [c]
    case Operator(op) => op
    case Compound(parts) => WriteParts(parts)
  }

  function WriteTail(tail: Option<(seq<Part>, Open)>): Chars {
    if tail.None? then [] else WriteParts(tail.value.0) + WriteOpen(tail.value.1)
  }

  function Write(s: Shape): Chars
    decreases |s.pieces|
  {
    if s.pieces == [] then WriteTail(s.tail) else WritePiece(s.pieces[0]) + Write(Shape(s.pieces[1..], s.tail))
  }

  // ---------------------------------------------------------------- what it says

  /** Between double quotes a backslash goes away only before a backslash or a double quote. */
  function SayInners(inners: seq<Inner>): Chars {
    if inners == [] then []
    else (if inners[0].Itself? || inners[0].c == 34 || inners[0].c == 92 then [inners[0].c] else [92, inners[0].c])
         + SayInners(inners[1..])
  }

  function SayPart(p: Part): Chars {
    match p
    case Plain(c) => [c]
    case Escaped(c) => [c]
    case InSingle(text) => text
    case InDouble(inners) => SayInners(inners)
  }

  function SayParts(parts: seq<Part>): Chars {
    if parts == [] then [] else SayPart(parts[0]) + SayParts(parts[1..])
  }

  function SayPieces(pieces: seq<Piece>): seq<Chars> {
    if pieces == [] then [] else
      (match pieces[0]
       case Space(_) => []
       case Operator(op) => [op]
       case Compound(parts) => [SayParts(parts)])
      + SayPieces(pieces[1..])
  }

  function Say(s: Shape): Lexed {
    Lexed(SayPieces(s.pieces),
          if s.tail.None? then None
          else if s.tail.value.1.OpenSingle? || s.tail.value.1.OpenDouble? then Some(NoClosingQuotation)
          else Some(NoEscapedCharacter))
  }

  // ---------------------------------------------------------------- the machine in single steps

  /** The state to return to after a backslash matters only after a backslash. */
  lemma {:induction false} ReturnState(input: Chars, state: State, token: Chars, quoted: bool, a: State, b: State)
    requires (state.Word? && (token != [] || quoted)) || state.Quoted?
    ensures Read(SHELL, input, state, token, quoted, a) == Read(SHELL, input, state, token, quoted, b)
    decreases |input|
  {
    hide Whitespace, IsQuote, WordChar;
    if input != [] {
      var c, rest := input[0], input[1..];
      if state.Quoted? {
        if c == state.quote {
          ReturnState(rest, Word, token, true, a, b);
        } else if c != BACKSLASH || state.quote != DOUBLE {
          ReturnState(rest, state, token + [c], true, a, b);
        }
      } else if !Whitespace(c) {
        if IsQuote(c) {
          ReturnState(rest, Quoted(c), token, quoted, a, b);
        } else if c != BACKSLASH && (WordChar(SHELL, c) || c !in SHELL.punctuation) {
          ReturnState(rest, Word, token + [c], quoted, a, b);
        }
      }
    }
  }

  /** The kinds of characters are those of the lexer with these options. */
  lemma Kinds(c: Char)
    ensures BlankChar(c) <==> Whitespace(c)
    ensures OperatorChar(c) <==> c in SHELL.punctuation
    ensures c == 39 || c == 34 <==> IsQuote(c)
    ensures SHELL.posix && SHELL.whitespaceSplit && SHELL.commenters == [] && SHELL.punctuation != []
  {
  }

  /** Reading on inside a word, with nothing to return to. */
  function InWord(input: Chars, token: Chars, quoted: bool): Reading
    requires token != [] || quoted
  {
    Read(SHELL, input, Word, token, quoted, Blank)
  }

  function Start(input: Chars): Reading { Read(SHELL, input, Blank, [], false, Blank) }

  lemma StepPlain(c: Char, rest: Chars, token: Chars, quoted: bool)
    requires PlainChar(c)
    ensures Start([c] + rest) == InWord(rest, [c], false)
    ensures token != [] || quoted ==> InWord([c] + rest, token, quoted) == InWord(rest, token + [c], quoted)
  {
    hide Whitespace, IsQuote, WordChar;
    Kinds(c);
    S.Cons(c, rest);
  }

  lemma StepEscaped(c: Char, rest: Chars, token: Chars, quoted: bool)
    ensures Start([92, c] + rest) == InWord(rest, [c], false)
    ensures token != [] || quoted ==> InWord([92, c] + rest, token, quoted) == InWord(rest, token + [c], quoted)
  {
    assert [92, c] + rest == [92] + ([c] + rest);
    S.Cons(92, [c] + rest);
    AfterBackslash(c, rest, [], false, Word);
    ReturnState(rest, Word, [c], false, Word, Blank);
    S.Ends([c]);
    if token != [] || quoted {
      AfterBackslash(c, rest, token, quoted, Word);
      ReturnState(rest, Word, token + [c], quoted, Word, Blank);
    }
  }

  /** One character after a backslash. */
  lemma AfterBackslash(c: Char, rest: Chars, token: Chars, quoted: bool, escaped: State)
    requires escaped.Word? || escaped == Quoted(34)
    ensures var kept := if escaped.Quoted? && c != 92 && c != 34 then [92, c] else [c];
            Read(SHELL, [c] + rest, Escape, token, quoted, escaped) == Read(SHELL, rest, escaped, token + kept, quoted, escaped)
  {
    S.Cons(c, rest);
  }

  lemma StepQuote(quote: Char, rest: Chars, token: Chars, quoted: bool)
    requires quote == 39 || quote == 34
    ensures Start([quote] + rest) == Read(SHELL, rest, Quoted(quote), [], false, Blank)
    ensures token != [] || quoted ==> InWord([quote] + rest, token, quoted) == Read(SHELL, rest, Quoted(quote), token, quoted, Blank)
  {
    hide WordChar;
    Kinds(quote);
    S.Cons(quote, rest);
    NotWordChar(quote);
  }

  lemma NotWordChar(quote: Char)
    requires quote == 39 || quote == 34
    ensures !WordChar(SHELL, quote) && !Whitespace(quote) && quote !in SHELL.punctuation
  {
  }

  lemma StepClose(quote: Char, rest: Chars, token: Chars, quoted: bool)
    requires quote == 39 || quote == 34
    ensures Read(SHELL, [quote] + rest, Quoted(quote), token, quoted, Blank) == InWord(rest, token, true)
  {
    S.Cons(quote, rest);
  }

  lemma StepInside(quote: Char, c: Char, rest: Chars, token: Chars, quoted: bool)
    requires (quote == 39 && c != 39) || (quote == 34 && c != 34 && c != 92)
    ensures Read(SHELL, [c] + rest, Quoted(quote), token, quoted, Blank)
         == Read(SHELL, rest, Quoted(quote), token + [c], true, Blank)
  {
    S.Cons(c, rest);
  }

  lemma StepSlashed(c: Char, rest: Chars, token: Chars, quoted: bool)
    ensures Read(SHELL, [92, c] + rest, Quoted(34), token, quoted, Blank)
         == Read(SHELL, rest, Quoted(34), token + (if c == 34 || c == 92 then [c] else [92, c]), true, Blank)
  {
    var kept := if c == 34 || c == 92 then [c] else [92, c];
    assert [92, c] + rest == [92] + ([c] + rest);
    S.Cons(92, [c] + rest);
    AfterBackslash(c, rest, token, true, Quoted(34));
    ReturnState(rest, Quoted(34), token + kept, true, Quoted(34), Blank);
  }

  // ---------------------------------------------------------------- quoted parts

  lemma {:induction false} ReadSingle(text: Chars, rest: Chars, token: Chars, quoted: bool)
    requires 39 !in text
    ensures Read(SHELL, text + rest, Quoted(39), token, quoted, Blank)
         == Read(SHELL, rest, Quoted(39), token + text, quoted || text != [], Blank)
    decreases |text|
  {
    hide Read;
    if text == [] {
      S.Ends(rest);
      S.Ends(token);
    } else {
      S.Assoc([text[0]], text[1..], rest);
      S.Head(text, []);
      StepInside(39, text[0], text[1..] + rest, token, quoted);
      ReadSingle(text[1..], rest, token + [text[0]], true);
      S.Assoc(token, [text[0]], text[1..]);
    }
  }

  lemma {:induction false} ReadDouble(inners: seq<Inner>, rest: Chars, token: Chars, quoted: bool)
    requires InnersOk(inners)
    ensures Read(SHELL, WriteInners(inners) + rest, Quoted(34), token, quoted, Blank)
         == Read(SHELL, rest, Quoted(34), token + SayInners(inners), quoted || inners != [], Blank)
    decreases |inners|
  {
    hide Read;
    if inners == [] {
      S.Ends(rest);
      S.Ends(token);
    } else {
      var i, more := inners[0], WriteInners(inners[1..]) + rest;
      var written := if i.Itself? then [i.c] else [92, i.c];
      var said := if i.Itself? || i.c == 34 || i.c == 92 then [i.c] else [92, i.c];
      assert InnerOk(i);
      S.Assoc(written, WriteInners(inners[1..]), rest);
      if i.Itself? { StepInside(34, i.c, more, token, quoted); } else { StepSlashed(i.c, more, token, quoted); }
      ReadDouble(inners[1..], rest, token + said, true);
      S.Assoc(token, said, SayInners(inners[1..]));
    }
  }

  // ---------------------------------------------------------------- words

  predicate Quotes(p: Part) { p.InSingle? || p.InDouble? }

  lemma QuotedPart(p: Part, rest: Chars, token: Chars, quoted: bool)
    requires PartOk(p) && Quotes(p)
    ensures var quote := if p.InSingle? then 39 else 34;
            && WritePart(p) + rest == [quote] + WritePart(p)[1..] + rest
            && Read(SHELL, WritePart(p)[1..] + rest, Quoted(quote), token, quoted, Blank) == InWord(rest, token + SayPart(p), true)
  {
    hide Read;
    var quote := if p.InSingle? then 39 else 34;
    var body := if p.InSingle? then p.text else WriteInners(p.inners);
    assert WritePart(p) == [quote] + body + [quote];
    assert WritePart(p)[1..] == body + [quote];
    S.Assoc(body, [quote], rest);
    if p.InSingle? {
      ReadSingle(p.text, [quote] + rest, token, quoted);
      StepClose(quote, rest, token + p.text, quoted || p.text != []);
    } else {
      ReadDouble(p.inners, [quote] + rest, token, quoted);
      StepClose(quote, rest, token + SayInners(p.inners), quoted || p.inners != []);
    }
  }

  lemma ReadPart(p: Part, rest: Chars, token: Chars, quoted: bool)
    requires PartOk(p)
    ensures SayPart(p) != [] || Quotes(p)
    ensures Start(WritePart(p) + rest) == InWord(rest, SayPart(p), Quotes(p))
    ensures token != [] || quoted ==> InWord(WritePart(p) + rest, token, quoted) == InWord(rest, token + SayPart(p), quoted || Quotes(p))
  {
    hide Read, InWord, Start;
    match p
    case Plain(c) => StepPlain(c, rest, token, quoted);
    case Escaped(c) => StepEscaped(c, rest, token, quoted);
    case _ =>
      var quote := if p.InSingle? then 39 else 34;
      QuotedPart(p, rest, [], false);
      QuotedPart(p, rest, token, quoted);
      S.Ends(SayPart(p));
      S.Assoc([quote], WritePart(p)[1..], rest);
      StepQuote(quote, WritePart(p)[1..] + rest, token, quoted);
  }

  predicate AnyQuotes(parts: seq<Part>) { exists k :: 0 <= k < |parts| && Quotes(parts[k]) }

  lemma {:induction false} ReadParts(parts: seq<Part>, rest: Chars, token: Chars, quoted: bool)
    requires PartsOk(parts) && (token != [] || quoted)
    ensures InWord(WriteParts(parts) + rest, token, quoted) == InWord(rest, token + SayParts(parts), quoted || AnyQuotes(parts))
    decreases |parts|
  {
    hide Read, InWord, Quotes;
    if parts == [] {
      S.Ends(rest);
      S.Ends(token);
    } else {
      var p := parts[0];
      S.Assoc(WritePart(p), WriteParts(parts[1..]), rest);
      ReadPart(p, WriteParts(parts[1..]) + rest, token, quoted);
      ReadParts(parts[1..], rest, token + SayPart(p), quoted || Quotes(p));
      S.Assoc(token, SayPart(p), SayParts(parts[1..]));
      FirstQuotes(parts);
    }
  }

  lemma FirstQuotes(parts: seq<Part>)
    requires parts != []
    ensures AnyQuotes(parts) <==> Quotes(parts[0]) || AnyQuotes(parts[1..])
  {
    if AnyQuotes(parts[1..]) {
      var k :| 0 <= k < |parts| - 1 && Quotes(parts[1..][k]);
      assert Quotes(parts[k + 1]);
    }
    if k :| 0 <= k < |parts| && Quotes(parts[k]) {
      assert k > 0 ==> Quotes(parts[1..][k - 1]);
    }
  }

  lemma ReadCompound(parts: seq<Part>, rest: Chars)
    requires PartsOk(parts) && parts != []
    ensures SayParts(parts) != [] || AnyQuotes(parts)
    ensures Start(WriteParts(parts) + rest) == InWord(rest, SayParts(parts), AnyQuotes(parts))
  {
    hide Read, InWord, Quotes, Start;
    S.Assoc(WritePart(parts[0]), WriteParts(parts[1..]), rest);
    ReadPart(parts[0], WriteParts(parts[1..]) + rest, [], false);
    ReadParts(parts[1..], rest, SayPart(parts[0]), Quotes(parts[0]));
    FirstQuotes(parts);
  }

  // ---------------------------------------------------------------- pieces

  /** Where a word ends: at the end, at a blank, or at an operator. */
  predicate EndsWord(rest: Chars) { rest == [] || BlankChar(rest[0]) || OperatorChar(rest[0]) }

  predicate EndsOperator(rest: Chars) { rest == [] || !OperatorChar(rest[0]) }

  lemma WordEnds(rest: Chars, token: Chars, quoted: bool)
    requires EndsWord(rest) && (token != [] || quoted)
    ensures InWord(rest, token, quoted)
         == if rest == [] then Token(token, quoted, Ended, [], [])
            else Token(token, quoted, Blank, if BlankChar(rest[0]) then rest[1..] else rest, [])
  {
    hide WordChar, Whitespace;
    if rest != [] {
      Kinds(rest[0]);
      if OperatorChar(rest[0]) { NotInWord(rest[0]); }
    }
  }

  lemma NotInWord(c: Char)
    requires OperatorChar(c)
    ensures !WordChar(SHELL, c) && !IsQuote(c) && c != BACKSLASH && !Whitespace(c) && c in SHELL.punctuation
  {
  }

  lemma LexNothing()
    ensures Lex(SHELL, []) == Lexed([], None)
  {
  }

  /** A blank between tokens does not matter. */
  lemma LexBlank(c: Char, rest: Chars)
    requires BlankChar(c)
    ensures Lex(SHELL, [c] + rest) == Lex(SHELL, rest)
  {
    Kinds(c);
    S.Cons(c, rest);
  }

  lemma LexSpace(rest: Chars)
    requires rest != [] && BlankChar(rest[0])
    ensures Lex(SHELL, rest) == Lex(SHELL, rest[1..])
  {
    S.Head(rest, []);
    LexBlank(rest[0], rest[1..]);
  }

  /** A word, and then the rest. */
  lemma LexWord(parts: seq<Part>, rest: Chars)
    requires PartsOk(parts) && parts != [] && EndsWord(rest)
    ensures Lex(SHELL, WriteParts(parts) + rest) == Before([SayParts(parts)], Lex(SHELL, rest))
  {
    hide Read, InWord, Quotes, AnyQuotes, BlankChar, WriteParts, SayParts, OperatorChar;
    ReadCompound(parts, rest);
    var text := WriteParts(parts) + rest;
    assert Start(text) == Read(SHELL, text, Blank, [], false, Blank);
    WordEnds(rest, SayParts(parts), AnyQuotes(parts));
    if rest == [] { LexNothing(); } else if BlankChar(rest[0]) { LexSpace(rest); }
  }

  lemma {:induction false} ReadOperator(op: Chars, rest: Chars, token: Chars)
    requires (forall k :: 0 <= k < |op| ==> OperatorChar(op[k])) && EndsOperator(rest) && token != []
    ensures Read(SHELL, op + rest, Punctuation, token, false, Blank)
         == if rest == [] then Token(token + op, false, Ended, [], [])
            else Token(token + op, false, Blank, if BlankChar(rest[0]) then rest[1..] else rest, [])
    decreases |op|
  {
    hide WordChar, Whitespace, BlankChar;
    if op == [] {
      S.Ends(rest);
      S.Ends(token);
      if rest != [] { Kinds(rest[0]); }
    } else {
      Kinds(op[0]);
      NotInWord(op[0]);
      S.Head(op, rest);
      S.Assoc([op[0]], op[1..], rest);
      ReadOperator(op[1..], rest, token + [op[0]]);
      S.Assoc(token, [op[0]], op[1..]);
      S.Head(op, []);
    }
  }

  /** An operator, all of it, and then the rest. */
  lemma LexOperator(op: Chars, rest: Chars)
    requires op != [] && (forall k :: 0 <= k < |op| ==> OperatorChar(op[k])) && EndsOperator(rest)
    ensures Lex(SHELL, op + rest) == Before([op], Lex(SHELL, rest))
  {
    hide BlankChar, OperatorChar, Whitespace, WordChar;
    StartOperator(op, rest);
    ReadOperator(op[1..], rest, [op[0]]);
    S.Head(op, []);
    hide Read;
    if rest == [] { LexNothing(); } else if BlankChar(rest[0]) { LexSpace(rest); }
  }

  lemma StartOperator(op: Chars, rest: Chars)
    requires op != [] && OperatorChar(op[0])
    ensures Read(SHELL, op + rest, Blank, [], false, Blank) == Read(SHELL, op[1..] + rest, Punctuation, [op[0]], false, Blank)
  {
    hide WordChar, Whitespace, OperatorChar;
    NotInWord(op[0]);
    S.Head(op, rest);
  }

  // ---------------------------------------------------------------- breaking off

  /** A word that is not finished is no token. */
  lemma LexOpen(parts: seq<Part>, o: Open)
    requires PartsOk(parts) && OpenOk(o)
    ensures Lex(SHELL, WriteParts(parts) + WriteOpen(o))
         == Lexed([], Some(if o.OpenSingle? || o.OpenDouble? then NoClosingQuotation else NoEscapedCharacter))
  {
    hide Read, InWord, Quotes, AnyQuotes;
    var rest := WriteOpen(o);
    if parts == [] {
      S.Ends(rest);
      OpenFails(o, [], false);
    } else {
      ReadCompound(parts, rest);
      OpenFails(o, SayParts(parts), AnyQuotes(parts));
    }
    var text := WriteParts(parts) + rest;
    assert Start(text) == Read(SHELL, text, Blank, [], false, Blank);
  }

  lemma OpenFails(o: Open, token: Chars, quoted: bool)
    requires OpenOk(o)
    ensures var error := if o.OpenSingle? || o.OpenDouble? then NoClosingQuotation else NoEscapedCharacter;
            && Start(WriteOpen(o)) == Failed(error)
            && (token != [] || quoted ==> InWord(WriteOpen(o), token, quoted) == Failed(error))
  {
    hide InWord, Start;
    match o
    case OpenSingle(text) =>
      StepQuote(39, text, token, quoted);
      S.Ends(text);
      ReadSingle(text, [], [], false);
      ReadSingle(text, [], token, quoted);
    case OpenDouble(inners) =>
      StepQuote(34, WriteInners(inners), token, quoted);
      S.Ends(WriteInners(inners));
      ReadDouble(inners, [], [], false);
      ReadDouble(inners, [], token, quoted);
    case Dangling => DanglingFails(token, quoted);
    case DanglingInDouble(inners) =>
      StepQuote(34, WriteInners(inners) + [92], token, quoted);
      ReadDouble(inners, [92], [], false);
      ReadDouble(inners, [92], token, quoted);
  }

  lemma DanglingFails(token: Chars, quoted: bool)
    ensures Start([92]) == Failed(NoEscapedCharacter)
    ensures token != [] || quoted ==> InWord([92], token, quoted) == Failed(NoEscapedCharacter)
  {
    S.Cons(92, []);
    S.Ends([92]);
  }

  // ---------------------------------------------------------------- whole texts

  /** What follows a piece ends it. */
  lemma NextEnds(s: Shape)
    requires WellFormed(s) && s.pieces != []
    ensures var rest := Write(Shape(s.pieces[1..], s.tail));
            && (s.pieces[0].Compound? ==> EndsWord(rest))
            && (s.pieces[0].Operator? ==> EndsOperator(rest))
  {
    hide PartOk, OpenOk, WriteInners;
    var p, more := s.pieces[0], s.pieces[1..];
    if more != [] {
      var next := s.pieces[1];
      assert more[0] == next && Apart(p, next) && PieceOk(next);
      PieceStarts(next);
    } else if s.tail.Some? {
      TailStarts(s.tail.value.0, s.tail.value.1);
    }
  }

  lemma PieceStarts(p: Piece)
    requires PieceOk(p)
    ensures WritePiece(p) != []
    ensures p.Space? ==> BlankChar(WritePiece(p)[0])
    ensures p.Operator? ==> OperatorChar(WritePiece(p)[0])
    ensures p.Compound? ==> !OperatorChar(WritePiece(p)[0]) && !BlankChar(WritePiece(p)[0])
  {
    if p.Compound? { assert PartOk(p.parts[0]); }
  }

  lemma TailStarts(parts: seq<Part>, o: Open)
    requires PartsOk(parts)
    ensures var text := WriteParts(parts) + WriteOpen(o);
            text != [] && !OperatorChar(text[0]) && !BlankChar(text[0])
  {
    if parts != [] { assert PartOk(parts[0]); }
  }

  lemma RestWellFormed(s: Shape)
    requires WellFormed(s) && s.pieces != []
    ensures WellFormed(Shape(s.pieces[1..], s.tail)) && PieceOk(s.pieces[0])
  {
    hide PieceOk, Apart, PartsOk, OpenOk;
    var rest := s.pieces[1..];
    assert forall k :: 0 <= k < |rest| ==> rest[k] == s.pieces[k + 1];
  }

  /** Every text of the grammar lexes to what it says: its words and operators in order, and the error where it breaks off. */
  lemma {:induction false} ShellLexesExactly(s: Shape)
    requires WellFormed(s)
    ensures Lex(SHELL, Write(s)) == Say(s)
    decreases |s.pieces|
  {
    hide Read, WellFormed, PartOk, OpenOk, WriteInners, Lex, SayParts, WriteParts, OperatorChar, BlankChar;
    if s.pieces == [] {
      if s.tail.None? { LexNothing(); } else { TailOk(s); LexOpen(s.tail.value.0, s.tail.value.1); }
    } else {
      var rest := Shape(s.pieces[1..], s.tail);
      RestWellFormed(s);
      NextEnds(s);
      ShellLexesExactly(rest);
      match s.pieces[0]
      case Space(c) => LexBlank(c, Write(rest)); S.Ends(SayPieces(rest.pieces));
      case Operator(op) => LexOperator(op, Write(rest));
      case Compound(parts) => LexWord(parts, Write(rest));
    }
  }

  lemma TailOk(s: Shape)
    requires WellFormed(s) && s.tail.Some?
    ensures PartsOk(s.tail.value.0) && OpenOk(s.tail.value.1)
  {
  }

  // ---------------------------------------------------------------- every text is of this form

  /** How a double-quoted part goes on: to its closing quote, to the end, or to a backslash at the end. */
  datatype Ending = Closed(rest: Chars) | Unclosed | AfterSlash

  lemma {:induction false} InnersOf(text: Chars) returns (inners: seq<Inner>, ending: Ending)
    ensures InnersOk(inners)
    ensures text == WriteInners(inners) + match ending case Closed(rest) => [34] + rest case Unclosed => [] case AfterSlash => [92]
    ensures ending.Closed? ==> |ending.rest| < |text|
    decreases |text|
  {
    if text == [] {
      return [], Unclosed;
    } else if text[0] == 34 {
      S.Head(text, []);
      return [], Closed(text[1..]);
    } else if text == [92] {
      return [], AfterSlash;
    }
    var first := if text[0] == 92 then Slashed(text[1]) else Itself(text[0]);
    var n := if text[0] == 92 then 2 else 1;
    var more;
    more, ending := InnersOf(text[n..]);
    inners := [first] + more;
    assert inners[1..] == more;
    assert text == text[..n] + text[n..];
  }

  /** The first part of a word, or where it breaks off. */
  lemma FirstPart(text: Chars) returns (part: Part, n: nat, open: Option<Open>)
    requires !EndsWord(text)
    ensures open.Some? ==> OpenOk(open.value) && text == WriteOpen(open.value)
    ensures open.None? ==> PartOk(part) && 1 <= n <= |text| && WritePart(part) == text[..n]
  {
    part, n, open := Escaped(text[0]), 0, None;
    S.Head(text, []);
    if text[0] == 39 {
      n := Find(text[1..], 39) + 2;
      if n > |text| {
        assert text[1..][..n - 2] == text[1..];
        open := Some(OpenSingle(text[1..]));
      } else {
        part := InSingle(text[1..n - 1]);
        assert text[1..][..n - 2] == text[1..n - 1];
      }
    } else if text[0] == 34 {
      part, n, open := FirstDouble(text);
    } else if text[0] == 92 {
      if |text| == 1 { open := Some(Dangling); } else { part, n := Escaped(text[1]), 2; }
    } else {
      part, n := Plain(text[0]), 1;
    }
  }

  lemma FirstDouble(text: Chars) returns (part: Part, n: nat, open: Option<Open>)
    requires text != [] && text[0] == 34
    ensures open.Some? ==> OpenOk(open.value) && text == WriteOpen(open.value)
    ensures open.None? ==> PartOk(part) && 1 <= n <= |text| && WritePart(part) == text[..n]
  {
    var inners, ending := InnersOf(text[1..]);
    hide WriteInners;
    S.Head(text, []);
    part, n, open := InDouble(inners), 0, None;
    match ending
    case Unclosed => open := Some(OpenDouble(inners));
    case AfterSlash => open := Some(DanglingInDouble(inners));
    case Closed(rest) =>
      n := |text| - |rest|;
      assert text == WritePart(part) + rest;
  }

  lemma {:induction false} PartsOf(text: Chars) returns (parts: seq<Part>, open: Option<Open>, rest: Chars)
    ensures PartsOk(parts) && (open.Some? ==> OpenOk(open.value) && rest == [])
    ensures text == WriteParts(parts) + (if open.Some? then WriteOpen(open.value) else rest)
    ensures open.None? ==> EndsWord(rest) && (!EndsWord(text) ==> parts != [] && |rest| < |text|)
    decreases |text|
  {
    hide EndsWord, WriteOpen, PartOk, OpenOk, WritePart;
    if EndsWord(text) { return [], None, text; }
    var part, n;
    part, n, open := FirstPart(text);
    if open.Some? { return [], open, []; }
    var more;
    more, open, rest := PartsOf(text[n..]);
    parts := [part] + more;
    assert parts[1..] == more;
    assert text == text[..n] + text[n..];
  }

  lemma OneMorePiece(p: Piece, s: Shape)
    requires PieceOk(p) && WellFormed(s)
    requires p.Compound? ==> EndsWord(Write(s))
    requires p.Operator? ==> EndsOperator(Write(s))
    ensures WellFormed(Shape([p] + s.pieces, s.tail)) && Write(Shape([p] + s.pieces, s.tail)) == WritePiece(p) + Write(s)
  {
    hide WriteInners, PartOk, OpenOk;
    var all := [p] + s.pieces;
    assert all[1..] == s.pieces;
    if s.pieces != [] {
      PieceStarts(s.pieces[0]);
      assert Apart(p, s.pieces[0]);
      forall k | 0 < k < |all| ensures Apart(all[k - 1], all[k]) {
        assert k > 1 ==> Apart(s.pieces[k - 2], s.pieces[k - 1]);
      }
    } else if s.tail.Some? {
      TailStarts(s.tail.value.0, s.tail.value.1);
    }
  }

  function OperatorLength(text: Chars): (n: nat)
    ensures n <= |text| && (forall k :: 0 <= k < n ==> OperatorChar(text[k])) && EndsOperator(text[n..])
  {
    if text == [] || !OperatorChar(text[0]) then 0 else 1 + OperatorLength(text[1..])
  }

  /** Every text is blanks, operators and words in a row, and may break off inside a word. */
  lemma {:induction false} EveryTextHasShape(text: Chars) returns (s: Shape)
    ensures WellFormed(s) && Write(s) == text
    decreases |text|
  {
    hide WellFormed, WriteInners, PartOk, OpenOk;
    if text == [] {
      s := Shape([], None);
      assert WellFormed(s) by { NothingWellFormed(); }
    } else if BlankChar(text[0]) {
      var more := EveryTextHasShape(text[1..]);
      OneMorePiece(Space(text[0]), more);
      s := Shape([Space(text[0])] + more.pieces, more.tail);
    } else if OperatorChar(text[0]) {
      var n := OperatorLength(text);
      var more := EveryTextHasShape(text[n..]);
      OneMorePiece(Operator(text[..n]), more);
      s := Shape([Operator(text[..n])] + more.pieces, more.tail);
      assert text == text[..n] + text[n..];
    } else {
      var parts, open, rest := PartsOf(text);
      if open.Some? {
        s := Shape([], Some((parts, open.value)));
        assert WellFormed(s) by { OpenWellFormed(parts, open.value); }
      } else {
        var more := EveryTextHasShape(rest);
        OneMorePiece(Compound(parts), more);
        s := Shape([Compound(parts)] + more.pieces, more.tail);
      }
    }
  }

  lemma NothingWellFormed()
    ensures WellFormed(Shape([], None))
  {
  }

  lemma OpenWellFormed(parts: seq<Part>, o: Open)
    requires PartsOk(parts) && OpenOk(o)
    ensures WellFormed(Shape([], Some((parts, o))))
  {
  }

  /** A text lexes without error exactly if it is finished, and in one way only. */
  lemma ShellAcceptsExactly(text: Chars)
    ensures Lex(SHELL, text).failure.None? <==> exists s :: WellFormed(s) && s.tail.None? && Write(s) == text
    ensures forall a, b :: WellFormed(a) && WellFormed(b) && Write(a) == text == Write(b) ==> Say(a) == Say(b)
  {
    hide WellFormed, Write, Lex, SayPieces;
    var shape := EveryTextHasShape(text);
    ShellLexesExactly(shape);
    forall s | WellFormed(s) && Write(s) == text ensures Lex(SHELL, text) == Say(s) {
      ShellLexesExactly(s);
    }
  }

  // ---------------------------------------------------------------- commands joined by operators

  predicate Blanked(gap: Chars) { forall k :: 0 <= k < |gap| ==> BlankChar(gap[k]) }

  lemma {:induction false} LexGap(gap: Chars, rest: Chars)
    requires Blanked(gap)
    ensures Lex(SHELL, gap + rest) == Lex(SHELL, rest)
    decreases |gap|
  {
    if gap == [] {
      S.Ends(rest);
    } else {
      S.Assoc([gap[0]], gap[1..], rest);
      S.Head(gap, []);
      LexBlank(gap[0], gap[1..] + rest);
      LexGap(gap[1..], rest);
    }
  }

  /** An operator after a word, with or without blanks around it, is one token, and so are its neighbours. */
  lemma OperatorBetween(a: seq<Part>, gap: Chars, op: Chars, gapAfter: Chars, rest: Chars)
    requires PartsOk(a) && a != [] && Blanked(gap) && Blanked(gapAfter)
    requires op != [] && (forall k :: 0 <= k < |op| ==> OperatorChar(op[k])) && EndsOperator(gapAfter + rest)
    ensures Lex(SHELL, WriteParts(a) + (gap + (op + (gapAfter + rest)))) == Before([SayParts(a), op], Lex(SHELL, rest))
  {
    hide Lex, WriteParts, SayParts, PartOk;
    LexWord(a, gap + (op + (gapAfter + rest)));
    LexGap(gap, op + (gapAfter + rest));
    LexOperator(op, gapAfter + rest);
    LexGap(gapAfter, rest);
    S.Assoc([SayParts(a)], [op], Lex(SHELL, rest).tokens);
    assert [SayParts(a)] + [op] == [SayParts(a), op];
  }

  /** `a&&b` and `a && b` are three tokens. */
  lemma TwoCommands()
    ensures Lex(SHELL, [97, 38, 38, 98]) == Lexed([[97], [38, 38], [98]], None)
    ensures Lex(SHELL, [97, 32, 38, 38, 32, 98]) == Lexed([[97], [38, 38], [98]], None)
  {
    hide Lex;
    var a, b: Chars := [Plain(97)], [98];
    WriteOne(97);
    WriteOne(98);
    LexNothing();
    LexWord([Plain(98)], []);
    OperatorBetween(a, [], [38, 38], [], b);
    OperatorBetween(a, [32], [38, 38], [32], b);
    assert [97] + ([] + ([38, 38] + ([] + b))) == [97, 38, 38, 98];
    assert [97] + ([32] + ([38, 38] + ([32] + b))) == [97, 32, 38, 38, 32, 98];
    assert b + [] == b;
  }

  lemma WriteOne(c: Char)
    ensures WriteParts([Plain(c)]) == [c] && SayParts([Plain(c)]) == [c]
  {
    assert [Plain(c)][1..] == [];
    S.Ends([c]);
  }
}
