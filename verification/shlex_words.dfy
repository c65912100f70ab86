/**
 What the two callers of the lexer rely on (packages/mcp/src/research/shlex.ts, lines 29 to 177, called
 from packages/mcp/src/research/sandbox-validate.ts, lines 125 and 220): splitting without processing
 loses nothing but blanks, and a quoted word reads back as that word.
 */
module ShlexWords {
  import opened Wrappers
  import opened Shlex
  import S = Sequences

  // ---------------------------------------------------------------- non-posix, split on blanks

  const PLAIN := Options(false, [], true, [])

  function Blanks(text: Chars): (n: nat)
    ensures n <= |text|
    ensures forall i :: 0 <= i < n ==> Whitespace(text[i])
    ensures n < |text| ==> !Whitespace(text[n])
  {
    if text != [] && Whitespace(text[0]) then 1 + Blanks(text[1..]) else 0
  }

  function WordLength(text: Chars): (n: nat)
    ensures n <= |text|
    ensures forall i :: 0 <= i < n ==> !Whitespace(text[i])
    ensures n < |text| ==> Whitespace(text[n])
  {
    if text != [] && !Whitespace(text[0]) then 1 + WordLength(text[1..]) else 0
  }

  function Find(text: Chars, c: Char): (n: nat)
    ensures n <= |text|
    ensures c !in text[..n]
    ensures n < |text| ==> text[n] == c
  {
    if text != [] && text[0] != c then 1 + Find(text[1..], c) else 0
  }

  /**
   The simple form: blanks are skipped; a piece that begins with a quote runs to the next such quote, any
   other piece to the next blank.
   */
  function Pieces(text: Chars): Lexed
    decreases |text|
  {
    var rest := text[Blanks(text)..];
    if rest == [] then Lexed([], None)
    else if IsQuote(rest[0]) then
      var n := Find(rest[1..], rest[0]) + 2;
      if n > |rest| then Lexed([], Some(NoClosingQuotation))
      else Before([rest[..n]], Pieces(rest[n..]))
    else
      var n := WordLength(rest);
      if n == |rest| then Lexed([rest], None) else Before([rest[..n]], Pieces(rest[n + 1..]))
  }

  lemma {:induction false} ReadPlainWord(text: Chars, token: Chars)
    requires token != []
    ensures var n := WordLength(text);
            Read(PLAIN, text, Word, token, false, Blank)
            == if n == |text| then Token(token + text, false, Ended, [], [])
               else Token(token + text[..n], false, Blank, text[n + 1..], [])
    decreases |text|
  {
    if text == [] || Whitespace(text[0]) {
      S.Ends(token);
    } else {
      ReadPlainWord(text[1..], token + [text[0]]);
      var n := WordLength(text);
      S.Snoc(token, text[0], text[1..]);
      S.Snoc(token, text[0], text[1..n]);
      assert [text[0]] + text[1..] == text && [text[0]] + text[1..n] == text[..n];
      assert text[1..][..n - 1] == text[1..n];
      if n < |text| { S.DropDrop(text, 1, n); }
    }
  }

  lemma {:induction false} ReadPlainQuoted(text: Chars, quote: Char, token: Chars, quoted: bool)
    requires token != []
    ensures var n := Find(text, quote);
            Read(PLAIN, text, Quoted(quote), token, quoted, Blank)
            == if n == |text| then Failed(NoClosingQuotation)
               else Token(token + text[..n + 1], true, Blank, text[n + 1..], [])
    decreases |text|
  {
    if text == [] {
    } else if text[0] == quote {
      assert text[..1] == [quote];
    } else {
      ReadPlainQuoted(text[1..], quote, token + [text[0]], true);
      var n := Find(text, quote);
      if n < |text| {
        S.Snoc(token, text[0], text[1..n + 1]);
        assert [text[0]] + text[1..n + 1] == text[..n + 1];
        assert text[1..][..n] == text[1..n + 1];
        S.DropDrop(text, 1, n);
      }
    }
  }

  lemma {:induction false} ReadPlainBlanks(text: Chars)
    ensures Read(PLAIN, text, Blank, [], false, Blank) == Read(PLAIN, text[Blanks(text)..], Blank, [], false, Blank)
    decreases |text|
  {
    if text != [] && Whitespace(text[0]) {
      ReadPlainBlanks(text[1..]);
      S.DropDrop(text, 1, Blanks(text) - 1);
    } else {
      S.Ends(text);
    }
  }

  /** The first token, from its first character on. */
  lemma ReadPlainFirst(rest: Chars)
    requires rest != [] && !Whitespace(rest[0])
    ensures Read(PLAIN, rest, Blank, [], false, Blank)
         == if IsQuote(rest[0]) then Read(PLAIN, rest[1..], Quoted(rest[0]), [rest[0]], false, Blank)
            else Read(PLAIN, rest[1..], Word, [rest[0]], false, Blank)
  {
  }

  lemma ReadPlainPiece(c: Char, more: Chars)
    requires !Whitespace(c) && IsQuote(c)
    ensures var n := Find(more, c);
            Read(PLAIN, [c] + more, Blank, [], false, Blank)
            == if n == |more| then Failed(NoClosingQuotation)
               else Token([c] + more[..n + 1], true, Blank, more[n + 1..], [])
  {
    hide Read, Whitespace, Find;
    S.Cons(c, more);
    ReadPlainFirst([c] + more);
    ReadPlainQuoted(more, c, [c], false);
  }

  lemma ReadUnquotedPiece(c: Char, more: Chars)
    requires !Whitespace(c) && !IsQuote(c)
    ensures var n := WordLength(more);
            Read(PLAIN, [c] + more, Blank, [], false, Blank)
            == if n == |more| then Token([c] + more, false, Ended, [], [])
               else Token([c] + more[..n], false, Blank, more[n + 1..], [])
  {
    hide Read, Whitespace, WordLength;
    S.Cons(c, more);
    ReadPlainFirst([c] + more);
    ReadPlainWord(more, [c]);
  }

  lemma OneMoreLetter(rest: Chars)
    requires rest != [] && !Whitespace(rest[0])
    ensures WordLength(rest) == WordLength(rest[1..]) + 1
  {
  }

  /** The first token of a text that begins with one. */
  lemma ReadPiece(rest: Chars)
    requires rest != [] && !Whitespace(rest[0])
    ensures var r := Read(PLAIN, rest, Blank, [], false, Blank);
            var q, w := Find(rest[1..], rest[0]) + 2, WordLength(rest);
            r == if IsQuote(rest[0]) then
                   if q > |rest| then Failed(NoClosingQuotation) else Token(rest[..q], true, Blank, rest[q..], [])
                 else if w == |rest| then Token(rest, false, Ended, [], [])
                 else Token(rest[..w], false, Blank, rest[w + 1..], [])
  {
    hide Read, Whitespace, Find, IsQuote, WordLength;
    var c, more := rest[0], rest[1..];
    S.Head(rest, []);
    if IsQuote(c) {
      ReadPlainPiece(c, more);
      if Find(more, c) < |more| { S.HeadTake(rest, Find(more, c) + 2); }
    } else {
      ReadUnquotedPiece(c, more);
      var n := WordLength(more);
      OneMoreLetter(rest);
      if n < |more| {
        S.HeadTake(rest, n + 1);
        S.DropDrop(rest, 1, n + 1);
      }
    }
  }

  /** One step of the generator, for a token without a character put back. */
  lemma LexFirst(o: Options, text: Chars, r: Reading)
    requires r == Read(o, text, Blank, [], false, Blank) && (r.Token? ==> r.token != [] && r.pushed == [])
    ensures r.Failed? ==> Lex(o, text) == Lexed([], Some(r.error))
    ensures r.Token? && r.state.Ended? ==> Lex(o, text) == Lexed([r.token], None)
    ensures r.Token? && !r.state.Ended? ==> Lex(o, text) == Before([r.token], Lex(o, r.input))
  {
    hide Read;
    if r.Token? { S.Ends([r.token]); }
  }

  /** Without posix processing the machine is the simple splitter, errors included. */
  lemma {:induction false} PlainIsPieces(text: Chars)
    ensures Lex(PLAIN, text) == Pieces(text)
    decreases |text|
  {
    hide Read, Find, WordLength, Whitespace, Blanks, IsQuote, Lex;
    ReadPlainBlanks(text);
    var rest := text[Blanks(text)..];
    if rest == [] {
      ReadAtEnd(PLAIN, Blank, [], false, Blank);
      LexNext(PLAIN, text, Blank);
    } else {
      ReadPiece(rest);
      LexFirst(PLAIN, text, Read(PLAIN, rest, Blank, [], false, Blank));
      if IsQuote(rest[0]) {
        var n := Find(rest[1..], rest[0]) + 2;
        if n <= |rest| { PlainIsPieces(rest[n..]); }
      } else {
        var n := WordLength(rest);
        if n < |rest| { PlainIsPieces(rest[n + 1..]); }
      }
    }
  }

  /** `text` is the tokens in order with nothing but blanks before, between and after them. */
  ghost predicate Weaves(tokens: seq<Chars>, text: Chars)
    decreases |tokens|
  {
    var n := Blanks(text);
    if tokens == [] then n == |text|
    else
      && tokens[0] != [] && n + |tokens[0]| <= |text| && text[n..n + |tokens[0]|] == tokens[0]
      && Weaves(tokens[1..], text[n + |tokens[0]|..])
  }

  lemma WeavesAfterBlank(tokens: seq<Chars>, text: Chars)
    requires text != [] && Whitespace(text[0]) && Weaves(tokens, text[1..])
    ensures Weaves(tokens, text)
  {
    hide Whitespace, Blanks;
    var n := Blanks(text[1..]);
    OneMoreBlank(text);
    if tokens != [] {
      var m := n + |tokens[0]|;
      assert text[1..][n..m] == tokens[0];
      MiddleOfRest(text, n, m);
      WeavesStep(tokens, text, n + 1);
    }
  }

  lemma OneMoreBlank(text: Chars)
    requires text != [] && Whitespace(text[0])
    ensures Blanks(text) == Blanks(text[1..]) + 1
  {
  }

  lemma MiddleOfRest(text: Chars, n: nat, m: nat)
    requires n <= m && m < |text|
    ensures text[1..][n..m] == text[n + 1..m + 1] && text[1..][m..] == text[m + 1..]
  {
  }

  lemma WeavesStep(tokens: seq<Chars>, text: Chars, n: nat)
    requires tokens != [] && n == Blanks(text) && tokens[0] != [] && n + |tokens[0]| <= |text|
    requires text[n..n + |tokens[0]|] == tokens[0] && Weaves(tokens[1..], text[n + |tokens[0]|..])
    ensures Weaves(tokens, text)
  {
    hide Blanks;
  }

  /** Splitting loses nothing but blanks outside the tokens. */
  lemma {:induction false} PiecesRebuild(text: Chars)
    requires Pieces(text).failure.None?
    ensures Weaves(Pieces(text).tokens, text)
    decreases |text|
  {
    hide Find, WordLength, Weaves, Whitespace, Blanks;
    var b := Blanks(text);
    var rest := text[b..];
    NothingWoven(text);
    if rest != [] {
      if IsQuote(rest[0]) {
        var n := Find(rest[1..], rest[0]) + 2;
        PiecesRebuild(rest[n..]);
        PieceThenRest(text, b, n, Pieces(rest[n..]).tokens);
      } else {
        var n := WordLength(rest);
        if n < |rest| {
          PiecesRebuild(rest[n + 1..]);
          S.DropDrop(rest, n, 1);
          WeavesAfterBlank(Pieces(rest[n + 1..]).tokens, rest[n..]);
          PieceThenRest(text, b, n, Pieces(rest[n + 1..]).tokens);
        } else {
          S.Ends(rest);
          S.Ends([rest]);
          NothingWoven([]);
          PieceThenRest(text, b, n, []);
        }
      }
    }
  }

  lemma NothingWoven(text: Chars)
    ensures Weaves([], text) <==> Blanks(text) == |text|
    ensures Blanks([]) == 0
  {
  }

  lemma PieceThenRest(text: Chars, b: nat, n: nat, tokens: seq<Chars>)
    requires b == Blanks(text) && 1 <= n <= |text| - b && Weaves(tokens, text[b..][n..])
    ensures Weaves([text[b..][..n]] + tokens, text)
  {
    S.DropDrop(text, b, n);
    S.Cons(text[b..b + n], tokens);
  }

  /** In non-posix mode, tokens and skipped blanks rebuild every text that lexes. */
  lemma PlainRebuilds(text: Chars)
    requires Lex(PLAIN, text).failure.None?
    ensures Weaves(Lex(PLAIN, text).tokens, text)
  {
    PlainIsPieces(text);
    PiecesRebuild(text);
  }

  // ---------------------------------------------------------------- posix, with punctuation

  /** `";&|()<>"` */
  const SHELL := Options(true, [59, 38, 124, 40, 41, 60, 62], true, [])

  /** A word between single quotes; a single quote inside it leaves the quotes and is escaped. */
  function QuoteBody(word: Chars): Chars {
    if word == [] then []
    else (if word[0] == SINGLE then [SINGLE, BACKSLASH, SINGLE, SINGLE] else [word[0]]) + QuoteBody(word[1..])
  }

  function ShellQuote(word: Chars): Chars { [SINGLE] + QuoteBody(word) + [SINGLE] }

  lemma {:induction false} NoQuoteInside(word: Chars)
    requires SINGLE !in word
    ensures QuoteBody(word) == word
  {
    if word != [] {
      NoQuoteInside(word[1..]);
      S.Head(word, []);
    }
  }

  function ShellJoin(words: seq<Chars>): Chars {
    if words == [] then []
    else if |words| == 1 then ShellQuote(words[0])
    else ShellQuote(words[0]) + [SPACE] + ShellJoin(words[1..])
  }

  /** A word that is over: the input ends, or a space follows. */
  function Done(token: Chars, rest: Chars): Reading {
    if rest == [] then Token(token, true, Ended, [], []) else Token(token, true, Blank, rest[1..], [])
  }

  lemma ReadEnd(token: Chars, rest: Chars, escaped: State)
    requires rest == [] || rest[0] == SPACE
    ensures Read(SHELL, rest, Word, token, true, escaped) == Done(token, rest)
  {
  }

  /** One character between single quotes. */
  lemma ReadOne(c: Char, rest: Chars, token: Chars, quoted: bool, escaped: State)
    requires c != SINGLE
    ensures Read(SHELL, [c] + rest, Quoted(SINGLE), token, quoted, escaped)
         == Read(SHELL, rest, Quoted(SINGLE), token + [c], true, escaped)
  {
    S.Cons(c, rest);
  }

  lemma ReadClose(rest: Chars, token: Chars, quoted: bool, escaped: State)
    ensures Read(SHELL, [SINGLE] + rest, Quoted(SINGLE), token, quoted, escaped) == Read(SHELL, rest, Word, token, true, escaped)
  {
    S.Cons(SINGLE, rest);
  }

  /** An escaped single quote outside the quotes, and back in. */
  lemma ReadEscapedQuote(rest: Chars, token: Chars, quoted: bool, escaped: State)
    ensures Read(SHELL, [SINGLE, BACKSLASH, SINGLE, SINGLE] + rest, Quoted(SINGLE), token, quoted, escaped)
         == Read(SHELL, rest, Quoted(SINGLE), token + [SINGLE], true, Word)
  {
    var a, b := [BACKSLASH, SINGLE, SINGLE] + rest, [SINGLE, SINGLE] + rest;
    S.Assoc([SINGLE], [BACKSLASH, SINGLE, SINGLE], rest);
    assert [SINGLE] + [BACKSLASH, SINGLE, SINGLE] == [SINGLE, BACKSLASH, SINGLE, SINGLE];
    ReadClose(a, token, quoted, escaped);
    assert a == [BACKSLASH] + b;
    ReadInWord(SHELL, BACKSLASH, b, token, true, escaped);
    assert b == [SINGLE] + ([SINGLE] + rest);
    ReadAfterBackslash([SINGLE] + rest, token);
    ReadInWord(SHELL, SINGLE, rest, token + [SINGLE], true, Word);
  }

  lemma ReadAfterBackslash(rest: Chars, token: Chars)
    ensures Read(SHELL, [SINGLE] + rest, Escape, token, true, Word) == Read(SHELL, rest, Word, token + [SINGLE], true, Word)
  {
    S.Cons(SINGLE, rest);
  }

  /** The rest of a quoted word, whatever characters it has. */
  lemma {:induction false} ReadQuotedWord(word: Chars, rest: Chars, token: Chars, quoted: bool, escaped: State)
    requires rest == [] || rest[0] == SPACE
    ensures Read(SHELL, QuoteBody(word) + ([SINGLE] + rest), Quoted(SINGLE), token, quoted, escaped) == Done(token + word, rest)
    decreases |word|
  {
    hide Read, Done;
    if word == [] {
      S.Ends([SINGLE] + rest);
      S.Ends(token);
      ReadClose(rest, token, quoted, escaped);
      ReadEnd(token, rest, escaped);
    } else {
      var c, more := word[0], QuoteBody(word[1..]) + ([SINGLE] + rest);
      var front := if c == SINGLE then [SINGLE, BACKSLASH, SINGLE, SINGLE] else [c];
      S.Assoc(front, QuoteBody(word[1..]), [SINGLE] + rest);
      if c == SINGLE {
        ReadEscapedQuote(more, token, quoted, escaped);
        ReadQuotedWord(word[1..], rest, token + [c], true, Word);
      } else {
        ReadOne(c, more, token, quoted, escaped);
        ReadQuotedWord(word[1..], rest, token + [c], true, escaped);
      }
      S.Snoc(token, c, word[1..]);
      S.Head(word, []);
    }
  }

  lemma ReadOpen(rest: Chars)
    ensures Read(SHELL, [SINGLE] + rest, Blank, [], false, Blank) == Read(SHELL, rest, Quoted(SINGLE), [], false, Blank)
  {
    S.Cons(SINGLE, rest);
  }

  lemma ReadShellWord(word: Chars, rest: Chars)
    requires rest == [] || rest[0] == SPACE
    ensures Read(SHELL, ShellQuote(word) + rest, Blank, [], false, Blank) == Done(word, rest)
  {
    hide Read, Done;
    S.Assoc([SINGLE] + QuoteBody(word), [SINGLE], rest);
    S.Assoc([SINGLE], QuoteBody(word), [SINGLE] + rest);
    ReadOpen(QuoteBody(word) + ([SINGLE] + rest));
    ReadQuotedWord(word, rest, [], false, Blank);
    S.Ends(word);
  }

  /** Quoting words and joining them with spaces is undone by lexing: any words, empty ones and quotes included. */
  lemma {:induction false} ShellRoundTrip(words: seq<Chars>)
    ensures Lex(SHELL, ShellJoin(words)) == Lexed(words, None)
    decreases |words|
  {
    hide Read;
    if words == [] {
      ReadAtEnd(SHELL, Blank, [], false, Blank);
    } else if |words| == 1 {
      ReadShellWord(words[0], []);
      S.Ends(ShellQuote(words[0]));
    } else {
      var rest := ShellJoin(words[1..]);
      S.Assoc(ShellQuote(words[0]), [SPACE], rest);
      ReadShellWord(words[0], [SPACE] + rest);
      S.Cons(SPACE, rest);
      ShellRoundTrip(words[1..]);
      S.Head(words, []);
    }
  }
}
