/**
 The shell-style lexer (packages/mcp/src/research/shlex.ts).

 `Read` is the state machine of one token as a function of the input that is left; the class below is
 the source's mutable machine, proved to compute it. Characters are Unicode code points.
 */
module Shlex {
  import opened Wrappers
  import S = Sequences

  type Char = nat
  type Chars = seq<Char>

  datatype Options = Options(posix: bool, punctuation: Chars, whitespaceSplit: bool, commenters: Chars)

  const SPACE: Char := 32
  const NEWLINE: Char := 10
  const SINGLE: Char := 39
  const DOUBLE: Char := 34
  const BACKSLASH: Char := 92

  predicate Whitespace(c: Char) { c == SPACE || c == 9 || c == 13 || c == NEWLINE }

  predicate IsQuote(c: Char) { c == SINGLE || c == DOUBLE }

  predicate AsciiWord(c: Char) { 97 <= c <= 122 || 65 <= c <= 90 || 48 <= c <= 57 || c == 95 }

  /** The Latin-1 letters that belong to words in posix mode. */
  predicate LatinWord(c: Char) { 0xDF <= c <= 0xF6 || 0xF8 <= c <= 0xFF || 0xC0 <= c <= 0xD6 || 0xD8 <= c <= 0xDE }

  predicate WordChar(o: Options, c: Char) {
    && (AsciiWord(c) || (o.posix && LatinWord(c))
        || (o.punctuation != [] && c in [126, 45, 46, 47, 42, 63, 61]))
    && c !in o.punctuation
  }

  /** `Ended`, " ", an open quote, after a backslash, "a" and "c". */
  datatype State = Ended | Blank | Quoted(quote: Char) | Escape | Word | Punctuation

  datatype LexError = NoClosingQuotation | NoEscapedCharacter

  /** A token, the state and input it leaves, and a character put back as a token of its own. */
  datatype Reading =
    | Failed(error: LexError)
    | Token(token: Chars, quoted: bool, state: State, input: Chars, pushed: Chars)

  function AfterLine(input: Chars): (rest: Chars)
    ensures |rest| <= |input|
  {
    if input == [] then [] else if input[0] == NEWLINE then input[1..] else AfterLine(input[1..])
  }

  /** A token, even an empty one, has begun. */
  predicate Begun(o: Options, token: Chars, quoted: bool) { token != [] || (o.posix && quoted) }

  /**
   What is known in each state of one call: between tokens nothing has begun, inside a word something has.
   The source tests this again at the end of a word; it never finds it false there.
   */
  predicate Consistent(o: Options, state: State, token: Chars, quoted: bool, escaped: State) {
    match state
    case Ended => true
    case Blank => token == [] && !quoted
    case Quoted(_) => o.posix || token != []
    case Escape => o.posix && (escaped.Word? || escaped.Quoted?)
    case Word => Begun(o, token, quoted)
    case Punctuation => token != [] && o.punctuation != []
  }

  /** `read_token`, from any point inside it. */
  function Read(o: Options, input: Chars, state: State, token: Chars, quoted: bool, escaped: State): (r: Reading)
    requires Consistent(o, state, token, quoted, escaped)
    ensures r.Token? ==> |r.input| <= |input| && (state.Blank? && input != [] ==> |r.input| < |input|)
    ensures r.Token? ==> (r.state.Blank? || r.state.Ended?) && (r.state.Ended? && !state.Ended? ==> r.input == [])
    decreases |input|
  {
    if input == [] then
      match state
      case Quoted(_) => Failed(NoClosingQuotation)
      case Escape => Failed(NoEscapedCharacter)
      case Ended => Token([], quoted, Ended, [], [])
      case _ => Token(token, quoted, Ended, [], [])
    else
      var c, rest := input[0], input[1..];
      if state.Ended? then Token([], quoted, Ended, rest, [])
      else if state.Blank? then
        if Whitespace(c) then Read(o, rest, Blank, token, quoted, escaped)
        else if c in o.commenters then Read(o, AfterLine(rest), Blank, token, quoted, escaped)
        else if o.posix && c == BACKSLASH then Read(o, rest, Escape, token, quoted, Word)
        else if WordChar(o, c) then Read(o, rest, Word, [c], quoted, escaped)
        else if c in o.punctuation then Read(o, rest, Punctuation, [c], quoted, escaped)
        else if IsQuote(c) then Read(o, rest, Quoted(c), if o.posix then token else [c], quoted, escaped)
        else if o.whitespaceSplit then Read(o, rest, Word, [c], quoted, escaped)
        else Token([c], quoted, Blank, rest, [])
      else if state.Quoted? then
        if c == state.quote then
          if o.posix then Read(o, rest, Word, token, true, escaped) else Token(token + [c], true, Blank, rest, [])
        else if o.posix && c == BACKSLASH && state.quote == DOUBLE then Read(o, rest, Escape, token, true, state)
        else Read(o, rest, state, token + [c], true, escaped)
      else if state.Escape? then
        var kept := if escaped.Quoted? && c != BACKSLASH && c != escaped.quote then [BACKSLASH, c] else [c];
        Read(o, rest, escaped, token + kept, quoted, escaped)
      else if Whitespace(c) then Token(token, quoted, Blank, rest, [])
      else if c in o.commenters then
        if o.posix then Token(token, quoted, Blank, AfterLine(rest), [])
        else Read(o, AfterLine(rest), state, token, quoted, escaped)
      else if state.Punctuation? then
        if c in o.punctuation then Read(o, rest, state, token + [c], quoted, escaped)
        else Token(token, quoted, Blank, input, [])
      else if o.posix && IsQuote(c) then Read(o, rest, Quoted(c), token, quoted, escaped)
      else if o.posix && c == BACKSLASH then Read(o, rest, Escape, token, quoted, Word)
      else if WordChar(o, c) || IsQuote(c) || (o.whitespaceSplit && c !in o.punctuation) then
        Read(o, rest, state, token + [c], quoted, escaped)
      else if o.punctuation != [] then Token(token, quoted, Blank, input, [])
      else Token(token, quoted, Blank, rest, [c])
  }

  lemma ReadAtEnd(o: Options, state: State, token: Chars, quoted: bool, escaped: State)
    requires Consistent(o, state, token, quoted, escaped)
    ensures Read(o, [], state, token, quoted, escaped)
         == if state.Quoted? then Failed(NoClosingQuotation)
            else if state.Escape? then Failed(NoEscapedCharacter)
            else Token(if state.Ended? then [] else token, quoted, Ended, [], [])
  {
  }

  lemma ReadAfterEnd(o: Options, c: Char, rest: Chars, token: Chars, quoted: bool, escaped: State)
    ensures Read(o, [c] + rest, Ended, token, quoted, escaped) == Token([], quoted, Ended, rest, [])
  {
    S.Cons(c, rest);
  }

  lemma ReadInWord(o: Options, c: Char, rest: Chars, token: Chars, quoted: bool, escaped: State)
    requires Begun(o, token, quoted) && !Whitespace(c) && c !in o.commenters
    ensures Read(o, [c] + rest, Word, token, quoted, escaped)
         == if o.posix && IsQuote(c) then Read(o, rest, Quoted(c), token, quoted, escaped)
            else if o.posix && c == BACKSLASH then Read(o, rest, Escape, token, quoted, Word)
            else if WordChar(o, c) || IsQuote(c) || (o.whitespaceSplit && c !in o.punctuation) then
              Read(o, rest, Word, token + [c], quoted, escaped)
            else if o.punctuation != [] then Token(token, quoted, Blank, [c] + rest, [])
            else Token(token, quoted, Blank, rest, [c])
  {
    hide WordChar, Whitespace, IsQuote, AfterLine;
    S.Cons(c, rest);
  }

  /** All tokens up to the end, or up to the point where lexing fails. */
  datatype Lexed = Lexed(tokens: seq<Chars>, failure: Option<LexError>)

  function Before(first: seq<Chars>, rest: Lexed): Lexed { rest.(tokens := first + rest.tokens) }

  /** Whether this token is the sign that the input is used up. */
  predicate IsEnd(o: Options, r: Reading)
    requires r.Token?
  {
    r.token == [] && !(o.posix && r.quoted)
  }

  function PushedTokens(pushed: Chars): seq<Chars> { if pushed == [] then [] else [pushed] }

  function Lex(o: Options, input: Chars): Lexed
    decreases |input|
  {
    var r := Read(o, input, Blank, [], false, Blank);
    if r.Failed? then Lexed([], Some(r.error))
    else if IsEnd(o, r) then Lexed([], None)
    else
      var first := [r.token] + PushedTokens(r.pushed);
      if r.state.Ended? then Lexed(first, None) else Before(first, Lex(o, r.input))
  }

  // ---------------------------------------------------------------- the machine

  class Lexer {
    const o: Options
    const chars: Chars
    var cursor: nat
    var pushbackChars: Chars
    var pushback: seq<Chars>
    var state: State
    var token: Chars

    /** What is left to read. */
    ghost function Input(): Chars
      requires cursor <= |chars|
      reads this
    {
      pushbackChars + chars[cursor..]
    }

    /** Between two tokens. */
    ghost predicate Valid()
      reads this
    {
      && cursor <= |chars| && |pushbackChars| <= 1 && (o.punctuation == [] ==> pushbackChars == [])
      && token == [] && (state.Blank? || state.Ended?)
    }

    constructor (text: Chars, o: Options)
      ensures Valid() && Input() == text && pushback == [] && state == Blank && this.o == o
    {
      this.o, chars, cursor, pushbackChars, pushback, state, token := o, text, 0, [], [], Blank, [];
      new;
      S.Ends(text);
    }

    method ReadChar() returns (c: Option<Char>)
      requires cursor <= |chars| && |pushbackChars| <= 1 && (o.punctuation == [] ==> pushbackChars == [])
      modifies `cursor, `pushbackChars
      ensures cursor <= |chars| && pushbackChars == []
      ensures c.None? <==> old(Input()) == []
      ensures c.None? ==> Input() == []
      ensures c.Some? ==> old(Input()) == [c.value] + Input() && Input() == old(Input())[1..]
    {
      if o.punctuation != [] && |pushbackChars| > 0 {
        c := Some(pushbackChars[0]);
        pushbackChars := [];
      } else if cursor < |chars| {
        c := Some(chars[cursor]);
        cursor := cursor + 1;
      } else {
        c := None;
      }
    }

    method SkipLine()
      requires cursor <= |chars| && pushbackChars == []
      modifies `cursor
      ensures cursor <= |chars| && Input() == AfterLine(old(Input()))
    {
      var skipping := true;
      while skipping && cursor < |chars|
        invariant cursor <= |chars| && pushbackChars == []
        invariant AfterLine(old(Input())) == if skipping then AfterLine(Input()) else Input()
        decreases |chars| - cursor
      {
        var c := chars[cursor];
        assert Input()[0] == c && Input()[1..] == pushbackChars + chars[cursor + 1..];
        cursor := cursor + 1;
        if c == NEWLINE { skipping := false; }
      }
    }

    /** In the middle of a call whose outcome is to be `whole`; `reading` until the token is complete. */
    ghost predicate Underway(whole: Reading, reading: bool, quoted: bool, escaped: State)
      reads this
    {
      && cursor <= |chars| && |pushbackChars| <= 1 && (o.punctuation == [] ==> pushbackChars == [])
      && if reading then
           && pushback == [] && Consistent(o, state, token, quoted, escaped)
           && Read(o, Input(), state, token, quoted, escaped) == whole
         else
           && whole.Token? && whole.token == token && whole.quoted == quoted && whole.state == state
           && whole.input == Input() && pushback == PushedTokens(whole.pushed)
    }

    /** A character has been read that `Read` would see next. */
    ghost predicate Seen(c: Char, whole: Reading, quoted: bool, escaped: State)
      reads this
    {
      && cursor <= |chars| && pushbackChars == [] && pushback == []
      && Consistent(o, state, token, quoted, escaped)
      && Read(o, [c] + Input(), state, token, quoted, escaped) == whole
    }

    method ReadBlank(c: Char, ghost whole: Reading, quoted: bool, escapedIn: State) returns (reading: bool, escaped: State)
      requires state.Blank? && Seen(c, whole, quoted, escapedIn)
      modifies this
      ensures Underway(whole, reading, quoted, escaped) && |Input()| <= |old(Input())|
    {
      hide WordChar, Whitespace, AfterLine;
      S.Cons(c, Input());
      reading, escaped := true, escapedIn;
      if Whitespace(c) {
      } else if c in o.commenters {
        SkipLine();
      } else if o.posix && c == BACKSLASH {
        escaped, state := Word, Escape;
      } else if WordChar(o, c) {
        token, state := [c], Word;
      } else if c in o.punctuation {
        token, state := [c], Punctuation;
      } else if IsQuote(c) {
        if !o.posix { token := [c]; }
        state := Quoted(c);
      } else if o.whitespaceSplit {
        token, state := [c], Word;
      } else {
        token, reading := [c], false;
      }
    }

    method ReadQuoted(c: Char, ghost whole: Reading, quotedIn: bool, escapedIn: State)
      returns (reading: bool, quoted: bool, escaped: State)
      requires state.Quoted? && Seen(c, whole, quotedIn, escapedIn)
      modifies this
      ensures Underway(whole, reading, quoted, escaped) && |Input()| <= |old(Input())|
    {
      S.Cons(c, Input());
      reading, quoted, escaped := true, true, escapedIn;
      if c == state.quote {
        if o.posix {
          state := Word;
        } else {
          token, state, reading := token + [c], Blank, false;
        }
      } else if o.posix && c == BACKSLASH && state.quote == DOUBLE {
        escaped, state := state, Escape;
      } else {
        token := token + [c];
      }
    }

    method ReadEscaped(c: Char, ghost whole: Reading, quoted: bool, escaped: State)
      requires state.Escape? && Seen(c, whole, quoted, escaped)
      modifies this
      ensures Underway(whole, true, quoted, escaped) && |Input()| <= |old(Input())|
    {
      S.Cons(c, Input());
      if escaped.Quoted? && c != BACKSLASH && c != escaped.quote {
        token := token + [BACKSLASH, c];
      } else {
        token := token + [c];
      }
      state := escaped;
    }

    /** A character that ends a word: to be read again, or, without punctuation, a token of its own. */
    method PutBack(c: Char)
      requires cursor <= |chars| && pushbackChars == [] && pushback == []
      modifies `pushbackChars, `pushback
      ensures |pushbackChars| <= 1 && (o.punctuation == [] ==> pushbackChars == [])
      ensures Input() == (if o.punctuation != [] then [c] else []) + old(Input())
      ensures pushback == PushedTokens(if o.punctuation != [] then [] else [c])
    {
      if o.punctuation != [] {
        pushbackChars := pushbackChars + [c];
      } else {
        pushback := [[c]] + pushback;
      }
    }

    method ReadWord(c: Char, ghost whole: Reading, quoted: bool, escapedIn: State) returns (reading: bool, escaped: State)
      requires (state.Word? || state.Punctuation?) && Seen(c, whole, quoted, escapedIn)
      modifies this
      ensures Underway(whole, reading, quoted, escaped) && (reading ==> |Input()| <= |old(Input())|)
    {
      hide WordChar, Whitespace, AfterLine;
      S.Cons(c, Input());
      reading, escaped := true, escapedIn;
      if Whitespace(c) {
        state, reading := Blank, false;
      } else if c in o.commenters {
        SkipLine();
        if o.posix { state, reading := Blank, false; }
      } else if state.Punctuation? {
        if c in o.punctuation {
          token := token + [c];
        } else {
          PutBack(c);
          state, reading := Blank, false;
        }
      } else {
        reading, escaped := ReadLetter(c, whole, quoted, escapedIn);
      }
    }

    /** Inside a word, at a character that is neither a blank nor the start of a comment. */
    method ReadLetter(c: Char, ghost whole: Reading, quoted: bool, escapedIn: State) returns (reading: bool, escaped: State)
      requires state.Word? && Seen(c, whole, quoted, escapedIn) && !Whitespace(c) && c !in o.commenters
      modifies this
      ensures Underway(whole, reading, quoted, escaped) && (reading ==> |Input()| <= |old(Input())|)
    {
      hide WordChar, Read, Whitespace, IsQuote;
      ReadInWord(o, c, Input(), token, quoted, escapedIn);
      S.Ends(Input());
      reading, escaped := true, escapedIn;
      if o.posix && IsQuote(c) {
        state := Quoted(c);
      } else if o.posix && c == BACKSLASH {
        escaped, state := Word, Escape;
      } else if WordChar(o, c) || IsQuote(c) || (o.whitespaceSplit && c !in o.punctuation) {
        token := token + [c];
      } else {
        PutBack(c);
        state, reading := Blank, false;
      }
    }

    /** One token: exactly the one `Read` finds in what is left, or the error it finds. */
    method ReadToken() returns (r: Result<Option<Chars>, LexError>)
      requires Valid() && pushback == []
      modifies this
      ensures var was := Read(o, old(Input()), old(state), [], false, Blank);
              && (was.Failed? ==> r == Err(was.error))
              && (was.Token? ==>
                   && r == Ok(Yielded(o, was)) && Valid() && Input() == was.input && state == was.state
                   && pushback == PushedTokens(was.pushed))
    {
      hide Read;
      var quoted, escaped := false, Blank;
      ghost var whole := Read(o, Input(), state, [], false, Blank);
      var reading := true;
      while reading
        invariant Underway(whole, reading, quoted, escaped)
        decreases reading, |Input()|
      {
        var next := ReadChar();
        if next.None? {
          ReadAtEnd(o, state, token, quoted, escaped);
          match state {
            case Quoted(_) => return Err(NoClosingQuotation);
            case Escape => return Err(NoEscapedCharacter);
            case Ended => token := [];
            case _ => state := Ended;
          }
          reading := false;
        } else {
          var c := next.value;
          if state.Ended? {
            ReadAfterEnd(o, c, Input(), token, quoted, escaped);
            token, reading := [], false;
          } else if state.Blank? {
            reading, escaped := ReadBlank(c, whole, quoted, escaped);
          } else if state.Quoted? {
            reading, quoted, escaped := ReadQuoted(c, whole, quoted, escaped);
          } else if state.Escape? {
            ReadEscaped(c, whole, quoted, escaped);
          } else {
            reading, escaped := ReadWord(c, whole, quoted, escaped);
          }
        }
      }
      var result := token;
      token := [];
      r := Ok(if o.posix && !quoted && result == [] then None else Some(result));
    }
  }

  /** Every token of `text`, in order, up to the end or to a lexing error. */
  method Tokens(text: Chars, o: Options) returns (lexed: Lexed)
    ensures lexed == Lex(o, text)
  {
    hide Read, IsEnd;
    var lexer := new Lexer(text, o);
    var tokens: seq<Chars> := [];
    while true
      invariant lexer.Valid() && lexer.o == o && fresh(lexer)
      invariant Lex(o, text) == Before(tokens + lexer.pushback, LexFrom(o, lexer.Input(), lexer.state))
      decreases lexer.state.Blank?, |lexer.Input()|, |lexer.pushback|
    {
      LexNext(o, lexer.Input(), lexer.state);
      if |lexer.pushback| > 0 {
        S.Snoc(tokens, lexer.pushback[0], lexer.pushback[1..]);
        S.Head(lexer.pushback, []);
        tokens, lexer.pushback := tokens + [lexer.pushback[0]], lexer.pushback[1..];
      } else {
        S.Ends(tokens);
        var next := lexer.ReadToken();
        if next.Err? { return Lexed(tokens, Some(next.error)); }
        if next.value == (if o.posix then None else Some([])) { return Lexed(tokens, None); }
        BeforeBefore(tokens, [next.value.value] + lexer.pushback, LexFrom(o, lexer.Input(), lexer.state));
        S.Assoc(tokens, [next.value.value], lexer.pushback);
        tokens := tokens + [next.value.value];
      }
    }
  }

  /** What is still to come in a given state between two tokens. */
  function LexFrom(o: Options, input: Chars, state: State): Lexed {
    if state.Ended? then Lexed([], None) else Lex(o, input)
  }

  lemma BeforeBefore(a: seq<Chars>, b: seq<Chars>, rest: Lexed)
    ensures Before(a, Before(b, rest)) == Before(a + b, rest)
    ensures Before([], rest) == rest
  {
    S.Assoc(a, b, rest.tokens);
    S.Ends(rest.tokens);
  }

  /** What the generator compares with the token it got: nothing in posix mode, an empty token otherwise. */
  function Yielded(o: Options, r: Reading): Option<Chars>
    requires r.Token?
  {
    if o.posix && !r.quoted && r.token == [] then None else Some(r.token)
  }

  lemma LexNext(o: Options, input: Chars, state: State)
    requires state.Blank? || state.Ended?
    ensures var r := Read(o, input, state, [], false, Blank);
            && (r.Failed? ==> LexFrom(o, input, state) == Lexed([], Some(r.error)))
            && (r.Token? ==>
                 && (IsEnd(o, r) <==> Yielded(o, r) == if o.posix then None else Some([]))
                 && (state.Ended? ==> IsEnd(o, r))
                 && (IsEnd(o, r) ==> LexFrom(o, input, state) == Lexed([], None))
                 && (!IsEnd(o, r) ==>
                      && LexFrom(o, input, state) == Before([r.token] + PushedTokens(r.pushed), LexFrom(o, r.input, r.state))
                      && Yielded(o, r) == Some(r.token) && (r.state.Ended? || |r.input| < |input|)))
  {
  }
}
