/**
 What glob patterns mean, said of characters alone (packages/mcp/src/research/glob.ts, lines 57 to 85, 87 to 125
 and 127 to 165).

 The meaning of a pattern is worked off from its front: a plain character stands for itself, `?` for any one
 character, `*` for any run, a class for one character that it admits, and a `[` that is never closed for
 itself. From that follow the forms callers write, such as `*.ts`.
 */
module GlobMeaning {
  import opened Wrappers
  import opened Glob
  import opened GlobCompile

  type Name = seq<CodePoint>

  predicate Special(c: CodePoint) { c == 42 || c == 63 || c == 91 }

  predicate Ordinary(pattern: Name) { forall i :: 0 <= i < |pattern| ==> !Special(pattern[i]) }

  // ---------------------------------------------------------------- a pattern does not see what is before it

  lemma {:induction false} IndexShift(a: Name, p: Name, c: CodePoint, from: nat)
    ensures IndexFrom(a + p, c, |a| + from)
            == (match IndexFrom(p, c, from) case Some(i) => Some(|a| + i) case None => None)
    decreases |p| - from
  {
    if from < |p| { IndexShift(a, p, c, from + 1); }
  }

  lemma ClassShift(a: Name, p: Name, start: nat)
    requires start <= |p|
    ensures ClassEnd(a + p, |a| + start)
            == (match ClassEnd(p, start) case Some(i) => Some(|a| + i) case None => None)
    ensures ClassEnd(p, start).Some? ==>
              ClassAt(a + p, |a| + start, |a| + ClassEnd(p, start).value) == ClassAt(p, start, ClassEnd(p, start).value)
  {
    IndexShift(a, p, CLOSE, BodyStart(p, start));
    if ClassEnd(p, start).Some? {
      var close := ClassEnd(p, start).value;
      assert (a + p)[|a| + start..|a| + close] == p[start..close];
    }
  }

  lemma ItemShift(a: Name, p: Name, index: nat)
    requires index < |p| && p[index] != STAR
    ensures ItemAt(a + p, |a| + index)
            == (match ItemAt(p, index) case Ok(r) => Ok((r.0, |a| + r.1)) case Err(e) => Err(e))
  {
    hide ClassAt, ClassEnd;
    ClassShift(a, p, index + 1);
  }

  lemma {:induction false} MeansShift(a: Name, p: Name, index: nat, name: Name)
    requires index <= |p|
    ensures Means(a + p, |a| + index, name) <==> Means(p, index, name)
    decreases |p| - index
  {
    if index < |p| {
      if p[index] == STAR {
        forall k | 0 <= k <= |name| ensures Means(a + p, |a| + index + 1, name[k..]) <==> Means(p, index + 1, name[k..]) {
          MeansShift(a, p, index + 1, name[k..]);
        }
      } else {
        ItemShift(a, p, index);
        if ItemAt(p, index).Ok? && name != [] {
          MeansShift(a, p, ItemAt(p, index).value.1, name[1..]);
        }
      }
    }
  }

  // ---------------------------------------------------------------- from the front

  lemma NothingMeans(name: Name)
    ensures Means([], 0, name) <==> name == []
  {
  }

  /** A plain character stands for itself. */
  lemma PlainMeans(c: CodePoint, p: Name, name: Name)
    requires !Special(c)
    ensures Means([c] + p, 0, name) <==> name != [] && name[0] == c && Means(p, 0, name[1..])
  {
    if name != [] { MeansShift([c], p, 0, name[1..]); }
  }

  /** A question mark stands for any one character. */
  lemma QuestionMeans(p: Name, name: Name)
    ensures Means([63] + p, 0, name) <==> name != [] && Means(p, 0, name[1..])
  {
    if name != [] { MeansShift([63], p, 0, name[1..]); }
  }

  /** A star stands for any run of characters, none included. */
  lemma StarMeansRun(p: Name, name: Name)
    ensures Means([42] + p, 0, name) <==> exists k :: 0 <= k <= |name| && Means(p, 0, name[k..])
  {
    forall k | 0 <= k <= |name| ensures Means([42] + p, 1, name[k..]) <==> Means(p, 0, name[k..]) {
      MeansShift([42], p, 0, name[k..]);
    }
    assert ([42] + p)[0] == STAR;
  }

  /** Where the bracket after `[` closes: a leading `!` and a `]` in first place do not count. */
  ghost predicate Closes(p: Name, close: nat) {
    var first := if p != [] && p[0] == 33 then 1 else 0;
    && first < close < |p| && p[close] == 93
    && forall i :: first < i < close ==> p[i] != 93
  }

  lemma ClosesExactly(p: Name)
    ensures match ClassEnd([91] + p, 1)
            case Some(end) => end >= 1 && Closes(p, end - 1)
            case None => forall close :: !Closes(p, close)
  {
    var chars := [91] + p;
    assert forall i :: 0 <= i < |p| ==> chars[i + 1] == p[i];
    if ClassEnd(chars, 1).None? {
      assert BodyStart(chars, 1) >= 1;
      forall close ensures !Closes(p, close) {}
    }
  }

  /** A bracket that is never closed stands for itself. */
  lemma OpenBracketMeans(p: Name, name: Name)
    requires forall close :: !Closes(p, close)
    ensures Means([91] + p, 0, name) <==> name != [] && name[0] == 91 && Means(p, 0, name[1..])
  {
    ClosesExactly(p);
    if name != [] { MeansShift([91], p, 0, name[1..]); }
  }

  /** A class stands for one character: one it lists or spans, or, negated, any other. */
  lemma ClassMeans(p: Name, close: nat, name: Name)
    requires Closes(p, close)
    ensures var body := p[..close];
            var first := if body[0] == 33 then 1 else 0;
            var ops := Operators(body, first);
            Means([91] + p, 0, name) <==>
              && Upwards(body, ops, first, first)
              && name != []
              && (Listed(body, ops, first, first, name[0]) || Spanned(body, ops, first, first, name[0])) != (body[0] == 33)
              && Means(p[close + 1..], 0, name[1..])
  {
    hide Operators, Listed, Spanned, Upwards, ClassAt;
    ClosesExactly(p);
    var chars := [91] + p;
    var end := ClassEnd(chars, 1).value;
    OneClose(p, close, end - 1);
    assert chars[1..end] == p[..close];
    ClassAcceptsExactly(chars, 1, end, if name != [] then name[0] else 0);
    assert chars == chars[..end + 1] + p[close + 1..];
    if name != [] { MeansShift(chars[..end + 1], p[close + 1..], 0, name[1..]); }
  }

  lemma OneClose(p: Name, a: nat, b: nat)
    requires Closes(p, a) && Closes(p, b)
    ensures a == b
  {
  }

  /** In a class with a double hyphen a hyphen is an operator unless one of the two before it is. */
  lemma {:induction false} EveryThirdHyphen(body: Name, from: nat, i: nat)
    ensures i in RangeHyphens(body, from) <==>
            && from <= i < |body| && body[i] == 45
            && (i < 1 || i - 1 !in RangeHyphens(body, from))
            && (i < 2 || i - 2 !in RangeHyphens(body, from))
    decreases |body| - from
  {
    HyphensFrom(body, from);
    match IndexFrom(body, HYPHEN, from)
    case None =>
    case Some(h) =>
      HyphensFrom(body, h + 3);
      var rest := RangeHyphens(body, h + 3);
      assert forall j :: j in RangeHyphens(body, from) <==> j == h || j in rest;
      EveryThirdHyphen(body, h + 3, i);
  }

  lemma HyphensFrom(body: Name, from: nat)
    ensures forall j :: j in RangeHyphens(body, from) ==> from <= j < |body| && body[j] == HYPHEN
  {
    RangeHyphensApart(body, from);
  }

  /** Which positions of a class are range operators: all hyphens, or where two stand together, as they are met. */
  lemma OperatorsExactly(body: Name, first: nat, i: nat)
    requires i < |body|
    ensures var ops := Operators(body, first);
            if exists j :: 0 <= j < |body| - 1 && body[j] == 45 && body[j + 1] == 45
            then ops[i] <==> first < i && body[i] == 45 && (i < 1 || !ops[i - 1]) && (i < 2 || !ops[i - 2])
            else ops[i] <==> body[i] == 45
  {
    EveryThirdHyphen(body, first + 1, i);
  }

  // ---------------------------------------------------------------- the forms callers write

  /** Plain characters in front must stand at the front of the name. */
  lemma {:induction false} PrefixMeans(p: Name, q: Name, name: Name)
    requires Ordinary(p)
    ensures Means(p + q, 0, name) <==> p <= name && Means(q, 0, name[|p|..])
    decreases |p|
  {
    if p == [] {
      assert p + q == q && name[0..] == name;
    } else {
      assert p + q == [p[0]] + (p[1..] + q);
      PlainMeans(p[0], p[1..] + q, name);
      if name != [] {
        PrefixMeans(p[1..], q, name[1..]);
        assert p == [p[0]] + p[1..] && name == [name[0]] + name[1..];
        if |p| <= |name| { assert name[1..][|p| - 1..] == name[|p|..]; }
        if p <= name { assert p[1..] <= name[1..]; }
      }
    }
  }

  /** A pattern without special characters means itself alone. */
  lemma OrdinaryMeansItself(p: Name, name: Name)
    requires Ordinary(p)
    ensures Means(p, 0, name) <==> name == p
  {
    PrefixMeans(p, [], name);
    assert p + [] == p;
    if p <= name { assert name == p + name[|p|..]; }
  }

  /** `*.ts`: the names that end so. */
  lemma EndingMeans(p: Name, name: Name)
    requires Ordinary(p)
    ensures Means([42] + p, 0, name) <==> |p| <= |name| && name[|name| - |p|..] == p
  {
    StarMeansRun(p, name);
    forall k | 0 <= k <= |name| ensures Means(p, 0, name[k..]) <==> name[k..] == p {
      OrdinaryMeansItself(p, name[k..]);
    }
  }

  lemma AnythingMeans(name: Name)
    ensures Means([42], 0, name)
  {
    EndingMeans([], name);
    assert [42] + [] == [42];
  }

  /** `test*`: the names that begin so. */
  lemma BeginningMeans(p: Name, name: Name)
    requires Ordinary(p)
    ensures Means(p + [42], 0, name) <==> p <= name
  {
    PrefixMeans(p, [42], name);
    if p <= name { AnythingMeans(name[|p|..]); }
  }

  /** `a*b`: begins and ends so, without overlap. */
  lemma BothEndsMean(p: Name, q: Name, name: Name)
    requires Ordinary(p) && Ordinary(q)
    ensures Means(p + ([42] + q), 0, name) <==>
            |p| + |q| <= |name| && name[..|p|] == p && name[|name| - |q|..] == q
  {
    hide Means;
    PrefixMeans(p, [42] + q, name);
    if p <= name {
      var rest := name[|p|..];
      EndingMeans(q, rest);
      if |q| <= |rest| { assert rest[|rest| - |q|..] == name[|name| - |q|..]; }
    }
  }

  /** `n` question marks: the names of that length. */
  lemma {:induction false} QuestionsMean(n: nat, name: Name)
    ensures Means(seq(n, _ => 63), 0, name) <==> |name| == n
    decreases n
  {
    if n > 0 {
      assert seq(n, _ => 63) == [63] + seq(n - 1, _ => 63);
      QuestionMeans(seq(n - 1, _ => 63), name);
      if name != [] { QuestionsMean(n - 1, name[1..]); }
    }
  }

  /** Compiling and matching `*` before plain characters accepts exactly the names that end so. */
  method AcceptsEnding(p: Name, name: Name) returns (accepted: bool)
    requires Ordinary(p)
    ensures accepted <==> |p| <= |name| && name[|name| - |p|..] == p
  {
    NoFault([42] + p, 0);
    EndingMeans(p, name);
    var r := GlobAccepts([42] + p, name);
    accepted := r.value;
  }

  lemma {:induction false} NoFault(p: Name, index: nat)
    requires index <= |p| && 91 !in p
    ensures Fault(p, index).None?
    decreases |p| - index
  {
    if index < |p| {
      assert p[index] in p;
      NoFault(p, index + 1);
    }
  }
}
