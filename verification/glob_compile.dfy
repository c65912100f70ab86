/**
 The glob pattern compiler (packages/mcp/src/research/glob.ts): from the code points of a pattern to
 the items the matcher runs on. `Means` reads the pattern directly, star by star and class by class;
 compiling and matching is proved to accept exactly the names the pattern means.
 */
module GlobCompile {
  import opened Wrappers
  import opened Glob

  const STAR: CodePoint := 42
  const QUESTION: CodePoint := 63
  const OPEN: CodePoint := 91
  const CLOSE: CodePoint := 93
  const BANG: CodePoint := 33
  const HYPHEN: CodePoint := 45

  datatype BadRange = BadRange(low: CodePoint, high: CodePoint)

  // ---------------------------------------------------------------- character classes

  function IndexFrom(chars: seq<CodePoint>, c: CodePoint, from: nat): (r: Option<nat>)
    ensures r.Some? ==> from <= r.value < |chars| && chars[r.value] == c
    ensures r.Some? ==> forall i :: from <= i < r.value ==> chars[i] != c
    ensures r.None? ==> forall i :: from <= i < |chars| ==> chars[i] != c
    decreases |chars| - from
  {
    if from >= |chars| then None else if chars[from] == c then Some(from) else IndexFrom(chars, c, from + 1)
  }

  /** Where the search for the closing bracket begins: a leading `!` and a leading `]` are passed over. */
  function BodyStart(chars: seq<CodePoint>, start: nat): (p: nat)
    ensures start <= p
  {
    var p := if start < |chars| && chars[start] == BANG then start + 1 else start;
    if p < |chars| && chars[p] == CLOSE then p + 1 else p
  }

  /** The closing bracket of the class that starts at `start`. */
  function ClassEnd(chars: seq<CodePoint>, start: nat): (r: Option<nat>)
    ensures r.Some? ==> start < r.value < |chars| && chars[r.value] == CLOSE
  {
    IndexFrom(chars, CLOSE, BodyStart(chars, start))
  }

  predicate DoubleHyphen(body: seq<CodePoint>) {
    exists i :: 0 <= i < |body| - 1 && body[i] == HYPHEN && body[i + 1] == HYPHEN
  }

  /** The range hyphens of a class with `--`, left to right, each skipping the character after its range. */
  function RangeHyphens(body: seq<CodePoint>, from: nat): seq<nat>
    decreases |body| - from
  {
    match IndexFrom(body, HYPHEN, from)
    case None => []
    case Some(h) => [h] + RangeHyphens(body, h + 3)
  }

  /** Which positions of the class body act as range operators. */
  function Operators(body: seq<CodePoint>, first: nat): (ops: seq<bool>)
    ensures |ops| == |body|
  {
    if DoubleHyphen(body)
    then seq(|body|, i => i in RangeHyphens(body, first + 1))
    else seq(|body|, i requires 0 <= i < |body| => body[i] == HYPHEN)
  }

  function ReadRanges(body: seq<CodePoint>, ops: seq<bool>, index: nat): Result<seq<Range>, BadRange>
    requires |ops| == |body|
    decreases |body| - index
  {
    if index >= |body| then Ok([])
    else if index + 2 < |body| && ops[index + 1] then
      if body[index + 2] < body[index] then Err(BadRange(body[index], body[index + 2]))
      else Prefix(Range(body[index], body[index + 2]), ReadRanges(body, ops, index + 3))
    else Prefix(Range(body[index], body[index]), ReadRanges(body, ops, index + 1))
  }

  function Prefix(r: Range, rest: Result<seq<Range>, BadRange>): Result<seq<Range>, BadRange> {
    match rest
    case Ok(ranges) => Ok([r] + ranges)
    case Err(e) => Err(e)
  }

  /** The class between `start` and its closing bracket `close`. */
  function ClassAt(chars: seq<CodePoint>, start: nat, close: nat): Result<Item, BadRange>
    requires start < close < |chars|
  {
    var body := chars[start..close];
    var negate := body[0] == BANG;
    var first := if negate then 1 else 0;
    match ReadRanges(body, Operators(body, first), first)
    case Ok(ranges) => Ok(Class(negate, ranges))
    case Err(e) => Err(e)
  }

  // ---------------------------------------------------------------- what a class accepts

  lemma PrefixedIn(r: Range, ranges: seq<Range>, c: CodePoint)
    ensures InRanges([r] + ranges, c) <==> r.low <= c <= r.high || InRanges(ranges, c)
  {
    var all := [r] + ranges;
    if InRanges(ranges, c) {
      var i :| 0 <= i < |ranges| && ranges[i].low <= c <= ranges[i].high;
      assert all[i + 1] == ranges[i];
    }
    if r.low <= c <= r.high {
      assert all[0] == r;
    }
    if InRanges(all, c) {
      var i :| 0 <= i < |all| && all[i].low <= c <= all[i].high;
      assert i == 0 || all[i] == ranges[i - 1];
    }
  }

  /** A class without hyphens accepts exactly the characters it lists. */
  lemma {:induction false} PlainClass(body: seq<CodePoint>, ops: seq<bool>, index: nat, c: CodePoint)
    requires |ops| == |body| && index <= |body| && forall i :: 0 <= i < |ops| ==> !ops[i]
    ensures ReadRanges(body, ops, index).Ok?
    ensures InRanges(ReadRanges(body, ops, index).value, c) <==> c in body[index..]
    decreases |body| - index
  {
    if index < |body| {
      PlainClass(body, ops, index + 1, c);
      PrefixedIn(Range(body[index], body[index]), ReadRanges(body, ops, index + 1).value, c);
      assert body[index..] == [body[index]] + body[index + 1..];
    }
  }

  /** Every listed character that is not a range operator is accepted, and ranges run upwards. */
  lemma {:induction false} ListedIsAccepted(body: seq<CodePoint>, ops: seq<bool>, index: nat, i: nat)
    requires |ops| == |body| && index <= i < |body| && !ops[i]
    requires ReadRanges(body, ops, index).Ok?
    ensures InRanges(ReadRanges(body, ops, index).value, body[i])
    decreases |body| - index
  {
    var wide := index + 2 < |body| && ops[index + 1];
    var next := if wide then index + 3 else index + 1;
    var r := if wide then Range(body[index], body[index + 2]) else Range(body[index], body[index]);
    PrefixedIn(r, ReadRanges(body, ops, next).value, body[i]);
    if next <= i {
      ListedIsAccepted(body, ops, next, i);
    }
  }

  /** Chosen range hyphens are three or more apart, so their ranges never share a character. */
  lemma {:induction false} RangeHyphensApart(body: seq<CodePoint>, from: nat)
    ensures HyphensApart(body, from, RangeHyphens(body, from))
    decreases |body| - from
  {
    match IndexFrom(body, HYPHEN, from)
    case None =>
    case Some(h) =>
      RangeHyphensApart(body, h + 3);
      HyphensApartCons(body, from, h, RangeHyphens(body, h + 3));
  }

  ghost predicate HyphensApart(body: seq<CodePoint>, from: nat, hs: seq<nat>) {
    && (forall i :: 0 <= i < |hs| ==> from <= hs[i] < |body| && body[hs[i]] == HYPHEN)
    && (forall i :: 0 < i < |hs| ==> hs[i - 1] + 3 <= hs[i])
  }

  lemma HyphensApartCons(body: seq<CodePoint>, from: nat, h: nat, rest: seq<nat>)
    requires from <= h < |body| && body[h] == HYPHEN && HyphensApart(body, h + 3, rest)
    ensures HyphensApart(body, from, [h] + rest)
  {
    var hs := [h] + rest;
    forall i | 0 <= i < |hs| ensures from <= hs[i] < |body| && body[hs[i]] == HYPHEN {
      if i > 0 { assert hs[i] == rest[i - 1]; }
    }
    forall i | 0 < i < |hs| ensures hs[i - 1] + 3 <= hs[i] {
      assert hs[i] == rest[i - 1];
      if i > 1 { assert hs[i - 1] == rest[i - 2]; }
    }
  }

  /** The operator at `h` makes a range: it has an end on both sides, and neither belongs to an earlier range. */
  predicate Chosen(body: seq<CodePoint>, ops: seq<bool>, first: nat, h: int)
    requires |ops| == |body|
    decreases h
  {
    first < h < |body| - 1 && ops[h] && !Chosen(body, ops, first, h - 1) && !Chosen(body, ops, first, h - 2)
  }

  /** The chosen ranges after `index` run upwards. */
  predicate Upwards(body: seq<CodePoint>, ops: seq<bool>, first: nat, index: nat)
    requires |ops| == |body|
  {
    forall h :: index < h < |body| - 1 && Chosen(body, ops, first, h) ==> body[h - 1] <= body[h + 1]
  }

  /** Listed from `index` on, other than as a range operator. */
  predicate Listed(body: seq<CodePoint>, ops: seq<bool>, first: nat, index: nat, c: CodePoint)
    requires |ops| == |body|
  {
    exists i :: index <= i < |body| && body[i] == c && !Chosen(body, ops, first, i)
  }

  /** Between the ends of a chosen range after `index`. */
  predicate Spanned(body: seq<CodePoint>, ops: seq<bool>, first: nat, index: nat, c: CodePoint)
    requires |ops| == |body|
  {
    exists h :: index < h < |body| - 1 && Chosen(body, ops, first, h) && body[h - 1] <= c <= body[h + 1]
  }

  /** Reading on from the start of a character or range. */
  lemma {:induction false} RangesFrom(body: seq<CodePoint>, ops: seq<bool>, first: nat, index: nat, c: CodePoint)
    requires |ops| == |body| && first <= index
    requires !Chosen(body, ops, first, index - 1) && !Chosen(body, ops, first, index)
    ensures ReadRanges(body, ops, index).Ok? <==> Upwards(body, ops, first, index)
    ensures ReadRanges(body, ops, index).Ok? ==>
              (InRanges(ReadRanges(body, ops, index).value, c)
               <==> Listed(body, ops, first, index, c) || Spanned(body, ops, first, index, c))
    decreases |body| - index
  {
    if index >= |body| { return; }
    if Chosen(body, ops, first, index + 1) {
      RangesFrom(body, ops, first, index + 3, c);
      WideStep(body, ops, first, index, c);
      if ReadRanges(body, ops, index + 3).Ok? {
        PrefixedIn(Range(body[index], body[index + 2]), ReadRanges(body, ops, index + 3).value, c);
      }
    } else {
      RangesFrom(body, ops, first, index + 1, c);
      NarrowStep(body, ops, first, index, c);
      if ReadRanges(body, ops, index + 1).Ok? {
        PrefixedIn(Range(body[index], body[index]), ReadRanges(body, ops, index + 1).value, c);
      }
    }
  }

  /** A range takes three characters. */
  lemma WideStep(body: seq<CodePoint>, ops: seq<bool>, first: nat, index: nat, c: CodePoint)
    requires |ops| == |body| && first <= index && Chosen(body, ops, first, index + 1)
    requires !Chosen(body, ops, first, index)
    ensures var low, high := body[index], body[index + 2];
            && (Upwards(body, ops, first, index) <==> low <= high && Upwards(body, ops, first, index + 3))
            && (low <= high ==>
                  (Listed(body, ops, first, index, c) || Spanned(body, ops, first, index, c)
                   <==> low <= c <= high || Listed(body, ops, first, index + 3, c) || Spanned(body, ops, first, index + 3, c)))
  {
    assert !Chosen(body, ops, first, index + 2) && !Chosen(body, ops, first, index + 3);
    hide Chosen;
    assert forall h :: index < h < index + 4 && Chosen(body, ops, first, h) ==> h == index + 1;
    assert forall i :: index <= i < index + 3 && !Chosen(body, ops, first, i) ==> i == index || i == index + 2;
  }

  lemma NarrowStep(body: seq<CodePoint>, ops: seq<bool>, first: nat, index: nat, c: CodePoint)
    requires |ops| == |body| && first <= index < |body|
    requires !Chosen(body, ops, first, index) && !Chosen(body, ops, first, index + 1)
    ensures Upwards(body, ops, first, index) <==> Upwards(body, ops, first, index + 1)
    ensures Listed(body, ops, first, index, c) || Spanned(body, ops, first, index, c)
            <==> c == body[index] || Listed(body, ops, first, index + 1, c) || Spanned(body, ops, first, index + 1, c)
  {
    hide Chosen;
    assert forall h :: index < h < index + 2 && Chosen(body, ops, first, h) ==> false;
  }

  /** A class is read exactly if its ranges run upwards, and accepts what it lists and what its ranges span. */
  lemma ClassAcceptsExactly(chars: seq<CodePoint>, start: nat, close: nat, c: CodePoint)
    requires start < close < |chars|
    ensures var body := chars[start..close];
            var first := if body[0] == BANG then 1 else 0;
            var ops := Operators(body, first);
            && (ClassAt(chars, start, close).Ok? <==> Upwards(body, ops, first, first))
            && (ClassAt(chars, start, close).Ok? ==>
                  (MatchOne(ClassAt(chars, start, close).value, c)
                   <==> (Listed(body, ops, first, first, c) || Spanned(body, ops, first, first, c)) != (body[0] == BANG)))
  {
    hide Operators, ReadRanges, Listed, Spanned, Upwards;
    var body := chars[start..close];
    var first := if body[0] == BANG then 1 else 0;
    RangesFrom(body, Operators(body, first), first, first, c);
  }

  // ---------------------------------------------------------------- meaning of a pattern

  /** The item at `index` that is not a star, and the index after it. */
  function ItemAt(chars: seq<CodePoint>, index: nat): (r: Result<(Item, nat), BadRange>)
    requires index < |chars| && chars[index] != STAR
    ensures r.Ok? ==> index < r.value.1 <= |chars| && !r.value.0.Star?
  {
    if chars[index] == QUESTION then Ok((AnyOne, index + 1))
    else if chars[index] == OPEN && ClassEnd(chars, index + 1).Some? then
      var close := ClassEnd(chars, index + 1).value;
      match ClassAt(chars, index + 1, close)
      case Ok(item) => Ok((item, close + 1))
      case Err(e) => Err(e)
    else Ok((Literal(chars[index]), index + 1))
  }

  /** The pattern can be compiled; otherwise the first class with a backward range is the error. */
  function Fault(chars: seq<CodePoint>, index: nat): Option<BadRange>
    requires index <= |chars|
    decreases |chars| - index
  {
    if index == |chars| then None
    else if chars[index] == STAR then Fault(chars, index + 1)
    else match ItemAt(chars, index)
      case Ok(parsed) => Fault(chars, parsed.1)
      case Err(e) => Some(e)
  }

  /** What the pattern from `index` on means, every star a run of its own. */
  ghost predicate Means(chars: seq<CodePoint>, index: nat, name: seq<CodePoint>)
    requires index <= |chars|
    decreases |chars| - index
  {
    if index == |chars| then name == []
    else if chars[index] == STAR then exists k :: 0 <= k <= |name| && Means(chars, index + 1, name[k..])
    else match ItemAt(chars, index)
      case Ok(parsed) => name != [] && MatchOne(parsed.0, name[0]) && Means(chars, parsed.1, name[1..])
      case Err(_) => false
  }

  /** The items of the pattern from `index` on; `starred` when a star has just been emitted. */
  function Items(chars: seq<CodePoint>, index: nat, starred: bool): seq<Item>
    requires index <= |chars|
    decreases |chars| - index
  {
    if index == |chars| then []
    else if chars[index] == STAR then (if starred then [] else [Star]) + Items(chars, index + 1, true)
    else match ItemAt(chars, index)
      case Ok(parsed) => [parsed.0] + Items(chars, parsed.1, false)
      case Err(_) => []
  }

  /** Two stars in a row mean what one means, so leaving the second out loses nothing. */
  lemma {:induction false} ItemsMean(chars: seq<CodePoint>, index: nat, starred: bool, name: seq<CodePoint>)
    requires index <= |chars| && Fault(chars, index).None?
    ensures !starred ==> (Matches(Items(chars, index, false), name) <==> Means(chars, index, name))
    ensures starred ==> (MatchesFrom(Items(chars, index, true), name, 0)
                         <==> exists k :: 0 <= k <= |name| && Means(chars, index, name[k..]))
    decreases |chars| - index, 3
  {
    if starred {
      StarredItemsMean(chars, index, name);
    } else if index < |chars| {
      if chars[index] == STAR {
        var rest := Items(chars, index + 1, true);
        assert ([Star] + rest)[1..] == rest;
        StarMeans([Star] + rest, name);
        ItemsMean(chars, index + 1, true, name);
      } else {
        var (item, next) := ItemAt(chars, index).value;
        var rest := Items(chars, next, false);
        assert ([item] + rest)[1..] == rest;
        if name != [] {
          ItemsMean(chars, next, false, name[1..]);
        }
      }
    }
  }

  lemma {:induction false} StarredItemsMean(chars: seq<CodePoint>, index: nat, name: seq<CodePoint>)
    requires index <= |chars| && Fault(chars, index).None?
    ensures MatchesFrom(Items(chars, index, true), name, 0)
       <==> exists k :: 0 <= k <= |name| && Means(chars, index, name[k..])
    decreases |chars| - index, 2
  {
    hide Matches, Means, ItemAt;
    if index < |chars| && chars[index] == STAR {
      assert Items(chars, index, true) == Items(chars, index + 1, true);
      ItemsMean(chars, index + 1, true, name);
      RunOfRuns(chars, index, name);
    } else {
      StarMatters(chars, index);
      forall k | 0 <= k <= |name|
        ensures Matches(Items(chars, index, true), name[k..]) <==> Means(chars, index, name[k..])
      {
        PlainItemsMean(chars, index, name[k..]);
      }
    }
  }

  lemma StarMatters(chars: seq<CodePoint>, index: nat)
    requires index <= |chars| && (index < |chars| ==> chars[index] != STAR)
    ensures Items(chars, index, true) == Items(chars, index, false)
  {
  }

  lemma {:induction false} PlainItemsMean(chars: seq<CodePoint>, index: nat, name: seq<CodePoint>)
    requires index <= |chars| && Fault(chars, index).None?
    requires index < |chars| ==> chars[index] != STAR
    ensures Matches(Items(chars, index, false), name) <==> Means(chars, index, name)
    decreases |chars| - index, 1
  {
    if index < |chars| {
      var (item, next) := ItemAt(chars, index).value;
      var rest := Items(chars, next, false);
      assert ([item] + rest)[1..] == rest;
      if name != [] {
        ItemsMean(chars, next, false, name[1..]);
      }
    }
  }

  /** A run followed by a run is a run. */
  lemma RunOfRuns(chars: seq<CodePoint>, index: nat, name: seq<CodePoint>)
    requires index < |chars| && chars[index] == STAR
    ensures (exists k :: 0 <= k <= |name| && Means(chars, index, name[k..]))
       <==> (exists k :: 0 <= k <= |name| && Means(chars, index + 1, name[k..]))
  {
    if k :| 0 <= k <= |name| && Means(chars, index, name[k..]) {
      var j :| 0 <= j <= |name[k..]| && Means(chars, index + 1, name[k..][j..]);
      assert name[k..][j..] == name[k + j..];
    }
    if k :| 0 <= k <= |name| && Means(chars, index + 1, name[k..]) {
      assert name[0..] == name;
      assert Means(chars, index, name[0..]);
    }
  }

  // ---------------------------------------------------------------- the compiler

  method FindIndex(chars: seq<CodePoint>, c: CodePoint, from: nat) returns (r: Option<nat>)
    ensures r == IndexFrom(chars, c, from)
  {
    var i := from;
    while i < |chars|
      invariant from <= i
      invariant IndexFrom(chars, c, from) == IndexFrom(chars, c, i)
    {
      if chars[i] == c { return Some(i); }
      i := i + 1;
    }
    r := None;
  }

  lemma NextHyphen(body: seq<CodePoint>, from: nat, done: seq<nat>)
    requires IndexFrom(body, HYPHEN, from).Some?
    ensures var h := IndexFrom(body, HYPHEN, from).value;
            done + RangeHyphens(body, from) == (done + [h]) + RangeHyphens(body, h + 3)
  {
  }

  lemma NoMoreHyphens(body: seq<CodePoint>, from: nat, done: seq<nat>)
    requires IndexFrom(body, HYPHEN, from).None?
    ensures done + RangeHyphens(body, from) == done
  {
  }

  method MarkOperators(body: seq<CodePoint>, first: nat) returns (ops: seq<bool>)
    ensures ops == Operators(body, first)
  {
    hide RangeHyphens, IndexFrom;
    if DoubleHyphen(body) {
      ops := seq(|body|, i => false);
      var from := first + 1;
      var hyphen := FindIndex(body, HYPHEN, from);
      ghost var done: seq<nat> := [];
      while hyphen.Some?
        invariant hyphen == IndexFrom(body, HYPHEN, from)
        invariant RangeHyphens(body, first + 1) == done + RangeHyphens(body, from)
        invariant |ops| == |body| && forall i :: 0 <= i < |body| ==> (ops[i] <==> i in done)
        decreases |body| - from
      {
        ops := ops[hyphen.value := true];
        NextHyphen(body, from, done);
        done := done + [hyphen.value];
        from := hyphen.value + 3;
        hyphen := FindIndex(body, HYPHEN, from);
      }
      NoMoreHyphens(body, from, done);
    } else {
      ops := seq(|body|, i requires 0 <= i < |body| => body[i] == HYPHEN);
    }
  }

  method CollectRanges(body: seq<CodePoint>, ops: seq<bool>, first: nat) returns (r: Result<seq<Range>, BadRange>)
    requires |ops| == |body|
    ensures r == ReadRanges(body, ops, first)
  {
    var ranges: seq<Range> := [];
    var index := first;
    PrependNone(ReadRanges(body, ops, first));
    while index < |body|
      invariant first <= index
      invariant ReadRanges(body, ops, first) == Prepend(ranges, ReadRanges(body, ops, index))
    {
      var low := body[index];
      index := index + 1;
      if index >= |body| || !ops[index] || index + 1 >= |body| {
        PrependOne(ranges, Range(low, low), ReadRanges(body, ops, index));
        ranges := ranges + [Range(low, low)];
      } else {
        var high := body[index + 1];
        index := index + 2;
        if high < low { return Err(BadRange(low, high)); }
        PrependOne(ranges, Range(low, high), ReadRanges(body, ops, index));
        ranges := ranges + [Range(low, high)];
      }
    }
    assert ranges + [] == ranges;
    r := Ok(ranges);
  }

  ghost function Prepend(done: seq<Range>, rest: Result<seq<Range>, BadRange>): Result<seq<Range>, BadRange> {
    match rest
    case Ok(ranges) => Ok(done + ranges)
    case Err(e) => Err(e)
  }

  lemma PrependNone(rest: Result<seq<Range>, BadRange>)
    ensures Prepend([], rest) == rest
  {
    if rest.Ok? {
      assert [] + rest.value == rest.value;
    }
  }

  lemma PrependOne(done: seq<Range>, r: Range, rest: Result<seq<Range>, BadRange>)
    ensures Prepend(done, Prefix(r, rest)) == Prepend(done + [r], rest)
  {
    if rest.Ok? {
      assert done + ([r] + rest.value) == (done + [r]) + rest.value;
    }
  }

  /** The class after `[` at `start`; none when it has no closing bracket, then `[` is literal. */
  method ParseClass(chars: seq<CodePoint>, start: nat) returns (parsed: Option<Result<(Item, nat), BadRange>>)
    ensures parsed.None? <==> ClassEnd(chars, start).None?
    ensures parsed.Some? ==>
              var close := ClassEnd(chars, start).value;
              match ClassAt(chars, start, close)
              case Ok(item) => parsed.value == Ok((item, close + 1))
              case Err(e) => parsed.value == Err(e)
  {
    hide Operators, ReadRanges;
    var close := start;
    if close < |chars| && chars[close] == BANG { close := close + 1; }
    if close < |chars| && chars[close] == CLOSE { close := close + 1; }
    while close < |chars| && chars[close] != CLOSE
      invariant start <= close
      invariant ClassEnd(chars, start) == IndexFrom(chars, CLOSE, close)
    {
      close := close + 1;
    }
    if close >= |chars| { return None; }
    var body := chars[start..close];
    var negate := body[0] == BANG;
    var first := if negate then 1 else 0;
    var ops := MarkOperators(body, first);
    var ranges := CollectRanges(body, ops, first);
    match ranges
    case Err(e) => parsed := Some(Err(e));
    case Ok(rs) => parsed := Some(Ok((Class(negate, rs), close + 1)));
  }

  /** Emitting one more star, unless one was just emitted. */
  lemma EmitStar(chars: seq<CodePoint>, index: nat, items: seq<Item>)
    requires index < |chars| && chars[index] == STAR
    ensures var more := if Starred(items) then items else items + [Star];
            Starred(more) && items + Items(chars, index, Starred(items)) == more + Items(chars, index + 1, true)
  {
    var rest := Items(chars, index + 1, true);
    if Starred(items) {
      assert items + ([] + rest) == items + rest;
    } else {
      assert items + ([Star] + rest) == (items + [Star]) + rest;
    }
  }

  lemma EmitItem(chars: seq<CodePoint>, index: nat, items: seq<Item>)
    requires index < |chars| && chars[index] != STAR && ItemAt(chars, index).Ok?
    ensures var (item, next) := ItemAt(chars, index).value;
            !Starred(items + [item])
            && items + Items(chars, index, Starred(items)) == (items + [item]) + Items(chars, next, false)
  {
    var (item, next) := ItemAt(chars, index).value;
    var rest := Items(chars, next, false);
    assert items + ([item] + rest) == (items + [item]) + rest;
  }

  method CompileGlob(chars: seq<CodePoint>) returns (compiled: Result<seq<Item>, BadRange>)
    ensures compiled == match Fault(chars, 0)
                        case Some(e) => Err(e)
                        case None => Ok(Items(chars, 0, false))
  {
    var items: seq<Item> := [];
    var index := 0;
    assert items + Items(chars, 0, false) == Items(chars, 0, false);
    while index < |chars|
      invariant index <= |chars|
      invariant Fault(chars, 0) == Fault(chars, index)
      invariant Items(chars, 0, false) == items + Items(chars, index, Starred(items))
      decreases |chars| - index
    {
      if chars[index] == STAR {
        EmitStar(chars, index, items);
        if !Starred(items) { items := items + [Star]; }
        index := index + 1;
      } else {
        var parsed := NextItem(chars, index);
        if parsed.Err? { return Err(parsed.error); }
        EmitItem(chars, index, items);
        items := items + [parsed.value.0];
        index := parsed.value.1;
      }
    }
    assert items + [] == items;
    compiled := Ok(items);
  }

  method NextItem(chars: seq<CodePoint>, index: nat) returns (parsed: Result<(Item, nat), BadRange>)
    requires index < |chars| && chars[index] != STAR
    ensures parsed == ItemAt(chars, index)
  {
    if chars[index] == QUESTION { return Ok((AnyOne, index + 1)); }
    if chars[index] == OPEN {
      var found := ParseClass(chars, index + 1);
      if found.Some? { return found.value; }
    }
    parsed := Ok((Literal(chars[index]), index + 1));
  }

  predicate Starred(items: seq<Item>) {
    items != [] && items[|items| - 1].Star?
  }

  /** Compile and match: accepted exactly when the pattern means the name. */
  method GlobAccepts(pattern: seq<CodePoint>, name: seq<CodePoint>) returns (accepted: Result<bool, BadRange>)
    ensures accepted.Err? <==> Fault(pattern, 0).Some?
    ensures accepted.Ok? ==> (accepted.value <==> Means(pattern, 0, name))
  {
    var compiled := CompileGlob(pattern);
    match compiled
    case Err(e) => accepted := Err(e);
    case Ok(items) =>
      ItemsMean(pattern, 0, false, name);
      var matched := MatchItems(items, name);
      accepted := Ok(matched);
  }
}
