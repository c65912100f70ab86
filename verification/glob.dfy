/**
 Shell globs for one path component (packages/mcp/src/research/glob.ts).

 `Matches` is the declarative meaning of an item sequence and `Means` that of a pattern; the
 single-star backtracking loop and the pattern compiler are proved to decide exactly these.
 Characters are Unicode code points.
 */
module Glob {
  import S = Sequences

  type CodePoint = nat

  datatype Range = Range(low: CodePoint, high: CodePoint)

  datatype Item = Star | AnyOne | Literal(ch: CodePoint) | Class(negate: bool, ranges: seq<Range>)

  // ---------------------------------------------------------------- meaning of items

  predicate InRanges(ranges: seq<Range>, ch: CodePoint) {
    exists i :: 0 <= i < |ranges| && ranges[i].low <= ch <= ranges[i].high
  }

  predicate MatchOne(item: Item, ch: CodePoint) {
    match item
    case AnyOne => true
    case Literal(c) => c == ch
    case Class(negate, ranges) => InRanges(ranges, ch) != negate
    case Star => false
  }

  /** Each star stands for any run of characters, every other item for one character. */
  ghost predicate Matches(items: seq<Item>, name: seq<CodePoint>)
    decreases |items|
  {
    if items == [] then name == []
    else if items[0].Star? then exists k :: 0 <= k <= |name| && Matches(items[1..], name[k..])
    else name != [] && MatchOne(items[0], name[0]) && Matches(items[1..], name[1..])
  }

  /** Some suffix of `name`, from `from` on, matches. */
  ghost predicate MatchesFrom(items: seq<Item>, name: seq<CodePoint>, from: nat)
    requires from <= |name|
  {
    exists k :: from <= k <= |name| && Matches(items, name[k..])
  }

  /** `items` has no star and matches `name` character for character. */
  ghost predicate Lines(items: seq<Item>, name: seq<CodePoint>) {
    |items| == |name| && forall i :: 0 <= i < |items| ==> !items[i].Star? && MatchOne(items[i], name[i])
  }

  function Consuming(items: seq<Item>): nat {
    if items == [] then 0 else Consuming(items[1..]) + if items[0].Star? then 0 else 1
  }

  // ---------------------------------------------------------------- facts about matching

  lemma StarMeans(items: seq<Item>, name: seq<CodePoint>)
    requires items != [] && items[0].Star?
    ensures Matches(items, name) <==> MatchesFrom(items[1..], name, 0)
  {
  }

  /** A match needs a character for every item that is not a star. */
  lemma {:induction false} MatchNeedsLength(items: seq<Item>, name: seq<CodePoint>)
    requires Matches(items, name)
    ensures Consuming(items) <= |name|
    decreases |items|
  {
    if items != [] {
      if items[0].Star? {
        var k :| 0 <= k <= |name| && Matches(items[1..], name[k..]);
        MatchNeedsLength(items[1..], name[k..]);
      } else {
        MatchNeedsLength(items[1..], name[1..]);
      }
    }
  }

  lemma {:induction false} ConsumingSplits(a: seq<Item>, b: seq<Item>)
    ensures Consuming(a + b) == Consuming(a) + Consuming(b)
  {
    if a == [] {
      assert a + b == b;
    } else {
      assert (a + b)[1..] == a[1..] + b;
      ConsumingSplits(a[1..], b);
    }
  }

  lemma {:induction false} NoStarsConsumeAll(items: seq<Item>)
    requires forall i :: 0 <= i < |items| ==> !items[i].Star?
    ensures Consuming(items) == |items|
  {
    if items != [] {
      NoStarsConsumeAll(items[1..]);
    }
  }

  /** Star-free items at the front match exactly their own number of characters. */
  lemma {:induction false} FrontMatches(front: seq<Item>, rest: seq<Item>, name: seq<CodePoint>)
    requires forall i :: 0 <= i < |front| ==> !front[i].Star?
    ensures Matches(front + rest, name) <==>
            |front| <= |name| && Lines(front, name[..|front|]) && Matches(rest, name[|front|..])
    decreases |front|
  {
    if front == [] {
      assert front + rest == rest && name[0..] == name;
    } else {
      assert (front + rest)[1..] == front[1..] + rest;
      if name != [] {
        FrontMatches(front[1..], rest, name[1..]);
        if |front| <= |name| {
          assert name[1..][..|front| - 1] == name[..|front|][1..];
          assert name[1..][|front| - 1..] == name[|front|..];
          var here := name[..|front|];
          assert Lines(front, here) <==> MatchOne(front[0], here[0]) && Lines(front[1..], here[1..]) by {
            if MatchOne(front[0], here[0]) && Lines(front[1..], here[1..]) {
              forall i | 0 <= i < |front| ensures MatchOne(front[i], here[i]) {
                assert i == 0 || MatchOne(front[1..][i - 1], here[1..][i - 1]);
              }
            }
          }
        }
      }
    }
  }

  /** The next star makes the position of the star before it irrelevant. */
  lemma NextStar(front: seq<Item>, rest: seq<Item>, name: seq<CodePoint>, from: nat)
    requires rest != [] && rest[0].Star?
    requires from + |front| <= |name| && Lines(front, name[from..from + |front|])
    ensures MatchesFrom(front + rest, name, from) <==> MatchesFrom(rest[1..], name, from + |front|)
  {
    hide Matches, MatchOne;
    var next := from + |front|;
    if MatchesFrom(front + rest, name, from) {
      var k :| from <= k <= |name| && Matches(front + rest, name[k..]);
      FrontMatches(front, rest, name[k..]);
      S.DropDrop(name, k, |front|);
      StarMeans(rest, name[k + |front|..]);
      var j :| 0 <= j <= |name[k + |front|..]| && Matches(rest[1..], name[k + |front|..][j..]);
      S.DropDrop(name, k + |front|, j);
    }
    if MatchesFrom(rest[1..], name, next) {
      var k :| next <= k <= |name| && Matches(rest[1..], name[k..]);
      S.DropDrop(name, next, k - next);
      StarMeans(rest, name[next..]);
      S.DropDrop(name, from, |front|);
      FrontMatches(front, rest, name[from..]);
    }
  }

  /** A mismatch right after star-free items rules out the current start, so the star takes one more. */
  lemma Backtrack(front: seq<Item>, rest: seq<Item>, name: seq<CodePoint>, from: nat)
    requires from + |front| < |name| && Lines(front, name[from..from + |front|])
    requires rest == [] || (!rest[0].Star? && !MatchOne(rest[0], name[from + |front|]))
    ensures MatchesFrom(front + rest, name, from) <==> MatchesFrom(front + rest, name, from + 1)
  {
    FrontMatches(front, rest, name[from..]);
    assert name[from..][|front|..] == name[from + |front|..];
  }

  /** With the name used up, what is left must be stars only. */
  lemma NameUsedUp(front: seq<Item>, rest: seq<Item>, name: seq<CodePoint>, from: nat)
    requires from + |front| == |name| && Lines(front, name[from..])
    requires rest != [] ==> !rest[0].Star?
    ensures MatchesFrom(front + rest, name, from) <==> rest == []
  {
    if rest == [] {
      FrontMatches(front, rest, name[from..]);
      assert name[from..][..|front|] == name[from..];
      assert Matches(rest, name[from..][|front|..]);
    } else if MatchesFrom(front + rest, name, from) {
      var k :| from <= k <= |name| && Matches(front + rest, name[k..]);
      MatchNeedsLength(front + rest, name[k..]);
      ConsumingSplits(front, rest);
      NoStarsConsumeAll(front);
    }
  }

  lemma {:induction false} TrailingStars(stars: seq<Item>, rest: seq<Item>, name: seq<CodePoint>)
    requires forall i :: 0 <= i < |stars| ==> stars[i].Star?
    ensures Matches(stars + rest, name) <==> (if stars == [] then Matches(rest, name) else MatchesFrom(rest, name, 0))
    decreases |stars|
  {
    if stars == [] {
      assert stars + rest == rest;
    } else {
      var more := stars[1..] + rest;
      assert (stars + rest)[1..] == more;
      forall k | 0 <= k <= |name|
        ensures Matches(more, name[k..]) <==> if |stars| == 1 then Matches(rest, name[k..]) else MatchesFrom(rest, name[k..], 0)
      {
        TrailingStars(stars[1..], rest, name[k..]);
      }
      if |stars| > 1 {
        if MatchesFrom(rest, name, 0) {
          assert name[0..] == name;
          assert Matches(more, name[0..]);
        }
        if k :| 0 <= k <= |name| && Matches(more, name[k..]) {
          var j :| 0 <= j <= |name[k..]| && Matches(rest, name[k..][j..]);
          assert name[k..][j..] == name[k + j..];
        }
      }
    }
  }

  // ---------------------------------------------------------------- the matcher

  /**
   What the loop knows between steps: before the first star, the rest of the items must match the rest
   of the name; after it, the items since the last star line up with the characters since its choice,
   and the whole match turns on where that star ends.
   */
  ghost predicate Knows(items: seq<Item>, name: seq<CodePoint>, item: nat, at: nat, starItem: int, starChar: nat) {
    && item <= |items| && starChar <= at <= |name| && (starItem == -1 || 0 <= starItem < item)
    && (starItem < 0 ==> starChar == 0 && (Matches(items, name) <==> Matches(items[item..], name[at..])))
    && (starItem >= 0 ==>
          && item == starItem + 1 + (at - starChar)
          && Lines(items[starItem + 1..item], name[starChar..at])
          && (Matches(items, name) <==> MatchesFrom(items[starItem + 1..], name, starChar)))
  }

  /** Match with single-star backtracking; every item that is not a star consumes one character. */
  method MatchItems(items: seq<Item>, name: seq<CodePoint>) returns (matched: bool)
    ensures matched <==> Matches(items, name)
  {
    hide Matches, Knows;
    var item: nat, at: nat := 0, 0;
    var starItem: int, starChar: nat := -1, 0;
    NothingKnown(items, name);
    while at < |name|
      invariant item <= |items| && starChar <= at <= |name| && (starItem == -1 || 0 <= starItem < item)
      invariant Knows(items, name, item, at, starItem, starChar)
      decreases |name| - starChar, |items| - item
    {
      if item < |items| && !items[item].Star? && MatchOne(items[item], name[at]) {
        StepOver(items, name, item, at, starItem, starChar);
        item, at := item + 1, at + 1;
      } else if item < |items| && items[item].Star? {
        MeetStar(items, name, item, at, starItem, starChar);
        starItem, starChar, item := item, at, item + 1;
      } else if starItem >= 0 {
        TakeOneMore(items, name, item, at, starItem, starChar);
        item, starChar := starItem + 1, starChar + 1;
        at := starChar;
      } else {
        NoStarToRetry(items, name, item, at, starItem, starChar);
        return false;
      }
    }
    ghost var stop := item;
    while item < |items| && items[item].Star?
      invariant stop <= item <= |items|
      invariant forall i :: stop <= i < item ==> items[i].Star?
    {
      item := item + 1;
    }
    matched := item == |items|;
    AtEnd(items, name, stop, item, starItem, starChar);
  }

  lemma NothingKnown(items: seq<Item>, name: seq<CodePoint>)
    ensures Knows(items, name, 0, 0, -1, 0)
  {
    assert items[0..] == items && name[0..] == name;
  }

  /** A mismatch before any star. */
  lemma NoStarToRetry(items: seq<Item>, name: seq<CodePoint>, item: nat, at: nat, starItem: int, starChar: nat)
    requires Knows(items, name, item, at, starItem, starChar) && starItem < 0 && at < |name|
    requires item == |items| || (!items[item].Star? && !MatchOne(items[item], name[at]))
    ensures !Matches(items, name)
  {
  }

  /** One character and one item further. */
  lemma StepOver(items: seq<Item>, name: seq<CodePoint>, item: nat, at: nat, starItem: int, starChar: nat)
    requires Knows(items, name, item, at, starItem, starChar) && item < |items| && at < |name|
    requires !items[item].Star? && MatchOne(items[item], name[at])
    ensures Knows(items, name, item + 1, at + 1, starItem, starChar)
  {
    assert items[item..][1..] == items[item + 1..] && name[at..][1..] == name[at + 1..];
    if starItem >= 0 {
      assert items[starItem + 1..item + 1] == items[starItem + 1..item] + [items[item]];
      assert name[starChar..at + 1] == name[starChar..at] + [name[at]];
    }
  }

  /** Meeting a star: the earlier star's choice no longer matters. */
  lemma MeetStar(items: seq<Item>, name: seq<CodePoint>, item: nat, at: nat, starItem: int, starChar: nat)
    requires Knows(items, name, item, at, starItem, starChar) && item < |items| && items[item].Star?
    ensures Knows(items, name, item + 1, at, item, at)
  {
    assert items[item..][1..] == items[item + 1..];
    if starItem < 0 {
      assert forall k :: 0 <= k <= |name[at..]| ==> name[at..][k..] == name[at + k..];
      if k :| at <= k <= |name| && Matches(items[item + 1..], name[k..]) {
        assert name[at..][k - at..] == name[k..];
      }
    } else {
      assert items[starItem + 1..] == items[starItem + 1..item] + items[item..];
      NextStar(items[starItem + 1..item], items[item..], name, starChar);
    }
  }

  /** A mismatch after a star: the star takes one more character. */
  lemma TakeOneMore(items: seq<Item>, name: seq<CodePoint>, item: nat, at: nat, starItem: int, starChar: nat)
    requires Knows(items, name, item, at, starItem, starChar) && starItem >= 0 && at < |name|
    requires item == |items| || (!items[item].Star? && !MatchOne(items[item], name[at]))
    ensures Knows(items, name, starItem + 1, starChar + 1, starItem, starChar + 1)
  {
    assert items[starItem + 1..] == items[starItem + 1..item] + items[item..];
    Backtrack(items[starItem + 1..item], items[item..], name, starChar);
  }

  /** With the name used up and no star passed, only stars may remain. */
  lemma EndWithoutStar(items: seq<Item>, name: seq<CodePoint>, stop: nat, item: nat)
    requires stop <= item <= |items|
    requires forall i :: stop <= i < item ==> items[i].Star?
    requires item < |items| ==> !items[item].Star?
    ensures Matches(items[stop..], name[|name|..]) <==> item == |items|
  {
    var rest, nothing := items[item..], name[|name|..];
    assert items[stop..] == items[stop..item] + rest;
    TrailingStars(items[stop..item], rest, nothing);
    assert nothing[0..] == nothing;
    if rest != [] && Matches(rest, nothing) {
      MatchNeedsLength(rest, nothing);
    }
  }

  /** After the name is used up, only stars may remain. */
  lemma AtEnd(items: seq<Item>, name: seq<CodePoint>, stop: nat, item: nat, starItem: int, starChar: nat)
    requires Knows(items, name, stop, |name|, starItem, starChar) && stop <= item <= |items|
    requires forall i :: stop <= i < item ==> items[i].Star?
    requires item < |items| ==> !items[item].Star?
    ensures Matches(items, name) <==> item == |items|
  {
    hide Matches, Consuming;
    if starItem < 0 {
      EndWithoutStar(items, name, stop, item);
    } else {
      var front := items[starItem + 1..stop];
      assert items[starItem + 1..] == front + items[stop..];
      if stop == item {
        assert name[starChar..] == name[starChar..|name|];
        NameUsedUp(front, items[item..], name, starChar);
      } else {
        NextStar(front, items[stop..], name, starChar);
        assert items[stop..][1..] == items[stop + 1..];
        EndWithoutStar(items, name, stop + 1, item);
      }
    }
  }
}
