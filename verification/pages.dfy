/**
 How an observation is cut into pages (packages/mcp/src/research/observations.ts, lines 13 to 42).

 `PagesOf` is the rule both paginators of the source follow without sharing code: take a window of at
 most `size` code points and end it after its last newline, or at the limit when it has none.
 */
module Pages {
  import opened Text16

  /** The last newline before position `n`, or -1. */
  function LastNewline(points: seq<Point>, n: nat): (r: int)
    requires n <= |points|
    ensures -1 <= r < n
    ensures r >= 0 ==> points[r] == NEWLINE
    ensures forall i :: r < i < n ==> points[i] != NEWLINE
  {
    if n == 0 then -1 else if points[n - 1] == NEWLINE then n - 1 else LastNewline(points, n - 1)
  }

  /** Length of the first page. */
  function Cut(points: seq<Point>, size: nat): (c: nat)
    requires size >= 1 && points != []
    ensures 1 <= c <= |points| && c <= size
  {
    if |points| <= size then |points|
    else if LastNewline(points, size) >= 0 then LastNewline(points, size) + 1
    else size
  }

  function PagesOf(points: seq<Point>, size: nat): seq<seq<Point>>
    requires size >= 1
    decreases |points|
  {
    if points == [] then [] else
      var c := Cut(points, size);
      [points[..c]] + PagesOf(points[c..], size)
  }

  /** The pages on offer: an empty observation still has one, empty, page. */
  function OfferedPages(points: seq<Point>, size: nat): (pages: seq<seq<Point>>)
    requires size >= 1
    ensures |pages| >= 1
  {
    if points == [] then [[]] else PagesOf(points, size)
  }

  function Flatten(pages: seq<seq<Point>>): seq<Point> {
    if pages == [] then [] else pages[0] + Flatten(pages[1..])
  }

  // ---------------------------------------------------------------- what the pages are

  /** Nothing is lost: joining the pages gives the text back. */
  lemma {:induction false} PagesJoin(points: seq<Point>, size: nat)
    requires size >= 1
    ensures Flatten(PagesOf(points, size)) == points
    decreases |points|
  {
    if points != [] {
      var c := Cut(points, size);
      PagesJoin(points[c..], size);
      assert ([points[..c]] + PagesOf(points[c..], size))[1..] == PagesOf(points[c..], size);
      assert points[..c] + points[c..] == points;
    }
  }

  /** A page that is not the last ends at a newline, unless its whole window has none. */
  ghost predicate WellCut(page: seq<Point>, next: seq<Point>, size: nat) {
    && 1 <= |page| <= size
    && (|| page[|page| - 1] == NEWLINE
        || (|page| == size && NEWLINE !in page))
    // The window reaches on into the next page, with no further newline in it.
    && (forall i :: 0 <= i < |next| && |page| + i < size ==> next[i] != NEWLINE)
  }

  lemma {:induction false} PagesAreWellCut(points: seq<Point>, size: nat, k: nat)
    requires size >= 1 && k < |PagesOf(points, size)|
    ensures var pages := PagesOf(points, size);
            && 1 <= |pages[k]| <= size
            && (k + 1 < |pages| ==> WellCut(pages[k], pages[k + 1], size))
    decreases |points|
  {
    var c := Cut(points, size);
    var rest := PagesOf(points[c..], size);
    if k > 0 {
      PagesAreWellCut(points[c..], size, k - 1);
    } else if rest != [] {
      var next := rest[0];
      assert points[c..] != [];
      assert next == points[c..][..Cut(points[c..], size)];
      assert forall i :: 0 <= i < |next| ==> next[i] == points[c + i];
    }
  }

  /** What asking for page number `page` must give: the page number is clamped to the pages there are. */
  function PageText(text: Text, size: nat, page: int): Text
    requires size >= 1
  {
    var pages := OfferedPages(CodePoints(text), size);
    Encode16(pages[(if page < 1 then 1 else if page > |pages| then |pages| else page) - 1])
  }

  function JoinTexts(texts: seq<Text>): Text {
    if texts == [] then [] else texts[0] + JoinTexts(texts[1..])
  }

  lemma {:induction false} EncodedPagesJoin(pages: seq<seq<Point>>, texts: seq<Text>)
    requires |texts| == |pages| && forall i :: 0 <= i < |pages| ==> texts[i] == Encode16(pages[i])
    ensures JoinTexts(texts) == Encode16(Flatten(pages))
    decreases |pages|
  {
    if pages != [] {
      EncodedPagesJoin(pages[1..], texts[1..]);
      Encode16Concat(pages[0], Flatten(pages[1..]));
    }
  }

  /** The texts of all pages, one after the other, are the observation, whatever its units. */
  lemma PageTextsJoin(text: Text, size: nat, texts: seq<Text>)
    requires size >= 1 && |texts| == |OfferedPages(CodePoints(text), size)|
    requires forall i :: 0 <= i < |texts| ==> texts[i] == PageText(text, size, i + 1)
    ensures JoinTexts(texts) == text
  {
    var points := CodePoints(text);
    OffersEverything(points, size);
    EncodedPagesJoin(OfferedPages(points, size), texts);
    PointsEncodeBack(text);
  }

  lemma OffersEverything(points: seq<Point>, size: nat)
    requires size >= 1
    ensures Flatten(OfferedPages(points, size)) == points
  {
    PagesJoin(points, size);
    var blank: seq<seq<Point>> := [[]];
    assert blank[1..] == [] && Flatten(blank) == [];
  }

  // ---------------------------------------------------------------- closing a page

  /** The page in hand is complete: the next cut falls right after it. */
  lemma ClosesAt(page: seq<Point>, more: seq<Point>, size: nat)
    requires size >= 1 && page != [] && more != [] && Cut(page + more, size) == |page|
    ensures PagesOf(page + more, size) == [page] + PagesOf(more, size)
  {
    assert (page + more)[..|page|] == page && (page + more)[|page|..] == more;
  }

  /** Whole lines that leave no room for the next line. */
  lemma ClosesBeforeLine(page: seq<Point>, line: seq<Point>, more: seq<Point>, size: nat)
    requires size >= 1 && 1 <= |page| <= size < |page| + |line|
    requires page[|page| - 1] == NEWLINE && forall i :: 0 <= i < |line| - 1 ==> line[i] != NEWLINE
    ensures PagesOf(page + (line + more), size) == [page] + PagesOf(line + more, size)
  {
    var all := page + (line + more);
    assert all[|page| - 1] == NEWLINE;
    assert forall i :: |page| <= i < size ==> all[i] == line[i - |page|];
    ClosesAt(page, line + more, size);
  }

  /** A full page without a newline. */
  lemma ClosesWhenFull(page: seq<Point>, more: seq<Point>, size: nat)
    requires size >= 1 && |page| == size && more != [] && forall i :: 0 <= i < size ==> page[i] != NEWLINE
    ensures PagesOf(page + more, size) == [page] + PagesOf(more, size)
  {
    assert forall i :: 0 <= i < size ==> (page + more)[i] == page[i];
    ClosesAt(page, more, size);
  }

  // ---------------------------------------------------------------- lines

  /** The first newline from `from` on, or the length. */
  function FirstNewline(text: Text, from: nat): (r: nat)
    requires from <= |text|
    ensures from <= r <= |text|
    ensures r < |text| ==> text[r] == NEWLINE
    ensures forall i :: from <= i < r ==> text[i] != NEWLINE
    decreases |text| - from
  {
    if from == |text| || text[from] == NEWLINE then from else FirstNewline(text, from + 1)
  }

  /** `text.match(/[^\n]*\n|[^\n]+$/g)`: lines with their newline, and what follows the last newline. */
  function LinesOf(text: Text): seq<Text>
    decreases |text|
  {
    if text == [] then []
    else
      var n := FirstNewline(text, 0);
      if n == |text| then [text] else [text[..n + 1]] + LinesOf(text[n + 1..])
  }

  /** Not empty, and a newline at most at its end. */
  ghost predicate LineLike(points: seq<Point>) {
    points != [] && forall i :: 0 <= i < |points| - 1 ==> points[i] != NEWLINE
  }

  /** Only the last line may lack its newline. */
  ghost predicate ProperLines(lines: seq<Text>) {
    forall i :: 0 <= i < |lines| ==>
      && LineLike(lines[i])
      && (i < |lines| - 1 ==> lines[i][|lines[i]| - 1] == NEWLINE)
  }

  lemma ProperCons(line: Text, rest: seq<Text>)
    requires LineLike(line) && line[|line| - 1] == NEWLINE && ProperLines(rest)
    ensures ProperLines([line] + rest)
  {
    var lines := [line] + rest;
    forall i | 0 <= i < |lines|
      ensures LineLike(lines[i]) && (i < |lines| - 1 ==> lines[i][|lines[i]| - 1] == NEWLINE)
    {
      assert i == 0 || lines[i] == rest[i - 1];
    }
  }

  lemma {:induction false} LinesAreProper(text: Text)
    ensures ProperLines(LinesOf(text))
    decreases |text|
  {
    if text != [] {
      var n := FirstNewline(text, 0);
      if n < |text| {
        var line := text[..n + 1];
        assert forall i :: 0 <= i < n ==> line[i] == text[i];
        LinesAreProper(text[n + 1..]);
        ProperCons(line, LinesOf(text[n + 1..]));
      }
    }
  }

  lemma {:induction false} LinesJoin(text: Text)
    ensures JoinTexts(LinesOf(text)) == text
    decreases |text|
  {
    if text != [] {
      var n := FirstNewline(text, 0);
      if n == |text| {
        assert [text][1..] == [];
        assert text + JoinTexts([]) == text;
      } else {
        LinesJoin(text[n + 1..]);
        assert ([text[..n + 1]] + LinesOf(text[n + 1..]))[1..] == LinesOf(text[n + 1..]);
        assert text == text[..n + 1] + text[n + 1..];
      }
    }
  }

  /** The code points of a line are line-like too, with the newline in the same place. */
  lemma {:induction false} PointsOfLine(line: Text)
    requires LineLike(line)
    ensures LineLike(CodePoints(line))
    ensures (CodePoints(line)[|CodePoints(line)| - 1] == NEWLINE) == (line[|line| - 1] == NEWLINE)
    decreases |line|
  {
    hide CodePoints;
    var n := if PairAt(line, 0) then 2 else 1;
    var points, more := CodePoints(line), CodePoints(line[n..]);
    PointsStart(line);
    if n < |line| {
      assert forall i :: 0 <= i < |line[n..]| ==> line[n..][i] == line[n + i];
      PointsOfLine(line[n..]);
      forall i | 0 <= i < |points| - 1 ensures points[i] != NEWLINE {
        if i > 0 { assert points[i] == more[i - 1]; }
      }
    } else {
      NothingToRead(line[n..]);
    }
  }

  lemma NothingToRead(text: Text)
    requires text == []
    ensures CodePoints(text) == []
  {
  }
}
