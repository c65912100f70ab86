/**
 The line-grouping paginator (packages/mcp/src/research/observations.ts, lines 17 to 42), proved to
 produce the pages of `Pages.PagesOf`.
 */
module Paginator {
  import opened Wrappers
  import opened Text16
  import opened Pages

  /** Texts that stand for the given pages of code points. */
  ghost predicate Renders(texts: seq<Text>, pages: seq<seq<Point>>) {
    |texts| == |pages| && forall i :: 0 <= i < |texts| ==> texts[i] == Encode16(pages[i])
  }

  /** Pages closed so far, and the page in hand, of a text of which `more` is still to come. */
  ghost predicate InHand(all: seq<Point>, size: nat, closed: seq<seq<Point>>, page: seq<Point>, more: seq<Point>)
    requires size >= 1
  {
    PagesOf(all, size) == closed + PagesOf(page + more, size)
  }

  lemma CloseBeforeLine(all: seq<Point>, size: nat, closed: seq<seq<Point>>, page: seq<Point>, line: seq<Point>, more: seq<Point>)
    requires size >= 1 && InHand(all, size, closed, page, line + more)
    requires 1 <= |page| <= size < |page| + |line| && page[|page| - 1] == NEWLINE && LineLike(line)
    ensures InHand(all, size, closed + [page], [], line + more)
  {
    hide PagesOf, Cut;
    ClosesBeforeLine(page, line, more, size);
    assert [] + (line + more) == line + more;
    assert closed + ([page] + PagesOf(line + more, size)) == (closed + [page]) + PagesOf(line + more, size);
  }

  lemma CloseWhenFull(all: seq<Point>, size: nat, closed: seq<seq<Point>>, page: seq<Point>, more: seq<Point>)
    requires size >= 1 && InHand(all, size, closed, page, more)
    requires |page| == size && more != [] && forall i :: 0 <= i < size ==> page[i] != NEWLINE
    ensures InHand(all, size, closed + [page], [], more)
  {
    hide PagesOf, Cut;
    ClosesWhenFull(page, more, size);
    assert [] + more == more;
    assert closed + ([page] + PagesOf(more, size)) == (closed + [page]) + PagesOf(more, size);
  }

  /** Moving a part from what is to come into the page in hand. */
  lemma TakePart(all: seq<Point>, size: nat, closed: seq<seq<Point>>, page: seq<Point>, part: seq<Point>, more: seq<Point>)
    requires size >= 1 && InHand(all, size, closed, page, part + more)
    ensures InHand(all, size, closed, page + part, more)
  {
    assert page + (part + more) == (page + part) + more;
  }

  /** What a paginator may be asked: a page of a text, cut at `pageSize`. */
  datatype Chunk = Chunk(text: Text, page: nat, total: nat)

  datatype Refusal = BadPageSize

  method Paginate(text: Text, page: int, pageSize: int) returns (r: Result<Chunk, Refusal>)
    ensures r.Err? <==> pageSize <= 0
    ensures r.Ok? ==>
              var pages := OfferedPages(CodePoints(text), pageSize);
              && r.value.total == |pages|
              && r.value.page as int == (if page < 1 then 1 else if page > |pages| then |pages| else page)
              && r.value.text == PageText(text, pageSize, page)
  {
    if pageSize <= 0 { return Err(BadPageSize); }
    if text == [] { return Ok(Chunk([], 1, 1)); }
    ghost var all := CodePoints(text);
    ghost var pagesOfPoints: seq<seq<Point>>;
    var pages: seq<Text>;
    pages, pagesOfPoints := FillPages(text, pageSize);
    var total := |pages|;
    var chosen := if page < total then page else total;
    if chosen < 1 { chosen := 1; }
    assert pages[chosen - 1] == Encode16(pagesOfPoints[chosen - 1]);
    r := Ok(Chunk(pages[chosen - 1], chosen, total));
  }

  /** Group the lines of a text into pages, splitting a line that is longer than a page. */
  method FillPages(text: Text, size: nat) returns (pages: seq<Text>, ghost points: seq<seq<Point>>)
    requires size >= 1 && text != []
    ensures points == OfferedPages(CodePoints(text), size) && Renders(pages, points)
    ensures |pages| >= 1
  {
    hide PagesOf, CodePoints, LinesOf, Cut, InHand;
    var lines := LinesOf(text);
    LinesAreProper(text);
    LinesJoin(text);
    ghost var all := CodePoints(text);
    var current: Text := [];
    pages := [];
    var filled := 0;
    ghost var closed: seq<seq<Point>>, page: seq<Point> := [], [];
    var i := 0;
    NothingYet(all, size);
    while i < |lines|
      invariant 0 <= i <= |lines|
      invariant Renders(pages, closed) && current == Encode16(page) && filled == |page| <= size
      invariant i > 0 ==> page != []
      invariant page != [] && i < |lines| ==> page[|page| - 1] == NEWLINE
      invariant InHand(all, size, closed, page, CodePoints(JoinTexts(lines[i..])))
    {
      var line := lines[i];
      assert lines[i..][1..] == lines[i + 1..];
      ghost var more := CodePoints(JoinTexts(lines[i + 1..]));
      ghost var linePoints := CodePoints(line);
      LineThenRest(lines, i);
      PointsOfLine(line);
      var lineLength := CpLength(line);
      if filled > 0 && filled + lineLength > size {
        CloseBeforeLine(all, size, closed, page, linePoints, more);
        pages, closed := pages + [current], closed + [page];
        current, page, filled := [], [], 0;
      }
      pages, current, filled, closed, page := AddLine(all, line, size, pages, current, filled, closed, page, more);
      i := i + 1;
    }
    assert lines[i..] == [];
    pages, points := pages + [current], closed + [page];
    LastPage(text, size, closed, page, CodePoints(JoinTexts(lines[i..])));
  }

  lemma NothingYet(all: seq<Point>, size: nat)
    requires size >= 1
    ensures Encode16([]) == [] && InHand(all, size, [], [], all)
  {
    assert [] + all == all && [] + PagesOf(all, size) == PagesOf(all, size);
  }

  /** All lines placed: the page in hand is the last page. */
  lemma LastPage(text: Text, size: nat, closed: seq<seq<Point>>, page: seq<Point>, more: seq<Point>)
    requires size >= 1 && text != [] && page != [] && |page| <= size && more == CodePoints(JoinTexts([]))
    requires InHand(CodePoints(text), size, closed, page, more)
    ensures closed + [page] == OfferedPages(CodePoints(text), size)
  {
    assert page + more == page && page[..|page|] == page && page[|page|..] == [];
    assert PagesOf(page, size) == [page];
    FirstPoint(text);
  }

  lemma LineThenRest(lines: seq<Text>, i: nat)
    requires ProperLines(lines) && i < |lines|
    ensures CodePoints(JoinTexts(lines[i..])) == CodePoints(lines[i]) + CodePoints(JoinTexts(lines[i + 1..]))
  {
    assert lines[i..][1..] == lines[i + 1..];
    if i + 1 == |lines| {
      assert JoinTexts(lines[i + 1..]) == [];
      assert lines[i] + [] == lines[i];
      assert CodePoints(lines[i]) + [] == CodePoints(lines[i]);
    } else {
      PointsConcat(lines[i], JoinTexts(lines[i + 1..]));
    }
  }

  /** Put one part on the page in hand, or on a new page when it does not fit. */
  method PlacePart(ghost all: seq<Point>, size: nat, part: Text, ghost points: seq<Point>, ghost more: seq<Point>,
                   pagesIn: seq<Text>, currentIn: Text, filledIn: nat,
                   ghost closedIn: seq<seq<Point>>, ghost pageIn: seq<Point>)
    returns (pages: seq<Text>, current: Text, filled: nat, ghost closed: seq<seq<Point>>, ghost page: seq<Point>)
    requires size >= 1 && 1 <= |points| <= size && part == Encode16(points) && CodePoints(part) == points
    requires Renders(pagesIn, closedIn) && currentIn == Encode16(pageIn) && filledIn == |pageIn| <= size
    requires |pageIn| + |points| <= size || (|pageIn| == size && NoNewline(pageIn))
    requires InHand(all, size, closedIn, pageIn, points + more)
    ensures Renders(pages, closed) && current == Encode16(page) && filled == |page| <= size
    ensures page == if |pageIn| + |points| <= size then pageIn + points else points
    ensures InHand(all, size, closed, page, more)
  {
    pages, current, filled, closed, page := pagesIn, currentIn, filledIn, closedIn, pageIn;
    var partLength := CpLength(part);
    if filled > 0 && filled + partLength > size {
      CloseWhenFull(all, size, closed, page, points + more);
      pages, closed := pages + [current], closed + [page];
      current, page, filled := [], [], 0;
    }
    TakePart(all, size, closed, page, points, more);
    Encode16Concat(page, points);
    current, page, filled := current + part, page + points, filled + partLength;
    assert pageIn == [] ==> pageIn + points == points;
  }

  ghost predicate NoNewline(page: seq<Point>) { forall j :: 0 <= j < |page| ==> page[j] != NEWLINE }

  /** With the first `done` points of a line placed: what the page in hand holds, and what is to come. */
  ghost predicate Placed(all: seq<Point>, size: nat, points: seq<Point>, done: nat, more: seq<Point>,
                         closed: seq<seq<Point>>, pageIn: seq<Point>, page: seq<Point>)
    requires size >= 1
  {
    && done <= |points| && |page| <= size
    && (done == 0 ==> page == pageIn)
    && (done > 0 ==> EndsWith(page, points[..done]))
    && (0 < done < |points| ==> |page| == size && NoNewline(page))
    && InHand(all, size, closed, page, points[done..] + more)
  }

  /** The next part of a line can be placed. */
  lemma PlaceReady(all: seq<Point>, size: nat, points: seq<Point>, done: nat, to: nat, more: seq<Point>,
                   closed: seq<seq<Point>>, pageIn: seq<Point>, page: seq<Point>)
    requires size >= 1 && (pageIn == [] || |pageIn| + |points| <= size)
    requires Placed(all, size, points, done, more, closed, pageIn, page) && done < |points|
    requires to == if done + size < |points| then done + size else |points|
    ensures |page| + (to - done) <= size || (|page| == size && NoNewline(page))
    ensures InHand(all, size, closed, page, points[done..to] + (points[to..] + more))
  {
    SplitPart(points, done, to, more);
  }

  /** Placing the next part of a line, on the page in hand or on a new one. */
  lemma PlaceNext(all: seq<Point>, size: nat, points: seq<Point>, done: nat, to: nat, more: seq<Point>,
                  closed: seq<seq<Point>>, pageIn: seq<Point>, page: seq<Point>,
                  nextClosed: seq<seq<Point>>, nextPage: seq<Point>)
    requires size >= 1 && LineLike(points) && (pageIn == [] || |pageIn| + |points| <= size)
    requires Placed(all, size, points, done, more, closed, pageIn, page) && done < |points|
    requires to == if done + size < |points| then done + size else |points|
    requires nextPage == if |page| + (to - done) <= size then page + points[done..to] else points[done..to]
    requires InHand(all, size, nextClosed, nextPage, points[to..] + more)
    ensures Placed(all, size, points, to, more, nextClosed, pageIn, nextPage)
  {
    PartEnds(points, done, to, nextPage);
    if to < |points| {
      assert nextPage == points[done..to] by {
        if |page| + (to - done) <= size { assert page == []; }
      }
      assert forall j :: 0 <= j < |nextPage| ==> nextPage[j] == points[done + j];
    }
  }

  /** Append one line part by part; it fits the page in hand whole, or the page in hand is empty. */
  method AddLine(ghost all: seq<Point>, line: Text, size: nat, pagesIn: seq<Text>, currentIn: Text, filledIn: nat,
                 ghost closedIn: seq<seq<Point>>, ghost pageIn: seq<Point>, ghost more: seq<Point>)
    returns (pages: seq<Text>, current: Text, filled: nat, ghost closed: seq<seq<Point>>, ghost page: seq<Point>)
    requires size >= 1 && LineLike(CodePoints(line))
    requires Renders(pagesIn, closedIn) && currentIn == Encode16(pageIn) && filledIn == |pageIn| <= size
    requires pageIn == [] || |pageIn| + |CodePoints(line)| <= size
    requires InHand(all, size, closedIn, pageIn, CodePoints(line) + more)
    ensures Renders(pages, closed) && current == Encode16(page) && filled == |page| && 1 <= |page| <= size
    ensures page[|page| - 1] == CodePoints(line)[|CodePoints(line)| - 1]
    ensures InHand(all, size, closed, page, more)
  {
    hide PagesOf, CodePoints, Encode16, Cut, InHand;
    pages, current, filled, closed, page := pagesIn, currentIn, filledIn, closedIn, pageIn;
    ghost var points := CodePoints(line);
    var lineLength := CpLength(line);
    var start := 0;
    ghost var done: nat := 0;
    SplitPart(points, 0, 0, more);
    while start < lineLength
      invariant done == (if start < lineLength then start else lineLength)
      invariant Renders(pages, closed) && current == Encode16(page) && filled == |page|
      invariant Placed(all, size, points, done, more, closed, pageIn, page)
      decreases lineLength - start
    {
      var part := CpSlice(line, start, start + size);
      ghost var to := if start + size < lineLength then start + size else lineLength;
      ghost var partPoints, rest := points[start..to], points[to..] + more;
      assert CodePoints(part) == partPoints && part == Encode16(partPoints);
      PlaceReady(all, size, points, start, to, more, closed, pageIn, page);
      ghost var closedBefore, pageBefore := closed, page;
      pages, current, filled, closed, page :=
        PlacePart(all, size, part, partPoints, rest, pages, current, filled, closed, page);
      PlaceNext(all, size, points, start, to, more, closedBefore, pageIn, pageBefore, closed, page);
      done, start := to, start + size;
    }
    SplitPart(points, done, done, more);
  }

  ghost predicate EndsWith(page: seq<Point>, points: seq<Point>) {
    page != [] && points != [] && page[|page| - 1] == points[|points| - 1]
  }

  lemma SplitPart(points: seq<Point>, start: nat, to: nat, more: seq<Point>)
    requires start <= to <= |points|
    ensures points[start..] + more == points[start..to] + (points[to..] + more)
    ensures start == 0 ==> points[start..] == points
    ensures start == |points| ==> points[start..] + more == more && points[..start] == points
  {
  }

  lemma PartEnds(points: seq<Point>, start: nat, to: nat, page: seq<Point>)
    requires start < to <= |points| && to - start <= |page|
    requires page[|page| - (to - start)..] == points[start..to]
    ensures EndsWith(page, points[..to])
  {
    var part := points[start..to];
    assert part[|part| - 1] == points[to - 1] == points[..to][to - 1];
    assert page[|page| - |part|..][|part| - 1] == page[|page| - 1];
  }
}
