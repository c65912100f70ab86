/**
 The disk-backed observation store (packages/mcp/src/research/observations.ts, lines 61 to 185).

 A step's text is cut into pages while it is written: UTF-8 bytes go to one file, and one fixed-width
 record per page, two big-endian 64-bit offsets, to another. Files are byte sequences. Page metadata
 and the footer text are not kept.
 */
module Observations {
  import opened Wrappers
  import opened Text16
  import opened Utf8
  import opened Pages
  import S = Sequences

  // ---------------------------------------------------------------- lone surrogates

  /** The strict encoder's test: a surrogate without its partner. */
  predicate LoneAt(text: Text, i: nat)
    requires i < |text|
  {
    || (High(text[i]) && !(i + 1 < |text| && Low(text[i + 1])))
    || (Low(text[i]) && !(i > 0 && High(text[i - 1])))
  }

  predicate HasLone(text: Text) { exists i :: 0 <= i < |text| && LoneAt(text, i) }

  /** A text is refused exactly when one of its code points has no UTF-8 encoding. */
  lemma {:induction false} LoneExactly(text: Text)
    ensures HasLone(text) <==> !AllScalar(CodePoints(text))
    decreases |text|
  {
    if text != [] {
      var n := if PairAt(text, 0) then 2 else 1;
      var rest, points := text[n..], CodePoints(text);
      LoneExactly(rest);
      assert points == [points[0]] + CodePoints(rest);
      assert AllScalar(points) <==> Scalar(points[0]) && AllScalar(CodePoints(rest)) by {
        assert forall i :: 0 <= i < |CodePoints(rest)| ==> points[i + 1] == CodePoints(rest)[i];
      }
      if n == 1 && (High(text[0]) || Low(text[0])) {
        assert LoneAt(text, 0);
      } else {
        LoneAfter(text, n);
      }
    }
  }

  /** Past a first code point that is not a lone surrogate, loneness is that of the rest. */
  lemma LoneAfter(text: Text, n: nat)
    requires n == (if PairAt(text, 0) then 2 else 1) && n <= |text|
    requires n == 1 ==> !High(text[0]) && !Low(text[0])
    ensures HasLone(text) <==> HasLone(text[n..])
  {
    var rest := text[n..];
    assert forall i :: 0 <= i < |rest| ==> rest[i] == text[n + i];
    if HasLone(text) {
      var i :| 0 <= i < |text| && LoneAt(text, i);
      assert n <= i && LoneAt(rest, i - n);
    }
    if HasLone(rest) {
      var i :| 0 <= i < |rest| && LoneAt(rest, i);
      assert LoneAt(text, n + i);
    }
  }

  /** UTF-8 encode, refusing lone surrogates. */
  method EncodeStrict(text: Text) returns (r: Option<seq<Byte>>)
    ensures r.Some? ==> AllScalar(CodePoints(text)) && r.value == Encode8(CodePoints(text))
    ensures r.None? ==> !AllScalar(CodePoints(text))
  {
    LoneExactly(text);
    r := if HasLone(text) then None else Some(Encode8(CodePoints(text)));
  }

  // ---------------------------------------------------------------- index records

  const RECORD: nat := 16

  /** `k` big-endian bytes of `n`. */
  function BigEndian(n: nat, k: nat): (bytes: seq<Byte>)
    ensures |bytes| == k
  {
    if k == 0 then [] else BigEndian(n / 256, k - 1) + [n % 256]
  }

  function ReadBigEndian(bytes: seq<Byte>): nat {
    if bytes == [] then 0 else ReadBigEndian(bytes[..|bytes| - 1]) * 256 + bytes[|bytes| - 1]
  }

  function Power256(k: nat): (p: nat)
    ensures p >= 1
  {
    if k == 0 then 1 else 256 * Power256(k - 1)
  }

  lemma {:induction false} BigEndianRoundTrip(n: nat, k: nat)
    requires n < Power256(k)
    ensures ReadBigEndian(BigEndian(n, k)) == n
  {
    if k > 0 {
      BigEndianRoundTrip(n / 256, k - 1);
      var bytes := BigEndian(n, k);
      assert bytes[..|bytes| - 1] == BigEndian(n / 256, k - 1);
    }
  }

  /** The most significant byte comes first. */
  lemma {:induction false} FirstByteCounts(b: Byte, rest: seq<Byte>)
    ensures ReadBigEndian([b] + rest) == b * Power256(|rest|) + ReadBigEndian(rest)
    decreases |rest|
  {
    var all := [b] + rest;
    if rest == [] {
      assert all[..0] == [];
    } else {
      assert all[..|all| - 1] == [b] + rest[..|rest| - 1];
      FirstByteCounts(b, rest[..|rest| - 1]);
      TimesShift(b, Power256(|rest| - 1));
    }
  }

  lemma TimesShift(b: nat, p: nat)
    ensures b * p * 256 == b * (256 * p)
  {
  }

  function Record(from: nat, to: nat): (bytes: seq<Byte>)
    ensures |bytes| == RECORD
  {
    BigEndian(from, 8) + BigEndian(to, 8)
  }

  /** The index of pages whose first byte is at `offset`: each record starts where the last one ended. */
  function IndexOf(pages: seq<seq<Point>>, offset: nat): seq<Byte> {
    if pages == [] then [] else
      var next := offset + |Encode8(pages[0])|;
      Record(offset, next) + IndexOf(pages[1..], next)
  }

  /** Byte offset of page `k` in the file that starts with the pages at `offset`. */
  function StartOfPage(pages: seq<seq<Point>>, offset: nat, k: nat): nat
    requires k <= |pages|
  {
    if k == 0 then offset else StartOfPage(pages[1..], offset + |Encode8(pages[0])|, k - 1)
  }

  lemma {:induction false} RecordAt(pages: seq<seq<Point>>, offset: nat, k: nat)
    requires k < |pages|
    ensures |IndexOf(pages, offset)| == RECORD * |pages|
    ensures IndexOf(pages, offset)[RECORD * k..RECORD * k + RECORD]
         == Record(StartOfPage(pages, offset, k), StartOfPage(pages, offset, k + 1))
    decreases |pages|
  {
    var next := offset + |Encode8(pages[0])|;
    var index, rest := IndexOf(pages, offset), IndexOf(pages[1..], next);
    if |pages| > 1 {
      RecordAt(pages[1..], next, if k > 0 then k - 1 else 0);
    }
    if k > 0 {
      assert index[RECORD * k..RECORD * k + RECORD] == rest[RECORD * (k - 1)..RECORD * (k - 1) + RECORD];
    }
  }

  lemma {:induction false} IndexConcat(a: seq<seq<Point>>, page: seq<Point>, offset: nat)
    ensures var from := offset + |Encode8(Flatten(a))|;
            IndexOf(a + [page], offset) == IndexOf(a, offset) + Record(from, from + |Encode8(page)|)
    decreases |a|
  {
    hide EncodePoint, Record;
    if a == [] {
      S.Ends([page]);
      S.Ends(Record(offset, offset + |Encode8(page)|));
    } else {
      S.Head(a, [page]);
      var next := offset + |Encode8(a[0])|;
      IndexConcat(a[1..], page, next);
      Encode8Concat(a[0], Flatten(a[1..]));
      var from := next + |Encode8(Flatten(a[1..]))|;
      S.Assoc(Record(offset, next), IndexOf(a[1..], next), Record(from, from + |Encode8(page)|));
    }
  }

  /** The bytes between two neighbouring page offsets are exactly that page: no gap, no overlap. */
  lemma {:induction false} PagesTile(pages: seq<seq<Point>>, before: seq<Byte>, k: nat)
    requires k < |pages|
    ensures var file := before + Encode8(Flatten(pages));
            var from, to := StartOfPage(pages, |before|, k), StartOfPage(pages, |before|, k + 1);
            from <= to <= |file| && file[from..to] == Encode8(pages[k])
    decreases |pages|
  {
    hide EncodePoint, Cut, Encode8;
    var file := before + Encode8(Flatten(pages));
    var head := Encode8(pages[0]);
    Encode8Concat(pages[0], Flatten(pages[1..]));
    S.Assoc(before, head, Encode8(Flatten(pages[1..])));
    if k == 0 {
      assert StartOfPage(pages, |before|, 1) == |before| + |head|;
      S.Middle(before, head, Encode8(Flatten(pages[1..])));
    } else {
      PagesTile(pages[1..], before + head, k - 1);
    }
  }

  // ---------------------------------------------------------------- finding the cut in units

  /** The last newline unit before position `n`, or -1. */
  function LastNewlineUnit(text: Text, n: nat): (r: int)
    requires n <= |text|
    ensures -1 <= r < n
    ensures r >= 0 ==> text[r] == NEWLINE
    ensures forall i :: r < i < n ==> text[i] != NEWLINE
  {
    if n == 0 then -1 else if text[n - 1] == NEWLINE then n - 1 else LastNewlineUnit(text, n - 1)
  }

  /** One more code point at the end of the searched stretch. */
  lemma NewlineStep(text: Text, points: seq<Point>, m: nat)
    requires points == CodePoints(text) && m < |points|
    ensures Offset(points, m) < Offset(points, m + 1) <= |text|
    ensures points[m] == NEWLINE ==> Offset(points, m + 1) == Offset(points, m) + 1 && text[Offset(points, m)] == NEWLINE
    ensures points[m] != NEWLINE ==>
              LastNewlineUnit(text, Offset(points, m + 1)) == LastNewlineUnit(text, Offset(points, m))
  {
    StepOverPoint(text, points, m);
  }

  /** The last newline of a window, found in units, is the last newline of its code points. */
  lemma {:induction false} NewlineInWindow(text: Text, points: seq<Point>, k: nat, m: nat)
    requires points == CodePoints(text) && k <= m <= |points|
    ensures Offset(points, k) <= Offset(points, m) <= |text|
    ensures var u, j := LastNewlineUnit(text, Offset(points, m)), LastNewline(points, m);
            && (j >= k ==> u >= Offset(points, k) && u + 1 == Offset(points, j + 1))
            && (j < k ==> u < Offset(points, k))
    decreases m - k
  {
    hide Offset, CodePoints;
    if k < m {
      NewlineInWindow(text, points, k, m - 1);
      NewlineStep(text, points, m - 1);
    } else {
      OffsetWithin(text, points, k);
    }
  }

  lemma OffsetWithin(text: Text, points: seq<Point>, k: nat)
    requires points == CodePoints(text) && k <= |points|
    ensures Offset(points, k) <= |text|
    ensures Offset(points, k) == |text| <==> k == |points|
    ensures k == 0 ==> Offset(points, k) == 0
  {
    OffsetEnds(text, points);
    OffsetMonotone(points, k, |points|);
  }

  // ---------------------------------------------------------------- the store

  datatype Stored = Stored(characters: nat, pages: nat)

  datatype PutError = BadStep | LoneSurrogate

  datatype ReadError = UnknownStep | Unreadable

  /** Integers up to here are exact as JavaScript numbers, which is what a read offset becomes. */
  const EXACT: nat := 0x20_0000_0000_0000

  /** Far above the longest string an engine can hold; four bytes for each unit stay exact. */
  const STRING_LENGTH_LIMIT: nat := 0x8_0000_0000_0000

  /** How many pages stand before the first that has no encoding. */
  function EncodablePages(pages: seq<seq<Point>>): (n: nat)
    ensures n <= |pages|
  {
    if pages == [] || !AllScalar(pages[0]) then 0 else 1 + EncodablePages(pages[1..])
  }

  /** What a `put` writes, whether it goes through or is refused on the way. */
  function KeptPages(points: seq<Point>, size: nat): (pages: seq<seq<Point>>)
    requires size >= 1
    ensures pages <= PagesOf(points, size)
  {
    PagesOf(points, size)[..EncodablePages(PagesOf(points, size))]
  }

  /** A descriptor, a file and an index that keep `text`, page by page. */
  ghost predicate Holds(text: Text, size: nat, stored: Stored, file: seq<Byte>, index: seq<Byte>)
    requires size >= 1
  {
    var points := CodePoints(text);
    && |text| < STRING_LENGTH_LIMIT && AllScalar(points)
    && stored == Stored(|points|, |OfferedPages(points, size)|)
    && file == Encode8(points)
    && index == IndexOf(OfferedPages(points, size), 0)
  }

  /** The files of every step in `whole` hold its text. */
  ghost predicate KeepsAll(size: nat, whole: map<int, Text>, byStep: map<int, Stored>,
                           files: map<int, seq<Byte>>, indexes: map<int, seq<Byte>>)
    requires size >= 1
  {
    forall s :: s in whole ==>
      s in byStep && s in files && s in indexes && Holds(whole[s], size, byStep[s], files[s], indexes[s])
  }

  /** Two maps that differ at most at `step`. */
  ghost predicate OnlyAt<T>(step: int, before: map<int, T>, now: map<int, T>) {
    && before.Keys <= now.Keys <= before.Keys + {step}
    && forall s :: s in before && s != step ==> now[s] == before[s]
  }

  /** Changing what belongs to one step keeps the others. */
  lemma KeptElsewhere(step: int, size: nat, whole: map<int, Text>, byStep: map<int, Stored>,
                      files: map<int, seq<Byte>>, indexes: map<int, seq<Byte>>,
                      wholeNow: map<int, Text>, byStepNow: map<int, Stored>,
                      filesNow: map<int, seq<Byte>>, indexesNow: map<int, seq<Byte>>)
    requires size >= 1 && KeepsAll(size, whole, byStep, files, indexes)
    requires OnlyAt(step, byStep, byStepNow) && OnlyAt(step, files, filesNow) && OnlyAt(step, indexes, indexesNow)
    requires forall s :: s in wholeNow && s != step ==> s in whole && wholeNow[s] == whole[s]
    requires step in wholeNow ==>
               && step in byStepNow && step in filesNow && step in indexesNow
               && Holds(wholeNow[step], size, byStepNow[step], filesNow[step], indexesNow[step])
    ensures KeepsAll(size, wholeNow, byStepNow, filesNow, indexesNow)
  {
  }

  lemma Overwritten<T>(m: map<int, T>, k: int, a: T, b: T)
    ensures m[k := a][k := b] == m[k := b]
  {
  }

  class ObservationStore {
    const pageSize: nat
    var byStep: map<int, Stored>
    var files: map<int, seq<Byte>>
    var indexes: map<int, seq<Byte>>
    /** The texts whose files were written to the end. */
    ghost var whole: map<int, Text>

    ghost predicate Valid()
      reads this
    {
      && pageSize >= 1 && KeepsAll(pageSize, whole, byStep, files, indexes)
      && byStep.Keys <= files.Keys && byStep.Keys <= indexes.Keys
    }

    constructor (pageSize: nat)
      requires pageSize >= 1
      ensures Valid() && this.pageSize == pageSize && whole == map[] && byStep == map[]
    {
      this.pageSize := pageSize;
      byStep, files, indexes, whole := map[], map[], map[], map[];
    }

    /** `text.lastIndexOf("\n", end - 1)`. */
    method FindNewline(text: Text, end: nat) returns (r: int)
      requires end <= |text|
      ensures r == LastNewlineUnit(text, end)
    {
      r := end - 1;
      while r >= 0 && text[r] != NEWLINE
        invariant -1 <= r < end
        invariant LastNewlineUnit(text, end) == LastNewlineUnit(text, r + 1)
      {
        r := r - 1;
      }
    }

    /** The end of the page that starts at unit `start`, which is code point number `k`. */
    method PageEnd(text: Text, start: nat, ghost k: nat) returns (end: nat)
      requires pageSize >= 1 && k < |CodePoints(text)| && start == Offset(CodePoints(text), k)
      ensures start < end <= |text|
      ensures end == EndOfPage(CodePoints(text), k, pageSize)
    {
      end := CpAdvance(text, start, pageSize, k);
      WindowEnds(text, k, pageSize);
      if end < |text| {
        var newline := FindNewline(text, end);
        if newline >= start { end := newline + 1; }
      }
    }

    /** Write `text` as the observation of `step`, cutting pages at code-point boundaries. */
    method Put(step: int, text: Text) returns (r: Result<(), PutError>)
      requires Valid() && |text| < STRING_LENGTH_LIMIT
      modifies this
      ensures Valid()
      ensures step < 1 ==>
                r == Err(BadStep) && whole == old(whole) && byStep == old(byStep) && files == old(files) && indexes == old(indexes)
      // A refusal leaves the pages before the first that has no encoding; an earlier descriptor stays.
      ensures step >= 1 ==>
                var points, kept := CodePoints(text), KeptPages(CodePoints(text), pageSize);
                && r == (if AllScalar(points) then Ok(()) else Err(LoneSurrogate))
                && files == old(files)[step := Encode8(Flatten(kept))]
                && indexes == old(indexes)[step := if text == [] then Record(0, 0) else IndexOf(kept, 0)]
                && byStep == (if r.Ok? then old(byStep)[step := Stored(|points|, |OfferedPages(points, pageSize)|)] else old(byStep))
                && whole == (if r.Ok? then old(whole)[step := text] else old(whole) - {step})
    {
      hide Encode8, IndexOf, PagesOf, Flatten, Record, CodePoints, Holds, KeptPages, KeepsAll, WroteAll;
      hide AllScalar, OfferedPages;
      if step < 1 { return Err(BadStep); }
      Truncate(step);
      ghost var f, i := files, indexes;
      var complete, characters, pages := WritePages(step, text);
      KeptElsewhere(step, pageSize, whole, byStep, f, i, whole, byStep, files, indexes);
      Overwritten(old(files), step, [], files[step]);
      Overwritten(old(indexes), step, [], indexes[step]);
      ghost var written := indexes[step];
      NoPoints(text);
      if !complete { return Err(LoneSurrogate); }
      Describe(step, text, characters, pages);
      Overwritten(old(indexes), step, written, indexes[step]);
      r := Ok(());
    }

    /** Opening the two files for writing truncates them. */
    method Truncate(step: int)
      requires Valid()
      modifies this`files, this`indexes, this`whole
      ensures Valid() && whole == old(whole) - {step}
      ensures files == old(files)[step := []] && indexes == old(indexes)[step := []]
    {
      ghost var w, f, i := whole, files, indexes;
      whole := whole - {step};
      files, indexes := files[step := []], indexes[step := []];
      KeptElsewhere(step, pageSize, w, byStep, f, i, whole, byStep, files, indexes);
    }

    /** The end of `put`: the record of an empty text, and the descriptor. */
    method Describe(step: int, text: Text, characters: nat, written: nat)
      requires Valid() && |text| < STRING_LENGTH_LIMIT && step in files && step in indexes
      requires WroteAll(text, pageSize, characters, written, files[step], indexes[step])
      modifies this`indexes, this`byStep, this`whole
      ensures Valid() && whole == old(whole)[step := text]
      ensures byStep == old(byStep)[step := Stored(|CodePoints(text)|, |OfferedPages(CodePoints(text), pageSize)|)]
      ensures indexes == if text == [] then old(indexes)[step := Record(0, 0)] else old(indexes)
    {
      hide Encode8, IndexOf, PagesOf, Flatten, Scalar, CodePoints, BigEndian, Record;
      ghost var w, b, i := whole, byStep, indexes;
      NoPoints(text);
      var pages := written;
      if pages == 0 {
        indexes := indexes[step := Record(0, 0)];
        pages := 1;
      }
      byStep := byStep[step := Stored(characters, pages)];
      whole := whole[step := text];
      assert Holds(text, pageSize, byStep[step], files[step], indexes[step]);
      KeptElsewhere(step, pageSize, w, b, files, i, whole, byStep, files, indexes);
    }

    /** The loop of `put`: append page after page to the two files, up to a page that has no encoding. */
    method WritePages(step: int, text: Text) returns (complete: bool, characters: nat, pages: nat)
      requires pageSize >= 1
      requires step in files && files[step] == [] && step in indexes && indexes[step] == []
      modifies this`files, this`indexes
      ensures var kept := KeptPages(CodePoints(text), pageSize);
              && files == old(files)[step := Encode8(Flatten(kept))]
              && indexes == old(indexes)[step := IndexOf(kept, 0)]
      ensures complete == AllScalar(CodePoints(text))
      ensures complete ==> WroteAll(text, pageSize, characters, pages, files[step], indexes[step])
    {
      hide Encode8, IndexOf, PagesOf, Flatten, Record, Scalar, CodePoints, Offset, WroteAll, KeptPages, Written;
      ghost var points := CodePoints(text);
      ghost var done: seq<seq<Point>>, k: nat, file: seq<Byte>, index: seq<Byte> := [], 0, [], [];
      var start := 0;
      characters, pages := 0, 0;
      NothingWritten(points, pageSize);
      OffsetWithin(text, points, 0);
      while start < |text|
        invariant k <= |points| && start == Offset(points, k)
        invariant files == old(files)[step := file] && indexes == old(indexes)[step := index]
        invariant characters == k && pages == |done|
        invariant Written(points, pageSize, k, done, file, index)
        decreases |text| - start
      {
        OffsetWithin(text, points, k);
        ghost var page, doneNext, fileNext, indexNext;
        var end, length, encoded;
        end, length, encoded, page, doneNext, fileNext, indexNext := EncodePage(text, start, k, done, file, index);
        characters := characters + length;
        if encoded.None? { return false, characters, pages; }
        Append(step, encoded.value);
        pages, start := pages + 1, end;
        k, done, file, index := k + |page|, doneNext, fileNext, indexNext;
      }
      OffsetWithin(text, points, k);
      AllWritten(text, pageSize, done, file, index);
      complete := true;
    }

    /** Cut one page off the text and encode it; what the files hold once its bytes are appended. */
    method EncodePage(text: Text, start: nat, ghost k: nat, ghost done: seq<seq<Point>>, ghost file: seq<Byte>,
                      ghost index: seq<Byte>)
      returns (end: nat, length: nat, encoded: Option<seq<Byte>>, ghost page: seq<Point>,
               ghost doneNext: seq<seq<Point>>, ghost fileNext: seq<Byte>, ghost indexNext: seq<Byte>)
      requires pageSize >= 1 && k < |CodePoints(text)| && start == Offset(CodePoints(text), k)
      requires Written(CodePoints(text), pageSize, k, done, file, index)
      ensures start < end && k + |page| <= |CodePoints(text)| && length == |page|
      ensures end == Offset(CodePoints(text), k + |page|)
      ensures encoded.None? ==>
                var kept := KeptPages(CodePoints(text), pageSize);
                !AllScalar(CodePoints(text)) && file == Encode8(Flatten(kept)) && index == IndexOf(kept, 0)
      ensures encoded.Some? ==>
                && |doneNext| == |done| + 1
                && fileNext == file + encoded.value
                && indexNext == index + Record(|file|, |file| + |encoded.value|)
                && Written(CodePoints(text), pageSize, k + |page|, doneNext, fileNext, indexNext)
    {
      hide Encode8, IndexOf, PagesOf, Flatten, Record, Scalar, CodePoints, Offset, Written, KeptPages;
      end, length, encoded, page := CutPage(text, start, k);
      doneNext, fileNext := done + [page], file + Encode8(page);
      indexNext := index + Record(|file|, |file| + |Encode8(page)|);
      if encoded.Some? {
        NextPage(CodePoints(text), pageSize, k, done, file, index, page, fileNext, indexNext);
      } else {
        LoneInSlice(CodePoints(text), k, k + |page|, page);
        StopsThere(CodePoints(text), pageSize, k, done, file, index, page);
      }
    }

    /** The page that starts at unit `start`, which is code point number `k`. */
    method CutPage(text: Text, start: nat, ghost k: nat)
      returns (end: nat, length: nat, encoded: Option<seq<Byte>>, ghost page: seq<Point>)
      requires pageSize >= 1 && k < |CodePoints(text)| && start == Offset(CodePoints(text), k)
      ensures var points := CodePoints(text);
              && |page| == Cut(points[k..], pageSize) && page == points[k..k + |page|]
              && start < end && end == Offset(points, k + |page|)
      ensures length == |page|
      ensures encoded.Some? ==> AllScalar(page) && encoded.value == Encode8(page)
      ensures encoded.None? ==> !AllScalar(page)
    {
      hide CodePoints, Encode8, Encode16, Cut, Offset, Scalar;
      end := PageEnd(text, start, k);
      var slice := text[start..end];
      ghost var points := CodePoints(text);
      ghost var c := Cut(points[k..], pageSize);
      page := points[k..k + c];
      SliceOfPoints(text, points, k, k + c);
      length := CpLength(slice);
      encoded := EncodeStrict(slice);
    }

    /** Append a page's bytes to the file, and to the index where they lie. */
    method Append(step: int, encoded: seq<Byte>)
      requires step in files && step in indexes
      modifies this`files, this`indexes
      ensures files == old(files)[step := old(files)[step] + encoded]
      ensures var offset := |old(files)[step]|;
              indexes == old(indexes)[step := old(indexes)[step] + Record(offset, offset + |encoded|)]
    {
      var offset := |files[step]|;
      files := files[step := files[step] + encoded];
      indexes := indexes[step := indexes[step] + Record(offset, offset + |encoded|)];
    }

    /** The text of one page; the page number is clamped to the pages there are. */
    method View(step: int, page: int) returns (r: Result<Text, ReadError>)
      requires Valid()
      ensures step !in byStep ==> r == Err(UnknownStep)
      ensures step in byStep ==> r == Fetch(indexes[step], files[step], Clamped(page, byStep[step].pages))
      ensures step in whole ==> r == Ok(PageText(whole[step], pageSize, page))
    {
      hide Fetch, PageText;
      if step !in byStep { return Err(UnknownStep); }
      var stored := byStep[step];
      var chosen := if page < stored.pages then page else stored.pages;
      if chosen < 1 { chosen := 1; }
      if step in whole { FetchedPage(whole[step], pageSize, stored, files[step], indexes[step], page, chosen); }
      r := Fetch(indexes[step], files[step], chosen - 1);
    }

    /** The whole text back: what the file decodes to. */
    method Get(step: int) returns (r: Result<Text, ReadError>)
      requires Valid()
      ensures r == if step in byStep then ReadWhole(files[step]) else Err(UnknownStep)
      ensures step in whole ==> r == Ok(whole[step])
    {
      if step in whole {
        Decode8RoundTrip(CodePoints(whole[step]));
        PointsEncodeBack(whole[step]);
      }
      if step !in byStep { return Err(UnknownStep); }
      r := ReadWhole(files[step]);
    }
  }

  datatype OpenError = BadPageSize

  /** `new ObservationStore(pageSize)` */
  method OpenStore(pageSize: int) returns (r: Result<ObservationStore, OpenError>)
    ensures r.Err? <==> pageSize <= 0
    ensures r.Ok? ==> fresh(r.value) && r.value.Valid() && r.value.pageSize == pageSize && r.value.whole == map[]
  {
    if pageSize <= 0 { return Err(BadPageSize); }
    var store := new ObservationStore(pageSize);
    r := Ok(store);
  }

  /** Which record a page number asks for, among those of a descriptor. */
  function Clamped(page: int, pages: nat): nat {
    if page < 1 || pages == 0 then 0 else if page > pages then pages - 1 else page - 1
  }

  function ReadWhole(file: seq<Byte>): Result<Text, ReadError> {
    match Decode8(file)
    case None => Err(Unreadable)
    case Some(points) => Ok(Encode16(points))
  }

  /** At most `length` bytes of a file from `position` on. */
  function ReadAt(file: seq<Byte>, position: nat, length: nat): seq<Byte> {
    if position >= |file| then []
    else if position + length <= |file| then file[position..position + length]
    else file[position..]
  }

  /** One index record, the bytes it names, and their text. */
  function Fetch(index: seq<Byte>, file: seq<Byte>, k: nat): Result<Text, ReadError> {
    var entry := ReadAt(index, RECORD * k, RECORD);
    if |entry| < RECORD then Err(Unreadable) else
      var from, to := ReadBigEndian(entry[..8]), ReadBigEndian(entry[8..]);
      if to < from then Err(Unreadable) else
        match Decode8(ReadAt(file, from, to - from))
        case None => Err(Unreadable)
        case Some(points) => Ok(Encode16(points))
  }

  /** A page of a kept text is fetched as it was cut. */
  lemma FetchedPage(text: Text, size: nat, stored: Stored, file: seq<Byte>, index: seq<Byte>, page: int, chosen: nat)
    requires size >= 1 && Holds(text, size, stored, file, index)
    requires chosen as int == if page < 1 then 1 else if page > stored.pages then stored.pages else page
    ensures Fetch(index, file, chosen - 1) == Ok(PageText(text, size, page))
  {
    hide Fetch, IndexOf, Encode8, CodePoints, PagesOf;
    PageIsReadBack(text, size, chosen - 1);
  }

  // ---------------------------------------------------------------- lemmas for the store

  /** Unit offset of the end of the page that starts at code point number `k`. */
  function EndOfPage(points: seq<Point>, k: nat, size: nat): nat
    requires size >= 1 && k < |points|
  {
    Offset(points, k + Cut(points[k..], size))
  }

  /** The end of a page, found in units: the window's end, or right after its last newline. */
  lemma WindowEnds(text: Text, k: nat, size: nat)
    requires size >= 1 && k < |CodePoints(text)|
    ensures var points := CodePoints(text);
            var limit := Offset(points, if k + size <= |points| then k + size else |points|);
            var start := Offset(points, k);
            && start < limit <= |text| && start < EndOfPage(points, k, size) <= |text|
            && var newline := LastNewlineUnit(text, limit);
               EndOfPage(points, k, size) == if limit < |text| && newline >= start then newline + 1 else limit
  {
    hide Offset, LastNewline, LastNewlineUnit, CodePoints;
    var points := CodePoints(text);
    var m := if k + size <= |points| then k + size else |points|;
    OffsetWithin(text, points, m);
    OffsetMonotone(points, k, m);
    OffsetWithin(text, points, k + Cut(points[k..], size));
    OffsetMonotone(points, k, k + Cut(points[k..], size));
    if m < |points| {
      CutInWindow(points, k, size);
      NewlineInWindow(text, points, k, m);
    }
  }

  /** The cut of what is left, in terms of newlines of the whole. */
  lemma CutInWindow(points: seq<Point>, k: nat, size: nat)
    requires size >= 1 && k + size < |points|
    ensures var j := LastNewline(points, k + size);
            Cut(points[k..], size) == if j >= k then j + 1 - k else size
  {
    var rest := points[k..];
    var i := LastNewline(rest, size);
    assert forall x :: 0 <= x < |rest| ==> rest[x] == points[k + x];
    if i >= 0 {
      assert points[k + i] == NEWLINE;
    }
  }

  lemma LoneInSlice(points: seq<Point>, a: nat, b: nat, slice: seq<Point>)
    requires a <= b <= |points| && slice == points[a..b] && !AllScalar(slice)
    ensures !AllScalar(points)
  {
    var i :| 0 <= i < b - a && !Scalar(slice[i]);
    assert points[a + i] == slice[i];
  }

  ghost predicate ScalarUpTo(points: seq<Point>, k: nat)
    requires k <= |points|
  {
    forall i :: 0 <= i < k ==> Scalar(points[i])
  }

  /** The files hold the pages `done` of the first `k` code points, and the other pages are to come. */
  ghost predicate Written(points: seq<Point>, size: nat, k: nat, done: seq<seq<Point>>, output: seq<Byte>, index: seq<Byte>)
    requires size >= 1
  {
    && k <= |points| && ScalarUpTo(points, k) && EncodablePages(done) == |done|
    && Flatten(done) == points[..k]
    && output == Encode8(points[..k]) && index == IndexOf(done, 0)
    && PagesOf(points, size) == done + PagesOf(points[k..], size)
  }

  lemma NothingWritten(points: seq<Point>, size: nat)
    requires size >= 1
    ensures Written(points, size, 0, [], [], [])
  {
    assert points[0..] == points && points[..0] == [];
    assert [] + PagesOf(points, size) == PagesOf(points, size);
  }

  /** One more page written: file, index and page list stay in step. */
  lemma NextPage(points: seq<Point>, size: nat, k: nat, done: seq<seq<Point>>, output: seq<Byte>, index: seq<Byte>,
                 page: seq<Point>, outputNext: seq<Byte>, indexNext: seq<Byte>)
    requires size >= 1 && Written(points, size, k, done, output, index) && k < |points|
    requires |page| == Cut(points[k..], size) && page == points[k..k + |page|] && AllScalar(page)
    requires outputNext == output + Encode8(page)
    requires indexNext == index + Record(|output|, |output| + |Encode8(page)|)
    ensures Written(points, size, k + |page|, done + [page], outputNext, indexNext)
  {
    hide Encode8, IndexOf, PagesOf, Flatten, Record, Scalar, EncodablePages;
    var m := k + |page|;
    S.Parts(points, k, m);
    FlattenConcat(done, page);
    Encode8Concat(points[..k], page);
    NextRecord(done, page, output);
    NextPages(points, size, k, done, |page|, page);
    MoreScalar(points, k, m, page);
    OneEncodable(page);
    EncodableConcat(done, [page]);
  }

  lemma OneEncodable(page: seq<Point>)
    requires AllScalar(page)
    ensures EncodablePages([page]) == 1
  {
  }

  lemma {:induction false} EncodableConcat(a: seq<seq<Point>>, b: seq<seq<Point>>)
    requires EncodablePages(a) == |a|
    ensures EncodablePages(a + b) == |a| + EncodablePages(b)
    decreases |a|
  {
    if a == [] {
      S.Ends(b);
    } else {
      S.Head(a, b);
      EncodableConcat(a[1..], b);
    }
  }

  lemma NextRecord(done: seq<seq<Point>>, page: seq<Point>, output: seq<Byte>)
    requires output == Encode8(Flatten(done))
    ensures IndexOf(done + [page], 0) == IndexOf(done, 0) + Record(|output|, |output| + |Encode8(page)|)
  {
    hide Encode8, Flatten, IndexOf, Record;
    IndexConcat(done, page, 0);
  }

  /** At the first page without an encoding, the pages before it are what is kept. */
  lemma StopsThere(points: seq<Point>, size: nat, k: nat, done: seq<seq<Point>>, output: seq<Byte>, index: seq<Byte>,
                   page: seq<Point>)
    requires size >= 1 && Written(points, size, k, done, output, index) && k < |points|
    requires |page| == Cut(points[k..], size) && page == points[k..k + |page|] && !AllScalar(page)
    ensures var kept := KeptPages(points, size);
            output == Encode8(Flatten(kept)) && index == IndexOf(kept, 0)
  {
    hide Encode8, IndexOf, Flatten, Scalar, PagesOf;
    FirstPageThenRest(points[k..], size, |page|);
    S.DropDrop(points, k, |page|);
    EncodableConcat(done, PagesOf(points[k..], size));
    assert (done + PagesOf(points[k..], size))[..|done|] == done;
  }

  lemma NoPoints(text: Text)
    ensures CodePoints(text) == [] <==> text == []
    ensures text == [] ==> AllScalar(CodePoints(text))
  {
  }

  lemma MoreScalar(points: seq<Point>, k: nat, m: nat, page: seq<Point>)
    requires k <= m <= |points| && ScalarUpTo(points, k) && page == points[k..m] && AllScalar(page)
    ensures ScalarUpTo(points, m)
  {
    forall i | k <= i < m ensures Scalar(points[i]) {
      assert points[i] == page[i - k];
    }
  }

  lemma FirstPageThenRest(points: seq<Point>, size: nat, c: nat)
    requires size >= 1 && points != [] && c == Cut(points, size)
    ensures PagesOf(points, size) == [points[..c]] + PagesOf(points[c..], size)
  {
  }

  lemma NextPages(points: seq<Point>, size: nat, k: nat, done: seq<seq<Point>>, c: nat, page: seq<Point>)
    requires size >= 1 && k < |points| && c == Cut(points[k..], size) && page == points[k..k + c]
    requires PagesOf(points, size) == done + PagesOf(points[k..], size)
    ensures PagesOf(points, size) == (done + [page]) + PagesOf(points[k + c..], size)
  {
    FirstPageThenRest(points[k..], size, c);
    S.DropDrop(points, k, c);
    S.Snoc(done, page, PagesOf(points[k + c..], size));
  }

  /** The loop of `put` has written all pages; the index of an empty text still lacks its one record. */
  ghost predicate WroteAll(text: Text, size: nat, characters: nat, pages: nat, file: seq<Byte>, index: seq<Byte>)
    requires size >= 1
  {
    var points := CodePoints(text);
    && AllScalar(points) && file == Encode8(points)
    && characters == |points|
    && (pages == 0 <==> points == [])
    && |OfferedPages(points, size)| == (if pages == 0 then 1 else pages)
    && IndexOf(OfferedPages(points, size), 0) == (if pages == 0 then Record(0, 0) else index)
  }

  lemma AllWritten(text: Text, size: nat, done: seq<seq<Point>>, output: seq<Byte>, index: seq<Byte>)
    requires size >= 1 && Written(CodePoints(text), size, |CodePoints(text)|, done, output, index)
    ensures WroteAll(text, size, |CodePoints(text)|, |done|, output, index)
    ensures var kept := KeptPages(CodePoints(text), size);
            output == Encode8(Flatten(kept)) && index == IndexOf(kept, 0)
  {
    var points := CodePoints(text);
    assert points[..|points|] == points && points[|points|..] == [];
    assert done + [] == done && done[..|done|] == done;
    if points == [] { EmptyIndex(); }
  }

  lemma {:induction false} FlattenConcat(a: seq<seq<Point>>, page: seq<Point>)
    ensures Flatten(a + [page]) == Flatten(a) + page
  {
    if a == [] {
      assert [] + [page] == [page] && [page][1..] == [];
    } else {
      assert (a + [page])[1..] == a[1..] + [page];
      FlattenConcat(a[1..], page);
    }
  }

  lemma EmptyIndex()
    ensures IndexOf([[]], 0) == Record(0, 0)
  {
    var pages: seq<seq<Point>> := [[]];
    assert pages[1..] == [];
    assert Record(0, 0) + [] == Record(0, 0);
  }

  lemma {:induction false} AtMostFourBytes(points: seq<Point>)
    ensures |Encode8(points)| <= 4 * |points|
  {
    if points != [] { AtMostFourBytes(points[1..]); }
  }

  lemma {:induction false} PointsAtMostUnits(text: Text)
    ensures |CodePoints(text)| <= |text|
    decreases |text|
  {
    if text != [] {
      PointsAtMostUnits(text[if PairAt(text, 0) then 2 else 1..]);
    }
  }

  lemma RecordReadsBack(from: nat, to: nat)
    requires from <= EXACT && to <= EXACT
    ensures ReadBigEndian(Record(from, to)[..8]) == from
    ensures ReadBigEndian(Record(from, to)[8..]) == to
  {
    assert Power256(8) == 0x1_0000_0000_0000_0000 by {
      assert Power256(4) == 0x1_0000_0000;
      assert Power256(8) == 256 * 256 * 256 * 256 * Power256(4);
    }
    BigEndianRoundTrip(from, 8);
    BigEndianRoundTrip(to, 8);
    assert Record(from, to)[..8] == BigEndian(from, 8) && Record(from, to)[8..] == BigEndian(to, 8);
  }

  lemma FetchRecord(index: seq<Byte>, file: seq<Byte>, k: nat, from: nat, to: nat, page: seq<Point>)
    requires RECORD * k + RECORD <= |index| && index[RECORD * k..RECORD * k + RECORD] == Record(from, to)
    requires from <= to <= |file| <= EXACT && file[from..to] == Encode8(page) && AllScalar(page)
    ensures Fetch(index, file, k) == Ok(Encode16(page))
  {
    hide Decode8, Encode8, Encode16, ReadBigEndian, BigEndian, Record;
    RecordReadsBack(from, to);
    Decode8RoundTrip(page);
    assert ReadAt(index, RECORD * k, RECORD) == Record(from, to);
    assert from + (to - from) == to;
    if from == |file| {
      assert file[from..to] == [];
    }
  }

  /** Record `k` of the index names the bytes of the file that decode to exactly page `k`. */
  lemma PageIsReadBack(text: Text, size: nat, k: nat)
    requires size >= 1 && |text| < STRING_LENGTH_LIMIT && AllScalar(CodePoints(text))
    requires k < |OfferedPages(CodePoints(text), size)|
    ensures var pages := OfferedPages(CodePoints(text), size);
            Fetch(IndexOf(pages, 0), Encode8(CodePoints(text)), k) == Ok(Encode16(pages[k]))
  {
    var points := CodePoints(text);
    OffersEverything(points, size);
    PointsAtMostUnits(text);
    FetchesPage(OfferedPages(points, size), k);
  }

  /** The same for any pages with their index. */
  lemma FetchesPage(pages: seq<seq<Point>>, k: nat)
    requires k < |pages| && AllScalar(Flatten(pages)) && 4 * |Flatten(pages)| <= EXACT
    ensures Fetch(IndexOf(pages, 0), Encode8(Flatten(pages)), k) == Ok(Encode16(pages[k]))
  {
    hide Fetch, Decode8, Encode16, BigEndian;
    var file, from, to := Encode8(Flatten(pages)), StartOfPage(pages, 0, k), StartOfPage(pages, 0, k + 1);
    AtMostFourBytes(Flatten(pages));
    RecordAt(pages, 0, k);
    PagesTile(pages, [], k);
    assert [] + file == file;
    FlattenScalar(pages, k);
    FetchRecord(IndexOf(pages, 0), file, k, from, to, pages[k]);
  }

  lemma {:induction false} FlattenScalar(pages: seq<seq<Point>>, k: nat)
    requires k < |pages| && AllScalar(Flatten(pages))
    ensures AllScalar(pages[k])
    decreases |pages|
  {
    var all, rest := Flatten(pages), Flatten(pages[1..]);
    if k == 0 {
      assert forall i :: 0 <= i < |pages[0]| ==> all[i] == pages[0][i];
    } else {
      assert forall i :: 0 <= i < |rest| ==> rest[i] == all[|pages[0]| + i];
      FlattenScalar(pages[1..], k - 1);
    }
  }
}
