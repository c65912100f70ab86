/**
 What is read of a step after a refused `put` over an observation that was stored before
 (packages/mcp/src/research/observations.ts, lines 111 to 185).

 The refusal comes after the pages before it were written, and the old descriptor stays. So what is read is
 the old text exactly if those pages happen to say the same.
 */
module RefusedPuts {
  import opened Wrappers
  import opened Text16
  import opened Utf8
  import opened Pages
  import opened Observations
  import S = Sequences

  lemma {:induction false} FlattenJoin(a: seq<seq<Point>>, b: seq<seq<Point>>)
    ensures Flatten(a + b) == Flatten(a) + Flatten(b)
    decreases |a|
  {
    if a == [] {
      S.Ends(b);
    } else {
      S.Head(a, b);
      FlattenJoin(a[1..], b);
    }
  }

  lemma {:induction false} EncodableAreScalar(pages: seq<seq<Point>>)
    ensures AllScalar(Flatten(pages[..EncodablePages(pages)]))
    decreases |pages|
  {
    hide Scalar;
    if EncodablePages(pages) > 0 {
      EncodableAreScalar(pages[1..]);
      var kept := pages[..EncodablePages(pages)];
      assert kept[1..] == pages[1..][..EncodablePages(pages[1..])];
    }
  }

  /** What is kept is an encodable beginning of the text. */
  lemma KeptIsBeginning(points: seq<Point>, size: nat)
    requires size >= 1
    ensures Flatten(KeptPages(points, size)) <= points && AllScalar(Flatten(KeptPages(points, size)))
  {
    hide PagesOf, Flatten;
    var pages := PagesOf(points, size);
    var n := EncodablePages(pages);
    assert pages == pages[..n] + pages[n..];
    FlattenJoin(pages[..n], pages[n..]);
    PagesJoin(points, size);
    EncodableAreScalar(pages);
  }

  /** Read back as a whole, what is kept is the text `u` exactly if it has the code points of `u`. */
  lemma ReadsExactly(text: Text, size: nat, u: Text)
    requires size >= 1
    ensures var kept := Flatten(KeptPages(CodePoints(text), size));
            ReadWhole(Encode8(kept)) == Ok(u) <==> CodePoints(u) == kept
  {
    hide PagesOf, Flatten, KeptPages, CodePoints, Encode8, Decode8, Encode16, Offset;
    var points := CodePoints(text);
    var kept := Flatten(KeptPages(points, size));
    KeptIsBeginning(points, size);
    Decode8RoundTrip(kept);
    PointsEncodeBack(u);
    SliceOfPoints(text, points, 0, |kept|);
    assert points[0..|kept|] == kept;
  }

  lemma {:induction false} PagesAreCanonical(points: seq<Point>, size: nat, k: nat)
    requires size >= 1 && Canonical(points) && k < |PagesOf(points, size)|
    ensures Canonical(PagesOf(points, size)[k])
    decreases |points|
  {
    var c := Cut(points, size);
    if k > 0 {
      SliceIsCanonical(points, c, |points|);
      assert points[c..] == points[c..|points|];
      PagesAreCanonical(points[c..], size, k - 1);
    } else {
      SliceIsCanonical(points, 0, c);
      assert points[..c] == points[0..c];
    }
  }

  lemma SamePage(a: seq<Point>, b: seq<Point>)
    requires Canonical(a) && Canonical(b) && Encode16(a) == Encode16(b)
    ensures a == b
  {
    EncodeReadsBack(a);
    EncodeReadsBack(b);
  }

  /** Page `k` of `u`, fetched from what is kept of `text`, is right exactly if the same page was written there. */
  lemma FetchesExactly(text: Text, size: nat, u: Text, k: nat)
    requires size >= 1 && |text| < STRING_LENGTH_LIMIT && k < |OfferedPages(CodePoints(u), size)|
    ensures var kept, offered := KeptPages(CodePoints(text), size), OfferedPages(CodePoints(u), size);
            Fetch(IndexOf(kept, 0), Encode8(Flatten(kept)), k) == Ok(Encode16(offered[k]))
            <==> k < |kept| && kept[k] == offered[k]
  {
    hide PagesOf, Flatten, CodePoints, Encode8, Encode16, Fetch, Canonical, Cut;
    var kept, offered := KeptPages(CodePoints(text), size), OfferedPages(CodePoints(u), size);
    PointsAreCanonical(text);
    PointsAreCanonical(u);
    if k < |kept| {
      KeptIsBeginning(CodePoints(text), size);
      PointsAtMostUnits(text);
      FetchesPage(kept, k);
      PagesAreCanonical(CodePoints(text), size, k);
      if CodePoints(u) == [] { NothingCanonical(); } else { PagesAreCanonical(CodePoints(u), size, k); }
      if Encode16(kept[k]) == Encode16(offered[k]) { SamePage(kept[k], offered[k]); }
    } else {
      NoRecord(kept, Encode8(Flatten(kept)), k);
    }
  }

  lemma NothingCanonical()
    ensures Canonical([])
  {
  }

  lemma NoRecord(pages: seq<seq<Point>>, file: seq<Byte>, k: nat)
    requires k >= |pages|
    ensures Fetch(IndexOf(pages, 0), file, k).Err?
  {
    hide Decode8, Record;
    if pages != [] { RecordAt(pages, 0, 0); }
  }

  /** All pages of `u` are right exactly if they are the first pages written. */
  lemma AllFetchedExactly(text: Text, size: nat, u: Text)
    requires size >= 1 && |text| < STRING_LENGTH_LIMIT
    ensures var kept, offered := KeptPages(CodePoints(text), size), OfferedPages(CodePoints(u), size);
            (forall k :: 0 <= k < |offered| ==> Fetch(IndexOf(kept, 0), Encode8(Flatten(kept)), k) == Ok(Encode16(offered[k])))
            <==> offered <= kept
  {
    hide PagesOf, Flatten, CodePoints, Encode8, Encode16, Fetch, IndexOf, KeptPages, OfferedPages;
    var kept, offered := KeptPages(CodePoints(text), size), OfferedPages(CodePoints(u), size);
    forall k | 0 <= k < |offered|
      ensures Fetch(IndexOf(kept, 0), Encode8(Flatten(kept)), k) == Ok(Encode16(offered[k]))
              <==> k < |kept| && kept[k] == offered[k]
    {
      FetchesExactly(text, size, u, k);
    }
    if forall k :: 0 <= k < |offered| ==> Fetch(IndexOf(kept, 0), Encode8(Flatten(kept)), k) == Ok(Encode16(offered[k])) {
      FetchesExactly(text, size, u, |offered| - 1);
      assert kept[..|offered|] == offered;
    }
    if offered <= kept {
      assert forall k :: 0 <= k < |offered| ==> kept[k] == offered[k];
    }
  }

  /** A refused `put`, and the whole read after it. */
  method GetAfterRefusal(store: ObservationStore, step: int, text: Text)
    returns (refusal: Result<(), PutError>, r: Result<Text, ReadError>)
    requires store.Valid() && step >= 1 && step in store.whole && |text| < STRING_LENGTH_LIMIT && !AllScalar(CodePoints(text))
    modifies store
    ensures store.Valid() && refusal == Err(LoneSurrogate)
    ensures r == Ok(old(store.whole[step])) <==>
            CodePoints(old(store.whole[step])) == Flatten(KeptPages(CodePoints(text), store.pageSize))
  {
    hide PagesOf, Flatten, CodePoints, Encode8, IndexOf, KeptPages, ReadWhole, Scalar;
    refusal := store.Put(step, text);
    r := store.Get(step);
    ReadsExactly(text, store.pageSize, old(store.whole[step]));
  }

  /** A refused `put`, and one page read after it. */
  method ViewAfterRefusal(store: ObservationStore, step: int, text: Text, page: int)
    returns (refusal: Result<(), PutError>, r: Result<Text, ReadError>)
    requires store.Valid() && step >= 1 && step in store.whole && |text| < STRING_LENGTH_LIMIT && !AllScalar(CodePoints(text))
    modifies store
    ensures store.Valid() && refusal == Err(LoneSurrogate)
    ensures var kept, offered := KeptPages(CodePoints(text), store.pageSize), OfferedPages(CodePoints(old(store.whole[step])), store.pageSize);
            var k := Clamped(page, |offered|);
            r == Ok(PageText(old(store.whole[step]), store.pageSize, page)) <==> k < |kept| && kept[k] == offered[k]
  {
    hide PagesOf, Flatten, CodePoints, Encode8, Encode16, IndexOf, KeptPages, Fetch, Scalar;
    ghost var u := store.whole[step];
    refusal := store.Put(step, text);
    r := store.View(step, page);
    NoPoints(text);
    FetchesExactly(text, store.pageSize, u, Clamped(page, |OfferedPages(CodePoints(u), store.pageSize)|));
  }

  // ---------------------------------------------------------------- at two inputs

  /** A letter is stored and a lone surrogate refused: the step reads back as empty. */
  method RefusedPutLosesText() returns (before: Result<Text, ReadError>, after: Result<Text, ReadError>)
    ensures before == Ok([97]) && after == Ok([])
  {
    var store := new ObservationStore(4);
    Letters();
    var first := store.Put(1, [97]);
    before := store.Get(1);
    var refusal := store.Put(1, [0xD800]);
    after := store.Get(1);
  }

  /** Two letters fill a page, and the refused text starts with that page: nothing is lost. */
  method RefusedPutKeepsText() returns (refusal: Result<(), PutError>, after: Result<Text, ReadError>)
    ensures refusal == Err(LoneSurrogate) && after == Ok([97, 98])
  {
    var store := new ObservationStore(2);
    TwoLetters();
    var first := store.Put(1, [97, 98]);
    refusal, after := GetAfterRefusal(store, 1, [97, 98, 0xD800]);
  }

  lemma Letters()
    ensures CodePoints([97]) == [97] && AllScalar([97])
    ensures CodePoints([0xD800]) == [0xD800] && !AllScalar([0xD800]) && KeptPages([0xD800], 4) == []
  {
    NoPairsNoPoints([97]);
    NoPairsNoPoints([0xD800]);
    var b: seq<Point> := [0xD800];
    assert !Scalar(b[0]);
    assert b[..1] == b;
  }

  lemma TwoLetters()
    ensures CodePoints([97, 98]) == [97, 98] && AllScalar([97, 98])
    ensures CodePoints([97, 98, 0xD800]) == [97, 98, 0xD800] && !AllScalar([97, 98, 0xD800])
    ensures Flatten(KeptPages([97, 98, 0xD800], 2)) == [97, 98]
  {
    NoPairsNoPoints([97, 98]);
    NoPairsNoPoints([97, 98, 0xD800]);
    var c: seq<Point>, d: seq<Point> := [97, 98, 0xD800], [0xD800];
    assert !Scalar(c[2]) && !Scalar(d[0]);
    assert Cut(c, 2) == 2 && c[..2] == [97, 98] && c[2..] == d;
    assert d[..1] == d && d[1..] == [];
    assert PagesOf(d, 2) == [d];
    var pages: seq<seq<Point>> := [[97, 98], d];
    assert PagesOf(c, 2) == pages && pages[1..] == [d];
    assert EncodablePages(pages[1..]) == 0;
    assert pages[..1] == [[97, 98]];
    var one: seq<seq<Point>> := [[97, 98]];
    assert one[1..] == [] && Flatten(one) == [97, 98] + [];
  }
}
