/**
 Canonical values: sorting the keys of every object keeps what a value means, and values that mean the
 same have the same canonical form (packages/mcp/src/research/canonical-json.ts, lines 27 to 32).
 */
module JsonMeaning {
  import opened Text16
  import opened CanonicalJson
  import S = Sequences

  // ---------------------------------------------------------------- the order of keys

  lemma {:induction false} BeforeTotal(a: Text, b: Text)
    ensures Before(a, b) || a == b || Before(b, a)
    decreases |a|
  {
    if a != [] && b != [] && a[0] == b[0] {
      BeforeTotal(a[1..], b[1..]);
      S.Head(a, []);
      S.Head(b, []);
    }
  }

  /** One key is before another if it is a proper beginning of it, or has the lesser unit where they first differ. */
  lemma {:induction false} BeforeExactly(a: Text, b: Text)
    ensures Before(a, b) <==>
            exists k :: 0 <= k <= |a| && k < |b| && a[..k] == b[..k] && (k == |a| || a[k] < b[k])
    decreases |a|
  {
    if a != [] && b != [] && a[0] == b[0] { BeforeExactly(a[1..], b[1..]); }
    if Before(a, b) {
      if a == [] || a[0] < b[0] {
        assert a[..0] == b[..0];
      } else {
        var k :| 0 <= k <= |a| - 1 && k < |b| - 1 && a[1..][..k] == b[1..][..k] && (k == |a| - 1 || a[1..][k] < b[1..][k]);
        assert a[..k + 1] == [a[0]] + a[1..][..k] && b[..k + 1] == [b[0]] + b[1..][..k];
      }
    }
    if k :| 0 <= k <= |a| && k < |b| && a[..k] == b[..k] && (k == |a| || a[k] < b[k]) {
      if k > 0 {
        assert a[0] == a[..k][0] == b[..k][0] == b[0];
        assert a[1..][..k - 1] == a[..k][1..] == b[..k][1..] == b[1..][..k - 1];
      }
    }
  }

  lemma {:induction false} BeforeIrreflexive(a: Text)
    ensures !Before(a, a)
    decreases |a|
  {
    if a != [] { BeforeIrreflexive(a[1..]); }
  }

  lemma {:induction false} BeforeTransitive(a: Text, b: Text, c: Text)
    requires Before(a, b) && Before(b, c)
    ensures Before(a, c)
    decreases |a|
  {
    if a != [] && a[0] == b[0] == c[0] {
      BeforeTransitive(a[1..], b[1..], c[1..]);
    }
  }

  ghost predicate AllAfter<V>(key: Text, entries: seq<Entry<V>>) {
    forall i :: 0 <= i < |entries| ==> Before(key, entries[i].key)
  }

  ghost predicate NoKey<V>(key: Text, entries: seq<Entry<V>>) {
    forall i :: 0 <= i < |entries| ==> entries[i].key != key
  }

  /** Strictly increasing keys. */
  ghost predicate Increasing<V>(entries: seq<Entry<V>>) {
    entries == [] || (AllAfter(entries[0].key, entries[1..]) && Increasing(entries[1..]))
  }

  lemma {:induction false} InsertIncreasing<V>(e: Entry<V>, sorted: seq<Entry<V>>)
    requires Increasing(sorted) && NoKey(e.key, sorted)
    ensures Increasing(Insert(e, sorted))
    ensures forall k :: NoKey(k, Insert(e, sorted)) <==> k != e.key && NoKey(k, sorted)
    ensures forall k :: Before(k, e.key) && AllAfter(k, sorted) ==> AllAfter(k, Insert(e, sorted))
    decreases |sorted|
  {
    hide Before;
    if sorted == [] || Before(e.key, sorted[0].key) {
      S.Cons(e, sorted);
      if sorted != [] {
        forall i | 0 <= i < |sorted| ensures Before(e.key, sorted[i].key) {
          if i > 0 {
            assert sorted[i] == sorted[1..][i - 1];
            BeforeTransitive(e.key, sorted[0].key, sorted[i].key);
          }
        }
      }
    } else {
      var first, rest := sorted[0], sorted[1..];
      BeforeTotal(e.key, first.key);
      InsertIncreasing(e, rest);
      S.Cons(first, Insert(e, rest));
      assert AllAfter(first.key, Insert(e, rest));
      forall k ensures NoKey(k, Insert(e, sorted)) <==> k != e.key && NoKey(k, sorted) {
        NoKeyCons(k, first, Insert(e, rest));
        NoKeyCons(k, first, rest);
        S.Head(sorted, []);
      }
    }
  }

  lemma NoKeyCons<V>(key: Text, e: Entry<V>, entries: seq<Entry<V>>)
    ensures NoKey(key, [e] + entries) <==> e.key != key && NoKey(key, entries)
  {
    if NoKey(key, [e] + entries) {
      assert ([e] + entries)[0] == e;
      assert forall i :: 0 <= i < |entries| ==> ([e] + entries)[i + 1] == entries[i];
    }
  }

  lemma {:induction false} SortIncreasing<V>(entries: seq<Entry<V>>)
    requires DistinctKeys(entries)
    ensures Increasing(SortByKey(entries))
    ensures forall k :: NoKey(k, SortByKey(entries)) <==> NoKey(k, entries)
    decreases |entries|
  {
    if entries != [] {
      var e, rest := entries[0], entries[1..];
      assert NoKey(e.key, rest) && DistinctKeys(rest);
      SortIncreasing(rest);
      InsertIncreasing(e, SortByKey(rest));
      forall k ensures NoKey(k, SortByKey(entries)) <==> NoKey(k, entries) {
        NoKeyCons(k, e, rest);
        S.Head(entries, []);
      }
    }
  }

  // ---------------------------------------------------------------- members are a map

  lemma {:induction false} MembersHave(entries: seq<Entry<Json>>, key: Text)
    ensures key in MembersOf(entries) <==> !NoKey(key, entries)
    decreases |entries|
  {
    if entries != [] {
      MembersHave(entries[1..], key);
      NoKeyCons(key, entries[0], entries[1..]);
      S.Head(entries, []);
    }
  }

  lemma {:induction false} InsertMembers(e: Entry<Json>, sorted: seq<Entry<Json>>)
    requires NoKey(e.key, sorted)
    ensures MembersOf(Insert(e, sorted)) == MembersOf(sorted)[e.key := MeaningOf(e.value)]
    decreases |sorted|
  {
    hide MeaningOf, Before;
    if sorted == [] || Before(e.key, sorted[0].key) {
      S.Cons(e, sorted);
    } else {
      var first, rest := sorted[0], sorted[1..];
      InsertMembers(e, rest);
      S.Cons(first, Insert(e, rest));
      var m: map<Text, Meaning> := MembersOf(rest);
      var k, x, y := first.key, MeaningOf(first.value), MeaningOf(e.value);
      assert m[e.key := y][k := x] == m[k := x][e.key := y];
    }
  }

  lemma {:induction false} SortMembers(entries: seq<Entry<Json>>)
    requires DistinctKeys(entries)
    ensures MembersOf(SortByKey(entries)) == MembersOf(entries)
    decreases |entries|
  {
    hide MeaningOf;
    if entries != [] {
      var e, rest := entries[0], entries[1..];
      assert NoKey(e.key, rest) && DistinctKeys(rest);
      SortMembers(rest);
      SortIncreasing(rest);
      InsertMembers(e, SortByKey(rest));
    }
  }

  // ---------------------------------------------------------------- canonical values

  ghost predicate IsCanon(v: Json) {
    match v
    case Arr(items) => forall i :: 0 <= i < |items| ==> IsCanon(items[i])
    case Obj(entries) => Increasing(entries) && forall i :: 0 <= i < |entries| ==> IsCanon(entries[i].value)
    case _ => true
  }

  /** Sorting the keys changes nothing but their order. */
  lemma {:induction false} CanonMeans(v: Json)
    requires WellFormed(v)
    ensures IsCanon(Canon(v)) && MeaningOf(Canon(v)) == MeaningOf(v)
    decreases v
  {
    match v
    case Arr(items) => CanonItemsMean(items);
    case Obj(entries) =>
      CanonEntriesMean(entries);
      var canon := CanonEntries(entries);
      SortMembers(canon);
      SortIncreasing(canon);
      SortedValues(canon);
    case _ =>
  }

  lemma {:induction false} CanonItemsMean(items: seq<Json>)
    requires forall i :: 0 <= i < |items| ==> WellFormed(items[i])
    ensures forall i :: 0 <= i < |items| ==> IsCanon(CanonItems(items)[i])
    ensures MeaningsOf(CanonItems(items)) == MeaningsOf(items)
    decreases items
  {
    if items != [] {
      CanonMeans(items[0]);
      CanonItemsMean(items[1..]);
      S.Cons(Canon(items[0]), CanonItems(items[1..]));
    }
  }

  lemma {:induction false} CanonEntriesMean(entries: seq<Entry<Json>>)
    requires forall i :: 0 <= i < |entries| ==> WellFormed(entries[i].value)
    ensures forall i :: 0 <= i < |entries| ==> IsCanon(CanonEntries(entries)[i].value)
    ensures MembersOf(CanonEntries(entries)) == MembersOf(entries)
    decreases entries
  {
    if entries != [] {
      CanonMeans(entries[0].value);
      CanonEntriesMean(entries[1..]);
      S.Cons(Entry(entries[0].key, Canon(entries[0].value)), CanonEntries(entries[1..]));
    }
  }

  lemma {:induction false} InsertedValues(e: Entry<Json>, sorted: seq<Entry<Json>>)
    requires IsCanon(e.value) && forall i :: 0 <= i < |sorted| ==> IsCanon(sorted[i].value)
    ensures forall i :: 0 <= i < |Insert(e, sorted)| ==> IsCanon(Insert(e, sorted)[i].value)
    decreases |sorted|
  {
    hide IsCanon, Before;
    if sorted != [] && !Before(e.key, sorted[0].key) {
      InsertedValues(e, sorted[1..]);
    }
  }

  lemma {:induction false} SortedValues(entries: seq<Entry<Json>>)
    requires forall i :: 0 <= i < |entries| ==> IsCanon(entries[i].value)
    ensures forall i :: 0 <= i < |SortByKey(entries)| ==> IsCanon(SortByKey(entries)[i].value)
    decreases |entries|
  {
    hide IsCanon;
    if entries != [] {
      SortedValues(entries[1..]);
      InsertedValues(entries[0], SortByKey(entries[1..]));
    }
  }

  /** Canonical values that mean the same are the same. */
  lemma {:induction false} CanonicalUnique(a: Json, b: Json)
    requires IsCanon(a) && IsCanon(b) && MeaningOf(a) == MeaningOf(b)
    ensures a == b
    decreases a
  {
    match a
    case Arr(items) => ItemsUnique(items, b.items);
    case Obj(entries) => EntriesUnique(entries, b.entries);
    case _ =>
  }

  lemma {:induction false} ItemsUnique(a: seq<Json>, b: seq<Json>)
    requires forall i :: 0 <= i < |a| ==> IsCanon(a[i])
    requires forall i :: 0 <= i < |b| ==> IsCanon(b[i])
    requires MeaningsOf(a) == MeaningsOf(b)
    ensures a == b
    decreases a
  {
    assert |a| == |MeaningsOf(a)| == |MeaningsOf(b)| == |b|;
    if a != [] {
      assert MeaningsOf(a)[0] == MeaningsOf(b)[0];
      CanonicalUnique(a[0], b[0]);
      assert MeaningsOf(a)[1..] == MeaningsOf(a[1..]) && MeaningsOf(b)[1..] == MeaningsOf(b[1..]);
      ItemsUnique(a[1..], b[1..]);
      S.Head(a, []);
      S.Head(b, []);
    }
  }

  /** The first of increasing keys is the least key of the map. */
  lemma FirstKeysAgree(a: seq<Entry<Json>>, b: seq<Entry<Json>>)
    requires Increasing(a) && Increasing(b) && a != [] && b != [] && MembersOf(a) == MembersOf(b)
    ensures a[0].key == b[0].key
  {
    hide Before, MeaningOf;
    MembersHave(a, b[0].key);
    MembersHave(b, a[0].key);
    MembersHave(a, a[0].key);
    MembersHave(b, b[0].key);
    if a[0].key != b[0].key {
      var i :| 0 <= i < |a| && a[i].key == b[0].key;
      var j :| 0 <= j < |b| && b[j].key == a[0].key;
      assert a[1..][i - 1] == a[i] && b[1..][j - 1] == b[j];
      BeforeTransitive(a[0].key, b[0].key, a[0].key);
      BeforeIrreflexive(a[0].key);
    }
  }

  lemma {:induction false} AfterIsNoKey<V>(key: Text, entries: seq<Entry<V>>)
    requires AllAfter(key, entries)
    ensures NoKey(key, entries)
  {
    BeforeIrreflexive(key);
  }

  lemma NoMembers(entries: seq<Entry<Json>>)
    requires MembersOf(entries) == map[]
    ensures entries == []
  {
    if entries != [] { MembersHave(entries, entries[0].key); }
  }

  lemma {:induction false} EntriesUnique(a: seq<Entry<Json>>, b: seq<Entry<Json>>)
    requires Increasing(a) && Increasing(b) && MembersOf(a) == MembersOf(b)
    requires forall i :: 0 <= i < |a| ==> IsCanon(a[i].value)
    requires forall i :: 0 <= i < |b| ==> IsCanon(b[i].value)
    ensures a == b
    decreases a
  {
    hide Before, MeaningOf;
    if a == [] {
      NoMembers(b);
    } else if b == [] {
      NoMembers(a);
    } else {
      FirstKeysAgree(a, b);
      var k := a[0].key;
      assert MembersOf(a)[k] == MeaningOf(a[0].value) && MembersOf(b)[k] == MeaningOf(b[0].value);
      CanonicalUnique(a[0].value, b[0].value);
      AfterIsNoKey(k, a[1..]);
      AfterIsNoKey(k, b[1..]);
      MembersHave(a[1..], k);
      MembersHave(b[1..], k);
      assert MembersOf(a[1..]) == MembersOf(a) - {k} == MembersOf(b) - {k} == MembersOf(b[1..]);
      EntriesUnique(a[1..], b[1..]);
      S.Head(a, []);
      S.Head(b, []);
    }
  }

  /** Two values mean the same exactly when they have the same canonical form. */
  lemma CanonExactly(a: Json, b: Json)
    requires WellFormed(a) && WellFormed(b)
    ensures Canon(a) == Canon(b) <==> MeaningOf(a) == MeaningOf(b)
  {
    CanonMeans(a);
    CanonMeans(b);
    if MeaningOf(a) == MeaningOf(b) {
      CanonicalUnique(Canon(a), Canon(b));
    }
  }
}
