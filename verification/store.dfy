/** The analyses collection as an in-memory sequence in insertion order,
    with the history listing (newest first, at most 100 rows) and the
    lookup of one record by its id. */
module AnalysisStore {
  import opened Results
  import opened Text
  import opened Records

  /** The stored analyses, oldest insertion first. */
  type Store = seq<Analysis>

  /** The history shows at most this many records. */
  const HistoryLimit: nat := 100

  /** No record is older than one after it. */
  predicate NewestFirst(rs: seq<Analysis>) {
    forall i, j :: 0 <= i < j < |rs| ==> rs[i].timestamp >= rs[j].timestamp
  }

  /** Places `a` into a newest-first sequence ahead of every record that is
      not newer than it. */
  function InsertByTime(a: Analysis, sorted: seq<Analysis>): (r: seq<Analysis>)
    requires NewestFirst(sorted)
    ensures NewestFirst(r)
    ensures multiset(r) == multiset(sorted) + multiset{a}
    ensures |r| == |sorted| + 1
    ensures r[0] == a || (|sorted| > 0 && r[0] == sorted[0])
  {
    if |sorted| == 0 then [a]
    else if a.timestamp >= sorted[0].timestamp then
      ConsNewestFirst(a, sorted);
      [a] + sorted
    else
      var rest := InsertByTime(a, sorted[1..]);
      assert sorted == [sorted[0]] + sorted[1..];
      ConsNewestFirst(sorted[0], rest);
      [sorted[0]] + rest
  }

  /** `r` is `sorted` with `a` inserted at position `k`, right after the
      records strictly newer than `a` and ahead of all the others. */
  predicate PlacedAt(a: Analysis, sorted: seq<Analysis>, r: seq<Analysis>, k: int) {
    && 0 <= k <= |sorted|
    && r == sorted[..k] + [a] + sorted[k..]
    && (forall j :: 0 <= j < k ==> sorted[j].timestamp > a.timestamp)
    && (k < |sorted| ==> sorted[k].timestamp <= a.timestamp)
  }

  /** Placing `a` after one more, strictly newer, record. */
  lemma PlacedBehind(a: Analysis, x: Analysis, tail: seq<Analysis>, rest: seq<Analysis>, k: int)
    requires PlacedAt(a, tail, rest, k) && x.timestamp > a.timestamp
    ensures PlacedAt(a, [x] + tail, [x] + rest, k + 1)
  {
    var s := [x] + tail;
    assert s[..k + 1] == [x] + tail[..k];
    assert s[k + 1..] == tail[k..];
    forall j | 0 <= j < k + 1 ensures s[j].timestamp > a.timestamp {
      if j > 0 { assert s[j] == tail[j - 1]; }
    }
  }

  /** The new record goes in right after the records strictly newer than
      it, so ahead of every record with an equal or older timestamp. */
  lemma {:induction false} InsertByTimePlacement(a: Analysis, sorted: seq<Analysis>)
    requires NewestFirst(sorted)
    ensures exists k :: PlacedAt(a, sorted, InsertByTime(a, sorted), k)
  {
    var r := InsertByTime(a, sorted);
    if |sorted| == 0 || a.timestamp >= sorted[0].timestamp {
      assert sorted[..0] == [] && sorted[0..] == sorted;
      assert PlacedAt(a, sorted, r, 0);
    } else {
      var tail := sorted[1..];
      InsertByTimePlacement(a, tail);
      var k :| PlacedAt(a, tail, InsertByTime(a, tail), k);
      PlacedBehind(a, sorted[0], tail, InsertByTime(a, tail), k);
      assert [sorted[0]] + tail == sorted;
      assert PlacedAt(a, sorted, r, k + 1);
    }
  }

  /** A record at least as new as the head of a newest-first sequence can
      go in front of it. */
  lemma ConsNewestFirst(x: Analysis, s: seq<Analysis>)
    requires NewestFirst(s) && (|s| == 0 || x.timestamp >= s[0].timestamp)
    ensures NewestFirst([x] + s)
  {
    var r := [x] + s;
    forall i, j | 0 <= i < j < |r| ensures r[i].timestamp >= r[j].timestamp {
      if i == 0 {
        assert r[j] == s[j - 1];
      } else {
        assert r[i] == s[i - 1] && r[j] == s[j - 1];
      }
    }
  }

  /** The records ordered newest first, as `sort("timestamp", -1)` returns
      them; records with equal timestamps keep their insertion order. */
  function SortNewestFirst(rs: seq<Analysis>): (r: seq<Analysis>)
    ensures NewestFirst(r)
    ensures multiset(r) == multiset(rs)
  {
    if |rs| == 0 then []
    else
      assert rs == [rs[0]] + rs[1..];
      InsertByTime(rs[0], SortNewestFirst(rs[1..]))
  }

  /** The history row for one record. */
  function Entry(a: Analysis): HistoryEntry {
    HistoryEntry(a.id, AnalysisType(a), a.imageName, a.timestamp, Summary(a))
  }

  function Min(a: nat, b: nat): nat {
    if a < b then a else b
  }

  /** The records the history shows: the first 100 of the newest-first order. */
  function Shown(store: Store): (shown: seq<Analysis>)
    ensures |shown| == Min(|store|, HistoryLimit)
    ensures NewestFirst(shown)
    ensures forall i :: 0 <= i < |shown| ==> shown[i] in store
    ensures multiset(shown) <= multiset(store)
  {
    var sorted := SortNewestFirst(store);
    assert |sorted| == |multiset(sorted)| == |store|;
    var m := Min(|sorted|, HistoryLimit);
    TakeNewest(sorted, store, m);
    sorted[..m]
  }

  /** A prefix of a newest-first arrangement of the store is newest first
      and takes each stored record at most as often as the store holds it. */
  lemma TakeNewest(sorted: seq<Analysis>, store: Store, m: nat)
    requires NewestFirst(sorted) && multiset(sorted) == multiset(store) && m <= |sorted|
    ensures NewestFirst(sorted[..m])
    ensures forall i :: 0 <= i < m ==> sorted[..m][i] in store
    ensures multiset(sorted[..m]) <= multiset(store)
  {
    var shown := sorted[..m];
    PrefixMultiset(sorted, m);
    forall i | 0 <= i < m ensures shown[i] in store {
      assert shown[i] in multiset(shown);
    }
  }

  /** A prefix takes part of a sequence's elements and leaves the rest to
      the suffix. */
  lemma PrefixMultiset(s: seq<Analysis>, m: nat)
    requires m <= |s|
    ensures multiset(s[..m]) <= multiset(s)
    ensures multiset(s[m..]) == multiset(s) - multiset(s[..m])
  {
    assert s == s[..m] + s[m..];
  }

  /** In a newest-first sequence, a record after the first `m` is no newer
      than any of them. */
  lemma PrefixIsNewest(sorted: seq<Analysis>, m: nat, a: Analysis)
    requires NewestFirst(sorted) && m <= |sorted| && a in multiset(sorted[m..])
    ensures forall i :: 0 <= i < m ==> a.timestamp <= sorted[i].timestamp
  {
    var rest := sorted[m..];
    var k :| 0 <= k < |rest| && rest[k] == a;
    assert sorted[m + k] == a;
  }

  /** The shown records are the newest ones: no stored record left out of
      the history is newer than any record in it. */
  lemma ShownAreNewest(store: Store, a: Analysis)
    requires a in multiset(store) - multiset(Shown(store))
    ensures forall i :: 0 <= i < |Shown(store)| ==> a.timestamp <= Shown(store)[i].timestamp
  {
    var sorted := SortNewestFirst(store);
    assert |sorted| == |multiset(sorted)| == |store|;
    var m := Min(|sorted|, HistoryLimit);
    assert Shown(store) == sorted[..m];
    PrefixMultiset(sorted, m);
    PrefixIsNewest(sorted, m, a);
  }

  /** The history listing: one row per shown record, in the same order. */
  function History(store: Store): (h: seq<HistoryEntry>)
    ensures |h| == Min(|store|, HistoryLimit) && |h| <= HistoryLimit
    ensures forall i, j :: 0 <= i < j < |h| ==> h[i].timestamp >= h[j].timestamp
    ensures forall i :: 0 <= i < |h| ==> exists k :: 0 <= k < |store| && h[i] == Entry(store[k])
    ensures |h| == |Shown(store)| && forall i :: 0 <= i < |h| ==> h[i] == Entry(Shown(store)[i])
  {
    var shown := Shown(store);
    var h := seq(|shown|, i requires 0 <= i < |shown| => Entry(shown[i]));
    assert forall i :: 0 <= i < |h| ==> h[i] == Entry(shown[i]) && shown[i] in store;
    h
  }

  /** Every row's summary has the format of the kind its type tag names. */
  lemma HistoryRowsMatchTheirType(store: Store)
    ensures forall i :: 0 <= i < |History(store)| ==>
      (History(store)[i].analysisType == WhitePixelType <==> StartsWith(History(store)[i].summary, WhiteSummaryPrefix))
  {
    var h := History(store);
    forall i | 0 <= i < |h|
      ensures h[i].analysisType == WhitePixelType <==> StartsWith(h[i].summary, WhiteSummaryPrefix)
    {
      var k :| 0 <= k < |store| && h[i] == Entry(store[k]);
      SummaryRevealsType(store[k]);
    }
  }

  /** A record newer than the last row shown is in the history; when the
      store holds at most 100 records, every record is. */
  lemma {:induction false} HistoryKeepsNewest(store: Store, a: Analysis)
    requires a in store
    requires |store| <= HistoryLimit
      || a.timestamp > History(store)[|History(store)| - 1].timestamp
    ensures Entry(a) in History(store)
  {
    var sorted := SortNewestFirst(store);
    var shown := Shown(store);
    var h := History(store);
    assert |sorted| == |multiset(sorted)| == |store|;
    assert a in multiset(sorted);
    var k :| 0 <= k < |sorted| && sorted[k] == a;
    if k >= HistoryLimit {
      assert false;
    }
    assert shown[k] == a;
    assert h[k] == Entry(a);
  }

  /** The first record carrying `id`, in the order the records were stored. */
  function FindById(store: Store, id: string): (r: Option<Analysis>)
    ensures r.None? <==> forall k :: 0 <= k < |store| ==> store[k].id != id
    ensures r.Some? ==> r.value.id == id
    ensures r.Some? ==> exists k :: (0 <= k < |store| && store[k] == r.value
      && forall j :: 0 <= j < k ==> store[j].id != id)
  {
    if |store| == 0 then None
    else if store[0].id == id then Some(store[0])
    else
      var r := FindById(store[1..], id);
      assert forall k :: 0 < k < |store| ==> store[k] == store[1..][k - 1];
      r
  }

  /** Adding a record leaves the lookup of every id already present alone
      and makes a fresh id find the new record. */
  lemma {:induction false} FindAfterInsert(store: Store, a: Analysis, id: string)
    ensures FindById(store, id).Some? ==> FindById(store + [a], id) == FindById(store, id)
    ensures FindById(store, id).None? && a.id == id ==> FindById(store + [a], id) == Some(a)
    ensures FindById(store, id).None? && a.id != id ==> FindById(store + [a], id).None?
  {
    if |store| > 0 {
      assert (store + [a])[1..] == store[1..] + [a];
      FindAfterInsert(store[1..], a, id);
    }
  }

  /** A record newer than everything stored heads the history once added. */
  lemma NewestHeadsHistory(store: Store, a: Analysis)
    requires forall k :: 0 <= k < |store| ==> store[k].timestamp < a.timestamp
    ensures History(store + [a])[0] == Entry(a)
  {
    var all := store + [a];
    var sorted := SortNewestFirst(all);
    assert |sorted| == |multiset(sorted)| == |all|;
    assert a in multiset(sorted);
    var k :| 0 <= k < |sorted| && sorted[k] == a;
    assert sorted[0] in multiset(all);
    if sorted[0] != a {
      assert false;
    }
    assert Shown(all)[0] == sorted[0];
  }
}
