/** Composite-cursor paging
    (benchmark_sets/audit_v1/api_pagination_cursor_skip_001/before/app/pagination.py). */
module Pagination {
  import opened Common
  import Sorting

  datatype Record = Record(id: string, createdAt: int, caption: string)
  {
    function Key(): Key { (createdAt, id) }
  }

  type Key = (int, string)

  // ---------------------------------------------------------------- the order of keys

  /** Strings are compared code point by code point. */
  predicate StringLess(a: string, b: string) {
    b != [] && (a == [] || a[0] < b[0] || (a[0] == b[0] && StringLess(a[1..], b[1..])))
  }

  predicate Less(a: Key, b: Key) { a.0 < b.0 || (a.0 == b.0 && StringLess(a.1, b.1)) }

  lemma {:induction false} StringOrder(a: string, b: string)
    ensures StringLess(a, b) || StringLess(b, a) || a == b
    ensures !(StringLess(a, b) && StringLess(b, a)) && !StringLess(a, a)
  {
    if a != [] {
      StringOrder(a[1..], a[1..]);
      if b != [] {
        StringOrder(a[1..], b[1..]);
        assert a == [a[0]] + a[1..] && b == [b[0]] + b[1..];
      }
    }
  }

  lemma {:induction false} StringTransitive(a: string, b: string, c: string)
    requires !StringLess(b, a) && !StringLess(c, b)
    ensures !StringLess(c, a)
  {
    if a != [] && b != [] && c != [] && a[0] == b[0] && b[0] == c[0] {
      StringTransitive(a[1..], b[1..], c[1..]);
    }
  }

  /** Less is a strict total order: what is not greater is less or equal, transitively. */
  lemma {:induction false} KeyOrder(a: Key, b: Key, c: Key)
    ensures Less(a, b) || Less(b, a) || a == b
    ensures !(Less(a, b) && Less(b, a)) && !Less(a, a)
    ensures !Less(b, a) && !Less(c, b) ==> !Less(c, a)
  {
    StringOrder(a.1, b.1);
    StringOrder(b.1, c.1);
    if !Less(b, a) && !Less(c, b) && a.0 == b.0 == c.0 { StringTransitive(a.1, b.1, c.1); }
  }

  /** The first difference decides, and a proper beginning comes first. */
  ghost predicate IdBefore(a: string, b: string) {
    exists n: nat :: n <= |a| && n < |b| && a[..n] == b[..n] && (n == |a| || a[n] < b[n])
  }

  lemma {:induction false} StringLessExactly(a: string, b: string)
    ensures StringLess(a, b) <==> IdBefore(a, b)
  {
    if a != [] && b != [] && a[0] == b[0] {
      StringLessExactly(a[1..], b[1..]);
      if IdBefore(a, b) {
        var n: nat :| n <= |a| && n < |b| && a[..n] == b[..n] && (n == |a| || a[n] < b[n]);
        assert n > 0 && a[1..][..n - 1] == a[..n][1..] == b[..n][1..] == b[1..][..n - 1];
        assert IdBefore(a[1..], b[1..]);
      }
      if IdBefore(a[1..], b[1..]) {
        var n: nat :| n <= |a| - 1 && n < |b| - 1 && a[1..][..n] == b[1..][..n] && (n == |a| - 1 || a[1..][n] < b[1..][n]);
        assert a[..n + 1] == [a[0]] + a[1..][..n] && b[..n + 1] == [b[0]] + b[1..][..n];
      }
    } else if b != [] && (a == [] || a[0] < b[0]) {
      assert a[..0] == b[..0];
    } else if IdBefore(a, b) {
      var n: nat :| n <= |a| && n < |b| && a[..n] == b[..n] && (n == |a| || a[n] < b[n]);
      if n > 0 { SameBeginning(a, b, n); }
    }
  }

  lemma {:induction false} SameBeginning(a: string, b: string, n: nat)
    requires 0 < n <= |a| && n <= |b| && a[..n] == b[..n]
    ensures a[0] == b[0]
  {
    assert a[0] == a[..n][0] && b[0] == b[..n][0];
  }

  /** The record was created after the cursor's time, or at that time with a later id. */
  ghost predicate LaterThan(r: Record, cursor: Key) {
    cursor.0 < r.createdAt || (cursor.0 == r.createdAt && IdBefore(cursor.1, r.id))
  }

  /** Ascending by time, and by id among equal times. */
  ghost predicate InOrder(s: seq<Record>) {
    forall i, k :: 0 <= i < k < |s| ==>
      && s[i].createdAt <= s[k].createdAt
      && (s[i].createdAt == s[k].createdAt ==> s[i].id == s[k].id || IdBefore(s[i].id, s[k].id))
  }

  // ---------------------------------------------------------------- sorted(records, key=...)

  function Earlier(): (Record, Record) -> bool {
    (a: Record, b: Record) => Less(a.Key(), b.Key())
  }

  function Sorted(records: seq<Record>): (out: seq<Record>)
    ensures |out| == |records|
  {
    Sorting.Sort(records, Earlier())
  }

  ghost predicate Ascending(s: seq<Record>) {
    forall i, k :: 0 <= i <= k < |s| ==> !Less(s[k].Key(), s[i].Key())
  }

  lemma {:induction false} EarlierOrders()
    ensures Sorting.Orders(Earlier())
  {
    hide Less;
    var less := Earlier();
    forall a: Record, b: Record ensures less(a, b) ==> !less(b, a) { KeyOrder(a.Key(), b.Key(), b.Key()); }
    forall a: Record, b: Record, c: Record ensures !less(b, a) && !less(c, b) ==> !less(c, a) {
      KeyOrder(a.Key(), b.Key(), c.Key());
    }
  }

  lemma {:induction false} SortedSorts(records: seq<Record>)
    ensures Ascending(Sorted(records)) && multiset(Sorted(records)) == multiset(records)
    ensures InOrder(Sorted(records))
  {
    EarlierOrders();
    Sorting.SortSorts(records, Earlier());
    hide Less;
    var out := Sorted(records);
    forall i, k | 0 <= i <= k < |out| ensures !Less(out[k].Key(), out[i].Key()) {
      if i == k {
        KeyOrder(out[i].Key(), out[i].Key(), out[i].Key());
      } else {
        assert !Earlier()(out[k], out[i]);
      }
    }
    AscendingIsInOrder(out);
  }

  lemma {:induction false} AscendingIsInOrder(s: seq<Record>)
    requires Ascending(s)
    ensures InOrder(s)
  {
    forall i, k | 0 <= i < k < |s|
      ensures s[i].createdAt <= s[k].createdAt
      ensures s[i].createdAt == s[k].createdAt ==> s[i].id == s[k].id || IdBefore(s[i].id, s[k].id)
    {
      assert !Less(s[k].Key(), s[i].Key());
      StringOrder(s[i].id, s[k].id);
      StringLessExactly(s[i].id, s[k].id);
    }
  }

  /** The records with this key, in order. */
  function WithKey(s: seq<Record>, key: Key): seq<Record> {
    if s == [] then []
    else WithKey(s[..|s| - 1], key) + if s[|s| - 1].createdAt == key.0 && s[|s| - 1].id == key.1 then [s[|s| - 1]] else []
  }

  lemma {:induction false} TiesHaveOneKey(s: seq<Record>, r: Record)
    ensures Sorting.Ties(s, r, Earlier()) == WithKey(s, r.Key())
  {
    if s != [] {
      TiesHaveOneKey(s[..|s| - 1], r);
      KeyOrder(s[|s| - 1].Key(), r.Key(), r.Key());
    }
  }

  /** Records with the same key keep the order in which they were given. */
  lemma {:induction false} SortedIsStable(records: seq<Record>, key: Key)
    ensures WithKey(Sorted(records), key) == WithKey(records, key)
  {
    var r := Record(key.1, key.0, "");
    EarlierOrders();
    Sorting.SortIsStable(records, r, Earlier());
    TiesHaveOneKey(records, r);
    TiesHaveOneKey(Sorted(records), r);
  }

  // ---------------------------------------------------------------- one page

  /** The first index at or after `from` whose key is after `key`. */
  function After(ordered: seq<Record>, key: Key, from: nat): (i: nat)
    requires from <= |ordered|
    ensures from <= i <= |ordered|
    decreases |ordered| - from
  {
    if from == |ordered| || Less(key, ordered[from].Key()) then from else After(ordered, key, from + 1)
  }

  function Start(ordered: seq<Record>, cursor: Option<Key>): (i: nat)
    ensures i <= |ordered|
  {
    if cursor.None? then 0 else After(ordered, cursor.value, 0)
  }

  lemma {:induction false} AfterIsFirst(ordered: seq<Record>, key: Key, from: nat)
    requires from <= |ordered|
    ensures
      var i := After(ordered, key, from);
      && (forall k :: from <= k < i ==> !Less(key, ordered[k].Key()))
      && (i < |ordered| ==> Less(key, ordered[i].Key()))
    decreases |ordered| - from
  {
    if from < |ordered| { AfterIsFirst(ordered, key, from + 1); }
  }

  /** Python's s[start:stop], also for a negative stop. */
  function Slice(s: seq<Record>, start: nat, stop: int): seq<Record> {
    var end := if stop < 0 then |s| + stop else if stop > |s| then |s| else stop;
    if start < end then s[start..end] else []
  }

  function Page(records: seq<Record>, cursor: Option<Key>, limit: int): (seq<Record>, Option<Key>) {
    var ordered := Sorted(records);
    var start := Start(ordered, cursor);
    var page := Slice(ordered, start, start + limit);
    if page == [] then ([], None)
    else (page, if |page| < limit then None else Some(page[|page| - 1].Key()))
  }

  /** `page` begins at `start`, the first record later than the cursor, if there is one: the next
      `limit` records or, for a negative limit -m, all but the last m - start.  A cursor comes with
      a page of at least `limit` records, and is the key of its last. */
  ghost predicate IsPage(ordered: seq<Record>, cursor: Option<Key>, limit: int, start: nat, page: seq<Record>, next: Option<Key>) {
    && start <= |ordered|
    && (forall i :: 0 <= i < start ==> cursor.Some? && !LaterThan(ordered[i], cursor.value))
    && (forall i :: start <= i < |ordered| ==> cursor.None? || LaterThan(ordered[i], cursor.value))
    && (start + limit >= |ordered| ==> page == ordered[start..])
    && (0 <= limit && start + limit <= |ordered| ==> page == ordered[start..start + limit])
    && (limit < 0 && (start + limit >= 0 || |ordered| + limit <= 0) ==> page == [])
    && (start + limit < 0 < |ordered| + limit ==> page == ordered[start..|ordered| + start + limit])
    && next == if page != [] && |page| >= limit then Some((page[|page| - 1].createdAt, page[|page| - 1].id)) else None
  }

  lemma {:induction false} StartIsFirstLater(ordered: seq<Record>, cursor: Option<Key>)
    requires Ascending(ordered)
    ensures
      var start := Start(ordered, cursor);
      && (forall i :: 0 <= i < start ==> cursor.Some? && !LaterThan(ordered[i], cursor.value))
      && (forall i :: start <= i < |ordered| ==> cursor.None? || LaterThan(ordered[i], cursor.value))
  {
    if cursor.Some? {
      AfterIsFirst(ordered, cursor.value, 0);
      var start := Start(ordered, cursor);
      forall i | 0 <= i < |ordered| ensures LaterThan(ordered[i], cursor.value) <==> start <= i {
        StringLessExactly(cursor.value.1, ordered[i].id);
        assert LaterThan(ordered[i], cursor.value) <==> Less(cursor.value, ordered[i].Key());
        hide Less;
        if start < i {
          assert !Less(ordered[i].Key(), ordered[start].Key());
          KeyOrder(ordered[i].Key(), cursor.value, cursor.value);
          KeyOrder(ordered[i].Key(), cursor.value, ordered[start].Key());
          KeyOrder(ordered[start].Key(), ordered[i].Key(), cursor.value);
          KeyOrder(cursor.value, ordered[start].Key(), ordered[i].Key());
        }
      }
    }
  }

  lemma {:induction false} PageIsPage(records: seq<Record>, cursor: Option<Key>, limit: int)
    ensures
      var ordered := Sorted(records);
      var (page, next) := Page(records, cursor, limit);
      IsPage(ordered, cursor, limit, Start(ordered, cursor), page, next)
  {
    hide Sorted, Start, LaterThan, Slice, InOrder, Ascending, Less;
    SortedSorts(records);
    StartIsFirstLater(Sorted(records), cursor);
    SliceIs(Sorted(records), Start(Sorted(records), cursor), limit);
  }

  lemma {:induction false} SliceIs(s: seq<Record>, start: nat, limit: int)
    requires start <= |s|
    ensures start + limit >= |s| ==> Slice(s, start, start + limit) == s[start..]
    ensures 0 <= limit && start + limit <= |s| ==> Slice(s, start, start + limit) == s[start..start + limit]
    ensures limit < 0 && (start + limit >= 0 || |s| + limit <= 0) ==> Slice(s, start, start + limit) == []
    ensures start + limit < 0 < |s| + limit ==> Slice(s, start, start + limit) == s[start..|s| + start + limit]
  {
  }

  method FetchPage(records: seq<Record>, cursor: Option<Key>, limit: int)
    returns (page: seq<Record>, next: Option<Key>)
    ensures (page, next) == Page(records, cursor, limit)
    ensures exists ordered, start: nat ::
              InOrder(ordered) && multiset(ordered) == multiset(records) && IsPage(ordered, cursor, limit, start, page, next)
  {
    SortedSorts(records);
    PageIsPage(records, cursor, limit);
    hide Less, Sorted, InOrder, IsPage, Ascending;
    var ordered := Sorted(records);
    var start := 0;
    if cursor.Some? {
      var found := false;
      for index := 0 to |ordered|
        invariant !found && start == 0
        invariant After(ordered, cursor.value, 0) == After(ordered, cursor.value, index)
      {
        if Less(cursor.value, ordered[index].Key()) {
          start := index;
          found := true;
          break;
        }
      }
      if !found { return [], None; }
    }
    page := Slice(ordered, start, start + limit);
    if page == [] { return [], None; }
    next := if |page| < limit then None else Some(page[|page| - 1].Key());
  }

  // ---------------------------------------------------------------- following the cursor

  /** A page is the next `limit` records, or all that are left; a cursor comes with a full page. */
  lemma {:induction false} PageIsNext(records: seq<Record>, cursor: Option<Key>, limit: int)
    requires limit >= 1
    ensures
      var ordered := Sorted(records);
      var start := Start(ordered, cursor);
      var (page, next) := Page(records, cursor, limit);
      && (start + limit <= |ordered| ==>
            page == ordered[start..start + limit] && next == Some(ordered[start + limit - 1].Key()))
      && (start + limit > |ordered| ==> page == ordered[start..] && next.None?)
  {
    hide Sorted, Start, Less;
  }

  /** The cursor left behind position `end` leads past everything before it, and to `end` itself
      exactly when the key changes there. */
  lemma {:induction false} CursorLeadsOn(ordered: seq<Record>, end: nat)
    requires Ascending(ordered) && 1 <= end <= |ordered|
    ensures
      var from := Start(ordered, Some(ordered[end - 1].Key()));
      && end <= from
      && (end < |ordered| ==> (from == end <==> ordered[end - 1].Key() != ordered[end].Key()))
  {
    var key := ordered[end - 1].Key();
    AfterIsFirst(ordered, key, 0);
    if end < |ordered| { KeyOrder(key, ordered[end].Key(), key); }
    hide Less;
  }

  lemma {:induction false} WalkAdvances(records: seq<Record>, cursor: Option<Key>, limit: int)
    requires limit >= 1 && Page(records, cursor, limit).1.Some?
    ensures Start(Sorted(records), cursor) + limit <= Start(Sorted(records), Page(records, cursor, limit).1)
    ensures Start(Sorted(records), cursor) + limit <= |records|
  {
    hide *;
    PageIsNext(records, cursor, limit);
    SortedSorts(records);
    CursorLeadsOn(Sorted(records), Start(Sorted(records), cursor) + limit);
  }

  /** All records that a client receives by following the cursor, page after page. */
  ghost function Walk(records: seq<Record>, cursor: Option<Key>, limit: int): seq<Record>
    requires limit >= 1
    decreases |records| - Start(Sorted(records), cursor)
  {
    var (page, next) := Page(records, cursor, limit);
    if next.None? then page
    else
      WalkAdvances(records, cursor, limit);
      page + Walk(records, next, limit)
  }

  /** No page that starts at i, i + limit, ... ends between two records with the same key. */
  ghost predicate NoSplit(ordered: seq<Record>, i: nat, limit: int)
    requires limit >= 1 && i <= |ordered|
    decreases |ordered| - i
  {
    i + limit < |ordered| ==>
      ordered[i + limit - 1].Key() != ordered[i + limit].Key() && NoSplit(ordered, i + limit, limit)
  }

  /** A page and what follows it make up the rest of the list exactly when they meet. */
  lemma {:induction false} Continued(ordered: seq<Record>, start: nat, end: nat, from: nat, rest: seq<Record>)
    requires start <= end <= from <= |ordered| && multiset(rest) <= multiset(ordered[from..])
    ensures multiset(ordered[start..end] + rest) <= multiset(ordered[start..])
    ensures ordered[start..end] + rest == ordered[start..] <==> from == end && rest == ordered[from..]
  {
    var page := ordered[start..end];
    assert ordered[start..] == page + ordered[end..];
    assert ordered[end..] == ordered[end..from] + ordered[from..];
    NotLonger(rest, ordered[from..]);
    if page + rest == ordered[start..] {
      assert rest == (page + rest)[|page|..] == ordered[start..][|page|..] == ordered[end..];
    }
  }

  ghost predicate Delivers(ordered: seq<Record>, start: nat, limit: int, walk: seq<Record>)
    requires limit >= 1 && start <= |ordered|
  {
    && multiset(walk) <= multiset(ordered[start..])
    && (walk == ordered[start..] <==> NoSplit(ordered, start, limit))
  }

  lemma {:induction false} PageDelivers(ordered: seq<Record>, start: nat, limit: int, from: nat, rest: seq<Record>)
    requires limit >= 1 && start + limit <= from <= |ordered| && Delivers(ordered, from, limit, rest)
    requires start + limit < |ordered| ==>
               (from == start + limit <==> ordered[start + limit - 1].Key() != ordered[start + limit].Key())
    ensures Delivers(ordered, start, limit, ordered[start..start + limit] + rest)
  {
    var end := start + limit;
    assert NoSplit(ordered, start, limit) <==>
        (end < |ordered| ==> ordered[end - 1].Key() != ordered[end].Key() && NoSplit(ordered, end, limit));
    hide NoSplit;
    Continued(ordered, start, end, from, rest);
    assert from == |ordered| || end < |ordered|;
  }

  lemma {:induction false} WalkEnds(records: seq<Record>, cursor: Option<Key>, limit: int)
    requires limit >= 1 && Page(records, cursor, limit).1.None?
    ensures Delivers(Sorted(records), Start(Sorted(records), cursor), limit, Walk(records, cursor, limit))
  {
    var ordered := Sorted(records);
    var start := Start(ordered, cursor);
    PageIsNext(records, cursor, limit);
    hide Sorted, Start, Page;
  }

  lemma {:induction false} WalkContinues(records: seq<Record>, cursor: Option<Key>, limit: int)
    requires limit >= 1 && Page(records, cursor, limit).1.Some?
    ensures
      var ordered := Sorted(records);
      var start := Start(ordered, cursor);
      var next := Page(records, cursor, limit).1;
      var from := Start(ordered, next);
      && start + limit <= from
      && Walk(records, cursor, limit) == ordered[start..start + limit] + Walk(records, next, limit)
      && (start + limit < |ordered| ==>
            (from == start + limit <==> ordered[start + limit - 1].Key() != ordered[start + limit].Key()))
  {
    hide Sorted, Page, Start, Less, Ascending;
    PageIsNext(records, cursor, limit);
    WalkAdvances(records, cursor, limit);
    SortedSorts(records);
    CursorLeadsOn(Sorted(records), Start(Sorted(records), cursor) + limit);
  }

  /** The rest of the walk never repeats a record, and is all the rest exactly when no page
      boundary separates equal keys. */
  lemma {:induction false} WalkFrom(records: seq<Record>, cursor: Option<Key>, limit: int)
    requires limit >= 1
    ensures Delivers(Sorted(records), Start(Sorted(records), cursor), limit, Walk(records, cursor, limit))
    decreases |records| - Start(Sorted(records), cursor)
  {
    hide *;
    var ordered := Sorted(records);
    var next := Page(records, cursor, limit).1;
    if next.None? {
      WalkEnds(records, cursor, limit);
    } else {
      WalkContinues(records, cursor, limit);
      WalkFrom(records, next, limit);
      PageDelivers(ordered, Start(ordered, cursor), limit, Start(ordered, next), Walk(records, next, limit));
    }
  }

  lemma {:induction false} NotLonger(a: seq<Record>, b: seq<Record>)
    requires multiset(a) <= multiset(b)
    ensures |a| <= |b|
  {
    assert |multiset(b)| == |multiset(a)| + |multiset(b) - multiset(a)|;
  }

  lemma {:induction false} NoSplitAt(ordered: seq<Record>, i: nat, limit: int)
    requires limit >= 1 && i <= |ordered|
    ensures NoSplit(ordered, i, limit) <==>
              forall m: nat :: m >= 1 && i + m * limit < |ordered| ==> Differ(ordered, i + m * limit)
    decreases |ordered| - i
  {
    if i + limit < |ordered| {
      NoSplitAt(ordered, i + limit, limit);
      if NoSplit(ordered, i, limit) {
        forall m: nat | m >= 1 && i + m * limit < |ordered| ensures Differ(ordered, i + m * limit) {
          if m == 1 {
            assert i + m * limit == i + limit;
          } else {
            assert Differ(ordered, i + limit + (m - 1) * limit);
          }
        }
      }
      if forall m: nat :: m >= 1 && i + m * limit < |ordered| ==> Differ(ordered, i + m * limit) {
        assert Differ(ordered, i + 1 * limit);
        forall m: nat | m >= 1 && i + limit + m * limit < |ordered| ensures Differ(ordered, i + limit + m * limit) {
          assert Differ(ordered, i + (m + 1) * limit);
        }
      }
    } else {
      forall m: nat | m >= 1 ensures i + m * limit >= |ordered| {}
    }
  }

  /** The record at i has another key than the one before it. */
  ghost predicate Differ(ordered: seq<Record>, i: int) {
    0 < i < |ordered| ==> ordered[i - 1].Key() != ordered[i].Key()
  }

  /** Following the cursor from the start yields the whole sorted list, once each and in order,
      exactly when no multiple of limit falls between two records with the same key. */
  lemma {:induction false} WalkIsComplete(records: seq<Record>, limit: int)
    requires limit >= 1
    ensures multiset(Walk(records, None, limit)) <= multiset(records)
    ensures Walk(records, None, limit) == Sorted(records) <==>
              forall m: nat :: m >= 1 && 0 + m * limit < |records| ==> Differ(Sorted(records), 0 + m * limit)
  {
    hide Sorted, Less, Walk, Page, NoSplit, After, Ascending, Differ;
    var ordered := Sorted(records);
    WalkFrom(records, None, limit);
    NoSplitAt(ordered, 0, limit);
    SortedSorts(records);
    assert ordered[0..] == ordered;
  }

  /** With distinct keys nothing is skipped and nothing is repeated, whatever the page size. */
  lemma {:induction false} DistinctKeysWalk(records: seq<Record>, limit: int)
    requires limit >= 1
    requires forall i, k :: 0 <= i < k < |records| ==> records[i].Key() != records[k].Key()
    ensures Walk(records, None, limit) == Sorted(records) && multiset(Sorted(records)) == multiset(records)
  {
    hide Sorted, Walk, Ascending, Less;
    var ordered := Sorted(records);
    SortedSorts(records);
    WalkIsComplete(records, limit);
    forall i | 0 < i < |ordered| ensures Differ(ordered, i) {
      if ordered[i - 1].Key() == ordered[i].Key() { SameKeyTwice(ordered, i - 1, i, records); }
    }
  }

  /** Two entries with one key stay two entries in any permutation. */
  lemma {:induction false} SameKeyTwice(ordered: seq<Record>, i: nat, k: nat, records: seq<Record>)
    requires i < k < |ordered| && ordered[i].Key() == ordered[k].Key() && multiset(ordered) == multiset(records)
    ensures exists a, b :: 0 <= a < b < |records| && records[a].Key() == records[b].Key()
  {
    var x, y := ordered[i], ordered[k];
    assert x in multiset(ordered) && y in multiset(ordered);
    if x != y {
      var a :| 0 <= a < |records| && records[a] == x;
      var b :| 0 <= b < |records| && records[b] == y;
      assert records[a].Key() == records[b].Key();
      assert a < b || b < a;
    } else {
      assert ordered == ordered[..i] + [x] + ordered[i + 1..k] + [x] + ordered[k + 1..];
      assert multiset(records)[x] >= 2;
      TwiceInside(records, x);
    }
  }

  lemma {:induction false} TwiceInside(s: seq<Record>, x: Record)
    requires multiset(s)[x] >= 2
    ensures exists a, b :: 0 <= a < b < |s| && s[a] == x && s[b] == x
  {
    var rest, last := s[..|s| - 1], s[|s| - 1];
    assert s == rest + [last];
    if last == x {
      assert x in multiset(rest);
      var a :| 0 <= a < |rest| && rest[a] == x;
      assert s[a] == x && s[|s| - 1] == x;
    } else {
      TwiceInside(rest, x);
      var a, b :| 0 <= a < b < |rest| && rest[a] == x && rest[b] == x;
      assert s[a] == x && s[b] == x;
    }
  }

  /** Two records with one key, one record a page: the second is never delivered. */
  lemma {:induction false} EqualKeysAreSkipped(r: Record)
    ensures |Walk([r, r], None, 1)| < 2
  {
    var records := [r, r];
    SortedSorts(records);
    var ordered := Sorted(records);
    assert ordered[0] in multiset(ordered) && ordered[1] in multiset(ordered);
    WalkIsComplete(records, 1);
    assert !Differ(ordered, 0 + 1 * 1);
    if |Walk(records, None, 1)| >= 2 {
      SameContents(Walk(records, None, 1), r);
      SameContents(ordered, r);
    }
  }

  lemma {:induction false} SameContents(s: seq<Record>, r: Record)
    requires multiset(s) <= multiset([r, r]) && |s| >= 2
    ensures s == [r, r]
  {
    NotLonger(s, [r, r]);
    assert s[0] in multiset(s) && s[1] in multiset(s);
  }
}
