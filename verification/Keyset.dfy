/**
 Keyset paging: filter the rows past a cursor, sort, read one row more than the page size, and hand
 out the cursor of the last row when there was one more. Four list endpoints have this shape; they
 differ in the order, in what a cursor holds and in the SQL filter a cursor stands for.
 */
module Keyset {
  import opened Common
  import opened Orders

  datatype Page<K, C> = Page(items: seq<K>, hasMore: bool, next: Option<C>)

  /** A list endpoint: the order, the cursor of a row, and the filter that a cursor adds. */
  datatype Listing<!K, !C> = Listing(lt: (K, K) -> bool, encode: K -> C, passes: (C, K) -> bool)

  predicate Selects<K, C>(l: Listing<K, C>, cursor: Option<C>, row: K) {
    cursor.None? || l.passes(cursor.value, row)
  }

  function Past<K, C>(l: Listing<K, C>, table: set<K>, cursor: Option<C>): set<K> {
    set row | row in table && Selects(l, cursor, row)
  }

  /** The filter of a row's cursor selects exactly the rows after that row. */
  ghost predicate CursorIsAfter<K(!new), C>(l: Listing<K, C>, table: set<K>) {
    forall x, y :: x in table && y in table ==> (l.passes(l.encode(x), y) <==> l.lt(x, y))
  }

  ghost predicate Exact<K(!new), C>(l: Listing<K, C>, table: set<K>) {
    StrictOrder(l.lt) && ConnectedOn(l.lt, table) && CursorIsAfter(l, table)
  }

  /** `.limit(size + 1)`, the test for one more row, the slice, and the cursor of the last row. */
  function Cut<K, C>(encode: K -> C, sorted: seq<K>, size: int): (p: Page<K, C>)
    requires size >= 1
    ensures p.items == sorted[..Min(size, |sorted|)]
    ensures p.hasMore <==> |sorted| > size
  {
    var rows := sorted[..Min(size + 1, |sorted|)];
    var hasMore := |rows| > size;
    var items := rows[..Min(size, |rows|)];
    Page(items, hasMore, if hasMore then Some(encode(items[|items| - 1])) else None)
  }

  /** The rows a listing wants to deliver from a start cursor on. */
  function Wanted<K(!new), C>(l: Listing<K, C>, table: set<K>, start: Option<C>): seq<K>
    requires Exact(l, table)
  {
    SortSet(l.lt, Past(l, table, start))
  }

  function Fetch<K(!new), C>(l: Listing<K, C>, table: set<K>, cursor: Option<C>, size: int): Page<K, C>
    requires Exact(l, table) && size >= 1
  {
    Cut(l.encode, Wanted(l, table, cursor), size)
  }

  /** A page holds rows of the table that its cursor selects. */
  lemma FetchedRows<K(!new), C>(l: Listing<K, C>, table: set<K>, cursor: Option<C>, size: int)
    requires Exact(l, table) && size >= 1
    ensures forall x :: x in Fetch(l, table, cursor, size).items ==> x in table && Selects(l, cursor, x)
  {
    SortSetSorts(l.lt, Past(l, table, cursor));
    var w := Wanted(l, table, cursor);
    forall x | x in Fetch(l, table, cursor, size).items ensures x in w {
    }
  }

  /** One request of a client: the table it met, the page size it asked for and the page it got. */
  datatype Visit<K, C> = Visit(table: set<K>, size: int, page: Page<K, C>)

  function Last<T>(s: seq<T>): T
    requires s != []
  {
    s[|s| - 1]
  }

  function Init<T>(s: seq<T>): seq<T>
    requires s != []
  {
    s[..|s| - 1]
  }

  /** The rows of all pages, in the order in which the client got them. */
  function Items<K, C>(walk: seq<Visit<K, C>>): seq<K> {
    if walk == [] then [] else Items(Init(walk)) + Last(walk).page.items
  }

  /**
   A client follows `next` from `start` while pages say there is more. The table may differ at each
   request, and so may the page size.
   */
  ghost predicate Walk<K(!new), C>(l: Listing<K, C>, start: Option<C>, walk: seq<Visit<K, C>>) {
    && walk != []
    && Exact(l, Last(walk).table) && Last(walk).size >= 1
    && if |walk| == 1 then Last(walk).page == Fetch(l, Last(walk).table, start, Last(walk).size)
       else
         && Walk(l, start, Init(walk))
         && Last(Init(walk)).page.hasMore
         && Last(walk).page == Fetch(l, Last(walk).table, Last(Init(walk)).page.next, Last(walk).size)
  }

  /** What a walk has delivered after its last page, against the wanted rows `w`. */
  ghost predicate Delivered<K, C>(encode: K -> C, w: seq<K>, walk: seq<Visit<K, C>>)
    requires walk != []
  {
    var n := |Items(walk)|;
    var last := Last(walk).page;
    && n <= |w|
    && Items(walk) == w[..n]
    && (last.hasMore <==> n < |w|)
    && (last.hasMore ==> n > 0 && last.next == Some(encode(w[n - 1])))
    && |walk| <= n + 1
    && (last.hasMore ==> |walk| <= n)
  }

  lemma FirstPage<K, C>(encode: K -> C, w: seq<K>, walk: seq<Visit<K, C>>)
    requires |walk| == 1 && Last(walk).size >= 1 && Last(walk).page == Cut(encode, w, Last(walk).size)
    ensures Delivered(encode, w, walk)
  {
    assert Items(walk) == Items(Init(walk)) + Last(walk).page.items == Last(walk).page.items;
  }

  /** A page cut from the rows still wanted continues what was delivered. */
  lemma NextPage<K, C>(encode: K -> C, w: seq<K>, walk: seq<Visit<K, C>>)
    requires |walk| > 1 && Last(Init(walk)).page.hasMore && Last(walk).size >= 1
    requires Delivered(encode, w, Init(walk))
    requires Last(walk).page == Cut(encode, w[|Items(Init(walk))|..], Last(walk).size)
    ensures Delivered(encode, w, walk)
  {
    var p := Last(walk).page;
    var n := |Items(Init(walk))|;
    assert p.items == w[n..][..|p.items|] == w[n..n + |p.items|];
    assert w[..n + |p.items|] == w[..n] + w[n..n + |p.items|];
  }

  /** Rows after a selected row are selected: a start cursor cuts off an initial part of the order. */
  ghost predicate StartIsClosed<K(!new), C>(l: Listing<K, C>, table: set<K>, start: Option<C>) {
    forall x, y :: x in table && y in table && Selects(l, start, x) && l.lt(x, y) ==> Selects(l, start, y)
  }

  /** The rows past the cursor of the n-th wanted row are the wanted rows from n on. */
  lemma PastRow<K(!new), C>(l: Listing<K, C>, table: set<K>, start: Option<C>, n: nat)
    requires Exact(l, table) && StartIsClosed(l, table, start)
    requires 0 < n <= |Wanted(l, table, start)|
    ensures Wanted(l, table, Some(l.encode(Wanted(l, table, start)[n - 1]))) == Wanted(l, table, start)[n..]
  {
    var w := Wanted(l, table, start);
    SortSetSorts(l.lt, Past(l, table, start));
    var c := Some(l.encode(w[n - 1]));
    var rest := w[n..];
    assert w[n - 1] in w;
    forall row ensures row in rest <==> row in Past(l, table, c) {
      if row in rest {
        var j :| 0 <= j < |rest| && rest[j] == row;
        assert l.lt(w[n - 1], w[n + j]);
        assert row in w;
      }
      if row in Past(l, table, c) {
        assert l.lt(w[n - 1], row);
        assert row in w;
        var j :| 0 <= j < |w| && w[j] == row;
        assert j >= n;
        assert rest[j - n] == row;
      }
    }
    SortSetIs(l.lt, Past(l, table, c), rest);
  }

  /** Rows that later fetches see in addition sort before every row of the first table. */
  ghost predicate InFrontOf<K(!new)>(lt: (K, K) -> bool, first: set<K>, table: set<K>) {
    first <= table && forall x, y :: x in table && x !in first && y in first ==> lt(x, y)
  }

  lemma WantedPastInFront<K(!new), C>(l: Listing<K, C>, first: set<K>, table: set<K>, row: K)
    requires Exact(l, first) && Exact(l, table) && InFrontOf(l.lt, first, table) && row in first
    ensures Wanted(l, table, Some(l.encode(row))) == Wanted(l, first, Some(l.encode(row)))
  {
    var c := Some(l.encode(row));
    assert Past(l, table, c) == Past(l, first, c) by {
      forall x | x in table && x !in first ensures !Selects(l, c, x) {
        assert l.lt(x, row);
      }
    }
  }

  lemma StepInFront<K(!new), C>(l: Listing<K, C>, first: set<K>, start: Option<C>, walk: seq<Visit<K, C>>)
    requires |walk| > 1 && Walk(l, start, walk)
    requires Exact(l, first) && StartIsClosed(l, first, start) && InFrontOf(l.lt, first, Last(walk).table)
    requires Delivered(l.encode, Wanted(l, first, start), Init(walk))
    ensures Delivered(l.encode, Wanted(l, first, start), walk)
  {
    var w := Wanted(l, first, start);
    var n := |Items(Init(walk))|;
    PastRow(l, first, start, n);
    SortSetSorts(l.lt, Past(l, first, start));
    assert w[n - 1] in w;
    WantedPastInFront(l, first, Last(walk).table, w[n - 1]);
    NextPage(l.encode, w, walk);
  }

  ghost predicate AllInFrontOf<K(!new), C>(lt: (K, K) -> bool, first: set<K>, walk: seq<Visit<K, C>>) {
    walk != [] ==> InFrontOf(lt, first, Last(walk).table) && AllInFrontOf(lt, first, Init(walk))
  }

  /**
   Rows that arrive in front of the cursor do not disturb a walk: it delivers the rows of the first
   table, in order, each once, and its last page says so.
   */
  lemma {:induction false} WalkInFront<K(!new), C>(l: Listing<K, C>, start: Option<C>, walk: seq<Visit<K, C>>)
    requires Walk(l, start, walk) && Exact(l, walk[0].table) && StartIsClosed(l, walk[0].table, start)
    requires AllInFrontOf(l.lt, walk[0].table, walk)
    ensures Delivered(l.encode, Wanted(l, walk[0].table, start), walk)
    decreases |walk|
  {
    if |walk| == 1 {
      FirstPage(l.encode, Wanted(l, walk[0].table, start), walk);
    } else {
      WalkInFront(l, start, Init(walk));
      StepInFront(l, walk[0].table, start, walk);
    }
  }

  /** The rows of `large` that are not in `small` sort after every row of `small`. */
  ghost predicate Behind<K(!new)>(lt: (K, K) -> bool, small: set<K>, large: set<K>) {
    small <= large && forall x, y :: x in large && x !in small && y in small ==> lt(y, x)
  }

  lemma WantedGrows<K(!new), C>(l: Listing<K, C>, small: set<K>, large: set<K>, start: Option<C>)
    requires Exact(l, small) && Exact(l, large) && Behind(l.lt, small, large)
    ensures Wanted(l, small, start) <= Wanted(l, large, start)
  {
    var w0 := Wanted(l, small, start);
    var extra := Past(l, large, start) - Past(l, small, start);
    var e := SortSet(l.lt, extra);
    SortSetSorts(l.lt, Past(l, small, start));
    SortSetSorts(l.lt, extra);
    forall i, j | 0 <= i < |w0| && 0 <= j < |e| ensures l.lt(w0[i], e[j]) {
      assert w0[i] in w0 && e[j] in e;
    }
    SortSetIs(l.lt, Past(l, large, start), w0 + e);
  }

  lemma StillDelivered<K, C>(encode: K -> C, w0: seq<K>, w: seq<K>, walk: seq<Visit<K, C>>)
    requires walk != [] && Last(walk).page.hasMore && Delivered(encode, w0, walk) && w0 <= w
    ensures Delivered(encode, w, walk)
  {
  }

  lemma StepBehind<K(!new), C>(l: Listing<K, C>, small: set<K>, start: Option<C>, walk: seq<Visit<K, C>>)
    requires |walk| > 1 && Walk(l, start, walk)
    requires Exact(l, small) && Behind(l.lt, small, Last(walk).table) && StartIsClosed(l, Last(walk).table, start)
    requires Delivered(l.encode, Wanted(l, small, start), Init(walk))
    ensures Delivered(l.encode, Wanted(l, Last(walk).table, start), walk)
  {
    var w := Wanted(l, Last(walk).table, start);
    WantedGrows(l, small, Last(walk).table, start);
    StillDelivered(l.encode, Wanted(l, small, start), w, Init(walk));
    PastRow(l, Last(walk).table, start, |Items(Init(walk))|);
    NextPage(l.encode, w, walk);
  }

  /** Each request meets the table of the request before with rows appended behind it. */
  ghost predicate GrowsBehind<K(!new), C>(l: Listing<K, C>, start: Option<C>, walk: seq<Visit<K, C>>) {
    walk != [] ==>
      && StartIsClosed(l, Last(walk).table, start)
      && GrowsBehind(l, start, Init(walk))
      && (|walk| > 1 ==> Behind(l.lt, Last(Init(walk)).table, Last(walk).table))
  }

  /**
   Rows appended behind the others are picked up: a walk delivers, in order and each once, an initial
   part of the rows of its last table, and all of them when the last page says there are no more.
   */
  lemma {:induction false} WalkBehind<K(!new), C>(l: Listing<K, C>, start: Option<C>, walk: seq<Visit<K, C>>)
    requires Walk(l, start, walk) && GrowsBehind(l, start, walk)
    ensures Delivered(l.encode, Wanted(l, Last(walk).table, start), walk)
    decreases |walk|
  {
    if |walk| == 1 {
      FirstPage(l.encode, Wanted(l, Last(walk).table, start), walk);
    } else {
      WalkBehind(l, start, Init(walk));
      StepBehind(l, Last(Init(walk)).table, start, walk);
    }
  }

  /** Every request of the walk meets the same table. */
  ghost predicate Unchanged<K(!new), C>(table: set<K>, walk: seq<Visit<K, C>>) {
    walk != [] ==> Last(walk).table == table && Unchanged(table, Init(walk))
  }

  lemma {:induction false} UnchangedIsInFront<K(!new), C>(l: Listing<K, C>, table: set<K>, walk: seq<Visit<K, C>>)
    requires Unchanged(table, walk)
    ensures AllInFrontOf(l.lt, table, walk)
    ensures walk != [] ==> walk[0].table == table
  {
    if walk != [] {
      UnchangedIsInFront(l, table, Init(walk));
    }
  }

  /** A walk over an unchanging table delivers exactly its rows, in order, and it ends. */
  lemma WalkFixed<K(!new), C>(l: Listing<K, C>, table: set<K>, start: Option<C>, walk: seq<Visit<K, C>>)
    requires Exact(l, table) && StartIsClosed(l, table, start)
    requires Walk(l, start, walk) && Unchanged(table, walk)
    ensures Delivered(l.encode, Wanted(l, table, start), walk)
  {
    UnchangedIsInFront(l, table, walk);
    WalkInFront(l, start, walk);
  }

  /** An endpoint answers a cursor and a limit; a session follows its cursors from the beginning. */
  ghost predicate Session<K, C>(
    endpoint: (Option<C>, int) -> Page<K, C>, limits: seq<int>, pages: seq<Page<K, C>>)
  {
    && |pages| == |limits| > 0
    && if |pages| == 1 then pages[0] == endpoint(None, limits[0])
       else
         && Session(endpoint, Init(limits), Init(pages))
         && Last(Init(pages)).hasMore
         && Last(pages) == endpoint(Last(Init(pages)).next, Last(limits))
  }

  /** The endpoint pages through `table`, at most `bound` rows at a time. */
  ghost predicate Serves<K(!new), C(!new)>(
    endpoint: (Option<C>, int) -> Page<K, C>, l: Listing<K, C>, table: set<K>, bound: int)
    requires Exact(l, table)
  {
    forall cursor, limit :: endpoint(cursor, limit) == Fetch(l, table, cursor, Clamp(limit, 1, bound))
  }

  function AllItems<K, C>(pages: seq<Page<K, C>>): seq<K> {
    if pages == [] then [] else AllItems(Init(pages)) + Last(pages).items
  }

  lemma {:induction false} SessionIsWalk<K(!new), C(!new)>(
    endpoint: (Option<C>, int) -> Page<K, C>, l: Listing<K, C>, table: set<K>, bound: int,
    limits: seq<int>, pages: seq<Page<K, C>>) returns (walk: seq<Visit<K, C>>)
    requires Exact(l, table) && Serves(endpoint, l, table, bound)
    requires Session(endpoint, limits, pages)
    ensures |walk| == |pages| && Last(walk).page == Last(pages)
    ensures Walk(l, None, walk) && Unchanged(table, walk) && Items(walk) == AllItems(pages)
    decreases |pages|
  {
    var visit := Visit(table, Clamp(Last(limits), 1, bound), Last(pages));
    walk := [];
    if |pages| > 1 {
      walk := SessionIsWalk(endpoint, l, table, bound, Init(limits), Init(pages));
    } else {
      assert Init(walk + [visit]) == [];
      assert Items(Init(walk + [visit])) == [] == AllItems(Init(pages));
    }
    walk := walk + [visit];
    if |pages| > 1 {
      assert Init(walk) == walk[..|walk| - 1];
    }
  }

  /**
   A session over a fixed table delivers rows of the table in order, none twice; it takes at most one
   request per row plus one; and when it ends it has delivered every row.
   */
  ghost predicate PagesThrough<K, C>(lt: (K, K) -> bool, table: set<K>, pages: seq<Page<K, C>>)
    requires pages != []
  {
    && Sorted(lt, AllItems(pages))
    && (forall x :: x in AllItems(pages) ==> x in table)
    && |pages| <= |table| + 1
    && (!Last(pages).hasMore ==> forall x :: x in table ==> x in AllItems(pages))
  }

  lemma SessionDelivers<K(!new), C(!new)>(
    endpoint: (Option<C>, int) -> Page<K, C>, l: Listing<K, C>, table: set<K>, bound: int,
    limits: seq<int>, pages: seq<Page<K, C>>)
    requires Exact(l, table) && Serves(endpoint, l, table, bound)
    requires Session(endpoint, limits, pages)
    ensures PagesThrough(l.lt, table, pages)
  {
    var walk := SessionIsWalk(endpoint, l, table, bound, limits, pages);
    WalkFixed(l, table, None, walk);
    assert Past(l, table, None) == table;
    SortedTable(l.lt, table, |AllItems(pages)|);
  }

  lemma PrefixOfSorted<K>(lt: (K, K) -> bool, table: set<K>, w: seq<K>, n: nat)
    requires Sorted(lt, w) && (forall x :: x in w <==> x in table) && n <= |w| == |table|
    ensures Sorted(lt, w[..n])
    ensures forall x :: x in w[..n] ==> x in table
    ensures n == |table| ==> forall x :: x in table ==> x in w[..n]
  {
    forall x | x in w[..n] ensures x in table {
      assert x in w;
    }
    if n == |table| {
      assert w[..n] == w;
    }
  }

  lemma SortedTable<K(!new)>(lt: (K, K) -> bool, table: set<K>, n: nat)
    requires StrictOrder(lt) && ConnectedOn(lt, table) && n <= |table|
    ensures Sorted(lt, SortSet(lt, table)[..n])
    ensures forall x :: x in SortSet(lt, table)[..n] ==> x in table
    ensures n == |table| ==> forall x :: x in table ==> x in SortSet(lt, table)[..n]
  {
    SortSetSorts(lt, table);
    PrefixOfSorted(lt, table, SortSet(lt, table), n);
  }

  /** A page is as full as the rows that its cursor selects allow, and says whether there are more. */
  lemma PageIsFull<K(!new), C>(l: Listing<K, C>, table: set<K>, cursor: Option<C>, size: int)
    requires Exact(l, table) && size >= 1
    ensures var selected := Past(l, table, cursor);
      var page := Fetch(l, table, cursor, size);
      && |page.items| == (if |selected| < size then |selected| else size)
      && (page.hasMore <==> |selected| > size)
      && (page.next.Some? <==> page.hasMore)
  {
    SortSetSorts(l.lt, Past(l, table, cursor));
  }

  /** The size that a limit asks for: at least one, at most `bound`, and else the limit itself. */
  lemma SizeOfLimit(limit: int, bound: int)
    requires bound >= 1
    ensures limit < 1 ==> Clamp(limit, 1, bound) == 1
    ensures limit > bound ==> Clamp(limit, 1, bound) == bound
    ensures 1 <= limit <= bound ==> Clamp(limit, 1, bound) == limit
  {
  }
}
