/** Paging through the history of a chat by message id, backwards from the newest and forwards. */
module History {
  import opened Common
  import opened Orders
  import opened Keyset

  const DEFAULT_PAGE := 50
  const MAX_PAGE := 100

  datatype HistoryPage = HistoryPage(ids: seq<int>, hasMore: bool)

  predicate Newer(a: int, b: int) {
    a > b
  }

  predicate Older(a: int, b: int) {
    a < b
  }

  function OfRow(id: int): int {
    id
  }

  /** Newest first, and the filter `id < before`. */
  const Backward: Listing<int, int> := Listing(Newer, OfRow, (before, id) => id < before)

  /** Oldest first, and the filter `id > after`. */
  const Forward: Listing<int, int> := Listing(Older, OfRow, (after, id) => id > after)

  lemma HistoryCursorsExact(table: set<int>)
    ensures Exact(Backward, table) && Exact(Forward, table)
  {
  }

  lemma StartsClosed(table: set<int>, start: Option<int>)
    ensures StartIsClosed(Backward, table, start) && StartIsClosed(Forward, table, start)
  {
  }

  function Take<T>(s: seq<T>, n: int): seq<T>
    requires n >= 0
  {
    s[..Min(n, |s|)]
  }

  function After(table: set<int>, start: int): set<int> {
    set id | id in table && id > start
  }

  /** `table` holds the ids of the chat's messages. */
  function ListLatestForChat(table: set<int>, limit: nat): seq<int> {
    Reverse(Take(SortSet(Newer, table), limit))
  }

  function ListOlderThan(table: set<int>, before: int, limit: nat): seq<int> {
    Reverse(Take(SortSet(Newer, set id | id in table && id < before), limit))
  }

  function ListNewerThan(table: set<int>, after: int, limit: nat): seq<int> {
    Take(SortSet(Older, After(table, after)), limit)
  }

  function PageLimit(limit: Option<int>): int {
    Clamp(limit.GetOr(DEFAULT_PAGE), 1, MAX_PAGE)
  }

  /** The page as the keyset listing of the chat sees it: forwards after an id, else backwards. */
  function PageOf(table: set<int>, before: Option<int>, after: Option<int>, limit: Option<int>): HistoryPage {
    HistoryCursorsExact(table);
    if after.Some? then
      var p := Fetch(Forward, table, after, PageLimit(limit));
      HistoryPage(p.items, p.hasMore)
    else
      var p := Fetch(Backward, table, before, PageLimit(limit));
      HistoryPage(Reverse(p.items), p.hasMore)
  }

  lemma WantedForward(table: set<int>, after: int)
    requires Exact(Forward, table)
    ensures Wanted(Forward, table, Some(after)) == SortSet(Older, After(table, after))
  {
    assert Past(Forward, table, Some(after)) == After(table, after);
  }

  function EarlierThan(table: set<int>, before: Option<int>): set<int> {
    if before.Some? then set id | id in table && id < before.value else table
  }

  lemma WantedBackward(table: set<int>, before: Option<int>)
    requires Exact(Backward, table)
    ensures Wanted(Backward, table, before) == SortSet(Newer, EarlierThan(table, before))
  {
    assert Past(Backward, table, before) == EarlierThan(table, before);
  }

  /** The page that a window of rows, read with one row too many, becomes. */
  function NewestOf(rows: seq<int>, lim: nat): HistoryPage {
    if |rows| > lim then HistoryPage(rows[|rows| - lim..], true) else HistoryPage(rows, false)
  }

  function OldestOf(rows: seq<int>, lim: nat): HistoryPage {
    HistoryPage(Take(rows, lim), |rows| > lim)
  }

  lemma NewerPage(table: set<int>, before: Option<int>, after: int, limit: Option<int>)
    ensures PageOf(table, before, Some(after), limit)
      == OldestOf(ListNewerThan(table, after, PageLimit(limit) + 1), PageLimit(limit))
  {
    HistoryCursorsExact(table);
    WantedForward(table, after);
  }

  lemma OlderPage(table: set<int>, before: Option<int>, limit: Option<int>)
    ensures PageOf(table, before, None, limit)
      == NewestOf(Reverse(Take(SortSet(Newer, EarlierThan(table, before)), PageLimit(limit) + 1)), PageLimit(limit))
  {
    HistoryCursorsExact(table);
    WantedBackward(table, before);
    NewestRows(Wanted(Backward, table, before), PageLimit(limit));
  }

  /** Of one row too many, the slice from the end drops the oldest. */
  lemma NewestRows(sorted: seq<int>, lim: nat)
    ensures NewestOf(Reverse(Take(sorted, lim + 1)), lim) == HistoryPage(Reverse(Take(sorted, lim)), |sorted| > lim)
  {
  }

  /** The rows of a page: one row too many is read, and dropped at the far end of the reading direction. */
  method SelectRows(table: set<int>, before: Option<int>, after: Option<int>, limit: Option<int>)
    returns (ids: seq<int>, hasMore: bool)
    ensures HistoryPage(ids, hasMore) == PageOf(table, before, after, limit)
  {
    var lim := if limit.Some? then limit.value else DEFAULT_PAGE;
    lim := Max(1, Min(lim, MAX_PAGE));
    var rows := ReadWindow(table, before, after, lim + 1);
    if after.Some? {
      NewerPage(table, before, after.value, limit);
      ids, hasMore := rows[..Min(lim, |rows|)], |rows| > lim;
    } else {
      OlderPage(table, before, limit);
      ids, hasMore := DropOldest(rows, lim);
    }
  }

  method DropOldest(rows: seq<int>, lim: nat) returns (ids: seq<int>, hasMore: bool)
    ensures HistoryPage(ids, hasMore) == NewestOf(rows, lim)
  {
    hasMore := |rows| > lim;
    if hasMore {
      ids := rows[|rows| - lim..];
    } else {
      ids := rows;
    }
  }

  method ReadWindow(table: set<int>, before: Option<int>, after: Option<int>, count: nat) returns (rows: seq<int>)
    ensures rows == if after.Some? then ListNewerThan(table, after.value, count)
                    else Reverse(Take(SortSet(Newer, EarlierThan(table, before)), count))
  {
    if after.Some? {
      rows := ListNewerThan(table, after.value, count);
    } else if before.None? {
      rows := ListLatestForChat(table, count);
    } else {
      rows := ListOlderThan(table, before.value, count);
    }
  }

  lemma PageHoldsTableRows(table: set<int>, before: Option<int>, after: Option<int>, limit: Option<int>)
    ensures var ids := PageOf(table, before, after, limit).ids; forall i :: 0 <= i < |ids| ==> ids[i] in table
  {
    var ids := PageOf(table, before, after, limit).ids;
    HistoryCursorsExact(table);
    if after.Some? {
      FetchedRows(Forward, table, after, PageLimit(limit));
    } else {
      FetchedRows(Backward, table, before, PageLimit(limit));
      SortedMembers(Fetch(Backward, table, before, PageLimit(limit)).items);
    }
    assert forall i :: 0 <= i < |ids| ==> ids[i] in ids;
  }

  /** One request of a client: the messages the chat had then, the limit, and the page. */
  datatype HistoryVisit = HistoryVisit(table: set<int>, limit: Option<int>, page: HistoryPage)

  /** The requests of a client that follows one direction, the last one outermost. */
  datatype Reading = Opened(v: HistoryVisit) | Continued(prior: Reading, v: HistoryVisit) {

    function Requests(): nat {
      if Opened? then 1 else prior.Requests() + 1
    }

    function FirstTable(): set<int> {
      if Opened? then v.table else prior.FirstTable()
    }
  }

  ghost predicate OnlyNewer(was: set<int>, now: set<int>) {
    was <= now && forall x, y :: x in now && x !in was && y in was ==> x > y
  }

  /** Each request finds the earlier messages and possibly newer ones. */
  ghost predicate OnlyNewMessages(r: Reading) {
    r.Continued? ==> OnlyNewMessages(r.prior) && OnlyNewer(r.prior.v.table, r.v.table)
  }

  /** Opening a chat and scrolling up: each request asks before the first id of the page before. */
  ghost predicate ScrollsUp(r: Reading) {
    match r
    case Opened(v) => v.page == PageOf(v.table, None, None, v.limit)
    case Continued(prior, v) =>
      && ScrollsUp(prior)
      && prior.v.page.hasMore && prior.v.page.ids != []
      && v.page == PageOf(v.table, Some(prior.v.page.ids[0]), None, v.limit)
  }

  /** What the client shows after scrolling: older pages go in front. */
  function ShownAbove(r: Reading): seq<int> {
    if r.Opened? then r.v.page.ids else r.v.page.ids + ShownAbove(r.prior)
  }

  function UpVisit(v: HistoryVisit): Visit<int, int> {
    Visit(v.table, PageLimit(v.limit),
      Page(Reverse(v.page.ids), v.page.hasMore,
           if v.page.hasMore && v.page.ids != [] then Some(v.page.ids[0]) else None))
  }

  function UpWalk(r: Reading): (w: seq<Visit<int, int>>)
    ensures |w| == r.Requests() && Last(w) == UpVisit(r.v) && w[0].table == r.FirstTable()
  {
    if r.Opened? then [UpVisit(r.v)] else UpWalk(r.prior) + [UpVisit(r.v)]
  }

  lemma UpVisitIsFetch(v: HistoryVisit, before: Option<int>)
    requires v.page == PageOf(v.table, before, None, v.limit)
    ensures Exact(Backward, v.table)
    ensures UpVisit(v).page == Fetch(Backward, v.table, before, PageLimit(v.limit))
  {
    HistoryCursorsExact(v.table);
    var p := Fetch(Backward, v.table, before, PageLimit(v.limit));
    ReverseTwice(p.items);
    if p.hasMore {
      ReverseAt(p.items, 0);
    }
  }

  lemma OnlyNewerTransitive(a: set<int>, b: set<int>, c: set<int>)
    requires OnlyNewer(a, b) && OnlyNewer(b, c)
    ensures OnlyNewer(a, c)
  {
  }

  lemma {:induction false} UpWalkIsWalk(r: Reading)
    requires ScrollsUp(r) && OnlyNewMessages(r)
    ensures Walk(Backward, None, UpWalk(r))
    ensures OnlyNewer(r.FirstTable(), r.v.table)
    ensures AllInFrontOf(Newer, r.FirstTable(), UpWalk(r))
  {
    var w := UpWalk(r);
    if r.Continued? {
      UpVisitIsFetch(r.v, Some(r.prior.v.page.ids[0]));
      assert Init(w) == UpWalk(r.prior);
      UpWalkIsWalk(r.prior);
      OnlyNewerTransitive(r.FirstTable(), r.prior.v.table, r.v.table);
    } else {
      UpVisitIsFetch(r.v, None);
      assert Init(w) == [];
    }
  }

  lemma {:induction false} UpWalkItems(r: Reading)
    ensures Items(UpWalk(r)) == Reverse(ShownAbove(r))
  {
    var w := UpWalk(r);
    if r.Continued? {
      assert Init(w) == UpWalk(r.prior);
      UpWalkItems(r.prior);
      ReverseConcat(r.v.page.ids, ShownAbove(r.prior));
    } else {
      assert Init(w) == [];
      assert Items(w) == Items(Init(w)) + Reverse(r.v.page.ids);
    }
  }

  lemma DescendingIsReversed(table: set<int>)
    ensures SortSet(Newer, table) == Reverse(SortSet(Older, table))
  {
    var up := SortSet(Older, table);
    SortSetSorts(Older, table);
    SortedMembers(up);
    forall i, j | 0 <= i < j < |up| ensures Reverse(up)[i] > Reverse(up)[j] {
      ReverseAt(up, i);
      ReverseAt(up, j);
      assert Older(up[|up| - 1 - j], up[|up| - 1 - i]);
    }
    SortSetIs(Newer, table, Reverse(up));
  }

  lemma SortedMembers(s: seq<int>)
    ensures forall x :: x in s <==> x in Reverse(s)
  {
    forall x | x in s ensures x in Reverse(s) {
      var i :| 0 <= i < |s| && s[i] == x;
      assert Reverse(s)[|s| - 1 - i] == x;
    }
  }

  lemma UpDelivered(r: Reading)
    requires ScrollsUp(r) && OnlyNewMessages(r)
    ensures Delivered(OfRow, SortSet(Newer, r.FirstTable()), UpWalk(r))
  {
    var table := r.FirstTable();
    UpWalkIsWalk(r);
    HistoryCursorsExact(table);
    StartsClosed(table, None);
    WalkInFront(Backward, None, UpWalk(r));
    assert Past(Backward, table, None) == table;
  }

  /** The shown messages are the newest ones of `history`, and `more` tells whether it has older ones. */
  ghost predicate ShowsNewest(history: seq<int>, shown: seq<int>, more: bool) {
    var n := |shown|;
    && n <= |history|
    && shown == history[|history| - n..]
    && (more <==> n < |history|)
  }

  lemma UnReverse(up: seq<int>, shown: seq<int>, rest: seq<int>)
    requires Reverse(up) == Reverse(shown) + rest
    ensures up == Reverse(rest) + shown
    ensures |shown| <= |up| && shown == up[|up| - |shown|..]
  {
    ReverseTwice(up);
    ReverseTwice(shown);
    ReverseConcat(Reverse(shown), rest);
  }

  lemma Front<T>(s: seq<T>, front: seq<T>)
    requires |front| <= |s| && front == s[..|front|]
    ensures s == front + s[|front|..]
  {
  }

  lemma ReadUpwards(up: seq<int>, walk: seq<Visit<int, int>>, shown: seq<int>)
    requires walk != [] && Delivered(OfRow, Reverse(up), walk) && Items(walk) == Reverse(shown)
    ensures ShowsNewest(up, shown, Last(walk).page.hasMore)
    ensures |walk| <= |shown| + 1
  {
    Front(Reverse(up), Reverse(shown));
    UnReverse(up, shown, Reverse(up)[|shown|..]);
  }

  /**
   Scrolling up rebuilds the history the chat had when it was opened: at each point exactly its newest
   messages, in id order, each once, and `has_more` tells whether older ones remain. Messages that
   arrive between the requests change nothing.
   */
  lemma ScrollingUpRebuildsHistory(r: Reading)
    requires ScrollsUp(r) && OnlyNewMessages(r)
    ensures ShowsNewest(SortSet(Older, r.FirstTable()), ShownAbove(r), r.v.page.hasMore)
    ensures r.Requests() <= |ShownAbove(r)| + 1
  {
    UpDelivered(r);
    UpWalkItems(r);
    DescendingIsReversed(r.FirstTable());
    ReadUpwards(SortSet(Older, r.FirstTable()), UpWalk(r), ShownAbove(r));
  }

  /** Catching up after an id: each request asks after the last id of the page before. */
  ghost predicate CatchesUp(start: int, r: Reading) {
    match r
    case Opened(v) => v.page == PageOf(v.table, None, Some(start), v.limit)
    case Continued(prior, v) =>
      && CatchesUp(start, prior)
      && prior.v.page.hasMore && prior.v.page.ids != []
      && v.page == PageOf(v.table, None, Some(Last(prior.v.page.ids)), v.limit)
  }

  function ShownBelow(r: Reading): seq<int> {
    if r.Opened? then r.v.page.ids else ShownBelow(r.prior) + r.v.page.ids
  }

  function DownVisit(v: HistoryVisit): Visit<int, int> {
    Visit(v.table, PageLimit(v.limit),
      Page(v.page.ids, v.page.hasMore,
           if v.page.hasMore && v.page.ids != [] then Some(Last(v.page.ids)) else None))
  }

  function DownWalk(r: Reading): (w: seq<Visit<int, int>>)
    ensures |w| == r.Requests() && Last(w) == DownVisit(r.v)
  {
    if r.Opened? then [DownVisit(r.v)] else DownWalk(r.prior) + [DownVisit(r.v)]
  }

  lemma DownVisitIsFetch(v: HistoryVisit, after: int)
    requires v.page == PageOf(v.table, None, Some(after), v.limit)
    ensures Exact(Forward, v.table)
    ensures DownVisit(v).page == Fetch(Forward, v.table, Some(after), PageLimit(v.limit))
  {
    HistoryCursorsExact(v.table);
  }

  lemma {:induction false} DownWalkIsWalk(start: int, r: Reading)
    requires CatchesUp(start, r) && OnlyNewMessages(r)
    ensures Walk(Forward, Some(start), DownWalk(r))
    ensures GrowsBehind(Forward, Some(start), DownWalk(r))
    ensures Items(DownWalk(r)) == ShownBelow(r)
  {
    var w := DownWalk(r);
    StartsClosed(r.v.table, Some(start));
    if r.Continued? {
      DownVisitIsFetch(r.v, Last(r.prior.v.page.ids));
      assert Init(w) == DownWalk(r.prior);
      DownWalkIsWalk(start, r.prior);
    } else {
      DownVisitIsFetch(r.v, start);
      assert Init(w) == [];
      assert Items(w) == Items(Init(w)) + r.v.page.ids;
    }
  }

  /**
   Catching up after an id delivers exactly the newer messages, in id order, each once: with the last
   page it has an initial part of what the chat then holds after the id, and `has_more` tells whether
   that is all, also when messages arrive between the requests.
   */
  lemma CatchingUpDeliversNewer(start: int, r: Reading)
    requires CatchesUp(start, r) && OnlyNewMessages(r)
    ensures var newer := SortSet(Older, After(r.v.table, start));
      var n := |ShownBelow(r)|;
      && n <= |newer|
      && ShownBelow(r) == newer[..n]
      && (r.v.page.hasMore <==> n < |newer|)
      && r.Requests() <= n + 1
  {
    var table := r.v.table;
    HistoryCursorsExact(table);
    DownWalkIsWalk(start, r);
    WalkBehind(Forward, Some(start), DownWalk(r));
    WantedForward(table, start);
  }

  function MessagesLeft(table: set<int>, before: Option<int>, after: Option<int>): set<int> {
    set id | id in table && (if after.Some? then id > after.value else before.Some? ==> id < before.value)
  }

  /** A page holds as many messages as asked for, between 1 and 100 and otherwise 50, as far as there are any. */
  lemma HistoryPageIsFull(table: set<int>, before: Option<int>, after: Option<int>, limit: Option<int>)
    ensures var page := PageOf(table, before, after, limit);
      var left := MessagesLeft(table, before, after);
      var size := if limit.None? then 50 else if limit.value < 1 then 1 else if limit.value > 100 then 100
                  else limit.value;
      |page.ids| == (if |left| < size then |left| else size) && (page.hasMore <==> |left| > size)
  {
    HistoryCursorsExact(table);
    if after.Some? {
      PageIsFull(Forward, table, after, PageLimit(limit));
      assert Past(Forward, table, after) == MessagesLeft(table, before, after);
    } else {
      PageIsFull(Backward, table, before, PageLimit(limit));
      assert Past(Backward, table, before) == MessagesLeft(table, before, after);
    }
  }

  /** `all` lists the table in ascending order. */
  ghost predicate Ascends(all: seq<int>, table: set<int>) {
    (forall i, j :: 0 <= i < j < |all| ==> all[i] < all[j]) && forall x :: x in all <==> x in table
  }

  lemma InOrder(table: set<int>) returns (all: seq<int>)
    ensures all == SortSet(Older, table) && Ascends(all, table)
  {
    all := SortSet(Older, table);
    SortSetSorts(Older, table);
    assert forall i, j :: 0 <= i < j < |all| ==> Older(all[i], all[j]);
  }

  lemma TailOf(all: seq<int>, n: nat, table: set<int>)
    requires n <= |all| && Ascends(all, table)
    ensures var shown := all[n..];
      && (forall i, j :: 0 <= i < j < |shown| ==> shown[i] < shown[j])
      && (forall x :: x in shown ==> x in table)
      && (forall id, x :: id in table && id !in shown && x in shown ==> id < x)
      && (n > 0 <==> exists id :: id in table && id !in shown)
  {
    var shown := all[n..];
    assert all == all[..n] + shown;
    forall id, x | id in table && id !in shown && x in shown ensures id < x {
      assert id in all[..n];
    }
    if n > 0 {
      assert all[0] in all && all[0] !in shown;
    }
  }

  lemma HeadOf(all: seq<int>, n: nat, table: set<int>)
    requires n <= |all| && Ascends(all, table)
    ensures var shown := all[..n];
      && (forall i, j :: 0 <= i < j < |shown| ==> shown[i] < shown[j])
      && (forall x :: x in shown ==> x in table)
      && (forall id, x :: id in table && id !in shown && x in shown ==> id > x)
      && (n < |all| <==> exists id :: id in table && id !in shown)
  {
    var shown := all[..n];
    assert all == shown + all[n..];
    forall id, x | id in table && id !in shown && x in shown ensures id > x {
      assert id in all[n..];
    }
    if n < |all| {
      assert all[n] in all && all[n] !in shown;
    }
  }

  /** Ids of the table in ascending order, and those not shown are all older; `more` says whether there are any. */
  ghost predicate LatestOf(table: set<int>, shown: seq<int>, more: bool) {
    && (forall i, j :: 0 <= i < j < |shown| ==> shown[i] < shown[j])
    && (forall x :: x in shown ==> x in table)
    && (forall id, x :: id in table && id !in shown && x in shown ==> id < x)
    && (more <==> exists id :: id in table && id !in shown)
  }

  /** The same with those not shown all newer. */
  ghost predicate NextOf(table: set<int>, shown: seq<int>, more: bool) {
    && (forall i, j :: 0 <= i < j < |shown| ==> shown[i] < shown[j])
    && (forall x :: x in shown ==> x in table)
    && (forall id, x :: id in table && id !in shown && x in shown ==> id > x)
    && (more <==> exists id :: id in table && id !in shown)
  }

  lemma NewestMeans(all: seq<int>, shown: seq<int>, more: bool, table: set<int>)
    requires ShowsNewest(all, shown, more) && Ascends(all, table)
    ensures LatestOf(table, shown, more)
  {
    TailOf(all, |all| - |shown|, table);
  }

  /** Scrolling up shows ids of the history in ascending order, and all it has not shown are older. */
  lemma ShownAreTheNewest(r: Reading)
    requires ScrollsUp(r) && OnlyNewMessages(r)
    ensures LatestOf(r.FirstTable(), ShownAbove(r), r.v.page.hasMore)
  {
    var all := InOrder(r.FirstTable());
    ScrollingUpRebuildsHistory(r);
    NewestMeans(all, ShownAbove(r), r.v.page.hasMore, r.FirstTable());
  }

  /** Catching up shows the ids after the start in ascending order, and all it has not shown are newer. */
  lemma ShownAreTheNext(start: int, r: Reading)
    requires CatchesUp(start, r) && OnlyNewMessages(r)
    ensures NextOf(After(r.v.table, start), ShownBelow(r), r.v.page.hasMore)
  {
    CatchingUpDeliversNewer(start, r);
    var all := InOrder(After(r.v.table, start));
    NextMeans(all, ShownBelow(r), r.v.page.hasMore, After(r.v.table, start));
  }

  lemma NextMeans(all: seq<int>, shown: seq<int>, more: bool, table: set<int>)
    requires |shown| <= |all| && shown == all[..|shown|] && (more <==> |shown| < |all|) && Ascends(all, table)
    ensures NextOf(table, shown, more)
  {
    HeadOf(all, |shown|, table);
  }
}
