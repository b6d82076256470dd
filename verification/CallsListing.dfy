/** The call history: pages by (started_at, id), newest first. */
module CallsListing {
  import opened Common
  import opened Keyset

  datatype Call = Call(id: int, chatId: int, startedAt: int)
  datatype CallCursor = CallCursor(s: int, i: int)

  datatype CallsError = NotAMember

  predicate CallAfter(a: Call, b: Call) {
    a.startedAt > b.startedAt || (a.startedAt == b.startedAt && a.id > b.id)
  }

  function EncodeCallCursor(last: Call): CallCursor {
    CallCursor(last.startedAt, last.id)
  }

  predicate PassesCallCursor(cursor: CallCursor, row: Call) {
    row.startedAt < cursor.s || (row.startedAt == cursor.s && row.id < cursor.i)
  }

  const CallListing: Listing<Call, CallCursor> := Listing(CallAfter, EncodeCallCursor, PassesCallCursor)

  /** Ids are the primary key of `calls`. */
  ghost predicate UniqueIds(calls: set<Call>) {
    forall a, b :: a in calls && b in calls && a.id == b.id ==> a == b
  }

  /** The calls of one chat, or of every chat the user is a member of. */
  function Visible(calls: set<Call>, members: set<(int, int)>, me: int, chatId: Option<int>): set<Call> {
    match chatId
    case Some(c) => set x | x in calls && x.chatId == c
    case None => set x | x in calls && (x.chatId, me) in members
  }

  lemma CallCursorExact(calls: set<Call>, table: set<Call>)
    requires UniqueIds(calls) && table <= calls
    ensures Exact(CallListing, table)
  {
  }

  function ListCallsPage(
    calls: set<Call>, members: set<(int, int)>, me: int, chatId: Option<int>,
    limit: int, cursor: Option<CallCursor>): (r: Result<Page<Call, CallCursor>, CallsError>)
    requires UniqueIds(calls)
    ensures r.Err? <==> chatId.Some? && (chatId.value, me) !in members
  {
    if chatId.Some? && (chatId.value, me) !in members then Err(NotAMember) else
      var table := Visible(calls, members, me, chatId);
      CallCursorExact(calls, table);
      Ok(Fetch(CallListing, table, cursor, Clamp(limit, 1, 200)))
  }

  /** Following the cursors lists every visible call exactly once, newest first. */
  lemma CallsDeliveredOnce(
    calls: set<Call>, members: set<(int, int)>, me: int, chatId: Option<int>,
    limits: seq<int>, pages: seq<Page<Call, CallCursor>>)
    requires UniqueIds(calls) && (chatId.Some? ==> (chatId.value, me) in members)
    requires Session((cursor, limit) => ListCallsPage(calls, members, me, chatId, limit, cursor).value, limits, pages)
    ensures PagesThrough(CallAfter, Visible(calls, members, me, chatId), pages)
    ensures forall x :: x in AllItems(pages) ==>
      x in calls && (x.chatId, me) in members && (chatId.Some? ==> x.chatId == chatId.value)
    ensures forall i, j :: 0 <= i < j < |AllItems(pages)| ==>
      var a, b := AllItems(pages)[i], AllItems(pages)[j];
      a.startedAt > b.startedAt || (a.startedAt == b.startedAt && a.id > b.id)
    ensures !Last(pages).hasMore ==>
      forall x :: x in CallsLeft(calls, members, me, chatId, None) ==> x in AllItems(pages)
  {
    var table := Visible(calls, members, me, chatId);
    CallCursorExact(calls, table);
    SessionDelivers((cursor, limit) => ListCallsPage(calls, members, me, chatId, limit, cursor).value,
                    CallListing, table, 200, limits, pages);
  }

  /** The calls of the user's chats, or of the one asked for, that come after the cursor. */
  function CallsLeft(calls: set<Call>, members: set<(int, int)>, me: int, chatId: Option<int>,
                     cursor: Option<CallCursor>): set<Call> {
    set x | x in calls && (x.chatId, me) in members && (chatId.Some? ==> x.chatId == chatId.value)
         && (cursor.Some? ==> CallAfter(Call(cursor.value.i, 0, cursor.value.s), x))
  }

  lemma PastIsLeft(calls: set<Call>, members: set<(int, int)>, me: int, chatId: Option<int>,
                   cursor: Option<CallCursor>)
    requires chatId.Some? ==> (chatId.value, me) in members
    ensures Past(CallListing, Visible(calls, members, me, chatId), cursor)
         == CallsLeft(calls, members, me, chatId, cursor)
  {
    forall x: Call | cursor.Some?
      ensures CallListing.passes(cursor.value, x) <==> CallAfter(Call(cursor.value.i, 0, cursor.value.s), x) {
    }
    forall x ensures x in Visible(calls, members, me, chatId) <==>
      x in calls && (x.chatId, me) in members && (chatId.Some? ==> x.chatId == chatId.value) {
    }
  }

  /** A page holds as many of the remaining calls as asked for, between 1 and 200. */
  lemma CallPageIsFull(calls: set<Call>, members: set<(int, int)>, me: int, chatId: Option<int>, limit: int,
                       cursor: Option<CallCursor>)
    requires UniqueIds(calls) && (chatId.Some? ==> (chatId.value, me) in members)
    ensures var page := ListCallsPage(calls, members, me, chatId, limit, cursor).value;
      var left := CallsLeft(calls, members, me, chatId, cursor);
      var size := if limit < 1 then 1 else if limit > 200 then 200 else limit;
      |page.items| == (if |left| < size then |left| else size) && (page.hasMore <==> |left| > size)
  {
    var table := Visible(calls, members, me, chatId);
    CallCursorExact(calls, table);
    PageIsFull(CallListing, table, cursor, Clamp(limit, 1, 200));
    PastIsLeft(calls, members, me, chatId, cursor);
  }
}
