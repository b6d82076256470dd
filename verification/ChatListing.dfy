/** The chat list: pages by (pinned, last activity, id), and the batched counters of a page. */
module ChatListing {
  import opened Common
  import opened Orders
  import opened ChatTables
  import opened Keyset

  /** A row of the list query: the chat, its last activity and the pin of the membership. */
  datatype ChatRow = ChatRow(id: int, lastAt: Option<int>, isPinned: bool)

  datatype ChatCursor =
    | V2(p: int, a: Option<int>, c: int)
    | Legacy(a: Option<int>, c: int)

  const EPOCH := 0

  function PinOrd(row: ChatRow): int {
    if row.isPinned then 1 else 0
  }

  /** `coalesce(last_at, _EPOCH)`. */
  function SortAt(at: Option<int>): int {
    at.GetOr(EPOCH)
  }

  /** Later activity first, then the larger id. */
  predicate MoreRecent(a: ChatRow, b: ChatRow) {
    SortAt(a.lastAt) > SortAt(b.lastAt) || (SortAt(a.lastAt) == SortAt(b.lastAt) && a.id > b.id)
  }

  /** Pinned chats first, the rest of the order within the same pin. */
  predicate ListedBefore(a: ChatRow, b: ChatRow) {
    (a.isPinned && !b.isPinned) || (a.isPinned == b.isPinned && MoreRecent(a, b))
  }

  function EncodeChatCursor(last: ChatRow): ChatCursor {
    V2(PinOrd(last), last.lastAt, last.id)
  }

  predicate PassesChatCursor(cursor: ChatCursor, row: ChatRow) {
    var at := SortAt(cursor.a);
    var past := SortAt(row.lastAt) < at || (SortAt(row.lastAt) == at && row.id < cursor.c);
    match cursor
    case Legacy(_, _) => past
    case V2(p, _, _) => PinOrd(row) < p || (PinOrd(row) == p && past)
  }

  const ChatList: Listing<ChatRow, ChatCursor> := Listing(ListedBefore, EncodeChatCursor, PassesChatCursor)

  /**
   A cursor without the pin selects the rows after a row exactly when the two rows have the same pin or
   recency alone puts them in the listed order.
   */
  lemma LegacyCursorExact(x: ChatRow, y: ChatRow)
    requires x.id != y.id
    ensures (PassesChatCursor(Legacy(x.lastAt, x.id), y) <==> ListedBefore(x, y))
       <==> (x.isPinned == y.isPinned || (x.isPinned <==> MoreRecent(x, y)))
  {
  }

  function LastActivity(db: Db, chatId: int): Option<int> {
    var times := set id | id in MessageIds(db, chatId) :: db.messages[id].createdAt;
    if times == {} then None else Some(Largest(times))
  }

  function ChatRowOf(db: Db, chatId: int, me: int): ChatRow
    requires (chatId, me) in db.members
  {
    ChatRow(chatId, LastActivity(db, chatId), db.members[(chatId, me)].isPinned)
  }

  function ChatRows(db: Db, me: int, archived: bool): set<ChatRow> {
    set k | k in db.members && k.1 == me && db.members[k].isArchived == archived :: ChatRowOf(db, k.0, me)
  }

  lemma ChatCursorExact(db: Db, me: int, archived: bool)
    ensures Exact(ChatList, ChatRows(db, me, archived))
  {
  }

  /** The rows and the cursor of one page. */
  function ChatPage(db: Db, me: int, limit: int, cursor: Option<ChatCursor>, archived: bool)
    : Page<ChatRow, ChatCursor>
  {
    ChatCursorExact(db, me, archived);
    Fetch(ChatList, ChatRows(db, me, archived), cursor, Clamp(limit, 1, 200))
  }

  /**
   Following v2 cursors from the first page lists every chat of the user exactly once, pinned chats
   first, then by last activity (the epoch for a chat without messages) and id, all descending.
   */
  lemma ChatsDeliveredOnce(db: Db, me: int, archived: bool, limits: seq<int>, pages: seq<Page<ChatRow, ChatCursor>>)
    requires Session((cursor, limit) => ChatPage(db, me, limit, cursor, archived), limits, pages)
    ensures PagesThrough(ListedBefore, ChatRows(db, me, archived), pages)
    ensures forall i, j :: 0 <= i < j < |AllItems(pages)| ==>
      var a, b := AllItems(pages)[i], AllItems(pages)[j];
      || (a.isPinned && !b.isPinned)
      || (a.isPinned == b.isPinned && a.lastAt.GetOr(0) > b.lastAt.GetOr(0))
      || (a.isPinned == b.isPinned && a.lastAt.GetOr(0) == b.lastAt.GetOr(0) && a.id > b.id)
    ensures forall row :: row in AllItems(pages) ==>
      (row.id, me) in db.members && db.members[(row.id, me)].isArchived == archived && row == ChatRowOf(db, row.id, me)
    ensures !Last(pages).hasMore ==>
      forall k :: k in db.members && k.1 == me && db.members[k].isArchived == archived ==>
        ChatRowOf(db, k.0, me) in AllItems(pages)
  {
    ChatCursorExact(db, me, archived);
    SessionDelivers((cursor, limit) => ChatPage(db, me, limit, cursor, archived),
                    ChatList, ChatRows(db, me, archived), 200, limits, pages);
  }

  // --- What a response shows ---

  datatype UserRow = UserRow(username: string, avatarUrl: Option<string>, lastSeenAt: Option<int>)

  datatype ChatInfo = ChatInfo(isPrivate: bool, title: Option<string>, avatarUrl: Option<string>,
                               createdBy: Option<int>)

  /** The rows of `chats` and `users`; `byName` lists the user ids in the order of their names. */
  datatype Directory = Directory(chats: map<int, ChatInfo>, users: map<int, UserRow>, byName: seq<int>)

  /** Every user is listed once by name, and memberships name chats and users: the foreign keys. */
  ghost predicate Complete(dir: Directory, db: Db) {
    && NoRepeats(dir.byName) && (forall u :: u in dir.byName <==> u in dir.users)
    && forall k :: k in db.members ==> k.0 in dir.chats && k.1 in dir.users
  }

  datatype ChatResponse = ChatResponse(
    id: int,
    isPrivate: bool,
    title: Option<string>,
    avatarUrl: Option<string>,
    createdBy: Option<int>,
    lastMessage: Option<string>,
    lastMessageType: Option<string>,
    lastMessageAt: Option<int>,
    lastMessageSender: Option<int>,
    lastMessageSenderName: Option<string>,
    lastMessageId: Option<int>,
    myLastRead: int,
    unreadCount: int,
    peerLastSeenAt: Option<int>,
    isArchived: bool,
    notificationsMuted: bool,
    isPinned: bool)

  function MessageTypeForChatList(space: char -> bool, m: Message): string {
    if m.isDeleted then "deleted"
    else if m.messageType.None? || AllSpace(space, m.messageType.value) then "text"
    else m.messageType.value
  }

  function ShownText(last: Option<Message>): Option<string> {
    if last.None? then None else if last.value.isDeleted then Some(DELETED_MESSAGE_TEXT) else last.value.text
  }

  function UserOf(dir: Directory, u: Option<int>): Option<UserRow> {
    if u.Some? && u.value in dir.users then Some(dir.users[u.value]) else None
  }

  /** The members of a chat in the order of their names. */
  function UsersIn(byName: seq<int>, db: Db, chatId: int): seq<int> {
    if byName == [] then [] else
      var u := byName[|byName| - 1];
      UsersIn(byName[..|byName| - 1], db, chatId) + if (chatId, u) in db.members then [u] else []
  }

  function FirstOther(users: seq<int>, me: int): Option<int> {
    if users == [] then None else if users[0] != me then Some(users[0]) else FirstOther(users[1..], me)
  }

  /** The stripped name of the sender, if the sender is still a member and the name is not blank. */
  function SenderName(space: char -> bool, dir: Directory, users: seq<int>, last: Option<Message>): Option<string> {
    if last.Some? && last.value.senderId in users && last.value.senderId in dir.users
       && !AllSpace(space, dir.users[last.value.senderId].username)
    then Some(Strip(space, dir.users[last.value.senderId].username)) else None
  }

  /** A response from the chat row, the peer, the members by name, the last message and my membership. */
  function ResponseOf(space: char -> bool, dir: Directory, c: int, peer: Option<UserRow>, name: Option<string>,
                      last: Option<Message>, row: Option<Membership>, unread: int): ChatResponse
    requires c in dir.chats
  {
    var chat := dir.chats[c];
    ChatResponse(
      c, chat.isPrivate,
      if peer.Some? then Some(peer.value.username) else chat.title,
      if peer.Some? then peer.value.avatarUrl else chat.avatarUrl,
      chat.createdBy,
      ShownText(last),
      if last.None? then None else Some(MessageTypeForChatList(space, last.value)),
      if last.None? then None else Some(last.value.createdAt),
      if last.None? then None else Some(last.value.senderId),
      name,
      if last.None? then None else Some(last.value.id),
      if row.None? then 0 else LastReadId(row.value),
      unread,
      if peer.Some? then peer.value.lastSeenAt else None,
      row.Some? && row.value.isArchived,
      row.Some? && row.value.notificationsMuted,
      row.Some? && row.value.isPinned)
  }

  function MembershipOf(db: Db, chatId: int, me: int): Option<Membership> {
    if (chatId, me) in db.members then Some(db.members[(chatId, me)]) else None
  }

  /** The message with the largest id. */
  function NewestMessage(db: Db, chatId: int): Option<Message> {
    var ids := MessageIds(db, chatId);
    if ids == {} then None else Some(db.messages[Largest(ids)])
  }

  function Peer(dir: Directory, db: Db, c: int, me: int): Option<UserRow>
    requires c in dir.chats
  {
    if dir.chats[c].isPrivate then UserOf(dir, FirstOther(UsersIn(dir.byName, db, c), me)) else None
  }

  /** What the list shows of one chat, each part by a query of its own. */
  function ListedResponse(space: char -> bool, dir: Directory, db: Db, c: int, me: int): ChatResponse
    requires c in dir.chats
  {
    var last := NewestMessage(db, c);
    ResponseOf(space, dir, c, Peer(dir, db, c, me), SenderName(space, dir, UsersIn(dir.byName, db, c), last), last,
               MembershipOf(db, c, me), UnreadCountForUser(db, c, me))
  }

  /** The rows of the batched unread query: messages of the listed chats joined with my memberships. */
  function UnreadJoin(db: Db, chatIds: set<int>, me: int): set<int> {
    set id | id in db.messages
          && db.messages[id].chatId in chatIds
          && (db.messages[id].chatId, me) in db.members
          && db.messages[id].senderId != me
          && id > LastReadId(db.members[(db.messages[id].chatId, me)])
  }

  /** `GROUP BY chat_id` with `count(id)`: a row only for chats that have joined rows. */
  function GroupedCounts(db: Db, rows: set<int>): map<int, int>
    requires forall id :: id in rows ==> id in db.messages
  {
    var chats := set id | id in rows :: db.messages[id].chatId;
    map c | c in chats :: |set id | id in rows && db.messages[id].chatId == c|
  }

  /** The batched counter, with 0 for chats the query does not mention, is the simple counter. */
  lemma BatchedUnreadIsSimple(db: Db, chatIds: set<int>, me: int, chatId: int)
    requires chatId in chatIds
    ensures var counts := GroupedCounts(db, UnreadJoin(db, chatIds, me));
      (if chatId in counts then counts[chatId] else 0) == UnreadCountForUser(db, chatId, me)
  {
    var rows := UnreadJoin(db, chatIds, me);
    var mine := set id | id in rows && db.messages[id].chatId == chatId;
    if (chatId, me) in db.members {
      assert mine == UnreadIds(db, chatId, me);
    }
    if mine != {} {
      var id :| id in mine;
      assert db.messages[id].chatId in (set i | i in rows :: db.messages[i].chatId);
    } else {
      assert |mine| == 0;
    }
  }

  /** One grouped query: the largest message id of every listed chat that has messages. */
  function LastIds(db: Db, chatIds: set<int>): set<int> {
    set id | id in db.messages && db.messages[id].chatId in chatIds
          && forall o :: o in db.messages && db.messages[o].chatId == db.messages[id].chatId ==> o <= id
  }

  /** The messages joined on those ids, by their chat. */
  function LastByChat(db: Db, chatIds: set<int>): map<int, Message> {
    map id | id in LastIds(db, chatIds) :: db.messages[id].chatId := db.messages[id]
  }

  function MyRows(db: Db, chatIds: set<int>, me: int): set<(int, int)> {
    set k | k in db.members && k.0 in chatIds && k.1 == me
  }

  function MembershipByChat(db: Db, chatIds: set<int>, me: int): map<int, Membership> {
    map k | k in MyRows(db, chatIds, me) :: k.0 := db.members[k]
  }

  function Lookup<V>(m: map<int, V>, k: int): Option<V> {
    if k in m then Some(m[k]) else None
  }

  lemma LastIsNewest(db: Db, chatIds: set<int>, chatId: int)
    requires chatId in chatIds
    ensures Lookup(LastByChat(db, chatIds), chatId) == NewestMessage(db, chatId)
  {
    var ids := MessageIds(db, chatId);
    if ids != {} {
      var top := Largest(ids);
      forall o | o in db.messages && db.messages[o].chatId == db.messages[top].chatId ensures o <= top {
        assert o in ids;
      }
      assert top in LastIds(db, chatIds);
    }
    forall id | id in LastIds(db, chatIds) && db.messages[id].chatId == chatId ensures ids != {} && id == Largest(ids) {
      assert id in ids;
    }
  }

  lemma MembershipIsMine(db: Db, chatIds: set<int>, me: int, chatId: int)
    requires chatId in chatIds
    ensures Lookup(MembershipByChat(db, chatIds, me), chatId) == MembershipOf(db, chatId, me)
  {
    if (chatId, me) in db.members {
      assert (chatId, me) in MyRows(db, chatIds, me);
    }
  }

  /** The rows of the member query: chats in the order given, members by name within a chat. */
  function MemberRows(byName: seq<int>, db: Db, chatIds: seq<int>): seq<(int, int)> {
    if chatIds == [] then [] else
      MemberRows(byName, db, Init(chatIds)) + Tagged(Last(chatIds), UsersIn(byName, db, Last(chatIds)))
  }

  function Tagged(c: int, users: seq<int>): seq<(int, int)> {
    if users == [] then [] else Tagged(c, Init(users)) + [(c, Last(users))]
  }

  function UsersTagged(rows: seq<(int, int)>, c: int): seq<int> {
    if rows == [] then [] else UsersTagged(Init(rows), c) + if Last(rows).0 == c then [Last(rows).1] else []
  }

  lemma {:induction false} TaggedConcat(a: seq<(int, int)>, users: seq<int>, c: int, d: int)
    ensures UsersTagged(a + Tagged(c, users), d) == UsersTagged(a, d) + if c == d then users else []
  {
    if users == [] {
      assert a + Tagged(c, users) == a;
      assert UsersTagged(a, d) + [] == UsersTagged(a, d);
    } else {
      TaggedConcat(a, Init(users), c, d);
      var all := a + Tagged(c, users);
      assert Init(all) == a + Tagged(c, Init(users)) && Last(all) == (c, Last(users));
      assert users == Init(users) + [Last(users)];
      Regroup(UsersTagged(a, d), Init(users), [Last(users)]);
    }
  }

  lemma Regroup<T>(a: seq<T>, b: seq<T>, c: seq<T>)
    ensures a + b + c == a + (b + c) && a + [] == a
  {
  }

  lemma {:induction false} MemberRowsAre(byName: seq<int>, db: Db, chatIds: seq<int>, c: int)
    requires NoRepeats(chatIds)
    ensures UsersTagged(MemberRows(byName, db, chatIds), c) == if c in chatIds then UsersIn(byName, db, c) else []
  {
    if chatIds != [] {
      var init, d := Init(chatIds), Last(chatIds);
      assert chatIds == init + [d];
      MemberRowsAre(byName, db, init, c);
      TaggedConcat(MemberRows(byName, db, init), UsersIn(byName, db, d), d, c);
      assert [] + UsersIn(byName, db, d) == UsersIn(byName, db, d);
      var before := UsersTagged(MemberRows(byName, db, init), c);
      assert before + [] == before;
    }
  }

  /** `users_by_chat`, filled by the loop over the rows. */
  ghost predicate Groups(usersByChat: map<int, seq<int>>, rows: seq<(int, int)>) {
    forall c :: (if c in usersByChat then usersByChat[c] else []) == UsersTagged(rows, c)
  }

  lemma GroupsSnoc(usersByChat: map<int, seq<int>>, rows: seq<(int, int)>, row: (int, int))
    requires Groups(usersByChat, rows)
    ensures var users := if row.0 in usersByChat then usersByChat[row.0] else [];
      Groups(usersByChat[row.0 := users + [row.1]], rows + [row])
  {
    assert Init(rows + [row]) == rows;
    forall c ensures UsersTagged(rows + [row], c)
                  == if c == row.0 then UsersTagged(rows, c) + [row.1] else UsersTagged(rows, c) {
      assert UsersTagged(rows, c) + [] == UsersTagged(rows, c);
    }
  }

  method GroupUsers(rows: seq<(int, int)>) returns (usersByChat: map<int, seq<int>>)
    ensures Groups(usersByChat, rows)
  {
    usersByChat := map[];
    for i := 0 to |rows|
      invariant Groups(usersByChat, rows[..i])
    {
      GroupsSnoc(usersByChat, rows[..i], rows[i]);
      assert rows[..i + 1] == rows[..i] + [rows[i]];
      var (c, u) := rows[i];
      usersByChat := usersByChat[c := (if c in usersByChat then usersByChat[c] else []) + [u]];
    }
    assert rows[..|rows|] == rows;
  }

  /** The dictionaries that a batch of chats is answered from. */
  datatype Batch = Batch(
    users: map<int, seq<int>>, last: map<int, Message>, membership: map<int, Membership>, unread: map<int, int>)

  /** The dictionaries hold for a chat what single queries return. */
  ghost predicate SourcesAgree(dir: Directory, db: Db, b: Batch, c: int, me: int) {
    && Lookup(b.users, c).GetOr([]) == UsersIn(dir.byName, db, c)
    && Lookup(b.last, c) == NewestMessage(db, c)
    && Lookup(b.membership, c) == MembershipOf(db, c, me)
    && Lookup(b.unread, c).GetOr(0) == UnreadCountForUser(db, c, me)
  }

  method LoadBatch(dir: Directory, db: Db, chatIds: seq<int>, me: int) returns (b: Batch)
    requires NoRepeats(chatIds)
    ensures forall c :: c in chatIds ==> SourcesAgree(dir, db, b, c, me)
  {
    var users := GroupUsers(MemberRows(dir.byName, db, chatIds));
    b := BatchOf(db, users, Listed(chatIds), me);
    forall c | c in chatIds ensures SourcesAgree(dir, db, b, c, me) {
      UsersAgree(dir.byName, db, users, chatIds, c);
      BatchAgrees(dir, db, users, Listed(chatIds), me, c);
    }
  }

  function Listed(chatIds: seq<int>): set<int> {
    set c | c in chatIds
  }

  function BatchOf(db: Db, users: map<int, seq<int>>, listed: set<int>, me: int): Batch {
    Batch(users, LastByChat(db, listed), MembershipByChat(db, listed, me),
          GroupedCounts(db, UnreadJoin(db, listed, me)))
  }

  /** The dictionaries of a batch hold what single queries return. */
  lemma BatchAgrees(dir: Directory, db: Db, users: map<int, seq<int>>, listed: set<int>, me: int, c: int)
    requires c in listed && Lookup(users, c).GetOr([]) == UsersIn(dir.byName, db, c)
    ensures SourcesAgree(dir, db, BatchOf(db, users, listed, me), c, me)
  {
    LastIsNewest(db, listed, c);
    MembershipIsMine(db, listed, me, c);
    UnreadAgrees(db, listed, me, c);
  }

  lemma UnreadAgrees(db: Db, listed: set<int>, me: int, c: int)
    requires c in listed
    ensures Lookup(GroupedCounts(db, UnreadJoin(db, listed, me)), c).GetOr(0) == UnreadCountForUser(db, c, me)
  {
    BatchedUnreadIsSimple(db, listed, me, c);
  }

  /** The loop over the joined rows gives each chat its members by name. */
  lemma UsersAgree(byName: seq<int>, db: Db, users: map<int, seq<int>>, chatIds: seq<int>, c: int)
    requires NoRepeats(chatIds) && c in chatIds && Groups(users, MemberRows(byName, db, chatIds))
    ensures Lookup(users, c).GetOr([]) == UsersIn(byName, db, c)
  {
    MemberRowsAre(byName, db, chatIds, c);
    assert (if c in users then users[c] else []) == UsersTagged(MemberRows(byName, db, chatIds), c);
  }

  method FindOther(users: seq<int>, me: int) returns (other: Option<int>)
    ensures other == FirstOther(users, me)
  {
    for i := 0 to |users|
      invariant FirstOther(users, me) == FirstOther(users[i..], me)
    {
      if users[i] != me {
        return Some(users[i]);
      }
      assert users[i..][1..] == users[i + 1..];
    }
    return None;
  }

  /** The body of the batch loop: one response from what the dictionaries hold for the chat. */
  method BuildResponse(
    space: char -> bool, dir: Directory, c: int, users: seq<int>, last: Option<Message>,
    membership: Option<Membership>, unread: int, me: int) returns (response: ChatResponse)
    requires c in dir.chats && forall u :: u in users ==> u in dir.users
    ensures response == ResponseOf(space, dir, c,
      if dir.chats[c].isPrivate then UserOf(dir, FirstOther(users, me)) else None,
      SenderName(space, dir, users, last), last, membership, unread)
  {
    var chat := dir.chats[c];
    var title, avatar, seen: Option<int> := chat.title, chat.avatarUrl, None;
    if chat.isPrivate {
      var other := FindOther(users, me);
      if other.Some? && other.value in dir.users {
        var peer := dir.users[other.value];
        title, avatar, seen := Some(peer.username), peer.avatarUrl, peer.lastSeenAt;
      }
    }
    var name: Option<string> := None;
    if last.Some? && last.value.senderId in users {
      var stripped := Strip(space, dir.users[last.value.senderId].username);
      if stripped != "" {
        name := Some(stripped);
      }
    }
    var text: Option<string>, kind: Option<string> := None, None;
    var at: Option<int>, sender: Option<int>, id: Option<int> := None, None, None;
    if last.Some? {
      text := if last.value.isDeleted then Some(DELETED_MESSAGE_TEXT) else last.value.text;
      kind := Some(MessageTypeForChatList(space, last.value));
      at, sender, id := Some(last.value.createdAt), Some(last.value.senderId), Some(last.value.id);
    }
    var myLastRead, archived, muted, pinned := 0, false, false, false;
    if membership.Some? {
      myLastRead := membership.value.lastRead.GetOr(0);
      archived, muted, pinned :=
        membership.value.isArchived, membership.value.notificationsMuted, membership.value.isPinned;
    }
    response := ChatResponse(c, chat.isPrivate, title, avatar, chat.createdBy, text, kind, at, sender, name, id,
                             myLastRead, unread, seen, archived, muted, pinned);
  }

  /** One response per chat, each part by a query of its own. */
  function Responses(space: char -> bool, dir: Directory, db: Db, chatIds: seq<int>, me: int): (r: seq<ChatResponse>)
    requires forall i :: 0 <= i < |chatIds| ==> chatIds[i] in dir.chats
    ensures |r| == |chatIds|
  {
    if chatIds == [] then []
    else Responses(space, dir, db, Init(chatIds), me) + [ListedResponse(space, dir, db, Last(chatIds), me)]
  }

  lemma ResponsesSnoc(space: char -> bool, dir: Directory, db: Db, chatIds: seq<int>, n: nat, me: int)
    requires n < |chatIds| && forall i :: 0 <= i < |chatIds| ==> chatIds[i] in dir.chats
    ensures Responses(space, dir, db, chatIds[..n + 1], me)
         == Responses(space, dir, db, chatIds[..n], me) + [ListedResponse(space, dir, db, chatIds[n], me)]
  {
    assert Init(chatIds[..n + 1]) == chatIds[..n];
  }

  lemma {:induction false} UsersInAreUsers(byName: seq<int>, db: Db, c: int, u: int)
    ensures u in UsersIn(byName, db, c) <==> u in byName && (c, u) in db.members
  {
    if byName != [] {
      UsersInAreUsers(Init(byName), db, c, u);
      assert byName == Init(byName) + [Last(byName)];
    }
  }

  /** The loop over the page, from one query per table, answers as queries for each chat would. */
  method BuildChatResponsesBatch(space: char -> bool, dir: Directory, db: Db, chatIds: seq<int>, me: int)
    returns (responses: seq<ChatResponse>)
    requires Complete(dir, db) && NoRepeats(chatIds) && forall i :: 0 <= i < |chatIds| ==> chatIds[i] in dir.chats
    ensures responses == Responses(space, dir, db, chatIds, me)
  {
    responses := [];
    if chatIds == [] {
      return;
    }
    var b := LoadBatch(dir, db, chatIds, me);
    var n := 0;
    while n < |chatIds|
      invariant 0 <= n <= |chatIds|
      invariant responses == Responses(space, dir, db, chatIds[..n], me)
    {
      var response := AnswerFromBatch(space, dir, db, b, chatIds[n], me);
      ResponsesSnoc(space, dir, db, chatIds, n, me);
      responses := responses + [response];
      n := n + 1;
    }
    assert chatIds[..n] == chatIds;
  }

  method AnswerFromBatch(space: char -> bool, dir: Directory, ghost db: Db, b: Batch, c: int, me: int)
    returns (response: ChatResponse)
    requires Complete(dir, db) && c in dir.chats && SourcesAgree(dir, db, b, c, me)
    ensures response == ListedResponse(space, dir, db, c, me)
  {
    var users := Lookup(b.users, c).GetOr([]);
    forall u | u in users ensures u in dir.users {
      UsersInAreUsers(dir.byName, db, c, u);
    }
    response := BuildResponse(
      space, dir, c, users, Lookup(b.last, c), Lookup(b.membership, c), Lookup(b.unread, c).GetOr(0), me);
  }

  lemma PageHasChats(dir: Directory, db: Db, me: int, limit: int, cursor: Option<ChatCursor>, archived: bool)
    requires Complete(dir, db)
    ensures var ids := ChatIds(ChatPage(db, me, limit, cursor, archived).items);
      NoRepeats(ids) && forall i :: 0 <= i < |ids| ==> ids[i] in dir.chats
  {
    var rows := ChatRows(db, me, archived);
    var items := ChatPage(db, me, limit, cursor, archived).items;
    ChatCursorExact(db, me, archived);
    FetchedRows(ChatList, rows, cursor, Clamp(limit, 1, 200));
    SortSetSorts(ListedBefore, Past(ChatList, rows, cursor));
    forall i | 0 <= i < |items| ensures items[i] in rows {
      assert items[i] in items;
    }
    forall i, j | 0 <= i < j < |items| ensures items[i].id != items[j].id {
      assert ListedBefore(items[i], items[j]);
    }
  }

  method ListMyChatsPage(space: char -> bool, dir: Directory, db: Db, me: int, limit: int,
                         cursor: Option<ChatCursor>, archived: bool)
    returns (chats: seq<ChatResponse>, hasMore: bool, next: Option<ChatCursor>)
    requires Complete(dir, db)
    ensures var page := ChatPage(db, me, limit, cursor, archived); var ids := ChatIds(page.items);
      && hasMore == page.hasMore && next == page.next
      && (forall i :: 0 <= i < |ids| ==> ids[i] in dir.chats)
      && chats == Responses(space, dir, db, ids, me)
  {
    var page := ChatPage(db, me, limit, cursor, archived);
    PageHasChats(dir, db, me, limit, cursor, archived);
    chats := BuildChatResponsesBatch(space, dir, db, ChatIds(page.items), me);
    hasMore, next := page.hasMore, page.next;
  }

  function ChatIds(rows: seq<ChatRow>): seq<int> {
    seq(|rows|, i requires 0 <= i < |rows| => rows[i].id)
  }

  // --- The list against the response to creating the same private chat ---

  predicate Later(db: Db, a: int, b: int)
    requires a in db.messages && b in db.messages
  {
    var m, n := db.messages[a], db.messages[b];
    m.createdAt > n.createdAt || (m.createdAt == n.createdAt && a > b)
  }

  /** `ORDER BY created_at DESC, id DESC` and the first row. */
  ghost predicate IsLatest(db: Db, chatId: int, last: Option<Message>) {
    match last
    case None => MessageIds(db, chatId) == {}
    case Some(m) =>
      m.id in MessageIds(db, chatId) && db.messages[m.id] == m
      && forall id :: id in MessageIds(db, chatId) && id != m.id ==> Later(db, m.id, id)
  }

  /** `_private_chat_response`, for the row `last` that its query returns. */
  function PrivateChatResponse(space: char -> bool, dir: Directory, db: Db, c: int, me: int, other: int,
                               last: Option<Message>): ChatResponse
    requires c in dir.chats
  {
    var row := MembershipOf(db, c, me);
    ResponseOf(space, dir, c, UserOf(dir, Some(other)), None, last, row, UnreadCountForUser(db, c, me))
      .(isArchived := false, notificationsMuted := false, isPinned := false)
  }

  /** What both forms fill in. */
  function Shared(r: ChatResponse): ChatResponse {
    r.(lastMessageSenderName := None, isArchived := false, notificationsMuted := false, isPinned := false)
  }

  /** The message with the largest id is also one of the latest by time. */
  ghost predicate LargestIsLatest(db: Db, chatId: int) {
    var ids := MessageIds(db, chatId);
    ids != {} ==> forall id :: id in ids ==> db.messages[id].createdAt <= db.messages[Largest(ids)].createdAt
  }

  lemma LatestIsNewest(db: Db, chatId: int, last: Option<Message>)
    requires WellFormed(db) && IsLatest(db, chatId, last)
    ensures last == NewestMessage(db, chatId) <==> LargestIsLatest(db, chatId)
    ensures last.Some? && !LargestIsLatest(db, chatId) ==> last.value.id != NewestMessage(db, chatId).value.id
  {
    var ids := MessageIds(db, chatId);
    if ids != {} {
      var top := Largest(ids);
      assert top != last.value.id ==> Later(db, last.value.id, top);
      forall id | id in ids ensures db.messages[id].createdAt <= db.messages[last.value.id].createdAt {
        assert id != last.value.id ==> Later(db, last.value.id, id);
      }
    }
  }

  /** The first other member by name is the other of the two. */
  lemma {:induction false} OtherOfTwo(byName: seq<int>, db: Db, c: int, me: int, other: int)
    requires me != other && forall u :: (c, u) in db.members <==> u in {me, other}
    ensures FirstOther(UsersIn(byName, db, c), me) == if other in byName then Some(other) else None
  {
    if byName != [] {
      var init, u := Init(byName), Last(byName);
      assert byName == init + [u];
      OtherOfTwo(init, db, c, me, other);
      FirstOtherSnoc(UsersIn(init, db, c), u, me);
      assert UsersIn(init, db, c) + [] == UsersIn(init, db, c);
    }
  }

  lemma {:induction false} FirstOtherSnoc(users: seq<int>, u: int, me: int)
    ensures FirstOther(users + [u], me)
         == if FirstOther(users, me).Some? then FirstOther(users, me) else if u != me then Some(u) else None
  {
    if users != [] {
      assert (users + [u])[1..] == users[1..] + [u];
      FirstOtherSnoc(users[1..], u, me);
    }
  }

  /**
   For a private chat of two, the list and the response to asking for the chat agree in all that both
   fill in if and only if the largest message id of the chat carries the latest time. The list takes the
   last message by id, the response by time.
   */
  lemma FormsAgreeIff(space: char -> bool, dir: Directory, db: Db, c: int, me: int, other: int, last: Option<Message>)
    requires WellFormed(db) && Complete(dir, db) && c in dir.chats && dir.chats[c].isPrivate
    requires me != other && forall u :: (c, u) in db.members <==> u in {me, other}
    requires IsLatest(db, c, last)
    ensures Shared(ListedResponse(space, dir, db, c, me)) == PrivateChatResponse(space, dir, db, c, me, other, last)
      <==> LargestIsLatest(db, c)
  {
    OtherOfTwo(dir.byName, db, c, me, other);
    assert (c, other) in db.members && other in dir.byName;
    LatestIsNewest(db, c, last);
    if !LargestIsLatest(db, c) {
      assert Shared(ListedResponse(space, dir, db, c, me)).lastMessageId
          != PrivateChatResponse(space, dir, db, c, me, other, last).lastMessageId;
    }
  }

  /** The list is sorted by the time it shows if and only if the same holds. */
  lemma ShownTimeIsSortKeyIff(space: char -> bool, dir: Directory, db: Db, c: int, me: int)
    requires WellFormed(db) && c in dir.chats
    ensures ListedResponse(space, dir, db, c, me).lastMessageAt == LastActivity(db, c) <==> LargestIsLatest(db, c)
  {
    var ids := MessageIds(db, c);
    var times := set id | id in ids :: db.messages[id].createdAt;
    if ids != {} {
      var top := Largest(ids);
      assert db.messages[top].createdAt in times;
      if !LargestIsLatest(db, c) {
        var id :| id in ids && db.messages[id].createdAt > db.messages[top].createdAt;
        assert db.messages[id].createdAt in times;
      }
    } else {
      assert times == {};
    }
  }

  /**
   Private chat 10 of users 7 and 8, message 1 of time 5 and message 2 of time 3: the list sorts by 5, shows
   message 2 and time 3, and the response to asking for the chat shows message 1.
   */
  lemma LaterIdEarlierTime(space: char -> bool, dir: Directory)
    requires 10 in dir.chats && dir.chats[10].isPrivate
    ensures var row := Membership(None, false, false, false);
      var db := Db(map[1 := Note(1, 7, 5), 2 := Note(2, 7, 3)], map[(10, 7) := row, (10, 8) := row]);
      var list := ListedResponse(space, dir, db, 10, 7);
      && WellFormed(db)
      && (forall u :: (10, u) in db.members <==> u in {7, 8})
      && LastActivity(db, 10) == Some(5) && list.lastMessageAt == Some(3) && list.lastMessageId == Some(2)
      && IsLatest(db, 10, Some(Note(1, 7, 5)))
      && PrivateChatResponse(space, dir, db, 10, 7, 8, Some(Note(1, 7, 5))).lastMessageId == Some(1)
      && Shared(list) != PrivateChatResponse(space, dir, db, 10, 7, 8, Some(Note(1, 7, 5)))
  {
    var row := Membership(None, false, false, false);
    var db := Db(map[1 := Note(1, 7, 5), 2 := Note(2, 7, 3)], map[(10, 7) := row, (10, 8) := row]);
    assert MessageIds(db, 10) == {1, 2};
    assert Largest({1, 2}) == 2;
    var times := set id | id in MessageIds(db, 10) :: db.messages[id].createdAt;
    assert db.messages[1].createdAt in times && Largest(times) == 5;
    assert Shared(ListedResponse(space, dir, db, 10, 7)).lastMessageId == Some(2);
  }
}
