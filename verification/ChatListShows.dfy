/** What an entry of the chat list shows, told from the rows of the tables. */
module ChatListShows {
  import opened Common
  import opened Orders
  import opened ChatTables
  import opened ChatListing
  import opened Keyset

  /** `top` is the message of the chat with the largest id. */
  ghost predicate IsNewest(db: Db, c: int, top: int) {
    && top in db.messages && db.messages[top].chatId == c
    && forall id :: id in db.messages && db.messages[id].chatId == c ==> id <= top
  }

  lemma NewestIs(db: Db, c: int, top: int)
    requires IsNewest(db, c, top)
    ensures NewestMessage(db, c) == Some(db.messages[top])
  {
    assert top in MessageIds(db, c);
  }

  /** The last message of an entry is the one with the largest id, in its own words unless it is deleted. */
  lemma LastMessageShows(space: char -> bool, dir: Directory, db: Db, c: int, me: int, top: int)
    requires WellFormed(db) && c in dir.chats && IsNewest(db, c, top)
    ensures var r, m := ListedResponse(space, dir, db, c, me), db.messages[top];
      && r.lastMessageId == Some(top) && r.lastMessageAt == Some(m.createdAt)
      && r.lastMessageSender == Some(m.senderId)
      && (m.isDeleted ==> r.lastMessage == Some("Сообщение удалено") && r.lastMessageType == Some("deleted"))
      && (!m.isDeleted ==> r.lastMessage == m.text)
      && (!m.isDeleted && m.messageType.Some? && !AllSpace(space, m.messageType.value) ==>
            r.lastMessageType == m.messageType)
      && (!m.isDeleted && (m.messageType.None? || AllSpace(space, m.messageType.value)) ==>
            r.lastMessageType == Some("text"))
  {
    NewestIs(db, c, top);
  }

  lemma NoMessageShowsNone(space: char -> bool, dir: Directory, db: Db, c: int, me: int)
    requires c in dir.chats && forall id :: id in db.messages ==> db.messages[id].chatId != c
    ensures var r := ListedResponse(space, dir, db, c, me);
      && r.lastMessage == None && r.lastMessageType == None && r.lastMessageAt == None && r.lastMessageSender == None
      && r.lastMessageSenderName == None && r.lastMessageId == None && r.unreadCount == 0
  {
    forall id ensures id !in MessageIds(db, c) {
      assert id in db.messages ==> db.messages[id].chatId != c;
    }
    assert (c, me) in db.members ==> UnreadIds(db, c, me) == {};
  }

  /** `other` differs from `db` in the text, type and media of deleted messages only. */
  ghost predicate SameButTombstones(db: Db, other: Db) {
    && other.members == db.members && other.messages.Keys == db.messages.Keys
    && forall id :: id in db.messages ==>
         || other.messages[id] == db.messages[id]
         || (db.messages[id].isDeleted && other.messages[id] == db.messages[id].(
               text := other.messages[id].text, messageType := other.messages[id].messageType,
               mediaKey := other.messages[id].mediaKey, mediaUrl := other.messages[id].mediaUrl,
               mediaMimeType := other.messages[id].mediaMimeType, mediaSize := other.messages[id].mediaSize))
  }

  lemma SameCounters(db: Db, other: Db, c: int, me: int)
    requires SameButTombstones(db, other)
    ensures MessageIds(other, c) == MessageIds(db, c) && LastActivity(other, c) == LastActivity(db, c)
    ensures UnreadCountForUser(other, c, me) == UnreadCountForUser(db, c, me)
  {
    forall id ensures id in MessageIds(other, c) <==> id in MessageIds(db, c) {
      assert id in db.messages <==> id in other.messages;
      assert id in db.messages ==> other.messages[id].chatId == db.messages[id].chatId;
    }
    assert (set id | id in MessageIds(other, c) :: other.messages[id].createdAt)
        == (set id | id in MessageIds(db, c) :: db.messages[id].createdAt);
    if (c, me) in db.members {
      assert UnreadIds(other, c, me) == UnreadIds(db, c, me);
    }
  }

  lemma {:induction false} SameUsers(byName: seq<int>, db: Db, other: Db, c: int)
    requires other.members == db.members
    ensures UsersIn(byName, other, c) == UsersIn(byName, db, c)
  {
    if byName != [] {
      SameUsers(byName[..|byName| - 1], db, other, c);
    }
  }

  lemma SameEntry(space: char -> bool, dir: Directory, db: Db, other: Db, c: int, me: int)
    requires SameButTombstones(db, other) && c in dir.chats
    ensures ListedResponse(space, dir, other, c, me) == ListedResponse(space, dir, db, c, me)
  {
    SameCounters(db, other, c, me);
    SameUsers(dir.byName, db, other, c);
    if MessageIds(db, c) != {} {
      var top := Largest(MessageIds(db, c));
      assert top in db.messages;
    }
  }

  lemma {:induction false} SameEntries(space: char -> bool, dir: Directory, db: Db, other: Db, ids: seq<int>, me: int)
    requires SameButTombstones(db, other) && forall i :: 0 <= i < |ids| ==> ids[i] in dir.chats
    ensures Responses(space, dir, other, ids, me) == Responses(space, dir, db, ids, me)
  {
    if ids != [] {
      SameEntries(space, dir, db, other, ids[..|ids| - 1], me);
      SameEntry(space, dir, db, other, ids[|ids| - 1], me);
    }
  }

  /** Nothing of the text, type or media of deleted messages reaches the chat list: no page depends on it. */
  lemma DeletedMessagesNeverList(space: char -> bool, dir: Directory, db: Db, other: Db, me: int, limit: int,
                                 cursor: Option<ChatCursor>, archived: bool)
    requires SameButTombstones(db, other) && Complete(dir, db)
    ensures ChatPage(other, me, limit, cursor, archived) == ChatPage(db, me, limit, cursor, archived)
    ensures var ids := ChatIds(ChatPage(db, me, limit, cursor, archived).items);
      && (forall i :: 0 <= i < |ids| ==> ids[i] in dir.chats)
      && Responses(space, dir, other, ids, me) == Responses(space, dir, db, ids, me)
  {
    forall c ensures LastActivity(other, c) == LastActivity(db, c) {
      SameCounters(db, other, c, me);
    }
    assert ChatRows(other, me, archived) == ChatRows(db, me, archived) by {
      forall k | k in db.members && k.1 == me ensures ChatRowOf(other, k.0, me) == ChatRowOf(db, k.0, me) {
        assert k == (k.0, me);
      }
    }
    PageHasChats(dir, db, me, limit, cursor, archived);
    SameEntries(space, dir, db, other, ChatIds(ChatPage(db, me, limit, cursor, archived).items), me);
  }

  // --- The peer ---

  lemma {:induction false} NobodyBefore(byName: seq<int>, db: Db, c: int, me: int)
    requires forall i :: 0 <= i < |byName| ==> byName[i] == me || (c, byName[i]) !in db.members
    ensures FirstOther(UsersIn(byName, db, c), me) == None
  {
    if byName != [] {
      var init, u := byName[..|byName| - 1], byName[|byName| - 1];
      NobodyBefore(init, db, c, me);
      FirstOtherSnoc(UsersIn(init, db, c), u, me);
      assert UsersIn(init, db, c) + [] == UsersIn(init, db, c);
    }
  }

  lemma {:induction false} FirstByName(byName: seq<int>, db: Db, c: int, me: int, k: nat)
    requires k < |byName| && byName[k] != me && (c, byName[k]) in db.members
    requires forall i :: 0 <= i < k ==> byName[i] == me || (c, byName[i]) !in db.members
    ensures FirstOther(UsersIn(byName, db, c), me) == Some(byName[k])
    decreases |byName|
  {
    var init, u := byName[..|byName| - 1], byName[|byName| - 1];
    if k == |byName| - 1 {
      NobodyBefore(init, db, c, me);
    } else {
      FirstByName(init, db, c, me, k);
    }
    FirstOtherSnoc(UsersIn(init, db, c), u, me);
    assert UsersIn(init, db, c) + [] == UsersIn(init, db, c);
  }

  /** A private chat with another member carries the name, picture and last-seen time of the first by name. */
  lemma PeerShows(space: char -> bool, dir: Directory, db: Db, c: int, me: int, k: nat)
    requires Complete(dir, db) && c in dir.chats && dir.chats[c].isPrivate
    requires k < |dir.byName| && dir.byName[k] != me && (c, dir.byName[k]) in db.members
    requires forall i :: 0 <= i < k ==> dir.byName[i] == me || (c, dir.byName[i]) !in db.members
    ensures dir.byName[k] in dir.users
    ensures var r, peer := ListedResponse(space, dir, db, c, me), dir.users[dir.byName[k]];
      r.title == Some(peer.username) && r.avatarUrl == peer.avatarUrl && r.peerLastSeenAt == peer.lastSeenAt
  {
    FirstByName(dir.byName, db, c, me, k);
  }

  /** So in a private chat of two it is the other of the two. */
  lemma OtherOfTwoShows(space: char -> bool, dir: Directory, db: Db, c: int, me: int, other: int)
    requires Complete(dir, db) && c in dir.chats && dir.chats[c].isPrivate
    requires me != other && forall u :: (c, u) in db.members <==> u in {me, other}
    ensures other in dir.users
    ensures var r, peer := ListedResponse(space, dir, db, c, me), dir.users[other];
      r.title == Some(peer.username) && r.avatarUrl == peer.avatarUrl && r.peerLastSeenAt == peer.lastSeenAt
  {
    assert (c, other) in db.members;
    OtherOfTwo(dir.byName, db, c, me, other);
  }

  /** A group, and a private chat without another member, shows its own title and picture. */
  lemma OwnTitleShows(space: char -> bool, dir: Directory, db: Db, c: int, me: int)
    requires Complete(dir, db) && c in dir.chats
    requires dir.chats[c].isPrivate ==> forall u :: (c, u) in db.members ==> u == me
    ensures var r, chat := ListedResponse(space, dir, db, c, me), dir.chats[c];
      r.title == chat.title && r.avatarUrl == chat.avatarUrl && r.peerLastSeenAt == None
  {
    if dir.chats[c].isPrivate {
      NobodyBefore(dir.byName, db, c, me);
    }
  }

  /** The sender of the last message is named exactly while a member with a name that is not blank. */
  lemma SenderNameShows(space: char -> bool, dir: Directory, db: Db, c: int, me: int, top: int)
    requires Complete(dir, db) && c in dir.chats && IsNewest(db, c, top)
    ensures var r, sender := ListedResponse(space, dir, db, c, me), db.messages[top].senderId;
      && (r.lastMessageSenderName.Some? <==>
            (c, sender) in db.members && exists i :: 0 <= i < |dir.users[sender].username|
                                                     && !space(dir.users[sender].username[i]))
      && (r.lastMessageSenderName.Some? ==>
            var name := r.lastMessageSenderName.value;
            name != "" && !space(name[0]) && !space(name[|name| - 1])
            && TrimOf(space, dir.users[sender].username, name))
  {
    NewestIs(db, c, top);
    var sender := db.messages[top].senderId;
    UsersInAreUsers(dir.byName, db, c, sender);
    if (c, sender) in db.members {
      StripCutsOnlySpace(space, dir.users[sender].username);
    }
  }

  /** The read pointer, the flags and the unread messages are those of the viewer's membership. */
  lemma MembershipShows(space: char -> bool, dir: Directory, db: Db, c: int, me: int)
    requires c in dir.chats && (c, me) in db.members
    ensures var r, row := ListedResponse(space, dir, db, c, me), db.members[(c, me)];
      && r.myLastRead == (if row.lastRead.Some? then row.lastRead.value else 0)
      && r.isArchived == row.isArchived && r.notificationsMuted == row.notificationsMuted && r.isPinned == row.isPinned
      && r.unreadCount == |set id | id in db.messages && db.messages[id].chatId == c
                                    && db.messages[id].senderId != me && id > r.myLastRead|
      && r.id == c && r.isPrivate == dir.chats[c].isPrivate && r.createdBy == dir.chats[c].createdBy
  {
    var r := ListedResponse(space, dir, db, c, me);
    assert UnreadIds(db, c, me) == set id | id in db.messages && db.messages[id].chatId == c
                                            && db.messages[id].senderId != me && id > r.myLastRead;
  }

  // --- The response to asking for a private chat ---

  /** It shows the latest message by time, the other user if there is one, and never a flag or a sender's name. */
  lemma PrivateReplyShows(space: char -> bool, dir: Directory, db: Db, c: int, me: int, other: int, top: int)
    requires WellFormed(db) && c in dir.chats && top in db.messages && IsLatest(db, c, Some(db.messages[top]))
    ensures var m := db.messages[top];
      var r := PrivateChatResponse(space, dir, db, c, me, other, Some(m));
      && r.lastMessageId == Some(top) && r.lastMessageAt == Some(m.createdAt) && r.lastMessageSender == Some(m.senderId)
      && r.lastMessage == (if m.isDeleted then Some("Сообщение удалено") else m.text)
      && (other in dir.users ==>
            var peer := dir.users[other];
            r.title == Some(peer.username) && r.avatarUrl == peer.avatarUrl && r.peerLastSeenAt == peer.lastSeenAt)
      && (other !in dir.users ==>
            r.title == dir.chats[c].title && r.avatarUrl == dir.chats[c].avatarUrl && r.peerLastSeenAt == None)
      && r.lastMessageSenderName == None && !r.isArchived && !r.notificationsMuted && !r.isPinned
      && ((c, me) in db.members ==>
            r.myLastRead == db.members[(c, me)].lastRead.GetOr(0) && r.unreadCount == |UnreadIds(db, c, me)|)
  {
  }

  // --- Which chats are listed ---

  /** The time a chat is sorted by is that of its latest message, if it has one. */
  lemma LastActivityIs(db: Db, c: int)
    ensures match LastActivity(db, c)
      case None => forall id :: id in db.messages ==> db.messages[id].chatId != c
      case Some(t) =>
        && (exists id :: id in db.messages && db.messages[id].chatId == c && db.messages[id].createdAt == t)
        && forall id :: id in db.messages && db.messages[id].chatId == c ==> db.messages[id].createdAt <= t
  {
    var times := set id | id in MessageIds(db, c) :: db.messages[id].createdAt;
    forall id | id in db.messages && db.messages[id].chatId == c ensures db.messages[id].createdAt in times {
      assert id in MessageIds(db, c);
    }
    if times != {} {
      assert Largest(times) in times;
    }
  }

  /**
   The rows of the list are exactly the user's chats with the asked archive flag, one row each, with the pin
   of the membership.
   */
  lemma RowsAreMyChats(db: Db, me: int, archived: bool, c: int)
    ensures (exists row :: row in ChatRows(db, me, archived) && row.id == c)
      <==> (c, me) in db.members && db.members[(c, me)].isArchived == archived
    ensures forall row :: row in ChatRows(db, me, archived) && row.id == c ==>
      (c, me) in db.members && row.isPinned == db.members[(c, me)].isPinned && row.lastAt == LastActivity(db, c)
  {
    if (c, me) in db.members && db.members[(c, me)].isArchived == archived {
      assert ChatRowOf(db, c, me) in ChatRows(db, me, archived);
    }
    forall row | row in ChatRows(db, me, archived) && row.id == c
      ensures (c, me) in db.members && db.members[(c, me)].isArchived == archived && row == ChatRowOf(db, c, me)
    {
      var k :| k in db.members && k.1 == me && db.members[k].isArchived == archived && row == ChatRowOf(db, k.0, me);
      assert k == (c, me);
    }
  }

  function RowsLeft(db: Db, me: int, archived: bool, cursor: Option<ChatCursor>): set<ChatRow> {
    set row | row in ChatRows(db, me, archived) && (cursor.Some? ==> PassesChatCursor(cursor.value, row))
  }

  /** A page holds as many of the remaining chats as asked for, between 1 and 200. */
  lemma ChatPageIsFull(db: Db, me: int, limit: int, cursor: Option<ChatCursor>, archived: bool)
    ensures var page := ChatPage(db, me, limit, cursor, archived);
      var left := RowsLeft(db, me, archived, cursor);
      var size := if limit < 1 then 1 else if limit > 200 then 200 else limit;
      |page.items| == (if |left| < size then |left| else size) && (page.hasMore <==> |left| > size)
  {
    var table := ChatRows(db, me, archived);
    ChatCursorExact(db, me, archived);
    PageIsFull(ChatList, table, cursor, Clamp(limit, 1, 200));
    assert Past(ChatList, table, cursor) == RowsLeft(db, me, archived, cursor);
  }

  /** Each entry of a page is the entry of its own chat. */
  lemma {:induction false} EntryAt(space: char -> bool, dir: Directory, db: Db, ids: seq<int>, me: int, i: nat)
    requires i < |ids| && forall k :: 0 <= k < |ids| ==> ids[k] in dir.chats
    ensures Responses(space, dir, db, ids, me)[i] == ListedResponse(space, dir, db, ids[i], me)
  {
    if i < |ids| - 1 {
      EntryAt(space, dir, db, ids[..|ids| - 1], me, i);
    }
  }
}
