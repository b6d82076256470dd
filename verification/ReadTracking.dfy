/** Read pointers: marking a chat read, and moving pointers away before a message is hard-deleted. */
module ReadTracking {
  import opened Common
  import opened Orders
  import opened ChatTables

  datatype ReadError = NotAMember | MessageNotFound

  function WithPointer(db: Db, chatId: int, userId: int, lastRead: Option<int>): Db
    requires (chatId, userId) in db.members
  {
    var k := (chatId, userId);
    db.(members := db.members[k := db.members[k].(lastRead := lastRead)])
  }

  /** The state and the reply that a read receipt for `messageId` leaves behind. */
  function MarkedRead(db: Db, chatId: int, userId: int, messageId: int): (Db, Result<Option<int>, ReadError>) {
    var k := (chatId, userId);
    if k !in db.members then (db, Err(NotAMember))
    else if messageId !in MessageIds(db, chatId) then (db, Err(MessageNotFound))
    else if messageId > LastReadId(db.members[k]) then
      (WithPointer(db, chatId, userId, Some(messageId)), Ok(Some(messageId)))
    else (db, Ok(db.members[k].lastRead))
  }

  /** The newest message of the chat older than `messageId`. */
  function Previous(db: Db, chatId: int, messageId: int): Option<int> {
    var older := set id | id in MessageIds(db, chatId) && id < messageId;
    if older == {} then None else Some(Largest(older))
  }

  function RepointedRow(k: (int, int), row: Membership, chatId: int, deletedId: int, newest: Option<int>): Membership {
    if k.0 == chatId && row.lastRead == Some(deletedId) then row.(lastRead := newest) else row
  }

  function Repointed(db: Db, chatId: int, deletedId: int): Db {
    var newest := Previous(db, chatId, deletedId);
    db.(members := map k | k in db.members :: RepointedRow(k, db.members[k], chatId, deletedId, newest))
  }

  /** A hard delete: the rows go and `ON DELETE SET NULL` clears the pointers that named them. */
  function HardDeleted(db: Db, gone: set<int>): Db {
    Db(db.messages - gone,
       map k | k in db.members ::
         if db.members[k].lastRead.Some? && db.members[k].lastRead.value in gone then db.members[k].(lastRead := None)
         else db.members[k])
  }

  class ReadStore {
    var messages: map<int, Message>
    var members: map<(int, int), Membership>

    function Rows(): Db
      reads this
    {
      Db(messages, members)
    }

    method MarkChatRead(chatId: int, userId: int, messageId: int) returns (reply: Result<Option<int>, ReadError>)
      modifies this`members
      ensures (Rows(), reply) == MarkedRead(old(Rows()), chatId, userId, messageId)
    {
      var k := (chatId, userId);
      if k !in members {
        return Err(NotAMember);
      }
      if messageId !in messages || messages[messageId].chatId != chatId {
        return Err(MessageNotFound);
      }
      var previous := members[k].lastRead.GetOr(0);
      if messageId > previous {
        members := members[k := members[k].(lastRead := Some(messageId))];
      }
      reply := Ok(members[k].lastRead);
    }

    method RepointLastReadBeforeMessageDelete(chatId: int, deletedId: int)
      modifies this`members
      ensures Rows() == Repointed(old(Rows()), chatId, deletedId)
    {
      ghost var before := Rows();
      var newest := NewestOlder(chatId, deletedId);
      var todo := members.Keys;
      while todo != {}
        invariant todo <= members.Keys == before.members.Keys
        invariant forall k :: k in todo ==> members[k] == before.members[k]
        invariant forall k :: k in members && k !in todo ==>
          members[k] == RepointedRow(k, before.members[k], chatId, deletedId, newest)
        decreases |todo|
      {
        var k :| k in todo;
        if k.0 == chatId && members[k].lastRead == Some(deletedId) {
          members := members[k := members[k].(lastRead := newest)];
        }
        todo := todo - {k};
      }
    }

    /** The query for the newest older message of the chat. */
    method NewestOlder(chatId: int, messageId: int) returns (newest: Option<int>)
      ensures newest == Previous(Rows(), chatId, messageId)
    {
      var older := set id | id in messages && messages[id].chatId == chatId && id < messageId;
      assert older == set id | id in MessageIds(Rows(), chatId) && id < messageId;
      newest := None;
      if older != {} {
        newest := Some(Largest(older));
      }
    }
  }

  /** A receipt never moves a pointer back and never adds unread messages. */
  lemma MarkReadAdvances(db: Db, chatId: int, userId: int, messageId: int)
    requires WellFormed(db) && PointersValid(db)
    ensures var (after, reply) := MarkedRead(db, chatId, userId, messageId);
      && WellFormed(after) && PointersValid(after)
      && after.messages == db.messages && after.members.Keys == db.members.Keys
      && (forall k :: k in db.members && k != (chatId, userId) ==> after.members[k] == db.members[k])
      && (reply.Ok? <==> (chatId, userId) in db.members && messageId in MessageIds(db, chatId))
      && (reply.Err? ==> after == db)
      && (reply == Err(ReadError.NotAMember) <==> (chatId, userId) !in db.members)
      && (reply.Ok? ==>
            && reply.value == after.members[(chatId, userId)].lastRead
            && LastReadId(after.members[(chatId, userId)])
                 == Max(messageId, LastReadId(db.members[(chatId, userId)]))
            && UnreadIds(after, chatId, userId)
                 == (set id | id in UnreadIds(db, chatId, userId) && id > messageId))
  {
    var (after, reply) := MarkedRead(db, chatId, userId, messageId);
    assert MessageIds(after, chatId) == MessageIds(db, chatId);
  }

  /**
   Repointing before a hard delete keeps, for every member of every chat, exactly the unread messages
   that are left, and keeps the pointers valid.
   */
  lemma RepointKeepsUnread(db: Db, chatId: int, deletedId: int, k: (int, int))
    requires WellFormed(db) && PointersValid(db)
    requires deletedId in MessageIds(db, chatId) && k in db.members
    ensures var after := HardDeleted(Repointed(db, chatId, deletedId), {deletedId});
      && WellFormed(after) && PointersValid(after)
      && k in after.members
      && UnreadIds(after, k.0, k.1) == UnreadIds(db, k.0, k.1) - {deletedId}
  {
    var moved := Repointed(db, chatId, deletedId);
    var after := HardDeleted(moved, {deletedId});
    forall j | j in db.members ensures moved.members[j].lastRead != Some(deletedId) {
      if db.members[j].lastRead == Some(deletedId) {
        assert j.0 == chatId;
      }
    }
    assert after.members == moved.members;
    PreviousIsNewestOlder(db, chatId, deletedId);
    assert MessageIds(after, k.0) == MessageIds(db, k.0) - {deletedId};
    var read := LastReadId(db.members[k]);
    var newRead := LastReadId(after.members[k]);
    forall id | id in MessageIds(db, k.0) && id != deletedId ensures id > newRead <==> id > read {
      assert id in db.messages;
    }
    assert forall id :: id in UnreadIds(after, k.0, k.1) <==> id in UnreadIds(db, k.0, k.1) - {deletedId};
  }

  lemma PreviousIsNewestOlder(db: Db, chatId: int, messageId: int)
    ensures match Previous(db, chatId, messageId)
      case None => forall id :: id in MessageIds(db, chatId) ==> id >= messageId
      case Some(p) =>
        && p in MessageIds(db, chatId) && p < messageId
        && forall id :: id in MessageIds(db, chatId) && id < messageId ==> id <= p
  {
    var older := set id | id in MessageIds(db, chatId) && id < messageId;
    assert forall id :: id in MessageIds(db, chatId) && id < messageId ==> id in older;
  }

  /** The member's pointer is elsewhere, or every older message that stays is the member's own. */
  ghost predicate NothingOlderStays(db: Db, k: (int, int), gone: set<int>)
    requires k in db.members
  {
    db.members[k].lastRead.Some? && db.members[k].lastRead.value in gone ==>
      forall id :: id in MessageIds(db, k.0) && id !in gone && id < db.members[k].lastRead.value ==>
        db.messages[id].senderId == k.1
  }

  /**
   Deleting messages without repointing keeps the member's unread messages, as far as they stay, if and
   only if the pointer is not among the deleted or no older message of another member stays.
   */
  lemma SetNullRecounts(db: Db, k: (int, int), gone: set<int>)
    requires WellFormed(db) && PointersValid(db) && k in db.members
    ensures UnreadIds(HardDeleted(db, gone), k.0, k.1) == UnreadIds(db, k.0, k.1) - gone
      <==> NothingOlderStays(db, k, gone)
  {
    var after := HardDeleted(db, gone);
    assert MessageIds(after, k.0) == MessageIds(db, k.0) - gone;
    if db.members[k].lastRead.Some? && db.members[k].lastRead.value in gone {
      var read := db.members[k].lastRead.value;
      assert forall id :: id in UnreadIds(after, k.0, k.1) <==>
        id in MessageIds(db, k.0) - gone && db.messages[id].senderId != k.1;
      assert forall id :: id in UnreadIds(db, k.0, k.1) ==> id > read;
      if !NothingOlderStays(db, k, gone) {
        var id :| id in MessageIds(db, k.0) && id !in gone && id < read && db.messages[id].senderId != k.1;
        assert id in UnreadIds(after, k.0, k.1) && id !in UnreadIds(db, k.0, k.1);
      } else {
        assert forall id :: id in UnreadIds(after, k.0, k.1) ==> id > read;
      }
    } else {
      assert after.members[k] == db.members[k];
    }
  }

  function SentBy(db: Db, sender: int): set<int> {
    set id | id in db.messages && db.messages[id].senderId == sender
  }

  /**
   Account deletion deletes all messages of the sender at once. A member keeps exactly the unread
   messages that stay if and only if the pointer is not at a message of the sender, or everything older
   in the chat was written by the two of them.
   */
  lemma AccountDeletionRecounts(db: Db, k: (int, int), sender: int)
    requires WellFormed(db) && PointersValid(db) && k in db.members
    ensures UnreadIds(HardDeleted(db, SentBy(db, sender)), k.0, k.1) == UnreadIds(db, k.0, k.1) - SentBy(db, sender)
      <==> (db.members[k].lastRead.Some? && db.messages[db.members[k].lastRead.value].senderId == sender ==>
              forall id :: id in MessageIds(db, k.0) && id < db.members[k].lastRead.value ==>
                db.messages[id].senderId in {sender, k.1})
  {
    SetNullRecounts(db, k, SentBy(db, sender));
  }

  /** Member 7 has read message 1 of user 6 and message 2 of user 5; deleting user 5 makes 1 unread again. */
  lemma ReadMessageTurnsUnread()
    ensures var db := Db(map[1 := Note(1, 6, 0), 2 := Note(2, 5, 0)],
                         map[(10, 7) := Membership(Some(2), false, false, false)]);
      && WellFormed(db) && PointersValid(db)
      && UnreadIds(db, 10, 7) == {}
      && UnreadIds(HardDeleted(db, SentBy(db, 5)), 10, 7) == {1}
  {
    var db := Db(map[1 := Note(1, 6, 0), 2 := Note(2, 5, 0)],
                 map[(10, 7) := Membership(Some(2), false, false, false)]);
    assert SentBy(db, 5) == {2};
    assert MessageIds(db, 10) == {1, 2};
    assert HardDeleted(db, {2}).members == map[(10, 7) := Membership(None, false, false, false)];
    assert MessageIds(HardDeleted(db, {2}), 10) == {1};
  }

  /** Repointing moves exactly the pointers at the message, and touches nothing else of any membership. */
  lemma RepointMoves(db: Db, chatId: int, deletedId: int, k: (int, int))
    requires k in db.members
    ensures var moved := Repointed(db, chatId, deletedId); var was := db.members[k];
      && moved.messages == db.messages && moved.members.Keys == db.members.Keys
      && var now := moved.members[k];
         && now.isArchived == was.isArchived && now.notificationsMuted == was.notificationsMuted
         && now.isPinned == was.isPinned
         && (k.0 == chatId && was.lastRead == Some(deletedId) ==>
               match now.lastRead
               case None => forall id :: id in MessageIds(db, chatId) ==> id >= deletedId
               case Some(p) => p in MessageIds(db, chatId) && p < deletedId
                               && forall id :: id in MessageIds(db, chatId) && id < deletedId ==> id <= p)
         && (!(k.0 == chatId && was.lastRead == Some(deletedId)) ==> now.lastRead == was.lastRead)
  {
    PreviousIsNewestOlder(db, chatId, deletedId);
  }
}
