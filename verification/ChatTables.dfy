/** The rows of `messages` and `chat_members` that history, unread counters and the chat list read. */
module ChatTables {
  import opened Common

  datatype Message = Message(
    id: int,
    chatId: int,
    senderId: int,
    replyTo: Option<int>,
    forwardedFrom: Option<int>,
    text: Option<string>,
    clientMessageId: Option<string>,
    messageType: Option<string>,
    mediaKey: Option<string>,
    mediaUrl: Option<string>,
    mediaMimeType: Option<string>,
    mediaSize: Option<int>,
    createdAt: int,
    updatedAt: Option<int>,
    isUpdated: Option<bool>,
    isDeleted: bool,
    pinnedAt: Option<int>,
    pinnedBy: Option<int>)

  datatype Membership = Membership(
    lastRead: Option<int>,
    isArchived: bool,
    notificationsMuted: bool,
    isPinned: bool)

  /** `members` is keyed by (chat, user), the unique constraint of the table. */
  datatype Db = Db(messages: map<int, Message>, members: map<(int, int), Membership>)

  const DELETED_MESSAGE_TEXT := "Сообщение удалено"

  ghost predicate WellFormed(db: Db) {
    forall id :: id in db.messages ==> db.messages[id].id == id && id > 0
  }

  /** Read pointers name messages of their own chat: the foreign key and `mark_chat_read` see to it. */
  ghost predicate PointersValid(db: Db) {
    forall k :: k in db.members && db.members[k].lastRead.Some? ==>
      && db.members[k].lastRead.value in db.messages
      && db.messages[db.members[k].lastRead.value].chatId == k.0
  }

  function MessageIds(db: Db, chatId: int): set<int> {
    set id | id in db.messages && db.messages[id].chatId == chatId
  }

  function LastReadId(m: Membership): int {
    m.lastRead.GetOr(0)
  }

  /** Messages of others behind the user's read pointer. */
  function UnreadIds(db: Db, chatId: int, userId: int): set<int>
    requires (chatId, userId) in db.members
  {
    set id | id in MessageIds(db, chatId) && db.messages[id].senderId != userId
          && id > LastReadId(db.members[(chatId, userId)])
  }

  function UnreadCountForUser(db: Db, chatId: int, userId: int): nat {
    if (chatId, userId) in db.members then |UnreadIds(db, chatId, userId)| else 0
  }

  /** A plain message of chat 10, for examples. */
  function Note(id: int, sender: int, at: int): Message {
    Message(id, 10, sender, None, None, Some("hi"), None, None, None, None, None, None,
            at, None, None, false, None, None)
  }
}
