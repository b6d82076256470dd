/** What a viewer gets of a message: alone, and as an item of a history page. */
module Projection {
  import opened Common
  import opened ChatTables
  import opened ReadTracking
  import opened Reactions
  import Mentions
  import Polls

  /** The private storage: whether it is configured, and the URL it signs for a key. */
  datatype Storage = Storage(ready: bool, sign: string -> string)

  datatype PollRow = PollRow(id: int, poll: Polls.Poll)

  /** `polls` is keyed by the message, the unique constraint of the table. */
  datatype Tables = Tables(
    db: Db, reactions: seq<Reaction>, mentions: seq<Mentions.Row>, polls: map<int, PollRow>, votes: seq<Polls.Vote>)

  datatype Delivery = Sent | Read

  datatype ReplyPreview = ReplyPreview(id: int, senderId: int, text: string, messageType: string,
                                       mediaUrl: Option<string>)

  datatype MessageResponse = MessageResponse(
    id: int,
    chatId: int,
    senderId: int,
    text: string,
    messageType: string,
    clientMessageId: Option<string>,
    mediaUrl: Option<string>,
    mediaMimeType: Option<string>,
    mediaSize: Option<int>,
    createdAt: int,
    updatedAt: Option<int>,
    isUpdated: bool,
    isDeleted: bool,
    replyTo: Option<int>,
    replyPreview: Option<ReplyPreview>,
    forwardedFrom: Option<int>,
    delivery: Option<Delivery>,
    reactions: seq<ReactionGroup>,
    pinnedAt: Option<int>,
    pinnedBy: Option<int>,
    mentionUserIds: seq<int>,
    poll: Option<Polls.PollResponse>)

  const PRIVATE_MEDIA_MESSAGE_TYPES := {"image", "video", "video_note", "document", "file", "voice"}

  function SafeMessageText(m: Message): string {
    if m.isDeleted then DELETED_MESSAGE_TEXT else m.text.GetOr("")
  }

  function SafeMessageType(space: char -> bool, m: Message): string {
    if m.isDeleted then "deleted"
    else if m.messageType.None? || AllSpace(space, m.messageType.value) then "text"
    else m.messageType.value
  }

  predicate HasPrivateMedia(space: char -> bool, s: Storage, m: Message) {
    s.ready && SafeMessageType(space, m) in PRIVATE_MEDIA_MESSAGE_TYPES && m.mediaKey.GetOr("") != ""
  }

  /** The URL shown for a message: none for a deleted one, a signed one for private media. */
  function ShownUrl(space: char -> bool, s: Storage, m: Message): Option<string> {
    if HasPrivateMedia(space, s, m) then Some(s.sign(m.mediaKey.value))
    else if m.isDeleted then None
    else m.mediaUrl
  }

  function PreviewOf(space: char -> bool, s: Storage, parent: Message): ReplyPreview {
    ReplyPreview(parent.id, parent.senderId, SafeMessageText(parent), SafeMessageType(space, parent),
                 ShownUrl(space, s, parent))
  }

  /** `load_reply_parent`; an id of 0 counts as none. */
  function ReplyParent(db: Db, m: Message): Option<Message> {
    if m.replyTo.GetOr(0) != 0 && m.replyTo.value in db.messages then Some(db.messages[m.replyTo.value]) else None
  }

  function OthersIn(db: Db, chatId: int, userId: int): set<int> {
    set k | k in db.members && k.0 == chatId && k.1 != userId :: k.1
  }

  function ReadUpTo(db: Db, chatId: int, userId: int): int {
    if (chatId, userId) in db.members then LastReadId(db.members[(chatId, userId)]) else 0
  }

  /** The sender sees "read" when every other member has read that far, and "sent" before. */
  function DeliveryStatus(db: Db, chatId: int, messageId: int, senderId: int, viewer: int): Option<Delivery> {
    var others := OthersIn(db, chatId, viewer);
    if senderId != viewer || others == {} then None
    else if forall u :: u in others ==> ReadUpTo(db, chatId, u) >= messageId then Some(Read)
    else Some(Sent)
  }

  function Respond(
    space: char -> bool, s: Storage, m: Message,
    preview: Option<ReplyPreview>, delivery: Option<Delivery>, reactions: seq<ReactionGroup>,
    mentions: seq<int>, poll: Option<Polls.PollResponse>): MessageResponse
  {
    MessageResponse(
      m.id, m.chatId, m.senderId, SafeMessageText(m), SafeMessageType(space, m), m.clientMessageId,
      ShownUrl(space, s, m),
      if m.isDeleted then None else m.mediaMimeType,
      if m.isDeleted then None else m.mediaSize,
      m.createdAt, m.updatedAt, m.isUpdated.GetOr(false), m.isDeleted,
      m.replyTo, preview, m.forwardedFrom, delivery, reactions, m.pinnedAt, m.pinnedBy, mentions, poll)
  }

  function Preview(space: char -> bool, s: Storage, parent: Option<Message>): Option<ReplyPreview> {
    if parent.Some? then Some(PreviewOf(space, s, parent.value)) else None
  }

  /** The response for one message, with one query per table. */
  function MessageToResponse(space: char -> bool, s: Storage, t: Tables, m: Message, viewer: Option<int>)
    : MessageResponse
  {
    Respond(space, s, m, Preview(space, s, ReplyParent(t.db, m)),
      if viewer.Some? then DeliveryStatus(t.db, m.chatId, m.id, m.senderId, viewer.value) else None,
      if viewer.Some? then GroupsOf(t.reactions, m.id, viewer.value) else [],
      Mentions.UsersOf(t.mentions, m.id), PollOf(space, t, m, viewer))
  }

  /** The tally of the message's poll, if it is a poll message and has one. */
  function PollOf(space: char -> bool, t: Tables, m: Message, viewer: Option<int>): Option<Polls.PollResponse> {
    if SafeMessageType(space, m) == "poll" && m.id in t.polls then
      var row := t.polls[m.id];
      Some(Polls.Tally(row.id, row.poll, Polls.VotesOf(t.votes, row.id), viewer))
    else None
  }

  method ComputeDeliveryStatus(db: Db, chatId: int, m: Message, viewer: int) returns (status: Option<Delivery>)
    ensures status == DeliveryStatus(db, chatId, m.id, m.senderId, viewer)
  {
    if m.senderId != viewer {
      return None;
    }
    var others := OthersIn(db, chatId, m.senderId);
    if others == {} {
      return None;
    }
    var todo := others;
    while todo != {}
      invariant todo <= others
      invariant forall u :: u in others && u !in todo ==> ReadUpTo(db, chatId, u) >= m.id
      decreases |todo|
    {
      var u := AnyOf(todo);
      if ReadUpTo(db, chatId, u) < m.id {
        return Some(Sent);
      }
      todo := todo - {u};
    }
    return Some(Read);
  }

  /** The statuses of a page, the members loaded once: an entry for each message of the viewer. */
  method ComputeDeliveryStatuses(db: Db, chatId: int, messages: seq<Message>, viewer: int)
    returns (out: map<int, Option<Delivery>>)
    ensures forall id :: id in out ==> out[id] == DeliveryStatus(db, chatId, id, viewer, viewer)
    ensures forall i :: 0 <= i < |messages| ==> (messages[i].senderId == viewer ==> messages[i].id in out)
    ensures forall id ::
      id in out ==> exists i :: 0 <= i < |messages| && messages[i].id == id && messages[i].senderId == viewer
  {
    out := map[];
    var others := OthersIn(db, chatId, viewer);
    var n := 0;
    while n < |messages|
      invariant 0 <= n <= |messages|
      invariant forall id :: id in out ==> out[id] == DeliveryStatus(db, chatId, id, viewer, viewer)
      invariant forall i :: 0 <= i < n ==> (messages[i].senderId == viewer ==> messages[i].id in out)
      invariant forall id ::
        id in out ==> exists i :: 0 <= i < n && messages[i].id == id && messages[i].senderId == viewer
    {
      var m := messages[n];
      if m.senderId == viewer {
        var status: Option<Delivery> := None;
        if others != {} {
          status := if forall u :: u in others ==> ReadUpTo(db, chatId, u) >= m.id then Some(Read) else Some(Sent);
        }
        out := out[m.id := status];
      }
      n := n + 1;
    }
  }

  /** A message whose private media URL has been rewritten in memory. */
  function Presigned(space: char -> bool, s: Storage, m: Message): Message {
    if !m.isDeleted && HasPrivateMedia(space, s, m) then m.(mediaUrl := Some(s.sign(m.mediaKey.value))) else m
  }

  method ApplyPrivateMediaUrls(space: char -> bool, s: Storage, messages: array<Message>)
    modifies messages
    ensures forall i :: 0 <= i < messages.Length ==> messages[i] == Presigned(space, s, old(messages[i]))
  {
    if !s.ready {
      return;
    }
    var n := 0;
    while n < messages.Length
      invariant 0 <= n <= messages.Length
      invariant forall i :: 0 <= i < n ==> messages[i] == Presigned(space, s, old(messages[i]))
      invariant forall i :: n <= i < messages.Length ==> messages[i] == old(messages[i])
    {
      var m := messages[n];
      var mtype := SafeMessageType(space, m);
      if !m.isDeleted && mtype in PRIVATE_MEDIA_MESSAGE_TYPES && m.mediaKey.GetOr("") != "" {
        messages[n] := m.(mediaUrl := Some(s.sign(m.mediaKey.value)));
      }
      n := n + 1;
    }
  }

  /** Signing in advance changes nothing that is shown. */
  lemma PresigningIsInvisible(space: char -> bool, s: Storage, t: Tables, m: Message, viewer: Option<int>)
    ensures MessageToResponse(space, s, t, Presigned(space, s, m), viewer) == MessageToResponse(space, s, t, m, viewer)
    ensures PreviewOf(space, s, Presigned(space, s, m)) == PreviewOf(space, s, m)
  {
  }

  predicate SameTombstone(a: Message, b: Message) {
    a.isDeleted && b == a.(text := b.text, messageType := b.messageType, mediaKey := b.mediaKey,
                          mediaUrl := b.mediaUrl, mediaMimeType := b.mediaMimeType, mediaSize := b.mediaSize)
  }

  /**
   Nothing of a deleted message's text, type or media shows, neither in its own response nor in the
   preview of a reply to it: two messages that differ only there are shown alike.
   */
  lemma DeletedContentNeverShows(space: char -> bool, s: Storage, t: Tables, a: Message, b: Message,
                                 viewer: Option<int>)
    requires SameTombstone(a, b)
    ensures MessageToResponse(space, s, t, a, viewer) == MessageToResponse(space, s, t, b, viewer)
    ensures PreviewOf(space, s, a) == PreviewOf(space, s, b)
    ensures var r := MessageToResponse(space, s, t, a, viewer);
      r.text == DELETED_MESSAGE_TEXT && r.messageType == "deleted" && r.mediaUrl == None
  {
  }

  datatype Receipt = Receipt(chatId: int, userId: int, messageId: int)

  function AfterReceipts(db: Db, receipts: seq<Receipt>): Db {
    if receipts == [] then db
    else MarkedRead(AfterReceipts(db, receipts[..|receipts| - 1]),
                    receipts[|receipts| - 1].chatId, receipts[|receipts| - 1].userId,
                    receipts[|receipts| - 1].messageId).0
  }

  lemma {:induction false} ReceiptsAdvance(db: Db, receipts: seq<Receipt>, chatId: int, userId: int)
    ensures AfterReceipts(db, receipts).members.Keys == db.members.Keys
    ensures ReadUpTo(AfterReceipts(db, receipts), chatId, userId) >= ReadUpTo(db, chatId, userId)
  {
    if receipts != [] {
      ReceiptsAdvance(db, receipts[..|receipts| - 1], chatId, userId);
    }
  }

  /** While no member joins, a message once shown as read is never shown as sent again. */
  lemma ReadStaysRead(db: Db, receipts: seq<Receipt>, chatId: int, messageId: int, senderId: int, viewer: int)
    requires DeliveryStatus(db, chatId, messageId, senderId, viewer) == Some(Read)
    ensures DeliveryStatus(AfterReceipts(db, receipts), chatId, messageId, senderId, viewer) == Some(Read)
  {
    var after := AfterReceipts(db, receipts);
    ReceiptsAdvance(db, receipts, chatId, viewer);
    assert OthersIn(after, chatId, viewer) == OthersIn(db, chatId, viewer);
    forall u | u in OthersIn(db, chatId, viewer) ensures ReadUpTo(after, chatId, u) >= messageId {
      ReceiptsAdvance(db, receipts, chatId, u);
    }
  }

  /** The batched form: the parents and reactions of the page are looked up in dictionaries. */
  method MessageToResponseBatched(
    space: char -> bool, s: Storage, t: Tables, m: Message, parentsById: map<int, Message>, viewer: int,
    reactions: seq<ReactionGroup>, known: Option<Delivery>)
    returns (response: MessageResponse)
    requires known.Some? ==> known == DeliveryStatus(t.db, m.chatId, m.id, m.senderId, viewer)
    ensures response == Respond(space, s, m,
      Preview(space, s, if m.replyTo.GetOr(0) != 0 && m.replyTo.value in parentsById
                        then Some(parentsById[m.replyTo.value]) else None),
      DeliveryStatus(t.db, m.chatId, m.id, m.senderId, viewer), reactions,
      Mentions.UsersOf(t.mentions, m.id), PollOf(space, t, m, Some(viewer)))
  {
    var preview: Option<ReplyPreview> := None;
    if m.replyTo.GetOr(0) != 0 && m.replyTo.value in parentsById {
      preview := Some(PreviewOf(space, s, parentsById[m.replyTo.value]));
    }
    var delivery := known;
    if delivery.None? {
      delivery := ComputeDeliveryStatus(t.db, m.chatId, m, viewer);
    }
    var loaded := Mentions.LoadMessageMentionsMap(t.mentions, [m.id]);
    var mentions := if m.id in loaded then loaded[m.id] else [];
    assert m.id in [m.id];
    var poll: Option<Polls.PollResponse> := None;
    if SafeMessageType(space, m) == "poll" && m.id in t.polls {
      var row := t.polls[m.id];
      var tally := Polls.SerializePoll(row.id, row.poll, t.votes, Some(viewer));
      poll := Some(tally);
    }
    response := Respond(space, s, m, preview, delivery, reactions, mentions, poll);
  }
}
