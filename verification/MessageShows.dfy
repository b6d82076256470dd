/** What a message response shows, told from the rows of the tables. */
module MessageShows {
  import opened Common
  import opened ChatTables
  import opened Reactions
  import opened Projection
  import Mentions
  import Polls

  /** A type that is missing or blank counts as text. */
  ghost predicate Blank(space: char -> bool, messageType: Option<string>) {
    messageType.None? || forall i :: 0 <= i < |messageType.value| ==> space(messageType.value[i])
  }

  /** A message that is not deleted shows its own row. */
  lemma PlainMessageShows(space: char -> bool, s: Storage, t: Tables, m: Message, viewer: Option<int>)
    requires !m.isDeleted
    ensures var r := MessageToResponse(space, s, t, m, viewer);
      && r.id == m.id && r.chatId == m.chatId && r.senderId == m.senderId && r.clientMessageId == m.clientMessageId
      && (m.text.Some? ==> r.text == m.text.value) && (m.text.None? ==> r.text == "")
      && (Blank(space, m.messageType) ==> r.messageType == "text")
      && (!Blank(space, m.messageType) ==> m.messageType == Some(r.messageType))
      && r.mediaMimeType == m.mediaMimeType && r.mediaSize == m.mediaSize
      && r.createdAt == m.createdAt && r.updatedAt == m.updatedAt
      && (r.isUpdated <==> m.isUpdated == Some(true)) && !r.isDeleted
      && r.replyTo == m.replyTo && r.forwardedFrom == m.forwardedFrom
      && r.pinnedAt == m.pinnedAt && r.pinnedBy == m.pinnedBy
  {
  }

  /** A deleted message keeps its place, its sender and its times, and shows nothing of its content. */
  lemma DeletedMessageShows(space: char -> bool, s: Storage, t: Tables, m: Message, viewer: Option<int>)
    requires m.isDeleted
    ensures var r := MessageToResponse(space, s, t, m, viewer);
      && r.id == m.id && r.chatId == m.chatId && r.senderId == m.senderId && r.clientMessageId == m.clientMessageId
      && r.text == "Сообщение удалено" && r.messageType == "deleted" && r.isDeleted
      && r.mediaUrl == None && r.mediaMimeType == None && r.mediaSize == None && r.poll == None
      && r.createdAt == m.createdAt && r.updatedAt == m.updatedAt
      && r.replyTo == m.replyTo && r.forwardedFrom == m.forwardedFrom
      && r.pinnedAt == m.pinnedAt && r.pinnedBy == m.pinnedBy
  {
    var a := "deleted";
    assert a[0] == 'd' && |a| == 7;
  }

  /** The six kinds of message whose files lie in the private storage. */
  predicate IsMedia(messageType: string) {
    || messageType == "image" || messageType == "video" || messageType == "video_note"
    || messageType == "document" || messageType == "file" || messageType == "voice"
  }

  lemma MediaTypesAre(messageType: string)
    ensures messageType in PRIVATE_MEDIA_MESSAGE_TYPES <==> IsMedia(messageType)
  {
  }

  /**
   The URL of a message that is not deleted is signed exactly if the storage is configured, the message is
   one of the six kinds and it has a key; otherwise it is the stored one.
   */
  lemma MediaShows(space: char -> bool, s: Storage, t: Tables, m: Message, viewer: Option<int>)
    requires !m.isDeleted
    ensures var r := MessageToResponse(space, s, t, m, viewer);
      if s.ready && IsMedia(r.messageType) && m.mediaKey.Some? && m.mediaKey.value != ""
      then r.mediaUrl == Some(s.sign(m.mediaKey.value)) else r.mediaUrl == m.mediaUrl
  {
    UrlIs(space, s, m);
  }

  lemma UrlIs(space: char -> bool, s: Storage, m: Message)
    requires !m.isDeleted
    ensures var signed := s.ready && IsMedia(SafeMessageType(space, m)) && m.mediaKey.Some? && m.mediaKey.value != "";
      ShownUrl(space, s, m) == if signed then Some(s.sign(m.mediaKey.value)) else m.mediaUrl
  {
    MediaTypesAre(SafeMessageType(space, m));
  }

  /** A reply carries a preview exactly if its parent exists, of that parent, in its own words unless deleted. */
  lemma PreviewShows(space: char -> bool, s: Storage, t: Tables, m: Message, viewer: Option<int>)
    requires WellFormed(t.db)
    ensures var r := MessageToResponse(space, s, t, m, viewer);
      && (r.replyPreview.Some? <==> m.replyTo.Some? && m.replyTo.value in t.db.messages)
      && (r.replyPreview.Some? ==>
            var preview, parent := r.replyPreview.value, t.db.messages[m.replyTo.value];
            && Some(preview.id) == m.replyTo && preview.senderId == parent.senderId
            && (parent.isDeleted ==>
                  preview.text == "Сообщение удалено" && preview.messageType == "deleted" && preview.mediaUrl == None)
            && (!parent.isDeleted ==>
                  && preview.text == (if parent.text.Some? then parent.text.value else "")
                  && (Blank(space, parent.messageType) ==> preview.messageType == "text")
                  && (!Blank(space, parent.messageType) ==> parent.messageType == Some(preview.messageType))
                  && preview.mediaUrl == MessageToResponse(space, s, t, parent, viewer).mediaUrl))
  {
  }

  /** The messages `u` has read reach `id`; whoever has read nothing has read up to 0. */
  ghost predicate HasRead(db: Db, chatId: int, u: int, id: int) {
    (chatId, u) in db.members &&
    if db.members[(chatId, u)].lastRead.Some? then db.members[(chatId, u)].lastRead.value >= id else 0 >= id
  }

  /**
   A status is shown to the sender alone, and only if the chat has other members: read if each of them has
   read the message, sent if one has not.
   */
  lemma DeliveryShows(space: char -> bool, s: Storage, t: Tables, m: Message, viewer: Option<int>)
    ensures var d := MessageToResponse(space, s, t, m, viewer).delivery;
      && (d.Some? <==> viewer == Some(m.senderId) && exists u :: u != m.senderId && (m.chatId, u) in t.db.members)
      && (d == Some(Read) <==> d.Some? && forall u :: u != m.senderId && (m.chatId, u) in t.db.members ==>
            HasRead(t.db, m.chatId, u, m.id))
  {
    var others := OthersIn(t.db, m.chatId, m.senderId);
    forall u ensures u in others <==> u != m.senderId && (m.chatId, u) in t.db.members {
      assert (m.chatId, u) in t.db.members ==> (m.chatId, u).0 == m.chatId;
    }
  }

  /**
   Under each emoji a viewer sees exactly who reacted with it, in ascending order, how many they are, and
   whether the viewer is one of them; without a viewer there are no groups.
   */
  lemma ReactionsShow(space: char -> bool, s: Storage, t: Tables, m: Message, viewer: Option<int>)
    ensures var groups := MessageToResponse(space, s, t, m, viewer).reactions;
      && (viewer.None? ==> groups == [])
      && (viewer.Some? ==> forall emoji, user ::
            (exists g :: g in groups && g.emoji == emoji && user in g.reactorUserIds)
            <==> Reaction(m.id, user, emoji) in t.reactions)
      && (forall g :: g in groups ==>
            g.count == |g.reactorUserIds| && (g.reactedByMe <==> viewer.value in g.reactorUserIds))
      && (forall g, i, j ::
            g in groups && 0 <= i < j < |g.reactorUserIds| ==> g.reactorUserIds[i] < g.reactorUserIds[j])
  {
    if viewer.Some? {
      var groups := GroupsOf(t.reactions, m.id, viewer.value);
      forall emoji, user ensures (exists g :: g in groups && g.emoji == emoji && user in g.reactorUserIds)
                            <==> Reaction(m.id, user, emoji) in t.reactions {
        GroupsSayWhoReacted(t.reactions, m.id, viewer.value, emoji, user);
      }
      forall g | g in groups
        ensures g.count == |g.reactorUserIds| && (g.reactedByMe <==> viewer.value in g.reactorUserIds) {
        GroupsAreConsistent(t.reactions, m.id, viewer.value, g);
      }
      forall g, i, j | g in groups && 0 <= i < j < |g.reactorUserIds|
        ensures g.reactorUserIds[i] < g.reactorUserIds[j] {
        GroupsAreConsistent(t.reactions, m.id, viewer.value, g);
      }
    }
  }

  /** The mentions shown are the users of the message's rows. */
  lemma MentionsShow(space: char -> bool, s: Storage, t: Tables, m: Message, viewer: Option<int>, user: int)
    ensures user in MessageToResponse(space, s, t, m, viewer).mentionUserIds <==> Mentions.Row(m.id, user) in t.mentions
  {
    UsersAre(t.mentions, m.id, user);
  }

  lemma {:induction false} UsersAre(rows: seq<Mentions.Row>, messageId: int, user: int)
    ensures user in Mentions.UsersOf(rows, messageId) <==> Mentions.Row(messageId, user) in rows
  {
    if rows != [] {
      UsersAre(rows[..|rows| - 1], messageId, user);
      assert rows == rows[..|rows| - 1] + [rows[|rows| - 1]];
    }
  }

  /** A poll is shown exactly for a poll message with a poll row, with the texts and flags of that row. */
  lemma PollShows(space: char -> bool, s: Storage, t: Tables, m: Message, viewer: Option<int>)
    ensures var r := MessageToResponse(space, s, t, m, viewer);
      && (r.poll.Some? <==> !m.isDeleted && r.messageType == "poll" && m.id in t.polls)
      && (r.poll.Some? ==>
            var poll, row := r.poll.value, t.polls[m.id].poll;
            && poll.id == t.polls[m.id].id && poll.messageId == row.messageId && poll.question == row.question
            && poll.allowsMultiple == row.allowsMultiple && poll.isAnonymous == row.isAnonymous
            && poll.isClosed == row.isClosed && |poll.options| == |row.options|
            && forall i :: 0 <= i < |row.options| ==>
                 && poll.options[i].id == row.options[i].id && poll.options[i].text == row.options[i].text
                 && poll.options[i].position == i)
  {
    var r := MessageToResponse(space, s, t, m, viewer);
    assert m.isDeleted ==> r.messageType[0] == 'd';
    if r.poll.Some? {
      var row := t.polls[m.id];
      var ballots := Polls.VotesOf(t.votes, row.id);
      forall i | 0 <= i < |row.poll.options|
        ensures Polls.Items(row.poll, ballots, viewer, |row.poll.options|)[i]
             == Polls.ItemOf(row.poll, ballots, viewer, i) {
        Polls.ItemsAre(row.poll, ballots, viewer, |row.poll.options|, i);
      }
    }
  }

  lemma TextIsNoMedia()
    ensures !IsMedia("text")
  {
    var text := "text";
    assert |text| == 4 && text[0] == 't' && "file"[0] == 'f';
  }

  /** Signing a page in advance rewrites the URL of exactly the rows whose private files are shown, and no more. */
  lemma SignedRowIs(space: char -> bool, s: Storage, m: Message)
    ensures var signed := s.ready && !m.isDeleted && m.messageType.Some? && IsMedia(m.messageType.value)
                          && !Blank(space, m.messageType) && m.mediaKey.Some? && m.mediaKey.value != "";
      Presigned(space, s, m) == if signed then m.(mediaUrl := Some(s.sign(m.mediaKey.value))) else m
  {
    MediaTypesAre(SafeMessageType(space, m));
    TextIsNoMedia();
  }
}
