/** A page of chat history: the rows, and their responses assembled from batched queries. */
module MessageQueries {
  import opened Common
  import opened ChatTables
  import opened Reactions
  import opened History
  import opened Projection

  datatype QueryError = NotAMember

  datatype MessageListPage = MessageListPage(messages: seq<MessageResponse>, hasMore: bool)

  /** One single-message response per row. */
  function Responses(space: char -> bool, s: Storage, t: Tables, rows: seq<Message>, viewer: int)
    : (r: seq<MessageResponse>)
    ensures |r| == |rows|
  {
    if rows == [] then []
    else Responses(space, s, t, rows[..|rows| - 1], viewer)
           + [MessageToResponse(space, s, t, rows[|rows| - 1], Some(viewer))]
  }

  lemma ResponsesSnoc(space: char -> bool, s: Storage, t: Tables, rows: seq<Message>, n: nat, viewer: int)
    requires n < |rows|
    ensures Responses(space, s, t, rows[..n + 1], viewer)
      == Responses(space, s, t, rows[..n], viewer) + [MessageToResponse(space, s, t, rows[n], Some(viewer))]
  {
    assert rows[..n + 1][..n] == rows[..n];
  }

  function RowsOf(db: Db, ids: seq<int>): (rows: seq<Message>)
    requires forall i :: 0 <= i < |ids| ==> ids[i] in db.messages
    ensures |rows| == |ids|
  {
    seq(|ids|, i requires 0 <= i < |ids| => db.messages[ids[i]])
  }

  /** `reply_to_message_id` of the rows, where it is set and not 0. */
  function ReplyIds(rows: seq<Message>): set<int> {
    set i | 0 <= i < |rows| && rows[i].replyTo.GetOr(0) != 0 :: rows[i].replyTo.value
  }

  function PresignedRow(space: char -> bool, s: Storage, db: Db, id: int): Message
    requires id in db.messages
  {
    Presigned(space, s, db.messages[id])
  }

  /** The parents of a page by id, loaded by one query and with their private URLs signed. */
  method LoadParents(space: char -> bool, s: Storage, db: Db, replyIds: set<int>)
    returns (parentsById: map<int, Message>)
    requires WellFormed(db)
    ensures forall id :: id in parentsById <==> id in replyIds && id in db.messages
    ensures forall id :: id in parentsById ==> parentsById[id] == PresignedRow(space, s, db, id)
  {
    parentsById := map[];
    var todo := set id | id in replyIds && id in db.messages;
    while todo != {}
      invariant forall id :: id in todo ==> id in replyIds && id in db.messages
      invariant forall id :: id in parentsById || id in todo <==> id in replyIds && id in db.messages
      invariant forall id :: id in parentsById ==> parentsById[id] == PresignedRow(space, s, db, id)
      decreases |todo|
    {
      var id := AnyOf(todo);
      var one := new Message[1](_ => db.messages[id]);
      ApplyPrivateMediaUrls(space, s, one);
      var parent := one[0];
      parentsById := parentsById[parent.id := parent];
      todo := todo - {id};
    }
  }

  /** The dictionaries that the responses of a page are assembled from. */
  datatype PageBatch = PageBatch(
    parents: map<int, Message>, reactions: map<int, seq<ReactionGroup>>, statuses: map<int, Option<Delivery>>)

  /** The dictionaries say about a row what the tables say. */
  ghost predicate Covers(space: char -> bool, s: Storage, t: Tables, b: PageBatch, m: Message, viewer: int) {
    && (m.replyTo.GetOr(0) != 0 ==>
          (m.replyTo.value in b.parents <==> m.replyTo.value in t.db.messages)
          && (m.replyTo.value in b.parents ==>
                b.parents[m.replyTo.value] == PresignedRow(space, s, t.db, m.replyTo.value)))
    && (if m.id in b.reactions then b.reactions[m.id] else []) == GroupsOf(t.reactions, m.id, viewer)
    && (m.id in b.statuses && b.statuses[m.id].Some? ==>
          b.statuses[m.id] == DeliveryStatus(t.db, m.chatId, m.id, m.senderId, viewer))
  }

  method RespondFromBatch(
    space: char -> bool, s: Storage, t: Tables, b: PageBatch, row: Message, ghost original: Message, viewer: int)
    returns (response: MessageResponse)
    requires row == Presigned(space, s, original) && Covers(space, s, t, b, original, viewer)
    ensures response == MessageToResponse(space, s, t, original, Some(viewer))
  {
    PresigningIsInvisible(space, s, t, original, Some(viewer));
    if row.replyTo.GetOr(0) != 0 && row.replyTo.value in t.db.messages {
      PresigningIsInvisible(space, s, t, t.db.messages[row.replyTo.value], None);
    }
    var reactions := if row.id in b.reactions then b.reactions[row.id] else [];
    var known := if row.id in b.statuses then b.statuses[row.id] else None;
    response := MessageToResponseBatched(space, s, t, row, b.parents, viewer, reactions, known);
  }

  method AssemblePage(
    space: char -> bool, s: Storage, t: Tables, b: PageBatch, rows: seq<Message>, ghost originals: seq<Message>,
    viewer: int)
    returns (out: seq<MessageResponse>)
    requires |rows| == |originals|
    requires forall i :: 0 <= i < |rows| ==> rows[i] == Presigned(space, s, originals[i])
    requires forall i :: 0 <= i < |rows| ==> Covers(space, s, t, b, originals[i], viewer)
    ensures out == Responses(space, s, t, originals, viewer)
  {
    out := [];
    var n := 0;
    while n < |rows|
      invariant 0 <= n <= |rows|
      invariant out == Responses(space, s, t, originals[..n], viewer)
    {
      ResponsesSnoc(space, s, t, originals, n, viewer);
      var response := RespondFromBatch(space, s, t, b, rows[n], originals[n], viewer);
      out := out + [response];
      n := n + 1;
    }
    assert originals[..|originals|] == originals;
  }

  /** The batched queries of a page cover each of its rows. */
  method LoadBatch(space: char -> bool, s: Storage, t: Tables, chatId: int, rows: seq<Message>, viewer: int)
    returns (b: PageBatch)
    requires WellFormed(t.db)
    requires forall i :: 0 <= i < |rows| ==> rows[i].chatId == chatId
    requires forall i, j ::
      0 <= i < |rows| && 0 <= j < |rows| && rows[i].id == rows[j].id ==> rows[i].senderId == rows[j].senderId
    ensures forall i :: 0 <= i < |rows| ==> Covers(space, s, t, b, rows[i], viewer)
  {
    var parents := LoadParents(space, s, t.db, ReplyIds(rows));
    var ids := seq(|rows|, i requires 0 <= i < |rows| => rows[i].id);
    var reactions := ReactionGroupsForMessages(t.reactions, ids, viewer);
    var statuses := ComputeDeliveryStatuses(t.db, chatId, rows, viewer);
    b := PageBatch(parents, reactions, statuses);
    forall i | 0 <= i < |rows| ensures Covers(space, s, t, b, rows[i], viewer) {
      assert ids[i] in ids;
      if Emojis(t.reactions, rows[i].id) == {} {
        NoEmojisNoGroups(t.reactions, rows[i].id, viewer);
      }
      if rows[i].replyTo.GetOr(0) != 0 {
        assert rows[i].replyTo.value in ReplyIds(rows);
      }
    }
  }

  /** Everything after the rows are chosen: batched queries, URLs signed in place, one response each. */
  method RespondToRows(space: char -> bool, s: Storage, t: Tables, chatId: int, rows: seq<Message>, viewer: int)
    returns (messages: seq<MessageResponse>)
    requires WellFormed(t.db)
    requires forall i :: 0 <= i < |rows| ==> rows[i].chatId == chatId
    requires forall i, j ::
      0 <= i < |rows| && 0 <= j < |rows| && rows[i].id == rows[j].id ==> rows[i].senderId == rows[j].senderId
    ensures messages == Responses(space, s, t, rows, viewer)
  {
    var batch := LoadBatch(space, s, t, chatId, rows, viewer);
    var signed := new Message[|rows|](i requires 0 <= i < |rows| => rows[i]);
    ApplyPrivateMediaUrls(space, s, signed);
    messages := AssemblePage(space, s, t, batch, signed[..], rows, viewer);
  }

  /**
   A history page: exactly the rows that paging selects, and each item is the response that the
   message would get alone.
   */
  method ListChatMessages(
    space: char -> bool, s: Storage, t: Tables, chatId: int, viewer: int,
    before: Option<int>, after: Option<int>, limit: Option<int>)
    returns (page: Result<MessageListPage, QueryError>)
    requires WellFormed(t.db)
    ensures page.Err? <==> (chatId, viewer) !in t.db.members
    ensures page.Ok? ==>
      var p := PageOf(MessageIds(t.db, chatId), before, after, limit);
      && page.value.hasMore == p.hasMore
      && (forall i :: 0 <= i < |p.ids| ==> p.ids[i] in MessageIds(t.db, chatId))
      && page.value.messages == Responses(space, s, t, RowsOf(t.db, p.ids), viewer)
  {
    if (chatId, viewer) !in t.db.members {
      return Err(NotAMember);
    }
    var ids, hasMore := SelectRows(MessageIds(t.db, chatId), before, after, limit);
    PageHoldsTableRows(MessageIds(t.db, chatId), before, after, limit);
    var messages := RespondToRows(space, s, t, chatId, RowsOf(t.db, ids), viewer);
    page := Ok(MessageListPage(messages, hasMore));
  }

  /** Each item of the page is the response of its own row. */
  lemma {:induction false} ResponseAt(space: char -> bool, s: Storage, t: Tables, rows: seq<Message>, viewer: int,
                                      i: nat)
    requires i < |rows|
    ensures Responses(space, s, t, rows, viewer)[i] == MessageToResponse(space, s, t, rows[i], Some(viewer))
  {
    if i < |rows| - 1 {
      ResponseAt(space, s, t, rows[..|rows| - 1], viewer, i);
    }
  }
}
