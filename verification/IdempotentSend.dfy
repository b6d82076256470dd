/**
 Sending a text message with a client message id, with any number of retries in flight. A request
 looks for the message of its id, inserts, and after a unique violation rolls back and reads again.
 Other commands may insert messages in between; no message is hard-deleted.
 */
module IdempotentSend {
  import opened Common

  datatype Row = Row(chatId: int, senderId: int, clientId: Option<string>)

  datatype Failure = OtherChat | IntegrityError | Aborted

  datatype Phase =
    | Checking
    | Inserting
    | Conflicted               // rolled back after a unique violation
    | Stored(id: int)          // committed, the others not yet notified
    | Done(reply: int, raced: bool)
    | Failed(failure: Failure)

  datatype Request = Request(sender: int, chatId: int, clientId: Option<string>, phase: Phase)

  datatype State = State(rows: map<int, Row>, requests: map<int, Request>, nextId: int, notified: seq<int>)

  datatype Event =
    | Arrive(r: int, sender: int, chatId: int, rawId: Option<string>)
    | Check(r: int)
    | Insert(r: int)
    | Reread(r: int)
    | Notify(r: int)
    | Abort(r: int)
    | OtherInsert(row: Row)

  /** `payload.client_message_id.strip() if payload.client_message_id else None`. */
  function ClientId(space: char -> bool, raw: Option<string>): Option<string> {
    if raw.GetOr("") == "" then None else Some(Strip(space, raw.value))
  }

  /** An id that the command treats as one: present and not blank. */
  predicate IsKey(clientId: Option<string>) {
    clientId.GetOr("") != ""
  }

  /** A stored id is the raw one without white space at its ends; it is empty only for a blank raw id. */
  lemma BlankIds(space: char -> bool, raw: Option<string>)
    ensures ClientId(space, raw) == Some("") <==> raw.Some? && raw.value != "" && AllSpace(space, raw.value)
    ensures ClientId(space, raw) == None <==> raw.None? || raw.value == ""
    ensures ClientId(space, raw).Some? ==> TrimOf(space, raw.value, ClientId(space, raw).value)
  {
    if raw.Some? {
      StripCutsOnlySpace(space, raw.value);
    }
  }

  predicate RowOf(s: State, id: int, sender: int, clientId: Option<string>) {
    id in s.rows && s.rows[id].senderId == sender && s.rows[id].clientId == clientId
  }

  /** The unique constraint on (sender_id, client_message_id); NULLs are not compared. */
  ghost predicate Violates(s: State, sender: int, clientId: Option<string>) {
    clientId.Some? && exists id :: RowOf(s, id, sender, clientId)
  }

  function Move(s: State, r: int, p: Phase): State
    requires r in s.requests
  {
    s.(requests := s.requests[r := s.requests[r].(phase := p)])
  }

  predicate Finished(p: Phase) {
    p.Done? || p.Failed?
  }

  predicate Enabled(s: State, e: Event)
  {
    match e
    case Arrive(r, _, _, _) => r !in s.requests
    case Check(r) => r in s.requests && s.requests[r].phase.Checking?
    case Insert(r) => r in s.requests && s.requests[r].phase.Inserting?
    case Reread(r) => r in s.requests && s.requests[r].phase.Conflicted?
    case Notify(r) => r in s.requests && s.requests[r].phase.Stored?
    case Abort(r) => r in s.requests && !Finished(s.requests[r].phase)
    case OtherInsert(row) => true
  }

  /** `get_by_client_message_id`. */
  ghost function Lookup(s: State, sender: int, clientId: Option<string>): (found: Option<int>)
    ensures found.Some? ==> RowOf(s, found.value, sender, clientId)
    ensures found.None? ==> forall id :: !RowOf(s, id, sender, clientId)
  {
    var ids := set id | id in s.rows && RowOf(s, id, sender, clientId);
    assert forall id :: RowOf(s, id, sender, clientId) ==> id in ids;
    if ids == {} then None else Some(AnIdOf(ids))
  }

  ghost function AnIdOf<T>(s: set<T>): (x: T)
    requires s != {}
    ensures x in s
  {
    var x :| x in s;
    x
  }

  ghost function Checked(s: State, r: int): State
    requires r in s.requests
  {
    var q := s.requests[r];
    if !IsKey(q.clientId) then Move(s, r, Inserting) else
      match Lookup(s, q.sender, q.clientId)
      case None => Move(s, r, Inserting)
      case Some(id) => Move(s, r, if s.rows[id].chatId != q.chatId then Failed(OtherChat) else Done(id, false))
  }

  ghost function Inserted(s: State, r: int): State
    requires r in s.requests
  {
    var q := s.requests[r];
    if Violates(s, q.sender, q.clientId) then Move(s, r, Conflicted)
    else Move(s, r, Stored(s.nextId)).(
      rows := s.rows[s.nextId := Row(q.chatId, q.sender, q.clientId)], nextId := s.nextId + 1)
  }

  ghost function ReadAgain(s: State, r: int): State
    requires r in s.requests
  {
    var q := s.requests[r];
    if !IsKey(q.clientId) then Move(s, r, Failed(IntegrityError)) else
      match Lookup(s, q.sender, q.clientId)
      case None => Move(s, r, Failed(IntegrityError))
      case Some(id) => Move(s, r, Done(id, true))
  }

  ghost function Next(space: char -> bool, s: State, e: Event): State {
    if !Enabled(s, e) then s else
      match e
      case Arrive(r, sender, chatId, raw) =>
        s.(requests := s.requests[r := Request(sender, chatId, ClientId(space, raw), Checking)])
      case Check(r) => Checked(s, r)
      case Insert(r) => Inserted(s, r)
      case Reread(r) => ReadAgain(s, r)
      case Notify(r) =>
        var id := s.requests[r].phase.id;
        Move(s, r, Done(id, false)).(notified := s.notified + [id])
      case Abort(r) => Move(s, r, Failed(Aborted))
      case OtherInsert(row) =>
        if Violates(s, row.senderId, row.clientId) then s
        else s.(rows := s.rows[s.nextId := row], nextId := s.nextId + 1)
  }

  /** Any events in any order; one that is not enabled changes nothing. */
  ghost function After(space: char -> bool, first: State, events: seq<Event>): State {
    if events == [] then first
    else Next(space, After(space, first, events[..|events| - 1]), events[|events| - 1])
  }

  ghost predicate OneRowPerKey(s: State) {
    forall i, j :: i in s.rows && j in s.rows && SameKey(s.rows[i], s.rows[j]) ==> i == j
  }

  predicate SameKey(a: Row, b: Row) {
    a.clientId.Some? && a.clientId == b.clientId && a.senderId == b.senderId
  }

  ghost predicate Start(s: State) {
    && OneRowPerKey(s) && (forall i :: i in s.rows ==> i < s.nextId)
    && s.requests == map[] && s.notified == []
  }

  ghost predicate GoodRequest(s: State, q: Request) {
    match q.phase
    case Stored(id) => RowOf(s, id, q.sender, q.clientId) && s.rows[id].chatId == q.chatId && id !in s.notified
    case Done(id, raced) => RowOf(s, id, q.sender, q.clientId) && (!raced ==> s.rows[id].chatId == q.chatId)
    case Conflicted => Violates(s, q.sender, q.clientId)
    case Failed(f) => f.IntegrityError? ==> q.clientId == Some("")
    case _ => true
  }

  predicate Apart(q: Request, o: Request) {
    q.phase.Stored? && o.phase.Stored? ==> q.phase.id != o.phase.id
  }

  ghost predicate Invariant(s: State) {
    && OneRowPerKey(s)
    && (forall i :: i in s.rows ==> i < s.nextId)
    && (forall r :: r in s.requests ==> GoodRequest(s, s.requests[r]))
    && (forall r, o :: r in s.requests && o in s.requests && r != o ==> Apart(s.requests[r], s.requests[o]))
    && NoRepeats(s.notified)
    && (forall id :: id in s.notified ==> id in s.rows)
  }

  /** More rows keep a request good. */
  lemma MoreRowsKeepGood(s: State, t: State, q: Request)
    requires GoodRequest(s, q) && s.notified == t.notified
    requires forall i :: i in s.rows ==> i in t.rows && t.rows[i] == s.rows[i]
    ensures GoodRequest(t, q)
  {
    if q.phase.Conflicted? {
      var id :| RowOf(s, id, q.sender, q.clientId);
      assert RowOf(t, id, q.sender, q.clientId);
    }
  }

  lemma MoveKeeps(s: State, r: int, p: Phase)
    requires Invariant(s) && r in s.requests && !p.Stored?
    requires GoodRequest(s, s.requests[r].(phase := p))
    ensures Invariant(Move(s, r, p))
  {
    var t := Move(s, r, p);
    forall o | o in t.requests ensures GoodRequest(t, t.requests[o]) {
      MoreRowsKeepGood(s, t, t.requests[o]);
    }
  }

  lemma RowKeeps(s: State, row: Row)
    requires Invariant(s) && !Violates(s, row.senderId, row.clientId)
    ensures Invariant(s.(rows := s.rows[s.nextId := row], nextId := s.nextId + 1))
  {
    var t := s.(rows := s.rows[s.nextId := row], nextId := s.nextId + 1);
    forall i | i in s.rows ensures !SameKey(s.rows[i], row) && !SameKey(row, s.rows[i]) {
      assert !RowOf(s, i, row.senderId, row.clientId) || row.clientId.None?;
    }
    forall o | o in t.requests ensures GoodRequest(t, t.requests[o]) {
      MoreRowsKeepGood(s, t, t.requests[o]);
    }
  }

  lemma InsertKeeps(s: State, r: int)
    requires Invariant(s) && r in s.requests && s.requests[r].phase.Inserting?
    ensures Invariant(Inserted(s, r))
  {
    var q := s.requests[r];
    if Violates(s, q.sender, q.clientId) {
      MoveKeeps(s, r, Conflicted);
    } else {
      var row := Row(q.chatId, q.sender, q.clientId);
      RowKeeps(s, row);
      var t := s.(rows := s.rows[s.nextId := row], nextId := s.nextId + 1);
      var u := Inserted(s, r);
      forall o | o in u.requests && o != r
        ensures Apart(u.requests[r], u.requests[o]) && Apart(u.requests[o], u.requests[r]) {
        assert GoodRequest(s, s.requests[o]);
      }
      forall o | o in u.requests && o != r ensures GoodRequest(u, u.requests[o]) {
        MoreRowsKeepGood(t, u, u.requests[o]);
      }
    }
  }

  lemma NotifyKeeps(s: State, r: int)
    requires Invariant(s) && r in s.requests && s.requests[r].phase.Stored?
    ensures var id := s.requests[r].phase.id;
      Invariant(Move(s, r, Done(id, false)).(notified := s.notified + [id]))
  {
    var q := s.requests[r];
    var id := q.phase.id;
    var t := Move(s, r, Done(id, false)).(notified := s.notified + [id]);
    assert GoodRequest(s, q);
    forall o | o in t.requests && o != r ensures GoodRequest(t, t.requests[o]) {
      assert GoodRequest(s, s.requests[o]) && Apart(q, s.requests[o]);
      if s.requests[o].phase.Conflicted? {
        var i :| RowOf(s, i, s.requests[o].sender, s.requests[o].clientId);
        assert RowOf(t, i, s.requests[o].sender, s.requests[o].clientId);
      }
    }
  }

  lemma StepKeepsInvariant(space: char -> bool, s: State, e: Event)
    requires Invariant(s)
    ensures Invariant(Next(space, s, e))
  {
    if Enabled(s, e) {
      match e
      case Arrive(r, _, _, _) =>
        var t := Next(space, s, e);
        forall o | o in t.requests ensures GoodRequest(t, t.requests[o]) {
          if o != r {
            MoreRowsKeepGood(s, t, t.requests[o]);
          }
        }
      case Check(r) => CheckKeeps(s, r);
      case Insert(r) => InsertKeeps(s, r);
      case Reread(r) => RereadKeeps(s, r);
      case Notify(r) => NotifyKeeps(s, r);
      case Abort(r) => MoveKeeps(s, r, Failed(Aborted));
      case OtherInsert(row) =>
        if !Violates(s, row.senderId, row.clientId) {
          RowKeeps(s, row);
        }
    }
  }

  lemma CheckKeeps(s: State, r: int)
    requires Invariant(s) && r in s.requests && s.requests[r].phase.Checking?
    ensures Invariant(Checked(s, r))
  {
    MoveKeeps(s, r, Checked(s, r).requests[r].phase);
  }

  lemma RereadKeeps(s: State, r: int)
    requires Invariant(s) && r in s.requests && s.requests[r].phase.Conflicted?
    ensures Invariant(ReadAgain(s, r))
  {
    assert GoodRequest(s, s.requests[r]);
    MoveKeeps(s, r, ReadAgain(s, r).requests[r].phase);
  }

  lemma {:induction false} RunKeepsInvariant(space: char -> bool, first: State, events: seq<Event>)
    requires Start(first)
    ensures Invariant(After(space, first, events))
  {
    if events != [] {
      RunKeepsInvariant(space, first, events[..|events| - 1]);
      StepKeepsInvariant(space, After(space, first, events[..|events| - 1]), events[|events| - 1]);
    }
  }

  /** Two successful requests of one sender with the same client id. */
  predicate Retries(q: Request, o: Request) {
    q.phase.Done? && o.phase.Done? && IsKey(q.clientId) && q.clientId == o.clientId && q.sender == o.sender
  }

  /**
   However retries interleave: one row per sender and id is stored, every successful reply carries the
   id of a row with the request's sender and id, all retries reply alike, nobody is notified twice of a
   message, and only a blank id can make a send fail on the unique constraint.
   */
  lemma RetriesStoreOneMessage(space: char -> bool, first: State, events: seq<Event>)
    requires Start(first)
    ensures var s := After(space, first, events);
      && OneRowPerKey(s)
      && NoRepeats(s.notified)
      && (forall r :: r in s.requests && s.requests[r].phase.Done? ==>
            RowOf(s, s.requests[r].phase.reply, s.requests[r].sender, s.requests[r].clientId))
      && (forall r, o :: r in s.requests && o in s.requests && Retries(s.requests[r], s.requests[o]) ==>
            s.requests[r].phase.reply == s.requests[o].phase.reply)
      && (forall r :: r in s.requests && s.requests[r].phase == Failed(IntegrityError) ==>
            s.requests[r].clientId == Some(""))
      && (forall r :: r in s.requests && s.requests[r].phase.Done? && !s.requests[r].phase.raced ==>
            s.rows[s.requests[r].phase.reply].chatId == s.requests[r].chatId)
  {
    RunKeepsInvariant(space, first, events);
    var s := After(space, first, events);
    forall r | r in s.requests && s.requests[r].phase.Done?
      ensures RowOf(s, s.requests[r].phase.reply, s.requests[r].sender, s.requests[r].clientId)
    {
      assert GoodRequest(s, s.requests[r]);
    }
    forall r, o | r in s.requests && o in s.requests && Retries(s.requests[r], s.requests[o])
      ensures s.requests[r].phase.reply == s.requests[o].phase.reply
    {
      assert SameKey(s.rows[s.requests[r].phase.reply], s.rows[s.requests[o].phase.reply]);
    }
    forall r | r in s.requests && s.requests[r].phase == Failed(IntegrityError)
      ensures s.requests[r].clientId == Some("") {
      assert GoodRequest(s, s.requests[r]);
    }
  }

  /**
   Of an insert and the read after a violation: the send fails exactly when its id is blank but not
   empty and the sender already has a message with a blank id; it replies with an older row exactly
   when the id is in use.
   */
  lemma InsertFailsOnlyOnBlankId(s: State, r: int)
    requires Invariant(s) && r in s.requests && s.requests[r].phase.Inserting?
    ensures var q := s.requests[r];
      var t := Inserted(s, r);
      var u := if t.requests[r].phase.Conflicted? then ReadAgain(t, r) else t;
      && (u.requests[r].phase == Failed(IntegrityError)
          <==> q.clientId == Some("") && exists id :: RowOf(s, id, q.sender, Some("")))
      && (u.requests[r].phase.Done? <==> IsKey(q.clientId) && exists id :: RowOf(s, id, q.sender, q.clientId))
      && (u.requests[r].phase.Stored? <==> !Violates(s, q.sender, q.clientId))
  {
    var q := s.requests[r];
    var t := Inserted(s, r);
    if Violates(s, q.sender, q.clientId) {
      assert t.rows == s.rows;
      var id :| RowOf(s, id, q.sender, q.clientId);
      assert RowOf(t, id, q.sender, q.clientId);
    }
  }

  lemma AfterSnoc(space: char -> bool, first: State, events: seq<Event>, e: Event)
    ensures After(space, first, events + [e]) == Next(space, After(space, first, events), e)
  {
    assert (events + [e])[..|events|] == events;
  }

  // --- Which chat a reply is from ---

  /** The chats for which the sender uses the key: in rows of the start, in requests, in other inserts. */
  ghost predicate UsedIn(space: char -> bool, first: State, events: seq<Event>, sender: int, key: Option<string>,
                         chats: set<int>) {
    && (forall id :: RowOf(first, id, sender, key) ==> first.rows[id].chatId in chats)
    && forall i :: 0 <= i < |events| ==> EventUsedIn(space, events[i], sender, key, chats)
  }

  predicate EventUsedIn(space: char -> bool, e: Event, sender: int, key: Option<string>, chats: set<int>) {
    match e
    case Arrive(_, s, c, raw) => s == sender && ClientId(space, raw) == key ==> c in chats
    case OtherInsert(row) => row.senderId == sender && row.clientId == key ==> row.chatId in chats
    case _ => true
  }

  /** Every reply to a request of this sender and key is a message of the request's own chat. */
  ghost predicate RepliesFromOwnChat(s: State, sender: int, key: Option<string>) {
    forall r :: r in s.requests && s.requests[r].sender == sender && s.requests[r].clientId == key ==>
      FromOwnChat(s, s.requests[r])
  }

  predicate FromOwnChat(s: State, q: Request) {
    q.phase.Done? && q.phase.reply in s.rows ==> s.rows[q.phase.reply].chatId == q.chatId
  }

  /** Rows and requests of the key stay within the chats it is used in. */
  ghost predicate KeptIn(s: State, sender: int, key: Option<string>, chats: set<int>) {
    && (forall id :: RowOf(s, id, sender, key) ==> s.rows[id].chatId in chats)
    && forall r :: r in s.requests && s.requests[r].sender == sender && s.requests[r].clientId == key ==>
         s.requests[r].chatId in chats
  }

  lemma StepKeepsChats(space: char -> bool, s: State, e: Event, sender: int, key: Option<string>, chats: set<int>)
    requires KeptIn(s, sender, key, chats) && EventUsedIn(space, e, sender, key, chats)
    ensures KeptIn(Next(space, s, e), sender, key, chats)
  {
    var t := Next(space, s, e);
    forall id | RowOf(t, id, sender, key) ensures t.rows[id].chatId in chats {
      assert id in s.rows && t.rows[id] == s.rows[id] ==> RowOf(s, id, sender, key);
    }
  }

  lemma {:induction false} RunKeepsChats(space: char -> bool, first: State, events: seq<Event>, sender: int,
                                         key: Option<string>, chats: set<int>)
    requires Start(first) && UsedIn(space, first, events, sender, key, chats)
    ensures KeptIn(After(space, first, events), sender, key, chats)
  {
    if events != [] {
      var init := events[..|events| - 1];
      forall i | 0 <= i < |init| ensures EventUsedIn(space, init[i], sender, key, chats) {
        assert init[i] == events[i];
      }
      RunKeepsChats(space, first, init, sender, key, chats);
      StepKeepsChats(space, After(space, first, init), events[|events| - 1], sender, key, chats);
    }
  }

  /** While the key is used for one chat only, every reply is from the request's chat. */
  lemma OneChatRepliesAgree(space: char -> bool, first: State, events: seq<Event>, sender: int, key: Option<string>,
                            chats: set<int>)
    requires Start(first) && UsedIn(space, first, events, sender, key, chats)
    requires forall c, d :: c in chats && d in chats ==> c == d
    ensures RepliesFromOwnChat(After(space, first, events), sender, key)
  {
    RunKeepsChats(space, first, events, sender, key, chats);
    RunKeepsInvariant(space, first, events);
    var s := After(space, first, events);
    forall r | r in s.requests && s.requests[r].sender == sender && s.requests[r].clientId == key
            && s.requests[r].phase.Done?
      ensures RowOf(s, s.requests[r].phase.reply, sender, key)
    {
      assert GoodRequest(s, s.requests[r]);
    }
  }

  function Racing(sender: int, c: int, d: int, key: Option<string>, p: Phase, q: Phase): map<int, Request> {
    map[1 := Request(sender, c, key, p), 2 := Request(sender, d, key, q)]
  }

  /**
   The check before the insert compares chats, the read after a race does not: two sends of one sender
   with one key into any two chats can end with a reply from the other chat.
   */
  lemma RacedReplyMayNameAnotherChat(space: char -> bool, sender: int, raw: Option<string>, c: int, d: int)
    returns (first: State, events: seq<Event>)
    requires IsKey(ClientId(space, raw)) && c != d
    ensures Start(first) && UsedIn(space, first, events, sender, ClientId(space, raw), {c, d})
    ensures !RepliesFromOwnChat(After(space, first, events), sender, ClientId(space, raw))
  {
    first := State(map[], map[], 7, []);
    events := Arrivals(sender, c, d, raw) + [Check(1), Check(2)] + [Insert(2), Insert(1)] + [Reread(1)];
    RaceRuns(space, first, sender, c, d, raw);
    RaceUses(space, first, sender, c, d, raw);
  }

  function Arrivals(sender: int, c: int, d: int, raw: Option<string>): seq<Event> {
    [Arrive(1, sender, c, raw), Arrive(2, sender, d, raw)]
  }

  lemma RaceUses(space: char -> bool, first: State, sender: int, c: int, d: int, raw: Option<string>)
    requires first.rows == map[]
    ensures UsedIn(
      space, first, Arrivals(sender, c, d, raw) + [Check(1), Check(2)] + [Insert(2), Insert(1)] + [Reread(1)],
      sender, ClientId(space, raw), {c, d})
  {
  }

  lemma AfterTwo(space: char -> bool, first: State, events: seq<Event>, e: Event, f: Event)
    ensures After(space, first, events + [e, f]) == Next(space, Next(space, After(space, first, events), e), f)
  {
    assert events + [e, f] == events + [e] + [f];
    AfterSnoc(space, first, events, e);
    AfterSnoc(space, first, events + [e], f);
  }

  lemma RaceRuns(space: char -> bool, first: State, sender: int, c: int, d: int, raw: Option<string>)
    requires first == State(map[], map[], 7, []) && IsKey(ClientId(space, raw)) && c != d
    ensures !RepliesFromOwnChat(
      After(space, first, Arrivals(sender, c, d, raw) + [Check(1), Check(2)] + [Insert(2), Insert(1)] + [Reread(1)]),
      sender, ClientId(space, raw))
  {
    var key := ClientId(space, raw);
    var arrived := Arrivals(sender, c, d, raw);
    AfterTwo(space, first, [], Arrive(1, sender, c, raw), Arrive(2, sender, d, raw));
    assert [] + arrived == arrived;
    BothArrive(space, sender, c, d, raw);
    var checked := arrived + [Check(1), Check(2)];
    AfterTwo(space, first, arrived, Check(1), Check(2));
    BothFindNothing(space, sender, c, d, key);
    var inserted := checked + [Insert(2), Insert(1)];
    AfterTwo(space, first, checked, Insert(2), Insert(1));
    SecondWins(space, sender, c, d, key);
    AfterSnoc(space, first, inserted, Reread(1));
    FirstReadsAgain(space, sender, c, d, key);
  }

  lemma BothArrive(space: char -> bool, sender: int, c: int, d: int, raw: Option<string>)
    ensures Next(space, Next(space, State(map[], map[], 7, []), Arrive(1, sender, c, raw)), Arrive(2, sender, d, raw))
         == State(map[], Racing(sender, c, d, ClientId(space, raw), Checking, Checking), 7, [])
  {
  }

  lemma BothFindNothing(space: char -> bool, sender: int, c: int, d: int, key: Option<string>)
    ensures var s := State(map[], Racing(sender, c, d, key, Checking, Checking), 7, []);
      Next(space, Next(space, s, Check(1)), Check(2))
        == State(map[], Racing(sender, c, d, key, Inserting, Inserting), 7, [])
  {
    var s := Next(space, State(map[], Racing(sender, c, d, key, Checking, Checking), 7, []), Check(1));
    assert s == State(map[], Racing(sender, c, d, key, Inserting, Checking), 7, []);
  }

  lemma SecondWins(space: char -> bool, sender: int, c: int, d: int, key: Option<string>)
    requires key.Some?
    ensures var s := Next(space, State(map[], Racing(sender, c, d, key, Inserting, Inserting), 7, []), Insert(2));
      && s == State(map[7 := Row(d, sender, key)], Racing(sender, c, d, key, Inserting, Stored(7)), 8, [])
      && Next(space, s, Insert(1))
           == State(map[7 := Row(d, sender, key)], Racing(sender, c, d, key, Conflicted, Stored(7)), 8, [])
  {
    var s := State(map[7 := Row(d, sender, key)], Racing(sender, c, d, key, Inserting, Stored(7)), 8, []);
    assert RowOf(s, 7, sender, key);
  }

  lemma FirstReadsAgain(space: char -> bool, sender: int, c: int, d: int, key: Option<string>)
    requires IsKey(key) && c != d
    ensures var s := State(map[7 := Row(d, sender, key)], Racing(sender, c, d, key, Conflicted, Stored(7)), 8, []);
      !RepliesFromOwnChat(Next(space, s, Reread(1)), sender, key)
  {
    var s := State(map[7 := Row(d, sender, key)], Racing(sender, c, d, key, Conflicted, Stored(7)), 8, []);
    assert RowOf(s, 7, sender, key);
    var t := Next(space, s, Reread(1));
    assert t.requests[1] == Request(sender, c, key, Done(7, true)) && t.rows[7].chatId == d;
    assert !FromOwnChat(t, t.requests[1]);
  }

  /**
   For any sender and non-blank key: in all runs that use the key for the given chats every reply is from
   the request's own chat, if and only if the given chats are one.
   */
  lemma RepliesAgreeIffChatsDo(space: char -> bool, sender: int, raw: Option<string>, chats: set<int>)
    requires IsKey(ClientId(space, raw))
    ensures AllRepliesAgree(space, sender, ClientId(space, raw), chats)
      <==> forall c, d :: c in chats && d in chats ==> c == d
  {
    var key := ClientId(space, raw);
    if c, d :| c in chats && d in chats && c != d {
      var first, events := RacedReplyMayNameAnotherChat(space, sender, raw, c, d);
      UsedInMore(space, first, events, sender, key, {c, d}, chats);
    } else {
      forall first, events | Start(first) && UsedIn(space, first, events, sender, key, chats)
        ensures RepliesFromOwnChat(After(space, first, events), sender, key)
      {
        OneChatRepliesAgree(space, first, events, sender, key, chats);
      }
    }
  }

  ghost predicate AllRepliesAgree(space: char -> bool, sender: int, key: Option<string>, chats: set<int>) {
    forall first: State, events: seq<Event> ::
      Start(first) && UsedIn(space, first, events, sender, key, chats) ==>
        RepliesFromOwnChat(After(space, first, events), sender, key)
  }

  lemma UsedInMore(space: char -> bool, first: State, events: seq<Event>, sender: int, key: Option<string>,
                   few: set<int>, many: set<int>)
    requires UsedIn(space, first, events, sender, key, few) && few <= many
    ensures UsedIn(space, first, events, sender, key, many)
  {
    forall i | 0 <= i < |events| ensures EventUsedIn(space, events[i], sender, key, many) {
      assert EventUsedIn(space, events[i], sender, key, few);
    }
  }

  /** A second send with a blank id fails, whatever the chats: the first stores the empty id. */
  lemma SecondBlankIdFails(space: char -> bool, sender: int, raw: Option<string>, other: Option<string>, c: int, d: int)
    returns (first: State, events: seq<Event>)
    requires ClientId(space, raw) == Some("") && ClientId(space, other) == Some("")
    ensures Start(first)
    ensures var s := After(space, first, events);
      && 1 in s.requests && s.requests[1].phase == Done(7, false)
      && 2 in s.requests && s.requests[2].phase == Failed(IntegrityError)
  {
    first := State(map[], map[], 7, []);
    var a := [Arrive(1, sender, c, raw), Check(1)];
    AfterTwo(space, first, [], Arrive(1, sender, c, raw), Check(1));
    assert [] + a == a;
    AfterTwo(space, first, a, Insert(1), Notify(1));
    BlankArrives(space, sender, c, raw);
    BlankIsStored(space, sender, c);
    events := BlankIdFails(space, first, a + [Insert(1), Notify(1)], sender, other, d);
  }

  function OneRequest(sender: int, c: int, p: Phase): map<int, Request> {
    map[1 := Request(sender, c, Some(""), p)]
  }

  lemma BlankArrives(space: char -> bool, sender: int, c: int, raw: Option<string>)
    requires ClientId(space, raw) == Some("")
    ensures Next(space, Next(space, State(map[], map[], 7, []), Arrive(1, sender, c, raw)), Check(1))
         == State(map[], OneRequest(sender, c, Inserting), 7, [])
  {
    var s := Next(space, State(map[], map[], 7, []), Arrive(1, sender, c, raw));
    assert s == State(map[], OneRequest(sender, c, Checking), 7, []);
  }

  lemma BlankIsStored(space: char -> bool, sender: int, c: int)
    ensures Next(space, Next(space, State(map[], OneRequest(sender, c, Inserting), 7, []), Insert(1)), Notify(1))
         == State(map[7 := Row(c, sender, Some(""))], OneRequest(sender, c, Done(7, false)), 8, [7])
  {
    var s := Next(space, State(map[], OneRequest(sender, c, Inserting), 7, []), Insert(1));
    assert s == State(map[7 := Row(c, sender, Some(""))], OneRequest(sender, c, Stored(7)), 8, []);
  }

  lemma BlankIdFails(space: char -> bool, first: State, past: seq<Event>, sender: int, raw: Option<string>, d: int)
    returns (events: seq<Event>)
    requires ClientId(space, raw) == Some("")
    requires var s := After(space, first, past); 2 !in s.requests && RowOf(s, 7, sender, Some(""))
    ensures After(space, first, events) == WithSecond(After(space, first, past), sender, d, Failed(IntegrityError))
  {
    var s := After(space, first, past);
    var e5 := past + [Arrive(2, sender, d, raw)];
    AfterSnoc(space, first, past, Arrive(2, sender, d, raw));
    var e6 := e5 + [Check(2)];
    AfterSnoc(space, first, e5, Check(2));
    var e7 := e6 + [Insert(2)];
    AfterSnoc(space, first, e6, Insert(2));
    events := e7 + [Reread(2)];
    AfterSnoc(space, first, e7, Reread(2));
    BlankIdConflicts(space, s, sender, d);
  }

  /** `s` with a second request of the sender, with a blank id. */
  function WithSecond(s: State, sender: int, d: int, p: Phase): State {
    s.(requests := s.requests[2 := Request(sender, d, Some(""), p)])
  }

  lemma BlankIdConflicts(space: char -> bool, s: State, sender: int, d: int)
    requires RowOf(s, 7, sender, Some(""))
    ensures Next(space, WithSecond(s, sender, d, Checking), Check(2)) == WithSecond(s, sender, d, Inserting)
    ensures Next(space, WithSecond(s, sender, d, Inserting), Insert(2)) == WithSecond(s, sender, d, Conflicted)
    ensures Next(space, WithSecond(s, sender, d, Conflicted), Reread(2))
         == WithSecond(s, sender, d, Failed(IntegrityError))
  {
    var u := WithSecond(s, sender, d, Inserting);
    assert RowOf(u, 7, sender, Some(""));
    assert Move(u, 2, Conflicted) == WithSecond(s, sender, d, Conflicted);
    assert Move(WithSecond(s, sender, d, Checking), 2, Inserting) == u;
    assert Move(WithSecond(s, sender, d, Conflicted), 2, Failed(IntegrityError))
        == WithSecond(s, sender, d, Failed(IntegrityError));
  }
}
