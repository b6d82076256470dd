/** Why a send ends as it does, told by the events of the run; and that retries are answered. */
module SendEnds {
  import opened Common
  import opened IdempotentSend

  function Upto(events: seq<Event>, n: nat): seq<Event>
    requires n <= |events|
  {
    events[..n]
  }

  /** The state before the n-th event. */
  ghost function At(space: char -> bool, first: State, events: seq<Event>, n: nat): State
    requires n <= |events|
  {
    After(space, first, Upto(events, n))
  }

  /** The n-th event is `e`, and it has happened. */
  ghost predicate Took(space: char -> bool, first: State, events: seq<Event>, n: nat, e: Event) {
    n < |events| && events[n] == e && Enabled(At(space, first, events, n), e)
  }

  ghost predicate Happened(space: char -> bool, first: State, events: seq<Event>, e: Event) {
    exists n: nat :: Took(space, first, events, n, e)
  }

  lemma AtNext(space: char -> bool, first: State, events: seq<Event>, n: nat)
    requires n < |events|
    ensures At(space, first, events, n + 1) == Next(space, At(space, first, events, n), events[n])
  {
    AfterSnoc(space, first, events[..n], events[n]);
    assert events[..n + 1] == events[..n] + [events[n]];
  }

  lemma AtEnd(space: char -> bool, first: State, events: seq<Event>)
    ensures At(space, first, events, |events|) == After(space, first, events)
  {
    assert events[..|events|] == events;
  }

  predicate SameRequest(q: Request, o: Request) {
    q.sender == o.sender && q.chatId == o.chatId && q.clientId == o.clientId
  }

  /** Rows stay, requests keep what they ask for, and ended ones stay as they are. */
  ghost predicate Ages(s: State, t: State) {
    && (forall id :: id in s.rows ==> id in t.rows && t.rows[id] == s.rows[id])
    && (forall r :: r in s.requests ==> r in t.requests && SameRequest(t.requests[r], s.requests[r]))
    && (forall r :: r in s.requests && Finished(s.requests[r].phase) ==> t.requests[r].phase == s.requests[r].phase)
  }

  lemma StepAges(space: char -> bool, s: State, e: Event)
    requires forall id :: id in s.rows ==> id < s.nextId
    ensures Ages(s, Next(space, s, e))
  {
  }

  lemma AgesLonger(s: State, t: State, u: State)
    requires Ages(s, t) && Ages(t, u)
    ensures Ages(s, u)
  {
    forall r | r in s.requests ensures r in u.requests && SameRequest(u.requests[r], s.requests[r]) {
      assert SameRequest(t.requests[r], s.requests[r]);
    }
  }

  lemma {:induction false} RunAges(space: char -> bool, first: State, events: seq<Event>, n: nat, m: nat)
    requires Start(first) && n <= m <= |events|
    ensures Ages(At(space, first, events, n), At(space, first, events, m))
    decreases m
  {
    if n < m {
      RunAges(space, first, events, n, m - 1);
      AtNext(space, first, events, m - 1);
      RunKeepsInvariant(space, first, Upto(events, m - 1));
      StepAges(space, At(space, first, events, m - 1), events[m - 1]);
      AgesLonger(At(space, first, events, n), At(space, first, events, m - 1), At(space, first, events, m));
    }
  }

  // --- The reasons ---

  /** The n-th event was the check of `r`, and the sender's key was in use by row `id` then. */
  ghost predicate CheckFound(space: char -> bool, first: State, events: seq<Event>, n: nat, r: int, id: int, q: Request)
  {
    && Took(space, first, events, n, Check(r)) && IsKey(q.clientId)
    && RowOf(At(space, first, events, n), id, q.sender, q.clientId)
  }

  /** The check found the message in the request's own chat. */
  ghost predicate FoundAgain(space: char -> bool, first: State, events: seq<Event>, r: int, id: int, q: Request) {
    exists n: nat :: CheckFound(space, first, events, n, r, id, q)
                     && At(space, first, events, n).rows[id].chatId == q.chatId
  }

  /** The check found the message in another chat. */
  ghost predicate FoundElsewhere(space: char -> bool, first: State, events: seq<Event>, r: int, q: Request) {
    exists n: nat, id :: CheckFound(space, first, events, n, r, id, q)
                         && At(space, first, events, n).rows[id].chatId != q.chatId
  }

  /** The request stored the message itself and notified the others. */
  ghost predicate NotifiedOf(space: char -> bool, first: State, events: seq<Event>, r: int, id: int) {
    exists n: nat :: Took(space, first, events, n, Notify(r))
                     && At(space, first, events, n).requests[r].phase == Stored(id)
  }

  /** The request lost the race for its key and read the winner's row. */
  ghost predicate ReadWinner(space: char -> bool, first: State, events: seq<Event>, r: int, id: int, q: Request) {
    IsKey(q.clientId) && exists n: nat ::
      Took(space, first, events, n, Reread(r)) && RowOf(At(space, first, events, n), id, q.sender, q.clientId)
  }

  ghost predicate Explained(space: char -> bool, first: State, events: seq<Event>, r: int, q: Request) {
    match q.phase
    case Done(id, raced) =>
      if raced then ReadWinner(space, first, events, r, id, q)
      else FoundAgain(space, first, events, r, id, q) || NotifiedOf(space, first, events, r, id)
    case Failed(OtherChat) => FoundElsewhere(space, first, events, r, q)
    case Failed(IntegrityError) => Happened(space, first, events, Reread(r)) && !IsKey(q.clientId)
    case Failed(Aborted) => Happened(space, first, events, Abort(r))
    case _ => true
  }

  lemma StepExplains(space: char -> bool, first: State, events: seq<Event>, n: nat, r: int)
    requires n < |events| && Took(space, first, events, n, events[n]) && !events[n].OtherInsert? && events[n].r == r
    requires Invariant(At(space, first, events, n))
    ensures var t := At(space, first, events, n + 1);
      r in t.requests && Explained(space, first, events, r, t.requests[r])
  {
    AtNext(space, first, events, n);
    var s := At(space, first, events, n);
    match events[n]
    case Check(_) =>
      var q := s.requests[r];
      var found := Lookup(s, q.sender, q.clientId);
      if IsKey(q.clientId) && found.Some? {
        assert CheckFound(space, first, events, n, r, found.value, At(space, first, events, n + 1).requests[r]);
      }
    case Reread(_) =>
      assert Happened(space, first, events, Reread(r));
      assert GoodRequest(s, s.requests[r]);
    case Notify(_) => assert Took(space, first, events, n, Notify(r));
    case Abort(_) => assert Happened(space, first, events, Abort(r));
    case _ =>
  }

  lemma {:induction false} PhasesAreExplained(space: char -> bool, first: State, events: seq<Event>, n: nat, r: int)
    requires Start(first) && n <= |events| && r in At(space, first, events, n).requests
    ensures Explained(space, first, events, r, At(space, first, events, n).requests[r])
  {
    if n > 0 {
      var s, e := At(space, first, events, n - 1), events[n - 1];
      AtNext(space, first, events, n - 1);
      RunKeepsInvariant(space, first, Upto(events, n - 1));
      if Enabled(s, e) && !e.OtherInsert? && e.r == r {
        StepExplains(space, first, events, n - 1, r);
      } else {
        assert Next(space, s, e).requests[r] == s.requests[r];
        PhasesAreExplained(space, first, events, n - 1, r);
      }
    }
  }

  lemma LeadsTo(space: char -> bool, first: State, events: seq<Event>, n: nat, e: Event, r: int, p: Phase)
    requires Start(first) && Took(space, first, events, n, e) && Finished(p)
    requires var t := Next(space, At(space, first, events, n), e); r in t.requests && t.requests[r].phase == p
    ensures var t := After(space, first, events); r in t.requests && t.requests[r].phase == p
  {
    AtNext(space, first, events, n);
    RunAges(space, first, events, n + 1, |events|);
    AtEnd(space, first, events);
  }

  lemma KeyNamesOneRow(s: State, sender: int, key: Option<string>, id: int)
    requires OneRowPerKey(s) && IsKey(key) && RowOf(s, id, sender, key)
    ensures Lookup(s, sender, key) == Some(id)
  {
    var found := Lookup(s, sender, key);
    assert found.Some? ==> SameKey(s.rows[found.value], s.rows[id]);
  }

  /**
   A checked request whose key is in a row of its sender is answered with that row if the row is of its
   chat, and refused otherwise.
   */
  lemma CheckDecides(space: char -> bool, first: State, events: seq<Event>, n: nat, r: int, id: int, q: Request)
    requires Start(first) && r in After(space, first, events).requests && q == After(space, first, events).requests[r]
    requires CheckFound(space, first, events, n, r, id, q)
    ensures q.phase == if At(space, first, events, n).rows[id].chatId == q.chatId then Done(id, false)
                       else Failed(OtherChat)
  {
    var s := At(space, first, events, n);
    RunKeepsInvariant(space, first, Upto(events, n));
    RunAges(space, first, events, n, |events|);
    AtEnd(space, first, events);
    assert SameRequest(q, s.requests[r]);
    KeyNamesOneRow(s, q.sender, q.clientId, id);
    LeadsTo(space, first, events, n, Check(r), r,
            if s.rows[id].chatId == q.chatId then Done(id, false) else Failed(OtherChat));
  }

  lemma RereadDecides(space: char -> bool, first: State, events: seq<Event>, n: nat, r: int)
    requires Start(first) && r in After(space, first, events).requests && Took(space, first, events, n, Reread(r))
    ensures var q := After(space, first, events).requests[r];
      && (!IsKey(q.clientId) ==> q.phase == Failed(IntegrityError))
      && (IsKey(q.clientId) ==> forall id :: RowOf(At(space, first, events, n), id, q.sender, q.clientId) ==>
            q.phase == Done(id, true))
  {
    var s := At(space, first, events, n);
    var q := After(space, first, events).requests[r];
    RunKeepsInvariant(space, first, Upto(events, n));
    RunAges(space, first, events, n, |events|);
    AtEnd(space, first, events);
    assert SameRequest(q, s.requests[r]);
    if !IsKey(q.clientId) {
      LeadsTo(space, first, events, n, Reread(r), r, Failed(IntegrityError));
    } else {
      forall id | RowOf(s, id, q.sender, q.clientId) ensures q.phase == Done(id, true) {
        KeyNamesOneRow(s, q.sender, q.clientId, id);
        LeadsTo(space, first, events, n, Reread(r), r, Done(id, true));
      }
    }
  }

  lemma RepliesLead(space: char -> bool, first: State, events: seq<Event>, r: int, id: int)
    requires Start(first) && r in After(space, first, events).requests
    ensures var q := After(space, first, events).requests[r];
      && (FoundAgain(space, first, events, r, id, q) || NotifiedOf(space, first, events, r, id)
          ==> q.phase == Done(id, false))
      && (ReadWinner(space, first, events, r, id, q) ==> q.phase == Done(id, true))
  {
    var q := After(space, first, events).requests[r];
    if FoundAgain(space, first, events, r, id, q) {
      var n: nat :| CheckFound(space, first, events, n, r, id, q)
                    && At(space, first, events, n).rows[id].chatId == q.chatId;
      CheckDecides(space, first, events, n, r, id, q);
    }
    if n: nat :| Took(space, first, events, n, Notify(r)) && At(space, first, events, n).requests[r].phase == Stored(id)
    {
      LeadsTo(space, first, events, n, Notify(r), r, Done(id, false));
    }
    if ReadWinner(space, first, events, r, id, q) {
      var n: nat :| Took(space, first, events, n, Reread(r))
                    && RowOf(At(space, first, events, n), id, q.sender, q.clientId);
      RereadDecides(space, first, events, n, r);
    }
  }

  lemma FailuresLead(space: char -> bool, first: State, events: seq<Event>, r: int)
    requires Start(first) && r in After(space, first, events).requests
    ensures var q := After(space, first, events).requests[r];
      && (FoundElsewhere(space, first, events, r, q) ==> q.phase == Failed(OtherChat))
      && (Happened(space, first, events, Reread(r)) && !IsKey(q.clientId) ==> q.phase == Failed(IntegrityError))
      && (Happened(space, first, events, Abort(r)) ==> q.phase == Failed(Aborted))
  {
    var q := After(space, first, events).requests[r];
    if FoundElsewhere(space, first, events, r, q) {
      var n: nat, id :| CheckFound(space, first, events, n, r, id, q)
                        && At(space, first, events, n).rows[id].chatId != q.chatId;
      CheckDecides(space, first, events, n, r, id, q);
    }
    if n: nat :| Took(space, first, events, n, Reread(r)) {
      RereadDecides(space, first, events, n, r);
    }
    if n: nat :| Took(space, first, events, n, Abort(r)) {
      LeadsTo(space, first, events, n, Abort(r), r, Failed(Aborted));
    }
  }

  /**
   In every run, each end of a send has exactly its reason among the events: the check found the message in
   the same chat or another, the send stored and announced it, or lost the race and read the winner's row.
   */
  lemma EndsIff(space: char -> bool, first: State, events: seq<Event>, r: int)
    requires Start(first) && r in After(space, first, events).requests
    ensures var q := After(space, first, events).requests[r];
      && (forall id :: q.phase == Done(id, false)
            <==> FoundAgain(space, first, events, r, id, q) || NotifiedOf(space, first, events, r, id))
      && (forall id :: q.phase == Done(id, true) <==> ReadWinner(space, first, events, r, id, q))
      && (q.phase == Failed(OtherChat) <==> FoundElsewhere(space, first, events, r, q))
      && (q.phase == Failed(IntegrityError) <==> Happened(space, first, events, Reread(r)) && !IsKey(q.clientId))
      && (q.phase == Failed(Aborted) <==> Happened(space, first, events, Abort(r)))
  {
    AtEnd(space, first, events);
    PhasesAreExplained(space, first, events, |events|, r);
    FailuresLead(space, first, events, r);
    forall id {
      RepliesLead(space, first, events, r, id);
    }
  }

  // --- Retries ---

  /** While the sender uses the key for one chat only, no request with it is refused for another chat. */
  lemma OneChatIsNeverRefused(space: char -> bool, first: State, events: seq<Event>, sender: int, key: Option<string>,
                              chats: set<int>, r: int)
    requires Start(first) && UsedIn(space, first, events, sender, key, chats)
    requires forall c, d :: c in chats && d in chats ==> c == d
    requires var s := After(space, first, events);
      r in s.requests && s.requests[r].sender == sender && s.requests[r].clientId == key
    ensures After(space, first, events).requests[r].phase != Failed(OtherChat)
  {
    var q := After(space, first, events).requests[r];
    EndsIff(space, first, events, r);
    RunKeepsChats(space, first, events, sender, key, chats);
    AtEnd(space, first, events);
    if FoundElsewhere(space, first, events, r, q) {
      var n: nat, id :| CheckFound(space, first, events, n, r, id, q)
                        && At(space, first, events, n).rows[id].chatId != q.chatId;
      RunAges(space, first, events, n, |events|);
      assert RowOf(After(space, first, events), id, sender, key);
    }
  }

  lemma {:induction false} WaitsForCheck(space: char -> bool, first: State, events: seq<Event>, n: nat, m: nat, r: int)
    requires n < m <= |events| && r in At(space, first, events, n + 1).requests
    requires At(space, first, events, n + 1).requests[r].phase.Checking?
    requires !Happened(space, first, events, Check(r)) && !Happened(space, first, events, Abort(r))
    ensures var t := At(space, first, events, m); r in t.requests && t.requests[r].phase.Checking?
    decreases m
  {
    if n + 1 < m {
      WaitsForCheck(space, first, events, n, m - 1, r);
      AtNext(space, first, events, m - 1);
      StaysChecking(space, At(space, first, events, m - 1), events[m - 1], r);
      assert !Took(space, first, events, m - 1, Check(r)) && !Took(space, first, events, m - 1, Abort(r));
    }
  }

  lemma StaysChecking(space: char -> bool, s: State, e: Event, r: int)
    requires r in s.requests && s.requests[r].phase.Checking?
    ensures var t := Next(space, s, e);
      r in t.requests && (t.requests[r].phase.Checking? || (Enabled(s, e) && (e == Check(r) || e == Abort(r))))
  {
  }

  /** The reply to a retry whose message is stored as row `id` in chat `c`. */
  function ReplyTo(id: int, c: int, chatId: int): Phase {
    if c == chatId then Done(id, false) else Failed(OtherChat)
  }

  /** A retry that arrives when its message is stored, and is checked, replies that message. */
  lemma CheckedRetry(space: char -> bool, first: State, events: seq<Event>, n: nat, m: nat, r: int, sender: int,
                     chatId: int, raw: Option<string>, id: int)
    requires Start(first) && Took(space, first, events, n, Arrive(r, sender, chatId, raw))
    requires IsKey(ClientId(space, raw)) && RowOf(At(space, first, events, n), id, sender, ClientId(space, raw))
    requires Took(space, first, events, m, Check(r))
    ensures var t := After(space, first, events);
      r in t.requests && t.requests[r].phase == ReplyTo(id, At(space, first, events, n).rows[id].chatId, chatId)
  {
    AtNext(space, first, events, n);
    if m <= n {
      RunAges(space, first, events, m, n);
      assert false;
    }
    RunAges(space, first, events, n, m);
    RunAges(space, first, events, n + 1, m);
    RunAges(space, first, events, m, |events|);
    AtEnd(space, first, events);
    var q := After(space, first, events).requests[r];
    assert SameRequest(At(space, first, events, m).requests[r], At(space, first, events, n + 1).requests[r]);
    assert SameRequest(q, At(space, first, events, m).requests[r]);
    assert CheckFound(space, first, events, m, r, id, q);
    CheckDecides(space, first, events, m, r, id, q);
  }

  /**
   A retry that arrives when its message is stored and is carried through replies that message, unless the
   message is of another chat, which is refused; anything else needs an abort.
   */
  lemma RetryEndsIff(space: char -> bool, first: State, events: seq<Event>, n: nat, r: int, sender: int,
                     chatId: int, raw: Option<string>, id: int)
    requires Start(first) && Took(space, first, events, n, Arrive(r, sender, chatId, raw))
    requires IsKey(ClientId(space, raw)) && RowOf(At(space, first, events, n), id, sender, ClientId(space, raw))
    requires var t := After(space, first, events); r in t.requests && Finished(t.requests[r].phase)
    ensures After(space, first, events).requests[r].phase
         == ReplyTo(id, At(space, first, events, n).rows[id].chatId, chatId)
      <==> !Happened(space, first, events, Abort(r))
  {
    EndsIff(space, first, events, r);
    if !Happened(space, first, events, Abort(r)) {
      if m: nat :| Took(space, first, events, m, Check(r)) {
        CheckedRetry(space, first, events, n, m, r, sender, chatId, raw, id);
      } else {
        AtNext(space, first, events, n);
        AtEnd(space, first, events);
        WaitsForCheck(space, first, events, n, |events|, r);
      }
    }
  }

  /** So a retry into the same chat after a success, carried through, replies the same message. */
  lemma RetryAfterSuccess(space: char -> bool, first: State, events: seq<Event>, n: nat, o: int, r: int, sender: int,
                          chatId: int, raw: Option<string>, id: int)
    requires Start(first) && Took(space, first, events, n, Arrive(r, sender, chatId, raw))
    requires o in At(space, first, events, n).requests && IsKey(ClientId(space, raw))
    requires At(space, first, events, n).requests[o] == Request(sender, chatId, ClientId(space, raw), Done(id, false))
    requires var t := After(space, first, events); r in t.requests && Finished(t.requests[r].phase)
    requires !Happened(space, first, events, Abort(r))
    ensures After(space, first, events).requests[r].phase == Done(id, false)
  {
    var s := At(space, first, events, n);
    RunKeepsInvariant(space, first, Upto(events, n));
    assert GoodRequest(s, s.requests[o]);
    RetryEndsIff(space, first, events, n, r, sender, chatId, raw, id);
  }

  // --- Notifications ---

  /** The others are notified of exactly the messages whose sends came that far. */
  lemma {:induction false} NotifiedIff(space: char -> bool, first: State, events: seq<Event>, n: nat, id: int)
    requires Start(first) && n <= |events|
    ensures id in At(space, first, events, n).notified
      <==> exists m: nat, r :: m < n && Took(space, first, events, m, Notify(r))
                               && At(space, first, events, m).requests[r].phase == Stored(id)
  {
    if n > 0 {
      NotifiedIff(space, first, events, n - 1, id);
      AtNext(space, first, events, n - 1);
      var s, e := At(space, first, events, n - 1), events[n - 1];
      if e.Notify? && Enabled(s, e) && s.requests[e.r].phase == Stored(id) {
        assert Took(space, first, events, n - 1, Notify(e.r));
      }
    }
  }
}
