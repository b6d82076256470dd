/**
 Creating private chats, with any number of requests in flight. A request looks for the chat of its
 pair, takes the advisory lock of the pair (on PostgreSQL), looks again, checks the users, inserts the
 chat and commits. Every step of a request may be interleaved with steps of others; a request may fail
 at any point, which rolls its transaction back and releases its lock.
 */
module PrivateChats {
  import opened Common
  import opened Orders
  import opened PairKeys

  datatype Chat = Chat(isPrivate: bool, key: Option<string>, members: set<int>)

  datatype Failure = BadRequest | UsersNotFound | UniqueViolation | CommitRejected | Aborted

  datatype Phase =
    | Looking          // before the first lookup
    | Waiting          // for the advisory lock
    | LookingAgain     // has the lock, before the second lookup
    | CheckingUsers
    | Inserting        // before the flush
    | Flushed(id: int) // inserted, not committed: visible to nobody else
    | Recovering       // rolled back after a failed commit
    | Done(chatId: int)
    | Failed(failure: Failure)

  datatype Request = Request(user: int, other: int, phase: Phase)

  datatype State = State(chats: map<int, Chat>, users: set<int>, requests: map<int, Request>, nextId: int)

  /** The database dialect and the digest behind the lock keys. */
  datatype Server = Server(postgres: bool, digest: string -> int)

  /** One step of one request; lookups carry the row that the query happened to return. */
  datatype Event =
    | Arrive(r: int, user: int, memberIds: set<int>)
    | Look(r: int, found: Option<int>)
    | Acquire(r: int)
    | CheckUsers(r: int)
    | Flush(r: int)
    | Commit(r: int)
    | CommitFails(r: int)
    | Abort(r: int)

  predicate Finished(p: Phase) {
    p.Done? || p.Failed?
  }

  /** The transaction holds the lock from its acquisition to its commit or rollback. */
  predicate Holding(p: Phase) {
    p.LookingAgain? || p.CheckingUsers? || p.Inserting? || p.Flushed?
  }

  /** The second lookup has found nothing. */
  predicate PastLookups(p: Phase) {
    p.CheckingUsers? || p.Inserting? || p.Flushed?
  }

  function Pair(q: Request): set<int> {
    {q.user, q.other}
  }

  function Key(q: Request): string {
    PrivatePairKey(q.user, q.other)
  }

  function LockKey(sv: Server, q: Request): int {
    PrivateChatLockKey(sv.digest, q.user, q.other)
  }

  predicate HasKey(s: State, id: int, key: string) {
    id in s.chats && s.chats[id].key == Some(key)
  }

  predicate IsPrivateBetween(s: State, id: int, pair: set<int>) {
    id in s.chats && s.chats[id].isPrivate && s.chats[id].members == pair
  }

  /** What the lookup may return: a chat with the key of the pair, else a private chat of just the pair. */
  ghost predicate Finds(s: State, q: Request, found: Option<int>) {
    match found
    case Some(id) => HasKey(s, id, Key(q))
                     || ((forall i :: !HasKey(s, i, Key(q))) && IsPrivateBetween(s, id, Pair(q)))
    case None => forall i :: !HasKey(s, i, Key(q)) && !IsPrivateBetween(s, i, Pair(q))
  }

  function Move(s: State, r: int, p: Phase): State
    requires r in s.requests
  {
    s.(requests := s.requests[r := s.requests[r].(phase := p)])
  }

  ghost predicate Enabled(sv: Server, s: State, e: Event) {
    (e.Arrive? || e.r in s.requests) &&
    match e
    case Arrive(r, _, _) => r !in s.requests
    case Look(r, found) =>
      var p := s.requests[r].phase;
      (p.Looking? || p.LookingAgain? || p.Recovering?) && Finds(s, s.requests[r], found)
    case Acquire(r) =>
      && s.requests[r].phase.Waiting?
      && (sv.postgres ==> forall o :: o in s.requests && Holding(s.requests[o].phase) ==>
            LockKey(sv, s.requests[o]) != LockKey(sv, s.requests[r]))
    case CheckUsers(r) => s.requests[r].phase.CheckingUsers?
    case Flush(r) => // an insert waits for the end of a transaction that has inserted the same key
      && s.requests[r].phase.Inserting?
      && forall o :: o in s.requests && s.requests[o].phase.Flushed? ==> Key(s.requests[o]) != Key(s.requests[r])
    case Commit(r) => s.requests[r].phase.Flushed?
    case CommitFails(r) => s.requests[r].phase.Flushed?
    case Abort(r) => !Finished(s.requests[r].phase)
  }

  ghost function Apply(sv: Server, s: State, e: Event): State
    requires Enabled(sv, s, e)
  {
    match e
    case Arrive(r, user, memberIds) =>
      var others := memberIds - {user};
      if |others| == 1 then
        assert others != {};
        s.(requests := s.requests[r := Request(user, Smallest(others), Looking)])
      else
        s.(requests := s.requests[r := Request(user, user, Failed(BadRequest))])
    case Look(r, found) =>
      if found.Some? then Move(s, r, Done(found.value))
      else if s.requests[r].phase.Looking? then Move(s, r, Waiting)
      else if s.requests[r].phase.LookingAgain? then Move(s, r, CheckingUsers)
      else Move(s, r, Failed(CommitRejected))
    case Acquire(r) => Move(s, r, LookingAgain)
    case CheckUsers(r) =>
      Move(s, r, if Pair(s.requests[r]) <= s.users then Inserting else Failed(UsersNotFound))
    case Flush(r) =>
      if exists i :: HasKey(s, i, Key(s.requests[r])) then Move(s, r, Failed(UniqueViolation))
      else Move(s, r, Flushed(s.nextId)).(nextId := s.nextId + 1)
    case Commit(r) =>
      var q := s.requests[r];
      Move(s, r, Done(q.phase.id)).(chats := s.chats[q.phase.id := Chat(true, Some(Key(q)), Pair(q))])
    case CommitFails(r) => Move(s, r, Recovering)
    case Abort(r) => Move(s, r, Failed(Aborted))
  }

  /** The rows for a pair: the one with its key, and private chats of just the two. */
  predicate ChatFor(s: State, id: int, a: int, b: int) {
    HasKey(s, id, PrivatePairKey(a, b)) || IsPrivateBetween(s, id, {a, b})
  }

  ghost predicate GoodChats(s: State) {
    && (forall i :: i in s.chats ==> i < s.nextId && GoodChat(s.chats[i]) && FitsUsers(s.chats[i], s.users))
    && OnePerPair(s)
  }

  /** A private chat has the two members of a pair, or none after an account deletion, and that pair's key if any. */
  ghost predicate GoodChat(c: Chat) {
    && (c.isPrivate ==> exists a, b :: PairChat(c, a, b))
    && (!c.isPrivate ==> c.key == None)
  }

  ghost predicate PairChat(c: Chat, a: int, b: int) {
    && a != b && (c.members == {a, b} || c.members == {})
    && (c.key.Some? ==> c.key.value == PrivatePairKey(a, b))
  }

  /** Members exist, and a chat keeps its members while both users of its key exist. */
  ghost predicate FitsUsers(c: Chat, users: set<int>) {
    && (c.isPrivate ==> c.members <= users)
    && forall a, b :: c.key == Some(PrivatePairKey(a, b)) && {a, b} <= users ==> c.members == {a, b}
  }

  ghost predicate OnePerPair(s: State) {
    forall a, b, i, j :: ChatFor(s, i, a, b) && ChatFor(s, j, a, b) ==> i == j
  }

  /** Before any request: any good chats, with or without keys, with or without members. */
  ghost predicate Start(s: State) {
    GoodChats(s) && s.requests == map[]
  }

  /** One event; one that is not enabled changes nothing. */
  ghost function Next(sv: Server, s: State, e: Event): State {
    if Enabled(sv, s, e) then Apply(sv, s, e) else s
  }

  /** A run of the server: any events in any order. */
  ghost function After(sv: Server, first: State, events: seq<Event>): State {
    if events == [] then first
    else Next(sv, After(sv, first, events[..|events| - 1]), events[|events| - 1])
  }

  ghost predicate GoodRequest(s: State, q: Request) {
    && (!q.phase.Failed? ==> q.user != q.other)
    && (q.phase.Done? ==> ChatFor(s, q.phase.chatId, q.user, q.other))
    && (q.phase.Inserting? || q.phase.Flushed? ==> Pair(q) <= s.users)
    && (q.phase.Flushed? ==> q.phase.id < s.nextId && q.phase.id !in s.chats)
    && (q.phase.Flushed? ==> forall i :: !HasKey(s, i, Key(q)))
    && (PastLookups(q.phase) ==> forall i :: IsPrivateBetween(s, i, Pair(q)) ==> s.chats[i].key.Some?)
  }

  /** Uncommitted inserts have different keys and ids. */
  predicate Apart(q: Request, o: Request) {
    q.phase.Flushed? && o.phase.Flushed? ==> Key(q) != Key(o) && q.phase.id != o.phase.id
  }

  predicate Excludes(sv: Server, q: Request, o: Request) {
    Holding(q.phase) && Holding(o.phase) ==> LockKey(sv, q) != LockKey(sv, o)
  }

  ghost predicate FlushedApart(s: State) {
    forall r, o :: r in s.requests && o in s.requests && r != o ==> Apart(s.requests[r], s.requests[o])
  }

  ghost predicate Exclusive(sv: Server, s: State) {
    forall r, o :: r in s.requests && o in s.requests && r != o ==> Excludes(sv, s.requests[r], s.requests[o])
  }

  /** Past the second lookup no chat of the pair exists, as long as the lock is held. */
  ghost predicate StillNone(s: State, q: Request) {
    PastLookups(q.phase) ==> forall i :: !HasKey(s, i, Key(q)) && !IsPrivateBetween(s, i, Pair(q))
  }

  predicate NoViolation(q: Request) {
    q.phase != Failed(UniqueViolation)
  }

  ghost predicate Invariant(sv: Server, s: State) {
    && GoodChats(s)
    && (forall r :: r in s.requests ==> GoodRequest(s, s.requests[r]))
    && FlushedApart(s)
    && (sv.postgres ==> Locked(sv, s))
  }

  /** What the advisory lock adds. */
  ghost predicate Locked(sv: Server, s: State) {
    && Exclusive(sv, s)
    && forall r :: r in s.requests ==> StillNone(s, s.requests[r]) && NoViolation(s.requests[r])
  }

  /** One request may be added or changed if it is good by itself and gets along with the others. */
  lemma ChangeKeepsInvariant(sv: Server, s: State, t: State, r: int, q: Request)
    requires Invariant(sv, s)
    requires t.chats == s.chats && t.users == s.users && t.nextId >= s.nextId && t.requests == s.requests[r := q]
    requires GoodRequest(t, q)
    requires forall o :: o in s.requests && o != r ==> Apart(q, s.requests[o])
    requires sv.postgres ==> StillNone(t, q) && NoViolation(q)
    requires sv.postgres ==> forall o :: o in s.requests && o != r ==> Excludes(sv, q, s.requests[o])
    ensures Invariant(sv, t)
  {
    SameChatsGood(s, t);
    forall o | o in t.requests && o != r ensures GoodRequest(t, t.requests[o]) {
      SameChatsSameRequest(s, t, t.requests[o]);
    }
    forall o | o in t.requests && o != r ensures Apart(t.requests[o], q) {
      assert Apart(q, s.requests[o]);
    }
    if sv.postgres {
      forall o | o in t.requests && o != r
        ensures StillNone(t, t.requests[o]) && NoViolation(t.requests[o]) && Excludes(sv, t.requests[o], q)
      {
        SameChatsSameRequest(s, t, t.requests[o]);
        assert Excludes(sv, q, s.requests[o]);
      }
    }
  }

  lemma MoveKeepsInvariant(sv: Server, s: State, r: int, p: Phase)
    requires Invariant(sv, s) && r in s.requests && !p.Flushed?
    requires var q := s.requests[r].(phase := p);
      && GoodRequest(s, q)
      && (sv.postgres ==> StillNone(s, q) && NoViolation(q))
      && (sv.postgres ==> forall o :: o in s.requests && o != r ==> Excludes(sv, q, s.requests[o]))
    ensures Invariant(sv, Move(s, r, p))
  {
    var q := s.requests[r].(phase := p);
    var t := Move(s, r, p);
    SameChatsSameRequest(s, t, q);
    ChangeKeepsInvariant(sv, s, t, r, q);
  }

  /** Moving on while keeping the lock, or to a phase without one, excludes whom it excluded before. */
  lemma StillExcludes(sv: Server, s: State, r: int, p: Phase)
    requires sv.postgres ==> Exclusive(sv, s)
    requires r in s.requests && (Holding(p) ==> Holding(s.requests[r].phase))
    ensures sv.postgres ==> forall o ::
      o in s.requests && o != r ==> Excludes(sv, s.requests[r].(phase := p), s.requests[o])
  {
    if sv.postgres {
      forall o | o in s.requests && o != r ensures Excludes(sv, s.requests[r].(phase := p), s.requests[o]) {
        assert Excludes(sv, s.requests[r], s.requests[o]);
      }
    }
  }

  lemma SameChatsSameRequest(s: State, t: State, q: Request)
    requires t.chats == s.chats && t.users == s.users && t.nextId >= s.nextId
    ensures GoodRequest(s, q) ==> GoodRequest(t, q)
    ensures StillNone(s, q) ==> StillNone(t, q)
  {
    assert forall i, k :: HasKey(t, i, k) <==> HasKey(s, i, k);
    assert forall i, m :: IsPrivateBetween(t, i, m) <==> IsPrivateBetween(s, i, m);
  }

  lemma SameChatsGood(s: State, t: State)
    requires GoodChats(s) && t.chats == s.chats && t.users == s.users && t.nextId >= s.nextId
    ensures GoodChats(t)
  {
    assert forall i, a, b :: ChatFor(t, i, a, b) ==> ChatFor(s, i, a, b);
  }

  /** The chat of a pair has just the pair as members if and only if both users exist. */
  lemma RosterIffUsersExist(s: State, i: int, q: Request)
    requires GoodChats(s) && ChatFor(s, i, q.user, q.other)
    ensures IsPrivateBetween(s, i, Pair(q)) <==> Pair(q) <= s.users
  {
    var c := s.chats[i];
    assert FitsUsers(c, s.users);
    assert c.isPrivate;
  }

  lemma ArriveKeeps(sv: Server, s: State, e: Event)
    requires Invariant(sv, s) && e.Arrive? && Enabled(sv, s, e)
    ensures Invariant(sv, Apply(sv, s, e))
  {
    var t := Apply(sv, s, e);
    ChangeKeepsInvariant(sv, s, t, e.r, t.requests[e.r]);
  }

  lemma LookKeeps(sv: Server, s: State, e: Event)
    requires Invariant(sv, s) && e.Look? && Enabled(sv, s, e)
    ensures Invariant(sv, Apply(sv, s, e))
  {
    var q := s.requests[e.r];
    var p := if e.found.Some? then Done(e.found.value)
             else if q.phase.Looking? then Waiting
             else if q.phase.LookingAgain? then CheckingUsers
             else Failed(CommitRejected);
    var moved := q.(phase := p);
    assert Pair(moved) == Pair(q) && Key(moved) == Key(q);
    StillExcludes(sv, s, e.r, p);
    MoveKeepsInvariant(sv, s, e.r, p);
  }

  lemma AcquireKeeps(sv: Server, s: State, r: int)
    requires Invariant(sv, s) && Enabled(sv, s, Acquire(r))
    ensures Invariant(sv, Apply(sv, s, Acquire(r)))
  {
    var q := s.requests[r].(phase := LookingAgain);
    if sv.postgres {
      forall o | o in s.requests && o != r ensures Excludes(sv, q, s.requests[o]) {
        assert LockKey(sv, q) == LockKey(sv, s.requests[r]);
      }
    }
    MoveKeepsInvariant(sv, s, r, LookingAgain);
  }

  lemma CheckUsersKeeps(sv: Server, s: State, r: int)
    requires Invariant(sv, s) && Enabled(sv, s, CheckUsers(r))
    ensures Invariant(sv, Apply(sv, s, CheckUsers(r)))
  {
    var p := if Pair(s.requests[r]) <= s.users then Inserting else Failed(UsersNotFound);
    var moved := s.requests[r].(phase := p);
    assert Pair(moved) == Pair(s.requests[r]) && Key(moved) == Key(s.requests[r]);
    StillExcludes(sv, s, r, p);
    MoveKeepsInvariant(sv, s, r, p);
  }

  lemma RollbackKeeps(sv: Server, s: State, r: int, p: Phase)
    requires Invariant(sv, s) && r in s.requests && !Finished(s.requests[r].phase)
    requires p == Recovering || p == Failed(Aborted)
    ensures Invariant(sv, Move(s, r, p))
  {
    StillExcludes(sv, s, r, p);
    MoveKeepsInvariant(sv, s, r, p);
  }

  /** Under the lock the insert never meets a row with its key. */
  lemma FlushKeeps(sv: Server, s: State, r: int)
    requires Invariant(sv, s) && Enabled(sv, s, Flush(r))
    ensures Invariant(sv, Apply(sv, s, Flush(r)))
    ensures sv.postgres ==> Apply(sv, s, Flush(r)).requests[r].phase.Flushed?
  {
    var q := s.requests[r];
    var t := Apply(sv, s, Flush(r));
    var moved := t.requests[r];
    assert Pair(moved) == Pair(q) && Key(moved) == Key(q);
    assert sv.postgres ==> StillNone(s, q);
    if exists i :: HasKey(s, i, Key(q)) {
      StillExcludes(sv, s, r, Failed(UniqueViolation));
      MoveKeepsInvariant(sv, s, r, Failed(UniqueViolation));
    } else {
      StillExcludes(sv, s, r, Flushed(s.nextId));
      assert forall i, k :: HasKey(t, i, k) <==> HasKey(s, i, k);
      assert forall i, m :: IsPrivateBetween(t, i, m) <==> IsPrivateBetween(s, i, m);
      ChangeKeepsInvariant(sv, s, t, r, moved);
    }
  }

  function Committed(s: State, q: Request): map<int, Chat>
    requires q.phase.Flushed?
  {
    s.chats[q.phase.id := Chat(true, Some(Key(q)), Pair(q))]
  }

  lemma CommitKeepsChats(s: State, q: Request)
    requires GoodChats(s) && GoodRequest(s, q) && q.phase.Flushed?
    ensures GoodChats(s.(chats := Committed(s, q)))
  {
    var t := s.(chats := Committed(s, q));
    var id := q.phase.id;
    assert PairChat(t.chats[id], q.user, q.other);
    forall a, b | Key(q) == PrivatePairKey(a, b) ensures {a, b} == Pair(q) {
      KeyIdentifiesPair(a, b, q.user, q.other);
    }
    forall a, b, i, j | ChatFor(t, i, a, b) && ChatFor(t, j, a, b) ensures i == j {
      NewChatOnly(s, t, q, a, b, i);
      NewChatOnly(s, t, q, a, b, j);
      assert i != id && j != id ==> ChatFor(s, i, a, b) && ChatFor(s, j, a, b);
    }
  }

  /** The new chat is the chat of its own pair alone, and that pair had none. */
  lemma NewChatOnly(s: State, t: State, q: Request, a: int, b: int, i: int)
    requires GoodChats(s) && GoodRequest(s, q) && q.phase.Flushed? && t.chats == Committed(s, q)
    requires ChatFor(t, i, a, b)
    ensures i == q.phase.id <==> {a, b} == Pair(q)
    ensures i != q.phase.id ==> ChatFor(s, i, a, b)
  {
    KeyIdentifiesPair(a, b, q.user, q.other);
    if i != q.phase.id && {a, b} == Pair(q) {
      if IsPrivateBetween(s, i, Pair(q)) && s.chats[i].key.Some? {
        PairHasKey(s, i, q);
      }
      assert false;
    }
  }

  /** The lock keeps everyone else of the pair before the second lookup when the chat appears. */
  lemma CommitKeepsNone(sv: Server, s: State, t: State, q: Request, o: Request)
    requires q.phase.Flushed? && StillNone(s, o) && Excludes(sv, q, o)
    requires t.chats == Committed(s, q)
    ensures StillNone(t, o)
  {
    if PastLookups(o.phase) {
      KeyIdentifiesPair(q.user, q.other, o.user, o.other);
      assert Key(q) != Key(o);
      assert Pair(q) != Pair(o);
      forall i ensures HasKey(t, i, Key(o)) ==> HasKey(s, i, Key(o)) {
      }
      forall i ensures IsPrivateBetween(t, i, Pair(o)) ==> IsPrivateBetween(s, i, Pair(o)) {
      }
    }
  }

  /** The new chat disturbs no request; the committing one is done afterwards. */
  lemma CommitKeepsRequests(sv: Server, s: State, r: int, t: State)
    requires Invariant(sv, s) && r in s.requests && s.requests[r].phase.Flushed?
    requires t == s.(chats := Committed(s, s.requests[r]))
    ensures forall o :: o in s.requests && o != r ==> GoodRequest(t, s.requests[o])
    ensures sv.postgres ==> forall o :: o in s.requests && o != r ==> StillNone(t, s.requests[o])
  {
    var q := s.requests[r];
    forall o | o in s.requests && o != r ensures GoodRequest(t, s.requests[o]) {
      CommitLeavesOthers(s, t, q, s.requests[o]);
    }
    if sv.postgres {
      forall o | o in s.requests && o != r ensures StillNone(t, s.requests[o]) {
        CommitKeepsNone(sv, s, t, q, s.requests[o]);
      }
    }
  }

  lemma CommitKeeps(sv: Server, s: State, r: int)
    requires Invariant(sv, s) && Enabled(sv, s, Commit(r))
    ensures Invariant(sv, Apply(sv, s, Commit(r)))
  {
    var q := s.requests[r];
    var t := s.(chats := Committed(s, q));
    var u := Apply(sv, s, Commit(r));
    CommitKeepsChats(s, q);
    SameChatsGood(t, u);
    CommitKeepsRequests(sv, s, r, t);
    forall o | o in s.requests && o != r
      ensures GoodRequest(u, s.requests[o]) && (sv.postgres ==> StillNone(u, s.requests[o]))
    {
      SameChatsSameRequest(t, u, s.requests[o]);
    }
    assert GoodRequest(u, u.requests[r]);
  }

  lemma PairHasKey(s: State, i: int, q: Request)
    requires GoodChats(s) && IsPrivateBetween(s, i, Pair(q)) && s.chats[i].key.Some?
    ensures HasKey(s, i, Key(q))
  {
    var a, b :| PairChat(s.chats[i], a, b);
    KeyIdentifiesPair(a, b, q.user, q.other);
  }

  lemma CommitLeavesOthers(s: State, t: State, q: Request, o: Request)
    requires q.phase.Flushed? && q.phase.id !in s.chats && GoodRequest(s, o) && Apart(q, o)
    requires t.chats == Committed(s, q) && t.users == s.users && t.nextId == s.nextId
    ensures GoodRequest(t, o)
  {
    forall i ensures HasKey(t, i, Key(o)) ==> HasKey(s, i, Key(o)) || (i == q.phase.id && Key(q) == Key(o)) {
    }
  }

  lemma StepKeepsInvariant(sv: Server, s: State, e: Event)
    requires Invariant(sv, s)
    ensures Invariant(sv, Next(sv, s, e))
  {
    if Enabled(sv, s, e) {
      match e
      case Arrive(_, _, _) => ArriveKeeps(sv, s, e);
      case Look(_, _) => LookKeeps(sv, s, e);
      case Acquire(r) => AcquireKeeps(sv, s, r);
      case CheckUsers(r) => CheckUsersKeeps(sv, s, r);
      case Flush(r) => FlushKeeps(sv, s, r);
      case Commit(r) => CommitKeeps(sv, s, r);
      case CommitFails(r) => RollbackKeeps(sv, s, r, Recovering);
      case Abort(r) => RollbackKeeps(sv, s, r, Failed(Aborted));
    }
  }

  lemma {:induction false} RunKeepsInvariant(sv: Server, first: State, events: seq<Event>)
    requires Start(first)
    ensures Invariant(sv, After(sv, first, events))
  {
    if events != [] {
      RunKeepsInvariant(sv, first, events[..|events| - 1]);
      StepKeepsInvariant(sv, After(sv, first, events[..|events| - 1]), events[|events| - 1]);
    }
  }

  /** Two successful requests for the same pair of users. */
  predicate BothServed(q: Request, o: Request) {
    q.phase.Done? && o.phase.Done? && Pair(q) == Pair(o)
  }

  /**
   In every run, at every point: a pair has at most one private chat; every successful request replies
   the chat of its pair, whose members are exactly the pair if and only if both users exist; and all
   successful requests of a pair, from either side, reply the same chat.
   */
  lemma OneChatPerPair(sv: Server, first: State, events: seq<Event>)
    requires Start(first)
    ensures var s := After(sv, first, events);
      && OnePerPair(s)
      && (forall r :: r in s.requests && s.requests[r].phase.Done? ==> RepliesItsChat(s, s.requests[r]))
      && (forall r, o :: r in s.requests && o in s.requests && BothServed(s.requests[r], s.requests[o]) ==>
            s.requests[r].phase.chatId == s.requests[o].phase.chatId)
  {
    RunKeepsInvariant(sv, first, events);
    var s := After(sv, first, events);
    forall r, o | r in s.requests && o in s.requests && BothServed(s.requests[r], s.requests[o])
      ensures s.requests[r].phase.chatId == s.requests[o].phase.chatId
    {
      var q, p := s.requests[r], s.requests[o];
      assert GoodRequest(s, q) && GoodRequest(s, p);
      KeyIdentifiesPair(q.user, q.other, p.user, p.other);
      assert ChatFor(s, p.phase.chatId, q.user, q.other);
    }
    forall r | r in s.requests && s.requests[r].phase.Done? ensures RepliesItsChat(s, s.requests[r]) {
      assert GoodRequest(s, s.requests[r]);
      RosterIffUsersExist(s, s.requests[r].phase.chatId, s.requests[r]);
    }
  }

  ghost predicate RepliesItsChat(s: State, q: Request)
    requires q.phase.Done?
  {
    && ChatFor(s, q.phase.chatId, q.user, q.other)
    && (IsPrivateBetween(s, q.phase.chatId, Pair(q)) <==> Pair(q) <= s.users)
  }

  lemma MemberlessStart(first: State)
    requires first == State(map[1 := Chat(true, Some(PrivatePairKey(1, 2)), {})], {2}, map[], 2)
    ensures Start(first)
  {
    var c := first.chats[1];
    assert PairChat(c, 1, 2);
    forall a, b | c.key == Some(PrivatePairKey(a, b)) ensures {a, b} == {1, 2} {
      KeyIdentifiesPair(a, b, 1, 2);
    }
    assert 1 in {1, 2};
  }

  /** The lookup runs before the users are checked: asking for a user who is gone can reply an empty chat. */
  lemma ReplyMayHaveNoMembers(sv: Server)
    ensures var first := State(map[1 := Chat(true, Some(PrivatePairKey(1, 2)), {})], {2}, map[], 2);
      && Start(first)
      && var s := After(sv, first, [Arrive(0, 2, {1}), Look(0, Some(1))]);
         0 in s.requests && s.requests[0].phase == Done(1) && 1 in s.chats && s.chats[1].members == {}
  {
    var first := State(map[1 := Chat(true, Some(PrivatePairKey(1, 2)), {})], {2}, map[], 2);
    MemberlessStart(first);
    PairOneTwo();
    var a := [Arrive(0, 2, {1})];
    AfterSnoc(sv, first, [], Arrive(0, 2, {1}));
    assert [] + a == a;
    AfterSnoc(sv, first, a, Look(0, Some(1)));
    assert a + [Look(0, Some(1))] == [Arrive(0, 2, {1}), Look(0, Some(1))];
    LookFindsMemberless(sv, first);
  }

  lemma LookFindsMemberless(sv: Server, first: State)
    requires first == State(map[1 := Chat(true, Some(PrivatePairKey(1, 2)), {})], {2}, map[], 2)
    ensures var s := first.(requests := map[0 := Request(2, 1, Looking)]);
      && Next(sv, first, Arrive(0, 2, {1})) == s
      && Next(sv, s, Look(0, Some(1))) == Move(s, 0, Done(1))
  {
    PairOneTwo();
    var s := first.(requests := map[0 := Request(2, 1, Looking)]);
    assert HasKey(s, 1, Key(s.requests[0]));
  }

  ghost predicate ChatsKept(s: State, t: State) {
    forall i :: i in s.chats ==> i in t.chats && t.chats[i] == s.chats[i]
  }

  /** Request `r` of `s` is as it was in `t`, and so are the chats of `s`. */
  ghost predicate Stays(s: State, t: State, r: int) {
    && r in s.requests && r in t.requests && t.requests[r] == s.requests[r]
    && ChatsKept(s, t)
  }

  lemma StepStays(sv: Server, s: State, e: Event, r: int)
    requires forall o :: o in s.requests ==> GoodRequest(s, s.requests[o])
    requires r in s.requests && Finished(s.requests[r].phase)
    ensures Stays(s, Next(sv, s, e), r)
  {
    if Enabled(sv, s, e) && e.Commit? {
      assert GoodRequest(s, s.requests[e.r]);
    }
  }

  lemma StaysLonger(s: State, t: State, u: State, r: int)
    requires Stays(s, t, r) && Stays(t, u, r)
    ensures Stays(s, u, r)
  {
  }

  lemma InvariantIsGood(sv: Server, s: State)
    requires Invariant(sv, s)
    ensures forall o :: o in s.requests ==> GoodRequest(s, s.requests[o])
  {
  }

  lemma AfterSnoc(sv: Server, first: State, events: seq<Event>, e: Event)
    ensures After(sv, first, events + [e]) == Next(sv, After(sv, first, events), e)
  {
    assert (events + [e])[..|events|] == events;
  }

  lemma {:induction false} RequestStays(sv: Server, first: State, events: seq<Event>, later: seq<Event>, r: int)
    requires Start(first)
    requires var s := After(sv, first, events); r in s.requests && Finished(s.requests[r].phase)
    ensures Stays(After(sv, first, events), After(sv, first, events + later), r)
  {
    if later == [] {
      assert events + later == events;
    } else {
      var init, e := later[..|later| - 1], later[|later| - 1];
      RequestStays(sv, first, events, init, r);
      OneMoreStays(sv, first, After(sv, first, events), events + init, e, r);
      assert events + later == events + init + [e];
    }
  }

  lemma OneMoreStays(sv: Server, first: State, s: State, past: seq<Event>, e: Event, r: int)
    requires Start(first) && Stays(s, After(sv, first, past), r) && Finished(s.requests[r].phase)
    ensures Stays(s, After(sv, first, past + [e]), r)
  {
    var t := After(sv, first, past);
    RunKeepsInvariant(sv, first, past);
    InvariantIsGood(sv, t);
    StepStays(sv, t, e, r);
    StaysLonger(s, t, Next(sv, t, e), r);
    AfterSnoc(sv, first, past, e);
  }

  /** A reply is final: whatever happens later, the request and the chat it named stay as they are. */
  lemma RepliesAreFinal(sv: Server, first: State, events: seq<Event>, later: seq<Event>, r: int)
    requires Start(first)
    requires var s := After(sv, first, events); r in s.requests && s.requests[r].phase.Done?
    ensures var s, t := After(sv, first, events), After(sv, first, events + later);
      Stays(s, t, r) && RepliesItsChat(s, s.requests[r]) && s.requests[r].phase.chatId in s.chats
  {
    OneChatPerPair(sv, first, events);
    RequestStays(sv, first, events, later, r);
  }

  ghost predicate HasViolation(s: State) {
    exists r :: r in s.requests && s.requests[r].phase == Failed(UniqueViolation)
  }

  function Racing(phase: Phase, other: Phase): State {
    State(map[], {1, 2}, map[0 := Request(1, 2, phase), 1 := Request(2, 1, other)], 1)
  }

  lemma PairOneTwo()
    ensures PrivatePairKey(1, 2) == PrivatePairKey(2, 1)
    ensures {2} - {1} == {2} && {1} - {2} == {1} && 2 in {2} && 1 in {1}
    ensures Smallest({2}) == 2 && Smallest({1}) == 1
  {
    KeyIdentifiesPair(1, 2, 2, 1);
  }

  /** Without the lock two first requests of a pair both get past the second lookup. */
  lemma RaceWithoutLock(sv: Server) returns (first: State, events: seq<Event>)
    requires !sv.postgres
    ensures Start(first) && HasViolation(After(sv, first, events))
  {
    PairOneTwo();
    first := State(map[], {1, 2}, map[], 1);
    var a := [Arrive(0, 1, {2})];
    AfterSnoc(sv, first, [], Arrive(0, 1, {2}));
    assert [] + [Arrive(0, 1, {2})] == a;
    var b := a + [Arrive(1, 2, {1})];
    AfterSnoc(sv, first, a, Arrive(1, 2, {1}));
    assert After(sv, first, b) == Racing(Looking, Looking);
    var c := b + [Look(0, None)];
    AfterSnoc(sv, first, b, Look(0, None));
    assert After(sv, first, c) == Racing(Waiting, Looking);
    var d := c + [Look(1, None)];
    AfterSnoc(sv, first, c, Look(1, None));
    assert After(sv, first, d) == Racing(Waiting, Waiting);
    events := RaceForLock(sv, first, d);
  }

  lemma RaceForLock(sv: Server, first: State, d: seq<Event>) returns (events: seq<Event>)
    requires !sv.postgres && After(sv, first, d) == Racing(Waiting, Waiting)
    ensures HasViolation(After(sv, first, events))
  {
    var f := d + [Acquire(0)];
    AfterSnoc(sv, first, d, Acquire(0));
    var g := f + [Acquire(1)];
    AfterSnoc(sv, first, f, Acquire(1));
    assert After(sv, first, g) == Racing(LookingAgain, LookingAgain);
    events := RaceAfterLookups(sv, first, g);
  }

  lemma RaceAfterLookups(sv: Server, first: State, g: seq<Event>) returns (events: seq<Event>)
    requires After(sv, first, g) == Racing(LookingAgain, LookingAgain)
    ensures HasViolation(After(sv, first, events))
  {
    PairOneTwo();
    var h := g + [Look(0, None)];
    AfterSnoc(sv, first, g, Look(0, None));
    var i := h + [Look(1, None)];
    AfterSnoc(sv, first, h, Look(1, None));
    assert After(sv, first, i) == Racing(CheckingUsers, CheckingUsers);
    events := RaceAfterChecks(sv, first, i);
  }

  lemma RaceAfterChecks(sv: Server, first: State, i: seq<Event>) returns (events: seq<Event>)
    requires After(sv, first, i) == Racing(CheckingUsers, CheckingUsers)
    ensures HasViolation(After(sv, first, events))
  {
    var j := i + [CheckUsers(0)];
    AfterSnoc(sv, first, i, CheckUsers(0));
    assert After(sv, first, j) == Racing(Inserting, CheckingUsers);
    var k := j + [CheckUsers(1)];
    AfterSnoc(sv, first, j, CheckUsers(1));
    assert After(sv, first, k) == Racing(Inserting, Inserting);
    events := RaceOfInserts(sv, first, k);
  }

  lemma RaceOfInserts(sv: Server, first: State, k: seq<Event>) returns (events: seq<Event>)
    requires After(sv, first, k) == Racing(Inserting, Inserting)
    ensures HasViolation(After(sv, first, events))
  {
    var l := k + [Flush(0)];
    AfterSnoc(sv, first, k, Flush(0));
    var m := l + [Commit(0)];
    AfterSnoc(sv, first, l, Commit(0));
    events := m + [Flush(1)];
    AfterSnoc(sv, first, m, Flush(1));
    FirstInsert(sv);
    FirstCommit(sv);
    LateInsert(sv, After(sv, first, m));
  }

  lemma FirstInsert(sv: Server)
    ensures Next(sv, Racing(Inserting, Inserting), Flush(0)) == Racing(Flushed(1), Inserting).(nextId := 2)
  {
    PairOneTwo();
  }

  lemma FirstCommit(sv: Server)
    ensures var t := Next(sv, Racing(Flushed(1), Inserting).(nextId := 2), Commit(0));
      && 1 in t.requests && t.requests[1] == Request(2, 1, Inserting)
      && (forall o :: o in t.requests ==> !t.requests[o].phase.Flushed?)
      && HasKey(t, 1, PrivatePairKey(1, 2))
  {
    PairOneTwo();
  }

  lemma LateInsert(sv: Server, t: State)
    requires 1 in t.requests && t.requests[1] == Request(2, 1, Inserting)
    requires forall o :: o in t.requests ==> !t.requests[o].phase.Flushed?
    requires HasKey(t, 1, PrivatePairKey(1, 2))
    ensures HasViolation(Next(sv, t, Flush(1)))
  {
    PairOneTwo();
    assert HasKey(t, 1, Key(t.requests[1]));
    assert Enabled(sv, t, Flush(1));
    assert Next(sv, t, Flush(1)).requests[1].phase == Failed(UniqueViolation);
  }

  ghost predicate CanViolate(sv: Server) {
    exists first: State, events: seq<Event> :: Start(first) && HasViolation(After(sv, first, events))
  }

  /**
   The insert of a request can violate the unique key of another, and so fail outside the handler,
   exactly when there is no advisory lock: never on PostgreSQL, whatever lock keys collide.
   */
  lemma ViolationNeedsMissingLock(sv: Server)
    ensures CanViolate(sv) <==> !sv.postgres
  {
    if sv.postgres {
      forall first, events | Start(first) ensures !HasViolation(After(sv, first, events)) {
        RunKeepsInvariant(sv, first, events);
      }
    } else {
      var first, events := RaceWithoutLock(sv);
      assert Start(first) && HasViolation(After(sv, first, events));
    }
  }

  /** Events that a request makes happen by itself: not an arrival, a failed commit or an abort. */
  predicate Progresses(e: Event) {
    e.Look? || e.Acquire? || e.CheckUsers? || e.Flush? || e.Commit?
  }

  lemma LookupReturns(s: State, q: Request) returns (found: Option<int>)
    ensures Finds(s, q, found)
  {
    if i :| HasKey(s, i, Key(q)) {
      found := Some(i);
    } else if i :| IsPrivateBetween(s, i, Pair(q)) {
      found := Some(i);
    } else {
      found := None;
    }
  }

  /** Requests never deadlock: while one is unfinished, some request can take its next step. */
  lemma SomeoneProgresses(sv: Server, first: State, events: seq<Event>, r: int)
    requires Start(first)
    requires var s := After(sv, first, events); r in s.requests && !Finished(s.requests[r].phase)
    ensures exists e :: Progresses(e) && Enabled(sv, After(sv, first, events), e)
  {
    var s := After(sv, first, events);
    var q := s.requests[r];
    if o :| o in s.requests && Holding(s.requests[o].phase) {
      HolderProgresses(sv, s, o);
    } else if q.phase.Waiting? {
      assert Progresses(Acquire(r)) && Enabled(sv, s, Acquire(r));
    } else {
      var found := LookupReturns(s, q);
      assert Progresses(Look(r, found)) && Enabled(sv, s, Look(r, found));
    }
  }

  lemma HolderProgresses(sv: Server, s: State, o: int)
    requires o in s.requests && Holding(s.requests[o].phase)
    ensures exists e :: Progresses(e) && Enabled(sv, s, e)
  {
    match s.requests[o].phase
    case LookingAgain =>
      var found := LookupReturns(s, s.requests[o]);
      assert Progresses(Look(o, found)) && Enabled(sv, s, Look(o, found));
    case CheckingUsers =>
      assert Progresses(CheckUsers(o)) && Enabled(sv, s, CheckUsers(o));
    case Inserting =>
      if w :| w in s.requests && s.requests[w].phase.Flushed? {
        assert Progresses(Commit(w)) && Enabled(sv, s, Commit(w));
      } else {
        assert Progresses(Flush(o)) && Enabled(sv, s, Flush(o));
      }
    case Flushed(_) =>
      assert Progresses(Commit(o)) && Enabled(sv, s, Commit(o));
    case _ =>
  }
}
