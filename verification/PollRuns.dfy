/**
 Polls over whole runs, together with the commands that take messages, chats and accounts away: which
 votes a poll can have, what its tally says, and exactly when it goes. Foreign keys are enforced here, so
 that CASCADE is carried out.
 */
module PollRuns {
  import opened Common
  import opened Orders
  import opened Polls
  import M = Membership
  import O = Ownership

  datatype World = World(store: M.Store, messages: map<int, M.Message>, polls: map<int, Poll>, votes: seq<Vote>)

  function View(w: World): State {
    State(w.messages, w.store.members.Keys, w.polls, w.votes)
  }

  datatype Op =
    | Command(op: O.Op)
    | NewPoll(user: int, chat: int, messageId: int, poll: int, row: Poll)
    | Cast(user: int, messageId: int, poll: int, ids: set<int>)
    | Close(user: int, messageId: int, poll: int)
    | DeleteMessage(user: int, messageId: int)

  /** What a command on chats and accounts does to the messages. */
  ghost predicate MessagesFollow(messages: map<int, M.Message>, s: M.Store, op: O.Op, t: M.Store,
                                 after: map<int, M.Message>) {
    match op
    case Leave(c, actor) =>
      after == if M.Left(s, c, actor).1.None? then M.MessagesAfter(messages, c, t) else messages
    case Remove(c, actor, target) =>
      after == if M.Removed(s, c, actor, target).1.None? then M.MessagesAfter(messages, c, t) else messages
    case DeleteAccount(user, checksKeys) =>
      checksKeys && exists order, ok ::
        && M.IsOrder(s, user, order) && M.Outcome(s, user, true, order, t, ok)
        && after == if ok then M.MessagesWithout(messages, s, user) else messages
    case _ => after == messages
  }

  /** The votes that go neither with their poll nor with their user. */
  function Survives(gone: set<int>, deleted: set<int>): Vote -> bool {
    (v: Vote) => v.poll !in gone && v.user !in deleted
  }

  function GonePolls(w: World, messages: map<int, M.Message>): set<int> {
    set p | p in w.polls && w.polls[p].messageId !in messages
  }

  /** The rows that refer to a message or a user no longer there are deleted with them. */
  function Cascade(w: World, store: M.Store, messages: map<int, M.Message>): World {
    var gone := GonePolls(w, messages);
    World(store, messages, w.polls - gone, Keep(w.votes, Survives(gone, w.store.users - store.users)))
  }

  ghost predicate Step(w: World, op: Op, t: World) {
    match op
    case Command(op) =>
      && O.Step(w.store, op, t.store)
      && MessagesFollow(w.messages, w.store, op, t.store, t.messages)
      && t == Cascade(w, t.store, t.messages)
    case NewPoll(user, chat, messageId, poll, row) =>
      t == if (chat, user) !in w.store.members then w else
             w.(messages := w.messages[messageId := M.Message(chat, user, true)], polls := w.polls[poll := row])
    case Cast(user, messageId, poll, ids) =>
      t.store == w.store && exists refusal :: Voted(View(w), user, messageId, poll, ids, View(t), refusal)
    case Close(user, messageId, poll) =>
      t == if CloseRefusal(View(w), user, messageId).None? && IsPollOf(View(w), poll, messageId)
           then w.(polls := ClosedPoll(View(w), poll).polls) else w
    case DeleteMessage(user, messageId) =>
      t == if messageId in w.messages && w.messages[messageId].senderId == user
           then w.(messages := w.messages[messageId := w.messages[messageId].(isPoll := false)]) else w
  }

  datatype Run = Start | Then(past: Run, op: Op, world: World)

  function Last(run: Run): World {
    match run
    case Start => World(O.Last(O.Start), map[], map[], [])
    case Then(_, _, w) => w
  }

  /** The commands on chats and accounts among the steps. */
  function Commands(run: Run): O.Run {
    match run
    case Start => O.Start
    case Then(past, op, w) => if op.Command? then O.Then(Commands(past), op.op, w.store) else Commands(past)
  }

  /** The message and poll ids given out so far; none is given out twice. */
  function MessageIds(run: Run): set<int> {
    match run
    case Start => {}
    case Then(past, op, _) => MessageIds(past) + if op.NewPoll? then {op.messageId} else {}
  }

  function PollIds(run: Run): set<int> {
    match run
    case Start => {}
    case Then(past, op, _) => PollIds(past) + if op.NewPoll? then {op.poll} else {}
  }

  ghost predicate NewIds(past: Run, op: Op) {
    match op
    case Command(op) => op.SignUp? ==> op.user !in O.Issued(Commands(past))
    case NewPoll(_, _, messageId, poll, row) =>
      && messageId !in MessageIds(past) && poll !in PollIds(past)
      && row.messageId == messageId && !row.isClosed && DistinctIds(row.options)
    case _ => true
  }

  ghost predicate IsRun(run: Run) {
    run.Then? ==> IsRun(run.past) && Step(Last(run.past), run.op, run.world) && NewIds(run.past, run.op)
  }

  // --- What a command on chats and accounts takes along ---

  /** The step takes the last member of `c` away. */
  ghost predicate Empties(s: M.Store, op: O.Op, t: M.Store, c: int) {
    c in s.chats &&
    if s.chats[c].kind.Private?
    then op.DeleteAccount? && op.user in M.Roster(s, c) && op.user !in t.users
    else
      || (op.Leave? && op.c == c && M.Roster(s, c) == {op.actor})
      || (op.DeleteAccount? && M.Roster(s, c) == {op.user} && op.user !in t.users)
  }

  lemma HasChat(s: M.Store, c: int)
    requires M.Linked(s) && M.Roster(s, c) != {}
    ensures c in s.chats && c < s.nextId
  {
    var k :| k in s.members && k.0 == c;
  }

  lemma DeletionRosters(s: M.Store, user: int, order: seq<int>, t: M.Store, ok: bool)
    requires M.Sound(s) && M.IsOrder(s, user, order) && M.Outcome(s, user, true, order, t, ok)
    ensures t.users == if ok then s.users - {user} else s.users
    ensures t.nextId == s.nextId
    ensures forall c :: M.Roster(s, c) != {} ==> (M.Roster(t, c) == {} <==> ok && M.Emptied(s, user, c))
    ensures forall c :: M.Roster(s, c) == {} ==> M.Roster(t, c) == {}
  {
    O.DeletionMeans(s, user, true, order, t, ok);
    if ok {
      O.AccountDeletedMeans(s, user, t);
      forall c | M.Roster(s, c) != {} ensures M.Roster(t, c) == {} <==> M.Emptied(s, user, c) {
        HasChat(s, c);
        M.RosterIs(s, c, user);
        if (c, user) !in s.members {
          O.SameRoster(s, t, c);
        }
      }
      forall c | M.Roster(s, c) == {} ensures M.Roster(t, c) == {} {
        NoRows(s, t, c);
      }
    }
  }

  lemma NoRows(s: M.Store, t: M.Store, c: int)
    requires M.Roster(s, c) == {} && forall k :: k in t.members ==> k in s.members
    ensures M.Roster(t, c) == {}
  {
    forall u ensures u !in M.Roster(t, c) {
      M.RosterIs(s, c, u);
      M.RosterIs(t, c, u);
    }
  }

  /** Rosters are emptied by these steps alone and never filled again; users come by signing up alone. */
  ghost predicate Moves(s: M.Store, op: O.Op, t: M.Store) {
    && (forall c :: M.Roster(s, c) != {} ==> (M.Roster(t, c) == {} <==> Empties(s, op, t, c)))
    && (forall c :: c < s.nextId && M.Roster(s, c) == {} ==> M.Roster(t, c) == {})
    && s.nextId <= t.nextId
    && (forall u :: u in t.users && u !in s.users ==> op.SignUp? && u == op.user)
  }

  lemma NewChatMoves(s: M.Store, chat: M.Chat, actor: int, ids: set<int>, op: O.Op)
    requires M.Linked(s) && op.CreateChat?
    ensures Moves(s, op, M.Created(s, chat, actor, ids))
  {
    var t := M.Created(s, chat, actor, ids);
    O.CreatedRows(s, chat, actor, ids);
    forall c | c < s.nextId ensures M.Roster(t, c) == M.Roster(s, c) {
      O.SameRoster(s, t, c);
    }
    forall c | M.Roster(s, c) != {} ensures c < s.nextId {
      HasChat(s, c);
    }
  }

  lemma CreationMoves(s: M.Store, op: O.Op, t: M.Store)
    requires M.Sound(s) && op.CreateChat? && O.Step(s, op, t)
    ensures Moves(s, op, t)
  {
    var kind, others := M.KindOf(op.chatType), M.Others(op.memberIds, op.actor);
    var reply :| M.ChatCreated(s, op.actor, kind, others, op.blank, t, reply);
    if t != s {
      O.CreationMeans(s, op.actor, kind, others, op.blank, t, reply);
      var pair := if kind.value.Group? then None else Some(M.Pair(op.actor, Smallest(others)));
      NewChatMoves(s, M.Chat(kind.value, Some(op.actor), pair), op.actor, others + {op.actor}, op);
    }
  }

  /** Only the roster of `c` may change. */
  lemma OneRosterMoves(s: M.Store, op: O.Op, t: M.Store, c: int)
    requires M.Linked(s) && (op.Leave? || op.Add? || op.Remove?)
    requires t.users == s.users && t.nextId == s.nextId && c == op.c
    requires forall d, u :: d != c ==> ((d, u) in t.members <==> (d, u) in s.members)
    requires M.Roster(s, c) != {} && (M.Roster(t, c) == {} <==> Empties(s, op, t, c))
    ensures Moves(s, op, t)
  {
    forall d | d != c ensures M.Roster(t, d) == M.Roster(s, d) {
      O.SameRoster(s, t, d);
    }
  }

  lemma GroupCommandMoves(s: M.Store, op: O.Op, t: M.Store)
    requires M.Sound(s) && (op.Add? || op.Leave? || op.Remove?) && O.Step(s, op, t)
    ensures Moves(s, op, t)
  {
    if t != s {
      match op
      case Add(c, actor, user) =>
        O.AddedIsSound(s, c, actor, user);
        M.RosterIs(s, c, actor);
        OneRosterMoves(s, op, t, c);
      case Leave(c, actor) =>
        O.LeftIsSound(s, c, actor);
        O.LeftRows(s, c, actor);
        OneRosterMoves(s, op, t, c);
      case Remove(c, actor, target) =>
        O.RemoveTakesOneRow(s, c, actor, target);
        M.RosterIs(s, c, actor);
        M.RosterIs(t, c, actor);
        OneRosterMoves(s, op, t, c);
    } else if op.Leave? {
      O.LeftIsSound(s, op.c, op.actor);
      M.RosterIs(s, op.c, op.actor);
    }
  }

  lemma CommandMoves(s: M.Store, op: O.Op, t: M.Store)
    requires M.Sound(s) && O.Step(s, op, t) && (op.DeleteAccount? ==> op.checksKeys)
    ensures Moves(s, op, t)
  {
    match op
    case SignUp(_) =>
      forall c ensures M.Roster(t, c) == M.Roster(s, c) {
        O.SameRoster(s, t, c);
      }
    case CreateChat(_, _, _, _) => CreationMoves(s, op, t);
    case DeleteAccount(user, _) =>
      var order, ok :| M.IsOrder(s, user, order) && M.Outcome(s, user, true, order, t, ok);
      DeletionRosters(s, user, order, t, ok);
      forall c | M.Roster(s, c) != {} ensures M.Roster(t, c) == {} <==> Empties(s, op, t, c) {
        HasChat(s, c);
        M.RosterIs(s, c, user);
        assert (c, user) in s.members ==> user in s.users;
      }
    case _ => GroupCommandMoves(s, op, t);
  }

  /** The sender has an account, and the chat has members. */
  predicate Alive(s: M.Store, message: M.Message) {
    message.senderId in s.users && M.Roster(s, message.chatId) != {}
  }

  /** Of the messages alive before a command exactly those alive afterwards stay. */
  lemma MessagesStayAlive(messages: map<int, M.Message>, s: M.Store, op: O.Op, t: M.Store,
                          after: map<int, M.Message>)
    requires M.Sound(s) && O.Step(s, op, t) && MessagesFollow(messages, s, op, t, after)
    requires forall m :: m in messages ==> Alive(s, messages[m])
    ensures forall m :: m in after <==> m in messages && Alive(t, messages[m])
    ensures forall m :: m in after ==> after[m] == messages[m]
  {
    CommandMoves(s, op, t);
    match op
    case Leave(c, actor) => ChatTakesMessages(messages, s, op, t, c, M.Left(s, c, actor).1.None?);
    case Remove(c, actor, target) =>
      O.RemoveTakesOneRow(s, c, actor, target);
      ChatTakesMessages(messages, s, op, t, c, M.Removed(s, c, actor, target).1.None?);
    case DeleteAccount(user, _) =>
      var order, ok :| M.IsOrder(s, user, order) && M.Outcome(s, user, true, order, t, ok)
        && after == if ok then M.MessagesWithout(messages, s, user) else messages;
      AccountTakesMessages(messages, s, user, order, t, ok);
    case _ =>
      forall m | m in messages ensures Alive(t, messages[m]) {
        UsersStay(s, op, t, messages[m].senderId);
      }
  }

  lemma UsersStay(s: M.Store, op: O.Op, t: M.Store, user: int)
    requires O.Step(s, op, t) && !op.DeleteAccount? && user in s.users
    ensures user in t.users
  {
    if op.CreateChat? {
      var kind, others := M.KindOf(op.chatType), M.Others(op.memberIds, op.actor);
      var reply :| M.ChatCreated(s, op.actor, kind, others, op.blank, t, reply);
    }
  }

  lemma ChatTakesMessages(messages: map<int, M.Message>, s: M.Store, op: O.Op, t: M.Store, c: int, done: bool)
    requires Moves(s, op, t) && t.users == s.users && !op.DeleteAccount? && (done || t == s)
    requires forall d :: Empties(s, op, t, d) ==> d == c
    requires forall m :: m in messages ==> Alive(s, messages[m])
    ensures var after := if done then M.MessagesAfter(messages, c, t) else messages;
      && (forall m :: m in after <==> m in messages && Alive(t, messages[m]))
      && forall m :: m in after ==> after[m] == messages[m]
  {
    forall m | m in messages && messages[m].chatId != c ensures Alive(t, messages[m]) {
      assert !Empties(s, op, t, messages[m].chatId);
    }
  }

  lemma AccountTakesMessages(messages: map<int, M.Message>, s: M.Store, user: int, order: seq<int>,
                            t: M.Store, ok: bool)
    requires M.Sound(s) && M.IsOrder(s, user, order) && M.Outcome(s, user, true, order, t, ok)
    requires forall m :: m in messages ==> Alive(s, messages[m])
    ensures var after := if ok then M.MessagesWithout(messages, s, user) else messages;
      && (forall m :: m in after <==> m in messages && Alive(t, messages[m]))
      && forall m :: m in after ==> after[m] == messages[m]
  {
    DeletionRosters(s, user, order, t, ok);
    O.DeletionMeans(s, user, true, order, t, ok);
    forall m | m in messages ensures Alive(s, messages[m]) {
    }
  }

  // --- What holds in every run ---

  /** The projection to chats and accounts is a run of its own, so all that `Ownership` says holds of it. */
  lemma {:induction false} CommandsRun(run: Run)
    requires IsRun(run)
    ensures O.IsRun(Commands(run)) && O.ChecksKeys(Commands(run)) && O.Last(Commands(run)) == Last(run).store
    ensures M.Sound(Last(run).store)
  {
    if run.Then? {
      CommandsRun(run.past);
    }
    O.RunIsSound(Commands(run));
  }

  ghost predicate PollsFit(w: World) {
    && OnePerMessage(w.polls)
    && (forall p :: p in w.polls ==> DistinctIds(w.polls[p].options) && w.polls[p].messageId in w.messages)
  }

  ghost predicate Fits(w: World) {
    && PollsFit(w) && VotesFit(w.polls, w.votes)
    && (forall m :: m in w.messages ==> Alive(w.store, w.messages[m]))
    && (forall v :: v in w.votes ==> v.user in w.store.users)
  }

  lemma CommandKeepsFits(w: World, op: O.Op, t: World)
    requires M.Sound(w.store) && Fits(w) && Step(w, Command(op), t)
    ensures Fits(t)
  {
    MessagesStayAlive(w.messages, w.store, op, t.store, t.messages);
    var gone, deleted := GonePolls(w, t.messages), w.store.users - t.store.users;
    KeepDistinct(w.votes, Survives(gone, deleted));
    forall v ensures v in t.votes <==> v in w.votes && v.poll !in gone && v.user !in deleted {
      KeepIs(w.votes, Survives(gone, deleted), v);
    }
    forall v | v in t.votes ensures VoteFits(t.polls, v) {
      assert VoteFits(w.polls, v);
    }
    forall v, u | v in t.votes && u in t.votes ensures Exclusive(t.polls, v, u) {
      assert Exclusive(w.polls, v, u);
    }
  }

  lemma CastKeepsFits(w: World, op: Op, t: World)
    requires M.Sound(w.store) && Fits(w) && op.Cast? && Step(w, op, t)
    ensures Fits(t)
  {
    var user, poll, ids := op.user, op.poll, op.ids;
    var refusal :| Voted(View(w), user, op.messageId, poll, ids, View(t), refusal);
    if refusal.None? {
      var kept := WithoutBallot(w.votes, poll, user);
      var ballot := t.votes[|kept|..];
      assert t.votes == kept + ballot;
      forall v ensures v in kept <==> v in w.votes && !IsBallot(v, poll, user) {
        KeepIs(w.votes, NoBallotOf(poll, user), v);
      }
      KeepDistinct(w.votes, NoBallotOf(poll, user));
      DistinctConcat(kept, ballot);
      forall v, u | v in t.votes && u in t.votes ensures Exclusive(t.polls, v, u) {
        assert v in kept && u in kept ==> Exclusive(w.polls, v, u);
        if v in ballot && u in ballot && !w.polls[poll].allowsMultiple {
          AtMostOne(ids, v.option, u.option);
        }
      }
      forall v | v in t.votes ensures VoteFits(t.polls, v) {
        assert v in kept ==> VoteFits(w.polls, v);
      }
    }
  }

  predicate SameBallots(a: Poll, b: Poll) {
    a.options == b.options && a.allowsMultiple == b.allowsMultiple
  }

  /** Votes still fit when polls are added or closed. */
  lemma PollsKept(polls: map<int, Poll>, more: map<int, Poll>, votes: seq<Vote>)
    requires VotesFit(polls, votes)
    requires forall p :: p in polls ==> p in more && SameBallots(polls[p], more[p])
    ensures VotesFit(more, votes)
  {
    forall v | v in votes ensures VoteFits(more, v) {
      assert VoteFits(polls, v);
    }
    forall v, w | v in votes && w in votes ensures Exclusive(more, v, w) {
      assert VoteFits(polls, v) && Exclusive(polls, v, w);
    }
  }

  lemma PostingKeepsFits(w: World, op: Op, t: World)
    requires M.Sound(w.store) && Fits(w) && op.NewPoll? && Step(w, op, t)
    requires op.messageId !in w.messages && op.poll !in w.polls
    requires op.row.messageId == op.messageId && DistinctIds(op.row.options)
    ensures Fits(t)
  {
    if (op.chat, op.user) in w.store.members {
      M.RosterIs(w.store, op.chat, op.user);
      PollsKept(w.polls, t.polls, w.votes);
    }
  }

  lemma ClosingKeepsFits(w: World, op: Op, t: World)
    requires Fits(w) && (op.Close? || op.DeleteMessage?) && Step(w, op, t)
    ensures Fits(t)
  {
    PollsKept(w.polls, t.polls, w.votes);
  }

  lemma StepKeepsIds(w: World, op: Op, t: World)
    requires M.Sound(w.store) && Fits(w) && Step(w, op, t)
    ensures t.messages.Keys <= w.messages.Keys + if op.NewPoll? then {op.messageId} else {}
    ensures t.polls.Keys <= w.polls.Keys + if op.NewPoll? then {op.poll} else {}
  {
    if op.Command? {
      MessagesStayAlive(w.messages, w.store, op.op, t.store, t.messages);
    }
  }

  lemma {:induction false} RunFits(run: Run)
    requires IsRun(run)
    ensures Fits(Last(run))
    ensures Last(run).polls.Keys <= PollIds(run) && Last(run).messages.Keys <= MessageIds(run)
  {
    if run.Then? {
      RunFits(run.past);
      CommandsRun(run.past);
      var w, t := Last(run.past), run.world;
      StepKeepsIds(w, run.op, t);
      match run.op
      case Command(op) => CommandKeepsFits(w, op, t);
      case Cast(_, _, _, _) => CastKeepsFits(w, run.op, t);
      case NewPoll(_, _, _, _, _) => PostingKeepsFits(w, run.op, t);
      case _ => ClosingKeepsFits(w, run.op, t);
    }
  }

  /** Every vote of every run names an option of its own poll, and single choice is kept. */
  lemma RunKeepsVotesValid(run: Run)
    requires IsRun(run)
    ensures var w := Last(run);
      && NoRepeats(w.votes)
      && forall v, u :: v in w.votes && u in w.votes && IsBallot(u, v.poll, v.user) ==>
           && v.poll in w.polls && v.option in OptionIds(w.polls[v.poll].options) && v.user in w.store.users
           && (v == u || w.polls[v.poll].allowsMultiple)
  {
    RunFits(run);
    var w := Last(run);
    forall v, u | v in w.votes && u in w.votes && IsBallot(u, v.poll, v.user)
      ensures v.poll in w.polls && v.option in OptionIds(w.polls[v.poll].options)
      ensures v == u || w.polls[v.poll].allowsMultiple
    {
      assert VoteFits(w.polls, v) && Exclusive(w.polls, v, u);
    }
  }

  /**
   In every run and for every viewer: the total is the number of vote rows of the poll, for single
   choice the number of voters; an option shows its voters unless the poll is anonymous, and shows the
   viewer's own choice.
   */
  lemma TallyMeans(run: Run, poll: int, viewer: Option<int>)
    requires IsRun(run) && poll in Last(run).polls
    ensures var w := Last(run); var row := w.polls[poll]; var ballots := VotesOf(w.votes, poll);
      var r := Tally(poll, row, ballots, viewer);
      && (forall v :: v in ballots <==> v in w.votes && v.poll == poll)
      && (forall v :: v in ballots ==> v.option in OptionIds(row.options))
      && NoRepeats(ballots)
      && r.totalVotes == |ballots|
      && (!row.allowsMultiple ==> r.totalVotes == |Users(ballots)|)
      && |r.options| == |row.options|
      && forall i ::
        0 <= i < |r.options| ==> ItemMeans(r.options[i], row.options[i].id, poll, w.votes, viewer, row.isAnonymous)
  {
    RunFits(run);
    var w := Last(run);
    var row := w.polls[poll];
    var ballots := VotesOf(w.votes, poll);
    forall v ensures v in ballots <==> v in w.votes && v.poll == poll {
      KeepIs(w.votes, InPoll(poll), v);
    }
    forall v | v in ballots ensures v.option in OptionIds(row.options) {
      assert VoteFits(w.polls, v);
    }
    KeepDistinct(w.votes, InPoll(poll));
    SumIsRows(row, ballots);
    if !row.allowsMultiple {
      forall i, j | 0 <= i < j < |ballots| ensures ballots[i].user != ballots[j].user {
        assert ballots[i] in ballots && ballots[j] in ballots;
        assert Exclusive(w.polls, ballots[i], ballots[j]);
      }
      OneRowPerUser(ballots);
    }
    forall i | 0 <= i < |row.options|
      ensures var items := Items(row, ballots, viewer, |row.options|);
        ItemMeans(items[i], row.options[i].id, poll, w.votes, viewer, row.isAnonymous) {
      ItemFollows(row, poll, w.votes, viewer, i);
      ItemsAre(row, ballots, viewer, |row.options|, i);
    }
  }

  // --- When a poll goes ---

  ghost predicate Extends(run: Run, past: Run) {
    run == past || (run.Then? && Extends(run.past, past))
  }

  lemma {:induction false} ExtendsRun(run: Run, past: Run)
    requires IsRun(run) && Extends(run, past)
    ensures IsRun(past)
  {
    if run != past {
      ExtendsRun(run.past, past);
    }
  }

  /** Empty rosters stay empty, accounts that are gone stay gone, and ids given out stay given out. */
  ghost predicate Ages(past: Run, run: Run) {
    var s, t := Last(past).store, Last(run).store;
    && (forall c :: c < s.nextId && M.Roster(s, c) == {} ==> M.Roster(t, c) == {})
    && s.nextId <= t.nextId
    && (forall u :: u in O.Issued(Commands(past)) && u in t.users ==> u in s.users)
    && O.Issued(Commands(past)) <= O.Issued(Commands(run))
    && MessageIds(past) <= MessageIds(run) && PollIds(past) <= PollIds(run)
  }

  lemma StepAges(run: Run)
    requires IsRun(run) && run.Then?
    ensures Ages(run.past, run)
  {
    CommandsRun(run.past);
    if run.op.Command? {
      CommandMoves(Last(run.past).store, run.op.op, run.world.store);
    }
  }

  lemma {:induction false} RunAges(past: Run, run: Run)
    requires IsRun(run) && Extends(run, past)
    ensures Ages(past, run)
    decreases run
  {
    if run != past {
      RunAges(past, run.past);
      StepAges(run);
    }
  }

  /** The poll hangs on the message `m` that `author` wrote in `chat`. */
  predicate PostedBy(w: World, poll: int, m: int, chat: int, author: int) {
    && poll in w.polls && w.polls[poll].messageId == m
    && m in w.messages && w.messages[m].chatId == chat && w.messages[m].senderId == author
  }

  /** The author has an account, and the chat has members. */
  predicate KeepsPoll(s: M.Store, chat: int, author: int) {
    author in s.users && M.Roster(s, chat) != {}
  }

  lemma StepKeepsPoll(w: World, op: Op, t: World, poll: int, m: int, chat: int, author: int)
    requires M.Sound(w.store) && Fits(w) && Step(w, op, t) && PostedBy(w, poll, m, chat, author)
    requires op.NewPoll? ==> op.messageId != m && op.poll != poll
    ensures poll in t.polls <==> KeepsPoll(t.store, chat, author)
    ensures poll in t.polls ==> PostedBy(t, poll, m, chat, author)
  {
    assert Alive(w.store, w.messages[m]);
    if op.Command? {
      MessagesStayAlive(w.messages, w.store, op.op, t.store, t.messages);
      assert Alive(t.store, w.messages[m]) <==> KeepsPoll(t.store, chat, author);
    }
  }

  lemma StepBringsNoPollBack(w: World, op: Op, t: World, poll: int)
    requires Step(w, op, t) && poll !in w.polls && (op.NewPoll? ==> op.poll != poll)
    ensures poll !in t.polls
  {
  }

  /**
   A poll stays, on its message, as long as its author has an account and its chat has members, and no
   longer: it goes with its author's account and with its chat.
   */
  lemma {:induction false} PollStaysIff(past: Run, run: Run, poll: int, m: int, chat: int, author: int)
    requires IsRun(run) && Extends(run, past) && PostedBy(Last(past), poll, m, chat, author)
    ensures poll in Last(run).polls <==> KeepsPoll(Last(run).store, chat, author)
    ensures poll in Last(run).polls ==> PostedBy(Last(run), poll, m, chat, author)
    decreases run
  {
    ExtendsRun(run, past);
    RunFits(past);
    if run == past {
      assert Alive(Last(past).store, Last(past).messages[m]);
    } else {
      var w, t := Last(run.past), run.world;
      PollStaysIff(past, run.past, poll, m, chat, author);
      RunAges(past, run.past);
      StepAges(run);
      RunFits(run.past);
      CommandsRun(run.past);
      if poll in w.polls {
        StepKeepsPoll(w, run.op, t, poll, m, chat, author);
      } else {
        StepBringsNoPollBack(w, run.op, t, poll);
        GoneStaysGone(past, run, m, chat, author);
      }
    }
  }

  lemma GoneStaysGone(past: Run, run: Run, m: int, chat: int, author: int)
    requires IsRun(past) && IsRun(run) && run.Then? && Ages(past, run.past) && Ages(run.past, run)
    requires KeepsPoll(Last(past).store, chat, author) && !KeepsPoll(Last(run.past).store, chat, author)
    ensures !KeepsPoll(Last(run).store, chat, author)
  {
    CommandsRun(past);
    O.RunFits(Commands(past));
    HasChat(Last(past).store, chat);
  }

  /** A deletion of another account takes a poll along if it empties the poll's chat; its author stays. */
  lemma OtherAccountTakesPoll(run: Run, poll: int, m: int, chat: int, author: int, user: int)
    requires IsRun(run) && run.Then? && run.op == Command(O.DeleteAccount(user, true)) && user !in run.world.store.users
    requires PostedBy(Last(run.past), poll, m, chat, author) && user != author
    requires M.Emptied(Last(run.past).store, user, chat)
    ensures poll !in Last(run).polls && author in Last(run).store.users
  {
    var w, t := Last(run.past), run.world;
    CommandsRun(run.past);
    RunFits(run.past);
    assert Alive(w.store, w.messages[m]);
    AccountEmptiesChat(w.store, user, t.store, chat);
    StepKeepsPoll(w, run.op, t, poll, m, chat, author);
  }

  lemma AccountEmptiesChat(s: M.Store, user: int, t: M.Store, chat: int)
    requires M.Sound(s) && O.Step(s, O.DeleteAccount(user, true), t) && user !in t.users
    requires M.Emptied(s, user, chat)
    ensures t.users == s.users - {user} && M.Roster(t, chat) == {}
  {
    var order, ok :| M.IsOrder(s, user, order) && M.Outcome(s, user, true, order, t, ok);
    M.RosterIs(s, chat, user);
    DeletionRosters(s, user, order, t, ok);
  }

  /** A chat keeps its kind and its key. */
  ghost predicate KeepsKeys(s: M.Store, t: M.Store) {
    && s.nextId <= t.nextId
    && forall c :: c in t.chats && c < s.nextId ==>
         c in s.chats && t.chats[c].kind == s.chats[c].kind && t.chats[c].pair == s.chats[c].pair
  }

  lemma CommandKeepsKeys(s: M.Store, op: O.Op, t: M.Store)
    requires M.Sound(s) && O.Step(s, op, t) && (op.DeleteAccount? ==> op.checksKeys)
    ensures KeepsKeys(s, t)
  {
    match op
    case CreateChat(actor, chatType, memberIds, blank) =>
      var reply :| M.ChatCreated(s, actor, M.KindOf(chatType), M.Others(memberIds, actor), blank, t, reply);
    case Leave(c, actor) =>
      if t != s { O.LeftRows(s, c, actor); }
    case Remove(c, actor, target) => O.RemoveTakesOneRow(s, c, actor, target);
    case DeleteAccount(_, _) => DeletionKeepsKeys(s, op, t);
    case _ =>
  }

  lemma DeletionKeepsKeys(s: M.Store, op: O.Op, t: M.Store)
    requires M.Sound(s) && O.Step(s, op, t) && op.DeleteAccount? && op.checksKeys
    ensures KeepsKeys(s, t)
  {
    var order, ok :| M.IsOrder(s, op.user, order) && M.Outcome(s, op.user, true, order, t, ok);
    O.DeletionMeans(s, op.user, true, order, t, ok);
  }

  lemma {:induction false} RunKeepsKeys(past: Run, run: Run)
    requires IsRun(run) && Extends(run, past)
    ensures KeepsKeys(Last(past).store, Last(run).store)
    decreases run
  {
    if run != past {
      RunKeepsKeys(past, run.past);
      CommandsRun(run.past);
      if run.op.Command? {
        CommandKeepsKeys(Last(run.past).store, run.op.op, run.world.store);
      }
    } else {
      CommandsRun(run);
    }
  }

  /** Whoever wrote in a private chat is one of the two. */
  ghost predicate WrittenByPair(s: M.Store, message: M.Message) {
    message.chatId in s.chats && s.chats[message.chatId].pair.Some? ==>
      var pair := s.chats[message.chatId].pair.value; message.senderId in {pair.0, pair.1}
  }

  ghost predicate WrittenByPairs(w: World) {
    forall m :: m in w.messages ==> WrittenByPair(w.store, w.messages[m])
  }

  lemma CommandKeepsWriters(w: World, op: O.Op, t: World)
    requires M.Sound(w.store) && Fits(w) && Step(w, Command(op), t) && WrittenByPairs(w)
    ensures WrittenByPairs(t)
  {
    CommandKeepsKeys(w.store, op, t.store);
    MessagesStayAlive(w.messages, w.store, op, t.store, t.messages);
    forall m | m in t.messages ensures WrittenByPair(t.store, t.messages[m]) {
      assert WrittenByPair(w.store, w.messages[m]) && Alive(w.store, w.messages[m]);
      HasChat(w.store, w.messages[m].chatId);
    }
  }

  lemma WriterIsInPair(s: M.Store, issued: set<int>, chat: int, user: int, isPoll: bool)
    requires O.PairsFit(s, issued) && M.Linked(s) && (chat, user) in s.members
    ensures WrittenByPair(s, M.Message(chat, user, isPoll))
  {
    assert O.RowFits(s, issued, chat);
    M.RosterIs(s, chat, user);
  }

  lemma {:induction false} RunIsWrittenByPairs(run: Run)
    requires IsRun(run)
    ensures WrittenByPairs(Last(run))
  {
    if run.Then? {
      var w, op := Last(run.past), run.op;
      RunIsWrittenByPairs(run.past);
      CommandsRun(run.past);
      if op.Command? {
        RunFits(run.past);
        CommandKeepsWriters(w, op.op, run.world);
      } else if op.NewPoll? && (op.chat, op.user) in w.store.members {
        O.RunFits(Commands(run.past));
        WriterIsInPair(w.store, O.Issued(Commands(run.past)), op.chat, op.user, true);
      }
    }
  }

  /** While a private chat has members they are the ones it had. */
  lemma PairIs(past: Run, run: Run, chat: int)
    requires IsRun(run) && Extends(run, past) && M.Roster(Last(run).store, chat) != {}
    requires chat in Last(past).store.chats && Last(past).store.chats[chat].kind.Private?
    requires M.Roster(Last(past).store, chat) != {}
    ensures M.Roster(Last(run).store, chat) == M.Roster(Last(past).store, chat)
    ensures M.Roster(Last(past).store, chat) <= Last(run).store.users && |M.Roster(Last(past).store, chat)| == 2
    ensures chat in Last(run).store.chats && Last(run).store.chats[chat].kind.Private?
  {
    var s, t := Last(past).store, Last(run).store;
    ExtendsRun(run, past);
    RunKeepsKeys(past, run);
    CommandsRun(past);
    CommandsRun(run);
    HasChat(s, chat);
    HasChat(t, chat);
    O.RunFits(Commands(past));
    O.RunFits(Commands(run));
    assert O.RowFits(s, O.Issued(Commands(past)), chat) && O.RowFits(t, O.Issued(Commands(run)), chat);
    forall u | u in M.Roster(t, chat) ensures u in t.users {
      M.RosterIs(t, chat, u);
    }
  }

  /** Both of the two are there, or nobody is and one of the two has no account. */
  ghost predicate PairOrNone(past: Run, run: Run, chat: int) {
    var roster := M.Roster(Last(past).store, chat);
    M.Roster(Last(run).store, chat) == {} ==> !(roster <= Last(run).store.users)
  }

  lemma PairGoesNow(past: Run, run: Run, chat: int)
    requires IsRun(run) && run.Then? && Extends(run.past, past) && M.Roster(Last(run.past).store, chat) != {}
    requires chat in Last(past).store.chats && Last(past).store.chats[chat].kind.Private?
    requires M.Roster(Last(past).store, chat) != {}
    ensures PairOrNone(past, run, chat)
  {
    PairIs(past, run.past, chat);
    CommandsRun(run.past);
    if M.Roster(Last(run).store, chat) == {} {
      PairIsEmptied(Last(run.past).store, run.op.op, run.world.store, chat);
    }
  }

  lemma {:induction false} PairStays(past: Run, run: Run, chat: int)
    requires IsRun(run) && Extends(run, past)
    requires chat in Last(past).store.chats && Last(past).store.chats[chat].kind.Private?
    requires M.Roster(Last(past).store, chat) != {}
    ensures PairOrNone(past, run, chat)
    decreases run
  {
    if run != past {
      if M.Roster(Last(run.past).store, chat) == {} {
        PairStays(past, run.past, chat);
        ExtendsRun(run, past);
        RunAges(past, run.past);
        StepAges(run);
        MembersWereIssued(past, chat);
        NoneComesBack(past, run, chat);
      } else {
        PairGoesNow(past, run, chat);
      }
    }
  }

  lemma PairIsEmptied(s: M.Store, op: O.Op, t: M.Store, chat: int)
    requires M.Sound(s) && O.Step(s, op, t) && (op.DeleteAccount? ==> op.checksKeys)
    requires chat in s.chats && s.chats[chat].kind.Private?
    requires M.Roster(s, chat) != {} && M.Roster(t, chat) == {}
    ensures !(M.Roster(s, chat) <= t.users)
  {
    CommandMoves(s, op, t);
    assert Empties(s, op, t, chat);
  }

  lemma NoneComesBack(past: Run, run: Run, chat: int)
    requires M.Roster(Last(past).store, chat) <= O.Issued(Commands(past))
    requires run.Then? && Ages(past, run.past) && Ages(run.past, run)
    requires !(M.Roster(Last(past).store, chat) <= Last(run.past).store.users)
    ensures !(M.Roster(Last(past).store, chat) <= Last(run).store.users)
  {
    var roster := M.Roster(Last(past).store, chat);
    if roster <= Last(run).store.users {
      forall u | u in roster ensures u in Last(run.past).store.users {
      }
    }
  }

  lemma MembersWereIssued(run: Run, chat: int)
    requires IsRun(run)
    ensures M.Roster(Last(run).store, chat) <= O.Issued(Commands(run))
  {
    var s := Last(run).store;
    CommandsRun(run);
    O.RunFits(Commands(run));
    forall u | u in M.Roster(s, chat) ensures u in s.users {
      M.RosterIs(s, chat, u);
      assert (chat, u) in s.members;
    }
  }

  /** A poll in a private chat stays exactly as long as both members have their accounts. */
  lemma PrivatePollStaysIff(past: Run, run: Run, poll: int, m: int, chat: int, author: int)
    requires IsRun(run) && Extends(run, past) && PostedBy(Last(past), poll, m, chat, author)
    requires chat in Last(past).store.chats && Last(past).store.chats[chat].kind.Private?
    ensures |M.Roster(Last(past).store, chat)| == 2
    ensures poll in Last(run).polls <==> M.Roster(Last(past).store, chat) <= Last(run).store.users
  {
    var s, t := Last(past).store, Last(run).store;
    ExtendsRun(run, past);
    PollStaysIff(past, run, poll, m, chat, author);
    RunFits(past);
    RunIsWrittenByPairs(past);
    assert Alive(s, Last(past).messages[m]) && WrittenByPair(s, Last(past).messages[m]);
    CommandsRun(past);
    O.RunFits(Commands(past));
    assert O.RowFits(s, O.Issued(Commands(past)), chat);
    PairIs(past, past, chat);
    if M.Roster(t, chat) == {} {
      PairStays(past, run, chat);
    } else {
      PairIs(past, run, chat);
    }
  }

  // --- After closing ---

  function ByOneOf(users: set<int>): Vote -> bool {
    (v: Vote) => v.user in users
  }

  lemma CascadedBallots(votes: seq<Vote>, gone: set<int>, users: set<int>, left: set<int>, poll: int)
    requires poll !in gone && forall v :: v in votes ==> v.user in users
    ensures VotesOf(Keep(votes, Survives(gone, users - left)), poll) == Keep(VotesOf(votes, poll), ByOneOf(left))
  {
    var both := (v: Vote) => v.poll == poll && v.user in left;
    KeepTwice(votes, Survives(gone, users - left), InPoll(poll), both);
    KeepTwice(votes, InPoll(poll), ByOneOf(left), both);
  }

  lemma OtherBallot(votes: seq<Vote>, other: int, user: int, ballot: seq<Vote>, poll: int)
    requires poll != other && forall v :: v in ballot ==> v.poll == other
    ensures VotesOf(WithoutBallot(votes, other, user) + ballot, poll) == VotesOf(votes, poll)
  {
    KeepConcat(WithoutBallot(votes, other, user), ballot, InPoll(poll));
    KeepNone(ballot, InPoll(poll));
    KeepTwice(votes, NoBallotOf(other, user), InPoll(poll), InPoll(poll));
  }

  lemma StepKeepsClosed(w: World, op: Op, t: World, poll: int)
    requires Fits(w) && Step(w, op, t) && poll in w.polls && w.polls[poll].isClosed && poll in t.polls
    requires op.NewPoll? ==> op.poll != poll
    ensures t.polls[poll] == w.polls[poll]
    ensures VotesOf(t.votes, poll) == Keep(VotesOf(w.votes, poll), ByOneOf(t.store.users))
  {
    KeepVoters(w, poll);
    match op
    case Command(_) =>
      CascadedBallots(w.votes, GonePolls(w, t.messages), w.store.users, t.store.users, poll);
    case Cast(user, messageId, other, ids) =>
      var refusal :| Voted(View(w), user, messageId, other, ids, View(t), refusal);
      if refusal.None? {
        var kept := WithoutBallot(w.votes, other, user);
        OtherBallot(w.votes, other, user, t.votes[|kept|..], poll);
        assert t.votes == kept + t.votes[|kept|..];
      }
    case _ =>
  }

  lemma KeepVoters(w: World, poll: int)
    requires forall v :: v in w.votes ==> v.user in w.store.users
    ensures Keep(VotesOf(w.votes, poll), ByOneOf(w.store.users)) == VotesOf(w.votes, poll)
  {
    forall v | v in VotesOf(w.votes, poll) ensures v in w.votes {
      KeepIs(w.votes, InPoll(poll), v);
    }
    KeepAll(VotesOf(w.votes, poll), ByOneOf(w.store.users));
  }

  /** The ballots of `past` by the users who still have an account. */
  function BallotsLeft(past: Run, run: Run, poll: int): seq<Vote> {
    Keep(VotesOf(Last(past).votes, poll), ByOneOf(Last(run).store.users))
  }

  lemma BallotsLeftLater(past: Run, run: Run, poll: int)
    requires IsRun(run) && run.Then? && IsRun(past) && Ages(past, run.past) && Ages(run.past, run)
    ensures Keep(BallotsLeft(past, run.past, poll), ByOneOf(Last(run).store.users)) == BallotsLeft(past, run, poll)
  {
    var ballots := VotesOf(Last(past).votes, poll);
    RunFits(past);
    CommandsRun(past);
    O.RunFits(Commands(past));
    forall v | v in ballots ensures v.user in O.Issued(Commands(past)) {
      KeepIs(Last(past).votes, InPoll(poll), v);
    }
    KeepTwice(ballots, ByOneOf(Last(run.past).store.users), ByOneOf(Last(run).store.users),
              ByOneOf(Last(run).store.users));
  }

  /** The row of a closed poll and its ballots, as they were but for the accounts deleted since. */
  ghost predicate SettledSince(past: Run, run: Run, poll: int) {
    && poll in Last(past).polls && Last(past).polls[poll].isClosed
    && poll in Last(run).polls && Last(run).polls[poll] == Last(past).polls[poll]
    && VotesOf(Last(run).votes, poll) == BallotsLeft(past, run, poll)
  }

  lemma StaysSettled(past: Run, run: Run, poll: int)
    requires IsRun(run) && run.Then? && IsRun(past) && Ages(past, run.past) && Ages(run.past, run)
    requires SettledSince(past, run.past, poll) && poll in run.world.polls && poll in PollIds(run.past)
    ensures SettledSince(past, run, poll)
  {
    BallotsLeftLater(past, run, poll);
    RunFits(run.past);
    StepKeepsClosed(Last(run.past), run.op, run.world, poll);
  }

  lemma {:induction false} ClosedStaysSettled(past: Run, run: Run, poll: int)
    requires IsRun(run) && Extends(run, past) && poll in Last(past).polls && Last(past).polls[poll].isClosed
    requires poll in PollIds(past) && poll in Last(run).polls
    ensures SettledSince(past, run, poll)
    decreases run
  {
    ExtendsRun(run, past);
    if run == past {
      RunFits(past);
      KeepVoters(Last(past), poll);
    } else {
      RunAges(past, run.past);
      if poll !in Last(run.past).polls {
        StepBringsNoPollBack(Last(run.past), run.op, run.world, poll);
      }
      ClosedStaysSettled(past, run.past, poll);
      StepAges(run);
      StaysSettled(past, run, poll);
    }
  }

  /**
   Once a poll is closed, and while it stays, its row never changes and its ballots are those of then by
   the users who still have an account: so is the tally of every viewer. When it goes says `PollStaysIff`.
   */
  lemma ClosedTallyIsFinal(past: Run, run: Run, poll: int, viewer: Option<int>)
    requires IsRun(run) && Extends(run, past) && poll in Last(past).polls && Last(past).polls[poll].isClosed
    requires poll in Last(run).polls
    ensures Last(run).polls[poll] == Last(past).polls[poll]
    ensures VotesOf(Last(run).votes, poll) == BallotsLeft(past, run, poll)
    ensures Tally(poll, Last(run).polls[poll], VotesOf(Last(run).votes, poll), viewer)
         == Tally(poll, Last(past).polls[poll], BallotsLeft(past, run, poll), viewer)
  {
    ExtendsRun(run, past);
    RunFits(past);
    ClosedStaysSettled(past, run, poll);
  }

  // --- Who posts and who closes ---

  /** A member's poll is posted, open and without votes; anybody else's changes nothing. */
  lemma PostingMeans(run: Run)
    requires IsRun(run) && run.Then? && run.op.NewPoll?
    ensures var w, t, op := Last(run.past), run.world, run.op;
      && ((op.chat, op.user) !in w.store.members ==> t == w)
      && ((op.chat, op.user) in w.store.members ==>
            && PostedBy(t, op.poll, op.messageId, op.chat, op.user) && t.messages[op.messageId].isPoll
            && t.polls[op.poll] == op.row && !op.row.isClosed
            && t.votes == w.votes && VotesOf(t.votes, op.poll) == []
            && forall p :: p in w.polls ==> p in t.polls && t.polls[p] == w.polls[p])
  {
    RunFits(run.past);
    var w, op := Last(run.past), run.op;
    forall v | v in w.votes ensures v.poll != op.poll {
      assert VoteFits(w.polls, v);
    }
    KeepNone(w.votes, InPoll(op.poll));
  }

  /** A poll that is closed was closed by its author, while the author was in its chat. */
  lemma {:induction false} ClosedOnlyByAuthor(run: Run, poll: int)
    requires IsRun(run) && poll in Last(run).polls && Last(run).polls[poll].isClosed
    ensures exists past :: Extends(run, past) && ClosesAsAuthor(past, poll)
  {
    var w := Last(run.past);
    RunFits(run.past);
    CommandsRun(run.past);
    if poll in w.polls && w.polls[poll].isClosed {
      ClosedOnlyByAuthor(run.past, poll);
      var past :| Extends(run.past, past) && ClosesAsAuthor(past, poll);
      assert Extends(run, past);
    } else {
      assert ClosesAsAuthor(run, poll);
      assert Extends(run, run);
    }
  }

  /** The last step closes the poll, by the sender of its message and a member of its chat. */
  ghost predicate ClosesAsAuthor(run: Run, poll: int) {
    && run.Then? && run.op.Close?
    && var w := Last(run.past);
       poll in w.polls && w.polls[poll].messageId in w.messages
       && var m := w.messages[w.polls[poll].messageId];
          m.senderId == run.op.user && (m.chatId, run.op.user) in w.store.members
  }
}
