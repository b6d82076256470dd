/**
 One group with any number of requests in flight that leave it, remove members or add them. A request reads
 and checks first and writes later; the commands take no lock in between. Writing, counting the members left
 and committing is one step.
 */
module GroupRaces {
  import opened Common
  import opened Orders
  import opened Membership

  /** A membership row; a member who comes back gets a new one. */
  datatype Seat = Seat(id: int, role: Role)

  datatype GroupRows = GroupRows(alive: bool, creator: int, seats: map<int, Seat>)

  datatype Command =
    | Leave(user: int)
    | Remove(actor: int, target: int)
    | Add(actor: int, user: int)

  /** What a request means to write, from what it has read. */
  datatype Plan =
    | Go(own: int, heir: Option<(int, int)>)   // its own row, and the next owner with that one's row
    | Drop(row: int)
    | Insert

  datatype Phase = Reading | Ready(plan: Plan) | Done | Failed

  datatype Request = Request(command: Command, phase: Phase)

  datatype State = State(group: GroupRows, nextId: int, requests: map<int, Request>)

  datatype Event =
    | Arrive(r: int, command: Command)
    | Look(r: int)
    | Commit(r: int)
    | Abort(r: int)

  predicate Holds(g: GroupRows, user: int, id: int) {
    user in g.seats && g.seats[user].id == id
  }

  function Others(g: GroupRows, user: int): set<int> {
    g.seats.Keys - {user}
  }

  function NextOwner(g: GroupRows, user: int): Option<(int, int)> {
    if g.creator == user && Others(g, user) != {}
    then
      var next := Smallest(Others(g, user));
      Some((next, g.seats[next].id))
    else None
  }

  /** The checks of a command; none means that it is refused. */
  function PlanOf(g: GroupRows, command: Command): Option<Plan> {
    if !g.alive then None else
      match command
      case Leave(user) =>
        if user !in g.seats then None else Some(Go(g.seats[user].id, NextOwner(g, user)))
      case Remove(actor, target) =>
        if actor !in g.seats || g.seats[actor].role != Owner || g.creator != actor then None
        else if target == actor || target !in g.seats then None
        else Some(Drop(g.seats[target].id))
      case Add(actor, user) =>
        if actor !in g.seats || user == actor || user in g.seats then None else Some(Insert)
  }

  /** Deleting a row that is gone already deletes nothing; the chat goes if nobody is left. */
  function WithoutSeat(g: GroupRows, user: int, id: int): GroupRows {
    var left := if Holds(g, user, id) then g.seats - {user} else g.seats;
    GroupRows(g.alive && left != map[], g.creator, left)
  }

  function Handed(g: GroupRows, user: int): GroupRows
    requires user in g.seats
  {
    GroupRows(g.alive, user, g.seats[user := g.seats[user].(role := Owner)])
  }

  /**
   What is written, or none: updating a row that is gone, inserting a second row of a user and inserting into
   a chat that is gone are errors.
   */
  function Written(g: GroupRows, command: Command, plan: Plan, nextId: int): Option<GroupRows> {
    match (command, plan)
    case (Leave(user), Go(own, None)) => Some(WithoutSeat(g, user, own))
    case (Leave(user), Go(own, Some((next, row)))) =>
      if Holds(g, next, row) then Some(WithoutSeat(Handed(g, next), user, own)) else None
    case (Remove(_, target), Drop(row)) => Some(WithoutSeat(g, target, row))
    case (Add(_, user), Insert) =>
      if g.alive && user !in g.seats then Some(g.(seats := g.seats[user := Seat(nextId, Member)])) else None
    case _ => None
  }

  // --- Alone, a request does what the command does ---

  function RolesOf(g: GroupRows): map<(int, int), Role> {
    map u | u in g.seats :: (0, u) := g.seats[u].role
  }

  function Rows(g: GroupRows, users: set<int>): Store {
    Store(users, if g.alive then map[0 := Chat(Group, Some(g.creator), None)] else map[], RolesOf(g), 1)
  }

  /** What `Membership` says of the command on this chat. */
  function Sequential(s: Store, command: Command): Store {
    match command
    case Leave(user) => Left(s, 0, user).0
    case Remove(actor, target) => Removed(s, 0, actor, target).0
    case Add(actor, user) => Added(s, 0, actor, user).0
  }

  function AtOnce(g: GroupRows, command: Command, nextId: int): GroupRows {
    var plan := PlanOf(g, command);
    if plan.None? then g else Written(g, command, plan.value, nextId).GetOr(g)
  }

  lemma RosterOfRows(g: GroupRows, users: set<int>)
    ensures Roster(Rows(g, users), 0) == g.seats.Keys
  {
    forall u ensures u in Roster(Rows(g, users), 0) <==> u in g.seats {
      RosterIs(Rows(g, users), 0, u);
    }
  }

  lemma WithoutSeatAgrees(g: GroupRows, user: int, users: set<int>)
    requires g.alive && user in g.seats
    ensures var s := Rows(g, users);
      Rows(WithoutSeat(g, user, g.seats[user].id), users)
        == WithoutEmptyChat(s.(members := s.members - {(0, user)}), 0)
  {
    var s, left := Rows(g, users), GroupRows(true, g.creator, g.seats - {user});
    RosterOfRows(left, users);
    assert RolesOf(left) == s.members - {(0, user)} by {
      assert forall u :: u in left.seats <==> u in g.seats && u != user;
    }
    assert left.seats == map[] <==> left.seats.Keys == {};
    assert s.chats - {0} == map[];
  }

  lemma HandedAgrees(g: GroupRows, next: int, users: set<int>)
    requires g.alive && next in g.seats
    ensures Rows(Handed(g, next), users) == Promoted(Rows(g, users), 0, next)
  {
    var t := Handed(g, next);
    assert RolesOf(t) == RolesOf(g)[(0, next) := Owner] by {
      assert forall u :: u in t.seats <==> u in g.seats;
    }
  }

  lemma LeaveAgrees(g: GroupRows, user: int, users: set<int>, nextId: int)
    requires g.alive && user in g.seats
    ensures Rows(AtOnce(g, Leave(user), nextId), users) == Left(Rows(g, users), 0, user).0
  {
    RosterOfRows(g, users);
    if NextOwner(g, user).Some? {
      var next := Smallest(Others(g, user));
      assert next in Others(g, user);
      HandedAgrees(g, next, users);
      WithoutSeatAgrees(Handed(g, next), user, users);
    } else {
      WithoutSeatAgrees(g, user, users);
    }
  }

  lemma RemoveAgrees(g: GroupRows, actor: int, target: int, users: set<int>, nextId: int)
    requires g.alive && actor in g.seats && target in g.seats && actor != target
    requires g.creator == actor && g.seats[actor].role == Owner
    ensures Rows(AtOnce(g, Remove(actor, target), nextId), users) == Removed(Rows(g, users), 0, actor, target).0
  {
    WithoutSeatAgrees(g, target, users);
  }

  lemma AddAgrees(g: GroupRows, actor: int, user: int, users: set<int>, nextId: int)
    requires g.alive && actor in g.seats && user !in g.seats && user in users
    ensures Rows(AtOnce(g, Add(actor, user), nextId), users) == Added(Rows(g, users), 0, actor, user).0
  {
    var t := AtOnce(g, Add(actor, user), nextId);
    assert RolesOf(t) == RolesOf(g)[(0, user) := Member] by {
      assert forall u :: u in t.seats <==> u in g.seats || u == user;
    }
  }

  /** A request that reads and writes undisturbed does exactly what the command of `Membership` does. */
  lemma UndisturbedAgrees(g: GroupRows, command: Command, users: set<int>, nextId: int)
    requires (g.alive <==> g.seats != map[]) && (command.Add? ==> command.user in users)
    ensures Rows(AtOnce(g, command, nextId), users) == Sequential(Rows(g, users), command)
  {
    if PlanOf(g, command).Some? {
      match command
      case Leave(user) => LeaveAgrees(g, user, users, nextId);
      case Remove(actor, target) => RemoveAgrees(g, actor, target, users, nextId);
      case Add(actor, user) => AddAgrees(g, actor, user, users, nextId);
    }
  }

  predicate Enabled(exclusive: bool, s: State, e: Event) {
    match e
    case Arrive(r, _) => r !in s.requests
    case Look(r) =>
      && r in s.requests && s.requests[r].phase.Reading?
      && (exclusive ==> forall o :: o in s.requests ==> !s.requests[o].phase.Ready?)
    case Commit(r) => r in s.requests && s.requests[r].phase.Ready?
    case Abort(r) => r in s.requests && (s.requests[r].phase.Reading? || s.requests[r].phase.Ready?)
  }

  function Phased(s: State, r: int, phase: Phase): State
    requires r in s.requests
  {
    s.(requests := s.requests[r := s.requests[r].(phase := phase)])
  }

  /** One step; `exclusive` holds a request back while another has read and not yet written. */
  function Next(exclusive: bool, s: State, e: Event): State {
    if !Enabled(exclusive, s, e) then s else
      match e
      case Arrive(r, command) => s.(requests := s.requests[r := Request(command, Reading)])
      case Look(r) =>
        var plan := PlanOf(s.group, s.requests[r].command);
        Phased(s, r, if plan.Some? then Ready(plan.value) else Failed)
      case Commit(r) =>
        var q := s.requests[r];
        var written := Written(s.group, q.command, q.phase.plan, s.nextId);
        if written.None? then Phased(s, r, Failed)
        else Phased(s.(group := written.value, nextId := s.nextId + 1), r, Done)
      case Abort(r) => Phased(s, r, Failed)
  }

  function After(exclusive: bool, first: State, events: seq<Event>): State {
    if events == [] then first
    else Next(exclusive, After(exclusive, first, events[..|events| - 1]), events[|events| - 1])
  }

  // --- The owner ---

  /** The creator is a member and the only owner, and the chat is gone with its last member. */
  ghost predicate Owned(g: GroupRows) {
    && (g.alive <==> g.seats != map[])
    && (g.alive ==> g.creator in g.seats)
    && forall u :: u in g.seats ==> (g.seats[u].role == Owner <==> u == g.creator)
  }

  ghost predicate Start(first: State) {
    Owned(first.group) && first.requests == map[]
  }

  /** A plan as a request makes it. */
  ghost predicate Sensible(command: Command, plan: Plan) {
    match (command, plan)
    case (Leave(user), Go(_, heir)) => heir.Some? ==> heir.value.0 != user
    case (Remove(_, _), Drop(_)) => true
    case (Add(_, _), Insert) => true
    case _ => false
  }

  /**
   Since the request read, the ownership has moved: to the member whose row goes although others stay, or
   from the one who hands it over to someone else than the heir.
   */
  predicate Overtaken(g: GroupRows, command: Command, plan: Plan) {
    match (command, plan)
    case (Leave(user), Go(own, None)) => Holds(g, user, own) && g.creator == user && Others(g, user) != {}
    case (Leave(user), Go(own, Some((next, row)))) =>
      Holds(g, next, row) && g.creator != next && !(g.creator == user && Holds(g, user, own))
    case (Remove(_, target), Drop(row)) => Holds(g, target, row) && g.creator == target && Others(g, target) != {}
    case _ => false
  }

  lemma WithoutSeatIs(g: GroupRows, user: int, id: int)
    requires g.alive <==> g.seats != map[]
    ensures var t := WithoutSeat(g, user, id);
      && t.seats.Keys == (if Holds(g, user, id) then Others(g, user) else g.seats.Keys)
      && (forall u :: u in t.seats ==> t.seats[u] == g.seats[u])
      && t.creator == g.creator && (t.alive <==> t.seats.Keys != {})
  {
    var t := WithoutSeat(g, user, id);
    assert t.seats == map[] <==> t.seats.Keys == {};
  }

  /** What is written keeps the owner if and only if the request was not overtaken. */
  lemma WritingKeepsOwnerIff(g: GroupRows, command: Command, plan: Plan, nextId: int)
    requires Owned(g) && Sensible(command, plan) && Written(g, command, plan, nextId).Some?
    ensures Owned(Written(g, command, plan, nextId).value) <==> !Overtaken(g, command, plan)
  {
    var t := Written(g, command, plan, nextId).value;
    match (command, plan)
    case (Leave(user), Go(own, None)) => WithoutSeatIs(g, user, own);
    case (Leave(user), Go(own, Some((next, row)))) =>
      WithoutSeatIs(Handed(g, next), user, own);
      if Overtaken(g, command, plan) {
        assert g.creator in t.seats && t.seats[g.creator].role == Owner;
      }
    case (Remove(_, target), Drop(row)) => WithoutSeatIs(g, target, row);
    case _ =>
  }

  lemma PlansAreSensible(g: GroupRows, command: Command)
    requires PlanOf(g, command).Some?
    ensures Sensible(command, PlanOf(g, command).value)
    ensures Owned(g) ==> !Overtaken(g, command, PlanOf(g, command).value)
  {
    match command
    case Leave(user) =>
      if NextOwner(g, user).Some? {
        assert Smallest(Others(g, user)) in Others(g, user);
      }
    case _ =>
  }

  // --- Runs ---

  ghost predicate ReadyWith(s: State, r: int, plan: Plan) {
    r in s.requests && s.requests[r].phase == Ready(plan)
  }

  ghost predicate PlansFit(s: State) {
    forall r, plan :: ReadyWith(s, r, plan) ==> Sensible(s.requests[r].command, plan)
  }

  /** The event writes what a request planned before it was overtaken. */
  ghost predicate WritesOvertaken(s: State, e: Event) {
    && e.Commit? && e.r in s.requests && s.requests[e.r].phase.Ready?
    && var q := s.requests[e.r];
       Written(s.group, q.command, q.phase.plan, s.nextId).Some? && Overtaken(s.group, q.command, q.phase.plan)
  }

  lemma StepKeepsPlans(exclusive: bool, s: State, e: Event)
    requires PlansFit(s)
    ensures PlansFit(Next(exclusive, s, e))
  {
    var t := Next(exclusive, s, e);
    forall r, plan | ReadyWith(t, r, plan) ensures Sensible(t.requests[r].command, plan) {
      if e == Look(r) && Enabled(exclusive, s, e) {
        PlansAreSensible(s.group, s.requests[r].command);
      } else {
        assert ReadyWith(s, r, plan);
      }
    }
  }

  lemma StepKeepsOwnerIff(exclusive: bool, s: State, e: Event)
    requires Owned(s.group) && PlansFit(s)
    ensures Owned(Next(exclusive, s, e).group) <==> !WritesOvertaken(s, e)
  {
    if e.Commit? && Enabled(exclusive, s, e) {
      var q := s.requests[e.r];
      assert ReadyWith(s, e.r, q.phase.plan);
      if Written(s.group, q.command, q.phase.plan, s.nextId).Some? {
        WritingKeepsOwnerIff(s.group, q.command, q.phase.plan, s.nextId);
      }
    }
  }

  function At(exclusive: bool, first: State, events: seq<Event>, n: nat): State
    requires n <= |events|
  {
    After(exclusive, first, events[..n])
  }

  lemma AtNext(exclusive: bool, first: State, events: seq<Event>, n: nat)
    requires n < |events|
    ensures At(exclusive, first, events, n + 1) == Next(exclusive, At(exclusive, first, events, n), events[n])
  {
    assert events[..n + 1][..n] == events[..n];
  }

  lemma {:induction false} RunKeepsPlans(exclusive: bool, first: State, events: seq<Event>, n: nat)
    requires Start(first) && n <= |events|
    ensures PlansFit(At(exclusive, first, events, n))
  {
    if n > 0 {
      RunKeepsPlans(exclusive, first, events, n - 1);
      AtNext(exclusive, first, events, n - 1);
      StepKeepsPlans(exclusive, At(exclusive, first, events, n - 1), events[n - 1]);
    }
  }

  ghost predicate OwnedThroughout(exclusive: bool, first: State, events: seq<Event>) {
    forall n :: 0 <= n <= |events| ==> Owned(At(exclusive, first, events, n).group)
  }

  ghost predicate NoneOvertaken(exclusive: bool, first: State, events: seq<Event>) {
    forall n :: 0 <= n < |events| ==> !WritesOvertaken(At(exclusive, first, events, n), events[n])
  }

  lemma {:induction false} OwnedUpTo(exclusive: bool, first: State, events: seq<Event>, n: nat)
    requires Start(first) && NoneOvertaken(exclusive, first, events) && n <= |events|
    ensures Owned(At(exclusive, first, events, n).group)
  {
    if n > 0 {
      OwnedUpTo(exclusive, first, events, n - 1);
      RunKeepsPlans(exclusive, first, events, n - 1);
      AtNext(exclusive, first, events, n - 1);
      StepKeepsOwnerIff(exclusive, At(exclusive, first, events, n - 1), events[n - 1]);
    }
  }

  /** However requests interleave: the group has its owner throughout if and only if none is overtaken. */
  lemma OwnedThroughoutIff(exclusive: bool, first: State, events: seq<Event>)
    requires Start(first)
    ensures OwnedThroughout(exclusive, first, events) <==> NoneOvertaken(exclusive, first, events)
  {
    if NoneOvertaken(exclusive, first, events) {
      forall n | 0 <= n <= |events| ensures Owned(At(exclusive, first, events, n).group) {
        OwnedUpTo(exclusive, first, events, n);
      }
    }
    if OwnedThroughout(exclusive, first, events) {
      forall n | 0 <= n < |events| ensures !WritesOvertaken(At(exclusive, first, events, n), events[n]) {
        RunKeepsPlans(exclusive, first, events, n);
        AtNext(exclusive, first, events, n);
        assert Owned(At(exclusive, first, events, n + 1).group);
        StepKeepsOwnerIff(exclusive, At(exclusive, first, events, n), events[n]);
      }
    }
  }

  /** At most one request has read and not written, and its plan is what it would plan now. */
  ghost predicate Current(s: State) {
    && Owned(s.group)
    && (forall r, plan :: ReadyWith(s, r, plan) ==> PlanOf(s.group, s.requests[r].command) == Some(plan))
    && forall r, o, plan, other :: ReadyWith(s, r, plan) && ReadyWith(s, o, other) ==> r == o
  }

  lemma CurrentStays(s: State, e: Event)
    requires Current(s)
    ensures Current(Next(true, s, e))
  {
    if Enabled(true, s, e) {
      match e
      case Look(r) => LookIsCurrent(s, r);
      case Commit(r) => CommitIsCurrent(s, r);
      case _ => NothingReadyIsNew(s, Next(true, s, e));
    }
  }

  lemma NothingReadyIsNew(s: State, t: State)
    requires Current(s) && t.group == s.group
    requires forall r, plan :: ReadyWith(t, r, plan) ==> ReadyWith(s, r, plan) && t.requests[r] == s.requests[r]
    ensures Current(t)
  {
  }

  lemma LookIsCurrent(s: State, r: int)
    requires Current(s) && Enabled(true, s, Look(r))
    ensures Current(Next(true, s, Look(r)))
  {
    var t := Next(true, s, Look(r));
    forall o, plan ensures ReadyWith(t, o, plan) ==> o == r && PlanOf(t.group, t.requests[o].command) == Some(plan) {
      assert !ReadyWith(s, o, plan);
    }
  }

  lemma CommitIsCurrent(s: State, r: int)
    requires Current(s) && Enabled(true, s, Commit(r))
    ensures Current(Next(true, s, Commit(r)))
  {
    var q, t := s.requests[r], Next(true, s, Commit(r));
    assert ReadyWith(s, r, q.phase.plan);
    PlansAreSensible(s.group, q.command);
    if Written(s.group, q.command, q.phase.plan, s.nextId).Some? {
      WritingKeepsOwnerIff(s.group, q.command, q.phase.plan, s.nextId);
    }
    forall o, plan ensures !ReadyWith(t, o, plan) {
      assert o != r ==> !ReadyWith(s, o, plan);
    }
  }

  lemma {:induction false} ExclusiveIsCurrent(first: State, events: seq<Event>)
    requires Start(first)
    ensures Current(After(true, first, events))
  {
    if events != [] {
      var init := events[..|events| - 1];
      ExclusiveIsCurrent(first, init);
      CurrentStays(After(true, first, init), events[|events| - 1]);
    }
  }

  ghost predicate AlwaysOwned(exclusive: bool) {
    forall first, events :: Start(first) ==> Owned(After(exclusive, first, events).group)
  }

  /** Every run keeps the owner if and only if requests that read wait for those that have read. */
  lemma OwnerKeptIff(exclusive: bool)
    ensures AlwaysOwned(exclusive) <==> exclusive
  {
    if exclusive {
      forall first, events | Start(first) ensures Owned(After(exclusive, first, events).group) {
        ExclusiveIsCurrent(first, events);
      }
    } else {
      BothLeave();
    }
  }

  function ThreeSeats(): GroupRows {
    GroupRows(true, 1, map[1 := Seat(1, Owner), 2 := Seat(2, Member), 3 := Seat(3, Member)])
  }

  lemma AfterSnoc(exclusive: bool, first: State, events: seq<Event>, e: Event)
    ensures After(exclusive, first, events + [e]) == Next(exclusive, After(exclusive, first, events), e)
  {
    assert (events + [e])[..|events|] == events;
  }

  function Overlap(): seq<Event> {
    [Arrive(1, Leave(1))] + [Arrive(2, Leave(2))] + [Look(2)] + [Look(1)] + [Commit(1)] + [Commit(2)]
  }

  function BothRequests(one: Phase, two: Phase): map<int, Request> {
    map[1 := Request(Leave(1), one), 2 := Request(Leave(2), two)]
  }

  /** The owner 1 hands over to 2 after 2, who is leaving, has read; then 2 goes, and 3 stays without an owner. */
  lemma BothLeave()
    ensures Start(State(ThreeSeats(), 4, map[]))
    ensures var t := After(false, State(ThreeSeats(), 4, map[]), Overlap());
      t.group == GroupRows(true, 2, map[3 := Seat(3, Member)]) && !Owned(t.group)
  {
    var first := State(ThreeSeats(), 4, map[]);
    AfterSnoc(false, first, [], Arrive(1, Leave(1)));
    var a := [] + [Arrive(1, Leave(1))];
    AfterSnoc(false, first, a, Arrive(2, Leave(2)));
    var b := a + [Arrive(2, Leave(2))];
    var arrived := State(ThreeSeats(), 4, BothRequests(Reading, Reading));
    assert After(false, first, b) == arrived;
    AfterSnoc(false, first, b, Look(2));
    AfterSnoc(false, first, b + [Look(2)], Look(1));
    BothLook(arrived);
    var c := b + [Look(2)] + [Look(1)];
    AfterSnoc(false, first, c, Commit(1));
    AfterSnoc(false, first, c + [Commit(1)], Commit(2));
    BothCommit(State(ThreeSeats(), 4, BothRequests(Ready(Go(1, Some((2, 2)))), Ready(Go(2, None)))));
    assert Overlap() == c + [Commit(1)] + [Commit(2)];
  }

  lemma BothLook(s: State)
    requires s == State(ThreeSeats(), 4, BothRequests(Reading, Reading))
    ensures Next(false, Next(false, s, Look(2)), Look(1))
         == State(ThreeSeats(), 4, BothRequests(Ready(Go(1, Some((2, 2)))), Ready(Go(2, None))))
  {
    var g := s.group;
    assert Others(g, 1) == {2, 3} && Smallest({2, 3}) == 2;
    assert PlanOf(g, Leave(2)) == Some(Go(2, None));
    assert PlanOf(g, Leave(1)) == Some(Go(1, Some((2, 2))));
  }

  lemma BothCommit(s: State)
    requires s == State(ThreeSeats(), 4, BothRequests(Ready(Go(1, Some((2, 2)))), Ready(Go(2, None))))
    ensures Next(false, Next(false, s, Commit(1)), Commit(2)).group == GroupRows(true, 2, map[3 := Seat(3, Member)])
  {
    var handed := GroupRows(true, 2, map[2 := Seat(2, Owner), 3 := Seat(3, Member)]);
    var alone := map[3 := Seat(3, Member)];
    assert Handed(s.group, 2).seats - {1} == handed.seats && handed.seats - {2} == alone;
    assert 3 in handed.seats && 3 in alone;
    assert Written(s.group, Leave(1), Go(1, Some((2, 2))), 4) == Some(handed);
    assert Written(handed, Leave(2), Go(2, None), 5) == Some(GroupRows(true, 2, alone));
  }
}
