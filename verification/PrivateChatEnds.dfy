/** Why a request for a private chat ends as it does, told by the events of the run. */
module PrivateChatEnds {
  import opened Common
  import opened Orders
  import opened PrivateChats

  function Upto(events: seq<Event>, n: nat): seq<Event>
    requires n <= |events|
  {
    events[..n]
  }

  /** The state before the n-th event. */
  ghost function At(sv: Server, first: State, events: seq<Event>, n: nat): State
    requires n <= |events|
  {
    After(sv, first, Upto(events, n))
  }

  /** The n-th event is `e`, and it has happened. */
  ghost predicate Took(sv: Server, first: State, events: seq<Event>, n: nat, e: Event) {
    n < |events| && events[n] == e && Enabled(sv, At(sv, first, events, n), e)
  }

  ghost predicate Happened(sv: Server, first: State, events: seq<Event>, e: Event) {
    exists n: nat :: Took(sv, first, events, n, e)
  }

  lemma AtNext(sv: Server, first: State, events: seq<Event>, n: nat)
    requires n < |events|
    ensures At(sv, first, events, n + 1) == Next(sv, At(sv, first, events, n), events[n])
  {
    AfterSnoc(sv, first, events[..n], events[n]);
    assert events[..n + 1] == events[..n] + [events[n]];
  }

  lemma AtEnd(sv: Server, first: State, events: seq<Event>)
    ensures At(sv, first, events, |events|) == After(sv, first, events)
  {
    assert events[..|events|] == events;
  }

  /** A request that has ended stays as it is. */
  lemma EndStays(sv: Server, first: State, events: seq<Event>, n: nat, r: int)
    requires Start(first) && n <= |events|
    requires var s := At(sv, first, events, n); r in s.requests && Finished(s.requests[r].phase)
    ensures Stays(At(sv, first, events, n), After(sv, first, events), r)
  {
    RequestStays(sv, first, events[..n], events[n..], r);
    assert events == events[..n] + events[n..];
  }

  /** No event changes the users, nor whom a request is about. */
  lemma StepKeepsPair(sv: Server, s: State, e: Event, r: int)
    requires r in s.requests
    ensures var t := Next(sv, s, e);
      t.users == s.users && r in t.requests
      && t.requests[r].user == s.requests[r].user && t.requests[r].other == s.requests[r].other
  {
  }

  lemma StepKeepsUsers(sv: Server, s: State, e: Event)
    ensures Next(sv, s, e).users == s.users
  {
  }

  lemma {:induction false} UsersStay(sv: Server, first: State, events: seq<Event>)
    ensures After(sv, first, events).users == first.users
  {
    if events != [] {
      UsersStay(sv, first, events[..|events| - 1]);
      StepKeepsUsers(sv, After(sv, first, events[..|events| - 1]), events[|events| - 1]);
    }
  }

  lemma {:induction false} PairStays(sv: Server, first: State, events: seq<Event>, n: nat, m: nat, r: int)
    requires n <= m <= |events| && r in At(sv, first, events, n).requests
    ensures var s, t := At(sv, first, events, n), At(sv, first, events, m);
      r in t.requests && t.requests[r].user == s.requests[r].user && t.requests[r].other == s.requests[r].other
    decreases m
  {
    if n < m {
      PairStays(sv, first, events, n, m - 1, r);
      AtNext(sv, first, events, m - 1);
      StepKeepsPair(sv, At(sv, first, events, m - 1), events[m - 1], r);
    }
  }

  // --- The reasons ---

  /** A lookup has returned the row, or the request's own insert of it was committed. */
  ghost predicate Answered(sv: Server, first: State, events: seq<Event>, r: int, id: int) {
    || Happened(sv, first, events, Look(r, Some(id)))
    || exists n: nat :: Took(sv, first, events, n, Commit(r))
                        && At(sv, first, events, n).requests[r].phase == Flushed(id)
  }

  predicate Malformed(user: int, memberIds: set<int>) {
    |memberIds - {user}| != 1
  }

  /** The request asked for no other user, or for several. */
  ghost predicate AskedBadly(sv: Server, first: State, events: seq<Event>, r: int) {
    exists user, memberIds :: Malformed(user, memberIds) && Happened(sv, first, events, Arrive(r, user, memberIds))
  }

  /** The insert met a row with the key of the pair. */
  ghost predicate Collided(sv: Server, first: State, events: seq<Event>, r: int) {
    exists n: nat, i :: Took(sv, first, events, n, Flush(r))
                        && HasKey(At(sv, first, events, n), i, Key(At(sv, first, events, n).requests[r]))
  }

  /** The request's own commit failed, and then no chat of the pair was found. */
  ghost predicate LeftWithNothing(sv: Server, first: State, events: seq<Event>, r: int) {
    exists m: nat, n: nat :: m < n && Took(sv, first, events, m, CommitFails(r))
                             && Took(sv, first, events, n, Look(r, None))
  }

  /** The reason for the phase of request `r` after `n` events. */
  ghost predicate Explained(sv: Server, first: State, events: seq<Event>, n: nat, r: int, q: Request) {
    match q.phase
    case Done(id) => Answered(sv, first, events, r, id)
    case Failed(BadRequest) => AskedBadly(sv, first, events, r)
    case Failed(UsersNotFound) => Happened(sv, first, events, CheckUsers(r)) && !(Pair(q) <= first.users)
    case Failed(UniqueViolation) => Collided(sv, first, events, r)
    case Failed(CommitRejected) => LeftWithNothing(sv, first, events, r)
    case Failed(Aborted) => Happened(sv, first, events, Abort(r))
    case Recovering => exists m: nat :: m < n && Took(sv, first, events, m, CommitFails(r))
    case _ => true
  }

  /** A step that changes the phase of `r` is the reason for the new one. */
  lemma StepExplains(sv: Server, first: State, events: seq<Event>, n: nat, r: int)
    requires n < |events| && Took(sv, first, events, n, events[n]) && events[n].r == r
    requires var s := At(sv, first, events, n);
      r in s.requests ==> Explained(sv, first, events, n, r, s.requests[r])
    requires At(sv, first, events, n).users == first.users
    ensures var t := At(sv, first, events, n + 1);
      r in t.requests && Explained(sv, first, events, n + 1, r, t.requests[r])
  {
    AtNext(sv, first, events, n);
    var s := At(sv, first, events, n);
    match events[n]
    case Arrive(_, user, memberIds) =>
      if Malformed(user, memberIds) {
        assert Happened(sv, first, events, Arrive(r, user, memberIds));
      }
    case Look(_, found) => LookExplains(sv, first, events, n, r, found);
    case CheckUsers(_) => assert Happened(sv, first, events, CheckUsers(r));
    case Flush(_) =>
      if i :| HasKey(s, i, Key(s.requests[r])) {
        assert Took(sv, first, events, n, Flush(r));
      }
    case Abort(_) => assert Happened(sv, first, events, Abort(r));
    case _ =>
  }

  lemma LookExplains(sv: Server, first: State, events: seq<Event>, n: nat, r: int, found: Option<int>)
    requires n < |events| && Took(sv, first, events, n, Look(r, found))
    requires Explained(sv, first, events, n, r, At(sv, first, events, n).requests[r])
    ensures var t := At(sv, first, events, n + 1);
      r in t.requests && Explained(sv, first, events, n + 1, r, t.requests[r])
  {
    AtNext(sv, first, events, n);
    assert Happened(sv, first, events, Look(r, found));
  }

  lemma {:induction false} PhasesAreExplained(sv: Server, first: State, events: seq<Event>, n: nat, r: int)
    requires Start(first) && n <= |events| && r in At(sv, first, events, n).requests
    ensures Explained(sv, first, events, n, r, At(sv, first, events, n).requests[r])
  {
    if n > 0 {
      var s := At(sv, first, events, n - 1);
      AtNext(sv, first, events, n - 1);
      if r in s.requests {
        PhasesAreExplained(sv, first, events, n - 1, r);
      }
      UsersStay(sv, first, Upto(events, n - 1));
      if Enabled(sv, s, events[n - 1]) && events[n - 1].r == r {
        StepExplains(sv, first, events, n - 1, r);
      } else {
        OthersLeaveIt(sv, s, events[n - 1], r);
      }
    }
  }

  lemma OthersLeaveIt(sv: Server, s: State, e: Event, r: int)
    requires r in Next(sv, s, e).requests && !(Enabled(sv, s, e) && e.r == r)
    ensures r in s.requests && Next(sv, s, e).requests[r] == s.requests[r]
  {
  }

  /** The phase that an event leads to, once it is an end, is the end of the run. */
  lemma LeadsTo(sv: Server, first: State, events: seq<Event>, n: nat, e: Event, p: Phase)
    requires Start(first) && Took(sv, first, events, n, e) && Finished(p)
    requires var t := Next(sv, At(sv, first, events, n), e); e.r in t.requests && t.requests[e.r].phase == p
    ensures var t := After(sv, first, events); e.r in t.requests && t.requests[e.r].phase == p
  {
    AtNext(sv, first, events, n);
    EndStays(sv, first, events, n + 1, e.r);
  }

  predicate Rolled(p: Phase) {
    p.Recovering? || Finished(p)
  }

  lemma StaysRolled(sv: Server, s: State, e: Event, r: int)
    requires r in s.requests && Rolled(s.requests[r].phase)
    ensures var t := Next(sv, s, e); r in t.requests && Rolled(t.requests[r].phase)
  {
    StepKeepsPair(sv, s, e, r);
    if Enabled(sv, s, e) && e.r == r {
      RolledMoves(sv, s, e);
    } else {
      OthersLeaveIt(sv, s, e, r);
    }
  }

  lemma RolledMoves(sv: Server, s: State, e: Event)
    requires Enabled(sv, s, e) && e.r in s.requests && Rolled(s.requests[e.r].phase)
    ensures Rolled(Apply(sv, s, e).requests[e.r].phase)
  {
  }

  lemma {:induction false} RecoversUntilItEnds(sv: Server, first: State, events: seq<Event>, m: nat, n: nat, r: int)
    requires Took(sv, first, events, m, CommitFails(r)) && m < n <= |events|
    ensures var t := At(sv, first, events, n); r in t.requests && Rolled(t.requests[r].phase)
    decreases n
  {
    AtNext(sv, first, events, n - 1);
    if m < n - 1 {
      RecoversUntilItEnds(sv, first, events, m, n - 1, r);
      StaysRolled(sv, At(sv, first, events, n - 1), events[n - 1], r);
    }
  }

  /** A lookup that returns a row, be it the first, the second or the third, is answered with that row. */
  lemma LookupIsAnswered(sv: Server, first: State, events: seq<Event>, n: nat, r: int, id: int)
    requires Start(first) && Took(sv, first, events, n, Look(r, Some(id)))
    ensures var t := After(sv, first, events); r in t.requests && t.requests[r].phase == Done(id)
  {
    LeadsTo(sv, first, events, n, Look(r, Some(id)), Done(id));
  }

  lemma AnswersLead(sv: Server, first: State, events: seq<Event>, r: int, id: int)
    requires Start(first) && Answered(sv, first, events, r, id) && r in After(sv, first, events).requests
    ensures After(sv, first, events).requests[r].phase == Done(id)
  {
    if n: nat :| Took(sv, first, events, n, Look(r, Some(id))) {
      LookupIsAnswered(sv, first, events, n, r, id);
    } else {
      var n: nat :| Took(sv, first, events, n, Commit(r)) && At(sv, first, events, n).requests[r].phase == Flushed(id);
      LeadsTo(sv, first, events, n, Commit(r), Done(id));
    }
  }

  lemma RefusalsLead(sv: Server, first: State, events: seq<Event>, r: int)
    requires Start(first) && r in After(sv, first, events).requests
    ensures var q := After(sv, first, events).requests[r];
      && (AskedBadly(sv, first, events, r) ==> q.phase == Failed(BadRequest))
      && (Happened(sv, first, events, CheckUsers(r)) && !(Pair(q) <= first.users) ==> q.phase == Failed(UsersNotFound))
      && (Happened(sv, first, events, Abort(r)) ==> q.phase == Failed(Aborted))
  {
    var q := After(sv, first, events).requests[r];
    if AskedBadly(sv, first, events, r) {
      var user, memberIds :| Malformed(user, memberIds) && Happened(sv, first, events, Arrive(r, user, memberIds));
      var n: nat :| Took(sv, first, events, n, Arrive(r, user, memberIds));
      LeadsTo(sv, first, events, n, Arrive(r, user, memberIds), Failed(BadRequest));
    }
    if Happened(sv, first, events, CheckUsers(r)) && !(Pair(q) <= first.users) {
      var n: nat :| Took(sv, first, events, n, CheckUsers(r));
      UsersStay(sv, first, Upto(events, n));
      PairStays(sv, first, events, n, |events|, r);
      AtEnd(sv, first, events);
      LeadsTo(sv, first, events, n, CheckUsers(r), Failed(UsersNotFound));
    }
    if n: nat :| Took(sv, first, events, n, Abort(r)) {
      LeadsTo(sv, first, events, n, Abort(r), Failed(Aborted));
    }
  }

  lemma CollisionLeads(sv: Server, first: State, events: seq<Event>, r: int)
    requires Start(first) && Collided(sv, first, events, r)
    ensures var t := After(sv, first, events); r in t.requests && t.requests[r].phase == Failed(UniqueViolation)
  {
    var n: nat, i :| Took(sv, first, events, n, Flush(r))
                     && HasKey(At(sv, first, events, n), i, Key(At(sv, first, events, n).requests[r]));
    LeadsTo(sv, first, events, n, Flush(r), Failed(UniqueViolation));
  }

  lemma RejectionLeads(sv: Server, first: State, events: seq<Event>, r: int)
    requires Start(first) && LeftWithNothing(sv, first, events, r)
    ensures var t := After(sv, first, events); r in t.requests && t.requests[r].phase == Failed(CommitRejected)
  {
    var m: nat, n: nat :| m < n && Took(sv, first, events, m, CommitFails(r))
                          && Took(sv, first, events, n, Look(r, None));
    RecoversUntilItEnds(sv, first, events, m, n, r);
    LeadsTo(sv, first, events, n, Look(r, None), Failed(CommitRejected));
  }

  lemma FailuresLead(sv: Server, first: State, events: seq<Event>, r: int)
    requires Start(first) && r in After(sv, first, events).requests
    ensures var q := After(sv, first, events).requests[r];
      && (Collided(sv, first, events, r) ==> q.phase == Failed(UniqueViolation))
      && (LeftWithNothing(sv, first, events, r) ==> q.phase == Failed(CommitRejected))
  {
    if Collided(sv, first, events, r) {
      CollisionLeads(sv, first, events, r);
    }
    if LeftWithNothing(sv, first, events, r) {
      RejectionLeads(sv, first, events, r);
    }
  }

  /**
   In every run, each end of a request has exactly one reason among the events: a reply is a row that one of
   its lookups returned or that it committed itself, and every failure its own event.
   */
  lemma EndsIff(sv: Server, first: State, events: seq<Event>, r: int)
    requires Start(first) && r in After(sv, first, events).requests
    ensures var q := After(sv, first, events).requests[r];
      && (forall id :: q.phase == Done(id) <==> Answered(sv, first, events, r, id))
      && (q.phase == Failed(BadRequest) <==> AskedBadly(sv, first, events, r))
      && (q.phase == Failed(UsersNotFound)
          <==> Happened(sv, first, events, CheckUsers(r)) && !(Pair(q) <= first.users))
      && (q.phase == Failed(UniqueViolation) <==> Collided(sv, first, events, r))
      && (q.phase == Failed(CommitRejected) <==> LeftWithNothing(sv, first, events, r))
      && (q.phase == Failed(Aborted) <==> Happened(sv, first, events, Abort(r)))
  {
    AtEnd(sv, first, events);
    PhasesAreExplained(sv, first, events, |events|, r);
    RefusalsLead(sv, first, events, r);
    FailuresLead(sv, first, events, r);
    forall id | Answered(sv, first, events, r, id) ensures After(sv, first, events).requests[r].phase == Done(id) {
      AnswersLead(sv, first, events, r, id);
    }
  }

  /** A request arrives for its caller and the one other user it names, if it names one. */
  lemma ArrivesAs(sv: Server, first: State, events: seq<Event>, n: nat, r: int, user: int, memberIds: set<int>,
                  other: int)
    requires Took(sv, first, events, n, Arrive(r, user, memberIds)) && memberIds - {user} == {other}
    ensures var t := After(sv, first, events);
      r in t.requests && t.requests[r].user == user && t.requests[r].other == other
  {
    assert Smallest({other}) == other;
    AtNext(sv, first, events, n);
    PairStays(sv, first, events, n + 1, |events|, r);
    AtEnd(sv, first, events);
  }

  /**
   On PostgreSQL a finished request for one existing other user is served, unless it was aborted or its own
   commit failed and nothing was found then.
   */
  lemma ServedIff(sv: Server, first: State, events: seq<Event>, n: nat, r: int, user: int, memberIds: set<int>,
                  other: int)
    requires Start(first) && sv.postgres && {user, other} <= first.users
    requires Took(sv, first, events, n, Arrive(r, user, memberIds)) && memberIds - {user} == {other}
    requires r in After(sv, first, events).requests && Finished(After(sv, first, events).requests[r].phase)
    ensures After(sv, first, events).requests[r].phase.Done?
      <==> !Happened(sv, first, events, Abort(r)) && !LeftWithNothing(sv, first, events, r)
  {
    var s := After(sv, first, events);
    EndsIff(sv, first, events, r);
    ArrivesAs(sv, first, events, n, r, user, memberIds, other);
    RunKeepsInvariant(sv, first, events);
    var q := s.requests[r];
    assert NoViolation(q) && Pair(q) == {user, other};
    assert !Malformed(user, memberIds);
    if AskedBadly(sv, first, events, r) {
      ArrivedOnce(sv, first, events, n, r, user, memberIds);
    }
    NoOtherFailure(q.phase);
  }

  lemma NoOtherFailure(p: Phase)
    requires Finished(p)
    ensures p.Done? || p == Failed(BadRequest) || p == Failed(UsersNotFound) || p == Failed(UniqueViolation)
         || p == Failed(CommitRejected) || p == Failed(Aborted)
  {
    if p.Failed? {
      match p.failure
      case BadRequest =>
      case UsersNotFound =>
      case UniqueViolation =>
      case CommitRejected =>
      case Aborted =>
    }
  }

  lemma ArrivedOnce(sv: Server, first: State, events: seq<Event>, n: nat, r: int, user: int, memberIds: set<int>)
    requires Took(sv, first, events, n, Arrive(r, user, memberIds)) && AskedBadly(sv, first, events, r)
    ensures Malformed(user, memberIds)
  {
    var u, ids :| Malformed(u, ids) && Happened(sv, first, events, Arrive(r, u, ids));
    var m: nat :| Took(sv, first, events, m, Arrive(r, u, ids));
    if m < n {
      AtNext(sv, first, events, m);
      PairStays(sv, first, events, m + 1, n, r);
    } else if n < m {
      AtNext(sv, first, events, n);
      PairStays(sv, first, events, n + 1, m, r);
    }
  }
}
