/**
 Votes in one poll by any number of requests in flight. A vote reads the poll, later deletes the rows of its
 user that it sees, and later inserts its own and commits; nothing is locked in between. The poll may be
 closed at any time.
 */
module PollRaces {
  import opened Common
  import opened Orders

  /** A row is known by the request that inserted it, as by an id of its own. */
  datatype Row = Row(request: int, user: int, option: int)

  datatype Phase =
    | Reading
    | Checked
    | Deleted(seen: set<Row>)     // the rows of the user when the request deleted them
    | Done
    | Failed

  datatype Request = Request(user: int, ids: set<int>, phase: Phase)

  datatype Poll = Poll(options: set<int>, allowsMultiple: bool)

  datatype State = State(closed: bool, rows: set<Row>, requests: map<int, Request>)

  datatype Event =
    | Arrive(r: int, user: int, ids: set<int>)
    | Check(r: int)
    | Delete(r: int)
    | Commit(r: int)
    | Abort(r: int)
    | Close

  function RowsOf(rows: set<Row>, user: int): set<Row> {
    set row | row in rows && row.user == user
  }

  function Ballot(r: int, user: int, ids: set<int>): set<Row> {
    set o | o in ids :: Row(r, user, o)
  }

  function Chosen(rows: set<Row>, user: int): set<int> {
    set row | row in rows && row.user == user :: row.option
  }

  predicate Accepts(poll: Poll, closed: bool, ids: set<int>) {
    !closed && ids <= poll.options && (|ids| > 1 ==> poll.allowsMultiple)
  }

  /** The rows after the commit, or none if the unique constraint refuses a second row for an option. */
  function Written(rows: set<Row>, r: int, user: int, ids: set<int>, seen: set<Row>): Option<set<Row>> {
    var kept := rows - seen;
    if Chosen(kept, user) * ids != {} then None else Some(kept + Ballot(r, user, ids))
  }

  predicate Deleting(s: State, r: int) {
    r in s.requests && s.requests[r].phase.Deleted?
  }

  predicate InFlight(s: State, r: int) {
    r in s.requests && (s.requests[r].phase.Checked? || s.requests[r].phase.Deleted?)
  }

  ghost predicate Enabled(exclusive: bool, s: State, e: Event) {
    match e
    case Arrive(r, _, _) => r !in s.requests && forall row :: row in s.rows ==> row.request != r
    case Check(r) => r in s.requests && s.requests[r].phase.Reading?
    case Delete(r) =>
      && r in s.requests && s.requests[r].phase.Checked?
      && (exclusive ==> forall o :: Deleting(s, o) ==> s.requests[o].user != s.requests[r].user)
    case Commit(r) => Deleting(s, r)
    case Abort(r) => r in s.requests && (s.requests[r].phase.Reading? || InFlight(s, r))
    case Close => true
  }

  function Phased(s: State, r: int, phase: Phase): State
    requires r in s.requests
  {
    s.(requests := s.requests[r := s.requests[r].(phase := phase)])
  }

  /** What a request does, if it may; `exclusive` lets the votes of one user wait from deleting to committing. */
  ghost function Next(poll: Poll, exclusive: bool, s: State, e: Event): State {
    if !Enabled(exclusive, s, e) then s else
      match e
      case Arrive(r, user, ids) => s.(requests := s.requests[r := Request(user, ids, Reading)])
      case Check(r) => Phased(s, r, if Accepts(poll, s.closed, s.requests[r].ids) then Checked else Failed)
      case Delete(r) => Phased(s, r, Deleted(RowsOf(s.rows, s.requests[r].user)))
      case Commit(r) =>
        var q := s.requests[r];
        var written := Written(s.rows, r, q.user, q.ids, q.phase.seen);
        if written.None? then Phased(s, r, Failed) else Phased(s.(rows := written.value), r, Done)
      case Abort(r) => Phased(s, r, Failed)
      case Close => s.(closed := true)
  }

  ghost function After(poll: Poll, exclusive: bool, first: State, events: seq<Event>): State {
    if events == [] then first
    else Next(poll, exclusive, After(poll, exclusive, first, events[..|events| - 1]), events[|events| - 1])
  }

  // --- Single choice ---

  ghost predicate OneRowPerOption(rows: set<Row>) {
    forall v, w :: v in rows && w in rows && v.user == w.user && v.option == w.option ==> v == w
  }

  ghost predicate OneRowPerUser(rows: set<Row>) {
    forall v, w :: v in rows && w in rows && v.user == w.user ==> v == w
  }

  ghost predicate Valid(poll: Poll, rows: set<Row>) {
    && (forall v :: v in rows ==> v.option in poll.options)
    && OneRowPerOption(rows)
    && (!poll.allowsMultiple ==> OneRowPerUser(rows))
  }

  /** Rows of the user that came after the request had deleted what it saw. */
  function Missed(rows: set<Row>, user: int, seen: set<Row>): set<Row> {
    RowsOf(rows, user) - seen
  }

  ghost predicate SeenAre(user: int, seen: set<Row>) {
    forall row :: row in seen ==> row.user == user
  }

  /**
   A commit makes the user's votes exactly the chosen options if and only if no row was missed; and it keeps
   the votes valid if and only if no row was missed, or the poll allows several, or nothing was chosen.
   */
  lemma CommitKeepsIff(poll: Poll, rows: set<Row>, r: int, user: int, ids: set<int>, seen: set<Row>)
    requires Valid(poll, rows) && Accepts(poll, false, ids) && SeenAre(user, seen)
    requires Written(rows, r, user, ids, seen).Some?
    ensures var after := Written(rows, r, user, ids, seen).value;
      && (forall row: Row :: row.user != user ==> (row in after <==> row in rows))
      && (Chosen(after, user) == ids <==> Missed(rows, user, seen) == {})
      && (Valid(poll, after) <==> Missed(rows, user, seen) == {} || poll.allowsMultiple || ids == {})
  {
    var after := Written(rows, r, user, ids, seen).value;
    var kept := rows - seen;
    var missed := Missed(rows, user, seen);
    assert forall row :: row in missed <==> row in kept && row.user == user;
    ChosenAfter(kept, r, user, ids);
    AddingBallot(poll, kept, r, user, ids);
    if missed != {} {
      SomeRow(missed, kept, user);
    }
    assert (kept + Ballot(r, user, ids)) == after;
  }

  lemma SomeRow(missed: set<Row>, kept: set<Row>, user: int)
    requires missed != {} && forall row :: row in missed ==> row in kept && row.user == user
    ensures Chosen(kept, user) != {}
  {
    var row :| row in missed;
    assert row.option in Chosen(kept, user);
  }

  lemma AddingBallot(poll: Poll, kept: set<Row>, r: int, user: int, ids: set<int>)
    requires Valid(poll, kept) && Accepts(poll, false, ids) && Chosen(kept, user) * ids == {}
    ensures Valid(poll, kept + Ballot(r, user, ids)) <==>
      RowsOf(kept, user) == {} || poll.allowsMultiple || ids == {}
  {
    var after := kept + Ballot(r, user, ids);
    forall v | v in kept && v.user == user ensures v.option !in ids {
      assert v.option in Chosen(kept, user);
      assert v.option !in Chosen(kept, user) * ids;
    }
    assert OneRowPerOption(after);
    if RowsOf(kept, user) == {} && !poll.allowsMultiple {
      forall v, w | v in after && w in after && v.user == w.user ensures v == w {
        if v.user == user {
          assert v !in RowsOf(kept, user) && w !in RowsOf(kept, user);
          AtMostOne(ids, v.option, w.option);
        }
      }
    }
    if RowsOf(kept, user) != {} && !poll.allowsMultiple && ids != {} {
      TwoRows(kept, r, user, ids);
    }
  }

  lemma TwoRows(kept: set<Row>, r: int, user: int, ids: set<int>)
    requires RowsOf(kept, user) != {} && ids != {} && Chosen(kept, user) * ids == {}
    ensures !OneRowPerUser(kept + Ballot(r, user, ids))
  {
    var row :| row in RowsOf(kept, user);
    var o := Smallest(ids);
    assert row.option in Chosen(kept, user) && row.option !in Chosen(kept, user) * ids;
    assert Row(r, user, o) in Ballot(r, user, ids) && row in kept;
  }

  lemma ChosenAfter(kept: set<Row>, r: int, user: int, ids: set<int>)
    ensures Chosen(kept + Ballot(r, user, ids), user) == Chosen(kept, user) + ids
  {
    forall o | o in ids ensures o in Chosen(kept + Ballot(r, user, ids), user) {
      assert Row(r, user, o) in Ballot(r, user, ids);
    }
  }

  // --- Runs ---

  ghost predicate Start(poll: Poll, first: State) {
    Valid(poll, first.rows) && first.requests == map[]
  }

  /** Requests past the check have an acceptable ballot, and delete rows of their own user. */
  ghost predicate RequestFits(poll: Poll, q: Request) {
    && (q.phase.Checked? || q.phase.Deleted? ==> Accepts(poll, false, q.ids))
    && (q.phase.Deleted? ==> SeenAre(q.user, q.phase.seen))
  }

  ghost predicate RequestsFit(poll: Poll, s: State) {
    forall r :: r in s.requests ==> RequestFits(poll, s.requests[r])
  }

  lemma StepKeepsRequests(poll: Poll, exclusive: bool, s: State, e: Event)
    requires RequestsFit(poll, s)
    ensures RequestsFit(poll, Next(poll, exclusive, s, e))
  {
    var t := Next(poll, exclusive, s, e);
    forall r | r in t.requests ensures RequestFits(poll, t.requests[r]) {
      assert r in s.requests ==> RequestFits(poll, s.requests[r]);
    }
  }

  ghost predicate Writes(s: State, e: Event) {
    && e.Commit? && Deleting(s, e.r)
    && var q := s.requests[e.r]; Written(s.rows, e.r, q.user, q.ids, q.phase.seen).Some?
  }

  /** A second choice of the user is committed beside the first. */
  ghost predicate AddsChoice(poll: Poll, s: State, e: Event) {
    && Writes(s, e) && !poll.allowsMultiple
    && s.requests[e.r].ids != {} && Missed(s.rows, s.requests[e.r].user, s.requests[e.r].phase.seen) != {}
  }

  lemma StepKeepsValidIff(poll: Poll, exclusive: bool, s: State, e: Event)
    requires Valid(poll, s.rows) && RequestsFit(poll, s)
    ensures Valid(poll, Next(poll, exclusive, s, e).rows) <==> !AddsChoice(poll, s, e)
  {
    if Writes(s, e) {
      var q := s.requests[e.r];
      assert RequestFits(poll, q);
      CommitKeepsIff(poll, s.rows, e.r, q.user, q.ids, q.phase.seen);
    }
  }

  ghost function At(poll: Poll, exclusive: bool, first: State, events: seq<Event>, n: nat): State
    requires n <= |events|
  {
    After(poll, exclusive, first, events[..n])
  }

  lemma AtNext(poll: Poll, exclusive: bool, first: State, events: seq<Event>, n: nat)
    requires n < |events|
    ensures At(poll, exclusive, first, events, n + 1)
         == Next(poll, exclusive, At(poll, exclusive, first, events, n), events[n])
  {
    assert events[..n + 1][..n] == events[..n];
  }

  lemma {:induction false} RunKeepsRequests(poll: Poll, exclusive: bool, first: State, events: seq<Event>, n: nat)
    requires Start(poll, first) && n <= |events|
    ensures RequestsFit(poll, At(poll, exclusive, first, events, n))
  {
    if n > 0 {
      RunKeepsRequests(poll, exclusive, first, events, n - 1);
      AtNext(poll, exclusive, first, events, n - 1);
      StepKeepsRequests(poll, exclusive, At(poll, exclusive, first, events, n - 1), events[n - 1]);
    }
  }

  ghost predicate ValidThroughout(poll: Poll, exclusive: bool, first: State, events: seq<Event>) {
    forall n :: 0 <= n <= |events| ==> Valid(poll, At(poll, exclusive, first, events, n).rows)
  }

  ghost predicate NoChoiceAdded(poll: Poll, exclusive: bool, first: State, events: seq<Event>) {
    forall n :: 0 <= n < |events| ==> !AddsChoice(poll, At(poll, exclusive, first, events, n), events[n])
  }

  lemma {:induction false} ValidUpTo(poll: Poll, exclusive: bool, first: State, events: seq<Event>, n: nat)
    requires Start(poll, first) && NoChoiceAdded(poll, exclusive, first, events) && n <= |events|
    ensures Valid(poll, At(poll, exclusive, first, events, n).rows)
  {
    if n > 0 {
      ValidUpTo(poll, exclusive, first, events, n - 1);
      RunKeepsRequests(poll, exclusive, first, events, n - 1);
      AtNext(poll, exclusive, first, events, n - 1);
      StepKeepsValidIff(poll, exclusive, At(poll, exclusive, first, events, n - 1), events[n - 1]);
    }
  }

  /** However votes interleave: they are valid throughout if and only if no commit adds a choice to another. */
  lemma ValidThroughoutIff(poll: Poll, exclusive: bool, first: State, events: seq<Event>)
    requires Start(poll, first)
    ensures ValidThroughout(poll, exclusive, first, events) <==> NoChoiceAdded(poll, exclusive, first, events)
  {
    if NoChoiceAdded(poll, exclusive, first, events) {
      forall n | 0 <= n <= |events| ensures Valid(poll, At(poll, exclusive, first, events, n).rows) {
        ValidUpTo(poll, exclusive, first, events, n);
      }
    }
    if ValidThroughout(poll, exclusive, first, events) {
      forall n | 0 <= n < |events| ensures !AddsChoice(poll, At(poll, exclusive, first, events, n), events[n]) {
        RunKeepsRequests(poll, exclusive, first, events, n);
        AtNext(poll, exclusive, first, events, n);
        assert Valid(poll, At(poll, exclusive, first, events, n + 1).rows);
        StepKeepsValidIff(poll, exclusive, At(poll, exclusive, first, events, n), events[n]);
      }
    }
  }

  /** Of each user at most one request is between deleting and committing, and it has missed no row. */
  ghost predicate InTurn(s: State) {
    && (forall r :: Deleting(s, r) ==> Missed(s.rows, s.requests[r].user, s.requests[r].phase.seen) == {})
    && forall r, o :: Deleting(s, r) && Deleting(s, o) && s.requests[r].user == s.requests[o].user ==> r == o
  }

  lemma StepKeepsTurns(poll: Poll, s: State, e: Event)
    requires InTurn(s)
    ensures InTurn(Next(poll, true, s, e))
  {
    var t := Next(poll, true, s, e);
    if Enabled(true, s, e) {
      match e
      case Commit(r) =>
        forall o | Deleting(t, o)
          ensures Missed(t.rows, t.requests[o].user, t.requests[o].phase.seen) == {} {
          var q := t.requests[o];
          assert o != r && q == s.requests[o] && Deleting(s, o) && Deleting(s, r);
          assert Missed(s.rows, q.user, q.phase.seen) == {};
          assert RowsOf(t.rows, q.user) <= RowsOf(s.rows, q.user);
        }
      case Delete(r) =>
        assert Missed(t.rows, t.requests[r].user, t.requests[r].phase.seen) == {};
      case _ =>
    }
  }

  lemma {:induction false} ExclusiveKeepsTurns(poll: Poll, first: State, events: seq<Event>, n: nat)
    requires Start(poll, first) && n <= |events|
    ensures InTurn(At(poll, true, first, events, n))
  {
    if n > 0 {
      ExclusiveKeepsTurns(poll, first, events, n - 1);
      AtNext(poll, true, first, events, n - 1);
      StepKeepsTurns(poll, At(poll, true, first, events, n - 1), events[n - 1]);
    }
  }

  lemma ExclusiveIsValid(poll: Poll, first: State, events: seq<Event>)
    requires Start(poll, first)
    ensures Valid(poll, After(poll, true, first, events).rows)
  {
    forall n | 0 <= n < |events| ensures !AddsChoice(poll, At(poll, true, first, events, n), events[n]) {
      ExclusiveKeepsTurns(poll, first, events, n);
    }
    ValidUpTo(poll, true, first, events, |events|);
    assert events[..|events|] == events;
  }

  ghost predicate AlwaysValid(poll: Poll, exclusive: bool) {
    forall first, events :: Start(poll, first) ==> Valid(poll, After(poll, exclusive, first, events).rows)
  }

  /** Two votes of one user, for different options, each deleting before the other commits. */
  function Overlap(a: int, b: int): seq<Event> {
    [Arrive(1, 0, {a})] + [Check(1)] + [Arrive(2, 0, {b})] + [Check(2)] + [Delete(1)] + [Delete(2)]
    + [Commit(1)] + [Commit(2)]
  }

  lemma AfterTwo(poll: Poll, exclusive: bool, first: State, events: seq<Event>, e: Event, f: Event)
    ensures After(poll, exclusive, first, events + [e] + [f])
         == Next(poll, exclusive, Next(poll, exclusive, After(poll, exclusive, first, events), e), f)
  {
    assert (events + [e] + [f])[..|events| + 1] == events + [e];
    assert (events + [e])[..|events|] == events;
  }

  function Empty(): State {
    State(false, {}, map[])
  }

  function Both(a: int, b: int, one: Phase, two: Phase): map<int, Request> {
    map[1 := Request(0, {a}, one), 2 := Request(0, {b}, two)]
  }

  lemma ArrivesAndPasses(poll: Poll, s: State, r: int, user: int, id: int)
    requires !s.closed && s.rows == {} && r !in s.requests && id in poll.options
    ensures Next(poll, false, Next(poll, false, s, Arrive(r, user, {id})), Check(r))
         == s.(requests := s.requests[r := Request(user, {id}, Checked)])
  {
  }

  lemma BothDelete(poll: Poll, a: int, b: int)
    ensures Next(poll, false, Next(poll, false, State(false, {}, Both(a, b, Checked, Checked)), Delete(1)), Delete(2))
         == State(false, {}, Both(a, b, Deleted({}), Deleted({})))
  {
    assert RowsOf({}, 0) == {};
  }

  lemma BothCommit(poll: Poll, a: int, b: int)
    requires a != b
    ensures var s := State(false, {}, Both(a, b, Deleted({}), Deleted({})));
      Next(poll, false, Next(poll, false, s, Commit(1)), Commit(2)).rows == {Row(1, 0, a), Row(2, 0, b)}
  {
    var none: set<Row> := {};
    var one := {Row(1, 0, a)};
    assert Ballot(1, 0, {a}) == {Row(1, 0, a)} && Ballot(2, 0, {b}) == {Row(2, 0, b)};
    assert none - none == none && Chosen(none, 0) * {a} == {} && none + one == one;
    assert Written(none, 1, 0, {a}, none) == Some(one);
    assert one - none == one && Chosen(one, 0) == {a} && {a} * {b} == {};
    assert one + {Row(2, 0, b)} == {Row(1, 0, a), Row(2, 0, b)};
    assert Written(one, 2, 0, {b}, none) == Some({Row(1, 0, a), Row(2, 0, b)});
  }

  lemma BothChoose(poll: Poll, a: int, b: int)
    requires !poll.allowsMultiple && a in poll.options && b in poll.options && a != b
    ensures After(poll, false, Empty(), Overlap(a, b)).rows == {Row(1, 0, a), Row(2, 0, b)}
  {
    var one: seq<Event> := [] + [Arrive(1, 0, {a})] + [Check(1)];
    var two := one + [Arrive(2, 0, {b})] + [Check(2)];
    var both := two + [Delete(1)] + [Delete(2)];
    AfterTwo(poll, false, Empty(), [], Arrive(1, 0, {a}), Check(1));
    AfterTwo(poll, false, Empty(), one, Arrive(2, 0, {b}), Check(2));
    AfterTwo(poll, false, Empty(), two, Delete(1), Delete(2));
    AfterTwo(poll, false, Empty(), both, Commit(1), Commit(2));
    ArrivesAndPasses(poll, Empty(), 1, 0, a);
    ArrivesAndPasses(poll, After(poll, false, Empty(), one), 2, 0, b);
    BothDelete(poll, a, b);
    BothCommit(poll, a, b);
    assert Overlap(a, b) == both + [Commit(1)] + [Commit(2)];
  }

  /**
   In a poll with different options, every run keeps its votes valid if and only if the poll allows several
   choices or the votes of a user wait for each other.
   */
  lemma ChoiceKeptIff(poll: Poll, exclusive: bool, a: int, b: int)
    requires a in poll.options && b in poll.options && a != b
    ensures AlwaysValid(poll, exclusive) <==> poll.allowsMultiple || exclusive
  {
    if poll.allowsMultiple || exclusive {
      forall first, events | Start(poll, first) ensures Valid(poll, After(poll, exclusive, first, events).rows) {
        if exclusive {
          ExclusiveIsValid(poll, first, events);
        } else {
          ValidUpTo(poll, exclusive, first, events, |events|);
          assert events[..|events|] == events;
        }
      }
    } else {
      BothChoose(poll, a, b);
      var rows := After(poll, false, Empty(), Overlap(a, b)).rows;
      assert Row(1, 0, a) in rows && Row(2, 0, b) in rows;
      assert Start(poll, Empty());
    }
  }

  // --- After closing ---

  /** What the rows would be if request `r` were carried to its end now. */
  function Finished(s: State, r: int): set<Row>
    requires InFlight(s, r)
  {
    var q := s.requests[r];
    var seen := if q.phase.Deleted? then q.phase.seen else RowsOf(s.rows, q.user);
    Written(s.rows, r, q.user, q.ids, seen).GetOr(s.rows)
  }

  predicate CanChange(s: State, r: int) {
    InFlight(s, r) && Finished(s, r) != s.rows
  }

  ghost predicate Quiet(s: State) {
    s.closed && forall r :: !CanChange(s, r)
  }

  lemma StepKeepsQuiet(poll: Poll, s: State, e: Event)
    requires Quiet(s)
    ensures Quiet(Next(poll, false, s, e)) && Next(poll, false, s, e).rows == s.rows
  {
    var t := Next(poll, false, s, e);
    if e.Commit? && Deleting(s, e.r) {
      assert !CanChange(s, e.r);
    }
    forall r ensures !CanChange(t, r) {
      assert !CanChange(s, r);
    }
  }

  lemma {:induction false} QuietStays(poll: Poll, s: State, events: seq<Event>)
    requires Quiet(s)
    ensures Quiet(After(poll, false, s, events)) && After(poll, false, s, events).rows == s.rows
  {
    if events != [] {
      var init := events[..|events| - 1];
      QuietStays(poll, s, init);
      StepKeepsQuiet(poll, After(poll, false, s, init), events[|events| - 1]);
    }
  }

  ghost predicate RowsAreFinal(poll: Poll, s: State) {
    forall events :: After(poll, false, s, events).rows == s.rows
  }

  /**
   The votes of a closed poll are final if and only if no request that has passed its check before the
   closing would still change them.
   */
  lemma ClosedIsFinalIff(poll: Poll, s: State)
    requires s.closed
    ensures RowsAreFinal(poll, s) <==> forall r :: !CanChange(s, r)
  {
    if Quiet(s) {
      forall events ensures After(poll, false, s, events).rows == s.rows {
        QuietStays(poll, s, events);
      }
    } else {
      var r :| CanChange(s, r);
      FinishesLater(poll, s, r);
    }
  }

  lemma FinishesLater(poll: Poll, s: State, r: int)
    requires InFlight(s, r)
    ensures exists events :: After(poll, false, s, events).rows == Finished(s, r)
  {
    if Deleting(s, r) {
      var events := [] + [Commit(r)];
      assert events[..0] == [];
      assert After(poll, false, s, []) == s;
      assert After(poll, false, s, events) == Next(poll, false, s, Commit(r));
    } else {
      AfterTwo(poll, false, s, [], Delete(r), Commit(r));
      assert After(poll, false, s, [] + [Delete(r)] + [Commit(r)]).rows == Finished(s, r);
    }
  }
}
