/**
 Polls: checking the options, voting, closing, and the tally shown to a viewer. The options of a poll
 are kept in position order; the position of an option is its index.
 */
module Polls {
  import opened Common
  import M = Membership

  const MAX_OPTION := 100

  datatype OptionError = TooLong | Duplicate | TooFew

  datatype PollOption = PollOption(id: int, text: string)

  datatype Poll = Poll(
    messageId: int, question: string, options: seq<PollOption>, allowsMultiple: bool, isAnonymous: bool, isClosed: bool)

  datatype Vote = Vote(poll: int, option: int, user: int)

  datatype State = State(
    messages: map<int, M.Message>,
    members: set<(int, int)>,       // (chat, user)
    polls: map<int, Poll>,
    votes: seq<Vote>)

  datatype Failure =
    | PollNotFound
    | NotAMember
    | PollClosed
    | UnknownOption
    | OnlyOneOption
    | NotTheAuthor

  // --- Checking the options of a new poll ---

  /** The options without blanks around them, blank ones left out. */
  function Cleaned(space: char -> bool, options: seq<string>): seq<string> {
    if options == [] then [] else
      var s := Strip(space, options[|options| - 1]);
      Cleaned(space, options[..|options| - 1]) + if s == "" then [] else [s]
  }

  predicate Repeats(fold: string -> string, s: seq<string>, i: nat)
    requires i < |s|
  {
    exists j :: 0 <= j < i && fold(s[j]) == fold(s[i])
  }

  /** The first `n` options are short enough and pairwise different up to case. */
  ghost predicate GoodUpTo(fold: string -> string, s: seq<string>, n: nat)
    requires n <= |s|
  {
    forall i :: 0 <= i < n ==> |s[i]| <= MAX_OPTION && !Repeats(fold, s, i)
  }

  /** The first bad option decides which error is raised. */
  ghost predicate FirstBad(fold: string -> string, s: seq<string>, error: OptionError) {
    exists i :: 0 <= i < |s| && GoodUpTo(fold, s, i) &&
      if error.TooLong? then |s[i]| > MAX_OPTION else error.Duplicate? && |s[i]| <= MAX_OPTION && Repeats(fold, s, i)
  }

  ghost predicate Validated(fold: string -> string, s: seq<string>, reply: Result<seq<string>, OptionError>) {
    match reply
    case Ok(cleaned) => cleaned == s && GoodUpTo(fold, s, |s|) && |s| >= 2
    case Err(TooFew) => GoodUpTo(fold, s, |s|) && |s| < 2
    case Err(error) => FirstBad(fold, s, error)
  }

  lemma {:induction false} CleanedIsPrefix(space: char -> bool, options: seq<string>, k: nat)
    requires k <= |options|
    ensures Cleaned(space, options[..k]) <= Cleaned(space, options)
    decreases |options|
  {
    if k < |options| {
      var init := options[..|options| - 1];
      assert init[..k] == options[..k];
      CleanedIsPrefix(space, init, k);
    } else {
      assert options[..k] == options;
    }
  }

  lemma BadPrefix(fold: string -> string, part: seq<string>, s: seq<string>, error: OptionError)
    requires part <= s && part != [] && GoodUpTo(fold, part, |part| - 1)
    requires error.TooLong? || error.Duplicate?
    requires error.TooLong? <==> |part[|part| - 1]| > MAX_OPTION
    requires error.Duplicate? ==> Repeats(fold, part, |part| - 1)
    ensures FirstBad(fold, s, error)
  {
    var i := |part| - 1;
    assert forall j :: 0 <= j <= i ==> s[j] == part[j];
    forall k | 0 <= k < i ensures |s[k]| <= MAX_OPTION && !Repeats(fold, s, k) {
      assert !Repeats(fold, part, k);
    }
  }

  lemma GoodSnoc(fold: string -> string, s: seq<string>, x: string)
    requires GoodUpTo(fold, s, |s|) && |x| <= MAX_OPTION
    requires forall j :: 0 <= j < |s| ==> fold(s[j]) != fold(x)
    ensures GoodUpTo(fold, s + [x], |s| + 1)
  {
    var t := s + [x];
    forall i | 0 <= i < |t| ensures |t[i]| <= MAX_OPTION && !Repeats(fold, t, i) {
      assert i < |s| ==> !Repeats(fold, s, i);
    }
  }

  lemma GoodInit(fold: string -> string, s: seq<string>, x: string)
    requires GoodUpTo(fold, s, |s|)
    ensures GoodUpTo(fold, s + [x], |s|)
  {
    var t := s + [x];
    forall i | 0 <= i < |s| ensures |t[i]| <= MAX_OPTION && !Repeats(fold, t, i) {
      assert !Repeats(fold, s, i);
    }
  }

  /** `seen` holds the folded forms of the good options `cleaned`. */
  ghost predicate SoFar(fold: string -> string, cleaned: seq<string>, seen: seq<string>) {
    && |seen| == |cleaned|
    && (forall k :: 0 <= k < |seen| ==> seen[k] == fold(cleaned[k]))
    && GoodUpTo(fold, cleaned, |cleaned|)
  }

  lemma CleanedStep(space: char -> bool, options: seq<string>, i: nat)
    requires i < |options|
    ensures var s := Strip(space, options[i]);
      Cleaned(space, options[..i + 1]) == Cleaned(space, options[..i]) + if s == "" then [] else [s]
    ensures Cleaned(space, options[..i + 1]) <= Cleaned(space, options)
  {
    assert options[..i + 1][..i] == options[..i];
    CleanedIsPrefix(space, options, i + 1);
  }

  /** One more option is bad, and then it is the first bad one, or it is good. */
  lemma NextOption(fold: string -> string, cleaned: seq<string>, seen: seq<string>, s: string, all: seq<string>)
    requires SoFar(fold, cleaned, seen) && cleaned + [s] <= all
    ensures |s| > MAX_OPTION ==> FirstBad(fold, all, TooLong)
    ensures |s| <= MAX_OPTION && fold(s) in seen ==> FirstBad(fold, all, Duplicate)
    ensures |s| <= MAX_OPTION && fold(s) !in seen ==> SoFar(fold, cleaned + [s], seen + [fold(s)])
  {
    GoodInit(fold, cleaned, s);
    if |s| > MAX_OPTION {
      BadPrefix(fold, cleaned + [s], all, TooLong);
    } else if fold(s) in seen {
      Found(fold, cleaned, seen, s);
      BadPrefix(fold, cleaned + [s], all, Duplicate);
    } else {
      forall j | 0 <= j < |cleaned| ensures fold(cleaned[j]) != fold(s) {
        assert seen[j] in seen;
      }
      GoodSnoc(fold, cleaned, s);
    }
  }

  method ValidateOptions(space: char -> bool, fold: string -> string, options: seq<string>)
    returns (reply: Result<seq<string>, OptionError>)
    ensures Validated(fold, Cleaned(space, options), reply)
  {
    var cleaned: seq<string> := [];
    var seen: seq<string> := [];
    for i := 0 to |options|
      invariant cleaned == Cleaned(space, options[..i]) && SoFar(fold, cleaned, seen)
    {
      CleanedStep(space, options, i);
      var s := Strip(space, options[i]);
      if s == "" {
        continue;
      }
      NextOption(fold, cleaned, seen, s, Cleaned(space, options));
      if |s| > MAX_OPTION {
        return Err(TooLong);
      }
      var low := fold(s);
      if low in seen {
        return Err(Duplicate);
      }
      seen := seen + [low];
      cleaned := cleaned + [s];
    }
    assert options[..|options|] == options;
    if |cleaned| < 2 {
      return Err(TooFew);
    }
    return Ok(cleaned);
  }

  lemma Found(fold: string -> string, cleaned: seq<string>, seen: seq<string>, s: string)
    requires |seen| == |cleaned| && forall k :: 0 <= k < |seen| ==> seen[k] == fold(cleaned[k])
    requires fold(s) in seen
    ensures Repeats(fold, cleaned + [s], |cleaned|)
  {
    var j :| 0 <= j < |seen| && seen[j] == fold(s);
    assert (cleaned + [s])[j] == cleaned[j];
  }

  // --- Voting and closing ---

  function OptionIds(options: seq<PollOption>): set<int> {
    set o | o in options :: o.id
  }

  function Chosen(optionIds: seq<int>): set<int> {
    set x | x in optionIds
  }

  predicate IsPollOf(s: State, poll: int, messageId: int) {
    poll in s.polls && s.polls[poll].messageId == messageId
  }

  predicate HasPoll(s: State, messageId: int) {
    exists p :: p in s.polls && IsPollOf(s, p, messageId)
  }

  /** The votes of a user in a poll. */
  predicate IsBallot(v: Vote, poll: int, user: int) {
    v.poll == poll && v.user == user
  }

  function NoBallotOf(poll: int, user: int): Vote -> bool {
    (v: Vote) => !IsBallot(v, poll, user)
  }

  function WithoutBallot(votes: seq<Vote>, poll: int, user: int): seq<Vote> {
    Keep(votes, NoBallotOf(poll, user))
  }

  /** `ballot` is one vote for each of the options, in some order. */
  ghost predicate IsBallotFor(ballot: seq<Vote>, poll: int, user: int, ids: set<int>) {
    && |ballot| == |ids|
    && (forall v :: v in ballot <==> v.poll == poll && v.user == user && v.option in ids)
    && NoRepeats(ballot)
  }

  /** The errors common to voting and closing, in the order they are looked for. */
  function Access(s: State, user: int, messageId: int): Option<Failure> {
    if messageId !in s.messages || !s.messages[messageId].isPoll then Some(PollNotFound)
    else if (s.messages[messageId].chatId, user) !in s.members then Some(NotAMember)
    else None
  }

  function VoteRefusal(s: State, user: int, messageId: int, poll: int, ids: set<int>): Option<Failure> {
    if Access(s, user, messageId).Some? then Access(s, user, messageId)
    else if !IsPollOf(s, poll, messageId) then Some(PollNotFound)
    else if s.polls[poll].isClosed then Some(PollClosed)
    else if !(ids <= OptionIds(s.polls[poll].options)) then Some(UnknownOption)
    else if !s.polls[poll].allowsMultiple && |ids| > 1 then Some(OnlyOneOption)
    else None
  }

  /** What a vote does: the user's earlier ballot is replaced by the new one. */
  ghost predicate Voted(s: State, user: int, messageId: int, poll: int, ids: set<int>, t: State,
                        refusal: Option<Failure>) {
    && refusal == VoteRefusal(s, user, messageId, poll, ids)
    && if refusal.Some? then t == s else
         && t == s.(votes := t.votes)
         && var kept := WithoutBallot(s.votes, poll, user);
            kept <= t.votes && IsBallotFor(t.votes[|kept|..], poll, user, ids)
  }

  function CloseRefusal(s: State, user: int, messageId: int): Option<Failure> {
    if Access(s, user, messageId).Some? then Access(s, user, messageId)
    else if s.messages[messageId].senderId != user then Some(NotTheAuthor)
    else if !HasPoll(s, messageId) then Some(PollNotFound)
    else None
  }

  function ClosedPoll(s: State, poll: int): State
    requires poll in s.polls
  {
    s.(polls := s.polls[poll := s.polls[poll].(isClosed := true)])
  }

  /** One poll per message, as the unique constraint demands. */
  ghost predicate OnePerMessage(polls: map<int, Poll>) {
    forall p, q :: p in polls && q in polls && polls[p].messageId == polls[q].messageId ==> p == q
  }

  class PollStore {
    var messages: map<int, M.Message>
    var members: set<(int, int)>
    var polls: map<int, Poll>
    var votes: seq<Vote>

    function Rows(): State
      reads this
    {
      State(messages, members, polls, votes)
    }

    method FindPoll(messageId: int) returns (poll: Option<int>)
      ensures poll.Some? ==> IsPollOf(Rows(), poll.value, messageId)
      ensures poll.None? <==> !HasPoll(Rows(), messageId)
    {
      var found := set p | p in polls && polls[p].messageId == messageId;
      if found == {} {
        assert forall p :: p in polls && IsPollOf(Rows(), p, messageId) ==> p in found;
        return None;
      }
      var p := AnyOf(found);
      assert IsPollOf(Rows(), p, messageId);
      return Some(p);
    }

    method VoteInPoll(user: int, messageId: int, optionIds: seq<int>) returns (refusal: Option<Failure>)
      requires OnePerMessage(polls)
      modifies this`votes
      ensures forall p :: IsPollOf(old(Rows()), p, messageId) ==>
        Voted(old(Rows()), user, messageId, p, Chosen(optionIds), Rows(), refusal)
      ensures !HasPoll(old(Rows()), messageId) ==>
        Rows() == old(Rows()) && refusal == Some(Access(Rows(), user, messageId).GetOr(PollNotFound))
    {
      if messageId !in messages || !messages[messageId].isPoll {
        return Some(PollNotFound);
      }
      if (messages[messageId].chatId, user) !in members {
        return Some(NotAMember);
      }
      var poll := FindPoll(messageId);
      if poll.None? {
        return Some(PollNotFound);
      }
      var p := poll.value;
      if polls[p].isClosed {
        return Some(PollClosed);
      }
      var ids := Chosen(optionIds);
      if ids != {} {
        var valid := OptionIds(polls[p].options) * ids;
        SameSize(valid, ids);
        if |valid| != |ids| {
          return Some(UnknownOption);
        }
      }
      if !polls[p].allowsMultiple && |ids| > 1 {
        return Some(OnlyOneOption);
      }
      CastBallot(p, user, ids);
      return None;
    }

    /** The old votes of the user go, one vote per option is added. */
    method CastBallot(poll: int, user: int, ids: set<int>)
      modifies this`votes
      ensures var kept := WithoutBallot(old(votes), poll, user);
        kept <= votes && IsBallotFor(votes[|kept|..], poll, user, ids)
    {
      ghost var kept := WithoutBallot(votes, poll, user);
      votes := WithoutBallot(votes, poll, user);
      var done: set<int> := {};
      while done != ids
        invariant done <= ids && kept <= votes && IsBallotFor(votes[|kept|..], poll, user, done)
        decreases |ids - done|
      {
        var id := AnyOf(ids - done);
        BallotGrows(votes[|kept|..], poll, user, done, id);
        assert (votes + [Vote(poll, id, user)])[|kept|..] == votes[|kept|..] + [Vote(poll, id, user)];
        votes := votes + [Vote(poll, id, user)];
        done := done + {id};
      }
    }

    method ClosePoll(user: int, messageId: int) returns (refusal: Option<Failure>)
      requires OnePerMessage(polls)
      modifies this`polls
      ensures refusal == CloseRefusal(old(Rows()), user, messageId)
      ensures refusal.Some? ==> Rows() == old(Rows())
      ensures refusal.None? ==> forall p :: IsPollOf(old(Rows()), p, messageId) ==> Rows() == ClosedPoll(old(Rows()), p)
    {
      if messageId !in messages || !messages[messageId].isPoll {
        return Some(PollNotFound);
      }
      if (messages[messageId].chatId, user) !in members {
        return Some(NotAMember);
      }
      if messages[messageId].senderId != user {
        return Some(NotTheAuthor);
      }
      var poll := FindPoll(messageId);
      if poll.None? {
        return Some(PollNotFound);
      }
      var p := poll.value;
      if !polls[p].isClosed {
        polls := polls[p := polls[p].(isClosed := true)];
      } else {
        assert polls[p := polls[p].(isClosed := true)] == polls;
      }
      return None;
    }
  }

  lemma SameSize(part: set<int>, whole: set<int>)
    requires part <= whole
    ensures |part| == |whole| <==> part == whole
    ensures |part| <= |whole|
  {
    assert whole == part + (whole - part);
  }

  lemma BallotGrows(ballot: seq<Vote>, poll: int, user: int, ids: set<int>, id: int)
    requires IsBallotFor(ballot, poll, user, ids) && id !in ids
    ensures IsBallotFor(ballot + [Vote(poll, id, user)], poll, user, ids + {id})
  {
    forall v | v in ballot ensures v != Vote(poll, id, user) {
    }
    forall i | 0 <= i < |ballot| ensures ballot[i] != Vote(poll, id, user) {
      assert ballot[i] in ballot;
    }
  }

  // --- The tally ---

  datatype Item = Item(id: int, position: int, text: string, votes: nat, votedByMe: bool, voterUserIds: seq<int>)

  datatype PollResponse = PollResponse(
    id: int,
    messageId: int,
    question: string,
    allowsMultiple: bool,
    isAnonymous: bool,
    isClosed: bool,
    totalVotes: int,
    options: seq<Item>)

  function InPoll(poll: int): Vote -> bool {
    (v: Vote) => v.poll == poll
  }

  /** The query for the vote rows of one poll. */
  function VotesOf(votes: seq<Vote>, poll: int): seq<Vote> {
    Keep(votes, InPoll(poll))
  }

  function Voters(ballots: seq<Vote>, option: int): seq<int> {
    if ballots == [] then [] else
      var v := ballots[|ballots| - 1];
      Voters(ballots[..|ballots| - 1], option) + if v.option == option then [v.user] else []
  }

  function Chose(ballots: seq<Vote>, user: int): set<int> {
    set v | v in ballots && v.user == user :: v.option
  }

  function ItemOf(row: Poll, ballots: seq<Vote>, viewer: Option<int>, i: nat): Item
    requires i < |row.options|
  {
    var o := row.options[i];
    var voters := Voters(ballots, o.id);
    Item(o.id, i, o.text, |voters|, viewer.Some? && o.id in Chose(ballots, viewer.value),
         if row.isAnonymous then [] else voters)
  }

  /** The sum of the counts of the first `n` options. */
  function Sum(row: Poll, ballots: seq<Vote>, n: nat): nat
    requires n <= |row.options|
  {
    if n == 0 then 0 else Sum(row, ballots, n - 1) + |Voters(ballots, row.options[n - 1].id)|
  }

  /** The first `n` options as a viewer sees them. */
  function Items(row: Poll, ballots: seq<Vote>, viewer: Option<int>, n: nat): (items: seq<Item>)
    requires n <= |row.options|
    ensures |items| == n
  {
    if n == 0 then [] else Items(row, ballots, viewer, n - 1) + [ItemOf(row, ballots, viewer, n - 1)]
  }

  lemma {:induction false} ItemsAre(row: Poll, ballots: seq<Vote>, viewer: Option<int>, n: nat, i: nat)
    requires i < n <= |row.options|
    ensures Items(row, ballots, viewer, n)[i] == ItemOf(row, ballots, viewer, i)
  {
    SnocAt(Items(row, ballots, viewer, n - 1), ItemOf(row, ballots, viewer, n - 1), i);
    if n > 1 {
      ItemsAre(row, ballots, viewer, n - 1, if i < n - 1 then i else 0);
    }
  }

  lemma SnocAt<T>(s: seq<T>, x: T, i: nat)
    requires i <= |s|
    ensures (s + [x])[i] == if i < |s| then s[i] else x
  {
  }

  function Tally(poll: int, row: Poll, ballots: seq<Vote>, viewer: Option<int>): PollResponse {
    PollResponse(poll, row.messageId, row.question, row.allowsMultiple, row.isAnonymous, row.isClosed,
                 Sum(row, ballots, |row.options|), Items(row, ballots, viewer, |row.options|))
  }

  ghost predicate GroupsVoters(byOption: map<int, seq<int>>, ballots: seq<Vote>) {
    forall o :: (if o in byOption then byOption[o] else []) == Voters(ballots, o)
  }

  lemma GroupsSnoc(byOption: map<int, seq<int>>, ballots: seq<Vote>, v: Vote)
    requires GroupsVoters(byOption, ballots)
    ensures var voters := if v.option in byOption then byOption[v.option] else [];
      GroupsVoters(byOption[v.option := voters + [v.user]], ballots + [v])
  {
    assert (ballots + [v])[..|ballots|] == ballots;
    forall o
      ensures Voters(ballots + [v], o) == if o == v.option then Voters(ballots, o) + [v.user] else Voters(ballots, o) {
      assert Voters(ballots, o) + [] == Voters(ballots, o);
    }
  }

  method GroupVotes(ballots: seq<Vote>, viewer: Option<int>) returns (byOption: map<int, seq<int>>, votedByMe: set<int>)
    ensures GroupsVoters(byOption, ballots)
    ensures votedByMe == if viewer.Some? then Chose(ballots, viewer.value) else {}
  {
    byOption := map[];
    votedByMe := {};
    for i := 0 to |ballots|
      invariant GroupsVoters(byOption, ballots[..i])
      invariant votedByMe == if viewer.Some? then Chose(ballots[..i], viewer.value) else {}
    {
      var v := ballots[i];
      assert ballots[..i + 1] == ballots[..i] + [v];
      GroupsSnoc(byOption, ballots[..i], v);
      byOption := byOption[v.option := (if v.option in byOption then byOption[v.option] else []) + [v.user]];
      if viewer == Some(v.user) {
        votedByMe := votedByMe + {v.option};
      }
    }
    assert ballots[..|ballots|] == ballots;
  }

  method MakeItem(row: Poll, ghost ballots: seq<Vote>, ghost viewer: Option<int>,
                  byOption: map<int, seq<int>>, votedByMe: set<int>, i: nat) returns (item: Item)
    requires i < |row.options| && GroupsVoters(byOption, ballots)
    requires votedByMe == if viewer.Some? then Chose(ballots, viewer.value) else {}
    ensures item == ItemOf(row, ballots, viewer, i)
  {
    var o := row.options[i];
    var voterIds := if o.id in byOption then byOption[o.id] else [];
    assert voterIds == Voters(ballots, o.id);
    item := Item(o.id, i, o.text, |voterIds|, o.id in votedByMe, if row.isAnonymous then [] else voterIds);
  }

  method SerializePoll(poll: int, row: Poll, votes: seq<Vote>, viewer: Option<int>) returns (r: PollResponse)
    ensures r == Tally(poll, row, VotesOf(votes, poll), viewer)
  {
    var ballots := VotesOf(votes, poll);
    var byOption, votedByMe := GroupVotes(ballots, viewer);
    var items, totalVotes := ListItems(row, ballots, viewer, byOption, votedByMe);
    r := PollResponse(poll, row.messageId, row.question, row.allowsMultiple, row.isAnonymous, row.isClosed,
                      totalVotes, items);
  }

  method ListItems(row: Poll, ghost ballots: seq<Vote>, ghost viewer: Option<int>,
                   byOption: map<int, seq<int>>, votedByMe: set<int>) returns (items: seq<Item>, totalVotes: int)
    requires GroupsVoters(byOption, ballots)
    requires votedByMe == if viewer.Some? then Chose(ballots, viewer.value) else {}
    ensures items == Items(row, ballots, viewer, |row.options|) && totalVotes == Sum(row, ballots, |row.options|)
  {
    items := [];
    totalVotes := 0;
    for i := 0 to |row.options|
      invariant items == Items(row, ballots, viewer, i)
      invariant totalVotes == Sum(row, ballots, i)
    {
      var item := MakeItem(row, ballots, viewer, byOption, votedByMe, i);
      items := items + [item];
      totalVotes := totalVotes + item.votes;
    }
  }

  // --- Valid votes ---

  ghost predicate DistinctIds(options: seq<PollOption>) {
    forall i, j :: 0 <= i < j < |options| ==> options[i].id != options[j].id
  }

  ghost predicate VoteFits(polls: map<int, Poll>, v: Vote) {
    v.poll in polls && v.option in OptionIds(polls[v.poll].options)
  }

  /** In a single-choice poll a user has one vote. */
  ghost predicate Exclusive(polls: map<int, Poll>, v: Vote, w: Vote) {
    v.poll in polls && !polls[v.poll].allowsMultiple && IsBallot(w, v.poll, v.user) ==> v == w
  }

  ghost predicate VotesFit(polls: map<int, Poll>, votes: seq<Vote>) {
    && (forall v :: v in votes ==> VoteFits(polls, v))
    && (forall v, w :: v in votes && w in votes ==> Exclusive(polls, v, w))
    && NoRepeats(votes)
  }

  // --- What the tally counts ---

  predicate Among(options: seq<PollOption>, n: nat, id: int)
    requires n <= |options|
  {
    exists i :: 0 <= i < n && options[i].id == id
  }

  /** One more vote raises the sum by one, if its option is among those summed. */
  lemma {:induction false} SumSnoc(row: Poll, ballots: seq<Vote>, v: Vote, n: nat)
    requires n <= |row.options| && DistinctIds(row.options)
    ensures Sum(row, ballots + [v], n) == Sum(row, ballots, n) + if Among(row.options, n, v.option) then 1 else 0
  {
    assert (ballots + [v])[..|ballots|] == ballots;
    if n > 0 {
      SumSnoc(row, ballots, v, n - 1);
      var id := row.options[n - 1].id;
      assert Voters(ballots, id) + [] == Voters(ballots, id);
      if Among(row.options, n - 1, v.option) {
        var i :| 0 <= i < n - 1 && row.options[i].id == v.option;
        assert v.option != id;
      }
      assert Among(row.options, n, v.option) <==> Among(row.options, n - 1, v.option) || id == v.option;
    }
  }

  lemma {:induction false} SumEmpty(row: Poll, n: nat)
    requires n <= |row.options|
    ensures Sum(row, [], n) == 0
  {
    if n > 0 {
      SumEmpty(row, n - 1);
    }
  }

  lemma {:induction false} SumIsRows(row: Poll, ballots: seq<Vote>)
    requires DistinctIds(row.options)
    requires forall v :: v in ballots ==> v.option in OptionIds(row.options)
    ensures Sum(row, ballots, |row.options|) == |ballots|
  {
    if ballots == [] {
      SumEmpty(row, |row.options|);
    } else {
      var init, v := ballots[..|ballots| - 1], ballots[|ballots| - 1];
      SumIsRows(row, init);
      assert ballots == init + [v];
      SumSnoc(row, init, v, |row.options|);
      var o :| o in row.options && o.id == v.option;
      var i :| 0 <= i < |row.options| && row.options[i] == o;
      assert Among(row.options, |row.options|, v.option);
    }
  }

  lemma {:induction false} VotersAre(ballots: seq<Vote>, option: int, user: int)
    ensures user in Voters(ballots, option) <==> exists v :: v in ballots && v.user == user && v.option == option
  {
    if ballots != [] {
      var init, v := ballots[..|ballots| - 1], ballots[|ballots| - 1];
      VotersAre(init, option, user);
      assert ballots == init + [v];
    }
  }

  lemma {:induction false} VotersOnce(ballots: seq<Vote>, poll: int, option: int)
    requires NoRepeats(ballots) && forall v :: v in ballots ==> v.poll == poll
    ensures NoRepeats(Voters(ballots, option))
  {
    if ballots != [] {
      var init, v := ballots[..|ballots| - 1], ballots[|ballots| - 1];
      assert ballots == init + [v];
      DistinctSnoc(init, v);
      VotersOnce(init, poll, option);
      if v.option == option {
        VotersAre(init, option, v.user);
        assert forall w :: w in init && w.user == v.user && w.option == option ==> w == v;
      }
    }
  }

  function Users(ballots: seq<Vote>): set<int> {
    set v | v in ballots :: v.user
  }

  ghost predicate DistinctUsers(ballots: seq<Vote>) {
    forall i, j :: 0 <= i < j < |ballots| ==> ballots[i].user != ballots[j].user
  }

  lemma UsersSnoc(init: seq<Vote>, v: Vote)
    requires DistinctUsers(init + [v])
    ensures DistinctUsers(init) && v.user !in Users(init) && Users(init + [v]) == Users(init) + {v.user}
  {
    var all := init + [v];
    forall i, j | 0 <= i < j < |init| ensures init[i].user != init[j].user {
      assert all[i].user != all[j].user;
    }
    forall w | w in init ensures w.user != v.user {
      var i :| 0 <= i < |init| && init[i] == w;
      assert all[i].user != all[|init|].user;
    }
  }

  lemma {:induction false} OneRowPerUser(ballots: seq<Vote>)
    requires DistinctUsers(ballots)
    ensures |Users(ballots)| == |ballots|
  {
    if ballots != [] {
      var init, v := ballots[..|ballots| - 1], ballots[|ballots| - 1];
      assert ballots == init + [v];
      UsersSnoc(init, v);
      OneRowPerUser(init);
    }
  }

  /** `item` counts the users who voted for the option, and says who they are. */
  ghost predicate ItemMeans(item: Item, option: int, poll: int, votes: seq<Vote>, viewer: Option<int>,
                            anonymous: bool) {
    var voters := Voters(VotesOf(votes, poll), option);
    && item.id == option
    && item.votes == |voters| && NoRepeats(voters)
    && (forall u :: u in voters <==> Vote(poll, option, u) in votes)
    && item.voterUserIds == (if anonymous then [] else voters)
    && (item.votedByMe <==> viewer.Some? && Vote(poll, option, viewer.value) in votes)
  }

  lemma ItemFollows(row: Poll, poll: int, votes: seq<Vote>, viewer: Option<int>, i: nat)
    requires i < |row.options| && NoRepeats(VotesOf(votes, poll))
    ensures ItemMeans(ItemOf(row, VotesOf(votes, poll), viewer, i), row.options[i].id,
                      poll, votes, viewer, row.isAnonymous)
  {
    var ballots := VotesOf(votes, poll);
    var option := row.options[i].id;
    forall v | v in ballots ensures v.poll == poll {
      KeepIs(votes, InPoll(poll), v);
    }
    VotersOnce(ballots, poll, option);
    forall u ensures u in Voters(ballots, option) <==> Vote(poll, option, u) in votes {
      VotersAre(ballots, option, u);
      KeepIs(votes, InPoll(poll), Vote(poll, option, u));
      forall v | v in ballots && v.user == u && v.option == option ensures v == Vote(poll, option, u) {
        KeepIs(votes, InPoll(poll), v);
      }
    }
    if viewer.Some? {
      var me := viewer.value;
      KeepIs(votes, InPoll(poll), Vote(poll, option, me));
      assert Vote(poll, option, me) in ballots ==> option in Chose(ballots, me);
      if option in Chose(ballots, me) {
        var v :| v in ballots && v.user == me && v.option == option;
        KeepIs(votes, InPoll(poll), v);
      }
    }
  }

  /** After a vote that was accepted, the user's votes in the poll are exactly the options chosen. */
  lemma VoteReplacesBallot(s: State, user: int, messageId: int, poll: int, ids: set<int>, t: State)
    requires Voted(s, user, messageId, poll, ids, t, None)
    ensures forall v :: v in t.votes <==> if IsBallot(v, poll, user) then v.option in ids else v in s.votes
  {
    var kept := WithoutBallot(s.votes, poll, user);
    assert t.votes == kept + t.votes[|kept|..];
    forall v ensures v in t.votes <==> if IsBallot(v, poll, user) then v.option in ids else v in s.votes {
      KeepIs(s.votes, NoBallotOf(poll, user), v);
      assert v in t.votes <==> v in kept || v in t.votes[|kept|..];
    }
  }

  /**
   A vote is accepted if and only if the message is a poll with an open poll row, the user is in its chat,
   every chosen id is one of its options, and at most one is chosen unless it allows several.
   */
  lemma VoteAcceptedIff(s: State, user: int, messageId: int, poll: int, ids: set<int>)
    ensures VoteRefusal(s, user, messageId, poll, ids).None? <==>
      && messageId in s.messages && s.messages[messageId].isPoll
      && (s.messages[messageId].chatId, user) in s.members
      && poll in s.polls && s.polls[poll].messageId == messageId && !s.polls[poll].isClosed
      && (forall id :: id in ids ==> exists o :: o in s.polls[poll].options && o.id == id)
      && (s.polls[poll].allowsMultiple || |ids| <= 1)
  {
    if poll in s.polls {
      ChosenAreOptions(s.polls[poll].options, ids);
    }
  }

  lemma ChosenAreOptions(options: seq<PollOption>, ids: set<int>)
    ensures ids <= OptionIds(options) <==> forall id :: id in ids ==> exists o :: o in options && o.id == id
  {
    if forall id :: id in ids ==> exists o :: o in options && o.id == id {
      forall id | id in ids ensures id in OptionIds(options) {
        var o :| o in options && o.id == id;
      }
    }
    if ids <= OptionIds(options) {
      forall id | id in ids ensures exists o :: o in options && o.id == id {
        assert id in OptionIds(options);
      }
    }
  }

  /** What refuses a vote: the first of these that applies. */
  lemma VoteRefusedBecause(s: State, user: int, messageId: int, poll: int, ids: set<int>)
    ensures var refusal := VoteRefusal(s, user, messageId, poll, ids);
      var isPoll := messageId in s.messages && s.messages[messageId].isPoll;
      var isMember := isPoll && (s.messages[messageId].chatId, user) in s.members;
      var isOpen := isMember && IsPollOf(s, poll, messageId) && !s.polls[poll].isClosed;
      && (refusal == Some(NotAMember) <==> isPoll && !isMember)
      && (refusal == Some(PollNotFound) <==> !isPoll || (isMember && !IsPollOf(s, poll, messageId)))
      && (refusal == Some(PollClosed) <==> isMember && IsPollOf(s, poll, messageId) && !isOpen)
      && (refusal == Some(UnknownOption) <==> isOpen && !(ids <= OptionIds(s.polls[poll].options)))
      && (refusal == Some(OnlyOneOption) <==>
            isOpen && ids <= OptionIds(s.polls[poll].options) && !s.polls[poll].allowsMultiple && |ids| > 1)
  {
  }

  /** Only the author closes a poll, while in its chat. */
  lemma CloseAcceptedIff(s: State, user: int, messageId: int)
    ensures CloseRefusal(s, user, messageId).None? <==>
      && messageId in s.messages && s.messages[messageId].isPoll && s.messages[messageId].senderId == user
      && (s.messages[messageId].chatId, user) in s.members
      && exists p :: p in s.polls && s.polls[p].messageId == messageId
    ensures CloseRefusal(s, user, messageId) == Some(NotTheAuthor) <==>
      && messageId in s.messages && s.messages[messageId].isPoll && s.messages[messageId].senderId != user
      && (s.messages[messageId].chatId, user) in s.members
  {
    if p :| p in s.polls && s.polls[p].messageId == messageId {
      assert IsPollOf(s, p, messageId);
    }
  }

  /** Closing closes that poll for good and touches nothing else of it, nor any other row. */
  lemma ClosingMeans(s: State, poll: int)
    requires poll in s.polls
    ensures var t := ClosedPoll(s, poll); var row, was := t.polls[poll], s.polls[poll];
      && row.isClosed && row.options == was.options && row.question == was.question && row.messageId == was.messageId
      && row.allowsMultiple == was.allowsMultiple && row.isAnonymous == was.isAnonymous
      && t.polls.Keys == s.polls.Keys && (forall p :: p in s.polls && p != poll ==> t.polls[p] == s.polls[p])
      && t.votes == s.votes && t.messages == s.messages && t.members == s.members
  {
  }

  ghost predicate ComesFrom(space: char -> bool, options: seq<string>, i: int, s: string) {
    0 <= i < |options| && !AllSpace(space, options[i]) && s == Strip(space, options[i])
  }

  /** The cleaned options are the trimmed options that are not blank; `CleanedIsPrefix` keeps their order. */
  lemma {:induction false} CleanedAre(space: char -> bool, options: seq<string>, s: string)
    ensures s in Cleaned(space, options) <==> exists i :: ComesFrom(space, options, i, s)
  {
    if options != [] {
      var n := |options| - 1;
      var init := options[..n];
      CleanedAre(space, init, s);
      if i :| ComesFrom(space, init, i, s) {
        assert ComesFrom(space, options, i, s);
      }
      if i :| ComesFrom(space, options, i, s) {
        assert i < n ==> ComesFrom(space, init, i, s);
      }
      assert s == Strip(space, options[n]) && !AllSpace(space, options[n]) ==> ComesFrom(space, options, n, s);
    }
  }

  function Filled(space: char -> bool, options: seq<string>): set<nat> {
    set i: nat | i < |options| && !AllSpace(space, options[i])
  }

  lemma FilledSnoc(space: char -> bool, options: seq<string>, s: string)
    ensures Filled(space, options + [s]) == Filled(space, options) + if AllSpace(space, s) then {} else {|options|}
  {
  }

  /** There is one for each option that is not blank. */
  lemma {:induction false} CleanedCount(space: char -> bool, options: seq<string>)
    ensures |Cleaned(space, options)| == |Filled(space, options)|
  {
    if options == [] {
      assert Filled(space, options) == {};
    } else {
      var init, s := options[..|options| - 1], options[|options| - 1];
      CleanedCount(space, init);
      FilledSnoc(space, init, s);
      assert options == init + [s];
    }
  }
}
