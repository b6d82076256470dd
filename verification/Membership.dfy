/**
 Chats, their members and their owners: creating a chat, adding and removing members, leaving, and
 deleting an account. `doomed` holds the chat rows whose deletion is pending in the session: with
 autoflush off, queries still see them until the next flush.
 */
module Membership {
  import opened Common
  import opened Orders

  datatype Role = Owner | Member

  datatype Kind = Private | Group

  datatype Chat = Chat(kind: Kind, createdBy: Option<int>, pair: Option<(int, int)>)

  datatype Message = Message(chatId: int, senderId: int, isPoll: bool)

  datatype Store = Store(users: set<int>, chats: map<int, Chat>, members: map<(int, int), Role>, nextId: int)

  datatype Failure =
    | InvalidType
    | NotOneParticipant
    | UsersNotFound(missing: set<int>)
    | TitleRequired
    | ChatNotFound
    | NotAGroup
    | NotAMember
    | IsYourself
    | UserNotFound
    | AlreadyMember
    | NotGroupOwner
    | NotGroupCreator
    | TargetNotMember

  function Roster(s: Store, c: int): set<int> {
    set k | k in s.members && k.0 == c :: k.1
  }

  /** The foreign keys, and ids that are never given out twice. */
  ghost predicate Linked(s: Store) {
    && (forall k :: k in s.members ==> k.0 in s.chats && k.1 in s.users)
    && (forall c :: c in s.chats ==> c < s.nextId)
    && (forall c :: c in s.chats && s.chats[c].createdBy.Some? ==> s.chats[c].createdBy.value in s.users)
  }

  /** The creator of `c` is a member of it and its only owner. */
  ghost predicate HasItsOwner(s: Store, c: int)
    requires c in s.chats
  {
    && s.chats[c].createdBy.Some?
    && (c, s.chats[c].createdBy.value) in s.members
    && forall u :: (c, u) in s.members ==> (s.members[(c, u)] == Owner <==> Some(u) == s.chats[c].createdBy)
  }

  ghost predicate Sound(s: Store) {
    Linked(s) && forall k :: k in s.members ==> HasItsOwner(s, k.0)
  }

  ghost predicate OwnerOf(s: Store, c: int, u: int) {
    (c, u) in s.members && s.members[(c, u)] == Owner
  }

  // --- The commands on values ---

  function Pair(a: int, b: int): (int, int) {
    (Min(a, b), Max(a, b))
  }

  predicate Keyed(s: Store, c: int, a: int, b: int) {
    c in s.chats && s.chats[c].pair == Some(Pair(a, b))
  }

  predicate Between(s: Store, c: int, a: int, b: int) {
    c in s.chats && s.chats[c].kind.Private? && Roster(s, c) == {a, b}
  }

  /** What `_find_private_chat_between` looks for: the pair key first, the two members otherwise. */
  ghost predicate Finds(s: Store, a: int, b: int, c: int) {
    Keyed(s, c, a, b) || (Between(s, c, a, b) && forall d :: !Keyed(s, d, a, b))
  }

  function Seats(id: int, actor: int, ids: set<int>): map<(int, int), Role> {
    map u | u in ids :: (id, u) := if u == actor then Owner else Member
  }

  lemma SeatsStep(m: map<(int, int), Role>, id: int, actor: int, ids: set<int>, u: int)
    ensures (m + Seats(id, actor, ids))[(id, u) := if u == actor then Owner else Member]
         == m + Seats(id, actor, ids + {u})
  {
  }

  function Created(s: Store, chat: Chat, actor: int, ids: set<int>): Store {
    Store(s.users, s.chats[s.nextId := chat], s.members + Seats(s.nextId, actor, ids), s.nextId + 1)
  }

  function KindOf(chatType: string): Option<Kind> {
    if chatType == "private" then Some(Private) else if chatType == "group" then Some(Group) else None
  }

  function Others(memberIds: seq<int>, actor: int): set<int> {
    (set u | u in memberIds) - {actor}
  }

  /** A new chat, or the first of the two refusals that looking at the tables can bring. */
  ghost predicate Started(s: Store, actor: int, kind: Kind, ids: set<int>, pair: Option<(int, int)>, blank: bool,
                          t: Store, reply: Result<int, Failure>) {
    if !(ids <= s.users) then reply == Err(UsersNotFound(ids - s.users)) && t == s
    else if kind.Group? && blank then reply == Err(TitleRequired) && t == s
    else reply == Ok(s.nextId) && t == Created(s, Chat(kind, Some(actor), pair), actor, ids)
  }

  /** What `create_chat` answers, and what it leaves behind. */
  ghost predicate ChatCreated(s: Store, actor: int, kind: Option<Kind>, others: set<int>, blank: bool,
                              t: Store, reply: Result<int, Failure>) {
    if kind.None? then reply == Err(InvalidType) && t == s
    else if kind.value.Group? then Started(s, actor, Group, others + {actor}, None, blank, t, reply)
    else if |others| != 1 then reply == Err(NotOneParticipant) && t == s
    else
      var other := Smallest(others);
      if exists c :: Finds(s, actor, other, c)
      then reply.Ok? && Finds(s, actor, other, reply.value) && t == s
      else Started(s, actor, Private, {actor, other}, Some(Pair(actor, other)), blank, t, reply)
  }

  function RequireGroupMember(s: Store, c: int, actor: int): Option<Failure> {
    if c !in s.chats then Some(ChatNotFound)
    else if s.chats[c].kind != Group then Some(NotAGroup)
    else if (c, actor) !in s.members then Some(NotAMember)
    else None
  }

  function Added(s: Store, c: int, actor: int, user: int): (Store, Option<Failure>) {
    var refusal := RequireGroupMember(s, c, actor);
    if refusal.Some? then (s, refusal)
    else if user == actor then (s, Some(IsYourself))
    else if user !in s.users then (s, Some(UserNotFound))
    else if (c, user) in s.members then (s, Some(AlreadyMember))
    else (s.(members := s.members[(c, user) := Member]), None)
  }

  function Promoted(s: Store, c: int, user: int): Store
    requires c in s.chats
  {
    s.(chats := s.chats[c := s.chats[c].(createdBy := Some(user))], members := s.members[(c, user) := Owner])
  }

  function WithoutChat(messages: map<int, Message>, c: int): map<int, Message> {
    map m | m in messages && messages[m].chatId != c :: messages[m]
  }

  /** What an emptied chat takes along. */
  function MessagesAfter(messages: map<int, Message>, c: int, after: Store): map<int, Message> {
    if Roster(after, c) == {} then WithoutChat(messages, c) else messages
  }

  function WithoutEmptyChat(s: Store, c: int): Store {
    if Roster(s, c) == {} then s.(chats := s.chats - {c}) else s
  }

  /** The member who takes over when `user` goes: the smallest other user id. */
  function Heir(s: Store, c: int, user: int): Option<int>
    requires c in s.chats
  {
    var others := Roster(s, c) - {user};
    if s.chats[c].kind.Group? && s.chats[c].createdBy == Some(user) && others != {}
    then Some(Smallest(others)) else None
  }

  function Left(s: Store, c: int, actor: int): (Store, Option<Failure>) {
    var refusal := RequireGroupMember(s, c, actor);
    if refusal.Some? then (s, refusal) else
      var heir := Heir(s, c, actor);
      var handed := if heir.Some? then Promoted(s, c, heir.value) else s;
      (WithoutEmptyChat(handed.(members := handed.members - {(c, actor)}), c), None)
  }

  /** Removing a row as the command does it, whoever's row it is. */
  function Dropped(s: Store, c: int, target: int): Store
    requires c in s.chats
  {
    var gone := s.(members := s.members - {(c, target)});
    var kept := if s.chats[c].createdBy == Some(target) && Roster(gone, c) != {}
                then Promoted(gone, c, Smallest(Roster(gone, c))) else gone;
    WithoutEmptyChat(kept, c)
  }

  function Removed(s: Store, c: int, actor: int, target: int): (Store, Option<Failure>) {
    var refusal := RequireGroupMember(s, c, actor);
    if refusal.Some? then (s, refusal)
    else if s.members[(c, actor)] != Owner then (s, Some(NotGroupOwner))
    else if s.chats[c].createdBy != Some(actor) then (s, Some(NotGroupCreator))
    else if target == actor then (s, Some(IsYourself))
    else if (c, target) !in s.members then (s, Some(TargetNotMember))
    else (Dropped(s, c, target), None)
  }

  // --- Deleting an account ---

  /** Nobody is left in `c` once the account of `uid` is gone. */
  predicate Emptied(s: Store, uid: int, c: int) {
    && c in s.chats && (c, uid) in s.members
    && (s.chats[c].kind.Private? || Roster(s, c) == {uid})
  }

  function RoleWithout(s: Store, uid: int, k: (int, int)): Role
    requires k in s.members && k.0 in s.chats
  {
    if (k.0, uid) in s.members && Heir(s, k.0, uid) == Some(k.1) then Owner else s.members[k]
  }

  function ChatWithout(s: Store, uid: int, c: int): Chat
    requires c in s.chats
  {
    if (c, uid) in s.members && Heir(s, c, uid).Some? then s.chats[c].(createdBy := Heir(s, c, uid)) else s.chats[c]
  }

  function Unowned(chat: Chat, uid: int): Chat {
    if chat.createdBy == Some(uid) then chat.(createdBy := None) else chat
  }

  /**
   The account of `uid` is gone from `s`. Of the chats nobody is left in, rows that `uid` created may
   stay behind without a creator; everything else is determined.
   */
  ghost predicate AccountDeleted(s: Store, uid: int, t: Store)
    requires Linked(s)
  {
    && t.users == s.users - {uid} && t.nextId == s.nextId
    && (forall k :: k in t.members <==> k in s.members && k.1 != uid && !Emptied(s, uid, k.0))
    && (forall k :: k in t.members ==> t.members[k] == RoleWithout(s, uid, k))
    && (forall c :: c in t.chats ==> c in s.chats && t.chats[c] == Unowned(ChatWithout(s, uid, c), uid))
    && (forall c :: c in s.chats && c !in t.chats ==> Emptied(s, uid, c))
    && (forall c :: c in t.chats && Emptied(s, uid, c) ==> s.chats[c].createdBy == Some(uid))
  }

  /** The memberships in the chats of `done` are dealt with. */
  ghost predicate MembersSoFar(s: Store, uid: int, done: set<int>, t: Store)
    requires Linked(s)
  {
    && (forall c :: c in done ==> (c, uid) in s.members)
    && (forall k :: k in t.members <==> k in s.members && !(k.0 in done && (k.1 == uid || Emptied(s, uid, k.0))))
    && (forall k :: k in t.members ==> t.members[k] == if k.0 in done then RoleWithout(s, uid, k) else s.members[k])
  }

  /** So are the chats, but for the rows of `doomed`, which are still there. */
  ghost predicate ChatsSoFar(s: Store, uid: int, done: set<int>, t: Store, doomed: set<int>)
    requires Linked(s)
  {
    && (forall c :: c in t.chats ==>
          c in s.chats && t.chats[c] == if c in done then ChatWithout(s, uid, c) else s.chats[c])
    && (forall c :: c in s.chats && c !in t.chats ==> c in done && Emptied(s, uid, c))
    && (forall c :: c in doomed ==> c in done && Emptied(s, uid, c))
    && (forall c :: c in t.chats && c in done && Emptied(s, uid, c) ==> c in doomed)
  }

  ghost predicate Progress(s: Store, uid: int, done: set<int>, t: Store, doomed: set<int>)
    requires Linked(s)
  {
    && t.users == s.users && t.nextId == s.nextId
    && MembersSoFar(s, uid, done, t)
    && ChatsSoFar(s, uid, done, t, doomed)
  }

  /** What the body of the loop does to a private chat of the user. */
  function PrivateLeft(t: Store, c: int): Store {
    t.(members := map k | k in t.members && k.0 != c :: t.members[k])
  }

  lemma PrivateStep(s: Store, uid: int, done: set<int>, t: Store, doomed: set<int>, c: int)
    requires Linked(s) && Progress(s, uid, done, t, doomed)
    requires c !in done && (c, uid) in t.members && c in t.chats && t.chats[c].kind.Private?
    ensures Progress(s, uid, done + {c}, PrivateLeft(t, c), doomed + {c})
  {
  }

  lemma RosterIs(s: Store, c: int, u: int)
    ensures u in Roster(s, c) <==> (c, u) in s.members
  {
    assert (c, u) in s.members ==> (c, u).0 == c;
  }

  lemma RosterUntouched(s: Store, uid: int, done: set<int>, t: Store, c: int)
    requires Linked(s) && MembersSoFar(s, uid, done, t) && c !in done
    ensures Roster(t, c) == Roster(s, c)
  {
    forall u ensures u in Roster(t, c) <==> u in Roster(s, c) {
      RosterIs(s, c, u);
      RosterIs(t, c, u);
    }
  }

  /** What the body of the loop does to a group of the user. */
  function GroupLeft(t: Store, uid: int, c: int, doomed: set<int>): Store
    requires c in t.chats
  {
    var heir := Heir(t, c, uid);
    var handed := if heir.Some? then Promoted(t, c, heir.value) else t;
    handed.(chats := handed.chats - doomed, members := handed.members - {(c, uid)})
  }

  lemma GroupMembers(s: Store, uid: int, done: set<int>, t: Store, doomed: set<int>, c: int)
    requires Linked(s) && MembersSoFar(s, uid, done, t)
    requires c !in done && (c, uid) in t.members && c in t.chats && t.chats[c] == s.chats[c] && s.chats[c].kind.Group?
    ensures MembersSoFar(s, uid, done + {c}, GroupLeft(t, uid, c, doomed))
    ensures Roster(GroupLeft(t, uid, c, doomed), c) == Roster(s, c) - {uid}
    ensures Heir(t, c, uid) == Heir(s, c, uid)
  {
    RosterUntouched(s, uid, done, t, c);
    var next := GroupLeft(t, uid, c, doomed);
    var heir := Heir(t, c, uid);
    if heir.Some? {
      RosterIs(t, c, heir.value);
    }
    assert next.members.Keys == t.members.Keys - {(c, uid)};
    forall u ensures u in Roster(next, c) <==> u in Roster(s, c) - {uid} {
      RosterIs(next, c, u);
      RosterIs(t, c, u);
    }
    forall u | (c, u) in s.members && u != uid ensures !Emptied(s, uid, c) {
      RosterIs(s, c, u);
    }
  }

  lemma GroupStep(s: Store, uid: int, done: set<int>, t: Store, doomed: set<int>, c: int)
    requires Linked(s) && Progress(s, uid, done, t, doomed)
    requires c !in done && (c, uid) in t.members && c in t.chats && t.chats[c].kind.Group?
    ensures var next := GroupLeft(t, uid, c, doomed);
      Progress(s, uid, done + {c}, next, if Roster(next, c) == {} then {c} else {})
  {
    GroupMembers(s, uid, done, t, doomed, c);
    RosterIs(s, c, uid);
    GroupChats(s, uid, done, t, doomed, c);
  }

  lemma GroupChats(s: Store, uid: int, done: set<int>, t: Store, doomed: set<int>, c: int)
    requires Linked(s) && ChatsSoFar(s, uid, done, t, doomed)
    requires c !in done && (c, uid) in s.members && c in t.chats && s.chats[c].kind.Group?
    requires Heir(t, c, uid) == Heir(s, c, uid)
    ensures ChatsSoFar(s, uid, done + {c}, GroupLeft(t, uid, c, doomed), if Roster(s, c) == {uid} then {c} else {})
  {
    assert c !in doomed && GroupLeft(t, uid, c, doomed).chats.Keys == t.chats.Keys - doomed;
  }

  /** One round of the loop: what it leaves of the tables, and of the pending deletions. */
  function Round(t: Store, doomed: set<int>, uid: int, c: int): (Store, set<int>) {
    if c !in t.chats then (t, doomed)
    else if t.chats[c].kind.Private? then (PrivateLeft(t, c), doomed + {c})
    else
      var next := GroupLeft(t, uid, c, doomed);
      (next, if Roster(next, c) == {} then {c} else {})
  }

  lemma RoundKeepsProgress(s: Store, uid: int, done: set<int>, t: Store, doomed: set<int>, c: int)
    requires Linked(s) && Progress(s, uid, done, t, doomed)
    requires c !in done && (c, uid) in t.members && c in t.chats
    ensures var (next, nextDoomed) := Round(t, doomed, uid, c); Progress(s, uid, done + {c}, next, nextDoomed)
  {
    if t.chats[c].kind.Private? {
      PrivateStep(s, uid, done, t, doomed, c);
    } else {
      GroupStep(s, uid, done, t, doomed, c);
    }
  }

  /** The loop, meeting the user's chats in the given order. */
  function Rounds(s: Store, uid: int, order: seq<int>): (Store, set<int>) {
    if order == [] then (s, {}) else
      var (t, doomed) := Rounds(s, uid, order[..|order| - 1]);
      Round(t, doomed, uid, order[|order| - 1])
  }

  /** Some of the user's chats, none twice. */
  ghost predicate PartOrder(s: Store, uid: int, order: seq<int>) {
    NoRepeats(order) && forall c :: c in order ==> (c, uid) in s.members
  }

  /** All of the user's chats, in an order in which the query may return them. */
  ghost predicate IsOrder(s: Store, uid: int, order: seq<int>) {
    PartOrder(s, uid, order) && forall c :: (c, uid) in s.members ==> c in order
  }

  lemma {:induction false} RoundsProgress(s: Store, uid: int, order: seq<int>)
    requires Linked(s) && PartOrder(s, uid, order)
    ensures var (t, doomed) := Rounds(s, uid, order); Progress(s, uid, ToSet(order), t, doomed)
  {
    if order != [] {
      var init, c := order[..|order| - 1], order[|order| - 1];
      assert order == init + [c];
      RoundsProgress(s, uid, init);
      var (t, doomed) := Rounds(s, uid, init);
      assert c !in init;
      NextRound(s, uid, ToSet(init), t, doomed, c);
      RoundKeepsProgress(s, uid, ToSet(init), t, doomed, c);
      assert ToSet(order) == ToSet(init) + {c};
    } else {
      assert ToSet(order) == {};
    }
  }

  /** A chat of the user that has not been dealt with is still there, with the membership. */
  lemma NextRound(s: Store, uid: int, done: set<int>, t: Store, doomed: set<int>, c: int)
    requires Linked(s) && Progress(s, uid, done, t, doomed) && (c, uid) in s.members && c !in done
    ensures (c, uid) in t.members && c in t.chats
  {
    assert (c, uid) in s.members ==> c in s.chats;
  }

  function NamedBy(chats: map<int, Chat>, uid: int): set<int> {
    set c | c in chats && chats[c].createdBy == Some(uid)
  }

  function Forgotten(chats: map<int, Chat>, uid: int): map<int, Chat> {
    map c | c in chats :: Unowned(chats[c], uid)
  }

  /** What the commit leaves: the user gone, the creators cleared, the pending deletions carried out. */
  function Committed(t: Store, doomed: set<int>, uid: int): Store {
    Store(t.users - {uid}, Forgotten(t.chats, uid) - (doomed - NamedBy(t.chats, uid)), t.members, t.nextId)
  }

  /**
   The end of an account deletion. Clearing the creators is pending when the user row is deleted, so a
   database that checks the foreign key of `created_by` at once refuses while a chat row names the user,
   and everything is rolled back.
   */
  ghost predicate Outcome(s: Store, uid: int, checksKeys: bool, order: seq<int>, after: Store, ok: bool) {
    var (t, doomed) := Rounds(s, uid, order);
    && (ok <==> !checksKeys || NamedBy(t.chats, uid) == {})
    && after == if ok then Committed(t, doomed, uid) else s
  }

  function Open(s: Store, uid: int, order: seq<int>): set<(int, int)> {
    set k | k in s.members && k.1 == uid && k.0 !in order
  }

  /** Every membership has its chat, and each round deals with one membership for good. */
  lemma OneLessOpen(s: Store, uid: int, order: seq<int>, m: (int, int))
    requires Linked(s) && PartOrder(s, uid, order) && m in Rounds(s, uid, order).0.members && m.1 == uid
    ensures m.0 in Rounds(s, uid, order).0.chats
    ensures PartOrder(s, uid, order + [m.0])
    ensures Rounds(s, uid, order + [m.0])
         == Round(Rounds(s, uid, order).0, Rounds(s, uid, order).1, uid, m.0)
    ensures |Open(s, uid, order + [m.0])| < |Open(s, uid, order)|
  {
    RoundsProgress(s, uid, order);
    var (t, doomed) := Rounds(s, uid, order);
    assert m in s.members && m.0 !in order by {
      assert m.0 in order ==> m.0 in ToSet(order);
    }
    NextRound(s, uid, ToSet(order), t, doomed, m.0);
    assert (order + [m.0])[..|order|] == order;
    assert Open(s, uid, order + [m.0]) == Open(s, uid, order) - {m};
    assert m in Open(s, uid, order);
  }

  lemma AllMet(s: Store, uid: int, order: seq<int>)
    requires Linked(s) && PartOrder(s, uid, order)
    requires forall c :: (c, uid) !in Rounds(s, uid, order).0.members
    ensures IsOrder(s, uid, order)
  {
    RoundsProgress(s, uid, order);
    forall c | (c, uid) in s.members ensures c in order {
      assert (c, uid) !in Rounds(s, uid, order).0.members;
      assert c in ToSet(order);
    }
  }

  /** The messages once the chats of `order` are dealt with: not the user's own, not those of emptied chats. */
  function MessagesSoFar(messages: map<int, Message>, s: Store, uid: int, order: seq<int>): map<int, Message> {
    map m | m in messages && messages[m].senderId != uid
         && !(messages[m].chatId in order && Emptied(s, uid, messages[m].chatId)) :: messages[m]
  }

  function MessagesWithout(messages: map<int, Message>, s: Store, uid: int): map<int, Message> {
    map m | m in messages && messages[m].senderId != uid && !Emptied(s, uid, messages[m].chatId) :: messages[m]
  }

  /** A round takes the messages of its chat along exactly if nobody is left in it. */
  lemma RoundEmpties(messages: map<int, Message>, s: Store, uid: int, order: seq<int>, c: int)
    requires Linked(s) && PartOrder(s, uid, order) && (c, uid) in Rounds(s, uid, order).0.members && c !in order
    ensures var (t, doomed) := Rounds(s, uid, order);
      MessagesAfter(MessagesSoFar(messages, s, uid, order), c, Round(t, doomed, uid, c).0)
        == MessagesSoFar(messages, s, uid, order + [c])
  {
    RoundsProgress(s, uid, order);
    var (t, doomed) := Rounds(s, uid, order);
    NextRound(s, uid, ToSet(order), t, doomed, c);
    RosterIs(s, c, uid);
    if t.chats[c].kind.Group? {
      GroupMembers(s, uid, ToSet(order), t, doomed, c);
    } else {
      assert Roster(PrivateLeft(t, c), c) == {};
    }
    assert Roster(Round(t, doomed, uid, c).0, c) == {} <==> Emptied(s, uid, c);
    assert forall d :: d in order + [c] <==> d in order || d == c;
  }

  lemma AllChatsMet(messages: map<int, Message>, s: Store, uid: int, order: seq<int>)
    requires IsOrder(s, uid, order)
    ensures MessagesSoFar(messages, s, uid, order) == MessagesWithout(messages, s, uid)
  {
    forall c | Emptied(s, uid, c) ensures c in order {
      assert (c, uid) in s.members;
    }
  }

  class ChatStore {
    var users: set<int>
    var chats: map<int, Chat>
    var members: map<(int, int), Role>
    var messages: map<int, Message>
    var nextId: int
    var doomed: set<int>

    function Rows(): Store
      reads this
    {
      Store(users, chats, members, nextId)
    }

    /** Any chat the lookup may return; there is no `ORDER BY`. */
    method FindPrivateChatBetween(a: int, b: int) returns (found: Option<int>)
      ensures found.Some? ==> Finds(Rows(), a, b, found.value)
      ensures found.None? ==> forall c :: !Finds(Rows(), a, b, c)
    {
      var keyed := set c | c in chats && Keyed(Rows(), c, a, b);
      if keyed != {} {
        var c := AnyOf(keyed);
        return Some(c);
      }
      var between := set c | c in chats && Between(Rows(), c, a, b);
      if between != {} {
        var c := AnyOf(between);
        assert forall d :: Keyed(Rows(), d, a, b) ==> d in keyed;
        return Some(c);
      }
      assert forall d :: Keyed(Rows(), d, a, b) ==> d in keyed;
      assert forall d :: Between(Rows(), d, a, b) ==> d in between;
      return None;
    }

    method InsertChat(chat: Chat, actor: int, ids: set<int>)
      modifies this`chats, this`members, this`nextId
      ensures Rows() == Created(old(Rows()), chat, actor, ids)
    {
      var id := nextId;
      chats := chats[id := chat];
      nextId := id + 1;
      var added: set<int> := {};
      while added != ids
        invariant added <= ids
        invariant nextId == id + 1 && chats == old(chats)[id := chat]
        invariant members == old(members) + Seats(id, actor, added)
        decreases |ids - added|
      {
        var u := AnyOf(ids - added);
        members := members[(id, u) := if u == actor then Owner else Member];
        SeatsStep(old(members), id, actor, added, u);
        added := added + {u};
      }
    }

    method CreateChat(actor: int, chatType: string, memberIds: seq<int>, title: string, space: char -> bool)
      returns (reply: Result<int, Failure>)
      modifies this`chats, this`members, this`nextId
      ensures ChatCreated(old(Rows()), actor, KindOf(chatType), Others(memberIds, actor),
                          AllSpace(space, title), Rows(), reply)
    {
      var kind := KindOf(chatType);
      if kind.None? {
        return Err(InvalidType);
      }
      var others := Others(memberIds, actor);
      var pair := None;
      if kind.value.Private? {
        if |others| != 1 {
          return Err(NotOneParticipant);
        }
        var other := Smallest(others);
        Singleton(others, other);
        assert others + {actor} == {actor, other};
        var existing := FindPrivateChatBetween(actor, other);
        if existing.Some? {
          return Ok(existing.value);
        }
        pair := Some(Pair(actor, other));
      }
      reply := StartChat(actor, kind.value, others + {actor}, pair, Strip(space, title) == "");
    }

    /** The part of the command that both kinds of chat share. */
    method StartChat(actor: int, kind: Kind, ids: set<int>, pair: Option<(int, int)>, blank: bool)
      returns (reply: Result<int, Failure>)
      modifies this`chats, this`members, this`nextId
      ensures Started(old(Rows()), actor, kind, ids, pair, blank, Rows(), reply)
    {
      var missing := ids - users;
      if missing != {} {
        return Err(UsersNotFound(missing));
      }
      assert ids <= users by {
        forall u | u in ids ensures u in users {
          assert u !in missing;
        }
      }
      if kind.Group? && blank {
        return Err(TitleRequired);
      }
      InsertChat(Chat(kind, Some(actor), pair), actor, ids);
      return Ok(nextId - 1);
    }

    method CheckGroupMember(c: int, actor: int) returns (refusal: Option<Failure>)
      ensures refusal == RequireGroupMember(Rows(), c, actor)
    {
      if c !in chats {
        return Some(ChatNotFound);
      }
      if chats[c].kind != Group {
        return Some(NotAGroup);
      }
      if (c, actor) !in members {
        return Some(NotAMember);
      }
      return None;
    }

    method AddChatMember(c: int, actor: int, user: int) returns (refusal: Option<Failure>)
      modifies this`members
      ensures (Rows(), refusal) == Added(old(Rows()), c, actor, user)
    {
      refusal := CheckGroupMember(c, actor);
      if refusal.Some? {
        return;
      }
      if user == actor {
        return Some(IsYourself);
      }
      if user !in users {
        return Some(UserNotFound);
      }
      if (c, user) in members {
        return Some(AlreadyMember);
      }
      members := members[(c, user) := Member];
    }

    method DeleteChatIfEmpty(c: int)
      modifies this`chats, this`messages
      ensures Rows() == WithoutEmptyChat(old(Rows()), c)
      ensures messages == MessagesAfter(old(messages), c, Rows())
    {
      if Roster(Rows(), c) == {} {
        messages := WithoutChat(messages, c);
        chats := chats - {c};
      }
    }

    method PromoteNextGroupOwner(c: int)
      requires c in chats
      modifies this`chats, this`members
      ensures var roster := Roster(old(Rows()), c);
        Rows() == if roster == {} then old(Rows()) else Promoted(old(Rows()), c, Smallest(roster))
    {
      var roster := Roster(Rows(), c);
      if roster == {} {
        return;
      }
      var next := Smallest(roster);
      chats := chats[c := chats[c].(createdBy := Some(next))];
      members := members[(c, next) := Owner];
    }

    method LeaveGroupChat(c: int, actor: int) returns (refusal: Option<Failure>)
      modifies this`chats, this`members, this`messages
      ensures (Rows(), refusal) == Left(old(Rows()), c, actor)
      ensures messages == if refusal.None? then MessagesAfter(old(messages), c, Rows()) else old(messages)
    {
      refusal := CheckGroupMember(c, actor);
      if refusal.Some? {
        return;
      }
      if chats[c].createdBy == Some(actor) {
        var others := Roster(Rows(), c) - {actor};
        if others != {} {
          var next := Smallest(others);
          chats := chats[c := chats[c].(createdBy := Some(next))];
          members := members[(c, next) := Owner];
        }
      }
      members := members - {(c, actor)};
      DeleteChatIfEmpty(c);
    }

    /** What the command does once its checks have passed. */
    method DropMember(c: int, target: int)
      requires c in chats
      modifies this`chats, this`members, this`messages
      ensures Rows() == Dropped(old(Rows()), c, target)
      ensures messages == MessagesAfter(old(messages), c, Rows())
    {
      var removingGroupCreator := chats[c].createdBy == Some(target);
      members := members - {(c, target)};
      if removingGroupCreator {
        PromoteNextGroupOwner(c);
      }
      DeleteChatIfEmpty(c);
    }

    method RemoveGroupMember(c: int, actor: int, target: int) returns (refusal: Option<Failure>)
      modifies this`chats, this`members, this`messages
      ensures (Rows(), refusal) == Removed(old(Rows()), c, actor, target)
      ensures messages == if refusal.None? then MessagesAfter(old(messages), c, Rows()) else old(messages)
    {
      refusal := CheckGroupMember(c, actor);
      if refusal.Some? {
        return;
      }
      if members[(c, actor)] != Owner {
        return Some(NotGroupOwner);
      }
      if chats[c].createdBy != Some(actor) {
        return Some(NotGroupCreator);
      }
      if target == actor {
        return Some(IsYourself);
      }
      if (c, target) !in members {
        return Some(TargetNotMember);
      }
      DropMember(c, target);
    }

    /**
     `checksKeys` says whether the database checks foreign keys at once. Any order may be the one in
     which the query without `ORDER BY` returns the memberships.
     */
    method DeleteMyAccount(uid: int, checksKeys: bool) returns (ok: bool)
      requires Linked(Rows()) && doomed == {}
      modifies this
      ensures doomed == {}
      ensures exists order ::
        IsOrder(old(Rows()), uid, order) && Outcome(old(Rows()), uid, checksKeys, order, Rows(), ok)
      ensures messages == if ok then MessagesWithout(old(messages), old(Rows()), uid) else old(messages)
    {
      var before, beforeMessages := Rows(), messages;
      messages := map m | m in messages && messages[m].senderId != uid :: messages[m];
      ghost var order: seq<int> := [];
      while true
        invariant PartOrder(before, uid, order) && (Rows(), doomed) == Rounds(before, uid, order)
        invariant messages == MessagesSoFar(beforeMessages, before, uid, order)
        decreases |Open(before, uid, order)|
      {
        var rows := set k | k in members && k.1 == uid;
        if rows == {} {
          assert forall c :: (c, uid) in members ==> (c, uid) in rows;
          AllMet(before, uid, order);
          break;
        }
        var m := AnyOf(rows);
        OneLessOpen(before, uid, order, m);
        RoundEmpties(beforeMessages, before, uid, order, m.0);
        LeaveForGood(m.0, uid);
        order := order + [m.0];
      }
      ok := FinishDeletion(uid, checksKeys, before, beforeMessages);
      AllChatsMet(beforeMessages, before, uid, order);
      assert Outcome(before, uid, checksKeys, order, Rows(), ok);
    }

    /** One round of the loop over the memberships. */
    method LeaveForGood(cid: int, uid: int)
      requires cid in chats && (cid, uid) in members
      modifies this`chats, this`members, this`messages, this`doomed
      ensures (Rows(), doomed) == Round(old(Rows()), old(doomed), uid, cid)
      ensures messages == MessagesAfter(old(messages), cid, Rows())
    {
      if chats[cid].kind.Private? {
        members := map k | k in members && k.0 != cid :: members[k];
        messages := WithoutChat(messages, cid);
        assert Roster(Rows(), cid) == {};
        doomed := doomed + {cid};
      } else {
        if chats[cid].createdBy == Some(uid) {
          var others := Roster(Rows(), cid) - {uid};
          if others != {} {
            var next := Smallest(others);
            chats := chats[cid := chats[cid].(createdBy := Some(next))];
            members := members[(cid, next) := Owner];
          }
        }
        members := members - {(cid, uid)};
        chats, doomed := chats - doomed, {}; // the flush
        assert Rows() == GroupLeft(old(Rows()), uid, cid, old(doomed));
        if Roster(Rows(), cid) == {} {
          messages := WithoutChat(messages, cid);
          doomed := doomed + {cid};
          assert doomed == {cid};
        }
      }
    }

    /**
     The end of the deletion; `before` is what was committed last. Clearing `created_by` stays pending
     until the commit.
     */
    method FinishDeletion(uid: int, checksKeys: bool, before: Store, beforeMessages: map<int, Message>)
      returns (ok: bool)
      modifies this
      ensures doomed == {} && messages == if ok then old(messages) else beforeMessages
      ensures ok <==> !checksKeys || NamedBy(old(chats), uid) == {}
      ensures Rows() == if ok then Committed(old(Rows()), old(doomed), uid) else before
    {
      var pending := ClearCreators(uid);
      if checksKeys && NamedBy(chats, uid) != {} {
        users, chats, members, nextId, doomed := before.users, before.chats, before.members, before.nextId, {};
        messages := beforeMessages;
        return false;
      }
      users := users - {uid};
      ForgottenIsUpdate(chats, pending, uid);
      chats, doomed := chats + pending - doomed, {}; // the commit
      return true;
    }

    /** The rows to be written; adding a row to the session again withdraws its deletion. */
    method ClearCreators(uid: int) returns (pending: map<int, Chat>)
      modifies this`doomed
      ensures pending.Keys == NamedBy(chats, uid) && doomed == old(doomed) - NamedBy(chats, uid)
      ensures forall c :: c in pending ==> c in chats && pending[c] == Unowned(chats[c], uid)
    {
      var named := NamedBy(chats, uid);
      pending := map[];
      var todo := named;
      while todo != {}
        invariant todo <= named && pending.Keys == named - todo
        invariant forall c :: c in pending ==> c in chats && pending[c] == Unowned(chats[c], uid)
        invariant doomed == old(doomed) - (named - todo)
        decreases |todo|
      {
        var c := AnyOf(todo);
        pending := pending[c := chats[c].(createdBy := None)];
        doomed := doomed - {c};
        todo := todo - {c};
      }
      assert named - todo == named;
    }
  }

  lemma ForgottenIsUpdate(chats: map<int, Chat>, pending: map<int, Chat>, uid: int)
    requires pending.Keys == NamedBy(chats, uid)
    requires forall c :: c in pending ==> c in chats && pending[c] == Unowned(chats[c], uid)
    ensures chats + pending == Forgotten(chats, uid)
  {
    forall c | c in chats ensures (chats + pending)[c] == Forgotten(chats, uid)[c] {
      assert c in pending <==> c in NamedBy(chats, uid);
    }
    assert (chats + pending).Keys == Forgotten(chats, uid).Keys;
  }

  lemma Singleton<T>(s: set<T>, x: T)
    requires x in s && |s| == 1
    ensures s == {x}
  {
    assert |s - {x}| == 0;
  }
}
