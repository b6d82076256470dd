/**
 What the commands of `Membership` keep over whole runs: one owner per chat, one chat per pair of users;
 and when an account can be deleted at all.
 */
module Ownership {
  import opened Common
  import opened Orders
  import opened Membership

  // --- What every command keeps ---

  ghost predicate SameChat(s: Store, t: Store, c: int) {
    && c in s.chats && c in t.chats && s.chats[c] == t.chats[c]
    && (forall u :: (c, u) in s.members <==> (c, u) in t.members)
    && (forall u :: (c, u) in s.members ==> s.members[(c, u)] == t.members[(c, u)])
  }

  /** The rows of a new chat, and those of every other chat as they were. */
  lemma CreatedRows(s: Store, chat: Chat, actor: int, ids: set<int>)
    requires Linked(s)
    ensures var t := Created(s, chat, actor, ids); var id := s.nextId;
      && (forall u :: (id, u) in t.members <==> u in ids)
      && (forall u :: u in ids ==> t.members[(id, u)] == if u == actor then Owner else Member)
      && (forall k :: k in t.members && k.0 != id ==> k in s.members && t.members[k] == s.members[k])
      && (forall k :: k in s.members ==> k in t.members && k.0 != id)
      && Roster(t, id) == ids
  {
    var t := Created(s, chat, actor, ids);
    var id := s.nextId;
    forall u ensures (id, u) in t.members <==> u in ids {
      assert (id, u) !in s.members;
    }
    forall u ensures u in Roster(t, id) <==> u in ids {
      RosterIs(t, id, u);
    }
  }

  lemma CreatedIsSound(s: Store, chat: Chat, actor: int, ids: set<int>)
    requires Sound(s) && actor in ids && ids <= s.users && chat.createdBy == Some(actor)
    ensures var t := Created(s, chat, actor, ids);
      && Sound(t)
      && (forall c :: c in s.chats ==> SameChat(s, t, c))
      && Roster(t, s.nextId) == ids && OwnerOf(t, s.nextId, actor)
  {
    CreatedRows(s, chat, actor, ids);
    var t := Created(s, chat, actor, ids);
    forall k | k in t.members ensures k.0 in t.chats && k.1 in t.users && HasItsOwner(t, k.0) {
      if k.0 != s.nextId {
        assert k in s.members && HasItsOwner(s, k.0);
      } else {
        assert k == (s.nextId, k.1);
      }
    }
  }

  ghost predicate AtMostOneFound(s: Store, a: int, b: int) {
    forall c, d :: Finds(s, a, b, c) && Finds(s, a, b, d) ==> c == d
  }

  lemma FindsEitherWay(s: Store, a: int, b: int, c: int)
    ensures Finds(s, a, b, c) <==> Finds(s, b, a, c)
  {
    assert Pair(a, b) == Pair(b, a) && {a, b} == {b, a};
    assert forall d :: Keyed(s, d, a, b) <==> Keyed(s, d, b, a);
  }

  /** A private chat asked for again, from either side, is the one asked for before. */
  lemma AskingAgainFindsIt(s: Store, actor: int, other: int, blank: bool, t: Store, reply: Result<int, Failure>,
                           blank': bool, t': Store, reply': Result<int, Failure>)
    requires Linked(s) && actor != other && AtMostOneFound(s, actor, other)
    requires ChatCreated(s, actor, Some(Private), {other}, blank, t, reply) && reply.Ok?
    requires ChatCreated(t, other, Some(Private), {actor}, blank', t', reply')
    ensures reply' == reply && t' == t && AtMostOneFound(t, actor, other)
  {
    assert Smallest({other}) == other && Smallest({actor}) == actor;
    if !exists c :: Finds(s, actor, other, c) {
      var c := reply.value;
      assert Keyed(t, c, actor, other);
      forall d | Finds(t, actor, other, d) ensures d == c {
        assert d != c ==> Keyed(s, d, actor, other) && Finds(s, actor, other, d);
      }
    }
    FindsEitherWay(t, actor, other, reply.value);
    if reply'.Ok? {
      FindsEitherWay(t, actor, other, reply'.value);
    }
  }

  lemma AddedIsSound(s: Store, c: int, actor: int, user: int)
    requires Sound(s)
    ensures var (t, refusal) := Added(s, c, actor, user);
      && Sound(t)
      && (refusal.Some? ==> t == s)
      && (refusal.None? ==> Roster(t, c) == Roster(s, c) + {user} && user !in Roster(s, c) && !OwnerOf(t, c, user))
      && (refusal.None? <==> && c in s.chats && s.chats[c].kind.Group? && (c, actor) in s.members
                             && user in s.users && (c, user) !in s.members)
  {
    var (t, refusal) := Added(s, c, actor, user);
    if refusal.None? {
      forall u ensures u in Roster(t, c) <==> u in Roster(s, c) + {user} {
        RosterIs(s, c, u);
        RosterIs(t, c, u);
      }
      RosterIs(s, c, user);
      forall k | k in t.members ensures HasItsOwner(t, k.0) {
        assert (c, actor) in s.members && HasItsOwner(s, c);
        assert k.0 != c ==> k in s.members && HasItsOwner(s, k.0);
      }
    }
  }

  /** The owner who leaves hands the group to the member with the smallest id; the last one takes it along. */
  lemma LeftIsSound(s: Store, c: int, actor: int)
    requires Sound(s)
    ensures var (t, refusal) := Left(s, c, actor);
      && Sound(t)
      && (refusal.Some? ==> t == s)
      && (forall d :: d in s.chats && d != c ==> SameChat(s, t, d))
      && (refusal.None? ==>
            && actor in Roster(s, c)
            && Roster(t, c) == Roster(s, c) - {actor}
            && (c in t.chats <==> Roster(s, c) != {actor})
            && forall u :: OwnerOf(t, c, u) <==>
                 if OwnerOf(s, c, actor) then Roster(t, c) != {} && u == Smallest(Roster(t, c)) else OwnerOf(s, c, u))
  {
    var (t, refusal) := Left(s, c, actor);
    if refusal.None? {
      LeftRows(s, c, actor);
      LeftOwner(s, c, actor);
      LeftElsewhere(s, c, actor);
      forall k | k in t.members ensures k.0 in t.chats && k.1 in t.users && HasItsOwner(t, k.0) {
        RosterIs(t, k.0, k.1);
        assert k in s.members && HasItsOwner(s, k.0);
        assert k.0 != c ==> SameChat(s, t, k.0);
      }
    }
  }

  lemma LeftElsewhere(s: Store, c: int, actor: int)
    requires Linked(s) && Left(s, c, actor).1.None?
    ensures var t := Left(s, c, actor).0;
      && t.users == s.users && t.nextId == s.nextId
      && (forall d :: d in s.chats && d != c ==> SameChat(s, t, d))
      && (forall k :: k in t.members ==> k in s.members)
      && (forall d :: d in t.chats ==> d in s.chats)
      && (c in t.chats <==> Roster(s, c) != {actor})
  {
    LeftRows(s, c, actor);
  }

  lemma LeftOwner(s: Store, c: int, actor: int)
    requires Sound(s) && Left(s, c, actor).1.None?
    ensures var t := Left(s, c, actor).0;
      && (c in t.chats ==> HasItsOwner(t, c))
      && (forall u :: OwnerOf(t, c, u) <==>
            if OwnerOf(s, c, actor) then Roster(t, c) != {} && u == Smallest(Roster(t, c)) else OwnerOf(s, c, u))
      && (c in t.chats && t.chats[c].createdBy.Some? ==> t.chats[c].createdBy.value in t.users)
  {
    var t := Left(s, c, actor).0;
    LeftRows(s, c, actor);
    assert HasItsOwner(s, c);
    var creator := s.chats[c].createdBy.value;
    assert OwnerOf(s, c, actor) <==> creator == actor;
    RosterIs(s, c, creator);
    if Roster(t, c) != {} {
      var owner := if creator == actor then Smallest(Roster(t, c)) else creator;
      assert Some(owner) == t.chats[c].createdBy;
      RosterIs(t, c, owner);
      assert forall u :: (c, u) in t.members ==> (t.members[(c, u)] == Owner <==> u == owner);
    } else {
      forall u ensures (c, u) !in t.members {
        RosterIs(t, c, u);
      }
      assert creator == actor;
    }
  }

  ghost predicate RosterFact(s: Store, c: int, u: int) {
    u in Roster(s, c) <==> (c, u) in s.members
  }

  lemma LeftRows(s: Store, c: int, actor: int)
    requires Linked(s) && Left(s, c, actor).1.None?
    ensures var t := Left(s, c, actor).0; var heir := Heir(s, c, actor);
      && actor in Roster(s, c)
      && t.members.Keys == s.members.Keys - {(c, actor)}
      && (forall k :: k in t.members ==> t.members[k] == if k.0 == c && heir == Some(k.1) then Owner else s.members[k])
      && Roster(t, c) == Roster(s, c) - {actor}
      && t.chats.Keys == s.chats.Keys - (if Roster(t, c) == {} then {c} else {})
      && (forall d :: d in t.chats ==>
            t.chats[d] == if d == c && heir.Some? then s.chats[d].(createdBy := heir) else s.chats[d])
  {
    var heir := Heir(s, c, actor);
    var handed := if heir.Some? then Promoted(s, c, heir.value) else s;
    if heir.Some? {
      RosterIs(s, c, heir.value);
    }
    var gone := handed.(members := handed.members - {(c, actor)});
    RosterIs(s, c, actor);
    forall u ensures u in Roster(gone, c) <==> u in Roster(s, c) - {actor} {
      RosterIs(s, c, u);
      RosterIs(gone, c, u);
    }
    assert Roster(WithoutEmptyChat(gone, c), c) == Roster(gone, c);
  }

  /**
   Removing a member takes exactly that row away: the promotion branch cannot run and the chat is
   never left empty, whatever the tables hold.
   */
  lemma RemoveTakesOneRow(s: Store, c: int, actor: int, target: int)
    ensures var (t, refusal) := Removed(s, c, actor, target);
      && (refusal.Some? ==> t == s)
      && (refusal.None? ==> t == s.(members := s.members - {(c, target)}) && (c, target) in s.members)
  {
    var (t, refusal) := Removed(s, c, actor, target);
    if refusal.None? {
      RosterIs(t, c, actor);
      RosterIs(s.(members := s.members - {(c, target)}), c, actor);
    }
  }

  lemma RemovedIsSound(s: Store, c: int, actor: int, target: int)
    requires Sound(s)
    ensures Sound(Removed(s, c, actor, target).0)
    ensures Removed(s, c, actor, target).1.None? <==>
      && c in s.chats && s.chats[c].kind.Group? && OwnerOf(s, c, actor) && target != actor && (c, target) in s.members
  {
    var (t, refusal) := Removed(s, c, actor, target);
    RemoveTakesOneRow(s, c, actor, target);
    assert (c, actor) in s.members ==> HasItsOwner(s, c);
    forall k | k in t.members ensures HasItsOwner(t, k.0) {
      assert k in s.members && HasItsOwner(s, k.0);
    }
  }

  /**
   A deletion that succeeds leaves the tables as `AccountDeleted` says; a database that checks foreign
   keys at once then keeps no chat that lost its last member.
   */
  lemma DeletionMeans(s: Store, uid: int, checksKeys: bool, order: seq<int>, t: Store, ok: bool)
    requires Linked(s) && IsOrder(s, uid, order) && Outcome(s, uid, checksKeys, order, t, ok)
    ensures ok ==> AccountDeleted(s, uid, t)
    ensures ok && checksKeys ==> forall c :: c in t.chats ==> !Emptied(s, uid, c)
    ensures !ok ==> t == s && checksKeys
  {
    if ok {
      RoundsProgress(s, uid, order);
      var (u, doomed) := Rounds(s, uid, order);
      forall k | k in s.members && k.1 == uid ensures k.0 in ToSet(order) {
        var c := k.0;
        assert k == (c, uid);
        assert (c, uid) in s.members;
        assert c in order;
      }
      AccountGone(s, uid, ToSet(order), u, doomed);
    }
  }

  lemma AccountGone(s: Store, uid: int, done: set<int>, t: Store, doomed: set<int>)
    requires Linked(s) && Progress(s, uid, done, t, doomed)
    requires forall k :: k in s.members && k.1 == uid ==> k.0 in done
    ensures AccountDeleted(s, uid, Committed(t, doomed, uid))
    ensures NamedBy(t.chats, uid) == {} ==> forall c :: c in Committed(t, doomed, uid).chats ==> !Emptied(s, uid, c)
  {
    var end := Committed(t, doomed, uid);
    forall c | c in s.chats && Emptied(s, uid, c) ensures ChatWithout(s, uid, c) == s.chats[c] {
    }
    assert forall c :: c in end.chats ==> c in t.chats && end.chats[c] == Unowned(t.chats[c], uid);
    forall k ensures k in end.members <==> k in s.members && k.1 != uid && !Emptied(s, uid, k.0) {
      var c := k.0;
      assert (c, uid) in s.members ==> c in done;
    }
  }

  /** Deleting an account leaves nothing of the user behind, and every chat with members its owner. */
  lemma AccountDeletedIsSound(s: Store, uid: int, t: Store)
    requires Sound(s) && AccountDeleted(s, uid, t)
    ensures Sound(t) && uid !in t.users
    ensures forall c :: (c, uid) !in t.members
  {
    EveryChat(s, uid, t);
    forall k | k in t.members ensures k.0 in t.chats && HasItsOwner(t, k.0) {
      assert OneChat(s, uid, t, k.0);
      RosterIs(t, k.0, k.1);
    }
    assert forall c :: c in t.chats ==> OneChat(s, uid, t, c);
  }

  lemma EveryChat(s: Store, uid: int, t: Store)
    requires Sound(s) && AccountDeleted(s, uid, t)
    ensures forall c :: c in s.chats ==> OneChat(s, uid, t, c)
  {
    forall c | c in s.chats ensures OneChat(s, uid, t, c) {
      OneChatFollows(s, uid, t, c);
    }
  }

  /**
   After an account is deleted: its chats keep exactly their other members, or none; chats it was not
   in are as they were; no chat with members has lost its creator.
   */
  lemma AccountDeletedMeans(s: Store, uid: int, t: Store)
    requires Sound(s) && AccountDeleted(s, uid, t)
    ensures forall c :: c in s.chats && (c, uid) !in s.members && Roster(s, c) != {} ==> SameChat(s, t, c)
    ensures forall c :: c in s.chats && (c, uid) in s.members ==>
      Roster(t, c) == if s.chats[c].kind.Private? then {} else Roster(s, c) - {uid}
    ensures forall c :: c in t.chats && t.chats[c].createdBy.None? && s.chats[c].createdBy.Some? ==> Roster(t, c) == {}
  {
    EveryChat(s, uid, t);
    forall c | c in s.chats && (c, uid) in s.members
      ensures Roster(t, c) == if s.chats[c].kind.Private? then {} else Roster(s, c) - {uid}
    {
      assert OneChat(s, uid, t, c);
    }
    forall c | c in s.chats && (c, uid) !in s.members && Roster(s, c) != {} ensures SameChat(s, t, c) {
      assert OneChat(s, uid, t, c);
    }
    forall c | c in t.chats && t.chats[c].createdBy.None? && s.chats[c].createdBy.Some? ensures Roster(t, c) == {} {
      assert OneChat(s, uid, t, c);
    }
  }

  /** What the deletion of an account means for one chat. */
  ghost predicate OneChat(s: Store, uid: int, t: Store, c: int)
    requires c in s.chats
  {
    && (Roster(t, c) != {} ==> c in t.chats && HasItsOwner(t, c))
    && ((c, uid) !in s.members && Roster(s, c) != {} ==> SameChat(s, t, c))
    && ((c, uid) in s.members ==> Roster(t, c) == if s.chats[c].kind.Private? then {} else Roster(s, c) - {uid})
    && (c in t.chats && t.chats[c].createdBy.Some? ==> t.chats[c].createdBy.value in t.users)
    && (c in t.chats && t.chats[c].createdBy.None? && s.chats[c].createdBy.Some? ==> Roster(t, c) == {})
  }

  lemma OneChatFollows(s: Store, uid: int, t: Store, c: int)
    requires Sound(s) && AccountDeleted(s, uid, t) && c in s.chats
    ensures OneChat(s, uid, t, c)
  {
    forall u ensures RosterFact(s, c, u) && RosterFact(t, c, u) {
      RosterIs(s, c, u);
      RosterIs(t, c, u);
    }
    if (c, uid) in s.members {
      assert HasItsOwner(s, c);
      RosterAfter(s, uid, t, c);
      OwnerAfter(s, uid, t, c);
    } else {
      NotIn(s, uid, t, c);
    }
  }

  lemma RosterAfter(s: Store, uid: int, t: Store, c: int)
    requires Sound(s) && AccountDeleted(s, uid, t) && (c, uid) in s.members
    ensures Roster(t, c) == if Emptied(s, uid, c) then {} else Roster(s, c) - {uid}
  {
    forall u ensures u in Roster(t, c) <==> !Emptied(s, uid, c) && u in Roster(s, c) && u != uid {
      RosterIs(s, c, u);
      RosterIs(t, c, u);
      assert (c, u) in t.members <==> (c, u) in s.members && u != uid && !Emptied(s, uid, c);
    }
  }

  lemma OwnerAfter(s: Store, uid: int, t: Store, c: int)
    requires Sound(s) && AccountDeleted(s, uid, t) && (c, uid) in s.members
    ensures c in t.chats && t.chats[c].createdBy.Some? ==> t.chats[c].createdBy.value in t.users
    ensures !Emptied(s, uid, c) ==> c in t.chats && HasItsOwner(t, c)
  {
    assert HasItsOwner(s, c);
    RosterIs(s, c, uid);
    if !Emptied(s, uid, c) {
      assert Roster(s, c) - {uid} != {};
      var heir := Heir(s, c, uid);
      var owner := if heir.Some? then heir.value else s.chats[c].createdBy.value;
      if heir.Some? {
        RosterIs(s, c, heir.value);
      }
      assert (c, owner) in s.members && owner != uid;
      assert (c, owner) in t.members;
      assert t.chats[c].createdBy == Some(owner);
    }
  }

  lemma NotIn(s: Store, uid: int, t: Store, c: int)
    requires Sound(s) && AccountDeleted(s, uid, t) && c in s.chats && (c, uid) !in s.members
    ensures c in t.chats && t.chats[c] == Unowned(s.chats[c], uid)
    ensures Roster(s, c) != {} ==> SameChat(s, t, c) && HasItsOwner(t, c)
    ensures Roster(t, c) == Roster(s, c)
  {
    assert !Emptied(s, uid, c);
    forall u ensures (c, u) in t.members <==> (c, u) in s.members {
      assert (c, u) in t.members <==> (c, u) in s.members && u != uid && !Emptied(s, uid, c);
    }
    forall u ensures u in Roster(t, c) <==> u in Roster(s, c) {
      RosterIs(s, c, u);
      RosterIs(t, c, u);
    }
    if Roster(s, c) != {} {
      var u := Smallest(Roster(s, c));
      RosterIs(s, c, u);
      assert (c, u) in s.members && HasItsOwner(s, c);
    }
  }

  // --- When an account can be deleted ---

  /** A chat that names the user as creator without having the user as a member. */
  ghost predicate Stale(s: Store, uid: int) {
    exists c :: c in s.chats && s.chats[c].createdBy == Some(uid) && (c, uid) !in s.members
  }

  /** The deletion of the chat met at position `i` is still pending after the loop: no group comes later. */
  ghost predicate PendingAt(s: Store, uid: int, order: seq<int>, i: int) {
    && 0 <= i < |order| && Emptied(s, uid, order[i])
    && forall j :: i < j < |order| ==> order[j] in s.chats && s.chats[order[j]].kind.Private?
  }

  ghost predicate IsPending(s: Store, uid: int, order: seq<int>, c: int) {
    exists i :: PendingAt(s, uid, order, i) && order[i] == c
  }

  lemma PendingSnoc(s: Store, uid: int, init: seq<int>, c: int, d: int)
    requires c in s.chats
    ensures IsPending(s, uid, init + [c], d)
      <==> ((c == d && Emptied(s, uid, c)) || (s.chats[c].kind.Private? && IsPending(s, uid, init, d)))
  {
    var order := init + [c];
    if i :| PendingAt(s, uid, order, i) && order[i] == d {
      if i < |init| {
        assert order[|init|] == c;
        forall j | i < j < |init| ensures init[j] in s.chats && s.chats[init[j]].kind.Private? {
          assert order[j] == init[j];
        }
        assert PendingAt(s, uid, init, i) && init[i] == d;
      }
    }
    if c == d && Emptied(s, uid, c) {
      assert PendingAt(s, uid, order, |init|) && order[|init|] == d;
    }
    if s.chats[c].kind.Private? {
      if i :| PendingAt(s, uid, init, i) && init[i] == d {
        forall j | i < j < |order| ensures order[j] in s.chats && s.chats[order[j]].kind.Private? {
          assert j < |init| ==> order[j] == init[j];
        }
        assert PendingAt(s, uid, order, i) && order[i] == d;
      }
    }
  }

  lemma {:induction false} DoomedArePending(s: Store, uid: int, order: seq<int>, d: int)
    requires Linked(s) && PartOrder(s, uid, order)
    ensures d in Rounds(s, uid, order).1 <==> IsPending(s, uid, order, d)
    ensures d in Rounds(s, uid, order).1 ==> d in Rounds(s, uid, order).0.chats
  {
    if order != [] {
      var init, c := order[..|order| - 1], order[|order| - 1];
      assert order == init + [c];
      DoomedArePending(s, uid, init, d);
      RoundsProgress(s, uid, init);
      var (t, doomed) := Rounds(s, uid, init);
      NextRound(s, uid, ToSet(init), t, doomed, c);
      PendingSnoc(s, uid, init, c, d);
      RoundDooms(s, uid, ToSet(init), t, doomed, c, d);
    }
  }

  lemma RoundDooms(s: Store, uid: int, done: set<int>, t: Store, doomed: set<int>, c: int, d: int)
    requires Linked(s) && Progress(s, uid, done, t, doomed)
    requires c !in done && (c, uid) in t.members && c in t.chats && (d in doomed ==> d in t.chats)
    ensures var (next, nextDoomed) := Round(t, doomed, uid, c);
      && (d in nextDoomed <==> (c == d && Emptied(s, uid, c)) || (s.chats[c].kind.Private? && d in doomed))
      && (d in nextDoomed ==> d in next.chats)
  {
    if t.chats[c].kind.Group? {
      GroupMembers(s, uid, done, t, doomed, c);
      RosterIs(s, c, uid);
      assert c !in doomed;
    }
  }

  /**
   After the loop some chat row still names the user if and only if such a row was there beyond the
   user's memberships, or a chat that the user created lost its last member and no group came after it.
   */
  lemma StuckIff(s: Store, uid: int, order: seq<int>)
    requires Linked(s) && IsOrder(s, uid, order)
    ensures NamedBy(Rounds(s, uid, order).0.chats, uid) != {} <==>
      Stale(s, uid) || exists c :: IsPending(s, uid, order, c) && c in s.chats && s.chats[c].createdBy == Some(uid)
  {
    RoundsProgress(s, uid, order);
    var (t, doomed) := Rounds(s, uid, order);
    forall c ensures c in NamedBy(t.chats, uid) <==>
      c in s.chats && s.chats[c].createdBy == Some(uid) && ((c, uid) !in s.members || c in doomed)
    {
      DoomedArePending(s, uid, order, c);
      NamedAfter(s, uid, order, t, doomed, c);
    }
    if Stale(s, uid) {
      var c :| c in s.chats && s.chats[c].createdBy == Some(uid) && (c, uid) !in s.members;
      assert c in NamedBy(t.chats, uid);
    }
    if c :| IsPending(s, uid, order, c) && c in s.chats && s.chats[c].createdBy == Some(uid) {
      DoomedArePending(s, uid, order, c);
      assert c in NamedBy(t.chats, uid);
    }
    if NamedBy(t.chats, uid) != {} && !Stale(s, uid) {
      var c := Smallest(NamedBy(t.chats, uid));
      DoomedArePending(s, uid, order, c);
      assert IsPending(s, uid, order, c);
    }
  }

  lemma NamedAfter(s: Store, uid: int, order: seq<int>, t: Store, doomed: set<int>, c: int)
    requires Linked(s) && IsOrder(s, uid, order) && Progress(s, uid, ToSet(order), t, doomed)
    requires c in doomed ==> c in t.chats
    ensures c in NamedBy(t.chats, uid) <==>
      c in s.chats && s.chats[c].createdBy == Some(uid) && ((c, uid) !in s.members || c in doomed)
  {
    if c in s.chats && (c, uid) in s.members {
      assert c in ToSet(order);
      RosterIs(s, c, uid);
      if s.chats[c].createdBy == Some(uid) && !Emptied(s, uid, c) {
        assert Roster(s, c) - {uid} != {};
        assert Heir(s, c, uid).Some? && Heir(s, c, uid).value != uid;
      }
    }
  }

  /** A chat that the user created and that nobody is left in. */
  ghost predicate LeavesItsOwn(s: Store, uid: int, c: int) {
    Emptied(s, uid, c) && s.chats[c].createdBy == Some(uid)
  }

  ghost predicate LeavesOwnChat(s: Store, uid: int) {
    exists c :: LeavesItsOwn(s, uid, c)
  }

  ghost predicate SucceedsInEveryOrder(s: Store, uid: int) {
    forall order, t, ok :: IsOrder(s, uid, order) && Outcome(s, uid, true, order, t, ok) ==> ok
  }

  /**
   Where foreign keys are checked at once, deleting an account is sure to succeed if and only if every
   chat the user created is a group that keeps a member.
   */
  lemma DeletableIff(s: Store, uid: int)
    requires Linked(s)
    ensures SucceedsInEveryOrder(s, uid) <==> !Stale(s, uid) && !LeavesOwnChat(s, uid)
  {
    if LeavesOwnChat(s, uid) {
      var c :| LeavesItsOwn(s, uid, c);
      var order := OrderEndingIn(s, uid, c);
      StuckIff(s, uid, order);
      assert PendingAt(s, uid, order, |order| - 1);
      assert IsPending(s, uid, order, c);
      assert Outcome(s, uid, true, order, s, false);
    } else if Stale(s, uid) {
      var order := SomeOrder(s, uid, MyChats(s, uid));
      StuckIff(s, uid, order);
      assert Outcome(s, uid, true, order, s, false);
    } else {
      forall order, t, ok | IsOrder(s, uid, order) && Outcome(s, uid, true, order, t, ok) ensures ok {
        StuckIff(s, uid, order);
        assert forall c :: IsPending(s, uid, order, c) ==> !LeavesItsOwn(s, uid, c);
      }
    }
  }

  function MyChats(s: Store, uid: int): set<int> {
    set k | k in s.members && k.1 == uid :: k.0
  }

  /** Any set of the user's chats can be met in some order. */
  lemma SomeOrder(s: Store, uid: int, chats: set<int>) returns (order: seq<int>)
    requires forall c :: c in chats ==> (c, uid) in s.members
    ensures PartOrder(s, uid, order) && (forall c :: c in order <==> c in chats)
    ensures chats == MyChats(s, uid) ==> IsOrder(s, uid, order)
    decreases |chats|
  {
    if chats == {} {
      order := [];
    } else {
      var c := Smallest(chats);
      var rest := SomeOrder(s, uid, chats - {c});
      order := rest + [c];
    }
    if chats == MyChats(s, uid) {
      forall c | (c, uid) in s.members ensures c in order {
        assert (c, uid).0 in MyChats(s, uid);
      }
    }
  }

  lemma OrderEndingIn(s: Store, uid: int, c: int) returns (order: seq<int>)
    requires (c, uid) in s.members
    ensures IsOrder(s, uid, order) && order != [] && order[|order| - 1] == c
  {
    var rest := SomeOrder(s, uid, MyChats(s, uid) - {c});
    order := rest + [c];
    forall d | (d, uid) in s.members ensures d in order {
      assert (d, uid).0 in MyChats(s, uid);
    }
  }

  ghost predicate FailsInEveryOrder(s: Store, uid: int) {
    forall order, t, ok :: IsOrder(s, uid, order) && Outcome(s, uid, true, order, t, ok) ==> !ok
  }

  ghost predicate IsGroupOf(s: Store, uid: int, g: int) {
    (g, uid) in s.members && g in s.chats && s.chats[g].kind.Group?
  }

  /** A group which, met last, leaves nothing pending that names the user. */
  ghost predicate HasHarmlessGroup(s: Store, uid: int) {
    exists g :: IsGroupOf(s, uid, g) && !LeavesItsOwn(s, uid, g)
  }

  /**
   And it is sure to fail if and only if a row names the user beyond the memberships, or the user created a
   chat that nobody is left in and is in no groups but such ones.
   */
  lemma HopelessIff(s: Store, uid: int)
    requires Linked(s)
    ensures FailsInEveryOrder(s, uid) <==>
      Stale(s, uid) || (LeavesOwnChat(s, uid) && !HasHarmlessGroup(s, uid))
  {
    if Stale(s, uid) || (LeavesOwnChat(s, uid) && !HasHarmlessGroup(s, uid)) {
      forall order, t, ok | IsOrder(s, uid, order) && Outcome(s, uid, true, order, t, ok) ensures !ok {
        StuckIff(s, uid, order);
        if !Stale(s, uid) {
          OwnIsPending(s, uid, order);
        }
      }
    } else if HasHarmlessGroup(s, uid) {
      var g :| IsGroupOf(s, uid, g) && !LeavesItsOwn(s, uid, g);
      var order := OrderEndingIn(s, uid, g);
      forall c | IsPending(s, uid, order, c) ensures c == g {
      }
      OrderSucceeds(s, uid, order);
    } else {
      var order := SomeOrder(s, uid, MyChats(s, uid));
      OrderSucceeds(s, uid, order);
    }
  }

  lemma OrderSucceeds(s: Store, uid: int, order: seq<int>)
    requires Linked(s) && IsOrder(s, uid, order) && !Stale(s, uid)
    requires forall c :: IsPending(s, uid, order, c) ==> !LeavesItsOwn(s, uid, c)
    ensures !FailsInEveryOrder(s, uid)
  {
    StuckIff(s, uid, order);
    var (t, doomed) := Rounds(s, uid, order);
    assert Outcome(s, uid, true, order, Committed(t, doomed, uid), true);
  }

  lemma OwnIsPending(s: Store, uid: int, order: seq<int>)
    requires Linked(s) && IsOrder(s, uid, order) && LeavesOwnChat(s, uid) && !HasHarmlessGroup(s, uid)
    ensures exists c :: IsPending(s, uid, order, c) && LeavesItsOwn(s, uid, c)
  {
    var c :| LeavesItsOwn(s, uid, c);
    assert (c, uid) in s.members;
    var i :| 0 <= i < |order| && order[i] == c;
    LastOwn(s, uid, order, i);
  }

  /** The last of the chats that the user created and empties is pending, as no group comes after it. */
  lemma {:induction false} LastOwn(s: Store, uid: int, order: seq<int>, i: nat)
    requires Linked(s) && IsOrder(s, uid, order) && !HasHarmlessGroup(s, uid)
    requires i < |order| && LeavesItsOwn(s, uid, order[i])
    ensures exists c :: IsPending(s, uid, order, c) && LeavesItsOwn(s, uid, c)
    decreases |order| - i
  {
    if j :| i < j < |order| && LeavesItsOwn(s, uid, order[j]) {
      LastOwn(s, uid, order, j);
    } else {
      forall j | i < j < |order| ensures order[j] in s.chats && s.chats[order[j]].kind.Private? {
        assert (order[j], uid) in s.members && !IsGroupOf(s, uid, order[j]);
      }
      assert PendingAt(s, uid, order, i) && IsPending(s, uid, order, order[i]);
    }
  }

  // --- Runs ---

  datatype Op =
    | SignUp(user: int)
    | CreateChat(actor: int, chatType: string, memberIds: seq<int>, blank: bool)
    | Add(c: int, actor: int, user: int)
    | Leave(c: int, actor: int)
    | Remove(c: int, actor: int, target: int)
    | DeleteAccount(user: int, checksKeys: bool)

  datatype Run = Start | Then(past: Run, op: Op, state: Store)

  function Last(run: Run): Store {
    match run
    case Start => Store({}, map[], map[], 1)
    case Then(_, _, t) => t
  }

  /** The user ids given out so far; none is given out twice. */
  function Issued(run: Run): set<int> {
    match run
    case Start => {}
    case Then(past, op, _) => Issued(past) + if op.SignUp? then {op.user} else {}
  }

  /** One command; a refused one changes nothing. */
  ghost predicate Step(s: Store, op: Op, t: Store) {
    match op
    case SignUp(user) => t == s.(users := s.users + {user})
    case CreateChat(actor, chatType, memberIds, blank) =>
      exists reply :: ChatCreated(s, actor, KindOf(chatType), Others(memberIds, actor), blank, t, reply)
    case Add(c, actor, user) => t == Added(s, c, actor, user).0
    case Leave(c, actor) => t == Left(s, c, actor).0
    case Remove(c, actor, target) => t == Removed(s, c, actor, target).0
    case DeleteAccount(user, checksKeys) =>
      exists order, ok :: IsOrder(s, user, order) && Outcome(s, user, checksKeys, order, t, ok)
  }

  ghost predicate IsRun(run: Run) {
    run.Then? ==>
      && IsRun(run.past) && Step(Last(run.past), run.op, run.state)
      && (run.op.SignUp? ==> run.op.user !in Issued(run.past))
  }

  /** A creation that succeeds either finds a chat or inserts one. */
  lemma CreationMeans(s: Store, actor: int, kind: Option<Kind>, others: set<int>, blank: bool,
                      t: Store, reply: Result<int, Failure>)
    requires ChatCreated(s, actor, kind, others, blank, t, reply) && t != s
    ensures var ids := others + {actor};
      && ids <= s.users && kind.Some?
      && (kind.value.Group? ==> t == Created(s, Chat(Group, Some(actor), None), actor, ids))
      && (kind.value.Private? ==>
            |others| == 1 && var other := Smallest(others);
            && ids == {actor, other}
            && (forall c :: !Finds(s, actor, other, c))
            && t == Created(s, Chat(Private, Some(actor), Some(Pair(actor, other))), actor, ids))
  {
    if kind.Some? && kind.value.Private? {
      Singleton(others, Smallest(others));
      assert others + {actor} == {actor, Smallest(others)};
    }
  }

  lemma StepKeepsSound(s: Store, op: Op, t: Store)
    requires Sound(s) && Step(s, op, t)
    ensures Sound(t)
  {
    match op
    case SignUp(_) =>
      forall k | k in t.members ensures HasItsOwner(t, k.0) {
        assert HasItsOwner(s, k.0);
      }
    case CreateChat(actor, chatType, memberIds, blank) =>
      var kind, others := KindOf(chatType), Others(memberIds, actor);
      var reply :| ChatCreated(s, actor, kind, others, blank, t, reply);
      if t != s {
        CreationMeans(s, actor, kind, others, blank, t, reply);
        var pair := if kind.value.Group? then None else Some(Pair(actor, Smallest(others)));
        CreatedIsSound(s, Chat(kind.value, Some(actor), pair), actor, others + {actor});
      }
    case Add(c, actor, user) => AddedIsSound(s, c, actor, user);
    case Leave(c, actor) => LeftIsSound(s, c, actor);
    case Remove(c, actor, target) => RemovedIsSound(s, c, actor, target);
    case DeleteAccount(user, checksKeys) =>
      var order, ok :| IsOrder(s, user, order) && Outcome(s, user, checksKeys, order, t, ok);
      DeletionMeans(s, user, checksKeys, order, t, ok);
      if ok {
        AccountDeletedIsSound(s, user, t);
      }
  }

  lemma {:induction false} RunIsSound(run: Run)
    requires IsRun(run)
    ensures Sound(Last(run))
  {
    if run.Then? {
      RunIsSound(run.past);
      StepKeepsSound(Last(run.past), run.op, run.state);
    }
  }

  /** After any run, a chat that still has members has exactly one owner, and that is its creator. */
  lemma OneOwnerPerChat(run: Run, c: int)
    requires IsRun(run) && Roster(Last(run), c) != {}
    ensures var s := Last(run);
      && c in s.chats
      && exists u :: OwnerOf(s, c, u) && s.chats[c].createdBy == Some(u) && forall v :: OwnerOf(s, c, v) ==> v == u
  {
    RunIsSound(run);
    var s := Last(run);
    var u := Smallest(Roster(s, c));
    RosterIs(s, c, u);
    assert (c, u) in s.members && HasItsOwner(s, c);
    assert OwnerOf(s, c, s.chats[c].createdBy.value);
  }

  // --- One chat per pair ---

  /**
   A private chat has the key of a pair of users that were given out, and it has the two as members, or
   nobody; both users existing, it has the two. A group has no key.
   */
  ghost predicate RowFits(s: Store, issued: set<int>, c: int)
    requires c in s.chats
  {
    match s.chats[c].pair
    case None => s.chats[c].kind.Group?
    case Some((low, high)) =>
      && s.chats[c].kind.Private? && low < high && {low, high} <= issued
      && (Roster(s, c) == {low, high} || Roster(s, c) == {})
      && ({low, high} <= s.users ==> Roster(s, c) == {low, high})
  }

  ghost predicate UniqueKeys(s: Store) {
    forall c, d ::
      c in s.chats && d in s.chats && s.chats[c].pair.Some? && s.chats[c].pair == s.chats[d].pair ==> c == d
  }

  ghost predicate PairsFit(s: Store, issued: set<int>) {
    && s.users <= issued
    && (forall c :: c in s.chats ==> RowFits(s, issued, c))
    && UniqueKeys(s)
  }

  /** The lookup finds the row with the key of the pair, and no other. */
  lemma FindsTheKey(s: Store, issued: set<int>, a: int, b: int, c: int)
    requires PairsFit(s, issued)
    ensures Finds(s, a, b, c) <==> Keyed(s, c, a, b)
    ensures AtMostOneFound(s, a, b)
  {
    forall d | Between(s, d, a, b) ensures Keyed(s, d, a, b) {
      assert RowFits(s, issued, d);
      var pair := s.chats[d].pair.value;
      assert a in {pair.0, pair.1} && b in {pair.0, pair.1} && pair.0 in {a, b} && pair.1 in {a, b};
    }
  }

  /** No row is new or has another key, and rosters and users allow what they allowed. */
  lemma FewerRowsFit(s: Store, t: Store, issued: set<int>, more: set<int>)
    requires PairsFit(s, issued) && issued <= more && t.users <= more
    requires forall c ::
      c in t.chats ==> c in s.chats && t.chats[c].pair == s.chats[c].pair && t.chats[c].kind == s.chats[c].kind
    requires forall c :: c in t.chats && t.chats[c].kind.Private? ==>
      || (Roster(t, c) == Roster(s, c) && t.users * issued <= s.users)
      || (Roster(t, c) == {} && exists u :: u in Roster(s, c) && u !in t.users)
    ensures PairsFit(t, more)
  {
    forall c | c in t.chats ensures RowFits(t, more, c) {
      assert RowFits(s, issued, c);
      if t.chats[c].pair.Some? && Roster(t, c) != Roster(s, c) {
        var u :| u in Roster(s, c) && u !in t.users;
        var pair := s.chats[c].pair.value;
        assert u in {pair.0, pair.1};
      }
    }
  }

  lemma CreatedFits(s: Store, issued: set<int>, chat: Chat, actor: int, ids: set<int>)
    requires Linked(s) && PairsFit(s, issued) && ids <= s.users
    requires if chat.kind.Group? then chat.pair.None? else
      exists other :: other != actor && ids == {actor, other} && chat.pair == Some(Pair(actor, other))
        && forall c :: !Keyed(s, c, actor, other)
    ensures PairsFit(Created(s, chat, actor, ids), issued)
  {
    var t := Created(s, chat, actor, ids);
    var id := s.nextId;
    CreatedRows(s, chat, actor, ids);
    forall c | c in s.chats ensures Roster(t, c) == Roster(s, c) {
      forall u ensures u in Roster(t, c) <==> u in Roster(s, c) {
        RosterIs(s, c, u);
        RosterIs(t, c, u);
      }
    }
    forall c | c in t.chats ensures RowFits(t, issued, c) {
      if c != id {
        assert RowFits(s, issued, c);
      }
    }
    if chat.kind.Private? {
      var other :| other != actor && ids == {actor, other} && chat.pair == Some(Pair(actor, other))
        && forall c :: !Keyed(s, c, actor, other);
      forall c | c in s.chats ensures s.chats[c].pair != chat.pair {
        assert !Keyed(s, c, actor, other);
      }
    }
  }

  lemma GroupCommandFits(s: Store, t: Store, issued: set<int>, c: int)
    requires PairsFit(s, issued) && t.users == s.users && c in s.chats && s.chats[c].kind.Group?
    requires forall d ::
      d in t.chats ==> d in s.chats && t.chats[d].pair == s.chats[d].pair && t.chats[d].kind == s.chats[d].kind
    requires forall d, u :: d != c ==> ((d, u) in t.members <==> (d, u) in s.members)
    ensures PairsFit(t, issued)
  {
    forall d | d in t.chats && t.chats[d].kind.Private? ensures Roster(t, d) == Roster(s, d) {
      forall u ensures u in Roster(t, d) <==> u in Roster(s, d) {
        RosterIs(s, d, u);
        RosterIs(t, d, u);
      }
    }
    FewerRowsFit(s, t, issued, issued);
  }

  lemma DeletionFits(s: Store, issued: set<int>, uid: int, t: Store)
    requires Sound(s) && PairsFit(s, issued) && AccountDeleted(s, uid, t)
    ensures PairsFit(t, issued)
  {
    forall c | c in t.chats && t.chats[c].kind.Private? ensures
      || (Roster(t, c) == Roster(s, c) && t.users * issued <= s.users)
      || (Roster(t, c) == {} && uid in Roster(s, c) && uid !in t.users)
    {
      RosterIs(s, c, uid);
      if (c, uid) in s.members {
        RosterAfter(s, uid, t, c);
      } else {
        NotIn(s, uid, t, c);
      }
    }
    FewerRowsFit(s, t, issued, issued);
  }

  lemma CreationFits(s: Store, issued: set<int>, op: Op, t: Store)
    requires Sound(s) && PairsFit(s, issued) && op.CreateChat? && Step(s, op, t)
    ensures PairsFit(t, issued)
  {
    var kind, others := KindOf(op.chatType), Others(op.memberIds, op.actor);
    var reply :| ChatCreated(s, op.actor, kind, others, op.blank, t, reply);
    if t != s {
      CreationMeans(s, op.actor, kind, others, op.blank, t, reply);
      if kind.value.Private? {
        var other := Smallest(others);
        assert other != op.actor;
        forall c ensures !Keyed(s, c, op.actor, other) {
          FindsTheKey(s, issued, op.actor, other, c);
        }
        CreatedFits(s, issued, Chat(Private, Some(op.actor), Some(Pair(op.actor, other))),
                    op.actor, others + {op.actor});
      } else {
        CreatedFits(s, issued, Chat(Group, Some(op.actor), None), op.actor, others + {op.actor});
      }
    }
  }

  lemma StepFits(s: Store, issued: set<int>, op: Op, t: Store)
    requires Sound(s) && PairsFit(s, issued) && Step(s, op, t)
    requires op.SignUp? ==> op.user !in issued
    ensures PairsFit(t, issued + if op.SignUp? then {op.user} else {})
  {
    match op
    case SignUp(user) =>
      assert forall c :: Roster(t, c) == Roster(s, c);
      FewerRowsFit(s, t, issued, issued + {user});
    case CreateChat(_, _, _, _) =>
      CreationFits(s, issued, op, t);
      assert issued + {} == issued;
    case Add(c, actor, user) =>
      if t != s { GroupCommandFits(s, t, issued, c); }
      assert issued + {} == issued;
    case Leave(c, actor) =>
      if t != s {
        LeftRows(s, c, actor);
        GroupCommandFits(s, t, issued, c);
      }
      assert issued + {} == issued;
    case Remove(c, actor, target) =>
      RemoveTakesOneRow(s, c, actor, target);
      if t != s { GroupCommandFits(s, t, issued, c); }
      assert issued + {} == issued;
    case DeleteAccount(user, checksKeys) =>
      var order, ok :| IsOrder(s, user, order) && Outcome(s, user, checksKeys, order, t, ok);
      DeletionMeans(s, user, checksKeys, order, t, ok);
      if ok { DeletionFits(s, issued, user, t); }
      assert issued + {} == issued;
  }

  lemma {:induction false} RunFits(run: Run)
    requires IsRun(run)
    ensures PairsFit(Last(run), Issued(run))
  {
    if run.Then? {
      RunFits(run.past);
      RunIsSound(run.past);
      StepFits(Last(run.past), Issued(run.past), run.op, run.state);
    }
  }

  /**
   After any run the lookup of a pair finds at most one chat. A private chat that is replied has exactly
   the two users as members if and only if both exist: the lookup runs before the users are checked.
   */
  lemma PrivateReplyMeans(run: Run, actor: int, other: int, blank: bool, t: Store, reply: Result<int, Failure>)
    requires IsRun(run) && actor != other
    requires ChatCreated(Last(run), actor, Some(Private), {other}, blank, t, reply) && reply.Ok?
    ensures AtMostOneFound(Last(run), actor, other) && Keyed(t, reply.value, actor, other)
    ensures Roster(t, reply.value) == {actor, other} <==> {actor, other} <= Last(run).users
  {
    RunFits(run);
    RunIsSound(run);
    ReplyMeans(Last(run), Issued(run), actor, other, blank, t, reply);
  }

  lemma ReplyMeans(s: Store, issued: set<int>, actor: int, other: int, blank: bool,
                   t: Store, reply: Result<int, Failure>)
    requires Linked(s) && PairsFit(s, issued) && actor != other
    requires ChatCreated(s, actor, Some(Private), {other}, blank, t, reply) && reply.Ok?
    ensures AtMostOneFound(s, actor, other) && Keyed(t, reply.value, actor, other)
    ensures Roster(t, reply.value) == {actor, other} <==> {actor, other} <= s.users
  {
    assert Smallest({other}) == other;
    FindsTheKey(s, issued, actor, other, reply.value);
    if exists c :: Finds(s, actor, other, c) {
      KeyedRoster(s, issued, actor, other, reply.value);
    } else {
      CreatedRows(s, Chat(Private, Some(actor), Some(Pair(actor, other))), actor, {actor, other});
    }
  }

  lemma KeyedRoster(s: Store, issued: set<int>, a: int, b: int, c: int)
    requires PairsFit(s, issued) && Keyed(s, c, a, b) && a != b
    ensures Roster(s, c) == {a, b} || Roster(s, c) == {}
    ensures {a, b} <= s.users ==> Roster(s, c) == {a, b}
  {
    assert RowFits(s, issued, c);
    assert {Pair(a, b).0, Pair(a, b).1} == {a, b};
  }

  /** So asking again, from either side and after any run, replies the same chat and inserts nothing. */
  lemma AskingAgain(run: Run, actor: int, other: int, blank: bool, t: Store, reply: Result<int, Failure>,
                    blank': bool, t': Store, reply': Result<int, Failure>)
    requires IsRun(run) && actor != other
    requires ChatCreated(Last(run), actor, Some(Private), {other}, blank, t, reply) && reply.Ok?
    requires ChatCreated(t, other, Some(Private), {actor}, blank', t', reply')
    ensures reply' == reply && t' == t
  {
    RunFits(run);
    RunIsSound(run);
    FindsTheKey(Last(run), Issued(run), actor, other, reply.value);
    AskingAgainFindsIt(Last(run), actor, other, blank, t, reply, blank', t', reply');
  }

  // --- Chats without members ---

  ghost predicate NoEmptyChats(s: Store) {
    forall c :: c in s.chats ==> Roster(s, c) != {}
  }

  /** Every account deletion of the run met a database that checks foreign keys at once. */
  ghost predicate ChecksKeys(run: Run) {
    run.Then? ==> ChecksKeys(run.past) && (run.op.DeleteAccount? ==> run.op.checksKeys)
  }

  lemma SameRoster(s: Store, t: Store, c: int)
    requires forall u :: (c, u) in t.members <==> (c, u) in s.members
    ensures Roster(t, c) == Roster(s, c)
  {
    forall u ensures u in Roster(t, c) <==> u in Roster(s, c) {
      RosterIs(s, c, u);
      RosterIs(t, c, u);
    }
  }

  lemma DeletionLeavesNoEmptyChat(s: Store, uid: int, t: Store)
    requires Sound(s) && NoEmptyChats(s) && AccountDeleted(s, uid, t)
    requires forall c :: c in t.chats ==> !Emptied(s, uid, c)
    ensures NoEmptyChats(t)
  {
    forall c | c in t.chats ensures Roster(t, c) != {} {
      RosterIs(s, c, uid);
      if (c, uid) in s.members {
        RosterAfter(s, uid, t, c);
      } else {
        NotIn(s, uid, t, c);
      }
    }
  }

  lemma CommandLeavesNoEmptyChat(s: Store, op: Op, t: Store)
    requires Sound(s) && NoEmptyChats(s) && Step(s, op, t)
    requires op.Add? || op.Leave? || op.Remove?
    ensures NoEmptyChats(t)
  {
    forall d | d in t.chats ensures Roster(t, d) != {} {
      match op
      case Add(c, actor, user) =>
        AddedIsSound(s, c, actor, user);
        if d != c { SameRoster(s, t, d); }
      case Leave(c, actor) =>
        LeftIsSound(s, c, actor);
        if d != c && t != s { LeftElsewhere(s, c, actor); SameRoster(s, t, d); }
      case Remove(c, actor, target) =>
        RemoveTakesOneRow(s, c, actor, target);
        if t != s {
          RosterIs(t, c, actor);
          if d != c { SameRoster(s, t, d); }
        }
      case _ =>
    }
  }

  lemma CreationLeavesNoEmptyChat(s: Store, chat: Chat, actor: int, ids: set<int>)
    requires Linked(s) && NoEmptyChats(s) && actor in ids
    ensures NoEmptyChats(Created(s, chat, actor, ids))
  {
    var t := Created(s, chat, actor, ids);
    CreatedRows(s, chat, actor, ids);
    forall c | c in s.chats ensures Roster(t, c) == Roster(s, c) {
      SameRoster(s, t, c);
    }
    assert actor in Roster(t, s.nextId);
  }

  lemma StepLeavesNoEmptyChat(s: Store, op: Op, t: Store)
    requires Sound(s) && NoEmptyChats(s) && Step(s, op, t)
    requires op.DeleteAccount? ==> op.checksKeys
    ensures NoEmptyChats(t)
  {
    match op
    case SignUp(_) =>
      assert forall c :: Roster(t, c) == Roster(s, c);
    case CreateChat(actor, chatType, memberIds, blank) =>
      var kind, others := KindOf(chatType), Others(memberIds, actor);
      var reply :| ChatCreated(s, actor, kind, others, blank, t, reply);
      if t != s {
        CreationMeans(s, actor, kind, others, blank, t, reply);
        var pair := if kind.value.Group? then None else Some(Pair(actor, Smallest(others)));
        CreationLeavesNoEmptyChat(s, Chat(kind.value, Some(actor), pair), actor, others + {actor});
      }
    case DeleteAccount(user, checksKeys) =>
      var order, ok :| IsOrder(s, user, order) && Outcome(s, user, checksKeys, order, t, ok);
      DeletionMeans(s, user, checksKeys, order, t, ok);
      if ok { DeletionLeavesNoEmptyChat(s, user, t); }
    case _ => CommandLeavesNoEmptyChat(s, op, t);
  }

  /** In such a run no chat row without members is ever left behind. */
  lemma {:induction false} CheckedRunHasNoEmptyChats(run: Run)
    requires IsRun(run) && ChecksKeys(run)
    ensures NoEmptyChats(Last(run))
  {
    if run.Then? {
      CheckedRunHasNoEmptyChats(run.past);
      RunIsSound(run.past);
      StepLeavesNoEmptyChat(Last(run.past), run.op, run.state);
    }
  }

  /** So there a private chat that is replied always has its two members. */
  lemma CheckedReplyHasBoth(run: Run, actor: int, other: int, blank: bool, t: Store, reply: Result<int, Failure>)
    requires IsRun(run) && ChecksKeys(run) && actor != other
    requires ChatCreated(Last(run), actor, Some(Private), {other}, blank, t, reply) && reply.Ok?
    ensures Roster(t, reply.value) == {actor, other}
  {
    var s := Last(run);
    PrivateReplyMeans(run, actor, other, blank, t, reply);
    CheckedRunHasNoEmptyChats(run);
    RunFits(run);
    assert Smallest({other}) == other;
    if t == s {
      assert RowFits(s, Issued(run), reply.value);
      assert Pair(actor, other).0 in {actor, other} && Pair(actor, other).1 in {actor, other};
    } else {
      CreationMeans(s, actor, Some(Private), {other}, blank, t, reply);
    }
  }

  function PairOnly(creator: Option<int>, users: set<int>, members: map<(int, int), Role>): Store {
    Store(users, map[1 := Chat(Private, creator, Some((1, 2)))], members, 2)
  }

  function SignedUp(): Run {
    Then(Then(Start, SignUp(1), Store({1}, map[], map[], 1)), SignUp(2), Store({1, 2}, map[], map[], 1))
  }

  function Both(): Store {
    PairOnly(Some(1), {1, 2}, map[(1, 1) := Owner, (1, 2) := Member])
  }

  /** Users 1 and 2 sign up and chat, and 1 deletes the account. */
  function UncheckedDeletion(): Run {
    var chat := Then(SignedUp(), CreateChat(1, "private", [2], false), Both());
    Then(chat, DeleteAccount(1, false), PairOnly(None, {2}, map[]))
  }

  lemma BothSignUp()
    ensures IsRun(SignedUp()) && Last(SignedUp()) == Store({1, 2}, map[], map[], 1)
  {
    assert {} + {1} == {1} && {1} + {2} == {1, 2};
    assert Last(Start).(users := {1}) == Store({1}, map[], map[], 1);
    assert IsRun(SignedUp().past);
  }

  /** Users 1 and 2 sign up and chat, and 1, who asked for the chat, tries to delete the account. */
  function RefusedDeletion(): Run {
    Then(Then(SignedUp(), CreateChat(1, "private", [2], false), Both()), DeleteAccount(1, true), Both())
  }

  lemma PairIsHopeless()
    ensures Linked(Both()) && FailsInEveryOrder(Both(), 1)
  {
    var s := Both();
    assert (1, 1) in s.members && LeavesItsOwn(s, 1, 1);
    HopelessIff(s, 1);
  }

  lemma DeletionIsRefused(s: Store, user: int)
    requires Linked(s) && FailsInEveryOrder(s, user)
    ensures Step(s, DeleteAccount(user, true), s)
  {
    var order := SomeOrder(s, user, MyChats(s, user));
    var ok := NamedBy(Rounds(s, user, order).0.chats, user) == {};
    var t := if ok then Committed(Rounds(s, user, order).0, Rounds(s, user, order).1, user) else s;
    assert Outcome(s, user, true, order, t, ok);
  }

  /** Where keys are checked at once the database refuses, whatever the order. */
  lemma CreatorCannotDelete()
    ensures IsRun(RefusedDeletion()) && FailsInEveryOrder(Last(RefusedDeletion()), 1)
  {
    BothSignUp();
    FirstChat(Last(SignedUp()));
    PairIsHopeless();
    DeletionIsRefused(Both(), 1);
    assert IsRun(RefusedDeletion().past);
  }

  /** Without the check the row stays behind, and asking for the chat again replies it with nobody in it. */
  lemma UncheckedReplyMayBeEmpty()
    ensures IsRun(UncheckedDeletion())
    ensures var s := Last(UncheckedDeletion());
      ChatCreated(s, 2, Some(Private), {1}, false, s, Ok(1)) && Roster(s, 1) == {}
  {
    var one := PairOnly(None, {2}, map[]);
    BothSignUp();
    FirstChat(Last(SignedUp()));
    OnlyChatDeleted(one);
    assert IsRun(UncheckedDeletion().past);
    EmptyChatIsFound(one);
  }

  lemma EmptyChatIsFound(one: Store)
    requires one == PairOnly(None, {2}, map[])
    ensures ChatCreated(one, 2, Some(Private), {1}, false, one, Ok(1)) && Roster(one, 1) == {}
  {
    assert Smallest({1}) == 1;
    assert Finds(one, 2, 1, 1);
  }

  lemma FirstChat(none: Store)
    requires none == Store({1, 2}, map[], map[], 1)
    ensures Step(none, CreateChat(1, "private", [2], false), Both())
  {
    var others := Others([2], 1);
    assert others == {2} && Smallest({2}) == 2;
    assert Seats(1, 1, {1, 2}) == map[(1, 1) := Owner, (1, 2) := Member];
    assert Created(none, Chat(Private, Some(1), Some((1, 2))), 1, {1, 2}) == Both();
    forall c ensures !Finds(none, 1, 2, c) {
    }
    assert KindOf("private") == Some(Private);
    assert ChatCreated(none, 1, KindOf("private"), others, false, Both(), Ok(1));
  }

  lemma OnlyChatDeleted(one: Store)
    requires one == PairOnly(None, {2}, map[])
    ensures Step(Both(), DeleteAccount(1, false), one)
  {
    var order := [1];
    assert order[..0] == [];
    var left := PrivateLeft(Both(), 1);
    assert left.members == map[];
    assert Rounds(Both(), 1, order[..0]) == (Both(), {});
    assert {} + {1} == {1};
    assert Round(Both(), {}, 1, 1) == (left, {1});
    assert Rounds(Both(), 1, order) == (left, {1});
    assert NamedBy(left.chats, 1) == {1};
    assert Forgotten(left.chats, 1) == one.chats;
    assert {1} - {1} == {};
    assert one.chats - {} == one.chats;
    assert Committed(left, {1}, 1) == one;
    assert IsOrder(Both(), 1, order);
    assert Outcome(Both(), 1, false, order, one, true);
  }

  // --- Which requests succeed, and why others do not ---

  ghost predicate AllExist(s: Store, actor: int, memberIds: seq<int>) {
    actor in s.users && forall i :: 0 <= i < |memberIds| ==> memberIds[i] in s.users
  }

  /**
   A group is created exactly if it has a title that is not blank and all its members exist; a private chat is
   replied exactly if one other user is named and either the chat is there or both exist.
   */
  lemma CreationSucceedsIff(s: Store, actor: int, chatType: string, memberIds: seq<int>, title: string,
                            space: char -> bool, t: Store, reply: Result<int, Failure>)
    requires ChatCreated(s, actor, KindOf(chatType), Others(memberIds, actor), AllSpace(space, title), t, reply)
    ensures chatType == "group" ==>
      (reply.Ok? <==> AllExist(s, actor, memberIds) && exists i :: 0 <= i < |title| && !space(title[i]))
    ensures chatType == "private" ==>
      (reply.Ok? <==> exists other :: Others(memberIds, actor) == {other}
                                      && ((exists c :: Finds(s, actor, other, c)) || {actor, other} <= s.users))
    ensures chatType != "group" && chatType != "private" <==> reply == Err(InvalidType)
    ensures reply.Err? ==> t == s
  {
    var others := Others(memberIds, actor);
    AllExistIff(s, actor, memberIds);
    if chatType == "private" {
      forall other | others == {other} ensures Smallest(others) == other && others + {actor} == {actor, other} {
      }
      if |others| == 1 {
        Singleton(others, Smallest(others));
      }
    }
  }

  lemma AllExistIff(s: Store, actor: int, memberIds: seq<int>)
    ensures Others(memberIds, actor) + {actor} <= s.users <==> AllExist(s, actor, memberIds)
  {
    if Others(memberIds, actor) + {actor} <= s.users {
      forall i | 0 <= i < |memberIds| ensures memberIds[i] in s.users {
        assert memberIds[i] in Others(memberIds, actor) + {actor};
      }
    }
  }

  lemma MissingAre(s: Store, actor: int, chatType: string, memberIds: seq<int>, blank: bool,
                   t: Store, reply: Result<int, Failure>)
    requires ChatCreated(s, actor, KindOf(chatType), Others(memberIds, actor), blank, t, reply)
    ensures reply.Err? && reply.error.UsersNotFound? ==>
      reply.error.missing == Others(memberIds, actor) + {actor} - s.users && reply.error.missing != {}
  {
    var others := Others(memberIds, actor);
    if chatType == "private" && |others| == 1 {
      Singleton(others, Smallest(others));
      assert others + {actor} == {actor, Smallest(others)};
    }
    NoneMissing(others + {actor}, s.users);
  }

  lemma NoneMissing(ids: set<int>, users: set<int>)
    ensures ids - users == {} <==> ids <= users
  {
    if ids - users == {} {
      forall u | u in ids ensures u in users {
        assert u !in ids - users;
      }
    }
  }

  /** The refusals of creating a chat, each with its own condition. */
  lemma CreationRefusedBecause(s: Store, actor: int, chatType: string, memberIds: seq<int>, title: string,
                               space: char -> bool, t: Store, reply: Result<int, Failure>)
    requires ChatCreated(s, actor, KindOf(chatType), Others(memberIds, actor), AllSpace(space, title), t, reply)
    ensures reply == Err(NotOneParticipant) <==> chatType == "private" && |Others(memberIds, actor)| != 1
    ensures reply == Err(TitleRequired) <==>
      chatType == "group" && AllExist(s, actor, memberIds) && forall i :: 0 <= i < |title| ==> space(title[i])
    ensures reply.Err? && reply.error.UsersNotFound? ==>
      && reply.error.missing != {}
      && forall u :: u in reply.error.missing <==> (u == actor || u in memberIds) && u !in s.users
  {
    AllExistIff(s, actor, memberIds);
    MissingAre(s, actor, chatType, memberIds, AllSpace(space, title), t, reply);
    forall u ensures u in Others(memberIds, actor) + {actor} <==> u == actor || u in memberIds {
    }
  }

  /** What each of the three group commands asks for first. */
  lemma GroupRefusals(s: Store, c: int, actor: int)
    ensures var refusal := RequireGroupMember(s, c, actor);
      && (refusal == Some(ChatNotFound) <==> c !in s.chats)
      && (refusal == Some(NotAGroup) <==> c in s.chats && s.chats[c].kind.Private?)
      && (refusal == Some(NotAMember) <==> c in s.chats && s.chats[c].kind.Group? && (c, actor) !in s.members)
      && (refusal.None? <==> c in s.chats && s.chats[c].kind.Group? && (c, actor) in s.members)
    ensures Left(s, c, actor).1 == RequireGroupMember(s, c, actor)
  {
  }

  /** The further refusals of adding and removing, in a group whose member asks. */
  lemma MemberRefusals(s: Store, c: int, actor: int, user: int)
    requires c in s.chats && s.chats[c].kind.Group? && (c, actor) in s.members
    ensures var refusal := Added(s, c, actor, user).1;
      && (refusal == Some(IsYourself) <==> user == actor)
      && (refusal == Some(UserNotFound) <==> user != actor && user !in s.users)
      && (refusal == Some(AlreadyMember) <==> user != actor && user in s.users && (c, user) in s.members)
    ensures var refusal := Removed(s, c, actor, user).1;
      var isOwner := s.members[(c, actor)] == Owner; var isCreator := s.chats[c].createdBy == Some(actor);
      && (refusal == Some(NotGroupOwner) <==> !isOwner)
      && (refusal == Some(NotGroupCreator) <==> isOwner && !isCreator)
      && (refusal == Some(IsYourself) <==> isOwner && isCreator && user == actor)
      && (refusal == Some(TargetNotMember) <==> isOwner && isCreator && user != actor && (c, user) !in s.members)
  {
  }
}
