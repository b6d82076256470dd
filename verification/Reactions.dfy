/** Grouping the reactions of a batch of messages. */
module Reactions {
  import opened Common
  import opened Orders

  datatype Reaction = Reaction(messageId: int, userId: int, emoji: string)

  datatype ReactionGroup = ReactionGroup(emoji: string, count: nat, reactedByMe: bool, reactorUserIds: seq<int>)

  /** Python's order on strings: by code point, a prefix first. */
  predicate StringBefore(a: string, b: string) {
    if b == "" then false
    else if a == "" then true
    else a[0] < b[0] || (a[0] == b[0] && StringBefore(a[1..], b[1..]))
  }

  lemma {:induction false} StringBeforeTransitive(a: string, b: string, c: string)
    requires StringBefore(a, b) && StringBefore(b, c)
    ensures StringBefore(a, c)
  {
    if a != "" && a[0] == b[0] && b[0] == c[0] {
      StringBeforeTransitive(a[1..], b[1..], c[1..]);
    }
  }

  lemma {:induction false} StringBeforeIrreflexive(a: string)
    ensures !StringBefore(a, a)
  {
    if a != "" {
      StringBeforeIrreflexive(a[1..]);
    }
  }

  lemma {:induction false} StringBeforeConnected(a: string, b: string)
    requires a != b
    ensures StringBefore(a, b) || StringBefore(b, a)
  {
    if a != "" && b != "" && a[0] == b[0] {
      assert a == [a[0]] + a[1..] && b == [b[0]] + b[1..];
      StringBeforeConnected(a[1..], b[1..]);
    }
  }

  lemma StringOrder(s: set<string>)
    ensures StrictOrder(StringBefore) && ConnectedOn(StringBefore, s)
  {
    forall a ensures !StringBefore(a, a) {
      StringBeforeIrreflexive(a);
    }
    forall a, b, c | StringBefore(a, b) && StringBefore(b, c) ensures StringBefore(a, c) {
      StringBeforeTransitive(a, b, c);
    }
    forall a, b | a in s && b in s && a != b ensures StringBefore(a, b) || StringBefore(b, a) {
      StringBeforeConnected(a, b);
    }
  }

  /** `sorted(emojis.keys())`. */
  function SortedStrings(s: set<string>): (r: seq<string>) {
    StringOrder(s);
    SortSet(StringBefore, s)
  }

  predicate Below(a: int, b: int) {
    a < b
  }

  /** `sorted(set(user_ids))`. */
  function SortedIds(s: set<int>): seq<int> {
    SortSet(Below, s)
  }

  function Emojis(rows: seq<Reaction>, messageId: int): set<string> {
    set r | r in rows && r.messageId == messageId :: r.emoji
  }

  function Reactors(rows: seq<Reaction>, messageId: int, emoji: string): set<int> {
    set r | r in rows && r.messageId == messageId && r.emoji == emoji :: r.userId
  }

  function Group(rows: seq<Reaction>, messageId: int, viewer: int, emoji: string): ReactionGroup {
    var users := Reactors(rows, messageId, emoji);
    ReactionGroup(emoji, |users|, viewer in users, SortedIds(users))
  }

  function GroupList(rows: seq<Reaction>, messageId: int, viewer: int, emojis: seq<string>): (r: seq<ReactionGroup>)
    ensures |r| == |emojis|
  {
    seq(|emojis|, i requires 0 <= i < |emojis| => Group(rows, messageId, viewer, emojis[i]))
  }

  /** The groups of one message: one for each emoji, in order, with its distinct reactors in order. */
  function GroupsOf(rows: seq<Reaction>, messageId: int, viewer: int): seq<ReactionGroup> {
    GroupList(rows, messageId, viewer, SortedStrings(Emojis(rows, messageId)))
  }

  /** The dictionary of dictionaries that the first loop fills. */
  type Accumulator = map<int, map<string, seq<int>>>

  /** The accumulator holds exactly what the rows of the wanted messages say. */
  ghost predicate Accumulated(acc: Accumulator, rows: seq<Reaction>, wanted: set<int>) {
    && (forall m :: m in acc <==> m in wanted && Emojis(rows, m) != {})
    && (forall m :: m in acc ==> acc[m].Keys == Emojis(rows, m))
    && (forall m, e :: m in acc && e in acc[m] ==> ToSet(acc[m][e]) == Reactors(rows, m, e))
  }

  lemma EmojisSnoc(rows: seq<Reaction>, r: Reaction, m: int)
    ensures Emojis(rows + [r], m) == Emojis(rows, m) + if r.messageId == m then {r.emoji} else {}
  {
    forall e | e in Emojis(rows, m) ensures e in Emojis(rows + [r], m) {
      var x :| x in rows && x.messageId == m && x.emoji == e;
      assert x in rows + [r];
    }
    assert r in rows + [r];
  }

  lemma ReactorsSnoc(rows: seq<Reaction>, r: Reaction, m: int, e: string)
    ensures Reactors(rows + [r], m, e)
      == Reactors(rows, m, e) + if r.messageId == m && r.emoji == e then {r.userId} else {}
  {
    forall u | u in Reactors(rows, m, e) ensures u in Reactors(rows + [r], m, e) {
      var x :| x in rows && x.messageId == m && x.emoji == e && x.userId == u;
      assert x in rows + [r];
    }
    assert r in rows + [r];
  }

  lemma NoReactorsWithoutEmoji(rows: seq<Reaction>, m: int, e: string)
    requires e !in Emojis(rows, m)
    ensures Reactors(rows, m, e) == {}
  {
    assert forall r :: r in rows && r.messageId == m ==> r.emoji in Emojis(rows, m);
  }

  /** `acc[message_id].setdefault(emoji, []).append(user_id)`. */
  function Added(acc: Accumulator, r: Reaction): Accumulator {
    var emojis := if r.messageId in acc then acc[r.messageId] else map[];
    var users := if r.emoji in emojis then emojis[r.emoji] else [];
    acc[r.messageId := emojis[r.emoji := users + [r.userId]]]
  }

  lemma AddedAccumulates(acc: Accumulator, rows: seq<Reaction>, wanted: set<int>, r: Reaction)
    requires Accumulated(acc, rows, wanted)
    ensures r.messageId in wanted ==> Accumulated(Added(acc, r), rows + [r], wanted)
    ensures r.messageId !in wanted ==> Accumulated(acc, rows + [r], wanted)
  {
    var next := if r.messageId in wanted then Added(acc, r) else acc;
    forall m ensures m in next <==> m in wanted && Emojis(rows + [r], m) != {} {
      EmojisSnoc(rows, r, m);
      assert m == r.messageId ==> r.emoji in Emojis(rows + [r], m);
    }
    forall m | m in next ensures next[m].Keys == Emojis(rows + [r], m) {
      EmojisSnoc(rows, r, m);
    }
    forall m, e | m in next && e in next[m] ensures ToSet(next[m][e]) == Reactors(rows + [r], m, e) {
      ReactorsSnoc(rows, r, m, e);
      if m == r.messageId && e == r.emoji {
        var before := if m in acc && e in acc[m] then acc[m][e] else [];
        if e !in Emojis(rows, m) {
          NoReactorsWithoutEmoji(rows, m, e);
        }
        assert ToSet(before) == Reactors(rows, m, e);
        assert ToSet(before + [r.userId]) == ToSet(before) + {r.userId};
      }
    }
  }

  method Accumulate(rows: seq<Reaction>, wanted: set<int>) returns (acc: Accumulator)
    ensures Accumulated(acc, rows, wanted)
  {
    acc := map[];
    var n := 0;
    while n < |rows|
      invariant 0 <= n <= |rows|
      invariant Accumulated(acc, rows[..n], wanted)
    {
      var r := rows[n];
      AddedAccumulates(acc, rows[..n], wanted, r);
      assert rows[..n + 1] == rows[..n] + [r];
      if r.messageId in wanted {
        var emojis := if r.messageId in acc then acc[r.messageId] else map[];
        var users := if r.emoji in emojis then emojis[r.emoji] else [];
        acc := acc[r.messageId := emojis[r.emoji := users + [r.userId]]];
      }
      n := n + 1;
    }
    assert rows[..n] == rows;
  }

  lemma GroupListSnoc(rows: seq<Reaction>, m: int, viewer: int, keys: seq<string>, n: nat)
    requires n < |keys|
    ensures GroupList(rows, m, viewer, keys[..n + 1])
      == GroupList(rows, m, viewer, keys[..n]) + [Group(rows, m, viewer, keys[n])]
  {
  }

  lemma SortedStringsHas(s: set<string>, n: nat)
    requires n < |SortedStrings(s)|
    ensures SortedStrings(s)[n] in s
  {
    StringOrder(s);
    SortSetSorts(StringBefore, s);
    assert SortedStrings(s)[n] in SortedStrings(s);
  }

  method GroupsFor(emojis: map<string, seq<int>>, ghost rows: seq<Reaction>, ghost m: int, viewer: int)
    returns (groups: seq<ReactionGroup>)
    requires emojis.Keys == Emojis(rows, m)
    requires forall e :: e in emojis ==> ToSet(emojis[e]) == Reactors(rows, m, e)
    ensures groups == GroupsOf(rows, m, viewer)
  {
    var keys := SortedStrings(emojis.Keys);
    groups := [];
    var n := 0;
    while n < |keys|
      invariant 0 <= n <= |keys|
      invariant groups == GroupList(rows, m, viewer, keys[..n])
    {
      SortedStringsHas(emojis.Keys, n);
      GroupListSnoc(rows, m, viewer, keys, n);
      var users := ToSet(emojis[keys[n]]);
      var userIds := SortedIds(users);
      groups := groups + [ReactionGroup(keys[n], |userIds|, viewer in users, userIds)];
      n := n + 1;
    }
    assert keys[..|keys|] == keys;
  }

  /**
   One query for all messages: the dictionary has an entry for exactly the asked messages that have
   reactions, and the entry is the grouping of that message alone.
   */
  method ReactionGroupsForMessages(rows: seq<Reaction>, messageIds: seq<int>, viewer: int)
    returns (out: map<int, seq<ReactionGroup>>)
    ensures forall m :: m in out <==> m in messageIds && Emojis(rows, m) != {}
    ensures forall m :: m in out ==> out[m] == GroupsOf(rows, m, viewer)
  {
    out := map[];
    if |messageIds| == 0 {
      return;
    }
    var acc := Accumulate(rows, ToSet(messageIds));
    out := GroupAll(acc, rows, ToSet(messageIds), viewer);
  }

  method GroupAll(acc: Accumulator, ghost rows: seq<Reaction>, ghost wanted: set<int>, viewer: int)
    returns (out: map<int, seq<ReactionGroup>>)
    requires Accumulated(acc, rows, wanted)
    ensures out.Keys == acc.Keys
    ensures forall m :: m in out ==> out[m] == GroupsOf(rows, m, viewer)
  {
    out := map[];
    var todo := acc.Keys;
    while todo != {}
      invariant todo <= acc.Keys && out.Keys == acc.Keys - todo
      invariant forall m :: m in out ==> out[m] == GroupsOf(rows, m, viewer)
      decreases |todo|
    {
      var m := AnyOf(todo);
      var groups := GroupsFor(acc[m], rows, m, viewer);
      out := out[m := groups];
      todo := todo - {m};
    }
  }

  lemma NoEmojisNoGroups(rows: seq<Reaction>, m: int, viewer: int)
    requires Emojis(rows, m) == {}
    ensures GroupsOf(rows, m, viewer) == []
  {
    assert |SortedStrings({})| == 0;
  }

  lemma GroupInList(rows: seq<Reaction>, m: int, viewer: int, keys: seq<string>, g: ReactionGroup)
    ensures g in GroupList(rows, m, viewer, keys) <==> g.emoji in keys && g == Group(rows, m, viewer, g.emoji)
  {
    var groups := GroupList(rows, m, viewer, keys);
    if g.emoji in keys && g == Group(rows, m, viewer, g.emoji) {
      var i :| 0 <= i < |keys| && keys[i] == g.emoji;
      assert groups[i] == g;
    }
  }

  /** Each group counts and lists its distinct reactors in order and says whether the viewer is one. */
  lemma GroupsAreConsistent(rows: seq<Reaction>, m: int, viewer: int, g: ReactionGroup)
    requires g in GroupsOf(rows, m, viewer)
    ensures g.count == |g.reactorUserIds| && Sorted(Below, g.reactorUserIds)
    ensures g.reactedByMe <==> viewer in g.reactorUserIds
  {
    GroupInList(rows, m, viewer, SortedStrings(Emojis(rows, m)), g);
    SortSetSorts(Below, Reactors(rows, m, g.emoji));
  }

  /** The groups come in emoji order, no emoji twice. */
  lemma GroupsAreOrdered(rows: seq<Reaction>, m: int, viewer: int)
    ensures var groups := GroupsOf(rows, m, viewer);
      forall i, j :: 0 <= i < j < |groups| ==> StringBefore(groups[i].emoji, groups[j].emoji)
  {
    StringOrder(Emojis(rows, m));
    SortSetSorts(StringBefore, Emojis(rows, m));
  }

  /** A user is listed under an emoji exactly when there is such a reaction row. */
  lemma GroupsSayWhoReacted(rows: seq<Reaction>, m: int, viewer: int, emoji: string, user: int)
    ensures (exists g :: g in GroupsOf(rows, m, viewer) && g.emoji == emoji && user in g.reactorUserIds)
       <==> Reaction(m, user, emoji) in rows
  {
    var keys := SortedStrings(Emojis(rows, m));
    StringOrder(Emojis(rows, m));
    SortSetSorts(StringBefore, Emojis(rows, m));
    SortSetSorts(Below, Reactors(rows, m, emoji));
    var g := Group(rows, m, viewer, emoji);
    GroupInList(rows, m, viewer, keys, g);
    assert user in Reactors(rows, m, emoji) <==> Reaction(m, user, emoji) in rows;
    if Reaction(m, user, emoji) in rows {
      assert emoji in Emojis(rows, m);
    }
    if h :| h in GroupsOf(rows, m, viewer) && h.emoji == emoji && user in h.reactorUserIds {
      GroupInList(rows, m, viewer, keys, h);
    }
  }
}
