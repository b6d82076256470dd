/**
 Mentions in a message text: scanning for names, resolving them to members of the chat, storing them.
 Which characters are word characters is a parameter; the characters of a name are ASCII.
 */
module Mentions {
  import opened Common

  const MIN_NAME := 2
  const MAX_NAME := 32

  predicate Allowed(c: char) {
    || 'A' <= c <= 'Z'
    || 'a' <= c <= 'z'
    || '0' <= c <= '9'
    || c == '_' || c == '.' || c == '-'
  }

  function LowerChar(c: char): char {
    if 'A' <= c <= 'Z' then ((c as int) + 32) as char else c
  }

  /** `str.lower` on the names that the scan finds. */
  function Lower(s: string): (r: string)
    ensures |r| == |s|
  {
    if s == "" then "" else [LowerChar(s[0])] + Lower(s[1..])
  }

  /** How many allowed characters follow from `i`, taking at most `cap`. */
  function Greedy(text: string, i: nat, cap: nat): nat
    decreases cap
  {
    if cap > 0 && i < |text| && Allowed(text[i]) then 1 + Greedy(text, i + 1, cap - 1) else 0
  }

  /** Every allowed character up to the cap is taken, and nothing else. */
  lemma {:induction false} GreedyIsLongest(text: string, i: nat, cap: nat)
    ensures var n := Greedy(text, i, cap);
      && n <= cap
      && (i <= |text| ==> i + n <= |text|)
      && (forall k :: i <= k < i + n ==> k < |text| && Allowed(text[k]))
      && (n == cap || i + n >= |text| || !Allowed(text[i + n]))
    decreases cap
  {
    if cap > 0 && i < |text| && Allowed(text[i]) {
      GreedyIsLongest(text, i + 1, cap - 1);
    }
  }

  /** The letters, digits and signs that a name may have. */
  const CAPITALS := "ABCDEFGHIJKLMNOPQRSTUVWXYZ"
  const SMALLS := "abcdefghijklmnopqrstuvwxyz"
  const DIGITS := "0123456789"

  predicate InAlphabet(c: char) {
    c in CAPITALS || c in SMALLS || c in DIGITS || c in "_.-"
  }

  lemma CapitalAt(i: nat)
    requires i < 26
    ensures CAPITALS[i] as int == 'A' as int + i
  {
  }

  lemma SmallAt(i: nat)
    requires i < 26
    ensures SMALLS[i] as int == 'a' as int + i
  {
  }

  lemma DigitAt(i: nat)
    requires i < 10
    ensures DIGITS[i] as int == '0' as int + i
  {
  }

  lemma CapitalsAre(c: char)
    ensures c in CAPITALS <==> 'A' <= c <= 'Z'
  {
    if c in CAPITALS {
      var i :| 0 <= i < |CAPITALS| && CAPITALS[i] == c;
      CapitalAt(i);
    }
    if 'A' <= c <= 'Z' {
      CapitalAt(c as int - 'A' as int);
    }
  }

  lemma SmallsAre(c: char)
    ensures c in SMALLS <==> 'a' <= c <= 'z'
  {
    if c in SMALLS {
      var i :| 0 <= i < |SMALLS| && SMALLS[i] == c;
      SmallAt(i);
    }
    if 'a' <= c <= 'z' {
      SmallAt(c as int - 'a' as int);
    }
  }

  lemma DigitsAre(c: char)
    ensures c in DIGITS <==> '0' <= c <= '9'
  {
    if c in DIGITS {
      var i :| 0 <= i < |DIGITS| && DIGITS[i] == c;
      DigitAt(i);
    }
    if '0' <= c <= '9' {
      DigitAt(c as int - '0' as int);
    }
  }

  lemma SignsAre(c: char)
    ensures c in "_.-" <==> c == '_' || c == '.' || c == '-'
  {
    var signs := "_.-";
    assert signs[0] == '_' && signs[1] == '.' && signs[2] == '-';
  }

  /** The scan takes exactly these characters. */
  lemma AlphabetIs(c: char)
    ensures Allowed(c) <==> InAlphabet(c)
  {
    CapitalsAre(c);
    SmallsAre(c);
    DigitsAre(c);
    SignsAre(c);
  }

  /** Lower case turns the capitals into the small letters, in their order, and keeps the rest. */
  lemma {:induction false} LowerIs(s: string, i: nat)
    requires i < |s|
    ensures 'A' <= s[i] <= 'Z' ==> Lower(s)[i] as int - 'a' as int == s[i] as int - 'A' as int
    ensures !('A' <= s[i] <= 'Z') ==> Lower(s)[i] == s[i]
  {
    if i > 0 {
      LowerIs(s[1..], i - 1);
    }
  }

  /** A mention starts at `i`: an '@' after neither a word character nor an '@', with a name behind it. */
  predicate StartsAt(word: char -> bool, text: string, i: nat) {
    && i < |text| && text[i] == '@'
    && (i > 0 ==> !word(text[i - 1]) && text[i - 1] != '@')
    && Greedy(text, i + 1, MAX_NAME) >= MIN_NAME
  }

  function NameAt(text: string, i: nat): string
    requires i < |text|
  {
    GreedyIsLongest(text, i + 1, MAX_NAME);
    text[i + 1..i + 1 + Greedy(text, i + 1, MAX_NAME)]
  }

  /** The names of all mentions that start in `i..`, in order of appearance. */
  function NamesFrom(word: char -> bool, text: string, i: nat): seq<string>
    decreases |text| - i
  {
    if i >= |text| then []
    else (if StartsAt(word, text, i) then [NameAt(text, i)] else []) + NamesFrom(word, text, i + 1)
  }

  function Names(word: char -> bool, text: string): seq<string> {
    NamesFrom(word, text, 0)
  }

  /** `name` stands at `i` behind an '@' that follows no word character and no '@', and ends where it must. */
  ghost predicate Stands(word: char -> bool, text: string, i: int, name: string) {
    && 0 <= i && i + 1 + |name| <= |text| && 2 <= |name| <= 32
    && text[i] == '@' && (i > 0 ==> !word(text[i - 1]) && text[i - 1] != '@')
    && text[i + 1..i + 1 + |name|] == name
    && (forall k :: 0 <= k < |name| ==> InAlphabet(name[k]))
    && (|name| == 32 || i + 1 + |name| == |text| || !InAlphabet(text[i + 1 + |name|]))
  }

  lemma StandsIff(word: char -> bool, text: string, i: nat, name: string)
    requires i < |text|
    ensures Stands(word, text, i, name) <==> StartsAt(word, text, i) && name == NameAt(text, i)
  {
    if Stands(word, text, i, name) {
      StandingIsGreedy(word, text, i, name);
    }
    if StartsAt(word, text, i) && name == NameAt(text, i) {
      GreedyStands(word, text, i);
    }
  }

  lemma GreedyStands(word: char -> bool, text: string, i: nat)
    requires i < |text| && StartsAt(word, text, i)
    ensures Stands(word, text, i, NameAt(text, i))
  {
    GreedyIsLongest(text, i + 1, MAX_NAME);
    var name := NameAt(text, i);
    forall k | 0 <= k < |name| ensures InAlphabet(name[k]) {
      assert name[k] == text[i + 1 + k];
      AlphabetIs(name[k]);
    }
    if i + 1 + |name| < |text| {
      AlphabetIs(text[i + 1 + |name|]);
    }
  }

  /** Allowed characters up to the cap, the end or another character are what is taken. */
  lemma {:induction false} GreedyTakes(text: string, i: nat, cap: nat, n: nat)
    requires n <= cap && i + n <= |text|
    requires forall k :: i <= k < i + n ==> Allowed(text[k])
    requires n == cap || i + n == |text| || !Allowed(text[i + n])
    ensures Greedy(text, i, cap) == n
    decreases cap
  {
    if n > 0 {
      GreedyTakes(text, i + 1, cap - 1, n - 1);
    }
  }

  lemma StandingIsGreedy(word: char -> bool, text: string, i: nat, name: string)
    requires Stands(word, text, i, name)
    ensures Greedy(text, i + 1, MAX_NAME) == |name|
  {
    var end := i + 1 + |name|;
    forall k | i + 1 <= k < end ensures Allowed(text[k]) {
      assert text[k] == text[i + 1..end][k - (i + 1)] == name[k - (i + 1)];
      AlphabetIs(text[k]);
    }
    if end < |text| {
      AlphabetIs(text[end]);
    }
    GreedyTakes(text, i + 1, MAX_NAME, |name|);
  }

  /** The names of a text are exactly those that stand in it, from `i` on. */
  lemma {:induction false} NamesStand(word: char -> bool, text: string, i: nat, name: string)
    ensures name in NamesFrom(word, text, i) <==> exists j :: i <= j < |text| && Stands(word, text, j, name)
    decreases |text| - i
  {
    if i < |text| {
      NamesStand(word, text, i + 1, name);
      StandsIff(word, text, i, name);
    }
  }

  lemma {:induction false} NothingStartsInside(word: char -> bool, text: string, i: nat, end: nat)
    requires i <= end <= |text|
    requires forall k :: i <= k < end ==> text[k] != '@'
    ensures NamesFrom(word, text, i) == NamesFrom(word, text, end)
    decreases end - i
  {
    if i < end {
      NothingStartsInside(word, text, i + 1, end);
    }
  }

  /** `finditer`: one match at a time, each search starting where the last match ended. */
  method FindMatch(word: char -> bool, text: string, from: nat) returns (at: nat)
    requires from <= |text|
    ensures from <= at <= |text|
    ensures at < |text| ==> StartsAt(word, text, at)
    ensures NamesFrom(word, text, from) == NamesFrom(word, text, at)
  {
    at := from;
    while at < |text| && !StartsAt(word, text, at)
      invariant from <= at <= |text|
      invariant NamesFrom(word, text, from) == NamesFrom(word, text, at)
    {
      assert NamesFrom(word, text, at) == [] + NamesFrom(word, text, at + 1);
      at := at + 1;
    }
  }

  lemma ScanStep(word: char -> bool, text: string, at: nat)
    requires StartsAt(word, text, at)
    ensures var end := at + 1 + |NameAt(text, at)|;
      && at < end <= |text|
      && NamesFrom(word, text, at) == [NameAt(text, at)] + NamesFrom(word, text, end)
  {
    GreedyIsLongest(text, at + 1, MAX_NAME);
    NothingStartsInside(word, text, at + 1, at + 1 + |NameAt(text, at)|);
  }

  lemma OneMoved<T>(done: seq<T>, x: T, rest: seq<T>)
    ensures done + ([x] + rest) == (done + [x]) + rest
  {
  }

  /** Scanning without overlaps loses no mention. */
  method FindAll(word: char -> bool, text: string) returns (names: seq<string>)
    ensures names == Names(word, text)
  {
    names := [];
    var pos := 0;
    while pos < |text|
      invariant pos <= |text|
      invariant names + NamesFrom(word, text, pos) == Names(word, text)
    {
      var at := FindMatch(word, text, pos);
      if at == |text| {
        assert NamesFrom(word, text, at) == [];
        return;
      }
      ScanStep(word, text, at);
      var name := NameAt(text, at);
      OneMoved(names, name, NamesFrom(word, text, at + 1 + |name|));
      names := names + [name];
      pos := at + 1 + |name|;
    }
    assert NamesFrom(word, text, pos) == [];
  }

  // --- One spelling per name ---

  predicate HasSpelling(names: seq<string>, name: string) {
    exists i :: 0 <= i < |names| && Lower(names[i]) == Lower(name)
  }

  function FirstSpellings(names: seq<string>): seq<string> {
    if names == [] then [] else
      var init, last := names[..|names| - 1], names[|names| - 1];
      FirstSpellings(init) + if HasSpelling(init, last) then [] else [last]
  }

  /** `name` is written in `names`, and no other spelling of it comes first. */
  ghost predicate SpelledFirst(names: seq<string>, name: string) {
    exists i :: 0 <= i < |names| && names[i] == name && !HasSpelling(names[..i], name)
  }

  ghost predicate DistinctLower(names: seq<string>) {
    forall i, j :: 0 <= i < j < |names| ==> Lower(names[i]) != Lower(names[j])
  }

  lemma SpellingSnoc(init: seq<string>, last: string, name: string)
    ensures HasSpelling(init + [last], name) <==> HasSpelling(init, name) || Lower(last) == Lower(name)
  {
    var names := init + [last];
    if HasSpelling(init, name) {
      var i :| 0 <= i < |init| && Lower(init[i]) == Lower(name);
      assert names[i] == init[i];
    }
    if Lower(last) == Lower(name) {
      assert names[|init|] == last;
    }
    if HasSpelling(names, name) {
      var i :| 0 <= i < |names| && Lower(names[i]) == Lower(name);
      assert i < |init| ==> init[i] == names[i];
    }
  }

  lemma SpelledFirstSnoc(init: seq<string>, last: string, name: string)
    ensures SpelledFirst(init + [last], name) <==>
      SpelledFirst(init, name) || (last == name && !HasSpelling(init, name))
  {
    var names := init + [last];
    if SpelledFirst(init, name) {
      var i :| 0 <= i < |init| && init[i] == name && !HasSpelling(init[..i], name);
      assert names[i] == name && names[..i] == init[..i];
    }
    if last == name && !HasSpelling(init, name) {
      assert names[|init|] == name && names[..|init|] == init;
    }
    if SpelledFirst(names, name) {
      var i :| 0 <= i < |names| && names[i] == name && !HasSpelling(names[..i], name);
      if i < |init| {
        assert init[i] == name && names[..i] == init[..i];
      } else {
        assert names[..i] == init;
      }
    }
  }

  /** Kept are exactly the names in the spelling that comes first, one per name. */
  lemma {:induction false} FirstSpellingsAre(names: seq<string>, name: string)
    ensures name in FirstSpellings(names) <==> SpelledFirst(names, name)
    ensures HasSpelling(FirstSpellings(names), name) <==> HasSpelling(names, name)
  {
    if names != [] {
      var init, last := names[..|names| - 1], names[|names| - 1];
      assert names == init + [last];
      FirstSpellingsAre(init, name);
      SpellingSnoc(init, last, name);
      SpelledFirstSnoc(init, last, name);
      if HasSpelling(init, last) {
        if Lower(last) == Lower(name) {
          SameSpelling(init, last, name);
        }
        assert FirstSpellings(init) + [] == FirstSpellings(init);
      } else {
        SpellingSnoc(FirstSpellings(init), last, name);
      }
    }
  }

  lemma SameSpelling(names: seq<string>, a: string, b: string)
    requires HasSpelling(names, a) && Lower(a) == Lower(b)
    ensures HasSpelling(names, b)
  {
    var i :| 0 <= i < |names| && Lower(names[i]) == Lower(a);
    assert Lower(names[i]) == Lower(b);
  }

  lemma {:induction false} FirstSpellingsDiffer(names: seq<string>)
    ensures DistinctLower(FirstSpellings(names))
  {
    if names != [] {
      var init, last := names[..|names| - 1], names[|names| - 1];
      FirstSpellingsDiffer(init);
      var kept := FirstSpellings(init);
      FirstSpellingsAre(init, last);
      if !HasSpelling(init, last) {
        forall i | 0 <= i < |kept| ensures Lower(kept[i]) != Lower(last) {
          assert !HasSpelling(kept, last);
        }
      }
    }
  }

  /** `seen` holds the lower-case forms of the names kept so far. */
  lemma SeenDecides(seen: seq<string>, init: seq<string>, last: string)
    requires var out := FirstSpellings(init);
      |seen| == |out| && forall k :: 0 <= k < |out| ==> seen[k] == Lower(out[k])
    ensures Lower(last) in seen <==> HasSpelling(init, last)
    ensures FirstSpellings(init + [last]) == FirstSpellings(init) + if Lower(last) in seen then [] else [last]
  {
    var out := FirstSpellings(init);
    FirstSpellingsAre(init, last);
    if Lower(last) in seen {
      var k :| 0 <= k < |seen| && seen[k] == Lower(last);
      assert Lower(out[k]) == Lower(last);
    }
    assert (init + [last])[..|init|] == init;
  }

  method ExtractMentionUsernames(word: char -> bool, text: string) returns (out: seq<string>)
    ensures out == FirstSpellings(Names(word, text))
  {
    if text == "" {
      assert Names(word, text) == [];
      return [];
    }
    var matches := FindAll(word, text);
    out := KeepFirstSpellings(matches);
  }

  method KeepFirstSpellings(matches: seq<string>) returns (out: seq<string>)
    ensures out == FirstSpellings(matches)
  {
    var seen: seq<string> := [];
    out := [];
    for i := 0 to |matches|
      invariant out == FirstSpellings(matches[..i])
      invariant |seen| == |out| && forall k :: 0 <= k < |out| ==> seen[k] == Lower(out[k])
    {
      assert matches[..i + 1] == matches[..i] + [matches[i]];
      SeenDecides(seen, matches[..i], matches[i]);
      var name := Lower(matches[i]);
      if name in seen {
        continue;
      }
      seen := seen + [name];
      out := out + [matches[i]];
    }
    assert matches[..|matches|] == matches;
  }

  // --- Resolving names to members ---

  /** User names are unique. */
  ghost predicate UniqueNames(users: map<int, string>) {
    forall u, v :: u in users && v in users && users[u] == users[v] ==> u == v
  }

  /** `uid` is listed explicitly, or the text names it in its own spelling before any other. */
  ghost predicate Mentioned(word: char -> bool, users: map<int, string>, text: string, explicit: seq<int>, uid: int) {
    uid in explicit || (uid in users && SpelledFirst(Names(word, text), users[uid]))
  }

  predicate Named(users: map<int, string>, names: seq<string>, u: int) {
    u in users && users[u] in names
  }

  function Rows(users: map<int, string>, names: seq<string>): set<int> {
    set u | u in users && Named(users, names, u)
  }

  /** The first `n` are named in the text, in its order; the others are not named in it. */
  ghost predicate NamedFirst(word: char -> bool, users: map<int, string>, text: string, found: seq<int>, n: nat)
    requires n <= |found|
  {
    var names := FirstSpellings(Names(word, text));
    && InNameOrder(users, names, found[..n])
    && forall i :: 0 <= i < |found| ==> (i < n <==> found[i] in users && users[found[i]] in names)
  }

  /** The dictionary from lower-case name to user id, for the rows of `done`. */
  ghost predicate IsIndex(users: map<int, string>, names: seq<string>, done: set<int>, index: map<string, int>) {
    && (forall key :: key in index ==> Named(users, names, index[key]) && Lower(users[index[key]]) == key)
    && (forall u :: u in done ==> u in users && Lower(users[u]) in index && index[Lower(users[u])] == u)
  }

  lemma SameName(names: seq<string>, a: string, b: string)
    requires DistinctLower(names) && a in names && b in names && Lower(a) == Lower(b)
    ensures a == b
  {
    var i :| 0 <= i < |names| && names[i] == a;
    var j :| 0 <= j < |names| && names[j] == b;
    assert i < j || j < i || i == j;
  }

  lemma IndexGrows(users: map<int, string>, names: seq<string>, done: set<int>, index: map<string, int>, u: int)
    requires UniqueNames(users) && DistinctLower(names)
    requires IsIndex(users, names, done, index) && Named(users, names, u)
    ensures IsIndex(users, names, done + {u}, index[Lower(users[u]) := u])
  {
    forall v | v in done && Lower(users[v]) == Lower(users[u]) ensures v == u {
      assert Named(users, names, index[Lower(users[v])]);
      SameName(names, users[v], users[u]);
    }
  }

  method IndexByUsername(users: map<int, string>, names: seq<string>) returns (index: map<string, int>)
    requires UniqueNames(users) && DistinctLower(names)
    ensures IsIndex(users, names, Rows(users, names), index)
  {
    var rows := Rows(users, names);
    index := map[];
    var done: set<int> := {};
    while done != rows
      invariant done <= rows && IsIndex(users, names, done, index)
      decreases |rows - done|
    {
      var u := AnyOf(rows - done);
      IndexGrows(users, names, done, index, u);
      index := index[Lower(users[u]) := u];
      done := done + {u};
    }
  }

  /** The index leads from a name to the user of that very spelling, if there is one. */
  lemma IndexFinds(users: map<int, string>, names: seq<string>, index: map<string, int>, name: string)
    requires DistinctLower(names) && name in names
    requires IsIndex(users, names, Rows(users, names), index)
    ensures Lower(name) in index ==> index[Lower(name)] in users && users[index[Lower(name)]] == name
    ensures forall u :: u in users && users[u] == name ==> Lower(name) in index && index[Lower(name)] == u
  {
    if Lower(name) in index {
      SameName(names, users[index[Lower(name)]], name);
    }
    forall u | u in users && users[u] == name ensures Lower(name) in index && index[Lower(name)] == u {
      assert Named(users, names, u);
    }
  }

  /** The users stand in the order in which `names` has their names. */
  ghost predicate InNameOrder(users: map<int, string>, names: seq<string>, found: seq<int>) {
    forall i, j :: 0 <= i < j < |found| ==> NamedBefore(users, names, found[i], found[j])
  }

  ghost predicate NamedBefore(users: map<int, string>, names: seq<string>, u: int, v: int) {
    forall a, b :: NameAtIndex(users, names, u, a) && NameAtIndex(users, names, v, b) ==> a < b
  }

  predicate NameAtIndex(users: map<int, string>, names: seq<string>, uid: int, a: int) {
    0 <= a < |names| && HasName(users, uid, names[a])
  }

  predicate HasName(users: map<int, string>, uid: int, name: string) {
    uid in users && users[uid] == name
  }

  lemma NextInOrder(users: map<int, string>, names: seq<string>, found: seq<int>, i: nat, uid: int)
    requires DistinctLower(names) && i < |names| && InNameOrder(users, names, found) && HasName(users, uid, names[i])
    requires forall u :: u in found ==> u in users && users[u] in names[..i]
    ensures InNameOrder(users, names, found + [uid])
  {
    forall j, a, b | 0 <= j < |found| && NameAtIndex(users, names, found[j], a) && NameAtIndex(users, names, uid, b)
      ensures a < b
    {
      assert found[j] in found;
      var c :| 0 <= c < i && names[..i][c] == users[found[j]];
      assert names[c] == names[a] && names[i] == names[b];
      assert c == a && i == b;
    }
  }

  method ResolveNamed(users: map<int, string>, members: set<int>, names: seq<string>) returns (found: seq<int>)
    requires UniqueNames(users) && DistinctLower(names)
    ensures NoRepeats(found) && InNameOrder(users, names, found)
    ensures forall uid :: uid in found <==> uid in users && users[uid] in names && uid in members
  {
    var index := IndexByUsername(users, names);
    found := [];
    for i := 0 to |names|
      invariant NoRepeats(found) && InNameOrder(users, names, found)
      invariant forall uid :: uid in found <==> uid in users && users[uid] in names[..i] && uid in members
    {
      IndexFinds(users, names, index, names[i]);
      assert names[..i + 1] == names[..i] + [names[i]];
      var key := Lower(names[i]);
      if key in index && index[key] in members && index[key] !in found {
        NextInOrder(users, names, found, i, index[key]);
        found := found + [index[key]];
      }
    }
    assert names[..|names|] == names;
  }

  /**
   Resolution yields each mentioned member once and nobody else: the users whose name stands in the text
   in its own spelling before any other spelling, in text order, and then the explicit ids.
   */
  method ResolveChatMentions(word: char -> bool, users: map<int, string>, members: set<int>,
                             text: Option<string>, explicit: seq<int>) returns (found: seq<int>)
    requires UniqueNames(users)
    ensures NoRepeats(found)
    ensures forall uid :: uid in found <==> uid in members && Mentioned(word, users, text.GetOr(""), explicit, uid)
    ensures exists n :: 0 <= n <= |found| && NamedFirst(word, users, text.GetOr(""), found, n)
  {
    var wanted := set x | x in explicit;
    var names := ExtractMentionUsernames(word, text.GetOr(""));
    FirstSpellingsDiffer(Names(word, text.GetOr("")));
    forall name ensures name in names <==> SpelledFirst(Names(word, text.GetOr("")), name) {
      FirstSpellingsAre(Names(word, text.GetOr("")), name);
    }
    if names == [] && wanted == {} {
      assert forall uid :: uid in explicit ==> uid in wanted;
      assert NamedFirst(word, users, text.GetOr(""), [], 0);
      return [];
    }
    if members == {} {
      assert NamedFirst(word, users, text.GetOr(""), [], 0);
      return [];
    }
    found := ResolveNamed(users, members, names);
    ghost var named := found;
    var todo := wanted;
    while todo != {}
      invariant todo <= wanted && NoRepeats(found) && named <= found
      invariant forall uid :: uid in found <==> uid in named || (uid in wanted - todo && uid in members)
      decreases |todo|
    {
      var uid := AnyOf(todo);
      if uid in members && uid !in found {
        found := found + [uid];
      }
      todo := todo - {uid};
    }
    assert found[..|named|] == named;
    FirstAreNamed(users, members, names, named, found);
    assert NamedFirst(word, users, text.GetOr(""), found, |named|);
  }

  lemma FirstAreNamed(users: map<int, string>, members: set<int>, names: seq<string>, named: seq<int>, found: seq<int>)
    requires named <= found && NoRepeats(found) && forall uid :: uid in found ==> uid in members
    requires forall uid :: uid in named <==> uid in users && users[uid] in names && uid in members
    ensures forall i :: 0 <= i < |found| ==> (i < |named| <==> found[i] in users && users[found[i]] in names)
  {
    forall i | 0 <= i < |found| ensures i < |named| <==> found[i] in named {
      assert found[i] in found;
      if i < |named| {
        assert named[i] == found[i];
      } else {
        forall j | 0 <= j < |named| ensures named[j] != found[i] {
          assert named[j] == found[j];
        }
      }
    }
    forall i | 0 <= i < |found| ensures i < |named| <==> found[i] in users && users[found[i]] in names {
      var uid := found[i];
      assert uid in found;
    }
  }

  lemma EarlierSpelling(names: seq<string>, k: nat, i: nat, name: string)
    requires k < i <= |names| && Lower(names[k]) == Lower(name)
    ensures HasSpelling(names[..i], name)
  {
    assert names[..i][k] == names[k];
  }

  /**
   A user whose name the text contains in some spelling, and who is not listed, is mentioned if and
   only if the first spelling of that name is the user's own.
   */
  lemma FirstSpellingDecides(word: char -> bool, users: map<int, string>, text: string, explicit: seq<int>, uid: int,
                             first: nat)
    requires uid in users && uid !in explicit
    requires var names := Names(word, text);
      first < |names| && Lower(names[first]) == Lower(users[uid]) && !HasSpelling(names[..first], users[uid])
    ensures Mentioned(word, users, text, explicit, uid) <==> Names(word, text)[first] == users[uid]
  {
    var names := Names(word, text);
    if SpelledFirst(names, users[uid]) {
      var i :| 0 <= i < |names| && names[i] == users[uid] && !HasSpelling(names[..i], users[uid]);
      if i < first {
        EarlierSpelling(names, i, first, users[uid]);
      } else if first < i {
        EarlierSpelling(names, first, i, users[uid]);
      }
    }
  }

  /** "@bo @Bo" does not mention a user called "Bo". */
  lemma SecondSpellingIsMissed(word: char -> bool)
    requires !word(' ')
    ensures var text := "@bo @Bo"; var users := map[1 := "Bo"];
      && UniqueNames(users)
      && !Mentioned(word, users, text, [], 1)
      && "Bo" in Names(word, text)
  {
    var users := map[1 := "Bo"];
    ExampleNames(word);
    ExampleSpellings();
    var names := Names(word, "@bo @Bo");
    assert names[..0] == [];
    FirstSpellingDecides(word, users, "@bo @Bo", [], 1, 0);
  }

  lemma ExampleSpellings()
    ensures Lower("bo") == Lower("Bo")
  {
    assert "bo"[1..] == "o" && "Bo"[1..] == "o";
    assert Lower("bo") == ['b'] + Lower("o") && Lower("Bo") == ['b'] + Lower("o");
  }

  lemma ExampleNames(word: char -> bool)
    requires !word(' ')
    ensures Names(word, "@bo @Bo") == ["bo", "Bo"]
  {
    var text := "@bo @Bo";
    assert Greedy(text, 3, 30) == 0 && Greedy(text, 2, 31) == 1 && Greedy(text, 1, 32) == 2;
    assert Greedy(text, 7, 30) == 0 && Greedy(text, 6, 31) == 1 && Greedy(text, 5, 32) == 2;
    assert StartsAt(word, text, 0) && StartsAt(word, text, 4);
    assert NameAt(text, 0) == "bo" && NameAt(text, 4) == "Bo";
    ScanStep(word, text, 4);
    ScanStep(word, text, 0);
    NothingStartsInside(word, text, 3, 4);
    assert NamesFrom(word, text, 7) == [];
  }

  // --- Storing mentions ---

  datatype Row = Row(messageId: int, userId: int)

  function UsersOf(rows: seq<Row>, messageId: int): seq<int> {
    if rows == [] then [] else
      var last := rows[|rows| - 1];
      UsersOf(rows[..|rows| - 1], messageId) + if last.messageId == messageId then [last.userId] else []
  }

  function Deleted(rows: seq<Row>, messageId: int): seq<Row> {
    if rows == [] then [] else
      var last := rows[|rows| - 1];
      Deleted(rows[..|rows| - 1], messageId) + if last.messageId == messageId then [] else [last]
  }

  lemma {:induction false} DeletedUsers(rows: seq<Row>, messageId: int, other: int)
    ensures UsersOf(Deleted(rows, messageId), other) == if other == messageId then [] else UsersOf(rows, other)
  {
    if rows != [] {
      var init, last := rows[..|rows| - 1], rows[|rows| - 1];
      DeletedUsers(init, messageId, other);
      var kept := Deleted(init, messageId);
      if last.messageId == messageId {
        assert kept + [] == kept;
      } else {
        assert (kept + [last])[..|kept|] == kept;
      }
    }
  }

  lemma AppendedUsers(rows: seq<Row>, messageId: int, userId: int, other: int)
    ensures UsersOf(rows + [Row(messageId, userId)], other)
         == if other == messageId then UsersOf(rows, other) + [userId] else UsersOf(rows, other)
  {
    assert (rows + [Row(messageId, userId)])[..|rows|] == rows;
    assert UsersOf(rows, other) + [] == UsersOf(rows, other);
  }

  class MentionStore {
    var rows: seq<Row>  // in id order

    /** Afterwards the message has exactly the given mentions, in order; no other message is affected. */
    method ReplaceMessageMentions(messageId: int, userIds: seq<int>)
      modifies this
      ensures forall m :: UsersOf(rows, m) == if m == messageId then userIds else UsersOf(old(rows), m)
    {
      rows := Deleted(rows, messageId);
      forall m ensures UsersOf(rows, m) == if m == messageId then [] else UsersOf(old(rows), m) {
        DeletedUsers(old(rows), messageId, m);
      }
      for i := 0 to |userIds|
        invariant forall m :: UsersOf(rows, m) == if m == messageId then userIds[..i] else UsersOf(old(rows), m)
      {
        ghost var before := rows;
        rows := rows + [Row(messageId, userIds[i])];
        assert userIds[..i + 1] == userIds[..i] + [userIds[i]];
        forall m ensures UsersOf(rows, m) == if m == messageId then userIds[..i + 1] else UsersOf(old(rows), m) {
          AppendedUsers(before, messageId, userIds[i], m);
        }
      }
      assert userIds[..|userIds|] == userIds;
    }
  }

  /** One query for many messages gives each of them what a query of its own would. */
  method LoadMessageMentionsMap(rows: seq<Row>, messageIds: seq<int>) returns (out: map<int, seq<int>>)
    ensures forall m :: m in out <==> m in messageIds && UsersOf(rows, m) != []
    ensures forall m :: m in out ==> out[m] == UsersOf(rows, m)
  {
    out := map[];
    if messageIds == [] {
      return;
    }
    for i := 0 to |rows|
      invariant forall m :: m in out <==> m in messageIds && UsersOf(rows[..i], m) != []
      invariant forall m :: m in out ==> out[m] == UsersOf(rows[..i], m)
    {
      assert rows[..i + 1][..i] == rows[..i];
      var row := rows[i];
      if row.messageId in messageIds {
        out := out[row.messageId := (if row.messageId in out then out[row.messageId] else []) + [row.userId]];
      }
    }
    assert rows[..|rows|] == rows;
  }

  // --- Who is mentioned, by positions in the text ---

  /** Which names stand where. */
  ghost function Standing(word: char -> bool, text: string): (int, string) -> bool {
    (j: int, name: string) => Stands(word, text, j, name)
  }

  /** `name` stands at `j`, and no spelling of it stands between `i` and there. */
  ghost predicate StandsFirst(standing: (int, string) -> bool, i: int, j: int, name: string) {
    && standing(j, name)
    && forall k, other :: i <= k < j && standing(k, other) ==> Lower(other) != Lower(name)
  }

  ghost predicate FirstFrom(standing: (int, string) -> bool, i: int, name: string) {
    exists j :: i <= j && StandsFirst(standing, i, j, name)
  }

  lemma SpelledFirstCons(x: string, rest: seq<string>, name: string)
    ensures SpelledFirst([x] + rest, name) <==> x == name || (Lower(x) != Lower(name) && SpelledFirst(rest, name))
  {
    var names := [x] + rest;
    if SpelledFirst(names, name) {
      var i :| 0 <= i < |names| && names[i] == name && !HasSpelling(names[..i], name);
      if i > 0 {
        assert names[..i][0] == x;
        assert rest[i - 1] == name && names[..i] == [x] + rest[..i - 1];
        SpellingCons(x, rest[..i - 1], name);
      }
    }
    if x == name {
      assert names[0] == name && names[..0] == [];
    } else if Lower(x) != Lower(name) && SpelledFirst(rest, name) {
      var i :| 0 <= i < |rest| && rest[i] == name && !HasSpelling(rest[..i], name);
      assert names[i + 1] == name && names[..i + 1] == [x] + rest[..i];
      SpellingCons(x, rest[..i], name);
    }
  }

  lemma SpellingCons(x: string, rest: seq<string>, name: string)
    ensures HasSpelling([x] + rest, name) <==> Lower(x) == Lower(name) || HasSpelling(rest, name)
  {
    var names := [x] + rest;
    if HasSpelling(rest, name) {
      var i :| 0 <= i < |rest| && Lower(rest[i]) == Lower(name);
      assert names[i + 1] == rest[i];
    }
    if Lower(x) == Lower(name) {
      assert names[0] == x;
    }
  }

  lemma {:induction false} FirstStands(word: char -> bool, text: string, i: nat, name: string)
    requires i <= |text|
    ensures SpelledFirst(NamesFrom(word, text, i), name) <==> FirstFrom(Standing(word, text), i, name)
    decreases |text| - i
  {
    if i == |text| {
      assert NamesFrom(word, text, i) == [];
    } else {
      FirstStands(word, text, i + 1, name);
      var rest := NamesFrom(word, text, i + 1);
      var here := if StartsAt(word, text, i) then Some(NameAt(text, i)) else None;
      forall other ensures Standing(word, text)(i, other) <==> here == Some(other) {
        StandsIff(word, text, i, other);
      }
      FirstStandsStep(Standing(word, text), i, here, name);
      if here.Some? {
        SpelledFirstCons(here.value, rest, name);
      } else {
        assert [] + rest == rest;
      }
    }
  }

  lemma FirstStandsStep(standing: (int, string) -> bool, i: int, here: Option<string>, name: string)
    requires forall other :: standing(i, other) <==> here == Some(other)
    ensures FirstFrom(standing, i, name) <==>
      || here == Some(name)
      || (!(here.Some? && Lower(here.value) == Lower(name)) && FirstFrom(standing, i + 1, name))
  {
    var next := i + 1;
    if j :| i <= j && StandsFirst(standing, i, j, name) {
      assert i < j ==> StandsFirst(standing, next, j, name);
      assert here.Some? ==> standing(i, here.value);
    }
    if here == Some(name) {
      assert StandsFirst(standing, i, i, name);
    } else if !(here.Some? && Lower(here.value) == Lower(name)) {
      if j :| next <= j && StandsFirst(standing, next, j, name) {
        assert StandsFirst(standing, i, j, name);
      }
    }
  }

  /**
   A user is mentioned if and only if listed, or if the user's own name stands somewhere in the text and no
   other spelling of it stands before.
   */
  lemma MentionedIff(word: char -> bool, users: map<int, string>, text: string, explicit: seq<int>, uid: int)
    ensures Mentioned(word, users, text, explicit, uid) <==>
      || uid in explicit
      || (uid in users && FirstFrom(Standing(word, text), 0, users[uid]))
  {
    if uid in users {
      FirstStands(word, text, 0, users[uid]);
    }
  }
}
