/** Rate limiting: a sliding window kept in memory, and a fixed window counted in Redis. */
module RateLimit {
  import opened Common

  datatype Rule = Rule(name: string, maxAttempts: int, windowSeconds: int)

  const AUTH_LOGIN_RULE := Rule("auth_login", 5, 600)
  const AUTH_REQUEST_CODE_RULE := Rule("auth_request_email_code", 3, 600)
  const AUTH_VERIFY_CODE_RULE := Rule("auth_verify_email_code", 5, 600)
  const MESSAGE_SEND_RULE := Rule("message_send", 60, 60)
  const MEDIA_UPLOAD_RULE := Rule("media_upload", 30, 60)
  const WS_CONNECT_RULE := Rule("ws_connect", 30, 60)

  const RULES: set<Rule> := {
    AUTH_LOGIN_RULE, AUTH_REQUEST_CODE_RULE, AUTH_VERIFY_CODE_RULE,
    MESSAGE_SEND_RULE, MEDIA_UPLOAD_RULE, WS_CONNECT_RULE
  }

  function BucketKey(rule: Rule, key: string): string {
    rule.name + ":" + key
  }

  /** Rules that can share one limiter: no colon in a name, and a name belongs to one rule. */
  ghost predicate Separate(rules: set<Rule>) {
    && (forall r :: r in rules ==> ':' !in r.name && r.windowSeconds >= 0)
    && (forall r, q :: r in rules && q in rules && r.name == q.name ==> r == q)
  }

  lemma ShortNamesHaveNoColon()
    ensures ':' !in AUTH_LOGIN_RULE.name && ':' !in MESSAGE_SEND_RULE.name
    ensures ':' !in MEDIA_UPLOAD_RULE.name && ':' !in WS_CONNECT_RULE.name
  {
  }

  lemma RequestNameHasNoColon()
    ensures ':' !in AUTH_REQUEST_CODE_RULE.name
  {
  }

  lemma VerifyNameHasNoColon()
    ensures ':' !in AUTH_VERIFY_CODE_RULE.name
  {
  }

  /** The shipped rule that a name belongs to can be read off its length and its third letter. */
  function Tag(name: string): (int, char)
    requires |name| > 2
  {
    (|name|, name[2])
  }

  lemma Tags()
    ensures Tag(AUTH_LOGIN_RULE.name) == (10, 't') && Tag(AUTH_REQUEST_CODE_RULE.name) == (23, 't')
    ensures Tag(AUTH_VERIFY_CODE_RULE.name) == (22, 't') && Tag(MESSAGE_SEND_RULE.name) == (12, 's')
    ensures Tag(MEDIA_UPLOAD_RULE.name) == (12, 'd') && Tag(WS_CONNECT_RULE.name) == (10, '_')
  {
  }

  function Ruled(tag: (int, char)): Rule {
    if tag == (10, 't') then AUTH_LOGIN_RULE
    else if tag == (23, 't') then AUTH_REQUEST_CODE_RULE
    else if tag == (22, 't') then AUTH_VERIFY_CODE_RULE
    else if tag == (12, 's') then MESSAGE_SEND_RULE
    else if tag == (12, 'd') then MEDIA_UPLOAD_RULE
    else WS_CONNECT_RULE
  }

  lemma RuledByTag(r: Rule)
    requires r in RULES
    ensures |r.name| > 2 && Ruled(Tag(r.name)) == r
  {
    Tags();
  }

  lemma ShippedRulesSeparate()
    ensures Separate(RULES)
  {
    ShortNamesHaveNoColon();
    RequestNameHasNoColon();
    VerifyNameHasNoColon();
    forall r, q | r in RULES && q in RULES && r.name == q.name ensures r == q {
      RuledByTag(r);
      RuledByTag(q);
    }
  }

  /** A bucket belongs to one rule and one key. */
  lemma BucketsAreSeparate(rules: set<Rule>, r: Rule, k: string, q: Rule, l: string)
    requires Separate(rules) && r in rules && q in rules
    ensures BucketKey(r, k) == BucketKey(q, l) <==> r == q && k == l
  {
    if BucketKey(r, k) == BucketKey(q, l) {
      var a, b := BucketKey(r, k), BucketKey(q, l);
      assert a[|r.name|] == ':' && b[|q.name|] == ':';
      assert forall i :: 0 <= i < |r.name| ==> a[i] == r.name[i] && r.name[i] in r.name;
      assert forall i :: 0 <= i < |q.name| ==> b[i] == q.name[i] && q.name[i] in q.name;
      assert a[..|r.name|] == r.name && b[..|q.name|] == q.name;
      assert a[|r.name| + 1..] == k && b[|q.name| + 1..] == l;
    }
  }

  // ---- The sliding window ----

  /** How many of the times lie in (from, to]. */
  function CountIn(times: seq<real>, from: real, to: real): nat {
    if times == [] then 0
    else CountIn(times[..|times| - 1], from, to) + (if from < times[|times| - 1] <= to then 1 else 0)
  }

  /** The hits of the window that ends at `t`. */
  function InWindow(times: seq<real>, rule: Rule, t: real): nat {
    CountIn(times, t - rule.windowSeconds as real, t)
  }

  predicate Monotone(times: seq<real>) {
    forall i, j :: 0 <= i <= j < |times| ==> times[i] <= times[j]
  }

  /** The limiter that keeps every accepted hit: it accepts while the last window holds fewer than allowed. */
  predicate Admits(history: seq<real>, rule: Rule, now: real) {
    InWindow(history, rule, now) < rule.maxAttempts
  }

  function Recorded(history: seq<real>, rule: Rule, now: real): seq<real> {
    if Admits(history, rule, now) then history + [now] else history
  }

  /** What the in-memory limiter keeps: the hits after the cutoff. */
  function Pruned(hits: seq<real>, cutoff: real): seq<real> {
    if hits != [] && hits[0] <= cutoff then Pruned(hits[1..], cutoff) else hits
  }

  /** `hits` is what is left of `history` after dropping old hits, none of them younger than `cutoff`. */
  ghost predicate KeepsRecent(history: seq<real>, hits: seq<real>, cutoff: real) {
    && |hits| <= |history|
    && hits == history[|history| - |hits|..]
    && forall i :: 0 <= i < |history| - |hits| ==> history[i] <= cutoff
  }

  lemma {:induction false} CountSplit(a: seq<real>, b: seq<real>, from: real, to: real)
    ensures CountIn(a + b, from, to) == CountIn(a, from, to) + CountIn(b, from, to)
  {
    if b == [] {
      assert a + b == a;
    } else {
      assert (a + b)[..|a + b| - 1] == a + b[..|b| - 1];
      CountSplit(a, b[..|b| - 1], from, to);
    }
  }

  lemma {:induction false} CountNone(a: seq<real>, from: real, to: real)
    requires forall i :: 0 <= i < |a| ==> a[i] <= from || a[i] > to
    ensures CountIn(a, from, to) == 0
  {
    if a != [] {
      CountNone(a[..|a| - 1], from, to);
    }
  }

  lemma {:induction false} CountAll(a: seq<real>, from: real, to: real)
    requires forall i :: 0 <= i < |a| ==> from < a[i] <= to
    ensures CountIn(a, from, to) == |a|
  {
    if a != [] {
      CountAll(a[..|a| - 1], from, to);
    }
  }

  lemma {:induction false} CountAtMost(a: seq<real>, from: real, to: real, from': real, to': real)
    requires from' <= from
    requires forall i :: 0 <= i < |a| ==> a[i] <= to'
    ensures CountIn(a, from, to) <= CountIn(a, from', to')
  {
    if a != [] {
      CountAtMost(a[..|a| - 1], from, to, from', to');
    }
  }

  lemma {:induction false} PrunedKeepsRecent(history: seq<real>, hits: seq<real>, before: real, cutoff: real)
    requires KeepsRecent(history, hits, before) && before <= cutoff
    ensures KeepsRecent(history, Pruned(hits, cutoff), cutoff)
    ensures Pruned(hits, cutoff) != [] ==> Pruned(hits, cutoff)[0] > cutoff
    decreases |hits|
  {
    if hits != [] && hits[0] <= cutoff {
      PrunedKeepsRecent(history, hits[1..], cutoff, cutoff);
    }
  }

  /** After pruning, the length of the deque is the number of accepted hits in the window. */
  lemma PrunedCounts(history: seq<real>, hits: seq<real>, now: real, cutoff: real)
    requires Monotone(history) && KeepsRecent(history, hits, cutoff)
    requires hits != [] ==> hits[0] > cutoff
    requires history != [] ==> history[|history| - 1] <= now
    ensures CountIn(history, cutoff, now) == |hits|
  {
    var n := |history| - |hits|;
    assert history == history[..n] + hits;
    forall i | 0 <= i < |hits| ensures cutoff < hits[i] <= now {
      assert hits[0] == history[n] && hits[i] == history[n + i];
    }
    CountRecent(history[..n], hits, cutoff, now);
  }

  lemma CountRecent(gone: seq<real>, hits: seq<real>, from: real, to: real)
    requires forall i :: 0 <= i < |gone| ==> gone[i] <= from
    requires forall i :: 0 <= i < |hits| ==> from < hits[i] <= to
    ensures CountIn(gone + hits, from, to) == |hits|
  {
    CountSplit(gone, hits, from, to);
    CountNone(gone, from, to);
    CountAll(hits, from, to);
  }

  /** A deque that belongs to a history of accepted hits up to `now`. */
  ghost predicate Tidy(history: seq<real>, hits: seq<real>, cutoff: real, now: real) {
    && Monotone(history)
    && (history != [] ==> history[|history| - 1] <= now)
    && KeepsRecent(history, hits, cutoff)
  }

  lemma AppendIsTidy(history: seq<real>, hits: seq<real>, cutoff: real, now: real)
    requires Tidy(history, hits, cutoff, now)
    ensures Tidy(history + [now], hits + [now], cutoff, now)
  {
    var n := |history| - |hits|;
    assert (history + [now])[n..] == history[n..] + [now];
  }

  /** Dropping the hits up to the cutoff keeps the deque tidy, and then its length decides. */
  lemma PruningDecides(history: seq<real>, hits: seq<real>, rule: Rule, before: real, now: real)
    requires Tidy(history, hits, before - rule.windowSeconds as real, before) && before <= now
    ensures var cutoff := now - rule.windowSeconds as real;
      && Tidy(history, Pruned(hits, cutoff), cutoff, now)
      && (|Pruned(hits, cutoff)| < rule.maxAttempts <==> Admits(history, rule, now))
  {
    var cutoff := now - rule.windowSeconds as real;
    PrunedKeepsRecent(history, hits, before - rule.windowSeconds as real, cutoff);
    PrunedCounts(history, Pruned(hits, cutoff), now, cutoff);
  }

  /** At most `maxAttempts` of the hits lie in any window. */
  ghost predicate Bounded(history: seq<real>, rule: Rule) {
    forall t: real :: InWindow(history, rule, t) <= Max(rule.maxAttempts, 0)
  }

  lemma RecordingKeepsBound(history: seq<real>, rule: Rule, now: real)
    requires Bounded(history, rule) && forall i :: 0 <= i < |history| ==> history[i] <= now
    ensures Bounded(Recorded(history, rule, now), rule)
  {
    var w := rule.windowSeconds as real;
    if Admits(history, rule, now) {
      forall t: real ensures InWindow(history + [now], rule, t) <= Max(rule.maxAttempts, 0) {
        assert (history + [now])[..|history|] == history;
        assert InWindow(history, rule, t) <= Max(rule.maxAttempts, 0);
        if t - w < now <= t {
          CountAtMost(history, t - w, t, now - w, now);
        }
      }
    }
  }

  lemma LaterIsTidy(history: seq<real>, hits: seq<real>, cutoff: real, now: real, cutoff': real, now': real)
    requires Tidy(history, hits, cutoff, now) && cutoff <= cutoff' && now <= now'
    ensures Tidy(history, hits, cutoff', now')
  {
  }

  function At(m: map<string, seq<real>>, b: string): seq<real> {
    if b in m then m[b] else []
  }

  /** The deque of a bucket is what pruning has left of its history. */
  ghost predicate BucketOk(history: map<string, seq<real>>, hits: map<string, seq<real>>, clock: real, b: string,
                           r: Rule) {
    && Tidy(At(history, b), At(hits, b), clock - r.windowSeconds as real, clock)
    && Bounded(At(history, b), r)
  }

  ghost predicate AllOk(rules: set<Rule>, history: map<string, seq<real>>, hits: map<string, seq<real>>, clock: real) {
    forall r, k :: r in rules ==> BucketOk(history, hits, clock, BucketKey(r, k), r)
  }

  lemma LaterIsOk(history: map<string, seq<real>>, hits: map<string, seq<real>>, clock: real, now: real, b: string,
                  r: Rule)
    requires BucketOk(history, hits, clock, b, r) && clock <= now
    ensures BucketOk(history, hits, now, b, r)
  {
    var w := r.windowSeconds as real;
    LaterIsTidy(At(history, b), At(hits, b), clock - w, clock, now - w, now);
  }

  /** Writing back one bucket leaves the others in order at the later time. */
  lemma StoringKeepsOk(rules: set<Rule>, history: map<string, seq<real>>, hits: map<string, seq<real>>, clock: real,
                       rule: Rule, key: string, queue: seq<real>, recorded: seq<real>, now: real)
    requires Separate(rules) && AllOk(rules, history, hits, clock) && rule in rules && clock <= now
    requires Tidy(recorded, queue, now - rule.windowSeconds as real, now) && Bounded(recorded, rule)
    ensures var bucket := BucketKey(rule, key);
      AllOk(rules, history[bucket := recorded], hits[bucket := queue], now)
  {
    var bucket := BucketKey(rule, key);
    var history', hits' := history[bucket := recorded], hits[bucket := queue];
    forall r, k | r in rules ensures BucketOk(history', hits', now, BucketKey(r, k), r) {
      var b := BucketKey(r, k);
      if b == bucket {
        BucketsAreSeparate(rules, r, k, rule, key);
      } else {
        LaterIsOk(history, hits, clock, now, b, r);
        assert At(history', b) == At(history, b) && At(hits', b) == At(hits, b);
      }
    }
  }

  class InMemoryRateLimiter {
    var hits: map<string, seq<real>>
    ghost var history: map<string, seq<real>>  // every accepted hit of a bucket
    ghost var clock: real                      // the time of the last check
    ghost const rules: set<Rule>

    ghost function HistoryOf(bucket: string): seq<real>
      reads this
    {
      At(history, bucket)
    }

    ghost function HitsOf(bucket: string): seq<real>
      reads this
    {
      At(hits, bucket)
    }

    ghost predicate Valid()
      reads this
    {
      Separate(rules) && AllOk(rules, history, hits, clock)
    }

    constructor (ghost rules: set<Rule>)
      requires Separate(rules)
      ensures Valid() && this.rules == rules && history == map[]
    {
      hits, history := map[], map[];
      this.rules := rules;
      clock := 0.0;
    }

    /**
     One check at time `now`. The pruned deque decides exactly as the limiter that keeps everything
     would: it rejects if and only if the last window already holds `maxAttempts` accepted hits.
     */
    method Check(key: string, rule: Rule, now: real) returns (accepted: bool)
      requires Valid() && rule in rules && clock <= now
      modifies this
      ensures Valid() && clock == now
      ensures accepted <==> Admits(old(HistoryOf(BucketKey(rule, key))), rule, now)
      ensures history == old(history)[BucketKey(rule, key) := Recorded(old(HistoryOf(BucketKey(rule, key))), rule, now)]
      ensures hits == old(hits)[BucketKey(rule, key) :=
        Pruned(old(HitsOf(BucketKey(rule, key))), now - rule.windowSeconds as real) + if accepted then [now] else []]
    {
      var bucket := BucketKey(rule, key);
      ghost var was := HistoryOf(bucket);
      var queue := if bucket in hits then hits[bucket] else [];
      var cutoff := now - rule.windowSeconds as real;
      ghost var before := queue;
      assert BucketOk(history, hits, clock, bucket, rule);
      PruningDecides(was, before, rule, clock, now);
      while |queue| > 0 && queue[0] <= cutoff
        invariant Pruned(queue, cutoff) == Pruned(before, cutoff)
      {
        queue := queue[1..];
      }
      if |queue| >= rule.maxAttempts {
        Store(bucket, rule, key, queue, was, now);
        assert queue + [] == queue;
        return false;
      }
      AppendIsTidy(was, queue, cutoff, now);
      RecordingKeepsBound(was, rule, now);
      Store(bucket, rule, key, queue + [now], was + [now], now);
      return true;
    }

    method Store(bucket: string, ghost rule: Rule, ghost key: string, queue: seq<real>, ghost recorded: seq<real>,
                 ghost now: real)
      requires Valid() && rule in rules && bucket == BucketKey(rule, key) && clock <= now
      requires Tidy(recorded, queue, now - rule.windowSeconds as real, now) && Bounded(recorded, rule)
      modifies this
      ensures Valid() && clock == now
      ensures history == old(history)[bucket := recorded] && hits == old(hits)[bucket := queue]
    {
      StoringKeepsOk(rules, history, hits, clock, rule, key, queue, recorded, now);
      hits := hits[bucket := queue];
      history := history[bucket := recorded];
      clock := now;
    }
  }

  /** The accepted hits of a run of checks of one bucket. */
  function Accepted(rule: Rule, times: seq<real>): seq<real> {
    if times == [] then [] else Recorded(Accepted(rule, times[..|times| - 1]), rule, times[|times| - 1])
  }

  lemma {:induction false} AcceptedIsMonotone(rule: Rule, times: seq<real>)
    requires Monotone(times)
    ensures Monotone(Accepted(rule, times))
    ensures forall i :: 0 <= i < |Accepted(rule, times)| ==> Accepted(rule, times)[i] <= times[|times| - 1]
  {
    if times != [] {
      AcceptedIsMonotone(rule, times[..|times| - 1]);
    }
  }

  /** In every run of checks of a bucket and for every window, at most `maxAttempts` hits are accepted. */
  lemma {:induction false} SlidingWindowBound(rule: Rule, times: seq<real>)
    requires Monotone(times)
    ensures Bounded(Accepted(rule, times), rule)
  {
    if times != [] {
      var init := times[..|times| - 1];
      SlidingWindowBound(rule, init);
      AcceptedIsMonotone(rule, init);
      RecordingKeepsBound(Accepted(rule, init), rule, times[|times| - 1]);
    }
  }

  // ---- The fixed window in Redis ----

  /** A stored counter; Redis drops it when its time is up. */
  datatype Counter = Counter(count: int, expiresAt: real)

  /** A check at a time; at the very deadline Redis may or may not have dropped the counter. */
  datatype Hit = Hit(at: real, dropsAtDeadline: bool)

  function Stored(c: Option<Counter>, hit: Hit): Option<Counter> {
    if c.Some? && (hit.at < c.value.expiresAt || (hit.at == c.value.expiresAt && !hit.dropsAtDeadline)) then c else None
  }

  /** `INCR` and then `EXPIRE NX`: the deadline is set by the first hit only. */
  function Counted(c: Option<Counter>, rule: Rule, hit: Hit): Counter {
    match Stored(c, hit)
    case None => Counter(1, hit.at + rule.windowSeconds as real)
    case Some(k) => Counter(k.count + 1, k.expiresAt)
  }

  class RedisRateLimiter {
    var store: map<string, Counter>

    constructor ()
      ensures store == map[]
    {
      store := map[];
    }

    function CounterOf(bucket: string): Option<Counter>
      reads this
    {
      if bucket in store then Some(store[bucket]) else None
    }

    method Check(key: string, rule: Rule, hit: Hit) returns (accepted: bool)
      modifies this
      ensures store == old(store)["rate-limit:" + BucketKey(rule, key)
                                  := Counted(old(CounterOf("rate-limit:" + BucketKey(rule, key))), rule, hit)]
      ensures accepted <==> store["rate-limit:" + BucketKey(rule, key)].count <= rule.maxAttempts
    {
      var bucket := "rate-limit:" + BucketKey(rule, key);
      var current := Stored(CounterOf(bucket), hit);
      var count, deadline: Option<real> := 0, None;
      if current.Some? {
        count, deadline := current.value.count, Some(current.value.expiresAt);
      }
      count := count + 1;
      if deadline.None? {
        deadline := Some(hit.at + rule.windowSeconds as real);
      }
      store := store[bucket := Counter(count, deadline.value)];
      accepted := !(count > rule.maxAttempts);
    }
  }

  function CounterAfter(rule: Rule, run: seq<Hit>): Option<Counter> {
    if run == [] then None else Some(Counted(CounterAfter(rule, run[..|run| - 1]), rule, run[|run| - 1]))
  }

  /** The times of the accepted hits of a run of checks of one bucket. */
  function AcceptedHits(rule: Rule, run: seq<Hit>): seq<real> {
    if run == [] then [] else
      AcceptedHits(rule, run[..|run| - 1])
        + if CounterAfter(rule, run).value.count <= rule.maxAttempts then [run[|run| - 1].at] else []
  }

  predicate MonotoneRun(run: seq<Hit>) {
    forall i, j :: 0 <= i <= j < |run| ==> run[i].at <= run[j].at
  }

  /** The accepted hits by counter lifetime: the current one, the one before, and all earlier ones. */
  datatype Lifetimes = Lifetimes(older: seq<real>, prior: seq<real>, priorStart: real, current: seq<real>, start: real)

  function Total(l: Lifetimes): seq<real> {
    l.older + l.prior + l.current
  }

  ghost predicate Shaped(l: Lifetimes, rule: Rule, count: int, now: real) {
    var w := rule.windowSeconds as real;
    && l.priorStart + w <= l.start <= now
    && (forall i :: 0 <= i < |l.older| ==> l.older[i] <= l.priorStart)
    && (forall i :: 0 <= i < |l.prior| ==> l.priorStart <= l.prior[i] <= l.start)
    && (l.prior != [] ==> l.prior[0] == l.priorStart)
    && |l.prior| <= Max(rule.maxAttempts, 0)
    && (forall i :: 0 <= i < |l.current| ==> l.start <= l.current[i] <= now && l.current[i] <= l.start + w)
    && (l.current != [] ==> l.current[0] == l.start)
    && count >= 1
    && |l.current| == Max(Min(count, rule.maxAttempts), 0)
  }

  /** Hits of two lifetimes can meet in a window, but then the first hit of the earlier one is outside. */
  ghost predicate FixedBounded(times: seq<real>, rule: Rule) {
    forall t: real :: InWindow(times, rule, t) <= Max(2 * rule.maxAttempts - 1, 0)
  }

  lemma {:induction false} CountAtMostLength(a: seq<real>, from: real, to: real)
    ensures CountIn(a, from, to) <= |a|
  {
    if a != [] {
      CountAtMostLength(a[..|a| - 1], from, to);
    }
  }

  lemma WithoutFirst(a: seq<real>, from: real, to: real)
    requires a != [] && a[0] <= from
    ensures CountIn(a, from, to) <= |a| - 1
  {
    assert a == a[..1] + a[1..];
    CountSplit(a[..1], a[1..], from, to);
    CountNone(a[..1], from, to);
    CountAtMostLength(a[1..], from, to);
  }

  lemma LatestWindow(l: Lifetimes, rule: Rule, count: int, now: real, t: real)
    requires Shaped(l, rule, count, now) && t >= l.start
    ensures InWindow(Total(l), rule, t) <= Max(2 * rule.maxAttempts - 1, 0)
  {
    var from := t - rule.windowSeconds as real;
    CountSplit(l.older + l.prior, l.current, from, t);
    CountSplit(l.older, l.prior, from, t);
    CountNone(l.older, from, t);
    if l.prior != [] {
      WithoutFirst(l.prior, from, t);
    }
    CountAtMostLength(l.current, from, t);
  }

  lemma EarlierWindow(l: Lifetimes, rule: Rule, count: int, now: real, t: real)
    requires Shaped(l, rule, count, now) && t < l.start && FixedBounded(l.older + l.prior, rule)
    ensures InWindow(Total(l), rule, t) <= Max(2 * rule.maxAttempts - 1, 0)
  {
    var from := t - rule.windowSeconds as real;
    CountSplit(l.older + l.prior, l.current, from, t);
    CountNone(l.current, from, t);
    assert InWindow(l.older + l.prior, rule, t) <= Max(2 * rule.maxAttempts - 1, 0);
  }

  lemma ShapedIsBounded(l: Lifetimes, rule: Rule, count: int, now: real)
    requires Shaped(l, rule, count, now) && FixedBounded(l.older + l.prior, rule)
    ensures FixedBounded(Total(l), rule)
  {
    forall t: real ensures InWindow(Total(l), rule, t) <= Max(2 * rule.maxAttempts - 1, 0) {
      if t >= l.start {
        LatestWindow(l, rule, count, now, t);
      } else {
        EarlierWindow(l, rule, count, now, t);
      }
    }
  }

  /** The lifetimes after one more hit, which was accepted if the count allowed it. */
  function Advanced(l: Lifetimes, rule: Rule, renewed: bool, accepted: bool, now: real): Lifetimes {
    var hit := if accepted then [now] else [];
    if renewed then Lifetimes(l.older + l.prior, l.current, l.start, hit, now)
    else l.(current := l.current + hit)
  }

  lemma RenewedIsShaped(l: Lifetimes, rule: Rule, count: int, was: real, now: real)
    requires rule.windowSeconds >= 0 && was <= now && l.start + rule.windowSeconds as real <= now
    requires Shaped(l, rule, count, was)
    ensures var a := Advanced(l, rule, true, 1 <= rule.maxAttempts, now);
      Shaped(a, rule, 1, now) && a.older + a.prior == Total(l)
  {
    var a := Advanced(l, rule, true, 1 <= rule.maxAttempts, now);
    forall i | 0 <= i < |a.older| ensures a.older[i] <= a.priorStart {
      if i >= |l.older| {
        assert a.older[i] == l.prior[i - |l.older|];
      }
    }
  }

  lemma ContinuedIsShaped(l: Lifetimes, rule: Rule, count: int, was: real, now: real)
    requires was <= now <= l.start + rule.windowSeconds as real
    requires Shaped(l, rule, count, was)
    ensures var a := Advanced(l, rule, false, count + 1 <= rule.maxAttempts, now);
      Shaped(a, rule, count + 1, now) && a.older + a.prior == l.older + l.prior
  {
  }

  lemma TotalAdvanced(l: Lifetimes, rule: Rule, renewed: bool, accepted: bool, now: real)
    ensures Total(Advanced(l, rule, renewed, accepted, now)) == Total(l) + if accepted then [now] else []
  {
  }

  lemma AdvancedIsShaped(l: Lifetimes, rule: Rule, c: Counter, was: real, hit: Hit)
    requires rule.windowSeconds >= 0 && was <= hit.at
    requires Shaped(l, rule, c.count, was) && c.expiresAt == l.start + rule.windowSeconds as real
    ensures var k := Counted(Some(c), rule, hit);
      var a := Advanced(l, rule, Stored(Some(c), hit).None?, k.count <= rule.maxAttempts, hit.at);
      && Shaped(a, rule, k.count, hit.at) && k.expiresAt == a.start + rule.windowSeconds as real
      && a.older + a.prior == (if Stored(Some(c), hit).None? then Total(l) else l.older + l.prior)
  {
    if Stored(Some(c), hit).None? {
      RenewedIsShaped(l, rule, c.count, was, hit.at);
    } else {
      ContinuedIsShaped(l, rule, c.count, was, hit.at);
    }
  }

  lemma {:induction false} RunHasLifetimes(rule: Rule, run: seq<Hit>) returns (l: Lifetimes)
    requires run != [] && MonotoneRun(run) && rule.windowSeconds >= 0
    ensures var c := CounterAfter(rule, run).value;
      Shaped(l, rule, c.count, run[|run| - 1].at) && c.expiresAt == l.start + rule.windowSeconds as real
    ensures Total(l) == AcceptedHits(rule, run)
    ensures FixedBounded(l.older + l.prior, rule)
  {
    var hit := run[|run| - 1];
    var init := run[..|run| - 1];
    var accepted := CounterAfter(rule, run).value.count <= rule.maxAttempts;
    if init == [] {
      l := Lifetimes([], [], hit.at - rule.windowSeconds as real, if accepted then [hit.at] else [], hit.at);
      assert l.older + l.prior == [];
    } else {
      var was := RunHasLifetimes(rule, init);
      var c := CounterAfter(rule, init).value;
      AdvancedIsShaped(was, rule, c, init[|init| - 1].at, hit);
      TotalAdvanced(was, rule, Stored(Some(c), hit).None?, accepted, hit.at);
      ShapedIsBounded(was, rule, c.count, init[|init| - 1].at);
      l := Advanced(was, rule, Stored(Some(c), hit).None?, accepted, hit.at);
    }
  }

  /**
   In every run and for every window the Redis limiter accepts fewer than twice `maxAttempts` hits,
   rejected hits being counted too.
   */
  lemma FixedWindowBound(rule: Rule, run: seq<Hit>)
    requires MonotoneRun(run) && rule.windowSeconds >= 0
    ensures FixedBounded(AcceptedHits(rule, run), rule)
  {
    if run != [] {
      var l := RunHasLifetimes(rule, run);
      ShapedIsBounded(l, rule, CounterAfter(rule, run).value.count, run[|run| - 1].at);
    }
  }

  // ---- The bound is sharp ----

  function Repeat<T>(x: T, n: nat): (s: seq<T>)
    ensures |s| == n && forall i :: 0 <= i < n ==> s[i] == x
  {
    if n == 0 then [] else Repeat(x, n - 1) + [x]
  }

  lemma HitSnoc(rule: Rule, run: seq<Hit>, hit: Hit)
    ensures var k := Counted(CounterAfter(rule, run), rule, hit);
      && CounterAfter(rule, run + [hit]) == Some(k)
      && AcceptedHits(rule, run + [hit])
           == AcceptedHits(rule, run) + if k.count <= rule.maxAttempts then [hit.at] else []
  {
    assert (run + [hit])[..|run|] == run;
  }

  /** While the counter lives and has room, every hit of a burst is accepted. */
  lemma {:induction false} BurstIsAccepted(rule: Rule, run: seq<Hit>, hit: Hit, k: nat, c: Counter)
    requires CounterAfter(rule, run) == Some(c) && hit.at < c.expiresAt && c.count + k <= rule.maxAttempts
    ensures var all := run + Repeat(hit, k);
      && CounterAfter(rule, all) == Some(Counter(c.count + k, c.expiresAt))
      && AcceptedHits(rule, all) == AcceptedHits(rule, run) + Repeat(hit.at, k)
  {
    RepeatGrows(run, hit, k);
    RepeatGrows(AcceptedHits(rule, run), hit.at, k);
    if k > 0 {
      BurstIsAccepted(rule, run, hit, k - 1, c);
      HitSnoc(rule, run + Repeat(hit, k - 1), hit);
    }
  }

  lemma RepeatGrows<T>(s: seq<T>, x: T, k: nat)
    ensures s + Repeat(x, k) == if k == 0 then s else (s + Repeat(x, k - 1)) + [x]
  {
  }

  /** A new counter takes a full burst. */
  lemma FreshBurst(rule: Rule, run: seq<Hit>, hit: Hit, later: Hit, k: nat)
    requires Stored(CounterAfter(rule, run), hit).None? && 1 + k <= rule.maxAttempts
    requires later.at < hit.at + rule.windowSeconds as real
    ensures var all := run + [hit] + Repeat(later, k);
      && CounterAfter(rule, all) == Some(Counter(1 + k, hit.at + rule.windowSeconds as real))
      && AcceptedHits(rule, all) == AcceptedHits(rule, run) + [hit.at] + Repeat(later.at, k)
  {
    HitSnoc(rule, run, hit);
    BurstIsAccepted(rule, run + [hit], later, k, Counter(1, hit.at + rule.windowSeconds as real));
  }

  /** A hit, a burst late in its window, and a burst just after the counter has expired. */
  function TwoBursts(rule: Rule): seq<Hit>
    requires rule.maxAttempts >= 1
  {
    var k, w := rule.maxAttempts - 1, rule.windowSeconds as real;
    var early, late, next := Hit(0.0, true), Hit(w * 0.75, true), Hit(w * 1.5, true);
    [] + [early] + Repeat(late, k) + [next] + Repeat(next, k)
  }

  lemma BothBurstsPass(rule: Rule)
    requires rule.maxAttempts >= 1 && rule.windowSeconds >= 1
    ensures var k, w := rule.maxAttempts - 1, rule.windowSeconds as real;
      AcceptedHits(rule, TwoBursts(rule))
        == [] + [0.0] + Repeat(w * 0.75, k) + [w * 1.5] + Repeat(w * 1.5, k)
  {
    var k, w := rule.maxAttempts - 1, rule.windowSeconds as real;
    var early, late, next := Hit(0.0, true), Hit(w * 0.75, true), Hit(w * 1.5, true);
    FreshBurst(rule, [], early, late, k);
    FreshBurst(rule, [] + [early] + Repeat(late, k), next, next, k);
  }

  /** For every rule some run puts 2 * `maxAttempts` - 1 accepted hits into one window. */
  lemma FixedWindowIsSharp(rule: Rule) returns (run: seq<Hit>, t: real)
    requires rule.maxAttempts >= 1 && rule.windowSeconds >= 1
    ensures MonotoneRun(run)
    ensures InWindow(AcceptedHits(rule, run), rule, t) == 2 * rule.maxAttempts - 1
  {
    run, t := TwoBursts(rule), rule.windowSeconds as real * 1.5;
    BothBurstsPass(rule);
    SharpCount(rule, AcceptedHits(rule, run), rule.windowSeconds as real * 0.75, t, rule.maxAttempts - 1);
  }

  lemma SharpCount(rule: Rule, times: seq<real>, late: real, t: real, k: nat)
    requires times == [] + [0.0] + Repeat(late, k) + [t] + Repeat(t, k)
    requires 0.0 <= t - rule.windowSeconds as real < late <= t && rule.windowSeconds >= 1
    ensures InWindow(times, rule, t) == 2 * k + 1
  {
    var recent := Repeat(late, k) + [t] + Repeat(t, k);
    assert times == [0.0] + recent;
    CountRecent([0.0], recent, t - rule.windowSeconds as real, t);
  }

  // ---- What is accepted ----

  function Recent(times: seq<real>, from: real, to: real): set<nat> {
    set i: nat | i < |times| && from < times[i] <= to
  }

  lemma {:induction false} CountIsRecent(times: seq<real>, from: real, to: real)
    ensures CountIn(times, from, to) == |Recent(times, from, to)|
  {
    if times == [] {
      assert Recent(times, from, to) == {};
    } else {
      var n := |times| - 1;
      CountIsRecent(times[..n], from, to);
      assert Recent(times, from, to) == Recent(times[..n], from, to) + if from < times[n] <= to then {n} else {};
    }
  }

  /** The next hit of a bucket is accepted if and only if fewer than `maxAttempts` were accepted in the window. */
  lemma HitAcceptedIff(rule: Rule, times: seq<real>, now: real)
    ensures var before := Accepted(rule, times); var after := Accepted(rule, times + [now]);
      var accepted := |Recent(before, now - rule.windowSeconds as real, now)| < rule.maxAttempts;
      after == if accepted then before + [now] else before
  {
    assert (times + [now])[..|times|] == times;
    CountIsRecent(Accepted(rule, times), now - rule.windowSeconds as real, now);
  }
}
