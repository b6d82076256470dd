/**
 The in-process connection registries: chat sockets, one list per chat, and inbox sockets, one per
 user. A socket is named by a number. Which sends fail is a parameter, every attempt is recorded in
 `log`, and connecting is one step.
 */
module WsManager {
  import opened Common
  import opened Orders

  datatype Conn = Conn(socket: int, user: int)

  datatype Attempt = Attempt(socket: int, message: string, ok: bool)

  /** Everything the two managers change, as a value. */
  datatype Hub = Hub(
    active: map<int, seq<Conn>>,
    connections: int,
    connects: int,
    disconnects: int,
    sendErrors: int,
    closed: seq<int>,
    log: seq<Attempt>)

  datatype Inbox = Inbox(
    sockets: map<int, int>,
    connections: int,
    connects: int,
    disconnects: int,
    sendErrors: int,
    closed: seq<int>,
    log: seq<Attempt>)

  function Of(active: map<int, seq<Conn>>, c: int): seq<Conn> {
    if c in active then active[c] else []
  }

  /** The connections of `s` whose socket is not in `dead`, in their order. */
  function Without(s: seq<Conn>, dead: set<int>): seq<Conn> {
    if s == [] then [] else
      Without(s[..|s| - 1], dead) + if s[|s| - 1].socket in dead then [] else [s[|s| - 1]]
  }

  function Total(active: map<int, seq<Conn>>): nat
    decreases |active|
  {
    if active == map[] then 0 else
      var c := Smallest(active.Keys);
      |active[c]| + Total(active - {c})
  }

  // --- The two operations on a chat's connections, as values ---

  function Pruned(active: map<int, seq<Conn>>, c: int, socket: int): map<int, seq<Conn>> {
    var rest := Without(Of(active, c), {socket});
    if rest == [] then active - {c} else active[c := rest]
  }

  function Disconnected(h: Hub, c: int, socket: int): Hub {
    if Of(h.active, c) == [] then h else
      var active := Pruned(h.active, c, socket);
      h.(active := active, disconnects := h.disconnects + 1, connections := Total(active))
  }

  function Evicted(h: Hub, c: int, conns: seq<Conn>, socket: int, user: int): Hub {
    if conns == [] then h else
      var g := Evicted(h, c, conns[..|conns| - 1], socket, user);
      var p := conns[|conns| - 1];
      if p.user == user && p.socket != socket
      then var d := Disconnected(g, c, p.socket); d.(closed := d.closed + [p.socket])
      else g
  }

  function Connected(h: Hub, c: int, socket: int, user: int): Hub {
    var g := Evicted(h, c, Of(h.active, c), socket, user);
    var active := g.active[c := Of(g.active, c) + [Conn(socket, user)]];
    g.(active := active, connects := g.connects + 1, connections := Total(active))
  }

  function SendSafe(h: Hub, c: int, socket: int, message: string, failing: set<int>): Hub {
    var g := h.(log := h.log + [Attempt(socket, message, socket !in failing)]);
    if socket in failing then Disconnected(g.(sendErrors := g.sendErrors + 1), c, socket) else g
  }

  /** A broadcast to the snapshot `conns`, but not to `exclude`. */
  function Sent(h: Hub, c: int, conns: seq<Conn>, exclude: Option<int>, build: int -> string, failing: set<int>): Hub {
    if conns == [] then h else
      var g := Sent(h, c, conns[..|conns| - 1], exclude, build, failing);
      var p := conns[|conns| - 1];
      if Some(p.user) == exclude then g else SendSafe(g, c, p.socket, build(p.user), failing)
  }

  class RealtimeStats {
    var chatConnections: int
    var inboxConnections: int
    var chatConnectTotal: int
    var inboxConnectTotal: int
    var chatDisconnectTotal: int
    var inboxDisconnectTotal: int
    var sendErrorTotal: int

    constructor ()
      ensures chatConnections == 0 && inboxConnections == 0 && chatConnectTotal == 0 && inboxConnectTotal == 0
      ensures chatDisconnectTotal == 0 && inboxDisconnectTotal == 0 && sendErrorTotal == 0
    {
      chatConnections, inboxConnections, chatConnectTotal, inboxConnectTotal := 0, 0, 0, 0;
      chatDisconnectTotal, inboxDisconnectTotal, sendErrorTotal := 0, 0, 0;
    }
  }

  class ConnectionManager {
    const stats: RealtimeStats
    var activeConnections: map<int, seq<Conn>>
    var closed: seq<int>
    var log: seq<Attempt>

    constructor (stats: RealtimeStats)
      ensures this.stats == stats && activeConnections == map[] && closed == [] && log == []
    {
      this.stats := stats;
      activeConnections := map[];
      closed := [];
      log := [];
    }

    function State(): Hub
      reads this, stats
    {
      Hub(activeConnections, stats.chatConnections, stats.chatConnectTotal, stats.chatDisconnectTotal,
          stats.sendErrorTotal, closed, log)
    }

    method Connect(c: int, socket: int, user: int)
      modifies this, stats`chatConnections, stats`chatConnectTotal, stats`chatDisconnectTotal
      ensures State() == Connected(old(State()), c, socket, user)
    {
      var conns := Of(activeConnections, c);
      for i := 0 to |conns|
        invariant State() == Evicted(old(State()), c, conns[..i], socket, user)
      {
        assert conns[..i + 1][..i] == conns[..i];
        if conns[i].user == user && conns[i].socket != socket {
          Disconnect(c, conns[i].socket);
          closed := closed + [conns[i].socket];
        }
      }
      assert conns[..|conns|] == conns;
      activeConnections := activeConnections[c := Of(activeConnections, c) + [Conn(socket, user)]];
      stats.chatConnectTotal := stats.chatConnectTotal + 1;
      stats.chatConnections := Total(activeConnections);
    }

    method Disconnect(c: int, socket: int)
      modifies this`activeConnections, stats`chatConnections, stats`chatDisconnectTotal
      ensures State() == Disconnected(old(State()), c, socket)
    {
      if Of(activeConnections, c) == [] {
        return;
      }
      var rest := Without(activeConnections[c], {socket});
      activeConnections := activeConnections[c := rest];
      if rest == [] {
        activeConnections := activeConnections - {c};
      }
      assert activeConnections == Pruned(old(activeConnections), c, socket);
      stats.chatDisconnectTotal := stats.chatDisconnectTotal + 1;
      stats.chatConnections := Total(activeConnections);
    }

    method SendJsonSafe(c: int, socket: int, message: string, failing: set<int>)
      modifies this, stats`chatConnections, stats`chatDisconnectTotal, stats`sendErrorTotal
      ensures State() == SendSafe(old(State()), c, socket, message, failing)
    {
      log := log + [Attempt(socket, message, socket !in failing)];
      if socket in failing {
        stats.sendErrorTotal := stats.sendErrorTotal + 1;
        Disconnect(c, socket);
      }
    }

    method Broadcast(c: int, message: string, failing: set<int>)
      modifies this, stats`chatConnections, stats`chatDisconnectTotal, stats`sendErrorTotal
      ensures State() == Sent(old(State()), c, old(Of(activeConnections, c)), None, _ => message, failing)
    {
      var conns := Of(activeConnections, c);
      ghost var build: int -> string := _ => message;
      for i := 0 to |conns|
        invariant State() == Sent(old(State()), c, conns[..i], None, build, failing)
      {
        assert conns[..i + 1][..i] == conns[..i];
        SendJsonSafe(c, conns[i].socket, message, failing);
      }
      assert conns[..|conns|] == conns;
      SentSame(old(State()), c, conns, None, build, _ => message, failing);
    }

    method BroadcastPersonalized(c: int, build: int -> string, failing: set<int>)
      modifies this, stats`chatConnections, stats`chatDisconnectTotal, stats`sendErrorTotal
      ensures State() == Sent(old(State()), c, old(Of(activeConnections, c)), None, build, failing)
    {
      var conns := Of(activeConnections, c);
      for i := 0 to |conns|
        invariant State() == Sent(old(State()), c, conns[..i], None, build, failing)
      {
        assert conns[..i + 1][..i] == conns[..i];
        var message := build(conns[i].user);
        SendJsonSafe(c, conns[i].socket, message, failing);
      }
      assert conns[..|conns|] == conns;
    }

    method BroadcastToOthers(c: int, message: string, excludeUser: int, failing: set<int>)
      modifies this, stats`chatConnections, stats`chatDisconnectTotal, stats`sendErrorTotal
      ensures State() == Sent(old(State()), c, old(Of(activeConnections, c)), Some(excludeUser), _ => message, failing)
    {
      var conns := Of(activeConnections, c);
      ghost var build: int -> string := _ => message;
      for i := 0 to |conns|
        invariant State() == Sent(old(State()), c, conns[..i], Some(excludeUser), build, failing)
      {
        assert conns[..i + 1][..i] == conns[..i];
        if conns[i].user == excludeUser {
          continue;
        }
        SendJsonSafe(c, conns[i].socket, message, failing);
      }
      assert conns[..|conns|] == conns;
      SentSame(old(State()), c, conns, Some(excludeUser), build, _ => message, failing);
    }
  }

  lemma {:induction false} SentSame(h: Hub, c: int, conns: seq<Conn>, exclude: Option<int>,
                                    f: int -> string, g: int -> string, failing: set<int>)
    requires forall u :: f(u) == g(u)
    ensures Sent(h, c, conns, exclude, f, failing) == Sent(h, c, conns, exclude, g, failing)
  {
    if conns != [] {
      SentSame(h, c, conns[..|conns| - 1], exclude, f, g, failing);
    }
  }

  // --- Filtering and counting ---

  lemma {:induction false} WithoutKeeps(s: seq<Conn>, dead: set<int>, p: Conn)
    ensures p in Without(s, dead) <==> p in s && p.socket !in dead
  {
    if s != [] {
      WithoutKeeps(s[..|s| - 1], dead, p);
      assert s == s[..|s| - 1] + [s[|s| - 1]];
    }
  }

  lemma {:induction false} WithoutTwice(s: seq<Conn>, a: set<int>, b: set<int>)
    ensures Without(Without(s, a), b) == Without(s, a + b)
  {
    if s != [] {
      var init, last := s[..|s| - 1], s[|s| - 1];
      WithoutTwice(init, a, b);
      var kept := Without(init, a);
      if last.socket !in a {
        assert (kept + [last])[..|kept|] == kept;
      } else {
        assert kept + [] == kept;
      }
    }
  }

  lemma {:induction false} WithoutNone(s: seq<Conn>, dead: set<int>)
    requires forall p :: p in s ==> p.socket !in dead
    ensures Without(s, dead) == s
  {
    if s != [] {
      WithoutNone(s[..|s| - 1], dead);
      assert s == s[..|s| - 1] + [s[|s| - 1]];
    }
  }

  lemma {:induction false} TotalSplits(active: map<int, seq<Conn>>, c: int)
    requires c in active
    ensures Total(active) == |active[c]| + Total(active - {c})
    decreases |active|
  {
    var d := Smallest(active.Keys);
    if d != c {
      TotalSplits(active - {d}, c);
      assert d in active - {c};
      assert Smallest((active - {c}).Keys) == d;
      assert active - {d} - {c} == active - {c} - {d};
    }
  }

  /** The counter of open connections moves with the one list that changed. */
  lemma TotalMoves(active: map<int, seq<Conn>>, c: int, conns: seq<Conn>)
    ensures Total(active[c := conns]) == Total(active) - |Of(active, c)| + |conns|
    ensures Total(active - {c}) == Total(active) - |Of(active, c)|
  {
    TotalSplits(active[c := conns], c);
    if c in active {
      TotalSplits(active, c);
    } else {
      assert active - {c} == active;
    }
    assert active[c := conns] - {c} == active - {c};
  }

  // --- What the operations mean ---

  ghost predicate DistinctUsers(s: seq<Conn>) {
    forall i, j :: 0 <= i < j < |s| ==> s[i].user != s[j].user
  }

  ghost predicate DistinctSockets(s: seq<Conn>) {
    forall i, j :: 0 <= i < j < |s| ==> s[i].socket != s[j].socket
  }

  ghost predicate Listed(h: Hub, c: int, socket: int) {
    exists p :: p in Of(h.active, c) && p.socket == socket
  }

  /** No chat has an empty entry and the counter is the sum of the list lengths. */
  ghost predicate Tidy(h: Hub) {
    (forall c :: c in h.active ==> h.active[c] != []) && h.connections == Total(h.active)
  }

  /** Moreover a chat holds at most one socket per user, and no socket twice. */
  ghost predicate Valid(h: Hub) {
    Tidy(h) && forall c :: DistinctUsers(Of(h.active, c)) && DistinctSockets(Of(h.active, c))
  }

  lemma {:induction false} WithoutDistinct(s: seq<Conn>, dead: set<int>)
    requires DistinctUsers(s) && DistinctSockets(s)
    ensures DistinctUsers(Without(s, dead)) && DistinctSockets(Without(s, dead))
  {
    if s != [] {
      var init, last := s[..|s| - 1], s[|s| - 1];
      WithoutDistinct(init, dead);
      var kept := Without(init, dead);
      forall i | 0 <= i < |kept| ensures kept[i].user != last.user && kept[i].socket != last.socket {
        WithoutKeeps(init, dead, kept[i]);
        var j :| 0 <= j < |init| && init[j] == kept[i];
        assert s[j] == kept[i];
      }
    }
  }

  /** Exactly the sockets of `dead` have left chat `c`, in place; nothing else has moved. */
  ghost predicate Lost(h: Hub, t: Hub, c: int, dead: set<int>) {
    && Of(t.active, c) == Without(Of(h.active, c), dead)
    && (forall d :: d != c ==> Of(t.active, d) == Of(h.active, d))
    && (Tidy(h) ==> Tidy(t))
  }

  lemma LostNothing(h: Hub, c: int)
    ensures Lost(h, h, c, {})
  {
    WithoutNone(Of(h.active, c), {});
  }

  lemma LostMore(h: Hub, g: Hub, t: Hub, c: int, a: set<int>, b: set<int>)
    requires Lost(h, g, c, a) && Lost(g, t, c, b)
    ensures Lost(h, t, c, a + b)
  {
    WithoutTwice(Of(h.active, c), a, b);
  }

  lemma LostValid(h: Hub, t: Hub, c: int, dead: set<int>)
    requires Valid(h) && Lost(h, t, c, dead)
    ensures Valid(t)
  {
    WithoutDistinct(Of(h.active, c), dead);
    forall d ensures DistinctUsers(Of(t.active, d)) && DistinctSockets(Of(t.active, d)) {
      assert d != c ==> Of(t.active, d) == Of(h.active, d);
    }
  }

  lemma DisconnectedLost(h: Hub, c: int, socket: int)
    ensures Lost(h, Disconnected(h, c, socket), c, {socket})
    ensures var conns := Of(h.active, c);
      Tidy(h) ==> Disconnected(h, c, socket).connections == h.connections - |conns| + |Without(conns, {socket})|
  {
    var rest := Without(Of(h.active, c), {socket});
    TotalMoves(h.active, c, rest);
    if Of(h.active, c) == [] {
      LostNothing(h, c);
    }
  }

  function Replaced(conns: seq<Conn>, socket: int, user: int): set<int> {
    set p | p in conns && p.user == user && p.socket != socket :: p.socket
  }

  lemma {:induction false} EvictedLost(h: Hub, c: int, conns: seq<Conn>, socket: int, user: int)
    ensures Lost(h, Evicted(h, c, conns, socket, user), c, Replaced(conns, socket, user))
  {
    if conns == [] {
      LostNothing(h, c);
      assert Replaced(conns, socket, user) == {};
    } else {
      var init, p := conns[..|conns| - 1], conns[|conns| - 1];
      var g := Evicted(h, c, init, socket, user);
      EvictedLost(h, c, init, socket, user);
      assert conns == init + [p];
      if p.user == user && p.socket != socket {
        DisconnectedLost(g, c, p.socket);
        LostMore(h, g, Evicted(h, c, conns, socket, user), c, Replaced(init, socket, user), {p.socket});
        assert Replaced(conns, socket, user) == Replaced(init, socket, user) + {p.socket};
      } else {
        assert Replaced(conns, socket, user) == Replaced(init, socket, user);
      }
    }
  }

  lemma KeptAfterConnect(conns: seq<Conn>, socket: int, user: int, q: Conn)
    requires q in Without(conns, Replaced(conns, socket, user))
    ensures q in conns && (q.user == user ==> q.socket == socket)
  {
    WithoutKeeps(conns, Replaced(conns, socket, user), q);
  }

  /** A list with one entry per user, and one more entry at its end. */
  lemma OneMore(kept: seq<Conn>, p: Conn)
    requires DistinctUsers(kept) && DistinctSockets(kept)
    requires forall q :: q in kept && q.user == p.user ==> q == p
    ensures DistinctUsers(kept + [p]) <==> p !in kept
    ensures (forall q :: q in kept ==> q.socket != p.socket) ==> DistinctSockets(kept + [p])
  {
    var s := kept + [p];
    if p in kept {
      var i :| 0 <= i < |kept| && kept[i] == p;
      assert s[i].user == s[|kept|].user;
    } else {
      forall i, j | 0 <= i < j < |s| ensures s[i].user != s[j].user {
        assert kept[i] in kept;
      }
    }
  }

  lemma ConnectedLists(h: Hub, c: int, socket: int, user: int)
    ensures var t := Connected(h, c, socket, user); var conns := Of(h.active, c);
      && Of(t.active, c) == Without(conns, Replaced(conns, socket, user)) + [Conn(socket, user)]
      && (forall d :: d != c ==> Of(t.active, d) == Of(h.active, d))
      && (Tidy(h) ==> Tidy(t))
  {
    EvictedLost(h, c, Of(h.active, c), socket, user);
  }

  /**
   Connecting takes the user's other sockets out of the chat and puts the new one last. It keeps one
   socket per user if and only if this very socket was not there yet: `connect` spares it.
   */
  lemma ConnectMeans(h: Hub, c: int, socket: int, user: int)
    requires Valid(h)
    ensures var t := Connected(h, c, socket, user); var conns := Of(h.active, c);
      && Of(t.active, c) == Without(conns, Replaced(conns, socket, user)) + [Conn(socket, user)]
      && (forall d :: d != c ==> Of(t.active, d) == Of(h.active, d))
      && Tidy(t)
      && (DistinctUsers(Of(t.active, c)) <==> Conn(socket, user) !in conns)
      && (!Listed(h, c, socket) ==> Valid(t))
  {
    var conns := Of(h.active, c);
    var dead := Replaced(conns, socket, user);
    var kept := Without(conns, dead);
    var p := Conn(socket, user);
    ConnectedLists(h, c, socket, user);
    WithoutDistinct(conns, dead);
    WithoutKeeps(conns, dead, p);
    forall q | q in kept ensures q in conns && (q.user == user ==> q == p) {
      KeptAfterConnect(conns, socket, user, q);
    }
    OneMore(kept, p);
    if !Listed(h, c, socket) {
      assert forall q :: q in kept ==> q.socket != socket;
      assert p !in conns;
      var t := Connected(h, c, socket, user);
      forall d ensures DistinctUsers(Of(t.active, d)) && DistinctSockets(Of(t.active, d)) {
        assert d != c ==> Of(t.active, d) == Of(h.active, d);
      }
    }
  }

  function Failed(conns: seq<Conn>, exclude: Option<int>, failing: set<int>): set<int> {
    set p | p in conns && Some(p.user) != exclude && p.socket in failing :: p.socket
  }

  function Attempts(conns: seq<Conn>, exclude: Option<int>, build: int -> string, failing: set<int>): seq<Attempt> {
    if conns == [] then [] else
      var p := conns[|conns| - 1];
      Attempts(conns[..|conns| - 1], exclude, build, failing)
        + if Some(p.user) == exclude then [] else [Attempt(p.socket, build(p.user), p.socket !in failing)]
  }

  ghost predicate OncePerSocket(log: seq<Attempt>) {
    forall i, j :: 0 <= i < j < |log| ==> log[i].socket != log[j].socket
  }

  function Errors(log: seq<Attempt>): nat {
    if log == [] then 0 else Errors(log[..|log| - 1]) + if log[|log| - 1].ok then 0 else 1
  }

  lemma {:induction false} SentLost(h: Hub, c: int, conns: seq<Conn>, exclude: Option<int>,
                                    build: int -> string, failing: set<int>)
    ensures Lost(h, Sent(h, c, conns, exclude, build, failing), c, Failed(conns, exclude, failing))
  {
    if conns == [] {
      LostNothing(h, c);
      assert Failed(conns, exclude, failing) == {};
    } else {
      var init, p := conns[..|conns| - 1], conns[|conns| - 1];
      var g := Sent(h, c, init, exclude, build, failing);
      SentLost(h, c, init, exclude, build, failing);
      assert conns == init + [p];
      if Some(p.user) != exclude && p.socket in failing {
        SendSafeLost(g, c, p.socket, build(p.user), failing);
        LostMore(h, g, SendSafe(g, c, p.socket, build(p.user), failing), c, Failed(init, exclude, failing), {p.socket});
        assert Failed(conns, exclude, failing) == Failed(init, exclude, failing) + {p.socket};
      } else {
        assert Failed(conns, exclude, failing) == Failed(init, exclude, failing);
      }
    }
  }

  lemma SendSafeLost(g: Hub, c: int, socket: int, message: string, failing: set<int>)
    ensures Lost(g, SendSafe(g, c, socket, message, failing), c, if socket in failing then {socket} else {})
  {
    var h := g.(log := g.log + [Attempt(socket, message, socket !in failing)]);
    if socket in failing {
      DisconnectedLost(h.(sendErrors := h.sendErrors + 1), c, socket);
    } else {
      LostNothing(g, c);
    }
  }

  lemma SendSafeLog(g: Hub, c: int, socket: int, message: string, failing: set<int>)
    ensures var t := SendSafe(g, c, socket, message, failing);
      && t.log == g.log + [Attempt(socket, message, socket !in failing)]
      && t.sendErrors == g.sendErrors + if socket in failing then 1 else 0
  {
  }

  lemma ErrorsSnoc(log: seq<Attempt>, a: Attempt)
    ensures Errors(log + [a]) == Errors(log) + if a.ok then 0 else 1
  {
    assert (log + [a])[..|log|] == log;
  }

  lemma LogStep(h: Hub, g: Hub, t: Hub, before: seq<Attempt>, a: Attempt)
    requires g.log == h.log + before && g.sendErrors == h.sendErrors + Errors(before)
    requires t.log == g.log + [a] && t.sendErrors == g.sendErrors + if a.ok then 0 else 1
    ensures t.log == h.log + (before + [a]) && t.sendErrors == h.sendErrors + Errors(before + [a])
  {
    ErrorsSnoc(before, a);
    assert (h.log + before) + [a] == h.log + (before + [a]);
  }

  lemma {:induction false} SentLog(h: Hub, c: int, conns: seq<Conn>, exclude: Option<int>,
                                   build: int -> string, failing: set<int>)
    ensures var t := Sent(h, c, conns, exclude, build, failing);
      var attempts := Attempts(conns, exclude, build, failing);
      && t.log == h.log + attempts
      && t.sendErrors == h.sendErrors + Errors(attempts)
  {
    if conns != [] {
      var init, p := conns[..|conns| - 1], conns[|conns| - 1];
      SentLog(h, c, init, exclude, build, failing);
      var before := Attempts(init, exclude, build, failing);
      if Some(p.user) == exclude {
        assert before + [] == before;
      } else {
        var a := Attempt(p.socket, build(p.user), p.socket !in failing);
        var g := Sent(h, c, init, exclude, build, failing);
        SendSafeLog(g, c, p.socket, build(p.user), failing);
        LogStep(h, g, SendSafe(g, c, p.socket, build(p.user), failing), before, a);
      }
    }
  }

  lemma {:induction false} AttemptsAre(conns: seq<Conn>, exclude: Option<int>, build: int -> string, failing: set<int>)
    ensures forall p :: p in conns && Some(p.user) != exclude ==>
      Attempt(p.socket, build(p.user), p.socket !in failing) in Attempts(conns, exclude, build, failing)
    ensures forall a :: a in Attempts(conns, exclude, build, failing) ==>
      exists p :: p in conns && Some(p.user) != exclude && a.socket == p.socket
  {
    if conns != [] {
      var init, p := conns[..|conns| - 1], conns[|conns| - 1];
      AttemptsAre(init, exclude, build, failing);
      assert conns == init + [p];
    }
  }

  lemma {:induction false} AttemptsOnce(conns: seq<Conn>, exclude: Option<int>, build: int -> string, failing: set<int>)
    requires DistinctSockets(conns)
    ensures OncePerSocket(Attempts(conns, exclude, build, failing))
  {
    if conns != [] {
      var init, p := conns[..|conns| - 1], conns[|conns| - 1];
      AttemptsOnce(init, exclude, build, failing);
      AttemptsAre(init, exclude, build, failing);
      if Some(p.user) != exclude {
        forall a | a in Attempts(init, exclude, build, failing) ensures a.socket != p.socket {
          var q :| q in init && a.socket == q.socket;
          EarlierSocket(conns, q);
        }
        OnceSnoc(Attempts(init, exclude, build, failing), Attempt(p.socket, build(p.user), p.socket !in failing));
      }
    }
  }

  lemma EarlierSocket(conns: seq<Conn>, q: Conn)
    requires DistinctSockets(conns) && conns != [] && q in conns[..|conns| - 1]
    ensures q.socket != conns[|conns| - 1].socket
  {
    var k :| 0 <= k < |conns| - 1 && conns[..|conns| - 1][k] == q;
    assert conns[k] == q;
  }

  lemma OnceSnoc(log: seq<Attempt>, a: Attempt)
    requires OncePerSocket(log) && forall b :: b in log ==> b.socket != a.socket
    ensures OncePerSocket(log + [a])
  {
    forall i | 0 <= i < |log| ensures log[i].socket != a.socket {
      assert log[i] in log;
    }
  }

  /**
   A broadcast attempts every connected socket of the chat but the excluded user's exactly once, with
   that user's message; afterwards exactly the sockets that failed are gone, the rest in their order.
   */
  lemma BroadcastMeans(h: Hub, c: int, exclude: Option<int>, build: int -> string, failing: set<int>)
    requires Valid(h)
    ensures var conns := Of(h.active, c); var t := Sent(h, c, conns, exclude, build, failing);
      && Valid(t)
      && Of(t.active, c) == Without(conns, Failed(conns, exclude, failing))
      && (forall d :: d != c ==> Of(t.active, d) == Of(h.active, d))
      && |h.log| <= |t.log| && t.log[..|h.log|] == h.log
      && var news := t.log[|h.log|..];
         && (forall p :: p in conns && Some(p.user) != exclude ==>
               Attempt(p.socket, build(p.user), p.socket !in failing) in news)
         && (forall a :: a in news ==>
               exists p :: p in conns && Some(p.user) != exclude && a.socket == p.socket)
         && OncePerSocket(news)
         && t.sendErrors == h.sendErrors + Errors(news)
  {
    var conns := Of(h.active, c);
    SentLost(h, c, conns, exclude, build, failing);
    SentLog(h, c, conns, exclude, build, failing);
    var t := Sent(h, c, conns, exclude, build, failing);
    LostValid(h, t, c, Failed(conns, exclude, failing));
    AttemptsAre(conns, exclude, build, failing);
    AttemptsOnce(conns, exclude, build, failing);
    assert t.log[|h.log|..] == Attempts(conns, exclude, build, failing);
  }

  // --- Runs ---

  datatype Event =
    | Connect(c: int, socket: int, user: int)
    | Disconnect(c: int, socket: int)
    | Broadcast(c: int, exclude: Option<int>, build: int -> string, failing: set<int>)

  datatype Run = Start | Then(past: Run, event: Event)

  function Next(h: Hub, e: Event): Hub {
    match e
    case Connect(c, socket, user) => Connected(h, c, socket, user)
    case Disconnect(c, socket) => Disconnected(h, c, socket)
    case Broadcast(c, exclude, build, failing) => Sent(h, c, Of(h.active, c), exclude, build, failing)
  }

  function Last(run: Run): Hub {
    match run
    case Start => Hub(map[], 0, 0, 0, 0, [], [])
    case Then(past, e) => Next(Last(past), e)
  }

  function Used(run: Run): set<int> {
    match run
    case Start => {}
    case Then(past, e) => Used(past) + if e.Connect? then {e.socket} else {}
  }

  /** Every connection comes with a socket of its own. */
  ghost predicate Fresh(run: Run) {
    run.Then? ==> Fresh(run.past) && (run.event.Connect? ==> run.event.socket !in Used(run.past))
  }

  /** The events that take `p` out of chat `c`. */
  ghost predicate Removes(e: Event, c: int, p: Conn) {
    e.c == c &&
    match e
    case Connect(_, _, user) => user == p.user
    case Disconnect(_, socket) => socket == p.socket
    case Broadcast(_, exclude, _, failing) => Some(p.user) != exclude && p.socket in failing
  }

  /** A connection stays until one of these events, and no event adds one but its own connect. */
  lemma EventMeans(h: Hub, e: Event, c: int, p: Conn)
    requires Valid(h) && (e.Connect? ==> !Listed(h, e.c, e.socket))
    ensures Valid(Next(h, e))
    ensures p in Of(Next(h, e).active, c) <==>
      (p in Of(h.active, c) && !Removes(e, c, p)) || e == Connect(c, p.socket, p.user)
  {
    var conns := Of(h.active, c);
    match e
    case Connect(d, socket, user) =>
      ConnectMeans(h, d, socket, user);
      if c == d {
        WithoutKeeps(conns, Replaced(conns, socket, user), p);
        if p in conns && p.user != user && p.socket in Replaced(conns, socket, user) {
          SameSocket(conns, p, user);
        }
      }
    case Disconnect(d, socket) =>
      DisconnectedLost(h, d, socket);
      LostValid(h, Next(h, e), d, {socket});
      WithoutKeeps(conns, {socket}, p);
    case Broadcast(d, exclude, build, failing) =>
      BroadcastMeans(h, d, exclude, build, failing);
      WithoutKeeps(conns, Failed(conns, exclude, failing), p);
      if c == d && p in conns && p.socket in Failed(conns, exclude, failing) {
        var q :| q in conns && Some(q.user) != exclude && q.socket == p.socket;
        SameSocket(conns, p, q.user);
      }
  }

  lemma SameSocket(conns: seq<Conn>, p: Conn, user: int)
    requires DistinctSockets(conns) && p in conns && Conn(p.socket, user) in conns
    ensures p.user == user
  {
    var i :| 0 <= i < |conns| && conns[i] == p;
    var j :| 0 <= j < |conns| && conns[j] == Conn(p.socket, user);
    assert i < j || j < i || i == j;
  }

  // --- What is counted and closed ---

  /** The sockets that connecting closes, in list order. */
  function Victims(conns: seq<Conn>, socket: int, user: int): seq<int> {
    if conns == [] then [] else
      var p := conns[|conns| - 1];
      Victims(conns[..|conns| - 1], socket, user) + if p.user == user && p.socket != socket then [p.socket] else []
  }

  ghost predicate AllListed(h: Hub, c: int, conns: seq<Conn>) {
    DistinctSockets(conns) && forall p :: p in conns ==> p in Of(h.active, c)
  }

  /** The last connection of a snapshot is still listed when the others have been dealt with. */
  lemma StillListed(h: Hub, g: Hub, c: int, conns: seq<Conn>, dead: set<int>)
    requires conns != [] && AllListed(h, c, conns) && Lost(h, g, c, dead)
    requires forall x :: x in dead ==> exists q :: q in conns[..|conns| - 1] && q.socket == x
    ensures AllListed(h, c, conns[..|conns| - 1]) && Of(g.active, c) != []
  {
    var init, p := conns[..|conns| - 1], conns[|conns| - 1];
    assert conns == init + [p];
    forall q | q in init ensures q.socket != p.socket {
      EarlierSocket(conns, q);
    }
    WithoutKeeps(Of(h.active, c), dead, p);
  }

  lemma {:induction false} EvictedCounts(h: Hub, c: int, conns: seq<Conn>, socket: int, user: int)
    requires AllListed(h, c, conns)
    ensures var t := Evicted(h, c, conns, socket, user);
      && t.closed == h.closed + Victims(conns, socket, user)
      && t.disconnects == h.disconnects + |Victims(conns, socket, user)|
      && t.connects == h.connects && t.sendErrors == h.sendErrors && t.log == h.log
  {
    if conns != [] {
      var init := conns[..|conns| - 1];
      var g := Evicted(h, c, init, socket, user);
      EvictedLost(h, c, init, socket, user);
      StillListed(h, g, c, conns, Replaced(init, socket, user));
      EvictedCounts(h, c, init, socket, user);
      var p := conns[|conns| - 1];
      DisconnectCounts(g, c, p.socket);
      var victims := Victims(init, socket, user);
      assert (h.closed + victims) + [p.socket] == h.closed + (victims + [p.socket]);
    }
  }

  lemma DisconnectCounts(g: Hub, c: int, socket: int)
    ensures var d := Disconnected(g, c, socket);
      && d.disconnects == g.disconnects + (if Of(g.active, c) == [] then 0 else 1)
      && d.closed == g.closed && d.connects == g.connects && d.sendErrors == g.sendErrors && d.log == g.log
  {
  }

  lemma {:induction false} SentCounts(h: Hub, c: int, conns: seq<Conn>, exclude: Option<int>,
                                      build: int -> string, failing: set<int>)
    requires AllListed(h, c, conns)
    ensures var t := Sent(h, c, conns, exclude, build, failing);
      && t.disconnects == h.disconnects + Errors(Attempts(conns, exclude, build, failing))
      && t.connects == h.connects && t.closed == h.closed
  {
    if conns != [] {
      var init, p := conns[..|conns| - 1], conns[|conns| - 1];
      var before := Attempts(init, exclude, build, failing);
      SentLost(h, c, init, exclude, build, failing);
      StillListed(h, Sent(h, c, init, exclude, build, failing), c, conns, Failed(init, exclude, failing));
      SentCounts(h, c, init, exclude, build, failing);
      if Some(p.user) == exclude {
        assert before + [] == before;
      } else {
        ErrorsSnoc(before, Attempt(p.socket, build(p.user), p.socket !in failing));
      }
    }
  }

  /**
   In a valid registry connecting closes exactly the user's other sockets and counts one connect and one
   disconnect for each of them; a broadcast counts one disconnect for each failed send, and closes none.
   */
  lemma EventCounts(h: Hub, e: Event)
    requires Valid(h)
    ensures var t := Next(h, e); var conns := Of(h.active, e.c);
      match e
      case Connect(_, socket, user) =>
        && t.closed == h.closed + Victims(conns, socket, user)
        && t.disconnects == h.disconnects + |Victims(conns, socket, user)| && t.connects == h.connects + 1
        && t.log == h.log && t.sendErrors == h.sendErrors
      case Disconnect(_, _) =>
        && t.disconnects == h.disconnects + (if conns == [] then 0 else 1) && t.connects == h.connects
        && t.closed == h.closed && t.log == h.log && t.sendErrors == h.sendErrors
      case Broadcast(_, _, _, _) =>
        && t.disconnects - h.disconnects == t.sendErrors - h.sendErrors && t.connects == h.connects
        && t.closed == h.closed
  {
    match e
    case Connect(c, socket, user) => EvictedCounts(h, c, Of(h.active, c), socket, user);
    case Disconnect(_, _) =>
    case Broadcast(c, exclude, build, failing) =>
      SentCounts(h, c, Of(h.active, c), exclude, build, failing);
      SentLog(h, c, Of(h.active, c), exclude, build, failing);
  }

  /** In every run with fresh sockets the registry is valid. */
  lemma {:induction false} RunIsValid(run: Run)
    requires Fresh(run)
    ensures Valid(Last(run))
    ensures forall c, socket :: Listed(Last(run), c, socket) ==> socket in Used(run)
  {
    if run.Then? {
      var h := Last(run.past);
      RunIsValid(run.past);
      forall c, p | p in Of(Last(run).active, c) ensures p.socket in Used(run) {
        EventMeans(h, run.event, c, p);
        assert p in Of(h.active, c) ==> Listed(h, c, p.socket);
      }
      EventMeans(h, run.event, 0, Conn(0, 0));
    }
  }

  ghost predicate Extends(run: Run, past: Run) {
    run == past || (run.Then? && Extends(run.past, past))
  }

  /** A socket that has left a chat never comes back. */
  lemma {:induction false} GoneStaysGone(past: Run, run: Run, c: int, socket: int)
    requires Fresh(run) && Extends(run, past) && socket in Used(past) && !Listed(Last(past), c, socket)
    ensures !Listed(Last(run), c, socket) && socket in Used(run)
  {
    if run != past {
      GoneStaysGone(past, run.past, c, socket);
      RunIsValid(run.past);
      var h := Last(run.past);
      forall p: Conn | p.socket == socket ensures p !in Of(Last(run).active, c) {
        assert p !in Of(h.active, c);
        EventMeans(h, run.event, c, p);
      }
    }
  }

  lemma UnlistedChangesNothing(h: Hub, c: int, socket: int)
    requires Tidy(h) && !Listed(h, c, socket)
    ensures Disconnected(h, c, socket).active == h.active
  {
    if Of(h.active, c) != [] {
      PrunesNothing(h.active, c, socket);
    }
  }

  lemma PrunesNothing(active: map<int, seq<Conn>>, c: int, socket: int)
    requires Of(active, c) != [] && forall p :: p in Of(active, c) ==> p.socket != socket
    ensures Pruned(active, c, socket) == active
  {
    WithoutNone(Of(active, c), {socket});
    assert active[c := Of(active, c)] == active;
  }

  lemma ReplacedIsGone(h: Hub, c: int, p: Conn, socket: int)
    requires Valid(h) && p in Of(h.active, c) && !Listed(h, c, socket)
    ensures !Listed(Connected(h, c, socket, p.user), c, p.socket)
  {
    var conns := Of(h.active, c);
    ConnectedLists(h, c, socket, p.user);
    assert p.socket != socket;
    forall q: Conn | q.socket == p.socket ensures q !in Without(conns, Replaced(conns, socket, p.user)) {
      assert p.socket in Replaced(conns, socket, p.user);
      WithoutKeeps(conns, Replaced(conns, socket, p.user), q);
    }
  }

  /**
   A socket is replaced when its user connects again. Its own disconnect, however late and whatever
   happened since, then removes nothing.
   */
  lemma LateDisconnectRemovesNothing(past: Run, run: Run, c: int, p: Conn, socket: int)
    requires Fresh(run) && Extends(run, Then(past, Connect(c, socket, p.user))) && p in Of(Last(past).active, c)
    ensures Next(Last(run), Disconnect(c, p.socket)).active == Last(run).active
  {
    var replaced := Then(past, Connect(c, socket, p.user));
    ExtendsFresh(run, replaced);
    RunIsValid(past);
    assert Listed(Last(past), c, p.socket);
    ReplacedIsGone(Last(past), c, p, socket);
    GoneStaysGone(replaced, run, c, p.socket);
    RunIsValid(run);
    UnlistedChangesNothing(Last(run), c, p.socket);
  }

  lemma {:induction false} ExtendsFresh(run: Run, past: Run)
    requires Fresh(run) && Extends(run, past)
    ensures Fresh(past)
  {
    if run != past {
      ExtendsFresh(run.past, past);
    }
  }

  /** Such a disconnect is counted all the same while the chat has connections. */
  lemma LateDisconnectIsCounted(h: Hub, c: int, socket: int)
    requires Valid(h) && !Listed(h, c, socket)
    ensures Disconnected(h, c, socket).active == h.active
    ensures Disconnected(h, c, socket).disconnects == h.disconnects + if c in h.active then 1 else 0
  {
    UnlistedChangesNothing(h, c, socket);
  }

  // --- Inbox sockets ---

  function InboxConnected(b: Inbox, user: int, socket: int): Inbox {
    var replaced := if user in b.sockets && b.sockets[user] != socket then [b.sockets[user]] else [];
    var sockets := b.sockets[user := socket];
    b.(sockets := sockets, closed := b.closed + replaced, connects := b.connects + 1, connections := |sockets|)
  }

  function InboxDisconnected(b: Inbox, user: int, socket: int): Inbox {
    if user in b.sockets && b.sockets[user] == socket then
      var sockets := b.sockets - {user};
      b.(sockets := sockets, disconnects := b.disconnects + 1, connections := |sockets|)
    else b
  }

  function InboxSent(b: Inbox, user: int, message: string, failing: set<int>): (Inbox, bool) {
    if user !in b.sockets then (b, false) else
      var socket := b.sockets[user];
      var g := b.(log := b.log + [Attempt(socket, message, socket !in failing)]);
      if socket in failing then (InboxDisconnected(g.(sendErrors := g.sendErrors + 1), user, socket), false)
      else (g, true)
  }

  class InboxConnectionManager {
    const stats: RealtimeStats
    var userIdToWs: map<int, int>
    var closed: seq<int>
    var log: seq<Attempt>

    constructor (stats: RealtimeStats)
      ensures this.stats == stats && userIdToWs == map[] && closed == [] && log == []
    {
      this.stats := stats;
      userIdToWs := map[];
      closed := [];
      log := [];
    }

    function State(): Inbox
      reads this, stats
    {
      Inbox(userIdToWs, stats.inboxConnections, stats.inboxConnectTotal, stats.inboxDisconnectTotal,
            stats.sendErrorTotal, closed, log)
    }

    method Connect(user: int, socket: int)
      modifies this, stats`inboxConnections, stats`inboxConnectTotal
      ensures State() == InboxConnected(old(State()), user, socket)
    {
      if user in userIdToWs && userIdToWs[user] != socket {
        closed := closed + [userIdToWs[user]];
      }
      userIdToWs := userIdToWs[user := socket];
      stats.inboxConnectTotal := stats.inboxConnectTotal + 1;
      stats.inboxConnections := |userIdToWs|;
    }

    method Disconnect(user: int, socket: int)
      modifies this`userIdToWs, stats`inboxConnections, stats`inboxDisconnectTotal
      ensures State() == InboxDisconnected(old(State()), user, socket)
    {
      if user in userIdToWs && userIdToWs[user] == socket {
        userIdToWs := userIdToWs - {user};
        stats.inboxDisconnectTotal := stats.inboxDisconnectTotal + 1;
        stats.inboxConnections := |userIdToWs|;
      }
    }

    method SendJson(user: int, message: string, failing: set<int>) returns (sent: bool)
      modifies this, stats`inboxConnections, stats`inboxDisconnectTotal, stats`sendErrorTotal
      ensures (State(), sent) == InboxSent(old(State()), user, message, failing)
    {
      if user !in userIdToWs {
        return false;
      }
      var socket := userIdToWs[user];
      log := log + [Attempt(socket, message, socket !in failing)];
      if socket !in failing {
        return true;
      }
      stats.sendErrorTotal := stats.sendErrorTotal + 1;
      Disconnect(user, socket);
      return false;
    }
  }

  datatype InboxEvent =
    | Opened(user: int, socket: int)
    | Gone(user: int, socket: int)
    | Send(user: int, message: string, failing: set<int>)

  function InboxNext(b: Inbox, e: InboxEvent): Inbox {
    match e
    case Opened(user, socket) => InboxConnected(b, user, socket)
    case Gone(user, socket) => InboxDisconnected(b, user, socket)
    case Send(user, message, failing) => InboxSent(b, user, message, failing).0
  }

  function InboxAfter(events: seq<InboxEvent>): Inbox {
    if events == [] then Inbox(map[], 0, 0, 0, 0, [], [])
    else InboxNext(InboxAfter(events[..|events| - 1]), events[|events| - 1])
  }

  /** Event `e` puts an end to the inbox connection of `user` through `socket`. */
  predicate EndsInbox(e: InboxEvent, user: int, socket: int) {
    e.user == user &&
    match e
    case Opened(_, _) => true
    case Gone(_, s) => s == socket
    case Send(_, _, failing) => socket in failing
  }

  /** `socket` was opened for `user` and nothing has ended that since. */
  ghost predicate StillOpen(events: seq<InboxEvent>, user: int, socket: int) {
    exists i :: 0 <= i < |events| && events[i] == Opened(user, socket) && KeptSince(events, i, user, socket)
  }

  ghost predicate KeptSince(events: seq<InboxEvent>, i: int, user: int, socket: int) {
    forall j :: 0 <= i < j < |events| ==> !EndsInbox(events[j], user, socket)
  }

  lemma StillOpenStep(events: seq<InboxEvent>, user: int, socket: int)
    requires events != []
    ensures var past, e := events[..|events| - 1], events[|events| - 1];
      StillOpen(events, user, socket) <==>
      e == Opened(user, socket) || (StillOpen(past, user, socket) && !EndsInbox(e, user, socket))
  {
    var n := |events| - 1;
    var past, e := events[..n], events[n];
    if StillOpen(events, user, socket) && e != Opened(user, socket) {
      var i :| 0 <= i < |events| && events[i] == Opened(user, socket) && KeptSince(events, i, user, socket);
      assert past[i] == Opened(user, socket) && KeptSince(past, i, user, socket);
    }
    if e == Opened(user, socket) {
      assert KeptSince(events, n, user, socket);
    } else if StillOpen(past, user, socket) && !EndsInbox(e, user, socket) {
      var i :| 0 <= i < |past| && past[i] == Opened(user, socket) && KeptSince(past, i, user, socket);
      forall j | i < j < |events| ensures !EndsInbox(events[j], user, socket) {
        assert j < n ==> events[j] == past[j];
      }
      assert events[i] == Opened(user, socket) && KeptSince(events, i, user, socket);
    }
  }

  /** The inbox registry holds exactly the socket opened last for a user and not ended since. */
  lemma {:induction false} InboxHoldsTheNewest(events: seq<InboxEvent>, user: int, socket: int)
    ensures var b := InboxAfter(events);
      && b.connections == |b.sockets|
      && (user in b.sockets && b.sockets[user] == socket <==> StillOpen(events, user, socket))
  {
    if events != [] {
      var past, e := events[..|events| - 1], events[|events| - 1];
      InboxHoldsTheNewest(past, user, socket);
      StillOpenStep(events, user, socket);
    }
  }

  /** A late goodbye of a replaced inbox socket changes nothing, not even a counter. */
  lemma LateGoodbyeChangesNothing(events: seq<InboxEvent>, user: int, socket: int)
    requires !StillOpen(events, user, socket)
    ensures InboxAfter(events + [Gone(user, socket)]) == InboxAfter(events)
  {
    InboxHoldsTheNewest(events, user, socket);
    assert (events + [Gone(user, socket)])[..|events|] == events;
  }

  /** A message to a user is sent once, through the user's socket; success is reported exactly if it went through. */
  lemma InboxSendMeans(b: Inbox, user: int, message: string, failing: set<int>)
    ensures var (t, sent) := InboxSent(b, user, message, failing);
      && (sent <==> user in b.sockets && b.sockets[user] !in failing)
      && (user !in b.sockets ==> t == b)
      && (user in b.sockets ==>
            var socket := b.sockets[user];
            && t.log == b.log + [Attempt(socket, message, sent)]
            && (forall u :: u in t.sockets <==> u in b.sockets && (u == user ==> sent))
            && (forall u :: u in t.sockets ==> t.sockets[u] == b.sockets[u])
            && t.sendErrors == b.sendErrors + (if sent then 0 else 1)
            && t.disconnects == b.disconnects + (if sent then 0 else 1)
            && t.connects == b.connects && t.closed == b.closed)
  {
  }

  /** Opening closes exactly the user's other socket; opening and leaving are counted as they change the registry. */
  lemma InboxEventCounts(b: Inbox, user: int, socket: int)
    ensures var t := InboxConnected(b, user, socket);
      && t.closed == b.closed + (if user in b.sockets && b.sockets[user] != socket then [b.sockets[user]] else [])
      && t.connects == b.connects + 1 && t.disconnects == b.disconnects && t.log == b.log
      && (forall u :: u in t.sockets <==> u in b.sockets || u == user)
      && (forall u :: u in t.sockets ==> t.sockets[u] == if u == user then socket else b.sockets[u])
    ensures var t := InboxDisconnected(b, user, socket);
      var here := user in b.sockets && b.sockets[user] == socket;
      && t.disconnects == b.disconnects + (if here then 1 else 0)
      && (forall u :: u in t.sockets <==> u in b.sockets && !(here && u == user))
      && (forall u :: u in t.sockets ==> t.sockets[u] == b.sockets[u])
      && t.connects == b.connects && t.closed == b.closed && t.log == b.log
  {
  }
}
