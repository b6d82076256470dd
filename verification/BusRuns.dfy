/**
 The instances of `RealtimeBus` with their registries, over whole runs: sockets connect and disconnect,
 commands broadcast and publish, instances handle the envelopes. Each of these is one step here and a few
 steps of the machine of `RealtimeBus`, so that what holds there holds of what the registries have sent.
 */
module BusRuns {
  import opened Common
  import B = RealtimeBus
  import W = WsManager

  datatype World = World(
    hubs: map<int, W.Hub>,
    sent: map<int, B.Emission>,
    subscribers: map<int, set<int>>,   // of the bus, when the event was published
    flight: set<(int, int)>)           // (event, instance)

  datatype Op =
    | Open(i: int, c: int, s: int, u: int)
    | Shut(i: int, c: int, s: int)
    | Say(e: int, i: int, c: int, subscribers: set<int>, failing: set<int>)
    | Hand(e: int, i: int, failing: set<int>)

  function HubOf(w: World, i: int): W.Hub {
    if i in w.hubs then w.hubs[i] else W.Hub(map[], 0, 0, 0, 0, [], [])
  }

  function WithHub(w: World, i: int, h: W.Hub): World {
    w.(hubs := w.hubs[i := h])
  }

  function Envelopes(e: int, subscribers: set<int>): set<(int, int)> {
    set i | i in subscribers :: (e, i)
  }

  /** One step; `text` is the payload of an event. The registries change as the methods of the classes say. */
  function Next(w: World, op: Op, text: int -> string): World {
    match op
    case Open(i, c, s, u) => WithHub(w, i, W.Connected(HubOf(w, i), c, s, u))
    case Shut(i, c, s) => WithHub(w, i, W.Disconnected(HubOf(w, i), c, s))
    case Say(e, i, c, subscribers, failing) =>
      if e in w.sent then w else
        var h := HubOf(w, i);
        WithHub(w, i, W.Sent(h, c, W.Of(h.active, c), None, B.Always(text(e)), failing))
          .(sent := w.sent[e := B.Emission(i, c)], subscribers := w.subscribers[e := subscribers],
            flight := w.flight + Envelopes(e, subscribers))
    case Hand(e, i, failing) =>
      if (e, i) !in w.flight || e !in w.sent then w else
        var m := w.sent[e];
        WithHub(w, i, B.Received(HubOf(w, i), i, m.origin, m.chat, text(e), failing)).(flight := w.flight - {(e, i)})
  }

  datatype Story = Start | Then(past: Story, op: Op)

  function Now(story: Story, text: int -> string): World {
    match story
    case Start => World(map[], map[], map[], {})
    case Then(past, op) => Next(Now(past, text), op, text)
  }

  function Used(story: Story): set<int> {
    match story
    case Start => {}
    case Then(past, op) => Used(past) + if op.Open? then {op.s} else {}
  }

  /** Every connection comes with a socket of its own. */
  ghost predicate Fresh(story: Story) {
    story.Then? ==> Fresh(story.past) && (story.op.Open? ==> story.op.s !in Used(story.past))
  }

  // --- The steps of the machine ---

  function Sends(e: int, i: int, conns: seq<W.Conn>, failing: set<int>): seq<B.Event> {
    if conns == [] then [] else
      var p := conns[|conns| - 1];
      Sends(e, i, conns[..|conns| - 1], failing) + [B.Send(e, i, p.socket, p.socket !in failing)]
  }

  /** What an operation is for the machine. */
  ghost function Moves(w: World, op: Op): seq<B.Event> {
    match op
    case Open(i, c, s, u) => [B.Connect(s, B.Socket(i, c, u))]
    case Shut(i, c, s) => if W.Listed(HubOf(w, i), c, s) then [B.Disconnect(s)] else []
    case Say(e, i, c, subscribers, failing) =>
      if e in w.sent then [] else
        [B.Emit(e, B.Emission(i, c))] + Sends(e, i, W.Of(HubOf(w, i).active, c), failing) + [B.Publish(e, subscribers)]
    case Hand(e, i, failing) =>
      if (e, i) !in w.flight || e !in w.sent then [] else
        [B.Deliver(e, i)]
        + if w.sent[e].origin == i then [] else Sends(e, i, W.Of(HubOf(w, i).active, w.sent[e].chat), failing)
  }

  function Onward(run: B.Run, events: seq<B.Event>): B.Run {
    if events == [] then run else B.Then(Onward(run, events[..|events| - 1]), events[|events| - 1])
  }

  ghost function RunOf(story: Story, text: int -> string): B.Run {
    match story
    case Start => B.Start
    case Then(past, op) => Onward(RunOf(past, text), Moves(Now(past, text), op))
  }

  // --- What the two have in common ---

  /** The registry lists the live sockets of the instance under their chats, with their users. */
  ghost predicate Mirrors(st: B.State, i: int, h: W.Hub) {
    && W.Valid(h)
    && forall c, p :: p in W.Of(h.active, c) <==>
         p.socket in st.live && p.socket in st.sockets && st.sockets[p.socket] == B.Socket(i, c, p.user)
  }

  /** How often socket `s` was sent `message` with success. */
  function Heard(log: seq<W.Attempt>, s: int, message: string): nat {
    if log == [] then 0 else
      var a := log[|log| - 1];
      Heard(log[..|log| - 1], s, message) + if a == W.Attempt(s, message, true) then 1 else 0
  }

  /** What the machine counts as received is what the log of the socket's instance shows. */
  ghost predicate Counts(st: B.State, i: int, log: seq<W.Attempt>, text: int -> string) {
    forall e, s ::
      Heard(log, s, text(e)) == if s in st.sockets && st.sockets[s].instance == i then st.received[(e, s)] else 0
  }

  ghost predicate AllMirror(w: World, st: B.State, text: int -> string) {
    forall i :: Mirrors(st, i, HubOf(w, i)) && Counts(st, i, HubOf(w, i).log, text)
  }

  ghost predicate Coupled(w: World, st: B.State, text: int -> string) {
    && AllMirror(w, st, text)
    && st.emitted == w.sent && st.inFlight == w.flight && st.published == w.subscribers
    && w.subscribers.Keys == w.sent.Keys
    && forall k :: k in st.phases ==> st.phases[k] == B.Sending({})
  }

  function Sockets(conns: seq<W.Conn>): set<int> {
    set p | p in conns :: p.socket
  }

  /** Each of the sockets has received event `e` once more. */
  ghost predicate Receives(st: B.State, t: B.State, e: int, sockets: set<int>) {
    forall f, s :: t.received[(f, s)] == st.received[(f, s)] + if f == e && s in sockets then 1 else 0
  }

  /** The machine after the sends of a loop, all else being equal. */
  ghost predicate SentOut(st: B.State, t: B.State, e: int, i: int, todo: set<int>, done: set<int>, failing: set<int>) {
    && t.sockets == st.sockets && t.emitted == st.emitted && t.published == st.published && t.inFlight == st.inFlight
    && t.live == st.live - (done * failing)
    && t.phases == st.phases[(e, i) := B.Sending(todo - done)]
    && Receives(st, t, e, done - failing)
  }

  lemma OnwardSnoc(run: B.Run, events: seq<B.Event>, ev: B.Event)
    ensures Onward(run, events + [ev]) == B.Then(Onward(run, events), ev)
  {
    assert (events + [ev])[..|events|] == events;
  }

  lemma OnwardOne(run: B.Run, ev: B.Event)
    ensures Onward(run, [ev]) == B.Then(run, ev)
  {
    OnwardSnoc(run, [], ev);
    assert [] + [ev] == [ev];
  }

  lemma {:induction false} OnwardTwice(run: B.Run, a: seq<B.Event>, b: seq<B.Event>)
    ensures Onward(run, a + b) == Onward(Onward(run, a), b)
  {
    if b == [] {
      assert a + b == a;
    } else {
      OnwardTwice(run, a, b[..|b| - 1]);
      assert a + b == a + b[..|b| - 1] + [b[|b| - 1]];
      OnwardSnoc(run, a + b[..|b| - 1], b[|b| - 1]);
    }
  }

  lemma OneSend(st: B.State, u: B.State, e: int, i: int, todo: set<int>, done: set<int>, s: int, failing: set<int>)
    requires SentOut(st, u, e, i, todo, done, failing) && s in todo && s !in done
    ensures SentOut(st, B.Next(true, u, B.Send(e, i, s, s !in failing)), e, i, todo, done + {s}, failing)
  {
    var t := B.Next(true, u, B.Send(e, i, s, s !in failing));
    assert todo - (done + {s}) == todo - done - {s};
    assert t.phases == st.phases[(e, i) := B.Sending(todo - (done + {s}))];
    assert st.live - ((done + {s}) * failing) == if s in failing then st.live - (done * failing) - {s}
                                                  else st.live - (done * failing);
  }

  lemma {:induction false} SendsRun(run: B.Run, e: int, i: int, conns: seq<W.Conn>, todo: set<int>, failing: set<int>)
    requires var st := B.Last(true, run); (e, i) in st.phases && st.phases[(e, i)] == B.Sending(todo)
    requires W.DistinctSockets(conns) && Sockets(conns) <= todo
    ensures SentOut(B.Last(true, run), B.Last(true, Onward(run, Sends(e, i, conns, failing))), e, i,
                    todo, Sockets(conns), failing)
  {
    var st := B.Last(true, run);
    if conns == [] {
      assert Sockets(conns) == {} && todo - {} == todo;
      assert st.phases[(e, i) := B.Sending(todo)] == st.phases;
    } else {
      var init, p := conns[..|conns| - 1], conns[|conns| - 1];
      assert conns == init + [p];
      assert Sockets(conns) == Sockets(init) + {p.socket};
      forall q | q in init ensures q.socket != p.socket {
        W.EarlierSocket(conns, q);
      }
      SendsRun(run, e, i, init, todo, failing);
      OnwardSnoc(run, Sends(e, i, init, failing), B.Send(e, i, p.socket, p.socket !in failing));
      OneSend(st, B.Last(true, Onward(run, Sends(e, i, init, failing))), e, i, todo, Sockets(init), p.socket, failing);
    }
  }

  lemma HeardSnoc(log: seq<W.Attempt>, a: W.Attempt, s: int, message: string)
    ensures Heard(log + [a], s, message) == Heard(log, s, message) + if a == W.Attempt(s, message, true) then 1 else 0
  {
    assert (log + [a])[..|log|] == log;
  }

  lemma {:induction false} HeardBroadcast(log: seq<W.Attempt>, conns: seq<W.Conn>, payload: string, failing: set<int>,
                                          s: int, message: string)
    requires W.DistinctSockets(conns)
    ensures Heard(log + W.Attempts(conns, None, B.Always(payload), failing), s, message)
         == Heard(log, s, message) + if message == payload && s in Sockets(conns) - failing then 1 else 0
  {
    if conns == [] {
      assert log + W.Attempts(conns, None, B.Always(payload), failing) == log;
    } else {
      var init, p := conns[..|conns| - 1], conns[|conns| - 1];
      assert conns == init + [p];
      forall q | q in init ensures q.socket != p.socket {
        W.EarlierSocket(conns, q);
      }
      HeardBroadcast(log, init, payload, failing, s, message);
      var before := W.Attempts(init, None, B.Always(payload), failing);
      var a := W.Attempt(p.socket, payload, p.socket !in failing);
      HeardSnoc(log + before, a, s, message);
      assert log + (before + [a]) == log + before + [a];
    }
  }

  /** The loop takes the failing sockets out of the registry as the machine takes them out of the living. */
  lemma SentMirrors(st: B.State, t: B.State, i: int, h: W.Hub, c: int, payload: string, failing: set<int>)
    requires Mirrors(st, i, h) && t.sockets == st.sockets
    requires t.live == st.live - (Sockets(W.Of(h.active, c)) * failing)
    ensures Mirrors(t, i, W.Sent(h, c, W.Of(h.active, c), None, B.Always(payload), failing))
  {
    var conns := W.Of(h.active, c);
    var g := W.Sent(h, c, conns, None, B.Always(payload), failing);
    W.BroadcastMeans(h, c, None, B.Always(payload), failing);
    forall d, p ensures p in W.Of(g.active, d) <==>
      p.socket in t.live && p.socket in t.sockets && t.sockets[p.socket] == B.Socket(i, d, p.user)
    {
      assert p in W.Of(h.active, d) <==>
        p.socket in st.live && p.socket in st.sockets && st.sockets[p.socket] == B.Socket(i, d, p.user);
      W.WithoutKeeps(conns, W.Failed(conns, None, failing), p);
      assert p.socket in W.Failed(conns, None, failing) <==> p.socket in Sockets(conns) * failing;
      if d != c && p in W.Of(h.active, d) {
        NotInOther(st, i, h, c, d, p);
      }
    }
  }

  lemma NotInOther(st: B.State, i: int, h: W.Hub, c: int, d: int, p: W.Conn)
    requires Mirrors(st, i, h) && c != d && p in W.Of(h.active, d)
    ensures p.socket !in Sockets(W.Of(h.active, c))
  {
    forall q | q in W.Of(h.active, c) ensures q.socket != p.socket {
      assert st.sockets[q.socket] == B.Socket(i, c, q.user) && st.sockets[p.socket] == B.Socket(i, d, p.user);
    }
  }

  lemma ListedIsLive(st: B.State, i: int, h: W.Hub, c: int, s: int)
    requires Mirrors(st, i, h) && s in Sockets(W.Of(h.active, c))
    ensures s in st.live && s in st.sockets && st.sockets[s].instance == i && st.sockets[s].chat == c
  {
    var p :| p in W.Of(h.active, c) && p.socket == s;
  }

  /** The other registries do not list the sockets that fail in this one. */
  lemma OthersMirror(st: B.State, t: B.State, i: int, h: W.Hub, c: int, failing: set<int>, j: int, g: W.Hub)
    requires Mirrors(st, i, h) && Mirrors(st, j, g) && j != i && t.sockets == st.sockets
    requires t.live == st.live - (Sockets(W.Of(h.active, c)) * failing)
    ensures Mirrors(t, j, g)
  {
    forall s | s in Sockets(W.Of(h.active, c)) ensures s in st.sockets && st.sockets[s].instance == i {
      ListedIsLive(st, i, h, c, s);
    }
    forall d, p ensures p in W.Of(g.active, d) <==>
      p.socket in t.live && p.socket in t.sockets && t.sockets[p.socket] == B.Socket(j, d, p.user)
    {
      assert p in W.Of(g.active, d) <==>
        p.socket in st.live && p.socket in st.sockets && st.sockets[p.socket] == B.Socket(j, d, p.user);
    }
  }

  ghost predicate Telling(text: int -> string) {
    forall e, f :: text(e) == text(f) ==> e == f
  }

  /** The loop is counted by the log of its instance, and by no other. */
  lemma SentCounts(st: B.State, t: B.State, e: int, i: int, h: W.Hub, c: int, failing: set<int>, text: int -> string)
    requires Telling(text) && Mirrors(st, i, h) && Counts(st, i, h.log, text)
    requires t.sockets == st.sockets
    requires Receives(st, t, e, Sockets(W.Of(h.active, c)) - failing)
    ensures Counts(t, i, W.Sent(h, c, W.Of(h.active, c), None, B.Always(text(e)), failing).log, text)
  {
    var conns := W.Of(h.active, c);
    W.SentLog(h, c, conns, None, B.Always(text(e)), failing);
    var after := W.Sent(h, c, conns, None, B.Always(text(e)), failing).log;
    forall f, s ensures Heard(after, s, text(f))
                     == if s in t.sockets && t.sockets[s].instance == i then t.received[(f, s)] else 0 {
      HeardBroadcast(h.log, conns, text(e), failing, s, text(f));
      if s in Sockets(conns) {
        ListedIsLive(st, i, h, c, s);
      }
    }
  }

  lemma OthersCount(st: B.State, t: B.State, e: int, i: int, h: W.Hub, c: int, failing: set<int>, j: int,
                    log: seq<W.Attempt>, text: int -> string)
    requires Mirrors(st, i, h) && j != i && Counts(st, j, log, text) && t.sockets == st.sockets
    requires Receives(st, t, e, Sockets(W.Of(h.active, c)) - failing)
    ensures Counts(t, j, log, text)
  {
    forall f, s ensures Heard(log, s, text(f))
                     == if s in t.sockets && t.sockets[s].instance == j then t.received[(f, s)] else 0 {
      if s in Sockets(W.Of(h.active, c)) {
        ListedIsLive(st, i, h, c, s);
      }
    }
  }

  // --- Every step keeps them together ---

  lemma SameSocketsMirror(w: World, st: B.State, t: B.State, text: int -> string)
    requires AllMirror(w, st, text) && t.sockets == st.sockets && t.live == st.live && t.received == st.received
    ensures AllMirror(w, t, text)
  {
    forall i ensures Mirrors(t, i, HubOf(w, i)) && Counts(t, i, HubOf(w, i).log, text) {
      assert Mirrors(st, i, HubOf(w, i)) && Counts(st, i, HubOf(w, i).log, text);
    }
  }

  function Broadcast(w: World, e: int, i: int, c: int, failing: set<int>, text: int -> string): World {
    var h := HubOf(w, i);
    WithHub(w, i, W.Sent(h, c, W.Of(h.active, c), None, B.Always(text(e)), failing))
  }

  lemma LoopMirrors(w: World, st: B.State, t: B.State, e: int, i: int, c: int, failing: set<int>, text: int -> string)
    requires Telling(text) && AllMirror(w, st, text)
    requires var conns := W.Of(HubOf(w, i).active, c); SentOut(st, t, e, i, Sockets(conns), Sockets(conns), failing)
    ensures AllMirror(Broadcast(w, e, i, c, failing, text), t, text)
  {
    var h := HubOf(w, i);
    var v := Broadcast(w, e, i, c, failing, text);
    forall j ensures Mirrors(t, j, HubOf(v, j)) && Counts(t, j, HubOf(v, j).log, text) {
      assert Mirrors(st, j, HubOf(w, j)) && Counts(st, j, HubOf(w, j).log, text);
      assert Mirrors(st, i, h) && Counts(st, i, h.log, text);
      if j == i {
        SentMirrors(st, t, i, h, c, text(e), failing);
        SentCounts(st, t, e, i, h, c, failing, text);
      } else {
        OthersMirror(st, t, i, h, c, failing, j, HubOf(w, j));
        OthersCount(st, t, e, i, h, c, failing, j, HubOf(w, j).log, text);
      }
    }
  }

  /** The snapshot of the machine is the list of the registry. */
  lemma SnapshotIsList(st: B.State, i: int, h: W.Hub, c: int)
    requires Mirrors(st, i, h)
    ensures B.Snapshot(st, i, c) == Sockets(W.Of(h.active, c)) && W.DistinctSockets(W.Of(h.active, c))
  {
    forall s | s in B.Snapshot(st, i, c) ensures s in Sockets(W.Of(h.active, c)) {
      var p := W.Conn(s, st.sockets[s].user);
      assert p in W.Of(h.active, c) && p.socket == s;
    }
    forall s | s in Sockets(W.Of(h.active, c)) ensures s in B.Snapshot(st, i, c) {
      ListedIsLive(st, i, h, c, s);
    }
  }

  lemma OpenMirrors(w: World, st: B.State, op: Op, text: int -> string)
    requires AllMirror(w, st, text) && op.Open? && op.s !in st.sockets
    requires forall k :: k in st.received ==> k.1 in st.sockets
    requires forall s :: s in st.live ==> s in st.sockets
    ensures AllMirror(Next(w, op, text), B.Next(true, st, B.Connect(op.s, B.Socket(op.i, op.c, op.u))), text)
  {
    var i, c, s, u := op.i, op.c, op.s, op.u;
    var v, t := Next(w, op, text), B.Next(true, st, B.Connect(s, B.Socket(i, c, u)));
    forall j ensures Mirrors(t, j, HubOf(v, j)) && Counts(t, j, HubOf(v, j).log, text) {
      var h := HubOf(w, j);
      assert Mirrors(st, j, h) && Counts(st, j, h.log, text);
      forall e ensures st.received[(e, s)] == 0 {
        assert (e, s) !in st.received;
      }
      if j == i {
        ConnectMirrors(st, t, i, h, c, s, u);
        W.EventCounts(h, W.Connect(c, s, u));
      } else {
        ElsewhereMirrors(st, t, i, j, h);
      }
    }
  }

  /** A step that only touches sockets of instance `i` leaves the others' registries right. */
  lemma ElsewhereMirrors(st: B.State, t: B.State, i: int, j: int, h: W.Hub)
    requires Mirrors(st, j, h) && i != j
    requires forall s :: s in t.sockets && t.sockets[s].instance != i ==>
      s in st.sockets && st.sockets[s] == t.sockets[s] && (s in st.live <==> s in t.live)
    requires forall s :: s in st.sockets ==> s in t.sockets && t.sockets[s] == st.sockets[s]
    ensures Mirrors(t, j, h)
  {
    forall d, p ensures p in W.Of(h.active, d) <==>
      p.socket in t.live && p.socket in t.sockets && t.sockets[p.socket] == B.Socket(j, d, p.user)
    {
      assert p in W.Of(h.active, d) <==>
        p.socket in st.live && p.socket in st.sockets && st.sockets[p.socket] == B.Socket(j, d, p.user);
    }
  }

  lemma ConnectMirrors(st: B.State, t: B.State, i: int, h: W.Hub, c: int, s: int, u: int)
    requires Mirrors(st, i, h) && s !in st.sockets && forall x :: x in st.live ==> x in st.sockets
    requires t == B.Next(true, st, B.Connect(s, B.Socket(i, c, u)))
    ensures Mirrors(t, i, W.Connected(h, c, s, u))
  {
    forall p | p in W.Of(h.active, c) ensures p.socket != s {
      assert p.socket in st.sockets;
    }
    assert !W.Listed(h, c, s);
    forall d, p ensures p in W.Of(W.Connected(h, c, s, u).active, d) <==>
      p.socket in t.live && p.socket in t.sockets && t.sockets[p.socket] == B.Socket(i, d, p.user)
    {
      assert p in W.Of(h.active, d) <==>
        p.socket in st.live && p.socket in st.sockets && st.sockets[p.socket] == B.Socket(i, d, p.user);
      W.EventMeans(h, W.Connect(c, s, u), d, p);
    }
    W.EventMeans(h, W.Connect(c, s, u), c, W.Conn(s, u));
  }

  lemma ShutMirrors(w: World, st: B.State, op: Op, text: int -> string)
    requires AllMirror(w, st, text) && op.Shut?
    ensures var listed := W.Listed(HubOf(w, op.i), op.c, op.s);
      AllMirror(Next(w, op, text), if listed then B.Next(true, st, B.Disconnect(op.s)) else st, text)
  {
    var i, c, s := op.i, op.c, op.s;
    var listed := W.Listed(HubOf(w, i), c, s);
    var v, t := Next(w, op, text), if listed then B.Next(true, st, B.Disconnect(s)) else st;
    assert Mirrors(st, i, HubOf(w, i));
    if listed {
      var p :| p in W.Of(HubOf(w, i).active, c) && p.socket == s;
      assert st.sockets[s] == B.Socket(i, c, p.user);
    }
    forall j ensures Mirrors(t, j, HubOf(v, j)) && Counts(t, j, HubOf(v, j).log, text) {
      assert Mirrors(st, j, HubOf(w, j)) && Counts(st, j, HubOf(w, j).log, text);
      ShutMirrorsAt(st, t, i, HubOf(w, i), c, s, j, HubOf(w, j), text);
    }
  }

  lemma ShutMirrorsAt(st: B.State, t: B.State, i: int, h: W.Hub, c: int, s: int, j: int, g: W.Hub,
                      text: int -> string)
    requires Mirrors(st, i, h) && Mirrors(st, j, g) && Counts(st, j, g.log, text) && (i == j ==> h == g)
    requires t == if W.Listed(h, c, s) then B.Next(true, st, B.Disconnect(s)) else st
    requires W.Listed(h, c, s) ==> s in st.sockets && st.sockets[s].instance == i && st.sockets[s].chat == c
    ensures var k := if i == j then W.Disconnected(g, c, s) else g; Mirrors(t, j, k) && Counts(t, j, k.log, text)
  {
    if j == i {
      DisconnectMirrors(st, t, i, h, c, s);
      W.DisconnectCounts(h, c, s);
    } else {
      ElsewhereMirrors(st, t, i, j, g);
    }
  }

  lemma DisconnectMirrors(st: B.State, t: B.State, i: int, h: W.Hub, c: int, s: int)
    requires Mirrors(st, i, h)
    requires t == if W.Listed(h, c, s) then B.Next(true, st, B.Disconnect(s)) else st
    requires W.Listed(h, c, s) ==> s in st.sockets && st.sockets[s].instance == i && st.sockets[s].chat == c
    ensures Mirrors(t, i, W.Disconnected(h, c, s))
  {
    forall d, p ensures p in W.Of(W.Disconnected(h, c, s).active, d) <==>
      p.socket in t.live && p.socket in t.sockets && t.sockets[p.socket] == B.Socket(i, d, p.user)
    {
      assert p in W.Of(h.active, d) <==>
        p.socket in st.live && p.socket in st.sockets && st.sockets[p.socket] == B.Socket(i, d, p.user);
      W.EventMeans(h, W.Disconnect(c, s), d, p);
      assert p in W.Of(h.active, c) && p.socket == s ==> W.Listed(h, c, s);
    }
    W.EventMeans(h, W.Disconnect(c, s), c, W.Conn(s, 0));
  }

  lemma SayCouples(w: World, run: B.Run, op: Op, text: int -> string)
    requires Telling(text) && Coupled(w, B.Last(true, run), text) && op.Say? && op.e !in w.sent
    ensures Coupled(Next(w, op, text), B.Last(true, Onward(run, Moves(w, op))), text)
  {
    var conns := W.Of(HubOf(w, op.i).active, op.c);
    var looped := Onward(B.Then(run, B.Emit(op.e, B.Emission(op.i, op.c))), Sends(op.e, op.i, conns, op.failing));
    SayLoops(w, run, op, text);
    var published := B.Then(looped, B.Publish(op.e, op.subscribers));
    PublishCouples(w, B.Last(true, run), B.Last(true, looped), B.Last(true, published), op, text);
    SayIsRun(run, op, conns);
  }

  lemma SayLoops(w: World, run: B.Run, op: Op, text: int -> string)
    requires Telling(text) && Coupled(w, B.Last(true, run), text) && op.Say? && op.e !in w.sent
    ensures var st := B.Last(true, run);
      var conns := W.Of(HubOf(w, op.i).active, op.c);
      var u := B.Last(true, Onward(B.Then(run, B.Emit(op.e, B.Emission(op.i, op.c))),
                                   Sends(op.e, op.i, conns, op.failing)));
      && AllMirror(Broadcast(w, op.e, op.i, op.c, op.failing, text), u, text)
      && u.emitted == st.emitted[op.e := B.Emission(op.i, op.c)] && u.published == st.published
      && u.inFlight == st.inFlight && u.phases == st.phases[(op.e, op.i) := B.Sending({})]
  {
    var st := B.Last(true, run);
    var e, i, c := op.e, op.i, op.c;
    var conns := W.Of(HubOf(w, i).active, c);
    var emitted := B.Then(run, B.Emit(e, B.Emission(i, c)));
    var u := B.Last(true, emitted);
    assert Mirrors(st, i, HubOf(w, i));
    SnapshotIsList(st, i, HubOf(w, i), c);
    SameSocketsMirror(w, st, u, text);
    SendsRun(emitted, e, i, conns, Sockets(conns), op.failing);
    LoopMirrors(w, u, B.Last(true, Onward(emitted, Sends(e, i, conns, op.failing))), e, i, c, op.failing, text);
    assert Sockets(conns) - Sockets(conns) == {};
  }

  lemma SayIsRun(run: B.Run, op: Op, conns: seq<W.Conn>)
    requires op.Say?
    ensures var sends := Sends(op.e, op.i, conns, op.failing);
      Onward(run, [B.Emit(op.e, B.Emission(op.i, op.c))] + sends + [B.Publish(op.e, op.subscribers)])
        == B.Then(Onward(B.Then(run, B.Emit(op.e, B.Emission(op.i, op.c))), sends), B.Publish(op.e, op.subscribers))
  {
    var sends := Sends(op.e, op.i, conns, op.failing);
    var first := [B.Emit(op.e, B.Emission(op.i, op.c))];
    OnwardSnoc(run, first + sends, B.Publish(op.e, op.subscribers));
    OnwardTwice(run, first, sends);
    OnwardOne(run, first[0]);
  }

  lemma PublishCouples(w: World, st: B.State, u: B.State, t: B.State, op: Op, text: int -> string)
    requires op.Say? && op.e !in w.sent && Coupled(w, st, text)
    requires AllMirror(Broadcast(w, op.e, op.i, op.c, op.failing, text), u, text)
    requires u.emitted == st.emitted[op.e := B.Emission(op.i, op.c)] && u.published == st.published
    requires u.inFlight == st.inFlight && u.phases == st.phases[(op.e, op.i) := B.Sending({})]
    requires t == B.Next(true, u, B.Publish(op.e, op.subscribers))
    ensures Coupled(Next(w, op, text), t, text)
  {
    var v := Next(w, op, text);
    assert B.Done(u, op.e, op.i) && op.e !in u.published;
    SameSocketsMirror(Broadcast(w, op.e, op.i, op.c, op.failing, text), u, t, text);
    forall j ensures HubOf(v, j) == HubOf(Broadcast(w, op.e, op.i, op.c, op.failing, text), j) {
    }
    forall j ensures Mirrors(t, j, HubOf(v, j)) && Counts(t, j, HubOf(v, j).log, text) {
      var b := Broadcast(w, op.e, op.i, op.c, op.failing, text);
      assert Mirrors(t, j, HubOf(b, j)) && Counts(t, j, HubOf(b, j).log, text);
    }
  }

  lemma HandCouples(w: World, run: B.Run, op: Op, text: int -> string)
    requires Telling(text) && Coupled(w, B.Last(true, run), text)
    requires op.Hand? && (op.e, op.i) in w.flight && op.e in w.sent
    ensures Coupled(Next(w, op, text), B.Last(true, Onward(run, Moves(w, op))), text)
  {
    var st := B.Last(true, run);
    var e, i, c := op.e, op.i, w.sent[op.e].chat;
    var delivered := B.Then(run, B.Deliver(e, i));
    var u := B.Last(true, delivered);
    OnwardOne(run, B.Deliver(e, i));
    SameSocketsMirror(w, st, u, text);
    if w.sent[e].origin == i {
      assert [B.Deliver(e, i)] + [] == [B.Deliver(e, i)];
      OwnIsDropped(w, u, op, text);
    } else {
      var conns := W.Of(HubOf(w, i).active, c);
      assert Mirrors(st, i, HubOf(w, i));
      SnapshotIsList(st, i, HubOf(w, i), c);
      SendsRun(delivered, e, i, conns, Sockets(conns), op.failing);
      OnwardTwice(run, [B.Deliver(e, i)], Sends(e, i, conns, op.failing));
      LoopMirrors(w, u, B.Last(true, Onward(delivered, Sends(e, i, conns, op.failing))), e, i, c, op.failing, text);
      ForeignIsSent(w, B.Last(true, Onward(delivered, Sends(e, i, conns, op.failing))), op, text);
    }
  }

  lemma OwnIsDropped(w: World, t: B.State, op: Op, text: int -> string)
    requires op.Hand? && (op.e, op.i) in w.flight && op.e in w.sent && w.sent[op.e].origin == op.i
    requires AllMirror(w, t, text)
    ensures AllMirror(Next(w, op, text), t, text)
  {
    var v := Next(w, op, text);
    forall j ensures Mirrors(t, j, HubOf(v, j)) && Counts(t, j, HubOf(v, j).log, text) {
      assert HubOf(v, j) == HubOf(w, j);
      assert Mirrors(t, j, HubOf(w, j)) && Counts(t, j, HubOf(w, j).log, text);
    }
  }

  lemma ForeignIsSent(w: World, t: B.State, op: Op, text: int -> string)
    requires op.Hand? && (op.e, op.i) in w.flight && op.e in w.sent && w.sent[op.e].origin != op.i
    requires AllMirror(Broadcast(w, op.e, op.i, w.sent[op.e].chat, op.failing, text), t, text)
    ensures AllMirror(Next(w, op, text), t, text)
  {
    var v, b := Next(w, op, text), Broadcast(w, op.e, op.i, w.sent[op.e].chat, op.failing, text);
    forall j ensures Mirrors(t, j, HubOf(v, j)) && Counts(t, j, HubOf(v, j).log, text) {
      assert HubOf(v, j) == HubOf(b, j);
      assert Mirrors(t, j, HubOf(b, j)) && Counts(t, j, HubOf(b, j).log, text);
    }
  }

  ghost predicate NoConnects(events: seq<B.Event>) {
    forall k :: 0 <= k < |events| ==> !events[k].Connect?
  }

  lemma {:induction false} SocketsStay(run: B.Run, events: seq<B.Event>)
    requires NoConnects(events)
    ensures B.Last(true, Onward(run, events)).sockets == B.Last(true, run).sockets
  {
    if events != [] {
      SocketsStay(run, events[..|events| - 1]);
    }
  }

  lemma {:induction false} SendsConnectNobody(e: int, i: int, conns: seq<W.Conn>, failing: set<int>)
    ensures NoConnects(Sends(e, i, conns, failing))
  {
    if conns != [] {
      SendsConnectNobody(e, i, conns[..|conns| - 1], failing);
    }
  }

  lemma MovesConnectNobody(w: World, op: Op)
    requires !op.Open?
    ensures NoConnects(Moves(w, op))
  {
    match op
    case Say(e, i, c, _, failing) => SendsConnectNobody(e, i, W.Of(HubOf(w, i).active, c), failing);
    case Hand(e, i, failing) =>
      if e in w.sent {
        SendsConnectNobody(e, i, W.Of(HubOf(w, i).active, w.sent[e].chat), failing);
      }
    case _ =>
  }

  lemma OpenCouples(w: World, run: B.Run, op: Op, text: int -> string)
    requires Coupled(w, B.Last(true, run), text) && op.Open? && op.s !in B.Last(true, run).sockets
    ensures Coupled(Next(w, op, text), B.Last(true, Onward(run, Moves(w, op))), text)
    ensures B.Last(true, Onward(run, Moves(w, op))).sockets.Keys == B.Last(true, run).sockets.Keys + {op.s}
  {
    var st := B.Last(true, run);
    B.RunKeepsInvariant(run);
    forall k | k in st.received ensures k.1 in st.sockets {
      assert B.ReceiptFits(st, k);
    }
    OpenMirrors(w, st, op, text);
    OnwardOne(run, B.Connect(op.s, B.Socket(op.i, op.c, op.u)));
  }

  lemma ShutCouples(w: World, run: B.Run, op: Op, text: int -> string)
    requires Coupled(w, B.Last(true, run), text) && op.Shut?
    ensures Coupled(Next(w, op, text), B.Last(true, Onward(run, Moves(w, op))), text)
  {
    ShutMirrors(w, B.Last(true, run), op, text);
    if W.Listed(HubOf(w, op.i), op.c, op.s) {
      OnwardOne(run, B.Disconnect(op.s));
      DisconnectCouples(w, B.Last(true, run), op, text);
    }
  }

  lemma DisconnectCouples(w: World, st: B.State, op: Op, text: int -> string)
    requires Coupled(w, st, text) && op.Shut?
    requires AllMirror(Next(w, op, text), B.Next(true, st, B.Disconnect(op.s)), text)
    ensures Coupled(Next(w, op, text), B.Next(true, st, B.Disconnect(op.s)), text)
  {
  }

  lemma OpCouples(w: World, run: B.Run, op: Op, text: int -> string)
    requires Telling(text) && Coupled(w, B.Last(true, run), text)
    requires op.Open? ==> op.s !in B.Last(true, run).sockets
    ensures Coupled(Next(w, op, text), B.Last(true, Onward(run, Moves(w, op))), text)
    ensures B.Last(true, Onward(run, Moves(w, op))).sockets.Keys
         == B.Last(true, run).sockets.Keys + if op.Open? then {op.s} else {}
  {
    if !op.Open? {
      MovesConnectNobody(w, op);
      SocketsStay(run, Moves(w, op));
    }
    match op
    case Open(_, _, _, _) => OpenCouples(w, run, op, text);
    case Shut(_, _, _) => ShutCouples(w, run, op, text);
    case Say(e, _, _, _, _) => if e !in w.sent { SayCouples(w, run, op, text); }
    case Hand(e, i, _) => if (e, i) in w.flight && e in w.sent { HandCouples(w, run, op, text); }
  }

  /** The registries and their logs are, at every point of every story, what the machine says. */
  lemma {:induction false} StoryCouples(story: Story, text: int -> string)
    requires Fresh(story) && Telling(text)
    ensures Coupled(Now(story, text), B.Last(true, RunOf(story, text)), text)
    ensures B.Last(true, RunOf(story, text)).sockets.Keys == Used(story)
  {
    if story.Then? {
      StoryCouples(story.past, text);
      OpCouples(Now(story.past, text), RunOf(story.past, text), story.op, text);
    } else {
      StartCouples(text);
    }
  }

  lemma StartCouples(text: int -> string)
    ensures Coupled(Now(Start, text), B.Init(), text)
  {
    var w := Now(Start, text);
    forall i ensures Mirrors(B.Init(), i, HubOf(w, i)) && Counts(B.Init(), i, HubOf(w, i).log, text) {
      assert W.Total(map[]) == 0;
    }
  }

  // --- What is heard ---

  /** No socket is ever sent an event twice with success, by whichever instance. */
  lemma HeardAtMostOnce(story: Story, text: int -> string, i: int, s: int, e: int)
    requires Fresh(story) && Telling(text)
    ensures Heard(HubOf(Now(story, text), i).log, s, text(e)) <= 1
  {
    StoryCouples(story, text);
    HeardIsReceived(Now(story, text), B.Last(true, RunOf(story, text)), text, i, s, e);
    ReceivedAtMostOnce(RunOf(story, text), e, s);
  }

  lemma HeardIsReceived(w: World, st: B.State, text: int -> string, i: int, s: int, e: int)
    requires Coupled(w, st, text)
    ensures Heard(HubOf(w, i).log, s, text(e))
         == if s in st.sockets && st.sockets[s].instance == i then st.received[(e, s)] else 0
  {
    assert Counts(st, i, HubOf(w, i).log, text);
  }

  lemma ReceivedAtMostOnce(run: B.Run, e: int, s: int)
    ensures B.Last(true, run).received[(e, s)] <= 1
  {
    B.AtMostOnce(run);
  }

  ghost predicate Continues(story: Story, past: Story) {
    story == past || (story.Then? && Continues(story.past, past))
  }

  lemma {:induction false} OnwardExtends(run: B.Run, events: seq<B.Event>, past: B.Run)
    requires B.Extends(run, past)
    ensures B.Extends(Onward(run, events), past)
  {
    if events != [] {
      OnwardExtends(run, events[..|events| - 1], past);
    }
  }

  lemma {:induction false} RunsExtend(story: Story, past: Story, text: int -> string, run: B.Run)
    requires Continues(story, past) && B.Extends(RunOf(past, text), run)
    ensures B.Extends(RunOf(story, text), run)
  {
    if story != past {
      RunsExtend(story.past, past, text, run);
      OnwardExtends(RunOf(story.past, text), Moves(Now(story.past, text), story.op), run);
    }
  }

  lemma {:induction false} ContinuesFresh(story: Story, past: Story)
    requires Fresh(story) && Continues(story, past)
    ensures Fresh(past)
  {
    if story != past {
      ContinuesFresh(story.past, past);
    }
  }

  /**
   A connection that is in the chat when an event is emitted, on whichever instance, and still there when its
   instance has handled the envelope, was sent the event exactly once with success.
   */
  lemma HeardExactlyOnce(past: Story, say: Op, story: Story, text: int -> string, j: int, p: W.Conn)
    requires Fresh(story) && Telling(text) && Continues(story, Then(past, say))
    requires say.Say? && say.e !in Now(past, text).sent
    requires p in W.Of(HubOf(Now(past, text), j).active, say.c)
    requires p in W.Of(HubOf(Now(story, text), j).active, say.c)
    requires var w := Now(story, text);
      && (j == say.i || (say.e in w.subscribers && j in w.subscribers[say.e]))
      && (say.e, j) !in w.flight
    ensures Heard(HubOf(Now(story, text), j).log, p.socket, text(say.e)) == 1
  {
    var first, last := RunOf(past, text), RunOf(story, text);
    var m := B.Emission(say.i, say.c);
    ContinuesFresh(story, Then(past, say));
    StoryCouples(past, text);
    StoryCouples(story, text);
    assert Mirrors(B.Last(true, first), j, HubOf(Now(past, text), j));
    assert Mirrors(B.Last(true, last), j, HubOf(Now(story, text), j));
    HeardIsReceived(Now(story, text), B.Last(true, last), text, j, p.socket, say.e);
    EmitsFirst(past, say, text);
    RunsExtend(story, Then(past, say), text, B.Then(first, B.Emit(say.e, m)));
    SentStays(story, Then(past, say), text, say.e);
    B.ExactlyOnce(first, last, say.e, m, p.socket);
  }

  lemma EmitsFirst(past: Story, say: Op, text: int -> string)
    requires say.Say? && say.e !in Now(past, text).sent
    ensures B.Extends(RunOf(Then(past, say), text), B.Then(RunOf(past, text), B.Emit(say.e, B.Emission(say.i, say.c))))
  {
    var run, w := RunOf(past, text), Now(past, text);
    var conns := W.Of(HubOf(w, say.i).active, say.c);
    SayIsRun(run, say, conns);
    var emitted := B.Then(run, B.Emit(say.e, B.Emission(say.i, say.c)));
    OnwardExtends(emitted, Sends(say.e, say.i, conns, say.failing), emitted);
  }

  lemma {:induction false} SentStays(story: Story, past: Story, text: int -> string, e: int)
    requires Continues(story, past) && e in Now(past, text).sent
    ensures e in Now(story, text).sent && Now(story, text).sent[e] == Now(past, text).sent[e]
  {
    if story != past {
      SentStays(story.past, past, text, e);
      StepKeepsSent(Now(story.past, text), story.op, text, e);
    }
  }

  lemma StepKeepsSent(w: World, op: Op, text: int -> string, e: int)
    requires e in w.sent
    ensures e in Next(w, op, text).sent && Next(w, op, text).sent[e] == w.sent[e]
  {
  }
}
