/**
 Delivering chat events over several server instances. A command broadcasts to the sockets of its own
 instance, then publishes one envelope; every instance that gets the envelope broadcasts to its own
 sockets, and the origin drops it. Sends of different broadcasts, connects and disconnects interleave
 freely. Sockets are fresh, the bus hands an envelope to an instance at most once.
 */
module RealtimeBus {
  import opened Common
  import W = WsManager

  // --- One instance handling an envelope ---

  /** An id that is missing from the envelope or not a number is `None`, so is a payload that is no object. */
  datatype Envelope =
    | ChatEvent(origin: int, chat: Option<int>, payload: Option<string>)
    | InboxEvent(origin: int, user: Option<int>, payload: Option<string>)
    | ReactionsRefresh(origin: int, chat: Option<int>, message: Option<int>)
    | OtherKind(origin: int)

  datatype Raw = NotText | Undecodable | Decoded(envelope: Envelope)

  /** The same payload for every viewer. */
  function Always(payload: string): int -> string {
    (viewer: int) => payload
  }

  /** The registry after an envelope with a payload for a chat; an instance drops its own envelopes. */
  function Received(h: W.Hub, id: int, origin: int, chat: int, payload: string, failing: set<int>): W.Hub {
    if origin == id then h else W.Sent(h, chat, W.Of(h.active, chat), None, Always(payload), failing)
  }

  /** The log has grown by one attempt for each connection, in order, with that viewer's message. */
  ghost predicate OneAttemptEach(before: seq<W.Attempt>, after: seq<W.Attempt>, conns: seq<W.Conn>,
                                 build: int -> string, failing: set<int>) {
    && |after| == |before| + |conns| && after[..|before|] == before
    && forall i :: 0 <= i < |conns| ==>
         after[|before| + i] == W.Attempt(conns[i].socket, build(conns[i].user), conns[i].socket !in failing)
  }

  lemma {:induction false} AttemptEach(conns: seq<W.Conn>, build: int -> string, failing: set<int>)
    ensures OneAttemptEach([], W.Attempts(conns, None, build, failing), conns, build, failing)
  {
    if conns != [] {
      AttemptEach(conns[..|conns| - 1], build, failing);
    }
  }

  lemma BroadcastAttempts(h: W.Hub, chat: int, build: int -> string, failing: set<int>)
    ensures var conns := W.Of(h.active, chat);
      OneAttemptEach(h.log, W.Sent(h, chat, conns, None, build, failing).log, conns, build, failing)
  {
    var conns := W.Of(h.active, chat);
    W.SentLog(h, chat, conns, None, build, failing);
    AttemptEach(conns, build, failing);
    assert (h.log + W.Attempts(conns, None, build, failing))[..|h.log|] == h.log;
  }

  /** A connected user is sent the message once; a socket that fails is taken out, and the error counted. */
  ghost predicate OneInboxAttempt(b: W.Inbox, t: W.Inbox, user: int, message: string, failing: set<int>) {
    if user !in b.sockets then t == b else
      var socket := b.sockets[user];
      && t.log == b.log + [W.Attempt(socket, message, socket !in failing)]
      && (forall u :: u in t.sockets <==> u in b.sockets && !(u == user && socket in failing))
      && (forall u :: u in t.sockets ==> t.sockets[u] == b.sockets[u])
      && t.sendErrors == b.sendErrors + (if socket in failing then 1 else 0)
      && t.connects == b.connects && t.closed == b.closed
      && t.disconnects == b.disconnects + (if socket in failing then 1 else 0)
  }

  class Instance {
    const id: int
    const stats: W.RealtimeStats
    const manager: W.ConnectionManager
    const inbox: W.InboxConnectionManager
    var receivedTotal: int
    var deliveredTotal: int
    var receiveErrorTotal: int

    constructor (id: int)
      ensures this.id == id && receivedTotal == 0 && deliveredTotal == 0 && receiveErrorTotal == 0
      ensures manager.stats == stats && inbox.stats == stats
      ensures manager.activeConnections == map[] && inbox.userIdToWs == map[]
    {
      var s := new W.RealtimeStats();
      var m := new W.ConnectionManager(s);
      var b := new W.InboxConnectionManager(s);
      this.id, stats, manager, inbox := id, s, m, b;
      receivedTotal, deliveredTotal, receiveErrorTotal := 0, 0, 0;
    }

    function ConnectionsOf(chat: int): seq<W.Conn>
      reads manager
    {
      W.Of(manager.activeConnections, chat)
    }

    /**
     `_handle_message`. `build` is the reactions payload of a viewer. What is no envelope of another instance
     reaches nobody.
     */
    method HandleMessage(raw: Raw, build: int -> string, failing: set<int>)
      requires manager.stats == stats && inbox.stats == stats
      modifies this, manager, inbox, stats
      ensures !(raw.Decoded? && raw.envelope.origin != id) ==>
        && manager.State() == old(manager.State()) && inbox.State() == old(inbox.State())
        && receivedTotal == old(receivedTotal) && deliveredTotal == old(deliveredTotal)
        && receiveErrorTotal == old(receiveErrorTotal) + if raw.Undecodable? then 1 else 0
      ensures raw.Decoded? && raw.envelope.origin != id ==>
        && receivedTotal == old(receivedTotal) + 1
        && match raw.envelope
           case ChatEvent(origin, Some(chat), Some(payload)) =>
             && deliveredTotal == old(deliveredTotal) + 1 && receiveErrorTotal == old(receiveErrorTotal)
             && OneAttemptEach(old(manager.log), manager.log, old(ConnectionsOf(chat)), Always(payload), failing)
             && manager.State() == Received(old(manager.State()), id, origin, chat, payload, failing)
             && inbox.userIdToWs == old(inbox.userIdToWs) && inbox.log == old(inbox.log)
           case ReactionsRefresh(_, Some(chat), Some(_)) =>
             && deliveredTotal == old(deliveredTotal) + 1 && receiveErrorTotal == old(receiveErrorTotal)
             && OneAttemptEach(old(manager.log), manager.log, old(ConnectionsOf(chat)), build, failing)
             && manager.State() == W.Sent(old(manager.State()), chat, old(ConnectionsOf(chat)), None, build, failing)
             && inbox.userIdToWs == old(inbox.userIdToWs) && inbox.log == old(inbox.log)
           case InboxEvent(_, Some(user), Some(payload)) =>
             && deliveredTotal == old(deliveredTotal) + 1 && receiveErrorTotal == old(receiveErrorTotal)
             && OneInboxAttempt(old(inbox.State()), inbox.State(), user, payload, failing)
             && manager.activeConnections == old(manager.activeConnections) && manager.log == old(manager.log)
           case ChatEvent(_, None, Some(_)) | InboxEvent(_, None, Some(_))
              | ReactionsRefresh(_, None, _) | ReactionsRefresh(_, Some(_), None) =>
             && deliveredTotal == old(deliveredTotal) && receiveErrorTotal == old(receiveErrorTotal) + 1
             && manager.State() == old(manager.State()) && inbox.State() == old(inbox.State())
           case _ =>
             && deliveredTotal == old(deliveredTotal) && receiveErrorTotal == old(receiveErrorTotal)
             && manager.State() == old(manager.State()) && inbox.State() == old(inbox.State())
    {
      if raw.NotText? {
        return;
      }
      if raw.Undecodable? {
        receiveErrorTotal := receiveErrorTotal + 1;
        return;
      }
      var e := raw.envelope;
      if e.origin == id {
        return;
      }
      receivedTotal := receivedTotal + 1;
      match e {
        case ChatEvent(_, chat, payload) =>
          if payload.None? {
            return;
          }
          if chat.None? {
            receiveErrorTotal := receiveErrorTotal + 1;
            return;
          }
          BroadcastAttempts(manager.State(), chat.value, Always(payload.value), failing);
          W.SentSame(manager.State(), chat.value, ConnectionsOf(chat.value), None, _ => payload.value,
                     Always(payload.value), failing);
          manager.Broadcast(chat.value, payload.value, failing);
          deliveredTotal := deliveredTotal + 1;
        case InboxEvent(_, user, payload) =>
          if payload.None? {
            return;
          }
          if user.None? {
            receiveErrorTotal := receiveErrorTotal + 1;
            return;
          }
          var sent := inbox.SendJson(user.value, payload.value, failing);
          deliveredTotal := deliveredTotal + 1;
        case ReactionsRefresh(_, chat, message) =>
          if chat.None? || message.None? {
            receiveErrorTotal := receiveErrorTotal + 1;
            return;
          }
          BroadcastAttempts(manager.State(), chat.value, build, failing);
          manager.BroadcastPersonalized(chat.value, build, failing);
          deliveredTotal := deliveredTotal + 1;
        case OtherKind(_) =>
      }
    }
  }

  // --- Many instances ---

  datatype Socket = Socket(instance: int, chat: int, user: int)

  datatype Emission = Emission(origin: int, chat: int)

  /** One instance's broadcast loop for one event. */
  datatype Phase = Sending(todo: set<int>) | Cancelled

  datatype State = State(
    sockets: map<int, Socket>,           // every socket ever connected
    live: set<int>,
    emitted: map<int, Emission>,
    published: map<int, set<int>>,       // event to the instances subscribed at that moment
    inFlight: set<(int, int)>,           // (event, instance)
    phases: map<(int, int), Phase>,      // (event, instance)
    received: multiset<(int, int)>)      // (event, socket)

  datatype Event =
    | Connect(s: int, socket: Socket)
    | Disconnect(s: int)
    | Emit(e: int, emission: Emission)
    | Publish(e: int, subscribers: set<int>)
    | Deliver(e: int, instance: int)
    | Send(e: int, instance: int, s: int, ok: bool)
    | Cancel(e: int, instance: int)

  function Init(): State {
    State(map[], {}, map[], map[], {}, map[], multiset{})
  }

  /** The snapshot a broadcast takes: the live sockets of the chat on this instance. */
  function Snapshot(st: State, instance: int, chat: int): set<int> {
    set s | s in st.live && s in st.sockets && st.sockets[s].instance == instance && st.sockets[s].chat == chat
  }

  predicate Done(st: State, e: int, instance: int) {
    (e, instance) in st.phases && st.phases[(e, instance)] == Sending({})
  }

  predicate Enabled(st: State, ev: Event) {
    match ev
    case Connect(s, _) => s !in st.sockets
    case Disconnect(_) => true
    case Emit(e, _) => e !in st.emitted
    case Publish(e, _) => e in st.emitted && e !in st.published && Done(st, e, st.emitted[e].origin)
    case Deliver(e, i) => (e, i) in st.inFlight && e in st.emitted
    case Send(e, i, s, _) => (e, i) in st.phases && st.phases[(e, i)].Sending? && s in st.phases[(e, i)].todo
    case Cancel(e, i) => (e, i) in st.phases && st.phases[(e, i)].Sending? && st.phases[(e, i)].todo != {}
  }

  function Delivered(filter: bool, st: State, e: int, i: int): State
    requires e in st.emitted
  {
    var taken := st.(inFlight := st.inFlight - {(e, i)});
    if filter && i == st.emitted[e].origin then taken
    else taken.(phases := st.phases[(e, i) := Sending(Snapshot(st, i, st.emitted[e].chat))])
  }

  /** One step; `filter` says whether an instance drops its own envelopes, as it does. */
  function Next(filter: bool, st: State, ev: Event): State {
    if !Enabled(st, ev) then st else
      match ev
      case Connect(s, socket) =>
        var replaced := set t | t in st.live && t in st.sockets && st.sockets[t] == socket;
        st.(sockets := st.sockets[s := socket], live := st.live - replaced + {s})
      case Disconnect(s) => st.(live := st.live - {s})
      case Emit(e, m) =>
        st.(emitted := st.emitted[e := m],
            phases := st.phases[(e, m.origin) := Sending(Snapshot(st, m.origin, m.chat))])
      case Publish(e, subscribers) =>
        st.(published := st.published[e := subscribers], inFlight := st.inFlight + set i | i in subscribers :: (e, i))
      case Deliver(e, i) => Delivered(filter, st, e, i)
      case Send(e, i, s, ok) =>
        var rest := st.(phases := st.phases[(e, i) := Sending(st.phases[(e, i)].todo - {s})]);
        if ok then rest.(received := rest.received + multiset{(e, s)}) else rest.(live := rest.live - {s})
      case Cancel(e, i) => st.(phases := st.phases[(e, i) := Cancelled])
  }

  datatype Run = Start | Then(past: Run, event: Event)

  function Last(filter: bool, run: Run): State {
    match run
    case Start => Init()
    case Then(past, ev) => Next(filter, Last(filter, past), ev)
  }

  // --- At most once ---

  ghost predicate ReceivedOnce(st: State) {
    forall k :: st.received[k] <= 1
  }

  ghost predicate SocketsFit(st: State) {
    && (forall s :: s in st.live ==> s in st.sockets)
    && forall k :: k in st.phases ==> k.0 in st.emitted && PhaseFits(st, k)
  }

  /** A loop only has sockets of its instance and chat before it. */
  ghost predicate PhaseFits(st: State, k: (int, int))
    requires k in st.phases && k.0 in st.emitted
  {
    st.phases[k].Sending? ==> forall s :: s in st.phases[k].todo ==>
      s in st.sockets && st.sockets[s].instance == k.1 && st.sockets[s].chat == st.emitted[k.0].chat
  }

  /** The origin starts its loop when the event is emitted, a remote instance only after the publication. */
  ghost predicate LoopsFit(st: State) {
    && (forall e :: e in st.emitted ==> (e, st.emitted[e].origin) in st.phases)
    && (forall k :: k in st.phases ==> k.0 in st.emitted)
    && (forall k :: k in st.phases && k.0 in st.emitted && k.1 != st.emitted[k.0].origin ==> k.0 in st.published)
  }

  /** An envelope is in flight only while its instance has not started the loop, but for the origin. */
  ghost predicate EnvelopesFit(st: State) {
    && (forall e :: e in st.published ==> e in st.emitted)
    && (forall k :: k in st.inFlight ==> k.0 in st.published)
    && (forall k :: k in st.inFlight && k.0 in st.emitted && k in st.phases ==> k.1 == st.emitted[k.0].origin)
  }

  /** An envelope handed to a subscriber is in flight until the subscriber's loop has started. */
  ghost predicate NoneLost(st: State) {
    forall e, i :: e in st.published && e in st.emitted && i in st.published[e] && i != st.emitted[e].origin ==>
      (e, i) in st.inFlight || (e, i) in st.phases
  }

  /** Whoever has received an event has been passed by the loop of its own instance. */
  ghost predicate ReceiptFits(st: State, k: (int, int)) {
    k in st.received ==>
      && st.received[k] == 1
      && k.1 in st.sockets
      && var home := (k.0, st.sockets[k.1].instance);
         && home in st.phases
         && (st.phases[home].Sending? ==> k.1 !in st.phases[home].todo)
  }

  ghost predicate Inv(st: State) {
    SocketsFit(st) && LoopsFit(st) && EnvelopesFit(st) && NoneLost(st) && forall k :: ReceiptFits(st, k)
  }

  lemma SocketsKept(st: State, ev: Event)
    requires Inv(st)
    ensures SocketsFit(Next(true, st, ev))
  {
    var t := Next(true, st, ev);
    forall k | k in t.phases ensures k.0 in t.emitted && PhaseFits(t, k) {
      if k in st.phases {
        assert PhaseFits(st, k);
      }
    }
  }

  lemma LoopsKept(st: State, ev: Event)
    requires LoopsFit(st) && EnvelopesFit(st)
    ensures LoopsFit(Next(true, st, ev))
  {
  }

  lemma EnvelopesKept(st: State, ev: Event)
    requires LoopsFit(st) && EnvelopesFit(st)
    ensures EnvelopesFit(Next(true, st, ev))
  {
  }

  lemma NoneGetsLost(st: State, ev: Event)
    requires EnvelopesFit(st) && NoneLost(st)
    ensures NoneLost(Next(true, st, ev))
  {
  }

  lemma ReceiptsKept(st: State, ev: Event, k: (int, int))
    requires Inv(st)
    ensures ReceiptFits(Next(true, st, ev), k)
  {
    assert ReceiptFits(st, k);
    if ev.Send? && Enabled(st, ev) {
      assert PhaseFits(st, (ev.e, ev.instance));
    }
  }

  lemma {:induction false} RunKeepsInvariant(run: Run)
    ensures Inv(Last(true, run))
  {
    if run.Then? {
      var st := Last(true, run.past);
      RunKeepsInvariant(run.past);
      SocketsKept(st, run.event);
      LoopsKept(st, run.event);
      EnvelopesKept(st, run.event);
      NoneGetsLost(st, run.event);
      forall k ensures ReceiptFits(Last(true, run), k) {
        ReceiptsKept(st, run.event, k);
      }
    }
  }

  /** In every run, no socket receives an event twice. */
  lemma AtMostOnce(run: Run)
    ensures ReceivedOnce(Last(true, run))
  {
    RunKeepsInvariant(run);
    forall k ensures Last(true, run).received[k] <= 1 {
      assert ReceiptFits(Last(true, run), k);
    }
  }

  // --- Exactly once ---

  ghost predicate Extends(run: Run, past: Run) {
    run == past || (run.Then? && Extends(run.past, past))
  }

  /** While `s` is live, the loop of its instance either still has it or has served it. */
  ghost predicate Served(st: State, e: int, s: int) {
    && e in st.emitted && s in st.sockets && st.sockets[s].chat == st.emitted[e].chat
    && (s in st.live ==>
          var home := (e, st.sockets[s].instance);
          home in st.phases && st.phases[home].Sending? ==> s in st.phases[home].todo || st.received[(e, s)] >= 1)
  }

  lemma ServedKept(st: State, ev: Event, e: int, s: int)
    requires Inv(st) && Served(st, e, s)
    ensures Served(Next(true, st, ev), e, s)
  {
  }

  lemma {:induction false} ServedSince(past: Run, run: Run, e: int, s: int)
    requires Extends(run, past) && Served(Last(true, past), e, s)
    ensures Served(Last(true, run), e, s)
  {
    if run != past {
      ServedSince(past, run.past, e, s);
      RunKeepsInvariant(run.past);
      ServedKept(Last(true, run.past), run.event, e, s);
    }
  }

  /** The bus has handed the envelope to the instance, and no loop for it was broken off. */
  predicate Settled(st: State, e: int, instance: int) {
    && e in st.emitted
    && (instance == st.emitted[e].origin || (e in st.published && instance in st.published[e]))
    && (e, instance) !in st.inFlight
    && ((e, instance) in st.phases ==> st.phases[(e, instance)] == Sending({}))
  }

  /**
   A socket that is live when the event is emitted and still live when its instance has settled the
   event has received it exactly once, wherever it is connected and whatever happened in between.
   */
  lemma ExactlyOnce(past: Run, run: Run, e: int, m: Emission, s: int)
    requires var st := Last(true, past);
      Enabled(st, Emit(e, m)) && s in st.live && s in st.sockets && st.sockets[s].chat == m.chat
    requires Extends(run, Then(past, Emit(e, m)))
    requires var st := Last(true, run); s in st.live && s in st.sockets && Settled(st, e, st.sockets[s].instance)
    ensures Last(true, run).received[(e, s)] == 1
  {
    RunKeepsInvariant(past);
    RunKeepsInvariant(run);
    var first := Last(true, Then(past, Emit(e, m)));
    EmitServes(Last(true, past), e, m, s);
    ServedSince(Then(past, Emit(e, m)), run, e, s);
    var st := Last(true, run);
    var home := (e, st.sockets[s].instance);
    assert home in st.phases;
    assert ReceiptFits(st, (e, s));
  }

  lemma EmitServes(st: State, e: int, m: Emission, s: int)
    requires Inv(st) && Enabled(st, Emit(e, m)) && s in st.live && s in st.sockets && st.sockets[s].chat == m.chat
    ensures Served(Next(true, st, Emit(e, m)), e, s)
  {
    assert (e, st.sockets[s].instance) !in st.phases;
  }

  // --- The origin filter ---

  function Twice(): Run {
    var connected := Then(Start, Connect(7, Socket(1, 5, 3)));
    var local := Then(Then(connected, Emit(9, Emission(1, 5))), Send(9, 1, 7, true));
    Then(Then(Then(local, Publish(9, {1})), Deliver(9, 1)), Send(9, 1, 7, true))
  }

  lemma WithoutFilterTwice()
    ensures !ReceivedOnce(Last(false, Twice()))
  {
    var connected := Then(Start, Connect(7, Socket(1, 5, 3)));
    var emitted := Then(connected, Emit(9, Emission(1, 5)));
    assert Snapshot(Last(false, connected), 1, 5) == {7};
    var local := Then(emitted, Send(9, 1, 7, true));
    var st := Last(false, local);
    assert Done(st, 9, 1) && st.received[(9, 7)] == 1;
    var published := Then(local, Publish(9, {1}));
    assert (9, 1) in Last(false, published).inFlight;
    var again := Then(published, Deliver(9, 1));
    assert Snapshot(Last(false, published), 1, 5) == {7};
    assert Last(false, again).phases[(9, 1)] == Sending({7});
    assert Last(false, Twice()).received[(9, 7)] == 2;
  }

  /** Dropping one's own envelopes is what keeps delivery at most once. */
  lemma FilterDecides(filter: bool)
    ensures (forall run :: ReceivedOnce(Last(filter, run))) <==> filter
  {
    if filter {
      forall run ensures ReceivedOnce(Last(filter, run)) {
        AtMostOnce(run);
      }
    } else {
      WithoutFilterTwice();
    }
  }
}
