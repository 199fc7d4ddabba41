/** Notifications: buffered while nobody listens, drained by a new subscriber,
    broadcast otherwise (cmd/killswitch/admin.go:323-328, 340-389, 450-498).

    Accepting a notification and taking the buffer are locked sections; every single
    write to a client is an unlocked action of its own that may fail. What a call
    has left to write is its state, so a run is any interleaving of broadcasts,
    drains and changes of the clients. */
module Notifications {

  datatype Level = Normal | Warn | Error | OtherLevel(text: string)

  datatype Notification = Notification(level: Level, header: string, text: string)

  datatype EventType = ConfigEvent | ClientsEvent | InterfacesEvent | NotificationEvent

  predicate Acceptable(n: Notification) {
    !n.level.OtherLevel? && n.text != ""
  }

  /** An accepted notification and who was subscribed when it was accepted. From here
      on its number in the log stands for it. */
  datatype Accepted = Accepted(note: Notification, audience: set<nat>)

  datatype Drain = Drain(client: nat, taken: seq<nat>)

  /** One message for one client. */
  datatype Delivery = Delivery(client: nat, note: nat)

  /** What a call in flight has left to write. */
  datatype Call =
    | Broadcasting(note: nat, left: set<nat>)
    | Draining(client: nat, rest: seq<nat>)

  datatype System = System(
    lastId: nat, clients: map<nat, set<EventType>>, buffer: seq<nat>,
    log: seq<Accepted>, drains: seq<Drain>, calls: map<nat, Call>,
    sent: seq<Delivery>, failed: set<Delivery>)

  datatype Action =
    | Connect
    | Disconnect(id: nat)
    | Subscribe(id: nat, types: set<EventType>)
    | Accept(call: nat, note: Notification)
    | Take(call: nat, client: nat)
    | Send(call: nat, client: nat, ok: bool)

  function Initial(): System {
    System(0, map[], [], [], [], map[], [], {})
  }

  function Subscribers(clients: map<nat, set<EventType>>): set<nat> {
    set id | id in clients && NotificationEvent in clients[id]
  }

  /** A connection does one thing at a time: while it drains, it neither subscribes
      again nor departs. */
  predicate Idle(s: System, client: nat) {
    forall id :: id in s.calls && s.calls[id].Draining? ==> s.calls[id].client != client
  }

  predicate CanAct(s: System, a: Action) {
    match a
    case Connect => true
    case Disconnect(id) => Idle(s, id)
    case Subscribe(id, _) => Idle(s, id)
    case Accept(call, note) => call !in s.calls && Acceptable(note)
    case Take(call, client) => call !in s.calls && client in Subscribers(s.clients) && Idle(s, client)
    case Send(call, client, _) =>
      call in s.calls &&
      match s.calls[call]
      case Broadcasting(_, left) => client in left
      case Draining(c, rest) => client == c && rest != []
  }

  /** A call that has nothing left to write is over. */
  function Continue(calls: map<nat, Call>, id: nat, c: Call): map<nat, Call> {
    if (c.Broadcasting? && c.left == {}) || (c.Draining? && c.rest == []) then calls - {id} else calls[id := c]
  }

  function Act(s: System, a: Action): System
    requires CanAct(s, a)
  {
    match a
    case Connect => s.(lastId := s.lastId + 1, clients := s.clients[s.lastId + 1 := {}])
    case Disconnect(id) => s.(clients := s.clients - {id})
    case Subscribe(id, types) => if id in s.clients then s.(clients := s.clients[id := types]) else s
    case Accept(call, note) =>
      var n, audience := |s.log|, Subscribers(s.clients);
      var t := s.(log := s.log + [Accepted(note, audience)]);
      if audience == {} then t.(buffer := s.buffer + [n]) else t.(calls := s.calls[call := Broadcasting(n, audience)])
    case Take(call, client) =>
      if s.buffer == [] then s
      else s.(buffer := [], drains := s.drains + [Drain(client, s.buffer)],
              calls := s.calls[call := Draining(client, s.buffer)])
    case Send(call, client, ok) =>
      match s.calls[call]
      case Broadcasting(n, left) =>
        var t := s.(calls := Continue(s.calls, call, Broadcasting(n, left - {client})));
        if ok then t.(sent := s.sent + [Delivery(client, n)]) else t.(failed := s.failed + {Delivery(client, n)})
      case Draining(c, rest) =>
        if ok then
          s.(calls := Continue(s.calls, call, Draining(c, rest[1..])), sent := s.sent + [Delivery(c, rest[0])])
        else
          s.(calls := s.calls - {call}, failed := s.failed + set n | n in rest :: Delivery(c, n))
  }

  ghost predicate Run(states: seq<System>, actions: seq<Action>) {
    && |states| == |actions| + 1 && states[0] == Initial()
    && forall k :: 0 <= k < |actions| ==> CanAct(states[k], actions[k]) && states[k + 1] == Act(states[k], actions[k])
  }

  // ---------- where a notification can be ----------

  ghost predicate Unheard(s: System, n: nat) {
    n < |s.log| && s.log[n].audience == {}
  }

  ghost predicate TakenAt(s: System, k: nat, n: nat) {
    k < |s.drains| && n in s.drains[k].taken
  }

  /** The client should get this notification: it was in its audience, or the client
      took it from the buffer. */
  ghost predicate Owed(s: System, d: Delivery) {
    || (d.note < |s.log| && d.client in s.log[d.note].audience)
    || exists k: nat :: TakenAt(s, k, d.note) && s.drains[k].client == d.client
  }

  predicate InCall(c: Call, d: Delivery) {
    match c
    case Broadcasting(n, left) => d.note == n && d.client in left
    case Draining(client, rest) => d.client == client && d.note in rest
  }

  ghost predicate Pending(s: System, d: Delivery) {
    exists id :: id in s.calls && InCall(s.calls[id], d)
  }

  // ---------- the invariant ----------

  predicate Ascending(s: seq<nat>) {
    forall i, j :: 0 <= i < j < |s| ==> s[i] < s[j]
  }

  ghost predicate Below(s: seq<nat>, t: seq<nat>) {
    forall x, y :: x in s && y in t ==> x < y
  }

  /** The drains and then the buffer list the unheard notifications in order. */
  ghost predicate Places(s: System) {
    && Ascending(s.buffer)
    && (forall k :: 0 <= k < |s.drains| ==> Ascending(s.drains[k].taken) && Below(s.drains[k].taken, s.buffer))
    && (forall j, k :: 0 <= j < k < |s.drains| ==> Below(s.drains[j].taken, s.drains[k].taken))
    && (forall n :: n in s.buffer ==> Unheard(s, n))
    && (forall k: nat, n :: TakenAt(s, k, n) ==> Unheard(s, n))
    && (forall n :: Unheard(s, n) ==> n in s.buffer || exists k: nat :: TakenAt(s, k, n))
  }

  /** Every owed message, and no other, has exactly one fate. */
  ghost predicate Fates(s: System) {
    && (forall d :: Owed(s, d) <==> Pending(s, d) || d in s.sent || d in s.failed)
    && (forall d :: Pending(s, d) ==> d !in s.sent && d !in s.failed)
    && (forall d :: d in s.sent ==> d !in s.failed)
    && (forall i, j :: 0 <= i < j < |s.sent| ==> s.sent[i] != s.sent[j])
  }

  ghost predicate CallsApart(s: System) {
    && (forall a, b, d :: a in s.calls && b in s.calls && a != b ==> !(InCall(s.calls[a], d) && InCall(s.calls[b], d)))
    && (forall id :: id in s.calls && s.calls[id].Draining? ==> s.calls[id].rest != [] && Ascending(s.calls[id].rest))
    && (forall a, b :: a in s.calls && b in s.calls && a != b && s.calls[a].Draining? && s.calls[b].Draining? ==>
          s.calls[a].client != s.calls[b].client)
  }

  /** What a client drains reaches it in the order of acceptance. */
  ghost predicate DrainOrder(s: System) {
    && (forall i, j :: 0 <= i < j < |s.sent| ==> Ordered(s, s.sent[i], s.sent[j]))
    && (forall id, d :: id in s.calls && s.calls[id].Draining? && d in s.sent ==> Ahead(s, d, s.calls[id]))
  }

  ghost predicate Ordered(s: System, d: Delivery, e: Delivery) {
    d.client == e.client && Unheard(s, d.note) && Unheard(s, e.note) ==> d.note < e.note
  }

  ghost predicate Ahead(s: System, d: Delivery, c: Call)
    requires c.Draining?
  {
    d.client == c.client && Unheard(s, d.note) ==> forall n :: n in c.rest ==> d.note < n
  }

  /** A broadcast writes to the audience of its notification. */
  ghost predicate BroadcastsLive(s: System) {
    forall id, d :: id in s.calls && s.calls[id].Broadcasting? && InCall(s.calls[id], d) ==>
                      d.note < |s.log| && d.client in s.log[d.note].audience
  }

  ghost predicate Invariant(s: System) {
    Places(s) && Fates(s) && CallsApart(s) && BroadcastsLive(s) && DrainOrder(s)
  }

  lemma OwedIsLogged(s: System, d: Delivery)
    requires Places(s) && Owed(s, d)
    ensures d.note < |s.log|
  {
    if k: nat :| TakenAt(s, k, d.note) && s.drains[k].client == d.client {
      assert Unheard(s, d.note);
    }
  }

  /** A buffered notification is owed to nobody yet. */
  lemma BufferedNotOwed(s: System, d: Delivery)
    requires Places(s) && d.note in s.buffer
    ensures !Owed(s, d)
  {
    assert Unheard(s, d.note);
    forall k: nat | k < |s.drains| ensures !TakenAt(s, k, d.note) {
      assert Below(s.drains[k].taken, s.buffer);
    }
  }

  // ---------- every action keeps it ----------

  /** Connects, departures and subscriptions move no message. */
  lemma ClientStep(s: System, t: System)
    requires Invariant(s) && t == s.(lastId := t.lastId, clients := t.clients)
    ensures Invariant(t)
  {
    forall d ensures Owed(t, d) <==> Owed(s, d) {
      assert forall k: nat :: TakenAt(t, k, d.note) <==> TakenAt(s, k, d.note);
    }
    forall d ensures Pending(t, d) <==> Pending(s, d) {
    }
    forall n ensures Unheard(t, n) <==> Unheard(s, n) {
    }
    forall k: nat, n ensures TakenAt(t, k, n) <==> TakenAt(s, k, n) {
    }
    forall i, j | 0 <= i < j < |t.sent| ensures Ordered(t, t.sent[i], t.sent[j]) {
      assert Ordered(s, s.sent[i], s.sent[j]);
    }
    forall id, d | id in t.calls && t.calls[id].Draining? && d in t.sent ensures Ahead(t, d, t.calls[id]) {
      assert Ahead(s, d, s.calls[id]);
    }
  }

  lemma AcceptPlaces(s: System, t: System, a: Accepted)
    requires Places(s) && t.drains == s.drains && t.log == s.log + [a]
    requires t.buffer == if a.audience == {} then s.buffer + [|s.log|] else s.buffer
    ensures Places(t)
  {
    var n := |s.log|;
    forall m ensures Unheard(t, m) <==> Unheard(s, m) || (m == n && a.audience == {}) {
    }
    forall k: nat, m ensures TakenAt(t, k, m) <==> TakenAt(s, k, m) {
    }
    forall i | 0 <= i < |s.buffer| ensures s.buffer[i] < n {
      assert s.buffer[i] in s.buffer && Unheard(s, s.buffer[i]);
    }
    forall k | 0 <= k < |t.drains| ensures Below(t.drains[k].taken, t.buffer) {
      forall x | x in t.drains[k].taken ensures x < n {
        assert TakenAt(s, k, x) && Unheard(s, x);
      }
      assert Below(s.drains[k].taken, s.buffer);
    }
    forall m | Unheard(t, m) && m !in t.buffer ensures exists k: nat :: TakenAt(t, k, m) {
      var k: nat :| TakenAt(s, k, m);
      assert TakenAt(t, k, m);
    }
  }

  lemma AcceptFates(s: System, t: System, a: Accepted, call: nat)
    requires Invariant(s) && call !in s.calls && t.drains == s.drains && t.log == s.log + [a] && t.sent == s.sent &&
             t.failed == s.failed
    requires t.calls == if a.audience == {} then s.calls else s.calls[call := Broadcasting(|s.log|, a.audience)]
    ensures Fates(t) && CallsApart(t) && BroadcastsLive(t)
  {
    var n := |s.log|;
    forall d ensures Owed(t, d) <==> Owed(s, d) || (d.note == n && d.client in a.audience) {
      assert forall k: nat :: TakenAt(t, k, d.note) <==> TakenAt(s, k, d.note);
    }
    forall d ensures Pending(t, d) <==> Pending(s, d) || (d.note == n && d.client in a.audience) {
      if id :| id in s.calls && InCall(s.calls[id], d) {
        assert id in t.calls && t.calls[id] == s.calls[id];
      }
      if d.note == n && d.client in a.audience {
        assert InCall(t.calls[call], d);
      }
    }
    forall d | Owed(s, d) ensures d.note < n { OwedIsLogged(s, d); }
    forall x, y, d | x in t.calls && y in t.calls && x != y ensures !(InCall(t.calls[x], d) && InCall(t.calls[y], d)) {
      if InCall(t.calls[x], d) && x in s.calls { assert Pending(s, d); }
      if InCall(t.calls[y], d) && y in s.calls { assert Pending(s, d); }
    }
  }

  lemma AcceptStep(s: System, a: Action)
    requires Invariant(s) && CanAct(s, a) && a.Accept?
    ensures Invariant(Act(s, a))
  {
    var t := Act(s, a);
    AcceptPlaces(s, t, t.log[|s.log|]);
    AcceptFates(s, t, t.log[|s.log|], a.call);
    forall d | d in s.sent ensures Unheard(t, d.note) <==> Unheard(s, d.note) {
      assert Owed(s, d);
      OwedIsLogged(s, d);
    }
    forall i, j | 0 <= i < j < |t.sent| ensures Ordered(t, t.sent[i], t.sent[j]) {
      assert Ordered(s, s.sent[i], s.sent[j]);
    }
    forall id, d | id in t.calls && t.calls[id].Draining? && d in t.sent ensures Ahead(t, d, t.calls[id]) {
      assert Ahead(s, d, s.calls[id]);
    }
  }

  lemma TakeFates(s: System, t: System, client: nat, call: nat)
    requires Invariant(s) && call !in s.calls && Idle(s, client) && s.buffer != []
    requires t == s.(buffer := [], drains := s.drains + [Drain(client, s.buffer)],
                     calls := s.calls[call := Draining(client, s.buffer)])
    ensures Fates(t) && CallsApart(t) && BroadcastsLive(t)
  {
    var k0 := |s.drains|;
    forall d ensures Owed(t, d) <==> Owed(s, d) || (d.client == client && d.note in s.buffer) {
      if d.client == client && d.note in s.buffer {
        assert TakenAt(t, k0, d.note) && t.drains[k0].client == d.client;
      }
      if k: nat :| TakenAt(s, k, d.note) && s.drains[k].client == d.client {
        assert TakenAt(t, k, d.note) && t.drains[k].client == d.client;
      }
      if k: nat :| TakenAt(t, k, d.note) && t.drains[k].client == d.client {
        assert k < k0 ==> TakenAt(s, k, d.note) && s.drains[k].client == d.client;
      }
    }
    forall d ensures Pending(t, d) <==> Pending(s, d) || (d.client == client && d.note in s.buffer) {
      if id :| id in s.calls && InCall(s.calls[id], d) {
        assert id in t.calls && t.calls[id] == s.calls[id];
      }
      if d.client == client && d.note in s.buffer {
        assert InCall(t.calls[call], d);
      }
    }
    forall d: Delivery | d.note in s.buffer ensures !Owed(s, d) { BufferedNotOwed(s, d); }
    forall x, y, d | x in t.calls && y in t.calls && x != y ensures !(InCall(t.calls[x], d) && InCall(t.calls[y], d)) {
      if InCall(t.calls[x], d) && x in s.calls { assert Pending(s, d); }
      if InCall(t.calls[y], d) && y in s.calls { assert Pending(s, d); }
    }
  }

  lemma TakeStep(s: System, a: Action)
    requires Invariant(s) && CanAct(s, a) && a.Take? && s.buffer != []
    ensures Invariant(Act(s, a))
  {
    var t := Act(s, a);
    TakePlaces(s, t, a.client);
    TakeFates(s, t, a.client, a.call);
    forall i, j | 0 <= i < j < |t.sent| ensures Ordered(t, t.sent[i], t.sent[j]) {
      assert Ordered(s, s.sent[i], s.sent[j]);
    }
    forall id, d | id in t.calls && t.calls[id].Draining? && d in t.sent ensures Ahead(t, d, t.calls[id]) {
      if id in s.calls {
        assert Ahead(s, d, s.calls[id]);
      } else if Unheard(s, d.note) {
        SentBeforeBuffer(s, d);
      }
    }
  }

  lemma TakePlaces(s: System, t: System, client: nat)
    requires Places(s) && t.log == s.log && t.buffer == [] && t.drains == s.drains + [Drain(client, s.buffer)]
    ensures Places(t)
  {
    var k0 := |s.drains|;
    forall m ensures Unheard(t, m) <==> Unheard(s, m) {
    }
    forall k: nat, m ensures TakenAt(t, k, m) <==> TakenAt(s, k, m) || (k == k0 && m in s.buffer) {
    }
    forall n | Unheard(t, n) ensures exists k: nat :: TakenAt(t, k, n) {
      if n in s.buffer {
        assert TakenAt(t, k0, n);
      } else {
        var k: nat :| TakenAt(s, k, n);
        assert TakenAt(t, k, n);
      }
    }
  }

  /** What a client was sent from an earlier drain is older than the buffer. */
  lemma SentBeforeBuffer(s: System, d: Delivery)
    requires Places(s) && Fates(s) && d in s.sent && Unheard(s, d.note)
    ensures forall n :: n in s.buffer ==> d.note < n
  {
    assert Owed(s, d);
    var k: nat :| TakenAt(s, k, d.note);
    assert Below(s.drains[k].taken, s.buffer);
  }

  /** One write: `gone` leaves what the call has yet to write, for the wire or for
      the failures. */
  ghost predicate Written(s: System, t: System, call: nat, gone: set<Delivery>) {
    && t == s.(calls := t.calls, sent := t.sent, failed := t.failed) && call in s.calls
    && (forall id :: id in t.calls ==> id in s.calls)
    && (forall id :: id in s.calls && id != call ==> id in t.calls && t.calls[id] == s.calls[id])
    && (forall d :: d in gone ==> InCall(s.calls[call], d))
    && (forall d :: call in t.calls && InCall(t.calls[call], d) <==> InCall(s.calls[call], d) && d !in gone)
    && (call in t.calls ==>
          if s.calls[call].Draining? then
            && t.calls[call].Draining? && t.calls[call].client == s.calls[call].client
            && t.calls[call].rest != [] && Ascending(t.calls[call].rest)
          else !t.calls[call].Draining?)
  }

  lemma WriteFates(s: System, t: System, call: nat, gone: set<Delivery>)
    requires Invariant(s) && Written(s, t, call, gone)
    requires (t.sent == s.sent && t.failed == s.failed + gone) ||
             (t.failed == s.failed && exists d :: gone == {d} && t.sent == s.sent + [d])
    ensures Places(t) && Fates(t) && CallsApart(t)
  {
    forall m ensures Unheard(t, m) <==> Unheard(s, m) {
    }
    forall k: nat, m ensures TakenAt(t, k, m) <==> TakenAt(s, k, m) {
    }
    assert Places(t);
    forall d ensures Owed(t, d) <==> Owed(s, d) {
      assert forall k: nat :: TakenAt(t, k, d.note) <==> TakenAt(s, k, d.note);
    }
    forall d ensures Pending(t, d) <==> Pending(s, d) && d !in gone {
      if d in gone {
        assert forall id :: id in s.calls && id != call ==> !InCall(s.calls[id], d);
      } else if id :| id in s.calls && InCall(s.calls[id], d) {
        assert id in t.calls && InCall(t.calls[id], d);
      }
      if id :| id in t.calls && InCall(t.calls[id], d) {
        assert id in s.calls && InCall(s.calls[id], d);
      }
    }
    forall d | d in gone ensures Pending(s, d) {
    }
    forall d ensures d in t.sent || d in t.failed <==> d in s.sent || d in s.failed || d in gone {
    }
    forall a, b, d | a in t.calls && b in t.calls && a != b ensures !(InCall(t.calls[a], d) && InCall(t.calls[b], d)) {
      assert !(InCall(s.calls[a], d) && InCall(s.calls[b], d));
    }
  }

  lemma BroadcastWritten(s: System, a: Action)
    requires CanAct(s, a) && a.Send? && s.calls[a.call].Broadcasting?
    ensures Written(s, Act(s, a), a.call, {Delivery(a.client, s.calls[a.call].note)})
  {
    var t, n, left := Act(s, a), s.calls[a.call].note, s.calls[a.call].left;
    assert forall c :: c in left ==> c == a.client || c in left - {a.client};
    assert t == s.(calls := t.calls, sent := t.sent, failed := t.failed);
  }

  lemma BroadcastStep(s: System, a: Action)
    requires Invariant(s) && CanAct(s, a) && a.Send? && s.calls[a.call].Broadcasting?
    ensures Invariant(Act(s, a))
  {
    var t, d0 := Act(s, a), Delivery(a.client, s.calls[a.call].note);
    BroadcastWritten(s, a);
    assert InCall(s.calls[a.call], d0);
    WriteFates(s, t, a.call, {d0});
    BroadcastOrder(s, t, a.call, d0);
  }

  /** A live message is not subject to the order of the drains. */
  lemma BroadcastOrder(s: System, t: System, call: nat, d0: Delivery)
    requires Invariant(s) && Written(s, t, call, {d0}) && s.calls[call].Broadcasting?
    requires t.sent == s.sent || t.sent == s.sent + [d0]
    ensures DrainOrder(t) && BroadcastsLive(t)
  {
    forall m ensures Unheard(t, m) <==> Unheard(s, m) {
    }
    assert InCall(s.calls[call], d0) && !Unheard(s, d0.note);
    forall i, j | 0 <= i < j < |t.sent| ensures Ordered(t, t.sent[i], t.sent[j]) {
      assert i < |s.sent|;
      if j < |s.sent| { assert Ordered(s, s.sent[i], s.sent[j]); }
    }
    forall id, d | id in t.calls && t.calls[id].Draining? && d in t.sent ensures Ahead(t, d, t.calls[id]) {
      if d in s.sent { assert Ahead(s, d, s.calls[id]); }
    }
  }

  lemma DrainWritten(s: System, a: Action)
    requires CanAct(s, a) && a.Send? && s.calls[a.call].Draining? && Ascending(s.calls[a.call].rest)
    ensures var c, rest := s.calls[a.call].client, s.calls[a.call].rest;
            Written(s, Act(s, a), a.call, if a.ok then {Delivery(c, rest[0])} else set n | n in rest :: Delivery(c, n))
  {
    var t, c, rest := Act(s, a), s.calls[a.call].client, s.calls[a.call].rest;
    assert t == s.(calls := t.calls, sent := t.sent, failed := t.failed);
    forall n ensures n in rest[1..] <==> n in rest && n != rest[0] {
      if n in rest {
        var i :| 0 <= i < |rest| && rest[i] == n;
        assert i > 0 ==> rest[1..][i - 1] == n;
      }
    }
  }

  lemma DrainStep(s: System, a: Action)
    requires Invariant(s) && CanAct(s, a) && a.Send? && s.calls[a.call].Draining?
    ensures Invariant(Act(s, a))
  {
    var t, c, rest := Act(s, a), s.calls[a.call].client, s.calls[a.call].rest;
    DrainWritten(s, a);
    WriteFates(s, t, a.call, if a.ok then {Delivery(c, rest[0])} else set n | n in rest :: Delivery(c, n));
    DrainStepOrder(s, a);
  }

  lemma DrainStepOrder(s: System, a: Action)
    requires Invariant(s) && CanAct(s, a) && a.Send? && s.calls[a.call].Draining?
    ensures DrainOrder(Act(s, a)) && BroadcastsLive(Act(s, a))
  {
    var t, c, rest := Act(s, a), s.calls[a.call].client, s.calls[a.call].rest;
    forall m ensures Unheard(t, m) <==> Unheard(s, m) {
    }
    assert rest[0] in rest;
    forall i, j | 0 <= i < j < |t.sent| ensures Ordered(t, t.sent[i], t.sent[j]) {
      if j < |s.sent| {
        assert Ordered(s, s.sent[i], s.sent[j]);
      } else {
        assert s.sent[i] in s.sent && Ahead(s, s.sent[i], s.calls[a.call]);
      }
    }
    forall id, d | id in t.calls && t.calls[id].Draining? && d in t.sent ensures Ahead(t, d, t.calls[id]) {
      if d in s.sent {
        assert Ahead(s, d, s.calls[id]);
        assert id == a.call ==> forall n :: n in t.calls[id].rest ==> n in rest;
      } else if id == a.call {
        forall n | n in rest[1..] ensures rest[0] < n {
          var i :| 0 <= i < |rest[1..]| && rest[1..][i] == n;
          assert rest[i + 1] == n;
        }
      }
    }
  }

  lemma StepKeepsInvariant(s: System, a: Action)
    requires Invariant(s) && CanAct(s, a)
    ensures Invariant(Act(s, a))
  {
    match a
    case Accept(_, _) => AcceptStep(s, a);
    case Take(_, _) => if s.buffer != [] { TakeStep(s, a); }
    case Send(call, _, _) =>
      if s.calls[call].Broadcasting? { BroadcastStep(s, a); } else { DrainStep(s, a); }
    case _ => ClientStep(s, Act(s, a));
  }

  lemma {:induction false} InvariantThroughout(states: seq<System>, actions: seq<Action>, k: nat)
    requires Run(states, actions) && k < |states|
    ensures Invariant(states[k])
  {
    if k > 0 {
      InvariantThroughout(states, actions, k - 1);
      StepKeepsInvariant(states[k - 1], actions[k - 1]);
    }
  }

  // ---------- conservation ----------

  /** In every interleaving, a notification accepted while nobody listened is in
      exactly one place: still in the buffer, or in exactly one drain. */
  lemma UnheardInOnePlace(states: seq<System>, actions: seq<Action>, k: nat, n: nat)
    requires Run(states, actions) && k < |states| && Unheard(states[k], n)
    ensures n in states[k].buffer <==> forall j: nat :: !TakenAt(states[k], j, n)
    ensures forall i: nat, j: nat :: TakenAt(states[k], i, n) && TakenAt(states[k], j, n) ==> i == j
  {
    var s := states[k];
    InvariantThroughout(states, actions, k);
    if n in s.buffer {
      forall j: nat | j < |s.drains| ensures !TakenAt(s, j, n) {
        assert Below(s.drains[j].taken, s.buffer);
      }
    }
    forall i: nat, j: nat | i < j < |s.drains| ensures !(TakenAt(s, i, n) && TakenAt(s, j, n)) {
      assert Below(s.drains[i].taken, s.drains[j].taken);
    }
  }

  /** And the drains, in order, followed by the buffer list those notifications in the
      order of acceptance. */
  lemma BufferingOrder(states: seq<System>, actions: seq<Action>, k: nat)
    requires Run(states, actions) && k < |states|
    ensures Places(states[k])
  {
    InvariantThroughout(states, actions, k);
  }

  /** In every interleaving, each message owed to a client has exactly one fate:
      yet to be written, written once, or failed. */
  lemma OneFate(states: seq<System>, actions: seq<Action>, k: nat, d: Delivery)
    requires Run(states, actions) && k < |states| && Owed(states[k], d)
    ensures var s := states[k];
            || (Pending(s, d) && d !in s.sent && d !in s.failed)
            || (!Pending(s, d) && d in s.sent && d !in s.failed)
            || (!Pending(s, d) && d !in s.sent && d in s.failed)
    ensures multiset(states[k].sent)[d] <= 1
  {
    InvariantThroughout(states, actions, k);
    CountedOnce(states[k].sent, d);
  }

  lemma {:induction false} CountedOnce(s: seq<Delivery>, d: Delivery)
    requires forall i, j :: 0 <= i < j < |s| ==> s[i] != s[j]
    ensures multiset(s)[d] <= 1
  {
    if s != [] {
      var init := s[..|s| - 1];
      CountedOnce(init, d);
      assert s == init + [s[|s| - 1]];
      assert d == s[|s| - 1] ==> d !in init;
    }
  }

  /** A message that was written, is about to be, or failed, was owed: its client was
      subscribed when the notification was accepted or, when nobody was, took it
      from the buffer. */
  lemma NobodyElse(states: seq<System>, actions: seq<Action>, k: nat, d: Delivery)
    requires Run(states, actions) && k < |states|
    requires d in states[k].sent || d in states[k].failed || Pending(states[k], d)
    ensures var s := states[k];
            && d.note < |s.log|
            && if s.log[d.note].audience != {} then d.client in s.log[d.note].audience
               else exists j: nat :: TakenAt(s, j, d.note) && s.drains[j].client == d.client
  {
    var s := states[k];
    InvariantThroughout(states, actions, k);
    assert Owed(s, d);
    OwedIsLogged(s, d);
    if j: nat :| TakenAt(s, j, d.note) && s.drains[j].client == d.client {
      assert Unheard(s, d.note);
    }
  }

  /** Failures are exactly the failed writes. */
  lemma {:induction false} NoFailedWrites(states: seq<System>, actions: seq<Action>, k: nat)
    requires Run(states, actions) && k < |states|
    ensures states[k].failed == {} <==> forall j :: 0 <= j < k ==> !(actions[j].Send? && !actions[j].ok)
  {
    if k > 0 {
      var s, a := states[k - 1], actions[k - 1];
      NoFailedWrites(states, actions, k - 1);
      FailedStep(s, a);
      assert states[k] == Act(s, a);
      assert states[k].failed == {} <==> s.failed == {} && !(a.Send? && !a.ok);
    }
  }

  lemma FailedStep(s: System, a: Action)
    requires CanAct(s, a)
    ensures Act(s, a).failed == {} <==> s.failed == {} && !(a.Send? && !a.ok)
  {
    if a.Send? && !a.ok {
      match s.calls[a.call]
      case Broadcasting(n, _) => assert Delivery(a.client, n) in Act(s, a).failed;
      case Draining(c, rest) => assert rest[0] in rest && Delivery(c, rest[0]) in Act(s, a).failed;
    }
  }

  /** With no call in flight, every client was sent all it is owed exactly when no
      write has failed; and nobody was ever sent anything else, or anything twice. */
  lemma QuiescentIsDelivered(states: seq<System>, actions: seq<Action>, k: nat)
    requires Run(states, actions) && k < |states| && states[k].calls == map[]
    ensures (forall d :: Owed(states[k], d) ==> d in states[k].sent) <==>
              forall j :: 0 <= j < k ==> !(actions[j].Send? && !actions[j].ok)
    ensures forall d :: d in states[k].sent ==> Owed(states[k], d)
    ensures forall i, j :: 0 <= i < j < |states[k].sent| ==> states[k].sent[i] != states[k].sent[j]
  {
    var s := states[k];
    InvariantThroughout(states, actions, k);
    NoFailedWrites(states, actions, k);
    if d :| d in s.failed {
      assert Owed(s, d) && d !in s.sent;
    }
  }

  // ---------- what order survives ----------

  /** What a client drains reaches it in the order of acceptance, across its drains. */
  lemma DrainedInOrder(states: seq<System>, actions: seq<Action>, k: nat, i: nat, j: nat)
    requires Run(states, actions) && k < |states| && i < j < |states[k].sent|
    requires states[k].sent[i].client == states[k].sent[j].client
    requires Unheard(states[k], states[k].sent[i].note) && Unheard(states[k], states[k].sent[j].note)
    ensures states[k].sent[i].note < states[k].sent[j].note
  {
    InvariantThroughout(states, actions, k);
    assert Ordered(states[k], states[k].sent[i], states[k].sent[j]);
  }

  /** Nothing that was accepted, taken, written or lost is forgotten. */
  ghost predicate Extends(s: System, t: System) {
    s.sent <= t.sent && s.failed <= t.failed && s.log <= t.log && s.drains <= t.drains
  }

  lemma StepExtends(s: System, a: Action)
    requires CanAct(s, a)
    ensures Extends(s, Act(s, a))
  {
  }

  lemma {:induction false} Grows(states: seq<System>, actions: seq<Action>, j: nat, k: nat)
    requires Run(states, actions) && j <= k < |states|
    ensures Extends(states[j], states[k])
  {
    if j < k {
      Grows(states, actions, j, k - 1);
      StepExtends(states[k - 1], actions[k - 1]);
      assert states[k] == Act(states[k - 1], actions[k - 1]);
    }
  }

  lemma DoneKeepsItsPlace(s: System, t: System, p: nat, q: nat)
    requires Invariant(s) && Invariant(t) && Extends(s, t) && p < |t.sent| && q < |t.sent|
    requires t.sent[q] in s.sent && t.sent[p].note >= |s.log|
    ensures q < p
  {
    var r :| 0 <= r < |s.sent| && s.sent[r] == t.sent[q];
    assert t.sent[r] == t.sent[q];
    forall i | 0 <= i < |s.sent| ensures t.sent[i].note < |s.log| {
      assert s.sent[i] in s.sent && t.sent[i] == s.sent[i];
      OwedIsLogged(s, s.sent[i]);
    }
  }

  /** A message done with before a notification is accepted stays ahead of it: once
      `d` is no longer pending at moment `j`, whatever is accepted from then on is
      written after it. */
  lemma DoneComesFirst(states: seq<System>, actions: seq<Action>, j: nat, k: nat, p: nat, q: nat)
    requires Run(states, actions) && j <= k < |states| && p < |states[k].sent| && q < |states[k].sent|
    requires Owed(states[j], states[k].sent[p]) && !Pending(states[j], states[k].sent[p])
    requires states[k].sent[q].note >= |states[j].log|
    ensures p < q
  {
    InvariantThroughout(states, actions, j);
    InvariantThroughout(states, actions, k);
    Grows(states, actions, j, k);
    DoneKeepsItsPlace(states[j], states[k], q, p);
  }

  ghost predicate Next(s: System, t: System) {
    exists a :: CanAct(s, a) && t == Act(s, a)
  }

  ghost predicate StepAt(path: seq<System>, k: nat)
    requires k + 1 < |path|
  {
    Next(path[k], path[k + 1])
  }

  /** A continuation from one state to another. */
  ghost predicate Leads(s: System, t: System, path: seq<System>) {
    && |path| > 0 && path[0] == s && path[|path| - 1] == t
    && forall k :: 0 <= k < |path| - 1 ==> StepAt(path, k)
  }

  lemma LeadsOne(s: System, a: Action) returns (path: seq<System>)
    requires CanAct(s, a)
    ensures Leads(s, Act(s, a), path)
  {
    path := [s, Act(s, a)];
    assert Next(path[0], path[1]);
    assert StepAt(path, 0);
  }

  lemma LeadsOn(s: System, t: System, u: System, p: seq<System>, q: seq<System>) returns (path: seq<System>)
    requires Leads(s, t, p) && Leads(t, u, q)
    ensures Leads(s, u, path)
  {
    path := p + q[1..];
    forall k | 0 <= k < |path| - 1 ensures StepAt(path, k) {
      if k < |p| - 1 {
        assert StepAt(p, k) && path[k] == p[k] && path[k + 1] == p[k + 1];
      } else {
        var j := k - (|p| - 1);
        assert StepAt(q, j) && path[k] == q[j] && path[k + 1] == q[j + 1];
      }
    }
  }

  lemma NextKeeps(s: System, t: System)
    requires Invariant(s) && Next(s, t)
    ensures Invariant(t) && Extends(s, t)
  {
    var a :| CanAct(s, a) && t == Act(s, a);
    StepKeepsInvariant(s, a);
    StepExtends(s, a);
  }

  lemma {:induction false} LeadsKeepsTo(s: System, t: System, path: seq<System>, k: nat)
    requires Invariant(s) && Leads(s, t, path) && k < |path|
    ensures Invariant(path[k]) && Extends(s, path[k])
  {
    if k > 0 {
      LeadsKeepsTo(s, t, path, k - 1);
      assert StepAt(path, k - 1);
      NextKeeps(path[k - 1], path[k]);
    }
  }

  lemma LeadsKeeps(s: System, t: System, path: seq<System>)
    requires Invariant(s) && Leads(s, t, path)
    ensures Invariant(t) && Extends(s, t)
  {
    LeadsKeepsTo(s, t, path, |path| - 1);
  }

  ghost predicate WrittenBefore(sent: seq<Delivery>, e: Delivery, d: Delivery) {
    exists p, q :: 0 <= p < q < |sent| && sent[p] == e && sent[q] == d
  }

  /** If `note` were accepted now, it might still reach the client before `d`. */
  ghost predicate MayOvertake(s: System, note: Notification, d: Delivery) {
    exists call, t, path :: Overtakes(s, note, d, call, t, path)
  }

  ghost predicate Overtakes(s: System, note: Notification, d: Delivery, call: nat, t: System, path: seq<System>) {
    && CanAct(s, Accept(call, note)) && Leads(Act(s, Accept(call, note)), t, path)
    && WrittenBefore(t.sent, Delivery(d.client, |s.log|), d)
  }

  /** A message that is neither pending nor buffered is not written any more. */
  lemma DoneIsDone(s: System, t: System, path: seq<System>, d: Delivery)
    requires Invariant(s) && Leads(s, t, path)
    requires d.note < |s.log| && !Pending(s, d) && d.note !in s.buffer && d in t.sent
    ensures d in s.sent
  {
    LeadsKeeps(s, t, path);
    assert Owed(t, d);
    if k: nat :| TakenAt(t, k, d.note) && t.drains[k].client == d.client {
      assert Unheard(t, d.note) && Unheard(s, d.note);
      var j: nat :| TakenAt(s, j, d.note);
      assert TakenAt(t, j, d.note);
      assert j < k ==> Below(t.drains[j].taken, t.drains[k].taken);
      assert k < j ==> Below(t.drains[k].taken, t.drains[j].taken);
      assert s.drains[j].client == d.client;
    }
    assert Owed(s, d);
  }

  lemma DoneStaysAhead(s: System, t: System, path: seq<System>, d: Delivery, e: Delivery)
    requires Invariant(s) && Leads(s, t, path) && e.note >= |s.log|
    requires d.note < |s.log| && !Pending(s, d) && d.note !in s.buffer
    ensures !WrittenBefore(t.sent, e, d)
  {
    LeadsKeeps(s, t, path);
    forall p: nat, q: nat | p < |t.sent| && q < |t.sent| ensures t.sent[p] == e && t.sent[q] == d ==> q < p {
      if t.sent[p] == e && t.sent[q] == d {
        DoneIsDone(s, t, path, d);
        DoneKeepsItsPlace(s, t, p, q);
      }
    }
  }

  lemma DoneIsNotOvertaken(s: System, note: Notification, d: Delivery, call: nat, t: System, path: seq<System>)
    requires Invariant(s) && d.note < |s.log| && !Pending(s, d) && d.note !in s.buffer
    requires CanAct(s, Accept(call, note)) && Leads(Act(s, Accept(call, note)), t, path)
    ensures !Overtakes(s, note, d, call, t, path)
  {
    var first := LeadsOne(s, Accept(call, note));
    var longer := LeadsOn(s, Act(s, Accept(call, note)), t, first, path);
    DoneStaysAhead(s, t, longer, d, Delivery(d.client, |s.log|));
  }

  // Whatever is pending or buffered for a subscriber can still be written.

  lemma FreshCall(ids: set<nat>) returns (n: nat)
    ensures forall i :: i in ids ==> i < n
  {
    if ids == {} {
      n := 0;
    } else {
      var i :| i in ids;
      n := FreshCall(ids - {i});
      n := if i < n then n else i + 1;
      assert forall j :: j in ids ==> j == i || j in ids - {i};
    }
  }

  /** One successful write of a drain. */
  lemma DrainOnwards(s: System, call: nat) returns (u: System, path: seq<System>)
    requires Invariant(s) && call in s.calls && s.calls[call].Draining?
    ensures Invariant(u) && Leads(s, u, path) && u.buffer == s.buffer && u.clients == s.clients
    ensures u.sent == s.sent + [Delivery(s.calls[call].client, s.calls[call].rest[0])]
    ensures var c, rest := s.calls[call].client, s.calls[call].rest;
            u.calls == if |rest| == 1 then s.calls - {call} else s.calls[call := Draining(c, rest[1..])]
  {
    var a := Send(call, s.calls[call].client, true);
    u := Act(s, a);
    path := LeadsOne(s, a);
    StepKeepsInvariant(s, a);
  }

  lemma DrainTo(s: System, call: nat, d: Delivery) returns (t: System, path: seq<System>)
    requires Invariant(s) && call in s.calls && s.calls[call].Draining? && InCall(s.calls[call], d)
    ensures Leads(s, t, path) && d in t.sent
    decreases |s.calls[call].rest|
  {
    var rest := s.calls[call].rest;
    var u, first := DrainOnwards(s, call);
    if rest[0] == d.note {
      t, path := u, first;
      assert t.sent[|t.sent| - 1] == d;
    } else {
      var i :| 0 <= i < |rest| && rest[i] == d.note;
      assert rest[1..][i - 1] == d.note;
      t, path := DrainTo(u, call, d);
      path := LeadsOn(s, u, t, first, path);
    }
  }

  lemma FinishDrain(s: System, call: nat) returns (t: System, path: seq<System>)
    requires Invariant(s) && call in s.calls && s.calls[call].Draining?
    ensures Leads(s, t, path) && t.buffer == s.buffer && t.clients == s.clients && t.calls == s.calls - {call}
    decreases |s.calls[call].rest|
  {
    var first;
    t, first := DrainOnwards(s, call);
    path := first;
    if |s.calls[call].rest| > 1 {
      var u := t;
      t, path := FinishDrain(u, call);
      path := LeadsOn(s, u, t, first, path);
    }
  }

  /** From an idle connection, a take and a drain. */
  lemma TakeTo(s: System, d: Delivery) returns (t: System, path: seq<System>)
    requires Invariant(s) && d.note in s.buffer && d.client in Subscribers(s.clients) && Idle(s, d.client)
    ensures Leads(s, t, path) && d in t.sent
  {
    var call := FreshCall(s.calls.Keys);
    var a := Take(call, d.client);
    var first := LeadsOne(s, a);
    StepKeepsInvariant(s, a);
    t, path := DrainTo(Act(s, a), call, d);
    path := LeadsOn(s, Act(s, a), t, first, path);
  }

  lemma PendingWritable(s: System, d: Delivery) returns (t: System, path: seq<System>)
    requires Invariant(s) && Pending(s, d)
    ensures Leads(s, t, path) && d in t.sent
  {
    var call :| call in s.calls && InCall(s.calls[call], d);
    if s.calls[call].Draining? {
      t, path := DrainTo(s, call, d);
    } else {
      t := Act(s, Send(call, d.client, true));
      path := LeadsOne(s, Send(call, d.client, true));
      assert t.sent[|t.sent| - 1] == d;
    }
  }

  lemma BufferedWritable(s: System, d: Delivery) returns (t: System, path: seq<System>)
    requires Invariant(s) && d.note in s.buffer && d.client in Subscribers(s.clients)
    ensures Leads(s, t, path) && d in t.sent
  {
    if Idle(s, d.client) {
      t, path := TakeTo(s, d);
    } else {
      var call :| call in s.calls && s.calls[call].Draining? && s.calls[call].client == d.client;
      var u, first := FinishDrain(s, call);
      LeadsKeeps(s, u, first);
      t, path := TakeTo(u, d);
      path := LeadsOn(s, u, t, first, path);
    }
  }

  /** Two broadcasts in flight may reach a client out of order. */
  lemma BroadcastsMayOvertake(a: Notification, b: Notification) returns (states: seq<System>, actions: seq<Action>)
    requires Acceptable(a) && Acceptable(b)
    ensures Run(states, actions) && |states| == 7 && states[6].calls == map[]
    ensures states[6].log == [Accepted(a, {1}), Accepted(b, {1})]
    ensures states[6].sent == [Delivery(1, 1), Delivery(1, 0)]
  {
    var s0 := Initial();
    var s1 := Act(s0, Connect);
    var s2 := Act(s1, Subscribe(1, {NotificationEvent}));
    assert Subscribers(s2.clients) == {1};
    var s3 := Act(s2, Accept(0, a));
    var s4 := Act(s3, Accept(1, b));
    var s5 := Act(s4, Send(1, 1, true));
    assert s5.calls == map[0 := Broadcasting(0, {1})];
    var s6 := Act(s5, Send(0, 1, true));
    states := [s0, s1, s2, s3, s4, s5, s6];
    actions := [Connect, Subscribe(1, {NotificationEvent}), Accept(0, a), Accept(1, b), Send(1, 1, true),
                Send(0, 1, true)];
  }

  /** Client 1, subscribed, and what has happened to it. */
  function OneClient(buffer: seq<nat>, log: seq<Accepted>, drains: seq<Drain>, calls: map<nat, Call>,
                     sent: seq<Delivery>): System {
    System(1, map[1 := {NotificationEvent}], buffer, log, drains, calls, sent, {})
  }

  lemma BufferedThenSubscribed(a: Notification) returns (states: seq<System>, actions: seq<Action>)
    requires Acceptable(a)
    ensures Run(states, actions) && |states| == 4 && forall k :: 0 <= k < 4 ==> states[k].calls == map[]
    ensures states[3] == OneClient([0], [Accepted(a, {})], [], map[], [])
  {
    var s0 := Initial();
    assert Subscribers(s0.clients) == {};
    var s1 := Act(s0, Accept(0, a));
    var s2 := Act(s1, Connect);
    var s3 := Act(s2, Subscribe(1, {NotificationEvent}));
    states, actions := [s0, s1, s2, s3], [Accept(0, a), Connect, Subscribe(1, {NotificationEvent})];
  }

  lemma OvertakingStep(a: Notification, b: Notification)
    requires Acceptable(b)
    ensures var was, log := [Accepted(a, {})], [Accepted(a, {}), Accepted(b, {1})];
            var s3, s4 := OneClient([0], was, [], map[], []),
                OneClient([0], log, [], map[1 := Broadcasting(1, {1})], []);
            var s5 := OneClient([0], log, [], map[], [Delivery(1, 1)]);
            && CanAct(s3, Accept(1, b)) && Act(s3, Accept(1, b)) == s4
            && CanAct(s4, Send(1, 1, true)) && Act(s4, Send(1, 1, true)) == s5
  {
    assert Subscribers(map[1 := {NotificationEvent}]) == {1};
  }

  lemma DrainingStep(log: seq<Accepted>)
    ensures var s5 := OneClient([0], log, [], map[], [Delivery(1, 1)]);
            var s6 := OneClient([], log, [Drain(1, [0])], map[2 := Draining(1, [0])], [Delivery(1, 1)]);
            var s7 := OneClient([], log, [Drain(1, [0])], map[], [Delivery(1, 1), Delivery(1, 0)]);
            && CanAct(s5, Take(2, 1)) && Act(s5, Take(2, 1)) == s6
            && CanAct(s6, Send(2, 1, true)) && Act(s6, Send(2, 1, true)) == s7
  {
    assert 1 in Subscribers(map[1 := {NotificationEvent}]);
  }

  /** With never more than one call in flight: a client that has subscribed but not
      yet drained gets a new notification before an old, buffered one. */
  lemma BufferMayBeOvertaken(a: Notification, b: Notification) returns (states: seq<System>, actions: seq<Action>)
    requires Acceptable(a) && Acceptable(b)
    ensures Run(states, actions) && |states| == 8 && forall k :: 0 <= k < 8 ==> |states[k].calls| <= 1
    ensures states[7].log == [Accepted(a, {}), Accepted(b, {1})] && states[7].calls == map[]
    ensures states[7].sent == [Delivery(1, 1), Delivery(1, 0)]
  {
    var earlier, first := BufferedThenSubscribed(a);
    var log := [Accepted(a, {}), Accepted(b, {1})];
    OvertakingStep(a, b);
    DrainingStep(log);
    states, actions := earlier, first;
    states, actions := RunOn(states, actions, Accept(1, b));
    states, actions := RunOn(states, actions, Send(1, 1, true));
    states, actions := RunOn(states, actions, Take(2, 1));
    states, actions := RunOn(states, actions, Send(2, 1, true));
  }

  lemma RunOn(states: seq<System>, actions: seq<Action>, a: Action) returns (longer: seq<System>, more: seq<Action>)
    requires Run(states, actions) && CanAct(states[|states| - 1], a)
    ensures Run(longer, more) && longer == states + [Act(states[|states| - 1], a)]
  {
    longer, more := states + [Act(states[|states| - 1], a)], actions + [a];
  }

  lemma WaitingIsOvertaken(s: System, note: Notification, d: Delivery)
    requires Invariant(s) && d.client in Subscribers(s.clients) && Acceptable(note) && d.note < |s.log|
    requires Pending(s, d) || d.note in s.buffer
    ensures MayOvertake(s, note, d)
  {
    var call := FreshCall(s.calls.Keys);
    var u := Act(s, Accept(call, note));
    var a := Send(call, d.client, true);
    var v := Act(u, a);
    StepKeepsInvariant(s, Accept(call, note));
    StepKeepsInvariant(u, a);
    StillWaits(s, u, v, call, note, d);
    var first := LeadsOne(u, a);
    var t, path;
    if Pending(v, d) {
      t, path := PendingWritable(v, d);
    } else {
      t, path := BufferedWritable(v, d);
    }
    LeadsKeeps(v, t, path);
    LaterIsAfter(v.sent, t.sent, Delivery(d.client, |s.log|), d);
    path := LeadsOn(u, v, t, first, path);
    assert Overtakes(s, note, d, call, t, path);
  }

  lemma LaterIsAfter(earlier: seq<Delivery>, later: seq<Delivery>, e: Delivery, d: Delivery)
    requires earlier <= later && e in earlier && d !in earlier && d in later
    ensures WrittenBefore(later, e, d)
  {
    var p :| 0 <= p < |earlier| && earlier[p] == e;
    var q :| 0 <= q < |later| && later[q] == d;
    assert forall i :: 0 <= i < |earlier| ==> later[i] == earlier[i] && later[i] != d;
    assert later[p] == e && later[q] == d;
  }

  /** Accepting and writing the newcomer takes nothing from what waits. */
  lemma StillWaits(s: System, u: System, v: System, call: nat, note: Notification, d: Delivery)
    requires Invariant(s) && d.client in Subscribers(s.clients) && d.note < |s.log| && CanAct(s, Accept(call, note))
    requires u == Act(s, Accept(call, note)) && CanAct(u, Send(call, d.client, true)) &&
             v == Act(u, Send(call, d.client, true))
    requires Pending(s, d) || d.note in s.buffer
    ensures Pending(v, d) || (d.note in v.buffer && d.client in Subscribers(v.clients))
    ensures d !in v.sent && v.sent == s.sent + [Delivery(d.client, |s.log|)]
  {
    if Pending(s, d) {
      var id :| id in s.calls && InCall(s.calls[id], d);
      assert id in v.calls && v.calls[id] == s.calls[id];
    } else {
      BufferedNotOwed(s, d);
    }
  }

  /** In every interleaving, when a notification is accepted, an older message of a
      subscribed client may still be overtaken by it exactly when it is pending, in a
      broadcast or in a drain, or buffered. Everything else keeps its place. */
  lemma OvertakesExactly(states: seq<System>, actions: seq<Action>, k: nat, note: Notification, d: Delivery)
    requires Run(states, actions) && k < |states| && Acceptable(note)
    requires d.client in Subscribers(states[k].clients) && d.note < |states[k].log|
    ensures MayOvertake(states[k], note, d) <==> Pending(states[k], d) || d.note in states[k].buffer
  {
    var s := states[k];
    InvariantThroughout(states, actions, k);
    if Pending(s, d) || d.note in s.buffer {
      WaitingIsOvertaken(s, note, d);
    } else {
      forall call, t, path | CanAct(s, Accept(call, note)) && Leads(Act(s, Accept(call, note)), t, path)
        ensures !Overtakes(s, note, d, call, t, path)
      {
        DoneIsNotOvertaken(s, note, d, call, t, path);
      }
    }
  }

  // ---------- the server ----------

  /** `adminAPIServer`: each method is one action, and the two write loops are runs of
      them without interruption. */
  class AdminServer {
    var lastId: nat
    var clients: map<nat, set<EventType>>
    var notifications: seq<Notification>

    ghost var system: System

    ghost predicate Valid()
      reads this
    {
      Invariant(system) && Matches()
    }

    /** The fields are what the system says they are. */
    ghost predicate Matches()
      reads this
    {
      && lastId == system.lastId && clients == system.clients && |notifications| == |system.buffer|
      && forall k :: 0 <= k < |system.buffer| ==>
           system.buffer[k] < |system.log| && notifications[k] == system.log[system.buffer[k]].note
    }

    constructor ()
      ensures Valid() && system == Initial()
    {
      lastId, clients, notifications, system := 0, map[], [], Initial();
    }

    /** `addClient`: a fresh connection number, subscribed to nothing. */
    method AddClient() returns (id: nat)
      requires Valid()
      modifies this
      ensures Valid() && system == Act(old(system), Connect) && id == lastId
    {
      lastId := lastId + 1;
      id := lastId;
      clients := clients[id := {}];
      StepKeepsInvariant(system, Connect);
      system := Act(system, Connect);
    }

    /** `removeClient`. */
    method RemoveClient(id: nat)
      requires Valid() && Idle(system, id)
      modifies this
      ensures Valid() && system == Act(old(system), Disconnect(id))
    {
      clients := clients - {id};
      StepKeepsInvariant(system, Disconnect(id));
      system := Act(system, Disconnect(id));
    }

    /** `setClientSubscriptions`: replaces, and ignores a client already removed. */
    method SetClientSubscriptions(id: nat, eventTypes: seq<EventType>)
      requires Valid() && Idle(system, id)
      modifies this
      ensures Valid() && system == Act(old(system), Subscribe(id, set e | e in eventTypes))
    {
      StepKeepsInvariant(system, Subscribe(id, set e | e in eventTypes));
      system := Act(system, Subscribe(id, set e | e in eventTypes));
      if id !in clients {
        return;
      }
      var types: set<EventType> := {};
      for k := 0 to |eventTypes|
        invariant forall e :: e in types <==> e in eventTypes[..k]
      {
        assert eventTypes[..k + 1] == eventTypes[..k] + [eventTypes[k]];
        types := types + {eventTypes[k]};
      }
      assert eventTypes[..|eventTypes|] == eventTypes;
      assert types == set e | e in eventTypes;
      clients := clients[id := types];
    }

    /** The clients subscribed right now. */
    method Listeners() returns (recipients: set<nat>)
      ensures recipients == Subscribers(clients)
    {
      recipients := {};
      var todo := clients.Keys;
      while todo != {}
        invariant todo <= clients.Keys
        invariant forall id :: id in recipients <==> id in clients && id !in todo && NotificationEvent in clients[id]
        decreases |todo|
      {
        var id :| id in todo;
        todo := todo - {id};
        if NotificationEvent in clients[id] {
          recipients := recipients + {id};
        }
      }
      assert recipients == Subscribers(clients);
    }

    /** The locked section of `notifyNotification`: buffer when nobody listens. An
        invalid notification is ignored. */
    method AcceptNotification(note: Notification, ghost call: nat) returns (recipients: set<nat>)
      requires Valid() && call !in system.calls
      modifies this
      ensures Valid() && system == if Acceptable(note) then Act(old(system), Accept(call, note)) else old(system)
      ensures recipients == if Acceptable(note) then Subscribers(clients) else {}
    {
      if !Acceptable(note) {
        return {};
      }
      recipients := Listeners();
      if recipients == {} {
        notifications := notifications + [note];
      }
      StepKeepsInvariant(system, Accept(call, note));
      system := Act(system, Accept(call, note));
    }

    /** The locked section of `drainNotifications`: one drain takes everything. */
    method TakeBuffered(client: nat, ghost call: nat) returns (taken: seq<Notification>)
      requires Valid() && CanAct(system, Take(call, client))
      modifies this
      ensures Valid() && system == Act(old(system), Take(call, client))
      ensures taken == old(notifications) && notifications == []
    {
      taken := notifications;
      StepKeepsInvariant(system, Take(call, client));
      system := Act(system, Take(call, client));
      if |notifications| != 0 {
        notifications := [];
      }
    }

    /** `client.send`: one write, which may fail. */
    method WriteTo(client: nat, ghost call: nat) returns (ok: bool)
      requires Valid() && CanAct(system, Send(call, client, true))
      modifies this`system
      ensures Valid() && system == Act(old(system), Send(call, client, ok))
    {
      ok := *;
      StepKeepsInvariant(system, Send(call, client, ok));
      system := Act(system, Send(call, client, ok));
    }

    /** The write loop of `notifyNotification`, undisturbed: a failed write to one
        client does not keep the others from being written to. */
    method Broadcast(recipients: set<nat>, ghost call: nat, ghost n: nat)
      requires Valid() && if recipients == {} then call !in system.calls
                 else call in system.calls && system.calls[call] == Broadcasting(n, recipients)
      modifies this`system
      ensures Valid() && call !in system.calls && system.log == old(system.log)
      ensures forall c :: c in recipients ==> Delivery(c, n) in system.sent || Delivery(c, n) in system.failed
    {
      var todo := recipients;
      while todo != {}
        invariant Valid() && todo <= recipients && system.log == old(system.log)
        invariant if todo == {} then call !in system.calls
                    else call in system.calls && system.calls[call] == Broadcasting(n, todo)
        invariant forall c :: c in recipients && c !in todo ==>
                    Delivery(c, n) in system.sent || Delivery(c, n) in system.failed
        decreases |todo|
      {
        var client :| client in todo;
        var ok := WriteTo(client, call);
        todo := todo - {client};
      }
    }

    /** `notifyNotification`, undisturbed. */
    method NotifyNotification(note: Notification, ghost call: nat)
      requires Valid() && call !in system.calls
      modifies this
      ensures Valid() && call !in system.calls
      ensures system.log == if Acceptable(note) then old(system.log) + [Accepted(note, Subscribers(old(clients)))]
                else old(system.log)
      ensures Acceptable(note) ==> forall c :: c in Subscribers(old(clients)) ==>
                Delivery(c, |old(system.log)|) in system.sent || Delivery(c, |old(system.log)|) in system.failed
    {
      ghost var n := |system.log|;
      var recipients := AcceptNotification(note, call);
      Broadcast(recipients, call, n);
    }

    /** One write of a drain. */
    method DrainOne(client: nat, ghost call: nat, ghost buffer: seq<nat>, ghost k: nat, ghost before: seq<Delivery>)
      returns (ok: bool)
      requires Valid() && k < |buffer| && call in system.calls && system.calls[call] == Draining(client, buffer[k..])
      requires system.sent == before + Deliveries(client, buffer[..k])
      modifies this`system
      ensures Valid() && (ok ==> system.sent == before + Deliveries(client, buffer[..k + 1])) &&
              (!ok ==> system.sent == old(system.sent))
      ensures if ok && k + 1 < |buffer|
                then call in system.calls && system.calls[call] == Draining(client, buffer[k + 1..])
              else call !in system.calls
    {
      ok := WriteTo(client, call);
      assert buffer[..k + 1] == buffer[..k] + [buffer[k]] && buffer[k..][1..] == buffer[k + 1..];
    }

    /** `drainNotifications`, undisturbed: the client is sent what was buffered, in
        order, up to the first failed write; the rest is lost with it. */
    method DrainNotifications(client: nat, ghost call: nat) returns (failed: bool)
      requires Valid() && CanAct(system, Take(call, client))
      modifies this
      ensures Valid() && call !in system.calls && notifications == []
      ensures exists n ::
                && 0 <= n <= |old(system.buffer)| && (n == |old(system.buffer)| <==> !failed)
                && system.sent == old(system.sent) + Deliveries(client, old(system.buffer)[..n])
    {
      ghost var buffer, before := system.buffer, system.sent;
      var todo := TakeBuffered(client, call);
      var k := 0;
      while k < |todo|
        invariant Valid() && k <= |todo| == |buffer| && notifications == []
        invariant system.sent == before + Deliveries(client, buffer[..k])
        invariant if k < |buffer| then call in system.calls && system.calls[call] == Draining(client, buffer[k..])
                    else call !in system.calls
      {
        var ok := DrainOne(client, call, buffer, k, before);
        if !ok {
          return true;
        }
        k := k + 1;
      }
      return false;
    }
  }

  function Deliveries(client: nat, notes: seq<nat>): (ds: seq<Delivery>)
    ensures |ds| == |notes| && forall k :: 0 <= k < |notes| ==> ds[k] == Delivery(client, notes[k])
  {
    seq(|notes|, k requires 0 <= k < |notes| => Delivery(client, notes[k]))
  }
}
