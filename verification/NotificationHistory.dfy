/** Who is owed what, read off the history of a run of notifications alone: who had
    connected, subscribed and not left when a notification came, and who drained
    (cmd/killswitch/admin.go:323-328, 340-389, 450-498). */
module NotificationHistory {
  import opened Notifications

  // ---------- who is subscribed ----------

  /** How many clients have connected before `k`; the next one gets the next number. */
  function Connects(actions: seq<Action>, k: nat): nat
    requires k <= |actions|
  {
    if k == 0 then 0 else Connects(actions, k - 1) + if actions[k - 1].Connect? then 1 else 0
  }

  /** The client with this number has connected before `k` and not left since. */
  predicate Connected(actions: seq<Action>, k: nat, id: nat)
    requires k <= |actions|
  {
    exists j :: 0 <= j < k && actions[j].Connect? && Connects(actions, j) + 1 == id &&
                forall m :: j < m < k ==> actions[m] != Disconnect(id)
  }

  /** Departures and new subscriptions replace what a client subscribed to. */
  predicate Resubscribes(a: Action, id: nat) {
    (a.Subscribe? || a.Disconnect?) && a.id == id
  }

  /** The last thing a connected client said about its events includes notifications. */
  predicate Subscribed(actions: seq<Action>, k: nat, id: nat)
    requires k <= |actions|
  {
    exists j :: 0 <= j < k && actions[j].Subscribe? && actions[j].id == id && NotificationEvent in actions[j].types &&
                Connected(actions, j, id) && forall m :: j < m < k ==> !Resubscribes(actions[m], id)
  }

  lemma {:induction false} LastIdIsConnects(states: seq<System>, actions: seq<Action>, k: nat)
    requires Run(states, actions) && k < |states|
    ensures states[k].lastId == Connects(actions, k)
  {
    if k > 0 {
      LastIdIsConnects(states, actions, k - 1);
      assert states[k] == Act(states[k - 1], actions[k - 1]);
    }
  }

  lemma ConnectedStep(actions: seq<Action>, k: nat, id: nat)
    requires k < |actions|
    ensures Connected(actions, k + 1, id) <==>
              || (actions[k].Connect? && Connects(actions, k) + 1 == id)
              || (Connected(actions, k, id) && actions[k] != Disconnect(id))
  {
    if Connected(actions, k, id) && actions[k] != Disconnect(id) {
      var j :| 0 <= j < k && actions[j].Connect? && Connects(actions, j) + 1 == id &&
          forall m :: j < m < k ==> actions[m] != Disconnect(id);
      assert forall m :: j < m < k + 1 ==> actions[m] != Disconnect(id);
    }
  }

  lemma ConnectedKeeps(s: System, actions: seq<Action>, k: nat, id: nat)
    requires k < |actions| && CanAct(s, actions[k]) && s.lastId == Connects(actions, k)
    requires id in s.clients <==> Connected(actions, k, id)
    ensures id in Act(s, actions[k]).clients <==> Connected(actions, k + 1, id)
  {
    ConnectedStep(actions, k, id);
  }

  /** In every run the clients are those that connected and have not left. */
  lemma {:induction false} ConnectedExactly(states: seq<System>, actions: seq<Action>, k: nat, id: nat)
    requires Run(states, actions) && k < |states|
    ensures id in states[k].clients <==> Connected(actions, k, id)
  {
    if k > 0 {
      ConnectedExactly(states, actions, k - 1, id);
      LastIdIsConnects(states, actions, k - 1);
      ConnectedKeeps(states[k - 1], actions, k - 1, id);
    }
  }

  lemma SubscribedStep(actions: seq<Action>, k: nat, id: nat)
    requires k < |actions|
    ensures Subscribed(actions, k + 1, id) <==>
              || (actions[k].Subscribe? && actions[k].id == id && NotificationEvent in actions[k].types &&
                  Connected(actions, k, id))
              || (Subscribed(actions, k, id) && !Resubscribes(actions[k], id))
  {
    if Subscribed(actions, k, id) && !Resubscribes(actions[k], id) {
      var j :| 0 <= j < k && actions[j].Subscribe? && actions[j].id == id && NotificationEvent in actions[j].types &&
          Connected(actions, j, id) && forall m :: j < m < k ==> !Resubscribes(actions[m], id);
      assert forall m :: j < m < k + 1 ==> !Resubscribes(actions[m], id);
    }
  }

  lemma {:induction false} ConnectsGrow(actions: seq<Action>, j: nat, k: nat)
    requires j <= k <= |actions|
    ensures Connects(actions, j) <= Connects(actions, k)
  {
    if j < k {
      ConnectsGrow(actions, j, k - 1);
    }
  }

  /** A number that is yet to be given out belongs to nobody. */
  lemma SubscribedIsNumbered(actions: seq<Action>, k: nat, id: nat)
    requires k <= |actions| && Subscribed(actions, k, id)
    ensures id <= Connects(actions, k)
  {
    var j :| 0 <= j < k && actions[j].Subscribe? && actions[j].id == id && NotificationEvent in actions[j].types &&
        Connected(actions, j, id) && forall m :: j < m < k ==> !Resubscribes(actions[m], id);
    var i :| 0 <= i < j && actions[i].Connect? && Connects(actions, i) + 1 == id;
    ConnectsGrow(actions, i + 1, k);
  }

  lemma SubscribersStep(s: System, a: Action, id: nat)
    requires CanAct(s, a)
    ensures id in Subscribers(Act(s, a).clients) <==>
              match a
              case Connect => id in Subscribers(s.clients) && id != s.lastId + 1
              case Disconnect(x) => id in Subscribers(s.clients) && id != x
              case Subscribe(x, types) =>
                if id == x && id in s.clients then NotificationEvent in types else id in Subscribers(s.clients)
              case _ => id in Subscribers(s.clients)
  {
  }

  lemma SubscribedKeeps(s: System, actions: seq<Action>, k: nat, id: nat)
    requires k < |actions| && CanAct(s, actions[k]) && s.lastId == Connects(actions, k)
    requires id in s.clients <==> Connected(actions, k, id)
    requires id in Subscribers(s.clients) <==> Subscribed(actions, k, id)
    ensures id in Subscribers(Act(s, actions[k]).clients) <==> Subscribed(actions, k + 1, id)
  {
    SubscribersStep(s, actions[k], id);
    SubscribedStep(actions, k, id);
    if Subscribed(actions, k, id) { SubscribedIsNumbered(actions, k, id); }
  }

  /** In every run the subscribers are those whose last word, while connected, asked
      for notifications. */
  lemma {:induction false} SubscribedExactly(states: seq<System>, actions: seq<Action>, k: nat, id: nat)
    requires Run(states, actions) && k < |states|
    ensures id in Subscribers(states[k].clients) <==> Subscribed(actions, k, id)
  {
    if k > 0 {
      SubscribedExactly(states, actions, k - 1, id);
      ConnectedExactly(states, actions, k - 1, id);
      LastIdIsConnects(states, actions, k - 1);
      SubscribedKeeps(states[k - 1], actions, k - 1, id);
    }
  }

  // ---------- who is owed what ----------

  function Accepts(actions: seq<Action>, k: nat): nat
    requires k <= |actions|
  {
    if k == 0 then 0 else Accepts(actions, k - 1) + if actions[k - 1].Accept? then 1 else 0
  }

  lemma {:induction false} LogIsAccepts(states: seq<System>, actions: seq<Action>, k: nat)
    requires Run(states, actions) && k < |states|
    ensures |states[k].log| == Accepts(actions, k)
  {
    if k > 0 {
      LogIsAccepts(states, actions, k - 1);
      assert states[k] == Act(states[k - 1], actions[k - 1]);
    }
  }

  /** Each accepted notification is logged under its number, with its audience: exactly
      the clients then subscribed. */
  lemma LoggedExactly(states: seq<System>, actions: seq<Action>, j: nat, k: nat)
    requires Run(states, actions) && j < k < |states| && actions[j].Accept?
    ensures var n := Accepts(actions, j);
            && n < |states[k].log| && states[k].log[n].note == actions[j].note
            && forall id :: id in states[k].log[n].audience <==> Subscribed(actions, j, id)
  {
    var n := Accepts(actions, j);
    LogIsAccepts(states, actions, j);
    assert states[j + 1] == Act(states[j], actions[j]);
    assert states[j + 1].log[n] == Accepted(actions[j].note, Subscribers(states[j].clients));
    Grows(states, actions, j + 1, k);
    forall id ensures id in Subscribers(states[j].clients) <==> Subscribed(actions, j, id) {
      SubscribedExactly(states, actions, j, id);
    }
  }

  /** What one action makes owed: an acceptance its own notification to the clients
      then subscribed, a drain the buffer to the draining client, nothing else anything. */
  lemma OwedStep(states: seq<System>, actions: seq<Action>, k: nat, d: Delivery)
    requires Run(states, actions) && k < |actions|
    ensures Owed(states[k + 1], d) <==>
              || Owed(states[k], d)
              || (actions[k].Accept? && d.note == Accepts(actions, k) && Subscribed(actions, k, d.client))
              || (actions[k].Take? && d.client == actions[k].client && d.note in states[k].buffer)
  {
    var s, a, t := states[k], actions[k], states[k + 1];
    assert t == Act(s, a);
    LogIsAccepts(states, actions, k);
    SubscribedExactly(states, actions, k, d.client);
    if a.Take? && s.buffer != [] {
      assert t.drains[|s.drains|] == Drain(a.client, s.buffer);
      assert forall j: nat :: j < |s.drains| ==> t.drains[j] == s.drains[j];
      assert TakenAt(t, |s.drains|, d.note) <==> d.note in s.buffer;
      assert forall j: nat :: j < |s.drains| ==> (TakenAt(t, j, d.note) <==> TakenAt(s, j, d.note));
    } else {
      assert t.drains == s.drains;
      assert forall j: nat :: TakenAt(t, j, d.note) <==> TakenAt(s, j, d.note);
    }
  }

  /** What one write does: a successful one adds one message to what was sent, a failed
      one of a broadcast loses one message, a failed one of a drain the rest of it. No
      other action sends or loses anything. */
  lemma WriteStep(states: seq<System>, actions: seq<Action>, k: nat)
    requires Run(states, actions) && k < |actions|
    ensures var s, a, t := states[k], actions[k], states[k + 1];
            if !a.Send? then t.sent == s.sent && t.failed == s.failed
            else
              && a.call in s.calls
              && (a.ok ==> t.failed == s.failed && exists n :: t.sent == s.sent + [Delivery(a.client, n)] &&
                                                               InCall(s.calls[a.call], Delivery(a.client, n)))
              && (!a.ok ==> t.sent == s.sent &&
                            forall d :: d in t.failed <==>
                                          d in s.failed || (InCall(s.calls[a.call], d) && d.client == a.client))
  {
    assert states[k + 1] == Act(states[k], actions[k]);
  }
}
