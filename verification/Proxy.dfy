/** The SOCKS proxy's start/stop/failure protocol and its report into the policy
    state (cmd/killswitch/socks_proxy.go:191-332, 420-443, cmd/killswitch/main.go:91-106).

    Every locked section and every unlocked gap between two sections is one action,
    so a run is any interleaving of the calls in flight. The policy side is written
    only under the reconcile lock; the proxy side only under its own lock, which is
    never held across a gap. */
module Proxy {
  import opened Words
  import opened Effective

  /** Where a call in flight stands. `sync` says whether the call ends by copying the
      proxy's state to the policy side, as an admin mutation does; the startup call,
      the shutdown call and a failing accept loop do not. */
  datatype Call =
    | Starting(sync: bool)
    | Listening(sync: bool)
    | Stopping(sync: bool)
    | Emitting(state: ProxyState, sync: bool, serve: bool)
    | Syncing
    | Writing(state: ProxyState)

  datatype System = System(
    proxy: ProxyState, listener: Option<nat>, policy: ProxyState,
    calls: map<nat, Call>, lock: Option<nat>, served: nat, booted: bool)

  datatype Action =
    | BeginStart(id: nat)
    | BeginStop(id: nat)
    | BeginShutdown(id: nat)
    | EnterStart(id: nat)
    | ListenOk(id: nat, handle: nat)
    | ListenFail(id: nat, error: string)
    | Stop(id: nat)
    | AcceptFail(id: nat, error: string)
    | Emit(id: nat)
    | SyncRead(id: nat)
    | SyncWrite(id: nat)
    | ReplaceOptions(initial: ProxyState)

  const BOOT: nat := 0

  /** The daemon starts with the startup call in flight, or with none when the proxy
      is disabled; both sides hold the configured, stopped state. */
  ghost predicate Initial(s: System) {
    && !s.proxy.running && s.policy == s.proxy && s.listener == None && s.lock == None && s.served == 0
    && ((!s.booted && s.calls == map[BOOT := Starting(false)]) || (s.booted && s.calls == map[]))
  }

  ghost predicate CanAct(s: System, a: Action) {
    match a
    case BeginStart(id) => s.booted && id !in s.calls
    case BeginStop(id) => s.booted && id !in s.calls
    case BeginShutdown(id) => s.booted && id !in s.calls
    case EnterStart(id) => id in s.calls && s.calls[id].Starting?
    case ListenOk(id, _) => id in s.calls && s.calls[id].Listening?
    case ListenFail(id, _) => id in s.calls && s.calls[id].Listening?
    case Stop(id) => id in s.calls && s.calls[id].Stopping?
    case AcceptFail(id, _) => s.served > 0 && id !in s.calls
    case Emit(id) => id in s.calls && s.calls[id].Emitting? && s.lock == None
    case SyncRead(id) => id in s.calls && s.calls[id].Syncing? && s.lock == None
    case SyncWrite(id) => id in s.calls && s.calls[id].Writing? && s.lock == Some(id)
    case ReplaceOptions(initial) => s.lock == None && !initial.running
  }

  function Advance(s: System, id: nat, c: Call): System {
    s.(calls := s.calls[id := c])
  }

  ghost function Act(s: System, a: Action): System
    requires CanAct(s, a)
  {
    match a
    case BeginStart(id) => Advance(s, id, Starting(true))
    case BeginStop(id) => Advance(s, id, Stopping(true))
    case BeginShutdown(id) => Advance(s, id, Stopping(false))
    case EnterStart(id) =>
      var sync := s.calls[id].sync;
      if s.proxy.running then
        var p := s.proxy.(enabled := true);
        Advance(s, id, Emitting(p, sync, false)).(proxy := p)
      else
        Advance(s, id, Listening(sync)).(proxy := s.proxy.(enabled := true, lastError := ""))
    case ListenOk(id, handle) =>
      var p := s.proxy.(running := true, lastError := "");
      Advance(s, id, Emitting(p, s.calls[id].sync, true)).(proxy := p, listener := Some(handle))
    case ListenFail(id, error) =>
      var p := s.proxy.(running := false, lastError := error);
      Advance(s, id, Emitting(p, s.calls[id].sync, false)).(proxy := p)
    case Stop(id) =>
      var p := s.proxy.(enabled := false, running := false, lastError := "");
      Advance(s, id, Emitting(p, s.calls[id].sync, false)).(proxy := p, listener := None)
    case AcceptFail(id, error) =>
      var p := s.proxy.(running := false, lastError := error);
      Advance(s, id, Emitting(p, false, false)).(proxy := p, listener := None)
    case Emit(id) =>
      var c := s.calls[id];
      var t := s.(policy := c.state, served := s.served + if c.serve then 1 else 0, booted := s.booted || id == BOOT);
      if c.sync then Advance(t, id, Syncing) else t.(calls := t.calls - {id})
    case SyncRead(id) => Advance(s, id, Writing(s.proxy)).(lock := Some(id))
    case SyncWrite(id) => s.(policy := s.calls[id].state, lock := None, calls := s.calls - {id})
    case ReplaceOptions(initial) =>
      if !s.policy.enabled && !s.policy.running then s.(policy := initial) else s
  }

  /** A run: states linked by possible actions. */
  ghost predicate Run(states: seq<System>, actions: seq<Action>) {
    && |states| == |actions| + 1 && Initial(states[0])
    && forall k :: 0 <= k < |actions| ==> CanAct(states[k], actions[k]) && states[k + 1] == Act(states[k], actions[k])
  }

  // ---------- the invariant ----------

  /** A call that has yet to tell the policy side that the proxy is stopped: it holds
      a stopped state to emit, or it will still read the proxy's state afresh. */
  predicate Pending(c: Call) {
    match c
    case Starting(sync) => sync
    case Listening(sync) => sync
    case Stopping(sync) => sync
    case Emitting(state, sync, _) => !state.running || sync
    case Syncing => true
    case Writing(state) => !state.running
  }

  ghost predicate SomePending(s: System) {
    exists id :: id in s.calls && Pending(s.calls[id])
  }

  /** A stale "running" can be on the policy side only while some call will correct it. */
  ghost predicate StaleCorrected(s: System) {
    s.policy.running && !s.proxy.running ==> SomePending(s)
  }

  /** A stale "running" about to be written is corrected by a later writer too. */
  ghost predicate StaleReadCorrected(s: System) {
    forall id :: id in s.calls && s.calls[id].Writing? && s.calls[id].state.running && !s.proxy.running ==>
      SomePending(s)
  }

  ghost predicate LockHeld(s: System) {
    && (forall id :: id in s.calls && s.calls[id].Writing? ==> s.lock == Some(id))
    && (s.lock.Some? ==> s.lock.value in s.calls && s.calls[s.lock.value].Writing?)
  }

  /** Until the startup call has emitted, it is alone, and what it emits is current;
      afterwards a call that does not end in a copy emits only stopped states. */
  ghost predicate Emissions(s: System) {
    && (!s.booted ==> s.calls.Keys == {BOOT} && s.served == 0
                      && (s.calls[BOOT].Starting? || s.calls[BOOT].Listening? || s.calls[BOOT].Emitting?)
                      && (s.calls[BOOT].Emitting? ==> s.calls[BOOT].state == s.proxy))
    && (s.booted ==> forall id :: id in s.calls ==>
          var c := s.calls[id];
          (c.Starting? ==> c.sync) && (c.Listening? ==> c.sync) && (c.Emitting? && !c.sync ==> !c.state.running))
  }

  ghost predicate RunningListens(s: System) {
    s.proxy.running ==> s.listener.Some?
  }

  ghost predicate Invariant(s: System) {
    StaleCorrected(s) && StaleReadCorrected(s) && LockHeld(s) && Emissions(s) && RunningListens(s)
  }

  lemma StillPending(s: System, t: System, id: nat)
    requires SomePending(s)
    requires forall k :: k in s.calls && k != id ==> k in t.calls && t.calls[k] == s.calls[k]
    requires id in t.calls && (id in s.calls && Pending(s.calls[id]) ==> Pending(t.calls[id]))
    ensures SomePending(t)
  {
  }

  lemma BootStep(s: System, a: Action)
    requires Invariant(s) && CanAct(s, a) && !s.booted
    ensures Invariant(Act(s, a))
  {
    var t := Act(s, a);
    match a {
      case ReplaceOptions(_) =>
      case Emit(id) =>
        assert id == BOOT;
        assert t.calls.Keys <= {BOOT};
      case EnterStart(id) => assert id == BOOT; assert t.calls.Keys == {BOOT};
      case ListenOk(id, _) => assert id == BOOT; assert t.calls.Keys == {BOOT};
      case ListenFail(id, _) => assert id == BOOT; assert t.calls.Keys == {BOOT};
      case _ =>
    }
  }

  /** Actions that leave both sides' running flags alone. */
  lemma QuietStep(s: System, a: Action)
    requires Invariant(s) && CanAct(s, a) && s.booted
    requires a.BeginStart? || a.BeginStop? || a.BeginShutdown? || a.EnterStart? || a.ReplaceOptions?
    ensures Invariant(Act(s, a))
  {
    var t := Act(s, a);
    if SomePending(s) && !a.ReplaceOptions? {
      StillPending(s, t, a.id);
    }
  }

  /** Actions that stop or start the proxy. */
  lemma ProxyStep(s: System, a: Action)
    requires Invariant(s) && CanAct(s, a) && s.booted
    requires a.ListenOk? || a.ListenFail? || a.Stop? || a.AcceptFail?
    ensures Invariant(Act(s, a))
  {
    var t := Act(s, a);
    assert a.id in t.calls && t.calls[a.id].Emitting?;
    if !a.ListenOk? {
      assert Pending(t.calls[a.id]);
    }
  }

  lemma EmitStep(s: System, a: Action)
    requires Invariant(s) && CanAct(s, a) && s.booted && a.Emit?
    ensures Invariant(Act(s, a))
  {
    var t := Act(s, a);
    if s.calls[a.id].sync {
      assert Pending(t.calls[a.id]);
    } else {
      assert !t.policy.running;
    }
  }

  lemma SyncReadStep(s: System, a: Action)
    requires Invariant(s) && CanAct(s, a) && s.booted && a.SyncRead?
    ensures Invariant(Act(s, a))
  {
    var t := Act(s, a);
    assert t.calls[a.id] == Writing(s.proxy);
    if !s.proxy.running {
      assert Pending(t.calls[a.id]);
    }
  }

  lemma SyncWriteStep(s: System, a: Action)
    requires Invariant(s) && CanAct(s, a) && s.booted && a.SyncWrite?
    ensures Invariant(Act(s, a))
  {
    var t := Act(s, a);
    if t.policy.running && !t.proxy.running {
      assert SomePending(s);
      var k :| k in s.calls && Pending(s.calls[k]);
      assert k != a.id;
      assert k in t.calls && Pending(t.calls[k]);
    }
  }

  lemma StepKeepsInvariant(s: System, a: Action)
    requires Invariant(s) && CanAct(s, a)
    ensures Invariant(Act(s, a))
  {
    if !s.booted {
      BootStep(s, a);
    } else if a.Emit? {
      EmitStep(s, a);
    } else if a.SyncRead? {
      SyncReadStep(s, a);
    } else if a.SyncWrite? {
      SyncWriteStep(s, a);
    } else if a.ListenOk? || a.ListenFail? || a.Stop? || a.AcceptFail? {
      ProxyStep(s, a);
    } else {
      QuietStep(s, a);
    }
  }

  lemma {:induction false} InvariantThroughout(states: seq<System>, actions: seq<Action>, k: nat)
    requires Run(states, actions) && k < |states|
    ensures Invariant(states[k])
  {
    if k > 0 {
      InvariantThroughout(states, actions, k - 1);
      StepKeepsInvariant(states[k - 1], actions[k - 1]);
    }
  }

  /** In every interleaving, whenever no call is in flight, a policy side that says
      "running" is right, and a proxy recorded as stopped contributes no mark. */
  lemma QuiescentIsFaithful(states: seq<System>, actions: seq<Action>, k: nat)
    requires Run(states, actions) && k < |states| && states[k].calls == map[]
    ensures states[k].policy.running ==> states[k].proxy.running && states[k].listener.Some?
    ensures !states[k].proxy.running ==> ProxyRules(states[k].policy) == []
  {
    InvariantThroughout(states, actions, k);
  }

  // ---------- the history decides the proxy side ----------

  /** The actions that decide whether the proxy runs. */
  predicate Decides(a: Action) {
    a.ListenOk? || a.ListenFail? || a.Stop? || a.AcceptFail?
  }

  /** The last deciding action before `k` is a successful listen. */
  predicate LastListened(actions: seq<Action>, k: nat)
    requires k <= |actions|
  {
    exists j :: 0 <= j < k && actions[j].ListenOk? && forall m :: j < m < k ==> !Decides(actions[m])
  }

  lemma LastListenedStep(actions: seq<Action>, k: nat)
    requires k < |actions|
    ensures LastListened(actions, k + 1) <==>
              if Decides(actions[k]) then actions[k].ListenOk? else LastListened(actions, k)
  {
    if !Decides(actions[k]) && LastListened(actions, k) {
      var j :| 0 <= j < k && actions[j].ListenOk? && forall m :: j < m < k ==> !Decides(actions[m]);
      assert forall m :: j < m < k + 1 ==> !Decides(actions[m]);
    }
  }

  /** In every run the proxy is running exactly when the last action that decided it
      was a successful listen. */
  lemma {:induction false} RunningExactly(states: seq<System>, actions: seq<Action>, k: nat)
    requires Run(states, actions) && k < |states|
    ensures states[k].proxy.running <==> LastListened(actions, k)
  {
    if k > 0 {
      RunningExactly(states, actions, k - 1);
      LastListenedStep(actions, k - 1);
    }
  }

  /** The last action before `k` that moves the listener is a listen that got `handle`;
      a failed listen moves none. */
  predicate LastHandle(actions: seq<Action>, k: nat, handle: nat)
    requires k <= |actions|
  {
    exists j :: 0 <= j < k && actions[j].ListenOk? && actions[j].handle == handle &&
                forall m :: j < m < k ==> !MovesListener(actions[m])
  }

  predicate MovesListener(a: Action) {
    a.ListenOk? || a.Stop? || a.AcceptFail?
  }

  lemma LastHandleStep(actions: seq<Action>, k: nat, handle: nat)
    requires k < |actions|
    ensures LastHandle(actions, k + 1, handle) <==>
              if MovesListener(actions[k]) then actions[k].ListenOk? && actions[k].handle == handle
              else LastHandle(actions, k, handle)
  {
    if !MovesListener(actions[k]) && LastHandle(actions, k, handle) {
      var j :| 0 <= j < k && actions[j].ListenOk? && actions[j].handle == handle &&
          forall m :: j < m < k ==> !MovesListener(actions[m]);
      assert forall m :: j < m < k + 1 ==> !MovesListener(actions[m]);
    }
  }

  /** In every run the listener is the one the last successful listen got, unless a
      stop or a failing accept loop came after it. */
  lemma {:induction false} ListenerExactly(states: seq<System>, actions: seq<Action>, k: nat, handle: nat)
    requires Run(states, actions) && k < |states|
    ensures states[k].listener == Some(handle) <==> LastHandle(actions, k, handle)
  {
    if k > 0 {
      ListenerExactly(states, actions, k - 1, handle);
      LastHandleStep(actions, k - 1, handle);
    }
  }

  /** What the proxy was configured with never changes. */
  lemma {:induction false} ConfiguredThroughout(states: seq<System>, actions: seq<Action>, k: nat)
    requires Run(states, actions) && k < |states|
    ensures states[k].proxy.fwMark == states[0].proxy.fwMark && states[k].proxy.port == states[0].proxy.port
    ensures states[k].proxy.dnsServer == states[0].proxy.dnsServer
  {
    if k > 0 {
      ConfiguredThroughout(states, actions, k - 1);
    }
  }

  predicate MovesEnabled(a: Action) {
    a.EnterStart? || a.Stop?
  }

  /** The last action before `k` that enables or disables is an entered start. */
  predicate LastEntered(actions: seq<Action>, k: nat)
    requires k <= |actions|
  {
    exists j :: 0 <= j < k && actions[j].EnterStart? && forall m :: j < m < k ==> !MovesEnabled(actions[m])
  }

  lemma LastEnteredStep(actions: seq<Action>, k: nat)
    requires k < |actions|
    ensures LastEntered(actions, k + 1) <==>
              if MovesEnabled(actions[k]) then actions[k].EnterStart? else LastEntered(actions, k)
  {
    if !MovesEnabled(actions[k]) && LastEntered(actions, k) {
      var j :| 0 <= j < k && actions[j].EnterStart? && forall m :: j < m < k ==> !MovesEnabled(actions[m]);
      assert forall m :: j < m < k + 1 ==> !MovesEnabled(actions[m]);
    }
  }

  /** The proxy is enabled exactly when a start was entered since the last stop, or
      neither ever came and the configuration enables it. */
  lemma {:induction false} EnabledExactly(states: seq<System>, actions: seq<Action>, k: nat)
    requires Run(states, actions) && k < |states|
    ensures states[k].proxy.enabled <==>
              || LastEntered(actions, k)
              || (states[0].proxy.enabled && forall m :: 0 <= m < k ==> !MovesEnabled(actions[m]))
  {
    if k > 0 {
      EnabledExactly(states, actions, k - 1);
      LastEnteredStep(actions, k - 1);
    }
  }

  /** A start that finds the proxy stopped forgets the error before it listens. */
  predicate SetsError(actions: seq<Action>, j: nat)
    requires j < |actions|
  {
    Decides(actions[j]) || (actions[j].EnterStart? && !LastListened(actions, j))
  }

  function ErrorOf(a: Action): string {
    if a.ListenFail? || a.AcceptFail? then a.error else ""
  }

  /** The last action before `k` that set the error set it to `error`. */
  predicate LastError(actions: seq<Action>, k: nat, error: string)
    requires k <= |actions|
  {
    exists j :: 0 <= j < k && SetsError(actions, j) && ErrorOf(actions[j]) == error &&
                forall m :: j < m < k ==> !SetsError(actions, m)
  }

  predicate NoError(actions: seq<Action>, k: nat)
    requires k <= |actions|
  {
    forall m :: 0 <= m < k ==> !SetsError(actions, m)
  }

  lemma LastErrorStep(actions: seq<Action>, k: nat, error: string)
    requires k < |actions|
    ensures LastError(actions, k + 1, error) <==>
              if SetsError(actions, k) then ErrorOf(actions[k]) == error else LastError(actions, k, error)
    ensures NoError(actions, k + 1) <==> NoError(actions, k) && !SetsError(actions, k)
  {
    if !SetsError(actions, k) && LastError(actions, k, error) {
      var j :| 0 <= j < k && SetsError(actions, j) && ErrorOf(actions[j]) == error &&
          forall m :: j < m < k ==> !SetsError(actions, m);
      assert forall m :: j < m < k + 1 ==> !SetsError(actions, m);
    }
  }

  lemma ErrorStep(s: System, actions: seq<Action>, k: nat)
    requires k < |actions| && CanAct(s, actions[k]) && (s.proxy.running <==> LastListened(actions, k))
    ensures Act(s, actions[k]).proxy.lastError ==
            if SetsError(actions, k) then ErrorOf(actions[k]) else s.proxy.lastError
  {
  }

  /** The error shown is that of the last action that set one, a failure its own and
      any other none. */
  lemma {:induction false} ErrorExactly(states: seq<System>, actions: seq<Action>, k: nat)
    requires Run(states, actions) && k < |states|
    ensures var error := states[k].proxy.lastError;
            LastError(actions, k, error) || (NoError(actions, k) && error == states[0].proxy.lastError)
  {
    if k > 0 {
      ErrorExactly(states, actions, k - 1);
      RunningExactly(states, actions, k - 1);
      ErrorStep(states[k - 1], actions, k - 1);
      LastErrorStep(actions, k - 1, states[k].proxy.lastError);
    }
  }

  // ---------- the history decides the policy side ----------

  /** The two actions by which a call writes the policy side. */
  predicate Reports(a: Action) {
    a.Emit? || a.SyncWrite?
  }

  predicate OfCall(a: Action, id: nat) {
    !a.ReplaceOptions? && a.id == id
  }

  /** `i` is the last action of that call before `k`. */
  predicate LastOfCall(actions: seq<Action>, i: int, k: nat, id: nat)
    requires k <= |actions|
  {
    0 <= i < k && OfCall(actions[i], id) && forall m :: i < m < k ==> !OfCall(actions[m], id)
  }

  lemma SnapshotStep(s: System, a: Action, id: nat)
    requires CanAct(s, a) && id in Act(s, a).calls
    requires Act(s, a).calls[id].Emitting? || Act(s, a).calls[id].Writing?
    ensures OfCall(a, id) ==> Act(s, a).calls[id].state == Act(s, a).proxy
    ensures !OfCall(a, id) ==> id in s.calls && s.calls[id] == Act(s, a).calls[id]
  {
  }

  lemma LastOfCallStep(actions: seq<Action>, i: int, k: nat, id: nat)
    requires k < |actions|
    ensures OfCall(actions[k], id) ==> LastOfCall(actions, k, k + 1, id)
    ensures !OfCall(actions[k], id) && LastOfCall(actions, i, k, id) ==> LastOfCall(actions, i, k + 1, id)
  {
  }

  /** What a call is about to report is the proxy as the call's last action left it. */
  lemma {:induction false} SnapshotTaken(states: seq<System>, actions: seq<Action>, k: nat, id: nat) returns (i: nat)
    requires Run(states, actions) && k < |states| && id in states[k].calls
    requires states[k].calls[id].Emitting? || states[k].calls[id].Writing?
    ensures LastOfCall(actions, i, k, id) && states[k].calls[id].state == states[i + 1].proxy
  {
    assert k > 0;
    SnapshotStep(states[k - 1], actions[k - 1], id);
    if OfCall(actions[k - 1], id) {
      i := k - 1;
    } else {
      i := SnapshotTaken(states, actions, k - 1, id);
    }
    LastOfCallStep(actions, i, k - 1, id);
  }

  /** A report writes what the proxy was when the reporting call last looked at it. */
  lemma ReportWrites(states: seq<System>, actions: seq<Action>, j: nat) returns (i: nat)
    requires Run(states, actions) && j < |actions| && Reports(actions[j])
    ensures LastOfCall(actions, i, j, actions[j].id) && states[j + 1].policy == states[i + 1].proxy
  {
    i := SnapshotTaken(states, actions, j, actions[j].id);
  }

  /** The last report before `k` is of a look at the proxy after which it ran. */
  predicate LastReportedRunning(actions: seq<Action>, k: nat)
    requires k <= |actions|
  {
    exists i, j :: 0 <= i < j < k && Reports(actions[j]) && (forall m :: j < m < k ==> !Reports(actions[m])) &&
                   LastOfCall(actions, i, j, actions[j].id) && LastListened(actions, i + 1)
  }

  lemma QuietKeepsRunning(states: seq<System>, actions: seq<Action>, k: nat)
    requires Run(states, actions) && k < |actions| && !Reports(actions[k])
    ensures states[k + 1].policy.running == states[k].policy.running
  {
  }

  lemma LastReportedStep(actions: seq<Action>, k: nat, i: nat)
    requires k < |actions|
    requires Reports(actions[k]) ==> LastOfCall(actions, i, k, actions[k].id)
    ensures LastReportedRunning(actions, k + 1) <==>
              if Reports(actions[k]) then LastListened(actions, i + 1) else LastReportedRunning(actions, k)
  {
    if !Reports(actions[k]) && LastReportedRunning(actions, k) {
      var h, j :| 0 <= h < j < k && Reports(actions[j]) && (forall m :: j < m < k ==> !Reports(actions[m])) &&
          LastOfCall(actions, h, j, actions[j].id) && LastListened(actions, h + 1);
      assert forall m :: j < m < k + 1 ==> !Reports(actions[m]);
    }
  }

  /** In every run the policy side says "running" exactly when the last report was of
      a look at the proxy that found the last deciding action to be a successful
      listen; new options never change it. */
  lemma {:induction false} PolicyRunningExactly(states: seq<System>, actions: seq<Action>, k: nat)
    requires Run(states, actions) && k < |states|
    ensures states[k].policy.running <==> LastReportedRunning(actions, k)
  {
    if k > 0 {
      PolicyRunningExactly(states, actions, k - 1);
      if Reports(actions[k - 1]) {
        var i := ReportWrites(states, actions, k - 1);
        RunningExactly(states, actions, i + 1);
        LastReportedStep(actions, k - 1, i);
      } else {
        QuietKeepsRunning(states, actions, k - 1);
        LastReportedStep(actions, k - 1, 0);
      }
    }
  }

  /** A policy side that says "running" holds the configured mark, whatever options
      came in the meantime. */
  lemma {:induction false} RunningMarkIsConfigured(states: seq<System>, actions: seq<Action>, k: nat)
    requires Run(states, actions) && k < |states| && states[k].policy.running
    ensures states[k].policy.fwMark == states[0].proxy.fwMark
  {
    if k > 0 {
      if Reports(actions[k - 1]) {
        var i := ReportWrites(states, actions, k - 1);
        ConfiguredThroughout(states, actions, i + 1);
      } else {
        QuietKeepsRunning(states, actions, k - 1);
        RunningMarkIsConfigured(states, actions, k - 1);
      }
    }
  }

  /** So once no call is in flight the policy side agrees with the proxy exactly when
      the proxy is stopped or the last report found it running. */
  lemma QuiescentAgreesExactly(states: seq<System>, actions: seq<Action>, k: nat)
    requires Run(states, actions) && k < |states| && states[k].calls == map[]
    ensures (states[k].policy.running <==> states[k].proxy.running) <==>
              !LastListened(actions, k) || LastReportedRunning(actions, k)
  {
    QuiescentIsFaithful(states, actions, k);
    RunningExactly(states, actions, k);
    PolicyRunningExactly(states, actions, k);
  }

  // ---------- calls that nothing disturbs ----------

  ghost predicate Consecutive(actions: seq<Action>, k: nat, part: seq<Action>) {
    k + |part| <= |actions| && forall m :: 0 <= m < |part| ==> actions[k + m] == part[m]
  }

  lemma StepAt(states: seq<System>, actions: seq<Action>, k: nat, part: seq<Action>, m: nat)
    requires Run(states, actions) && Consecutive(actions, k, part) && m < |part|
    ensures CanAct(states[k + m], part[m]) && states[k + m + 1] == Act(states[k + m], part[m])
  {
    assert actions[k + m] == part[m];
  }

  /** An undisturbed start of a stopped proxy that listens ends with both sides
      running and agreeing, under the configured mark. */
  lemma UndisturbedStart(states: seq<System>, actions: seq<Action>, k: nat, id: nat, handle: nat)
    requires Run(states, actions) && k < |states| && !states[k].proxy.running
    requires Consecutive(actions, k, [BeginStart(id), EnterStart(id), ListenOk(id, handle), Emit(id), SyncRead(id),
                                      SyncWrite(id)])
    ensures var s, t := states[k], states[k + 6];
            && t.proxy.running && t.proxy.enabled && t.proxy.lastError == "" && t.policy == t.proxy
            && t.proxy.fwMark == states[0].proxy.fwMark && t.proxy.port == states[0].proxy.port
            && t.listener == Some(handle) && t.calls == s.calls && t.lock == None && t.served == s.served + 1
  {
    var part := [BeginStart(id), EnterStart(id), ListenOk(id, handle), Emit(id), SyncRead(id), SyncWrite(id)];
    StepAt(states, actions, k, part, 0);
    StepAt(states, actions, k, part, 1);
    StepAt(states, actions, k, part, 2);
    StepAt(states, actions, k, part, 3);
    StepAt(states, actions, k, part, 4);
    StepAt(states, actions, k, part, 5);
    ConfiguredThroughout(states, actions, k);
  }

  /** One that cannot listen ends with both sides stopped, enabled, and carrying the
      error; the listener stays what it was. */
  lemma UndisturbedFailure(states: seq<System>, actions: seq<Action>, k: nat, id: nat, error: string)
    requires Run(states, actions) && k < |states| && !states[k].proxy.running
    requires Consecutive(actions, k, [BeginStart(id), EnterStart(id), ListenFail(id, error), Emit(id), SyncRead(id),
                                      SyncWrite(id)])
    ensures var s, t := states[k], states[k + 6];
            && !t.proxy.running && t.proxy.enabled && t.proxy.lastError == error && t.policy == t.proxy
            && t.listener == s.listener && t.calls == s.calls && t.lock == None && t.served == s.served
  {
    var part := [BeginStart(id), EnterStart(id), ListenFail(id, error), Emit(id), SyncRead(id), SyncWrite(id)];
    StepAt(states, actions, k, part, 0);
    StepAt(states, actions, k, part, 1);
    StepAt(states, actions, k, part, 2);
    StepAt(states, actions, k, part, 3);
    StepAt(states, actions, k, part, 4);
    StepAt(states, actions, k, part, 5);
  }

  /** Starting a running proxy opens no second listener; both sides end running. */
  lemma UndisturbedRestart(states: seq<System>, actions: seq<Action>, k: nat, id: nat)
    requires Run(states, actions) && k < |states| && states[k].proxy.running
    requires Consecutive(actions, k, [BeginStart(id), EnterStart(id), Emit(id), SyncRead(id), SyncWrite(id)])
    ensures var s, t := states[k], states[k + 5];
            && t.proxy == s.proxy.(enabled := true) && t.policy == t.proxy && t.listener == s.listener
            && t.calls == s.calls && t.lock == None && t.served == s.served
  {
    var part := [BeginStart(id), EnterStart(id), Emit(id), SyncRead(id), SyncWrite(id)];
    StepAt(states, actions, k, part, 0);
    StepAt(states, actions, k, part, 1);
    StepAt(states, actions, k, part, 2);
    StepAt(states, actions, k, part, 3);
    StepAt(states, actions, k, part, 4);
  }

  /** An undisturbed stop ends with both sides stopped and disabled. */
  lemma UndisturbedStop(states: seq<System>, actions: seq<Action>, k: nat, id: nat)
    requires Run(states, actions) && k < |states|
    requires Consecutive(actions, k, [BeginStop(id), Stop(id), Emit(id), SyncRead(id), SyncWrite(id)])
    ensures var s, t := states[k], states[k + 5];
            && !t.proxy.running && !t.proxy.enabled && t.proxy.lastError == "" && t.policy == t.proxy
            && t.listener == None && t.calls == s.calls && t.lock == None && t.served == s.served
  {
    var part := [BeginStop(id), Stop(id), Emit(id), SyncRead(id), SyncWrite(id)];
    StepAt(states, actions, k, part, 0);
    StepAt(states, actions, k, part, 1);
    StepAt(states, actions, k, part, 2);
    StepAt(states, actions, k, part, 3);
    StepAt(states, actions, k, part, 4);
  }

  // ---------- the exact condition is needed ----------

  /** A run of actions from a state, as the sequence of states it passes. */
  ghost predicate Path(states: seq<System>, actions: seq<Action>) {
    && |states| == |actions| + 1
    && forall k :: 0 <= k < |actions| ==> CanAct(states[k], actions[k]) && states[k + 1] == Act(states[k], actions[k])
  }

  lemma PathsJoin(a: seq<System>, p: seq<Action>, b: seq<System>, q: seq<Action>)
    requires Path(a, p) && Path(b, q) && a[|p|] == b[0]
    ensures Path(a + b[1..], p + q) && (a + b[1..])[0] == a[0] && (a + b[1..])[|p + q|] == b[|q|]
  {
    var states, actions := a + b[1..], p + q;
    forall k | 0 <= k < |actions|
      ensures CanAct(states[k], actions[k]) && states[k + 1] == Act(states[k], actions[k])
    {
      if k < |p| {
        assert actions[k] == p[k];
      } else {
        assert actions[k] == q[k - |p|] && states[k] == b[k - |p|] && states[k + 1] == b[k - |p| + 1];
      }
    }
  }

  lemma ListenPath(s: System, id: nat, handle: nat) returns (states: seq<System>)
    requires s.booted && id !in s.calls && !s.proxy.running
    ensures Path(states, [BeginStart(id), EnterStart(id), ListenOk(id, handle)])
    ensures var p := s.proxy.(enabled := true, running := true, lastError := "");
            states[0] == s &&
            states[3] == s.(proxy := p, listener := Some(handle), calls := s.calls[id := Emitting(p, true, true)])
  {
    var a := Act(s, BeginStart(id));
    var b := Act(a, EnterStart(id));
    var c := Act(b, ListenOk(id, handle));
    states := [s, a, b, c];
  }

  lemma ReportPath(s: System, id: nat) returns (states: seq<System>)
    requires s.booted && id in s.calls && s.calls[id] == Emitting(s.proxy, true, true) && s.lock == None
    ensures Path(states, [Emit(id), SyncRead(id), SyncWrite(id)])
    ensures states[0] == s && states[3] == s.(policy := s.proxy, served := s.served + 1, calls := s.calls - {id})
  {
    var a := Act(s, Emit(id));
    var b := Act(a, SyncRead(id));
    var c := Act(b, SyncWrite(id));
    assert c.calls == s.calls - {id};
    states := [s, a, b, c];
  }

  /** A start from a stopped proxy, whatever other calls are in flight. */
  lemma StartPath(s: System, id: nat, handle: nat) returns (states: seq<System>)
    requires s.booted && id !in s.calls && s.lock == None && !s.proxy.running
    ensures Path(states, [BeginStart(id), EnterStart(id), ListenOk(id, handle), Emit(id), SyncRead(id), SyncWrite(id)])
    ensures var p := s.proxy.(enabled := true, running := true, lastError := "");
            states[0] == s && states[6] == s.(proxy := p, policy := p, listener := Some(handle), served := s.served + 1)
  {
    var first := ListenPath(s, id, handle);
    var second := ReportPath(first[3], id);
    PathsJoin(first, [BeginStart(id), EnterStart(id), ListenOk(id, handle)],
              second, [Emit(id), SyncRead(id), SyncWrite(id)]);
    states := first + second[1..];
    assert first[3].calls - {id} == s.calls;
  }

  /** A failing accept loop whose report comes only after a later start: the proxy ends
      running while the policy side says "stopped", with no call left to correct it. */
  lemma RunningMayBeMissed(proxy: ProxyState) returns (states: seq<System>, actions: seq<Action>)
    requires !proxy.running
    ensures Run(states, actions) && states[|actions|].calls == map[]
    ensures states[|actions|].proxy.running && !states[|actions|].policy.running
  {
    var s := System(proxy, None, proxy, map[], None, 0, true);
    var first := StartPath(s, 1, 1);
    var u := first[6];
    var v := Act(u, AcceptFail(2, "accept"));
    var second := StartPath(v, 3, 2);
    var w := second[6];
    var x := Act(w, Emit(2));
    assert Path([u, v], [AcceptFail(2, "accept")]);
    assert Path([w, x], [Emit(2)]);
    var begin1 := [BeginStart(1), EnterStart(1), ListenOk(1, 1), Emit(1), SyncRead(1), SyncWrite(1)];
    var begin3 := [BeginStart(3), EnterStart(3), ListenOk(3, 2), Emit(3), SyncRead(3), SyncWrite(3)];
    PathsJoin(first, begin1, [u, v], [AcceptFail(2, "accept")]);
    PathsJoin(first + [v], begin1 + [AcceptFail(2, "accept")], second, begin3);
    PathsJoin(first + [v] + second[1..], begin1 + [AcceptFail(2, "accept")] + begin3, [w, x], [Emit(2)]);
    states := first + [v] + second[1..] + [x];
    actions := begin1 + [AcceptFail(2, "accept")] + begin3 + [Emit(2)];
    assert x.calls == map[];
  }
}
