/** Connections, the grants they own, and what is left when they depart
    (cmd/killswitch/admin.go:263-376, cmd/killswitch/admin_mutation.go:41-122,
    cmd/killswitch/policy_manager.go:26-169). */
module Sessions {
  import opened Words
  import opened Orders
  import opened Rules
  import opened Effective
  import opened Force
  import opened Numerals

  /** The request-owned part of the policy state; `names` are the ruleset names the
      options define. */
  datatype Grants = Grants(names: set<string>, tmp: map<string, TemporaryRuleset>, forced: Forced)

  /** Requests on targets tmp_ruleset and force_ruleset. `rules` is None when the
      policy text does not parse. */
  datatype Request =
    | SetTmp(interfaces: seq<string>, rules: Option<AllowRules>)
    | RemoveTmp
    | ForceOn(name: string, interfaces: seq<string>, replace: bool)
    | ForceOff(name: string, interfaces: seq<string>)
    | Unsupported

  datatype Peer = Peer(uid: u32, gid: u32, pid: nat)

  datatype Phase = Live | Leaving | Unforced | Gone

  datatype Conn = Conn(peer: Peer, phase: Phase)

  datatype World = World(lastId: nat, conns: map<nat, Conn>, grants: Grants)

  datatype Event =
    | Connect(peer: Peer)
    | Ask(id: nat, request: Request)
    | Configure(names: set<string>)
    | Leave(id: nat)
    | DropForce(id: nat)
    | DropTmp(id: nat)

  /** The owner text of a connection. */
  function OwnerText(peer: Peer, id: nat): string {
    "pid=" + Decimal(peer.pid) + " uid=" + Decimal(peer.uid) + " gid=" + Decimal(peer.gid) + " conn=" + Decimal(id)
  }

  /** Different connections never share an owner text, whoever the peers are. */
  lemma OwnerTextInjective(p: Peer, a: nat, q: Peer, b: nat)
    requires OwnerText(p, a) == OwnerText(q, b)
    ensures a == b
  {
    var x := "pid=" + Decimal(p.pid) + " uid=" + Decimal(p.uid) + " gid=" + Decimal(p.gid) + " conn=";
    var y := "pid=" + Decimal(q.pid) + " uid=" + Decimal(q.uid) + " gid=" + Decimal(q.gid) + " conn=";
    assert x[|x| - 1] == '=' && y[|y| - 1] == '=';
    DecimalSuffix(x, a, y, b);
  }

  function OwnerOf(w: World, id: nat): string
    requires id in w.conns
  {
    OwnerText(w.conns[id].peer, id)
  }

  /** `uniqueSortedStrings`. */
  function UniqueSortedStrings(s: seq<string>): seq<string> {
    Canon(StringLess, s)
  }

  predicate ForceAccepted(names: set<string>, name: string, interfaces: seq<string>) {
    name != "" && interfaces != [] && name in names
  }

  /** What one request does; a rejected request does nothing. */
  function Apply(g: Grants, owner: string, r: Request): Grants {
    match r
    case SetTmp(interfaces, rules) =>
      if rules.None? || interfaces == [] then g
      else g.(tmp := g.tmp[owner := TemporaryRuleset(owner, UniqueSortedStrings(interfaces), rules.value)])
    case RemoveTmp => g.(tmp := g.tmp - {owner})
    case ForceOn(name, interfaces, replace) =>
      if !ForceAccepted(g.names, name, interfaces) then g
      else g.(forced := Activate(g.forced, owner, name, UniqueSortedStrings(interfaces), replace))
    case ForceOff(name, interfaces) =>
      if name == "" then g
      else g.(forced := Release(g.forced, owner, name, UniqueSortedStrings(interfaces)))
    case Unsupported => g
  }

  /** New options: forced names that no longer resolve are pruned. */
  function Reconfigure(g: Grants, names: set<string>): Grants {
    g.(names := names, forced := Prune(g.forced, names))
  }

  /** A connection serves requests while it is live; its cleanup runs afterwards,
      forced rulesets first. */
  predicate CanStep(w: World, e: Event) {
    match e
    case Connect(_) => true
    case Ask(id, _) => id in w.conns && w.conns[id].phase == Live
    case Configure(_) => true
    case Leave(id) => id in w.conns && w.conns[id].phase == Live
    case DropForce(id) => id in w.conns && w.conns[id].phase == Leaving
    case DropTmp(id) => id in w.conns && w.conns[id].phase == Unforced
  }

  function Step(w: World, e: Event): World
    requires CanStep(w, e)
  {
    match e
    case Connect(peer) => w.(lastId := w.lastId + 1, conns := w.conns[w.lastId + 1 := Conn(peer, Live)])
    case Ask(id, r) => w.(grants := Apply(w.grants, OwnerOf(w, id), r))
    case Configure(names) => w.(grants := Reconfigure(w.grants, names))
    case Leave(id) => w.(conns := w.conns[id := w.conns[id].(phase := Leaving)])
    case DropForce(id) =>
      w.(conns := w.conns[id := w.conns[id].(phase := Unforced)],
         grants := w.grants.(forced := RemoveOwner(w.grants.forced, OwnerOf(w, id))))
    case DropTmp(id) =>
      w.(conns := w.conns[id := w.conns[id].(phase := Gone)],
         grants := w.grants.(tmp := w.grants.tmp - {OwnerOf(w, id)}))
  }

  function Start(names: set<string>): World {
    World(0, map[], Grants(names, map[], map[]))
  }

  /** The state after a run, or None when some event was not possible. */
  function RunFrom(names: set<string>, events: seq<Event>): Option<World> {
    if events == [] then Some(Start(names))
    else
      match RunFrom(names, events[..|events| - 1])
      case None => None
      case Some(w) =>
        var e := events[|events| - 1];
        if CanStep(w, e) then Some(Step(w, e)) else None
  }

  // ---------- invariants of every run ----------

  lemma UniqueSortedNonempty(s: seq<string>)
    ensures UniqueSortedStrings(s) == [] <==> s == []
    ensures forall i :: multiset(UniqueSortedStrings(s))[i] == if i in s then 1 else 0
  {
    StringLessTotal();
    CanonIncreasing(StringLess, s);
    var c := UniqueSortedStrings(s);
    assert s != [] ==> s[0] in c;
    assert c != [] ==> c[0] in s;
    IncreasingNoRepeats(c);
  }

  lemma {:induction false} IncreasingNoRepeats(s: seq<string>)
    requires Increasing(StringLess, s)
    ensures forall i :: multiset(s)[i] == if i in s then 1 else 0
  {
    StringLessTotal();
    if s != [] {
      var init, last := s[..|s| - 1], s[|s| - 1];
      IncreasingNoRepeats(init);
      assert s == init + [last];
      assert last !in init by {
        assert forall k :: 0 <= k < |init| ==> StringLess(init[k], last);
      }
    }
  }

  /** Owners of temporary rulesets may still be waiting for their last cleanup
      step; owners of forced rulesets for their first. */
  ghost predicate Accounted(w: World) {
    && (forall id :: id in w.conns ==> 0 < id <= w.lastId)
    && (forall o :: o in w.grants.tmp ==> TmpHolder(w, o))
    && (forall n, o :: n in w.grants.forced && o in w.grants.forced[n] ==> ForceHolder(w, o))
  }

  ghost predicate TmpHolder(w: World, o: string) {
    exists id :: id in w.conns && OwnerOf(w, id) == o && w.conns[id].phase != Gone
  }

  ghost predicate ForceHolder(w: World, o: string) {
    exists id :: id in w.conns && OwnerOf(w, id) == o && (w.conns[id].phase == Live || w.conns[id].phase == Leaving)
  }

  ghost predicate Resolved(g: Grants) {
    forall n :: n in g.forced ==> n in g.names && n != ""
  }

  ghost predicate Sound(w: World) {
    Accounted(w) && Tidy(w.grants.forced) && Resolved(w.grants)
  }

  lemma HoldersKept(w: World, v: World, o: string)
    requires forall id :: id in w.conns ==> id in v.conns && v.conns[id] == w.conns[id]
    ensures TmpHolder(w, o) ==> TmpHolder(v, o)
    ensures ForceHolder(w, o) ==> ForceHolder(v, o)
  {
  }

  lemma ApplyTidy(g: Grants, owner: string, r: Request)
    requires Tidy(g.forced) && Resolved(g)
    ensures Tidy(Apply(g, owner, r).forced) && Resolved(Apply(g, owner, r))
  {
    match r
    case ForceOn(name, interfaces, replace) =>
      UniqueSortedNonempty(interfaces);
      if interfaces != [] { ActivateCounts(g.forced, owner, name, UniqueSortedStrings(interfaces), replace); }
    case ForceOff(name, interfaces) =>
      ReleaseCounts(g.forced, owner, name, UniqueSortedStrings(interfaces));
    case _ =>
  }

  lemma ApplyOwners(g: Grants, owner: string, r: Request)
    ensures forall o :: o in Apply(g, owner, r).tmp ==> o in g.tmp || o == owner
    ensures forall n, o :: n in Apply(g, owner, r).forced && o in Apply(g, owner, r).forced[n] ==>
                           (n in g.forced && o in g.forced[n]) || o == owner
  {
  }

  lemma StepTidy(w: World, e: Event)
    requires Sound(w) && CanStep(w, e)
    ensures Tidy(Step(w, e).grants.forced) && Resolved(Step(w, e).grants)
  {
    match e
    case Ask(id, r) => ApplyTidy(w.grants, OwnerOf(w, id), r);
    case Configure(names) => PruneCounts(w.grants.forced, names);
    case DropForce(id) => RemoveOwnerCounts(w.grants.forced, OwnerOf(w, id));
    case _ =>
  }

  lemma PhaseChange(w: World, v: World, id: nat, o: string)
    requires id in w.conns && id in v.conns && v.conns == w.conns[id := w.conns[id].(phase := v.conns[id].phase)]
    requires o != OwnerOf(w, id)
    ensures TmpHolder(w, o) ==> TmpHolder(v, o)
    ensures ForceHolder(w, o) ==> ForceHolder(v, o)
  {
    if TmpHolder(w, o) {
      var k :| k in w.conns && OwnerOf(w, k) == o && w.conns[k].phase != Gone;
      assert OwnerOf(v, k) == o;
    }
    if ForceHolder(w, o) {
      var k :| k in w.conns && OwnerOf(w, k) == o && (w.conns[k].phase == Live || w.conns[k].phase == Leaving);
      assert OwnerOf(v, k) == o;
    }
  }

  lemma StepAccounted(w: World, e: Event)
    requires Sound(w) && CanStep(w, e)
    ensures Accounted(Step(w, e))
  {
    var v := Step(w, e);
    match e {
      case Connect(_) =>
        forall o { HoldersKept(w, v, o); }
      case Configure(_) =>
        forall o { HoldersKept(w, v, o); }
      case Ask(id, r) =>
        ApplyOwners(w.grants, OwnerOf(w, id), r);
        forall o { HoldersKept(w, v, o); }
        assert OwnerOf(v, id) == OwnerOf(w, id);
      case Leave(id) =>
        assert OwnerOf(v, id) == OwnerOf(w, id);
        forall o | o != OwnerOf(w, id) { PhaseChange(w, v, id, o); }
      case DropForce(id) =>
        assert OwnerOf(v, id) == OwnerOf(w, id);
        forall o | o != OwnerOf(w, id) { PhaseChange(w, v, id, o); }
      case DropTmp(id) =>
        assert OwnerOf(v, id) == OwnerOf(w, id);
        forall o | o != OwnerOf(w, id) { PhaseChange(w, v, id, o); }
        NoLongerForcing(w, id);
    }
  }

  /** A connection past its force cleanup owns no forced ruleset. */
  lemma NoLongerForcing(w: World, id: nat)
    requires Accounted(w) && id in w.conns && (w.conns[id].phase == Unforced || w.conns[id].phase == Gone)
    ensures forall n :: n in w.grants.forced ==> OwnerOf(w, id) !in w.grants.forced[n]
  {
    forall n | n in w.grants.forced ensures OwnerOf(w, id) !in w.grants.forced[n] {
      var o := OwnerOf(w, id);
      if ForceHolder(w, o) {
        var k :| k in w.conns && OwnerOf(w, k) == o && (w.conns[k].phase == Live || w.conns[k].phase == Leaving);
        OwnerTextInjective(w.conns[k].peer, k, w.conns[id].peer, id);
      }
    }
  }

  /** In every run, every owner of a grant is a connection that is live or still
      being cleaned up, no empty map or zero count survives, and every forced name
      is defined by the options. */
  lemma {:induction false} EveryRunSound(names: set<string>, events: seq<Event>)
    requires RunFrom(names, events).Some?
    ensures Sound(RunFrom(names, events).value)
  {
    if events != [] {
      var init := events[..|events| - 1];
      EveryRunSound(names, init);
      StepTidy(RunFrom(names, init).value, events[|events| - 1]);
      StepAccounted(RunFrom(names, init).value, events[|events| - 1]);
    }
  }

  /** Once its cleanup has finished, a connection owns nothing. */
  lemma GoneOwnsNothing(w: World, id: nat)
    requires Accounted(w) && id in w.conns && w.conns[id].phase == Gone
    ensures OwnerOf(w, id) !in w.grants.tmp
    ensures forall n :: n in w.grants.forced ==> OwnerOf(w, id) !in w.grants.forced[n]
  {
    var o := OwnerOf(w, id);
    NoLongerForcing(w, id);
    if TmpHolder(w, o) {
      var k :| k in w.conns && OwnerOf(w, k) == o && w.conns[k].phase != Gone;
      OwnerTextInjective(w.conns[k].peer, k, w.conns[id].peer, id);
    }
  }

  // ---------- counts are their history ----------

  /** What a count should be after one more event, given what it was before. */
  ghost function NextCount(w: World, e: Event, n: string, o: string, i: string, was: nat): nat
    requires CanStep(w, e)
  {
    match e
    case Connect(_) => was
    case Leave(_) => was
    case DropTmp(_) => was
    case DropForce(id) => if OwnerOf(w, id) == o then 0 else was
    case Configure(names) => if n in names then was else 0
    case Ask(id, r) =>
      if OwnerOf(w, id) != o then was
      else match r
        case ForceOn(name, interfaces, replace) =>
          if name != n || name == "" || interfaces == [] || name !in w.grants.names then was
          else (if replace then 0 else was) + if i in interfaces then 1 else 0
        case ForceOff(name, interfaces) =>
          if name != n || name == "" then was
          else if interfaces == [] then 0
          else if i in interfaces then Monus(was, 1) else was
        case SetTmp(_, _) => was
        case RemoveTmp => was
        case Unsupported => was
  }

  /** The count an observer of the events would keep for one name, owner and interface. */
  ghost function History(names: set<string>, events: seq<Event>, n: string, o: string, i: string): nat
    requires RunFrom(names, events).Some?
  {
    if events == [] then 0
    else
      var init := events[..|events| - 1];
      NextCount(RunFrom(names, init).value, events[|events| - 1], n, o, i, History(names, init, n, o, i))
  }

  lemma StepCount(w: World, e: Event, n: string, o: string, i: string)
    requires Sound(w) && CanStep(w, e)
    ensures CountOf(Step(w, e).grants.forced, n, o, i) == NextCount(w, e, n, o, i, CountOf(w.grants.forced, n, o, i))
  {
    var f := w.grants.forced;
    match e
    case Ask(id, ForceOn(name, interfaces, replace)) =>
      if ForceAccepted(w.grants.names, name, interfaces) {
        UniqueSortedNonempty(interfaces);
        ActivateCounts(f, OwnerOf(w, id), name, UniqueSortedStrings(interfaces), replace);
      }
    case Ask(id, ForceOff(name, interfaces)) =>
      UniqueSortedNonempty(interfaces);
      ReleaseCounts(f, OwnerOf(w, id), name, UniqueSortedStrings(interfaces));
    case Configure(names) => PruneCounts(f, names);
    case DropForce(id) => RemoveOwnerCounts(f, OwnerOf(w, id));
    case _ =>
  }

  /** Every stored count equals its history. */
  lemma {:induction false} CountsAreHistory(names: set<string>, events: seq<Event>, n: string, o: string, i: string)
    requires RunFrom(names, events).Some?
    ensures CountOf(RunFrom(names, events).value.grants.forced, n, o, i) == History(names, events, n, o, i)
  {
    if events != [] {
      var init := events[..|events| - 1];
      EveryRunSound(names, init);
      CountsAreHistory(names, init, n, o, i);
      StepCount(RunFrom(names, init).value, events[|events| - 1], n, o, i);
    }
  }

  // ---------- temporary rulesets are their history ----------

  /** The worlds a run goes through. */
  ghost predicate Visits(names: set<string>, events: seq<Event>, worlds: seq<World>) {
    && |worlds| == |events| + 1 && worlds[0] == Start(names)
    && forall k :: 0 <= k < |events| ==> CanStep(worlds[k], events[k]) && worlds[k + 1] == Step(worlds[k], events[k])
  }

  /** Every run visits worlds, up to the one it ends in. */
  lemma {:induction false} RunVisits(names: set<string>, events: seq<Event>) returns (worlds: seq<World>)
    requires RunFrom(names, events).Some?
    ensures Visits(names, events, worlds) && worlds[|events|] == RunFrom(names, events).value
  {
    if events == [] {
      worlds := [Start(names)];
    } else {
      var earlier := RunVisits(names, events[..|events| - 1]);
      worlds := earlier + [RunFrom(names, events).value];
    }
  }

  /** An accepted tmp_ruleset request of this owner. */
  ghost predicate SetsTmp(w: World, e: Event, o: string) {
    e.Ask? && e.request.SetTmp? && e.request.rules.Some? && e.request.interfaces != [] && e.id in w.conns &&
    OwnerOf(w, e.id) == o
  }

  /** An event that takes this owner's temporary ruleset away. */
  ghost predicate DropsTmp(w: World, e: Event, o: string) {
    ((e.Ask? && e.request.RemoveTmp?) || e.DropTmp?) && e.id in w.conns && OwnerOf(w, e.id) == o
  }

  /** Of the first `n` events, event `k` is the last that concerned this owner's
      temporary ruleset, and it set it. */
  ghost predicate LastSet(worlds: seq<World>, events: seq<Event>, n: nat, k: nat, o: string)
    requires k < n <= |events| <= |worlds|
  {
    SetsTmp(worlds[k], events[k], o) && forall m :: k < m < n ==>
      !SetsTmp(worlds[m], events[m], o) && !DropsTmp(worlds[m], events[m], o)
  }

  /** The temporary ruleset a request stores. */
  ghost function StoredBy(e: Event, o: string): TemporaryRuleset
    requires e.Ask? && e.request.SetTmp? && e.request.rules.Some?
  {
    TemporaryRuleset(o, UniqueSortedStrings(e.request.interfaces), e.request.rules.value)
  }

  lemma LastSetGrows(worlds: seq<World>, events: seq<Event>, n: nat, k: nat, o: string)
    requires k < n < |events| <= |worlds|
    ensures LastSet(worlds, events, n + 1, k, o) <==>
              LastSet(worlds, events, n, k, o) && !SetsTmp(worlds[n], events[n], o) &&
              !DropsTmp(worlds[n], events[n], o)
  {
    var w, e := worlds[n], events[n];
    assert LastSet(worlds, events, n + 1, k, o) ==> !SetsTmp(w, e, o) && !DropsTmp(w, e, o);
  }

  ghost predicate SomeLastSet(worlds: seq<World>, events: seq<Event>, n: nat, o: string)
    requires n <= |events| <= |worlds|
  {
    exists k :: 0 <= k < n && LastSet(worlds, events, n, k, o)
  }

  /** At every point of every run, an owner has a temporary ruleset exactly when some
      accepted request of it set one and nothing since has set or removed it, and
      then it is that request's. */
  lemma {:induction false} TmpIsLastSet(names: set<string>, events: seq<Event>, worlds: seq<World>, n: nat, o: string)
    requires Visits(names, events, worlds) && n <= |events|
    ensures o in worlds[n].grants.tmp <==> SomeLastSet(worlds, events, n, o)
    ensures forall k :: 0 <= k < n && LastSet(worlds, events, n, k, o) ==>
              o in worlds[n].grants.tmp && worlds[n].grants.tmp[o] == StoredBy(events[k], o)
  {
    if n > 0 {
      var last := n - 1;
      TmpIsLastSet(names, events, worlds, last, o);
      TmpStep(worlds, events, last, o);
    }
  }

  lemma TmpStep(worlds: seq<World>, events: seq<Event>, n: nat, o: string)
    requires n < |events| && |worlds| == |events| + 1 && CanStep(worlds[n], events[n]) &&
             worlds[n + 1] == Step(worlds[n], events[n])
    requires o in worlds[n].grants.tmp <==> SomeLastSet(worlds, events, n, o)
    requires forall k :: 0 <= k < n && LastSet(worlds, events, n, k, o) ==>
               o in worlds[n].grants.tmp && worlds[n].grants.tmp[o] == StoredBy(events[k], o)
    ensures o in worlds[n + 1].grants.tmp <==> SomeLastSet(worlds, events, n + 1, o)
    ensures forall k :: 0 <= k < n + 1 && LastSet(worlds, events, n + 1, k, o) ==>
              o in worlds[n + 1].grants.tmp && worlds[n + 1].grants.tmp[o] == StoredBy(events[k], o)
  {
    var was, now := worlds[n].grants.tmp, worlds[n + 1].grants.tmp;
    LastEvent(worlds[n], events[n], o);
    forall k | 0 <= k < n { LastSetGrows(worlds, events, n, k, o); }
    assert LastSet(worlds, events, n + 1, n, o) <==> SetsTmp(worlds[n], events[n], o);
    if !SetsTmp(worlds[n], events[n], o) && !DropsTmp(worlds[n], events[n], o) && o in was {
      var k :| 0 <= k < n && LastSet(worlds, events, n, k, o);
      assert LastSet(worlds, events, n + 1, k, o);
    }
  }

  /** What one event does to an owner's temporary ruleset. */
  lemma LastEvent(w: World, e: Event, o: string)
    requires CanStep(w, e)
    ensures var tmp := Step(w, e).grants.tmp;
            if SetsTmp(w, e, o) then o in tmp && tmp[o] == StoredBy(e, o)
            else if DropsTmp(w, e, o) then o !in tmp
            else (o in tmp <==> o in w.grants.tmp) && (o in tmp ==> tmp[o] == w.grants.tmp[o])
  {
  }

  // ---------- departure ----------

  /** The run with every request of connection `id` deleted. */
  function Erase(events: seq<Event>, id: nat): seq<Event> {
    if events == [] then []
    else
      var e := events[|events| - 1];
      Erase(events[..|events| - 1], id) + if e.Ask? && e.id == id then [] else [e]
  }

  function Without(g: Grants, owner: string): Grants {
    g.(tmp := g.tmp - {owner}, forced := RemoveOwner(g.forced, owner))
  }

  /** The world as if connection `id` had never asked for anything. */
  function ErasedWorld(w: World, id: nat): World {
    if id in w.conns then w.(grants := Without(w.grants, OwnerOf(w, id))) else w
  }

  lemma OwnRequestErased(g: Grants, o: string, r: Request)
    requires Tidy(g.forced)
    ensures Without(Apply(g, o, r), o) == Without(g, o)
  {
    RemoveOwnerCounts(g.forced, o);
    match r {
      case ForceOn(name, interfaces, replace) =>
        if ForceAccepted(g.names, name, interfaces) {
          var ifaces := UniqueSortedStrings(interfaces);
          UniqueSortedNonempty(interfaces);
          ActivateCounts(g.forced, o, name, ifaces, replace);
          RemoveOwnerCounts(Activate(g.forced, o, name, ifaces, replace), o);
          TidyExtensional(RemoveOwner(Activate(g.forced, o, name, ifaces, replace), o), RemoveOwner(g.forced, o));
        }
      case ForceOff(name, interfaces) =>
        var ifaces := UniqueSortedStrings(interfaces);
        ReleaseCounts(g.forced, o, name, ifaces);
        RemoveOwnerCounts(Release(g.forced, o, name, ifaces), o);
        TidyExtensional(RemoveOwner(Release(g.forced, o, name, ifaces), o), RemoveOwner(g.forced, o));
      case _ =>
        assert Apply(g, o, r).tmp - {o} == g.tmp - {o};
    }
  }

  lemma OtherActivationCommutes(f: Forced, o: string, p: string, name: string, ifaces: seq<string>, replace: bool)
    requires Tidy(f) && o != p && ifaces != []
    ensures RemoveOwner(Activate(f, p, name, ifaces, replace), o) == Activate(RemoveOwner(f, o), p, name, ifaces,
                                                                              replace)
  {
    RemoveOwnerCounts(f, o);
    ActivateCounts(f, p, name, ifaces, replace);
    RemoveOwnerCounts(Activate(f, p, name, ifaces, replace), o);
    ActivateCounts(RemoveOwner(f, o), p, name, ifaces, replace);
    TidyExtensional(RemoveOwner(Activate(f, p, name, ifaces, replace), o),
                    Activate(RemoveOwner(f, o), p, name, ifaces, replace));
  }

  lemma OtherReleaseCommutes(f: Forced, o: string, p: string, name: string, ifaces: seq<string>)
    requires Tidy(f) && o != p
    ensures RemoveOwner(Release(f, p, name, ifaces), o) == Release(RemoveOwner(f, o), p, name, ifaces)
  {
    RemoveOwnerCounts(f, o);
    ReleaseCounts(f, p, name, ifaces);
    RemoveOwnerCounts(Release(f, p, name, ifaces), o);
    ReleaseCounts(RemoveOwner(f, o), p, name, ifaces);
    TidyExtensional(RemoveOwner(Release(f, p, name, ifaces), o), Release(RemoveOwner(f, o), p, name, ifaces));
  }

  lemma OtherRequestCommutes(g: Grants, o: string, p: string, r: Request)
    requires Tidy(g.forced) && o != p
    ensures Without(Apply(g, p, r), o) == Apply(Without(g, o), p, r)
  {
    match r {
      case ForceOn(name, interfaces, replace) =>
        UniqueSortedNonempty(interfaces);
        if interfaces != [] {
          OtherActivationCommutes(g.forced, o, p, name, UniqueSortedStrings(interfaces), replace);
        }
      case ForceOff(name, interfaces) =>
        OtherReleaseCommutes(g.forced, o, p, name, UniqueSortedStrings(interfaces));
      case SetTmp(_, _) =>
        assert Apply(g, p, r).tmp - {o} == Apply(Without(g, o), p, r).tmp;
      case RemoveTmp =>
        assert g.tmp - {p} - {o} == g.tmp - {o} - {p};
      case Unsupported =>
    }
  }

  lemma CleanupsCommute(f: Forced, o: string, p: string, names: set<string>)
    requires Tidy(f)
    ensures RemoveOwner(RemoveOwner(f, p), o) == RemoveOwner(RemoveOwner(f, o), p)
    ensures RemoveOwner(Prune(f, names), o) == Prune(RemoveOwner(f, o), names)
  {
    RemoveOwnerCounts(f, o);
    RemoveOwnerCounts(f, p);
    RemoveOwnerCounts(RemoveOwner(f, p), o);
    RemoveOwnerCounts(RemoveOwner(f, o), p);
    TidyExtensional(RemoveOwner(RemoveOwner(f, p), o), RemoveOwner(RemoveOwner(f, o), p));
    PruneCounts(f, names);
    RemoveOwnerCounts(Prune(f, names), o);
    PruneCounts(RemoveOwner(f, o), names);
    TidyExtensional(RemoveOwner(Prune(f, names), o), Prune(RemoveOwner(f, o), names));
  }

  lemma ErasedLeave(w: World, id: nat, e: Event)
    requires CanStep(w, e) && id in w.conns && e.Leave?
    ensures Step(ErasedWorld(w, id), e) == ErasedWorld(Step(w, e), id)
  {
  }

  lemma ErasedDropForce(w: World, id: nat, e: Event)
    requires Sound(w) && CanStep(w, e) && id in w.conns && e.DropForce?
    ensures Step(ErasedWorld(w, id), e) == ErasedWorld(Step(w, e), id)
  {
    var o, p := OwnerOf(w, id), OwnerOf(w, e.id);
    assert OwnerOf(Step(w, e), id) == o && OwnerOf(ErasedWorld(w, id), e.id) == p;
    CleanupsCommute(w.grants.forced, o, p, {});
    var a, b := Step(ErasedWorld(w, id), e), ErasedWorld(Step(w, e), id);
    assert a.grants.forced == RemoveOwner(RemoveOwner(w.grants.forced, o), p);
    assert b.grants.forced == RemoveOwner(RemoveOwner(w.grants.forced, p), o);
  }

  lemma ErasedDropTmp(w: World, id: nat, e: Event)
    requires CanStep(w, e) && id in w.conns && e.DropTmp?
    ensures Step(ErasedWorld(w, id), e) == ErasedWorld(Step(w, e), id)
  {
  }

  lemma ErasedAsk(w: World, id: nat, e: Event)
    requires Sound(w) && CanStep(w, e) && id in w.conns && e.Ask? && e.id != id
    ensures Step(ErasedWorld(w, id), e) == ErasedWorld(Step(w, e), id)
  {
    var o, p := OwnerOf(w, id), OwnerOf(w, e.id);
    assert o != p by {
      if o == p { OwnerTextInjective(w.conns[e.id].peer, e.id, w.conns[id].peer, id); }
    }
    assert OwnerOf(Step(w, e), id) == o && OwnerOf(ErasedWorld(w, id), e.id) == p;
    OtherRequestCommutes(w.grants, o, p, e.request);
  }

  /** Erasing a connection commutes with every step that is not its own request. */
  lemma ErasedStep(w: World, id: nat, e: Event)
    requires Sound(w) && CanStep(w, e) && !(e.Ask? && e.id == id)
    ensures CanStep(ErasedWorld(w, id), e)
    ensures Step(ErasedWorld(w, id), e) == ErasedWorld(Step(w, e), id)
  {
    if id !in w.conns {
      if e.Connect? && w.lastId + 1 == id {
        NewcomerOwnsNothing(w, OwnerText(e.peer, id), e.peer, id);
      }
    } else if e.Connect? {
      assert id != w.lastId + 1 && OwnerOf(Step(w, e), id) == OwnerOf(w, id);
    } else if e.Configure? {
      CleanupsCommute(w.grants.forced, OwnerOf(w, id), OwnerOf(w, id), e.names);
    } else if e.Ask? {
      ErasedAsk(w, id, e);
    } else if e.Leave? {
      ErasedLeave(w, id, e);
    } else if e.DropForce? {
      ErasedDropForce(w, id, e);
    } else {
      ErasedDropTmp(w, id, e);
    }
  }

  /** A connection that has not asked for anything yet has nothing to erase. */
  lemma NewcomerOwnsNothing(w: World, o: string, peer: Peer, id: nat)
    requires Sound(w) && id !in w.conns && o == OwnerText(peer, id)
    ensures Without(w.grants, o) == w.grants
  {
    if TmpHolder(w, o) {
      var k :| k in w.conns && OwnerOf(w, k) == o && w.conns[k].phase != Gone;
      OwnerTextInjective(w.conns[k].peer, k, peer, id);
    }
    forall n | n in w.grants.forced ensures o !in w.grants.forced[n] {
      if ForceHolder(w, o) {
        var k :| k in w.conns && OwnerOf(w, k) == o && (w.conns[k].phase == Live || w.conns[k].phase == Leaving);
        OwnerTextInjective(w.conns[k].peer, k, peer, id);
      }
    }
    AbsentOwner(w.grants.forced, o);
  }

  lemma AbsentOwner(f: Forced, o: string)
    requires Tidy(f) && forall n :: n in f ==> o !in f[n]
    ensures RemoveOwner(f, o) == f
  {
    RemoveOwnerCounts(f, o);
    TidyExtensional(RemoveOwner(f, o), f);
  }

  lemma {:induction false} ErasedRun(names: set<string>, events: seq<Event>, id: nat)
    requires RunFrom(names, events).Some?
    ensures RunFrom(names, Erase(events, id)) == Some(ErasedWorld(RunFrom(names, events).value, id))
  {
    if events != [] {
      var init, e := events[..|events| - 1], events[|events| - 1];
      var w := RunFrom(names, init).value;
      ErasedRun(names, init, id);
      EveryRunSound(names, init);
      if e.Ask? && e.id == id {
        assert Erase(events, id) == Erase(init, id);
        OwnRequestErased(w.grants, OwnerOf(w, id), e.request);
      } else {
        var erased := Erase(events, id);
        assert erased[..|erased| - 1] == Erase(init, id);
        ErasedStep(w, id, e);
      }
    }
  }

  /** Departure is non-interfering: once a connection's cleanup has finished, the
      whole state is that of the same run with all its requests deleted. */
  lemma DepartureLeavesNoTrace(names: set<string>, events: seq<Event>, id: nat)
    requires RunFrom(names, events).Some?
    requires id in RunFrom(names, events).value.conns && RunFrom(names, events).value.conns[id].phase == Gone
    ensures RunFrom(names, Erase(events, id)) == RunFrom(names, events)
  {
    var w := RunFrom(names, events).value;
    EveryRunSound(names, events);
    ErasedRun(names, events, id);
    GoneOwnsNothing(w, id);
    AbsentOwner(w.grants.forced, OwnerOf(w, id));
    assert w.grants.tmp - {OwnerOf(w, id)} == w.grants.tmp;
  }
}
