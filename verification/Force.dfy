/** Forced rulesets: reference counts nested name -> owner -> interface
    (cmd/killswitch/policy_manager.go:79-169, cmd/killswitch/admin_mutation.go:658-697). */
module Force {
  import opened Orders
  import opened Effective

  type Counts = map<string, nat>
  type Owners = map<string, Counts>
  type Forced = map<string, Owners>

  /** The count an owner holds on an interface for a ruleset; absent means zero. */
  function CountOf(f: Forced, name: string, owner: string, iface: string): nat {
    if name in f && owner in f[name] && iface in f[name][owner] then f[name][owner][iface] else 0
  }

  /** No zero count, no owner without interfaces, no name without owners. */
  ghost predicate Tidy(f: Forced) {
    forall n :: n in f ==> f[n] != map[] && TidyOwners(f[n])
  }

  ghost predicate TidyOwners(owners: Owners) {
    forall o :: o in owners ==> owners[o] != map[] && TidyCounts(owners[o])
  }

  ghost predicate TidyCounts(c: Counts) {
    forall i :: i in c ==> c[i] > 0
  }

  function CountIn(c: Counts, i: string): nat {
    if i in c then c[i] else 0
  }

  lemma CountsExtensional(a: Counts, b: Counts)
    requires TidyCounts(a) && TidyCounts(b) && forall i :: CountIn(a, i) == CountIn(b, i)
    ensures a == b
  {
    forall i ensures i in a <==> i in b { assert CountIn(a, i) == CountIn(b, i); }
    forall i | i in a ensures a[i] == b[i] { assert CountIn(a, i) == CountIn(b, i); }
  }

  lemma SomeCount(c: Counts) returns (i: string)
    requires c != map[]
    ensures i in c
  {
    assert c.Keys != {};
    i :| i in c.Keys;
  }

  /** Tidy tables with the same counts are the same table. */
  lemma TidyExtensional(f: Forced, g: Forced)
    requires Tidy(f) && Tidy(g)
    requires forall n, o, i :: CountOf(f, n, o, i) == CountOf(g, n, o, i)
    ensures f == g
  {
    forall n | n in f || n in g ensures n in f && n in g && f[n] == g[n] {
      SameName(f, g, n);
    }
  }

  lemma SameName(f: Forced, g: Forced, n: string)
    requires Tidy(f) && Tidy(g) && (n in f || n in g)
    requires forall n, o, i :: CountOf(f, n, o, i) == CountOf(g, n, o, i)
    ensures n in f && n in g && f[n] == g[n]
  {
    SameOwners(f, g, n);
    SameOwners(g, f, n);
  }

  lemma SameOwners(f: Forced, g: Forced, n: string)
    requires Tidy(f) && Tidy(g)
    requires forall n, o, i :: CountOf(f, n, o, i) == CountOf(g, n, o, i)
    ensures n in f ==> n in g && forall o :: o in f[n] ==> o in g[n] && f[n][o] == g[n][o]
  {
    if n in f {
      forall o | o in f[n] ensures n in g && o in g[n] && f[n][o] == g[n][o] {
        var i := SomeCount(f[n][o]);
        assert CountOf(f, n, o, i) == CountOf(g, n, o, i) > 0;
        forall i ensures CountIn(f[n][o], i) == CountIn(g[n][o], i) {
          assert CountOf(f, n, o, i) == CountOf(g, n, o, i);
        }
        CountsExtensional(f[n][o], g[n][o]);
      }
      assert f[n].Keys != {};
      var o :| o in f[n].Keys;
      assert o in f[n];
    }
  }

  // ---------- the operations as functions ----------

  function Increment(c: Counts, ifaces: seq<string>): Counts {
    if ifaces == [] then c
    else
      var last := ifaces[|ifaces| - 1];
      var rest := Increment(c, ifaces[..|ifaces| - 1]);
      rest[last := CountIn(rest, last) + 1]
  }

  function Decrement(c: Counts, ifaces: seq<string>): Counts {
    if ifaces == [] then c
    else
      var last := ifaces[|ifaces| - 1];
      var rest := Decrement(c, ifaces[..|ifaces| - 1]);
      if CountIn(rest, last) <= 1 then rest - {last} else rest[last := rest[last] - 1]
  }

  function OwnersOf(f: Forced, name: string): Owners {
    if name in f then f[name] else map[]
  }

  function CountsOf(f: Forced, name: string, owner: string): Counts {
    if name in f && owner in f[name] then f[name][owner] else map[]
  }

  /** `forceActivateRuleset` for a ruleset that exists. */
  function Activate(f: Forced, owner: string, name: string, ifaces: seq<string>, replace: bool): Forced {
    var held := if replace then map[] else CountsOf(f, name, owner);
    f[name := OwnersOf(f, name)[owner := Increment(held, ifaces)]]
  }

  /** An owner's counts put back, with empty maps removed on the way up. */
  function PutBack(f: Forced, owner: string, name: string, c: Counts): Forced
    requires name in f
  {
    var owners := if c == map[] then f[name] - {owner} else f[name][owner := c];
    if owners == map[] then f - {name} else f[name := owners]
  }

  /** `releaseForceRulesetLocked`; an empty interface list releases everything. */
  function Release(f: Forced, owner: string, name: string, ifaces: seq<string>): Forced {
    if CountsOf(f, name, owner) == map[] then f
    else PutBack(f, owner, name, if ifaces == [] then map[] else Decrement(f[name][owner], ifaces))
  }

  /** `removeForceRulesets`: everything an owner holds, under every name. */
  function RemoveOwner(f: Forced, owner: string): Forced {
    var kept := map n | n in f :: f[n] - {owner};
    map n | n in f && kept[n] != map[] :: kept[n]
  }

  /** `pruneForceRulesetsLocked`: names that no longer resolve. */
  function Prune(f: Forced, names: set<string>): Forced {
    map n | n in f && n in names :: f[n]
  }

  // ---------- what the operations do to the counts ----------

  lemma {:induction false} IncrementCounts(c: Counts, ifaces: seq<string>, i: string)
    requires TidyCounts(c)
    ensures TidyCounts(Increment(c, ifaces))
    ensures CountIn(Increment(c, ifaces), i) == CountIn(c, i) + multiset(ifaces)[i]
    ensures ifaces != [] ==> Increment(c, ifaces) != map[]
  {
    if ifaces != [] {
      var init, last := ifaces[..|ifaces| - 1], ifaces[|ifaces| - 1];
      IncrementCounts(c, init, i);
      assert ifaces == init + [last];
      assert last in Increment(c, ifaces);
    }
  }

  lemma {:induction false} DecrementCounts(c: Counts, ifaces: seq<string>, i: string)
    requires TidyCounts(c)
    ensures TidyCounts(Decrement(c, ifaces))
    ensures CountIn(Decrement(c, ifaces), i) == Monus(CountIn(c, i), multiset(ifaces)[i])
  {
    if ifaces != [] {
      var init, last := ifaces[..|ifaces| - 1], ifaces[|ifaces| - 1];
      DecrementCounts(c, init, i);
      assert ifaces == init + [last];
    }
  }

  function Monus(a: nat, b: nat): nat {
    if a <= b then 0 else a - b
  }

  lemma StoreCounts(f: Forced, owner: string, name: string, c: Counts)
    requires Tidy(f) && TidyCounts(c) && c != map[]
    ensures Tidy(f[name := OwnersOf(f, name)[owner := c]])
    ensures forall n, o, i :: CountOf(f[name := OwnersOf(f, name)[owner := c]], n, o, i) ==
                              if n == name && o == owner then CountIn(c, i) else CountOf(f, n, o, i)
  {
    var owners := OwnersOf(f, name)[owner := c];
    assert owner in owners && TidyOwners(owners);
    var g := f[name := owners];
    forall n, o, i
      ensures CountOf(g, n, o, i) == if n == name && o == owner then CountIn(c, i) else CountOf(f, n, o, i)
    {
      assert n == name && o != owner ==> (o in owners <==> name in f && o in f[name]);
    }
  }

  /** add and set: the owner's counts grow by one per listed interface, from zero
      when the request replaces; nothing else moves. */
  lemma ActivateCounts(f: Forced, owner: string, name: string, ifaces: seq<string>, replace: bool)
    requires Tidy(f) && ifaces != []
    ensures Tidy(Activate(f, owner, name, ifaces, replace))
    ensures forall n, o, i :: CountOf(Activate(f, owner, name, ifaces, replace), n, o, i) ==
                              if n == name && o == owner
                              then (if replace then 0 else CountOf(f, n, o, i)) + multiset(ifaces)[i]
                              else CountOf(f, n, o, i)
  {
    var held := if replace then map[] else CountsOf(f, name, owner);
    var c := Increment(held, ifaces);
    forall i ensures CountIn(c, i) == CountIn(held, i) + multiset(ifaces)[i] {
      IncrementCounts(held, ifaces, i);
    }
    IncrementCounts(held, ifaces, ifaces[0]);
    StoreCounts(f, owner, name, c);
    var g := Activate(f, owner, name, ifaces, replace);
    assert g == f[name := OwnersOf(f, name)[owner := c]];
    forall n, o, i ensures CountOf(g, n, o, i) == if n == name && o == owner
                           then (if replace then 0 else CountOf(f, n, o, i)) + multiset(ifaces)[i]
                           else CountOf(f, n, o, i) {
      assert CountIn(c, i) == CountIn(held, i) + multiset(ifaces)[i];
      assert CountIn(held, i) == if replace then 0 else CountOf(f, name, owner, i);
    }
  }

  lemma PutBackCounts(f: Forced, owner: string, name: string, c: Counts)
    requires Tidy(f) && name in f && TidyCounts(c)
    ensures Tidy(PutBack(f, owner, name, c))
    ensures forall n, o, i :: CountOf(PutBack(f, owner, name, c), n, o, i) ==
                              if n == name && o == owner then CountIn(c, i) else CountOf(f, n, o, i)
  {
    var owners := if c == map[] then f[name] - {owner} else f[name][owner := c];
    assert TidyOwners(owners);
    forall o, i
      ensures (if o in owners then CountIn(owners[o], i) else 0) == if o == owner then CountIn(c, i)
                else CountOf(f, name, o, i)
    {
    }
  }

  /** remove: the owner's counts drop by one per listed interface, floored at zero,
      or to zero when none is listed; nothing else moves. */
  lemma ReleaseCounts(f: Forced, owner: string, name: string, ifaces: seq<string>)
    requires Tidy(f)
    ensures Tidy(Release(f, owner, name, ifaces))
    ensures forall n, o, i :: CountOf(Release(f, owner, name, ifaces), n, o, i) ==
                              if n == name && o == owner
                              then (if ifaces == [] then 0 else Monus(CountOf(f, n, o, i), multiset(ifaces)[i]))
                              else CountOf(f, n, o, i)
  {
    var held := CountsOf(f, name, owner);
    if held != map[] {
      var c := if ifaces == [] then map[] else Decrement(held, ifaces);
      forall i
        ensures TidyCounts(c) && CountIn(c, i) == if ifaces == [] then 0
                  else Monus(CountIn(held, i), multiset(ifaces)[i])
      {
        DecrementCounts(held, ifaces, i);
      }
      PutBackCounts(f, owner, name, c);
      assert forall i :: CountIn(held, i) == CountOf(f, name, owner, i);
    }
  }

  lemma ReleaseNames(f: Forced, owner: string, name: string, ifaces: seq<string>)
    ensures forall n :: n in Release(f, owner, name, ifaces) ==> n in f
  {
  }

  /** disconnect: every count of the owner goes to zero; nothing else moves. */
  lemma RemoveOwnerCounts(f: Forced, owner: string)
    requires Tidy(f)
    ensures Tidy(RemoveOwner(f, owner))
    ensures forall n, o, i :: CountOf(RemoveOwner(f, owner), n, o, i) == if o == owner then 0 else CountOf(f, n, o, i)
  {
    var g := RemoveOwner(f, owner);
    forall n | n in f ensures TidyOwners(f[n] - {owner}) {}
    forall n, o, i ensures CountOf(g, n, o, i) == if o == owner then 0 else CountOf(f, n, o, i) {
      if n in f && o in f[n] && o != owner {
        assert o in f[n] - {owner};
        assert f[n] - {owner} != map[];
      }
    }
  }

  /** ruleset deletion: counts under names that no longer exist go to zero. */
  lemma PruneCounts(f: Forced, names: set<string>)
    requires Tidy(f)
    ensures Tidy(Prune(f, names))
    ensures forall n, o, i :: CountOf(Prune(f, names), n, o, i) == if n in names then CountOf(f, n, o, i) else 0
  {
  }

  /** Forcing and then releasing the same interfaces restores the table exactly. */
  lemma ActivateThenRelease(f: Forced, owner: string, name: string, ifaces: seq<string>)
    requires Tidy(f) && ifaces != []
    ensures Release(Activate(f, owner, name, ifaces, false), owner, name, ifaces) == f
  {
    var g := Activate(f, owner, name, ifaces, false);
    ActivateCounts(f, owner, name, ifaces, false);
    ReleaseCounts(g, owner, name, ifaces);
    TidyExtensional(Release(g, owner, name, ifaces), f);
  }

  // ---------- the snapshot the merge reads ----------

  ghost predicate ForcedOn(f: Forced, name: string, iface: string) {
    exists o :: CountOf(f, name, o, iface) > 0
  }

  /** One entry per forced name, sorted, listing every owner and interface. */
  ghost predicate IsSnapshot(out: seq<ForceRuleset>, f: Forced) {
    && (forall j, k :: 0 <= j < k < |out| ==> StringLess(out[j].name, out[k].name))
    && (forall n :: n in f <==> exists k :: 0 <= k < |out| && out[k].name == n)
    && (forall k :: 0 <= k < |out| ==> IsSnapshotEntry(out[k], f))
  }

  ghost predicate IsSnapshotEntry(e: ForceRuleset, f: Forced) {
    && (forall o :: o in e.owners <==> e.name in f && o in f[e.name])
    && (forall i :: i in e.interfaces <==> ForcedOn(f, e.name, i))
  }

  method SnapshotEntry(f: Forced, name: string) returns (e: ForceRuleset)
    requires Tidy(f) && name in f
    ensures e.name == name && IsSnapshotEntry(e, f)
  {
    var owners := SortedKeys(f[name].Keys);
    var ifaceSet: set<string> := {};
    for k := 0 to |owners|
      invariant forall i :: i in ifaceSet <==> exists m :: 0 <= m < k && i in f[name][owners[m]]
    {
      assert owners[k] in owners;
      ifaceSet := ifaceSet + f[name][owners[k]].Keys;
    }
    var ifaces := SortedKeys(ifaceSet);
    e := ForceRuleset(name, owners, ifaces);
    forall i ensures i in ifaces <==> ForcedOn(f, name, i) {
      if ForcedOn(f, name, i) {
        var o :| CountOf(f, name, o, i) > 0;
        assert o in owners;
        var m :| 0 <= m < |owners| && owners[m] == o;
      }
      if i in ifaces {
        var m :| 0 <= m < |owners| && i in f[name][owners[m]];
        assert owners[m] in owners;
        assert CountOf(f, name, owners[m], i) > 0;
      }
    }
  }

  /** `cloneForceRulesets`. */
  method CloneForceRulesets(f: Forced) returns (out: seq<ForceRuleset>)
    requires Tidy(f)
    ensures IsSnapshot(out, f)
  {
    var names := SortedKeys(f.Keys);
    out := [];
    for k := 0 to |names|
      invariant |out| == k
      invariant forall m :: 0 <= m < k ==> out[m].name == names[m] && IsSnapshotEntry(out[m], f)
    {
      assert names[k] in names;
      var e := SnapshotEntry(f, names[k]);
      out := out + [e];
    }
    forall n | n in f ensures exists k :: 0 <= k < |out| && out[k].name == n {
      assert n in names;
      var k :| 0 <= k < |names| && names[k] == n;
      assert out[k].name == n;
    }
    forall k | 0 <= k < |out| ensures out[k].name in f {
      assert names[k] in names;
    }
  }

  /** A ruleset reaches an interface by force exactly when some owner holds a
      positive count on it there and its name resolves to that ruleset. */
  lemma ForcedExactly(f: Forced, snapshot: seq<ForceRuleset>, rulesets: seq<Ruleset>, iface: string, rs: Ruleset)
    requires Tidy(f) && IsSnapshot(snapshot, f)
    ensures rs in ForcedFor(rulesets, snapshot, iface) <==>
              exists name :: ForcedOn(f, name, iface) && FirstNamed(rulesets, name) >= 0 &&
                             rulesets[FirstNamed(rulesets, name)] == rs
  {
    ForcedForExact(rulesets, snapshot, iface, rs);
    forall name | ForcedOn(f, name, iface)
      ensures exists k :: 0 <= k < |snapshot| && snapshot[k].name == name && iface in snapshot[k].interfaces
    {
      var o :| CountOf(f, name, o, iface) > 0;
      assert name in f;
      var k :| 0 <= k < |snapshot| && snapshot[k].name == name;
      assert IsSnapshotEntry(snapshot[k], f);
    }
    forall k | 0 <= k < |snapshot| && iface in snapshot[k].interfaces ensures ForcedOn(f, snapshot[k].name, iface) {
      assert IsSnapshotEntry(snapshot[k], f);
    }
  }

  // ---------- the counter loops ----------

  /** `owners[owner][iface]++` for each listed interface. */
  method IncrementAll(start: Counts, ifaces: seq<string>) returns (c: Counts)
    ensures c == Increment(start, ifaces)
  {
    c := start;
    for k := 0 to |ifaces|
      invariant c == Increment(start, ifaces[..k])
    {
      assert ifaces[..k + 1][..k] == ifaces[..k];
      c := c[ifaces[k] := CountIn(c, ifaces[k]) + 1];
    }
    assert ifaces[..|ifaces|] == ifaces;
  }

  /** Each listed counter drops by one, or is deleted at one or below. */
  method DecrementAll(start: Counts, ifaces: seq<string>) returns (c: Counts)
    ensures c == Decrement(start, ifaces)
  {
    c := start;
    for k := 0 to |ifaces|
      invariant c == Decrement(start, ifaces[..k])
    {
      assert ifaces[..k + 1][..k] == ifaces[..k];
      if CountIn(c, ifaces[k]) <= 1 {
        c := c - {ifaces[k]};
      } else {
        c := c[ifaces[k] := c[ifaces[k]] - 1];
      }
    }
    assert ifaces[..|ifaces|] == ifaces;
  }

  ghost predicate Forcing(f: Forced, name: string, owner: string) {
    exists i :: CountOf(f, name, owner, i) > 0
  }

  /** In a tidy table an owner is present under a name exactly when it holds a
      positive count there. */
  lemma PresentHolds(f: Forced, name: string, owner: string)
    requires Tidy(f)
    ensures CountsOf(f, name, owner) != map[] <==> Forcing(f, name, owner)
    ensures CountsOf(f, name, owner) != map[] <==> name in f && owner in f[name]
  {
    if CountsOf(f, name, owner) != map[] {
      var i := SomeCount(CountsOf(f, name, owner));
      assert CountOf(f, name, owner, i) > 0;
    }
  }

  /** Some names of an owner already released. */
  ghost predicate ReleasedUnder(f: Forced, g: Forced, owner: string, done: set<string>) {
    Tidy(g) && forall n, o, i :: CountOf(g, n, o, i) == if o == owner && n in done then 0 else CountOf(f, n, o, i)
  }

  lemma ReleasedUnderStep(f: Forced, g: Forced, owner: string, done: set<string>, name: string)
    requires Tidy(f) && ReleasedUnder(f, g, owner, done)
    ensures ReleasedUnder(f, Release(g, owner, name, []), owner, done + {name})
    ensures name !in done ==> (CountsOf(g, name, owner) != map[] <==> name in f && owner in f[name])
  {
    ReleaseCounts(g, owner, name, []);
    PresentHolds(f, name, owner);
    PresentHolds(g, name, owner);
    if name !in done {
      assert forall i :: CountOf(g, name, owner, i) == CountOf(f, name, owner, i);
    }
  }

  lemma ReleasedUnderAll(f: Forced, g: Forced, owner: string)
    requires Tidy(f) && ReleasedUnder(f, g, owner, f.Keys)
    ensures g == RemoveOwner(f, owner)
  {
    RemoveOwnerCounts(f, owner);
    TidyExtensional(g, RemoveOwner(f, owner));
  }

  ghost predicate OwnsUnder(f: Forced, owner: string, done: set<string>) {
    exists n :: n in done && n in f && owner in f[n]
  }

  lemma OwnsUnderStep(f: Forced, owner: string, done: set<string>, name: string)
    ensures OwnsUnder(f, owner, done + {name}) <==> OwnsUnder(f, owner, done) || (name in f && owner in f[name])
  {
  }
}
