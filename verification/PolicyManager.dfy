/** The policy manager: requests, counters, and reconciliation of the kernel tables
    with the effective policy (cmd/killswitch/policy_manager.go). */
module PolicyManagers {
  import opened Words
  import opened Orders
  import opened Rules
  import opened Filter
  import opened Kernel
  import opened Effective
  import opened Force
  import opened Config
  import opened Sessions

  /** `socksProxyStateFromOptions`. */
  function ProxyStateFromOptions(o: ProxyOptions): ProxyState {
    ProxyState(o.enabled, false, o.port, o.fwMark, o.dnsServer, "")
  }

  ghost function NamesOf(s: seq<Ruleset>): set<string> {
    set i | 0 <= i < |s| :: s[i].name
  }

  lemma NamesOfExact(s: seq<Ruleset>, name: string)
    ensures name in NamesOf(s) <==> FirstNamed(s, name) >= 0
  {
  }

  ghost function RulesMap(policies: map<u32, InterfacePolicy>): map<u32, AllowRules> {
    map i | i in policies :: policies[i].rules
  }

  /** `cloneInterfacePolicyMap`: copying a slice with append turns empty into nil. */
  function CloneAddrs(s: Slice<Addr>): Slice<Addr> {
    if s.Elems() == [] then Nil else s
  }

  function ClonePolicy(p: InterfacePolicy): InterfacePolicy {
    p.(info := p.info.(addrs := CloneAddrs(p.info.addrs)))
  }

  function ClonePolicies(policies: map<u32, InterfacePolicy>): map<u32, InterfacePolicy> {
    map i | i in policies :: ClonePolicy(policies[i])
  }

  /** `interfacePolicyRulesEqual` for one interface. */
  ghost predicate PolicyEqual(a: InterfacePolicy, b: InterfacePolicy) {
    a.info.name == b.info.name && a.info.typ == b.info.typ && a.info.addrs == b.info.addrs &&
    EqualRules(a.rules, b.rules)
  }

  ghost predicate PoliciesEqual(a: map<u32, InterfacePolicy>, b: map<u32, InterfacePolicy>) {
    a.Keys == b.Keys && forall i :: i in a ==> PolicyEqual(a[i], b[i])
  }

  method InterfacePolicyRulesEqual(a: map<u32, InterfacePolicy>, b: map<u32, InterfacePolicy>) returns (equal: bool)
    ensures equal <==> PoliciesEqual(a, b)
  {
    if a.Keys != b.Keys {
      return false;
    }
    var todo := a.Keys;
    while todo != {}
      invariant todo <= a.Keys && forall i :: i in a && i !in todo ==> PolicyEqual(a[i], b[i])
      decreases |todo|
    {
      var i :| i in todo;
      todo := todo - {i};
      if a[i].info.name != b[i].info.name || a[i].info.typ != b[i].info.typ || a[i].info.addrs != b[i].info.addrs {
        return false;
      }
      var same := AllowRulesEqual(a[i].rules, b[i].rules);
      if !same {
        return false;
      }
    }
    return true;
  }

  /** One entry per owner, in the order of the owner texts. */
  ghost predicate IsTemporarySnapshot(out: seq<TemporaryRuleset>, tmp: map<string, TemporaryRuleset>) {
    && (forall t :: t in out <==> exists o :: o in tmp && t == tmp[o].(owner := o))
    && (forall i, j :: 0 <= i < j < |out| ==> StringLess(out[i].owner, out[j].owner))
  }

  /** `cloneTemporaryRulesets`. */
  method CloneTemporaryRulesets(tmp: map<string, TemporaryRuleset>) returns (out: seq<TemporaryRuleset>)
    ensures IsTemporarySnapshot(out, tmp)
  {
    var owners := SortedKeys(tmp.Keys);
    out := [];
    for k := 0 to |owners|
      invariant |out| == k
      invariant forall m :: 0 <= m < k ==> owners[m] in tmp && out[m] == tmp[owners[m]].(owner := owners[m])
    {
      assert owners[k] in owners;
      out := out + [tmp[owners[k]].(owner := owners[k])];
    }
    forall o | o in tmp ensures tmp[o].(owner := o) in out {
      assert o in owners;
      var k :| 0 <= k < |owners| && owners[k] == o;
      assert out[k] == tmp[o].(owner := o);
    }
  }

  // ---------- what a reconcile should compute ----------

  /** Everything a reconcile reads besides the interface list. */
  datatype Inputs = Inputs(opts: Options, tmp: map<string, TemporaryRuleset>, forced: Forced, proxy: ProxyState)

  ghost predicate ActiveContributes(re: Regexp, n: Inputs, iface: Interface, c: AllowRules) {
    exists rs :: rs in n.opts.rulesets && Active(re, iface, rs) && c == rs.rules
  }

  ghost predicate Active(re: Regexp, iface: Interface, rs: Ruleset) {
    !rs.disabled && TriggerHolds(re, iface, rs.trigger, rs.matchAll)
  }

  ghost predicate ForceContributes(n: Inputs, iface: Interface, c: AllowRules) {
    exists name :: ForcedOn(n.forced, name, iface.name) && FirstNamed(n.opts.rulesets, name) >= 0 &&
                   c == n.opts.rulesets[FirstNamed(n.opts.rulesets, name)].rules
  }

  ghost predicate TemporaryContributes(n: Inputs, iface: Interface, c: AllowRules) {
    exists o :: o in n.tmp && iface.name in n.tmp[o].interfaces && c == n.tmp[o].rules
  }

  /** The contributors other than the proxy. */
  ghost predicate OtherContributes(re: Regexp, n: Inputs, iface: Interface, c: AllowRules) {
    || c == n.opts.base
    || ActiveContributes(re, n, iface, c)
    || ForceContributes(n, iface, c)
    || TemporaryContributes(n, iface, c)
  }

  /** The contributors of one interface, whatever order the snapshots list them in. */
  ghost predicate ContributesTo(re: Regexp, n: Inputs, iface: Interface, c: AllowRules) {
    OtherContributes(re, n, iface, c) || (n.proxy.running && c == NO_RULES.(marks := [n.proxy.fwMark]))
  }

  /** The rules are the canonical join of exactly those contributors. */
  ghost predicate EffectiveFor(re: Regexp, n: Inputs, iface: Interface, rules: AllowRules) {
    exists cs: seq<AllowRules> ::
      && (forall c :: c in cs <==> ContributesTo(re, n, iface, c))
      && IsJoin(rules, cs) && Canonical(rules) == rules
  }

  function Select(selects: (Options, Interface) -> bool, o: Options, all: seq<Interface>): seq<Interface> {
    if all == [] then []
    else
      Select(selects, o, all[..|all| - 1]) + if selects(o, all[|all| - 1]) then [all[|all| - 1]] else []
  }

  /** `next` is the effective policy map for the selected interfaces. */
  ghost predicate IsNext(re: Regexp, n: Inputs, selected: seq<Interface>, next: map<u32, InterfacePolicy>) {
    && (forall i :: i in next ==>
          exists k :: 0 <= k < |selected| && selected[k].index == i && next[i].info == selected[k])
    && (forall k :: 0 <= k < |selected| ==> selected[k].index in next)
    && (forall i :: i in next ==> EffectiveFor(re, n, next[i].info, next[i].rules))
  }

  lemma EffectiveUnique(re: Regexp, n: Inputs, iface: Interface, a: AllowRules, b: AllowRules)
    requires EffectiveFor(re, n, iface, a) && EffectiveFor(re, n, iface, b)
    ensures a == b
  {
    var cs: seq<AllowRules> :| (forall c :: c in cs <==> ContributesTo(re, n, iface, c)) && IsJoin(a, cs) &&
        Canonical(a) == a;
    var ds: seq<AllowRules> :| (forall c :: c in ds <==> ContributesTo(re, n, iface, c)) && IsJoin(b, ds) &&
        Canonical(b) == b;
    JoinOrderIndependent(a, cs, b, ds);
  }

  /** A reconcile has no freedom: map iteration order cannot show in its result. */
  lemma NextUnique(re: Regexp, n: Inputs, selected: seq<Interface>, a: map<u32, InterfacePolicy>,
                   b: map<u32, InterfacePolicy>)
    requires DistinctIndexes(selected) && IsNext(re, n, selected, a) && IsNext(re, n, selected, b)
    ensures a == b
  {
    SelectedKeys(re, n, selected, a, b);
    SelectedKeys(re, n, selected, b, a);
    forall i | i in a ensures a[i] == b[i] {
      EffectiveUnique(re, n, a[i].info, a[i].rules, b[i].rules);
    }
  }

  lemma SelectedKeys(re: Regexp, n: Inputs, selected: seq<Interface>, a: map<u32, InterfacePolicy>,
                     b: map<u32, InterfacePolicy>)
    requires DistinctIndexes(selected) && IsNext(re, n, selected, a) && IsNext(re, n, selected, b)
    ensures forall i :: i in a ==> i in b && a[i].info == b[i].info
  {
  }

  lemma {:induction false} ActiveForExact(re: Regexp, iface: Interface, rulesets: seq<Ruleset>, rs: Ruleset)
    ensures rs in ActiveFor(re, iface, rulesets) <==>
              rs in rulesets && !rs.disabled && TriggerHolds(re, iface, rs.trigger, rs.matchAll)
  {
    if rulesets != [] {
      ActiveForExact(re, iface, rulesets[..|rulesets| - 1], rs);
      assert rulesets == rulesets[..|rulesets| - 1] + [rulesets[|rulesets| - 1]];
    }
  }

  lemma {:induction false} TemporaryForExact(tmp: seq<TemporaryRuleset>, iface: string, t: TemporaryRuleset)
    ensures t in TemporaryFor(tmp, iface) <==> t in tmp && iface in t.interfaces
  {
    if tmp != [] {
      TemporaryForExact(tmp[..|tmp| - 1], iface, t);
      assert tmp == tmp[..|tmp| - 1] + [tmp[|tmp| - 1]];
    }
  }

  lemma InRulesOf(rulesets: seq<Ruleset>, c: AllowRules)
    ensures c in RulesOf(rulesets) <==> exists rs :: rs in rulesets && c == rs.rules
  {
  }

  lemma InTemporaryRulesOf(tmp: seq<TemporaryRuleset>, c: AllowRules)
    ensures c in TemporaryRulesOf(tmp) <==> exists t :: t in tmp && c == t.rules
  {
  }

  lemma ActiveContributors(re: Regexp, n: Inputs, iface: Interface, c: AllowRules)
    ensures c in RulesOf(ActiveFor(re, iface, n.opts.rulesets)) <==> ActiveContributes(re, n, iface, c)
  {
    InRulesOf(ActiveFor(re, iface, n.opts.rulesets), c);
    forall rs { ActiveForExact(re, iface, n.opts.rulesets, rs); }
  }

  lemma ForceContributors(n: Inputs, iface: Interface, snapshot: seq<ForceRuleset>, c: AllowRules)
    requires Tidy(n.forced) && IsSnapshot(snapshot, n.forced)
    ensures c in RulesOf(ForcedFor(n.opts.rulesets, snapshot, iface.name)) <==> ForceContributes(n, iface, c)
  {
    InRulesOf(ForcedFor(n.opts.rulesets, snapshot, iface.name), c);
    forall rs { ForcedExactly(n.forced, snapshot, n.opts.rulesets, iface.name, rs); }
  }

  lemma TemporaryContributors(n: Inputs, iface: Interface, snapshot: seq<TemporaryRuleset>, c: AllowRules)
    requires IsTemporarySnapshot(snapshot, n.tmp)
    ensures c in TemporaryRulesOf(TemporaryFor(snapshot, iface.name)) <==> TemporaryContributes(n, iface, c)
  {
    InTemporaryRulesOf(TemporaryFor(snapshot, iface.name), c);
    forall t { TemporaryForExact(snapshot, iface.name, t); }
    if TemporaryContributes(n, iface, c) {
      var o :| o in n.tmp && iface.name in n.tmp[o].interfaces && c == n.tmp[o].rules;
      assert n.tmp[o].(owner := o) in snapshot;
    }
  }

  /** The contributor list the program builds holds exactly the contributors. */
  lemma ContributorsExact(re: Regexp, n: Inputs, iface: Interface, tmpList: seq<TemporaryRuleset>,
                          forcedList: seq<ForceRuleset>, c: AllowRules)
    requires Tidy(n.forced) && IsSnapshot(forcedList, n.forced) && IsTemporarySnapshot(tmpList, n.tmp)
    ensures c in ContributorsFor(re, iface, n.opts.base, n.opts.rulesets, tmpList, forcedList, n.proxy) <==>
              ContributesTo(re, n, iface, c)
  {
    ActiveContributors(re, n, iface, c);
    ForceContributors(n, iface, forcedList, c);
    TemporaryContributors(n, iface, tmpList, c);
  }

  lemma EffectiveFromList(re: Regexp, n: Inputs, iface: Interface, tmpList: seq<TemporaryRuleset>,
                          forcedList: seq<ForceRuleset>, p: InterfacePolicy)
    requires Tidy(n.forced) && IsSnapshot(forcedList, n.forced) && IsTemporarySnapshot(tmpList, n.tmp)
    requires IsEffective(p, ContributorsFor(re, iface, n.opts.base, n.opts.rulesets, tmpList, forcedList, n.proxy))
    ensures EffectiveFor(re, n, iface, p.rules)
  {
    var cs := ContributorsFor(re, iface, n.opts.base, n.opts.rulesets, tmpList, forcedList, n.proxy);
    forall c ensures c in cs <==> ContributesTo(re, n, iface, c) {
      ContributorsExact(re, n, iface, tmpList, forcedList, c);
    }
  }

  lemma {:induction false} SelectDistinct(selects: (Options, Interface) -> bool, o: Options, all: seq<Interface>)
    requires DistinctIndexes(all)
    ensures DistinctIndexes(Select(selects, o, all))
    ensures forall x :: x in Select(selects, o, all) <==> x in all && selects(o, x)
  {
    if all != [] {
      var init, last := all[..|all| - 1], all[|all| - 1];
      SelectDistinct(selects, o, init);
      assert all == init + [last];
      var s := Select(selects, o, init);
      forall i | 0 <= i < |s| ensures s[i].index != last.index {
        assert s[i] in init;
      }
    }
  }

  method SelectInterfaces(selects: (Options, Interface) -> bool, o: Options, all: seq<Interface>)
    returns (out: seq<Interface>)
    ensures out == Select(selects, o, all)
  {
    out := [];
    for k := 0 to |all|
      invariant out == Select(selects, o, all[..k])
    {
      assert all[..k + 1][..k] == all[..k];
      if selects(o, all[k]) {
        out := out + [all[k]];
      }
    }
    assert all[..|all|] == all;
  }

  /** The computation part of `reconcile`. */
  method ComputeNext(re: Regexp, n: Inputs, selected: seq<Interface>) returns (next: map<u32, InterfacePolicy>)
    requires Tidy(n.forced) && TriggersCompile(re, n.opts.rulesets) && DistinctIndexes(selected)
    ensures IsNext(re, n, selected, next)
  {
    var tmpList := CloneTemporaryRulesets(n.tmp);
    var forcedList := CloneForceRulesets(n.forced);
    next := EffectivePoliciesForInterfaces(re, selected, n.opts.base, n.opts.rulesets, tmpList, forcedList, n.proxy);
    forall i | i in next
      ensures exists k :: 0 <= k < |selected| && selected[k].index == i && next[i].info == selected[k]
      ensures EffectiveFor(re, n, next[i].info, next[i].rules)
    {
      var k :| 0 <= k < |selected| && selected[k].index == i;
      EffectiveFromList(re, n, selected[k], tmpList, forcedList, next[i]);
    }
  }

  // ---------- safety over every moment ----------

  /** At interface `i` the tables are closed or encode exactly rules that some
      reconcile computed for `i`. */
  ghost predicate ClosedOrComputed(t: Tables, i: u32, computed: set<(u32, AllowRules)>) {
    i !in t.config || exists r :: (i, r) in computed && EncodesAt(t, i, r)
  }

  ghost predicate CompleteOrClosed(t: Tables, computed: set<(u32, AllowRules)>) {
    forall i: u32 :: ClosedOrComputed(t, i, computed)
  }

  ghost predicate AlwaysCompleteOrClosed(trace: seq<Tables>, computed: set<(u32, AllowRules)>) {
    forall k :: 0 <= k < |trace| ==> CompleteOrClosed(trace[k], computed)
  }

  ghost function Computed(next: map<u32, InterfacePolicy>): set<(u32, AllowRules)> {
    set i | i in next :: (i, next[i].rules)
  }

  lemma SafeIsCompleteOrClosed(before: Tables, t: Tables, computed: set<(u32, AllowRules)>,
                               next: map<u32, InterfacePolicy>)
    requires CompleteOrClosed(before, computed) && Safe(before, t, RulesMap(next))
    ensures CompleteOrClosed(t, computed + Computed(next))
  {
    forall i: u32 ensures ClosedOrComputed(t, i, computed + Computed(next)) {
      assert SafeAt(before, t, i, RulesMap(next));
      if i in t.config {
        if SameAt(before, t, i) {
          assert ClosedOrComputed(before, i, computed);
          var r :| (i, r) in computed && EncodesAt(before, i, r);
          EncodesAtTransfer(before, t, i, r);
        } else {
          assert (i, next[i].rules) in Computed(next);
        }
      }
    }
  }

  lemma MoreComputed(t: Tables, computed: set<(u32, AllowRules)>, more: set<(u32, AllowRules)>)
    requires CompleteOrClosed(t, computed)
    ensures CompleteOrClosed(t, computed + more)
  {
    forall i: u32 ensures ClosedOrComputed(t, i, computed + more) {
      assert ClosedOrComputed(t, i, computed);
    }
  }

  lemma ExtendAlways(earlier: seq<Tables>, trace: seq<Tables>, before: Tables, computed: set<(u32, AllowRules)>,
                     next: map<u32, InterfacePolicy>)
    requires earlier <= trace && AlwaysCompleteOrClosed(earlier, computed) && CompleteOrClosed(before, computed)
    requires SafeDuring(trace, |earlier|, before, RulesMap(next))
    ensures AlwaysCompleteOrClosed(trace, computed + Computed(next))
  {
    forall k | 0 <= k < |trace| ensures CompleteOrClosed(trace[k], computed + Computed(next)) {
      if k < |earlier| {
        assert trace[k] == earlier[k];
        MoreComputed(trace[k], computed, Computed(next));
      } else {
        SafeIsCompleteOrClosed(before, trace[k], computed, next);
      }
    }
  }

  /** A packet on a complete-or-closed interface is bootstrap traffic, or is
      permitted by rules that some reconcile computed for that interface. */
  lemma JudgedByOnePolicy(t: Tables, i: u32, computed: set<(u32, AllowRules)>, mark: u32, data: Bytes)
    requires CompleteOrClosed(t, computed)
    ensures BootstrapOnly(t, i) || exists r :: (i, r) in computed && JudgedLike(t, i, RulesView(r))
    ensures Permits(ViewOf(t, i), mark, data) ==>
              IsBootstrap(data) || exists r :: (i, r) in computed && Permits(RulesView(r), mark, data)
  {
    assert ClosedOrComputed(t, i, computed);
    if i in t.config {
      var r :| (i, r) in computed && EncodesAt(t, i, r);
      EncodesAtView(t, i, r);
      assert ViewOf(t, i) == RulesView(r);
    } else {
      forall m: u32, d: Bytes ensures Permits(ViewOf(t, i), m, d) <==> IsBootstrap(d) {
        ClosedPassesOnlyBootstrap(ViewOf(t, i), m, d);
      }
    }
  }

  /** The interface passes what `v` passes: every packet, either way. */
  ghost predicate JudgedLike(t: Tables, i: u32, v: View) {
    forall m: u32, d: Bytes :: Permits(ViewOf(t, i), m, d) <==> Permits(v, m, d)
  }

  ghost predicate BootstrapOnly(t: Tables, i: u32) {
    forall m: u32, d: Bytes :: Permits(ViewOf(t, i), m, d) <==> IsBootstrap(d)
  }

  /** At any moment of a rewrite every packet is judged by the old policy, or every
      packet by the new one, or only bootstrap traffic passes: never a mix. */
  lemma RewriteNeverMixes(before: Tables, t: Tables, i: u32, next: map<u32, AllowRules>)
    requires SafeAt(before, t, i, next)
    ensures JudgedLike(t, i, ViewOf(before, i)) || (i in next && JudgedLike(t, i, RulesView(next[i]))) ||
            BootstrapOnly(t, i)
  {
    if i !in t.config {
      forall m: u32, d: Bytes ensures Permits(ViewOf(t, i), m, d) <==> IsBootstrap(d) {
        ClosedPassesOnlyBootstrap(ViewOf(t, i), m, d);
      }
    } else if SameAt(before, t, i) {
      SameAtView(before, t, i);
    } else {
      EncodesAtView(t, i, next[i]);
    }
  }

  /** A reconcile that skips the update has settled everything too. */
  lemma EqualPoliciesSettled(t: Tables, a: map<u32, InterfacePolicy>, b: map<u32, InterfacePolicy>)
    requires PoliciesEqual(a, b)
    ensures Settled(t, t, {}, RulesMap(a), RulesMap(b)) && Safe(t, t, RulesMap(b))
  {
    forall i: u32 ensures SettledAt(t, t, i, RulesMap(a), RulesMap(b)) {
      assert i in a ==> PolicyEqual(a[i], b[i]);
    }
  }

  lemma ClonedRules(next: map<u32, InterfacePolicy>)
    ensures RulesMap(ClonePolicies(next)) == RulesMap(next)
  {
  }

  /** After cloning, the comparison with the original fails exactly for an interface
      whose address slice is empty but not nil. */
  ghost predicate SomeEmptyAddrs(next: map<u32, InterfacePolicy>) {
    exists i :: i in next && next[i].info.addrs == Slice([])
  }

  lemma CloneComparesEqual(next: map<u32, InterfacePolicy>)
    ensures PoliciesEqual(ClonePolicies(next), next) <==> !SomeEmptyAddrs(next)
  {
    var c := ClonePolicies(next);
    assert c.Keys == next.Keys;
    forall i | i in next ensures PolicyEqual(c[i], next[i]) <==> next[i].info.addrs != Slice([]) {
    }
  }

  /** One reconcile: at every moment each interface is as before, newly written or
      closed; what the update leaves alone is kept; a success settles everything. */
  ghost predicate Rewritten(trace: seq<Tables>, from: nat, before: Tables, t: Tables, current: map<u32, AllowRules>,
                            next: map<u32, AllowRules>, ok: bool) {
    && SafeDuring(trace, from, before, next)
    && UntouchedKept(before, t, current, next)
    && (ok ==> Settled(before, t, {}, current, next))
  }

  class PolicyManager {
    const fx: Foreign
    const selects: (Options, Interface) -> bool
    const tables: PolicyTables
    var opts: Options
    var socksProxy: ProxyState
    var tmpRulesets: map<string, TemporaryRuleset>
    var forceRulesets: Forced
    var current: map<u32, InterfacePolicy>
    var isSet: bool

    /** Every rule set any reconcile has computed, by interface. */
    ghost var computed: set<(u32, AllowRules)>

    ghost predicate Valid()
      reads this`opts, this`tmpRulesets, this`forceRulesets, this`current, this`computed, tables
    {
      ValidRequests() && ValidTables()
    }

    /** The options are well formed and the grants are in normal form. */
    ghost predicate ValidRequests()
      reads this`opts, this`tmpRulesets, this`forceRulesets
    {
      Lawful(fx) && WellFormedOptions(fx, opts) && Tidy(forceRulesets) && Resolved(GrantsNow())
    }

    /** The tables were complete or closed at every moment so far, and represent the
        current policy unless some map operation has failed. */
    ghost predicate ValidTables()
      reads this`current, this`computed, tables
    {
      && tables.Valid()
      && AlwaysCompleteOrClosed(tables.trace, computed)
      && (tables.failures == 0 ==> InLine())
    }

    /** The tables say what the recorded policy says. */
    ghost predicate InLine()
      reads this`current, tables
    {
      Represents(tables.Now(), RulesMap(current))
    }

    ghost function GrantsNow(): Grants
      reads this`opts, this`tmpRulesets, this`forceRulesets
    {
      Grants(NamesOf(opts.rulesets), tmpRulesets, forceRulesets)
    }

    ghost function InputsNow(): Inputs
      reads this`opts, this`tmpRulesets, this`forceRulesets, this`socksProxy
    {
      Inputs(opts, tmpRulesets, forceRulesets, socksProxy)
    }

    /** `newPolicyManager`, over freshly loaded, empty tables. */
    constructor (fx: Foreign, selects: (Options, Interface) -> bool, tables: PolicyTables, opts: Options)
      requires Lawful(fx) && WellFormedOptions(fx, opts)
      requires tables.Valid() && tables.trace == [Tables(map[], {})] && tables.failures == 0
      ensures Valid() && this.tables == tables && this.fx == fx && this.selects == selects
      ensures this.opts == opts && tmpRulesets == map[] && forceRulesets == map[] && current == map[] && !isSet &&
              computed == {}
      ensures socksProxy == ProxyState(opts.proxy.enabled, false, opts.proxy.port, opts.proxy.fwMark,
                                       opts.proxy.dnsServer, "")
    {
      this.fx, this.selects, this.tables, this.opts := fx, selects, tables, opts;
      socksProxy := ProxyStateFromOptions(opts.proxy);
      tmpRulesets, forceRulesets, current, isSet, computed := map[], map[], map[], false, {};
    }

    /** `replaceOptions`: forced names that no longer resolve are pruned. */
    method ReplaceOptions(next: Options)
      requires Valid() && WellFormedOptions(fx, next)
      modifies this`opts, this`socksProxy, this`forceRulesets
      ensures Valid() && opts == next
      ensures GrantsNow() == Reconfigure(old(GrantsNow()), NamesOf(next.rulesets))
      ensures socksProxy == if old(socksProxy.enabled || socksProxy.running) then old(socksProxy)
                else ProxyState(next.proxy.enabled, false, next.proxy.port, next.proxy.fwMark, next.proxy.dnsServer, "")
    {
      opts := next;
      if !socksProxy.enabled && !socksProxy.running {
        socksProxy := ProxyStateFromOptions(next.proxy);
      }
      PruneForceRulesets();
      PruneCounts(old(forceRulesets), NamesOf(next.rulesets));
    }

    /** `pruneForceRulesetsLocked`: deletes from the map it iterates over. */
    method PruneForceRulesets()
      modifies this`forceRulesets
      ensures forceRulesets == Prune(old(forceRulesets), NamesOf(opts.rulesets))
    {
      ghost var f := forceRulesets;
      var todo := forceRulesets.Keys;
      while todo != {}
        invariant todo <= f.Keys
        invariant forall n :: n in forceRulesets <==> n in f && (n in todo || FirstNamed(opts.rulesets, n) >= 0)
        invariant forall n :: n in forceRulesets ==> forceRulesets[n] == f[n]
        decreases |todo|
      {
        var name :| name in todo;
        todo := todo - {name};
        var idx := FindRuleset(opts.rulesets, name);
        if idx < 0 {
          forceRulesets := forceRulesets - {name};
        }
      }
      forall n { NamesOfExact(opts.rulesets, n); }
      assert forceRulesets == Prune(f, NamesOf(opts.rulesets));
    }

    method SetSocksProxyState(state: ProxyState)
      requires Valid()
      modifies this`socksProxy
      ensures Valid() && socksProxy == state
    {
      socksProxy := state;
    }

    method SetTemporaryRuleset(owner: string, interfaces: seq<string>, rules: AllowRules)
      requires Valid()
      modifies this`tmpRulesets
      ensures Valid() && GrantsNow() == old(GrantsNow()).(tmp := old(tmpRulesets)[owner := TemporaryRuleset(owner,
                                                                                                            interfaces,
                                                                                                            rules)])
    {
      tmpRulesets := tmpRulesets[owner := TemporaryRuleset(owner, interfaces, rules)];
    }

    method RemoveTemporaryRuleset(owner: string) returns (changed: bool)
      requires Valid()
      modifies this`tmpRulesets
      ensures Valid() && GrantsNow() == old(GrantsNow()).(tmp := old(tmpRulesets) - {owner})
      ensures changed <==> owner in old(tmpRulesets)
    {
      if owner !in tmpRulesets {
        return false;
      }
      tmpRulesets := tmpRulesets - {owner};
      return true;
    }

    /** `forceActivateRuleset`. The admin entry point never passes an empty interface
        list; one would leave an owner without interfaces behind. */
    method ForceActivateRuleset(owner: string, name: string, interfaces: seq<string>, replace: bool) returns (ok: bool)
      requires Valid()
      modifies this`forceRulesets
      ensures ok <==> name in NamesOf(opts.rulesets)
      ensures GrantsNow() == if ok
                then old(GrantsNow()).(forced := Activate(old(forceRulesets), owner, name, interfaces, replace))
                  else old(GrantsNow())
      ensures interfaces != [] && name != "" ==> Valid()
    {
      ok := ForceActivateRulesetLocked(owner, name, interfaces, replace);
      NamesOfExact(opts.rulesets, name);
      if interfaces != [] {
        ActivateCounts(old(forceRulesets), owner, name, interfaces, replace);
      }
    }

    method ForceActivateRulesetLocked(owner: string, name: string, interfaces: seq<string>, replace: bool)
      returns (ok: bool)
      modifies this`forceRulesets
      ensures ok <==> FirstNamed(opts.rulesets, name) >= 0
      ensures forceRulesets == if ok then Activate(old(forceRulesets), owner, name, interfaces, replace)
                else old(forceRulesets)
    {
      var idx := FindRuleset(opts.rulesets, name);
      if idx < 0 {
        return false;
      }
      var owners := if name in forceRulesets then forceRulesets[name] else map[];
      var counts := if owner in owners then owners[owner] else map[];
      if replace {
        counts := map[];
      }
      counts := IncrementAll(counts, interfaces);
      forceRulesets := forceRulesets[name := owners[owner := counts]];
      return true;
    }

    method ReleaseForceRuleset(owner: string, name: string, interfaces: seq<string>) returns (changed: bool)
      requires Valid()
      modifies this`forceRulesets
      ensures Valid() && GrantsNow() == old(GrantsNow()).(forced := Release(old(forceRulesets), owner, name,
                                                                            interfaces))
      ensures changed <==> CountsOf(old(forceRulesets), name, owner) != map[]
    {
      ReleaseCounts(forceRulesets, owner, name, interfaces);
      ReleaseNames(forceRulesets, owner, name, interfaces);
      changed := ReleaseForceRulesetLocked(owner, name, interfaces);
    }

    /** `releaseForceRulesetLocked`: counters drop one interface at a time and empty
        maps are deleted on the way out. */
    method ReleaseForceRulesetLocked(owner: string, name: string, interfaces: seq<string>) returns (changed: bool)
      modifies this`forceRulesets
      ensures forceRulesets == Release(old(forceRulesets), owner, name, interfaces)
      ensures changed <==> CountsOf(old(forceRulesets), name, owner) != map[]
    {
      if name !in forceRulesets || owner !in forceRulesets[name] || forceRulesets[name][owner] == map[] {
        return false;
      }
      var owners := forceRulesets[name];
      if interfaces == [] {
        owners := owners - {owner};
      } else {
        var counts := DecrementAll(owners[owner], interfaces);
        if counts == map[] {
          owners := owners - {owner};
        } else {
          owners := owners[owner := counts];
        }
      }
      if owners == map[] {
        forceRulesets := forceRulesets - {name};
      } else {
        forceRulesets := forceRulesets[name := owners];
      }
      return true;
    }

    /** `removeForceRulesets`. */
    method RemoveForceRulesets(owner: string) returns (changed: bool)
      requires Valid()
      modifies this`forceRulesets
      ensures Valid() && GrantsNow() == old(GrantsNow()).(forced := RemoveOwner(old(forceRulesets), owner))
      ensures changed <==> OwnsUnder(old(forceRulesets), owner, old(forceRulesets).Keys)
    {
      RemoveOwnerCounts(forceRulesets, owner);
      changed := RemoveForceRulesetsLocked(owner);
    }

    /** Releases everything of an owner, deleting names from the map while iterating
        over it. */
    method RemoveForceRulesetsLocked(owner: string) returns (changed: bool)
      requires Tidy(forceRulesets)
      modifies this`forceRulesets
      ensures forceRulesets == RemoveOwner(old(forceRulesets), owner)
      ensures changed <==> OwnsUnder(old(forceRulesets), owner, old(forceRulesets).Keys)
    {
      ghost var f := forceRulesets;
      ghost var done: set<string> := {};
      changed := false;
      var todo := forceRulesets.Keys;
      while todo != {}
        invariant forall n :: n in f <==> n in todo || n in done
        invariant forall n :: n in todo ==> n !in done
        invariant ReleasedUnder(f, forceRulesets, owner, done)
        invariant changed <==> OwnsUnder(f, owner, done)
        decreases |todo|
      {
        var name :| name in todo;
        ReleasedUnderStep(f, forceRulesets, owner, done, name);
        OwnsUnderStep(f, owner, done, name);
        var released := ReleaseAllForceRulesetLocked(owner, name);
        changed := changed || released;
        todo := todo - {name};
        done := done + {name};
      }
      assert done == f.Keys;
      ReleasedUnderAll(f, forceRulesets, owner);
    }

    /** `releaseAllForceRulesetLocked`. */
    method ReleaseAllForceRulesetLocked(owner: string, name: string) returns (released: bool)
      modifies this`forceRulesets
      ensures released <==> CountsOf(old(forceRulesets), name, owner) != map[]
      ensures forceRulesets == Release(old(forceRulesets), owner, name, [])
    {
      if name !in forceRulesets || owner !in forceRulesets[name] || forceRulesets[name][owner] == map[] {
        return false;
      }
      var owners := forceRulesets[name] - {owner};
      if owners == map[] {
        forceRulesets := forceRulesets - {name};
      } else {
        forceRulesets := forceRulesets[name := owners];
      }
      return true;
    }

    /** `reconcile`. Whatever fails and whenever, the invariant holds; when nothing
        fails the current policy is the effective one, and the tables are in line
        with it exactly when every interface it left alone was right before; a call
        that finds the policy it would compute already recorded performs no map
        operation. Its
        `changed` flag is then raised exactly when some selected interface has an
        empty, non-nil address slice. */
    method Reconcile(all: seq<Interface>) returns (changed: bool, ok: bool, ghost next: map<u32, InterfacePolicy>)
      requires Valid() && DistinctIndexes(all)
      modifies this`current, this`isSet, this`computed, tables
      ensures Valid()
      ensures IsNext(fx.re, InputsNow(), Select(selects, opts, all), next)
      ensures computed == old(computed) + Computed(next)
      ensures old(tables.trace) <= tables.trace
      ensures Rewritten(tables.trace, |old(tables.trace)|, old(tables.Now()), tables.Now(), RulesMap(old(current)),
                        RulesMap(next), ok)
      ensures ok ==> (InLine() <==> UntouchedRight(old(tables.Now()), RulesMap(old(current)), RulesMap(current)))
      ensures ok <==> tables.failures == old(tables.failures)
      ensures tables.failures >= old(tables.failures)
      ensures ok ==> current == ClonePolicies(next) && isSet
      ensures !ok ==> current == old(current) && isSet == old(isSet) && !changed
      ensures old(isSet) && old(current) == ClonePolicies(next) ==>
                ok && tables.trace == old(tables.trace) && (changed <==> SomeEmptyAddrs(next))
    {
      SelectDistinct(selects, opts, all);
      var selected := SelectInterfaces(selects, opts, all);
      ghost var n := InputsNow();
      var computedNext := ComputeNext(fx.re, Inputs(opts, tmpRulesets, forceRulesets, socksProxy), selected);
      next := computedNext;
      changed, ok := Install(computedNext);
      assert InputsNow() == n;
    }

    /** The locked part of `reconcile`: nothing to do, or write the tables and then
        adopt the policy. */
    method Install(next: map<u32, InterfacePolicy>) returns (changed: bool, ok: bool)
      requires ValidTables()
      modifies this`current, this`isSet, this`computed, tables
      ensures ValidTables() && old(tables.trace) <= tables.trace
      ensures Rewritten(tables.trace, |old(tables.trace)|, old(tables.Now()), tables.Now(), RulesMap(old(current)),
                        RulesMap(next), ok)
      ensures ok ==> (InLine() <==> UntouchedRight(old(tables.Now()), RulesMap(old(current)), RulesMap(current)))
      ensures computed == old(computed) + Computed(next)
      ensures ok <==> tables.failures == old(tables.failures)
      ensures tables.failures >= old(tables.failures)
      ensures ok ==> current == ClonePolicies(next) && isSet
      ensures !ok ==> current == old(current) && isSet == old(isSet) && !changed
      ensures old(isSet) && old(current) == ClonePolicies(next) ==>
                ok && tables.trace == old(tables.trace) && (changed <==> SomeEmptyAddrs(next))
    {
      CloneComparesEqual(next);
      computed := computed + Computed(next);
      if isSet {
        var equal := InterfacePolicyRulesEqual(current, next);
        if equal {
          Adopt(next, old(computed));
          return false, true;
        }
      }
      changed, ok := WriteAndAdopt(next, old(computed));
    }

    /** The recorded policy already says the same: adopt without writing. */
    method Adopt(next: map<u32, InterfacePolicy>, ghost was: set<(u32, AllowRules)>)
      requires tables.Valid() && computed == was + Computed(next) && AlwaysCompleteOrClosed(tables.trace, was)
      requires tables.failures == 0 ==> InLine()
      requires PoliciesEqual(current, next)
      modifies this`current
      ensures ValidTables() && current == ClonePolicies(next)
      ensures Rewritten(tables.trace, |tables.trace|, tables.Now(), tables.Now(), RulesMap(old(current)),
                        RulesMap(next), true)
      ensures InLine() <==> UntouchedRight(tables.Now(), RulesMap(old(current)), RulesMap(current))
    {
      forall k | 0 <= k < |tables.trace| { MoreComputed(tables.trace[k], was, Computed(next)); }
      EqualPoliciesSettled(tables.Now(), current, next);
      SettledExact(tables.Now(), tables.Now(), RulesMap(current), RulesMap(next));
      if tables.failures == 0 {
        RepresentingIsRight(tables.Now(), RulesMap(current), RulesMap(next));
      }
      ClonedRules(next);
      current := ClonePolicies(next);
    }

    /** Write the tables, then adopt the policy. */
    method WriteAndAdopt(next: map<u32, InterfacePolicy>, ghost was: set<(u32, AllowRules)>)
      returns (changed: bool, ok: bool)
      requires tables.Valid() && computed == was + Computed(next) && AlwaysCompleteOrClosed(tables.trace, was)
      requires tables.failures == 0 ==> InLine()
      modifies this`current, this`isSet, tables
      ensures ValidTables() && old(tables.trace) <= tables.trace
      ensures Rewritten(tables.trace, |old(tables.trace)|, old(tables.Now()), tables.Now(), RulesMap(old(current)),
                        RulesMap(next), ok)
      ensures ok ==> (InLine() <==> UntouchedRight(old(tables.Now()), RulesMap(old(current)), RulesMap(current)))
      ensures ok <==> tables.failures == old(tables.failures)
      ensures tables.failures >= old(tables.failures)
      ensures ok ==> current == ClonePolicies(next) && isSet && changed
      ensures !ok ==> current == old(current) && isSet == old(isSet) && !changed
      ensures old(current) == ClonePolicies(next) ==> ok && tables.trace == old(tables.trace)
    {
      ghost var before, earlier := tables.Now(), tables.trace;
      assert before == earlier[|earlier| - 1];
      ClonedRules(next);
      var from, to := (map i | i in current :: current[i].rules), (map i | i in next :: next[i].rules);
      assert from == RulesMap(current) && to == RulesMap(next);
      ok := tables.WriteEffectivePolicies(from, to);
      ExtendAlways(earlier, tables.trace, before, was, next);
      if !ok {
        return false, false;
      }
      SettledExact(before, tables.Now(), from, to);
      if tables.failures == 0 {
        RepresentingIsRight(before, from, to);
      }
      current := ClonePolicies(next);
      isSet := true;
      return true, true;
    }

    /** A reconcile that would compute the recorded policy again touches no table, and
        reports a change exactly when some selected interface has an empty, non-nil
        address slice. */
    method ReconcileAgain(all: seq<Interface>, ghost next: map<u32, InterfacePolicy>) returns (changed: bool, ok: bool)
      requires Valid() && DistinctIndexes(all) && isSet && current == ClonePolicies(next)
      requires IsNext(fx.re, InputsNow(), Select(selects, opts, all), next)
      modifies this`current, this`isSet, this`computed, tables
      ensures Valid() && ok && tables.trace == old(tables.trace) && (changed <==> SomeEmptyAddrs(next))
      ensures current == ClonePolicies(next)
    {
      SelectDistinct(selects, opts, all);
      ghost var again;
      changed, ok, again := Reconcile(all);
      NextUnique(fx.re, InputsNow(), Select(selects, opts, all), next, again);
    }

    /** Two reconciles in a row with nothing changed between them: if the first
        succeeds, so does the second, and touches no table. */
    method ReconcileTwice(all: seq<Interface>)
      returns (ok: bool, changedAgain: bool, ghost between: seq<Tables>, ghost next: map<u32, InterfacePolicy>)
      requires Valid() && DistinctIndexes(all)
      modifies this`current, this`isSet, this`computed, tables
      ensures Valid()
      ensures ok ==> tables.trace == between && current == ClonePolicies(next)
      ensures ok ==> (changedAgain <==> SomeEmptyAddrs(next))
      ensures IsNext(fx.re, InputsNow(), Select(selects, opts, all), next)
    {
      ghost var n := InputsNow();
      var changed;
      changed, ok, next := Reconcile(all);
      between := tables.trace;
      changedAgain := false;
      assert InputsNow() == n;
      if ok {
        changedAgain, ok := ReconcileAgain(all, next);
        assert InputsNow() == n;
      }
    }
  }
}
