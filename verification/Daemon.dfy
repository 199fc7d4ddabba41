/** The daemon's entry points, each run under the reconcile lock, and what a packet
    meets at the end of them (cmd/killswitch/admin_mutation.go:21-122,
    cmd/killswitch/policy_manager.go:171-219, cmd/killswitch/egress.go:177-190). */
module Daemons {
  import opened Words
  import opened Orders
  import opened Rules
  import opened Frames
  import opened Filter
  import opened Kernel
  import opened Effective
  import opened Force
  import opened Config
  import opened Decisions
  import opened Sessions
  import opened PolicyManagers
  import opened Links
  import Proxy

  // ---------- requests as the connection handler reads them ----------

  /** A tmp_ruleset request: add and set alike replace. */
  function TmpRequest(op: Op, interfaces: seq<string>, rules: Option<AllowRules>): Request {
    match op
    case Add => SetTmp(interfaces, rules)
    case Set => SetTmp(interfaces, rules)
    case Remove => RemoveTmp
    case OtherOp => Unsupported
  }

  function ForceRequest(op: Op, name: string, interfaces: seq<string>): Request {
    match op
    case Add => ForceOn(name, interfaces, false)
    case Set => ForceOn(name, interfaces, true)
    case Remove => ForceOff(name, interfaces)
    case OtherOp => Unsupported
  }

  /** What a force_ruleset request does to one count: add raises it by one for a listed
      interface, set makes it one or nothing, remove lowers it by one or, without a
      list, to nothing. Requests without a name, without interfaces or for an unknown
      ruleset do nothing, and no other owner's or ruleset's count ever moves. */
  lemma ForceRequestCounts(g: Grants, owner: string, op: Op, name: string, ifaces: seq<string>,
                           n: string, o: string, i: string)
    requires Tidy(g.forced)
    ensures var was := CountOf(g.forced, n, o, i);
            var now := CountOf(Apply(g, owner, ForceRequest(op, name, ifaces)).forced, n, o, i);
            if n != name || o != owner || name == "" then now == was
            else match op
              case Add => now == if ifaces != [] && name in g.names && i in ifaces then was + 1 else was
              case Set => now == if ifaces == [] || name !in g.names then was else if i in ifaces then 1 else 0
              case Remove => now == if ifaces == [] then 0 else if i in ifaces && was > 0 then was - 1 else was
              case OtherOp => now == was
    ensures Apply(g, owner, ForceRequest(op, name, ifaces)) ==
            g.(forced := Apply(g, owner, ForceRequest(op, name, ifaces)).forced)
  {
    var listed := UniqueSortedStrings(ifaces);
    UniqueSortedNonempty(ifaces);
    if listed != [] {
      ActivateCounts(g.forced, owner, name, listed, false);
      ActivateCounts(g.forced, owner, name, listed, true);
    }
    ReleaseCounts(g.forced, owner, name, listed);
  }

  /** What a tmp_ruleset request does: add and set alike replace the owner's entry by
      rules on the listed interfaces, remove drops it; nothing else changes. */
  lemma TmpRequestEffect(g: Grants, owner: string, op: Op, ifaces: seq<string>, rules: Option<AllowRules>)
    ensures var now := Apply(g, owner, TmpRequest(op, ifaces, rules));
            && now == g.(tmp := now.tmp)
            && (forall o :: o != owner ==> (o in now.tmp <==> o in g.tmp) && (o in g.tmp ==> now.tmp[o] == g.tmp[o]))
            && ((op == Add || op == Set) && rules.Some? && ifaces != [] ==>
                  && owner in now.tmp && now.tmp[owner].owner == owner && now.tmp[owner].rules == rules.value
                  && (forall x :: x in now.tmp[owner].interfaces <==> x in ifaces))
            && (op == Remove ==> owner !in now.tmp)
            && (op == OtherOp || (op != Remove && (rules.None? || ifaces == [])) ==> now == g)
  {
    StringLessTotal();
    CanonIncreasing(StringLess, ifaces);
  }

  lemma SortedDistinctIncreasing(s: seq<string>)
    requires Sorted(StringLess, s) && forall x :: multiset(s)[x] <= 1
    ensures Increasing(StringLess, s)
  {
    StringLessTotal();
    forall i, j | 0 <= i < j < |s| ensures StringLess(s[i], s[j]) {
      assert s == s[..j] + s[j..];
      assert multiset(s)[s[j]] == multiset(s[..j])[s[j]] + multiset(s[j..])[s[j]];
      assert s[j] == s[j..][0] && s[j] in multiset(s[j..]);
      assert s[j] !in multiset(s[..j]) && s[i] in s[..j];
    }
  }

  lemma {:induction false} DistinctCounts(s: seq<string>)
    requires forall i, j :: 0 <= i < j < |s| ==> s[i] != s[j]
    ensures forall x :: multiset(s)[x] <= 1
  {
    if s != [] {
      var init := s[..|s| - 1];
      DistinctCounts(init);
      assert s == init + [s[|s| - 1]];
    }
  }

  /** `uniqueSortedStrings`: drop repetitions in place, then sort. */
  method UniqueSortedList(values: seq<string>) returns (out: seq<string>)
    ensures out == UniqueSortedStrings(values)
  {
    var a := new string[|values|](i requires 0 <= i < |values| => values[i]);
    assert a[..] == values;
    var n := UniqueInPlace(a);
    StringLessTotal();
    StrictTotalEverywhere(StringLess, a[..n]);
    out := SortSlice(a[..n], StringLess);
    UniqueStringsElements(values);
    DistinctCounts(a[..n]);
    SortedDistinctIncreasing(out);
    SameMultisetSameElements(out, a[..n]);
    CanonIncreasing(StringLess, values);
    IncreasingUnique(StringLess, out, UniqueSortedStrings(values));
  }

  /** The rules cover exactly the selected interfaces of the list, each with the join
      of its own contributors. */
  ghost predicate PolicyFor(re: Regexp, n: Inputs, selects: (Options, Interface) -> bool, present: seq<Interface>,
                            rules: map<u32, AllowRules>) {
    && (forall i :: i in rules ==> exists x :: x in present && selects(n.opts, x) && x.index == i)
    && (forall x :: x in present && selects(n.opts, x) ==> x.index in rules && EffectiveFor(re, n, x, rules[x.index]))
  }

  /** The rules of a policy map, by interface. */
  ghost function RulesByIndex(rules: map<u32, AllowRules>): set<(u32, AllowRules)> {
    set i | i in rules :: (i, rules[i])
  }

  lemma ComputedByIndex(next: map<u32, InterfacePolicy>)
    ensures Computed(next) == RulesByIndex(RulesMap(next))
  {
    forall x | x in Computed(next) ensures x in RulesByIndex(RulesMap(next)) {
      assert x.0 in RulesMap(next);
    }
    forall x | x in RulesByIndex(RulesMap(next)) ensures x in Computed(next) {
      assert x.0 in next;
    }
  }

  lemma NextIsPolicyFor(re: Regexp, n: Inputs, selects: (Options, Interface) -> bool, present: seq<Interface>,
                        next: map<u32, InterfacePolicy>)
    requires DistinctIndexes(present) && IsNext(re, n, Select(selects, n.opts, present), next)
    ensures PolicyFor(re, n, selects, present, RulesMap(next))
  {
    var selected := Select(selects, n.opts, present);
    SelectDistinct(selects, n.opts, present);
    forall i | i in next ensures exists x :: x in present && selects(n.opts, x) && x.index == i {
      var k :| 0 <= k < |selected| && selected[k].index == i;
      assert selected[k] in selected;
    }
    forall x | x in present && selects(n.opts, x)
      ensures x.index in next && EffectiveFor(re, n, x, next[x.index].rules)
    {
      assert x in selected;
      SelectedIsCovered(re, n, selected, next, x);
    }
  }

  lemma SelectedIsCovered(re: Regexp, n: Inputs, selected: seq<Interface>, next: map<u32, InterfacePolicy>,
                          x: Interface)
    requires DistinctIndexes(selected) && IsNext(re, n, selected, next) && x in selected
    ensures x.index in next && EffectiveFor(re, n, x, next[x.index].rules)
  {
  }

  /** Attached is a part of what was selected, and what stays keeps its link. */
  ghost predicate Reattached(was: map<u32, Attached>, selected: seq<Interface>, now: map<u32, Attached>) {
    && now.Keys <= Indexes(selected)
    && forall i :: i in was && i in Indexes(selected) ==> i in now && now[i].link == was[i].link
  }

  /** What all contributors of an interface together promise a packet: one may
      enable its family and another name it. */
  ghost predicate TogetherDecide(re: Regexp, n: Inputs, iface: Interface, mark: u32, data: Bytes) {
    || (exists c :: ContributesTo(re, n, iface, c) && c.allowAll)
    || IsBootstrap(data)
    || exists f: Frame :: WellFormed(f) && Encode(f) == data && TogetherAllow(re, n, iface, mark, f.packet)
  }

  ghost predicate TogetherAllow(re: Regexp, n: Inputs, iface: Interface, mark: u32, p: Packet) {
    && (p.Ip4? || p.Ip6?)
    && (exists c :: ContributesTo(re, n, iface, c) && if p.Ip4? then c.enableV4 else c.enableV6)
    && (exists c :: ContributesTo(re, n, iface, c) && NamedBy(c, mark, p))
  }

  lemma SomeoneNames(cs: seq<AllowRules>, mark: u32, p: Packet)
    requires p.Ip4? || p.Ip6?
    ensures SomeListsOneOf(cs, Matching(mark, p)) <==> exists c :: c in cs && NamedBy(c, mark, p)
  {
    forall i | 0 <= i < |cs| { NamedByExact(cs[i], mark, p); }
    if SomeListsOneOf(cs, Matching(mark, p)) {
      var e :| e in Matching(mark, p) && SomeLists(cs, e);
      var i :| 0 <= i < |cs| && e in Entries(cs[i]);
      assert cs[i] in cs && NamedBy(cs[i], mark, p);
    }
    if exists c :: c in cs && NamedBy(c, mark, p) {
      var c :| c in cs && NamedBy(c, mark, p);
      var i :| 0 <= i < |cs| && cs[i] == c;
      var e :| e in Matching(mark, p) && e in Entries(cs[i]);
      assert SomeLists(cs, e);
    }
  }

  ghost predicate ListsContributors(re: Regexp, n: Inputs, iface: Interface, cs: seq<AllowRules>) {
    forall c :: c in cs <==> ContributesTo(re, n, iface, c)
  }

  lemma FlagsTogether(re: Regexp, n: Inputs, iface: Interface, cs: seq<AllowRules>)
    requires ListsContributors(re, n, iface, cs)
    ensures SomeAllowAll(cs) <==> exists c :: ContributesTo(re, n, iface, c) && c.allowAll
    ensures SomeV4(cs) <==> exists c :: ContributesTo(re, n, iface, c) && c.enableV4
    ensures SomeV6(cs) <==> exists c :: ContributesTo(re, n, iface, c) && c.enableV6
  {
    forall i | 0 <= i < |cs| ensures ContributesTo(re, n, iface, cs[i]) { assert cs[i] in cs; }
    forall c | ContributesTo(re, n, iface, c) ensures exists i :: 0 <= i < |cs| && cs[i] == c { assert c in cs; }
  }

  lemma AllowedTogether(re: Regexp, n: Inputs, iface: Interface, cs: seq<AllowRules>, mark: u32, p: Packet)
    requires ListsContributors(re, n, iface, cs)
    ensures TogetherAllow(re, n, iface, mark, p) <==>
              (if p.Ip4? then SomeV4(cs) else p.Ip6? && SomeV6(cs)) && SomeListsOneOf(cs, Matching(mark, p))
  {
    FlagsTogether(re, n, iface, cs);
    if p.Ip4? || p.Ip6? {
      SomeoneNames(cs, mark, p);
    }
  }

  /** Effective rules decide every packet as their contributors together do. */
  lemma EffectiveDecides(re: Regexp, n: Inputs, iface: Interface, rules: AllowRules, mark: u32, data: Bytes)
    requires EffectiveFor(re, n, iface, rules)
    ensures Permits(RulesView(rules), mark, data) <==> TogetherDecide(re, n, iface, mark, data)
  {
    var cs: seq<AllowRules> :| ListsContributors(re, n, iface, cs) && IsJoin(rules, cs);
    JoinPassesExactly(rules, cs, mark, data);
    FlagsTogether(re, n, iface, cs);
    forall f: Frame { AllowedTogether(re, n, iface, cs, mark, f.packet); }
  }

  /** Departure reaches the packets: once a connection's cleanup has finished, a
      reconcile computes the policy of the run without its requests, and tables in
      line with the one are in line with the other. */
  lemma DepartureFate(names: set<string>, events: seq<Sessions.Event>, id: nat, w: World, v: World,
                      re: Regexp, opts: Options, proxy: ProxyState, selected: seq<Interface>,
                      a: map<u32, InterfacePolicy>, b: map<u32, InterfacePolicy>)
    requires RunFrom(names, events) == Some(w) && RunFrom(names, Erase(events, id)) == Some(v)
    requires id in w.conns && w.conns[id].phase == Gone && DistinctIndexes(selected)
    requires IsNext(re, Inputs(opts, w.grants.tmp, w.grants.forced, proxy), selected, a)
    requires IsNext(re, Inputs(opts, v.grants.tmp, v.grants.forced, proxy), selected, b)
    ensures a == b
    ensures forall t, u :: Represents(t, RulesMap(a)) && Represents(u, RulesMap(b)) ==> t == u
  {
    DepartureLeavesNoTrace(names, events, id);
    NextUnique(re, Inputs(opts, w.grants.tmp, w.grants.forced, proxy), selected, a, b);
    forall t, u | Represents(t, RulesMap(a)) && Represents(u, RulesMap(b)) ensures t == u {
      RepresentsIsEncodeAll(t, RulesMap(a));
      RepresentsIsEncodeAll(u, RulesMap(b));
    }
  }

  /** Of all the proxy's steps only its reports and new options reach the policy side. */
  lemma OnlyReportsMovePolicy(s: Proxy.System, a: Proxy.Action)
    requires Proxy.CanAct(s, a) && !a.Emit? && !a.SyncWrite? && !a.ReplaceOptions?
    ensures Proxy.Act(s, a).policy == s.policy
  {
  }

  /** The others decide, and while the proxy runs its mark counts as named; a family is
      still enabled by the others alone. */
  ghost predicate OthersAndMarkDecide(re: Regexp, n: Inputs, iface: Interface, mark: u32, data: Bytes) {
    || (exists c :: OtherContributes(re, n, iface, c) && c.allowAll)
    || IsBootstrap(data)
    || exists f: Frame ::
         && WellFormed(f) && Encode(f) == data && (f.packet.Ip4? || f.packet.Ip6?)
         && (exists c :: OtherContributes(re, n, iface, c) && if f.packet.Ip4? then c.enableV4 else c.enableV6)
         && (|| (n.proxy.running && mark == n.proxy.fwMark)
             || exists c :: OtherContributes(re, n, iface, c) && NamedBy(c, mark, f.packet))
  }

  /** Apart from the others' say, the proxy's rules name its mark and nothing else. */
  lemma MarkOnly(mark: u32, wanted: u32, p: Packet)
    requires p.Ip4? || p.Ip6?
    ensures NamedBy(NO_RULES.(marks := [wanted]), mark, p) <==> mark == wanted
  {
  }

  lemma SomeNamer(re: Regexp, n: Inputs, iface: Interface, mark: u32, p: Packet)
    requires p.Ip4? || p.Ip6?
    ensures (exists c :: ContributesTo(re, n, iface, c) && NamedBy(c, mark, p)) <==>
              || (n.proxy.running && mark == n.proxy.fwMark)
              || exists c :: OtherContributes(re, n, iface, c) && NamedBy(c, mark, p)
  {
    MarkOnly(mark, n.proxy.fwMark, p);
    if n.proxy.running && mark == n.proxy.fwMark {
      assert ContributesTo(re, n, iface, NO_RULES.(marks := [n.proxy.fwMark]));
    }
    forall c | OtherContributes(re, n, iface, c) ensures ContributesTo(re, n, iface, c) {}
  }

  lemma ProxyAddsItsMark(re: Regexp, n: Inputs, iface: Interface, mark: u32, data: Bytes)
    ensures TogetherDecide(re, n, iface, mark, data) <==> OthersAndMarkDecide(re, n, iface, mark, data)
  {
    forall c | OtherContributes(re, n, iface, c) ensures ContributesTo(re, n, iface, c) {}
    forall f: Frame | f.packet.Ip4? || f.packet.Ip6? { SomeNamer(re, n, iface, mark, f.packet); }
  }

  // ---------- moments ----------

  /** What the kernel holds at one moment: which links run the filter, and the
      tables the filter reads. */
  datatype Moment = Moment(links: map<u32, nat>, tables: Tables)

  /** Every packet leaving interface `i` is judged by one computed rule set, or only
      bootstrap traffic passes. */
  ghost predicate Filtered(m: Moment, i: u32, computed: set<(u32, AllowRules)>) {
    && i in m.links
    && (BootstrapOnly(m.tables, i) || exists r :: (i, r) in computed && JudgedLike(m.tables, i, RulesView(r)))
  }

  ghost predicate AllComplete(moments: seq<Moment>, computed: set<(u32, AllowRules)>) {
    forall k :: 0 <= k < |moments| ==> CompleteOrClosed(moments[k].tables, computed)
  }

  /** The link table did not move since moment `from`. */
  ghost predicate Steady(moments: seq<Moment>, from: nat, links: map<u32, nat>) {
    forall k :: from <= k < |moments| ==> moments[k].links == links
  }

  /** The `kept` interfaces had their old link at every moment since `from`. */
  ghost predicate KeptLinks(moments: seq<Moment>, from: nat, before: map<u32, nat>, kept: set<u32>) {
    forall k, i :: from <= k < |moments| && i in kept && i in before ==>
      i in moments[k].links && moments[k].links[i] == before[i]
  }

  /** At every moment since `from` each interface was judged as before, judged by its
      new rules, or closed. */
  ghost predicate SafeSince(moments: seq<Moment>, from: nat, before: Tables, next: map<u32, AllowRules>) {
    forall k :: from <= k < |moments| ==> Safe(before, moments[k].tables, next)
  }

  ghost function WithTables(links: map<u32, nat>, tables: seq<Tables>): (moments: seq<Moment>)
    ensures |moments| == |tables| && forall k :: 0 <= k < |tables| ==> moments[k] == Moment(links, tables[k])
  {
    seq(|tables|, k requires 0 <= k < |tables| => Moment(links, tables[k]))
  }

  ghost function WithLinks(links: seq<map<u32, nat>>, tables: Tables): (moments: seq<Moment>)
    ensures |moments| == |links| && forall k :: 0 <= k < |links| ==> moments[k] == Moment(links[k], tables)
  {
    seq(|links|, k requires 0 <= k < |links| => Moment(links[k], tables))
  }

  /** The moments of a table rewrite under steady links: one for each operation. */
  ghost predicate TablesMoved(was: seq<Moment>, moments: seq<Moment>, links: map<u32, nat>, trace: seq<Tables>,
                              from: nat) {
    from <= |trace| && moments == was + WithTables(links, trace[from..])
  }

  /** The moments of a link reconcile over steady tables: one for each link opened or
      closed, and the result. */
  ghost predicate LinksMoved(was: seq<Moment>, moments: seq<Moment>, history: seq<map<u32, nat>>, from: nat,
                             links: map<u32, nat>, tables: Tables) {
    from <= |history| && moments == was + WithLinks(history[from..] + [links], tables)
  }

  lemma AllCompleteMore(moments: seq<Moment>, computed: set<(u32, AllowRules)>, more: set<(u32, AllowRules)>)
    requires AllComplete(moments, computed) && computed <= more
    ensures AllComplete(moments, more)
  {
    forall k | 0 <= k < |moments| ensures CompleteOrClosed(moments[k].tables, more) {
      MoreComputed(moments[k].tables, computed, more);
      assert computed + more == more;
    }
  }

  lemma NothingMoved(moments: seq<Moment>, links: map<u32, nat>, trace: seq<Tables>)
    ensures TablesMoved(moments, moments, links, trace, |trace|)
  {
  }

  lemma LinksMovedMeans(was: seq<Moment>, moments: seq<Moment>, history: seq<map<u32, nat>>, from: nat,
                        links: map<u32, nat>, tables: Tables,
                        before: map<u32, nat>, kept: set<u32>, computed: set<(u32, AllowRules)>)
    requires LinksMoved(was, moments, history, from, links, tables) && NeverInterrupted(history, from, before, kept)
    requires forall i :: i in kept && i in before ==> i in links && links[i] == before[i]
    requires AllComplete(was, computed) && CompleteOrClosed(tables, computed)
    ensures KeptLinks(moments, |was|, before, kept) && AllComplete(moments, computed) && was <= moments
    ensures forall k :: |was| <= k < |moments| ==> moments[k].tables == tables
    ensures |moments| > 0 && moments[|moments| - 1] == Moment(links, tables)
  {
    var steps := history[from..] + [links];
    forall k, i | |was| <= k < |moments| && i in kept && i in before
      ensures i in moments[k].links && moments[k].links[i] == before[i]
    {
      assert moments[k] == Moment(steps[k - |was|], tables);
    }
  }

  lemma TablesMovedMeans(was: seq<Moment>, moments: seq<Moment>, links: map<u32, nat>, trace: seq<Tables>, from: nat)
    requires TablesMoved(was, moments, links, trace, from)
    ensures was <= moments && Steady(moments, |was|, links)
    ensures |was| > 0 && 0 < from && was[|was| - 1] == Moment(links, trace[from - 1]) ==>
              |moments| > 0 && moments[|moments| - 1] == Moment(links, trace[|trace| - 1])
  {
  }

  lemma TablesMovedSafe(was: seq<Moment>, moments: seq<Moment>, links: map<u32, nat>, trace: seq<Tables>, from: nat,
                        before: Tables, next: map<u32, AllowRules>,
                        earlier: set<(u32, AllowRules)>, computed: set<(u32, AllowRules)>)
    requires TablesMoved(was, moments, links, trace, from) && SafeDuring(trace, from, before, next)
    requires AllComplete(was, earlier) && earlier <= computed && AlwaysCompleteOrClosed(trace, computed)
    ensures SafeSince(moments, |was|, before, next) && AllComplete(moments, computed)
  {
    AllCompleteMore(was, earlier, computed);
    forall k | |was| <= k < |moments| ensures moments[k] == Moment(links, trace[from + k - |was|]) {
    }
  }

  /** First the links move over steady tables, then the tables under steady links. */
  ghost predicate BothMoved(was: seq<Moment>, moments: seq<Moment>, history: seq<map<u32, nat>>, at: nat,
                            links: map<u32, nat>,
                            before: Tables, trace: seq<Tables>, from: nat) {
    && at <= |history| && from <= |trace|
    && moments == was + WithLinks(history[at..] + [links], before) + WithTables(links, trace[from..])
  }

  lemma BothMovedMeans(was: seq<Moment>, middle: seq<Moment>, moments: seq<Moment>, history: seq<map<u32, nat>>,
                       at: nat, links: map<u32, nat>,
                       before: Tables, trace: seq<Tables>, from: nat, beforeLinks: map<u32, nat>, kept: set<u32>,
                       next: map<u32, AllowRules>)
    requires LinksMoved(was, middle, history, at, links, before) && TablesMoved(middle, moments, links, trace, from)
    requires KeptLinks(middle, |was|, beforeLinks, kept) && SafeSince(moments, |middle|, before, next)
    requires forall i :: i in kept && i in beforeLinks ==> i in links && links[i] == beforeLinks[i]
    ensures BothMoved(was, moments, history, at, links, before, trace, from)
    ensures KeptLinks(moments, |was|, beforeLinks, kept) && SafeSince(moments, |was|, before, next)
  {
    forall k | |was| <= k < |middle| ensures moments[k] == middle[k] && middle[k].tables == before {
    }
    forall k, i | |was| <= k < |moments| && i in kept && i in beforeLinks
      ensures i in moments[k].links && moments[k].links[i] == beforeLinks[i]
    {
      if k < |middle| {
        assert moments[k] == middle[k];
      }
    }
    forall k | |was| <= k < |moments| ensures Safe(before, moments[k].tables, next) {
    }
  }

  class Daemon {
    const policies: PolicyManager
    const egress: EgressManager

    /** What the kernel held after every change so far. */
    ghost var moments: seq<Moment>

    ghost predicate Valid()
      reads this, policies, policies.tables, egress
    {
      policies.Valid() && egress.Valid() && AllComplete(moments, policies.computed) && UpToDate()
    }

    ghost predicate UpToDate()
      reads this`moments, policies.tables, egress`attached
    {
      |moments| > 0 && moments[|moments| - 1] == Moment(LinksOf(egress.attached), policies.tables.Now())
    }

    constructor (policies: PolicyManager, egress: EgressManager)
      requires policies.Valid() && egress.Valid()
      ensures Valid() && this.policies == policies && this.egress == egress
    {
      this.policies, this.egress := policies, egress;
      moments := [Moment(LinksOf(egress.attached), policies.tables.Now())];
      new;
      ghost var trace := policies.tables.trace;
      assert policies.tables.Now() == trace[|trace| - 1];
    }

    /** Listed, attached and selected by the options. */
    ghost predicate Governed(listing: Option<seq<Interface>>, x: Interface)
      reads policies`opts, egress`attached
    {
      listing.Some? && x in listing.value && x.index in egress.attached && policies.selects(policies.opts, x)
    }

    /** The rules this listing asks for: they cover exactly the governed interfaces,
        each with the join of its own contributors. */
    ghost predicate AsksFor(listing: Option<seq<Interface>>, rules: map<u32, AllowRules>)
      reads policies`opts, policies`tmpRulesets, policies`forceRulesets, policies`socksProxy, egress`attached
    {
      && (forall i :: i in rules ==> exists x :: Governed(listing, x) && x.index == i)
      && (forall x :: Governed(listing, x) ==>
            x.index in rules && EffectiveFor(policies.fx.re, policies.InputsNow(), x, rules[x.index]))
    }

    /** A reconcile with this listing computed exactly the rules it asks for, and
        nothing else was computed. */
    ghost predicate Computes(listing: Option<seq<Interface>>, was: set<(u32, AllowRules)>,
                             written: map<u32, AllowRules>)
      reads policies`opts, policies`tmpRulesets, policies`forceRulesets, policies`socksProxy, policies`computed,
            egress`attached
    {
      AsksFor(listing, written) && policies.computed == was + RulesByIndex(written)
    }

    /** The same, or no reconcile was begun and nothing was computed. */
    ghost predicate ComputesAtMost(listing: Option<seq<Interface>>, was: set<(u32, AllowRules)>,
                                   written: map<u32, AllowRules>)
      reads policies`opts, policies`tmpRulesets, policies`forceRulesets, policies`socksProxy, policies`computed,
            egress`attached
    {
      Computes(listing, was, written) || (policies.computed == was && written == map[])
    }

    /** The recorded policy is the one this listing asks for. */
    ghost predicate Adopted(listing: Option<seq<Interface>>)
      reads policies`opts, policies`tmpRulesets, policies`forceRulesets, policies`socksProxy, policies`current,
            egress`attached
    {
      AsksFor(listing, RulesMap(policies.current))
    }

    /** It is also what the tables say. */
    ghost predicate InForce(listing: Option<seq<Interface>>)
      reads policies`opts, policies`tmpRulesets, policies`forceRulesets, policies`socksProxy, policies`current,
            policies.tables, egress`attached
    {
      Adopted(listing) && policies.InLine()
    }

    /** A successful reconcile: the listing's policy is recorded, and it is in force
        exactly when every interface the update left alone was right before. */
    ghost predicate Reconciled(listing: Option<seq<Interface>>, before: Tables, was: map<u32, InterfacePolicy>)
      reads policies`opts, policies`tmpRulesets, policies`forceRulesets, policies`socksProxy, policies`current,
            policies.tables, egress`attached
    {
      && Adopted(listing)
      && (InForce(listing) <==> UntouchedRight(before, RulesMap(was), RulesMap(policies.current)))
    }

    /** In particular, tables that were in line before are in line after. */
    lemma InLineStaysInForce(listing: Option<seq<Interface>>, before: Tables, was: map<u32, InterfacePolicy>)
      requires Reconciled(listing, before, was) && Represents(before, RulesMap(was))
      ensures InForce(listing)
    {
      RepresentingIsRight(before, RulesMap(was), RulesMap(policies.current));
    }

    /** The interfaces of a fresh listing that are attached right now. */
    method AttachedOf(all: seq<Interface>) returns (out: seq<Interface>)
      requires DistinctIndexes(all)
      ensures DistinctIndexes(out) && forall x :: x in out <==> x in all && x.index in egress.attached
    {
      out := [];
      for k := 0 to |all|
        invariant DistinctIndexes(out)
        invariant forall x :: x in out <==> x in all[..k] && x.index in egress.attached
      {
        assert all[..k + 1] == all[..k] + [all[k]];
        if all[k].index in egress.attached {
          forall m | 0 <= m < |out| ensures out[m].index != all[k].index {
            assert out[m] in all[..k];
          }
          out := out + [all[k]];
        }
      }
      assert all[..|all|] == all;
    }

    /** Reconcile with the interfaces that are attached right now. */
    method RunReconcile(present: seq<Interface>) returns (changed: bool, ok: bool, ghost next: map<u32, AllowRules>)
      requires policies.Valid() && DistinctIndexes(present)
      modifies policies`current, policies`isSet, policies`computed, policies.tables
      ensures policies.Valid() && old(policies.tables.trace) <= policies.tables.trace
      ensures PolicyFor(policies.fx.re, policies.InputsNow(), policies.selects, present, next)
      ensures policies.computed == old(policies.computed) + RulesByIndex(next)
      ensures if ok then RulesMap(policies.current) == next else policies.current == old(policies.current)
      ensures ok ==> (policies.InLine() <==>
                        UntouchedRight(old(policies.tables.Now()), RulesMap(old(policies.current)), next))
      ensures ok <==> policies.tables.failures == old(policies.tables.failures)
      ensures SafeDuring(policies.tables.trace, |old(policies.tables.trace)|, old(policies.tables.Now()), next)
    {
      ghost var policy;
      changed, ok, policy := policies.Reconcile(present);
      next := RulesMap(policy);
      ClonedRules(policy);
      ComputedByIndex(policy);
      NextIsPolicyFor(policies.fx.re, policies.InputsNow(), policies.selects, present, policy);
    }

    /** The same, on the record. */
    method ReconcilePresent(present: seq<Interface>) returns (changed: bool, ok: bool, ghost next: map<u32, AllowRules>)
      requires Valid() && DistinctIndexes(present)
      modifies this`moments, policies`current, policies`isSet, policies`computed, policies.tables
      ensures Valid() && old(policies.tables.trace) <= policies.tables.trace
      ensures PolicyFor(policies.fx.re, policies.InputsNow(), policies.selects, present, next)
      ensures policies.computed == old(policies.computed) + RulesByIndex(next)
      ensures if ok then RulesMap(policies.current) == next else policies.current == old(policies.current)
      ensures ok ==> (policies.InLine() <==>
                        UntouchedRight(old(policies.tables.Now()), RulesMap(old(policies.current)), next))
      ensures ok <==> policies.tables.failures == old(policies.tables.failures)
      ensures TablesMoved(old(moments), moments, LinksOf(egress.attached), policies.tables.trace,
                          |old(policies.tables.trace)|)
      ensures SafeSince(moments, |old(moments)|, old(policies.tables.Now()), next)
    {
      changed, ok, next := RunReconcile(present);
      RecordTables(|old(policies.tables.trace)|, old(policies.tables.Now()), next, old(policies.computed));
    }

    /** The moments of a table rewrite. */
    ghost method RecordTables(from: nat, before: Tables, next: map<u32, AllowRules>, was: set<(u32, AllowRules)>)
      requires policies.Valid() && egress.Valid() && AllComplete(moments, was) && was <= policies.computed
      requires 0 < from <= |policies.tables.trace| && SafeDuring(policies.tables.trace, from, before, next)
      requires |moments| > 0 &&
               moments[|moments| - 1] == Moment(LinksOf(egress.attached), policies.tables.trace[from - 1])
      modifies this`moments
      ensures Valid() && SafeSince(moments, |old(moments)|, before, next)
      ensures TablesMoved(old(moments), moments, LinksOf(egress.attached), policies.tables.trace, from)
    {
      ghost var links, trace := LinksOf(egress.attached), policies.tables.trace;
      moments := moments + WithTables(links, trace[from..]);
      TablesMovedMeans(old(moments), moments, links, trace, from);
      TablesMovedSafe(old(moments), moments, links, trace, from, before, next, was, policies.computed);
    }

    lemma AttachedAsk(listing: Option<seq<Interface>>, present: seq<Interface>, rules: map<u32, AllowRules>)
      requires forall x :: x in present <==> listing.Some? && x in listing.value && x.index in egress.attached
      requires PolicyFor(policies.fx.re, policies.InputsNow(), policies.selects, present, rules)
      ensures AsksFor(listing, rules)
    {
      forall i | i in rules ensures exists x :: Governed(listing, x) && x.index == i {
        var x :| x in present && policies.selects(policies.opts, x) && x.index == i;
        assert Governed(listing, x);
      }
    }

    /** `reconcileAttached`; None is a failed interface listing, which is not asked
        for when nothing is attached. */
    method ReconcileAttached(listing: Option<seq<Interface>>)
      returns (changed: bool, ok: bool, ghost next: map<u32, AllowRules>)
      requires Valid() && (listing.Some? ==> DistinctIndexes(listing.value))
      modifies this`moments, policies`current, policies`isSet, policies`computed, policies.tables
      ensures Valid() && old(policies.tables.trace) <= policies.tables.trace
      ensures policies.GrantsNow() == old(policies.GrantsNow())
      ensures if listing.Some? || egress.attached == map[] then Computes(listing, old(policies.computed), next)
              else policies.computed == old(policies.computed) && next == map[] && unchanged(policies.tables)
      ensures if ok then RulesMap(policies.current) == next else policies.current == old(policies.current)
      ensures ok ==> Reconciled(listing, old(policies.tables.Now()), old(policies.current))
      ensures ok <==> && (listing.Some? || egress.attached == map[])
                      && policies.tables.failures == old(policies.tables.failures)
      ensures TablesMoved(old(moments), moments, LinksOf(egress.attached), policies.tables.trace,
                          |old(policies.tables.trace)|)
      ensures SafeSince(moments, |old(moments)|, old(policies.tables.Now()), next)
    {
      var present := [];
      if egress.attached != map[] {
        if listing.None? {
          NothingMoved(moments, LinksOf(egress.attached), policies.tables.trace);
          return false, false, map[];
        }
        present := AttachedOf(listing.value);
      }
      changed, ok, next := ReconcilePresent(present);
      AttachedAsk(listing, present, next);
    }

    /** The moments of a link reconcile. */
    ghost method RecordLinks(from: nat, before: map<u32, nat>, kept: set<u32>)
      requires policies.Valid() && egress.Valid() && AllComplete(moments, policies.computed)
      requires from <= |egress.moments| && NeverInterrupted(egress.moments, from, before, kept)
      requires forall i :: i in kept && i in before ==> i in egress.attached && egress.attached[i].link == before[i]
      modifies this`moments
      ensures Valid() && KeptLinks(moments, |old(moments)|, before, kept)
      ensures LinksMoved(old(moments), moments, egress.moments, from, LinksOf(egress.attached), policies.tables.Now())
    {
      ghost var trace, links := policies.tables.trace, LinksOf(egress.attached);
      assert policies.tables.Now() == trace[|trace| - 1];
      moments := moments + WithLinks(egress.moments[from..] + [links], policies.tables.Now());
      LinksMovedMeans(old(moments), moments, egress.moments, from, links, policies.tables.Now(), before, kept,
                      policies.computed);
    }

    /** `reconcileCurrent`: attach to exactly what the options select, as far as the
        attaches succeed. */
    method ReconcileCurrent(listing: Option<seq<Interface>>, strict: bool) returns (changed: bool, err: bool)
      requires Valid() && (listing.Some? ==> DistinctIndexes(listing.value))
      modifies this`moments, egress
      ensures Valid()
      ensures listing.None? ==> err && !changed && unchanged(egress) && unchanged(this)
      ensures listing.Some? ==>
                var selected := Select(policies.selects, policies.opts, listing.value);
                && Reattached(old(egress.attached), selected, egress.attached)
                && (changed <==> egress.attached.Keys != old(egress.attached).Keys)
                && (err <==> strict && !(Indexes(selected) <= egress.attached.Keys))
                && KeptLinks(moments, |old(moments)|, LinksOf(old(egress.attached)), Indexes(selected))
                && LinksMoved(old(moments), moments, egress.moments, |old(egress.moments)|, LinksOf(egress.attached),
                              policies.tables.Now())
    {
      if listing.None? {
        return false, true;
      }
      SelectDistinct(policies.selects, policies.opts, listing.value);
      var selected := SelectInterfaces(policies.selects, policies.opts, listing.value);
      ghost var succeeded;
      changed, err, succeeded := egress.Reconcile(selected, strict);
      RecordLinks(|old(egress.moments)|, LinksOf(old(egress.attached)), Indexes(selected));
    }

    /** Both halves, links first. */
    method ReconcileBoth(forSelection: Option<seq<Interface>>, forPolicy: Option<seq<Interface>>, strict: bool)
      returns (err: bool, ok: bool, ghost written: map<u32, AllowRules>)
      requires Valid()
      requires (forSelection.Some? ==> DistinctIndexes(forSelection.value)) &&
               (forPolicy.Some? ==> DistinctIndexes(forPolicy.value))
      modifies this`moments, policies`current, policies`isSet, policies`computed, policies.tables, egress
      ensures Valid() && old(policies.tables.trace) <= policies.tables.trace
      ensures policies.GrantsNow() == old(policies.GrantsNow())
      ensures forSelection.Some? ==>
                var selected := Select(policies.selects, policies.opts, forSelection.value);
                && Reattached(old(egress.attached), selected, egress.attached)
                && KeptLinks(moments, |old(moments)|, LinksOf(old(egress.attached)), Indexes(selected))
                && (err <==> strict && !(Indexes(selected) <= egress.attached.Keys))
                && BothMoved(old(moments), moments, egress.moments, |old(egress.moments)|, LinksOf(egress.attached),
                          old(policies.tables.Now()), policies.tables.trace, |old(policies.tables.trace)|)
      ensures forSelection.None? ==>
                err && unchanged(egress) &&
                TablesMoved(old(moments), moments, LinksOf(egress.attached), policies.tables.trace,
                            |old(policies.tables.trace)|)
      ensures SafeSince(moments, |old(moments)|, old(policies.tables.Now()), written)
      ensures if forPolicy.Some? || egress.attached == map[] then Computes(forPolicy, old(policies.computed), written)
              else policies.computed == old(policies.computed) && written == map[]
      ensures ok ==> Reconciled(forPolicy, old(policies.tables.Now()), old(policies.current))
      ensures ok <==> && (forPolicy.Some? || egress.attached == map[])
                      && policies.tables.failures == old(policies.tables.failures)
    {
      var attachChanged, changed;
      attachChanged, err := ReconcileCurrent(forSelection, strict);
      ghost var earlier := moments;
      changed, ok, written := ReconcileAttached(forPolicy);
      if forSelection.Some? {
        BothMovedMeans(old(moments), earlier, moments, egress.moments, |old(egress.moments)|, LinksOf(egress.attached),
                       old(policies.tables.Now()),
                       policies.tables.trace, |old(policies.tables.trace)|, LinksOf(old(egress.attached)),
                       Indexes(Select(policies.selects, policies.opts, forSelection.value)), written);
      }
    }

    /** `applyAdminMutation` for everything but connection-owned requests. */
    method ApplyAdminMutation(req: MutationRequest, forSelection: Option<seq<Interface>>,
                              forPolicy: Option<seq<Interface>>)
      returns (ok: bool, ghost written: map<u32, AllowRules>)
      requires Valid()
      requires (forSelection.Some? ==> DistinctIndexes(forSelection.value)) &&
               (forPolicy.Some? ==> DistinctIndexes(forPolicy.value))
      modifies this`moments, policies, policies.tables, egress
      ensures Valid() && old(policies.tables.trace) <= policies.tables.trace
      ensures var next := MutateOptions(policies.fx, old(policies.opts), req);
              && (next.None? ==>
                    !ok && unchanged(this) && unchanged(policies) && unchanged(policies.tables) && unchanged(egress))
              && (next.Some? ==>
                    && policies.opts == next.value
                    && policies.GrantsNow() == Reconfigure(old(policies.GrantsNow()), NamesOf(next.value.rulesets))
                    && policies.socksProxy == (if old(policies.socksProxy.enabled || policies.socksProxy.running)
                                               then old(policies.socksProxy)
                                                 else ProxyStateFromOptions(next.value.proxy))
                    && (forSelection.Some? ==>
                          var selected := Select(policies.selects, next.value, forSelection.value);
                          && Reattached(old(egress.attached), selected, egress.attached)
                          && KeptLinks(moments, |old(moments)|, LinksOf(old(egress.attached)), Indexes(selected))
                          && BothMoved(old(moments), moments, egress.moments, |old(egress.moments)|,
                                       LinksOf(egress.attached),
                                       old(policies.tables.Now()), policies.tables.trace,
                                       |old(policies.tables.trace)|)))
      ensures ok ==> forSelection.Some? && Reconciled(forPolicy, old(policies.tables.Now()), old(policies.current))
      ensures ok ==> Computes(forPolicy, old(policies.computed), written)
      ensures ComputesAtMost(forPolicy, old(policies.computed), written)
      ensures SafeSince(moments, |old(moments)|, old(policies.tables.Now()), written)
      ensures ok <== MutateOptions(policies.fx, old(policies.opts), req).Some? && forSelection.Some? &&
              forPolicy.Some? &&
                     policies.tables.failures == old(policies.tables.failures)
    {
      written := map[];
      var next := MutateOptions(policies.fx, policies.opts, req);
      if next.None? {
        return false, written;
      }
      MutationKeepsWellFormed(policies.fx, policies.opts, req);
      policies.ReplaceOptions(next.value);
      if forSelection.None? {
        return false, written;
      }
      var err;
      err, ok, written := ReconcileBoth(forSelection, forPolicy, false);
    }

    /** `applyTemporaryRulesetMutation`. */
    method ApplyTemporaryRulesetMutation(owner: string, op: Op, interfaces: seq<string>, rules: Option<AllowRules>,
                                         listing: Option<seq<Interface>>)
      returns (ok: bool, ghost written: map<u32, AllowRules>)
      requires Valid() && (listing.Some? ==> DistinctIndexes(listing.value))
      modifies this`moments, policies`tmpRulesets, policies`current, policies`isSet, policies`computed, policies.tables
      ensures Valid() && old(policies.tables.trace) <= policies.tables.trace
      ensures policies.GrantsNow() == Apply(old(policies.GrantsNow()), owner, TmpRequest(op, interfaces, rules))
      ensures ok ==> Reconciled(listing, old(policies.tables.Now()), old(policies.current))
      ensures TablesMoved(old(moments), moments, LinksOf(egress.attached), policies.tables.trace,
                          |old(policies.tables.trace)|)
      ensures ComputesAtMost(listing, old(policies.computed), written) &&
              SafeSince(moments, |old(moments)|, old(policies.tables.Now()), written)
      ensures ok ==> Computes(listing, old(policies.computed), written)
    {
      written := map[];
      if op == Add || op == Set {
        if rules.None? || interfaces == [] {
          return false, written;
        }
        var sorted := UniqueSortedList(interfaces);
        policies.SetTemporaryRuleset(owner, sorted, rules.value);
      } else if op == Remove {
        var removed := policies.RemoveTemporaryRuleset(owner);
      } else {
        return false, written;
      }
      var changed;
      changed, ok, written := ReconcileAttached(listing);
    }

    /** The add and set branch of `applyForceRulesetMutation`. */
    method ForceActivate(owner: string, name: string, interfaces: seq<string>, replace: bool) returns (go: bool)
      requires Valid() && name != ""
      modifies policies`forceRulesets
      ensures Valid()
      ensures policies.GrantsNow() == Apply(old(policies.GrantsNow()), owner, ForceOn(name, interfaces, replace))
    {
      if interfaces == [] {
        return false;
      }
      var sorted := UniqueSortedList(interfaces);
      UniqueSortedNonempty(interfaces);
      go := policies.ForceActivateRuleset(owner, name, sorted, replace);
    }

    /** The remove branch. */
    method ForceRelease(owner: string, name: string, interfaces: seq<string>)
      requires Valid() && name != ""
      modifies policies`forceRulesets
      ensures Valid()
      ensures policies.GrantsNow() == Apply(old(policies.GrantsNow()), owner, ForceOff(name, interfaces))
    {
      var sorted := UniqueSortedList(interfaces);
      var released := policies.ReleaseForceRuleset(owner, name, sorted);
    }

    /** The operation switch of `applyForceRulesetMutation`; `go` says whether the
        request was accepted. */
    method MutateForceRuleset(owner: string, op: Op, name: string, interfaces: seq<string>) returns (go: bool)
      requires Valid()
      modifies policies`forceRulesets
      ensures Valid()
      ensures policies.GrantsNow() == Apply(old(policies.GrantsNow()), owner, ForceRequest(op, name, interfaces))
    {
      if name == "" || op == OtherOp {
        return false;
      }
      if op == Remove {
        ForceRelease(owner, name, interfaces);
        return true;
      }
      go := ForceActivate(owner, name, interfaces, op == Set);
    }

    /** `applyForceRulesetMutation`. */
    method ApplyForceRulesetMutation(owner: string, op: Op, name: string, interfaces: seq<string>,
                                     listing: Option<seq<Interface>>)
      returns (ok: bool, ghost written: map<u32, AllowRules>)
      requires Valid() && (listing.Some? ==> DistinctIndexes(listing.value))
      modifies this`moments, policies`forceRulesets, policies`current, policies`isSet, policies`computed,
               policies.tables
      ensures Valid() && old(policies.tables.trace) <= policies.tables.trace
      ensures policies.GrantsNow() == Apply(old(policies.GrantsNow()), owner, ForceRequest(op, name, interfaces))
      ensures ok ==> Reconciled(listing, old(policies.tables.Now()), old(policies.current))
      ensures TablesMoved(old(moments), moments, LinksOf(egress.attached), policies.tables.trace,
                          |old(policies.tables.trace)|)
      ensures ComputesAtMost(listing, old(policies.computed), written) &&
              SafeSince(moments, |old(moments)|, old(policies.tables.Now()), written)
      ensures ok ==> Computes(listing, old(policies.computed), written)
    {
      written := map[];
      NothingMoved(moments, LinksOf(egress.attached), policies.tables.trace);
      var go := MutateForceRuleset(owner, op, name, interfaces);
      if !go {
        return false, written;
      }
      var changed;
      changed, ok, written := ReconcileAttached(listing);
    }

    /** `removeForceRulesets`: the first cleanup step of a departing connection. */
    method RemoveForceRulesets(owner: string, listing: Option<seq<Interface>>)
      returns (ok: bool, ghost written: map<u32, AllowRules>)
      requires Valid() && (listing.Some? ==> DistinctIndexes(listing.value))
      modifies this`moments, policies`forceRulesets, policies`current, policies`isSet, policies`computed,
               policies.tables
      ensures Valid() && old(policies.tables.trace) <= policies.tables.trace
      ensures policies.GrantsNow() == old(policies.GrantsNow()).(forced := RemoveOwner(old(policies.forceRulesets),
                                                                                       owner))
      ensures if OwnsUnder(old(policies.forceRulesets), owner, old(policies.forceRulesets).Keys) then
                ok ==> && Reconciled(listing, old(policies.tables.Now()), old(policies.current))
                       && Computes(listing, old(policies.computed), written)
              else ok && unchanged(policies.tables) && policies.current == old(policies.current)
      ensures TablesMoved(old(moments), moments, LinksOf(egress.attached), policies.tables.trace,
                          |old(policies.tables.trace)|)
      ensures ComputesAtMost(listing, old(policies.computed), written) &&
              SafeSince(moments, |old(moments)|, old(policies.tables.Now()), written)
    {
      written := map[];
      var released := policies.RemoveForceRulesets(owner);
      if !released {
        return true, written;
      }
      var changed;
      changed, ok, written := ReconcileAttached(listing);
    }

    /** `removeTemporaryRuleset`: the second cleanup step. */
    method RemoveTemporaryRuleset(owner: string, listing: Option<seq<Interface>>)
      returns (ok: bool, ghost written: map<u32, AllowRules>)
      requires Valid() && (listing.Some? ==> DistinctIndexes(listing.value))
      modifies this`moments, policies`tmpRulesets, policies`current, policies`isSet, policies`computed, policies.tables
      ensures Valid() && old(policies.tables.trace) <= policies.tables.trace
      ensures policies.GrantsNow() == old(policies.GrantsNow()).(tmp := old(policies.tmpRulesets) - {owner})
      ensures if owner in old(policies.tmpRulesets) then
                ok ==> && Reconciled(listing, old(policies.tables.Now()), old(policies.current))
                       && Computes(listing, old(policies.computed), written)
              else ok && unchanged(policies.tables) && policies.current == old(policies.current)
      ensures TablesMoved(old(moments), moments, LinksOf(egress.attached), policies.tables.trace,
                          |old(policies.tables.trace)|)
      ensures ComputesAtMost(listing, old(policies.computed), written) &&
              SafeSince(moments, |old(moments)|, old(policies.tables.Now()), written)
    {
      written := map[];
      var removed := policies.RemoveTemporaryRuleset(owner);
      if !removed {
        return true, written;
      }
      var changed;
      changed, ok, written := ReconcileAttached(listing);
    }

    /** The proxy's report into the policy state, from a start, a stop or a failure. */
    method ReportSocksProxy(state: ProxyState, listing: Option<seq<Interface>>)
      returns (ok: bool, ghost written: map<u32, AllowRules>)
      requires Valid() && (listing.Some? ==> DistinctIndexes(listing.value))
      modifies this`moments, policies`socksProxy, policies`current, policies`isSet, policies`computed, policies.tables
      ensures Valid() && policies.socksProxy == state && policies.GrantsNow() == old(policies.GrantsNow())
      ensures ok ==> Reconciled(listing, old(policies.tables.Now()), old(policies.current))
      ensures TablesMoved(old(moments), moments, LinksOf(egress.attached), policies.tables.trace,
                          |old(policies.tables.trace)|)
      ensures ComputesAtMost(listing, old(policies.computed), written) &&
              SafeSince(moments, |old(moments)|, old(policies.tables.Now()), written)
      ensures ok ==> Computes(listing, old(policies.computed), written)
    {
      written := map[];
      policies.SetSocksProxyState(state);
      var changed;
      changed, ok, written := ReconcileAttached(listing);
    }

    /** The policy manager's proxy state is the policy side of the proxy protocol. */
    ghost predicate Mirrors(s: Proxy.System)
      reads policies`socksProxy
    {
      policies.socksProxy == s.policy
    }

    /** The callback of the proxy manager: one `Emit` step. */
    method EmitProxyState(ghost s: Proxy.System, ghost id: nat, state: ProxyState, listing: Option<seq<Interface>>)
      requires Valid() && (listing.Some? ==> DistinctIndexes(listing.value))
      requires Mirrors(s) && Proxy.CanAct(s, Proxy.Emit(id)) && state == s.calls[id].state
      modifies this`moments, policies`socksProxy, policies`current, policies`isSet, policies`computed, policies.tables
      ensures Valid() && Mirrors(Proxy.Act(s, Proxy.Emit(id))) && policies.GrantsNow() == old(policies.GrantsNow())
    {
      ghost var written;
      var ok;
      ok, written := ReportSocksProxy(state, listing);
    }

    /** The copy at the end of `applySocksProxyMutation`: one `SyncWrite` step. */
    method SyncProxyState(ghost s: Proxy.System, ghost id: nat, state: ProxyState, listing: Option<seq<Interface>>)
      returns (ok: bool)
      requires Valid() && (listing.Some? ==> DistinctIndexes(listing.value))
      requires Mirrors(s) && Proxy.CanAct(s, Proxy.SyncWrite(id)) && state == s.calls[id].state
      modifies this`moments, policies`socksProxy, policies`current, policies`isSet, policies`computed, policies.tables
      ensures Valid() && Mirrors(Proxy.Act(s, Proxy.SyncWrite(id))) && policies.GrantsNow() == old(policies.GrantsNow())
    {
      ghost var written;
      ok, written := ReportSocksProxy(state, listing);
    }

    /** The watcher's reaction to a change of links, addresses or routes: both halves
        run, and only a strict run reports their failures. */
    method ReconcileLinks(forSelection: Option<seq<Interface>>, forPolicy: Option<seq<Interface>>, strict: bool)
      returns (ok: bool, ghost written: map<u32, AllowRules>)
      requires Valid()
      requires (forSelection.Some? ==> DistinctIndexes(forSelection.value)) &&
               (forPolicy.Some? ==> DistinctIndexes(forPolicy.value))
      modifies this`moments, policies`current, policies`isSet, policies`computed, policies.tables, egress
      ensures Valid() && old(policies.tables.trace) <= policies.tables.trace
      ensures policies.GrantsNow() == old(policies.GrantsNow())
      ensures forSelection.Some? ==>
                var selected := Select(policies.selects, policies.opts, forSelection.value);
                && Reattached(old(egress.attached), selected, egress.attached)
                && KeptLinks(moments, |old(moments)|, LinksOf(old(egress.attached)), Indexes(selected))
                && BothMoved(old(moments), moments, egress.moments, |old(egress.moments)|, LinksOf(egress.attached),
                             old(policies.tables.Now()), policies.tables.trace, |old(policies.tables.trace)|)
      ensures forSelection.None? ==>
                && unchanged(egress)
                && TablesMoved(old(moments), moments, LinksOf(egress.attached), policies.tables.trace,
                               |old(policies.tables.trace)|)
      ensures SafeSince(moments, |old(moments)|, old(policies.tables.Now()), written)
      ensures if forPolicy.Some? || egress.attached == map[] then Computes(forPolicy, old(policies.computed), written)
              else policies.computed == old(policies.computed) && written == map[]
      ensures forPolicy.Some? && policies.tables.failures == old(policies.tables.failures) ==>
                Reconciled(forPolicy, old(policies.tables.Now()), old(policies.current))
      ensures strict && ok ==>
                && forSelection.Some?
                && Reconciled(forPolicy, old(policies.tables.Now()), old(policies.current))
    {
      var err, policyOk;
      err, policyOk, written := ReconcileBoth(forSelection, forPolicy, strict);
      ok := !strict || (!err && policyOk);
    }

    /** A packet leaving interface `i` now gets out. */
    ghost predicate Passes(i: u32, mark: u32, data: Bytes)
      reads policies.tables, egress`attached
    {
      i !in egress.attached || Permits(ViewOf(policies.tables.Now(), i), mark, data)
    }

    /** A packet leaving interface `i` between two calls. Nothing filters an interface
        that is not attached. On an attached one its fate is the plain decision on the
        recorded policy while the tables are in line with it, and in any case only
        bootstrap traffic or what rules once computed for `i` permit gets out. */
    method Egress(i: u32, mark: u32, data: Bytes) returns (passes: bool)
      requires Valid()
      ensures passes <==> Passes(i, mark, data)
      ensures i !in egress.attached ==> passes
      ensures i in egress.attached && policies.InLine() ==>
                (passes <==> if i in policies.current then PlainDecision(policies.current[i].rules, mark, data)
                   else IsBootstrap(data))
      ensures i in egress.attached && passes ==>
                IsBootstrap(data) || exists r :: (i, r) in policies.computed && PlainDecision(r, mark, data)
    {
      if i !in egress.attached {
        return true;
      }
      var t := Tables(policies.tables.config, policies.tables.allowed);
      var verdict, event := KillswitchEgress(t, i, mark, data);
      passes := verdict == Ok;
      if policies.InLine() {
        EndToEnd(t, RulesMap(policies.current), i, mark, data);
      }
      ghost var trace := policies.tables.trace;
      assert t == trace[|trace| - 1];
      JudgedByOnePolicy(t, i, policies.computed, mark, data);
      if passes && !IsBootstrap(data) {
        ghost var r :| (i, r) in policies.computed && Permits(RulesView(r), mark, data);
        RulesViewIsPlain(r, mark, data);
      }
    }

    /** The fate of every packet once a listing's policy is in force: on a governed
        interface its contributors decide together; on one that is attached but not
        governed only bootstrap traffic passes; on any other everything passes. */
    lemma GovernedFate(listing: Option<seq<Interface>>, i: u32, mark: u32, data: Bytes)
      requires Valid() && InForce(listing)
      ensures forall x :: Governed(listing, x) && x.index == i ==>
                (Passes(i, mark, data) <==> TogetherDecide(policies.fx.re, policies.InputsNow(), x, mark, data))
      ensures i in egress.attached && (forall x :: Governed(listing, x) ==> x.index != i) ==>
                (Passes(i, mark, data) <==> IsBootstrap(data))
      ensures i !in egress.attached ==> Passes(i, mark, data)
    {
      EndToEnd(policies.tables.Now(), RulesMap(policies.current), i, mark, data);
      forall x | Governed(listing, x) && x.index == i
        ensures Passes(i, mark, data) <==> TogetherDecide(policies.fx.re, policies.InputsNow(), x, mark, data)
      {
        EffectiveDecides(policies.fx.re, policies.InputsNow(), x, policies.current[i].rules, mark, data);
        RulesViewIsPlain(policies.current[i].rules, mark, data);
      }
    }

    /** What the proxy's report adds on a governed interface: while it says "running",
        packets with its mark count as named, and nothing else is let through for it. */
    lemma ProxyFate(listing: Option<seq<Interface>>, x: Interface, mark: u32, data: Bytes)
      requires Valid() && InForce(listing) && Governed(listing, x)
      ensures Passes(x.index, mark, data) <==>
                OthersAndMarkDecide(policies.fx.re, policies.InputsNow(), x, mark, data)
    {
      GovernedFate(listing, x.index, mark, data);
      ProxyAddsItsMark(policies.fx.re, policies.InputsNow(), x, mark, data);
    }

    /** An undisturbed start that listens makes the configured mark a contributor of
        every interface; an undisturbed stop leaves the others alone. */
    lemma StartedProxyContributes(states: seq<Proxy.System>, actions: seq<Proxy.Action>, k: nat, id: nat, handle: nat,
                                  x: Interface)
      requires Proxy.Run(states, actions) && k < |states| && !states[k].proxy.running
      requires Proxy.Consecutive(actions, k, [Proxy.BeginStart(id), Proxy.EnterStart(id), Proxy.ListenOk(id, handle),
                                              Proxy.Emit(id), Proxy.SyncRead(id), Proxy.SyncWrite(id)])
      requires Mirrors(states[k + 6])
      ensures policies.InputsNow().proxy.running && policies.InputsNow().proxy.fwMark == states[0].proxy.fwMark
      ensures ContributesTo(policies.fx.re, policies.InputsNow(), x, NO_RULES.(marks := [states[0].proxy.fwMark]))
    {
      Proxy.UndisturbedStart(states, actions, k, id, handle);
    }

    lemma StoppedProxyContributesNothing(states: seq<Proxy.System>, actions: seq<Proxy.Action>, k: nat, id: nat,
                                         x: Interface, c: AllowRules)
      requires Proxy.Run(states, actions) && k < |states|
      requires Proxy.Consecutive(actions, k, [Proxy.BeginStop(id), Proxy.Stop(id), Proxy.Emit(id), Proxy.SyncRead(id),
                                              Proxy.SyncWrite(id)])
      requires Mirrors(states[k + 5])
      ensures ContributesTo(policies.fx.re, policies.InputsNow(), x, c) <==>
                OtherContributes(policies.fx.re, policies.InputsNow(), x, c)
    {
      Proxy.UndisturbedStop(states, actions, k, id);
    }

    /** In every interleaving of proxy calls, once none is in flight and the proxy is
        stopped, its mark gets a packet out of a governed interface only if another
        contributor lists it. */
    lemma StoppedProxyFate(states: seq<Proxy.System>, actions: seq<Proxy.Action>, k: nat,
                           listing: Option<seq<Interface>>, x: Interface,
                           mark: u32, data: Bytes)
      requires Valid() && InForce(listing) && Governed(listing, x)
      requires Proxy.Run(states, actions) && k < |states| && states[k].calls == map[] && !states[k].proxy.running &&
               Mirrors(states[k])
      ensures Passes(x.index, mark, data) ==>
                var n := policies.InputsNow();
                || (exists c :: OtherContributes(policies.fx.re, n, x, c) && c.allowAll)
                || IsBootstrap(data)
                || exists f: Frame ::
                     && WellFormed(f) && Encode(f) == data
                     && exists c :: OtherContributes(policies.fx.re, n, x, c) && NamedBy(c, mark, f.packet)
    {
      Proxy.QuiescentIsFaithful(states, actions, k);
      GovernedFate(listing, x.index, mark, data);
    }

    /** At every moment of every run an attached interface is filtered: all its
        packets are judged by one rule set computed for it, or only bootstrap passes. */
    lemma FilteredThroughout(k: nat, i: u32)
      requires Valid() && k < |moments| && i in moments[k].links
      ensures Filtered(moments[k], i, policies.computed)
    {
      JudgedByOnePolicy(moments[k].tables, i, policies.computed, 0, []);
    }

    /** So an interface kept across a reconcile is filtered at every moment of it. */
    lemma KeptIsFiltered(from: nat, before: map<u32, nat>, kept: set<u32>, i: u32)
      requires Valid() && KeptLinks(moments, from, before, kept) && i in kept && i in before
      ensures forall k :: from <= k < |moments| ==>
                Filtered(moments[k], i, policies.computed) && moments[k].links[i] == before[i]
    {
      forall k | from <= k < |moments| { FilteredThroughout(k, i); }
    }
  }

  /** At any moment of a call, an attached interface is judged as before the call, or
      by the rules the call writes for it, or is closed. One that had no entry when
      the call began, as a freshly attached interface has none, is never judged by
      anything older: it is closed until its own rules are complete. */
  lemma AttachedJudged(moments: seq<Moment>, from: nat, before: Tables, next: map<u32, AllowRules>, k: nat, i: u32)
    requires SafeSince(moments, from, before, next) && from <= k < |moments|
    ensures var t := moments[k].tables;
            JudgedLike(t, i, ViewOf(before, i)) || (i in next && JudgedLike(t, i, RulesView(next[i]))) ||
            BootstrapOnly(t, i)
    ensures i !in before.config ==>
              var t := moments[k].tables; (i in next && JudgedLike(t, i, RulesView(next[i]))) || BootstrapOnly(t, i)
  {
    assert SafeAt(before, moments[k].tables, i, next);
    RewriteNeverMixes(before, moments[k].tables, i, next);
    if i !in before.config {
      RewriteFromClosed(before, moments[k].tables, i, next);
    }
  }

  lemma RewriteFromClosed(before: Tables, t: Tables, i: u32, next: map<u32, AllowRules>)
    requires SafeAt(before, t, i, next) && i !in before.config
    ensures (i in next && JudgedLike(t, i, RulesView(next[i]))) || BootstrapOnly(t, i)
  {
    if i in t.config {
      EncodesAtView(t, i, next[i]);
    } else {
      forall m: u32, d: Bytes ensures Permits(ViewOf(t, i), m, d) <==> IsBootstrap(d) {
        ClosedPassesOnlyBootstrap(ViewOf(t, i), m, d);
      }
    }
  }

  /** While the tables are in line, an interface the policy does not cover has no
      entry, so attaching the filter to it closes it. */
  lemma UncoveredIsClosed(t: Tables, current: map<u32, AllowRules>, i: u32)
    requires Represents(t, current) && i !in current
    ensures i !in t.config && BootstrapOnly(t, i)
  {
    assert EmptyAt(t, i);
    forall m: u32, d: Bytes ensures Permits(ViewOf(t, i), m, d) <==> IsBootstrap(d) {
      ClosedPassesOnlyBootstrap(ViewOf(t, i), m, d);
    }
  }
}
