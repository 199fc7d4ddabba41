/** From options, requests and interfaces to one effective rule set per interface
    (cmd/killswitch/effective_policy.go). */
module Effective {
  import opened Words
  import opened Orders
  import opened Rules
  import opened Frames
  import opened Filter
  import opened Kernel

  // ---------- entities ----------

  datatype Addr = Ip4Addr(octets4: Addr4) | Ip6Addr(octets6: Addr6, zone: string)

  /** A Go slice that remembers whether it is nil. */
  datatype Slice<T> = Nil | Slice(elems: seq<T>) {
    function Elems(): seq<T> {
      if Nil? then [] else elems
    }
  }

  datatype Interface = Interface(
    index: u32, name: string, typ: string, addrs: Slice<Addr>,
    ssid: string, bssid: string, gatewayMacs: seq<string>)

  datatype Trigger = Trigger(
    types: seq<string>, names: seq<string>, regexps: seq<string>, addrs: seq<Addr>,
    ssids: seq<string>, bssids: seq<string>, gatewayMacs: seq<string>)

  datatype Ruleset = Ruleset(name: string, disabled: bool, matchAll: bool, trigger: Trigger, rules: AllowRules)

  datatype TemporaryRuleset = TemporaryRuleset(owner: string, interfaces: seq<string>, rules: AllowRules)

  datatype ForceRuleset = ForceRuleset(name: string, owners: seq<string>, interfaces: seq<string>)

  datatype ProxyState = ProxyState(enabled: bool, running: bool, port: u16, fwMark: u32, dnsServer: string,
                                   lastError: string)

  /** Regular expressions are foreign: which texts compile, and what they match. */
  datatype Regexp = Regexp(compiles: string -> bool, matches: (string, string) -> bool)

  // ---------- triggers ----------

  /** One entry of a trigger. */
  datatype Predicate =
    | TypeIs(typ: string)
    | NameIs(name: string)
    | NameLike(pattern: string)
    | HasAddr(addr: Addr)
    | SsidIs(ssid: string)
    | BssidIs(bssid: string)
    | GatewayIs(mac: string)

  function Unmap(a: Addr): Addr {
    if a.Ip6Addr? && a.octets6[..10] == seq(10, _ => 0) && a.octets6[10] == 0xff && a.octets6[11] == 0xff
    then Ip4Addr(a.octets6[12..]) else a
  }

  predicate Holds(re: Regexp, iface: Interface, p: Predicate) {
    match p
    case TypeIs(typ) => iface.typ == typ
    case NameIs(name) => iface.name == name
    case NameLike(pattern) => re.matches(pattern, iface.name)
    case HasAddr(addr) => AddrIn(addr, iface.addrs.Elems())
    case SsidIs(ssid) => iface.ssid == ssid
    case BssidIs(bssid) => iface.bssid == bssid
    case GatewayIs(mac) => mac in iface.gatewayMacs
  }

  predicate AddrIn(addr: Addr, addrs: seq<Addr>) {
    exists i :: 0 <= i < |addrs| && Unmap(addrs[i]) == Unmap(addr)
  }

  /** The trigger as one list of predicates, in the order the program counts them. */
  function Predicates(t: Trigger): seq<Predicate> {
    Map(t.types, AsTypeIs) + Map(t.names, AsNameIs) + Map(t.regexps, AsNameLike) +
    Map(t.addrs, AsHasAddr) + Map(t.ssids, AsSsidIs) + Map(t.bssids, AsBssidIs) +
    Map(t.gatewayMacs, AsGatewayIs)
  }

  function AsTypeIs(x: string): Predicate { TypeIs(x) }
  function AsNameIs(x: string): Predicate { NameIs(x) }
  function AsNameLike(x: string): Predicate { NameLike(x) }
  function AsHasAddr(x: Addr): Predicate { HasAddr(x) }
  function AsSsidIs(x: string): Predicate { SsidIs(x) }
  function AsBssidIs(x: string): Predicate { BssidIs(x) }
  function AsGatewayIs(x: string): Predicate { GatewayIs(x) }

  function Map<A, B>(s: seq<A>, f: A -> B): (r: seq<B>)
    ensures |r| == |s| && forall i :: 0 <= i < |s| ==> r[i] == f(s[i])
  {
    seq(|s|, i requires 0 <= i < |s| => f(s[i]))
  }

  function PredicateCount(t: Trigger): nat {
    |t.types| + |t.names| + |t.regexps| + |t.addrs| + |t.ssids| + |t.bssids| + |t.gatewayMacs|
  }

  /** What a trigger means: some listed entry holds, or under AND every one does;
      an empty trigger never matches. */
  ghost predicate TriggerHolds(re: Regexp, iface: Interface, t: Trigger, matchAll: bool) {
    if matchAll then
      Predicates(t) != [] && forall p :: p in Predicates(t) ==> Holds(re, iface, p)
    else
      exists p :: p in Predicates(t) && Holds(re, iface, p)
  }

  function Count<T>(s: seq<T>, holds: T -> bool): nat {
    if s == [] then 0 else (if holds(s[0]) then 1 else 0) + Count(s[1..], holds)
  }

  method CountWhere<T>(s: seq<T>, holds: T -> bool) returns (n: nat)
    ensures n == Count(s, holds)
  {
    n := 0;
    for i := 0 to |s|
      invariant n + Count(s[i..], holds) == Count(s, holds)
    {
      assert s[i..][1..] == s[i + 1..];
      if holds(s[i]) {
        n := n + 1;
      }
    }
  }

  lemma {:induction false} CountAll<T>(s: seq<T>, holds: T -> bool)
    ensures Count(s, holds) <= |s|
    ensures Count(s, holds) == |s| <==> forall i :: 0 <= i < |s| ==> holds(s[i])
  {
    if s != [] {
      CountAll(s[1..], holds);
      assert forall i :: 1 <= i < |s| ==> s[i] == s[1..][i - 1];
      assert forall i :: 0 <= i < |s| - 1 ==> s[1..][i] == s[i + 1];
    }
  }

  lemma {:induction false} CountSome<T>(s: seq<T>, holds: T -> bool)
    ensures Count(s, holds) > 0 <==> exists i :: 0 <= i < |s| && holds(s[i])
  {
    if s != [] {
      CountSome(s[1..], holds);
      assert forall i :: 1 <= i < |s| ==> s[i] == s[1..][i - 1];
      assert forall i :: 0 <= i < |s| - 1 ==> s[1..][i] == s[i + 1];
    }
  }

  /** A count is bounded by the list, full exactly when every element passes, and
      positive exactly when some element does. */
  lemma CountExact<T>(s: seq<T>, holds: T -> bool)
    ensures Count(s, holds) <= |s|
    ensures Count(s, holds) == |s| <==> forall x :: x in s ==> holds(x)
    ensures Count(s, holds) > 0 <==> exists x :: x in s && holds(x)
  {
  }

  lemma {:induction false} CountAppend<T>(a: seq<T>, b: seq<T>, holds: T -> bool)
    ensures Count(a + b, holds) == Count(a, holds) + Count(b, holds)
  {
    if a == [] {
      assert a + b == b;
    } else {
      assert (a + b)[1..] == a[1..] + b;
      CountAppend(a[1..], b, holds);
    }
  }

  lemma {:induction false} CountMap<A, B>(s: seq<A>, f: A -> B, holds: B -> bool, direct: A -> bool)
    requires forall x :: x in s ==> (holds(f(x)) <==> direct(x))
    ensures Count(Map(s, f), holds) == Count(s, direct)
  {
    if s != [] {
      assert Map(s, f)[1..] == Map(s[1..], f);
      CountMap(s[1..], f, holds, direct);
    }
  }

  lemma PredicatesLength(t: Trigger)
    ensures |Predicates(t)| == PredicateCount(t)
  {
  }

  // The seven tests of the counting loops.
  function TypeTest(iface: Interface): string -> bool { x => iface.typ == x }
  function NameTest(iface: Interface): string -> bool { x => iface.name == x }
  function PatternTest(re: Regexp, iface: Interface): string -> bool { x => re.matches(x, iface.name) }
  function AddrTest(iface: Interface): Addr -> bool { x => AddrIn(x, iface.addrs.Elems()) }
  function SsidTest(iface: Interface): string -> bool { x => iface.ssid == x }
  function BssidTest(iface: Interface): string -> bool { x => iface.bssid == x }
  function GatewayTest(iface: Interface): string -> bool { x => x in iface.gatewayMacs }
  function HoldsTest(re: Regexp, iface: Interface): Predicate -> bool { p => Holds(re, iface, p) }

  lemma CountAppend7<T>(a: seq<T>, b: seq<T>, c: seq<T>, d: seq<T>, e: seq<T>, f: seq<T>, g: seq<T>, h: T -> bool)
    ensures Count(a + b + c + d + e + f + g, h) ==
            Count(a, h) + Count(b, h) + Count(c, h) + Count(d, h) + Count(e, h) + Count(f, h) + Count(g, h)
  {
    CountAppend(a, b, h);
    CountAppend(a + b, c, h);
    CountAppend(a + b + c, d, h);
    CountAppend(a + b + c + d, e, h);
    CountAppend(a + b + c + d + e, f, h);
    CountAppend(a + b + c + d + e + f, g, h);
  }

  lemma MappedCounts(re: Regexp, iface: Interface, t: Trigger)
    ensures var h := HoldsTest(re, iface);
            && Count(Map(t.types, AsTypeIs), h) == Count(t.types, TypeTest(iface))
            && Count(Map(t.names, AsNameIs), h) == Count(t.names, NameTest(iface))
            && Count(Map(t.regexps, AsNameLike), h) == Count(t.regexps, PatternTest(re, iface))
            && Count(Map(t.addrs, AsHasAddr), h) == Count(t.addrs, AddrTest(iface))
            && Count(Map(t.ssids, AsSsidIs), h) == Count(t.ssids, SsidTest(iface))
            && Count(Map(t.bssids, AsBssidIs), h) == Count(t.bssids, BssidTest(iface))
            && Count(Map(t.gatewayMacs, AsGatewayIs), h) == Count(t.gatewayMacs, GatewayTest(iface))
  {
    var h := HoldsTest(re, iface);
    CountMap(t.types, AsTypeIs, h, TypeTest(iface));
    CountMap(t.names, AsNameIs, h, NameTest(iface));
    CountMap(t.regexps, AsNameLike, h, PatternTest(re, iface));
    CountMap(t.addrs, AsHasAddr, h, AddrTest(iface));
    CountMap(t.ssids, AsSsidIs, h, SsidTest(iface));
    CountMap(t.bssids, AsBssidIs, h, BssidTest(iface));
    CountMap(t.gatewayMacs, AsGatewayIs, h, GatewayTest(iface));
  }

  /** The seven per-list counts add up to the count over all predicates. */
  lemma CountsAddUp(re: Regexp, iface: Interface, t: Trigger)
    ensures
      Count(t.types, TypeTest(iface)) + Count(t.names, NameTest(iface)) + Count(t.regexps, PatternTest(re, iface)) +
      Count(t.addrs, AddrTest(iface)) + Count(t.ssids, SsidTest(iface)) + Count(t.bssids, BssidTest(iface)) +
      Count(t.gatewayMacs, GatewayTest(iface))
      == Count(Predicates(t), HoldsTest(re, iface))
  {
    MappedCounts(re, iface, t);
    CountAppend7(Map(t.types, AsTypeIs), Map(t.names, AsNameIs), Map(t.regexps, AsNameLike), Map(t.addrs, AsHasAddr),
                 Map(t.ssids, AsSsidIs), Map(t.bssids, AsBssidIs), Map(t.gatewayMacs, AsGatewayIs),
                 HoldsTest(re, iface));
  }

  /** The IPv4 address `a` stands for: itself, or the one an IPv6 address maps behind
      ten zero octets and two of all ones, whatever its zone. */
  predicate StandsFor4(a: Addr, o: Addr4) {
    a == Ip4Addr(o) || (a.Ip6Addr? && a.octets6 == [0, 0, 0, 0, 0, 0, 0, 0, 0, 0, 0xff, 0xff] + o)
  }

  ghost predicate SameHost(a: Addr, b: Addr) {
    a == b || exists o: Addr4 :: StandsFor4(a, o) && StandsFor4(b, o)
  }

  lemma UnmapIsStandsFor(a: Addr, o: Addr4)
    ensures Unmap(a) == Ip4Addr(o) <==> StandsFor4(a, o)
  {
    if a.Ip6Addr? {
      assert a.octets6 == a.octets6[..10] + [a.octets6[10], a.octets6[11]] + a.octets6[12..];
    }
  }

  /** Unmapping identifies exactly the addresses of one host. */
  lemma UnmapExact(a: Addr, b: Addr)
    ensures Unmap(a) == Unmap(b) <==> SameHost(a, b)
  {
    forall o: Addr4 ensures StandsFor4(a, o) <==> Unmap(a) == Ip4Addr(o) { UnmapIsStandsFor(a, o); }
    forall o: Addr4 ensures StandsFor4(b, o) <==> Unmap(b) == Ip4Addr(o) { UnmapIsStandsFor(b, o); }
    if Unmap(a).Ip4Addr? { assert StandsFor4(a, Unmap(a).octets4); }
  }

  ghost predicate HasHost(iface: Interface, a: Addr) {
    exists i :: 0 <= i < |iface.addrs.Elems()| && SameHost(iface.addrs.Elems()[i], a)
  }

  /** OR: some entry of some list is true of the interface. */
  ghost predicate SomeEntryTrue(re: Regexp, iface: Interface, t: Trigger) {
    || iface.typ in t.types
    || iface.name in t.names
    || (exists p :: p in t.regexps && re.matches(p, iface.name))
    || (exists a :: a in t.addrs && HasHost(iface, a))
    || iface.ssid in t.ssids
    || iface.bssid in t.bssids
    || (exists mac :: mac in t.gatewayMacs && mac in iface.gatewayMacs)
  }

  /** AND: there is an entry, and every entry of every list is true of the interface. */
  ghost predicate EveryEntryTrue(re: Regexp, iface: Interface, t: Trigger) {
    && (t.types != [] || t.names != [] || t.regexps != [] || t.addrs != [] || t.ssids != [] || t.bssids != [] ||
        t.gatewayMacs != [])
    && (forall x :: x in t.types ==> x == iface.typ)
    && (forall x :: x in t.names ==> x == iface.name)
    && (forall p :: p in t.regexps ==> re.matches(p, iface.name))
    && (forall a :: a in t.addrs ==> HasHost(iface, a))
    && (forall x :: x in t.ssids ==> x == iface.ssid)
    && (forall x :: x in t.bssids ==> x == iface.bssid)
    && (forall mac :: mac in t.gatewayMacs ==> mac in iface.gatewayMacs)
  }

  /** The entry stands in the list of its own kind. */
  predicate EntryOf(t: Trigger, p: Predicate) {
    match p
    case TypeIs(x) => x in t.types
    case NameIs(x) => x in t.names
    case NameLike(x) => x in t.regexps
    case HasAddr(a) => a in t.addrs
    case SsidIs(x) => x in t.ssids
    case BssidIs(x) => x in t.bssids
    case GatewayIs(x) => x in t.gatewayMacs
  }

  lemma PredicatesAre(t: Trigger, p: Predicate)
    ensures p in Predicates(t) <==> EntryOf(t, p)
  {
    match p
    case TypeIs(x) => if x in t.types { assert p in Map(t.types, AsTypeIs); }
    case NameIs(x) => if x in t.names { assert p in Map(t.names, AsNameIs); }
    case NameLike(x) => if x in t.regexps { assert p in Map(t.regexps, AsNameLike); }
    case HasAddr(a) => if a in t.addrs { assert p in Map(t.addrs, AsHasAddr); }
    case SsidIs(x) => if x in t.ssids { assert p in Map(t.ssids, AsSsidIs); }
    case BssidIs(x) => if x in t.bssids { assert p in Map(t.bssids, AsBssidIs); }
    case GatewayIs(x) => if x in t.gatewayMacs { assert p in Map(t.gatewayMacs, AsGatewayIs); }
  }

  lemma AddrInExact(a: Addr, iface: Interface)
    ensures AddrIn(a, iface.addrs.Elems()) <==> HasHost(iface, a)
  {
    var addrs := iface.addrs.Elems();
    forall i | 0 <= i < |addrs| ensures Unmap(addrs[i]) == Unmap(a) <==> SameHost(addrs[i], a) {
      UnmapExact(addrs[i], a);
    }
  }

  /** An entry is true of the interface as its kind says. */
  lemma HoldsInWords(re: Regexp, iface: Interface, p: Predicate)
    ensures Holds(re, iface, p) <==>
              match p
              case TypeIs(x) => x == iface.typ
              case NameIs(x) => x == iface.name
              case NameLike(x) => re.matches(x, iface.name)
              case HasAddr(a) => HasHost(iface, a)
              case SsidIs(x) => x == iface.ssid
              case BssidIs(x) => x == iface.bssid
              case GatewayIs(x) => x in iface.gatewayMacs
  {
    if p.HasAddr? { AddrInExact(p.addr, iface); }
  }

  lemma SomeHolds(re: Regexp, iface: Interface, t: Trigger, p: Predicate)
    requires EntryOf(t, p) && Holds(re, iface, p)
    ensures TriggerHolds(re, iface, t, false)
  {
    PredicatesAre(t, p);
  }

  /** What OR asks, list by list. */
  lemma OrInWords(re: Regexp, iface: Interface, t: Trigger)
    ensures TriggerHolds(re, iface, t, false) <==> SomeEntryTrue(re, iface, t)
  {
    forall p | p in Predicates(t) && Holds(re, iface, p) ensures SomeEntryTrue(re, iface, t) {
      PredicatesAre(t, p);
      HoldsInWords(re, iface, p);
    }
    if iface.typ in t.types { SomeHolds(re, iface, t, TypeIs(iface.typ)); }
    if iface.name in t.names { SomeHolds(re, iface, t, NameIs(iface.name)); }
    forall p | p in t.regexps && re.matches(p, iface.name) ensures TriggerHolds(re, iface, t, false) {
      SomeHolds(re, iface, t, NameLike(p));
    }
    forall a | a in t.addrs && HasHost(iface, a) ensures TriggerHolds(re, iface, t, false) {
      HoldsInWords(re, iface, HasAddr(a));
      SomeHolds(re, iface, t, HasAddr(a));
    }
    if iface.ssid in t.ssids { SomeHolds(re, iface, t, SsidIs(iface.ssid)); }
    if iface.bssid in t.bssids { SomeHolds(re, iface, t, BssidIs(iface.bssid)); }
    forall mac | mac in t.gatewayMacs && mac in iface.gatewayMacs ensures TriggerHolds(re, iface, t, false) {
      SomeHolds(re, iface, t, GatewayIs(mac));
    }
  }

  /** What AND asks, list by list. */
  lemma AndInWords(re: Regexp, iface: Interface, t: Trigger)
    ensures TriggerHolds(re, iface, t, true) <==> EveryEntryTrue(re, iface, t)
  {
    EveryEntry(re, iface, t);
    forall a | a in t.addrs { AddrInExact(a, iface); }
  }

  /** `rulesetTriggerMatchesInterface`. A pattern that does not compile would make
      the program panic, so callers must exclude it. */
  method RulesetTriggerMatchesInterface(re: Regexp, iface: Interface, trigger: Trigger, matchAll: bool)
    returns (active: bool)
    requires forall p :: p in trigger.regexps ==> re.compiles(p)
    ensures active <==> TriggerHolds(re, iface, trigger, matchAll)
    ensures active <==> if matchAll then EveryEntryTrue(re, iface, trigger) else SomeEntryTrue(re, iface, trigger)
  {
    OrInWords(re, iface, trigger);
    AndInWords(re, iface, trigger);
    var total := PredicateCount(trigger);
    PredicatesLength(trigger);
    if total == 0 {
      return false;
    }
    var types := CountWhere(trigger.types, TypeTest(iface));
    var names := CountWhere(trigger.names, NameTest(iface));
    var regexps := CountWhere(trigger.regexps, PatternTest(re, iface));
    var addrs := CountWhere(trigger.addrs, AddrTest(iface));
    var ssids := CountWhere(trigger.ssids, SsidTest(iface));
    var bssids := CountWhere(trigger.bssids, BssidTest(iface));
    var macs := CountWhere(trigger.gatewayMacs, GatewayTest(iface));
    var matched := types + names + regexps + addrs + ssids + bssids + macs;
    CountsAddUp(re, iface, trigger);
    CountExact(Predicates(trigger), HoldsTest(re, iface));
    if matchAll {
      return matched == total;
    }
    return matched > 0;
  }

  // ---------- entries and groups ----------

  ghost predicate EveryIn<T>(s: seq<T>, test: T -> bool) {
    forall x :: x in s ==> test(x)
  }

  ghost predicate SomeIn<T>(s: seq<T>, test: T -> bool) {
    s == [] || exists x :: x in s && test(x)
  }

  /** The documented meaning of AND: some predicate is configured, and every list that
      has entries has one that holds. */
  ghost predicate GroupsHold(re: Regexp, iface: Interface, t: Trigger) {
    && PredicateCount(t) > 0
    && SomeIn(t.types, TypeTest(iface)) && SomeIn(t.names, NameTest(iface))
    && SomeIn(t.regexps, PatternTest(re, iface)) && SomeIn(t.addrs, AddrTest(iface))
    && SomeIn(t.ssids, SsidTest(iface)) && SomeIn(t.bssids, BssidTest(iface))
    && SomeIn(t.gatewayMacs, GatewayTest(iface))
  }

  ghost predicate AllSame<T>(s: seq<T>) {
    forall x, y :: x in s && y in s ==> x == y
  }

  ghost predicate SameAddrs(s: seq<Addr>) {
    forall a, b :: a in s && b in s ==> Unmap(a) == Unmap(b)
  }

  /** No list of the trigger holds two different entries. */
  ghost predicate OneEach(t: Trigger) {
    && AllSame(t.types) && AllSame(t.names) && AllSame(t.regexps) && SameAddrs(t.addrs)
    && AllSame(t.ssids) && AllSame(t.bssids) && AllSame(t.gatewayMacs)
  }

  lemma FullCount<T>(s: seq<T>, test: T -> bool)
    ensures Count(s, test) <= |s|
    ensures Count(s, test) == |s| <==> EveryIn(s, test)
  {
    CountExact(s, test);
  }

  /** Under AND every entry of every list must hold. */
  lemma EveryEntry(re: Regexp, iface: Interface, t: Trigger)
    ensures TriggerHolds(re, iface, t, true) <==>
              && PredicateCount(t) > 0
              && EveryIn(t.types, TypeTest(iface)) && EveryIn(t.names, NameTest(iface))
              && EveryIn(t.regexps, PatternTest(re, iface)) && EveryIn(t.addrs, AddrTest(iface))
              && EveryIn(t.ssids, SsidTest(iface)) && EveryIn(t.bssids, BssidTest(iface))
              && EveryIn(t.gatewayMacs, GatewayTest(iface))
  {
    CountsAddUp(re, iface, t);
    PredicatesLength(t);
    FullCount(Predicates(t), HoldsTest(re, iface));
    FullCount(t.types, TypeTest(iface));
    FullCount(t.names, NameTest(iface));
    FullCount(t.regexps, PatternTest(re, iface));
    FullCount(t.addrs, AddrTest(iface));
    FullCount(t.ssids, SsidTest(iface));
    FullCount(t.bssids, BssidTest(iface));
    FullCount(t.gatewayMacs, GatewayTest(iface));
  }

  lemma SameIsEnough<T>(s: seq<T>, test: T -> bool)
    requires forall x, y :: x in s && y in s ==> test(x) == test(y)
    ensures EveryIn(s, test) <==> SomeIn(s, test)
  {
    if s != [] {
      assert s[0] in s;
    }
  }

  lemma OneEachAgrees(re: Regexp, iface: Interface, t: Trigger)
    requires OneEach(t)
    ensures TriggerHolds(re, iface, t, true) <==> GroupsHold(re, iface, t)
  {
    EveryEntry(re, iface, t);
    SameIsEnough(t.types, TypeTest(iface));
    SameIsEnough(t.names, NameTest(iface));
    SameIsEnough(t.regexps, PatternTest(re, iface));
    SameIsEnough(t.addrs, AddrTest(iface));
    SameIsEnough(t.ssids, SsidTest(iface));
    SameIsEnough(t.bssids, BssidTest(iface));
    SameIsEnough(t.gatewayMacs, GatewayTest(iface));
  }

  function FirstOr<T>(s: seq<T>, other: T): T {
    if s == [] then other else s[0]
  }

  /** An interface that meets the first entry of every list. */
  function MeetsFirst(t: Trigger): Interface {
    Interface(0, FirstOr(t.names, ""), FirstOr(t.types, ""), Slice(t.addrs[..if t.addrs == [] then 0 else 1]),
              FirstOr(t.ssids, ""), FirstOr(t.bssids, ""), t.gatewayMacs[..if t.gatewayMacs == [] then 0 else 1])
  }

  /** Patterns that all match, but for one. */
  function AllBut(pattern: string): Regexp {
    Regexp(_ => true, (p, _) => p != pattern)
  }

  lemma FirstsHold(re: Regexp, t: Trigger)
    requires PredicateCount(t) > 0 && SomeIn(t.regexps, PatternTest(re, MeetsFirst(t)))
    ensures GroupsHold(re, MeetsFirst(t), t)
  {
    var iface := MeetsFirst(t);
    assert t.types != [] ==> t.types[0] in t.types && TypeTest(iface)(t.types[0]);
    assert t.names != [] ==> t.names[0] in t.names && NameTest(iface)(t.names[0]);
    assert t.addrs != [] ==> t.addrs[0] in t.addrs && iface.addrs.Elems()[0] == t.addrs[0];
    assert t.ssids != [] ==> t.ssids[0] in t.ssids && SsidTest(iface)(t.ssids[0]);
    assert t.bssids != [] ==> t.bssids[0] in t.bssids && BssidTest(iface)(t.bssids[0]);
    assert t.gatewayMacs != [] ==> t.gatewayMacs[0] in t.gatewayMacs && GatewayTest(iface)(t.gatewayMacs[0]);
  }

  lemma NotTheFirst<T>(s: seq<T>) returns (x: T)
    requires !AllSame(s)
    ensures x in s && x != s[0]
  {
    var a, b :| a in s && b in s && a != b;
    x := if a == s[0] then b else a;
  }

  lemma NotTheFirstAddr(s: seq<Addr>) returns (x: Addr)
    requires !SameAddrs(s)
    ensures x in s && Unmap(x) != Unmap(s[0])
  {
    var a, b :| a in s && b in s && Unmap(a) != Unmap(b);
    x := if Unmap(a) == Unmap(s[0]) then b else a;
  }

  /** Where two entries of a list differ, some interface tells entries from groups. */
  lemma TellApart(t: Trigger) returns (re: Regexp, iface: Interface)
    requires !OneEach(t)
    ensures GroupsHold(re, iface, t) && !TriggerHolds(re, iface, t, true)
  {
    iface := MeetsFirst(t);
    if !AllSame(t.regexps) {
      var x := NotTheFirst(t.regexps);
      re := AllBut(x);
      assert PatternTest(re, iface)(t.regexps[0]) && !PatternTest(re, iface)(x);
    } else {
      re := Regexp(_ => true, (_, _) => true);
      assert t.regexps != [] ==> PatternTest(re, iface)(t.regexps[0]);
    }
    FirstsHold(re, t);
    EveryEntry(re, iface, t);
    SomeEntryFails(re, t);
  }

  lemma SomeEntryFails(re: Regexp, t: Trigger)
    requires !OneEach(t) && (AllSame(t.regexps) || !EveryIn(t.regexps, PatternTest(re, MeetsFirst(t))))
    ensures var iface := MeetsFirst(t);
            || !EveryIn(t.types, TypeTest(iface)) || !EveryIn(t.names, NameTest(iface))
            || !EveryIn(t.regexps, PatternTest(re, iface)) || !EveryIn(t.addrs, AddrTest(iface))
            || !EveryIn(t.ssids, SsidTest(iface)) || !EveryIn(t.bssids, BssidTest(iface))
            || !EveryIn(t.gatewayMacs, GatewayTest(iface))
  {
    var iface := MeetsFirst(t);
    if !AllSame(t.types) {
      var x := NotTheFirst(t.types);
      assert !TypeTest(iface)(x);
    } else if !AllSame(t.names) {
      var x := NotTheFirst(t.names);
      assert !NameTest(iface)(x);
    } else if !SameAddrs(t.addrs) {
      var x := NotTheFirstAddr(t.addrs);
      assert !AddrTest(iface)(x);
    } else if !AllSame(t.ssids) {
      var x := NotTheFirst(t.ssids);
      assert !SsidTest(iface)(x);
    } else if !AllSame(t.bssids) {
      var x := NotTheFirst(t.bssids);
      assert !BssidTest(iface)(x);
    } else if !AllSame(t.gatewayMacs) {
      var x := NotTheFirst(t.gatewayMacs);
      assert !GatewayTest(iface)(x);
    }
  }

  /** The code counts entries where the documentation speaks of groups: the two agree
      on every interface exactly when no list of the trigger holds two different
      entries. */
  lemma AndMeansGroupsExactly(t: Trigger)
    ensures (forall re: Regexp, iface: Interface :: TriggerHolds(re, iface, t, true) <==> GroupsHold(re, iface, t)) <==>
              OneEach(t)
  {
    if OneEach(t) {
      forall re: Regexp, iface: Interface { OneEachAgrees(re, iface, t); }
    } else {
      var re, iface := TellApart(t);
    }
  }

  /** In particular, two different interface names in one trigger can never be met
      together. */
  lemma TwoNamesNeverMatch(re: Regexp, iface: Interface, t: Trigger, a: string, b: string)
    requires a in t.names && b in t.names && a != b
    ensures !TriggerHolds(re, iface, t, true)
  {
    EveryEntry(re, iface, t);
    assert !(NameTest(iface)(a) && NameTest(iface)(b));
  }

  // ---------- the join of contributors ----------

  ghost predicate SomeAllowAll(cs: seq<AllowRules>) { exists i :: 0 <= i < |cs| && cs[i].allowAll }
  ghost predicate SomeV4(cs: seq<AllowRules>) { exists i :: 0 <= i < |cs| && cs[i].enableV4 }
  ghost predicate SomeV6(cs: seq<AllowRules>) { exists i :: 0 <= i < |cs| && cs[i].enableV6 }
  ghost predicate SomeLists(cs: seq<AllowRules>, e: Entry) { exists i :: 0 <= i < |cs| && e in Entries(cs[i]) }

  /** `r` has exactly the flags and entries that some contributor has. */
  ghost predicate IsJoin(r: AllowRules, cs: seq<AllowRules>) {
    && (r.allowAll <==> SomeAllowAll(cs))
    && (r.enableV4 <==> SomeV4(cs))
    && (r.enableV6 <==> SomeV6(cs))
    && (forall e :: e in Entries(r) <==> SomeLists(cs, e))
  }

  lemma JoinSingle(r: AllowRules)
    ensures IsJoin(r, [r])
  {
    assert [r][0] == r;
  }

  lemma SomeExtend(cs: seq<AllowRules>, c: AllowRules)
    ensures SomeAllowAll(cs + [c]) <==> SomeAllowAll(cs) || c.allowAll
    ensures SomeV4(cs + [c]) <==> SomeV4(cs) || c.enableV4
    ensures SomeV6(cs + [c]) <==> SomeV6(cs) || c.enableV6
    ensures forall e :: SomeLists(cs + [c], e) <==> SomeLists(cs, e) || e in Entries(c)
  {
    var all := cs + [c];
    assert all[|cs|] == c;
    assert forall i :: 0 <= i < |cs| ==> all[i] == cs[i];
    forall e ensures SomeLists(all, e) <==> SomeLists(cs, e) || e in Entries(c) {
      if SomeLists(cs, e) {
        var i :| 0 <= i < |cs| && e in Entries(cs[i]);
        assert e in Entries(all[i]);
      }
    }
  }

  lemma JoinExtend(r: AllowRules, cs: seq<AllowRules>, c: AllowRules, merged: AllowRules)
    requires IsJoin(r, cs)
    requires merged.allowAll == (r.allowAll || c.allowAll)
    requires merged.enableV4 == (r.enableV4 || c.enableV4)
    requires merged.enableV6 == (r.enableV6 || c.enableV6)
    requires Entries(merged) == Entries(r) + Entries(c)
    ensures IsJoin(merged, cs + [c])
  {
    SomeExtend(cs, c);
  }

  lemma SomeMember(a: seq<AllowRules>, b: seq<AllowRules>)
    requires forall c :: c in a ==> c in b
    ensures SomeAllowAll(a) ==> SomeAllowAll(b)
    ensures SomeV4(a) ==> SomeV4(b)
    ensures SomeV6(a) ==> SomeV6(b)
    ensures forall e :: SomeLists(a, e) ==> SomeLists(b, e)
  {
    forall i | 0 <= i < |a| ensures exists j :: 0 <= j < |b| && b[j] == a[i] {
      assert a[i] in b;
    }
  }

  /** Permuting or repeating contributors does not change the effective rules. */
  lemma JoinOrderIndependent(r: AllowRules, cs: seq<AllowRules>, s: AllowRules, ds: seq<AllowRules>)
    requires IsJoin(r, cs) && Canonical(r) == r && IsJoin(s, ds) && Canonical(s) == s
    requires SameElements(cs, ds)
    ensures r == s
  {
    SomeMember(cs, ds);
    SomeMember(ds, cs);
    CanonicalEqualExact(r, s);
  }

  /** A packet passes under a join exactly when some contributor allows everything,
      or it is bootstrap traffic, or some contributor enables its family and some,
      possibly different, contributor lists it. */
  lemma JoinPassesExactly(r: AllowRules, cs: seq<AllowRules>, mark: u32, data: Bytes)
    requires IsJoin(r, cs)
    ensures Permits(RulesView(r), mark, data) <==>
              || SomeAllowAll(cs)
              || IsBootstrap(data)
              || exists f: Frame :: WellFormed(f) && Encode(f) == data &&
                                    (if f.packet.Ip4? then SomeV4(cs) else f.packet.Ip6? && SomeV6(cs)) &&
                                    SomeListsOneOf(cs, Matching(mark, f.packet))
  {
    PermitsByParse(RulesView(r), mark, data);
    forall f: Frame | WellFormed(f) && Encode(f) == data
      ensures Parse(data) == Some(f)
      ensures Listed(Entries(r), mark, f.packet) <==> SomeListsOneOf(cs, Matching(mark, f.packet))
    {
      ParseComplete(f);
      ListedByJoin(r, cs, Matching(mark, f.packet));
    }
    if Parse(data).Some? {
      ParseSound(data);
    }
  }

  ghost predicate SomeListsOneOf(cs: seq<AllowRules>, wanted: set<Entry>) {
    exists e :: e in wanted && SomeLists(cs, e)
  }

  lemma ListedByJoin(r: AllowRules, cs: seq<AllowRules>, wanted: set<Entry>)
    requires IsJoin(r, cs)
    ensures (exists e :: e in wanted && e in Entries(r)) <==> SomeListsOneOf(cs, wanted)
  {
  }

  /** Adding contributors never drops a passing packet. */
  lemma JoinMonotone(r: AllowRules, cs: seq<AllowRules>, s: AllowRules, ds: seq<AllowRules>, mark: u32, data: Bytes)
    requires IsJoin(r, cs) && IsJoin(s, ds)
    requires forall c :: c in cs ==> c in ds
    requires Permits(RulesView(r), mark, data)
    ensures Permits(RulesView(s), mark, data)
  {
    SomeMember(cs, ds);
    PermitsByParse(RulesView(r), mark, data);
    PermitsByParse(RulesView(s), mark, data);
    if Parse(data).Some? {
      var p := Parse(data).value.packet;
      if Listed(Entries(r), mark, p) {
        var e :| e in Matching(mark, p) && e in Entries(r);
        assert e in Entries(s);
      }
    }
  }

  // ---------- the program ----------

  function RulesOf(rulesets: seq<Ruleset>): seq<AllowRules> {
    Map(rulesets, (rs: Ruleset) => rs.rules)
  }

  function TemporaryRulesOf(tmp: seq<TemporaryRuleset>): seq<AllowRules> {
    Map(tmp, (t: TemporaryRuleset) => t.rules)
  }

  function ProxyRules(proxy: ProxyState): seq<AllowRules> {
    if proxy.running then [NO_RULES.(marks := [proxy.fwMark])] else []
  }

  /** Everyone who has a say about one interface, in program order. */
  function Contributors(base: AllowRules, active: seq<Ruleset>, forced: seq<Ruleset>, tmp: seq<TemporaryRuleset>,
                        proxy: ProxyState): seq<AllowRules> {
    [base] + RulesOf(active) + RulesOf(forced) + TemporaryRulesOf(tmp) + ProxyRules(proxy)
  }

  lemma GrowPrefix<T>(a: seq<T>, b: seq<T>, i: nat)
    requires i < |b|
    ensures a + b[..i] + [b[i]] == a + b[..i + 1]
  {
  }

  lemma WholePrefix<T>(a: seq<T>, b: seq<T>)
    ensures a + b[..0] == a && a + b[..|b|] == a + b
  {
  }

  method MergeNext(effective: AllowRules, ghost cs: seq<AllowRules>, c: AllowRules) returns (out: AllowRules)
    requires IsJoin(effective, cs)
    ensures IsJoin(out, cs + [c])
  {
    out := MergeAllowRules(effective, c);
    JoinExtend(effective, cs, c, out);
  }

  /** One accumulator loop: pairwise merges keep the accumulator the join of
      everything merged so far. */
  method MergeAll(start: AllowRules, ghost cs: seq<AllowRules>, more: seq<AllowRules>) returns (out: AllowRules)
    requires IsJoin(start, cs)
    ensures IsJoin(out, cs + more)
  {
    out := start;
    WholePrefix(cs, more);
    for i := 0 to |more|
      invariant IsJoin(out, cs + more[..i])
    {
      GrowPrefix(cs, more, i);
      out := MergeNext(out, cs + more[..i], more[i]);
    }
  }

  /** `effectiveAllowRules`: three loops of pairwise merges and the proxy's mark
      produce the canonical join of all contributors. */
  method EffectiveAllowRules(base: AllowRules, active: seq<Ruleset>, forced: seq<Ruleset>, tmp: seq<TemporaryRuleset>,
                             proxy: ProxyState)
    returns (effective: AllowRules)
    ensures IsJoin(effective, Contributors(base, active, forced, tmp, proxy))
    ensures Canonical(effective) == effective
  {
    JoinSingle(base);
    effective := MergeAll(base, [base], RulesOf(active));
    effective := MergeAll(effective, [base] + RulesOf(active), RulesOf(forced));
    effective := MergeAll(effective, [base] + RulesOf(active) + RulesOf(forced), TemporaryRulesOf(tmp));
    effective := MergeAll(effective, [base] + RulesOf(active) + RulesOf(forced) + TemporaryRulesOf(tmp),
                          ProxyRules(proxy));
    ghost var joined := effective;
    effective := CanonicalAllowRules(effective);
    CanonicalEntries(joined);
    CanonicalIdempotent(joined);
  }

  /** `findRuleset`: the first ruleset with that name, or -1. */
  method FindRuleset(rulesets: seq<Ruleset>, name: string) returns (index: int)
    ensures index == FirstNamed(rulesets, name)
  {
    for i := 0 to |rulesets|
      invariant forall k :: 0 <= k < i ==> rulesets[k].name != name
    {
      if rulesets[i].name == name {
        FirstNamedAt(rulesets, name, i);
        return i;
      }
    }
    FirstNamedAbsent(rulesets, name);
    return -1;
  }

  function FirstNamed(rulesets: seq<Ruleset>, name: string): (index: int)
    ensures -1 <= index < |rulesets|
    ensures index >= 0 ==> rulesets[index].name == name
    ensures index < 0 <==> forall k :: 0 <= k < |rulesets| ==> rulesets[k].name != name
  {
    if rulesets == [] then -1
    else if rulesets[0].name == name then 0
    else
      var rest := FirstNamed(rulesets[1..], name);
      assert forall k :: 1 <= k < |rulesets| ==> rulesets[k] == rulesets[1..][k - 1];
      if rest < 0 then -1 else rest + 1
  }

  lemma {:induction false} FirstNamedAt(rulesets: seq<Ruleset>, name: string, i: nat)
    requires i < |rulesets| && rulesets[i].name == name
    requires forall k :: 0 <= k < i ==> rulesets[k].name != name
    ensures FirstNamed(rulesets, name) == i
  {
    if i > 0 {
      FirstNamedAt(rulesets[1..], name, i - 1);
    }
  }

  lemma FirstNamedAbsent(rulesets: seq<Ruleset>, name: string)
    requires forall k :: 0 <= k < |rulesets| ==> rulesets[k].name != name
    ensures FirstNamed(rulesets, name) == -1
  {
  }

  /** The enabled rulesets whose trigger holds, in order. */
  ghost function ActiveFor(re: Regexp, iface: Interface, rulesets: seq<Ruleset>): seq<Ruleset> {
    if rulesets == [] then []
    else
      var last := rulesets[|rulesets| - 1];
      ActiveFor(re, iface, rulesets[..|rulesets| - 1]) +
      if !last.disabled && TriggerHolds(re, iface, last.trigger, last.matchAll) then [last] else []
  }

  ghost predicate TriggersCompile(re: Regexp, rulesets: seq<Ruleset>) {
    forall i, p :: 0 <= i < |rulesets| && p in rulesets[i].trigger.regexps ==> re.compiles(p)
  }

  method ActiveRulesetsForInterface(re: Regexp, iface: Interface, rulesets: seq<Ruleset>) returns (out: seq<Ruleset>)
    requires TriggersCompile(re, rulesets)
    ensures out == ActiveFor(re, iface, rulesets)
  {
    out := [];
    for i := 0 to |rulesets|
      invariant out == ActiveFor(re, iface, rulesets[..i])
    {
      assert rulesets[..i + 1][..i] == rulesets[..i];
      if !rulesets[i].disabled {
        var active := RulesetTriggerMatchesInterface(re, iface, rulesets[i].trigger, rulesets[i].matchAll);
        if active {
          out := out + [rulesets[i]];
        }
      }
    }
    assert rulesets[..|rulesets|] == rulesets;
  }

  /** The rulesets forced on an interface, in the order of the forced list. */
  function ForcedFor(rulesets: seq<Ruleset>, forced: seq<ForceRuleset>, iface: string): seq<Ruleset> {
    if forced == [] then []
    else
      var last := forced[|forced| - 1];
      var at := FirstNamed(rulesets, last.name);
      ForcedFor(rulesets, forced[..|forced| - 1], iface) +
      if iface in last.interfaces && at >= 0 then [rulesets[at]] else []
  }

  method ForcedRulesetsForInterface(rulesets: seq<Ruleset>, forced: seq<ForceRuleset>, iface: string)
    returns (out: seq<Ruleset>)
    ensures out == ForcedFor(rulesets, forced, iface)
  {
    out := [];
    for i := 0 to |forced|
      invariant out == ForcedFor(rulesets, forced[..i], iface)
    {
      assert forced[..i + 1][..i] == forced[..i];
      if iface in forced[i].interfaces {
        var idx := FindRuleset(rulesets, forced[i].name);
        if idx >= 0 {
          out := out + [rulesets[idx]];
        }
      }
    }
    assert forced[..|forced|] == forced;
  }

  /** A ruleset is forced on an interface exactly when it is the one a forced name
      resolves to and the forced entry lists the interface. */
  lemma {:induction false} ForcedForExact(rulesets: seq<Ruleset>, forced: seq<ForceRuleset>, iface: string, rs: Ruleset)
    ensures rs in ForcedFor(rulesets, forced, iface) <==>
              exists k :: 0 <= k < |forced| && iface in forced[k].interfaces &&
                          FirstNamed(rulesets, forced[k].name) >= 0 &&
                          rulesets[FirstNamed(rulesets, forced[k].name)] == rs
  {
    if forced != [] {
      var init := forced[..|forced| - 1];
      ForcedForExact(rulesets, init, iface, rs);
      assert forall k :: 0 <= k < |init| ==> init[k] == forced[k];
    }
  }

  function TemporaryFor(tmp: seq<TemporaryRuleset>, iface: string): seq<TemporaryRuleset> {
    if tmp == [] then []
    else
      var last := tmp[|tmp| - 1];
      TemporaryFor(tmp[..|tmp| - 1], iface) + if iface in last.interfaces then [last] else []
  }

  method TemporaryRulesetsForInterface(tmp: seq<TemporaryRuleset>, iface: string) returns (out: seq<TemporaryRuleset>)
    ensures out == TemporaryFor(tmp, iface)
  {
    out := [];
    for i := 0 to |tmp|
      invariant out == TemporaryFor(tmp[..i], iface)
    {
      assert tmp[..i + 1][..i] == tmp[..i];
      if iface in tmp[i].interfaces {
        out := out + [tmp[i]];
      }
    }
    assert tmp[..|tmp|] == tmp;
  }

  datatype InterfacePolicy = InterfacePolicy(info: Interface, rules: AllowRules)

  /** Everyone who has a say about `iface` under these inputs. */
  ghost function ContributorsFor(re: Regexp, iface: Interface, base: AllowRules, rulesets: seq<Ruleset>,
                                 tmp: seq<TemporaryRuleset>, forced: seq<ForceRuleset>,
                                 proxy: ProxyState): seq<AllowRules> {
    Contributors(base, ActiveFor(re, iface, rulesets), ForcedFor(rulesets, forced, iface.name),
                 TemporaryFor(tmp, iface.name), proxy)
  }

  ghost predicate IsEffective(p: InterfacePolicy, cs: seq<AllowRules>) {
    IsJoin(p.rules, cs) && Canonical(p.rules) == p.rules
  }

  ghost predicate DistinctIndexes(ifaces: seq<Interface>) {
    forall i, j :: 0 <= i < j < |ifaces| ==> ifaces[i].index != ifaces[j].index
  }

  /** The rules of one interface: one turn of the loop below. */
  method EffectiveRulesFor(re: Regexp, iface: Interface, base: AllowRules, rulesets: seq<Ruleset>,
                           tmp: seq<TemporaryRuleset>, forced: seq<ForceRuleset>, proxy: ProxyState)
    returns (rules: AllowRules)
    requires TriggersCompile(re, rulesets)
    ensures IsEffective(InterfacePolicy(iface, rules), ContributorsFor(re, iface, base, rulesets, tmp, forced, proxy))
  {
    var active := ActiveRulesetsForInterface(re, iface, rulesets);
    var forcedHere := ForcedRulesetsForInterface(rulesets, forced, iface.name);
    var tmpHere := TemporaryRulesetsForInterface(tmp, iface.name);
    rules := EffectiveAllowRules(base, active, forcedHere, tmpHere, proxy);
  }

  /** `effectivePoliciesForInterfaces`. */
  method EffectivePoliciesForInterfaces(re: Regexp, ifaces: seq<Interface>, base: AllowRules, rulesets: seq<Ruleset>,
                                        tmp: seq<TemporaryRuleset>, forced: seq<ForceRuleset>, proxy: ProxyState)
    returns (out: map<u32, InterfacePolicy>)
    requires TriggersCompile(re, rulesets) && DistinctIndexes(ifaces)
    ensures forall i :: i in out <==> exists k :: 0 <= k < |ifaces| && ifaces[k].index == i
    ensures forall k :: 0 <= k < |ifaces| ==>
              var i := ifaces[k].index;
              && i in out && out[i].info == ifaces[k]
              && IsEffective(out[i], ContributorsFor(re, ifaces[k], base, rulesets, tmp, forced, proxy))
  {
    out := map[];
    for n := 0 to |ifaces|
      invariant forall i :: i in out <==> exists k :: 0 <= k < n && ifaces[k].index == i
      invariant forall k :: 0 <= k < n ==>
                  var i := ifaces[k].index;
                  && i in out && out[i].info == ifaces[k]
                  && IsEffective(out[i], ContributorsFor(re, ifaces[k], base, rulesets, tmp, forced, proxy))
    {
      var iface := ifaces[n];
      var rules := EffectiveRulesFor(re, iface, base, rulesets, tmp, forced, proxy);
      out := out[iface.index := InterfacePolicy(iface, rules)];
    }
  }
}
