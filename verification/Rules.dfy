/** Allow rules, their key orders, and the canonical form of a rule set
    (cmd/killswitch/types.go, cmd/killswitch/bpf_maps.go).

    Ports are kept as the program keeps them, in network byte order. The reserved
    fields of the Go keys are never set by any code and are left out here; they
    reappear as zero bytes in module Abi. */
module Rules {
  import opened Words
  import opened Orders

  datatype PortKey = PortKey(dport: u16, protocol: byte)
  datatype HostPort4 = HostPort4(daddr: u32, dport: u16, protocol: byte)
  datatype HostPort6 = HostPort6(daddr6: Addr6, dport: u16, protocol: byte)

  datatype AllowRules = AllowRules(
    allowAll: bool,
    enableV4: bool,
    enableV6: bool,
    marks: seq<u32>,
    ports: seq<PortKey>,
    v4Hosts: seq<u32>,
    v6Hosts: seq<Addr6>,
    v4Pairs: seq<HostPort4>,
    v6Pairs: seq<HostPort6>)

  /** One key of one of the six allow tables; the constructor names the table. */
  datatype Entry =
    | Mark(mark: u32)
    | Port(port: PortKey)
    | V4Host(host4: u32)
    | V6Host(host6: Addr6)
    | V4Pair(pair4: HostPort4)
    | V6Pair(pair6: HostPort6)

  const NO_RULES := AllowRules(false, false, false, [], [], [], [], [], [])

  /** Everything a rule set lists, over all six tables. */
  ghost function Entries(r: AllowRules): set<Entry> {
    (set m | m in r.marks :: Mark(m)) +
    (set p | p in r.ports :: Port(p)) +
    (set h | h in r.v4Hosts :: V4Host(h)) +
    (set h | h in r.v6Hosts :: V6Host(h)) +
    (set p | p in r.v4Pairs :: V4Pair(p)) +
    (set p | p in r.v6Pairs :: V6Pair(p))
  }

  ghost predicate Lists(r: AllowRules, e: Entry) {
    match e
    case Mark(m) => m in r.marks
    case Port(p) => p in r.ports
    case V4Host(h) => h in r.v4Hosts
    case V6Host(h) => h in r.v6Hosts
    case V4Pair(p) => p in r.v4Pairs
    case V6Pair(p) => p in r.v6Pairs
  }

  lemma EntriesByTable(r: AllowRules)
    ensures forall e :: e in Entries(r) <==> Lists(r, e)
  {
  }

  // The six key orders. Marks and IPv4 hosts share the order on numbers.

  predicate U32Less(a: u32, b: u32) {
    a < b
  }

  predicate PortLess(a: PortKey, b: PortKey) {
    if a.protocol != b.protocol then a.protocol < b.protocol else a.dport < b.dport
  }

  predicate Addr6Less(a: Addr6, b: Addr6) {
    LexLess(a, b)
  }

  predicate HostPort4Less(a: HostPort4, b: HostPort4) {
    if a.protocol != b.protocol then a.protocol < b.protocol
    else if a.daddr != b.daddr then a.daddr < b.daddr
    else a.dport < b.dport
  }

  predicate HostPort6Less(a: HostPort6, b: HostPort6) {
    if a.protocol != b.protocol then a.protocol < b.protocol
    else if a.daddr6 != b.daddr6 then Addr6Less(a.daddr6, b.daddr6)
    else a.dport < b.dport
  }

  lemma Addr6LessTotal()
    ensures StrictTotal(Addr6Less)
  {
    forall a: Addr6 ensures !Addr6Less(a, a) { LexIrreflexive(a); }
    forall a: Addr6, b: Addr6, c: Addr6 | Addr6Less(a, b) && Addr6Less(b, c) ensures Addr6Less(a, c) {
      LexTransitive(a, b, c);
    }
    forall a: Addr6, b: Addr6 | a != b ensures Addr6Less(a, b) || Addr6Less(b, a) { LexTotal(a, b); }
  }

  lemma HostPort6LessTotal()
    ensures StrictTotal(HostPort6Less)
  {
    Addr6LessTotal();
    forall a, b, c | HostPort6Less(a, b) && HostPort6Less(b, c) ensures HostPort6Less(a, c) {
      assert !Addr6Less(a.daddr6, a.daddr6);
      assert Addr6Less(a.daddr6, b.daddr6) && Addr6Less(b.daddr6, c.daddr6) ==> Addr6Less(a.daddr6, c.daddr6);
    }
  }

  /** Every key order is a strict total order, so sorting leaves nothing to chance. */
  lemma KeyOrdersTotal()
    ensures StrictTotal(U32Less) && StrictTotal(PortLess) && StrictTotal(Addr6Less)
    ensures StrictTotal(HostPort4Less) && StrictTotal(HostPort6Less)
  {
    Addr6LessTotal();
    HostPort6LessTotal();
  }

  /** The canonical form as a value: each list sorted and without repetitions. */
  function Canonical(r: AllowRules): AllowRules {
    r.(marks := Canon(U32Less, r.marks),
       ports := Canon(PortLess, r.ports),
       v4Hosts := Canon(U32Less, r.v4Hosts),
       v6Hosts := Canon(Addr6Less, r.v6Hosts),
       v4Pairs := Canon(HostPort4Less, r.v4Pairs),
       v6Pairs := Canon(HostPort6Less, r.v6Pairs))
  }

  ghost predicate SameFlags(a: AllowRules, b: AllowRules) {
    a.allowAll == b.allowAll && a.enableV4 == b.enableV4 && a.enableV6 == b.enableV6
  }

  lemma CanonicalEntries(r: AllowRules)
    ensures Entries(Canonical(r)) == Entries(r) && SameFlags(r, Canonical(r))
  {
    KeyOrdersTotal();
    forall e ensures Lists(Canonical(r), e) <==> Lists(r, e) {
      match e
      case Mark(_) => CanonIncreasing(U32Less, r.marks);
      case Port(_) => CanonIncreasing(PortLess, r.ports);
      case V4Host(_) => CanonIncreasing(U32Less, r.v4Hosts);
      case V6Host(_) => CanonIncreasing(Addr6Less, r.v6Hosts);
      case V4Pair(_) => CanonIncreasing(HostPort4Less, r.v4Pairs);
      case V6Pair(_) => CanonIncreasing(HostPort6Less, r.v6Pairs);
    }
    EntriesByTable(r);
    EntriesByTable(Canonical(r));
  }

  lemma SameLists(a: AllowRules, b: AllowRules)
    requires forall e :: Lists(a, e) <==> Lists(b, e)
    ensures SameElements(a.marks, b.marks) && SameElements(a.ports, b.ports)
    ensures SameElements(a.v4Hosts, b.v4Hosts) && SameElements(a.v6Hosts, b.v6Hosts)
    ensures SameElements(a.v4Pairs, b.v4Pairs) && SameElements(a.v6Pairs, b.v6Pairs)
  {
    forall x: u32 ensures x in a.marks <==> x in b.marks { assert Lists(a, Mark(x)) <==> Lists(b, Mark(x)); }
    forall x ensures x in a.ports <==> x in b.ports { assert Lists(a, Port(x)) <==> Lists(b, Port(x)); }
    forall x: u32 ensures x in a.v4Hosts <==> x in b.v4Hosts { assert Lists(a, V4Host(x)) <==> Lists(b, V4Host(x)); }
    forall x: Addr6 ensures x in a.v6Hosts <==> x in b.v6Hosts { assert Lists(a, V6Host(x)) <==> Lists(b, V6Host(x)); }
    forall x ensures x in a.v4Pairs <==> x in b.v4Pairs { assert Lists(a, V4Pair(x)) <==> Lists(b, V4Pair(x)); }
    forall x ensures x in a.v6Pairs <==> x in b.v6Pairs { assert Lists(a, V6Pair(x)) <==> Lists(b, V6Pair(x)); }
  }

  lemma SameEntriesSameCanonical(a: AllowRules, b: AllowRules)
    requires SameFlags(a, b) && Entries(a) == Entries(b)
    ensures Canonical(a) == Canonical(b)
  {
    EntriesByTable(a);
    EntriesByTable(b);
    SameLists(a, b);
    KeyOrdersTotal();
    CanonEqualExact(U32Less, a.marks, b.marks);
    CanonEqualExact(PortLess, a.ports, b.ports);
    CanonEqualExact(U32Less, a.v4Hosts, b.v4Hosts);
    CanonEqualExact(Addr6Less, a.v6Hosts, b.v6Hosts);
    CanonEqualExact(HostPort4Less, a.v4Pairs, b.v4Pairs);
    CanonEqualExact(HostPort6Less, a.v6Pairs, b.v6Pairs);
  }

  /** Canonical forms coincide exactly when the flags agree and the six lists
      agree as sets. */
  lemma CanonicalEqualExact(a: AllowRules, b: AllowRules)
    ensures Canonical(a) == Canonical(b) <==> SameFlags(a, b) && Entries(a) == Entries(b)
  {
    CanonicalEntries(a);
    CanonicalEntries(b);
    if SameFlags(a, b) && Entries(a) == Entries(b) {
      SameEntriesSameCanonical(a, b);
    }
  }

  lemma CanonicalIdempotent(r: AllowRules)
    ensures Canonical(Canonical(r)) == Canonical(r)
  {
    CanonicalEntries(r);
    CanonicalEqualExact(Canonical(r), r);
  }

  /** `canonicalAllowRules`: six in-place sort-and-compact passes. */
  method CanonicalAllowRules(rules: AllowRules) returns (out: AllowRules)
    ensures out == Canonical(rules)
  {
    KeyOrdersTotal();
    var marks := UniqueSorted(rules.marks, U32Less);
    var ports := UniqueSorted(rules.ports, PortLess);
    var v4Hosts := UniqueSorted(rules.v4Hosts, U32Less);
    var v6Hosts := UniqueSorted(rules.v6Hosts, Addr6Less);
    var v4Pairs := UniqueSorted(rules.v4Pairs, HostPort4Less);
    var v6Pairs := UniqueSorted(rules.v6Pairs, HostPort6Less);
    out := rules.(marks := marks, ports := ports, v4Hosts := v4Hosts,
                  v6Hosts := v6Hosts, v4Pairs := v4Pairs, v6Pairs := v6Pairs);
  }

  /** `allowRulesEqual` compares canonical forms; it decides set agreement. */
  method AllowRulesEqual(a: AllowRules, b: AllowRules) returns (equal: bool)
    ensures equal <==> SameFlags(a, b) && Entries(a) == Entries(b)
  {
    var ca := CanonicalAllowRules(a);
    var cb := CanonicalAllowRules(b);
    CanonicalEqualExact(a, b);
    equal := ca == cb;
  }

  function Concatenated(base: AllowRules, overlay: AllowRules): AllowRules {
    AllowRules(
      base.allowAll || overlay.allowAll,
      base.enableV4 || overlay.enableV4,
      base.enableV6 || overlay.enableV6,
      base.marks + overlay.marks,
      base.ports + overlay.ports,
      base.v4Hosts + overlay.v4Hosts,
      base.v6Hosts + overlay.v6Hosts,
      base.v4Pairs + overlay.v4Pairs,
      base.v6Pairs + overlay.v6Pairs)
  }

  lemma ConcatenatedEntries(base: AllowRules, overlay: AllowRules)
    ensures Entries(Concatenated(base, overlay)) == Entries(base) + Entries(overlay)
  {
    EntriesByTable(base);
    EntriesByTable(overlay);
    EntriesByTable(Concatenated(base, overlay));
    forall e ensures Lists(Concatenated(base, overlay), e) <==> Lists(base, e) || Lists(overlay, e) {}
  }

  /** `mergeAllowRules`: the canonical union of two rule sets. */
  method MergeAllowRules(base: AllowRules, overlay: AllowRules) returns (out: AllowRules)
    ensures out.allowAll == (base.allowAll || overlay.allowAll)
    ensures out.enableV4 == (base.enableV4 || overlay.enableV4)
    ensures out.enableV6 == (base.enableV6 || overlay.enableV6)
    ensures Entries(out) == Entries(base) + Entries(overlay)
    ensures Canonical(out) == out
  {
    out := CanonicalAllowRules(Concatenated(base, overlay));
    CanonicalEntries(Concatenated(base, overlay));
    ConcatenatedEntries(base, overlay);
    CanonicalIdempotent(Concatenated(base, overlay));
  }
}
