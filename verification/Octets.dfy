/** The verdict in numbers: which octet strings the filter passes, said with octet
    positions and literal values alone (cmd/killswitch/killswitch.c:287-364,
    376-564). No name of the frame grammar, of its constants or of the bootstrap
    decision occurs in what the lemmas at the end promise. */
module Octets {
  import opened Words
  import opened Rules
  import opened Frames
  import opened Filter
  import opened Kernel
  import opened Decisions
  import opened RuleText
  import opened Spelling
  import opened TextToPacket

  // ---------- positions ----------

  /** A VLAN tag follows the two addresses. */
  predicate HasTag(d: Bytes)
    requires |d| >= 14
  {
    (d[12] == 0x81 && d[13] == 0x00) || (d[12] == 0x88 && d[13] == 0xA8)
  }

  /** Where the network header starts. */
  function NetworkAt(d: Bytes): nat
    requires |d| >= 14
  {
    if HasTag(d) then 18 else 14
  }

  /** The two octets in front of the network header are `hi` and `lo`. */
  predicate Carries(d: Bytes, hi: byte, lo: byte) {
    |d| >= 14 && |d| >= NetworkAt(d) && d[NetworkAt(d) - 2] == hi && d[NetworkAt(d) - 1] == lo
  }

  predicate ArpForm(d: Bytes) {
    Carries(d, 0x08, 0x06)
  }

  /** Version 4, five to fifteen words that are all there, and no fragment. */
  predicate Ip4Head(d: Bytes) {
    Carries(d, 0x08, 0x00) &&
    var n := NetworkAt(d);
    && |d| >= n + 20 && 0x45 <= d[n] <= 0x4F && |d| >= n + 4 * (d[n] - 0x40)
    && d[n + 6] % 0x40 == 0 && d[n + 7] == 0
  }

  predicate Ip6Head(d: Bytes) {
    Carries(d, 0x86, 0xDD) &&
    var n := NetworkAt(d);
    |d| >= n + 40 && 0x60 <= d[n] <= 0x6F
  }

  function Protocol4(d: Bytes): byte
    requires Ip4Head(d)
  {
    d[NetworkAt(d) + 9]
  }

  function Protocol6(d: Bytes): byte
    requires Ip6Head(d)
  {
    d[NetworkAt(d) + 6]
  }

  function Transport4(d: Bytes): nat
    requires Ip4Head(d)
  {
    NetworkAt(d) + 4 * (d[NetworkAt(d)] - 0x40)
  }

  function Transport6(d: Bytes): nat
    requires Ip6Head(d)
  {
    NetworkAt(d) + 40
  }

  /** An IPv4 frame the filter judges: UDP has its eight octets, TCP its ports. */
  predicate Ip4Form(d: Bytes) {
    && Ip4Head(d)
    && (Protocol4(d) == 17 ==> |d| >= Transport4(d) + 8)
    && (Protocol4(d) == 6 ==> |d| >= Transport4(d) + 4)
  }

  /** An IPv6 frame the filter judges: nothing but UDP, TCP and ICMPv6. */
  predicate Ip6Form(d: Bytes) {
    && Ip6Head(d)
    && (|| (Protocol6(d) == 17 && |d| >= Transport6(d) + 8)
        || (Protocol6(d) == 6 && |d| >= Transport6(d) + 4)
        || (Protocol6(d) == 58 && |d| >= Transport6(d) + 4))
  }

  /** The number two octets spell on the wire, the more significant one first. */
  function Wire(d: Bytes, at: nat): u16
    requires at + 2 <= |d|
  {
    0x100 * (d[at] as int) + d[at + 1]
  }

  // ---------- the bootstrap forms ----------

  predicate Dhcp4Form(d: Bytes) {
    Ip4Form(d) && Protocol4(d) == 17 && Wire(d, Transport4(d)) in {67, 68} && Wire(d, Transport4(d) + 2) in {67, 68}
  }

  predicate Dhcp6Form(d: Bytes) {
    && Ip6Form(d) && Protocol6(d) == 17
    && Wire(d, Transport6(d)) in {546, 547} && Wire(d, Transport6(d) + 2) in {546, 547}
  }

  predicate NeighbourForm(d: Bytes) {
    Ip6Form(d) && Protocol6(d) == 58 && d[Transport6(d)] in {133, 134, 135, 136}
  }

  predicate BootstrapForm(d: Bytes) {
    ArpForm(d) || Dhcp4Form(d) || Dhcp6Form(d) || NeighbourForm(d)
  }

  // ---------- what the recogniser finds at those positions ----------

  function PacketOf(d: Bytes): Option<Packet> {
    match Parse(d)
    case None => None
    case Some(f) => Some(f.packet)
  }

  lemma BranchOf(d: Bytes)
    ensures PacketOf(d).Some? ==>
              |d| >= 14 && |d| >= NetworkAt(d) && (Parse(d).value.tag.Some? <==> HasTag(d)) &&
              PacketOf(d) == ParsePacket(Be16(d, NetworkAt(d) - 2), d[NetworkAt(d)..])
    ensures |d| >= 14 && |d| >= NetworkAt(d) ==>
              PacketOf(d) == ParsePacket(Be16(d, NetworkAt(d) - 2), d[NetworkAt(d)..])
  {
  }

  lemma FoundArp(d: Bytes)
    ensures PacketOf(d).Some? && PacketOf(d).value.Arp? <==> ArpForm(d)
  {
    BranchOf(d);
  }

  /** The IPv4 recogniser on the octets from the network header on. */
  lemma RecognisedIp4(b: Bytes)
    ensures Ip4HeaderOk(b) <==>
              |b| >= 20 && 0x45 <= b[0] <= 0x4F && |b| >= 4 * (b[0] - 0x40) && b[6] % 0x40 == 0 && b[7] == 0
    ensures Ip4HeaderOk(b) ==> b[0] % 16 * 4 == 4 * (b[0] - 0x40)
  {
    if |b| >= 20 {
      assert Be16(b, 6) % 0x4000 == 0x100 * ((b[6] % 0x40) as int) + b[7];
    }
  }

  lemma FoundTransport4(d: Bytes, p: Packet)
    requires Ip4Head(d) && PacketOf(d) == Some(p) && p.Ip4?
    requires ParseTransport4(Protocol4(d), d[Transport4(d)..]) == Some(p.payload)
    ensures Ip4Form(d) && Protocol(p.payload) == Protocol4(d)
    ensures (p.payload.Udp? <==> Protocol4(d) == 17) && (p.payload.Tcp? <==> Protocol4(d) == 6)
    ensures p.payload.Udp? || p.payload.Tcp? ==>
              p.payload.source == Wire(d, Transport4(d)) && p.payload.dest == Wire(d, Transport4(d) + 2)
  {
  }

  lemma FoundIp4(d: Bytes)
    ensures PacketOf(d).Some? && PacketOf(d).value.Ip4? <==> Ip4Form(d)
    ensures Ip4Form(d) ==>
              var p, n := PacketOf(d).value, NetworkAt(d);
              && p.dest4 == d[n + 16..n + 20] && Protocol(p.payload) == Protocol4(d)
              && (p.payload.Udp? <==> Protocol4(d) == 17) && (p.payload.Tcp? <==> Protocol4(d) == 6)
              && (p.payload.Udp? || p.payload.Tcp? ==>
                    p.payload.source == Wire(d, Transport4(d)) && p.payload.dest == Wire(d, Transport4(d) + 2))
  {
    BranchOf(d);
    if Carries(d, 0x08, 0x00) {
      var n := NetworkAt(d);
      var b := d[n..];
      assert PacketOf(d) == ParseIp4(b);
      RecognisedIp4(b);
      assert Ip4HeaderOk(b) <==> Ip4Head(d);
      if Ip4Head(d) {
        assert b[b[0] % 16 * 4..] == d[Transport4(d)..];
        assert b[16..20] == d[n + 16..n + 20];
        if PacketOf(d).Some? {
          FoundTransport4(d, PacketOf(d).value);
        }
      }
    }
  }

  lemma FoundIp6(d: Bytes)
    ensures PacketOf(d).Some? && PacketOf(d).value.Ip6? <==> Ip6Form(d)
    ensures Ip6Form(d) ==>
              var p, n := PacketOf(d).value, NetworkAt(d);
              && p.dest6 == d[n + 24..n + 40] && Protocol(p.payload) == Protocol6(d)
              && (p.payload.Udp? <==> Protocol6(d) == 17) && (p.payload.Tcp? <==> Protocol6(d) == 6)
              && (p.payload.Icmp6? <==> Protocol6(d) == 58)
              && (p.payload.Icmp6? ==> p.payload.kind == d[Transport6(d)])
              && (p.payload.Udp? || p.payload.Tcp? ==>
                    p.payload.source == Wire(d, Transport6(d)) && p.payload.dest == Wire(d, Transport6(d) + 2))
  {
    BranchOf(d);
    if Carries(d, 0x86, 0xDD) {
      var n := NetworkAt(d);
      var b := d[n..];
      assert PacketOf(d) == ParseIp6(b);
      if Ip6Head(d) {
        assert b[40..] == d[Transport6(d)..];
        assert b[24..40] == d[n + 24..n + 40];
      }
    }
  }

  // ---------- the verdict ----------

  /** Bootstrap traffic is one of four octet forms, and nothing else. */
  lemma BootstrapInOctets(d: Bytes)
    ensures IsBootstrap(d) <==> BootstrapForm(d)
  {
    PermitsByParse(View(None, {}), 0, d);
    FoundArp(d);
    FoundIp4(d);
    FoundIp6(d);
  }

  /** The event of a frame that is judged on its own account: none unless it is
      bootstrap traffic, and then its form, its tag and its EtherType. */
  lemma EventInOctets(d: Bytes)
    ensures EventFor(Parse(d)) ==
            if ArpForm(d) then Some(Event(ArpReason, if HasTag(d) then 1 else 0, 0x0806))
            else if Dhcp4Form(d) then Some(Event(Dhcp4Reason, if HasTag(d) then 1 else 0, 0x0800))
            else if Dhcp6Form(d) then Some(Event(Dhcp6Reason, if HasTag(d) then 1 else 0, 0x86DD))
            else if NeighbourForm(d) then Some(Event(NeighbourReason, if HasTag(d) then 1 else 0, 0x86DD))
            else None
  {
    BranchOf(d);
    FoundArp(d);
    FoundIp4(d);
    FoundIp6(d);
  }

  /** The numbers a little-endian processor loads from two and from four octets,
      written out so that what follows rests on no other module's reading of them. */
  function Loaded2(d: Bytes, at: nat): u16
    requires at + 2 <= |d|
  {
    d[at] + 0x100 * (d[at + 1] as int)
  }

  function Loaded4(d: Bytes, at: nat): u32
    requires at + 4 <= |d|
  {
    d[at] + 0x100 * (d[at + 1] as int) + 0x1_0000 * (d[at + 2] as int) + 0x100_0000 * (d[at + 3] as int)
  }

  lemma LoadedPort(port: u16, d: Bytes, at: nat)
    requires at + 2 <= |d| && port == Wire(d, at)
    ensures Htons(port) == Loaded2(d, at)
  {
    NativeLoadIsHtons(d, at);
  }

  lemma MatchingIp4(mark: u32, d: Bytes)
    requires Ip4Form(d)
    ensures PacketOf(d).Some? && PacketOf(d).value.Ip4?
    ensures var host, at, protocol := Loaded4(d, NetworkAt(d) + 16), Transport4(d), Protocol4(d);
            Matching(mark, PacketOf(d).value) ==
            {Mark(mark), V4Host(host)} +
            (if protocol == 17 || protocol == 6 then
               {Port(PortKey(Loaded2(d, at + 2), protocol)), V4Pair(HostPort4(host, Loaded2(d, at + 2), protocol))}
             else {})
  {
    FoundIp4(d);
    assert Ipv4Key(PacketOf(d).value.dest4) == Loaded4(d, NetworkAt(d) + 16);
    if Protocol4(d) == 17 || Protocol4(d) == 6 {
      LoadedPort(PacketOf(d).value.payload.dest, d, Transport4(d) + 2);
    }
  }

  lemma MatchingIp6(mark: u32, d: Bytes)
    requires Ip6Form(d)
    ensures PacketOf(d).Some? && PacketOf(d).value.Ip6?
    ensures var n, at, protocol := NetworkAt(d), Transport6(d), Protocol6(d);
            Matching(mark, PacketOf(d).value) ==
            {Mark(mark), V6Host(d[n + 24..n + 40])} +
            (if protocol == 17 || protocol == 6 then
               {Port(PortKey(Loaded2(d, at + 2), protocol)),
                V6Pair(HostPort6(d[n + 24..n + 40], Loaded2(d, at + 2), protocol))}
             else {})
  {
    FoundIp6(d);
    if Protocol6(d) == 17 || Protocol6(d) == 6 {
      LoadedPort(PacketOf(d).value.payload.dest, d, Transport6(d) + 2);
    }
  }

  /** One of the four keys an IPv4 frame spells is among those that `has` admits:
      the mark, the destination host, the destination port, or host and port. */
  predicate Admitted4(has: Entry -> bool, mark: u32, d: Bytes)
    requires Ip4Form(d)
  {
    var host, at, protocol := Loaded4(d, NetworkAt(d) + 16), Transport4(d), Protocol4(d);
    || has(Mark(mark))
    || has(V4Host(host))
    || ((protocol == 17 || protocol == 6) &&
        (|| has(Port(PortKey(Loaded2(d, at + 2), protocol)))
         || has(V4Pair(HostPort4(host, Loaded2(d, at + 2), protocol)))))
  }

  predicate Admitted6(has: Entry -> bool, mark: u32, d: Bytes)
    requires Ip6Form(d)
  {
    var host, at, protocol := d[NetworkAt(d) + 24..NetworkAt(d) + 40], Transport6(d), Protocol6(d);
    || has(Mark(mark))
    || has(V6Host(host))
    || ((protocol == 17 || protocol == 6) &&
        (|| has(Port(PortKey(Loaded2(d, at + 2), protocol)))
         || has(V6Pair(HostPort6(host, Loaded2(d, at + 2), protocol)))))
  }

  lemma ListedIp4(entries: set<Entry>, has: Entry -> bool, mark: u32, d: Bytes)
    requires Ip4Form(d) && forall e :: e in entries <==> has(e)
    ensures PacketOf(d).Some? && (Listed(entries, mark, PacketOf(d).value) <==> Admitted4(has, mark, d))
  {
    MatchingIp4(mark, d);
  }

  lemma ListedIp6(entries: set<Entry>, has: Entry -> bool, mark: u32, d: Bytes)
    requires Ip6Form(d) && forall e :: e in entries <==> has(e)
    ensures PacketOf(d).Some? && (Listed(entries, mark, PacketOf(d).value) <==> Admitted6(has, mark, d))
  {
    MatchingIp6(mark, d);
  }

  /** What the tables' flags and keys say about the octets. */
  lemma ViewInOctets(v: View, has: Entry -> bool, mark: u32, d: Bytes)
    requires forall e :: e in v.entries <==> has(e)
    ensures Permits(v, mark, d) <==>
              || (v.config.Some? && v.config.value.allowAll != 0)
              || BootstrapForm(d)
              || (v.config.Some? && v.config.value.enableV4 != 0 && Ip4Form(d) && Admitted4(has, mark, d))
              || (v.config.Some? && v.config.value.enableV6 != 0 && Ip6Form(d) && Admitted6(has, mark, d))
  {
    PermitsByParse(v, mark, d);
    BootstrapInOctets(d);
    FoundIp4(d);
    FoundIp6(d);
    if Ip4Form(d) { ListedIp4(v.entries, has, mark, d); }
    if Ip6Form(d) { ListedIp6(v.entries, has, mark, d); }
  }

  /** The whole verdict: a frame passes exactly when everything does, or it has a
      bootstrap form, or its family is enabled and one of the at most four keys its
      octets spell is stored for the interface. */
  lemma VerdictInOctets(t: Tables, i: u32, mark: u32, d: Bytes)
    ensures Permits(ViewOf(t, i), mark, d) <==>
              || (i in t.config && t.config[i].allowAll != 0)
              || BootstrapForm(d)
              || (i in t.config && t.config[i].enableV4 != 0 &&
                  Ip4Form(d) && Admitted4(e => Key(i, e) in t.allowed, mark, d))
              || (i in t.config && t.config[i].enableV6 != 0 &&
                  Ip6Form(d) && Admitted6(e => Key(i, e) in t.allowed, mark, d))
  {
    ViewOfEntries(t, i);
    ViewInOctets(ViewOf(t, i), e => Key(i, e) in t.allowed, mark, d);
  }

  /** On an interface without a runtime_config entry the four forms pass, and
      nothing else. */
  lemma ClosedInOctets(t: Tables, i: u32, mark: u32, d: Bytes)
    requires i !in t.config
    ensures Permits(ViewOf(t, i), mark, d) <==> BootstrapForm(d)
  {
    VerdictInOctets(t, i, mark, d);
  }

  /** What the rules promise, in the octets of the frame. */
  lemma RulesInOctets(r: AllowRules, mark: u32, d: Bytes)
    ensures PlainDecision(r, mark, d) <==>
              || r.allowAll
              || BootstrapForm(d)
              || (r.enableV4 && Ip4Form(d) && Admitted4(e => Lists(r, e), mark, d))
              || (r.enableV6 && Ip6Form(d) && Admitted6(e => Lists(r, e), mark, d))
  {
    RulesViewIsPlain(r, mark, d);
    EntriesByTable(r);
    ViewInOctets(RulesView(r), e => Lists(r, e), mark, d);
  }

  // ---------- from a policy's text to the octets that pass ----------

  /** Some text of the policy says the mark, the destination octets, the destination
      port with the protocol, or host, port and protocol together. */
  ghost predicate Said4(net: Net, a: ApiRules, mark: u32, d: Bytes)
    requires Ip4Form(d)
  {
    var host, at, protocol := d[NetworkAt(d) + 16..NetworkAt(d) + 20], Transport4(d), Protocol4(d);
    || (exists s :: s in a.marks && SaysMark(s, mark))
    || (exists s :: s in a.v4Hosts && SaysV4Host(net, s, host))
    || ((protocol == 17 || protocol == 6) &&
        (|| (exists s :: s in a.ports && SaysPort(s, protocol, Wire(d, at + 2)))
         || (exists s :: s in a.v4Pairs && SaysV4Pair(s, protocol, host, Wire(d, at + 2)))))
  }

  ghost predicate Said6(net: Net, a: ApiRules, mark: u32, d: Bytes)
    requires Ip6Form(d)
  {
    var host, at, protocol := d[NetworkAt(d) + 24..NetworkAt(d) + 40], Transport6(d), Protocol6(d);
    || (exists s :: s in a.marks && SaysMark(s, mark))
    || (exists s :: s in a.v6Hosts && SaysV6Host(net, s, host))
    || ((protocol == 17 || protocol == 6) &&
        (|| (exists s :: s in a.ports && SaysPort(s, protocol, Wire(d, at + 2)))
         || (exists s :: s in a.v6Pairs && SaysV6Pair(net, s, protocol, host, Wire(d, at + 2)))))
  }

  lemma SaidIp4(net: Net, a: ApiRules, mark: u32, d: Bytes)
    requires Ip4Form(d)
    ensures PacketOf(d).Some? && (NamedByText(net, a, mark, PacketOf(d).value) <==> Said4(net, a, mark, d))
  {
    FoundIp4(d);
  }

  lemma SaidIp6(net: Net, a: ApiRules, mark: u32, d: Bytes)
    requires Ip6Form(d)
    ensures PacketOf(d).Some? && (NamedByText(net, a, mark, PacketOf(d).value) <==> Said6(net, a, mark, d))
  {
    FoundIp6(d);
  }

  lemma TextByParse(net: Net, a: ApiRules, mark: u32, d: Bytes)
    ensures TextDecision(net, a, mark, d) <==>
              || a.allowAll
              || IsBootstrap(d)
              || (a.enableV4 && Ip4Form(d) && PacketOf(d).Some? && NamedByText(net, a, mark, PacketOf(d).value))
              || (a.enableV6 && Ip6Form(d) && PacketOf(d).Some? && NamedByText(net, a, mark, PacketOf(d).value))
  {
    FoundIp4(d);
    FoundIp6(d);
    if Parse(d).Some? { ParseSound(d); }
    forall f: Frame | WellFormed(f) && Encode(f) == d ensures Parse(d) == Some(f) { ParseComplete(f); }
  }

  /** From text to octets: what the tables written for a policy's text pass. */
  lemma TextInOctets(net: Net, a: ApiRules, mark: u32, d: Bytes)
    requires LawfulNet(net) && ParseRules(net, a).Some?
    ensures Permits(RulesView(ParseRules(net, a).value), mark, d) <==>
              || a.allowAll
              || BootstrapForm(d)
              || (a.enableV4 && Ip4Form(d) && Said4(net, a, mark, d))
              || (a.enableV6 && Ip6Form(d) && Said6(net, a, mark, d))
  {
    TextDecides(net, a, mark, d);
    TextByParse(net, a, mark, d);
    BootstrapInOctets(d);
    if Ip4Form(d) { SaidIp4(net, a, mark, d); }
    if Ip6Form(d) { SaidIp6(net, a, mark, d); }
  }
}
