/** The packet filter `killswitch_egress` (cmd/killswitch/killswitch.c) and the
    declarative decision it implements.

    The decision is stated over frames built by the grammar of module Frames; it
    names no offset and no cursor. */
module Filter {
  import opened Words
  import opened Rules
  import opened Frames

  /** `struct runtime_config`; every flag is a byte and any non-zero byte is true. */
  datatype RuntimeConfig = RuntimeConfig(allowAll: byte, enableV4: byte, enableV6: byte)

  /** A key of an allow table: the interface it is scoped to and the entry. */
  datatype Key = Key(ifindex: u32, entry: Entry)

  /** The kernel maps. The six allow tables are one set whose keys are told apart
      by their constructor; their values are never read. */
  datatype Tables = Tables(config: map<u32, RuntimeConfig>, allowed: set<Key>)

  /** What the tables hold for one interface. */
  datatype View = View(config: Option<RuntimeConfig>, entries: set<Entry>)

  ghost function ViewOf(t: Tables, ifindex: u32): View {
    View(if ifindex in t.config then Some(t.config[ifindex]) else None,
         set k | k in t.allowed && k.ifindex == ifindex :: k.entry)
  }

  lemma ViewOfEntries(t: Tables, ifindex: u32)
    ensures forall e :: e in ViewOf(t, ifindex).entries <==> Key(ifindex, e) in t.allowed
  {
  }

  // ---------- the decision ----------

  datatype Reason = ArpReason | Dhcp4Reason | Dhcp6Reason | NeighbourReason

  predicate DhcpPorts(t: Transport, a: u16, b: u16) {
    t.Udp? && (t.source == a || t.source == b) && (t.dest == a || t.dest == b)
  }

  /** Bootstrap traffic: ARP, DHCPv4 (section 4.1 of RFC 2131), DHCPv6 (section
      7.2 of RFC 8415) and neighbour discovery (sections 4.1 to 4.4 of RFC 4861). */
  function Bootstrap(p: Packet): Option<Reason> {
    match p
    case Arp(_) => Some(ArpReason)
    case Ip4(_, _, _, _, _, _, payload) => if DhcpPorts(payload, 67, 68) then Some(Dhcp4Reason) else None
    case Ip6(_, _, _, _, _, payload) =>
      if DhcpPorts(payload, 546, 547) then Some(Dhcp6Reason)
      else if payload.Icmp6? && 133 <= payload.kind <= 136 then Some(NeighbourReason)
      else None
  }

  ghost predicate FamilyEnabled(config: Option<RuntimeConfig>, p: Packet) {
    match p
    case Arp(_) => false
    case Ip4(_, _, _, _, _, _, _) => config.Some? && config.value.enableV4 != 0
    case Ip6(_, _, _, _, _, _) => config.Some? && config.value.enableV6 != 0
  }

  /** The entries that would let this packet through: its mark, its protocol and
      destination port, its destination host, and its host and port together. */
  ghost function Matching(mark: u32, p: Packet): set<Entry> {
    match p
    case Arp(_) => {Mark(mark)}
    case Ip4(_, _, _, _, dest, _, payload) =>
      var host := Ipv4Key(dest);
      {Mark(mark), V4Host(host)} +
      (if payload.Udp? || payload.Tcp? then
         var dport, protocol := Htons(payload.dest), Protocol(payload);
         {Port(PortKey(dport, protocol)), V4Pair(HostPort4(host, dport, protocol))}
       else {})
    case Ip6(_, _, _, _, dest, payload) =>
      {Mark(mark), V6Host(dest)} +
      (if payload.Udp? || payload.Tcp? then
         var dport, protocol := Htons(payload.dest), Protocol(payload);
         {Port(PortKey(dport, protocol)), V6Pair(HostPort6(dest, dport, protocol))}
       else {})
  }

  ghost predicate Listed(entries: set<Entry>, mark: u32, p: Packet) {
    exists e :: e in Matching(mark, p) && e in entries
  }

  ghost predicate PacketPermitted(v: View, mark: u32, p: Packet) {
    Bootstrap(p).Some? || (FamilyEnabled(v.config, p) && Listed(v.entries, mark, p))
  }

  ghost predicate AllowsAll(config: Option<RuntimeConfig>) {
    config.Some? && config.value.allowAll != 0
  }

  /** `data` spells a frame of the grammar whose packet is permitted. */
  ghost predicate SpellsPermitted(v: View, mark: u32, data: Bytes) {
    exists f: Frame :: WellFormed(f) && Encode(f) == data && PacketPermitted(v, mark, f.packet)
  }

  /** The whole decision for an interface whose tables show `v`. */
  ghost predicate Permits(v: View, mark: u32, data: Bytes) {
    AllowsAll(v.config) || SpellsPermitted(v, mark, data)
  }

  /** The byte string is one of the four bootstrap forms. */
  ghost predicate IsBootstrap(data: Bytes) {
    exists f: Frame :: WellFormed(f) && Encode(f) == data && Bootstrap(f.packet).Some?
  }

  /** The grammar is unambiguous, so the one frame the recogniser finds decides. */
  lemma PermitsByParse(v: View, mark: u32, data: Bytes)
    ensures Permits(v, mark, data) <==>
              AllowsAll(v.config) || (Parse(data).Some? && PacketPermitted(v, mark, Parse(data).value.packet))
    ensures IsBootstrap(data) <==> Parse(data).Some? && Bootstrap(Parse(data).value.packet).Some?
  {
    if Parse(data).Some? {
      ParseSound(data);
    }
    forall f: Frame | WellFormed(f) && Encode(f) == data ensures Parse(data) == Some(f) {
      ParseComplete(f);
    }
  }

  /** Without a runtime_config entry exactly the bootstrap frames pass. */
  lemma ClosedPassesOnlyBootstrap(v: View, mark: u32, data: Bytes)
    requires v.config.None?
    ensures Permits(v, mark, data) <==> IsBootstrap(data)
  {
  }

  // ---------- the program ----------

  datatype Verdict = Ok | Shot

  /** The fields of `struct bootstrap_event` that identify the allowance. */
  datatype Event = Event(reason: Reason, vlanDepth: nat, ethProto: u16)

  predicate DataAvailable(cursor: nat, end: nat, size: nat) {
    cursor + size <= end
  }

  predicate IsDhcpv4(source: u16, dest: u16) {
    (source == 67 || source == 68) && (dest == 67 || dest == 68)
  }

  predicate IsDhcpv6(source: u16, dest: u16) {
    (source == 546 || source == 547) && (dest == 546 || dest == 547)
  }

  predicate IsIcmpv6Nd(kind: byte) {
    kind >= 133 && kind <= 136
  }

  /** The event reported for a frame: one per bootstrap packet, none otherwise. */
  function EventFor(f: Option<Frame>): Option<Event> {
    match f
    case None => None
    case Some(f) =>
      match Bootstrap(f.packet)
      case None => None
      case Some(reason) => Some(Event(reason, if f.tag.Some? then 1 else 0, EtherType(f.packet)))
  }

  ghost predicate Outcome(t: Tables, ifindex: u32, mark: u32, proto: u16, rest: Bytes, verdict: Verdict,
                          reason: Option<Reason>) {
    match ParsePacket(proto, rest)
    case None => verdict == Shot && reason == None
    case Some(p) =>
      && (verdict == Ok <==> PacketPermitted(ViewOf(t, ifindex), mark, p))
      && reason == Bootstrap(p)
  }

  /** The IPv4 branch, reading from `cursor`. */
  method EgressIp4(t: Tables, ifindex: u32, mark: u32, data: Bytes, cursor: nat)
    returns (verdict: Verdict, reason: Option<Reason>)
    requires cursor <= |data|
    ensures Outcome(t, ifindex, mark, ETH_P_IP, data[cursor..], verdict, reason)
  {
    var end := |data|;
    ghost var b := data[cursor..];
    if !DataAvailable(cursor, end, 20) {
      return Shot, None;
    }
    var ihlLen := data[cursor] % 16 * 4;
    if data[cursor] / 16 != 4 || ihlLen < 20 {
      return Shot, None;
    }
    if !DataAvailable(cursor, end, ihlLen) {
      return Shot, None;
    }
    var fragOff := Be16(data, cursor + 6);
    assert fragOff == Be16(b, 6);
    if fragOff % 0x4000 != 0 {
      return Shot, None;
    }
    var dport: u16, hasPorts := 0, false;
    var protocol := data[cursor + 9];
    var l4 := cursor + ihlLen;
    assert data[l4..] == b[ihlLen..];
    if protocol == IPPROTO_UDP {
      if !DataAvailable(l4, end, 8) {
        return Shot, None;
      }
      dport, hasPorts := Le16(data, l4 + 2), true;
      if IsDhcpv4(Be16(data, l4), Be16(data, l4 + 2)) {
        return Ok, Some(Dhcp4Reason);
      }
    } else if protocol == IPPROTO_TCP {
      if !DataAvailable(l4, end, 4) {
        return Shot, None;
      }
      dport, hasPorts := Le16(data, l4 + 2), true;
    }
    if hasPorts {
      NativeLoadIsHtons(data, l4 + 2);
    }
    ghost var p := ParseIp4(b).value;
    assert Bootstrap(p) == None;
    if ifindex !in t.config || t.config[ifindex].enableV4 == 0 {
      return Shot, None;
    }
    var daddr := Le32(data, cursor + 16);
    assert daddr == Ipv4Key(p.dest4);
    var allowed := LookupV4(t, ifindex, mark, hasPorts, protocol, dport, daddr);
    ViewOfEntries(t, ifindex);
    assert Matching(mark, p) == (if hasPorts then Candidates4(mark, protocol, dport, daddr)
                                   else {Mark(mark), V4Host(daddr)});
    return if allowed then Ok else Shot, None;
  }

  ghost function Candidates4(mark: u32, protocol: byte, dport: u16, daddr: u32): set<Entry> {
    {Mark(mark), V4Host(daddr), Port(PortKey(dport, protocol)), V4Pair(HostPort4(daddr, dport, protocol))}
  }

  ghost function Candidates6(mark: u32, protocol: byte, dport: u16, daddr: Addr6): set<Entry> {
    {Mark(mark), V6Host(daddr), Port(PortKey(dport, protocol)), V6Pair(HostPort6(daddr, dport, protocol))}
  }

  /** The four IPv4 allowlist lookups in program order. */
  method LookupV4(t: Tables, ifindex: u32, mark: u32, hasPorts: bool, protocol: byte, dport: u16, daddr: u32)
    returns (allowed: bool)
    ensures allowed <==> exists e :: Key(ifindex, e) in t.allowed &&
                                     e in (if hasPorts then Candidates4(mark, protocol, dport, daddr)
                                             else {Mark(mark), V4Host(daddr)})
  {
    if Key(ifindex, Mark(mark)) in t.allowed {
      return true;
    }
    if hasPorts && Key(ifindex, Port(PortKey(dport, protocol))) in t.allowed {
      return true;
    }
    if Key(ifindex, V4Host(daddr)) in t.allowed {
      return true;
    }
    if hasPorts && Key(ifindex, V4Pair(HostPort4(daddr, dport, protocol))) in t.allowed {
      return true;
    }
    return false;
  }

  /** The four IPv6 allowlist lookups in program order. */
  method LookupV6(t: Tables, ifindex: u32, mark: u32, hasPorts: bool, protocol: byte, dport: u16, daddr: Addr6)
    returns (allowed: bool)
    ensures allowed <==> exists e :: Key(ifindex, e) in t.allowed &&
                                     e in (if hasPorts then Candidates6(mark, protocol, dport, daddr)
                                             else {Mark(mark), V6Host(daddr)})
  {
    if Key(ifindex, Mark(mark)) in t.allowed {
      return true;
    }
    if hasPorts && Key(ifindex, Port(PortKey(dport, protocol))) in t.allowed {
      return true;
    }
    if Key(ifindex, V6Host(daddr)) in t.allowed {
      return true;
    }
    if hasPorts && Key(ifindex, V6Pair(HostPort6(daddr, dport, protocol))) in t.allowed {
      return true;
    }
    return false;
  }

  /** The IPv6 branch, reading from `cursor`. */
  method EgressIp6(t: Tables, ifindex: u32, mark: u32, data: Bytes, cursor: nat)
    returns (verdict: Verdict, reason: Option<Reason>)
    requires cursor <= |data|
    ensures Outcome(t, ifindex, mark, ETH_P_IPV6, data[cursor..], verdict, reason)
  {
    var end := |data|;
    ghost var b := data[cursor..];
    if !DataAvailable(cursor, end, 40) {
      return Shot, None;
    }
    if data[cursor] / 16 != 6 {
      return Shot, None;
    }
    var dport: u16, hasPorts := 0, false;
    var next := data[cursor + 6];
    var l4 := cursor + 40;
    assert data[l4..] == b[40..];
    if next == IPPROTO_UDP {
      if !DataAvailable(l4, end, 8) {
        return Shot, None;
      }
      dport, hasPorts := Le16(data, l4 + 2), true;
      if IsDhcpv6(Be16(data, l4), Be16(data, l4 + 2)) {
        return Ok, Some(Dhcp6Reason);
      }
    } else if next == IPPROTO_TCP {
      if !DataAvailable(l4, end, 4) {
        return Shot, None;
      }
      dport, hasPorts := Le16(data, l4 + 2), true;
    } else if next == IPPROTO_ICMPV6 {
      if !DataAvailable(l4, end, 4) {
        return Shot, None;
      }
      if IsIcmpv6Nd(data[l4]) {
        return Ok, Some(NeighbourReason);
      }
    } else {
      return Shot, None;
    }
    if hasPorts {
      NativeLoadIsHtons(data, l4 + 2);
    }
    ghost var p := ParseIp6(b).value;
    assert Bootstrap(p) == None;
    if ifindex !in t.config || t.config[ifindex].enableV6 == 0 {
      return Shot, None;
    }
    var daddr := data[cursor + 24..cursor + 40];
    assert daddr == b[24..40];
    var allowed := LookupV6(t, ifindex, mark, hasPorts, next, dport, daddr);
    ViewOfEntries(t, ifindex);
    assert Matching(mark, p) == (if hasPorts then Candidates6(mark, next, dport, daddr)
                                   else {Mark(mark), V6Host(daddr)});
    return if allowed then Ok else Shot, None;
  }

  /** Where the link header leaves the cursor: EtherType, offset and tag depth. */
  ghost predicate LinkHeader(data: Bytes, proto: u16, cursor: nat, depth: nat) {
    if |data| < 14 then false
    else if !IsVlan(Be16(data, 12)) then proto == Be16(data, 12) && cursor == 14 && depth == 0
    else |data| >= 18 && proto == Be16(data, 16) && cursor == 18 && depth == 1
  }

  function EventOf(reason: Option<Reason>, depth: nat, proto: u16): Option<Event> {
    if reason.None? then None else Some(Event(reason.value, depth, proto))
  }

  lemma LinkHeaderDecides(t: Tables, ifindex: u32, mark: u32, data: Bytes, proto: u16, cursor: nat, depth: nat,
                          verdict: Verdict, reason: Option<Reason>)
    requires LinkHeader(data, proto, cursor, depth)
    requires Outcome(t, ifindex, mark, proto, data[cursor..], verdict, reason)
    requires !AllowsAll(ViewOf(t, ifindex).config)
    ensures verdict == Ok <==> Permits(ViewOf(t, ifindex), mark, data)
    ensures EventOf(reason, depth, proto) == EventFor(Parse(data))
  {
    PermitsByParse(ViewOf(t, ifindex), mark, data);
    var parsed := ParsePacket(proto, data[cursor..]);
    if parsed.Some? {
      PacketSound(proto, data[cursor..]);
    }
  }

  /** The Ethernet header and at most one VLAN tag. */
  method EgressLink(data: Bytes) returns (ok: bool, ethProto: u16, cursor: nat, vlanDepth: nat)
    ensures ok ==> LinkHeader(data, ethProto, cursor, vlanDepth) && cursor <= |data|
    ensures !ok ==> Parse(data).None?
  {
    var end := |data|;
    ethProto, cursor, vlanDepth := 0, 0, 0;
    if !DataAvailable(cursor, end, 14) {
      return false, ethProto, cursor, vlanDepth;
    }
    cursor := cursor + 14;
    ethProto := Be16(data, 12);
    if ethProto == ETH_P_8021Q || ethProto == ETH_P_8021AD {
      if !DataAvailable(cursor, end, 4) {
        return false, ethProto, cursor, vlanDepth;
      }
      ethProto := Be16(data, cursor + 2);
      cursor := cursor + 4;
      vlanDepth := 1;
    }
    return true, ethProto, cursor, vlanDepth;
  }

  /** The branch on the EtherType. */
  method EgressPacket(t: Tables, ifindex: u32, mark: u32, data: Bytes, ethProto: u16, cursor: nat)
    returns (verdict: Verdict, reason: Option<Reason>)
    requires cursor <= |data|
    ensures Outcome(t, ifindex, mark, ethProto, data[cursor..], verdict, reason)
  {
    if ethProto == ETH_P_ARP {
      return Ok, Some(ArpReason);
    }
    if ethProto == ETH_P_IP {
      verdict, reason := EgressIp4(t, ifindex, mark, data, cursor);
      return;
    }
    if ethProto == ETH_P_IPV6 {
      verdict, reason := EgressIp6(t, ifindex, mark, data, cursor);
      return;
    }
    return Shot, None;
  }

  /** `killswitch_egress`. A frame passes exactly when the decision permits it, and
      a bootstrap event is emitted exactly for bootstrap frames judged on their
      own account, that is, when allow_all is off. */
  method KillswitchEgress(t: Tables, ifindex: u32, mark: u32, data: Bytes)
    returns (verdict: Verdict, event: Option<Event>)
    ensures verdict == Ok <==> Permits(ViewOf(t, ifindex), mark, data)
    ensures event == if AllowsAll(ViewOf(t, ifindex).config) then None else EventFor(Parse(data))
  {
    if ifindex in t.config && t.config[ifindex].allowAll != 0 {
      return Ok, None;
    }
    var ok, ethProto, cursor, vlanDepth := EgressLink(data);
    if !ok {
      PermitsByParse(ViewOf(t, ifindex), mark, data);
      return Shot, None;
    }
    var reason: Option<Reason>;
    verdict, reason := EgressPacket(t, ifindex, mark, data, ethProto, cursor);
    LinkHeaderDecides(t, ifindex, mark, data, ethProto, cursor, vlanDepth, verdict, reason);
    event := EventOf(reason, vlanDepth, ethProto);
  }
}
