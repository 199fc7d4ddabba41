/** The frames the egress filter understands, as a grammar that builds byte
    strings, and the recogniser that inverts it.

    A frame is two MAC addresses, at most one VLAN tag (IEEE 802.1Q clause 9), an
    EtherType and a packet: ARP, unfragmented IPv4 with any options (section 3.1
    of RFC 791), or IPv6 with UDP, TCP or ICMPv6 directly after the fixed header
    (section 3 of RFC 8200). */
module Frames {
  import opened Words

  const ETH_P_IP: u16 := 0x0800
  const ETH_P_ARP: u16 := 0x0806
  const ETH_P_8021Q: u16 := 0x8100
  const ETH_P_8021AD: u16 := 0x88A8
  const ETH_P_IPV6: u16 := 0x86DD
  const IPPROTO_ICMPV6: byte := 58

  datatype Tag = Tag(tpid: u16, tci: Bytes)

  datatype Transport =
    | Udp(source: u16, dest: u16, body: Bytes)
    | Tcp(source: u16, dest: u16, body: Bytes)
    | Icmp6(kind: byte, body: Bytes)
    | Other(protocol: byte, body: Bytes)

  datatype Packet =
    | Arp(content: Bytes)
    | Ip4(prefix: Bytes, flags: byte, ttl: byte, checkSource: Bytes, dest4: Addr4, options: Bytes, payload: Transport)
    | Ip6(traffic: byte, flowLength: Bytes, hops: byte, source6: Addr6, dest6: Addr6, payload: Transport)

  datatype Frame = Frame(macs: Bytes, tag: Option<Tag>, packet: Packet)

  // ---------- the grammar ----------

  function Protocol(t: Transport): byte {
    match t
    case Udp(_, _, _) => IPPROTO_UDP
    case Tcp(_, _, _) => IPPROTO_TCP
    case Icmp6(_, _) => IPPROTO_ICMPV6
    case Other(p, _) => p
  }

  function EtherType(p: Packet): u16 {
    match p
    case Arp(_) => ETH_P_ARP
    case Ip4(_, _, _, _, _, _, _) => ETH_P_IP
    case Ip6(_, _, _, _, _, _) => ETH_P_IPV6
  }

  predicate IsVlan(proto: u16) {
    proto == ETH_P_8021Q || proto == ETH_P_8021AD
  }

  /** UDP needs its whole header, TCP only its two ports, ICMPv6 four octets. */
  predicate WellFormedTransport(t: Transport) {
    match t
    case Udp(_, _, body) => |body| >= 4
    case Tcp(_, _, _) => true
    case Icmp6(_, body) => |body| >= 3
    case Other(_, _) => true
  }

  /** Only the reserved and don't-fragment bits of the flags octet may be set. */
  predicate WellFormedPacket(p: Packet) {
    match p
    case Arp(_) => true
    case Ip4(prefix, flags, _, checkSource, _, options, payload) =>
      && |prefix| == 5 && flags % 0x40 == 0 && |checkSource| == 6
      && |options| % 4 == 0 && |options| <= 40
      && WellFormedTransport(payload) && !payload.Icmp6?
      && (payload.Other? ==> payload.protocol != IPPROTO_UDP && payload.protocol != IPPROTO_TCP)
    case Ip6(traffic, flowLength, _, _, _, payload) =>
      && traffic < 16 && |flowLength| == 5
      && WellFormedTransport(payload) && !payload.Other?
  }

  predicate WellFormed(f: Frame) {
    && |f.macs| == 12
    && (f.tag.Some? ==> IsVlan(f.tag.value.tpid) && |f.tag.value.tci| == 2)
    && WellFormedPacket(f.packet)
  }

  function EncodeTransport(t: Transport): Bytes {
    match t
    case Udp(source, dest, body) => PutBe16(source) + PutBe16(dest) + body
    case Tcp(source, dest, body) => PutBe16(source) + PutBe16(dest) + body
    case Icmp6(kind, body) => [kind] + body
    case Other(_, body) => body
  }

  function EncodePacket(p: Packet): Bytes
    requires WellFormedPacket(p)
  {
    match p
    case Arp(content) => content
    case Ip4(prefix, flags, ttl, checkSource, dest, options, payload) =>
      Ip4Header(prefix, flags, ttl, Protocol(payload), checkSource, dest, |options| / 4) +
      options + EncodeTransport(payload)
    case Ip6(traffic, flowLength, hops, source, dest, payload) =>
      Ip6Header(traffic, flowLength, Protocol(payload), hops, source, dest) + EncodeTransport(payload)
  }

  /** The fixed twenty octets; the first holds version 4 and the header length in words. */
  function Ip4Header(prefix: Bytes, flags: byte, ttl: byte, protocol: byte, checkSource: Bytes, dest: Addr4,
                     words: nat): Bytes
    requires |prefix| == 5 && |checkSource| == 6 && words <= 10
  {
    [0x45 + words] + prefix + [flags, 0, ttl, protocol] + checkSource + dest
  }

  function Ip6Header(traffic: byte, flowLength: Bytes, next: byte, hops: byte, source: Addr6, dest: Addr6): Bytes
    requires traffic < 16 && |flowLength| == 5
  {
    [0x60 + traffic] + flowLength + [next, hops] + source + dest
  }

  function EncodeTag(tag: Option<Tag>): Bytes {
    match tag
    case None => []
    case Some(t) => PutBe16(t.tpid) + t.tci
  }

  function Encode(f: Frame): Bytes
    requires WellFormed(f)
  {
    f.macs + EncodeTag(f.tag) + PutBe16(EtherType(f.packet)) + EncodePacket(f.packet)
  }

  // ---------- the recogniser ----------

  function ParseTransport4(protocol: byte, b: Bytes): Option<Transport> {
    if protocol == IPPROTO_UDP then
      if |b| < 8 then None else Some(Udp(Be16(b, 0), Be16(b, 2), b[4..]))
    else if protocol == IPPROTO_TCP then
      if |b| < 4 then None else Some(Tcp(Be16(b, 0), Be16(b, 2), b[4..]))
    else Some(Other(protocol, b))
  }

  function ParseTransport6(protocol: byte, b: Bytes): Option<Transport> {
    if protocol == IPPROTO_UDP then
      if |b| < 8 then None else Some(Udp(Be16(b, 0), Be16(b, 2), b[4..]))
    else if protocol == IPPROTO_TCP then
      if |b| < 4 then None else Some(Tcp(Be16(b, 0), Be16(b, 2), b[4..]))
    else if protocol == IPPROTO_ICMPV6 then
      if |b| < 4 then None else Some(Icmp6(b[0], b[1..]))
    else None
  }

  /** A complete version-4 header of at least five words, not a fragment. */
  predicate Ip4HeaderOk(b: Bytes) {
    |b| >= 20 && b[0] / 16 == 4 && b[0] % 16 >= 5 && |b| >= b[0] % 16 * 4 && Be16(b, 6) % 0x4000 == 0
  }

  function ParseIp4(b: Bytes): Option<Packet> {
    if !Ip4HeaderOk(b) then None
    else
      var length := b[0] % 16 * 4;
      match ParseTransport4(b[9], b[length..])
      case None => None
      case Some(t) => Some(Ip4(b[1..6], b[6], b[8], b[10..16], b[16..20], b[20..length], t))
  }

  function ParseIp6(b: Bytes): Option<Packet> {
    if |b| < 40 || b[0] / 16 != 6 then None
    else
      match ParseTransport6(b[6], b[40..])
      case None => None
      case Some(t) => Some(Ip6(b[0] % 16, b[1..6], b[7], b[8..24], b[24..40], t))
  }

  function ParsePacket(proto: u16, b: Bytes): Option<Packet> {
    if proto == ETH_P_ARP then Some(Arp(b))
    else if proto == ETH_P_IP then ParseIp4(b)
    else if proto == ETH_P_IPV6 then ParseIp6(b)
    else None
  }

  function Framed(macs: Bytes, tag: Option<Tag>, packet: Option<Packet>): Option<Frame> {
    match packet
    case None => None
    case Some(p) => Some(Frame(macs, tag, p))
  }

  function Parse(b: Bytes): Option<Frame> {
    if |b| < 14 then None
    else if !IsVlan(Be16(b, 12)) then
      Framed(b[..12], None, ParsePacket(Be16(b, 12), b[14..]))
    else if |b| < 18 then None
    else
      Framed(b[..12], Some(Tag(Be16(b, 12), b[14..16])), ParsePacket(Be16(b, 16), b[18..]))
  }

  // ---------- the two are inverse ----------

  lemma Be16Put(b: Bytes, i: nat, v: u16)
    requires i + 2 <= |b| && b[i] == v / 0x100 && b[i + 1] == v % 0x100
    ensures Be16(b, i) == v
  {
  }

  lemma PutBe16Be16(b: Bytes, i: nat)
    requires i + 2 <= |b|
    ensures PutBe16(Be16(b, i)) == b[i..i + 2]
  {
  }

  lemma TransportComplete(t: Transport)
    requires WellFormedTransport(t)
    ensures !t.Other? ==> ParseTransport6(Protocol(t), EncodeTransport(t)) == Some(t)
    ensures !t.Icmp6? && (t.Other? ==> t.protocol != IPPROTO_UDP && t.protocol != IPPROTO_TCP) ==>
              ParseTransport4(Protocol(t), EncodeTransport(t)) == Some(t)
  {
    var b := EncodeTransport(t);
    if t.Udp? || t.Tcp? {
      Be16Put(b, 0, t.source);
      Be16Put(b, 2, t.dest);
      assert b[4..] == t.body;
    } else if t.Icmp6? {
      assert b[1..] == t.body;
    }
  }

  lemma TransportSound4(protocol: byte, b: Bytes)
    requires ParseTransport4(protocol, b).Some?
    ensures var t := ParseTransport4(protocol, b).value;
            && WellFormedTransport(t) && Protocol(t) == protocol && EncodeTransport(t) == b
            && !t.Icmp6? && (t.Other? ==> t.protocol != IPPROTO_UDP && t.protocol != IPPROTO_TCP)
  {
    if protocol == IPPROTO_UDP || protocol == IPPROTO_TCP {
      PutBe16Be16(b, 0);
      PutBe16Be16(b, 2);
      assert b == b[0..2] + b[2..4] + b[4..];
    }
  }

  lemma TransportSound6(protocol: byte, b: Bytes)
    requires ParseTransport6(protocol, b).Some?
    ensures var t := ParseTransport6(protocol, b).value;
            WellFormedTransport(t) && Protocol(t) == protocol && EncodeTransport(t) == b && !t.Other?
  {
    if protocol == IPPROTO_UDP || protocol == IPPROTO_TCP {
      PutBe16Be16(b, 0);
      PutBe16Be16(b, 2);
      assert b == b[0..2] + b[2..4] + b[4..];
    } else {
      assert b == [b[0]] + b[1..];
    }
  }

  lemma Ip4HeaderFields(prefix: Bytes, flags: byte, ttl: byte, protocol: byte, checkSource: Bytes, dest: Addr4,
                        words: nat)
    requires |prefix| == 5 && |checkSource| == 6 && words <= 10
    ensures var h := Ip4Header(prefix, flags, ttl, protocol, checkSource, dest, words);
            && |h| == 20 && h[0] == 0x45 + words && h[1..6] == prefix && h[6] == flags && h[7] == 0
            && h[8] == ttl && h[9] == protocol && h[10..16] == checkSource && h[16..20] == dest
  {
  }

  lemma Ip4Layout(p: Packet)
    requires p.Ip4? && WellFormedPacket(p)
    ensures var b := EncodePacket(p);
            && |b| >= 20 + |p.options| && b[0] / 16 == 4 && b[0] % 16 * 4 == 20 + |p.options|
            && b[1..6] == p.prefix && b[6] == p.flags && b[7] == 0 && b[8] == p.ttl
            && b[9] == Protocol(p.payload) && b[10..16] == p.checkSource && b[16..20] == p.dest4
            && b[20..20 + |p.options|] == p.options && b[20 + |p.options|..] == EncodeTransport(p.payload)
  {
    var words := |p.options| / 4;
    var h := Ip4Header(p.prefix, p.flags, p.ttl, Protocol(p.payload), p.checkSource, p.dest4, words);
    Ip4HeaderFields(p.prefix, p.flags, p.ttl, Protocol(p.payload), p.checkSource, p.dest4, words);
    var b := h + p.options + EncodeTransport(p.payload);
    assert b[..20] == h;
    assert b[1..6] == h[1..6] && b[10..16] == h[10..16] && b[16..20] == h[16..20];
  }

  lemma Ip4Complete(p: Packet)
    requires p.Ip4? && WellFormedPacket(p)
    ensures ParseIp4(EncodePacket(p)) == Some(p)
  {
    Ip4Layout(p);
    TransportComplete(p.payload);
  }

  lemma Ip4Sound(b: Bytes)
    requires ParseIp4(b).Some?
    ensures var p := ParseIp4(b).value;
            p.Ip4? && WellFormedPacket(p) && EncodePacket(p) == b
  {
    var p := ParseIp4(b).value;
    var length := b[0] % 16 * 4;
    TransportSound4(b[9], b[length..]);
    assert b[7] == 0 && b[6] % 0x40 == 0;
    var words := |p.options| / 4;
    assert b[0] == 0x45 + words;
    var h := Ip4Header(p.prefix, p.flags, p.ttl, b[9], p.checkSource, p.dest4, words);
    assert h == b[..20];
    assert b == b[..20] + b[20..length] + b[length..];
  }

  lemma Ip6Complete(p: Packet)
    requires p.Ip6? && WellFormedPacket(p)
    ensures ParseIp6(EncodePacket(p)) == Some(p)
  {
    var h := Ip6Header(p.traffic, p.flowLength, Protocol(p.payload), p.hops, p.source6, p.dest6);
    var rest := EncodeTransport(p.payload);
    var b := h + rest;
    assert |h| == 40;
    assert b[1..6] == p.flowLength && b[6] == Protocol(p.payload) && b[7] == p.hops;
    assert b[8..24] == p.source6 && b[24..40] == p.dest6 && b[40..] == rest;
    TransportComplete(p.payload);
  }

  lemma Ip6Sound(b: Bytes)
    requires ParseIp6(b).Some?
    ensures var p := ParseIp6(b).value;
            p.Ip6? && WellFormedPacket(p) && EncodePacket(p) == b
  {
    var p := ParseIp6(b).value;
    TransportSound6(b[6], b[40..]);
    assert Ip6Header(p.traffic, p.flowLength, b[6], p.hops, p.source6, p.dest6) == b[..40];
    assert b == b[..40] + b[40..];
  }

  lemma PacketComplete(p: Packet)
    requires WellFormedPacket(p)
    ensures ParsePacket(EtherType(p), EncodePacket(p)) == Some(p)
  {
    match p
    case Arp(_) =>
    case Ip4(_, _, _, _, _, _, _) => Ip4Complete(p);
    case Ip6(_, _, _, _, _, _) => Ip6Complete(p);
  }

  lemma PacketSound(proto: u16, b: Bytes)
    requires ParsePacket(proto, b).Some?
    ensures var p := ParsePacket(proto, b).value;
            WellFormedPacket(p) && EtherType(p) == proto && EncodePacket(p) == b
  {
    if proto == ETH_P_IP {
      Ip4Sound(b);
    } else if proto == ETH_P_IPV6 {
      Ip6Sound(b);
    }
  }

  lemma UntaggedComplete(f: Frame)
    requires WellFormed(f) && f.tag.None?
    ensures Parse(Encode(f)) == Some(f)
  {
    var b := Encode(f);
    PacketComplete(f.packet);
    Be16Put(b, 12, EtherType(f.packet));
    assert b[..12] == f.macs && b[14..] == EncodePacket(f.packet);
  }

  lemma TaggedComplete(f: Frame)
    requires WellFormed(f) && f.tag.Some?
    ensures Parse(Encode(f)) == Some(f)
  {
    var b := Encode(f);
    PacketComplete(f.packet);
    Be16Put(b, 12, f.tag.value.tpid);
    Be16Put(b, 16, EtherType(f.packet));
    assert b[..12] == f.macs && b[14..16] == f.tag.value.tci && b[18..] == EncodePacket(f.packet);
  }

  /** Every frame of the grammar is recognised, and as itself. */
  lemma ParseComplete(f: Frame)
    requires WellFormed(f)
    ensures Parse(Encode(f)) == Some(f)
  {
    if f.tag.None? { UntaggedComplete(f); } else { TaggedComplete(f); }
  }

  /** Whatever is recognised is a frame of the grammar that spells the input. */
  lemma ParseSound(b: Bytes)
    requires Parse(b).Some?
    ensures WellFormed(Parse(b).value) && Encode(Parse(b).value) == b
  {
    PutBe16Be16(b, 12);
    if IsVlan(Be16(b, 12)) {
      PacketSound(Be16(b, 16), b[18..]);
      PutBe16Be16(b, 16);
      assert b == b[..12] + (b[12..14] + b[14..16]) + b[16..18] + b[18..];
    } else {
      PacketSound(Be16(b, 12), b[14..]);
      assert b == b[..12] + [] + b[12..14] + b[14..];
    }
  }
}
