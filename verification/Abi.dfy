/** The byte layout of the allow-table keys as the two sides build them.

    The daemon serialises a Go key struct in memory order on a little-endian host
    (cmd/killswitch/types.go); the filter fills a C struct with raw packet octets
    (cmd/killswitch/killswitch.c). The kernel compares keys byte by byte. */
module Abi {
  import opened Words
  import opened Rules
  import opened Frames
  import opened Filter
  import opened Kernel

  /** A serialised Go key; reserved fields are zero. */
  function Serialize(k: Key): Bytes {
    PutLe32(k.ifindex) +
    match k.entry
    case Mark(mark) => PutLe32(mark)
    case Port(p) => PutLe16(p.dport) + [p.protocol, 0]
    case V4Host(host) => PutLe32(host)
    case V6Host(host) => host
    case V4Pair(p) => PutLe32(p.daddr) + PutLe16(p.dport) + [0, 0, p.protocol, 0, 0, 0]
    case V6Pair(p) => p.daddr6 + PutLe16(p.dport) + [0, 0, p.protocol, 0, 0, 0]
  }

  lemma Split(a: Bytes, b: Bytes, x: Bytes, y: Bytes)
    requires |a| == |b|
    ensures a + x == b + y <==> a == b && x == y
  {
    assert (a + x)[..|a|] == a && (a + x)[|a|..] == x;
    assert (b + y)[..|a|] == b && (b + y)[|a|..] == y;
  }

  lemma PutLe32Exact(a: u32, b: u32)
    ensures PutLe32(a) == PutLe32(b) <==> a == b
  {
    StoreLoad32(a);
    StoreLoad32(b);
  }

  lemma PutLe16Exact(a: u16, b: u16)
    ensures PutLe16(a) == PutLe16(b) <==> a == b
  {
  }

  /** Within a table the serialised bytes determine the key, so a table may be
      read as a set of key values. */
  lemma SerializeInjective(a: Key, b: Key)
    requires TableOf(a.entry) == TableOf(b.entry)
    ensures Serialize(a) == Serialize(b) <==> a == b
  {
    PutLe32Exact(a.ifindex, b.ifindex);
    var x, y := Serialize(a)[4..], Serialize(b)[4..];
    assert Serialize(a) == PutLe32(a.ifindex) + x && Serialize(b) == PutLe32(b.ifindex) + y;
    Split(PutLe32(a.ifindex), PutLe32(b.ifindex), x, y);
    match a.entry
    case Mark(m) =>
      PutLe32Exact(m, b.entry.mark);
    case Port(p) =>
      var q := b.entry.port;
      PutLe16Exact(p.dport, q.dport);
      Split(PutLe16(p.dport), PutLe16(q.dport), [p.protocol, 0], [q.protocol, 0]);
    case V4Host(h) =>
      PutLe32Exact(h, b.entry.host4);
    case V6Host(_) =>
    case V4Pair(p) =>
      var q := b.entry.pair4;
      PairTail(PutLe32(p.daddr), PutLe32(q.daddr), p.dport, q.dport, p.protocol, q.protocol);
      PutLe32Exact(p.daddr, q.daddr);
    case V6Pair(p) =>
      var q := b.entry.pair6;
      PairTail(p.daddr6, q.daddr6, p.dport, q.dport, p.protocol, q.protocol);
  }

  lemma PairTail(a: Bytes, b: Bytes, c: u16, d: u16, p: byte, q: byte)
    requires |a| == |b|
    ensures a + PutLe16(c) + [0, 0, p, 0, 0, 0] == b + PutLe16(d) + [0, 0, q, 0, 0, 0] <==> a == b && c == d && p == q
  {
    Split(a + PutLe16(c), b + PutLe16(d), [0, 0, p, 0, 0, 0], [0, 0, q, 0, 0, 0]);
    Split(a, b, PutLe16(c), PutLe16(d));
    PutLe16Exact(c, d);
    assert [0, 0, p, 0, 0, 0] == [0, 0, q, 0, 0, 0] ==> p == [0, 0, p, 0, 0, 0][2] == q;
  }

  // ---------- the keys the filter builds, from raw packet octets ----------

  function KernelPortKey(ifindex: u32, dport: Bytes, protocol: byte): Bytes {
    PutLe32(ifindex) + (dport + [protocol, 0])
  }

  function KernelV4HostKey(ifindex: u32, daddr: Addr4): Bytes {
    PutLe32(ifindex) + daddr
  }

  function KernelV6HostKey(ifindex: u32, daddr: Addr6): Bytes {
    PutLe32(ifindex) + daddr
  }

  function KernelV4PairKey(ifindex: u32, daddr: Addr4, dport: Bytes, protocol: byte): Bytes {
    PutLe32(ifindex) + (daddr + dport + [0, 0, protocol, 0, 0, 0])
  }

  function KernelV6PairKey(ifindex: u32, daddr: Addr6, dport: Bytes, protocol: byte): Bytes {
    PutLe32(ifindex) + (daddr + dport + [0, 0, protocol, 0, 0, 0])
  }

  /** Raw port octets are the little-endian store of the byte-swapped port. */
  lemma RawPort(dport: Bytes)
    requires |dport| == 2
    ensures dport == PutLe16(Htons(Be16(dport, 0)))
  {
    NativeLoadIsHtons(dport, 0);
  }

  lemma HtonsExact(a: u16, b: u16)
    ensures Htons(a) == Htons(b) <==> a == b
  {
    HtonsNtohs(a);
    HtonsNtohs(b);
  }

  lemma RawAddr4(octets: Addr4)
    ensures octets == PutLe32(Ipv4Key(octets))
  {
    Ipv4KeyRoundTrip(octets);
  }

  /** A port rule matches exactly the packets whose wire port, protocol and
      interface it names. */
  lemma PortRuleMatches(rule: u32, port: u16, protocol: byte, ifindex: u32, dport: Bytes, wire: byte)
    requires |dport| == 2
    ensures Serialize(Key(rule, Port(PortKey(Htons(port), protocol)))) == KernelPortKey(ifindex, dport, wire) <==>
              rule == ifindex && port == Be16(dport, 0) && protocol == wire
  {
    var number := Be16(dport, 0);
    RawPort(dport);
    SerializeInjective(Key(rule, Port(PortKey(Htons(port), protocol))),
                       Key(ifindex, Port(PortKey(Htons(number), wire))));
    HtonsExact(port, number);
  }

  /** A host rule matches exactly the packets to that host on that interface. */
  lemma HostRuleMatches(rule: u32, host: Addr4, host6: Addr6, ifindex: u32, daddr: Addr4, daddr6: Addr6)
    ensures Serialize(Key(rule, V4Host(Ipv4Key(host)))) == KernelV4HostKey(ifindex, daddr) <==>
              rule == ifindex && host == daddr
    ensures Serialize(Key(rule, V6Host(host6))) == KernelV6HostKey(ifindex, daddr6) <==>
              rule == ifindex && host6 == daddr6
  {
    RawAddr4(daddr);
    RawAddr4(host);
    SerializeInjective(Key(rule, V4Host(Ipv4Key(host))), Key(ifindex, V4Host(Ipv4Key(daddr))));
    SerializeInjective(Key(rule, V6Host(host6)), Key(ifindex, V6Host(daddr6)));
  }

  /** An IPv4 host+port rule matches exactly its protocol, host and wire port. */
  lemma V4PairRuleMatches(rule: u32, host: Addr4, port: u16, protocol: byte, ifindex: u32, daddr: Addr4, dport: Bytes,
                          wire: byte)
    requires |dport| == 2
    ensures Serialize(Key(rule, V4Pair(HostPort4(Ipv4Key(host), Htons(port), protocol)))) ==
            KernelV4PairKey(ifindex, daddr, dport, wire) <==>
              rule == ifindex && host == daddr && port == Be16(dport, 0) && protocol == wire
  {
    var number := Be16(dport, 0);
    RawPort(dport);
    RawAddr4(daddr);
    RawAddr4(host);
    HtonsExact(port, number);
    SerializeInjective(Key(rule, V4Pair(HostPort4(Ipv4Key(host), Htons(port), protocol))),
                       Key(ifindex, V4Pair(HostPort4(Ipv4Key(daddr), Htons(number), wire))));
  }

  /** An IPv6 host+port rule matches exactly its protocol, host and wire port. */
  lemma V6PairRuleMatches(rule: u32, host: Addr6, port: u16, protocol: byte, ifindex: u32, daddr: Addr6, dport: Bytes,
                          wire: byte)
    requires |dport| == 2
    ensures Serialize(Key(rule, V6Pair(HostPort6(host, Htons(port), protocol)))) ==
            KernelV6PairKey(ifindex, daddr, dport, wire) <==>
              rule == ifindex && host == daddr && port == Be16(dport, 0) && protocol == wire
  {
    var number := Be16(dport, 0);
    RawPort(dport);
    HtonsExact(port, number);
    SerializeInjective(Key(rule, V6Pair(HostPort6(host, Htons(port), protocol))),
                       Key(ifindex, V6Pair(HostPort6(daddr, Htons(number), wire))));
  }

  // ---------- the lookups, byte by byte ----------

  function KernelMarkKey(ifindex: u32, mark: u32): Bytes {
    PutLe32(ifindex) + PutLe32(mark)
  }

  /** `bpf_map_lookup_elem` on one table: some stored key has these bytes. */
  ghost predicate Found(t: Tables, table: Table, bytes: Bytes) {
    exists k :: k in t.allowed && TableOf(k.entry) == table && Serialize(k) == bytes
  }

  lemma FoundExact(t: Tables, k: Key, bytes: Bytes)
    requires Serialize(k) == bytes
    ensures Found(t, TableOf(k.entry), bytes) <==> k in t.allowed
  {
    forall m | m in t.allowed && TableOf(m.entry) == TableOf(k.entry) {
      SerializeInjective(m, k);
    }
  }

  /** The four IPv4 lookups on the octets of the packet. */
  ghost predicate BytesFound4(t: Tables, ifindex: u32, mark: u32, hasPorts: bool, protocol: byte, dport: Bytes,
                              daddr: Addr4) {
    || Found(t, Marks, KernelMarkKey(ifindex, mark))
    || (hasPorts && Found(t, Ports, KernelPortKey(ifindex, dport, protocol)))
    || Found(t, V4Hosts, KernelV4HostKey(ifindex, daddr))
    || (hasPorts && Found(t, V4Hostports, KernelV4PairKey(ifindex, daddr, dport, protocol)))
  }

  /** The four IPv6 lookups on the octets of the packet. */
  ghost predicate BytesFound6(t: Tables, ifindex: u32, mark: u32, hasPorts: bool, protocol: byte, dport: Bytes,
                              daddr: Addr6) {
    || Found(t, Marks, KernelMarkKey(ifindex, mark))
    || (hasPorts && Found(t, Ports, KernelPortKey(ifindex, dport, protocol)))
    || Found(t, V6Hosts, KernelV6HostKey(ifindex, daddr))
    || (hasPorts && Found(t, V6Hostports, KernelV6PairKey(ifindex, daddr, dport, protocol)))
  }

  lemma SharedFound(t: Tables, ifindex: u32, mark: u32, protocol: byte, dport: Bytes)
    requires |dport| == 2
    ensures Found(t, Marks, KernelMarkKey(ifindex, mark)) <==> Key(ifindex, Mark(mark)) in t.allowed
    ensures Found(t, Ports, KernelPortKey(ifindex, dport, protocol)) <==>
              Key(ifindex, Port(PortKey(Le16(dport, 0), protocol))) in t.allowed
  {
    var port := Key(ifindex, Port(PortKey(Le16(dport, 0), protocol)));
    RawPort(dport);
    NativeLoadIsHtons(dport, 0);
    FoundExact(t, Key(ifindex, Mark(mark)), KernelMarkKey(ifindex, mark));
    FoundExact(t, port, KernelPortKey(ifindex, dport, protocol));
  }

  /** The keys the filter builds from raw octets are stored, byte for byte, exactly
      when `LookupV4` finds an entry for the values it loads from them. */
  lemma LookupV4Bytes(t: Tables, ifindex: u32, mark: u32, hasPorts: bool, protocol: byte, dport: Bytes, daddr: Addr4)
    requires |dport| == 2
    ensures BytesFound4(t, ifindex, mark, hasPorts, protocol, dport, daddr) <==>
              exists e :: Key(ifindex, e) in t.allowed &&
                          e in (if hasPorts then Candidates4(mark, protocol, Le16(dport, 0), Ipv4Key(daddr))
                                  else {Mark(mark), V4Host(Ipv4Key(daddr))})
  {
    var host, pair := Key(ifindex, V4Host(Ipv4Key(daddr))),
        Key(ifindex, V4Pair(HostPort4(Ipv4Key(daddr), Le16(dport, 0), protocol)));
    SharedFound(t, ifindex, mark, protocol, dport);
    RawAddr4(daddr);
    RawPort(dport);
    NativeLoadIsHtons(dport, 0);
    FoundExact(t, host, KernelV4HostKey(ifindex, daddr));
    FoundExact(t, pair, KernelV4PairKey(ifindex, daddr, dport, protocol));
  }

  lemma LookupV6Bytes(t: Tables, ifindex: u32, mark: u32, hasPorts: bool, protocol: byte, dport: Bytes, daddr: Addr6)
    requires |dport| == 2
    ensures BytesFound6(t, ifindex, mark, hasPorts, protocol, dport, daddr) <==>
              exists e :: Key(ifindex, e) in t.allowed &&
                          e in (if hasPorts then Candidates6(mark, protocol, Le16(dport, 0), daddr)
                                  else {Mark(mark), V6Host(daddr)})
  {
    var host, pair := Key(ifindex, V6Host(daddr)), Key(ifindex, V6Pair(HostPort6(daddr, Le16(dport, 0), protocol)));
    SharedFound(t, ifindex, mark, protocol, dport);
    RawPort(dport);
    NativeLoadIsHtons(dport, 0);
    FoundExact(t, host, KernelV6HostKey(ifindex, daddr));
    FoundExact(t, pair, KernelV6PairKey(ifindex, daddr, dport, protocol));
  }

  // ---------- end to end over bytes ----------

  /** The lookups for one packet, on its own octets. */
  ghost predicate BytesFound(t: Tables, ifindex: u32, mark: u32, p: Packet) {
    || (p.Ip4? && var hasPorts := p.payload.Udp? || p.payload.Tcp?;
                  BytesFound4(t, ifindex, mark, hasPorts, Protocol(p.payload), if hasPorts then PutBe16(p.payload.dest)
                                else [0, 0], p.dest4))
    || (p.Ip6? && var hasPorts := p.payload.Udp? || p.payload.Tcp?;
                  BytesFound6(t, ifindex, mark, hasPorts, Protocol(p.payload), if hasPorts then PutBe16(p.payload.dest)
                                else [0, 0], p.dest6))
  }

  lemma ListedByBytes(t: Tables, ifindex: u32, mark: u32, p: Packet)
    requires p.Ip4? || p.Ip6?
    ensures Listed(ViewOf(t, ifindex).entries, mark, p) <==> BytesFound(t, ifindex, mark, p)
  {
    var hasPorts := p.payload.Udp? || p.payload.Tcp?;
    var dport := if hasPorts then PutBe16(p.payload.dest) else [0, 0];
    NativeLoadIsHtons(dport, 0);
    ViewOfEntries(t, ifindex);
    if p.Ip4? {
      LookupV4Bytes(t, ifindex, mark, hasPorts, Protocol(p.payload), dport, p.dest4);
    } else {
      LookupV6Bytes(t, ifindex, mark, hasPorts, Protocol(p.payload), dport, p.dest6);
    }
  }

  /** The verdict over tables of bytes: a frame passes exactly when everything does,
      or it is bootstrap traffic, or its family is enabled and one of the keys built
      from its octets is stored byte for byte. */
  lemma PermitsByBytes(t: Tables, ifindex: u32, mark: u32, data: Bytes)
    ensures Permits(ViewOf(t, ifindex), mark, data) <==>
              || AllowsAll(ViewOf(t, ifindex).config)
              || exists f: Frame ::
                   && WellFormed(f) && Encode(f) == data
                   && (Bootstrap(f.packet).Some? ||
                       (FamilyEnabled(ViewOf(t, ifindex).config, f.packet) && BytesFound(t, ifindex, mark, f.packet)))
  {
    forall f: Frame | f.packet.Ip4? || f.packet.Ip6? {
      ListedByBytes(t, ifindex, mark, f.packet);
    }
  }
}
