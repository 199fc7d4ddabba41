/** What a rule text says, spelled out as a grammar, and that the daemon's key for
    it meets the filter's key for a packet exactly when the packet is what the text
    says (internal/policy/policy.go:50-170, cmd/killswitch/bpf_maps.go:356-422,
    cmd/killswitch/killswitch.c:316-364). */
module TextToPacket {
  import opened Words
  import opened Rules
  import opened Numerals
  import opened Effective
  import opened RuleText
  import opened Spelling
  import opened Frames
  import opened Filter
  import opened Abi
  import opened Kernel
  import opened Decisions

  // ---------- the grammar of rule text ----------

  predicate SplitFirst(s: string, sep: char, a: string, b: string) {
    sep !in a && s == a + [sep] + b
  }

  predicate SplitLast(s: string, sep: char, a: string, b: string) {
    sep !in b && s == a + [sep] + b
  }

  /** Three letters, each of either case. */
  predicate SaysProtocol(t: string, p: byte) {
    && |t| == 3
    && (|| (t[0] in {'t', 'T'} && t[1] in {'c', 'C'} && t[2] in {'p', 'P'} && p == 6)
        || (t[0] in {'u', 'U'} && t[1] in {'d', 'D'} && t[2] in {'p', 'P'} && p == 17))
  }

  /** A port rule: a protocol of either case, a slash, a decimal number above zero. */
  ghost predicate SaysPort(s: string, p: byte, n: u16) {
    n != 0 && exists t, d :: SplitFirst(s, '/', t, d) && SaysProtocol(t, p) && SaysNumber(d, n)
  }

  /** No octet has a leading zero. */
  ghost predicate SaysOctet(t: string, b: byte) {
    SaysNumber(t, b) && (|t| > 1 ==> t[0] != '0')
  }

  ghost predicate SaysOctets(s: string, o: Addr4) {
    exists a, b, c, d ::
      Dotted(s, a, b, c, d) && SaysOctet(a, o[0]) && SaysOctet(b, o[1]) && SaysOctet(c, o[2]) && SaysOctet(d, o[3])
  }

  predicate Dotted(s: string, a: string, b: string, c: string, d: string) {
    s == a + "." + (b + "." + (c + "." + d))
  }

  /** IPv6 text is foreign; whatever it reads has a colon first and may carry a zone. */
  ghost predicate SaysAddr6(net: Net, s: string, a: Addr6) {
    FirstMark(s) == Some(':') && exists zone :: net.parse6(s) == Some(Ip6Addr(a, zone))
  }

  /** An IPv4 host: dotted octets, or IPv6 text of the address that maps it. */
  ghost predicate SaysV4Host(net: Net, s: string, o: Addr4) {
    SaysOctets(s, o) || exists a: Addr6 :: SaysAddr6(net, s, a) && StandsFor4(Ip6Addr(a, ""), o)
  }

  /** An IPv6 host: IPv6 text of an address that maps no IPv4 address. */
  ghost predicate SaysV6Host(net: Net, s: string, a: Addr6) {
    SaysAddr6(net, s, a) && forall o: Addr4 :: !StandsFor4(Ip6Addr(a, ""), o)
  }

  lemma MappedExact(a: Addr6)
    ensures Mapped(a) <==> exists o: Addr4 :: StandsFor4(Ip6Addr(a, ""), o)
    ensures forall o: Addr4 :: StandsFor4(Ip6Addr(a, ""), o) <==> Unmap(Ip6Addr(a, "")) == Ip4Addr(o)
  {
    forall o: Addr4 ensures StandsFor4(Ip6Addr(a, ""), o) <==> Unmap(Ip6Addr(a, "")) == Ip4Addr(o) {
      UnmapIsStandsFor(Ip6Addr(a, ""), o);
    }
    if Mapped(a) { assert StandsFor4(Ip6Addr(a, ""), Unmap(Ip6Addr(a, "")).octets4); }
  }

  /** An IPv4 host+port rule; port zero is legal here. */
  ghost predicate SaysV4Pair(s: string, p: byte, o: Addr4, n: u16) {
    exists t, rest, h, d ::
      SplitFirst(s, '/', t, rest) && SplitLast(rest, ':', h, d) && SaysProtocol(t, p) && SaysOctets(h, o) &&
      SaysNumber(d, n)
  }

  /** An IPv6 host+port rule brackets its host. */
  ghost predicate SaysV6Pair(net: Net, s: string, p: byte, a: Addr6, n: u16) {
    exists t, rest, h, d ::
      SplitFirst(s, '/', t, rest) && SplitLast(rest, ':', "[" + h + "]", d) && SaysProtocol(t, p) &&
      SaysV6Host(net, h, a) && SaysNumber(d, n)
  }

  // ---------- the parsers decide the grammar ----------

  lemma {:induction false} CutExact(s: string, sep: char)
    ensures Cut(s, sep).Some? ==> SplitFirst(s, sep, Cut(s, sep).value.0, Cut(s, sep).value.1)
  {
    if s != [] && s[0] != sep {
      CutExact(s[1..], sep);
      assert s == [s[0]] + s[1..];
    }
  }

  lemma {:induction false} CutLastExact(s: string, sep: char)
    ensures CutLast(s, sep).Some? ==> SplitLast(s, sep, CutLast(s, sep).value.0, CutLast(s, sep).value.1)
  {
    if s != [] && s[|s| - 1] != sep {
      CutLastExact(s[..|s| - 1], sep);
      assert s == s[..|s| - 1] + [s[|s| - 1]];
    }
  }

  lemma ProtocolTextExact(t: string, p: byte)
    ensures ParseProtocol(t) == Some(p) <==> SaysProtocol(t, p)
  {
    if |t| == 3 {
      assert ToLower(t) == [Lower(t[0]), Lower(t[1]), Lower(t[2])];
    }
  }

  lemma NumberIsDigits(t: string, n: nat)
    requires SaysNumber(t, n)
    ensures Value(t, 10) == Some(n) && t != [] && AllDigits(t, 10)
  {
    NumberTextExact(t, n);
    ValueDigits(t, 10);
  }

  lemma OctetTextExact(t: string, b: byte)
    ensures ParseOctet(t) == Some(b) <==> SaysOctet(t, b)
  {
    NumberTextExact(t, b);
  }

  /** The port parser accepts exactly the texts of the grammar, as what they say. */
  lemma PortTextExact(s: string, p: byte, n: u16)
    ensures ParsePort(s) == Some(PortKey(Htons(n), p)) <==> SaysPort(s, p, n)
  {
    CutExact(s, '/');
    if SaysPort(s, p, n) {
      var t, d :| SplitFirst(s, '/', t, d) && SaysProtocol(t, p) && SaysNumber(d, n);
      CutAtFirst(t, '/', d);
      ProtocolTextExact(t, p);
      NumberTextExact(d, n);
    }
    if ParsePort(s) == Some(PortKey(Htons(n), p)) {
      var cut := Cut(s, '/').value;
      var number := Value(cut.1, 10).value;
      HtonsExact(number, n);
      ProtocolTextExact(cut.0, p);
      NumberTextExact(cut.1, n);
    }
  }

  predicate OctetText(t: string, b: byte) {
    t != [] && AllDigits(t, 10) && ParseOctet(t) == Some(b)
  }

  lemma SaidOctet(t: string, b: byte)
    requires SaysOctet(t, b)
    ensures OctetText(t, b)
  {
    NumberIsDigits(t, b);
  }

  lemma DottedParses(s: string, o: Addr4, a: string, b: string, c: string, d: string)
    requires Dotted(s, a, b, c, d)
    requires OctetText(a, o[0]) && OctetText(b, o[1]) && OctetText(c, o[2]) && OctetText(d, o[3])
    ensures ParseIpv4(s) == Some(o) && FirstMark(s) == Some('.') && s[0] != '['
  {
    CutAtFirst(a, '.', b + "." + (c + "." + d));
    CutAtFirst(b, '.', c + "." + d);
    CutAtFirst(c, '.', d);
    DigitsThenDot(a, b + "." + (c + "." + d));
    assert s[0] == a[0];
    assert o == [o[0], o[1], o[2], o[3]];
  }

  lemma ParsedIsDotted(s: string)
    requires ParseIpv4(s).Some?
    ensures SaysOctets(s, ParseIpv4(s).value)
  {
    var o := ParseIpv4(s).value;
    CutExact(s, '.');
    var x := Cut(s, '.').value;
    CutExact(x.1, '.');
    var y := Cut(x.1, '.').value;
    CutExact(y.1, '.');
    var z := Cut(y.1, '.').value;
    assert Dotted(s, x.0, y.0, z.0, z.1);
    OctetTextExact(x.0, o[0]);
    OctetTextExact(y.0, o[1]);
    OctetTextExact(z.0, o[2]);
    OctetTextExact(z.1, o[3]);
  }

  lemma OctetsTextExact(s: string, o: Addr4)
    ensures ParseIpv4(s) == Some(o) <==> SaysOctets(s, o)
    ensures SaysOctets(s, o) ==> FirstMark(s) == Some('.') && s != [] && s[0] != '['
  {
    if SaysOctets(s, o) {
      var a, b, c, d :| Dotted(s, a, b, c, d) && SaysOctet(a, o[0]) && SaysOctet(b, o[1]) && SaysOctet(c, o[2]) &&
          SaysOctet(d, o[3]);
      SaidOctet(a, o[0]);
      SaidOctet(b, o[1]);
      SaidOctet(c, o[2]);
      SaidOctet(d, o[3]);
      DottedParses(s, o, a, b, c, d);
    }
    if ParseIpv4(s).Some? {
      ParsedIsDotted(s);
    }
  }

  lemma AddrTextExact(net: Net, s: string, o: Addr4)
    requires LawfulNet(net)
    ensures ParseAddr(net, s) == Some(Ip4Addr(o)) <==> SaysOctets(s, o)
  {
    OctetsTextExact(s, o);
  }

  lemma V4HostTextExact(net: Net, s: string, o: Addr4)
    requires LawfulNet(net)
    ensures ParseV4Host(net, s) == Some(Ipv4Key(o)) <==> SaysV4Host(net, s, o)
  {
    AddrTextExact(net, s, o);
    match ParseAddr(net, s)
    case Some(Ip4Addr(q)) =>
      AddrTextExact(net, s, q);
      Ipv4KeyRoundTrip(q);
      Ipv4KeyRoundTrip(o);
    case Some(Ip6Addr(a, zone)) =>
      assert SaysAddr6(net, s, a);
      MappedExact(a);
      Ipv4KeyRoundTrip(o);
      if Mapped(a) { Ipv4KeyRoundTrip(a[12..]); }
    case None =>
  }

  lemma V6HostTextExact(net: Net, s: string, a: Addr6)
    requires LawfulNet(net)
    ensures ParseV6Host(net, s) == Some(a) <==> SaysV6Host(net, s, a)
  {
    MappedExact(a);
  }

  /** The parts of a host+port text, whatever its host. */
  lemma PairParts(net: Net, s: string, t: string, rest: string, ip: string, d: string, p: byte, n: u16)
    requires SplitFirst(s, '/', t, rest) && SplitLast(rest, ':', ip, d) && SaysProtocol(t, p) && SaysNumber(d, n) &&
             ip != []
    ensures ParsePair(net, s) ==
            if ip[0] == '[' then
              if |ip| < 2 || ip[|ip| - 1] != ']' then None
              else match ParseAddr(net, ip[1..|ip| - 1]) { case Some(a) => if a.Ip4Addr? then None else Some((p, a, n))
                                                             case None => None }
            else match ParseAddr(net, ip) { case Some(a) => if a.Ip6Addr? then None else Some((p, a, n))
                                              case None => None }
  {
    CutAtFirst(t, '/', rest);
    CutAtLast(ip, ':', d);
    ProtocolTextExact(t, p);
    NumberIsDigits(d, n);
  }

  lemma SaidV4PairParses(net: Net, s: string, p: byte, o: Addr4, n: u16)
    requires SaysV4Pair(s, p, o, n)
    ensures ParsePair(net, s) == Some((p, Ip4Addr(o), n))
  {
    var t, rest, h, d :|
      SplitFirst(s, '/', t, rest) && SplitLast(rest, ':', h, d) && SaysProtocol(t, p) && SaysOctets(h, o) &&
      SaysNumber(d, n);
    OctetsTextExact(h, o);
    PairParts(net, s, t, rest, h, d, p, n);
  }

  lemma V4PairTextExact(net: Net, s: string, p: byte, o: Addr4, n: u16)
    requires LawfulNet(net)
    ensures ParsePair(net, s) == Some((p, Ip4Addr(o), n)) <==> SaysV4Pair(s, p, o, n)
  {
    if SaysV4Pair(s, p, o, n) {
      SaidV4PairParses(net, s, p, o, n);
    }
    if ParsePair(net, s) == Some((p, Ip4Addr(o), n)) {
      CutExact(s, '/');
      var x := Cut(s, '/').value;
      CutLastExact(x.1, ':');
      var y := CutLast(x.1, ':').value;
      AddrTextExact(net, y.0, o);
      ProtocolTextExact(x.0, p);
      NumberTextExact(y.1, n);
    }
  }

  lemma SaidV6PairParses(net: Net, s: string, p: byte, a: Addr6, n: u16)
    requires LawfulNet(net) && SaysV6Pair(net, s, p, a, n)
    ensures ParseV6Pair(net, s) == Some(HostPort6(a, Htons(n), p))
  {
    var t, rest, h, d :|
      SplitFirst(s, '/', t, rest) && SplitLast(rest, ':', "[" + h + "]", d) && SaysProtocol(t, p) &&
      SaysV6Host(net, h, a) && SaysNumber(d, n);
    var ip := "[" + h + "]";
    assert ip[1..|ip| - 1] == h;
    MappedExact(a);
    PairParts(net, s, t, rest, ip, d, p, n);
  }

  lemma V6PairTextExact(net: Net, s: string, p: byte, a: Addr6, n: u16)
    requires LawfulNet(net)
    ensures ParseV6Pair(net, s) == Some(HostPort6(a, Htons(n), p)) <==> SaysV6Pair(net, s, p, a, n)
  {
    if SaysV6Pair(net, s, p, a, n) {
      SaidV6PairParses(net, s, p, a, n);
    }
    if ParseV6Pair(net, s) == Some(HostPort6(a, Htons(n), p)) {
      CutExact(s, '/');
      var x := Cut(s, '/').value;
      CutLastExact(x.1, ':');
      var y := CutLast(x.1, ':').value;
      var h := y.0[1..|y.0| - 1];
      assert y.0 == "[" + h + "]";
      HtonsExact(ParsePair(net, s).value.2, n);
      ProtocolTextExact(x.0, p);
      NumberTextExact(y.1, n);
      MappedExact(a);
      assert SaysV6Host(net, h, a);
    }
  }

  // ---------- from text to the keys the filter builds ----------

  /** The key of a port text meets the filter's key exactly when the packet's wire
      port and protocol are those the text says, on the rule's interface. */
  lemma PortTextDecides(s: string, rule: u32, ifindex: u32, dport: Bytes, wire: byte)
    requires |dport| == 2 && ParsePort(s).Some?
    ensures Serialize(Key(rule, Port(ParsePort(s).value))) == KernelPortKey(ifindex, dport, wire) <==>
              rule == ifindex && SaysPort(s, wire, Be16(dport, 0))
  {
    var k := ParsePort(s).value;
    var n := Value(Cut(s, '/').value.1, 10).value;
    PortRuleMatches(rule, n, k.protocol, ifindex, dport, wire);
    PortTextExact(s, wire, Be16(dport, 0));
    HtonsExact(n, Be16(dport, 0));
  }

  lemma V4HostTextDecides(net: Net, s: string, rule: u32, ifindex: u32, daddr: Addr4)
    requires LawfulNet(net) && ParseV4Host(net, s).Some?
    ensures Serialize(Key(rule, V4Host(ParseV4Host(net, s).value))) == KernelV4HostKey(ifindex, daddr) <==>
              rule == ifindex && SaysV4Host(net, s, daddr)
  {
    var o := Ipv4FromNetworkOrder(ParseV4Host(net, s).value);
    StoreLoad32(ParseV4Host(net, s).value);
    HostRuleMatches(rule, o, seq(16, _ => 0), ifindex, daddr, seq(16, _ => 0));
    V4HostTextExact(net, s, daddr);
    Ipv4KeyRoundTrip(daddr);
  }

  lemma V6HostTextDecides(net: Net, s: string, rule: u32, ifindex: u32, daddr: Addr6)
    requires LawfulNet(net) && ParseV6Host(net, s).Some?
    ensures Serialize(Key(rule, V6Host(ParseV6Host(net, s).value))) == KernelV6HostKey(ifindex, daddr) <==>
              rule == ifindex && SaysV6Host(net, s, daddr)
  {
    HostRuleMatches(rule, [0, 0, 0, 0], ParseV6Host(net, s).value, ifindex, [0, 0, 0, 0], daddr);
    V6HostTextExact(net, s, daddr);
  }

  lemma V4PairTextDecides(net: Net, s: string, rule: u32, ifindex: u32, daddr: Addr4, dport: Bytes, wire: byte)
    requires LawfulNet(net) && |dport| == 2 && ParseV4Pair(net, s).Some?
    ensures Serialize(Key(rule, V4Pair(ParseV4Pair(net, s).value))) == KernelV4PairKey(ifindex, daddr, dport, wire) <==>
              rule == ifindex && SaysV4Pair(s, wire, daddr, Be16(dport, 0))
  {
    var (p, a, n) := ParsePair(net, s).value;
    V4PairRuleMatches(rule, a.octets4, n, p, ifindex, daddr, dport, wire);
    V4PairTextExact(net, s, wire, daddr, Be16(dport, 0));
  }

  lemma V6PairTextDecides(net: Net, s: string, rule: u32, ifindex: u32, daddr: Addr6, dport: Bytes, wire: byte)
    requires LawfulNet(net) && |dport| == 2 && ParseV6Pair(net, s).Some?
    ensures Serialize(Key(rule, V6Pair(ParseV6Pair(net, s).value))) == KernelV6PairKey(ifindex, daddr, dport, wire) <==>
              rule == ifindex && SaysV6Pair(net, s, wire, daddr, Be16(dport, 0))
  {
    var (p, a, n) := ParsePair(net, s).value;
    V6PairRuleMatches(rule, a.octets6, n, p, ifindex, daddr, dport, wire);
    V6PairTextExact(net, s, wire, daddr, Be16(dport, 0));
    HtonsExact(n, Be16(dport, 0));
  }

  // ---------- from a policy's text to the fate of a packet ----------

  /** The texts of a policy name this packet. */
  ghost predicate NamedByText(net: Net, a: ApiRules, mark: u32, p: Packet) {
    || (exists s :: s in a.marks && SaysMark(s, mark))
    || (p.Ip4? &&
        (|| (exists s :: s in a.v4Hosts && SaysV4Host(net, s, p.dest4))
         || ((p.payload.Udp? || p.payload.Tcp?) &&
             (|| (exists s :: s in a.ports && SaysPort(s, Protocol(p.payload), p.payload.dest))
              || (exists s :: s in a.v4Pairs && SaysV4Pair(s, Protocol(p.payload), p.dest4, p.payload.dest))))))
    || (p.Ip6? &&
        (|| (exists s :: s in a.v6Hosts && SaysV6Host(net, s, p.dest6))
         || ((p.payload.Udp? || p.payload.Tcp?) &&
             (|| (exists s :: s in a.ports && SaysPort(s, Protocol(p.payload), p.payload.dest))
              || (exists s :: s in a.v6Pairs && SaysV6Pair(net, s, Protocol(p.payload), p.dest6, p.payload.dest))))))
  }

  /** The decision a policy's text promises. */
  ghost predicate TextDecision(net: Net, a: ApiRules, mark: u32, data: Bytes) {
    || a.allowAll
    || exists f: Frame ::
         && WellFormed(f) && Encode(f) == data
         && (|| Bootstrap(f.packet).Some?
             || (f.packet.Ip4? && a.enableV4 && NamedByText(net, a, mark, f.packet))
             || (f.packet.Ip6? && a.enableV6 && NamedByText(net, a, mark, f.packet)))
  }

  lemma MarkListSays(texts: seq<string>, m: u32)
    requires ParseAll(MarkCodec(), texts).Some?
    ensures m in ParseAll(MarkCodec(), texts).value <==> exists s :: s in texts && SaysMark(s, m)
  {
    ParsedDenotes(MarkCodec(), texts, m);
    forall s | s in texts { MarkTextExact(s, m); }
  }

  lemma PortListSays(texts: seq<string>, p: byte, n: u16)
    requires ParseAll(PortCodec(), texts).Some?
    ensures PortKey(Htons(n), p) in ParseAll(PortCodec(), texts).value <==> exists s :: s in texts && SaysPort(s, p, n)
  {
    ParsedDenotes(PortCodec(), texts, PortKey(Htons(n), p));
    forall s | s in texts { PortTextExact(s, p, n); }
  }

  lemma V4HostListSays(net: Net, texts: seq<string>, o: Addr4)
    requires LawfulNet(net) && ParseAll(V4HostCodec(net), texts).Some?
    ensures Ipv4Key(o) in ParseAll(V4HostCodec(net), texts).value <==> exists s :: s in texts && SaysV4Host(net, s, o)
  {
    ParsedDenotes(V4HostCodec(net), texts, Ipv4Key(o));
    forall s | s in texts { V4HostTextExact(net, s, o); }
  }

  lemma V6HostListSays(net: Net, texts: seq<string>, a: Addr6)
    requires LawfulNet(net) && ParseAll(V6HostCodec(net), texts).Some?
    ensures a in ParseAll(V6HostCodec(net), texts).value <==> exists s :: s in texts && SaysV6Host(net, s, a)
  {
    ParsedDenotes(V6HostCodec(net), texts, a);
    forall s | s in texts { V6HostTextExact(net, s, a); }
  }

  lemma V4PairKeyExact(net: Net, s: string, p: byte, o: Addr4, n: u16)
    requires LawfulNet(net)
    ensures ParseV4Pair(net, s) == Some(HostPort4(Ipv4Key(o), Htons(n), p)) <==> SaysV4Pair(s, p, o, n)
  {
    V4PairTextExact(net, s, p, o, n);
    match ParsePair(net, s)
    case Some((q, Ip4Addr(a), m)) =>
      Ipv4KeyRoundTrip(a);
      Ipv4KeyRoundTrip(o);
      HtonsExact(m, n);
    case _ =>
  }

  lemma V4PairListSays(net: Net, texts: seq<string>, p: byte, o: Addr4, n: u16)
    requires LawfulNet(net) && ParseAll(V4PairCodec(net), texts).Some?
    ensures HostPort4(Ipv4Key(o), Htons(n), p) in ParseAll(V4PairCodec(net), texts).value <==>
              exists s :: s in texts && SaysV4Pair(s, p, o, n)
  {
    ParsedDenotes(V4PairCodec(net), texts, HostPort4(Ipv4Key(o), Htons(n), p));
    forall s | s in texts { V4PairKeyExact(net, s, p, o, n); }
  }

  lemma V6PairListSays(net: Net, texts: seq<string>, p: byte, a: Addr6, n: u16)
    requires LawfulNet(net) && ParseAll(V6PairCodec(net), texts).Some?
    ensures HostPort6(a, Htons(n), p) in ParseAll(V6PairCodec(net), texts).value <==>
              exists s :: s in texts && SaysV6Pair(net, s, p, a, n)
  {
    ParsedDenotes(V6PairCodec(net), texts, HostPort6(a, Htons(n), p));
    forall s | s in texts { V6PairTextExact(net, s, p, a, n); }
  }

  lemma Ip4NamedByText(net: Net, a: ApiRules, mark: u32, p: Packet)
    requires LawfulNet(net) && ParseRules(net, a).Some? && p.Ip4?
    ensures NamedBy(ParseRules(net, a).value, mark, p) <==> NamedByText(net, a, mark, p)
  {
    MarkListSays(a.marks, mark);
    V4HostListSays(net, a.v4Hosts, p.dest4);
    if p.payload.Udp? || p.payload.Tcp? {
      PortListSays(a.ports, Protocol(p.payload), p.payload.dest);
      V4PairListSays(net, a.v4Pairs, Protocol(p.payload), p.dest4, p.payload.dest);
    }
  }

  lemma Ip6NamedByText(net: Net, a: ApiRules, mark: u32, p: Packet)
    requires LawfulNet(net) && ParseRules(net, a).Some? && p.Ip6?
    ensures NamedBy(ParseRules(net, a).value, mark, p) <==> NamedByText(net, a, mark, p)
  {
    MarkListSays(a.marks, mark);
    V6HostListSays(net, a.v6Hosts, p.dest6);
    if p.payload.Udp? || p.payload.Tcp? {
      PortListSays(a.ports, Protocol(p.payload), p.payload.dest);
      V6PairListSays(net, a.v6Pairs, Protocol(p.payload), p.dest6, p.payload.dest);
    }
  }

  /** From text to verdict: the filter over the tables written for a policy's text
      passes a byte string exactly when the text says so. */
  lemma TextDecides(net: Net, a: ApiRules, mark: u32, data: Bytes)
    requires LawfulNet(net) && ParseRules(net, a).Some?
    ensures Permits(RulesView(ParseRules(net, a).value), mark, data) <==> TextDecision(net, a, mark, data)
  {
    var r := ParseRules(net, a).value;
    RulesViewIsPlain(r, mark, data);
    forall f: Frame | f.packet.Ip4? { Ip4NamedByText(net, a, mark, f.packet); }
    forall f: Frame | f.packet.Ip6? { Ip6NamedByText(net, a, mark, f.packet); }
  }

  // ---------- which texts are refused ----------

  lemma MarkTextRead(s: string)
    ensures ParseMark(s).Some? <==> exists m :: SaysMark(s, m)
  {
    if ParseMark(s).Some? { MarkTextExact(s, ParseMark(s).value); }
    forall m | SaysMark(s, m) ensures ParseMark(s).Some? { MarkTextExact(s, m); }
  }

  lemma PortTextRead(s: string)
    ensures ParsePort(s).Some? <==> exists p, n :: SaysPort(s, p, n)
  {
    if ParsePort(s).Some? {
      var k := ParsePort(s).value;
      HtonsNtohs(k.dport);
      PortTextExact(s, k.protocol, Ntohs(k.dport));
    }
    forall p, n | SaysPort(s, p, n) ensures ParsePort(s).Some? { PortTextExact(s, p, n); }
  }

  lemma V4HostTextRead(net: Net, s: string)
    requires LawfulNet(net)
    ensures ParseV4Host(net, s).Some? <==> exists o :: SaysV4Host(net, s, o)
  {
    if ParseV4Host(net, s).Some? {
      StoreLoad32(ParseV4Host(net, s).value);
      V4HostTextExact(net, s, Ipv4FromNetworkOrder(ParseV4Host(net, s).value));
    }
    forall o | SaysV4Host(net, s, o) ensures ParseV4Host(net, s).Some? { V4HostTextExact(net, s, o); }
  }

  lemma V6HostTextRead(net: Net, s: string)
    requires LawfulNet(net)
    ensures ParseV6Host(net, s).Some? <==> exists a :: SaysV6Host(net, s, a)
  {
    if ParseV6Host(net, s).Some? { V6HostTextExact(net, s, ParseV6Host(net, s).value); }
    forall a | SaysV6Host(net, s, a) ensures ParseV6Host(net, s).Some? { V6HostTextExact(net, s, a); }
  }

  lemma V4PairTextRead(net: Net, s: string)
    requires LawfulNet(net)
    ensures ParseV4Pair(net, s).Some? <==> exists p, o, n :: SaysV4Pair(s, p, o, n)
  {
    if ParseV4Pair(net, s).Some? {
      var (p, a, n) := ParsePair(net, s).value;
      V4PairTextExact(net, s, p, a.octets4, n);
    }
    forall p, o, n | SaysV4Pair(s, p, o, n) ensures ParseV4Pair(net, s).Some? { V4PairTextExact(net, s, p, o, n); }
  }

  lemma V6PairTextRead(net: Net, s: string)
    requires LawfulNet(net)
    ensures ParseV6Pair(net, s).Some? <==> exists p, a, n :: SaysV6Pair(net, s, p, a, n)
  {
    if ParseV6Pair(net, s).Some? {
      var (p, a, n) := ParsePair(net, s).value;
      V6PairTextExact(net, s, p, a.octets6, n);
    }
    forall p, a, n | SaysV6Pair(net, s, p, a, n) ensures ParseV6Pair(net, s).Some? {
      V6PairTextExact(net, s, p, a, n);
    }
  }

  /** A policy is accepted exactly when each of its texts says something of its kind. */
  lemma AcceptedExact(net: Net, a: ApiRules)
    requires LawfulNet(net)
    ensures ParseRules(net, a).Some? <==>
              && (forall s :: s in a.marks ==> exists m :: SaysMark(s, m))
              && (forall s :: s in a.ports ==> exists p, n :: SaysPort(s, p, n))
              && (forall s :: s in a.v4Hosts ==> exists o :: SaysV4Host(net, s, o))
              && (forall s :: s in a.v6Hosts ==> exists x :: SaysV6Host(net, s, x))
              && (forall s :: s in a.v4Pairs ==> exists p, o, n :: SaysV4Pair(s, p, o, n))
              && (forall s :: s in a.v6Pairs ==> exists p, x, n :: SaysV6Pair(net, s, p, x, n))
  {
    ListRead(MarkCodec(), a.marks);
    ListRead(PortCodec(), a.ports);
    ListRead(V4HostCodec(net), a.v4Hosts);
    ListRead(V6HostCodec(net), a.v6Hosts);
    ListRead(V4PairCodec(net), a.v4Pairs);
    ListRead(V6PairCodec(net), a.v6Pairs);
    forall s ensures ParseMark(s).Some? <==> exists m :: SaysMark(s, m) { MarkTextRead(s); }
    forall s ensures ParsePort(s).Some? <==> exists p, n :: SaysPort(s, p, n) { PortTextRead(s); }
    forall s ensures ParseV4Host(net, s).Some? <==> exists o :: SaysV4Host(net, s, o) { V4HostTextRead(net, s); }
    forall s ensures ParseV6Host(net, s).Some? <==> exists x :: SaysV6Host(net, s, x) { V6HostTextRead(net, s); }
    forall s ensures ParseV4Pair(net, s).Some? <==> exists p, o, n :: SaysV4Pair(s, p, o, n) {
      V4PairTextRead(net, s);
    }
    forall s ensures ParseV6Pair(net, s).Some? <==> exists p, x, n :: SaysV6Pair(net, s, p, x, n) {
      V6PairTextRead(net, s);
    }
  }
}
