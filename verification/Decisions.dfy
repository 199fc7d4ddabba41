/** What the rules promise a packet, with no kernel table in sight, and that the
    encoded tables keep the promise (cmd/killswitch/killswitch.c:376-564,
    cmd/killswitch/policy_manager.go:192-219). */
module Decisions {
  import opened Words
  import opened Rules
  import opened Frames
  import opened Filter
  import opened Kernel

  /** The rule lists name this packet: its mark, its destination port, its
      destination host, or the two together. */
  predicate NamedBy(r: AllowRules, mark: u32, p: Packet) {
    match p
    case Arp(_) => mark in r.marks
    case Ip4(_, _, _, _, dest, _, payload) =>
      || mark in r.marks
      || Ipv4Key(dest) in r.v4Hosts
      || ((payload.Udp? || payload.Tcp?) &&
          (PortKey(Htons(payload.dest), Protocol(payload)) in r.ports ||
           HostPort4(Ipv4Key(dest), Htons(payload.dest), Protocol(payload)) in r.v4Pairs))
    case Ip6(_, _, _, _, dest, payload) =>
      || mark in r.marks
      || dest in r.v6Hosts
      || ((payload.Udp? || payload.Tcp?) &&
          (PortKey(Htons(payload.dest), Protocol(payload)) in r.ports ||
           HostPort6(dest, Htons(payload.dest), Protocol(payload)) in r.v6Pairs))
  }

  /** The decision the rules promise, with no kernel table in sight. */
  ghost predicate PlainDecision(r: AllowRules, mark: u32, data: Bytes) {
    || r.allowAll
    || exists f: Frame ::
         && WellFormed(f) && Encode(f) == data
         && (|| Bootstrap(f.packet).Some?
             || (f.packet.Ip4? && r.enableV4 && NamedBy(r, mark, f.packet))
             || (f.packet.Ip6? && r.enableV6 && NamedBy(r, mark, f.packet)))
  }

  lemma NamedByExact(r: AllowRules, mark: u32, p: Packet)
    requires p.Ip4? || p.Ip6?
    ensures NamedBy(r, mark, p) <==> Listed(Entries(r), mark, p)
  {
    EntriesByTable(r);
    var wanted := Matching(mark, p);
    assert Mark(mark) in wanted;
    if p.Ip4? {
      assert V4Host(Ipv4Key(p.dest4)) in wanted;
      if p.payload.Udp? || p.payload.Tcp? {
        assert Port(PortKey(Htons(p.payload.dest), Protocol(p.payload))) in wanted;
        assert V4Pair(HostPort4(Ipv4Key(p.dest4), Htons(p.payload.dest), Protocol(p.payload))) in wanted;
      }
    } else {
      assert V6Host(p.dest6) in wanted;
      if p.payload.Udp? || p.payload.Tcp? {
        assert Port(PortKey(Htons(p.payload.dest), Protocol(p.payload))) in wanted;
        assert V6Pair(HostPort6(p.dest6, Htons(p.payload.dest), Protocol(p.payload))) in wanted;
      }
    }
    assert forall e :: e in wanted && Lists(r, e) ==> NamedBy(r, mark, p);
  }

  lemma PlainPacket(r: AllowRules, mark: u32, p: Packet)
    ensures PacketPermitted(RulesView(r), mark, p) <==>
              || Bootstrap(p).Some?
              || (p.Ip4? && r.enableV4 && NamedBy(r, mark, p))
              || (p.Ip6? && r.enableV6 && NamedBy(r, mark, p))
  {
    if p.Ip4? || p.Ip6? {
      NamedByExact(r, mark, p);
    }
  }

  /** Encoded rules decide exactly as the rules themselves. */
  lemma RulesViewIsPlain(r: AllowRules, mark: u32, data: Bytes)
    ensures Permits(RulesView(r), mark, data) <==> PlainDecision(r, mark, data)
  {
    PermitsByParse(RulesView(r), mark, data);
    if Parse(data).Some? {
      ParseSound(data);
      PlainPacket(r, mark, Parse(data).value.packet);
    }
    forall f: Frame | WellFormed(f) && Encode(f) == data ensures Parse(data) == Some(f) {
      ParseComplete(f);
    }
  }

  /** End to end: when the tables represent a policy map, the filter's verdict on
      every byte string, mark and interface is the plain decision on that
      interface's rules, and only bootstrap traffic passes anywhere else. */
  lemma EndToEnd(t: Tables, policies: map<u32, AllowRules>, i: u32, mark: u32, data: Bytes)
    requires Represents(t, policies)
    ensures Permits(ViewOf(t, i), mark, data) <==>
              if i in policies then PlainDecision(policies[i], mark, data) else IsBootstrap(data)
  {
    assert if i in policies then EncodesAt(t, i, policies[i]) else EmptyAt(t, i);
    if i in policies {
      EncodesAtView(t, i, policies[i]);
      RulesViewIsPlain(policies[i], mark, data);
    } else {
      ClosedPassesOnlyBootstrap(ViewOf(t, i), mark, data);
    }
  }
}
