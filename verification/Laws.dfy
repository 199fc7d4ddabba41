/** Relational laws of the egress filter: what rewriting a frame does to its fate. */
module Laws {
  import opened Words
  import opened Frames
  import opened Filter

  /** Two packets the decision cannot tell apart. */
  ghost predicate Alike(p: Packet, q: Packet) {
    && Bootstrap(p) == Bootstrap(q)
    && (p.Ip4? <==> q.Ip4?) && (p.Ip6? <==> q.Ip6?)
    && forall mark :: Matching(mark, p) == Matching(mark, q)
  }

  lemma AlikeJudgedAlike(v: View, mark: u32, a: Bytes, b: Bytes)
    requires Parse(a).Some? <==> Parse(b).Some?
    requires Parse(a).Some? ==> Alike(Parse(a).value.packet, Parse(b).value.packet)
    ensures Permits(v, mark, a) <==> Permits(v, mark, b)
  {
    PermitsByParse(v, mark, a);
    PermitsByParse(v, mark, b);
    if Parse(a).Some? {
      var p, q := Parse(a).value.packet, Parse(b).value.packet;
      assert Matching(mark, p) == Matching(mark, q);
      assert FamilyEnabled(v.config, p) <==> FamilyEnabled(v.config, q);
    }
  }

  // ---------- VLAN tags ----------

  function WithTag(data: Bytes, tag: Tag): Bytes
    requires |data| >= 12
  {
    data[..12] + EncodeTag(Some(tag)) + data[12..]
  }

  predicate GoodTag(tag: Tag) {
    IsVlan(tag.tpid) && |tag.tci| == 2
  }

  predicate Tagged(data: Bytes) {
    |data| >= 14 && IsVlan(Be16(data, 12))
  }

  lemma WithTagLayout(data: Bytes, tag: Tag)
    requires |data| >= 12 && GoodTag(tag)
    ensures var r := WithTag(data, tag);
            && |r| == |data| + 4 && Be16(r, 12) == tag.tpid && r[16..] == data[12..]
            && (|data| >= 14 ==> Be16(r, 16) == Be16(data, 12) && r[18..] == data[14..])
  {
  }

  /** Inserting one 802.1Q or 802.1ad tag into an untagged frame changes nothing. */
  lemma TagTransparent(v: View, mark: u32, data: Bytes, tag: Tag)
    requires |data| >= 12 && GoodTag(tag) && !Tagged(data)
    ensures Permits(v, mark, WithTag(data, tag)) <==> Permits(v, mark, data)
  {
    WithTagLayout(data, tag);
    if Parse(data).Some? {
      assert Parse(WithTag(data, tag)).value.packet == Parse(data).value.packet;
    }
    AlikeJudgedAlike(v, mark, WithTag(data, tag), data);
  }

  /** A second tag is fatal: the frame passes only when everything does. */
  lemma SecondTagDrops(v: View, mark: u32, data: Bytes, tag: Tag)
    requires GoodTag(tag) && Tagged(data)
    ensures Permits(v, mark, WithTag(data, tag)) <==> AllowsAll(v.config)
  {
    WithTagLayout(data, tag);
    PermitsByParse(v, mark, WithTag(data, tag));
    assert Parse(WithTag(data, tag)).None?;
  }

  /** So a tag is transparent exactly when the frame is untagged, or was going to
      be dropped, or everything passes. */
  lemma TagTransparentExact(v: View, mark: u32, data: Bytes, tag: Tag)
    requires |data| >= 12 && GoodTag(tag)
    ensures (Permits(v, mark, WithTag(data, tag)) <==> Permits(v, mark, data)) <==>
              !Tagged(data) || !Permits(v, mark, data) || AllowsAll(v.config)
  {
    if Tagged(data) {
      SecondTagDrops(v, mark, data, tag);
    } else {
      TagTransparent(v, mark, data, tag);
    }
  }

  // ---------- IPv4 options ----------

  /** A complete IPv4 header starts at `at`. */
  predicate Ip4At(data: Bytes, at: nat) {
    && |data| >= at + 20 && data[at] / 16 == 4 && data[at] % 16 >= 5
    && |data| >= at + data[at] % 16 * 4
  }

  /** The same frame with its option field replaced and the header length adjusted. */
  function WithOptions(data: Bytes, at: nat, options: Bytes): Bytes
    requires Ip4At(data, at) && |options| % 4 == 0 && |options| <= 40
  {
    data[..at] + Ip4WithOptions(data[at..], options)
  }

  function Ip4WithOptions(b: Bytes, options: Bytes): Bytes
    requires Ip4At(b, 0) && |options| % 4 == 0 && |options| <= 40
  {
    [0x45 + |options| / 4] + b[1..20] + options + b[b[0] % 16 * 4..]
  }

  lemma Ip4OptionsLayout(b: Bytes, options: Bytes)
    requires Ip4At(b, 0) && |options| % 4 == 0 && |options| <= 40
    ensures var r := Ip4WithOptions(b, options);
            && |r| >= 20 + |options| && r[0] % 16 * 4 == 20 + |options| && r[0] / 16 == 4
            && r[1..6] == b[1..6] && (forall i :: 6 <= i < 10 ==> r[i] == b[i])
            && r[10..16] == b[10..16] && r[16..20] == b[16..20]
            && r[20..20 + |options|] == options && r[20 + |options|..] == b[b[0] % 16 * 4..]
  {
    var r := Ip4WithOptions(b, options);
    assert r[1..20] == b[1..20];
    assert forall i :: 1 <= i < 20 ==> r[i] == r[1..20][i - 1] && b[i] == b[1..20][i - 1];
  }

  lemma Ip4OptionsAlike(b: Bytes, options: Bytes)
    requires Ip4At(b, 0) && |options| % 4 == 0 && |options| <= 40
    ensures var r := Ip4WithOptions(b, options);
            && (ParseIp4(r).Some? <==> ParseIp4(b).Some?)
            && (ParseIp4(b).Some? ==> ParseIp4(r) == Some(ParseIp4(b).value.(options := options)))
  {
    Ip4OptionsLayout(b, options);
  }

  lemma WithOptionsLayout(data: Bytes, at: nat, depth: nat, options: Bytes)
    requires LinkHeader(data, ETH_P_IP, at, depth) && Ip4At(data, at)
    requires |options| % 4 == 0 && |options| <= 40
    ensures var r := WithOptions(data, at, options);
            LinkHeader(r, ETH_P_IP, at, depth) && r[at..] == Ip4WithOptions(data[at..], options)
  {
    var r := WithOptions(data, at, options);
    assert r[..at] == data[..at];
    assert forall i :: 0 <= i < at ==> r[i] == r[..at][i] && data[i] == data[..at][i];
  }

  lemma ParseAfterLink(data: Bytes, at: nat, depth: nat)
    requires LinkHeader(data, ETH_P_IP, at, depth)
    ensures Parse(data).Some? <==> ParseIp4(data[at..]).Some?
    ensures Parse(data).Some? ==> Some(Parse(data).value.packet) == ParseIp4(data[at..])
  {
  }

  /** Replacing the options of an IPv4 frame by any others changes nothing. */
  lemma OptionsTransparent(v: View, mark: u32, data: Bytes, at: nat, depth: nat, options: Bytes)
    requires LinkHeader(data, ETH_P_IP, at, depth) && Ip4At(data, at)
    requires |options| % 4 == 0 && |options| <= 40
    ensures Permits(v, mark, WithOptions(data, at, options)) <==> Permits(v, mark, data)
  {
    var r := WithOptions(data, at, options);
    WithOptionsLayout(data, at, depth, options);
    Ip4OptionsAlike(data[at..], options);
    ParseAfterLink(data, at, depth);
    ParseAfterLink(r, at, depth);
    AlikeJudgedAlike(v, mark, r, data);
  }

  // ---------- trailing bytes ----------

  function Longer(p: Packet, more: Bytes): Packet {
    match p
    case Arp(content) => Arp(content + more)
    case Ip4(a, b, c, d, e, f, t) => Ip4(a, b, c, d, e, f, t.(body := t.body + more))
    case Ip6(a, b, c, d, e, t) => Ip6(a, b, c, d, e, t.(body := t.body + more))
  }

  lemma AppendTransport4(protocol: byte, b: Bytes, more: Bytes)
    requires ParseTransport4(protocol, b).Some?
    ensures var t := ParseTransport4(protocol, b).value;
            ParseTransport4(protocol, b + more) == Some(t.(body := t.body + more))
  {
    if |b| >= 4 {
      assert (b + more)[4..] == b[4..] + more;
    }
  }

  lemma AppendTransport6(protocol: byte, b: Bytes, more: Bytes)
    requires ParseTransport6(protocol, b).Some?
    ensures var t := ParseTransport6(protocol, b).value;
            ParseTransport6(protocol, b + more) == Some(t.(body := t.body + more))
  {
    assert (b + more)[4..] == b[4..] + more;
    assert (b + more)[1..] == b[1..] + more;
  }

  lemma AppendIp4(b: Bytes, more: Bytes)
    requires ParseIp4(b).Some?
    ensures ParseIp4(b + more) == Some(Longer(ParseIp4(b).value, more))
  {
    var r := b + more;
    var length := b[0] % 16 * 4;
    AppendTransport4(b[9], b[length..], more);
    assert r[length..] == b[length..] + more;
    assert r[1..6] == b[1..6] && r[10..16] == b[10..16] && r[16..20] == b[16..20] && r[20..length] == b[20..length];
  }

  lemma AppendIp6(b: Bytes, more: Bytes)
    requires ParseIp6(b).Some?
    ensures ParseIp6(b + more) == Some(Longer(ParseIp6(b).value, more))
  {
    var r := b + more;
    AppendTransport6(b[6], b[40..], more);
    assert r[40..] == b[40..] + more;
    assert r[1..6] == b[1..6] && r[8..24] == b[8..24] && r[24..40] == b[24..40];
  }

  lemma AppendPacket(proto: u16, b: Bytes, more: Bytes)
    requires ParsePacket(proto, b).Some?
    ensures ParsePacket(proto, b + more).Some?
    ensures Alike(ParsePacket(proto, b).value, ParsePacket(proto, b + more).value)
  {
    if proto == ETH_P_IP {
      AppendIp4(b, more);
    } else if proto == ETH_P_IPV6 {
      AppendIp6(b, more);
    }
  }

  lemma AppendParse(data: Bytes, more: Bytes)
    requires Parse(data).Some?
    ensures Parse(data + more).Some?
    ensures Alike(Parse(data).value.packet, Parse(data + more).value.packet)
  {
    var r := data + more;
    assert Be16(r, 12) == Be16(data, 12);
    if Tagged(data) {
      assert r[18..] == data[18..] + more;
      AppendPacket(Be16(data, 16), data[18..], more);
    } else {
      assert r[14..] == data[14..] + more;
      AppendPacket(Be16(data, 12), data[14..], more);
    }
  }

  /** Appending bytes to a passing frame keeps it passing. */
  lemma AppendKeepsPassing(v: View, mark: u32, data: Bytes, more: Bytes)
    requires Permits(v, mark, data)
    ensures Permits(v, mark, data + more)
  {
    PermitsByParse(v, mark, data);
    PermitsByParse(v, mark, data + more);
    if Parse(data).Some? {
      AppendParse(data, more);
      AlikeJudgedAlike(v, mark, data, data + more);
    }
  }
}
