/** Rule text: the printers of the admin API and the parsers of the configuration
    (internal/policy/policy.go, cmd/killswitch/effective_policy.go:248-320,
    cmd/killswitch/bpf_maps.go:356-422). */
module RuleText {
  import opened Words
  import opened Rules
  import opened Numerals
  import opened Effective

  /** IPv6 text is foreign; only its inverse law is used. */
  datatype Net = Net(parse6: string -> Option<Addr>, print6: Addr6 -> string)

  /** Printing and reading IPv6 addresses are inverse; the text of an address shows
      a colon before any dot or percent sign. */
  ghost predicate LawfulNet(net: Net) {
    && (forall a: Addr6 :: net.parse6(net.print6(a)) == Some(Ip6Addr(a, "")))
    && (forall a: Addr6 :: FirstMark(net.print6(a)) == Some(':'))
    && (forall s: string :: net.parse6(s).Some? ==> net.parse6(s).value.Ip6Addr?)
  }

  // ---------- text helpers ----------

  function Lower(c: char): char {
    if 'A' <= c <= 'Z' then 'a' + (c - 'A') else c
  }

  function ToLower(s: string): string {
    seq(|s|, i requires 0 <= i < |s| => Lower(s[i]))
  }

  /** `strings.Cut` at the first separator. */
  function Cut(s: string, sep: char): Option<(string, string)> {
    if s == [] then None
    else if s[0] == sep then Some(("", s[1..]))
    else
      match Cut(s[1..], sep)
      case None => None
      case Some((a, b)) => Some(([s[0]] + a, b))
  }

  lemma {:induction false} CutAtFirst(a: string, sep: char, b: string)
    requires sep !in a
    ensures Cut(a + [sep] + b, sep) == Some((a, b))
  {
    var s := a + [sep] + b;
    if a == [] {
      assert s[1..] == b;
    } else {
      assert s[1..] == a[1..] + [sep] + b;
      CutAtFirst(a[1..], sep, b);
      assert a == [a[0]] + a[1..];
    }
  }

  /** Split at the last separator. */
  function CutLast(s: string, sep: char): Option<(string, string)> {
    if s == [] then None
    else if s[|s| - 1] == sep then Some((s[..|s| - 1], ""))
    else
      match CutLast(s[..|s| - 1], sep)
      case None => None
      case Some((a, b)) => Some((a, b + [s[|s| - 1]]))
  }

  lemma {:induction false} CutAtLast(a: string, sep: char, b: string)
    requires sep !in b
    ensures CutLast(a + [sep] + b, sep) == Some((a, b))
  {
    var s := a + [sep] + b;
    if b == [] {
      assert s[..|s| - 1] == a;
    } else {
      assert s[..|s| - 1] == a + [sep] + b[..|b| - 1];
      CutAtLast(a, sep, b[..|b| - 1]);
      assert b == b[..|b| - 1] + [b[|b| - 1]];
    }
  }

  lemma DecimalAvoids(n: nat, c: char)
    requires !IsDigit(c, 10)
    ensures c !in Decimal(n)
  {
    NumeralDigits(n, 10);
  }

  // ---------- strconv.ParseUint ----------

  function ParseUint10(s: string, limit: nat): Option<nat> {
    match Value(s, 10)
    case None => None
    case Some(n) => if n < limit then Some(n) else None
  }

  function StripUnderscores(s: string): string {
    if s == [] then []
    else StripUnderscores(s[..|s| - 1]) + if s[|s| - 1] == '_' then [] else [s[|s| - 1]]
  }

  predicate IsPrefixed(s: string) {
    |s| >= 2 && s[0] == '0' && Lower(s[1]) in {'b', 'o', 'x'}
  }

  /** Underscores separate digits; a base prefix counts as a digit. `last` is the
      class of the previous character: digit, underscore or other. */
  predicate UnderscoresOk(s: string, hex: bool, last: char) {
    if s == [] then last != '_'
    else if '0' <= s[0] <= '9' || (hex && 'a' <= Lower(s[0]) <= 'f') then UnderscoresOk(s[1..], hex, '0')
    else if s[0] == '_' then last == '0' && UnderscoresOk(s[1..], hex, '_')
    else last != '_' && UnderscoresOk(s[1..], hex, '!')
  }

  function DigitsOr0(s: string, base: Base): Option<nat> {
    if s == [] then Some(0) else Value(s, base)
  }

  /** `strconv.ParseUint(s, 0, 32)`: the prefix chooses the base. */
  function ParseUint0(s: string): Option<u32> {
    if s == [] then None
    else
      var parsed :=
        if s[0] != '0' then DigitsOr0(StripUnderscores(s), 10)
        else if |s| >= 3 && Lower(s[1]) == 'b' then DigitsOr0(StripUnderscores(s[2..]), 2)
        else if |s| >= 3 && Lower(s[1]) == 'o' then DigitsOr0(StripUnderscores(s[2..]), 8)
        else if |s| >= 3 && Lower(s[1]) == 'x' then DigitsOr0(StripUnderscores(s[2..]), 16)
        else DigitsOr0(StripUnderscores(s[1..]), 8);
      if parsed.None? || parsed.value >= 0x1_0000_0000 then None
      else if '_' in s && !(if IsPrefixed(s) then UnderscoresOk(s[2..], Lower(s[1]) == 'x', '0')
                              else UnderscoresOk(s, false, '^')) then None
      else Some(parsed.value)
  }

  lemma {:induction false} NothingToStrip(s: string)
    requires '_' !in s
    ensures StripUnderscores(s) == s
  {
    if s != [] {
      NothingToStrip(s[..|s| - 1]);
      assert s == s[..|s| - 1] + [s[|s| - 1]];
    }
  }

  // ---------- single rules: printers and parsers ----------

  function PrintMark(mark: u32): string {
    "0x" + Numeral(mark, 16)
  }

  function ParseMark(s: string): Option<u32> {
    ParseUint0(s)
  }

  function PrintProtocol(p: byte): string {
    if p == IPPROTO_TCP then "tcp" else if p == IPPROTO_UDP then "udp" else "proto" + Decimal(p)
  }

  function ParseProtocol(s: string): Option<byte> {
    if ToLower(s) == "tcp" then Some(IPPROTO_TCP)
    else if ToLower(s) == "udp" then Some(IPPROTO_UDP)
    else None
  }

  predicate KnownProtocol(p: byte) {
    p == IPPROTO_TCP || p == IPPROTO_UDP
  }

  function PrintPort(k: PortKey): string {
    PrintProtocol(k.protocol) + "/" + Decimal(Ntohs(k.dport))
  }

  function ParsePort(s: string): Option<PortKey> {
    match Cut(s, '/')
    case None => None
    case Some((protocolText, portText)) =>
      match (ParseProtocol(protocolText), ParseUint10(portText, 0x1_0000))
      case (Some(protocol), Some(port)) => if port == 0 then None else Some(PortKey(Htons(port), protocol))
      case _ => None
  }

  function PrintOctets(o: Addr4): string {
    Decimal(o[0]) + "." + (Decimal(o[1]) + "." + (Decimal(o[2]) + "." + Decimal(o[3])))
  }

  function ParseOctet(s: string): Option<byte> {
    if |s| > 1 && s[0] == '0' then None else ParseUint10(s, 0x100)
  }

  function ParseIpv4(s: string): Option<Addr4> {
    match Cut(s, '.')
    case None => None
    case Some((a, rest)) =>
      match Cut(rest, '.')
      case None => None
      case Some((b, rest)) =>
        match Cut(rest, '.')
        case None => None
        case Some((c, d)) =>
          match (ParseOctet(a), ParseOctet(b), ParseOctet(c), ParseOctet(d))
          case (Some(a), Some(b), Some(c), Some(d)) => Some([a, b, c, d])
          case _ => None
  }

  /** The first dot, colon or percent sign of a text. */
  function FirstMark(s: string): Option<char> {
    if s == [] then None
    else if s[0] == '.' || s[0] == ':' || s[0] == '%' then Some(s[0])
    else FirstMark(s[1..])
  }

  /** `netip.ParseAddr`. */
  function ParseAddr(net: Net, s: string): Option<Addr> {
    match FirstMark(s)
    case Some('.') => (match ParseIpv4(s) case None => None case Some(o) => Some(Ip4Addr(o)))
    case Some(':') => net.parse6(s)
    case _ => None
  }

  function PrintV4Host(k: u32): string {
    PrintOctets(Ipv4FromNetworkOrder(k))
  }

  function ParseV4Host(net: Net, s: string): Option<u32> {
    match ParseAddr(net, s)
    case None => None
    case Some(a) => if Unmap(a).Ip4Addr? then Some(Ipv4Key(Unmap(a).octets4)) else None
  }

  function PrintV6Host(net: Net, k: Addr6): string {
    net.print6(k)
  }

  /** An IPv4-mapped address unmaps to IPv4 and is refused. */
  function ParseV6Host(net: Net, s: string): Option<Addr6> {
    match ParseAddr(net, s)
    case None => None
    case Some(a) => if Unmap(a).Ip6Addr? then Some(a.octets6) else None
  }

  predicate Mapped(a: Addr6) {
    Unmap(Ip6Addr(a, "")).Ip4Addr?
  }

  /** `netip.ParseAddrPort`: IPv6 addresses, and only they, stand in brackets. */
  function ParseAddrPort(net: Net, s: string): Option<(Addr, u16)> {
    match CutLast(s, ':')
    case None => None
    case Some((ip, port)) =>
      if ip == [] || port == [] then None
      else if ip[0] == '[' then
        if |ip| < 2 || ip[|ip| - 1] != ']' then None
        else
          match (ParseAddr(net, ip[1..|ip| - 1]), ParseUint10(port, 0x1_0000))
          case (Some(a), Some(p)) => if a.Ip4Addr? then None else Some((a, p))
          case _ => None
      else
        match (ParseAddr(net, ip), ParseUint10(port, 0x1_0000))
        case (Some(a), Some(p)) => if a.Ip6Addr? then None else Some((a, p))
        case _ => None
  }

  function ParsePair(net: Net, s: string): Option<(byte, Addr, u16)> {
    match Cut(s, '/')
    case None => None
    case Some((protocolText, addrPortText)) =>
      match (ParseProtocol(protocolText), ParseAddrPort(net, addrPortText))
      case (Some(protocol), Some((addr, port))) => Some((protocol, addr, port))
      case _ => None
  }

  function PrintV4Pair(k: HostPort4): string {
    PrintProtocol(k.protocol) + "/" + (PrintV4Host(k.daddr) + ":" + Decimal(Ntohs(k.dport)))
  }

  function ParseV4Pair(net: Net, s: string): Option<HostPort4> {
    match ParsePair(net, s)
    case None => None
    case Some((protocol, addr, port)) =>
      if addr.Ip4Addr? then Some(HostPort4(Ipv4Key(addr.octets4), Htons(port), protocol)) else None
  }

  function PrintV6Pair(net: Net, k: HostPort6): string {
    PrintProtocol(k.protocol) + "/" + ("[" + net.print6(k.daddr6) + "]" + ":" + Decimal(Ntohs(k.dport)))
  }

  function ParseV6Pair(net: Net, s: string): Option<HostPort6> {
    match ParsePair(net, s)
    case None => None
    case Some((protocol, addr, port)) =>
      if addr.Ip6Addr? && !Mapped(addr.octets6) then Some(HostPort6(addr.octets6, Htons(port), protocol)) else None
  }

  // ---------- single rules: round trips, with their exact domains ----------

  lemma MarkRoundTrip(mark: u32)
    ensures ParseMark(PrintMark(mark)) == Some(mark)
  {
    var digits := Numeral(mark, 16);
    var s := PrintMark(mark);
    NumeralRoundTrip(mark, 16);
    NumeralDigits(mark, 16);
    assert s[2..] == digits;
    assert '_' !in digits && '_' !in s;
    NothingToStrip(digits);
  }

  lemma ProtocolText(p: byte)
    ensures '/' !in PrintProtocol(p)
    ensures ParseProtocol(PrintProtocol(p)) == if KnownProtocol(p) then Some(p) else None
  {
    DecimalAvoids(p, '/');
    var s := PrintProtocol(p);
    if !KnownProtocol(p) {
      NumeralRoundTrip(p, 10);
      assert |ToLower(s)| > 3;
    } else {
      assert ToLower(s) == s;
    }
  }

  lemma PortTextRoundTrip(n: u16)
    ensures ParseUint10(Decimal(n), 0x1_0000) == Some(n) && Decimal(n) != []
  {
    NumeralRoundTrip(n, 10);
  }

  /** A port rule survives exactly when its protocol is TCP or UDP and its port is
      not zero. */
  lemma PortRoundTrip(k: PortKey)
    ensures ParsePort(PrintPort(k)) == if KnownProtocol(k.protocol) && k.dport != 0 then Some(k) else None
  {
    var port := Ntohs(k.dport);
    ProtocolText(k.protocol);
    CutAtFirst(PrintProtocol(k.protocol), '/', Decimal(port));
    PortTextRoundTrip(port);
    HtonsNtohs(k.dport);
    NtohsSwaps(k.dport / 0x100, k.dport % 0x100);
  }

  lemma NoLeadingZero(n: nat)
    requires n > 0
    ensures Decimal(n)[0] != '0'
  {
    if n >= 10 {
      NoLeadingZero(n / 10);
    }
  }

  lemma OctetRoundTrip(b: byte)
    ensures ParseOctet(Decimal(b)) == Some(b)
  {
    NumeralRoundTrip(b, 10);
    if b > 0 {
      NoLeadingZero(b);
    }
  }

  lemma OctetsRoundTrip(o: Addr4)
    ensures ParseIpv4(PrintOctets(o)) == Some(o)
  {
    var d := Decimal(o[3]);
    var cd := Decimal(o[2]) + "." + d;
    var bcd := Decimal(o[1]) + "." + cd;
    DecimalAvoids(o[0], '.');
    DecimalAvoids(o[1], '.');
    DecimalAvoids(o[2], '.');
    CutAtFirst(Decimal(o[0]), '.', bcd);
    CutAtFirst(Decimal(o[1]), '.', cd);
    CutAtFirst(Decimal(o[2]), '.', d);
    OctetRoundTrip(o[0]);
    OctetRoundTrip(o[1]);
    OctetRoundTrip(o[2]);
    OctetRoundTrip(o[3]);
    assert o == [o[0], o[1], o[2], o[3]];
  }

  lemma {:induction false} DigitsThenDot(a: string, b: string)
    requires AllDigits(a, 10)
    ensures FirstMark(a + "." + b) == Some('.')
  {
    var s := a + "." + b;
    if a != [] {
      assert s[1..] == a[1..] + "." + b;
      DigitsThenDot(a[1..], b);
    }
  }

  lemma V4AddrRoundTrip(net: Net, k: u32)
    ensures ParseAddr(net, PrintV4Host(k)) == Some(Ip4Addr(Ipv4FromNetworkOrder(k)))
    ensures Ipv4Key(Ipv4FromNetworkOrder(k)) == k
  {
    var o := Ipv4FromNetworkOrder(k);
    NumeralDigits(o[0], 10);
    DigitsThenDot(Decimal(o[0]), Decimal(o[1]) + "." + (Decimal(o[2]) + "." + Decimal(o[3])));
    OctetsRoundTrip(o);
    StoreLoad32(k);
  }

  /** Every IPv4 host survives printing and parsing. */
  lemma V4HostRoundTrip(net: Net, k: u32)
    ensures ParseV4Host(net, PrintV4Host(k)) == Some(k)
  {
    V4AddrRoundTrip(net, k);
  }

  /** An IPv6 host survives exactly when it is not IPv4-mapped. */
  lemma V6HostRoundTrip(net: Net, k: Addr6)
    requires LawfulNet(net)
    ensures ParseV6Host(net, PrintV6Host(net, k)) == if Mapped(k) then None else Some(k)
  {
  }

  lemma V4TextShape(k: u32)
    ensures PrintV4Host(k) != [] && PrintV4Host(k)[0] != '['
  {
    var o := Ipv4FromNetworkOrder(k);
    NumeralDigits(o[0], 10);
    NumeralRoundTrip(o[0], 10);
    assert PrintV4Host(k)[0] == Decimal(o[0])[0];
  }

  /** An IPv4 host+port rule survives exactly when its protocol is TCP or UDP. */
  lemma V4PairRoundTrip(net: Net, k: HostPort4)
    ensures ParseV4Pair(net, PrintV4Pair(k)) == if KnownProtocol(k.protocol) then Some(k) else None
  {
    var port := Ntohs(k.dport);
    var host := PrintV4Host(k.daddr);
    ProtocolText(k.protocol);
    CutAtFirst(PrintProtocol(k.protocol), '/', host + ":" + Decimal(port));
    DecimalAvoids(port, ':');
    CutAtLast(host, ':', Decimal(port));
    V4TextShape(k.daddr);
    PortTextRoundTrip(port);
    V4AddrRoundTrip(net, k.daddr);
    HtonsNtohs(k.dport);
    NtohsSwaps(k.dport / 0x100, k.dport % 0x100);
  }

  /** An IPv6 host+port rule survives exactly when its protocol is TCP or UDP and
      its host is not IPv4-mapped. */
  lemma V6PairRoundTrip(net: Net, k: HostPort6)
    requires LawfulNet(net)
    ensures ParseV6Pair(net, PrintV6Pair(net, k)) == if KnownProtocol(k.protocol) && !Mapped(k.daddr6) then Some(k)
              else None
  {
    var port := Ntohs(k.dport);
    var host := "[" + net.print6(k.daddr6) + "]";
    ProtocolText(k.protocol);
    CutAtFirst(PrintProtocol(k.protocol), '/', host + ":" + Decimal(port));
    DecimalAvoids(port, ':');
    CutAtLast(host, ':', Decimal(port));
    assert host[0] == '[' && host[|host| - 1] == ']' && host[1..|host| - 1] == net.print6(k.daddr6);
    assert FirstMark(net.print6(k.daddr6)) == Some(':');
    PortTextRoundTrip(port);
    HtonsNtohs(k.dport);
    NtohsSwaps(k.dport / 0x100, k.dport % 0x100);
  }

  // ---------- lists ----------

  /** A printer and a parser for one kind of rule. */
  datatype Codec<!K> = Codec(show: K -> string, read: string -> Option<K>)

  function PrintAll<K>(c: Codec<K>, keys: seq<K>): (texts: seq<string>)
    ensures |texts| == |keys| && forall i :: 0 <= i < |keys| ==> texts[i] == c.show(keys[i])
  {
    seq(|keys|, i requires 0 <= i < |keys| => c.show(keys[i]))
  }

  /** Every text must parse; the first failure rejects the list. */
  function ParseAll<K>(c: Codec<K>, texts: seq<string>): Option<seq<K>> {
    if texts == [] then Some([])
    else
      match (ParseAll(c, texts[..|texts| - 1]), c.read(texts[|texts| - 1]))
      case (Some(keys), Some(k)) => Some(keys + [k])
      case _ => None
  }

  /** The parsing loop of `ParseAllowed*`. */
  method ParseList<K>(c: Codec<K>, texts: seq<string>) returns (out: Option<seq<K>>)
    ensures out == ParseAll(c, texts)
  {
    var keys := [];
    for i := 0 to |texts|
      invariant ParseAll(c, texts[..i]) == Some(keys)
    {
      assert texts[..i + 1][..i] == texts[..i];
      match c.read(texts[i]) {
        case None =>
          ParseAllFails(c, texts, i + 1);
          return None;
        case Some(k) =>
          keys := keys + [k];
      }
    }
    assert texts[..|texts|] == texts;
    return Some(keys);
  }

  lemma {:induction false} ParseAllFails<K>(c: Codec<K>, texts: seq<string>, n: nat)
    requires n <= |texts| && ParseAll(c, texts[..n]) == None
    ensures ParseAll(c, texts) == None
  {
    if n < |texts| {
      assert texts[..|texts| - 1][..n] == texts[..n];
      ParseAllFails(c, texts[..|texts| - 1], n);
    } else {
      assert texts[..n] == texts;
    }
  }

  /** Element by element, both ways: what a parsed list consists of. */
  lemma {:induction false} ParseAllElements<K>(c: Codec<K>, texts: seq<string>)
    ensures ParseAll(c, texts).Some? <==> forall i :: 0 <= i < |texts| ==> c.read(texts[i]).Some?
    ensures ParseAll(c, texts).Some? ==>
              && |ParseAll(c, texts).value| == |texts|
              && forall i :: 0 <= i < |texts| ==> c.read(texts[i]) == Some(ParseAll(c, texts).value[i])
  {
    if texts != [] {
      var init := texts[..|texts| - 1];
      ParseAllElements(c, init);
      assert forall i :: 0 <= i < |init| ==> init[i] == texts[i];
    }
  }

  /** A list is read exactly when each of its texts is. */
  lemma ListRead<K>(c: Codec<K>, texts: seq<string>)
    ensures ParseAll(c, texts).Some? <==> forall s :: s in texts ==> c.read(s).Some?
  {
    ParseAllElements(c, texts);
  }

  /** Some text of the list reads as this rule. */
  ghost predicate Denoted<K>(c: Codec<K>, values: seq<string>, k: K) {
    exists s :: s in values && c.read(s) == Some(k)
  }

  lemma ParsedDenotes<K>(c: Codec<K>, texts: seq<string>, k: K)
    requires ParseAll(c, texts).Some?
    ensures k in ParseAll(c, texts).value <==> Denoted(c, texts, k)
  {
  }

  /** Every one of these keys survives printing and parsing. */
  ghost predicate Survive<K>(c: Codec<K>, keys: seq<K>) {
    forall i :: 0 <= i < |keys| ==> c.read(c.show(keys[i])) == Some(keys[i])
  }

  /** Printing a list and parsing it back is the identity exactly when every rule
      in it survives on its own. */
  lemma ListRoundTrip<K>(c: Codec<K>, keys: seq<K>)
    ensures ParseAll(c, PrintAll(c, keys)) == Some(keys) <==> Survive(c, keys)
  {
    ParseAllElements(c, PrintAll(c, keys));
    var r := ParseAll(c, PrintAll(c, keys));
    if Survive(c, keys) {
      assert r.Some? && r.value == keys;
    }
  }

  /** Whatever the parser produces survives. */
  ghost predicate Stable<K>(c: Codec<K>) {
    forall s :: c.read(s).Some? ==> c.read(c.show(c.read(s).value)) == c.read(s)
  }

  lemma ParsedSurvives<K>(c: Codec<K>, texts: seq<string>)
    requires Stable(c) && ParseAll(c, texts).Some?
    ensures Survive(c, ParseAll(c, texts).value)
  {
    ParseAllElements(c, texts);
  }

  // ---------- whole rule sets ----------

  /** `adminapi.AllowRules`. */
  datatype ApiRules = ApiRules(
    allowAll: bool, enableV4: bool, enableV6: bool,
    marks: seq<string>, ports: seq<string>, v4Hosts: seq<string>,
    v6Hosts: seq<string>, v4Pairs: seq<string>, v6Pairs: seq<string>)

  function MarkCodec(): Codec<u32> { Codec(PrintMark, ParseMark) }
  function PortCodec(): Codec<PortKey> { Codec(PrintPort, ParsePort) }
  function V4HostCodec(net: Net): Codec<u32> { Codec(PrintV4Host, s => ParseV4Host(net, s)) }
  function V6HostCodec(net: Net): Codec<Addr6> { Codec(k => PrintV6Host(net, k), s => ParseV6Host(net, s)) }
  function V4PairCodec(net: Net): Codec<HostPort4> { Codec(PrintV4Pair, s => ParseV4Pair(net, s)) }
  function V6PairCodec(net: Net): Codec<HostPort6> { Codec(k => PrintV6Pair(net, k), s => ParseV6Pair(net, s)) }

  /** `apiAllowRules`. */
  function PrintRules(net: Net, r: AllowRules): ApiRules {
    ApiRules(r.allowAll, r.enableV4, r.enableV6,
             PrintAll(MarkCodec(), r.marks), PrintAll(PortCodec(), r.ports),
             PrintAll(V4HostCodec(net), r.v4Hosts), PrintAll(V6HostCodec(net), r.v6Hosts),
             PrintAll(V4PairCodec(net), r.v4Pairs), PrintAll(V6PairCodec(net), r.v6Pairs))
  }

  /** `allowRulesFromConfig`. */
  function ParseRules(net: Net, a: ApiRules): Option<AllowRules> {
    match (ParseAll(MarkCodec(), a.marks), ParseAll(PortCodec(), a.ports), ParseAll(V4HostCodec(net), a.v4Hosts),
           ParseAll(V6HostCodec(net), a.v6Hosts), ParseAll(V4PairCodec(net), a.v4Pairs),
           ParseAll(V6PairCodec(net), a.v6Pairs))
    case (Some(m), Some(p), Some(h4), Some(h6), Some(p4), Some(p6)) =>
      Some(AllowRules(a.allowAll, a.enableV4, a.enableV6, m, p, h4, h6, p4, p6))
    case _ => None
  }

  predicate GoodPort(k: PortKey) { KnownProtocol(k.protocol) && k.dport != 0 }
  predicate GoodV4Pair(k: HostPort4) { KnownProtocol(k.protocol) }
  predicate GoodV6Pair(k: HostPort6) { KnownProtocol(k.protocol) && !Mapped(k.daddr6) }

  /** Rule sets that text can express. */
  ghost predicate Expressible(r: AllowRules) {
    && (forall i :: 0 <= i < |r.ports| ==> GoodPort(r.ports[i]))
    && (forall i :: 0 <= i < |r.v6Hosts| ==> !Mapped(r.v6Hosts[i]))
    && (forall i :: 0 <= i < |r.v4Pairs| ==> GoodV4Pair(r.v4Pairs[i]))
    && (forall i :: 0 <= i < |r.v6Pairs| ==> GoodV6Pair(r.v6Pairs[i]))
  }

  lemma FieldRoundTrips(net: Net, r: AllowRules)
    requires LawfulNet(net)
    ensures ParseAll(MarkCodec(), PrintAll(MarkCodec(), r.marks)) == Some(r.marks)
    ensures ParseAll(PortCodec(), PrintAll(PortCodec(), r.ports)) == Some(r.ports) <==>
              forall i :: 0 <= i < |r.ports| ==> GoodPort(r.ports[i])
    ensures ParseAll(V4HostCodec(net), PrintAll(V4HostCodec(net), r.v4Hosts)) == Some(r.v4Hosts)
  {
    forall i | 0 <= i < |r.marks| { MarkRoundTrip(r.marks[i]); }
    forall i | 0 <= i < |r.ports| { PortRoundTrip(r.ports[i]); }
    forall i | 0 <= i < |r.v4Hosts| { V4HostRoundTrip(net, r.v4Hosts[i]); }
    ListRoundTrip(MarkCodec(), r.marks);
    ListRoundTrip(PortCodec(), r.ports);
    ListRoundTrip(V4HostCodec(net), r.v4Hosts);
  }

  lemma V6HostsRoundTrip(net: Net, keys: seq<Addr6>)
    requires LawfulNet(net)
    ensures ParseAll(V6HostCodec(net), PrintAll(V6HostCodec(net), keys)) == Some(keys) <==>
              forall i :: 0 <= i < |keys| ==> !Mapped(keys[i])
  {
    forall i | 0 <= i < |keys| { V6HostRoundTrip(net, keys[i]); }
    ListRoundTrip(V6HostCodec(net), keys);
  }

  lemma V4PairsRoundTrip(net: Net, keys: seq<HostPort4>)
    ensures ParseAll(V4PairCodec(net), PrintAll(V4PairCodec(net), keys)) == Some(keys) <==>
              forall i :: 0 <= i < |keys| ==> GoodV4Pair(keys[i])
  {
    forall i | 0 <= i < |keys| { V4PairRoundTrip(net, keys[i]); }
    ListRoundTrip(V4PairCodec(net), keys);
  }

  lemma V6PairsRoundTrip(net: Net, keys: seq<HostPort6>)
    requires LawfulNet(net)
    ensures ParseAll(V6PairCodec(net), PrintAll(V6PairCodec(net), keys)) == Some(keys) <==>
              forall i :: 0 <= i < |keys| ==> GoodV6Pair(keys[i])
  {
    forall i | 0 <= i < |keys| { V6PairRoundTrip(net, keys[i]); }
    ListRoundTrip(V6PairCodec(net), keys);
  }

  /** Printing a rule set to API text and parsing it back is the identity exactly
      on the expressible rule sets. */
  lemma RulesRoundTrip(net: Net, r: AllowRules)
    requires LawfulNet(net)
    ensures ParseRules(net, PrintRules(net, r)) == Some(r) <==> Expressible(r)
  {
    FieldRoundTrips(net, r);
    V6HostsRoundTrip(net, r.v6Hosts);
    V4PairsRoundTrip(net, r.v4Pairs);
    V6PairsRoundTrip(net, r.v6Pairs);
  }

  lemma ParsedPortGood(s: string)
    requires ParsePort(s).Some?
    ensures GoodPort(ParsePort(s).value)
  {
  }

  lemma ParsedPortsGood(texts: seq<string>)
    requires ParseAll(PortCodec(), texts).Some?
    ensures forall k :: k in ParseAll(PortCodec(), texts).value ==> GoodPort(k)
  {
    ParseAllElements(PortCodec(), texts);
    forall i | 0 <= i < |texts| { ParsedPortGood(texts[i]); }
  }

  lemma ParsedV6HostsGood(net: Net, texts: seq<string>)
    requires LawfulNet(net) && ParseAll(V6HostCodec(net), texts).Some?
    ensures forall k :: k in ParseAll(V6HostCodec(net), texts).value ==> !Mapped(k)
  {
  }

  lemma ParsedV4PairsGood(net: Net, texts: seq<string>)
    requires ParseAll(V4PairCodec(net), texts).Some?
    ensures forall k :: k in ParseAll(V4PairCodec(net), texts).value ==> GoodV4Pair(k)
  {
  }

  lemma ParsedV6PairsGood(net: Net, texts: seq<string>)
    requires ParseAll(V6PairCodec(net), texts).Some?
    ensures forall k :: k in ParseAll(V6PairCodec(net), texts).value ==> GoodV6Pair(k)
  {
  }

  /** The parsers produce only expressible rule sets, so nothing the daemon stores
      is lost by going through text. */
  lemma ParsedIsExpressible(net: Net, a: ApiRules)
    requires LawfulNet(net) && ParseRules(net, a).Some?
    ensures Expressible(ParseRules(net, a).value)
  {
    ParsedPortsGood(a.ports);
    ParsedV6HostsGood(net, a.v6Hosts);
    ParsedV4PairsGood(net, a.v4Pairs);
    ParsedV6PairsGood(net, a.v6Pairs);
  }
}
