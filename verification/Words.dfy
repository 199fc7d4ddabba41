/** Machine words, byte strings and the byte-order helpers of cmd/killswitch/util.go.

    The host is little-endian: a two-byte packet field read through a native
    16-bit load is `Le16` of its octets, while the number it denotes on the wire
    is `Be16` of them. */
module Words {
  type byte = x: int | 0 <= x < 0x100
  type u16 = x: int | 0 <= x < 0x1_0000
  type u32 = x: int | 0 <= x < 0x1_0000_0000
  type Bytes = seq<byte>
  type Addr4 = b: Bytes | |b| == 4 witness [0, 0, 0, 0]
  type Addr6 = b: Bytes | |b| == 16 witness seq(16, _ => 0)

  datatype Option<+T> = None | Some(value: T)

  const IPPROTO_TCP: byte := 6
  const IPPROTO_UDP: byte := 17

  /** The number whose most significant octet is `b[i]`. */
  function Be16(b: Bytes, i: nat): u16
    requires i + 2 <= |b|
  {
    (b[i] as int) * 0x100 + b[i + 1]
  }

  /** The number whose least significant octet is `b[i]`: a native load. */
  function Le16(b: Bytes, i: nat): u16
    requires i + 2 <= |b|
  {
    b[i] + 0x100 * (b[i + 1] as int)
  }

  function Le32(b: Bytes, i: nat): u32
    requires i + 4 <= |b|
  {
    b[i] + 0x100 * (b[i + 1] as int) + 0x1_0000 * (b[i + 2] as int) + 0x100_0000 * (b[i + 3] as int)
  }

  function PutBe16(v: u16): Bytes {
    [v / 0x100, v % 0x100]
  }

  function PutLe16(v: u16): Bytes {
    [v % 0x100, v / 0x100]
  }

  function PutLe32(v: u32): Bytes {
    [v % 0x100, v / 0x100 % 0x100, v / 0x1_0000 % 0x100, v / 0x100_0000]
  }

  /** `value<<8 | value>>8` on 16 bits. */
  function Ntohs(v: u16): u16 {
    (v * 0x100) % 0x1_0000 + v / 0x100
  }

  function Htons(v: u16): u16 {
    Ntohs(v)
  }

  function Ipv4Key(octets: Addr4): u32 {
    Le32(octets, 0)
  }

  function Ipv4FromNetworkOrder(v: u32): Addr4 {
    PutLe32(v)
  }

  lemma NtohsSwaps(hi: byte, lo: byte)
    ensures Ntohs(hi * 0x100 + lo) == lo * 0x100 + hi
  {
    var v := hi * 0x100 + lo;
    assert v * 0x100 == hi * 0x1_0000 + lo * 0x100;
    assert v / 0x100 == hi;
  }

  /** Converting to network order and back is the identity, so two ports with
      the same stored key are the same port. */
  lemma HtonsNtohs(v: u16)
    ensures Ntohs(Htons(v)) == v
  {
    NtohsSwaps(v / 0x100, v % 0x100);
    NtohsSwaps(v % 0x100, v / 0x100);
  }

  /** The native load of a port field is `Htons` of the port on the wire. */
  lemma NativeLoadIsHtons(b: Bytes, i: nat)
    requires i + 2 <= |b|
    ensures Le16(b, i) == Htons(Be16(b, i))
  {
    NtohsSwaps(b[i], b[i + 1]);
  }

  lemma LowOctet(octet: byte, rest: nat)
    ensures (octet + 0x100 * rest) % 0x100 == octet && (octet + 0x100 * rest) / 0x100 == rest
  {
  }

  lemma DivideByOctets(v: nat)
    ensures v / 0x1_0000 == v / 0x100 / 0x100 && v / 0x100_0000 == v / 0x100 / 0x100 / 0x100
  {
  }

  /** A stored IPv4 key determines its four octets. */
  lemma Ipv4KeyRoundTrip(octets: Addr4)
    ensures Ipv4FromNetworkOrder(Ipv4Key(octets)) == octets
  {
    var high := octets[2] + 0x100 * (octets[3] as int);
    var tail := octets[1] + 0x100 * high;
    LowOctet(octets[2], octets[3]);
    LowOctet(octets[1], high);
    LowOctet(octets[0], tail);
    DivideByOctets(octets[0] + 0x100 * tail);
    assert Ipv4Key(octets) == octets[0] + 0x100 * tail;
  }

  /** A little-endian store followed by a native load gives the number back. */
  lemma StoreLoad32(v: u32)
    ensures Le32(PutLe32(v), 0) == v
  {
    var w := v / 0x100;
    var x := w / 0x100;
    assert v / 0x1_0000 == x && v / 0x100_0000 == x / 0x100;
    assert v == v % 0x100 + 0x100 * w && w == w % 0x100 + 0x100 * x && x == x % 0x100 + 0x100 * (x / 0x100);
  }
}
