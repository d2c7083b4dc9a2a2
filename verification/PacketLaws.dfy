/**
 The bytes on the wire: where every field of a frame lies, what the checksums sum up, which
 frames are accepted, and what damage is noticed.
 */
module PacketLaws {
  import opened Machine
  import opened PacketSpec

  /** Numbers are sent most significant byte first. */
  lemma BigEndian(v: u32)
    ensures v < 0x1_0000 ==> Bytes16(v)[0] as nat * 0x100 + Bytes16(v)[1] as nat == v
    ensures var b := Bytes32(v);
      b[0] as nat * 0x100_0000 + b[1] as nat * 0x1_0000 + b[2] as nat * 0x100 + b[3] as nat == v
    ensures Bytes16(0x0800) == [8, 0] && Bytes32(0x0a00_020f) == [10, 0, 2, 15]
  {
    Digits(v);
  }

  lemma {:induction false} SumJoin(a: seq<byte>, b: seq<byte>)
    requires |a| % 2 == 0
    ensures Sum(a + b) == Sum(a) + Sum(b)
    decreases |a|
  {
    if a == [] {
      assert a + b == b;
    } else {
      assert (a + b)[2..] == a[2..] + b;
      SumJoin(a[2..], b);
    }
  }

  lemma SumWord(v: u16)
    ensures Sum(Bytes16(v)) == v
  {
    var b := Bytes16(v);
    assert b[2..] == [];
    ReadWritten(b, 0, v);
  }

  lemma FourBytes(a: nat, b: nat, c: nat, d: nat)
    requires a < 256 && b < 256 && c < 256 && d < 256
    ensures var v := a * 0x100_0000 + b * 0x1_0000 + c * 256 + d;
      && v / 0x100_0000 == a && v / 0x1_0000 % 256 == b && v / 256 % 256 == c && v % 256 == d
  {
    var v := a * 0x100_0000 + b * 0x1_0000 + c * 256 + d;
    var w := a * 0x1_0000 + b * 256 + c;
    assert v == w * 256 + d && v / 256 == w;
    var x := a * 256 + b;
    assert w == x * 256 + c && w / 256 == x && v / 0x1_0000 == x;
    assert x / 256 == a && x % 256 == b && v / 0x100_0000 == a;
  }

  lemma Halves(v: u32)
    ensures var high, low := v / 0x1_0000, v % 0x1_0000;
      && high / 256 == v / 0x100_0000 && high % 256 == v / 0x1_0000 % 256
      && low / 256 == v / 256 % 256 && low % 256 == v % 256
  {
    var a, b, c, d := v / 0x100_0000, v / 0x1_0000 % 256, v / 256 % 256, v % 256;
    Digits(v);
    TwoBytes(a * 256 + b, c * 256 + d);
    assert v == (a * 256 + b) * 0x1_0000 + (c * 256 + d);
    TwoBytesOf(a, b);
    TwoBytesOf(c, d);
  }

  lemma TwoBytes(h: nat, l: nat)
    requires l < 0x1_0000
    ensures (h * 0x1_0000 + l) / 0x1_0000 == h && (h * 0x1_0000 + l) % 0x1_0000 == l
  {}

  lemma TwoBytesOf(h: nat, l: nat)
    requires l < 256
    ensures (h * 256 + l) / 256 == h && (h * 256 + l) % 256 == l
  {}

  lemma SumTwoWords(v: u32)
    ensures Sum(Bytes32(v)) == v / 0x1_0000 + v % 0x1_0000
  {
    var high, low := v / 0x1_0000, v % 0x1_0000;
    Halves(v);
    assert Bytes32(v) == Bytes16(high) + Bytes16(low);
    hide Sum;
    SumJoin(Bytes16(high), Bytes16(low));
    SumWord(high);
    SumWord(low);
  }

  /** The pseudo-header of RFC 768: both addresses, a zero, the protocol and the length. */
  function PseudoHeader(source: u32, destination: u32, length: u16): seq<byte> {
    Bytes32(source) + Bytes32(destination) + [0, 17] + Bytes16(length)
  }

  lemma PseudoIs(source: u32, destination: u32, length: u16)
    ensures |PseudoHeader(source, destination, length)| == 12
    ensures PseudoSum(source, destination, length) == Sum(PseudoHeader(source, destination, length))
  {
    var s, d, l := Bytes32(source), Bytes32(destination), Bytes16(length);
    SumTwoWords(source);
    SumTwoWords(destination);
    SumWord(length);
    SumWord(17);
    assert Bytes16(17) == [0, 17];
    assert PseudoHeader(source, destination, length) == s + (d + (Bytes16(17) + l));
    SumJoin(s, d + (Bytes16(17) + l));
    SumJoin(d, Bytes16(17) + l);
    SumJoin(Bytes16(17), l);
    hide Sum;
  }

  /** The UDP checksum is the Internet checksum of the pseudo-header followed by the datagram. */
  lemma UdpChecksumIs(source: u32, destination: u32, udp: seq<byte>)
    requires |udp| < 0x1_0000
    ensures UdpChecksum(source, destination, udp) == Checksum(PseudoHeader(source, destination, |udp|) + udp)
  {
    PseudoIs(source, destination, |udp|);
    SumJoin(PseudoHeader(source, destination, |udp|), udp);
    hide Sum, PseudoHeader;
  }

  /** An odd last byte counts as if a zero followed it. */
  lemma {:induction false} SumPadded(data: seq<byte>)
    requires |data| % 2 == 1
    ensures Sum(data) == Sum(data + [0])
    decreases |data|
  {
    if |data| == 1 {
      assert (data + [0])[2..] == [];
    } else {
      assert (data + [0])[2..] == data[2..] + [0];
      SumPadded(data[2..]);
    }
  }

  // -------------------------------------------------------------------- layout

  /** Where the fields of a transmitted frame lie. */
  lemma FrameLayout(to: Mac, from: Mac, id: u16, u: Udp)
    requires |u.payload| <= 1472
    ensures var f := Frame(to, from, id, u);
      && |f| == 42 + |u.payload|
      && f[..6] == to && f[6..12] == from && f[12..14] == [8, 0]
      && f[14..16] == [0x45, 0] && f[16..18] == Bytes16(28 + |u.payload|) && f[18..20] == Bytes16(id)
      && f[20..24] == [0x40, 0, 64, 17] && f[26..30] == Bytes32(u.source) && f[30..34] == Bytes32(u.destination)
      && f[34..36] == Bytes16(u.sourcePort) && f[36..38] == Bytes16(u.destinationPort)
      && f[38..40] == Bytes16(8 + |u.payload|) && f[42..] == u.payload
  {
    hide Checksum, UdpChecksum, Bytes16, Bytes32, SentChecksum;
    assert Bytes16(0x0800) == [8, 0] by {
      BigEndian(0);
    }
    var f := Frame(to, from, id, u);
    var length := 8 + |u.payload|;
    var header := IpHeader(length, id, u.source, u.destination);
    var check := SentChecksum(u.source, u.destination, u.sourcePort, u.destinationPort, u.payload);
    var datagram := Datagram(u.sourcePort, u.destinationPort, u.payload, check);
    assert f == to + from + Bytes16(0x0800) + header + datagram;
    assert f[14..34] == header && f[34..] == datagram;
    HeaderLayout(20 + length, id, 17, u.source, u.destination, Checksum(Header(20 + length, id, 17, u.source, u.destination, 0)));
    DatagramLayout(u.sourcePort, u.destinationPort, u.payload, check);
    hide Header, Datagram, IpHeader, Frame;
    assert f[14..16] == header[..2] && f[16..18] == header[2..4] && f[18..20] == header[4..6] && f[20..24] == header[6..10];
    assert f[26..30] == header[12..16] && f[30..34] == header[16..20];
    assert f[34..36] == datagram[..2] && f[36..38] == datagram[2..4] && f[38..40] == datagram[4..6] && f[42..] == datagram[8..];
  }

  lemma HeaderLayout(total: u16, id: u16, protocol: byte, source: u32, destination: u32, check: u16)
    ensures var h := Header(total, id, protocol, source, destination, check);
      && h[..2] == [0x45, 0] && h[2..4] == Bytes16(total) && h[4..6] == Bytes16(id) && h[6..10] == [0x40, 0, 64, protocol]
      && h[10..12] == Bytes16(check) && h[12..16] == Bytes32(source) && h[16..20] == Bytes32(destination)
  {
    hide Bytes16, Bytes32;
  }

  lemma DatagramLayout(sourcePort: u16, destinationPort: u16, payload: seq<byte>, check: u16)
    requires |payload| <= PAYLOAD_MAX
    ensures var d := Datagram(sourcePort, destinationPort, payload, check);
      && d[..2] == Bytes16(sourcePort) && d[2..4] == Bytes16(destinationPort) && d[4..6] == Bytes16(8 + |payload|)
      && d[6..8] == Bytes16(check) && d[8..] == payload
  {
    hide Bytes16;
  }

  // ---------------------------------------------------------------- acceptance

  /** Big-endian words of a frame, by their place in it. */
  function Word(f: seq<byte>, i: nat): nat
    requires i + 1 < |f|
  {
    (f[i] as nat) * 0x100 + (f[i + 1] as nat)
  }

  /** The length of the IPv4 header in bytes. */
  function IpLength(f: seq<byte>): nat
    requires 14 < |f|
  {
    f[14] as nat % 16 * 4
  }

  /** The frame is for this card and carries an unfragmented IPv4 packet of protocol 17 with a good header. */
  predicate ForUs(f: seq<byte>, us: Mac) {
    && 42 <= |f| && (f[..6] == us || f[..6] == [255, 255, 255, 255, 255, 255]) && Word(f, 12) == 0x0800
    && f[14] / 16 == 4 && 20 <= IpLength(f) && 14 + IpLength(f) + 8 <= 14 + Word(f, 16) <= |f|
    && Checksum(f[14..14 + IpLength(f)]) == 0 && f[23] == 17
    && Word(f, 20) % 0x4000 == 0
  }

  /** Behind the header lies a datagram of the length it says, its checksum absent or right. */
  predicate GoodDatagram(f: seq<byte>)
    requires 42 <= |f| && 14 + IpLength(f) + 8 <= 14 + Word(f, 16) <= |f|
  {
    var at := 14 + IpLength(f);
    var length := Word(f, at + 4);
    && 8 <= length && IpLength(f) + length <= Word(f, 16)
    && (Word(f, at + 6) == 0
        || Checksum(f[26..34] + [0, 17] + f[at + 4..at + 6] + f[at..at + length]) == 0)
  }

  lemma WordIs(f: seq<byte>, from: nat, i: nat)
    requires from + i + 1 < |f|
    ensures Read16(f[from..], i) == Word(f, from + i)
  {}

  lemma LongIs(f: seq<byte>, from: nat, i: nat)
    requires from + i + 3 < |f|
    ensures Bytes32(Read32(f[from..], i)) == f[from + i..from + i + 4]
    ensures Read32(f[from..], i) == Word(f, from + i) * 0x1_0000 + Word(f, from + i + 2)
  {
    var g := f[from..];
    var a, b, c, d := g[i] as nat, g[i + 1] as nat, g[i + 2] as nat, g[i + 3] as nat;
    FourBytes(a, b, c, d);
    assert f[from + i..from + i + 4] == [g[i], g[i + 1], g[i + 2], g[i + 3]];
  }

  /** What the receiver checks of the datagram is the checksum of pseudo-header and datagram. */
  lemma ChecksumOfFrame(f: seq<byte>)
    requires 42 <= |f| && 14 + IpLength(f) + 8 <= 14 + Word(f, 16) <= |f|
    requires var length := Word(f, 14 + IpLength(f) + 4); 8 <= length && IpLength(f) + length <= Word(f, 16)
    ensures var at, ip := 14 + IpLength(f), f[14..];
      var length := Word(f, at + 4);
      UdpChecksum(Read32(ip, 12), Read32(ip, 16), f[at..at + length])
      == Checksum(f[26..34] + [0, 17] + f[at + 4..at + 6] + f[at..at + length])
  {
    hide Checksum, UdpChecksum, Read32, Bytes32, Bytes16, PseudoSum, Sum;
    var at, ip := 14 + IpLength(f), f[14..];
    var length := Word(f, at + 4);
    LongIs(f, 14, 12);
    LongIs(f, 14, 16);
    UdpChecksumIs(Read32(ip, 12), Read32(ip, 16), f[at..at + length]);
    WordBytes(f, at + 4);
    assert f[26..34] == f[26..30] + f[30..34];
  }

  lemma WordBytes(f: seq<byte>, i: nat)
    requires i + 1 < |f|
    ensures Bytes16(Word(f, i)) == f[i..i + 2]
  {
    TwoBytesOf(f[i] as nat, f[i + 1] as nat);
  }

  /** parse_udp accepts exactly these frames, and reads the fields where they lie. */
  lemma ParseExactly(f: seq<byte>, us: Mac)
    ensures Parse(f, us).Some? <==> ForUs(f, us) && GoodDatagram(f)
    ensures Parse(f, us).Some? ==>
      var at, u := 14 + IpLength(f), Parse(f, us).value;
      && u.source == Word(f, 26) * 0x1_0000 + Word(f, 28) && u.destination == Word(f, 30) * 0x1_0000 + Word(f, 32)
      && u.sourcePort == Word(f, at) && u.destinationPort == Word(f, at + 2)
      && u.payload == f[at + 8..at + Word(f, at + 4)]
  {
    hide Checksum, UdpChecksum, Read16, Read32;
    if 42 <= |f| {
      var ip := f[14..];
      assert ip[0] == f[14] && ip[9] == f[23];
      WordIs(f, 0, 12);
      assert f[0..] == f;
      WordIs(f, 14, 2);
      WordIs(f, 14, 6);
      LongIs(f, 14, 12);
      LongIs(f, 14, 16);
      var ihl, at := IpLength(f), 14 + IpLength(f);
      if at + 8 <= |f| {
        assert ip[..ihl] == f[14..at] && ip[ihl..] == f[at..];
        WordIs(f, at, 0);
        WordIs(f, at, 2);
        WordIs(f, at, 4);
        WordIs(f, at, 6);
        var length := Word(f, at + 4);
        if ForUs(f, us) && 8 <= length && ihl + length <= Word(f, 16) {
          ChecksumOfFrame(f);
          assert f[at..][..length] == f[at..at + length] && f[at..][8..length] == f[at + 8..at + length];
        }
      }
    }
  }

  // -------------------------------------------------------------------- damage

  /** Frame `f` with the word at `i` replaced. */
  function Damaged(f: seq<byte>, i: nat, v: u16): (g: seq<byte>)
    requires i + 1 < |f|
    ensures |g| == |f|
  {
    f[i := v / 256][i + 1 := v % 256]
  }

  /** 0 and 0xffff are the same number in ones' complement. */
  predicate SameInComplement(v: u16, w: u16) {
    v == w || (v == 0 && w == 0xffff) || (v == 0xffff && w == 0)
  }

  /**
   A transmitted frame in which one word changed on the way, in the packet's header behind its
   length, among the ports or in the payload, is not accepted: unless 0 became 0xffff or back.
   */
  lemma DamageIsRefused(us: Mac, to: Mac, from: Mac, id: u16, u: Udp, i: nat, v: u16)
    requires |u.payload| <= 1472 && i % 2 == 0 && (18 <= i < 38 || 42 <= i) && i + 1 < 42 + |u.payload|
    requires !SameInComplement(v, Word(Frame(to, from, id, u), i))
    ensures Parse(Damaged(Frame(to, from, id, u), i, v), us) == None
  {
    hide *;
    FrameLength(to, from, id, u);
    var f := Frame(to, from, id, u);
    var g := Damaged(f, i, v);
    ParseExactly(g, us);
    LengthsStay(to, from, id, u, i, v);
    if i < 34 {
      HeaderDamage(to, from, id, u, i, v);
      HeaderNeeded(g, us);
    } else {
      DatagramDamage(to, from, id, u, i, v);
      DatagramNeeded(g);
    }
  }

  lemma FrameLength(to: Mac, from: Mac, id: u16, u: Udp)
    requires |u.payload| <= 1472
    ensures |u.payload| <= PAYLOAD_MAX && |Frame(to, from, id, u)| == 42 + |u.payload|
  {}

  lemma LengthsStay(to: Mac, from: Mac, id: u16, u: Udp, i: nat, v: u16)
    requires |u.payload| <= 1472 && i % 2 == 0 && (18 <= i < 38 || 42 <= i) && i + 1 < 42 + |u.payload|
    ensures var g := Damaged(Frame(to, from, id, u), i, v);
      IpLength(g) == 20 && Word(g, 16) == 28 + |u.payload| && Word(g, 38) == 8 + |u.payload| && Word(g, 40) != 0
  {
    hide Frame;
    FrameLayout(to, from, id, u);
    var f := Frame(to, from, id, u);
    assert f[14] == f[14..16][0] && f[16] == f[16..18][0] && f[17] == f[16..18][1];
    assert f[38] == f[38..40][0] && f[39] == f[38..40][1];
    SentWord(to, from, id, u);
  }

  lemma SentWord(to: Mac, from: Mac, id: u16, u: Udp)
    requires |u.payload| <= 1472
    ensures Word(Frame(to, from, id, u), 40) != 0
    ensures Checksum(Frame(to, from, id, u)[14..34]) == 0
    ensures var f := Frame(to, from, id, u);
      UdpChecksum(u.source, u.destination, f[34..]) == 0 && |f[34..]| == 8 + |u.payload|
  {
    hide Checksum, UdpChecksum, SentChecksum, Header, Bytes16;
    DatagramVerifies(u);
    HeaderVerifies(8 + |u.payload|, id, u.source, u.destination);
    var check := SentChecksum(u.source, u.destination, u.sourcePort, u.destinationPort, u.payload);
    var datagram := Datagram(u.sourcePort, u.destinationPort, u.payload, check);
    DatagramLayout(u.sourcePort, u.destinationPort, u.payload, check);
    var f := Frame(to, from, id, u);
    assert f[34..] == datagram && f[14..34] == IpHeader(8 + |u.payload|, id, u.source, u.destination);
    CheckWord(f, datagram, check);
  }

  lemma CheckWord(f: seq<byte>, datagram: seq<byte>, check: u16)
    requires 42 <= |f| && f[34..] == datagram && datagram[6..8] == Bytes16(check) && check != 0
    ensures Word(f, 40) != 0
  {
    assert f[40] == datagram[6..8][0] && f[41] == datagram[6..8][1];
  }

  lemma HeaderDamage(to: Mac, from: Mac, id: u16, u: Udp, i: nat, v: u16)
    requires |u.payload| <= 1472 && i % 2 == 0 && 18 <= i < 34 && !SameInComplement(v, Word(Frame(to, from, id, u), i))
    ensures Checksum(Damaged(Frame(to, from, id, u), i, v)[14..34]) != 0
  {
    hide Frame, Checksum, Sum;
    SentWord(to, from, id, u);
    var f := Frame(to, from, id, u);
    var data := f[14..34];
    WordIs(data, 0, i - 14);
    assert data[0..] == data;
    assert Damaged(f, i, v)[14..34] == data[i - 14 := v / 256][i - 14 + 1 := v % 256];
    OneWordError(data, i - 14, v);
  }

  lemma HeaderNeeded(g: seq<byte>, us: Mac)
    requires 42 <= |g| && IpLength(g) == 20 && Checksum(g[14..34]) != 0
    ensures !ForUs(g, us)
  {
    hide Checksum;
  }

  /** What the checksum of a datagram behind a header of twenty bytes covers. */
  function Covered(f: seq<byte>): (c: seq<byte>)
    requires 42 <= |f|
    ensures |c| == 12 + |f| - 34
  {
    f[26..34] + [0, 17] + f[38..40] + f[34..]
  }

  lemma DatagramDamage(to: Mac, from: Mac, id: u16, u: Udp, i: nat, v: u16)
    requires |u.payload| <= 1472 && i % 2 == 0 && (34 <= i < 38 || 42 <= i) && i + 1 < 42 + |u.payload|
    requires !SameInComplement(v, Word(Frame(to, from, id, u), i))
    ensures Checksum(Covered(Damaged(Frame(to, from, id, u), i, v))) != 0
  {
    hide Frame, Checksum, Sum, UdpChecksum;
    SentWord(to, from, id, u);
    FrameLayout(to, from, id, u);
    var f := Frame(to, from, id, u);
    UdpChecksumIs(u.source, u.destination, f[34..]);
    assert f[26..34] == f[26..30] + f[30..34];
    assert PseudoHeader(u.source, u.destination, 8 + |u.payload|) + f[34..] == Covered(f);
    var data, j := Covered(f), i - 22;
    assert data[j] == f[i] && data[j + 1] == f[i + 1];
    assert Covered(Damaged(f, i, v)) == data[j := v / 256][j + 1 := v % 256];
    OneWordError(data, j, v);
  }

  lemma DatagramNeeded(g: seq<byte>)
    requires 42 <= |g| && IpLength(g) == 20 && Word(g, 16) == |g| - 14 && Word(g, 38) == |g| - 34
    requires Word(g, 40) != 0 && Checksum(Covered(g)) != 0
    ensures !GoodDatagram(g)
  {
    hide Checksum;
    assert g[34..34 + Word(g, 38)] == g[34..];
  }
}
