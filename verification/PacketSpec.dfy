/**
 UDP datagrams in IPv4 packets in Ethernet frames: their bytes, the ones' complement checksum
 of RFC 1071 that covers them, and what a receiver makes of a frame. The buffers and loops are
 in module Packets.
 */
module PacketSpec {
  import opened Machine

  const ETH_HEADER: nat := 14
  const IPV4_HEADER: nat := 20
  const UDP_HEADER: nat := 8
  const FRAME_MAX: nat := 1518
  const PAYLOAD_MAX: nat := 1472
  const ETHERTYPE_IPV4: nat := 0x0800
  const PROTO_UDP: nat := 17

  type u16 = x: nat | x < 0x1_0000
  type u32 = x: nat | x < 0x1_0000_0000

  /** A hardware address. */
  type Mac = m: seq<byte> | |m| == 6 witness [0, 0, 0, 0, 0, 0]

  const BROADCAST: Mac := [255, 255, 255, 255, 255, 255]

  // ---------------------------------------------------------------- big-endian

  function Bytes16(v: u16): (b: seq<byte>)
    ensures |b| == 2
  {
    [v / 256, v % 256]
  }

  function Bytes32(v: u32): (b: seq<byte>)
    ensures |b| == 4
  {
    [v / 0x100_0000, v / 0x1_0000 % 256, v / 256 % 256, v % 256]
  }

  function Read16(b: seq<byte>, i: nat): u16
    requires i + 1 < |b|
  {
    (b[i] as nat) * 256 + (b[i + 1] as nat)
  }

  function Read32(b: seq<byte>, i: nat): u32
    requires i + 3 < |b|
  {
    (b[i] as nat) * 0x100_0000 + (b[i + 1] as nat) * 0x1_0000 + (b[i + 2] as nat) * 256 + (b[i + 3] as nat)
  }

  /** Reading back what was written. */
  lemma ReadWritten(b: seq<byte>, i: nat, v: u16)
    requires i + 1 < |b| && b[i] == v / 256 && b[i + 1] == v % 256
    ensures Read16(b, i) == v
  {}

  lemma ReadWritten32(b: seq<byte>, i: nat, v: u32)
    requires i + 3 < |b| && b[i..i + 4] == Bytes32(v)
    ensures Read32(b, i) == v
  {
    assert b[i] == b[i..i + 4][0] && b[i + 1] == b[i..i + 4][1];
    assert b[i + 2] == b[i..i + 4][2] && b[i + 3] == b[i..i + 4][3];
    Digits(v);
  }

  /** A number is put together again from its four bytes. */
  lemma Digits(v: u32)
    ensures v / 0x100_0000 * 0x100_0000 + v / 0x1_0000 % 256 * 0x1_0000 + v / 256 % 256 * 256 + v % 256 == v
  {
    var a := v / 256;
    var b := a / 256;
    assert v / 0x1_0000 == b && v / 0x100_0000 == b / 256;
    assert v == a * 256 + v % 256 && a == b * 256 + a % 256 && b == b / 256 * 256 + b % 256;
  }

  // ------------------------------------------------------------------ checksum

  /** The sum of the 16-bit words of `data`, an odd last byte standing for its high half. */
  function Sum(data: seq<byte>): nat {
    if data == [] then 0
    else if |data| == 1 then (data[0] as nat) * 256
    else Read16(data, 0) + Sum(data[2..])
  }

  /** Carries are added back in until none is left. */
  function Fold(sum: nat): (r: u16)
    decreases sum
  {
    if sum < 0x1_0000 then sum else Fold(sum % 0x1_0000 + sum / 0x1_0000)
  }

  function Complement(sum: nat): u16 {
    0xffff - Fold(sum)
  }

  /** net_checksum. */
  function Checksum(data: seq<byte>): u16 {
    Complement(Sum(data))
  }

  /** The words of the pseudo-header of RFC 768. */
  function PseudoSum(source: u32, destination: u32, length: nat): nat {
    source / 0x1_0000 + source % 0x1_0000 + destination / 0x1_0000 + destination % 0x1_0000 + PROTO_UDP + length
  }

  /** udp_checksum. */
  function UdpChecksum(source: u32, destination: u32, udp: seq<byte>): u16 {
    Complement(PseudoSum(source, destination, |udp|) + Sum(udp))
  }

  /** Ones' complement arithmetic is arithmetic modulo 0xffff, with zero kept apart. */
  lemma {:induction false} FoldIs(sum: nat)
    ensures Fold(sum) == if sum == 0 then 0 else (sum - 1) % 0xffff + 1
    decreases sum
  {
    if sum < 0x1_0000 {
    } else {
      var high, low := sum / 0x1_0000, sum % 0x1_0000;
      FoldIs(low + high);
      SameModulo(low + high - 1, high);
      assert sum - 1 == (low + high - 1) + high * 0xffff;
    }
  }

  lemma {:induction false} SameModulo(a: nat, k: nat)
    ensures (a + k * 0xffff) % 0xffff == a % 0xffff
    decreases k
  {
    if 0 < k {
      SameModulo(a, k - 1);
      assert (a + (k - 1) * 0xffff + 0xffff) % 0xffff == (a + (k - 1) * 0xffff) % 0xffff;
    }
  }

  /** A sum is complemented to zero exactly when it is a positive multiple of 0xffff. */
  lemma ComplementZero(sum: nat)
    ensures Complement(sum) == 0 <==> 0 < sum && sum % 0xffff == 0
  {
    FoldIs(sum);
  }

  /** Adding a sum's own checksum makes it verify, also when the checksum is sent as 0xffff for 0. */
  lemma OwnChecksum(sum: nat, check: u16)
    requires 0 < sum
    requires check == Complement(sum) || (Complement(sum) == 0 && check == 0xffff)
    ensures Complement(sum + check) == 0
  {
    FoldIs(sum);
    ComplementZero(sum + check);
    var q := (sum - 1) / 0xffff;
    assert sum - 1 == q * 0xffff + (sum - 1) % 0xffff;
    if check == Complement(sum) {
      assert sum + check == 0 + (q + 1) * 0xffff;
      SameModulo(0, q + 1);
    } else {
      assert sum + check == 0 + (q + 2) * 0xffff;
      SameModulo(0, q + 2);
    }
  }

  /** Replacing one word changes the sum by the difference. */
  lemma {:induction false} SumReplace(data: seq<byte>, i: nat, v: u16)
    requires i % 2 == 0 && i + 1 < |data|
    ensures Sum(data[i := v / 256][i + 1 := v % 256]) + Read16(data, i) == Sum(data) + v
    decreases i
  {
    var now := data[i := v / 256][i + 1 := v % 256];
    if i == 0 {
      assert now[2..] == data[2..];
    } else {
      SumReplace(data[2..], i - 2, v);
      assert now[2..] == data[2..][i - 2 := v / 256][i - 1 := v % 256];
    }
  }

  /** A changed word goes unnoticed exactly when it differs by a multiple of 0xffff. */
  lemma OneWordError(data: seq<byte>, i: nat, v: u16)
    requires i % 2 == 0 && i + 1 < |data| && Checksum(data) == 0
    requires v != Read16(data, i)
    ensures var now := data[i := v / 256][i + 1 := v % 256];
      Checksum(now) == 0
      <==> 0 < Sum(now) && ((v == 0 && Read16(data, i) == 0xffff) || (v == 0xffff && Read16(data, i) == 0))
  {
    hide Sum, Read16, Complement;
    var now := data[i := v / 256][i + 1 := v % 256];
    SumReplace(data, i, v);
    ComplementZero(Sum(data));
    ComplementZero(Sum(now));
    Shifted(Sum(data), Sum(now), Read16(data, i), v);
  }

  /** Such a change: the words 0xffff 0 and 0xffff 0xffff have the same checksum. */
  lemma ErrorCanEscape()
    ensures var data: seq<byte> := [0xff, 0xff, 0, 0];
      && Checksum(data) == 0 && Read16(data, 2) == 0
      && Checksum(data[2 := 0xff][3 := 0xff]) == 0
  {
    var data: seq<byte> := [0xff, 0xff, 0, 0];
    assert data[2..] == [0, 0] && data[2..][2..] == [];
    assert Sum(data) == 0xffff;
    ComplementZero(Sum(data));
    OneWordError(data, 2, 0xffff);
  }

  lemma Shifted(a: nat, b: nat, w: u16, v: u16)
    requires b + w == a + v && a % 0xffff == 0 && v != w
    ensures b % 0xffff == 0 <==> (v == 0 && w == 0xffff) || (v == 0xffff && w == 0)
  {
    var q := a / 0xffff;
    assert a == q * 0xffff;
    if w < v {
      SameModulo(v - w, q);
    } else {
      assert b == 0xffff - (w - v) + q * 0xffff - 0xffff;
      if 0 < q {
        SameModulo(0xffff - (w - v), q - 1);
      }
    }
  }

  // -------------------------------------------------------------------- frames

  /** The IPv4 header of ipv4_header, with `check` in its checksum field. */
  function Header(total: u16, id: u16, protocol: byte, source: u32, destination: u32, check: u16): (h: seq<byte>)
    ensures |h| == IPV4_HEADER
  {
    [0x45, 0] + Bytes16(total) + Bytes16(id) + [0x40, 0, 64, protocol] + Bytes16(check) + Bytes32(source) + Bytes32(destination)
  }

  function IpHeader(length: nat, id: u16, source: u32, destination: u32): (h: seq<byte>)
    requires IPV4_HEADER + length < 0x1_0000
    ensures |h| == IPV4_HEADER
  {
    Header(IPV4_HEADER + length, id, PROTO_UDP, source, destination,
           Checksum(Header(IPV4_HEADER + length, id, PROTO_UDP, source, destination, 0)))
  }

  function Datagram(sourcePort: u16, destinationPort: u16, payload: seq<byte>, check: u16): (d: seq<byte>)
    requires |payload| <= PAYLOAD_MAX
    ensures |d| == UDP_HEADER + |payload|
  {
    Bytes16(sourcePort) + Bytes16(destinationPort) + Bytes16(UDP_HEADER + |payload|) + Bytes16(check) + payload
  }

  /** The checksum that is sent: never zero, which would mean none. */
  function SentChecksum(source: u32, destination: u32, sourcePort: u16, destinationPort: u16, payload: seq<byte>): u16
    requires |payload| <= PAYLOAD_MAX
  {
    var c := UdpChecksum(source, destination, Datagram(sourcePort, destinationPort, payload, 0));
    if c == 0 then 0xffff else c
  }

  datatype Udp = Udp(source: u32, destination: u32, sourcePort: u16, destinationPort: u16, payload: seq<byte>)

  /** The frame send_udp transmits. */
  function Frame(to: Mac, from: Mac, id: u16, u: Udp): (f: seq<byte>)
    requires |u.payload| <= PAYLOAD_MAX
    ensures |f| == ETH_HEADER + IPV4_HEADER + UDP_HEADER + |u.payload|
  {
    to + from + Bytes16(ETHERTYPE_IPV4) + IpHeader(UDP_HEADER + |u.payload|, id, u.source, u.destination)
    + Datagram(u.sourcePort, u.destinationPort, u.payload,
               SentChecksum(u.source, u.destination, u.sourcePort, u.destinationPort, u.payload))
  }

  /** parse_udp on the card with address `us`. */
  function Parse(frame: seq<byte>, us: Mac): Option<Udp> {
    if |frame| < ETH_HEADER + IPV4_HEADER + UDP_HEADER then None
    else if (frame[..6] != us && frame[..6] != BROADCAST) || Read16(frame, 12) != ETHERTYPE_IPV4 then None
    else
      var ip := frame[ETH_HEADER..];
      var ihl := ip[0] % 16 * 4;
      if ip[0] / 16 != 4 || ihl < IPV4_HEADER || |ip| < ihl then None
      else
        var total := Read16(ip, 2);
        if total < ihl + UDP_HEADER || |ip| < total || Checksum(ip[..ihl]) != 0 || ip[9] != PROTO_UDP then None
        else if Read16(ip, 6) % 0x4000 != 0 then None
        else
          var udp := ip[ihl..];
          var length := Read16(udp, 4);
          if length < UDP_HEADER || total - ihl < length then None
          else if Read16(udp, 6) != 0 && UdpChecksum(Read32(ip, 12), Read32(ip, 16), udp[..length]) != 0 then None
          else Some(Udp(Read32(ip, 12), Read32(ip, 16), Read16(udp, 0), Read16(udp, 2), udp[UDP_HEADER..length]))
  }

  // ---------------------------------------------------------------- round trip

  /** Where the fields of the header lie, and what its checksum field does to the sum. */
  lemma HeaderFields(total: u16, id: u16, protocol: byte, source: u32, destination: u32, check: u16)
    ensures var h := Header(total, id, protocol, source, destination, check);
      && h[0] == 0x45 && Read16(h, 2) == total && Read16(h, 6) == 0x4000 && h[9] == protocol
      && Read32(h, 12) == source && Read32(h, 16) == destination
      && Read16(h, 10) == check
      && Sum(h) == Sum(Header(total, id, protocol, source, destination, 0)) + check
      && 0 < Sum(Header(total, id, protocol, source, destination, 0))
  {
    var h, zero := Header(total, id, protocol, source, destination, check), Header(total, id, protocol, source, destination, 0);
    ReadWritten(h, 2, total);
    ReadWritten(h, 10, check);
    assert h[12..16] == Bytes32(source) && h[16..20] == Bytes32(destination);
    ReadWritten32(h, 12, source);
    ReadWritten32(h, 16, destination);
    assert zero[10] == 0 && zero[11] == 0;
    assert zero[10 := check / 256][11 := check % 256] == h;
    SumReplace(zero, 10, check);
    assert Sum(zero) == Read16(zero, 0) + Sum(zero[2..]);
    hide Sum, Read32, Header;
  }

  /** A header built with its checksum verifies. */
  lemma HeaderVerifies(length: nat, id: u16, source: u32, destination: u32)
    requires IPV4_HEADER + length < 0x1_0000
    ensures Checksum(IpHeader(length, id, source, destination)) == 0
  {
    var zero := Header(IPV4_HEADER + length, id, PROTO_UDP, source, destination, 0);
    HeaderFields(IPV4_HEADER + length, id, PROTO_UDP, source, destination, Checksum(zero));
    hide Sum, Header;
    OwnChecksum(Sum(zero), Checksum(zero));
  }

  lemma DatagramFields(sourcePort: u16, destinationPort: u16, payload: seq<byte>, check: u16)
    requires |payload| <= PAYLOAD_MAX
    ensures var d := Datagram(sourcePort, destinationPort, payload, check);
      && Read16(d, 0) == sourcePort && Read16(d, 2) == destinationPort
      && Read16(d, 4) == UDP_HEADER + |payload| && Read16(d, 6) == check && d[UDP_HEADER..] == payload
      && Sum(d) == Sum(Datagram(sourcePort, destinationPort, payload, 0)) + check
  {
    var d, zero := Datagram(sourcePort, destinationPort, payload, check), Datagram(sourcePort, destinationPort, payload, 0);
    ReadWritten(d, 0, sourcePort);
    ReadWritten(d, 2, destinationPort);
    ReadWritten(d, 4, UDP_HEADER + |payload|);
    ReadWritten(d, 6, check);
    assert zero[6] == 0 && zero[7] == 0;
    assert zero[6 := check / 256][7 := check % 256] == d;
    SumReplace(zero, 6, check);
    hide Sum;
  }

  /** A datagram sent with its checksum verifies, and its checksum field is not zero. */
  lemma DatagramVerifies(u: Udp)
    requires |u.payload| <= PAYLOAD_MAX
    ensures var check := SentChecksum(u.source, u.destination, u.sourcePort, u.destinationPort, u.payload);
      && check != 0
      && UdpChecksum(u.source, u.destination, Datagram(u.sourcePort, u.destinationPort, u.payload, check)) == 0
  {
    var check := SentChecksum(u.source, u.destination, u.sourcePort, u.destinationPort, u.payload);
    DatagramFields(u.sourcePort, u.destinationPort, u.payload, check);
    hide Sum, Datagram;
    var zero := Datagram(u.sourcePort, u.destinationPort, u.payload, 0);
    OwnChecksum(PseudoSum(u.source, u.destination, |zero|) + Sum(zero), check);
  }

  /** Where the parts of a frame lie when it has arrived, perhaps padded. */
  lemma FrameParts(to: Mac, from: Mac, id: u16, u: Udp, padding: seq<byte>)
    requires |u.payload| <= PAYLOAD_MAX
    ensures var f := Frame(to, from, id, u) + padding;
      var header := IpHeader(UDP_HEADER + |u.payload|, id, u.source, u.destination);
      var check := SentChecksum(u.source, u.destination, u.sourcePort, u.destinationPort, u.payload);
      var datagram := Datagram(u.sourcePort, u.destinationPort, u.payload, check);
      && f[..6] == to && Read16(f, 12) == ETHERTYPE_IPV4
      && f[ETH_HEADER..] == header + datagram + padding
      && f[ETH_HEADER..][..IPV4_HEADER] == header
      && f[ETH_HEADER..][IPV4_HEADER..] == datagram + padding
      && f[ETH_HEADER..][IPV4_HEADER..][..|datagram|] == datagram
  {
    hide IpHeader, Datagram, SentChecksum;
    var f := Frame(to, from, id, u) + padding;
    var header := IpHeader(UDP_HEADER + |u.payload|, id, u.source, u.destination);
    var check := SentChecksum(u.source, u.destination, u.sourcePort, u.destinationPort, u.payload);
    var datagram := Datagram(u.sourcePort, u.destinationPort, u.payload, check);
    assert f == (to + from + Bytes16(ETHERTYPE_IPV4)) + (header + datagram + padding);
    assert f[12] == Bytes16(ETHERTYPE_IPV4)[0] && f[13] == Bytes16(ETHERTYPE_IPV4)[1];
    ReadWritten(f, 12, ETHERTYPE_IPV4);
  }

  /** The fields of an acceptable frame that carries `u`. */
  ghost predicate Carries(ip: seq<byte>, u: Udp) {
    && IPV4_HEADER + UDP_HEADER + |u.payload| <= |ip|
    && ip[0] == 0x45 && ip[9] == PROTO_UDP && Checksum(ip[..IPV4_HEADER]) == 0
    && Read16(ip, 2) == IPV4_HEADER + UDP_HEADER + |u.payload| && Read16(ip, 6) == 0x4000
    && Read32(ip, 12) == u.source && Read32(ip, 16) == u.destination
    && DatagramOf(ip[IPV4_HEADER..], u)
  }

  ghost predicate DatagramOf(udp: seq<byte>, u: Udp) {
    && UDP_HEADER + |u.payload| <= |udp|
    && Read16(udp, 0) == u.sourcePort && Read16(udp, 2) == u.destinationPort
    && Read16(udp, 4) == UDP_HEADER + |u.payload|
    && UdpChecksum(u.source, u.destination, udp[..UDP_HEADER + |u.payload|]) == 0
    && udp[UDP_HEADER..UDP_HEADER + |u.payload|] == u.payload
  }

  lemma CarriedIsParsed(frame: seq<byte>, us: Mac, u: Udp)
    requires ETH_HEADER <= |frame| && (frame[..6] == us || frame[..6] == BROADCAST) && Read16(frame, 12) == ETHERTYPE_IPV4
    requires Carries(frame[ETH_HEADER..], u)
    ensures Parse(frame, us) == Some(u)
  {
    hide Read16, Read32, Checksum, UdpChecksum;
  }

  lemma SentDatagram(u: Udp, udp: seq<byte>, padding: seq<byte>)
    requires |u.payload| <= PAYLOAD_MAX
    requires udp == Datagram(u.sourcePort, u.destinationPort, u.payload,
                             SentChecksum(u.source, u.destination, u.sourcePort, u.destinationPort, u.payload)) + padding
    ensures DatagramOf(udp, u)
  {
    hide Sum, Fold, Datagram, SentChecksum, UdpChecksum, Read16;
    var check := SentChecksum(u.source, u.destination, u.sourcePort, u.destinationPort, u.payload);
    var datagram := Datagram(u.sourcePort, u.destinationPort, u.payload, check);
    DatagramFields(u.sourcePort, u.destinationPort, u.payload, check);
    DatagramVerifies(u);
    assert udp[..|datagram|] == datagram;
    SamePrefix(udp, datagram);
    assert udp[UDP_HEADER..UDP_HEADER + |u.payload|] == datagram[UDP_HEADER..];
  }

  /**
   Every frame send_udp builds for this card, or for everyone, is accepted, padded or not, and
   gives back the same addresses, ports and payload.
   */
  lemma SentIsParsed(us: Mac, to: Mac, from: Mac, id: u16, u: Udp, padding: seq<byte>)
    requires |u.payload| <= PAYLOAD_MAX && (to == us || to == BROADCAST)
    ensures Parse(Frame(to, from, id, u) + padding, us) == Some(u)
  {
    hide Sum, Fold, Header, Datagram, SentChecksum, Checksum, UdpChecksum, Frame, Parse, DatagramOf, Read16, Read32;
    var f := Frame(to, from, id, u) + padding;
    var length := UDP_HEADER + |u.payload|;
    var header := IpHeader(length, id, u.source, u.destination);
    FrameParts(to, from, id, u, padding);
    HeaderFields(IPV4_HEADER + length, id, PROTO_UDP, u.source, u.destination,
                 Checksum(Header(IPV4_HEADER + length, id, PROTO_UDP, u.source, u.destination, 0)));
    HeaderVerifies(length, id, u.source, u.destination);
    var ip := f[ETH_HEADER..];
    SamePrefix(ip, header);
    SentDatagram(u, ip[IPV4_HEADER..], padding);
    CarriedIsParsed(f, us, u);
  }

  /** Fields read the same from a longer buffer. */
  lemma SamePrefix(long: seq<byte>, short: seq<byte>)
    requires |short| <= |long| && long[..|short|] == short
    ensures forall i :: 0 <= i < |short| ==> long[i] == short[i]
    ensures forall i {:trigger Read16(long, i)} :: 0 <= i && i + 1 < |short| ==> Read16(long, i) == Read16(short, i)
    ensures forall i {:trigger Read32(long, i)} :: 0 <= i && i + 3 < |short| ==> Read32(long, i) == Read32(short, i)
  {
    assert forall i :: 0 <= i < |short| ==> long[i] == long[..|short|][i];
  }
}
