/**
 Building and reading frames the way the network stack does: one transmit buffer written field
 by field, checksums summed in a loop. Tied to PacketSpec.
 */
module Packets {
  import opened Machine
  import opened PacketSpec

  /** `s` with `bytes` written over it from `at` on. */
  ghost function Patch(s: seq<byte>, at: nat, bytes: seq<byte>): (r: seq<byte>)
    requires at + |bytes| <= |s|
    ensures |r| == |s|
    ensures forall i :: 0 <= i < |s| ==> r[i] == if at <= i < at + |bytes| then bytes[i - at] else s[i]
  {
    s[..at] + bytes + s[at + |bytes|..]
  }

  method WriteBe16(buffer: array<byte>, at: nat, value: u16)
    requires at + 2 <= buffer.Length
    modifies buffer
    ensures buffer[..] == Patch(old(buffer[..]), at, Bytes16(value))
  {
    buffer[at] := value / 256;
    buffer[at + 1] := value % 256;
  }

  method WriteBe32(buffer: array<byte>, at: nat, value: u32)
    requires at + 4 <= buffer.Length
    modifies buffer
    ensures buffer[..] == Patch(old(buffer[..]), at, Bytes32(value))
  {
    buffer[at] := value / 0x100_0000;
    buffer[at + 1] := value / 0x1_0000 % 256;
    buffer[at + 2] := value / 256 % 256;
    buffer[at + 3] := value % 256;
  }

  function Zeros(n: nat): (z: seq<byte>)
    ensures |z| == n && forall i :: 0 <= i < n ==> z[i] == 0
  {
    seq(n, i => 0)
  }

  method BytesZero(buffer: array<byte>, at: nat, length: nat)
    requires at + length <= buffer.Length
    modifies buffer
    ensures buffer[..] == Patch(old(buffer[..]), at, Zeros(length))
  {
    for i := 0 to length
      invariant forall j :: 0 <= j < buffer.Length ==> buffer[j] == if at <= j < at + i then 0 else old(buffer[j])
    {
      buffer[at + i] := 0;
    }
  }

  method BytesCopy(buffer: array<byte>, at: nat, source: seq<byte>)
    requires at + |source| <= buffer.Length
    modifies buffer
    ensures buffer[..] == Patch(old(buffer[..]), at, source)
  {
    for i := 0 to |source|
      invariant forall j :: 0 <= j < buffer.Length ==>
                  buffer[j] == if at <= j < at + i then source[j - at] else old(buffer[j])
    {
      buffer[at + i] := source[i];
    }
  }

  method BytesEqual(left: seq<byte>, right: seq<byte>) returns (equal: bool)
    requires |left| == |right|
    ensures equal <==> left == right
  {
    var i := 0;
    while i < |left|
      invariant i <= |left| && forall j :: 0 <= j < i ==> left[j] == right[j]
    {
      if left[i] != right[i] {
        return false;
      }
      i := i + 1;
    }
    return true;
  }

  // ----------------------------------------------------------------- checksum

  /** The words of `data` added to `start`, as both checksums begin. */
  method AddWords(data: seq<byte>, start: nat) returns (sum: nat)
    ensures sum == start + Sum(data)
  {
    sum := start;
    var offset := 0;
    while |data| - offset >= 2
      invariant offset <= |data| && sum + Sum(data[offset..]) == start + Sum(data)
    {
      assert data[offset..][2..] == data[offset + 2..];
      sum := sum + Read16(data, offset);
      offset := offset + 2;
    }
    if offset < |data| {
      sum := sum + (data[offset] as nat) * 256;
    }
  }

  /** The carries folded back in, and the complement, as both checksums end. */
  method FoldCarries(start: nat) returns (check: u16)
    ensures check == Complement(start)
  {
    var sum := start;
    while sum / 0x1_0000 != 0
      invariant Fold(sum) == Fold(start)
      decreases sum
    {
      sum := sum % 0x1_0000 + sum / 0x1_0000;
    }
    return 0xffff - sum;
  }

  method NetChecksum(data: seq<byte>) returns (check: u16)
    ensures check == Checksum(data)
  {
    var sum := AddWords(data, 0);
    check := FoldCarries(sum);
  }

  method ChecksumUdp(source: u32, destination: u32, udp: seq<byte>) returns (check: u16)
    ensures check == UdpChecksum(source, destination, udp)
  {
    var sum := source / 0x1_0000 % 0x1_0000;
    sum := sum + source % 0x1_0000;
    sum := sum + destination / 0x1_0000 % 0x1_0000;
    sum := sum + destination % 0x1_0000;
    sum := sum + PROTO_UDP;
    sum := sum + |udp|;
    sum := AddWords(udp, sum);
    check := FoldCarries(sum);
  }

  lemma {:induction false} SumBound(data: seq<byte>)
    ensures Sum(data) <= (|data| + 1) / 2 * 0xffff
  {
    if 2 <= |data| {
      SumBound(data[2..]);
    }
  }

  /** The 32-bit sums of the checksums never wrap. */
  lemma SumFits(source: u32, destination: u32, udp: seq<byte>)
    requires |udp| <= 0xffff
    ensures PseudoSum(source, destination, |udp|) + Sum(udp) < 0x1_0000_0000
  {
    SumBound(udp);
  }

  class Network {
    const mac: Mac
    var identification: u16
    const transmit: array<byte>

    constructor (mac: Mac)
      ensures this.mac == mac && identification == 0 && transmit.Length == FRAME_MAX && fresh(transmit)
    {
      this.mac := mac;
      identification := 0;
      transmit := new byte[FRAME_MAX](i => 0);
    }

    method EthernetHeader(to: Mac, ethertype: u16)
      requires transmit.Length == FRAME_MAX
      modifies transmit
      ensures transmit[..] == Patch(old(transmit[..]), 0, to + mac + Bytes16(ethertype))
    {
      BytesCopy(transmit, 0, to);
      BytesCopy(transmit, 6, mac);
      WriteBe16(transmit, 12, ethertype);
    }

    /** ipv4_header; every packet gets the next identification. */
    method Ipv4Header(length: nat, protocol: byte, source: u32, destination: u32)
      requires transmit.Length == FRAME_MAX && IPV4_HEADER + length < 0x1_0000
      modifies transmit, this`identification
      ensures identification == (old(identification) + 1) % 0x1_0000
      ensures var zero := Header(IPV4_HEADER + length, identification, protocol, source, destination, 0);
        transmit[..] == Patch(old(transmit[..]), ETH_HEADER,
                              Header(IPV4_HEADER + length, identification, protocol, source, destination, Checksum(zero)))
    {
      hide Checksum;
      var at, total := ETH_HEADER, IPV4_HEADER + length;
      identification := (identification + 1) % 0x1_0000;
      HeaderWithoutChecksum(total, protocol, source, destination);
      ghost var zero := Header(total, identification, protocol, source, destination, 0);
      assert transmit[at..at + IPV4_HEADER] == zero;
      var check := NetChecksum(transmit[at..at + IPV4_HEADER]);
      WriteBe16(transmit, at + 10, check);
      HeaderPatched(old(transmit[..]), total, identification, protocol, source, destination, check);
    }

    method HeaderWithoutChecksum(total: u16, protocol: byte, source: u32, destination: u32)
      requires transmit.Length == FRAME_MAX
      modifies transmit
      ensures transmit[..] == Patch(old(transmit[..]), ETH_HEADER, Header(total, identification, protocol, source, destination, 0))
    {
      hide Patch, Bytes16, Bytes32, Header;
      var at := ETH_HEADER;
      ghost var s := transmit[..];
      ghost var h := Zeros(IPV4_HEADER);
      HeaderSteps(total, identification, protocol, source, destination);
      BytesZero(transmit, at, IPV4_HEADER);
      WriteByte(at, 0x45);
      h := PatchWithin(s, at, h, 0, [0x45]);
      WriteBe16(transmit, at + 2, total);
      h := PatchWithin(s, at, h, 2, Bytes16(total));
      WriteBe16(transmit, at + 4, identification);
      h := PatchWithin(s, at, h, 4, Bytes16(identification));
      WriteBe16(transmit, at + 6, 0x4000);
      h := PatchWithin(s, at, h, 6, Bytes16(0x4000));
      WriteByte(at + 8, 64);
      h := PatchWithin(s, at, h, 8, [64]);
      WriteByte(at + 9, protocol);
      h := PatchWithin(s, at, h, 9, [protocol]);
      WriteBe32(transmit, at + 12, source);
      h := PatchWithin(s, at, h, 12, Bytes32(source));
      WriteBe32(transmit, at + 16, destination);
      h := PatchWithin(s, at, h, 16, Bytes32(destination));
    }

    method WriteByte(at: nat, value: byte)
      requires transmit.Length == FRAME_MAX && at < FRAME_MAX
      modifies transmit
      ensures transmit[..] == Patch(old(transmit[..]), at, [value])
    {
      transmit[at] := value;
    }

    /** The frame that goes to the card, or None for a payload that does not fit. */
    method SendUdp(to: Mac, u: Udp) returns (frame: Option<seq<byte>>)
      requires transmit.Length == FRAME_MAX
      modifies transmit, this`identification
      ensures PAYLOAD_MAX < |u.payload| ==> frame == None && transmit[..] == old(transmit[..])
      ensures |u.payload| <= PAYLOAD_MAX ==>
        && identification == (old(identification) + 1) % 0x1_0000
        && frame == Some(Frame(to, mac, identification, u))
    {
      hide Checksum, UdpChecksum, Header, Patch, Frame, Datagram, SentChecksum, Bytes16, IpHeader;
      if PAYLOAD_MAX < |u.payload| {
        return None;
      }
      var total := ETH_HEADER + IPV4_HEADER + UDP_HEADER + |u.payload|;
      var udp := ETH_HEADER + IPV4_HEADER;
      ghost var before := transmit[..];
      EthernetHeader(to, ETHERTYPE_IPV4);
      Ipv4Header(UDP_HEADER + |u.payload|, PROTO_UDP, u.source, u.destination);
      ghost var headers := transmit[..];
      HeadersBuilt(before, headers, to, mac, identification, u);
      SentIs(u);
      WriteDatagram(u);
      DatagramPatched(headers, u, 0);
      var check := ChecksumUdp(u.source, u.destination, transmit[udp..total]);
      if check == 0 {
        check := 0xffff;
      }
      WriteBe16(transmit, udp + 6, check);
      DatagramPatched(headers, u, check);
      FrameBuilt(headers, transmit[..], to, mac, identification, u);
      return Some(transmit[..total]);
    }

    method WriteDatagram(u: Udp)
      requires transmit.Length == FRAME_MAX && |u.payload| <= PAYLOAD_MAX
      modifies transmit
      ensures transmit[..] == Patch(old(transmit[..]), ETH_HEADER + IPV4_HEADER,
                                    Datagram(u.sourcePort, u.destinationPort, u.payload, 0))
    {
      hide Patch, Bytes16, Datagram;
      var at := ETH_HEADER + IPV4_HEADER;
      ghost var s := transmit[..];
      ghost var d := s[at..at + UDP_HEADER + |u.payload|];
      DatagramSteps(s, at, d, u);
      WriteBe16(transmit, at, u.sourcePort);
      d := PatchWithin(s, at, d, 0, Bytes16(u.sourcePort));
      WriteBe16(transmit, at + 2, u.destinationPort);
      d := PatchWithin(s, at, d, 2, Bytes16(u.destinationPort));
      WriteBe16(transmit, at + 4, UDP_HEADER + |u.payload|);
      d := PatchWithin(s, at, d, 4, Bytes16(UDP_HEADER + |u.payload|));
      WriteBe16(transmit, at + 6, 0);
      d := PatchWithin(s, at, d, 6, Bytes16(0));
      if |u.payload| != 0 {
        BytesCopy(transmit, at + UDP_HEADER, u.payload);
        d := PatchWithin(s, at, d, UDP_HEADER, u.payload);
      }
    }

    /** mac_for_us. */
    method ForUs(to: Mac) returns (ours: bool)
      ensures ours <==> to == mac || to == BROADCAST
    {
      ours := BytesEqual(to, mac);
      if !ours {
        ours := BytesEqual(to, BROADCAST);
      }
    }

    method ParseUdp(frame: seq<byte>) returns (view: Option<Udp>)
      ensures view == Parse(frame, mac)
    {
      hide Checksum, UdpChecksum, Read32;
      if |frame| < ETH_HEADER + IPV4_HEADER + UDP_HEADER {
        return None;
      }
      var ours := ForUs(frame[..6]);
      if !ours || Read16(frame, 12) != ETHERTYPE_IPV4 {
        return None;
      }
      var ip := frame[ETH_HEADER..];
      if ip[0] / 16 != 4 {
        return None;
      }
      var ihl := ip[0] % 16 * 4;
      if ihl < IPV4_HEADER || |ip| < ihl {
        return None;
      }
      var total := Read16(ip, 2);
      var check := NetChecksum(ip[..ihl]);
      if total < ihl + UDP_HEADER || |ip| < total || check != 0 || ip[9] != PROTO_UDP {
        return None;
      }
      if Read16(ip, 6) % 0x4000 != 0 {
        return None;
      }
      var source, destination := Read32(ip, 12), Read32(ip, 16);
      var udp := ip[ihl..];
      var length := Read16(udp, 4);
      if length < UDP_HEADER || total - ihl < length {
        return None;
      }
      if Read16(udp, 6) != 0 {
        check := ChecksumUdp(source, destination, udp[..length]);
        if check != 0 {
          return None;
        }
      }
      return Some(Udp(source, destination, Read16(udp, 0), Read16(udp, 2), udp[UDP_HEADER..length]));
    }
  }

  /** Writing inside a part that has been written is writing another part. */
  lemma PatchWithin(s: seq<byte>, at: nat, h: seq<byte>, k: nat, bytes: seq<byte>) returns (g: seq<byte>)
    requires at + |h| <= |s| && k + |bytes| <= |h|
    ensures g == Patch(h, k, bytes) && Patch(Patch(s, at, h), at + k, bytes) == Patch(s, at, g)
  {
    g := Patch(h, k, bytes);
  }

  /** The fields of the header written one after the other. */
  lemma HeaderSteps(total: u16, id: u16, protocol: byte, source: u32, destination: u32)
    ensures var h := Patch(Patch(Patch(Zeros(IPV4_HEADER), 0, [0x45]), 2, Bytes16(total)), 4, Bytes16(id));
      var g := Patch(Patch(Patch(h, 6, Bytes16(0x4000)), 8, [64]), 9, [protocol]);
      Patch(Patch(g, 12, Bytes32(source)), 16, Bytes32(destination)) == Header(total, id, protocol, source, destination, 0)
  {
    var h := Patch(Patch(Patch(Zeros(IPV4_HEADER), 0, [0x45]), 2, Bytes16(total)), 4, Bytes16(id));
    assert h == [0x45, 0] + Bytes16(total) + Bytes16(id) + Zeros(14);
    var g := Patch(Patch(Patch(h, 6, Bytes16(0x4000)), 8, [64]), 9, [protocol]);
    assert g == [0x45, 0] + Bytes16(total) + Bytes16(id) + [0x40, 0, 64, protocol] + Zeros(10);
  }

  lemma DatagramSteps(s: seq<byte>, at: nat, d: seq<byte>, u: Udp)
    requires |u.payload| <= PAYLOAD_MAX && at + UDP_HEADER + |u.payload| <= |s|
    requires d == s[at..at + UDP_HEADER + |u.payload|]
    ensures Patch(s, at, d) == s
    ensures var h := Patch(Patch(d, 0, Bytes16(u.sourcePort)), 2, Bytes16(u.destinationPort));
      var g := Patch(Patch(h, 4, Bytes16(UDP_HEADER + |u.payload|)), 6, Bytes16(0));
      && Patch(g, UDP_HEADER, u.payload) == Datagram(u.sourcePort, u.destinationPort, u.payload, 0)
      && (u.payload == [] ==> g == Datagram(u.sourcePort, u.destinationPort, u.payload, 0))
  {
    var h := Patch(Patch(d, 0, Bytes16(u.sourcePort)), 2, Bytes16(u.destinationPort));
    var g := Patch(Patch(h, 4, Bytes16(UDP_HEADER + |u.payload|)), 6, Bytes16(0));
    var head := Bytes16(u.sourcePort) + Bytes16(u.destinationPort) + Bytes16(UDP_HEADER + |u.payload|) + Bytes16(0);
    assert g == head + d[UDP_HEADER..];
  }

  /** Writing the checksum into a header that was written with zero. */
  lemma HeaderPatched(s: seq<byte>, total: u16, id: u16, protocol: byte, source: u32, destination: u32, check: u16)
    requires |s| == FRAME_MAX
    ensures Patch(Patch(s, ETH_HEADER, Header(total, id, protocol, source, destination, 0)), ETH_HEADER + 10, Bytes16(check))
         == Patch(s, ETH_HEADER, Header(total, id, protocol, source, destination, check))
  {}

  /** Writing the checksum into a datagram that was written with zero. */
  lemma DatagramPatched(s: seq<byte>, u: Udp, check: u16)
    requires |s| == FRAME_MAX && |u.payload| <= PAYLOAD_MAX
    ensures var at, d := ETH_HEADER + IPV4_HEADER, Datagram(u.sourcePort, u.destinationPort, u.payload, 0);
      && Patch(Patch(s, at, d), at + 6, Bytes16(check)) == Patch(s, at, Datagram(u.sourcePort, u.destinationPort, u.payload, check))
      && Patch(s, at, d)[at..at + UDP_HEADER + |u.payload|] == d
  {}

  /** The two headers lie one after the other. */
  lemma HeadersBuilt(s: seq<byte>, headers: seq<byte>, to: Mac, from: Mac, id: u16, u: Udp)
    requires |s| == FRAME_MAX && |u.payload| <= PAYLOAD_MAX
    requires var total := IPV4_HEADER + UDP_HEADER + |u.payload|;
      var zero := Header(total, id, PROTO_UDP, u.source, u.destination, 0);
      headers == Patch(Patch(s, 0, to + from + Bytes16(ETHERTYPE_IPV4)), ETH_HEADER,
                       Header(total, id, PROTO_UDP, u.source, u.destination, Checksum(zero)))
    ensures headers[..ETH_HEADER] == to + from + Bytes16(ETHERTYPE_IPV4)
    ensures headers[ETH_HEADER..ETH_HEADER + IPV4_HEADER] == IpHeader(UDP_HEADER + |u.payload|, id, u.source, u.destination)
  {
    hide Checksum, Header;
  }

  lemma SentIs(u: Udp)
    requires |u.payload| <= PAYLOAD_MAX
    ensures var c := UdpChecksum(u.source, u.destination, Datagram(u.sourcePort, u.destinationPort, u.payload, 0));
      SentChecksum(u.source, u.destination, u.sourcePort, u.destinationPort, u.payload) == if c == 0 then 0xffff else c
  {}

  /** The headers and the datagram together are the frame. */
  lemma FrameBuilt(headers: seq<byte>, s: seq<byte>, to: Mac, from: Mac, id: u16, u: Udp)
    requires |s| == |headers| == FRAME_MAX && |u.payload| <= PAYLOAD_MAX
    requires headers[..ETH_HEADER] == to + from + Bytes16(ETHERTYPE_IPV4)
    requires headers[ETH_HEADER..ETH_HEADER + IPV4_HEADER] == IpHeader(UDP_HEADER + |u.payload|, id, u.source, u.destination)
    requires s == Patch(headers, ETH_HEADER + IPV4_HEADER,
                        Datagram(u.sourcePort, u.destinationPort, u.payload,
                                 SentChecksum(u.source, u.destination, u.sourcePort, u.destinationPort, u.payload)))
    ensures s[..ETH_HEADER + IPV4_HEADER + UDP_HEADER + |u.payload|] == Frame(to, from, id, u)
  {
    hide IpHeader, Datagram, SentChecksum;
    assert s[..ETH_HEADER + IPV4_HEADER] == headers[..ETH_HEADER + IPV4_HEADER];
    assert headers[..ETH_HEADER + IPV4_HEADER] == headers[..ETH_HEADER] + headers[ETH_HEADER..ETH_HEADER + IPV4_HEADER];
  }
}
