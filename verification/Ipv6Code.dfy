/** net/ipv6.c as it works on its buffers and its static addresses. */
module Ipv6Code {
  import opened Common
  import opened Checksum
  import opened Ipv6

  /** The bytes of a buffer outside [at, at + n). */
  twostate predicate Elsewhere(a: array<Byte>, at: nat, n: nat)
    requires at + n <= a.Length
    reads a
  {
    && a[..at] == old(a[..at]) && a[at + n..] == old(a[at + n..])
    && forall k | 0 <= k < a.Length && !(at <= k < at + n) :: a[k] == old(a[k])
  }

  lemma SubSlice(a: array<Byte>, i: nat, j: nat, k: nat, l: nat)
    requires i <= j <= a.Length && k <= l <= j - i
    ensures a[i..j][k..l] == a[i + k..i + l]
  {
    assert |a[i..j][k..l]| == |a[i + k..i + l]|;
    forall m | 0 <= m < l - k
      ensures a[i..j][k..l][m] == a[i + k..i + l][m]
    {
      assert a[i..j][k..l][m] == a[i..j][k + m] == a[i + (k + m)];
    }
  }

  lemma TailSlice(a: array<Byte>, n: nat, i: nat, k: nat, l: nat)
    requires i <= n <= a.Length && k <= l <= n - i
    ensures a[..n][i..][k..l] == a[i + k..i + l]
  {
    forall m | 0 <= m < l - k
      ensures a[..n][i..][k..l][m] == a[i + k..i + l][m]
    {
      assert a[..n][i..][k..l][m] == a[..n][i..][k + m] == a[..n][i + (k + m)];
    }
  }

  lemma InThree(a: array<Byte>, i: nat, j: nat, k: nat, l: nat)
    requires i <= j <= k <= l <= a.Length
    ensures a[i..l] == a[i..j] + a[j..k] + a[k..l]
  {
  }

  /** memcpy, or one of the copying helpers. */
  method Copy(dst: array<Byte>, at: nat, src: array<Byte>, from: nat, len: nat)
    requires dst != src && at + len <= dst.Length && from + len <= src.Length
    modifies dst
    ensures dst[at..at + len] == src[from..from + len] && Elsewhere(dst, at, len)
  {
    var i := 0;
    while i < len
      invariant 0 <= i <= len
      invariant dst[at..at + i] == src[from..from + i]
      invariant forall k | 0 <= k < dst.Length && !(at <= k < at + i) :: dst[k] == old(dst[k])
    {
      dst[at + i] := src[from + i];
      assert dst[at..at + i + 1] == dst[at..at + i] + [src[from + i]];
      i := i + 1;
    }
  }

  method Write(dst: array<Byte>, at: nat, src: Bytes)
    requires at + |src| <= dst.Length
    modifies dst
    ensures dst[at..at + |src|] == src && Elsewhere(dst, at, |src|)
  {
    var i := 0;
    while i < |src|
      invariant 0 <= i <= |src|
      invariant forall k | 0 <= k < i :: dst[at + k] == src[k]
      invariant forall k | 0 <= k < dst.Length && !(at <= k < at + i) :: dst[k] == old(dst[k])
    {
      dst[at + i] := src[i];
      i := i + 1;
    }
  }

  /** checksum_ip6, on a packet whose IPv6 header is filled in. */
  method ChecksumIp6(packet: array<Byte>, len: nat) returns (v: nat)
    requires HEADERS + len <= packet.Length <= NETBUF_MAX
    ensures var s := LeSum(Pseudo(packet[24..40], packet[40..56], packet[20..22], packet[22]) + packet[56..56 + len]);
            Fold(s) <= ONES && v == Complement(Fold(s))
  {
    hide LeSum, Fold;
    ghost var b := packet[..];
    var sum := Sum(packet, 20, 2, 256 * (packet[22] as int));
    sum := Sum(packet, 24, len + 32, sum);
    PseudoSum(b[24..40], b[40..56], b[20..22], b[22], b[56..56 + len]);
    assert packet[24..24 + (len + 32)] == b[24..40] + b[40..56] + b[56..56 + len];
    assert packet[20..22] == b[20..22];
    FoldTwice(256 * (b[22] as int) + LeSum(b[20..22]), LeSum(b[24..40] + b[40..56] + b[56..56 + len]));
    v := if sum == ONES then sum else TWO32 - 1 - sum;
  }

  /** The order in which the code adds up the parts does not matter. */
  lemma PseudoSum(src: Bytes, dst: Bytes, length: Bytes, next: Byte, payload: Bytes)
    requires |src| == 16 && |dst| == 16 && |length| == 2
    ensures LeSum(Pseudo(src, dst, length, next) + payload) ==
        256 * (next as int) + LeSum(length) + LeSum(src + dst + payload)
  {
    assert Pseudo(src, dst, length, next) + payload ==
        (src + dst) + ([0, 0] + (length + ([0, 0] + ([0, next] + payload))));
    LeSumAppend(src + dst, [0, 0] + (length + ([0, 0] + ([0, next] + payload))));
    LeSumAppend(length, [0, 0] + ([0, next] + payload));
    LeSumAppend(src + dst, payload);
    hide LeSum;
    TwoBytes(0, 0, length + ([0, 0] + ([0, next] + payload)));
    TwoBytes(0, 0, [0, next] + payload);
    TwoBytes(0, next, payload);
  }

  class Stack {
    var ifcMac: Bytes
    var llIp6: Bytes
    var mcastNs: Bytes
    var mIfc: Bytes  // m_ifc_mac.b
    var mNs: Bytes   // m_ns_mac.b

    predicate Valid()
      reads this
    {
      && |ifcMac| == 6 && |llIp6| == 16 && |mcastNs| == 16 && |mNs| == 8
      && mIfc == [0, 0] + ifcMac && mNs[..2] == [0, 0]
    }

    function Value(): (n: Netif)
      requires Valid()
      reads this
      ensures IsNetif(n)
    {
      Netif(ifcMac, llIp6, mcastNs, mNs[2..])
    }

    /** ip6lla_from_ethmac. */
    static method LinkLocalFromMac(ip: array<Byte>, mac: array<Byte>)
      requires ip != mac && ip.Length == 16 && mac.Length == 6
      modifies ip
      ensures ip[..] == LinkLocal(mac[..])
    {
      Write(ip, 0, Zeros(8));
      ip[0], ip[1] := 0xFE, 0x80;
      ip[8], ip[9], ip[10], ip[11] := FlipLocal(mac[0]), mac[1], mac[2], 0xFF;
      ip[12], ip[13], ip[14], ip[15] := 0xFE, mac[3], mac[4], mac[5];
    }

    /** ip6ns_from_ethmac: the group of the address, made from the MAC alone. */
    static method GroupFromMac(ip: array<Byte>, mac: array<Byte>)
      requires ip != mac && ip.Length == 16 && mac.Length == 6
      modifies ip
      ensures ip[..] == SolicitedNode(LinkLocal(mac[..]))
    {
      Write(ip, 0, Zeros(12));
      ip[0], ip[1] := 0xFF, 0x02;
      ip[11], ip[12], ip[13], ip[14], ip[15] := 0x01, 0xFF, mac[3], mac[4], mac[5];
      GroupMac(mac[..]);
    }

    /** net_init. */
    constructor (mac: array<Byte>)
      requires mac.Length == 6
      ensures Valid() && Value() == Initialized(mac[..])
    {
      var ip, group := new Byte[16](_ => 0), new Byte[16](_ => 0);
      LinkLocalFromMac(ip, mac);
      GroupFromMac(group, mac);
      ifcMac := mac[..];
      mIfc := [0, 0] + mac[..];
      llIp6 := ip[..];
      mcastNs := group[..];
      mNs := [0, 0] + [0x33, 0x33, group[12], group[13], group[14], group[15]];  // ethmac_from_ip6mc
      new;
      assert mNs[2..] == MulticastMac(mcastNs);
    }

    /** The Ethernet header, and the IPv6 header up to the addresses. */
    method WriteStart(packet: array<Byte>, rx: array<Byte>, next: Byte, len: nat)
      requires Valid() && packet != rx && packet.Length == NETBUF_MAX && rx.Length >= HEADERS
      modifies packet
      ensures packet[2..24] == rx[8..14] + ifcMac + [0x86, 0xDD, 0x60, 0, 0, 0] + (Be16(len) + [next, 255])
    {
      Copy(packet, 2, rx, 8, 6);
      Write(packet, 8, ifcMac);
      assert packet[2..14] == rx[8..14] + ifcMac;
      Write(packet, 14, [0x86, 0xDD, 0x60, 0, 0, 0]);
      assert packet[2..20] == packet[2..14] + packet[14..20];
      Write(packet, 20, Be16(len) + [next, 255]);
      assert packet[2..24] == packet[2..20] + packet[20..24];
    }

    /** The Ethernet and IPv6 headers of a reply, written in order. */
    method WriteHeaders(packet: array<Byte>, rx: array<Byte>, next: Byte, len: nat)
      requires Valid() && packet != rx && packet.Length == NETBUF_MAX && rx.Length >= HEADERS
      modifies packet
      ensures packet[2..56] == Headers(ifcMac, llIp6, rx[..], next, len)
    {
      WriteStart(packet, rx, next, len);
      Write(packet, 24, llIp6);
      assert packet[2..40] == packet[2..24] + packet[24..40];
      Copy(packet, 40, rx, 24, 16);
      assert packet[2..56] == packet[2..40] + packet[40..56];
    }

    /** The checksum of a packet that is complete but for it, stored at `off` in the payload. */
    method StoreChecksum(packet: array<Byte>, len: nat, off: nat)
      requires packet.Length == NETBUF_MAX && off + 2 <= len && HEADERS + len <= NETBUF_MAX
      modifies packet
      ensures packet[2..56] == old(packet[2..56])
      ensures packet[56..56 + len] == Store16(old(packet[56..56 + len]), off,
                Sum6(old(packet[24..40]), old(packet[40..56]), old(packet[20..22]), old(packet[22]),
                  old(packet[56..56 + len])))
    {
      hide LeSum, Fold;
      var v := ChecksumIp6(packet, len);
      Write(packet, HEADERS + off, [v % 256, v / 256 % 256]);
      ghost var b := old(packet[56..56 + len]);
      assert packet[56..56 + off] == b[..off] && packet[58 + off..56 + len] == b[off + 2..];
      InThree(packet, 56, 56 + off, 58 + off, 56 + len);
    }

    /** Headers and payload are in place: with the checksum the frame is the reply. */
    method FinishReply(packet: array<Byte>, ghost rx: seq<Byte>, ghost next: Byte, len: nat, off: nat)
      requires Valid() && packet.Length == NETBUF_MAX && |rx| >= HEADERS
      requires off + 2 <= len <= MAX_IP6_PAYLOAD && packet[2..56] == Headers(ifcMac, llIp6, rx, next, len)
      modifies packet
      ensures packet[2..56 + len] == Reply(ifcMac, llIp6, rx, next, old(packet[56..56 + len]), off)
    {
      hide LeSum, Fold, Complement, Headers;
      HeaderFields(ifcMac, llIp6, rx, next, len, packet[2..56]);
      SubSlice(packet, 2, 56, 22, 38);
      SubSlice(packet, 2, 56, 38, 54);
      SubSlice(packet, 2, 56, 18, 20);
      assert packet[22] == packet[2..56][20];
      StoreChecksum(packet, len, off);
      assert packet[2..56 + len] == packet[2..56] + packet[56..56 + len];
    }

    /** net_tx_ip6_reply; the frame goes to eth_tx from packet + 2. */
    method TxIp6Reply(rx: array<Byte>, data: array<Byte>, from: nat, len: nat, next: Byte, off: nat) returns (r: Action)
      requires Valid() && rx.Length >= HEADERS && from + len <= data.Length && off + 2 <= len
      ensures r == if len > MAX_IP6_PAYLOAD then Drop
                   else Transmit(Reply(ifcMac, llIp6, rx[..], next, data[from..from + len], off))
    {
      if len > MAX_IP6_PAYLOAD {
        return Drop;
      }
      hide LeSum, Fold, Complement;
      var packet := new Byte[NETBUF_MAX];
      WriteHeaders(packet, rx, next, len);
      Copy(packet, HEADERS, data, from, len);
      assert packet[2..56] == Headers(ifcMac, llIp6, rx[..], next, len);
      FinishReply(packet, rx[..], next, len, off);
      r := Transmit(packet[2..56 + len]);
    }

    /** net_tx_udp_reply, with `rx` the buffer that replyto points into. */
    method TxUdpReply(rx: array<Byte>, data: array<Byte>, len: nat, port: nat) returns (r: Action)
      requires Valid() && rx.Length >= HEADERS + UDP && len <= data.Length
      ensures r == if len > MAX_UDP_PAYLOAD then Drop
                   else Transmit(Reply(ifcMac, llIp6, rx[..], IP_HDR_UDP, UdpPayload(rx[..], data[..len], port), 6))
    {
      if len > MAX_UDP_PAYLOAD {
        return Drop;
      }
      hide LeSum, Fold, Complement;
      var packet := new Byte[NETBUF_MAX];
      WriteHeaders(packet, rx, IP_HDR_UDP, UDP + len);
      ghost var headers := packet[2..56];
      WriteUdp(packet, rx, data, len, port);
      assert packet[2..56] == headers;
      FinishReply(packet, rx[..], IP_HDR_UDP, UDP + len, 6);
      r := Transmit(packet[2..56 + (UDP + len)]);
    }

    method WriteUdp(packet: array<Byte>, rx: array<Byte>, data: array<Byte>, len: nat, port: nat)
      requires packet != rx && packet != data && packet.Length == NETBUF_MAX && rx.Length >= HEADERS + UDP
      requires len <= data.Length && len <= MAX_UDP_PAYLOAD
      modifies packet
      ensures packet[2..56] == old(packet[2..56])
      ensures packet[56..56 + (UDP + len)] == UdpPayload(rx[..], data[..len], port)
    {
      Write(packet, 56, Be16(port));
      Copy(packet, 58, rx, 56, 2);
      assert packet[56..60] == packet[56..58] + packet[58..60];
      Write(packet, 60, Be16(len + UDP) + [0, 0]);
      assert packet[56..64] == packet[56..60] + packet[60..64];
      Copy(packet, 64, data, 0, len);
      assert packet[56..56 + (UDP + len)] == packet[56..64] + packet[64..64 + len];
    }

    // ---- Receiving ----

    /** net_rx_eth, on the first `len` bytes of a receive buffer. What is transmitted is the
        reply to the frame as it arrived; an echo request is turned round in its buffer. */
    method RxEth(data: array<Byte>, len: nat) returns (r: Action)
      requires Valid() && len <= data.Length
      modifies data
      ensures r == ReceiveEth(Value(), old(data[..len]))
    {
      if len < 60 {
        return Drop;
      }
      ghost var d := data[..len];
      assert data[14..16] == d[14..16] && data[..8] == d[..8] && data[40..56] == d[40..56];
      if data[14..16] != [0x86, 0xDD] {
        return Drop;
      }
      assert mNs == [0, 0] + mNs[2..];
      if data[..8] == mIfc {
        r := RxIp6(data, len, false);
      } else if data[..8] == mNs || data[..8] == [0, 0, 0x33, 0x33, 0, 0, 0, 1] {
        r := RxIp6(data, len, true);
      } else {
        r := Drop;
      }
    }

    method RxIp6(data: array<Byte>, len: nat, multicast: bool) returns (r: Action)
      requires Valid() && 60 <= len <= data.Length
      modifies data
      ensures r == ReceiveIp6(Value(), old(data[..len]), multicast)
    {
      ghost var d := data[..len];
      assert data[40..56] == d[40..56];
      if multicast {
        if data[40..56] != ALL_NODES && data[40..56] != mcastNs {
          return Drop;
        }
      } else if data[40..56] != llIp6 {
        return Drop;
      }
      if data[22] == IP_HDR_ICMP {
        r := RxIcmp6(data, len);
      } else if data[22] == IP_HDR_UDP {
        r := RxUdp6(data, len, multicast);
      } else {
        r := Drop;
      }
    }

    method RxIcmp6(data: array<Byte>, len: nat) returns (r: Action)
      requires Valid() && 60 <= len <= data.Length
      modifies data
      ensures r == ReceiveIcmp6(Value(), old(data[..len]))
    {
      ghost var d := data[..len];
      var dlen := len - HEADERS;
      assert d[HEADERS..][0] == data[HEADERS] && d[HEADERS..][1] == data[HEADERS + 1];
      hide Reply;
      if data[HEADERS] == N_SOLICIT {
        if dlen < 24 || data[HEADERS + 1] != 0 {
          return Drop;
        }
        assert data[64..80] == d[64..80] == d[HEADERS..][8..24];
        if data[64..80] != llIp6 {
          return Drop;
        }
        r := TxAdvertisement(data, len);
      } else if data[HEADERS] == ECHO_REQUEST {
        r := TxEchoReply(data, len);
      } else {
        r := Drop;
      }
    }

    method TxAdvertisement(data: array<Byte>, len: nat) returns (r: Action)
      requires Valid() && 60 <= len <= data.Length
      ensures r == Transmit(Reply(ifcMac, llIp6, data[..len], IP_HDR_ICMP, Advertisement(ifcMac, llIp6), 2))
    {
      hide Reply;
      var reply := new Byte[32];
      Write(reply, 0, [N_ADVERTISE, 0, 0, 0, 0x60, 0, 0, 0]);
      Write(reply, 8, llIp6);
      assert reply[..24] == reply[..8] + reply[8..24];
      Write(reply, 24, [TGT_LL_ADDR, 1]);
      assert reply[..26] == reply[..24] + reply[24..26];
      Write(reply, 26, ifcMac);
      assert reply[..32] == reply[..26] + reply[26..32];
      assert reply[0..32] == Advertisement(ifcMac, llIp6);
      r := TxIp6Reply(data, reply, 0, 32, IP_HDR_ICMP, 2);
      SameHeaders(ifcMac, llIp6, data[..], data[..len], IP_HDR_ICMP, Advertisement(ifcMac, llIp6), 2);
    }

    method TxEchoReply(data: array<Byte>, len: nat) returns (r: Action)
      requires Valid() && 60 <= len <= data.Length
      modifies data
      ensures var d := old(data[..len]);
              r == if len - HEADERS > MAX_IP6_PAYLOAD then Drop
                   else Transmit(Reply(ifcMac, llIp6, d, IP_HDR_ICMP, d[HEADERS..][0 := ECHO_REPLY][2 := 0][3 := 0], 2))
    {
      hide Reply;
      ghost var d := data[..len];
      data[HEADERS] := ECHO_REPLY;
      data[HEADERS + 2], data[HEADERS + 3] := 0, 0;
      ghost var p := d[HEADERS..][0 := ECHO_REPLY][2 := 0][3 := 0];
      assert data[HEADERS..HEADERS + (len - HEADERS)] == p;
      r := TxIp6Reply(data, data, HEADERS, len - HEADERS, IP_HDR_ICMP, 2);
      SameHeaders(ifcMac, llIp6, data[..], d, IP_HDR_ICMP, p, 2);
    }

    method RxUdp6(data: array<Byte>, len: nat, multicast: bool) returns (r: Action)
      requires 60 <= len <= data.Length
      ensures r == ReceiveUdp6(data[..len], multicast)
    {
      ghost var p := data[..len][HEADERS..];
      var dlen := len - HEADERS;
      if dlen < UDP {
        return Drop;
      }
      var port, n := FromBe16(data[58], data[59]), FromBe16(data[60], data[61]);
      if n < UDP || n > dlen {
        return Drop;
      }
      TailSlice(data, len, HEADERS, UDP, n);
      r := Deliver(data[HEADERS + UDP..HEADERS + n], port, multicast);
    }
  }

  /** checksum_ip6 of the parts of a packet. */
  function Sum6(src: Bytes, dst: Bytes, length: Bytes, next: Byte, payload: Bytes): nat {
    FoldRange(LeSum(Pseudo(src, dst, length, next) + payload));
    Complement(Fold(LeSum(Pseudo(src, dst, length, next) + payload)))
  }

  /** A reply depends on the source addresses of the frame it answers, and no more. */
  lemma SameHeaders(mac: Bytes, ip: Bytes, rx: Bytes, rx': Bytes, next: Byte, payload: Bytes, off: nat)
    requires |rx| >= HEADERS && |rx'| >= HEADERS && off + 2 <= |payload|
    requires rx[..HEADERS] == rx'[..HEADERS]
    ensures Reply(mac, ip, rx, next, payload, off) == Reply(mac, ip, rx', next, payload, off)
  {
    assert rx[8..14] == rx[..HEADERS][8..14] && rx'[8..14] == rx'[..HEADERS][8..14];
    assert rx[24..40] == rx[..HEADERS][24..40] && rx'[24..40] == rx'[..HEADERS][24..40];
  }
}
