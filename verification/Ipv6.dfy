/** net/ipv6.c: addresses, what is done with a received frame, and the replies. */
module Ipv6 {
  import opened Common
  import opened Checksum

  // Lengths of headers in the buffers; the Ethernet header has two bytes of padding before it.
  const UDP := 8
  const HEADERS := 56
  const NETBUF_MAX := 1536
  const MAX_IP6_PAYLOAD := 1480
  const MAX_UDP_PAYLOAD := 1472

  const IP_HDR_UDP: Byte := 17
  const IP_HDR_ICMP: Byte := 58
  const ECHO_REQUEST: Byte := 128
  const ECHO_REPLY: Byte := 129
  const N_SOLICIT: Byte := 135
  const N_ADVERTISE: Byte := 136
  const TGT_LL_ADDR: Byte := 2

  type Bytes = seq<Byte>

  // ---- Addresses ----

  /** The universal/local bit flipped. */
  function FlipLocal(b: Byte): Byte { if b / 2 % 2 == 0 then b + 2 else b - 2 }

  function Zeros(n: nat): Bytes { seq(n, _ => 0) }

  /** The link-local address of an interface: fe80::/64 and the modified EUI-64 of its MAC. */
  function LinkLocal(mac: Bytes): Bytes
    requires |mac| == 6
  {
    [0xFE, 0x80] + Zeros(6) + [FlipLocal(mac[0]), mac[1], mac[2], 0xFF, 0xFE, mac[3], mac[4], mac[5]]
  }

  /** Section 2.7.1 of RFC 4291: ff02::1:ff00:0/104 and the low 24 bits of the address. */
  function SolicitedNode(ip: Bytes): Bytes
    requires |ip| == 16
  {
    [0xFF, 0x02] + Zeros(9) + [0x01, 0xFF] + ip[13..]
  }

  /** Section 7 of RFC 2464: 33:33 and the last four bytes of the group. */
  function MulticastMac(ip: Bytes): Bytes
    requires |ip| == 16
  {
    [0x33, 0x33] + ip[12..]
  }

  const ALL_NODES: Bytes := [0xFF, 0x02, 0, 0, 0, 0, 0, 0, 0, 0, 0, 0, 0, 0, 0, 1]

  // ---- Replies ----

  function Be16(n: nat): Bytes { [n / 256 % 256, n % 256] }

  function FromBe16(high: Byte, low: Byte): nat { 256 * (high as int) + low }

  /** The pseudo-header of section 8.1 of RFC 8200. */
  function Pseudo(src: Bytes, dst: Bytes, length: Bytes, next: Byte): Bytes {
    src + dst + [0, 0] + length + [0, 0, 0, next]
  }

  /** Ethernet and IPv6 header of a reply to the frame in `rx`. */
  function Headers(mac: Bytes, ip: Bytes, rx: Bytes, next: Byte, len: nat): Bytes
    requires |rx| >= HEADERS
  {
    rx[8..14] + mac + [0x86, 0xDD] + [0x60, 0, 0, 0] + Be16(len) + [next, 255] + ip + rx[24..40]
  }

  /** The checksum_ip6 of a reply. */
  function ReplySum(ip: Bytes, rx: Bytes, next: Byte, payload: Bytes): nat
    requires |rx| >= HEADERS
    ensures ReplySum(ip, rx, next, payload) < TWO32
  {
    FoldRange(LeSum(Pseudo(ip, rx[24..40], Be16(|payload|), next) + payload));
    Complement(Fold(LeSum(Pseudo(ip, rx[24..40], Be16(|payload|), next) + payload)))
  }

  /** A reply on the wire, with the checksum at `off` in its payload. */
  function Reply(mac: Bytes, ip: Bytes, rx: Bytes, next: Byte, payload: Bytes, off: nat): Bytes
    requires |rx| >= HEADERS && off + 2 <= |payload|
  {
    Headers(mac, ip, rx, next, |payload|) + Store16(payload, off, ReplySum(ip, rx, next, payload))
  }

  function UdpPayload(rx: Bytes, data: Bytes, port: nat): Bytes
    requires |rx| >= HEADERS + UDP
  {
    Be16(port) + rx[56..58] + Be16(|data| + UDP) + [0, 0] + data
  }

  function Advertisement(mac: Bytes, ip: Bytes): Bytes {
    [N_ADVERTISE, 0, 0, 0, 0x60, 0, 0, 0] + ip + [TGT_LL_ADDR, 1] + mac
  }

  // ---- Receiving ----

  datatype Action = Drop | Transmit(frame: Bytes) | Deliver(data: Bytes, port: nat, multicast: bool)

  /** An interface with its addresses, as net_init leaves it. */
  datatype Netif = Netif(mac: Bytes, ip: Bytes, group: Bytes, groupMac: Bytes)

  predicate IsNetif(n: Netif) { |n.mac| == 6 && |n.ip| == 16 && |n.group| == 16 && |n.groupMac| == 6 }

  function Initialized(mac: Bytes): Netif
    requires |mac| == 6
  {
    var ip := LinkLocal(mac);
    Netif(mac, ip, SolicitedNode(ip), MulticastMac(SolicitedNode(ip)))
  }

  function ReceiveEth(n: Netif, d: Bytes): Action
    requires IsNetif(n)
  {
    if |d| < 60 || d[14..16] != [0x86, 0xDD] then Drop
    else if d[..8] == [0, 0] + n.mac then ReceiveIp6(n, d, false)
    else if d[..8] == [0, 0] + n.groupMac || d[..8] == [0, 0] + MulticastMac(ALL_NODES) then ReceiveIp6(n, d, true)
    else Drop
  }

  function ReceiveIp6(n: Netif, d: Bytes, multicast: bool): Action
    requires IsNetif(n) && |d| >= 60
  {
    var dst := d[40..56];
    if (if multicast then dst != ALL_NODES && dst != n.group else dst != n.ip) then Drop
    else if d[22] == IP_HDR_ICMP then ReceiveIcmp6(n, d)
    else if d[22] == IP_HDR_UDP then ReceiveUdp6(d, multicast)
    else Drop
  }

  function ReceiveIcmp6(n: Netif, d: Bytes): Action
    requires IsNetif(n) && |d| >= 60
  {
    var p := d[HEADERS..];
    if p[0] == N_SOLICIT then
      if |p| < 24 || p[1] != 0 || p[8..24] != n.ip then Drop
      else Transmit(Reply(n.mac, n.ip, d, IP_HDR_ICMP, Advertisement(n.mac, n.ip), 2))
    else if p[0] == ECHO_REQUEST && |p| <= MAX_IP6_PAYLOAD then
      Transmit(Reply(n.mac, n.ip, d, IP_HDR_ICMP, p[0 := ECHO_REPLY][2 := 0][3 := 0], 2))
    else Drop
  }

  function ReceiveUdp6(d: Bytes, multicast: bool): Action
    requires |d| >= 60
  {
    var p := d[HEADERS..];
    if |p| < UDP then Drop
    else
      var port, len := FromBe16(p[2], p[3]), FromBe16(p[4], p[5]);
      if len < UDP || len > |p| then Drop else Deliver(p[UDP..len], port, multicast)
  }

  // ---- What a receiver of a reply sees ----

  /** The bytes a receiver adds up, as they stand in the frame: source and destination address, length and next
      header as the pseudo-header has them, and the payload. */
  function Covered(frame: Bytes): Bytes
    requires |frame| >= 54
  {
    frame[22..54] + [0, 0, frame[18], frame[19], 0, 0, 0, frame[20]] + frame[54..]
  }

  lemma CoveredIs(frame: Bytes)
    requires |frame| >= 54
    ensures Covered(frame) == Pseudo(frame[22..38], frame[38..54], frame[18..20], frame[20]) + frame[54..]
  {
    assert frame[22..54] == frame[22..38] + frame[38..54];
  }

  /** The fields of a reply: back to the sender's MAC and address, from ours, with the length of
      the payload and a hop limit of 255. */
  lemma ReplyFields(mac: Bytes, ip: Bytes, rx: Bytes, next: Byte, payload: Bytes, off: nat)
    requires |mac| == 6 && |ip| == 16 && |rx| >= HEADERS && off + 2 <= |payload| < 0x10000
    ensures var f := Reply(mac, ip, rx, next, payload, off);
            && |f| == 54 + |payload| && f[..6] == rx[8..14] && f[6..12] == mac && f[12..14] == [0x86, 0xDD]
            && f[14] == 0x60 && f[18..20] == Be16(|payload|) && f[20] == next && f[21] == 255
            && f[22..38] == ip && f[38..54] == rx[24..40]
            && f[54..] == Store16(payload, off, ReplySum(ip, rx, next, payload))
  {
    hide ReplySum, Headers, Store16;
    var h := Headers(mac, ip, rx, next, |payload|);
    HeaderFields(mac, ip, rx, next, |payload|, h);
    var f := Reply(mac, ip, rx, next, payload, off);
    assert f[..54] == h && f[54..] == Store16(payload, off, ReplySum(ip, rx, next, payload));
    SubSequence(f, 54, 0, 6);
    SubSequence(f, 54, 6, 12);
    SubSequence(f, 54, 12, 14);
    SubSequence(f, 54, 18, 20);
    SubSequence(f, 54, 22, 38);
    SubSequence(f, 54, 38, 54);
    assert f[14] == h[14] && f[20] == h[20] && f[21] == h[21];
  }

  lemma SubSequence(s: Bytes, n: nat, i: nat, j: nat)
    requires i <= j <= n <= |s|
    ensures s[i..j] == s[..n][i..j]
  {
  }

  lemma HeaderFields(mac: Bytes, ip: Bytes, rx: Bytes, next: Byte, len: nat, h: Bytes)
    requires |mac| == 6 && |ip| == 16 && |rx| >= HEADERS && h == Headers(mac, ip, rx, next, len)
    ensures |h| == 54 && h[0..6] == rx[8..14] && h[6..12] == mac && h[12..14] == [0x86, 0xDD] && h[14] == 0x60
    ensures h[18..20] == Be16(len) && h[20] == next && h[21] == 255 && h[22..38] == ip && h[38..54] == rx[24..40]
  {
    assert h == (rx[8..14] + mac) + ([0x86, 0xDD] + [0x60, 0, 0, 0] + Be16(len) + [next, 255] + ip + rx[24..40]);
  }

  lemma StoreInPayload(head: Bytes, payload: Bytes, off: nat, v: nat)
    requires off + 2 <= |payload|
    ensures Store16(head + payload, |head| + off, v) == head + Store16(payload, off, v)
  {
    var word: Bytes := [v % 256, v / 256 % 256];
    assert (head + payload)[..|head| + off] == head + payload[..off];
    assert (head + payload)[|head| + off + 2..] == payload[off + 2..];
    assert (head + payload[..off]) + word + payload[off + 2..] == head + (payload[..off] + word + payload[off + 2..]);
  }

  /** Every reply verifies, whatever its length: pseudo-header and payload fold to 0xFFFF in
      either byte order, and the checksum in it is not zero. */
  lemma ReplyVerifies(mac: Bytes, ip: Bytes, rx: Bytes, next: Byte, payload: Bytes, off: nat)
    requires |mac| == 6 && |ip| == 16 && |rx| >= HEADERS && off + 2 <= |payload| < 0x10000
    requires IsEven(off) && payload[off] == 0 && payload[off + 1] == 0
    ensures var f := Reply(mac, ip, rx, next, payload, off);
            && |f| == 54 + |payload| && Fold(BeSum(Covered(f))) == ONES && Fold(LeSum(Covered(f))) == ONES
            && !(f[54 + off] == 0 && f[55 + off] == 0)
  {
    ReplyFields(mac, ip, rx, next, payload, off);
    var head := Pseudo(ip, rx[24..40], Be16(|payload|), next);
    assert |head| == 40;
    hide BeSum, LeSum, Fold, Reply, Complement;
    ChecksumVerifies(head + payload, 40 + off);
    StoreInPayload(head, payload, off, ReplySum(ip, rx, next, payload));
    CoveredIs(Reply(mac, ip, rx, next, payload, off));
    hide Store16, Covered;
    var f, stored := Reply(mac, ip, rx, next, payload, off), Store16(payload, off, ReplySum(ip, rx, next, payload));
    assert f[54 + off] == f[54..][off] == (head + stored)[40 + off];
    assert f[55 + off] == f[54..][off + 1] == (head + stored)[40 + off + 1];
  }

  lemma AdvertisementLength(mac: Bytes, ip: Bytes)
    requires |mac| == 6 && |ip| == 16
    ensures |Advertisement(mac, ip)| == 32
  {
  }

  lemma TailOfTail(s: Bytes, i: nat, k: nat, l: nat)
    requires i <= |s| && k <= l <= |s| - i
    ensures s[i..][k..l] == s[i + k..i + l]
  {
  }

  // ---- Neighbour discovery ----

  /** A Neighbor Solicitation for the interface with this MAC, sent to its solicited-node group
      from a unicast address, as it lies in the receive buffer. */
  predicate IsSolicitation(d: Bytes, mac: Bytes)
    requires |mac| == 6
  {
    var ip := LinkLocal(mac);
    && |d| >= HEADERS + 24
    && d[..2] == [0, 0] && d[2..8] == MulticastMac(SolicitedNode(ip)) && d[14..16] == [0x86, 0xDD]
    && d[22] == 58 && d[23] == 255 && d[24] != 0xFF && d[40..56] == SolicitedNode(ip)
    && d[56] == 135 && d[57] == 0 && d[64..80] == ip
  }

  /** A Neighbor Advertisement for the address `ip` at `mac`, to the sender of `d`: solicited
      and overriding, with the target link-layer address option, and a checksum that holds. */
  predicate Answers(f: Bytes, d: Bytes, mac: Bytes, ip: Bytes)
    requires |d| >= HEADERS
  {
    && |f| == 86 && f[..6] == d[8..14] && f[6..12] == mac && f[12..14] == [0x86, 0xDD]
    && f[14] == 0x60 && f[18..20] == [0, 32] && f[20] == 58 && f[21] == 255
    && f[22..38] == ip && f[38..54] == d[24..40]
    && f[54..56] == [136, 0] && f[58..62] == [0x60, 0, 0, 0] && f[62..78] == ip
    && f[78..80] == [2, 1] && f[80..86] == mac
    && Fold(BeSum(Covered(f))) == 0xFFFF
  }

  lemma AdvertisementAnswers(d: Bytes, mac: Bytes, ip: Bytes)
    requires |mac| == 6 && |ip| == 16 && |d| >= HEADERS
    ensures Answers(Reply(mac, ip, d, IP_HDR_ICMP, Advertisement(mac, ip), 2), d, mac, ip)
  {
    var a := Advertisement(mac, ip);
    assert |a| == 32;
    ReplyFields(mac, ip, d, IP_HDR_ICMP, a, 2);
    ReplyVerifies(mac, ip, d, IP_HDR_ICMP, a, 2);
    hide BeSum, LeSum, Fold, Reply, Complement, Covered, ReplySum;
    var f, v := Reply(mac, ip, d, IP_HDR_ICMP, a, 2), ReplySum(ip, d, IP_HDR_ICMP, a);
    var s := Store16(a, 2, v);
    assert s[..2] == a[..2] && s[4..] == a[4..];
    assert f[54..56] == f[54..][..2] && forall i, j | 4 <= i <= j <= 32 ::
        f[54 + i..54 + j] == f[54..][i..j] == a[i..j];
    assert f[58..62] == a[4..8] && f[62..78] == a[8..24] && f[78..80] == a[24..26] && f[80..86] == a[26..32];
  }

  /** The answer depends on nothing but the MAC: every solicitation is answered, unless the MAC
      itself begins 33:33:ff, as no unicast MAC does; then none is. */
  lemma SolicitationAnswered(mac: Bytes, d: Bytes)
    requires |mac| == 6 && IsSolicitation(d, mac)
    ensures var r := ReceiveEth(Initialized(mac), d);
            if mac[..3] == [0x33, 0x33, 0xFF] then r == Drop
            else r.Transmit? && Answers(r.frame, d, mac, LinkLocal(mac))
  {
    var n := Initialized(mac);
    assert d[..8] == d[..2] + d[2..8];
    GroupMac(mac);
    if mac[..3] == [0x33, 0x33, 0xFF] {
      assert mac == mac[..3] + mac[3..];
      assert n.ip[0] != n.group[0];
    } else {
      assert mac != n.groupMac by {
        assert n.groupMac[..3] == [0x33, 0x33, 0xFF];
      }
      assert ([0, 0] + mac)[2..] == mac && ([0, 0] + n.groupMac)[2..] == n.groupMac;
      assert d[HEADERS..][8..24] == d[64..80];
      AdvertisementAnswers(d, mac, n.ip);
    }
    hide Answers, Reply, Advertisement;
  }

  /** The multicast MAC of the solicited-node group, from the MAC itself. */
  lemma GroupMac(mac: Bytes)
    requires |mac| == 6
    ensures MulticastMac(SolicitedNode(LinkLocal(mac))) == [0x33, 0x33, 0xFF] + mac[3..]
    ensures SolicitedNode(LinkLocal(mac)) == [0xFF, 0x02] + Zeros(9) + [0x01, 0xFF] + mac[3..]
    ensures |LinkLocal(mac)| == 16
  {
    assert LinkLocal(mac)[13..] == mac[3..];
  }

  /** The link-local address has the modified EUI-64 of the MAC (appendix A of RFC 4291): its first byte differs
      from the MAC's in the universal/local bit and no other. */
  lemma LinkLocalBytes(mac: Bytes)
    requires |mac| == 6
    ensures var ip := LinkLocal(mac);
            && |ip| == 16 && ip[..8] == [0xFE, 0x80, 0, 0, 0, 0, 0, 0] && ip[9..] == mac[1..3] + [0xFF, 0xFE] + mac[3..]
            && ip[8] / 4 == mac[0] / 4 && ip[8] % 2 == mac[0] % 2 && ip[8] / 2 % 2 != mac[0] / 2 % 2
  {
  }

  /** The addresses that the source starts with are those of its MAC. */
  lemma DefaultAddresses()
    ensures var n := Initialized([0x72, 0x72, 0xAA, 0xBB, 0xCC, 0xDD]);
            && n.ip == [0xFE, 0x80, 0, 0, 0, 0, 0, 0, 0x70, 0x72, 0xAA, 0xFF, 0xFE, 0xBB, 0xCC, 0xDD]
            && n.group == [0xFF, 0x02, 0, 0, 0, 0, 0, 0, 0, 0, 0, 0x01, 0xFF, 0xBB, 0xCC, 0xDD]
            && n.groupMac == [0x33, 0x33, 0xFF, 0xBB, 0xCC, 0xDD]
  {
  }

  /** The low bit of the first byte of a unicast MAC is clear. */
  lemma UnicastSolicitationAnswered(mac: Bytes, d: Bytes)
    requires |mac| == 6 && mac[0] % 2 == 0 && IsSolicitation(d, mac)
    ensures var r := ReceiveEth(Initialized(mac), d); r.Transmit? && Answers(r.frame, d, mac, LinkLocal(mac))
  {
    assert mac[..3][0] == mac[0];
    SolicitationAnswered(mac, d);
    hide ReceiveEth, Answers;
  }

  /** An echo reply to the sender of `d`: the same code, identifier, sequence number and data, with a
      checksum that holds. */
  predicate Echoes(f: Bytes, d: Bytes, mac: Bytes, ip: Bytes)
    requires |d| >= 60
  {
    && |f| == |d| - 2 && f[..6] == d[8..14] && f[6..12] == mac && f[12..14] == [0x86, 0xDD]
    && f[14] == 0x60 && f[20] == 58 && f[21] == 255 && f[22..38] == ip && f[38..54] == d[24..40]
    && f[54] == 129 && f[55] == d[57] && f[58..] == d[60..]
    && Fold(BeSum(Covered(f))) == 0xFFFF
  }

  lemma EchoComesBack(mac: Bytes, ip: Bytes, d: Bytes)
    requires |mac| == 6 && |ip| == 16 && 60 <= |d| <= NETBUF_MAX
    ensures Echoes(Reply(mac, ip, d, IP_HDR_ICMP, d[HEADERS..][0 := ECHO_REPLY][2 := 0][3 := 0], 2), d, mac, ip)
  {
    var p := d[HEADERS..][0 := ECHO_REPLY][2 := 0][3 := 0];
    ReplyFields(mac, ip, d, IP_HDR_ICMP, p, 2);
    ReplyVerifies(mac, ip, d, IP_HDR_ICMP, p, 2);
    hide BeSum, LeSum, Fold, Reply, Complement, Covered, ReplySum;
    var f, s := Reply(mac, ip, d, IP_HDR_ICMP, p, 2), Store16(p, 2, ReplySum(ip, d, IP_HDR_ICMP, p));
    assert s[..2] == p[..2] && s[4..] == p[4..] == d[60..];
    assert f[54] == f[54..][0] == s[..2][0] && f[55] == f[54..][1] == s[..2][1] && f[58..] == f[54..][4..];
  }

  // ---- Exactly which frames are acted on ----

  /** A frame of the link layer for this interface, or for one of its two groups. */
  predicate ArrivesFor(n: Netif, d: Bytes, multicast: bool)
    requires IsNetif(n)
  {
    && |d| >= 60 && d[..2] == [0, 0] && d[14..16] == [0x86, 0xDD]
    && if multicast then
         && d[2..8] != n.mac && (d[2..8] == n.groupMac || d[2..8] == [0x33, 0x33, 0, 0, 0, 1])
         && (d[40..56] == n.group || d[40..56] == [0xFF, 0x02, 0, 0, 0, 0, 0, 0, 0, 0, 0, 0, 0, 0, 0, 1])
       else d[2..8] == n.mac && d[40..56] == n.ip
  }

  lemma Dispatch(n: Netif, d: Bytes)
    requires IsNetif(n)
    ensures !(ArrivesFor(n, d, false) && ArrivesFor(n, d, true))
    ensures ArrivesFor(n, d, false) || ArrivesFor(n, d, true) ==> |d| >= 60
    ensures ArrivesFor(n, d, false) || ArrivesFor(n, d, true) ==>
              var multicast := ArrivesFor(n, d, true);
              ReceiveEth(n, d) == if d[22] == 58 then ReceiveIcmp6(n, d)
                                  else if d[22] == 17 then ReceiveUdp6(d, multicast) else Drop
    ensures !ArrivesFor(n, d, false) && !ArrivesFor(n, d, true) ==> ReceiveEth(n, d) == Drop
  {
    hide ReceiveIcmp6, ReceiveUdp6;
    if |d| >= 60 {
      Prefixed(d, n.mac);
      Prefixed(d, n.groupMac);
      Prefixed(d, MulticastMac(ALL_NODES));
      assert MulticastMac(ALL_NODES) == [0x33, 0x33, 0, 0, 0, 1];
    }
  }

  lemma Prefixed(d: Bytes, mac: Bytes)
    requires |d| >= 8 && |mac| == 6
    ensures d[..8] == [0, 0] + mac <==> d[..2] == [0, 0] && d[2..8] == mac
  {
    assert d[..8] == d[..2] + d[2..8];
    assert ([0, 0] + mac)[..2] == [0, 0] && ([0, 0] + mac)[2..] == mac;
    assert d[..8][..2] == d[..2] && d[..8][2..] == d[2..8];
  }

  /** A datagram is delivered exactly when it arrives for the interface, or for a group of it, and its UDP
      length fits the frame: with its data, the port it was sent to, and the way it came. */
  lemma DeliversIff(n: Netif, d: Bytes, multicast: bool)
    requires IsNetif(n)
    ensures var r := ReceiveEth(n, d);
            r.Deliver? && r.multicast == multicast <==>
            ArrivesFor(n, d, multicast) && d[22] == 17 && |d| >= 64 && 8 <= Word16(d, 60) <= |d| - 56
    ensures var r := ReceiveEth(n, d);
            r.Deliver? && r.multicast == multicast ==>
              && r.data == d[64..56 + (Word16(d, 60))]
              && r.port == Word16(d, 58)
  {
    hide ReceiveEth, ReceiveIcmp6, ArrivesFor;
    Dispatch(n, d);
    if |d| >= 64 && 8 <= Word16(d, 60) <= |d| - 56 {
      TailOfTail(d, 56, 8, Word16(d, 60));
    }
    if |d| >= 60 {
      IcmpNeverDelivers(n, d);
    }
  }

  function Word16(d: Bytes, i: nat): nat
    requires i + 2 <= |d|
  {
    256 * (d[i] as int) + d[i + 1]
  }

  lemma IcmpNeverDelivers(n: Netif, d: Bytes)
    requires IsNetif(n) && |d| >= 60
    ensures !ReceiveIcmp6(n, d).Deliver?
  {
  }

  /** And an answer goes out exactly to a Neighbor Solicitation for the interface's address, and to an echo
      request that fits a reply. */
  lemma AnswersIff(n: Netif, d: Bytes)
    requires IsNetif(n)
    ensures var r := ReceiveEth(n, d);
            r.Transmit? <==>
            && (ArrivesFor(n, d, false) || ArrivesFor(n, d, true)) && d[22] == 58
            && ((d[56] == 135 && |d| >= 80 && d[57] == 0 && d[64..80] == n.ip) || (d[56] == 128 && |d| <= 1536))
    ensures var r := ReceiveEth(n, d);
            r.Transmit? ==>
              if d[56] == 135 then Answers(r.frame, d, n.mac, n.ip) else Echoes(r.frame, d, n.mac, n.ip)
  {
    hide ReceiveEth, ReceiveUdp6, ReceiveIcmp6, ArrivesFor, Answers, Echoes;
    Dispatch(n, d);
    if |d| >= 60 {
      IcmpAnswers(n, d);
      UdpNeverAnswers(d, ArrivesFor(n, d, true));
    }
  }

  lemma UdpNeverAnswers(d: Bytes, multicast: bool)
    requires |d| >= 60
    ensures !ReceiveUdp6(d, multicast).Transmit?
  {
  }

  lemma IcmpAnswers(n: Netif, d: Bytes)
    requires IsNetif(n) && |d| >= 60
    ensures var r := ReceiveIcmp6(n, d);
            && (r.Transmit? <==>
                (d[56] == 135 && |d| >= 80 && d[57] == 0 && d[64..80] == n.ip) || (d[56] == 128 && |d| <= 1536))
            && (r.Transmit? ==>
                  if d[56] == 135 then Answers(r.frame, d, n.mac, n.ip) else Echoes(r.frame, d, n.mac, n.ip))
  {
    hide Answers, Echoes, Reply, Advertisement;
    AdvertisementLength(n.mac, n.ip);
    AdvertisementAnswers(d, n.mac, n.ip);
    assert d[HEADERS..][0] == d[56] && d[HEADERS..][1] == d[57];
    if |d| <= 1536 {
      EchoComesBack(n.mac, n.ip, d);
    }
    if |d| >= 80 {
      assert d[HEADERS..][8..24] == d[64..80];
    }
  }

  /** What the queries of the host's netboot are: datagrams to all nodes. They get through. */
  lemma AllNodesDatagramDelivered(n: Netif, d: Bytes)
    requires IsNetif(n) && n.mac != [0x33, 0x33, 0, 0, 0, 1] && |d| >= 64
    requires d[..8] == [0, 0, 0x33, 0x33, 0, 0, 0, 1] && d[14..16] == [0x86, 0xDD] && d[22] == 17
    requires d[40..56] == [0xFF, 0x02, 0, 0, 0, 0, 0, 0, 0, 0, 0, 0, 0, 0, 0, 1]
    requires 8 <= Word16(d, 60) <= |d| - 56
    ensures ReceiveEth(n, d) == Deliver(d[64..56 + Word16(d, 60)], Word16(d, 58), true)
  {
    hide ReceiveEth;
    Prefixed(d, [0x33, 0x33, 0, 0, 0, 1]);
    DeliversIff(n, d, true);
  }

  // ---- UDP round trip ----

  /** A peer that runs the same stack gets from a reply to its datagram exactly the data, on the
      port it had sent from. */
  lemma ReplyIsDelivered(n: Netif, peer: Netif, rx: Bytes, data: Bytes, port: nat)
    requires IsNetif(n) && IsNetif(peer) && |rx| >= HEADERS + UDP && |data| <= MAX_UDP_PAYLOAD
    requires rx[8..14] == peer.mac && rx[24..40] == peer.ip
    ensures var f := Reply(n.mac, n.ip, rx, IP_HDR_UDP, UdpPayload(rx, data, port), 6);
            ReceiveEth(peer, [0, 0] + f) == Deliver(data, FromBe16(rx[56], rx[57]), false)
  {
    var p := UdpPayload(rx, data, port);
    assert |p| == UDP + |data|;
    ReplyFields(n.mac, n.ip, rx, IP_HDR_UDP, p, 6);
    var f, v := Reply(n.mac, n.ip, rx, IP_HDR_UDP, p, 6), ReplySum(n.ip, rx, IP_HDR_UDP, p);
    hide Reply, ReplySum, BeSum, LeSum, Fold;
    var d := [0, 0] + f;
    assert d[..8] == [0, 0] + f[..6];
    assert d[14..16] == f[12..14] && d[40..56] == f[38..54] && d[HEADERS..] == f[54..];
    var q := Store16(p, 6, v);
    assert q[..6] == p[..6] && q[8..] == p[8..];
    assert q[2] == q[..6][2] == rx[56] && q[3] == q[..6][3] == rx[57];
    assert q[4] == q[..6][4] && q[5] == q[..6][5];
    Be16RoundTrip(|data| + UDP);
    assert p[8..] == data;
    assert q[UDP..UDP + |data|] == q[8..];
  }

  /** A reply to a datagram: from `port`, to the port the datagram came from, with its own length, the data
      behind the header, and a checksum that holds. */
  lemma UdpReplyFields(n: Netif, rx: Bytes, data: Bytes, port: nat)
    requires IsNetif(n) && |rx| >= HEADERS + UDP && |data| <= 1472 && port < 0x10000
    ensures var f := Reply(n.mac, n.ip, rx, IP_HDR_UDP, UdpPayload(rx, data, port), 6);
            && |f| == 62 + |data| && f[20] == 17 && Word16(f, 54) == port && f[56..58] == rx[56..58]
            && Word16(f, 58) == 8 + |data| && f[62..] == data
            && Fold(BeSum(Covered(f))) == 0xFFFF && Word16(f, 60) != 0
  {
    var p := UdpPayload(rx, data, port);
    hide Reply, ReplySum, BeSum, LeSum, Fold, Covered, Complement, Store16;
    PayloadFields(rx, data, port, p);
    ReplyFields(n.mac, n.ip, rx, IP_HDR_UDP, p, 6);
    ReplyVerifies(n.mac, n.ip, rx, IP_HDR_UDP, p, 6);
    var f := Reply(n.mac, n.ip, rx, IP_HDR_UDP, p, 6);
    StoredFields(p, ReplySum(n.ip, rx, IP_HDR_UDP, p), f[54..]);
    hide UdpPayload;
    assert f[62..] == f[54..][8..] && f[56..58] == f[54..][2..4];
    assert forall i | 0 <= i < 6 :: f[54 + i] == f[54..][i];
    assert f[54 + 0] == p[0] && f[54 + 1] == p[1] && f[54 + 4] == p[4] && f[54 + 5] == p[5];
  }

  lemma PayloadFields(rx: Bytes, data: Bytes, port: nat, p: Bytes)
    requires |rx| >= HEADERS + UDP && |data| <= 1472 && port < 0x10000 && p == UdpPayload(rx, data, port)
    ensures |p| == 8 + |data| && Word16(p, 0) == port && p[2..4] == rx[56..58] && Word16(p, 4) == 8 + |data|
    ensures p[6] == p[7] == 0 && p[8..] == data
  {
    Be16RoundTrip(port);
    Be16RoundTrip(|data| + UDP);
  }

  lemma StoredFields(p: Bytes, v: nat, q: Bytes)
    requires |p| >= 8 && q == Store16(p, 6, v)
    ensures |q| == |p| && q[8..] == p[8..] && q[2..4] == p[2..4] && forall i | 0 <= i < 6 :: q[i] == p[i]
  {
    assert q[..6] == p[..6];
    assert q[2..4] == q[..6][2..4] && p[2..4] == p[..6][2..4];
  }

  lemma Be16RoundTrip(n: nat)
    requires n < 0x10000
    ensures FromBe16(Be16(n)[0], Be16(n)[1]) == n
  {
  }
}
