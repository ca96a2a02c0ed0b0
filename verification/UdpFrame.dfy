/** The hand-made UDP frame of chapter10/raw-u-client.c (`send_udp_raw`) and the analyser of
    chapter10/pdump.c that takes it apart again. */
module UdpFrame {
  import opened CStrings
  import opened Checksum

  const SOURCE_PORT: nat := 22223
  const DEST_PORT: nat := 22222
  const DATA_MAX: nat := 256
  const ETH_LEN: nat := 14
  const IP_LEN: nat := 20
  const UDP_LEN: nat := 8
  const PSEUDO_LEN: nat := 12

  /** htons: the value in network byte order. */
  function Net16(v: nat): (s: seq<byte>)
    requires v < 0x10000
    ensures |s| == 2
  {
    [v / 256, v % 256]
  }

  /** ntohs of two bytes in memory. */
  function FromNet16(a: byte, b: byte): (v: nat)
    ensures v < 0x10000
  {
    256 * a + b
  }

  const ANY_ADDR: seq<byte> := [0, 0, 0, 0]
  const BROADCAST: seq<byte> := [255, 255, 255, 255]

  // ---- The layout of the frame ----

  function UdpHead(size: nat): (s: seq<byte>)
    requires size <= DATA_MAX
    ensures |s| == 6
  {
    Net16(SOURCE_PORT) + Net16(DEST_PORT) + Net16(UDP_LEN + size)
  }

  /** The pseudo header in front of the UDP header, up to its checksum field. */
  function PseudoHead(size: nat): (s: seq<byte>)
    requires size <= DATA_MAX
    ensures |s| == 18
  {
    ANY_ADDR + BROADCAST + [0, 17] + Net16(UDP_LEN + size) + UdpHead(size)
  }

  /** The IP header in front of its checksum field. */
  function IpHead(size: nat): (s: seq<byte>)
    requires size <= DATA_MAX
    ensures |s| == 10
  {
    [0x45, 0] + Net16(IP_LEN + UDP_LEN + size) + [0, 0, 0, 0, 64, 17]
  }

  const IP_TAIL: seq<byte> := ANY_ADDR + BROADCAST

  function EthHead(mac: seq<byte>): (s: seq<byte>)
    requires |mac| == 6
    ensures |s| == ETH_LEN
  {
    [255, 255, 255, 255, 255, 255] + mac + [8, 0]
  }

  function UdpCheck(data: seq<byte>, order: Order): (s: seq<byte>)
    requires |data| <= DATA_MAX
    ensures |s| == 2
  {
    Stored(Checksum.Checksum(PseudoHead(|data|) + [0, 0] + data, order), order)
  }

  function IpCheck(size: nat, order: Order): (s: seq<byte>)
    requires size <= DATA_MAX
    ensures |s| == 2
  {
    Stored(Checksum.Checksum(IpHead(size) + [0, 0] + IP_TAIL, order), order)
  }

  /** The bytes on the wire. */
  function FrameOf(mac: seq<byte>, data: seq<byte>, order: Order): (f: seq<byte>)
    requires |mac| == 6 && |data| <= DATA_MAX
    ensures |f| == ETH_LEN + IP_LEN + UDP_LEN + |data|
  {
    EthHead(mac)
    + (IpHead(|data|) + IpCheck(|data|, order) + IP_TAIL)
    + (UdpHead(|data|) + UdpCheck(data, order))
    + data
  }

  /** The frame does not depend on the byte order of the sending host. */
  lemma FrameSameOnAllHosts(mac: seq<byte>, data: seq<byte>)
    requires |mac| == 6 && |data| <= DATA_MAX
    ensures FrameOf(mac, data, Little) == FrameOf(mac, data, Big)
  {
    StoredChecksumSame(PseudoHead(|data|) + [0, 0] + data);
    StoredChecksumSame(IpHead(|data|) + [0, 0] + IP_TAIL);
  }

  /** Any receiver finds both checksums right: the IP header, and the pseudo header with the
      datagram, sum to 0xFFFF in its own byte order. */
  lemma ChecksumsVerify(data: seq<byte>, sender: Order, receiver: Order)
    requires |data| <= DATA_MAX
    ensures Folded(WordSum(IpHead(|data|) + IpCheck(|data|, sender) + IP_TAIL, receiver)) == 0xFFFF
    ensures Folded(WordSum(PseudoHead(|data|) + UdpCheck(data, sender) + data, receiver)) == 0xFFFF
  {
    StoredChecksumSame(PseudoHead(|data|) + [0, 0] + data);
    StoredChecksumSame(IpHead(|data|) + [0, 0] + IP_TAIL);
    ChecksumChecks(IpHead(|data|), IP_TAIL, receiver);
    ChecksumChecks(PseudoHead(|data|), data, receiver);
  }

  /** The frame in bytes: Ethernet to all stations, IPv4 without options, time to live 64,
      protocol 17, from 0.0.0.0 to 255.255.255.255, UDP from port 22223 to port 22222, and all
      lengths as they are counted. */
  lemma FrameOnWire(mac: seq<byte>, data: seq<byte>, order: Order)
    requires |mac| == 6 && |data| <= DATA_MAX
    ensures var f, n := FrameOf(mac, data, order), |data|;
            && |f| == 42 + n
            && f[..14] == [255, 255, 255, 255, 255, 255] + mac + [8, 0]
            && f[14..24] == [0x45, 0, (28 + n) / 256, (28 + n) % 256, 0, 0, 0, 0, 64, 17]
            && f[24..26] == IpCheck(n, order)
            && f[26..34] == [0, 0, 0, 0, 255, 255, 255, 255]
            && f[34..40] == [86, 207, 86, 206, (8 + n) / 256, (8 + n) % 256]
            && f[40..42] == UdpCheck(data, order)
            && f[42..] == data
  {
    hide Stored, Checksum.Checksum;
    var f, n := FrameOf(mac, data, order), |data|;
    var ip := IpHead(n) + IpCheck(n, order) + IP_TAIL;
    var udp := UdpHead(n) + UdpCheck(data, order);
    assert f[..14] == EthHead(mac) && f[14..34] == ip && f[34..42] == udp && f[42..] == data;
    assert f[14..24] == ip[..10] == IpHead(n) && f[24..26] == ip[10..12] && f[26..34] == ip[12..] == IP_TAIL;
    assert f[34..40] == udp[..6] == UdpHead(n) && f[40..42] == udp[6..];
  }

  /** What a receiver sums up for the UDP checksum, taken from the frame (RFC 768): both
      addresses, a zero byte and the protocol, the UDP length, and the datagram. */
  function ReceivedBlock(f: seq<byte>): (b: seq<byte>)
    requires |f| >= 42
  {
    f[26..34] + [0, f[23]] + f[38..40] + f[34..]
  }

  lemma BlockOfFrame(mac: seq<byte>, data: seq<byte>, order: Order)
    requires |mac| == 6 && |data| <= DATA_MAX
    ensures var f := FrameOf(mac, data, order);
            ReceivedBlock(f) == PseudoHead(|data|) + UdpCheck(data, order) + data
  {
    hide FrameOf, UdpCheck;
    var f, n := FrameOf(mac, data, order), |data|;
    FrameOnWire(mac, data, order);
    assert f[23] == f[14..24][9] == 17;
    assert f[38..40] == f[34..40][4..] == [(8 + n) / 256, (8 + n) % 256];
    assert f[34..] == f[34..40] + f[40..42] + f[42..];
    assert PseudoHead(n) == f[26..34] + [0, f[23]] + f[38..40] + f[34..40];
  }

  lemma IpOfFrame(mac: seq<byte>, data: seq<byte>, order: Order)
    requires |mac| == 6 && |data| <= DATA_MAX
    ensures FrameOf(mac, data, order)[14..34] == IpHead(|data|) + IpCheck(|data|, order) + IP_TAIL
  {
    hide FrameOf, IpCheck;
    var f, n := FrameOf(mac, data, order), |data|;
    FrameOnWire(mac, data, order);
    assert IpHead(n) == f[14..24];
    assert f[14..34] == f[14..24] + f[24..26] + f[26..34];
  }

  /** Any receiver finds both checksums of the frame right, in either byte order: the sum over
      the IP header and the one over the received block fold to 0xFFFF, which in bytes means
      that they are multiples of 65535 (RFC 1071). */
  lemma ReceiverAccepts(mac: seq<byte>, data: seq<byte>, sender: Order, receiver: Order)
    requires |mac| == 6 && |data| <= DATA_MAX
    ensures var f := FrameOf(mac, data, sender);
            var ip, udp := f[14..34], f[26..34] + [0, f[23]] + f[38..40] + f[34..];
            && Folded(WordSum(ip, receiver)) == 0xFFFF && Folded(WordSum(udp, receiver)) == 0xFFFF
            && (256 * SumAt(ip, 0) + SumAt(ip, 1)) % 65535 == 0
            && (256 * SumAt(udp, 0) + SumAt(udp, 1)) % 65535 == 0
  {
    hide Stored, Checksum.Checksum, WordSum, Folded, SumAt, FrameOf, PseudoHead, IpHead, IpCheck, UdpCheck;
    var f := FrameOf(mac, data, sender);
    BlockOfFrame(mac, data, sender);
    IpOfFrame(mac, data, sender);
    ChecksumsVerify(data, sender, receiver);
    ChecksumsVerify(data, sender, Big);
    WordsInBytes(f[14..34]);
    WordsInBytes(ReceivedBlock(f));
    FullMeans(WordSum(f[14..34], Big));
    FullMeans(WordSum(ReceivedBlock(f), Big));
  }

  // ---- Building it ----

  /** Storing htons(v). */
  method Put16(a: array<byte>, at: nat, v: nat)
    requires at + 1 < a.Length && v < 0x10000
    modifies a
    ensures a[at] == v / 256 && a[at + 1] == v % 256
    ensures forall k :: 0 <= k < a.Length && k != at && k != at + 1 ==> a[k] == old(a[k])
  {
    a[at] := v / 256;
    a[at + 1] := v % 256;
  }

  /** Storing a 16-bit value as the host does. */
  method PutNative(a: array<byte>, at: nat, v: nat, order: Order)
    requires at + 1 < a.Length && v < 0x10000
    modifies a
    ensures a[at..at + 2] == Stored(v, order)
    ensures forall k :: 0 <= k < a.Length && k != at && k != at + 1 ==> a[k] == old(a[k])
  {
    a[at], a[at + 1] := Stored(v, order)[0], Stored(v, order)[1];
  }

  /** Storing an address. */
  method PutAddr(a: array<byte>, at: nat, b: byte)
    requires at + 4 <= a.Length
    modifies a
    ensures forall k :: at <= k < at + 4 ==> a[k] == b
    ensures forall k :: 0 <= k < a.Length && !(at <= k < at + 4) ==> a[k] == old(a[k])
  {
    a[at], a[at + 1], a[at + 2], a[at + 3] := b, b, b, b;
  }

  method MemCpy(dst: array<byte>, at: nat, src: seq<byte>)
    requires at + |src| <= dst.Length
    modifies dst
    ensures dst[at..at + |src|] == src
    ensures forall k :: 0 <= k < dst.Length && !(at <= k < at + |src|) ==> dst[k] == old(dst[k])
  {
    forall k | 0 <= k < |src| {
      dst[at + k] := src[k];
    }
  }

  /** The pseudo packet with its checksum field still zero. */
  method FillPseudo(data: seq<byte>) returns (g: array<byte>)
    requires |data| <= DATA_MAX
    ensures fresh(g) && g.Length == PSEUDO_LEN + UDP_LEN + DATA_MAX
    ensures g[..PSEUDO_LEN + UDP_LEN] == PseudoHead(|data|) + [0, 0]
    ensures g[PSEUDO_LEN + UDP_LEN..PSEUDO_LEN + UDP_LEN + |data|] == data
  {
    var size := |data|;
    g := new byte[PSEUDO_LEN + UDP_LEN + DATA_MAX](_ => 0);
    PutAddr(g, 0, 0);
    PutAddr(g, 4, 255);
    g[8] := 0;
    g[9] := 17;
    Put16(g, 10, UDP_LEN + size);
    assert g[..12] == PseudoHead(size)[..12];
    FillHeader(g, size);
    assert g[..20] == g[..12] + g[12..20] == PseudoHead(size) + [0, 0];
    ghost var front := g[..20];
    MemCpy(g, 20, data);
    assert g[..20] == front;
  }

  /** The UDP header behind the pseudo header, its checksum field zero. */
  method FillHeader(g: array<byte>, size: nat)
    requires g.Length == PSEUDO_LEN + UDP_LEN + DATA_MAX && size <= DATA_MAX
    modifies g
    ensures g[..12] == old(g[..12]) && g[12..20] == UdpHead(size) + [0, 0]
  {
    ghost var front := g[..12];
    Put16(g, 12, SOURCE_PORT);
    Put16(g, 14, DEST_PORT);
    Put16(g, 16, UDP_LEN + size);
    Put16(g, 18, 0);
    assert g[..12] == front;
  }

  /** The UDP header with its checksum, and the data area, as copied out of the pseudo packet. */
  method FillUdp(data: seq<byte>, order: Order) returns (udp: array<byte>, area: array<byte>)
    requires |data| <= DATA_MAX
    ensures udp[..] == UdpHead(|data|) + UdpCheck(data, order)
    ensures area.Length == DATA_MAX && area[..|data|] == data
  {
    hide Checksum.Checksum, Stored, PseudoHead, UdpHead;
    var g := FillPseudo(data);
    ghost var head, was := PseudoHead(|data|) + [0, 0], g[..];
    assert g[0..0 + 20 + |data|] == head + data;
    var check := ChecksumOf(g, 0, PSEUDO_LEN + UDP_LEN + |data|, order);
    assert head + data == PseudoHead(|data|) + [0, 0] + data;
    PutNative(g, 18, check, order);
    HeadInPseudo(|data|);
    assert g[12..18] == was[12..18] == was[..20][12..18];
    assert g[20..20 + |data|] == was[20..20 + |data|];
    udp := new byte[UDP_LEN];
    MemCpy(udp, 0, g[12..20]);
    assert udp[..] == udp[0..0 + 8];
    assert g[12..20] == g[12..18] + g[18..20];
    area := new byte[DATA_MAX];
    MemCpy(area, 0, g[20..]);
    assert area[..] == area[0..0 + DATA_MAX];
    assert area[..|data|] == area[..][..|data|];
    assert g[20..][..|data|] == g[20..20 + |data|];
  }

  lemma HeadInPseudo(size: nat)
    requires size <= DATA_MAX
    ensures (PseudoHead(size) + [0, 0])[12..18] == UdpHead(size)
  {
  }

  method IpFields(size: nat) returns (ip: array<byte>)
    requires size <= DATA_MAX
    ensures fresh(ip) && ip[..] == IpHead(size) + [0, 0] + IP_TAIL
  {
    ip := new byte[IP_LEN](_ => 0);
    ip[0] := 0x45;
    ip[1] := 0;
    Put16(ip, 2, IP_LEN + UDP_LEN + size);
    Put16(ip, 4, 0);
    Put16(ip, 6, 0);
    ip[8] := 64;
    ip[9] := 17;
    assert ip[..10] == IpHead(size);
    FillTail(ip);
    assert ip[..] == ip[..10] + ip[10..];
  }

  method FillTail(ip: array<byte>)
    requires ip.Length == IP_LEN
    modifies ip
    ensures ip[..10] == old(ip[..10]) && ip[10..] == [0, 0] + IP_TAIL
  {
    ghost var front := ip[..10];
    Put16(ip, 10, 0);
    PutAddr(ip, 12, 0);
    PutAddr(ip, 16, 255);
    assert ip[..10] == front;
  }

  method FillIp(size: nat, order: Order) returns (ip: array<byte>)
    requires size <= DATA_MAX
    ensures ip[..] == IpHead(size) + IpCheck(size, order) + IP_TAIL
  {
    hide Checksum.Checksum, Stored, IpHead;
    ip := IpFields(size);
    ghost var was := ip[..];
    assert ip[0..0 + 20] == was;
    var sum := ChecksumOf(ip, 0, IP_LEN, order);
    PutNative(ip, 10, sum, order);
    assert ip[..10] == was[..10] == IpHead(size) && ip[12..] == was[12..] == IP_TAIL;
    assert ip[10..12] == IpCheck(size, order);
    assert ip[..] == ip[..10] + ip[10..12] + ip[12..];
  }

  method FillEth(mac: seq<byte>) returns (eh: array<byte>)
    requires |mac| == 6
    ensures eh[..] == EthHead(mac)
  {
    eh := new byte[ETH_LEN](_ => 0);
    PutAddr(eh, 0, 255);
    eh[4], eh[5] := 255, 255;
    MemCpy(eh, 6, mac);
    Put16(eh, 12, 0x800);
    assert eh[..6] == [255, 255, 255, 255, 255, 255] && eh[12..] == [8, 0];
    assert eh[6..12] == eh[6..6 + |mac|] == mac;
    assert eh[..] == eh[..6] + eh[6..12] + eh[12..];
  }

  /** Copying behind what is there, and stepping on. */
  method MemAppend(buf: array<byte>, p: nat, src: seq<byte>) returns (next: nat)
    requires p + |src| <= buf.Length
    modifies buf
    ensures next == p + |src| && buf[..next] == old(buf[..p]) + src
  {
    ghost var front := buf[..p];
    MemCpy(buf, p, src);
    next := p + |src|;
    assert buf[..p] == front;
    assert buf[..next] == buf[..p] + buf[p..p + |src|];
  }

  /** The packet put together behind its three headers. */
  method Assemble(eh: array<byte>, ip: array<byte>, udp: array<byte>, data: seq<byte>) returns (packet: seq<byte>)
    requires eh.Length == ETH_LEN && ip.Length == IP_LEN && udp.Length == UDP_LEN && |data| <= DATA_MAX
    ensures packet == eh[..] + ip[..] + udp[..] + data
  {
    var buf := new byte[ETH_LEN + IP_LEN + UDP_LEN + DATA_MAX](_ => 0);
    var p := 0;
    MemCpy(buf, p, eh[..]);
    p := p + ETH_LEN;
    assert buf[..p] == buf[0..0 + ETH_LEN] == eh[..];
    p := MemAppend(buf, p, ip[..]);
    p := MemAppend(buf, p, udp[..]);
    p := MemAppend(buf, p, data);
    packet := buf[..p];
  }

  /** `send_udp_raw`: `mac` is what the ioctl returned, empty when it failed. Data longer than
      the 256 bytes of the packet is not allowed for. */
  method SendUdpRaw(mac: seq<byte>, data: seq<byte>, order: Order, sendOk: bool) returns (ret: int, sent: seq<byte>)
    requires (mac == [] || |mac| == 6) && |data| <= DATA_MAX
    ensures mac == [] ==> ret == -1 && sent == []
    ensures mac != [] ==> sent == FrameOf(mac, data, order) && ret == if sendOk then |data| else -1
  {
    hide UdpHead, UdpCheck, IpHead, IpCheck, EthHead;
    var udp, area := FillUdp(data, order);
    var ip := FillIp(|data|, order);
    if mac == [] {
      return -1, [];
    }
    var eh := FillEth(mac);
    sent := Assemble(eh, ip, udp, area[..|data|]);
    ret := if sendOk then |data| else -1;
  }

  // ---- Taking it apart ----

  /** g_param. */
  datatype Param = Param(arp: bool, icmp: bool, tcp: bool, udp: bool, port: int)

  const DEFAULT_PARAM: Param := Param(true, true, true, true, 0)

  /** `is_target_port`. */
  method IsTargetPort(port: int, port1: nat, port2: nat) returns (flag: bool)
    requires port1 < 0x10000 && port2 < 0x10000
    ensures flag <==> TargetPort(port, port1, port2)
  {
    if port == 0 {
      flag := true;
    } else if port > 0 {
      flag := port == port1 || port == port2;
    } else {
      flag := !(-port == port1 || -port == port2);
    }
  }

  /** A positive setting selects a port, a negative one leaves it out, 0 selects all. */
  predicate TargetPort(port: int, port1: nat, port2: nat) {
    if port < 0 then -port !in {port1, port2} else port == 0 || port in {port1, port2}
  }

  const SIZE_T: int := 0x1_0000_0000_0000_0000

  /** Subtraction of a size_t. */
  function Minus(a: int, b: int): (r: nat)
    ensures 0 <= a - b < SIZE_T ==> r == a - b
  {
    (a - b) % SIZE_T
  }

  /** What is displayed of a captured packet: its kind, and where its data lies. */
  datatype Shown =
    | Nothing
    | Arp
    | Tcp(v6: bool, at: int, len: nat)
    | Udp(v6: bool, at: int, len: nat)
    | Icmp(at: int, len: nat)

  function At16(b: seq<byte>, i: nat): (v: nat)
    requires i + 1 < |b|
    ensures v < 0x10000
  {
    FromNet16(b[i], b[i + 1])
  }

  const TCP_LEN: nat := 20
  const IP6_LEN: nat := 40
  const CAPTURE_MIN: nat := ETH_LEN + IP6_LEN + TCP_LEN

  const IPPROTO_ICMP: nat := 1
  const IPPROTO_TCP: nat := 6
  const IPPROTO_UDP: nat := 17

  /** The data of a TCP segment whose header starts at `h`: behind the options. */
  function TcpData(b: seq<byte>, h: nat, v6: bool, len: nat): (s: Shown)
    requires h + TCP_LEN <= |b|
  {
    var lest := b[h + 12] / 16 * 4 - TCP_LEN;
    Tcp(v6, h + TCP_LEN + lest, Minus(Minus(len, TCP_LEN), lest))
  }

  /** What is shown of an IPv4 packet in a captured frame. */
  function AnalysisOfIp(b: seq<byte>, p: Param): (s: Shown)
    requires |b| >= CAPTURE_MIN
  {
    var len := Minus(At16(b, 16), IP_LEN);
    var h := ETH_LEN + IP_LEN;
    var wanted := TargetPort(p.port, At16(b, h), At16(b, h + 2));
    if b[23] == IPPROTO_TCP then (if p.tcp && wanted then TcpData(b, h, false, len) else Nothing)
    else if b[23] == IPPROTO_UDP then
      (if p.udp && wanted then Udp(false, h + UDP_LEN, Minus(len, UDP_LEN)) else Nothing)
    else if b[23] == IPPROTO_ICMP then (if p.icmp then Icmp(h, len) else Nothing)
    else Nothing
  }

  /** What is shown of an IPv6 packet; its length is that of the capture. */
  function AnalysisOfIp6(b: seq<byte>, len0: nat, p: Param): (s: Shown)
    requires |b| >= CAPTURE_MIN
  {
    var len := Minus(Minus(len0, ETH_LEN), IP6_LEN);
    var h := ETH_LEN + IP6_LEN;
    var wanted := TargetPort(p.port, At16(b, h), At16(b, h + 2));
    if b[20] == IPPROTO_TCP then (if p.tcp && wanted then TcpData(b, h, true, len) else Nothing)
    else if b[20] == IPPROTO_UDP then (if p.udp && wanted then Udp(true, h + UDP_LEN, Minus(len, UDP_LEN)) else Nothing)
    else Nothing
  }

  function Analysis(b: seq<byte>, len: nat, p: Param): (s: Shown)
    requires |b| >= CAPTURE_MIN
  {
    match At16(b, 12)
    case 0x806 => if p.arp then Arp else Nothing
    case 0x8035 => if p.arp then Arp else Nothing
    case 0x800 => AnalysisOfIp(b, p)
    case 0x86DD => AnalysisOfIp6(b, len, p)
    case _ => Nothing
  }

  /** The TCP branch, from the header on. */
  method AnalyzeTcp(buf: array<byte>, ptr0: nat, len0: nat, v6: bool, p: Param) returns (s: Shown)
    requires ptr0 + TCP_LEN <= buf.Length
    ensures s == if p.tcp && TargetPort(p.port, At16(buf[..], ptr0), At16(buf[..], ptr0 + 2))
                 then TcpData(buf[..], ptr0, v6, len0) else Nothing
  {
    s := Nothing;
    if p.tcp {
      var source, dest := FromNet16(buf[ptr0], buf[ptr0 + 1]), FromNet16(buf[ptr0 + 2], buf[ptr0 + 3]);
      var doff := buf[ptr0 + 12] / 16;
      var ptr: int, len := ptr0 + TCP_LEN, Minus(len0, TCP_LEN);
      var flag := IsTargetPort(p.port, source, dest);
      if flag {
        var lest := doff * 4 - TCP_LEN;
        ptr := ptr + lest;
        len := Minus(len, lest);
        s := Tcp(v6, ptr, len);
      }
    }
  }

  method AnalyzeUdp(buf: array<byte>, ptr0: nat, len0: nat, v6: bool, p: Param) returns (s: Shown)
    requires ptr0 + UDP_LEN <= buf.Length
    ensures s == if p.udp && TargetPort(p.port, At16(buf[..], ptr0), At16(buf[..], ptr0 + 2))
                 then Udp(v6, ptr0 + UDP_LEN, Minus(len0, UDP_LEN)) else Nothing
  {
    s := Nothing;
    if p.udp {
      var source, dest := FromNet16(buf[ptr0], buf[ptr0 + 1]), FromNet16(buf[ptr0 + 2], buf[ptr0 + 3]);
      var ptr, len := ptr0 + UDP_LEN, Minus(len0, UDP_LEN);
      var flag := IsTargetPort(p.port, source, dest);
      if flag {
        s := Udp(v6, ptr, len);
      }
    }
  }

  /** `analyze_packet`, printing left out: `buf` is the capture buffer, `len0` what recv
      returned. */
  method AnalyzePacket(buf: array<byte>, len0: nat, p: Param) returns (s: Shown)
    requires buf.Length >= CAPTURE_MIN
    ensures s == Analysis(buf[..], len0, p)
  {
    var ptr, len := 0, len0;
    var ethType := FromNet16(buf[12], buf[13]);
    ptr, len := ptr + ETH_LEN, Minus(len, ETH_LEN);
    s := Nothing;
    if ethType == 0x806 || ethType == 0x8035 {
      if p.arp {
        s := Arp;
      }
    } else if ethType == 0x800 {
      var ipLen, proto := FromNet16(buf[ptr + 2], buf[ptr + 3]), buf[ptr + 9];
      ptr, len := ptr + IP_LEN, Minus(ipLen, IP_LEN);
      if proto == IPPROTO_TCP {
        s := AnalyzeTcp(buf, ptr, len, false, p);
      } else if proto == IPPROTO_UDP {
        s := AnalyzeUdp(buf, ptr, len, false, p);
      } else if proto == IPPROTO_ICMP {
        if p.icmp {
          s := Icmp(ptr, len);
        }
      }
    } else if ethType == 0x86DD {
      var next := buf[ptr + 6];
      ptr, len := ptr + IP6_LEN, Minus(len, IP6_LEN);
      if next == IPPROTO_TCP {
        s := AnalyzeTcp(buf, ptr, len, true, p);
      } else if next == IPPROTO_UDP {
        s := AnalyzeUdp(buf, ptr, len, true, p);
      }
    }
  }

  /** The fields of a built frame, wherever more bytes follow it in the capture buffer. */
  lemma FrameFields(mac: seq<byte>, data: seq<byte>, order: Order, rest: seq<byte>)
    requires |mac| == 6 && |data| <= DATA_MAX && |FrameOf(mac, data, order) + rest| >= CAPTURE_MIN
    ensures var b := FrameOf(mac, data, order) + rest;
            && At16(b, 12) == 0x800 && b[23] == IPPROTO_UDP
            && At16(b, 16) == IP_LEN + UDP_LEN + |data|
            && At16(b, 34) == SOURCE_PORT && At16(b, 36) == DEST_PORT
            && b[42..42 + |data|] == data
  {
    var b := FrameOf(mac, data, order) + rest;
    var n := |data|;
    var ip := IpHead(n) + IpCheck(n, order) + IP_TAIL;
    var udp := UdpHead(n) + UdpCheck(data, order);
    assert b[..14] == EthHead(mac);
    assert b[14..34] == ip && ip[..10] == IpHead(n);
    assert b[34..42] == udp && udp[..6] == UdpHead(n);
    assert b[12] == b[..14][12] && b[13] == b[..14][13];
    assert b[16] == b[14..34][2] && b[17] == b[14..34][3] && b[23] == b[14..34][9];
    assert b[34] == b[34..42][0] && b[35] == b[34..42][1] && b[36] == b[34..42][2] && b[37] == b[34..42][3];
  }

  /** Round trip: the analyser shows the frame as UDP exactly when its filter lets these ports
      through, as the default filter does, and the data it displays is the payload, byte for byte. */
  lemma FrameIsUnderstood(mac: seq<byte>, data: seq<byte>, order: Order, rest: seq<byte>, len: nat, p: Param)
    requires |mac| == 6 && |data| <= DATA_MAX
    requires |FrameOf(mac, data, order) + rest| >= CAPTURE_MIN
    ensures var b := FrameOf(mac, data, order) + rest;
            var s := Analysis(b, len, p);
            && (s == Udp(false, 42, |data|) <==> p.udp && TargetPort(p.port, SOURCE_PORT, DEST_PORT))
            && (s != Udp(false, 42, |data|) ==> s == Nothing)
            && Analysis(b, len, DEFAULT_PARAM) == Udp(false, 42, |data|)
            && b[42..42 + |data|] == data
  {
    FrameFields(mac, data, order, rest);
  }

  // ---- What is shown of any packet ----

  /** The port setting: 0 shows all, a positive one the packets from or to the port, a negative
      one all the others. */
  lemma PortFilter(port: int, source: nat, dest: nat)
    ensures TargetPort(0, source, dest)
    ensures port > 0 ==> (TargetPort(port, source, dest) <==> port == source || port == dest)
    ensures port < 0 ==> (TargetPort(port, source, dest) <==> -port != source && -port != dest)
  {
  }

  /** Header and data behind an Ethernet header of type IPv4, whose protocol is `proto` and
      whose length counts `n` bytes behind it, or of type IPv6 in a capture of that length. */
  predicate Carries(eth: seq<byte>, ip: seq<byte>, v6: bool, proto: byte, n: nat, len: nat) {
    && |eth| == 14 && n < 0x10000
    && if v6 then |ip| == 40 && eth[12..] == [0x86, 0xDD] && ip[6] == proto && len == 54 + n
       else |ip| == 20 && eth[12..] == [8, 0] && ip[9] == proto && 256 * (ip[2] as int) + ip[3] == 20 + n
  }

  lemma CarriesFields(eth: seq<byte>, ip: seq<byte>, v6: bool, proto: byte, n: nat, len: nat, tail: seq<byte>)
    requires Carries(eth, ip, v6, proto, n, len) && |tail| >= 8
    ensures var b, h := eth + ip + tail, 14 + |ip|;
            && b[h..] == tail && At16(b, 12) == (if v6 then 0x86DD else 0x800)
            && At16(b, h) == 256 * (tail[0] as int) + tail[1] && At16(b, h + 2) == 256 * (tail[2] as int) + tail[3]
            && if v6 then b[20] == proto else b[23] == proto && At16(b, 16) == 20 + n
  {
    var b := eth + ip + tail;
    assert b[12] == eth[12..][0] && b[13] == eth[12..][1];
    assert b[14..14 + |ip|] == ip;
  }

  /** A TCP segment of `n` bytes with any offset, also one that ends the header too early: the
      region shown starts that many units of four bytes behind the start of the TCP header and
      ends where the packet does. */
  lemma TcpRegion(eth: seq<byte>, ip: seq<byte>, v6: bool, tail: seq<byte>, n: nat, len: nat, p: Param)
    requires Carries(eth, ip, v6, 6, n, len) && |eth + ip + tail| >= CAPTURE_MIN
    requires |tail| >= 20 && 20 <= n && 4 * (tail[12] / 16) <= n
    ensures var h := 14 + |ip|; var doff := tail[12] / 16;
            Analysis(eth + ip + tail, len, p)
            == if p.tcp && TargetPort(p.port, 256 * (tail[0] as int) + tail[1], 256 * (tail[2] as int) + tail[3])
               then Tcp(v6, h + 4 * doff, n - 4 * doff) else Nothing
  {
    hide TargetPort;
    CarriesFields(eth, ip, v6, 6, n, len, tail);
    assert (eth + ip + tail)[14 + |ip| + 12] == tail[12];
  }

  /** Round trip for TCP over IPv4 and IPv6: when the offset in the high half of byte 12 counts
      the header with its options in units of four bytes, the region shown is the payload. */
  lemma TcpIsUnderstood(eth: seq<byte>, ip: seq<byte>, v6: bool, tcp: seq<byte>, options: seq<byte>,
                        payload: seq<byte>, rest: seq<byte>, len: nat, p: Param)
    requires Carries(eth, ip, v6, 6, 20 + |options| + |payload|, len)
    requires |tcp| == 20 && |options| % 4 == 0 && 16 * (5 + |options| / 4) <= tcp[12] < 16 * (6 + |options| / 4)
    requires |eth + ip + (tcp + options + payload + rest)| >= CAPTURE_MIN
    ensures var b, at := eth + ip + (tcp + options + payload + rest), 14 + |ip| + 20 + |options|;
            && Analysis(b, len, p)
               == (if p.tcp && TargetPort(p.port, 256 * (tcp[0] as int) + tcp[1], 256 * (tcp[2] as int) + tcp[3])
                   then Tcp(v6, at, |payload|) else Nothing)
            && b[at..at + |payload|] == payload
  {
    hide Analysis, TargetPort;
    var head := tcp + options;
    var tail := tcp + options + payload + rest;
    assert tail[..20] == tcp && tail == head + payload + rest;
    assert tail[12] == tcp[12] && tail[0] == tcp[0] && tail[1] == tcp[1] && tail[2] == tcp[2] && tail[3] == tcp[3];
    TcpRegion(eth, ip, v6, tail, 20 + |options| + |payload|, len, p);
    InFrame(eth, ip, head, payload, rest);
  }

  lemma InFrame(eth: seq<byte>, ip: seq<byte>, head: seq<byte>, payload: seq<byte>, rest: seq<byte>)
    ensures var b, at := eth + ip + (head + payload + rest), |eth| + |ip| + |head|;
            at + |payload| <= |b| && b[at..at + |payload|] == payload
  {
    var b := eth + ip + (head + payload + rest);
    assert b == (eth + ip + head) + payload + rest;
  }

  /** Round trip for UDP over IPv4 and IPv6. */
  lemma UdpIsUnderstood(eth: seq<byte>, ip: seq<byte>, v6: bool, udp: seq<byte>, payload: seq<byte>,
                        rest: seq<byte>, len: nat, p: Param)
    requires Carries(eth, ip, v6, 17, 8 + |payload|, len) && |udp| == 8
    requires |eth + ip + (udp + payload + rest)| >= CAPTURE_MIN
    ensures var b, at := eth + ip + (udp + payload + rest), 14 + |ip| + 8;
            && Analysis(b, len, p)
               == (if p.udp && TargetPort(p.port, 256 * (udp[0] as int) + udp[1], 256 * (udp[2] as int) + udp[3])
                   then Udp(v6, at, |payload|) else Nothing)
            && b[at..at + |payload|] == payload
  {
    var tail := udp + payload + rest;
    CarriesFields(eth, ip, v6, 17, 8 + |payload|, len, tail);
    assert tail[8..][..|payload|] == payload;
    assert (eth + ip + tail)[14 + |ip|..][8..] == tail[8..];
  }

  /** ICMP over IPv4 is shown from its header on; ARP and reverse ARP by their types. */
  lemma OthersShown(b: seq<byte>, len: nat, p: Param)
    requires |b| >= CAPTURE_MIN
    ensures b[12..14] == [8, 0] && b[23] == 1 && 256 * (b[16] as int) + b[17] >= 20 ==>
              Analysis(b, len, p) == if p.icmp then Icmp(34, 256 * (b[16] as int) + b[17] - 20) else Nothing
    ensures b[12..14] == [8, 6] || b[12..14] == [0x80, 0x35] ==> Analysis(b, len, p) == if p.arp then Arp else Nothing
    ensures b[12..14] == [8, 0] && b[23] !in {1, 6, 17} ==> Analysis(b, len, p) == Nothing
    ensures b[12..14] == [0x86, 0xDD] && b[20] !in {6, 17} ==> Analysis(b, len, p) == Nothing
    ensures b[12..14] !in {[8, 0], [8, 6], [0x80, 0x35], [0x86, 0xDD]} ==> Analysis(b, len, p) == Nothing
  {
    assert b[12..14] == [b[12], b[13]];
    assert At16(b, 12) == 256 * (b[12] as int) + b[13];
  }

  // ---- Answers ----

  /** The number of bytes behind the headers, as a size_t has it: an answer cut off inside its
      headers wraps around, and nothing sensible is copied then. */
  function BytesBehind(len: nat): (n: nat)
    requires len < SIZE_T
    ensures ETH_LEN + IP_LEN + UDP_LEN <= len ==> n == len - 42
    ensures len < ETH_LEN + IP_LEN + UDP_LEN ==> n > SIZE_T - 43
  {
    Minus(Minus(Minus(len, ETH_LEN), IP_LEN), UDP_LEN)
  }

  /** `check_packet` on `len0` bytes in the receive buffer, whatever an earlier packet left
      behind them: `size` is the number of bytes copied, `text` what they are when the buffer has
      as many. */
  method CheckPacket(buf: array<byte>, len0: nat) returns (shown: bool, size: nat, text: seq<byte>)
    requires ETH_LEN + IP_LEN + UDP_LEN <= buf.Length < SIZE_T - 42 && len0 <= buf.Length
    ensures shown <==> buf[12..14] == [8, 0] && buf[23] == 17 && buf[36..38] == [86, 207]
    ensures size <= buf.Length <==> !shown || len0 >= ETH_LEN + IP_LEN + UDP_LEN
    ensures text == if shown && len0 >= ETH_LEN + IP_LEN + UDP_LEN then buf[42..len0] else []
    ensures |text| == if size <= buf.Length then size else 0
  {
    shown, size, text := false, 0, [];
    assert buf[12..14] == [buf[12], buf[13]] && buf[36..38] == [buf[36], buf[37]];
    var ptr, len := 0, len0;
    var ethType := FromNet16(buf[12], buf[13]);
    ptr, len := ptr + ETH_LEN, Minus(len, ETH_LEN);
    if ethType == 0x800 {
      var proto := buf[ptr + 9];
      ptr, len := ptr + IP_LEN, Minus(len, IP_LEN);
      if proto == IPPROTO_UDP {
        var dest := FromNet16(buf[ptr + 2], buf[ptr + 3]);
        ptr, len := ptr + UDP_LEN, Minus(len, UDP_LEN);
        if dest == SOURCE_PORT {
          assert len == BytesBehind(len0);
          shown, size := true, len;
          if size <= buf.Length - ptr {
            text := buf[ptr..ptr + size];
          }
        }
      }
    }
  }

  /** An answer to the client, whatever answers: its payload is what is shown. */
  method AnswerIsShown(eth: seq<byte>, ip: seq<byte>, udp: seq<byte>, payload: seq<byte>)
    returns (shown: bool, text: seq<byte>)
    requires |eth| == 14 && eth[12..] == [8, 0] && |ip| == 20 && ip[9] == 17
    requires |udp| == 8 && udp[2..4] == [86, 207] && |payload| <= 470
    ensures shown && text == payload
  {
    var sent := eth + ip + udp + payload;
    var buf := new byte[512](_ => 0);
    MemCpy(buf, 0, sent);
    assert buf[..|sent|] == buf[0..0 + |sent|] == sent;
    assert sent[12..14] == eth[12..] && sent[36..38] == udp[2..4] && sent[23] == ip[9] && sent[42..] == payload;
    assert forall k :: 0 <= k < |sent| ==> buf[k] == buf[..|sent|][k] == sent[k];
    assert buf[12..14] == sent[12..14] && buf[36..38] == sent[36..38];
    assert buf[42..|sent|] == buf[..|sent|][42..];
    var size;
    shown, size, text := CheckPacket(buf, |sent|);
  }

  /** The client's own frames, which its packet socket also receives, are not taken for an
      answer. */
  method OwnFrameIgnored(mac: seq<byte>, data: seq<byte>, order: Order) returns (shown: bool)
    requires |mac| == 6 && |data| <= DATA_MAX
    ensures !shown
  {
    var ret, sent := SendUdpRaw(mac, data, order, true);
    var buf := new byte[512](_ => 0);
    MemCpy(buf, 0, sent);
    var b := buf[..];
    assert b == sent + buf[|sent|..] by { assert buf[0..0 + |sent|] == sent; }
    FrameFields(mac, data, order, buf[|sent|..]);
    assert b[36..38] == [b[36], b[37]];
    var size, text;
    shown, size, text := CheckPacket(buf, |sent|);
  }
}
