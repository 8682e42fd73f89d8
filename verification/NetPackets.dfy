/** IPv4 datagrams and ICMP echo on top of the checksum (kernel/net.c:322-351, 594-616, 686-722). */
module NetPackets {
  import opened Common
  import opened Bytes
  import opened NetChecksum
  import ArpCache

  const IP_HEADER: nat := 20
  const MTU: nat := 1500
  const ICMP_HEADER: nat := 8
  const REPLY_SIZE: nat := 1480
  const ECHO_REPLY: nat := 0
  const ECHO_REQUEST: nat := 8
  const PROTO_ICMP: nat := 1

  /** What a received datagram says. */
  datatype Datagram = Datagram(src: nat, dst: nat, ttl: nat, proto: nat, payload: seq<Byte>)

  // ---------------------------------------------------------------- IPv4

  function Be32(p: seq<Byte>, at: nat): (v: nat)
    requires at + 4 <= |p|
    ensures v < WORD32
  {
    Word(p, at) * 65536 + Word(p, at + 2)
  }

  /** htonl. */
  function Bytes32Be(v: nat): (b: seq<Byte>)
    requires v < WORD32
    ensures |b| == 4 && Be32(b, 0) == v
  {
    [v / 65536 / 256, v / 65536 % 256, v % 65536 / 256, v % 256]
  }

  /** The header send_ipv4_packet fills in, before the checksum is stored. */
  function Header(src: nat, dst: nat, proto: Byte, id: nat, payloadLen: nat): (h: seq<Byte>)
    requires src < WORD32 && dst < WORD32 && id <= MAX16 && IP_HEADER + payloadLen <= MTU
    ensures |h| == IP_HEADER && Word(h, 10) == 0
  {
    var total := IP_HEADER + payloadLen;
    [0x45, 0, total / 256, total % 256, id / 256, id % 256, 0, 0, 64, proto, 0, 0] + Bytes32Be(src) + Bytes32Be(dst)
  }

  ghost function Packet(src: nat, dst: nat, proto: Byte, id: nat, payload: seq<Byte>): seq<Byte>
    requires src < WORD32 && dst < WORD32 && id <= MAX16 && IP_HEADER + |payload| <= MTU
  {
    var h := Header(src, dst, proto, id, |payload|);
    WithWord(h, 10, Checksum(h)) + payload
  }

  /** send_ipv4_packet up to the Ethernet layer. */
  method SendIpv4(src: nat, dst: nat, proto: Byte, id: nat, payload: seq<Byte>) returns (pkt: Option<seq<Byte>>)
    requires src < WORD32 && dst < WORD32 && id <= MAX16
    ensures pkt == if MTU < IP_HEADER + |payload| then None else Some(Packet(src, dst, proto, id, payload))
  {
    if IP_HEADER + |payload| > MTU { return None; }
    var hdr := Header(src, dst, proto, id, |payload|);
    var c := Compute(hdr);
    hdr := WithWord(hdr, 10, c);
    pkt := Some(hdr + payload);
  }

  /** The gates of handle_ipv4 that every host shares, and what passes them. */
  ghost function Received(frame: seq<Byte>): (d: Option<Datagram>)
    ensures d.Some? ==> d.value.src < WORD32 && d.value.dst < WORD32
  {
    if |frame| < IP_HEADER || frame[0] / 16 != 4 then None
    else
      var ihl, total := frame[0] % 16 * 4, Word(frame, 2);
      if ihl < IP_HEADER || |frame| < ihl || total < ihl || |frame| < total || Checksum(frame[..ihl]) != 0 then None
      else Some(Datagram(Be32(frame, 12), Be32(frame, 16), frame[8], frame[9], frame[ihl..total]))
  }

  const BROADCAST: nat := 0xFFFF_FFFF

  /** The settings of a host that decide what it takes in. */
  datatype Config = Config(ip: Address, netmask: Address, configured: bool)

  type Address = a: nat | a < WORD32

  /** The host takes a datagram in: it is a broadcast, is addressed to it, or the host has no address yet. */
  predicate Addressed(host: Config, dst: nat) { dst == BROADCAST || !host.configured || dst == host.ip }

  /** The sender is on the host's subnet. */
  predicate Local(host: Config, src: Address)
  {
    src != 0 && host.netmask != 0 && SameUnder(Bits(src), Bits(host.ip), Bits(host.netmask))
  }

  predicate SameUnder(a: bv32, b: bv32, m: bv32) { a & m == b & m }

  function Bits(a: Address): bv32 { a as bv32 }

  /** The sender is local exactly when no bit that the mask covers differs. */
  lemma LocalMeans(host: Config, src: Address)
    ensures Local(host, src) <==>
            src != 0 && host.netmask != 0 && NoneDiffers(Bits(src), Bits(host.ip), Bits(host.netmask))
  {
    hide Bits, SameUnder, NoneDiffers;
    SameUnderMask(Bits(src), Bits(host.ip), Bits(host.netmask));
  }

  predicate NoneDiffers(a: bv32, b: bv32, m: bv32) { (a ^ b) & m == 0 }

  lemma SameUnderMask(a: bv32, b: bv32, m: bv32)
    ensures SameUnder(a, b, m) <==> NoneDiffers(a, b, m)
  {
    MaskSplits(a, b, m);
    DifferNowhere(a & m, b & m);
  }

  lemma MaskSplits(a: bv32, b: bv32, m: bv32)
    ensures (a ^ b) & m == (a & m) ^ (b & m)
  {
  }

  lemma DifferNowhere(a: bv32, b: bv32)
    ensures a ^ b == 0 <==> a == b
  {
  }

  /** What a host hands to its ICMP and UDP layers. */
  ghost function TakenIn(host: Config, frame: seq<Byte>): Option<Datagram>
  {
    var d := Received(frame);
    if d.Some? && Addressed(host, d.value.dst) then d else None
  }

  /** handle_ipv4 up to the dispatch.  A frame that passes the gates teaches the host a local sender's hardware address,
      whoever it is addressed to. */
  method HandleIpv4(host: Config, cache: ArpCache.Cache, ethSrc: ArpCache.Mac, now: ArpCache.Tick, frame: seq<Byte>)
    returns (d: Option<Datagram>)
    requires cache.Valid()
    modifies cache`history, cache.slots
    ensures d == TakenIn(host, frame)
    ensures cache.Valid()
    ensures var r := Received(frame);
            if r.Some? && Local(host, r.value.src)
            then cache.history == old(cache.history) + [ArpCache.Update(r.value.src, ethSrc, now)]
            else cache.history == old(cache.history)
    ensures var r := Received(frame);
            if r.Some? && Local(host, r.value.src)
            then ArpCache.Updated(old(cache.slots[..]), ArpCache.Update(r.value.src, ethSrc, now), cache.slots[..])
            else cache.slots[..] == old(cache.slots[..])
  {
    if |frame| < IP_HEADER { return None; }
    if frame[0] / 16 != 4 { return None; }
    var ihl: nat := frame[0] % 16 * 4;
    if ihl < IP_HEADER || |frame| < ihl { return None; }
    var total := Word(frame, 2);
    if total < ihl || |frame| < total { return None; }
    var c := Compute(frame[..ihl]);
    if c != 0 { return None; }
    var src, dst := Be32(frame, 12), Be32(frame, 16);
    if Local(host, src) {
      cache.Learn(ArpCache.Update(src, ethSrc, now));
    }
    if dst != BROADCAST && host.configured && dst != host.ip { return None; }
    d := Some(Datagram(src, dst, frame[8], frame[9], frame[ihl..total]));
  }

  /** Every packet sent passes the gates as it was sent, whatever padding the link adds behind it. */
  lemma Arrives(src: nat, dst: nat, proto: Byte, id: nat, payload: seq<Byte>, padding: seq<Byte>)
    requires src < WORD32 && dst < WORD32 && id <= MAX16 && IP_HEADER + |payload| <= MTU
    ensures Received(Packet(src, dst, proto, id, payload) + padding) == Some(Datagram(src, dst, 64, proto, payload))
  {
    hide Checksum;
    var h := Header(src, dst, proto, id, |payload|);
    StoredVerifies(h, 10);
    ChecksumFits(h);
    var stored := WithWord(h, 10, Checksum(h));
    var frame := Packet(src, dst, proto, id, payload) + padding;
    assert frame == stored + payload + padding;
    assert frame[..IP_HEADER] == stored;
    assert frame[IP_HEADER..IP_HEADER + |payload|] == payload;
    HeaderFields(src, dst, proto, id, |payload|);
  }

  /** A packet is taken in, as it was sent, by exactly the hosts it is meant for. */
  lemma Delivered(host: Config, src: nat, dst: nat, proto: Byte, id: nat, payload: seq<Byte>, padding: seq<Byte>)
    requires src < WORD32 && dst < WORD32 && id <= MAX16 && IP_HEADER + |payload| <= MTU
    ensures var d := TakenIn(host, Packet(src, dst, proto, id, payload) + padding);
            && (d.Some? <==> dst == BROADCAST || !host.configured || dst == host.ip)
            && (d.Some? ==> d.value == Datagram(src, dst, 64, proto, payload))
  {
    hide Received, Packet;
    Arrives(src, dst, proto, id, payload, padding);
  }

  lemma ChecksumFits(p: seq<Byte>)
    ensures 0 <= Checksum(p) <= MAX16
  {
  }

  lemma HeaderFields(src: nat, dst: nat, proto: Byte, id: nat, payloadLen: nat)
    requires src < WORD32 && dst < WORD32 && id <= MAX16 && IP_HEADER + payloadLen <= MTU
    ensures var h := Header(src, dst, proto, id, payloadLen);
            && h[0] == 0x45 && h[8] == 64 && h[9] == proto && Word(h, 0) == 0x4500
            && Word(h, 2) == IP_HEADER + payloadLen && Word(h, 4) == id && Word(h, 6) == 0
            && Be32(h, 12) == src && Be32(h, 16) == dst
  {
    var h := Header(src, dst, proto, id, payloadLen);
    assert h[12..16] == Bytes32Be(src) && h[16..20] == Bytes32Be(dst);
  }

  /** Changing any one word of a sent header behind its length is noticed, unless 0 and 0xFFFF were exchanged. */
  lemma CorruptionDropped(src: nat, dst: nat, proto: Byte, id: nat, payload: seq<Byte>, at: nat, w: nat)
    requires src < WORD32 && dst < WORD32 && id <= MAX16 && IP_HEADER + |payload| <= MTU
    requires at % 2 == 0 && 4 <= at < IP_HEADER && w <= MAX16
    ensures var frame := Packet(src, dst, proto, id, payload);
            var v := Word(frame, at);
            Received(WithWord(frame, at, w)).None? <==> v != w && !(v == 0 && w == MAX16) && !(v == MAX16 && w == 0)
  {
    hide Checksum, Sum;
    var h := Header(src, dst, proto, id, |payload|);
    StoredVerifies(h, 10);
    ChecksumFits(h);
    HeaderFields(src, dst, proto, id, |payload|);
    var stored := WithWord(h, 10, Checksum(h));
    var frame := Packet(src, dst, proto, id, payload);
    assert frame == stored + payload;
    var bad := WithWord(frame, at, w);
    assert bad[..IP_HEADER] == WithWord(stored, at, w);
    WordChangeSeen(stored, at, w);
    assert Word(stored, at) == Word(frame, at);
    assert Word(stored, at) == MAX16 ==> MAX16 < Sum(stored) by { TwoWords(stored, at); }
    assert bad[0] == 0x45 && Word(bad, 2) == |bad|;
  }

  lemma TwoWords(p: seq<Byte>, at: nat)
    requires at % 2 == 0 && 2 <= at && at + 2 <= |p|
    ensures Word(p, 0) + Word(p, at) <= Sum(p)
  {
    SumWithWord(p, at, 0);
    SumWithWord(WithWord(p, at, 0), 0, 0);
  }

  // ---------------------------------------------------------------- ICMP echo

  /** The reply handle_icmp builds: type, code and checksum rewritten, everything behind kept. */
  ghost function EchoReply(icmp: seq<Byte>): seq<Byte>
    requires ICMP_HEADER <= |icmp|
  {
    var cleared := WithWord(WithWord(icmp, 0, 0), 2, 0);
    WithWord(cleared, 2, Checksum(cleared))
  }

  lemma ReplyMeans(icmp: seq<Byte>)
    requires ICMP_HEADER <= |icmp|
    ensures var r := EchoReply(icmp);
            |r| == |icmp| && r[0] == ECHO_REPLY && r[1] == 0 && r[4..] == icmp[4..] && Checksum(r) == 0
  {
    hide Checksum;
    var cleared := WithWord(WithWord(icmp, 0, 0), 2, 0);
    ChecksumFits(cleared);
    StoredVerifies(cleared, 2);
    assert Word(cleared, 0) == 0;
  }

  /** What a host answers to an ICMP message. */
  ghost function AnswerTo(host: Config, icmp: seq<Byte>): Option<seq<Byte>>
  {
    if ICMP_HEADER <= |icmp| <= REPLY_SIZE && icmp[0] == ECHO_REQUEST && host.configured then Some(EchoReply(icmp))
    else None
  }

  /** The message answers the pending ping with this identifier and sequence number. */
  predicate Answers(icmp: seq<Byte>, id: nat, sequence: nat)
  {
    ICMP_HEADER <= |icmp| && icmp[0] == ECHO_REPLY && Word(icmp, 4) == id && Word(icmp, 6) == sequence
  }

  /** handle_icmp: the reply to send, if any, and whether a pending ping was answered. */
  method HandleIcmp(host: Config, icmp: seq<Byte>, expectedId: nat, expectedSeq: nat)
    returns (reply: Option<seq<Byte>>, answered: bool)
    ensures reply == AnswerTo(host, icmp)
    ensures answered <==> Answers(icmp, expectedId, expectedSeq)
    ensures reply.Some? <==> host.configured && 8 <= |icmp| <= 1480 && icmp[0] == 8
    ensures answered <==> 8 <= |icmp| && icmp[0] == 0 && Word(icmp, 4) == expectedId && Word(icmp, 6) == expectedSeq
  {
    reply, answered := None, false;
    if |icmp| < ICMP_HEADER { return; }
    if icmp[0] == ECHO_REQUEST && host.configured {
      if |icmp| > REPLY_SIZE { return; }
      var r := icmp[0 := ECHO_REPLY];
      r := r[1 := 0];
      r := WithWord(r, 2, 0);
      assert r == WithWord(WithWord(icmp, 0, 0), 2, 0);
      var c := Compute(r);
      r := WithWord(r, 2, c);
      reply := Some(r);
    } else if icmp[0] == ECHO_REPLY {
      if Word(icmp, 4) == expectedId && Word(icmp, 6) == expectedSeq {
        answered := true;
      }
    }
  }

  /** A ping there and back between two hosts.  The request is taken in as it was sent; it is answered exactly when the
      host that takes it in has an address, and the answer is then taken in by the sender, comes from the address that
      was pinged, verifies, answers the pending ping and carries the data of the request. */
  lemma PingAnswered(a: Config, b: Config, id1: nat, id2: nat, icmp: seq<Byte>, pad1: seq<Byte>, pad2: seq<Byte>)
    requires id1 <= MAX16 && id2 <= MAX16
    requires ICMP_HEADER <= |icmp| <= REPLY_SIZE && icmp[0] == ECHO_REQUEST
    ensures var there := TakenIn(b, Packet(a.ip, b.ip, PROTO_ICMP, id1, icmp) + pad1);
            && there == Some(Datagram(a.ip, b.ip, 64, PROTO_ICMP, icmp))
            && var answer := AnswerTo(b, there.value.payload);
               && (answer.Some? <==> b.configured)
               && (answer.Some? ==>
                     && |answer.value| == |icmp|
                     && var back := TakenIn(a, Packet(b.ip, there.value.src, PROTO_ICMP, id2, answer.value) + pad2);
                        && back == Some(Datagram(b.ip, a.ip, 64, PROTO_ICMP, answer.value))
                        && Checksum(answer.value) == 0 && answer.value[8..] == icmp[8..]
                        && Answers(answer.value, Word(icmp, 4), Word(icmp, 6)))
  {
    hide Checksum, TakenIn, Packet, EchoReply;
    Delivered(b, a.ip, b.ip, PROTO_ICMP, id1, icmp, pad1);
    ReplyMeans(icmp);
    var r := EchoReply(icmp);
    Delivered(a, b.ip, a.ip, PROTO_ICMP, id2, r, pad2);
    assert r[4] == r[4..][0] && r[5] == r[4..][1] && r[6] == r[4..][2] && r[7] == r[4..][3];
    assert r[8..] == r[4..][4..] && icmp[8..] == icmp[4..][4..];
  }
}
