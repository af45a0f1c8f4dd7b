/** The frame builders, and what one changed word does to a received frame (rust/kernel/src/net.rs). */
module NetBuild {
  import opened Arithmetic
  import opened NetChecksum
  import opened NetFrames
  import opened Options

  // ---------------------------------------------------------------- a changed word is noticed

  function Changed(s: Bytes, at: nat, w: U16): (s': Bytes)
    requires at + 2 <= |s|
    ensures |s'| == |s|
  {
    s[..at] + Be16(w) + s[at + 2..]
  }

  lemma SumAround(s: Bytes, at: nat, w: U16) returns (rest: nat)
    requires at % 2 == 0 && at + 2 <= |s|
    ensures Sum(s) == rest + WordAt(s, at) && Sum(Changed(s, at, w)) == rest + w
  {
    hide Sum, Word, Be16;
    var a, b, c := s[..at], s[at..at + 2], s[at + 2..];
    assert s == a + (b + c) && Changed(s, at, w) == a + (Be16(w) + c);
    SumParts(a, b + c);
    SumParts(b, c);
    SumParts(a, Be16(w) + c);
    SumParts(Be16(w), c);
    SumWord(w);
    SumTwo(s[at], s[at + 1]);
    assert b == [s[at], s[at + 1]];
    rest := Sum(a) + Sum(c);
  }

  lemma SumTwo(hi: Byte, lo: Byte)
    ensures Sum([hi, lo]) == Word(hi, lo)
  {
    hide Word;
    assert [hi, lo][2..] == [];
  }

  /** Any one word changed to a value not congruent to it modulo 65535 makes a valid checksum invalid. */
  lemma ChangedWordIsDetected(base: nat, s: Bytes, at: nat, w: U16)
    requires at % 2 == 0 && at + 2 <= |s| && ValidSum(base + Sum(s)) && w % 65535 != WordAt(s, at) % 65535
    ensures !ValidSum(base + Sum(Changed(s, at, w)))
  {
    hide Sum, Word, ValidSum;
    var rest := SumAround(s, at, w);
    ChangeIsDetected(base + rest, WordAt(s, at), w);
  }

  /** A TCP segment in which one word is changed so is not accepted. */
  lemma ChangedTcpIsRejected(p: Bytes, src: Ip, dest: Ip, at: nat, w: U16)
    requires ParseTcp(p, src, dest).Some? && at % 2 == 0 && at + 2 <= |p| && w % 65535 != WordAt(p, at) % 65535
    ensures ParseTcp(Changed(p, at, w), src, dest) == None
  {
    hide Sum, ValidSum, PseudoSum, WordAt;
    ChangedWordIsDetected(PseudoSum(src, dest, PROTOCOL_TCP, |p|), p, at, w);
  }

  lemma ChangedElsewhere(p: Bytes, at: nat, w: U16, i: nat)
    requires at + 2 <= |p| && i + 2 <= |p| && at % 2 == 0 && i % 2 == 0 && i != at
    ensures WordAt(Changed(p, at, w), i) == WordAt(p, i)
  {
    hide Word;
  }

  lemma ChangedHere(p: Bytes, at: nat, w: U16)
    requires at + 2 <= |p|
    ensures WordAt(Changed(p, at, w), at) == w
  {
    WordBe16(w);
    hide Word, Hi, Lo;
  }

  lemma WordInFront(p: Bytes, length: nat, at: nat)
    requires at + 2 <= length <= |p|
    ensures WordAt(p[..length], at) == WordAt(p, at)
  {
  }

  lemma ChangedInFront(p: Bytes, length: nat, at: nat, w: U16)
    requires at + 2 <= length <= |p|
    ensures Changed(p, at, w)[..length] == Changed(p[..length], at, w)
  {
    hide Be16;
  }

  // ------------------------------------------------------------- a changed word that moves the end of what is summed

  /** The sum of what is cut off when only the first `end` bytes are summed. */
  function TailSum(p: Bytes, end: nat): nat
    requires end <= |p|
  {
    if end % 2 == 0 then Sum(p[end..]) else Sum([0] + p[end..])
  }

  lemma SumCut(p: Bytes, end: nat)
    requires end <= |p|
    ensures Sum(p) == Sum(p[..end]) + TailSum(p, end)
  {
    if end % 2 == 0 {
      assert p == p[..end] + p[end..];
      SumParts(p[..end], p[end..]);
    } else {
      SumCutOdd(p, end);
    }
  }

  lemma SumCutOdd(p: Bytes, end: nat)
    requires end <= |p| && end % 2 == 1
    ensures Sum(p) == Sum(p[..end]) + Sum([0] + p[end..])
  {
    hide Sum;
    var a, b := p[..end - 1], p[end - 1];
    assert p[..end] == a + [b] && p == a + ([b] + p[end..]);
    SumParts(a, [b]);
    SumParts(a, [b] + p[end..]);
    SumSplitWord(b, p[end..]);
  }

  lemma SumSplitWord(b: Byte, rest: Bytes)
    ensures Sum([b] + rest) == Sum([b]) + Sum([0] + rest)
  {
    if rest != [] { assert ([b] + rest)[2..] == rest[1..] == ([0] + rest)[2..]; }
  }

  /** What the sum gains when its end moves from `a` to `b`. */
  function Between(p: Bytes, a: nat, b: nat): int
    requires a <= |p| && b <= |p|
  {
    if a <= b then TailSum(p[..b], a) else -(TailSum(p[..a], b) as int)
  }

  lemma SumBetween(p: Bytes, a: nat, b: nat)
    requires a <= |p| && b <= |p|
    ensures Sum(p[..b]) == Sum(p[..a]) + Between(p, a, b)
  {
    hide Sum, TailSum;
    if a <= b {
      SumCut(p[..b], a);
      assert p[..b][..a] == p[..a];
    } else {
      SumCut(p[..a], b);
      assert p[..a][..b] == p[..b];
    }
  }

  /** The sum over the first `b` bytes after a change to the word at `at`, from the sum over the first `a` before it. */
  lemma ChangedSum(p: Bytes, at: nat, w: U16, a: nat, b: nat)
    requires at % 2 == 0 && at + 2 <= b <= |p| && a <= |p|
    ensures Sum(Changed(p, at, w)[..b]) == Sum(p[..a]) + Between(p, a, b) - WordAt(p, at) + w
  {
    hide Sum, Between, Changed, WordAt;
    ChangedInFront(p, b, at, w);
    WordInFront(p, b, at);
    var rest := SumAround(p[..b], at, w);
    SumBetween(p, a, b);
  }

  lemma MultiplePlus(n: nat, d: int)
    requires n % 65535 == 0
    ensures (n + d) % 65535 == 0 <==> d % 65535 == 0
  {
    var i := Multiple(n, 65535);
    assert (n + d) % 65535 == d % 65535;
  }

  // ---------------------------------------------------------------- IPv4 headers

  function HeaderLength(first: Byte): nat { first % 16 * 4 }

  /** With `w` for its first word the packet has a header of another length, and what the sum gains by that balances the
      change. */
  predicate Reheaded(p: Bytes, w: U16)
    requires |p| >= IPV4_HEADER_SIZE && HeaderLength(p[0]) <= |p|
  {
    var length := HeaderLength(Hi(w));
    && Hi(w) / 16 == 4 && IPV4_HEADER_SIZE <= length <= |p| && length <= WordAt(p, 2)
    && (w - WordAt(p, 0) + Between(p, HeaderLength(p[0]), length)) % 65535 == 0
  }

  /** An IPv4 packet in which one header word is changed so is accepted if and only if it is the first word, and the
      changed header length takes in or leaves out what balances the change. */
  lemma ChangedIpv4IsRejected(p: Bytes, at: nat, w: U16)
    requires ParseIpv4(p).Some? && at % 2 == 0 && at + 2 <= HeaderLength(p[0])
    requires w % 65535 != WordAt(p, at) % 65535
    ensures ParseIpv4(Changed(p, at, w)) != None <==> at == 0 && Reheaded(p, w)
  {
    hide Sum, ValidSum, WordAt, Hi, Lo, Between, Be16;
    if at == 0 {
      ChangedFirstWord(p, w);
    } else {
      var length := HeaderLength(p[0]);
      ChangedInFront(p, length, at, w);
      WordInFront(p, length, at);
      ChangedWordIsDetected(0, p[..length], at, w);
    }
  }

  lemma ChangedFirstWord(p: Bytes, w: U16)
    requires ParseIpv4(p).Some?
    ensures ParseIpv4(Changed(p, 0, w)) != None <==> Reheaded(p, w)
  {
    hide Sum, ValidSum, WordAt, Between, Lo;
    var q, a, b := Changed(p, 0, w), HeaderLength(p[0]), HeaderLength(Hi(w));
    assert q[0] == Hi(w);
    ChangedElsewhere(p, 0, w, 2);
    if Hi(w) / 16 == 4 && IPV4_HEADER_SIZE <= b <= |p| {
      ChangedSum(p, 0, w, a, b);
      ValidMeans(Sum(p[..a]));
      ValidMeans(Sum(q[..b]));
      MultiplePlus(Sum(p[..a]), w - WordAt(p, 0) + Between(p, a, b));
      assert Sum(q[..b]) > 0 by { FirstWordCounts(q[..b], w); }
    }
  }

  lemma FirstWordCounts(s: Bytes, w: U16)
    requires |s| >= 2 && s[0] == Hi(w) > 0
    ensures Sum(s) > 0
  {
  }

  // ---------------------------------------------------------------- UDP datagrams

  /** How much of a datagram is summed and delivered. */
  function SpanEnd(p: Bytes, length: U16): nat { if length < |p| then length else |p| }

  /** With `w` for its length the datagram ends elsewhere, and what the sums gain by that balances the change. */
  predicate Recut(p: Bytes, w: U16)
    requires |p| >= UDP_HEADER_SIZE
  {
    var a, b := SpanEnd(p, WordAt(p, 4)), SpanEnd(p, w);
    b >= UDP_HEADER_SIZE && (w - WordAt(p, 4) + b - a + Between(p, a, b)) % 65535 == 0
  }

  /** The word at `at` is not summed, or only its high byte is and that stays. */
  predicate Unsummed(p: Bytes, at: nat, w: U16)
    requires UDP_HEADER_SIZE <= |p| && at + 2 <= |p|
  {
    var end := SpanEnd(p, WordAt(p, 4));
    at >= end || (at + 1 == end && Hi(w) == p[at])
  }

  lemma PseudoDiffers(src: Ip, dest: Ip, protocol: Byte, m: U16, n: U16)
    requires protocol > 0
    ensures PseudoSum(src, dest, protocol, m) + n == PseudoSum(src, dest, protocol, n) + m
    ensures PseudoSum(src, dest, protocol, m) > m
  {
    hide Sum, Word, Be16;
    SumWord(m);
    SumWord(n);
    SumTwo(0, protocol);
    assert Word(0, protocol) == protocol by { LowWord(protocol); }
  }

  lemma LowWord(b: Byte)
    ensures Word(0, b) == b
  {
  }

  lemma RecutUdp(p: Bytes, src: Ip, dest: Ip, w: U16)
    requires ParseUdp(p, src, dest).Some? && WordAt(p, 6) != 0
    ensures ParseUdp(Changed(p, 4, w), src, dest) != None <==> Recut(p, w)
  {
    hide Sum, ValidSum, PseudoSum, WordAt, Between, Changed;
    var q, a, b := Changed(p, 4, w), SpanEnd(p, WordAt(p, 4)), SpanEnd(p, w);
    ChangedHere(p, 4, w);
    ChangedElsewhere(p, 4, w, 6);
    if b >= UDP_HEADER_SIZE {
      var n := PseudoSum(src, dest, PROTOCOL_UDP, a) + Sum(p[..a]);
      var m := PseudoSum(src, dest, PROTOCOL_UDP, b) + Sum(q[..b]);
      ChangedSum(p, 4, w, a, b);
      PseudoDiffers(src, dest, PROTOCOL_UDP, b, a);
      ValidMeans(n);
      ValidMeans(m);
      MultiplePlus(n, w - WordAt(p, 4) + b - a + Between(p, a, b));
    }
  }

  lemma OtherUdpWord(p: Bytes, src: Ip, dest: Ip, at: nat, w: U16)
    requires ParseUdp(p, src, dest).Some? && WordAt(p, 6) != 0
    requires at % 2 == 0 && at + 2 <= |p| && at != 4 && w % 65535 != WordAt(p, at) % 65535
    ensures ParseUdp(Changed(p, at, w), src, dest) != None <==> (at == 6 && w == 0) || Unsummed(p, at, w)
  {
    hide Sum, ValidSum, PseudoSum, WordAt, Changed;
    var q, end := Changed(p, at, w), SpanEnd(p, WordAt(p, 4));
    var base := PseudoSum(src, dest, PROTOCOL_UDP, end);
    ChangedElsewhere(p, at, w, 4);
    if at == 6 { ChangedHere(p, at, w); } else { ChangedElsewhere(p, at, w, 6); }
    if at + 2 <= end {
      ChangedInFront(p, end, at, w);
      WordInFront(p, end, at);
      ChangedWordIsDetected(base, p[..end], at, w);
    } else if at >= end {
      ChangedBeyond(p, at, w, end);
    } else {
      ChangedLastByte(base, p, at, w);
    }
  }

  lemma ChangedBeyond(p: Bytes, at: nat, w: U16, end: nat)
    requires end <= at && at + 2 <= |p|
    ensures Changed(p, at, w)[..end] == p[..end]
  {
  }

  lemma ChangedLastByte(base: nat, p: Bytes, at: nat, w: U16)
    requires at % 2 == 0 && at + 2 <= |p| && ValidSum(base + Sum(p[..at + 1]))
    ensures ValidSum(base + Sum(Changed(p, at, w)[..at + 1])) <==> Hi(w) == p[at]
  {
    hide Sum, ValidSum, Hi, Lo;
    var q := Changed(p, at, w);
    assert p[..at + 1] == p[..at] + [p[at]] && q[..at + 1] == p[..at] + [Hi(w)];
    SumParts(p[..at], [p[at]]);
    SumParts(p[..at], [Hi(w)]);
    SumLast(p[at]);
    SumLast(Hi(w));
    var x: nat, y: nat := p[at], Hi(w);
    if x != y { ChangeIsDetected(base + Sum(p[..at]), x * 256, y * 256); }
  }

  lemma SumLast(b: Byte)
    ensures Sum([b]) == b * 256
  {
  }

  /** A UDP datagram with a checksum in which one word is changed so is accepted if and only if the word is its length
      and what moving the end gains balances the change, or the checksum became zero, which means that there is none, or
      the change is not summed. */
  lemma ChangedUdpIsRejected(p: Bytes, src: Ip, dest: Ip, at: nat, w: U16)
    requires ParseUdp(p, src, dest).Some? && WordAt(p, 6) != 0
    requires at % 2 == 0 && at + 2 <= |p| && w % 65535 != WordAt(p, at) % 65535
    ensures ParseUdp(Changed(p, at, w), src, dest) != None <==>
      if at == 4 then Recut(p, w) else (at == 6 && w == 0) || Unsummed(p, at, w)
  {
    hide ParseUdp, WordAt, Changed, Recut, Unsummed;
    if at == 4 { RecutUdp(p, src, dest, w); } else { OtherUdpWord(p, src, dest, at, w); }
  }

  /** Such a datagram, as the builder makes it: its four bytes are lost without notice when the length 12 is changed
      to 8. */
  lemma ShortenedUnnoticed(src: Ip, dest: Ip, srcPort: U16, destPort: U16)
    ensures var p := UdpDatagram(src, dest, srcPort, destPort, [0xff, 0xf7, 0, 0]);
            && ParseUdp(p, src, dest) == Some((UdpHeader(srcPort, destPort, 12), [0xff, 0xf7, 0, 0]))
            && |p| == 12 && ParseUdp(Changed(p, 4, 8), src, dest) == Some((UdpHeader(srcPort, destPort, 8), []))
  {
    hide Sum, ValidSum, PseudoSum, WordAt, Changed, TailSum, UdpDatagram;
    var p := UdpDatagram(src, dest, srcPort, destPort, [0xff, 0xf7, 0, 0]);
    UdpRoundTrip(src, dest, srcPort, destPort, [0xff, 0xf7, 0, 0]);
    UdpFields(src, dest, srcPort, destPort, [0xff, 0xf7, 0, 0]);
    assert p[..12] == p;
    TailOfFour(p);
    RecutUdp(p, src, dest, 8);
    ChangedHere(p, 4, 8);
    ChangedElsewhere(p, 4, 8, 0);
    ChangedElsewhere(p, 4, 8, 2);
    assert Changed(p, 4, 8)[8..8] == [];
  }

  lemma TailOfFour(p: Bytes)
    requires |p| == 12 && p[8..] == [0xff, 0xf7, 0, 0]
    ensures TailSum(p, 8) == 0xfff7
  {
    assert [0xff, 0xf7, 0, 0][2..] == [0 as nat, 0] && [0 as nat, 0][2..] == [];
  }

  lemma UdpFields(src: Ip, dest: Ip, srcPort: U16, destPort: U16, payload: Bytes)
    requires UDP_HEADER_SIZE + |payload| < 65536
    ensures var p := UdpDatagram(src, dest, srcPort, destPort, payload);
            && |p| == UDP_HEADER_SIZE + |payload| && p[UDP_HEADER_SIZE..] == payload
            && WordAt(p, 0) == srcPort && WordAt(p, 2) == destPort && WordAt(p, 4) == |p| && WordAt(p, 6) != 0
  {
    hide Hi, Lo, Flat, Word, Sum, Total, PseudoSum;
    var length := UDP_HEADER_SIZE + |payload|;
    var base := PseudoSum(src, dest, PROTOCOL_UDP, length);
    var ws := UdpWords(srcPort, destPort, length,
                       NonZero(Complement(base + Total(UdpWords(srcPort, destPort, length, 0)) + Sum(payload))));
    assert UdpDatagram(src, dest, srcPort, destPort, payload) == Flat(ws) + payload;
    FlatBytes(ws, payload, 0);
    FlatBytes(ws, payload, 1);
    FlatBytes(ws, payload, 2);
    FlatBytes(ws, payload, 3);
  }

  /** An IPv4 packet as the builder makes it. */
  function Ipv4Bytes(src: Ip, dest: Ip, protocol: Byte, id: U16, ttl: Byte, payload: Bytes): Bytes
    requires IPV4_HEADER_SIZE + |payload| < 65536
  {
    var total := IPV4_HEADER_SIZE + |payload|;
    var check := Complement(Total(IpWords(total, id, ttl, protocol, 0, src, dest)));
    Flat(IpWords(total, id, ttl, protocol, check, src, dest)) + payload
  }

  lemma Ipv4Fields(src: Ip, dest: Ip, protocol: Byte, id: U16, ttl: Byte, payload: Bytes)
    requires IPV4_HEADER_SIZE + |payload| < 65536
    ensures var p := Ipv4Bytes(src, dest, protocol, id, ttl, payload);
            && |p| == IPV4_HEADER_SIZE + |payload| && p[IPV4_HEADER_SIZE..] == payload && p[0] == 0x45
            && WordAt(p, 0) == 0x4500 && WordAt(p, 2) == |p|
            && ParseIpv4(p) == Some((Ipv4Header(|p|, id, 0x4000, ttl, protocol, src, dest), payload))
  {
    hide Hi, Lo, Flat, Word, Sum, Total, ParseIpv4, Complement;
    var total := IPV4_HEADER_SIZE + |payload|;
    var check := Complement(Total(IpWords(total, id, ttl, protocol, 0, src, dest)));
    var ws := IpWords(total, id, ttl, protocol, check, src, dest);
    Ipv4RoundTrip(total, id, ttl, protocol, src, dest, payload);
    FlatBytes(ws, payload, 0);
    FlatBytes(ws, payload, 1);
    FirstByte();
  }

  /** A packet whose ports sum to 0xfeff: with its first word changed from 0x4500 to 0x4600 it is still accepted, and
      the two ports are taken for header options and lost. */
  lemma ReheadedUnnoticed(src: Ip, dest: Ip, srcPort: U16, destPort: U16, id: U16, ttl: Byte, payload: Bytes)
    requires IPV4_HEADER_SIZE + UDP_HEADER_SIZE + |payload| < 65536 && srcPort + destPort == 0xfeff
    ensures var d := UdpDatagram(src, dest, srcPort, destPort, payload);
            && IPV4_HEADER_SIZE + |d| < 65536
            && var p := Ipv4Bytes(src, dest, PROTOCOL_UDP, id, ttl, d);
            && ParseIpv4(p).Some? && ParseIpv4(p).value.1 == d
            && ParseIpv4(Changed(p, 0, 0x4600)).Some? && ParseIpv4(Changed(p, 0, 0x4600)).value.1 == d[4..]
  {
    hide Sum, ValidSum, WordAt, UdpDatagram, Ipv4Bytes, Lo;
    var d := UdpDatagram(src, dest, srcPort, destPort, payload);
    UdpFields(src, dest, srcPort, destPort, payload);
    var p := Ipv4Bytes(src, dest, PROTOCOL_UDP, id, ttl, d);
    Ipv4Fields(src, dest, PROTOCOL_UDP, id, ttl, d);
    PortsSum(p, d);
    assert Reheaded(p, 0x4600);
    ChangedFirstWord(p, 0x4600);
    var q := Changed(p, 0, 0x4600);
    ChangedElsewhere(p, 0, 0x4600, 2);
    assert q[0] == 0x46 && q[24..|q|] == p[20..][4..];
  }

  lemma PortsSum(p: Bytes, d: Bytes)
    requires |p| >= 24 && p[20..] == d
    ensures Between(p, 20, 24) == WordAt(d, 0) + WordAt(d, 2)
  {
    hide Word;
    var s := p[..24][20..];
    assert s == [d[0], d[1]] + [d[2], d[3]];
    SumParts([d[0], d[1]], [d[2], d[3]]);
    SumTwo(d[0], d[1]);
    SumTwo(d[2], d[3]);
    assert Between(p, 20, 24) == Sum(s);
  }

  // ---------------------------------------------------------------- whole frames

  function UdpFrame(srcMac: Mac, destMac: Mac, src: Ip, dest: Ip, srcPort: U16, destPort: U16, payload: Bytes): Bytes {
    Ipv4Packet(srcMac, destMac, src, dest, PROTOCOL_UDP, srcPort, 64,
      UdpDatagram(src, dest, srcPort, destPort, payload))
  }

  function TcpFrame(srcMac: Mac, destMac: Mac, src: Ip, dest: Ip, h: TcpHeader, payload: Bytes): Bytes {
    Ipv4Packet(srcMac, destMac, src, dest, PROTOCOL_TCP, Low(h.num), 64, TcpSegment(src, dest, h, payload))
  }

  /** What a receiver makes of a frame, layer by layer. */
  datatype Received = Received(eth: EthernetHeader, ip: Ipv4Header, body: Bytes)

  function Receive(frame: Bytes): Option<Received> {
    var eth := ParseEthernet(frame);
    if eth.None? || eth.value.0.kind != ETHERTYPE_IPV4 then None else
      var ip := ParseIpv4(eth.value.1);
      if ip.None? then None else Some(Received(eth.value.0, ip.value.0, ip.value.1))
  }

  lemma PacketRoundTrip(srcMac: Mac, destMac: Mac, src: Ip, dest: Ip, protocol: Byte, id: U16, ttl: Byte,
                        payload: Bytes)
    requires IPV4_HEADER_SIZE + |payload| < 65536
    ensures Receive(Ipv4Packet(srcMac, destMac, src, dest, protocol, id, ttl, payload)) ==
      Some(Received(EthernetHeader(destMac, srcMac, ETHERTYPE_IPV4),
                    Ipv4Header(IPV4_HEADER_SIZE + |payload|, id, 0x4000, ttl, protocol, src, dest), payload))
  {
    hide Flat, Total, ParseIpv4, ParseEthernet, Be16;
    var total := IPV4_HEADER_SIZE + |payload|;
    var check := Complement(Total(IpWords(total, id, ttl, protocol, 0, src, dest)));
    EthernetRoundTrip(destMac, srcMac, ETHERTYPE_IPV4,
      Flat(IpWords(total, id, ttl, protocol, check, src, dest)) + payload);
    Ipv4RoundTrip(total, id, ttl, protocol, src, dest, payload);
  }

  /** Building a UDP frame and parsing it through all three layers gives back every field and the payload. */
  lemma UdpFrameRoundTrip(srcMac: Mac, destMac: Mac, src: Ip, dest: Ip, srcPort: U16, destPort: U16, payload: Bytes)
    requires IPV4_HEADER_SIZE + UDP_HEADER_SIZE + |payload| < 65536
    ensures var r := Receive(UdpFrame(srcMac, destMac, src, dest, srcPort, destPort, payload));
      && r.Some? && r.value.eth == EthernetHeader(destMac, srcMac, ETHERTYPE_IPV4)
      && r.value.ip.protocol == PROTOCOL_UDP && r.value.ip.src == src && r.value.ip.dest == dest
      && ParseUdp(r.value.body, src, dest) == Some((UdpHeader(srcPort, destPort, UDP_HEADER_SIZE + |payload|), payload))
  {
    hide Receive, Ipv4Packet, ParseUdp;
    var d := UdpDatagram(src, dest, srcPort, destPort, payload);
    assert |d| == UDP_HEADER_SIZE + |payload|;
    PacketRoundTrip(srcMac, destMac, src, dest, PROTOCOL_UDP, srcPort, 64, d);
    UdpRoundTrip(src, dest, srcPort, destPort, payload);
  }

  lemma TcpFrameRoundTrip(srcMac: Mac, destMac: Mac, src: Ip, dest: Ip, h: TcpHeader, payload: Bytes)
    requires IPV4_HEADER_SIZE + TCP_HEADER_SIZE + |payload| < 65536
    ensures var r := Receive(TcpFrame(srcMac, destMac, src, dest, h, payload));
      && r.Some? && r.value.eth == EthernetHeader(destMac, srcMac, ETHERTYPE_IPV4)
      && r.value.ip.protocol == PROTOCOL_TCP && r.value.ip.src == src && r.value.ip.dest == dest
      && ParseTcp(r.value.body, src, dest) == Some((h, payload))
  {
    hide Receive, Ipv4Packet, ParseTcp;
    var d := TcpSegment(src, dest, h, payload);
    assert |d| == TCP_HEADER_SIZE + |payload|;
    PacketRoundTrip(srcMac, destMac, src, dest, PROTOCOL_TCP, Low(h.num), 64, d);
    TcpRoundTrip(src, dest, h, payload);
  }

  // ---------------------------------------------------------------- the builders

  method WriteU16(buf: Bytes, at: nat, v: U16) returns (out: Bytes)
    requires at + 2 <= |buf|
    ensures out == Changed(buf, at, v)
  {
    out := buf[..at] + Be16(v) + buf[at + 2..];
  }

  /** One word of a header that is a list of words so far. */
  method PutWord(buf: Bytes, i: nat, v: U16, ghost ws: seq<U16>, ghost rest: Bytes) returns (out: Bytes)
    requires i < |ws| && buf == Flat(ws) + rest
    ensures out == Flat(ws[i := v]) + rest
  {
    hide Flat, Be16;
    FlatSet(ws, rest, i, v);
    out := WriteU16(buf, 2 * i, v);
  }

  lemma {:induction false} FlatZeros(n: nat)
    ensures Flat(seq(n, _ => 0)) == seq(2 * n, _ => 0)
    decreases n
  {
    if n > 0 {
      var ws: seq<U16> := seq(n, _ => 0);
      FlatZeros(n - 1);
      assert ws[..n - 1] == seq(n - 1, _ => 0);
    }
  }

  method BuildIpv4Packet(srcMac: Mac, destMac: Mac, src: Ip, dest: Ip, protocol: Byte, id: U16, ttl: Byte,
                         payload: Bytes)
    returns (frame: Bytes)
    ensures frame == Ipv4Packet(srcMac, destMac, src, dest, protocol, id, ttl, payload)
  {
    hide Flat, Be16, Word, Total, Sum, Fold;
    var total := (IPV4_HEADER_SIZE + |payload|) % 65536;
    frame := destMac + srcMac + Be16(ETHERTYPE_IPV4);
    var hdr: Bytes := seq(20, _ => 0);
    ghost var ws: seq<U16> := seq(10, _ => 0);
    FlatZeros(10);
    hdr := PutWord(hdr, 0, 0x4500, ws, []);
    ws := ws[0 := 0x4500];
    hdr := PutWord(hdr, 1, total, ws, []);
    ws := ws[1 := total];
    hdr := PutWord(hdr, 2, id, ws, []);
    ws := ws[2 := id];
    hdr := PutWord(hdr, 3, 0x4000, ws, []);
    ws := ws[3 := 0x4000];
    hdr := PutWord(hdr, 4, Word(ttl, protocol), ws, []);
    ws := ws[4 := Word(ttl, protocol)];
    hdr := PutWord(hdr, 6, Word(src[0], src[1]), ws, []);
    ws := ws[6 := Word(src[0], src[1])];
    hdr := PutWord(hdr, 7, Word(src[2], src[3]), ws, []);
    ws := ws[7 := Word(src[2], src[3])];
    hdr := PutWord(hdr, 8, Word(dest[0], dest[1]), ws, []);
    ws := ws[8 := Word(dest[0], dest[1])];
    hdr := PutWord(hdr, 9, Word(dest[2], dest[3]), ws, []);
    ws := ws[9 := Word(dest[2], dest[3])];
    assert ws == IpWords(total, id, ttl, protocol, 0, src, dest);
    var sum := AddOnesComplementSum(0, hdr);
    SumFlatThen(ws, []);
    SumNothing();
    var folded := FoldOnesComplementSum(sum);
    var check := 65535 - folded;
    hdr := PutWord(hdr, 5, check, ws, []);
    assert ws[5 := check] == IpWords(total, id, ttl, protocol, check, src, dest);
    frame := frame + (hdr + payload);
  }

  /** The sum over the pseudo header and what follows. */
  method TransportSum(src: Ip, dest: Ip, protocol: Byte, body: Bytes) returns (sum: nat)
    ensures sum == PseudoSum(src, dest, protocol, |body|) + Sum(body)
  {
    hide Sum, Be16;
    sum := AddOnesComplementSum(0, src);
    sum := AddOnesComplementSum(sum, dest);
    sum := AddOnesComplementSum(sum, [0, protocol]);
    sum := AddOnesComplementSum(sum, Be16(|body| % 65536));
    sum := AddOnesComplementSum(sum, body);
  }

  method BuildUdpFrame(srcMac: Mac, destMac: Mac, src: Ip, dest: Ip, srcPort: U16, destPort: U16, payload: Bytes)
    returns (frame: Bytes)
    ensures frame == UdpFrame(srcMac, destMac, src, dest, srcPort, destPort, payload)
  {
    hide Flat, Be16, Total, Sum, Fold, PseudoSum, Ipv4Packet;
    var length := UDP_HEADER_SIZE + |payload|;
    var buf := Be16(srcPort) + Be16(destPort) + Be16(length % 65536) + [0, 0] + payload;
    ghost var ws := UdpWords(srcPort, destPort, length % 65536, 0);
    UdpHeaderBytes(srcPort, destPort, length % 65536);
    var sum := TransportSum(src, dest, PROTOCOL_UDP, buf);
    SumFlatThen(ws, payload);
    var folded := FoldOnesComplementSum(sum);
    var check := if 65535 - folded == 0 then 65535 else 65535 - folded;
    buf := PutWord(buf, 3, check, ws, payload);
    assert ws[3 := check] == UdpWords(srcPort, destPort, length % 65536, check);
    frame := BuildIpv4Packet(srcMac, destMac, src, dest, PROTOCOL_UDP, srcPort, 64, buf);
  }

  lemma UdpHeaderBytes(a: U16, b: U16, c: U16)
    ensures Flat(UdpWords(a, b, c, 0)) == Be16(a) + Be16(b) + Be16(c) + [0, 0]
  {
    hide Flat;
    FlatNone();
    FlatSnoc([], a);
    assert [] + [a] == [a];
    FlatSnoc([a], b);
    assert [a] + [b] == [a, b];
    FlatSnoc([a, b], c);
    assert [a, b] + [c] == [a, b, c];
    FlatSnoc([a, b, c], 0);
    assert [a, b, c] + [0] == UdpWords(a, b, c, 0);
  }

  lemma FlatNone()
    ensures Flat([]) == []
  {
  }

  method BuildTcpFrame(srcMac: Mac, destMac: Mac, src: Ip, dest: Ip, h: TcpHeader, payload: Bytes)
    returns (frame: Bytes)
    requires h.urgent == 0
    ensures frame == TcpFrame(srcMac, destMac, src, dest, h, payload)
  {
    hide Flat, Be16, Total, Sum, Fold, PseudoSum, Ipv4Packet, High, Low, Word;
    var buf := Be16(h.srcPort) + Be16(h.destPort) + (Be16(High(h.num)) + Be16(Low(h.num))) +
      (Be16(High(h.ack)) + Be16(Low(h.ack)));
    buf := buf + [0x50] + [h.flags] + Be16(h.window) + [0, 0] + [0, 0] + payload;
    ghost var ws := TcpWords(h, 0);
    TcpHeaderBytes(h, buf, payload);
    var sum := TransportSum(src, dest, PROTOCOL_TCP, buf);
    SumFlatThen(ws, payload);
    var folded := FoldOnesComplementSum(sum);
    var check := if 65535 - folded == 0 then 65535 else 65535 - folded;
    buf := PutWord(buf, 8, check, ws, payload);
    assert ws[8 := check] == TcpWords(h, check);
    frame := BuildIpv4Packet(srcMac, destMac, src, dest, PROTOCOL_TCP, Low(h.num), 64, buf);
  }

  lemma TcpHeaderBytes(h: TcpHeader, buf: Bytes, payload: Bytes)
    requires h.urgent == 0
    requires buf ==
      Be16(h.srcPort) + Be16(h.destPort) + (Be16(High(h.num)) + Be16(Low(h.num))) +
      (Be16(High(h.ack)) + Be16(Low(h.ack)))
                    + [0x50] + [h.flags] + Be16(h.window) + [0, 0] + [0, 0] + payload
    ensures buf == Flat(TcpWords(h, 0)) + payload
  {
    hide Flat, High, Low, Hi, Lo, Word;
    var ws := TcpWords(h, 0);
    var t := Flat(ws) + payload;
    FlatBytes(ws, payload, 0);
    FlatBytes(ws, payload, 1);
    FlatBytes(ws, payload, 2);
    FlatBytes(ws, payload, 3);
    FlatBytes(ws, payload, 4);
    FlatBytes(ws, payload, 5);
    FlatBytes(ws, payload, 6);
    FlatBytes(ws, payload, 7);
    FlatBytes(ws, payload, 8);
    FlatBytes(ws, payload, 9);
    BytesOfWord(0x50, h.flags);
    BytesOfZero();
    assert |buf| == |t| == 20 + |payload|;
    assert buf[20..] == payload && t[20..] == payload;
    assert buf[..20] == t[..20];
  }

  lemma BytesOfZero()
    ensures Hi(0) == 0 && Lo(0) == 0
  {
  }
}
