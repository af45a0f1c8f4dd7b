/** Ethernet, IPv4, UDP and TCP frames (rust/kernel/src/net.rs): building and parsing are inverse. */
module NetFrames {
  import opened NetChecksum
  import opened Options

  type Mac = s: Bytes | |s| == 6 witness [0, 0, 0, 0, 0, 0]
  type Ip = s: Bytes | |s| == 4 witness [0, 0, 0, 0]
  type U32 = n: nat | n < 0x1_0000_0000

  const ETHERTYPE_IPV4: U16 := 0x0800
  const PROTOCOL_UDP: Byte := 17
  const PROTOCOL_TCP: Byte := 6
  const IPV4_HEADER_SIZE: nat := 20
  const UDP_HEADER_SIZE: nat := 8
  const TCP_HEADER_SIZE: nat := 20

  datatype EthernetHeader = EthernetHeader(dest: Mac, src: Mac, kind: U16)

  datatype Ipv4Header = Ipv4Header(total: U16, id: U16, fragment: U16, ttl: Byte, protocol: Byte, src: Ip, dest: Ip)

  datatype UdpHeader = UdpHeader(srcPort: U16, destPort: U16, length: U16)

  datatype TcpHeader = TcpHeader(srcPort: U16, destPort: U16, num: U32, ack: U32, flags: Byte, window: U16, urgent: U16)

  function WordAt(s: Bytes, at: nat): U16
    requires at + 2 <= |s|
  {
    Word(s[at], s[at + 1])
  }

  function DwordAt(s: Bytes, at: nat): U32
    requires at + 4 <= |s|
  {
    WordAt(s, at) * 65536 + WordAt(s, at + 2)
  }

  // ---------------------------------------------------------------- parsing

  function ParseEthernet(frame: Bytes): Option<(EthernetHeader, Bytes)> {
    if |frame| < 14 then None else Some((EthernetHeader(frame[..6], frame[6..12], WordAt(frame, 12)), frame[14..]))
  }

  function ParseIpv4(p: Bytes): Option<(Ipv4Header, Bytes)> {
    if |p| < IPV4_HEADER_SIZE then None else
      var first: nat := p[0];
      var length := (first % 16) * 4;
      if first / 16 != 4 || length < IPV4_HEADER_SIZE || |p| < length || !ValidSum(Sum(p[..length])) then None else
        var total: nat := WordAt(p, 2);
        var end := if total < |p| then total else |p|;
        if end < length then None else
          Some((Ipv4Header(WordAt(p, 2), WordAt(p, 4), WordAt(p, 6), p[8], p[9], p[12..16], p[16..20]), p[length..end]))
  }

  /** The pseudo header: addresses, protocol and the length of what follows. */
  function PseudoSum(src: Ip, dest: Ip, protocol: Byte, length: nat): nat {
    Sum(src) + Sum(dest) + Sum([0, protocol]) + Sum(Be16(length % 65536))
  }

  function ParseUdp(p: Bytes, src: Ip, dest: Ip): Option<(UdpHeader, Bytes)> {
    if |p| < UDP_HEADER_SIZE then None else
      var length: nat := WordAt(p, 4);
      var end := if length < |p| then length else |p|;
      if end < UDP_HEADER_SIZE then None
      else if WordAt(p, 6) != 0 && !ValidSum(PseudoSum(src, dest, PROTOCOL_UDP, end) + Sum(p[..end])) then None
      else Some((UdpHeader(WordAt(p, 0), WordAt(p, 2), WordAt(p, 4)), p[UDP_HEADER_SIZE..end]))
  }

  function ParseTcp(p: Bytes, src: Ip, dest: Ip): Option<(TcpHeader, Bytes)> {
    if |p| < TCP_HEADER_SIZE then None else
      var first: nat := p[12];
      var offset := (first / 16) * 4;
      if offset < TCP_HEADER_SIZE || |p| < offset || !ValidSum(PseudoSum(src, dest, PROTOCOL_TCP, |p|) + Sum(p))
        then None
      else Some((TcpHeader(WordAt(p, 0), WordAt(p, 2), DwordAt(p, 4), DwordAt(p, 8), p[13], WordAt(p, 14),
        WordAt(p, 18)), p[offset..]))
  }

  // ---------------------------------------------------------------- headers as words

  function IpWords(total: U16, id: U16, ttl: Byte, protocol: Byte, check: U16, src: Ip, dest: Ip): (ws: seq<U16>)
    ensures |ws| == 10
  {
    [0x4500, total, id, 0x4000, Word(ttl, protocol), check, Word(src[0], src[1]), Word(src[2], src[3]),
      Word(dest[0], dest[1]), Word(dest[2], dest[3])]
  }

  function UdpWords(srcPort: U16, destPort: U16, length: U16, check: U16): (ws: seq<U16>)
    ensures |ws| == 4
  {
    [srcPort, destPort, length, check]
  }

  function High(v: U32): U16 { v / 65536 }

  function Low(v: U32): U16 { v % 65536 }

  function TcpWords(h: TcpHeader, check: U16): (ws: seq<U16>)
    ensures |ws| == 10
  {
    [h.srcPort, h.destPort, High(h.num), Low(h.num), High(h.ack), Low(h.ack), Word(0x50, h.flags), h.window, check,
      h.urgent]
  }

  /** Zero is written as all ones, so that it does not read as "no checksum". */
  function NonZero(c: U16): U16 { if c == 0 then 65535 else c }

  function Ipv4Packet(srcMac: Mac, destMac: Mac, src: Ip, dest: Ip, protocol: Byte, id: U16, ttl: Byte,
                      payload: Bytes): Bytes {
    var total := (IPV4_HEADER_SIZE + |payload|) % 65536;
    var check := Complement(Total(IpWords(total, id, ttl, protocol, 0, src, dest)));
    destMac + srcMac + Be16(ETHERTYPE_IPV4) + (Flat(IpWords(total, id, ttl, protocol, check, src, dest)) + payload)
  }

  function UdpDatagram(src: Ip, dest: Ip, srcPort: U16, destPort: U16, payload: Bytes): Bytes {
    var length := UDP_HEADER_SIZE + |payload|;
    var sum := PseudoSum(src, dest, PROTOCOL_UDP, length) + Total(UdpWords(srcPort, destPort, length % 65536, 0)) +
      Sum(payload);
    Flat(UdpWords(srcPort, destPort, length % 65536, NonZero(Complement(sum)))) + payload
  }

  function TcpSegment(src: Ip, dest: Ip, h: TcpHeader, payload: Bytes): Bytes {
    var sum := PseudoSum(src, dest, PROTOCOL_TCP, TCP_HEADER_SIZE + |payload|) + Total(TcpWords(h, 0)) + Sum(payload);
    Flat(TcpWords(h, NonZero(Complement(sum)))) + payload
  }

  // ---------------------------------------------------------------- what is built is read back

  /** A checksum written into a zero word makes the whole valid. */
  lemma FilledIsValid(base: nat, ws: seq<U16>, i: nat, c: U16, rest: Bytes)
    requires i < |ws| && ws[i] == 0
    requires c == Complement(base + Total(ws) + Sum(rest)) || c == NonZero(Complement(base + Total(ws) + Sum(rest)))
    ensures ValidSum(base + Sum(Flat(ws[i := c]) + rest))
  {
    hide ValidSum, Flat, Total, Sum;
    SumFlatThen(ws[i := c], rest);
    TotalSet(ws, i, c);
    ComplementIsValid(base + Total(ws) + Sum(rest), c);
  }

  lemma BytesOfWord(hi: Byte, lo: Byte)
    ensures Hi(Word(hi, lo)) == hi && Lo(Word(hi, lo)) == lo
  {
  }

  lemma IpIsWords(ip: Ip)
    ensures Be16(Word(ip[0], ip[1])) + Be16(Word(ip[2], ip[3])) == ip
  {
    BytesOfWord(ip[0], ip[1]);
    BytesOfWord(ip[2], ip[3]);
  }

  lemma FlatBytes(ws: seq<U16>, rest: Bytes, i: nat)
    requires i < |ws|
    ensures var s := Flat(ws) + rest; s[2 * i] == Hi(ws[i]) && s[2 * i + 1] == Lo(ws[i]) && WordAt(s, 2 * i) == ws[i]
  {
    hide Hi, Lo, Flat, Word;
    FlatAt(ws, i);
    FlatWord(ws, i);
  }

  lemma PairAt(s: Bytes, at: nat, a: U16, b: U16)
    requires at + 4 <= |s| && s[at] == Hi(a) && s[at + 1] == Lo(a) && s[at + 2] == Hi(b) && s[at + 3] == Lo(b)
    ensures s[at..at + 4] == Be16(a) + Be16(b)
  {
    hide Hi, Lo;
  }

  lemma Ipv4RoundTrip(total: U16, id: U16, ttl: Byte, protocol: Byte, src: Ip, dest: Ip, payload: Bytes)
    requires total == IPV4_HEADER_SIZE + |payload|
    ensures var check := Complement(Total(IpWords(total, id, ttl, protocol, 0, src, dest)));
      ParseIpv4(Flat(IpWords(total, id, ttl, protocol, check, src, dest)) + payload) ==
      Some((Ipv4Header(total, id, 0x4000, ttl, protocol, src, dest), payload))
  {
    hide Hi, Lo, Flat, Word, Sum, Total, ValidSum;
    var ws0 := IpWords(total, id, ttl, protocol, 0, src, dest);
    var check := Complement(Total(ws0));
    var ws := IpWords(total, id, ttl, protocol, check, src, dest);
    var p := Flat(ws) + payload;
    assert ws == ws0[5 := check];
    SumNothing();
    FilledIsValid(0, ws0, 5, check, []);
    assert p[..20] == Flat(ws) + [];
    FlatBytes(ws, payload, 0);
    FlatBytes(ws, payload, 1);
    FlatBytes(ws, payload, 2);
    FlatBytes(ws, payload, 3);
    FlatBytes(ws, payload, 4);
    FlatBytes(ws, payload, 6);
    FlatBytes(ws, payload, 7);
    FlatBytes(ws, payload, 8);
    FlatBytes(ws, payload, 9);
    PairAt(p, 12, ws[6], ws[7]);
    PairAt(p, 16, ws[8], ws[9]);
    IpIsWords(src);
    IpIsWords(dest);
    BytesOfWord(ttl, protocol);
    FirstByte();
    assert p[20..|p|] == payload;
  }

  lemma FirstByte()
    ensures Hi(0x4500) == 0x45
  {
  }

  lemma EthernetRoundTrip(dest: Mac, src: Mac, kind: U16, payload: Bytes)
    ensures ParseEthernet(dest + src + Be16(kind) + payload) == Some((EthernetHeader(dest, src, kind), payload))
  {
    hide Hi, Lo, Word;
    var f := dest + src + Be16(kind) + payload;
    WordBe16(kind);
    assert f[..6] == dest && f[6..12] == src && f[14..] == payload;
    assert f[12] == Hi(kind) && f[13] == Lo(kind);
  }

  lemma UdpRoundTrip(src: Ip, dest: Ip, srcPort: U16, destPort: U16, payload: Bytes)
    requires UDP_HEADER_SIZE + |payload| < 65536
    ensures ParseUdp(UdpDatagram(src, dest, srcPort, destPort, payload), src, dest) ==
      Some((UdpHeader(srcPort, destPort, UDP_HEADER_SIZE + |payload|), payload))
  {
    hide Hi, Lo, Flat, Word, Sum, Total, ValidSum, PseudoSum;
    var length := UDP_HEADER_SIZE + |payload|;
    var base := PseudoSum(src, dest, PROTOCOL_UDP, length);
    var ws0 := UdpWords(srcPort, destPort, length, 0);
    var c := NonZero(Complement(base + Total(ws0) + Sum(payload)));
    var ws := UdpWords(srcPort, destPort, length, c);
    assert ws == ws0[3 := c];
    FilledIsValid(base, ws0, 3, c, payload);
    var p := Flat(ws) + payload;
    assert p == UdpDatagram(src, dest, srcPort, destPort, payload);
    FlatBytes(ws, payload, 0);
    FlatBytes(ws, payload, 1);
    FlatBytes(ws, payload, 2);
    assert p[..length] == p && p[UDP_HEADER_SIZE..length] == payload;
  }

  lemma JoinHalves(v: U32)
    ensures High(v) * 65536 + Low(v) == v
  {
  }

  lemma TcpRoundTrip(src: Ip, dest: Ip, h: TcpHeader, payload: Bytes)
    requires TCP_HEADER_SIZE + |payload| < 65536
    ensures ParseTcp(TcpSegment(src, dest, h, payload), src, dest) == Some((h, payload))
  {
    hide Hi, Lo, Flat, Word, Sum, Total, ValidSum, PseudoSum, High, Low;
    var base := PseudoSum(src, dest, PROTOCOL_TCP, TCP_HEADER_SIZE + |payload|);
    var ws0 := TcpWords(h, 0);
    var c := NonZero(Complement(base + Total(ws0) + Sum(payload)));
    var ws := TcpWords(h, c);
    assert ws == ws0[8 := c];
    FilledIsValid(base, ws0, 8, c, payload);
    var p := Flat(ws) + payload;
    TcpFields(h, c, payload);
    assert p[20..] == payload;
  }

  lemma TcpFields(h: TcpHeader, c: U16, payload: Bytes)
    ensures var p := Flat(TcpWords(h, c)) + payload;
      && WordAt(p, 0) == h.srcPort && WordAt(p, 2) == h.destPort && DwordAt(p, 4) == h.num && DwordAt(p, 8) == h.ack
      && p[12] == 0x50 && p[13] == h.flags && WordAt(p, 14) == h.window && WordAt(p, 18) == h.urgent
  {
    hide Hi, Lo, Flat, Word, High, Low;
    var ws := TcpWords(h, c);
    FlatBytes(ws, payload, 0);
    FlatBytes(ws, payload, 1);
    FlatBytes(ws, payload, 2);
    FlatBytes(ws, payload, 3);
    FlatBytes(ws, payload, 4);
    FlatBytes(ws, payload, 5);
    FlatBytes(ws, payload, 6);
    FlatBytes(ws, payload, 7);
    FlatBytes(ws, payload, 9);
    BytesOfWord(0x50, h.flags);
    JoinHalves(h.num);
    JoinHalves(h.ack);
  }
}
