/** One TCP endpoint (rust/kernel/src/network.rs): receiving a segment, sending in chunks, reading and closing. */
module Tcp {
  type Bytes = seq<bv8>

  /** Sequence numbers wrap at 2^32. */
  const WRAP: nat := 0x1_0000_0000
  const MAX_TCP_CHUNK_SIZE: nat := 1400

  type Seq32 = n: nat | n < WRAP

  function Plus(a: Seq32, n: nat): Seq32 { (a + n) % WRAP }

  datatype TcpState = Established | CloseWait | FinWait1 | FinWait2 | Closing | TimeWait | LastAck | Closed | Reset

  datatype Segment = Segment(num: Seq32, ack: Seq32, isAck: bool, fin: bool, rst: bool, data: Bytes)

  datatype Endpoint = Endpoint(state: TcpState, num: Seq32, ack: Seq32, una: Seq32, rx: Bytes, rxClosed: bool)

  function AckOf(e: Endpoint): Segment { Segment(e.num, e.ack, true, false, false, []) }

  function FinOf(e: Endpoint): Segment { Segment(e.num, e.ack, true, true, false, []) }

  datatype Reaction = Reaction(e: Endpoint, replies: seq<Segment>)

  /** Data on an open connection: taken when it is the next expected, acknowledged again when it is old. */
  function TakeData(e: Endpoint, s: Segment): Reaction {
    if s.data == [] then Reaction(e, [])
    else if s.num == e.ack then
      var e' := e.(rx := e.rx + s.data, ack := Plus(e.ack, |s.data|));
      Reaction(e', [AckOf(e')])
    else if s.num < e.ack then Reaction(e, [AckOf(e)])
    else Reaction(e, [])
  }

  function TakeFin(e: Endpoint, s: Segment): Reaction {
    if s.fin && e.state.Established? then
      var e' := e.(ack := Plus(e.ack, 1), rxClosed := true, state := CloseWait);
      Reaction(e', [AckOf(e')])
    else Reaction(e, [])
  }

  predicate AcksOurFin(e: Endpoint, s: Segment) { s.isAck && s.ack == e.num }

  /** What one segment does to an endpoint, and what is sent back. */
  function OnSegment(e: Endpoint, s: Segment): Reaction {
    if s.rst then Reaction(e.(state := Reset), []) else
      match e.state
      case Established | CloseWait =>
        var r1 := TakeData(e, s);
        var r2 := TakeFin(if s.isAck then r1.e.(una := s.ack) else r1.e, s);
        Reaction(r2.e, r1.replies + r2.replies)
      case FinWait1 =>
        if s.fin then
          var e' := e.(ack := Plus(s.num, 1), state := if AcksOurFin(e, s) then TimeWait else Closing);
          Reaction(e', [AckOf(e')])
        else if AcksOurFin(e, s) then Reaction(e.(state := FinWait2), [])
        else Reaction(e, [])
      case FinWait2 =>
        if s.fin then
          var e' := e.(ack := Plus(s.num, 1), state := TimeWait);
          Reaction(e', [AckOf(e')])
        else Reaction(e, [])
      case Closing => Reaction(if AcksOurFin(e, s) then e.(state := TimeWait) else e, [])
      case LastAck => Reaction(if s.isAck then e.(state := Closed) else e, [])
      case _ => Reaction(e, [])
  }

  /** The segments a write is cut into. */
  function Chunks(e: Endpoint, data: Bytes): seq<Segment>
    decreases |data|
  {
    if data == [] then []
    else if |data| <= MAX_TCP_CHUNK_SIZE then [Segment(e.num, e.ack, true, false, false, data)]
    else
      var rest := e.(num := Plus(e.num, MAX_TCP_CHUNK_SIZE));
      [Segment(e.num, e.ack, true, false, false, data[..MAX_TCP_CHUNK_SIZE])] + Chunks(rest, data[MAX_TCP_CHUNK_SIZE..])
  }

  lemma NoChunks(e: Endpoint, data: Bytes)
    requires data == []
    ensures Chunks(e, data) == []
  {
  }

  lemma ChunksNext(e: Endpoint, data: Bytes, len: nat)
    requires data != [] && len == if |data| < MAX_TCP_CHUNK_SIZE then |data| else MAX_TCP_CHUNK_SIZE
    ensures Chunks(e, data) ==
      [Segment(e.num, e.ack, true, false, false, data[..len])] + Chunks(e.(num := Plus(e.num, len)), data[len..])
  {
    if |data| <= MAX_TCP_CHUNK_SIZE { assert data[..len] == data && data[len..] == []; }
  }

  /** The data of a list of segments, in order. */
  function Payload(out: seq<Segment>): Bytes { if out == [] then [] else out[0].data + Payload(out[1..]) }

  /** The chunks carry the data, whole and in order, each at most a chunk's worth and none empty. */
  lemma {:induction false} ChunksAreTheData(e: Endpoint, data: Bytes)
    ensures Payload(Chunks(e, data)) == data
    ensures forall i :: 0 <= i < |Chunks(e, data)| ==> 0 < |Chunks(e, data)[i].data| <= MAX_TCP_CHUNK_SIZE
    decreases |data|
  {
    if data != [] {
      var len := if |data| < MAX_TCP_CHUNK_SIZE then |data| else MAX_TCP_CHUNK_SIZE;
      var rest := e.(num := Plus(e.num, len));
      ChunksNext(e, data, len);
      ChunksAreTheData(rest, data[len..]);
      assert Chunks(e, data)[1..] == Chunks(rest, data[len..]) && data[..len] + data[len..] == data;
      assert forall i :: 0 < i < |Chunks(e, data)| ==> Chunks(e, data)[i] == Chunks(rest, data[len..])[i - 1];
    }
  }

  function OnSend(e: Endpoint, data: Bytes): Reaction {
    Reaction(e.(num := Plus(e.num, |data|)), Chunks(e, data))
  }

  /** Closing an open connection sends a FIN. */
  function OnClose(e: Endpoint): Reaction {
    match e.state
    case Established => Reaction(e.(num := Plus(e.num, 1), state := FinWait1), [FinOf(e)])
    case CloseWait => Reaction(e.(num := Plus(e.num, 1), state := LastAck), [FinOf(e)])
    case _ => Reaction(e, [])
  }

  lemma PlusPlus(a: Seq32, m: nat, n: nat)
    ensures Plus(Plus(a, m), n) == Plus(a, m + n)
  {
    var q := (a + m) / WRAP;
    assert a + m == q * WRAP + (a + m) % WRAP;
    assert (a + m + n) % WRAP == ((a + m) % WRAP + n) % WRAP;
  }

  // ---------------------------------------------------------------- the socket

  datatype Sent = Ok(count: nat) | BrokenPipe | NotConnected

  datatype Received = Data(bytes: Bytes) | EndOfStream | ConnectionReset | WouldBlock

  class TcpSocket {
    var state: TcpState
    var num: Seq32
    var ack: Seq32
    var una: Seq32
    var rx: Bytes
    var rxClosed: bool

    ghost function Value(): Endpoint
      reads this
    {
      Endpoint(state, num, ack, una, rx, rxClosed)
    }

    constructor (num: Seq32, ack: Seq32)
      ensures Value() == Endpoint(Established, num, ack, num, [], false)
    {
      state, this.num, this.ack, una, rx, rxClosed := Established, num, ack, num, [], false;
    }

    method Acknowledge(replies: seq<Segment>) returns (out: seq<Segment>)
      ensures out == replies + [AckOf(Value())]
    {
      out := replies + [Segment(num, ack, true, false, false, [])];
    }

    method HandleSegment(s: Segment) returns (replies: seq<Segment>)
      modifies this
      ensures Value() == OnSegment(old(Value()), s).e && replies == OnSegment(old(Value()), s).replies
    {
      replies := [];
      if s.rst {
        state := Reset;
        return;
      }
      match state
      case Established | CloseWait =>
        replies := HandleOpen(s);
      case FinWait1 =>
        var finAcked := s.isAck && s.ack == num;
        if s.fin {
          ack := Plus(s.num, 1);
          state := if finAcked then TimeWait else Closing;
          replies := Acknowledge(replies);
        } else if finAcked {
          state := FinWait2;
        }
      case FinWait2 =>
        if s.fin {
          ack := Plus(s.num, 1);
          state := TimeWait;
          replies := Acknowledge(replies);
        }
      case Closing =>
        if s.isAck && s.ack == num { state := TimeWait; }
      case LastAck =>
        if s.isAck { state := Closed; }
      case _ =>
    }

    method HandleOpen(s: Segment) returns (replies: seq<Segment>)
      requires !s.rst && (state.Established? || state.CloseWait?)
      modifies this
      ensures Value() == OnSegment(old(Value()), s).e && replies == OnSegment(old(Value()), s).replies
    {
      replies := [];
      if s.data != [] {
        if s.num == ack {
          rx := rx + s.data;
          ack := Plus(ack, |s.data|);
          replies := Acknowledge(replies);
        } else if s.num < ack {
          replies := Acknowledge(replies);
        }
      }
      if s.isAck { una := s.ack; }
      if s.fin && state.Established? {
        ack := Plus(ack, 1);
        rxClosed := true;
        state := CloseWait;
        replies := Acknowledge(replies);
      }
    }

    /** The chunking loop shared by `socket_send` and `socket_sendto`. */
    method Transmit(data: Bytes) returns (out: seq<Segment>)
      modifies this`num
      ensures Value() == OnSend(old(Value()), data).e && out == OnSend(old(Value()), data).replies
      ensures Payload(out) == data && forall i :: 0 <= i < |out| ==> 0 < |out[i].data| <= MAX_TCP_CHUNK_SIZE
    {
      hide Chunks, Payload;
      ChunksAreTheData(Value(), data);
      out := [];
      var at := 0;
      var next := num;
      ghost var e := Value();
      while at < |data|
        invariant at <= |data| && next == Plus(num, at) && Value() == e
        invariant out + Chunks(e.(num := next), data[at..]) == Chunks(e, data)
      {
        var len := if |data| - at < MAX_TCP_CHUNK_SIZE then |data| - at else MAX_TCP_CHUNK_SIZE;
        ChunksNext(e.(num := next), data[at..], len);
        out := out + [Segment(next, ack, true, false, false, data[at..at + len])];
        PlusPlus(num, at, len);
        assert data[at..][..len] == data[at..at + len] && data[at..][len..] == data[at + len..];
        next := Plus(next, len);
        at := at + len;
      }
      NoChunks(e.(num := next), data[at..]);
      num := next;
    }

    method Send(data: Bytes) returns (r: Sent, out: seq<Segment>)
      modifies this`num
      ensures r.Ok? <==> data == [] || old(state).Established?
      ensures r.Ok? ==>
        r.count == |data| && Value() == OnSend(old(Value()), data).e && out == OnSend(old(Value()), data).replies
      ensures !r.Ok? ==> Value() == old(Value()) && out == []
      ensures r.BrokenPipe? <==> data != [] && (old(state).CloseWait? || old(state).Closed? || old(state).Reset?)
    {
      if data == [] { return Ok(0), []; }
      if state.CloseWait? || state.Closed? || state.Reset? { return BrokenPipe, []; }
      if !state.Established? { return NotConnected, []; }
      out := Transmit(data);
      r := Ok(|data|);
    }

    method SendTo(data: Bytes) returns (r: Sent, out: seq<Segment>)
      modifies this`num
      ensures r.Ok? <==> old(state).Established? || old(state).CloseWait?
      ensures r.Ok? ==>
        r.count == |data| && Value() == OnSend(old(Value()), data).e && out == OnSend(old(Value()), data).replies
      ensures !r.Ok? ==> Value() == old(Value()) && out == []
    {
      if !state.Established? && !state.CloseWait? { return NotConnected, []; }
      out := Transmit(data);
      r := Ok(|data|);
    }

    /** One attempt to read. */
    method Recv(limit: nat) returns (r: Received)
      modifies this`rx
      ensures r.Data? ==> r.bytes + rx == old(rx) && |r.bytes| <= limit && (r.bytes == [] ==> limit == 0)
      ensures !r.Data? ==> old(rx) == [] && rx == []
      ensures r.EndOfStream? <==> limit > 0 && old(rx) == [] && rxClosed
      ensures r.ConnectionReset? <==> limit > 0 && old(rx) == [] && !rxClosed && (state.Reset? || state.Closed?)
    {
      if limit == 0 { return Data([]); }
      if rx != [] {
        var n := if |rx| < limit then |rx| else limit;
        r := Data(rx[..n]);
        rx := rx[n..];
        return;
      }
      if rxClosed { return EndOfStream; }
      if state.Reset? || state.Closed? { return ConnectionReset; }
      return WouldBlock;
    }

    /** Whether the socket leaves the table at once, and what is sent. */
    method Close() returns (remove: bool, out: seq<Segment>)
      modifies this
      ensures Value() == OnClose(old(Value())).e && out == OnClose(old(Value())).replies
      ensures remove <==> old(state).LastAck? || old(state).Closed? || old(state).Reset?
    {
      remove, out := true, [];
      if state.Established? {
        out := [Segment(num, ack, true, true, false, [])];
        num := Plus(num, 1);
        state := FinWait1;
        remove := false;
      } else if state.CloseWait? {
        out := [Segment(num, ack, true, true, false, [])];
        num := Plus(num, 1);
        state := LastAck;
        remove := false;
      } else if state.TimeWait? || state.FinWait1? || state.FinWait2? || state.Closing? {
        remove := false;
      }
    }
  }
}
