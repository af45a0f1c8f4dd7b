/** A sender and a receiver over a network that loses, repeats and reorders: the receiver's stream is a prefix of the
    sender's. */
module TcpStream {
  import opened Tcp
  import opened Options

  /** `sent` is all the sender was asked to send and `wire` all it ever put on the network; a segment stays there for
      good, so it may arrive never, once or often.  `got` is what `socket_recv` has returned. */
  datatype Link = Link(tx: Endpoint, rx: Endpoint, sent: Bytes, wire: set<Segment>, got: Bytes)

  datatype Action =
    | Send(data: Bytes)
    | Arrive(s: Segment)
    | Read(n: nat)
    | Answer(s: Segment)      // anything the peer sends back reaches the sender
    | Reply(data: Bytes)      // the receiver sends data of its own

  function SegmentsOf(out: seq<Segment>): set<Segment> { set i | 0 <= i < |out| :: out[i] }

  /** No FIN and no RST is processed; sent bytes stay below 2^32. */
  function Step(l: Link, t: Action): Option<Link> {
    match t
    case Send(data) =>
      if |l.sent| + |data| >= WRAP then None else
        var r := OnSend(l.tx, data);
        Some(l.(tx := r.e, sent := l.sent + data, wire := l.wire + SegmentsOf(r.replies)))
    case Arrive(s) =>
      if s !in l.wire then None else
        var r := OnSegment(l.rx, s);
        Some(l.(rx := r.e))
    case Read(n) =>
      if n > |l.rx.rx| then None else Some(l.(rx := l.rx.(rx := l.rx.rx[n..]), got := l.got + l.rx.rx[..n]))
    case Answer(s) =>
      if s.fin || s.rst then None
        else Some(l.(tx := OnSegment(l.tx, s).e, wire := l.wire + SegmentsOf(OnSegment(l.tx, s).replies)))
    case Reply(data) =>
      Some(l.(rx := OnSend(l.rx, data).e))
  }

  ghost predicate Start(l: Link) {
    l.tx.state.Established? && l.rx.state.Established? && l.rx.ack == l.tx.num && l.sent == [] && l.wire == {}
      && l.got == [] && l.rx.rx == []
  }

  /** A segment carries the bytes of the stream that its number says. */
  ghost predicate Carries(isn: Seq32, sent: Bytes, s: Segment, p: nat) {
    p + |s.data| <= |sent| && s.num == Plus(isn, p) && s.data == sent[p..p + |s.data|]
  }

  ghost predicate WireOk(isn: Seq32, sent: Bytes, wire: set<Segment>) {
    forall s :: s in wire ==> !s.fin && !s.rst && exists p: nat :: Carries(isn, sent, s, p)
  }

  /** Returned bytes and buffered bytes together are the stream up to the receiver's count. */
  ghost predicate Inv(isn: Seq32, l: Link) {
    && l.tx.state.Established? && l.rx.state.Established? && |l.sent| < WRAP
    && l.tx.num == Plus(isn, |l.sent|)
    && WireOk(isn, l.sent, l.wire)
    && l.got + l.rx.rx <= l.sent && l.rx.ack == Plus(isn, |l.got + l.rx.rx|)
  }

  /** Below 2^32 bytes, a sequence number names one place in the stream. */
  lemma PlusInjective(isn: Seq32, p: nat, q: nat)
    requires p < WRAP && q < WRAP && Plus(isn, p) == Plus(isn, q)
    ensures p == q
  {
  }

  lemma {:induction false} ChunksCarry(isn: Seq32, sent: Bytes, e: Endpoint, data: Bytes, i: nat)
    requires e.num == Plus(isn, |sent|) && i < |Chunks(e, data)|
    ensures var s := Chunks(e, data)[i]; !s.fin && !s.rst && exists p: nat :: Carries(isn, sent + data, s, p)
    decreases |data|
  {
    if data != [] {
      var len := if |data| < MAX_TCP_CHUNK_SIZE then |data| else MAX_TCP_CHUNK_SIZE;
      ChunksNext(e, data, len);
      if i == 0 {
        assert data[..len] == (sent + data)[|sent|..|sent| + len];
        assert Carries(isn, sent + data, Chunks(e, data)[0], |sent|);
      } else {
        PlusPlus(isn, |sent|, len);
        ChunksCarry(isn, sent + data[..len], e.(num := Plus(e.num, len)), data[len..], i - 1);
        assert sent + data[..len] + data[len..] == sent + data;
      }
    }
  }

  lemma SendKeeps(isn: Seq32, l: Link, data: Bytes)
    requires Inv(isn, l) && |l.sent| + |data| < WRAP
    ensures Inv(isn, Step(l, Send(data)).value)
  {
    var out := OnSend(l.tx, data).replies;
    PlusPlus(isn, |l.sent|, |data|);
    hide Chunks;
    forall s | s in SegmentsOf(out) ensures !s.fin && !s.rst && exists p: nat :: Carries(isn, l.sent + data, s, p) {
      var i :| 0 <= i < |out| && out[i] == s;
      ChunksCarry(isn, l.sent, l.tx, data, i);
    }
    forall s | s in l.wire ensures !s.fin && !s.rst && exists p: nat :: Carries(isn, l.sent + data, s, p) {
      var p: nat :| Carries(isn, l.sent, s, p);
      assert (l.sent + data)[p..p + |s.data|] == l.sent[p..p + |s.data|];
      assert Carries(isn, l.sent + data, s, p);
    }
  }

  /** A segment that arrives, for the first time or again, in order or not, extends the prefix or changes nothing. */
  lemma ArriveKeeps(isn: Seq32, l: Link, s: Segment)
    requires Inv(isn, l) && s in l.wire
    ensures Inv(isn, Step(l, Arrive(s)).value)
  {
    var p: nat :| Carries(isn, l.sent, s, p);
    var have := l.got + l.rx.rx;
    if s.data != [] && s.num == l.rx.ack {
      PlusInjective(isn, p, |have|);
      PlusPlus(isn, |have|, |s.data|);
      assert have + s.data == l.sent[..|have| + |s.data|];
      assert l.got + (l.rx.rx + s.data) == have + s.data;
    }
  }

  lemma StepKeeps(isn: Seq32, l: Link, t: Action)
    requires Inv(isn, l) && Step(l, t).Some?
    ensures Inv(isn, Step(l, t).value)
  {
    match t
    case Send(data) => SendKeeps(isn, l, data);
    case Arrive(s) => ArriveKeeps(isn, l, s);
    case Read(n) => assert l.got + l.rx.rx[..n] + l.rx.rx[n..] == l.got + l.rx.rx;
    case Answer(s) => AnswerKeeps(isn, l, s);
    case Reply(data) =>
  }

  lemma AnswerKeeps(isn: Seq32, l: Link, s: Segment)
    requires Inv(isn, l) && !s.fin && !s.rst
    ensures Inv(isn, Step(l, Answer(s)).value)
  {
    var r := OnSegment(l.tx, s);
    forall x | x in SegmentsOf(r.replies) ensures !x.fin && !x.rst && exists p: nat :: Carries(isn, l.sent, x, p) {
      assert x.num == l.tx.num && x.data == [];
      assert Carries(isn, l.sent, x, |l.sent|);
    }
  }

  ghost predicate Run(links: seq<Link>, acts: seq<Action>) {
    && |links| == |acts| + 1 && Start(links[0])
    && forall i :: 0 <= i < |acts| ==> Step(links[i], acts[i]) == Some(links[i + 1])
  }

  /** At every moment of every run: what was returned, followed by what is buffered, is the sender's stream up to the
      receiver's acknowledgement number. */
  lemma {:induction false} StreamIsPrefix(links: seq<Link>, acts: seq<Action>, k: nat)
    requires Run(links, acts) && k < |links|
    ensures var l := links[k]; var have := l.got + l.rx.rx;
      have <= l.sent && l.rx.ack == Plus(links[0].tx.num, |have|) && Inv(links[0].tx.num, l)
  {
    hide Step;
    if k > 0 {
      StreamIsPrefix(links, acts, k - 1);
      assert Step(links[k - 1], acts[k - 1]) == Some(links[k]);
      StepKeeps(links[0].tx.num, links[k - 1], acts[k - 1]);
    }
  }
}
