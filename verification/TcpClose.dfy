/** Two endpoints over lossless FIFO channels: whatever is sent and whoever closes first, the connection closes. */
module TcpClose {
  import opened Tcp
  import opened Options

  /** Two endpoints and what is on the way between them. */
  datatype Net = Net(a: Endpoint, b: Endpoint, ab: seq<Segment>, ba: seq<Segment>)

  datatype Action = Send(data: Bytes) | Close | Deliver

  function Flip(n: Net): Net { Net(n.b, n.a, n.ba, n.ab) }

  predicate Open(e: Endpoint) { e.state.Established? || e.state.CloseWait? }

  /** The endpoint on the left acts; an application closes at most once. */
  function Left(n: Net, t: Action): Option<Net> {
    match t
    case Send(data) =>
      if !Open(n.a) then None else var r := OnSend(n.a, data); Some(n.(a := r.e, ab := n.ab + r.replies))
    case Close =>
      if !Open(n.a) then None else var r := OnClose(n.a); Some(n.(a := r.e, ab := n.ab + r.replies))
    case Deliver =>
      if n.ba == [] then None else var r := OnSegment(n.a, n.ba[0]); Some(Net(r.e, n.b, n.ab + r.replies, n.ba[1..]))
  }

  function Step(n: Net, left: bool, t: Action): Option<Net> {
    if left then Left(n, t) else
      var r := Left(Flip(n), t);
      if r.None? then None else Some(Flip(r.value))
  }

  /** Both sides established, in step, with nothing on the way. */
  predicate Start(n: Net) {
    n.a.state.Established? && n.b.state.Established? && n.a.ack == n.b.num && n.b.ack == n.a.num && n.ab == []
      && n.ba == []
  }

  // ---------------------------------------------------------------- the invariant, one direction at a time

  predicate SentFin(e: Endpoint) { !Open(e) && !e.state.Reset? }

  predicate GotFin(e: Endpoint) { e.state.CloseWait? || e.state.LastAck? || e.state.Closing? || e.state.TimeWait?
    || e.state.Closed? }

  predicate AwaitsAck(e: Endpoint) { e.state.FinWait1? || e.state.Closing? || e.state.LastAck? }

  predicate Quiet(s: Segment) { s.data == [] && !s.fin }

  ghost predicate AllQuiet(ch: seq<Segment>) { forall i :: 0 <= i < |ch| ==> Quiet(ch[i]) }

  ghost predicate HasFin(ch: seq<Segment>) { exists i :: 0 <= i < |ch| && ch[i].fin }

  /** A FIN carries no data, nothing but acknowledgements follows it, and its number is the sender's last. */
  ghost predicate FinLast(ch: seq<Segment>, end: Seq32) {
    forall i :: 0 <= i < |ch| && ch[i].fin ==> ch[i].data == [] && Plus(ch[i].num, 1) == end && AllQuiet(ch[i + 1..])
  }

  /** What is on the way continues the receiver's count up to the sender's. */
  ghost predicate InStep(from: Seq32, ch: seq<Segment>, end: Seq32)
    decreases |ch|
  {
    if ch == [] then from == end
    else if Quiet(ch[0]) then InStep(from, ch[1..], end)
    else ch[0].num == from && InStep(Plus(from, Length(ch[0])), ch[1..], end)
  }

  function Length(s: Segment): nat { |s.data| + if s.fin then 1 else 0 }

  ghost predicate Acked(ch: seq<Segment>, end: Seq32) { exists i :: 0 <= i < |ch| && ch[i].isAck && ch[i].ack == end }

  ghost predicate Tame(ch: seq<Segment>) { forall i :: 0 <= i < |ch| ==> ch[i].isAck && !ch[i].rst }

  /** The direction from `x` to `y`. */
  ghost predicate Half(x: Endpoint, y: Endpoint, xy: seq<Segment>, yx: seq<Segment>) {
    && Tame(xy) && !x.state.Reset?
    && (!SentFin(x) ==> !HasFin(xy) && !GotFin(y))
    && (SentFin(x) && !GotFin(y) ==> HasFin(xy))
    && FinLast(xy, x.num)
    && (GotFin(y) ==> AllQuiet(xy) && y.ack == x.num)
    && (Open(y) ==> InStep(y.ack, xy, x.num))
    && (AwaitsAck(x) && GotFin(y) ==> Acked(yx, x.num))
  }

  ghost predicate Inv(n: Net) { Half(n.a, n.b, n.ab, n.ba) && Half(n.b, n.a, n.ba, n.ab) }

  // ---------------------------------------------------------------- channels grow at the end

  lemma {:induction false} InStepAppend(from: Seq32, ch: seq<Segment>, end: Seq32, s: Segment)
    requires InStep(from, ch, end) && (Quiet(s) || s.num == end)
    ensures InStep(from, ch + [s], if Quiet(s) then end else Plus(end, Length(s)))
    decreases |ch|
  {
    if ch == [] {
      assert (ch + [s])[1..] == [];
    } else {
      assert (ch + [s])[1..] == ch[1..] + [s];
      InStepAppend(if Quiet(ch[0]) then from else Plus(from, Length(ch[0])), ch[1..], end, s);
    }
  }

  lemma AppendQuiet(x: Endpoint, y: Endpoint, xy: seq<Segment>, yx: seq<Segment>, s: Segment)
    requires Half(x, y, xy, yx) && Quiet(s) && s.isAck && !s.rst
    ensures Half(x, y, xy + [s], yx)
  {
    if Open(y) { InStepAppend(y.ack, xy, x.num, s); }
    forall i | 0 <= i < |xy + [s]| && (xy + [s])[i].fin ensures i < |xy| && AllQuiet((xy + [s])[i + 1..]) {
      assert (xy + [s])[i + 1..] == xy[i + 1..] + [s];
    }
    if HasFin(xy) {
      var i :| 0 <= i < |xy| && xy[i].fin;
      assert (xy + [s])[i].fin;
    }
  }

  lemma AppendOther(x: Endpoint, y: Endpoint, xy: seq<Segment>, yx: seq<Segment>, s: Segment)
    requires Half(x, y, xy, yx)
    ensures Half(x, y, xy, yx + [s])
  {
    if Acked(yx, x.num) {
      var i :| 0 <= i < |yx| && yx[i].isAck && yx[i].ack == x.num;
      assert (yx + [s])[i].ack == x.num && (yx + [s])[i].isAck;
    }
  }

  // ---------------------------------------------------------------- sending and closing

  lemma ChunkKeeps(n: Net, data: Bytes)
    requires Inv(n) && Open(n.a) && data != []
    ensures Inv(n.(a := n.a.(num := Plus(n.a.num, |data|)), ab :=
      n.ab + [Segment(n.a.num, n.a.ack, true, false, false, data)]))
  {
    var s := Segment(n.a.num, n.a.ack, true, false, false, data);
    if Open(n.b) { InStepAppend(n.b.ack, n.ab, n.a.num, s); }
    assert forall i :: 0 <= i < |n.ab| ==> !n.ab[i].fin;
    assert forall i :: 0 <= i < |n.ab + [s]| ==> !(n.ab + [s])[i].fin;
    AppendOther(n.b, n.a, n.ba, n.ab, s);
  }

  lemma {:induction false} SendKeeps(n: Net, data: Bytes)
    requires Inv(n) && Open(n.a)
    ensures Inv(Left(n, Send(data)).value)
    decreases |data|
  {
    hide Half;
    var e := n.a;
    if data == [] {
      assert n.ab + [] == n.ab;
    } else {
      var len := if |data| < MAX_TCP_CHUNK_SIZE then |data| else MAX_TCP_CHUNK_SIZE;
      ChunksNext(e, data, len);
      ChunkKeeps(n, data[..len]);
      var s := Segment(e.num, e.ack, true, false, false, data[..len]);
      var n' := n.(a := e.(num := Plus(e.num, len)), ab := n.ab + [s]);
      SendKeeps(n', data[len..]);
      PlusPlus(e.num, len, |data| - len);
      assert n.ab + ([s] + Chunks(n'.a, data[len..])) == n.ab + [s] + Chunks(n'.a, data[len..]);
    }
  }

  lemma CloseKeeps(n: Net)
    requires Inv(n) && Open(n.a)
    ensures Inv(Left(n, Close).value)
  {
    var s := FinOf(n.a);
    var n' := Left(n, Close).value;
    if Open(n.b) { InStepAppend(n.b.ack, n.ab, n.a.num, s); }
    assert n'.ab[|n.ab|].fin;
    assert forall i :: 0 <= i < |n.ab| ==> !n.ab[i].fin;
    forall i | 0 <= i < |n'.ab| && n'.ab[i].fin ensures i == |n.ab| && AllQuiet(n'.ab[i + 1..]) {
    }
    AppendOther(n.b, n.a, n.ba, n.ab, s);
  }

  // ---------------------------------------------------------------- delivering

  lemma PopQuiet(xy: seq<Segment>)
    requires xy != []
    ensures Tame(xy) ==> Tame(xy[1..])
    ensures AllQuiet(xy) ==> AllQuiet(xy[1..])
    ensures !HasFin(xy) ==> !HasFin(xy[1..])
    ensures HasFin(xy) && !xy[0].fin ==> HasFin(xy[1..])
    ensures forall end: Seq32 :: FinLast(xy, end) ==> FinLast(xy[1..], end)
    ensures forall end: Seq32 :: FinLast(xy, end) && xy[0].fin ==> AllQuiet(xy[1..])
  {
    if HasFin(xy) && !xy[0].fin {
      var i :| 0 <= i < |xy| && xy[i].fin;
      assert xy[1..][i - 1].fin;
    }
    forall end: Seq32, i | FinLast(xy, end) && 0 <= i < |xy[1..]| && xy[1..][i].fin ensures AllQuiet(xy[1..][i + 1..]) {
      assert xy[1..][i + 1..] == xy[i + 2..];
      assert xy[i + 1].fin;
    }
  }

  lemma PopAcked(yx: seq<Segment>, end: Seq32)
    requires yx != [] && Acked(yx, end)
    ensures (yx[0].isAck && yx[0].ack == end) || Acked(yx[1..], end)
  {
    var i :| 0 <= i < |yx| && yx[i].isAck && yx[i].ack == end;
    if i > 0 { assert yx[1..][i - 1] == yx[i]; }
  }

  /** The receiver's own direction: its FIN may just have been acknowledged. */
  lemma OwnHalf(n: Net)
    requires Inv(n) && n.ba != []
    ensures Half(OnSegment(n.a, n.ba[0]).e, n.b, n.ab, n.ba[1..])
  {
    if AwaitsAck(n.a) && GotFin(n.b) { PopAcked(n.ba, n.a.num); }
  }

  /** The peer's direction: its data or its FIN has just been taken. */
  lemma PeerHalf(n: Net)
    requires Inv(n) && n.ba != []
    ensures var r := OnSegment(n.a, n.ba[0]); Half(n.b, r.e, n.ba[1..], n.ab + r.replies)
  {
    var s, r := n.ba[0], OnSegment(n.a, n.ba[0]);
    PopQuiet(n.ba);
    if s.fin {
      FinTaken(n);
    } else {
      assert GotFin(r.e) == GotFin(n.a);
      if AwaitsAck(n.b) && GotFin(n.a) {
        var i :| 0 <= i < |n.ab| && n.ab[i].isAck && n.ab[i].ack == n.b.num;
        assert (n.ab + r.replies)[i] == n.ab[i];
      }
    }
  }

  lemma FinTaken(n: Net)
    requires Inv(n) && n.ba != [] && n.ba[0].fin
    ensures var r := OnSegment(n.a, n.ba[0]);
      GotFin(r.e) && r.e.ack == n.b.num && Acked(n.ab + r.replies, n.b.num) && !Open(r.e) == !Open(n.a)
    ensures AllQuiet(n.ba[1..]) && SentFin(n.b)
    ensures Open(n.a) ==> InStep(n.b.num, n.ba[1..], n.b.num)
  {
    PopQuiet(n.ba);
    var r := OnSegment(n.a, n.ba[0]);
    assert HasFin(n.ba) && !GotFin(n.a);
    assert Plus(n.ba[0].num, 1) == n.b.num;
    assert r.e.ack == n.b.num;
    assert |r.replies| == 1 && (n.ab + r.replies)[|n.ab|] == AckOf(r.e);
    QuietInStep(n.b.num, n.ba[1..]);
  }

  lemma {:induction false} QuietInStep(from: Seq32, ch: seq<Segment>)
    requires AllQuiet(ch)
    ensures InStep(from, ch, from)
    decreases |ch|
  {
    if ch != [] { QuietInStep(from, ch[1..]); }
  }

  lemma {:induction false} RepliesKeep(n: Net, replies: seq<Segment>)
    requires Half(n.a, n.b, n.ab, n.ba) && AllQuiet(replies) && Tame(replies)
    ensures Half(n.a, n.b, n.ab + replies, n.ba)
    decreases |replies|
  {
    if replies == [] {
      assert n.ab + replies == n.ab;
    } else {
      AppendQuiet(n.a, n.b, n.ab, n.ba, replies[0]);
      RepliesKeep(n.(ab := n.ab + [replies[0]]), replies[1..]);
      assert n.ab + [replies[0]] + replies[1..] == n.ab + replies;
    }
  }

  lemma DeliverKeeps(n: Net)
    requires Inv(n) && n.ba != []
    ensures Inv(Left(n, Deliver).value)
  {
    var r := OnSegment(n.a, n.ba[0]);
    OwnHalf(n);
    PeerHalf(n);
    hide Half;
    RepliesKeep(Net(r.e, n.b, n.ab, n.ba[1..]), r.replies);
  }

  lemma StepKeeps(n: Net, left: bool, t: Action)
    requires Inv(n) && Step(n, left, t).Some?
    ensures Inv(Step(n, left, t).value)
  {
    var m := if left then n else Flip(n);
    hide Half;
    match t
    case Send(data) => SendKeeps(m, data);
    case Close => CloseKeeps(m);
    case Deliver => DeliverKeeps(m);
  }

  // ---------------------------------------------------------------- draining ends, and it ends closed

  /** A segment weighs more than all it can be answered with. */
  function Weight(ch: seq<Segment>): nat {
    if ch == [] then 0 else
      var s := ch[|ch| - 1];
      Weight(ch[..|ch| - 1]) + 1 + (if s.data != [] then 1 else 0) + (if s.fin then 1 else 0)
  }

  lemma {:induction false} WeightSum(c: seq<Segment>, d: seq<Segment>)
    ensures Weight(c + d) == Weight(c) + Weight(d)
    decreases |d|
  {
    if d == [] {
      assert c + d == c;
    } else {
      assert (c + d)[..|c + d| - 1] == c + d[..|d| - 1];
      WeightSum(c, d[..|d| - 1]);
    }
  }

  lemma SegmentOutweighsReplies(e: Endpoint, s: Segment)
    ensures Weight(OnSegment(e, s).replies) < Weight([s])
  {
    var r := OnSegment(e, s).replies;
    assert |r| <= 2 && AllQuiet(r);
    if |r| == 2 {
      assert r[..1] == [r[0]] && r[..1][..0] == [];
    } else if |r| == 1 {
      assert r[..0] == [];
    }
    assert [s][..0] == [];
  }

  function InFlight(n: Net): nat { Weight(n.ab) + Weight(n.ba) }

  lemma DeliverShrinks(n: Net, left: bool)
    requires Step(n, left, Deliver).Some?
    ensures InFlight(Step(n, left, Deliver).value) < InFlight(n)
  {
    var m := if left then n else Flip(n);
    var r := OnSegment(m.a, m.ba[0]);
    SegmentOutweighsReplies(m.a, m.ba[0]);
    WeightSum(m.ab, r.replies);
    WeightSum([m.ba[0]], m.ba[1..]);
    assert [m.ba[0]] + m.ba[1..] == m.ba;
  }

  predicate Finished(e: Endpoint) { e.state.TimeWait? || e.state.Closed? }

  predicate Drained(n: Net) { n.ab == [] && n.ba == [] }

  /** Once both have closed and nothing is on the way, both are done. */
  lemma DrainedIsFinished(n: Net)
    requires Inv(n) && SentFin(n.a) && SentFin(n.b) && Drained(n)
    ensures Finished(n.a) && Finished(n.b)
  {
  }

  /** A run of any actions by either side in any order. */
  ghost predicate Run(states: seq<Net>, lefts: seq<bool>, acts: seq<Action>) {
    && |states| == |acts| + 1 == |lefts| + 1 && Start(states[0])
    && forall i :: 0 <= i < |acts| ==> Step(states[i], lefts[i], acts[i]) == Some(states[i + 1])
  }

  lemma {:induction false} RunKeeps(states: seq<Net>, lefts: seq<bool>, acts: seq<Action>, k: nat)
    requires Run(states, lefts, acts) && k < |states|
    ensures Inv(states[k])
  {
    hide Half;
    if k == 0 {
      StartIsInv(states[0]);
    } else {
      RunKeeps(states, lefts, acts, k - 1);
      assert Step(states[k - 1], lefts[k - 1], acts[k - 1]) == Some(states[k]);
      StepKeeps(states[k - 1], lefts[k - 1], acts[k - 1]);
    }
  }

  lemma StartIsInv(n: Net)
    requires Start(n)
    ensures Inv(n)
  {
  }

  lemma {:induction false} DeliveriesAreBounded(states: seq<Net>, lefts: seq<bool>, acts: seq<Action>, from: nat,
                                                k: nat)
    requires Run(states, lefts, acts) && from <= k < |states| && forall i :: from <= i < k ==> acts[i].Deliver?
    ensures k - from + InFlight(states[k]) <= InFlight(states[from])
    decreases k
  {
    if k > from {
      DeliveriesAreBounded(states, lefts, acts, from, k - 1);
      assert Step(states[k - 1], lefts[k - 1], acts[k - 1]) == Some(states[k]);
      DeliverShrinks(states[k - 1], lefts[k - 1]);
    }
  }

  /** Whatever was sent and whoever closed first: after both have closed, at most `InFlight` deliveries are left, in any
      order; and when no delivery is left, both sides are in TIME-WAIT or closed. */
  lemma CloseCompletes(states: seq<Net>, lefts: seq<bool>, acts: seq<Action>, closed: nat)
    requires Run(states, lefts, acts) && closed < |states| && SentFin(states[closed].a) && SentFin(states[closed].b)
    requires forall i :: closed <= i < |acts| ==> acts[i].Deliver?
    ensures |acts| - closed <= InFlight(states[closed])
    ensures var n := states[|acts|]; (Step(n, true, Deliver).None? && Step(n, false, Deliver).None?) ==>
      Finished(n.a) && Finished(n.b)
  {
    hide Half, InFlight;
    DeliveriesAreBounded(states, lefts, acts, closed, |acts|);
    StaysClosed(states, lefts, acts, closed, |acts|);
    RunKeeps(states, lefts, acts, |acts|);
    if Drained(states[|acts|]) { DrainedIsFinished(states[|acts|]); }
  }

  lemma {:induction false} StaysClosed(states: seq<Net>, lefts: seq<bool>, acts: seq<Action>, from: nat, k: nat)
    requires Run(states, lefts, acts) && from <= k < |states| && SentFin(states[from].a) && SentFin(states[from].b)
    ensures SentFin(states[k].a) && SentFin(states[k].b)
    decreases k
  {
    hide Half, SentFin, Step;
    if k > from {
      StaysClosed(states, lefts, acts, from, k - 1);
      RunKeeps(states, lefts, acts, k - 1);
      assert Step(states[k - 1], lefts[k - 1], acts[k - 1]) == Some(states[k]);
      SentFinStays(states[k - 1], lefts[k - 1], acts[k - 1]);
    }
  }

  lemma SentFinStays(n: Net, left: bool, t: Action)
    requires Inv(n) && SentFin(n.a) && SentFin(n.b) && Step(n, left, t).Some?
    ensures var m := Step(n, left, t).value; SentFin(m.a) && SentFin(m.b)
  {
  }
}
