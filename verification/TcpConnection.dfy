/** Two sockets joined by lossless FIFO channels, driven through their own methods. */
module TcpConnection {
  import opened Tcp
  import opened TcpClose
  import opened Options

  class Connection {
    const a: TcpSocket
    const b: TcpSocket
    var ab: seq<Segment>
    var ba: seq<Segment>

    ghost function Value(): Net
      reads this, a, b
    {
      Net(a.Value(), b.Value(), ab, ba)
    }

    ghost predicate Valid()
      reads this, a, b
    {
      a != b && Inv(Value())
    }

    constructor (a: TcpSocket, b: TcpSocket)
      requires a != b && Start(Net(a.Value(), b.Value(), [], []))
      ensures Valid() && this.a == a && this.b == b && Start(Value())
    {
      this.a, this.b, ab, ba := a, b, [], [];
      new;
      StartIsInv(Value());
    }

    /** One side sends, closes or takes the next segment on its way; each is the step of `TcpClose`. */
    method Act(left: bool, t: Action) returns (ok: bool)
      requires Valid()
      modifies this, a, b
      ensures Valid() && (ok <==> Step(old(Value()), left, t).Some?)
      ensures if ok then Step(old(Value()), left, t) == Some(Value()) else Value() == old(Value())
    {
      hide Half, OnSegment, OnSend;
      if Step(Value(), left, t).Some? { StepKeeps(Value(), left, t); }
      var x := if left then a else b;
      var out: seq<Segment> := [];
      match t {
        case Send(data) =>
          var r;
          r, out := x.SendTo(data);
          if !r.Ok? { return false; }
        case Close =>
          if !x.state.Established? && !x.state.CloseWait? { return false; }
          var remove;
          remove, out := x.Close();
        case Deliver =>
          if left {
            if ba == [] { return false; }
            out := a.HandleSegment(ba[0]);
            ba := ba[1..];
          } else {
            if ab == [] { return false; }
            out := b.HandleSegment(ab[0]);
            ab := ab[1..];
          }
      }
      if left { ab := ab + out; } else { ba := ba + out; }
      return true;
    }

    /** Delivers what is on the way, from either side in any order, until nothing is. */
    method Drain()
      requires Valid() && SentFin(a.Value()) && SentFin(b.Value())
      modifies this, a, b
      ensures Valid() && ab == [] && ba == [] && Finished(a.Value()) && Finished(b.Value())
    {
      hide Half, InFlight, Step;
      while ab != [] || ba != []
        invariant Valid() && SentFin(a.Value()) && SentFin(b.Value())
        decreases InFlight(Value())
      {
        var left := ab == [];
        if ab != [] && ba != [] { left := *; }
        CanDeliver(Value(), left);
        DeliverShrinks(Value(), left);
        SentFinStays(Value(), left, Deliver);
        var ok := Act(left, Deliver);
      }
      DrainedIsFinished(Value());
    }

    /** Any actions by either side, then both close: the connection always ends with both sides in TIME-WAIT or
        closed. */
    method Converse(lefts: seq<bool>, acts: seq<Action>)
      requires Start(Value()) && a != b && |lefts| == |acts|
      modifies this, a, b
      ensures ab == [] && ba == [] && Finished(a.Value()) && Finished(b.Value())
    {
      hide Half, Step;
      StartIsInv(Value());
      for i := 0 to |acts|
        invariant Valid()
      {
        var ok := Act(lefts[i], acts[i]);
      }
      CloseSends(Value(), true);
      var ok := Act(true, Close);
      CloseSends(Value(), false);
      ok := Act(false, Close);
      Drain();
    }
  }

  lemma CanDeliver(n: Net, left: bool)
    requires if left then n.ba != [] else n.ab != []
    ensures Step(n, left, Deliver).Some?
  {
  }

  /** After an attempt to close, a side has sent its FIN, and the other side's FIN is not undone. */
  lemma CloseSends(n: Net, left: bool)
    requires Inv(n)
    ensures var m := if Step(n, left, Close).Some? then Step(n, left, Close).value else n;
            && SentFin(if left then m.a else m.b)
            && (SentFin(n.a) ==> SentFin(m.a)) && (SentFin(n.b) ==> SentFin(m.b))
  {
  }
}
