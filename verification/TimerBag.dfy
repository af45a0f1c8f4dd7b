/** The simple view of the timer subsystem (rust/kernel/src/timer.rs): a bag of pending entries and a clock.
    The hierarchical wheel of module `Timers` is proved to refine it; here are the laws over whole runs. */
module TimerBag {
  import opened Options

  const U64: nat := 0x1_0000_0000_0000_0000

  datatype Kind = Sleep(tid: nat) | ITimerReal(pid: nat, interval: nat)

  datatype Entry = Entry(id: nat, target: nat, kind: Kind)

  /** What the wheel holds, as a caller can observe it. */
  datatype Bag = Bag(now: nat, nextId: nat, pending: multiset<Entry>)

  /** An entry is returned by the call that makes the clock equal its target; an entry added with a target
      already in the past is returned at the next tick that agrees with the target in the low eight bits. */
  predicate Fires(e: Entry, tick: nat) {
    e.target <= tick && e.target % 256 == tick % 256
  }

  predicate SleepsFor(e: Entry, tid: nat) { e.kind.Sleep? && e.kind.tid == tid }

  predicate RingsFor(e: Entry, pid: nat) { e.kind.ITimerReal? && e.kind.pid == pid }

  datatype Op =
    | Add(target: nat, kind: Kind)
    | CancelSleep(tid: nat, removed: Option<Entry>)
    | CancelITimer(pid: nat, removed: Option<Entry>)
    | Tick(fired: multiset<Entry>)

  ghost predicate Removes(b: Bag, matches: Entry -> bool, removed: Option<Entry>, c: Bag) {
    match removed
    case None => c == b && forall e :: e in b.pending ==> !matches(e)
    case Some(e) => e in b.pending && matches(e) && c == b.(pending := b.pending - multiset{e})
  }

  ghost predicate Step(b: Bag, op: Op, c: Bag) {
    match op
    case Add(target, kind) =>
      c == Bag(b.now, (b.nextId + 1) % U64, b.pending + multiset{Entry(b.nextId, target, kind)})
    case CancelSleep(tid, removed) => Removes(b, e => SleepsFor(e, tid), removed, c)
    case CancelITimer(pid, removed) => Removes(b, e => RingsFor(e, pid), removed, c)
    case Tick(fired) =>
      && b.now + 1 < U64 && c.now == b.now + 1 && c.nextId == b.nextId
      && b.pending == fired + c.pending
      && (forall e :: e in fired ==> Fires(e, c.now))
      && (forall e :: e in c.pending ==> !Fires(e, c.now))
  }

  ghost predicate Run(states: seq<Bag>, ops: seq<Op>) {
    |states| == |ops| + 1 && forall i :: 0 <= i < |ops| ==> Step(states[i], ops[i], states[i + 1])
  }

  /** Every add names a target after the current tick, and the identifier counter does not wrap. */
  ghost predicate Orderly(states: seq<Bag>, ops: seq<Op>)
    requires |states| == |ops| + 1
  {
    forall i :: 0 <= i < |ops| && ops[i].Add? ==> ops[i].target > states[i].now && states[i].nextId + 1 < U64
  }

  /** A wheel as `new` leaves it, or any later state in which nothing is overdue. */
  ghost predicate Fresh(b: Bag) {
    forall e :: e in b.pending ==> e.target > b.now && e.id < b.nextId
  }

  function Adds(b: Bag, op: Op): multiset<Entry> {
    if op.Add? then multiset{Entry(b.nextId, op.target, op.kind)} else multiset{}
  }

  function Fired(op: Op): multiset<Entry> {
    if op.Tick? then op.fired else multiset{}
  }

  function Cancelled(op: Op): multiset<Entry> {
    if (op.CancelSleep? || op.CancelITimer?) && op.removed.Some? then multiset{op.removed.value} else multiset{}
  }

  /** All entries added, returned and cancelled over a run. */
  function AllAdded(states: seq<Bag>, ops: seq<Op>): multiset<Entry>
    requires |states| == |ops| + 1
  {
    if ops == [] then multiset{}
    else AllAdded(states[..|ops|], ops[..|ops| - 1]) + Adds(states[|ops| - 1], ops[|ops| - 1])
  }

  function AllFired(ops: seq<Op>): multiset<Entry> {
    if ops == [] then multiset{} else AllFired(ops[..|ops| - 1]) + Fired(ops[|ops| - 1])
  }

  function AllCancelled(ops: seq<Op>): multiset<Entry> {
    if ops == [] then multiset{} else AllCancelled(ops[..|ops| - 1]) + Cancelled(ops[|ops| - 1])
  }

  lemma RunUpTo(states: seq<Bag>, ops: seq<Op>, k: nat)
    requires Run(states, ops) && k <= |ops|
    ensures Run(states[..k + 1], ops[..k])
    ensures Orderly(states, ops) ==> Orderly(states[..k + 1], ops[..k])
  {
  }

  lemma RunPrefix(states: seq<Bag>, ops: seq<Op>)
    requires Run(states, ops) && |ops| > 0
    ensures Run(states[..|ops|], ops[..|ops| - 1])
    ensures Orderly(states, ops) ==> Orderly(states[..|ops|], ops[..|ops| - 1])
  {
    RunUpTo(states, ops, |ops| - 1);
  }

  lemma StepConserves(b: Bag, op: Op, c: Bag, e: Entry)
    requires Step(b, op, c)
    ensures b.pending[e] + Adds(b, op)[e] == Fired(op)[e] + Cancelled(op)[e] + c.pending[e]
  {
  }

  /** Conservation: whatever is added is returned once, cancelled once or still pending. */
  lemma {:induction false} RunConserves(states: seq<Bag>, ops: seq<Op>, e: Entry)
    requires Run(states, ops)
    ensures states[0].pending[e] + AllAdded(states, ops)[e] ==
      AllFired(ops)[e] + AllCancelled(ops)[e] + states[|ops|].pending[e]
  {
    if ops != [] {
      var n := |ops| - 1;
      RunPrefix(states, ops);
      RunConserves(states[..|ops|], ops[..n], e);
      StepConserves(states[n], ops[n], states[n + 1], e);
    }
  }

  /** In an orderly run nothing pending is ever overdue, and pending identifiers stay below the counter. */
  lemma {:induction false} RunStaysFresh(states: seq<Bag>, ops: seq<Op>)
    requires Run(states, ops) && Orderly(states, ops) && Fresh(states[0])
    ensures Fresh(states[|ops|])
  {
    if ops != [] {
      var n := |ops| - 1;
      RunPrefix(states, ops);
      RunStaysFresh(states[..|ops|], ops[..n]);
      StepStaysFresh(states[n], ops[n], states[n + 1]);
    }
  }

  lemma StepStaysFresh(b: Bag, op: Op, c: Bag)
    requires Fresh(b) && Step(b, op, c) && (op.Add? ==> op.target > b.now && b.nextId + 1 < U64)
    ensures Fresh(c)
  {
    forall e | e in c.pending ensures e.target > c.now && e.id < c.nextId {
      if op.Tick? { assert e in b.pending; }
    }
  }

  /** An entry returned by a tick from a state with nothing overdue is returned exactly at its target. */
  lemma FiresOnTarget(b: Bag, fired: multiset<Entry>, c: Bag, e: Entry)
    requires Fresh(b) && Step(b, Tick(fired), c) && e in b.pending
    ensures e in fired <==> e.target == c.now
    ensures fired[e] == if e.target == c.now then b.pending[e] else 0
  {
    assert e.target > b.now;
    assert e in fired || e in c.pending;
  }

  /** Identifiers grow along a run, so everything added before a point has a smaller identifier. */
  lemma {:induction false} IdsGrow(states: seq<Bag>, ops: seq<Op>, i: nat)
    requires Run(states, ops) && Orderly(states, ops) && i <= |ops|
    ensures states[i].nextId <= states[|ops|].nextId
    ensures i < |ops| && ops[i].Add? ==> states[i].nextId < states[|ops|].nextId
    decreases |ops|
  {
    if i < |ops| {
      RunPrefix(states, ops);
      IdsGrow(states[..|ops|], ops[..|ops| - 1], i);
    }
  }

  /** The entry created by the `i`-th call is added exactly once in the whole run. */
  lemma {:induction false} AddedOnce(states: seq<Bag>, ops: seq<Op>, i: nat)
    requires Run(states, ops) && Orderly(states, ops) && i < |ops| && ops[i].Add?
    ensures AllAdded(states, ops)[Entry(states[i].nextId, ops[i].target, ops[i].kind)] == 1
    decreases |ops|
  {
    hide Orderly;
    var e := Entry(states[i].nextId, ops[i].target, ops[i].kind);
    var n := |ops| - 1;
    RunPrefix(states, ops);
    if i == n {
      NotYetAdded(states[..|ops|], ops[..n], e);
    } else {
      AddedOnce(states[..|ops|], ops[..n], i);
      IdsGrow(states[..|ops|], ops[..n], i);
    }
  }

  lemma {:induction false} NotYetAdded(states: seq<Bag>, ops: seq<Op>, e: Entry)
    requires Run(states, ops) && Orderly(states, ops) && e.id >= states[|ops|].nextId
    ensures AllAdded(states, ops)[e] == 0
    decreases |ops|
  {
    if ops != [] {
      RunPrefix(states, ops);
      IdsGrow(states, ops, |ops| - 1);
      NotYetAdded(states[..|ops|], ops[..|ops| - 1], e);
    }
  }

  /** The timer created by the `i`-th call is returned or cancelled at most once in all; a tick returns it only on the
      call that makes the clock equal its target; and once the clock has reached the target, a timer that was not
      cancelled has been returned exactly once. */
  ghost predicate Exact(states: seq<Bag>, ops: seq<Op>, i: nat)
    requires |states| == |ops| + 1 && i < |ops| && ops[i].Add?
  {
    var e := Entry(states[i].nextId, ops[i].target, ops[i].kind);
    && AllFired(ops)[e] + AllCancelled(ops)[e] <= 1
    && (forall k :: 0 <= k < |ops| && ops[k].Tick? && e in ops[k].fired ==> states[k + 1].now == e.target)
    && (states[|ops|].now >= e.target && AllCancelled(ops)[e] == 0 ==> AllFired(ops)[e] == 1)
  }

  /** Timer exactness: in every orderly run, of every timer. */
  lemma TimerExactness(states: seq<Bag>, ops: seq<Op>, i: nat)
    requires Run(states, ops) && Orderly(states, ops) && Fresh(states[0]) && i < |ops| && ops[i].Add?
    ensures Exact(states, ops, i)
  {
    var e := Entry(states[i].nextId, ops[i].target, ops[i].kind);
    RunConserves(states, ops, e);
    RunStaysFresh(states, ops);
    AddedOnce(states, ops, i);
    NotPendingAtStart(states, ops, i, e);
    forall k | 0 <= k < |ops| && ops[k].Tick? && e in ops[k].fired ensures states[k + 1].now == e.target {
      FiresOnlyOnTarget(states, ops, k, e);
    }
  }

  lemma NotPendingAtStart(states: seq<Bag>, ops: seq<Op>, i: nat, e: Entry)
    requires Run(states, ops) && Orderly(states, ops) && Fresh(states[0]) && i <= |ops| && e.id == states[i].nextId
    ensures states[0].pending[e] == 0
  {
    RunUpTo(states, ops, i);
    IdsGrow(states[..i + 1], ops[..i], 0);
  }

  lemma FiresOnlyOnTarget(states: seq<Bag>, ops: seq<Op>, k: nat, e: Entry)
    requires Run(states, ops) && Orderly(states, ops) && Fresh(states[0])
    requires k < |ops| && ops[k].Tick? && e in ops[k].fired
    ensures states[k + 1].now == e.target
  {
    RunUpTo(states, ops, k);
    RunStaysFresh(states[..k + 1], ops[..k]);
    FiresOnTarget(states[k], ops[k].fired, states[k + 1], e);
  }
}
