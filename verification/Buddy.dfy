/** The binary buddy frame allocator (rust/kernel/src/memory.rs): arrays, loops and counters as the kernel
    keeps them, proved against the plain view "a set of free frames and a set of live blocks". */
module Buddy {
  import opened BuddyBlocks
  import opened Options

  const PAGE_SIZE: nat := 4096
  const U64_MAX: nat := 0xFFFF_FFFF_FFFF_FFFF
  const U16_MAX: nat := 0xFFFF

  /** Blocks handed out, as blocks. */
  ghost function BlocksOf(live: map<nat, nat>): set<Block> {
    set h | h in live :: Block(h, live[h])
  }

  ghost predicate Placed(bs: set<Block>, maxPfn: nat) {
    WellPlaced(bs) && Disjoint(bs) && forall b :: b in bs ==> b.head + Size(b.order) <= maxPfn
  }

  /** `b` is a well placed block none of whose frames belong to `bs`. */
  ghost predicate Apart(bs: set<Block>, b: Block, maxPfn: nat) {
    b.WellPlaced() && b.head + Size(b.order) <= maxPfn && FramesOf(bs) !! b.Frames()
  }

  lemma PlaceBlock(bs: set<Block>, b: Block, maxPfn: nat)
    requires Placed(bs, maxPfn) && Apart(bs, b, maxPfn)
    ensures Placed(bs + {b}, maxPfn) && b !in bs && FramesOf(bs + {b}) == FramesOf(bs) + b.Frames()
  {
    AddBlock(bs, b);
  }

  lemma TakeBlock(bs: set<Block>, b: Block, maxPfn: nat)
    requires Placed(bs, maxPfn) && b in bs
    ensures Placed(bs - {b}, maxPfn) && Apart(bs - {b}, b, maxPfn)
    ensures FramesOf(bs - {b}) == FramesOf(bs) - b.Frames() && b.Frames() <= FramesOf(bs)
  {
    RemoveBlock(bs, b);
  }

  /** Splitting a block in two: the half kept stays apart once the other half joins the free blocks. */
  lemma SplitBlock(bs: set<Block>, hand: Block, keep: Block, give: Block, maxPfn: nat)
    requires Placed(bs, maxPfn) && Apart(bs, hand, maxPfn) && hand.order > 0
    requires keep.order == hand.order - 1 && give == keep.Buddy() && keep.Parent() == hand
      && keep.head % Size(keep.order) == 0
    ensures Apart(bs, give, maxPfn) && Apart(bs + {give}, keep, maxPfn) && Placed(bs + {give}, maxPfn)
    ensures hand.Frames() == keep.Frames() + give.Frames() && keep.Frames() !! give.Frames()
    ensures give.Buddy() == keep && keep !in bs
  {
    BuddyGeometry(keep);
    ParentIsBothHalves(keep);
    PlaceBlock(bs, give, maxPfn);
    assert keep.head in keep.Frames();
  }

  /** Merging the block in hand with its free buddy. */
  lemma MergeBlock(bs: set<Block>, hand: Block, maxPfn: nat)
    requires Placed(bs, maxPfn) && Apart(bs, hand, maxPfn) && hand.order + 1 < MAX_ORDER && hand.Buddy() in bs
    ensures var rest := bs - {hand.Buddy()};
            && Apart(rest, hand.Parent(), maxPfn)
            && FramesOf(rest) + hand.Parent().Frames() == FramesOf(bs) + hand.Frames()
    ensures hand.Parent().head == (if hand.head <= hand.Buddy().head then hand.head else hand.Buddy().head)
  {
    BuddyGeometry(hand);
    ParentIsBothHalves(hand);
    TakeBlock(bs, hand.Buddy(), maxPfn);
  }

  /** The live blocks after one more is handed out or one is taken back. */
  lemma BlocksOfUpdate(live: map<nat, nat>, h: nat, o: nat)
    requires h !in live
    ensures BlocksOf(live[h := o]) == BlocksOf(live) + {Block(h, o)}
    ensures BlocksOf(live[h := o] - {h}) == BlocksOf(live)
  {
    assert live[h := o] - {h} == live;
    forall b ensures b in BlocksOf(live[h := o]) <==> b in BlocksOf(live) + {Block(h, o)} {
      assert b in BlocksOf(live) <==> b.head in live && live[b.head] == b.order;
      assert b in BlocksOf(live[h := o]) <==> b.head in live[h := o] && live[h := o][b.head] == b.order;
    }
  }

  // ---------------------------------------------------------------- the plain view

  /** A live block: its order and how many owners share it. */
  datatype Grant = Grant(order: nat, refs: nat)

  /** The allocator as its callers see it. */
  datatype FramePool = FramePool(free: set<nat>, live: map<nat, Grant>)

  ghost function GrantedBlocks(live: map<nat, Grant>): set<Block> {
    set h | h in live :: Block(h, live[h].order)
  }

  /** Live blocks are aligned, pairwise disjoint and disjoint from the free frames. */
  ghost predicate PoolOk(p: FramePool) {
    && WellPlaced(GrantedBlocks(p.live)) && Disjoint(GrantedBlocks(p.live))
    && FramesOf(GrantedBlocks(p.live)) !! p.free
    && (forall h :: h in p.live ==> p.live[h].refs > 0)
  }

  /** A whole aligned block of the given order is free. */
  ghost predicate HasRun(free: set<nat>, order: nat) {
    exists h: nat :: Block(h, order).WellPlaced() && Block(h, order).Frames() <= free
  }

  datatype Op =
    | Alloc(order: nat, result: Option<nat>)
    | Free(addr: nat, ok: bool)
    | Reserve(addr: nat)
    | Share(pfn: nat)

  /** One call on the plain view.  `Reserve` may find its frame already marked and then changes nothing. */
  ghost predicate Step(p: FramePool, op: Op, q: FramePool) {
    match op
    case Alloc(order, result) =>
      if result.None? then !HasRun(p.free, order) && q == p
      else
        var b := Block(result.value, order);
        b.WellPlaced() && b.Frames() <= p.free && q == FramePool(p.free - b.Frames(), p.live[b.head := Grant(order, 1)])
    case Free(addr, ok) =>
      var pfn := addr / PAGE_SIZE;
      if addr == 0 || addr % PAGE_SIZE != 0 || pfn !in p.live then !ok && q == p
      else if p.live[pfn].refs > 1 then ok && q == p.(live := p.live[pfn := p.live[pfn].(refs := p.live[pfn].refs - 1)])
      else ok && q == FramePool(p.free + Block(pfn, p.live[pfn].order).Frames(), p.live - {pfn})
    case Reserve(addr) =>
      var pfn := addr / PAGE_SIZE;
      q == p || (pfn in p.free && q == FramePool(p.free - {pfn}, p.live[pfn := Grant(0, 1)]))
    case Share(pfn) =>
      if pfn in p.live && p.live[pfn].refs < U16_MAX
      then q == p.(live := p.live[pfn := p.live[pfn].(refs := p.live[pfn].refs + 1)])
      else q == p
  }

  ghost predicate Run(states: seq<FramePool>, ops: seq<Op>) {
    && |states| == |ops| + 1
    && forall i :: 0 <= i < |ops| ==> Step(states[i], ops[i], states[i + 1])
  }

  ghost function Usable(p: FramePool): set<nat> {
    p.free + FramesOf(GrantedBlocks(p.live))
  }

  lemma GrantedAfterUpdate(live: map<nat, Grant>, h: nat, g: Grant)
    requires h !in live || live[h].order == g.order
    ensures GrantedBlocks(live[h := g]) == GrantedBlocks(live) + {Block(h, g.order)}
  {
    forall b ensures b in GrantedBlocks(live[h := g]) <==> b in GrantedBlocks(live) + {Block(h, g.order)} {
      assert b in GrantedBlocks(live) <==> b.head in live && live[b.head].order == b.order;
      assert b in GrantedBlocks(live[h := g]) <==> b.head in live[h := g] && live[h := g][b.head].order == b.order;
    }
  }

  lemma GrantedAfterRemove(live: map<nat, Grant>, h: nat)
    requires h in live
    ensures GrantedBlocks(live - {h}) == GrantedBlocks(live) - {Block(h, live[h].order)}
  {
    forall b ensures b in GrantedBlocks(live - {h}) <==> b in GrantedBlocks(live) - {Block(h, live[h].order)} {
      assert b in GrantedBlocks(live) <==> b.head in live && live[b.head].order == b.order;
      assert b in GrantedBlocks(live - {h}) <==> b.head in live - {h} && (live - {h})[b.head].order == b.order;
    }
  }

  lemma GrantKeeps(p: FramePool, h: nat, o: nat)
    requires PoolOk(p) && Block(h, o).WellPlaced() && Block(h, o).Frames() <= p.free
    ensures var q := FramePool(p.free - Block(h, o).Frames(), p.live[h := Grant(o, 1)]);
            PoolOk(q) && Usable(q) == Usable(p) && h !in p.live
  {
    var b := Block(h, o);
    assert h in b.Frames();
    assert h in p.live ==>
      Block(h, p.live[h].order) in GrantedBlocks(p.live) && h in Block(h, p.live[h].order).Frames();
    GrantedAfterUpdate(p.live, h, Grant(o, 1));
    AddBlock(GrantedBlocks(p.live), b);
  }

  lemma SingleFrame(p: nat)
    ensures Block(p, 0).Frames() == {p}
  {
    assert forall f: nat :: Block(p, 0).Has(f) <==> f == p;
  }

  lemma {:induction false} StepKeeps(p: FramePool, op: Op, q: FramePool)
    requires PoolOk(p) && Step(p, op, q)
    ensures PoolOk(q) && Usable(q) == Usable(p)
  {
    match op
    case Alloc(order, result) =>
      if result.Some? { GrantKeeps(p, result.value, order); }
    case Free(addr, ok) =>
      var pfn := addr / PAGE_SIZE;
      if ok {
        var b := Block(pfn, p.live[pfn].order);
        assert b in GrantedBlocks(p.live);
        if p.live[pfn].refs > 1 {
          GrantedAfterUpdate(p.live, pfn, p.live[pfn].(refs := p.live[pfn].refs - 1));
        } else {
          GrantedAfterRemove(p.live, pfn);
          RemoveBlock(GrantedBlocks(p.live), b);
        }
        assert GrantedBlocks(p.live) + {b} == GrantedBlocks(p.live);
      }
    case Reserve(addr) =>
      var pfn := addr / PAGE_SIZE;
      if q != p {
        SingleFrame(pfn);
        GrantKeeps(p, pfn, 0);
      }
    case Share(pfn) =>
      if pfn in p.live {
        GrantedAfterUpdate(p.live, pfn, p.live[pfn].(refs := p.live[pfn].refs + 1));
        assert Block(pfn, p.live[pfn].order) in GrantedBlocks(p.live);
        assert GrantedBlocks(p.live) + {Block(pfn, p.live[pfn].order)} == GrantedBlocks(p.live);
      }
  }

  /** Conservation over every run: no frame is lost or handed out twice. */
  lemma {:induction false} RunConserves(states: seq<FramePool>, ops: seq<Op>)
    requires Run(states, ops) && PoolOk(states[0])
    ensures var p := states[|ops|];
            && PoolOk(p)
            && Usable(p) == Usable(states[0])
            && |p.free| + TotalSize(GrantedBlocks(p.live)) == |Usable(states[0])|
  {
    if |ops| == 0 {
      DisjointCard(GrantedBlocks(states[0].live));
    } else {
      var n := |ops| - 1;
      assert Run(states[..|ops|], ops[..n]);
      RunConserves(states[..|ops|], ops[..n]);
      StepKeeps(states[n], ops[n], states[n + 1]);
      DisjointCard(GrantedBlocks(states[n + 1].live));
    }
  }

  /** Freeing a block just allocated gives back the very same pool. */
  lemma AllocThenFree(p: FramePool, order: nat, h: nat, q: FramePool, r: FramePool)
    requires PoolOk(p) && h > 0
    requires Step(p, Alloc(order, Some(h)), q) && Step(q, Free(h * PAGE_SIZE, true), r)
    ensures r == p
  {
    GrantKeeps(p, h, order);
    assert (h * PAGE_SIZE) / PAGE_SIZE == h;
    assert p.live[h := Grant(order, 1)] - {h} == p.live;
    assert p.free - Block(h, order).Frames() + Block(h, order).Frames() == p.free;
  }

  // ---------------------------------------------------------------- from the allocator's fields to the plain view

  ghost predicate InRange(live: map<nat, nat>, refs: seq<nat>) {
    forall h :: h in live ==> h < |refs|
  }

  ghost function GrantsOf(live: map<nat, nat>, refs: seq<nat>): map<nat, Grant>
    requires InRange(live, refs)
  {
    map h | h in live :: Grant(live[h], refs[h])
  }

  ghost function PoolView(free: set<nat>, live: map<nat, nat>, refs: seq<nat>): FramePool
    requires InRange(live, refs)
  {
    FramePool(free, GrantsOf(live, refs))
  }

  lemma ViewGrant(live: map<nat, nat>, refs: seq<nat>, h: nat, o: nat, r: nat)
    requires InRange(live, refs) && h < |refs|
    ensures GrantsOf(live[h := o], refs[h := r]) == GrantsOf(live, refs)[h := Grant(o, r)]
  {
  }

  lemma ViewShare(live: map<nat, nat>, refs: seq<nat>, h: nat, r: nat)
    requires InRange(live, refs) && h in live
    ensures GrantsOf(live, refs[h := r]) == GrantsOf(live, refs)[h := Grant(live[h], r)]
  {
    assert live[h := live[h]] == live;
    ViewGrant(live, refs, h, live[h], r);
  }

  lemma ViewRelease(live: map<nat, nat>, refs: seq<nat>, h: nat)
    requires InRange(live, refs) && h in live
    ensures GrantsOf(live - {h}, refs[h := 0]) == GrantsOf(live, refs) - {h}
  {
  }

  lemma ViewBlocks(live: map<nat, nat>, refs: seq<nat>)
    requires InRange(live, refs)
    ensures GrantedBlocks(GrantsOf(live, refs)) == BlocksOf(live)
  {
    var g := GrantsOf(live, refs);
    forall b ensures b in GrantedBlocks(g) <==> b in BlocksOf(live) {
      assert b in BlocksOf(live) <==> b.head in live && live[b.head] == b.order;
      assert b in GrantedBlocks(g) <==> b.head in g && g[b.head].order == b.order;
    }
  }

  // One lemma per operation: what the field updates of a call amount to in the plain view.

  lemma StepAlloc(free: set<nat>, live: map<nat, nat>, refs: seq<nat>, h: nat, o: nat)
    requires InRange(live, refs) && h < |refs| && Block(h, o).WellPlaced() && Block(h, o).Frames() <= free
    ensures InRange(live[h := o], refs[h := 1])
    ensures Step(PoolView(free, live, refs), Alloc(o, Some(h)),
      PoolView(free - Block(h, o).Frames(), live[h := o], refs[h := 1]))
  {
    ViewGrant(live, refs, h, o, 1);
  }

  lemma StepShare(free: set<nat>, live: map<nat, nat>, refs: seq<nat>, h: nat, r: nat)
    requires InRange(live, refs) && h in live && refs[h] <= U16_MAX
    requires r == if refs[h] < U16_MAX then refs[h] + 1 else U16_MAX
    ensures InRange(live, refs[h := r])
    ensures Step(PoolView(free, live, refs), Share(h), PoolView(free, live, refs[h := r]))
  {
    ViewShare(live, refs, h, r);
    assert GrantsOf(live, refs)[h := Grant(live[h], refs[h])] == GrantsOf(live, refs);
  }

  lemma StepNoShare(free: set<nat>, live: map<nat, nat>, refs: seq<nat>, h: nat)
    requires InRange(live, refs) && h >= |refs|
    ensures Step(PoolView(free, live, refs), Share(h), PoolView(free, live, refs))
  {
  }

  lemma StepRefuse(free: set<nat>, live: map<nat, nat>, refs: seq<nat>, addr: nat)
    requires InRange(live, refs) && (addr == 0 || addr % PAGE_SIZE != 0 || addr / PAGE_SIZE !in live)
    ensures Step(PoolView(free, live, refs), Free(addr, false), PoolView(free, live, refs))
  {
  }

  lemma StepUnshare(free: set<nat>, live: map<nat, nat>, refs: seq<nat>, addr: nat, h: nat)
    requires InRange(live, refs) && addr != 0 && addr % PAGE_SIZE == 0 && h == addr / PAGE_SIZE && h in live
      && refs[h] > 1
    ensures Step(PoolView(free, live, refs), Free(addr, true), PoolView(free, live, refs[h := refs[h] - 1]))
  {
    ViewShare(live, refs, h, refs[h] - 1);
  }

  lemma StepRelease(free: set<nat>, live: map<nat, nat>, refs: seq<nat>, addr: nat, h: nat)
    requires InRange(live, refs) && addr != 0 && addr % PAGE_SIZE == 0 && h == addr / PAGE_SIZE && h in live
      && refs[h] == 1
    ensures Step(PoolView(free, live, refs), Free(addr, true),
      PoolView(free + Block(h, live[h]).Frames(), live - {h}, refs[h := 0]))
  {
    ViewRelease(live, refs, h);
  }

  lemma StepReserve(free: set<nat>, live: map<nat, nat>, refs: seq<nat>, addr: nat, h: nat)
    requires InRange(live, refs) && h == addr / PAGE_SIZE && h < |refs| && h in free
    ensures InRange(live[h := 0], refs[h := 1])
    ensures Step(PoolView(free, live, refs), Reserve(addr), PoolView(free - {h}, live[h := 0], refs[h := 1]))
  {
    ViewGrant(live, refs, h, 0, 1);
  }
}
