/** The geometry of the binary buddy allocator (rust/kernel/src/memory.rs).

    A block of order `o` is an aligned run of `2^o` frames.  The allocator stores a set of free blocks;
    this module relates such a set to the plain set of free frames it covers.  The central result is
    `CanonicalForm`: "aligned, disjoint and without a mergeable pair of buddies" says exactly that the
    blocks are the maximal aligned blocks of the frames they cover. */
module BuddyBlocks {
  import opened Arithmetic

  /** Orders 0 through 10. */
  const MAX_ORDER: nat := 11

  /** `1 << o`. */
  function Size(o: nat): (s: nat)
    ensures s >= 1
  {
    if o == 0 then 1 else 2 * Size(o - 1)
  }

  /** `n ^ (1 << o)`: flips bit `o` of `n`. */
  function FlipBit(n: nat, o: nat): nat {
    if (n / Size(o)) % 2 == 0 then n + Size(o) else
      assert n >= Size(o) by { if n < Size(o) { SmallQuotient(n, Size(o)); } }
      n - Size(o)
  }

  /** `n & !((1 << o) - 1)`: the order-`o` block boundary at or below `n`. */
  function HeadAt(n: nat, o: nat): nat {
    RemainderAtMost(n, Size(o));
    n - n % Size(o)
  }

  datatype Block = Block(head: nat, order: nat) {
    predicate Has(f: nat) { head <= f < head + Size(order) }

    predicate WellPlaced() { order < MAX_ORDER && head % Size(order) == 0 }

    ghost function Frames(): set<nat> { set f: nat | head <= f < head + Size(order) && Has(f) }

    function Buddy(): Block { Block(FlipBit(head, order), order) }

    function Parent(): Block { Block(HeadAt(head, order + 1), order + 1) }
  }

  /** The frames covered by a set of blocks. */
  ghost function FramesOf(bs: set<Block>): set<nat> {
    set b, f | b in bs && f in b.Frames() :: f
  }

  ghost predicate Disjoint(bs: set<Block>) {
    forall b, c, f: nat :: b in bs && c in bs && b.Has(f) && c.Has(f) ==> b == c
  }

  ghost predicate WellPlaced(bs: set<Block>) {
    forall b :: b in bs ==> b.WellPlaced()
  }

  /** No two buddies that the allocator would merge are both present. */
  ghost predicate NoBuddies(bs: set<Block>) {
    forall b :: b in bs && b.order + 1 < MAX_ORDER ==> b.Buddy() !in bs
  }

  ghost predicate Canonical(bs: set<Block>) {
    WellPlaced(bs) && Disjoint(bs) && NoBuddies(bs)
  }

  /** `b` is an aligned block inside `free` that no larger block of the allocator inside `free` contains. */
  ghost predicate IsMaximal(b: Block, free: set<nat>) {
    && b.WellPlaced()
    && b.Frames() <= free
    && (b.order + 1 < MAX_ORDER ==> !(b.Parent().Frames() <= free))
  }

  // ---------------------------------------------------------------- arithmetic of aligned blocks

  lemma {:induction false} SizeDivides(q: nat, o: nat) returns (k: nat)
    requires q <= o
    ensures k >= 1 && Size(o) == k * Size(q)
  {
    if q == o {
      k := 1;
    } else {
      var j := SizeDivides(q, o - 1);
      k := 2 * j;
      assert 2 * (j * Size(q)) == (2 * j) * Size(q);
    }
  }

  lemma NestedMultiples(n: nat, m: nat, k: nat, s: nat, f: nat)
    requires s >= 1 && k >= 1
    requires n * s <= f < n * s + s && m * s <= f < m * s + k * s
    ensures m * s <= n * s && n * s + s <= m * s + k * s
  {
    assert (n + 1) * s == n * s + s && (m + k) * s == m * s + k * s;
    if n < m { MulMono(n + 1, m, s); }
    if n >= m + k { MulMono(m + k, n, s); }
    MulMono(m, n, s);
    MulMono(n + 1, m + k, s);
  }

  /** Two aligned blocks that share a frame are nested. */
  lemma Nested(b: Block, c: Block, f: nat)
    requires b.head % Size(b.order) == 0 && c.head % Size(c.order) == 0
    requires b.order <= c.order && b.Has(f) && c.Has(f)
    ensures c.head <= b.head && b.head + Size(b.order) <= c.head + Size(c.order)
  {
    var k := SizeDivides(b.order, c.order);
    NestedRuns(b.head, Size(b.order), c.head, k, f);
  }

  lemma NestedRuns(bh: nat, s: nat, ch: nat, k: nat, f: nat)
    requires s >= 1 && k >= 1 && bh % s == 0 && ch % (k * s) == 0
    requires bh <= f < bh + s && ch <= f < ch + k * s
    ensures ch <= bh && bh + s <= ch + k * s
  {
    var n := Multiple(bh, s);
    var m := Multiple(ch, k * s);
    assert m * (k * s) == (m * k) * s;
    NestedMultiples(n, m * k, k, s, f);
  }

  /** The arithmetic of a block of `s` frames inside its parent of `2 * s` frames. */
  lemma EvenHalf(m: nat, s: nat)
    requires s >= 1
    ensures var h :=
      2 * m * s; h % (2 * s) == 0 && (h + s) % s == 0 && (h + s) / s == 2 * m + 1 && (h + s) % (2 * s) == s
  {
    var h := 2 * m * s;
    assert h == m * (2 * s);
    MultipleHasNoRemainder(m, 2 * s);
    assert (2 * m + 1) * s == h + s;
    MultipleHasNoRemainder(2 * m + 1, s);
    DivModUnique(h + s, m, s, 2 * s);
  }

  lemma HalfGeometry(h: nat, s: nat)
    requires s >= 1 && h % s == 0
    ensures (h / s) % 2 == 0 ==>
      h % (2 * s) == 0 && (h + s) % s == 0 && ((h + s) / s) % 2 == 1 && (h + s) % (2 * s) == s
    ensures (h / s) % 2 == 1 ==>
      h >= s && h % (2 * s) == s && (h - s) % s == 0 && ((h - s) / s) % 2 == 0 && (h - s) % (2 * s) == 0
  {
    var n := Multiple(h, s);
    MultipleHasNoRemainder(n, s);
    var m := n / 2;
    EvenHalf(m, s);
    if n % 2 == 1 {
      assert (2 * m + 1) * s == h && h - s == 2 * m * s;
      MultipleHasNoRemainder(2 * m, s);
    }
  }

  /** How an aligned block, its buddy and its parent lie: the buddies are the two halves of the parent. */
  lemma BuddyGeometry(b: Block)
    requires b.head % Size(b.order) == 0
    ensures var s := Size(b.order); var d := b.Buddy(); var p := b.Parent();
            && Size(b.order + 1) == 2 * s
            && p.head % Size(p.order) == 0
            && d.head % s == 0
            && ((p.head == b.head && d.head == b.head + s) || (p.head == d.head && b.head == d.head + s))
            && d.Buddy() == b && d.Parent() == p
  {
    HalfGeometry(b.head, Size(b.order));
  }

  /** `HeadAt` finds the only aligned block of a given order around a frame. */
  lemma HeadAtIsTheBlock(f: nat, o: nat)
    ensures HeadAt(f, o) % Size(o) == 0 && Block(HeadAt(f, o), o).Has(f)
    ensures forall h: nat :: h % Size(o) == 0 && Block(h, o).Has(f) ==> h == HeadAt(f, o)
  {
    RunAround(f, Size(o));
    forall h: nat | h % Size(o) == 0 && Block(h, o).Has(f) ensures h == HeadAt(f, o) {
      OnlyRunAround(f, h, Size(o));
    }
  }

  lemma RunAround(f: nat, s: nat)
    requires s >= 1
    ensures (f - f % s) % s == 0 && f - f % s <= f < f - f % s + s
  {
    MultipleHasNoRemainder(f / s, s);
  }

  lemma OnlyRunAround(f: nat, h: nat, s: nat)
    requires s >= 1 && h % s == 0 && h <= f < h + s
    ensures h == f - f % s
  {
    var k := Multiple(h, s);
    DivModUnique(f, k, f - h, s);
  }

  // ---------------------------------------------------------------- canonical form

  /** In a canonical set every aligned block whose frames are all covered lies inside a single block. */
  lemma {:induction false} CoveredBlockIsInsideOne(bs: set<Block>, b: Block) returns (c: Block)
    requires Canonical(bs) && b.WellPlaced() && b.Frames() <= FramesOf(bs)
    ensures c in bs && c.order >= b.order && c.head <= b.head && b.head + Size(b.order) <= c.head + Size(c.order)
    decreases b.order
  {
    hide FlipBit, Disjoint;
    assert b.head in b.Frames();
    if b.order == 0 {
      c :| c in bs && b.head in c.Frames();
    } else {
      var lo := Block(b.head, b.order - 1);
      assert lo.head % Size(lo.order) == 0 by { HalfAligned(b.head, Size(lo.order)); }
      BuddyGeometry(lo);
      var hi := Block(b.head + Size(lo.order), b.order - 1);
      assert hi.head % Size(hi.order) == 0 && lo.Buddy() == hi by { LowerHalfBuddy(b.head, lo.order); }
      assert lo.Frames() <= b.Frames() && hi.Frames() <= b.Frames();
      var cl := CoveredBlockIsInsideOne(bs, lo);
      var ch := CoveredBlockIsInsideOne(bs, hi);
      if cl.order > lo.order {
        Nested(b, cl, b.head);
        c := cl;
      } else if ch.order > hi.order {
        Nested(b, ch, hi.head);
        c := ch;
      } else {
        assert false;
      }
    }
  }

  lemma HalfAligned(n: nat, s: nat)
    requires s >= 1 && n % (2 * s) == 0
    ensures n % s == 0
  {
    var k := Multiple(n, 2 * s);
    assert n == (2 * k) * s;
    MultipleHasNoRemainder(2 * k, s);
  }

  lemma LowerHalfBuddy(h: nat, o: nat)
    requires h % Size(o + 1) == 0
    ensures (h + Size(o)) % Size(o) == 0 && h % Size(o) == 0
    ensures Block(h, o).Buddy() == Block(h + Size(o), o) && Block(h + Size(o), o).Buddy() == Block(h, o)
    ensures Block(h, o).Parent() == Block(h, o + 1) && Block(h + Size(o), o).Parent() == Block(h, o + 1)
  {
    var s := Size(o);
    HalfAligned(h, s);
    var k := Multiple(h, 2 * s);
    assert h == (2 * k) * s;
    MultipleHasNoRemainder(2 * k, s);
    BuddyGeometry(Block(h, o));
  }

  /** The canonical-form theorem: the locally checkable conditions hold exactly when the blocks are
      the maximal aligned blocks of the frames they cover. */
  lemma CanonicalForm(bs: set<Block>)
    ensures Canonical(bs) <==> (forall b :: b in bs <==> IsMaximal(b, FramesOf(bs)))
  {
    if Canonical(bs) {
      forall b ensures b in bs <==> IsMaximal(b, FramesOf(bs)) {
        if b in bs { BlocksAreMaximal(bs, b); }
        if IsMaximal(b, FramesOf(bs)) { MaximalBlocksArePresent(bs, b); }
      }
    }
    if forall b :: b in bs <==> IsMaximal(b, FramesOf(bs)) {
      MaximalBlocksAreCanonical(bs);
    }
  }

  lemma BlocksAreMaximal(bs: set<Block>, b: Block)
    requires Canonical(bs) && b in bs
    ensures IsMaximal(b, FramesOf(bs))
  {
    if b.order + 1 < MAX_ORDER && b.Parent().Frames() <= FramesOf(bs) {
      BuddyGeometry(b);
      var c := CoveredBlockIsInsideOne(bs, b.Parent());
      assert b.Has(b.head) && c.Has(b.head);
      assert false;
    }
  }

  lemma MaximalBlocksArePresent(bs: set<Block>, b: Block)
    requires Canonical(bs) && IsMaximal(b, FramesOf(bs))
    ensures b in bs
  {
    var c := CoveredBlockIsInsideOne(bs, b);
    if c.order > b.order {
      ParentInside(b, c, b.head);
      assert false;
    }
  }

  lemma MaximalBlocksAreCanonical(bs: set<Block>)
    requires forall b :: b in bs <==> IsMaximal(b, FramesOf(bs))
    ensures Canonical(bs)
  {
    forall b, c, f: nat | b in bs && c in bs && b.Has(f) && c.Has(f) ensures b == c {
      MaximalIsLargest(b, c, f, FramesOf(bs));
      MaximalIsLargest(c, b, f, FramesOf(bs));
      Nested(b, c, f);
      Nested(c, b, f);
    }
    forall b | b in bs && b.order + 1 < MAX_ORDER ensures b.Buddy() !in bs {
      if b.Buddy() in bs {
        ParentIsBothHalves(b);
        assert false;
      }
    }
  }

  lemma MaximalIsLargest(b: Block, c: Block, f: nat, free: set<nat>)
    requires IsMaximal(b, free) && c.WellPlaced() && c.Frames() <= free && b.Has(f) && c.Has(f)
    ensures c.order <= b.order
  {
    if b.order < c.order { ParentInside(b, c, f); }
  }

  lemma ParentInside(b: Block, c: Block, f: nat)
    requires b.head % Size(b.order) == 0 && c.head % Size(c.order) == 0
    requires b.order < c.order && b.Has(f) && c.Has(f)
    ensures b.Parent().Frames() <= c.Frames()
  {
    BuddyGeometry(b);
    Nested(b.Parent(), c, f);
  }

  lemma ParentIsBothHalves(b: Block)
    requires b.head % Size(b.order) == 0
    ensures b.Parent().Frames() == b.Frames() + b.Buddy().Frames()
  {
    BuddyGeometry(b);
  }

  /** A canonical set is determined by the frames it covers. */
  lemma CanonicalIsUnique(bs: set<Block>, cs: set<Block>)
    requires Canonical(bs) && Canonical(cs) && FramesOf(bs) == FramesOf(cs)
    ensures bs == cs
  {
    CanonicalForm(bs);
    CanonicalForm(cs);
    assert forall b :: b in bs <==> b in cs;
  }

  // ---------------------------------------------------------------- adding and removing one block

  lemma AddBlock(bs: set<Block>, b: Block)
    requires Disjoint(bs) && FramesOf(bs) !! b.Frames()
    ensures Disjoint(bs + {b}) && b !in bs
    ensures FramesOf(bs + {b}) == FramesOf(bs) + b.Frames()
  {
    assert b.Has(b.head) && b.head in b.Frames();
    forall c, d, f: nat | c in bs + {b} && d in bs + {b} && c.Has(f) && d.Has(f) ensures c == d {
      assert f in c.Frames() && f in d.Frames();
    }
  }

  lemma RemoveBlock(bs: set<Block>, b: Block)
    requires Disjoint(bs) && b in bs
    ensures Disjoint(bs - {b})
    ensures FramesOf(bs - {b}) == FramesOf(bs) - b.Frames() && b.Frames() <= FramesOf(bs)
  {
    forall f | f in FramesOf(bs) && f !in b.Frames() ensures f in FramesOf(bs - {b}) {
      var c :| c in bs && f in c.Frames();
      assert c in bs - {b};
    }
  }

  lemma FramesOfUnion(bs: set<Block>, cs: set<Block>)
    ensures FramesOf(bs + cs) == FramesOf(bs) + FramesOf(cs)
  {
  }

  /** Adding a block whose buddy is absent creates no mergeable pair. */
  lemma AddKeepsNoBuddies(bs: set<Block>, b: Block)
    requires WellPlaced(bs) && NoBuddies(bs) && b.WellPlaced()
    requires b.order + 1 < MAX_ORDER ==> b.Buddy() !in bs
    ensures NoBuddies(bs + {b})
  {
    forall c | c in bs + {b} && c.order + 1 < MAX_ORDER ensures c.Buddy() !in bs + {b} {
      BuddyGeometry(c);
    }
  }

  lemma BlockCard(b: Block)
    ensures |b.Frames()| == Size(b.order)
  {
    var run := set f: nat | b.head <= f < b.head + Size(b.order) && b.Has(f);
    RunCard(b.head, b.head + Size(b.order), b.Frames());
  }

  lemma {:induction false} RunCard(lo: nat, hi: nat, run: set<nat>)
    requires lo <= hi && forall f: nat :: f in run <==> lo <= f < hi
    ensures |run| == hi - lo
    decreases hi - lo
  {
    if lo == hi {
      assert run == {};
    } else {
      RunCard(lo + 1, hi, run - {lo});
    }
  }

  /** The total size of a set of blocks. */
  ghost function TotalSize(bs: set<Block>): nat {
    if bs == {} then 0 else
      var b :| b in bs;
      Size(b.order) + TotalSize(bs - {b})
  }

  lemma {:induction false} TotalSizeAdd(bs: set<Block>, b: Block)
    requires b !in bs
    ensures TotalSize(bs + {b}) == TotalSize(bs) + Size(b.order)
    decreases bs
  {
    var cs := bs + {b};
    var c :| c in cs && TotalSize(cs) == Size(c.order) + TotalSize(cs - {c});
    if c == b {
      assert cs - {b} == bs;
    } else {
      assert cs - {c} == (bs - {c}) + {b};
      TotalSizeAdd(bs - {c}, b);
      assert bs == (bs - {c}) + {c};
      TotalSizeAdd(bs - {c}, c);
    }
  }

  /** Disjoint blocks cover as many frames as their sizes add up to. */
  lemma {:induction false} DisjointCard(bs: set<Block>)
    requires Disjoint(bs)
    ensures |FramesOf(bs)| == TotalSize(bs)
    decreases bs
  {
    if bs == {} {
      assert FramesOf(bs) == {};
    } else {
      var b :| b in bs && TotalSize(bs) == Size(b.order) + TotalSize(bs - {b});
      RemoveBlock(bs, b);
      DisjointCard(bs - {b});
      BlockCard(b);
      assert FramesOf(bs) == FramesOf(bs - {b}) + b.Frames();
    }
  }

  // ---------------------------------------------------------------- joining two canonical sets

  /** An allocator block whose frames are all free but come from both of two free regions. */
  ghost predicate Straddles(b: Block, f1: set<nat>, f2: set<nat>) {
    b.WellPlaced() && b.Frames() <= f1 + f2 && !(b.Frames() <= f1) && !(b.Frames() <= f2)
  }

  /** The union of two canonical sets over disjoint regions is canonical exactly when no allocator block
      lies across the two regions. */
  lemma JoinIsCanonical(bs: set<Block>, cs: set<Block>)
    requires Canonical(bs) && Canonical(cs) && FramesOf(bs) !! FramesOf(cs)
    ensures Canonical(bs + cs) <==> !(exists b :: Straddles(b, FramesOf(bs), FramesOf(cs)))
  {
    FramesOfUnion(bs, cs);
    if Canonical(bs + cs) {
      forall b | Straddles(b, FramesOf(bs), FramesOf(cs)) ensures false {
        StraddlerMeansMergeable(bs, cs, b);
      }
    } else {
      JoinIsDisjoint(bs, cs);
      var b :| b in bs + cs && b.order + 1 < MAX_ORDER && b.Buddy() in bs + cs;
      MergeablePairStraddles(bs, cs, b);
    }
  }

  lemma JoinIsDisjoint(bs: set<Block>, cs: set<Block>)
    requires Disjoint(bs) && Disjoint(cs) && FramesOf(bs) !! FramesOf(cs)
    ensures Disjoint(bs + cs)
  {
    forall b, c, f: nat | b in bs + cs && c in bs + cs && b.Has(f) && c.Has(f) ensures b == c {
      assert f in b.Frames() && f in c.Frames();
      assert b in bs ==> f in FramesOf(bs);
      assert c in bs ==> f in FramesOf(bs);
      assert b in cs ==> f in FramesOf(cs);
      assert c in cs ==> f in FramesOf(cs);
    }
  }

  lemma StraddlerMeansMergeable(bs: set<Block>, cs: set<Block>, b: Block)
    requires Disjoint(bs + cs) && WellPlaced(bs + cs) && Straddles(b, FramesOf(bs), FramesOf(cs))
    ensures !NoBuddies(bs + cs)
  {
    FramesOfUnion(bs, cs);
    if NoBuddies(bs + cs) {
      var c := CoveredBlockIsInsideOne(bs + cs, b);
      InsideMeansFrames(b, c);
    }
  }

  lemma InsideMeansFrames(b: Block, c: Block)
    requires c.head <= b.head && b.head + Size(b.order) <= c.head + Size(c.order)
    ensures b.Frames() <= c.Frames()
  {
  }

  lemma MergeablePairStraddles(bs: set<Block>, cs: set<Block>, b: Block)
    requires Canonical(bs) && Canonical(cs) && FramesOf(bs) !! FramesOf(cs)
    requires b in bs + cs && b.order + 1 < MAX_ORDER && b.Buddy() in bs + cs
    ensures Straddles(b.Parent(), FramesOf(bs), FramesOf(cs))
  {
    BuddyGeometry(b);
    ParentIsBothHalves(b);
    var d := b.Buddy();
    assert b.head in b.Frames() && d.head in d.Frames();
    assert b in bs <==> d in cs;
    assert b.head in FramesOf(bs) <==> b in bs;
    assert d.head in FramesOf(bs) <==> d in bs;
  }

  /** A run of frames whose two neighbours are not free has no straddling block. */
  lemma SeparatedRunsDoNotStraddle(free: set<nat>, lo: nat, hi: nat, run: set<nat>, b: Block)
    requires lo <= hi && (forall f: nat :: f in run <==> lo <= f < hi)
    requires hi !in free && (lo > 0 ==> lo - 1 !in free)
    ensures !Straddles(b, free, run)
  {
    assert lo > 0 && b.Has(lo - 1) ==> lo - 1 in b.Frames();
    assert b.Has(hi) ==> hi in b.Frames();
  }
}
