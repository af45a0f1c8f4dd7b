/** `BuddyAllocator` of rust/kernel/src/memory.rs, updated in place as in the kernel. */
module BuddyFrames {
  import opened BuddyBlocks
  import opened BuddyLists
  import opened Buddy
  import opened Arithmetic
  import opened Options

  /** `align_up` of memory.rs: round up to a page, saturating at the top of the address range. */
  function AlignUp(address: nat): nat {
    var t := if address + (PAGE_SIZE - 1) > U64_MAX then U64_MAX else address + (PAGE_SIZE - 1);
    t - t % PAGE_SIZE
  }

  /** First frame of a usable range: the null page is never handed out. */
  function RangeFirst(base: nat): nat {
    Max(AlignUp(base), PAGE_SIZE) / PAGE_SIZE
  }

  /** One past the last whole tracked frame of a usable range; an overflowing range is ignored. */
  function RangeEnd(base: nat, length: nat, maxPfn: nat): nat {
    if base + length > U64_MAX then 0 else Min((base + length) / PAGE_SIZE, maxPfn)
  }

  predicate InRun(lo: nat, hi: nat, f: nat) { lo <= f < hi }

  ghost function Frames(lo: nat, hi: nat): set<nat> {
    set f: nat | lo <= f < hi && InRun(lo, hi, f)
  }

  /** An aligned block of the given order starting here ends within the range. */
  predicate Fits(start: nat, order: nat, end: nat) {
    start + Size(order) <= end && start % Size(order) == 0
  }

  /** `saturating_sub`. */
  function SatSub(a: nat, b: nat): nat { if a >= b then a - b else 0 }

  function Min(a: nat, b: nat): nat { if a <= b then a else b }

  function Max(a: nat, b: nat): nat { if a <= b then b else a }

  /** Flags and reference counts of every frame agree with the live blocks. */
  ghost predicate Grants(flags: seq<Flags>, refs: seq<nat>, live: map<nat, nat>) {
    && |flags| == |refs|
    && (forall h :: h in live ==> h < |refs|)
    && (forall p :: 0 <= p < |refs| ==> (refs[p] > 0 <==> p in live) && refs[p] <= U16_MAX)
    && (forall p :: 0 <= p < |refs| ==> (flags[p].inUse <==> p in live))
    && (forall p :: 0 <= p < |refs| && p in live ==> flags[p].order == live[p])
  }

  /** Free and live blocks are aligned, in range and pairwise disjoint, and the counters count their frames. */
  ghost predicate Books(free: set<Block>, live: set<Block>, freeFrames: nat, total: nat, maxPfn: nat) {
    && Placed(free + live, maxPfn) && free !! live
    && Counts(FramesOf(free), FramesOf(live), freeFrames, total)
  }

  ghost predicate Counts(free: set<nat>, live: set<nat>, freeFrames: nat, total: nat) {
    freeFrames == |free| && total == |free| + |live|
  }

  /** Changing the flags of a frame that heads no live block. */
  lemma GrantsFrame(flags: seq<Flags>, refs: seq<nat>, live: map<nat, nat>, p: nat, f: Flags)
    requires Grants(flags, refs, live) && p < |flags| && p !in live && !f.inUse
    ensures Grants(flags[p := f], refs, live)
  {
  }

  /** The RESERVED marks did not change. */
  ghost predicate SameMarks(flags: seq<Flags>, flags': seq<Flags>) {
    |flags| == |flags'| && forall f :: 0 <= f < |flags| ==> flags'[f].reserved == flags[f].reserved
  }

  /** The RESERVED marks did not change, except that becoming the head of a free block clears the mark. */
  ghost predicate MarksKept(flags: seq<Flags>, flags': seq<Flags>) {
    |flags| == |flags'| && forall f :: 0 <= f < |flags| && !flags'[f].free ==> flags'[f].reserved == flags[f].reserved
  }

  /** Changing a live block's reference count to another positive value. */
  lemma GrantsShare(flags: seq<Flags>, refs: seq<nat>, live: map<nat, nat>, p: nat, r: nat)
    requires Grants(flags, refs, live) && p < |refs| && refs[p] > 0 && 0 < r <= U16_MAX
    ensures Grants(flags, refs[p := r], live)
  {
  }

  /** Taking a block back. */
  lemma GrantsRemove(flags: seq<Flags>, refs: seq<nat>, live: map<nat, nat>, p: nat)
    requires Grants(flags, refs, live) && p < |flags|
    ensures Grants(flags[p := flags[p].(inUse := false)], refs[p := 0], live - {p})
  {
  }

  lemma MarkKeepsGrants(flags: seq<Flags>, refs: seq<nat>, live: map<nat, nat>, p: nat)
    requires Grants(flags, refs, live) && p < |flags|
    ensures Grants(flags[p := flags[p].(reserved := true)], refs, live)
  {
  }

  lemma MarksAfterUpdate(flags: seq<Flags>, p: nat, f: Flags)
    requires p < |flags|
    ensures f.reserved == flags[p].reserved ==> SameMarks(flags, flags[p := f])
    ensures f.free ==> MarksKept(flags, flags[p := f])
  {
  }

  lemma MarksTransitive(a: seq<Flags>, b: seq<Flags>, c: seq<Flags>)
    requires SameMarks(a, b)
    ensures SameMarks(b, c) ==> SameMarks(a, c)
    ensures MarksKept(b, c) ==> MarksKept(a, c)
  {
  }

  /** Handing out a block. */
  lemma GrantsAdd(flags: seq<Flags>, refs: seq<nat>, live: map<nat, nat>, p: nat, f: Flags)
    requires Grants(flags, refs, live) && p < |flags| && f.inUse
    ensures Grants(flags[p := f], refs[p := 1], live[p := f.order])
  {
  }

  class BuddyAllocator {
    const maxPfn: nat
    const freeLists: array<Option<nat>>
    const nextFree: array<nat>
    const prevFree: array<nat>
    const flags: array<Flags>
    const refcounts: array<nat>
    var totalUsableFrames: nat
    var freeFrames: nat

    /** The member frames of each list, in list order. */
    ghost var lists: seq<seq<nat>>
    /** The order of every block handed out and not yet returned. */
    ghost var live: map<nat, nat>

    ghost predicate Shape() {
      && maxPfn <= MAX_SUPPORTED_FRAMES
      && freeLists.Length == MAX_ORDER
      && nextFree.Length == prevFree.Length == flags.Length == refcounts.Length == maxPfn
      && nextFree != prevFree && nextFree != refcounts && prevFree != refcounts
      && this !in {freeLists as object, nextFree, prevFree, flags, refcounts}
      && freeLists as object !in {nextFree as object, prevFree, flags, refcounts}
      && flags as object !in {nextFree as object, prevFree, refcounts}
    }

    ghost predicate ListsOk()
      reads `lists, freeLists, nextFree, prevFree, flags
    {
      Shape() && Linked(freeLists[..], nextFree[..], prevFree[..], flags[..], lists)
    }

    ghost function FreeBlocks(): set<Block>
      reads `lists
    {
      BlocksIn(lists)
    }

    ghost function FreeSet(): set<nat>
      reads `lists
    {
      FramesOf(FreeBlocks())
    }

    /** Flags and reference counts of every frame agree with the set of live blocks. */
    ghost predicate GrantsOk()
      reads `live, flags, refcounts
    {
      Shape() && Grants(flags[..], refcounts[..], live)
    }

    /** The structural invariant of every reachable state. */
    ghost predicate Valid()
      reads this, freeLists, nextFree, prevFree, flags, refcounts
    {
      ListsOk() && GrantsOk() && Books(FreeBlocks(), BlocksOf(live), freeFrames, totalUsableFrames, maxPfn)
    }

    /** The lists hold exactly the maximal aligned blocks of the free frames (see `CanonicalForm`). */
    ghost predicate ListsCanonical()
      reads `lists
    {
      Canonical(FreeBlocks())
    }

    /** The allocator as its callers see it. */
    ghost function View(): FramePool
      requires GrantsOk()
      reads `lists, `live, flags, refcounts
    {
      PoolView(FreeSet(), live, refcounts[..])
    }

    /** In every reachable state the view is a well-formed pool and the counters count it: the frame counter is the
        number of free frames, and with the sizes of the live blocks it adds up to the usable frames. */
    lemma ViewIsSound()
      requires Valid()
      ensures PoolOk(View())
      ensures freeFrames == |View().free|
      ensures totalUsableFrames == freeFrames + TotalSize(GrantedBlocks(View().live)) == |Usable(View())|
    {
      ViewBlocks(live, refcounts[..]);
      BooksAreSound(FreeBlocks(), BlocksOf(live), freeFrames, totalUsableFrames, maxPfn);
    }

    constructor (frames: nat)
      requires frames <= MAX_SUPPORTED_FRAMES
      ensures Valid() && ListsCanonical() && maxPfn == frames
      ensures FreeBlocks() == {} && live == map[]
      ensures fresh(freeLists) && fresh(nextFree) && fresh(prevFree) && fresh(flags) && fresh(refcounts)
    {
      maxPfn := frames;
      freeLists := new Option<nat>[MAX_ORDER](_ => None);
      nextFree := new nat[frames](_ => NONE);
      prevFree := new nat[frames](_ => NONE);
      flags := new Flags[frames](_ => Flags(0, false, false, false));
      refcounts := new nat[frames](_ => 0);
      totalUsableFrames := 0;
      freeFrames := 0;
      lists := seq(MAX_ORDER, _ => []);
      live := map[];
      new;
      assert FreeBlocks() == {} && BlocksOf(live) == {};
      assert FramesOf({}) == {};
    }

    /** A frame outside every free block is not flagged free. */
    lemma NotFlaggedFree(p: nat)
      requires ListsOk() && p < maxPfn && p !in FreeSet()
      ensures !flags[p].free
    {
      var b := Block(p, flags[p].order);
      InBlocks(lists, b);
      assert p in b.Frames();
    }

    /** A free block is flagged free at its head, with its order. */
    lemma FlaggedFree(b: Block)
      requires ListsOk() && b.order < MAX_ORDER && b.head < maxPfn
      ensures b in FreeBlocks() <==> flags[b.head].free && flags[b.head].order == b.order
    {
      InBlocks(lists, b);
      if b.head in lists[b.order] {
        var i :| 0 <= i < |lists[b.order]| && lists[b.order][i] == b.head;
      }
    }

    /** A frame that heads no free block is not flagged free. */
    lemma NoFreeBlockAt(p: nat)
      requires ListsOk() && p < maxPfn && (forall b :: b in FreeBlocks() ==> b.head != p)
      ensures !flags[p].free
    {
      InBlocks(lists, Block(p, flags[p].order));
    }

    method ListPush(order: nat, pfn: nat)
      requires ListsOk() && order < MAX_ORDER && (pfn < maxPfn ==> !flags[pfn].free)
      modifies freeLists, nextFree, prevFree, flags, this`lists
      ensures unchanged(this`freeFrames, this`totalUsableFrames, this`live)
      ensures ListsOk()
      ensures pfn < maxPfn ==>
                && lists == Pushed(old(lists), order, pfn)
                && FreeBlocks() == old(FreeBlocks()) + {Block(pfn, order)}
                && flags[..] == old(flags[..])[pfn := Flags(order, false, true, false)]
      ensures pfn >= maxPfn ==> lists == old(lists) && flags[..] == old(flags[..])
    {
      if pfn >= maxPfn {
        return;
      }
      var head := freeLists[order];
      ghost var heads0, next0, prev0, flags0 := freeLists[..], nextFree[..], prevFree[..], flags[..];
      assert Chain(lists[order], heads0[order], next0, prev0);
      nextFree[pfn] := if head.Some? then head.value else NONE;
      prevFree[pfn] := NONE;
      if head.Some? {
        var h := head.value;
        if h < maxPfn {
          prevFree[h] := pfn;
        }
      }
      freeLists[order] := Some(pfn);
      flags[pfn] := Flags(order, false, true, false);
      PushKeepsLinked(heads0, next0, prev0, flags0, lists, order, pfn, Flags(order, false, true, false),
                      freeLists[..], nextFree[..], prevFree[..]);
      BlocksAfterPush(lists, order, pfn);
      lists := Pushed(lists, order, pfn);
      assert flags[..] == flags0[pfn := Flags(order, false, true, false)];
    }

    method ListRemove(order: nat, pfn: nat)
      requires ListsOk() && order < MAX_ORDER && Block(pfn, order) in FreeBlocks()
      modifies freeLists, nextFree, prevFree, flags, this`lists
      ensures unchanged(this`freeFrames, this`totalUsableFrames, this`live)
      ensures ListsOk() && pfn < maxPfn
      ensures FreeBlocks() == old(FreeBlocks()) - {Block(pfn, order)}
      ensures flags[..] == old(flags[..])[pfn := old(flags[pfn]).(free := false)]
    {
      hide FlagsMatch, BlocksIn;
      InBlocks(lists, Block(pfn, order));
      ghost var l := lists[order];
      ghost var k :| 0 <= k < |l| && l[k] == pfn;
      ghost var heads0, next0, prev0, flags0 := freeLists[..], nextFree[..], prevFree[..], flags[..];
      assert Chain(l, heads0[order], next0, prev0);
      assert next0[l[k]] == After(l, k) && prev0[l[k]] == Before(l, k);
      if pfn >= maxPfn {
        return;
      }
      var prev := prevFree[pfn];
      var next := nextFree[pfn];
      if prev != NONE && prev < maxPfn {
        nextFree[prev] := next;
      } else if freeLists[order] == Some(pfn) {
        freeLists[order] := if next != NONE && next < maxPfn then Some(next) else None;
      }
      if next != NONE && next < maxPfn {
        prevFree[next] := prev;
      }
      prevFree[pfn] := NONE;
      nextFree[pfn] := NONE;
      flags[pfn] := flags[pfn].(free := false);
      assert flags[..] == flags0[pfn := flags0[pfn].(free := false)];
      assert nextFree[..] == NextWithout(l, next0, k);
      assert prevFree[..] == PrevWithout(l, prev0, k);
      RemoveKeepsLinked(heads0, next0, prev0, flags0, lists, order, k, freeLists[..], nextFree[..], prevFree[..]);
      BlocksAfterRemove(lists, order, k);
      lists := lists[order := Without(l, k)];
    }

    /** Carve an aligned block of `2^order` frames out of the smallest free block that holds one. */
    method AllocOrder(order: nat) returns (r: Option<nat>)
      requires Valid()
      modifies freeLists, nextFree, prevFree, flags, refcounts, this
      ensures Valid()
      ensures old(ListsCanonical()) ==> ListsCanonical()
      ensures r.None? <==> order >= MAX_ORDER || (forall b :: b in old(FreeBlocks()) ==> b.order < order)
      ensures old(ListsCanonical()) ==> (r.None? <==> !old(HasRun(FreeSet(), order)))
      ensures r.None? ==> unchanged(this, freeLists, nextFree, prevFree, flags, refcounts)
      ensures r.Some? ==> Step(old(View()), Op.Alloc(order, r), View())
      ensures r.Some? ==> exists b :: BestFit(old(FreeBlocks()), order, b) && b.head == r.value
      ensures totalUsableFrames == old(totalUsableFrames)
    {
      hide Linked, Grants;
      if order >= MAX_ORDER {
        return None;
      }
      var currentOrder := FirstNonEmpty(order);
      if currentOrder >= MAX_ORDER {
        return None;
      }
      var pfn := CarveFrom(currentOrder, order);
      return Some(pfn);
    }

    /** Pop the list at `from`, split down to `order` and hand out the remaining block. */
    method CarveFrom(from: nat, order: nat) returns (pfn: nat)
      requires Valid() && order <= from < MAX_ORDER && freeLists[from].Some?
      modifies freeLists, nextFree, prevFree, flags, refcounts, this
      ensures Valid() && (old(NoBuddies(FreeBlocks())) ==> NoBuddies(FreeBlocks()))
      ensures pfn == old(freeLists[from].value) && Block(pfn, order).Frames() <= old(FreeSet())
      ensures FreeSet() == old(FreeSet()) - Block(pfn, order).Frames()
      ensures pfn !in old(live) && live == old(live)[pfn := order]
      ensures pfn < maxPfn && refcounts[..] == old(refcounts[..])[pfn := 1]
      ensures totalUsableFrames == old(totalUsableFrames)
      ensures Step(old(View()), Op.Alloc(order, Some(pfn)), View())
    {
      hide Linked;
      ghost var set0, live0, refs0 := FreeSet(), live, refcounts[..];
      assert Counts(set0, FramesOf(BlocksOf(live)), freeFrames, totalUsableFrames);
      var head := ListPop(from);
      pfn := head.value;
      SplitDown(pfn, from, order, set0);
      GrantHand(pfn, order, false, set0);
      StepAlloc(set0, live0, refs0, pfn, order);
    }

    /** `list_pop`: unlink the head, if there is one, which the caller then holds. */
    method ListPop(order: nat) returns (r: Option<nat>)
      requires Valid() && order < MAX_ORDER
      modifies freeLists, nextFree, prevFree, flags, this`lists
      ensures unchanged(this`freeFrames, this`totalUsableFrames, this`live) && r == old(freeLists[order])
      ensures ListsOk() && GrantsOk()
      ensures r.None? ==> unchanged(freeLists, nextFree, prevFree, flags, this`lists)
      ensures r.None? <==> old(forall b :: b in FreeBlocks() ==> b.order != order)
      ensures r.Some? ==> Carving(FreeBlocks(), BlocksOf(live), Block(r.value, order), old(FreeSet()), maxPfn)
      ensures old(NoBuddies(FreeBlocks())) ==> NoBuddies(FreeBlocks())
    {
      hide Grants, Books;
      r := freeLists[order];
      assert Chain(lists[order], freeLists[..][order], nextFree[..], prevFree[..]);
      forall b | b in FreeBlocks() && r.None? ensures b.order != order { InBlocks(lists, b); }
      if r.Some? {
        InBlocks(lists, Block(r.value, order));
        assert Block(r.value, order) in FreeBlocks();
        TakeFree(order, r.value);
      }
    }

    /** `list_remove` of a free block that the caller then holds. */
    method TakeFree(order: nat, pfn: nat)
      requires Valid() && order < MAX_ORDER && Block(pfn, order) in FreeBlocks()
      modifies freeLists, nextFree, prevFree, flags, this`lists
      ensures unchanged(this`freeFrames, this`totalUsableFrames, this`live)
      ensures ListsOk() && GrantsOk()
      ensures Carving(FreeBlocks(), BlocksOf(live), Block(pfn, order), old(FreeSet()), maxPfn)
      ensures old(NoBuddies(FreeBlocks())) ==> NoBuddies(FreeBlocks())
      ensures pfn < maxPfn && flags[..] == old(flags[..])[pfn := old(flags[pfn]).(free := false)]
    {
      hide Linked;
      ghost var found := Block(pfn, order);
      CarveStart(FreeBlocks(), BlocksOf(live), found, maxPfn);
      CarveEnd(FreeBlocks() - {found}, live, found, FreeSet(), maxPfn);
      ghost var flags0 := flags[..];
      ListRemove(order, pfn);
      GrantsFrame(flags0, refcounts[..], live, pfn, flags0[pfn].(free := false));
    }

    /** The scan of `alloc_order` for the first non-empty list at or above `order`. */
    method FirstNonEmpty(order: nat) returns (currentOrder: nat)
      requires Valid() && order < MAX_ORDER
      ensures order <= currentOrder <= MAX_ORDER
      ensures forall b :: b in FreeBlocks() ==> b.order < order || b.order >= currentOrder
      ensures currentOrder < MAX_ORDER ==>
                && freeLists[currentOrder].Some?
                && BestFit(FreeBlocks(), order, Block(freeLists[currentOrder].value, currentOrder))
      ensures ListsCanonical() ==> (HasRun(FreeSet(), order) <==> currentOrder < MAX_ORDER)
    {
      currentOrder := order;
      while currentOrder < MAX_ORDER && freeLists[currentOrder].None?
        invariant order <= currentOrder <= MAX_ORDER
        invariant forall o :: order <= o < currentOrder ==> lists[o] == []
      {
        assert Chain(lists[currentOrder], freeLists[..][currentOrder], nextFree[..], prevFree[..]);
        currentOrder := currentOrder + 1;
      }
      forall b | b in FreeBlocks() ensures b.order < order || b.order >= currentOrder { InBlocks(lists, b); }
      if currentOrder < MAX_ORDER {
        assert Chain(lists[currentOrder], freeLists[..][currentOrder], nextFree[..], prevFree[..]);
        InBlocks(lists, Block(freeLists[currentOrder].value, currentOrder));
      }
      if ListsCanonical() { RunNeedsBlock(FreeBlocks(), order); }
    }

    /** The split loop of `alloc_order`: halve the block in hand down to `order`, pushing each upper half. */
    method SplitDown(pfn: nat, from: nat, order: nat, ghost set0: set<nat>)
      requires order <= from < MAX_ORDER
      requires ListsOk() && GrantsOk() && Carving(FreeBlocks(), BlocksOf(live), Block(pfn, from), set0, maxPfn)
      modifies freeLists, nextFree, prevFree, flags, this`lists
      ensures unchanged(this`freeFrames, this`totalUsableFrames, this`live)
      ensures ListsOk() && GrantsOk() && Carving(FreeBlocks(), BlocksOf(live), Block(pfn, order), set0, maxPfn)
      ensures old(NoBuddies(FreeBlocks())) ==> NoBuddies(FreeBlocks())
    {
      hide Linked, Grants, Carving;
      var currentOrder := from;
      while currentOrder > order
        invariant order <= currentOrder <= from
        invariant ListsOk() && GrantsOk()
          && Carving(FreeBlocks(), BlocksOf(live), Block(pfn, currentOrder), set0, maxPfn)
        invariant old(NoBuddies(FreeBlocks())) ==> NoBuddies(FreeBlocks())
        invariant unchanged(this`freeFrames, this`totalUsableFrames, this`live)
      {
        ghost var hand := Block(pfn, currentOrder);
        currentOrder := currentOrder - 1;
        var buddyPfn := pfn + Size(currentOrder);
        PushHalf(hand, Block(pfn, currentOrder), buddyPfn, set0);
      }
    }

    /** Give one half of the block in hand back to the free lists, by `list_push`. */
    method PushHalf(ghost hand: Block, keep: Block, give: nat, ghost set0: set<nat>)
      requires ListsOk() && GrantsOk() && Carving(FreeBlocks(), BlocksOf(live), hand, set0, maxPfn)
      requires hand.order > 0 && keep.order == hand.order - 1
      requires keep.head == hand.head || keep.head == hand.head + Size(keep.order)
      requires give == if keep.head == hand.head then hand.head + Size(keep.order) else hand.head
      modifies freeLists, nextFree, prevFree, flags, this`lists
      ensures unchanged(this`freeFrames, this`totalUsableFrames, this`live)
      ensures ListsOk() && GrantsOk() && Carving(FreeBlocks(), BlocksOf(live), keep, set0, maxPfn)
      ensures old(NoBuddies(FreeBlocks())) ==> NoBuddies(FreeBlocks())
    {
      hide Linked, Grants, Placed;
      CarveStep(FreeBlocks(), live, hand, keep, set0, maxPfn);
      NotFlaggedFree(give);
      GrantsFrame(flags[..], refcounts[..], live, give, Flags(keep.order, false, true, false));
      ListPush(keep.order, give);
    }

    /** Hand out the block in hand: flags, reference count and free-frame counter. */
    method GrantHand(pfn: nat, order: nat, reserved: bool, ghost set0: set<nat>)
      requires ListsOk() && GrantsOk() && Carving(FreeBlocks(), BlocksOf(live), Block(pfn, order), set0, maxPfn)
      requires Counts(set0, FramesOf(BlocksOf(live)), freeFrames, totalUsableFrames)
      modifies flags, refcounts, this`freeFrames, this`live
      ensures Valid() && lists == old(lists) && FreeSet() == set0 - Block(pfn, order).Frames()
      ensures pfn !in old(live) && live == old(live)[pfn := order]
      ensures pfn < maxPfn && refcounts[..] == old(refcounts[..])[pfn := 1]
    {
      hide Linked, Grants;
      CarveEnd(FreeBlocks(), live, Block(pfn, order), set0, maxPfn);
      CarveCounts(FreeBlocks(), live, Block(pfn, order), set0, freeFrames, totalUsableFrames, maxPfn);
      NotFlaggedFree(pfn);
      ghost var flags0, refs0 := flags[..], refcounts[..];
      GrantsAdd(flags0, refs0, live, pfn, Flags(order, true, false, reserved));
      SetFlags(pfn, Flags(order, true, false, reserved));
      refcounts[pfn] := 1;
      assert refcounts[..] == refs0[pfn := 1];
      freeFrames := SatSub(freeFrames, Size(order));
      live := live[pfn := order];
    }

    /** `self.flags[pfn] = f` for a frame on no list, by a value that does not put it on one. */
    method SetFlags(pfn: nat, f: Flags)
      requires ListsOk() && pfn < maxPfn && !flags[pfn].free && !f.free
      modifies flags
      ensures ListsOk() && flags[..] == old(flags[..])[pfn := f]
    {
      ghost var flags0 := flags[..];
      flags[pfn] := f;
      assert flags[..] == flags0[pfn := f];
      forall o, i | 0 <= o < MAX_ORDER && 0 <= i < |lists[o]|
        ensures flags[..][lists[o][i]].free && flags[..][lists[o][i]].order == o
      {
        assert flags0[lists[o][i]].free;
      }
    }

    /** Return a block to the free lists, merging it with free buddies as far as possible.  The caller has
        already taken the block out of `live` and zeroed its reference count. */
    method FreeOrder(pfn0: nat, order0: nat, ghost set1: set<nat>)
      requires ListsOk() && pfn0 < maxPfn && !flags[pfn0].free
      requires Grants(flags[..][pfn0 := flags[pfn0].(inUse := false)], refcounts[..], live)
      requires Merging(FreeBlocks(), BlocksOf(live), Block(pfn0, order0), set1, maxPfn)
      requires Counts(set1, FramesOf(BlocksOf(live)), freeFrames + Size(order0), totalUsableFrames)
      modifies freeLists, nextFree, prevFree, flags, this`lists, this`freeFrames
      ensures Valid() && FreeSet() == set1 && unchanged(this`totalUsableFrames, this`live)
      ensures old(NoBuddies(FreeBlocks())) ==> NoBuddies(FreeBlocks())
      ensures MarksKept(old(flags[..]), flags[..])
    {
      hide Merging, Counts, NoBuddies, MarksKept, SameMarks, BlocksOf, FramesOf, Linked;
      freeFrames := freeFrames + Size(order0);
      ghost var flags0 := flags[..];
      MarksAfterUpdate(flags0, pfn0, flags0[pfn0].(inUse := false));
      SetFlags(pfn0, flags[pfn0].(inUse := false));
      ghost var flags1 := flags[..];
      var pfn, order := Coalesce(pfn0, order0, set1);
      ghost var flags2 := flags[..];
      MergeEnd(FreeBlocks(), live, Block(pfn, order), set1, freeFrames, totalUsableFrames, maxPfn);
      PushMerged(pfn, order, set1);
      MarksTransitive(flags0, flags1, flags2);
      MarksTransitive(flags0, flags2, flags[..]);
    }

    /** The merge loop of `free_order`. */
    method Coalesce(pfn0: nat, order0: nat, ghost set1: set<nat>) returns (pfn: nat, order: nat)
      requires ListsOk() && GrantsOk() && Merging(FreeBlocks(), BlocksOf(live), Block(pfn0, order0), set1, maxPfn)
      modifies freeLists, nextFree, prevFree, flags, this`lists
      ensures unchanged(this`freeFrames, this`totalUsableFrames, this`live)
      ensures ListsOk() && GrantsOk() && Merging(FreeBlocks(), BlocksOf(live), Block(pfn, order), set1, maxPfn)
      ensures order + 1 < MAX_ORDER ==> Block(pfn, order).Buddy() !in FreeBlocks()
      ensures old(NoBuddies(FreeBlocks())) ==> NoBuddies(FreeBlocks())
      ensures SameMarks(old(flags[..]), flags[..])
    {
      pfn, order := pfn0, order0;
      while order < MAX_ORDER - 1
        invariant ListsOk() && GrantsOk() && Merging(FreeBlocks(), BlocksOf(live), Block(pfn, order), set1, maxPfn)
        invariant old(NoBuddies(FreeBlocks())) ==> NoBuddies(FreeBlocks())
        invariant SameMarks(old(flags[..]), flags[..])
        invariant unchanged(this`freeFrames, this`totalUsableFrames, this`live)
        decreases MAX_ORDER - order
      {
        var buddyPfn := FlipBit(pfn, order);
        if buddyPfn >= maxPfn {
          break;
        }
        var buddyFlags := flags[buddyPfn];
        FlaggedFree(Block(buddyPfn, order));
        if buddyFlags.free && buddyFlags.order == order {
          pfn, order := TakeBuddy(pfn, order, buddyPfn, set1);
        } else {
          break;
        }
      }
    }

    /** One merge: unlink the free buddy and hold both halves. */
    method TakeBuddy(pfn: nat, order: nat, buddyPfn: nat, ghost set1: set<nat>) returns (pfn': nat, order': nat)
      requires ListsOk() && GrantsOk() && Merging(FreeBlocks(), BlocksOf(live), Block(pfn, order), set1, maxPfn)
      requires order + 1 < MAX_ORDER && buddyPfn == FlipBit(pfn, order) && Block(buddyPfn, order) in FreeBlocks()
      modifies freeLists, nextFree, prevFree, flags, this`lists
      ensures unchanged(this`freeFrames, this`totalUsableFrames, this`live)
      ensures pfn' == Min(pfn, buddyPfn) && order' == order + 1
      ensures ListsOk() && GrantsOk() && Merging(FreeBlocks(), BlocksOf(live), Block(pfn', order'), set1, maxPfn)
      ensures old(NoBuddies(FreeBlocks())) ==> NoBuddies(FreeBlocks())
      ensures SameMarks(old(flags[..]), flags[..])
    {
      hide SameMarks;
      MergeStep(FreeBlocks(), live, Block(pfn, order), set1, maxPfn);
      ghost var flags0 := flags[..];
      ListRemove(order, buddyPfn);
      GrantsFrame(flags0, refcounts[..], live, buddyPfn, flags0[buddyPfn].(free := false));
      MarksAfterUpdate(flags0, buddyPfn, flags0[buddyPfn].(free := false));
      pfn', order' := Min(pfn, buddyPfn), order + 1;
    }

    /** Push the fully merged block. */
    method PushMerged(pfn: nat, order: nat, ghost set1: set<nat>)
      requires ListsOk() && GrantsOk() && order < MAX_ORDER && pfn < maxPfn && pfn !in live && pfn !in FreeSet()
      requires Books(FreeBlocks() + {Block(pfn, order)}, BlocksOf(live), freeFrames, totalUsableFrames, maxPfn)
      requires FramesOf(FreeBlocks() + {Block(pfn, order)}) == set1
      modifies freeLists, nextFree, prevFree, flags, this`lists
      ensures unchanged(this`freeFrames, this`totalUsableFrames, this`live)
      ensures Valid() && FreeBlocks() == old(FreeBlocks()) + {Block(pfn, order)}
      ensures MarksKept(old(flags[..]), flags[..])
    {
      hide Linked, Grants, Books, MarksKept;
      NotFlaggedFree(pfn);
      ghost var flags0 := flags[..];
      GrantsFrame(flags0, refcounts[..], live, pfn, Flags(order, false, true, false));
      MarksAfterUpdate(flags0, pfn, Flags(order, false, true, false));
      ListPush(order, pfn);
    }

    /** Drop one reference to the block headed at `addr`; the last one returns it to the free lists. */
    method Free(addr: nat) returns (ok: bool)
      requires Valid()
      modifies freeLists, nextFree, prevFree, flags, refcounts, this
      ensures Valid() && totalUsableFrames == old(totalUsableFrames)
      ensures old(ListsCanonical()) ==> ListsCanonical()
      ensures ok <==> addr != 0 && addr % PAGE_SIZE == 0 && addr / PAGE_SIZE in old(live)
      ensures !ok ==> unchanged(this, freeLists, nextFree, prevFree, flags, refcounts)
      ensures MarksKept(old(flags[..]), flags[..])
      ensures Step(old(View()), Op.Free(addr, ok), View())
    {
      if addr == 0 || addr % PAGE_SIZE != 0
        || addr / PAGE_SIZE !in live { StepRefuse(FreeSet(), live, refcounts[..], addr); }
      if addr == 0 || addr % PAGE_SIZE != 0 {
        return false;
      }
      var pfn := addr / PAGE_SIZE;
      if pfn >= maxPfn {
        return false;
      }
      var currentRef := refcounts[pfn];
      if currentRef > 1 {
        DropReference(addr, pfn);
        return true;
      }
      if currentRef == 1 {
        ReleaseBlock(addr, pfn);
        return true;
      }
      return false;
    }

    /** The shared-block branch of `free`. */
    method DropReference(ghost addr: nat, pfn: nat)
      requires Valid() && addr != 0 && addr % PAGE_SIZE == 0 && pfn == addr / PAGE_SIZE && pfn < maxPfn
        && refcounts[pfn] > 1
      modifies refcounts
      ensures Valid() && Step(old(View()), Op.Free(addr, true), View())
    {
      hide Linked, Books;
      StepUnshare(FreeSet(), live, refcounts[..], addr, pfn);
      SetReferences(pfn, refcounts[pfn] - 1);
    }

    /** Store a new positive reference count. */
    method SetReferences(pfn: nat, r: nat)
      requires Valid() && pfn < maxPfn && refcounts[pfn] > 0 && 0 < r <= U16_MAX
      modifies refcounts
      ensures Valid() && refcounts[..] == old(refcounts[..])[pfn := r]
    {
      hide Linked, Grants, Books;
      ghost var refs0 := refcounts[..];
      GrantsShare(flags[..], refs0, live, pfn, r);
      refcounts[pfn] := r;
      assert refcounts[..] == refs0[pfn := r];
    }

    /** The last-reference branch of `free`. */
    method ReleaseBlock(ghost addr: nat, pfn: nat)
      requires Valid() && addr != 0 && addr % PAGE_SIZE == 0 && pfn == addr / PAGE_SIZE
      requires pfn < maxPfn && refcounts[pfn] == 1
      modifies freeLists, nextFree, prevFree, flags, refcounts, this
      ensures Valid() && totalUsableFrames == old(totalUsableFrames)
      ensures old(NoBuddies(FreeBlocks())) ==> NoBuddies(FreeBlocks())
      ensures MarksKept(old(flags[..]), flags[..])
      ensures Step(old(View()), Op.Free(addr, true), View())
    {
      hide Linked, MarksKept, BlocksOf, FramesOf;
      StepRelease(FreeSet(), live, refcounts[..], addr, pfn);
      ghost var set1 := FreeSet() + Block(pfn, live[pfn]).Frames();
      FreeStart(FreeBlocks(), live, pfn, maxPfn);
      FreeCounts(FreeBlocks(), BlocksOf(live), Block(pfn, live[pfn]), freeFrames, totalUsableFrames);
      NotFlaggedFree(pfn);
      GrantsRemove(flags[..], refcounts[..], live, pfn);
      ghost var refs0 := refcounts[..];
      refcounts[pfn] := 0;
      assert refcounts[..] == refs0[pfn := 0];
      var order := flags[pfn].order;
      live := live - {pfn};
      FreeOrder(pfn, order, set1);
    }

    method RefInc(pfn: nat)
      requires Valid()
      modifies refcounts
      ensures pfn < maxPfn ==> refcounts[..] == old(refcounts[..])[pfn := Min(old(refcounts[pfn]) + 1, U16_MAX)]
      ensures pfn >= maxPfn ==> refcounts[..] == old(refcounts[..])
      ensures Valid() <==> pfn >= maxPfn || pfn in live
      ensures Valid() ==> Step(old(View()), Op.Share(pfn), View())
    {
      hide Linked, Books;
      if pfn >= maxPfn {
        StepNoShare(FreeSet(), live, refcounts[..], pfn);
        return;
      }
      ghost var refs0 := refcounts[..];
      var r := Min(refcounts[pfn] + 1, U16_MAX);
      if pfn in live {
        StepShare(FreeSet(), live, refs0, pfn, r);
        GrantsShare(flags[..], refs0, live, pfn, r);
      }
      refcounts[pfn] := r;
      assert refcounts[..] == refs0[pfn := r] && refcounts[..][pfn] > 0;
    }

    /** Take one frame out of circulation.  The first two `ensures` after the framing are the whole story: a call
        with a usable address always returns true, and afterwards the frame is free exactly when it was free
        and already carried a RESERVED mark left behind by an earlier call. */
    method Reserve(addr: nat) returns (ok: bool)
      requires Valid()
      modifies freeLists, nextFree, prevFree, flags, refcounts, this
      ensures Valid() && totalUsableFrames == old(totalUsableFrames)
      ensures old(ListsCanonical()) ==> ListsCanonical()
      ensures ok <==> addr != 0 && addr % PAGE_SIZE == 0 && addr / PAGE_SIZE < maxPfn
      ensures ok ==> (addr / PAGE_SIZE in FreeSet() <==>
                      addr / PAGE_SIZE in old(FreeSet()) && old(flags[addr / PAGE_SIZE].reserved))
      ensures !ok ==> unchanged(this, freeLists, nextFree, prevFree, flags, refcounts)
      ensures ok && (old(flags[addr / PAGE_SIZE].inUse || flags[addr / PAGE_SIZE].reserved)) ==>
                unchanged(this, freeLists, nextFree, prevFree, flags, refcounts)
      ensures ok && !old(flags[addr / PAGE_SIZE].inUse || flags[addr / PAGE_SIZE].reserved) ==>
                if addr / PAGE_SIZE in old(FreeSet()) then
                  && FreeSet() == old(FreeSet()) - {addr / PAGE_SIZE}
                  && live == old(live)[addr / PAGE_SIZE := 0]
                  && refcounts[..] == old(refcounts[..])[addr / PAGE_SIZE := 1]
                else
                  && unchanged(this, freeLists, nextFree, prevFree, refcounts)
                  && flags[..] == old(flags[..])[addr / PAGE_SIZE := old(flags[addr / PAGE_SIZE]).(reserved := true)]
      ensures Step(old(View()), Op.Reserve(addr), View())
    {
      hide FramesOf;
      if addr == 0 || addr % PAGE_SIZE != 0 {
        return false;
      }
      var pfn := addr / PAGE_SIZE;
      if pfn >= maxPfn {
        return false;
      }
      if flags[pfn].inUse || flags[pfn].reserved {
        LiveIsNotFree(pfn);
        return true;
      }
      var blockHead, order := BlockAround(pfn);
      if order < MAX_ORDER {
        StepReserve(FreeSet(), live, refcounts[..], addr, pfn);
        CarveFrame(pfn, blockHead, order);
      } else {
        NotFlaggedFree(pfn);
        ghost var flags0 := flags[..];
        MarkKeepsGrants(flags0, refcounts[..], live, pfn);
        SetFlags(pfn, flags[pfn].(reserved := true));
      }
      return true;
    }

    lemma LiveIsNotFree(pfn: nat)
      requires Valid() && pfn < maxPfn
      ensures pfn in live ==> pfn !in FreeSet()
    {
      if pfn in live { FreeStart(FreeBlocks(), live, pfn, maxPfn); }
    }

    /** The search loop of `reserve`: the order of the free block around a frame, or MAX_ORDER. */
    method BlockAround(pfn: nat) returns (blockHead: nat, order: nat)
      requires Valid() && pfn < maxPfn
      ensures order <= MAX_ORDER && (order < MAX_ORDER <==> pfn in FreeSet())
      ensures order < MAX_ORDER ==> Block(blockHead, order) in FreeBlocks() && Block(blockHead, order).Has(pfn)
    {
      blockHead, order := 0, 0;
      while order < MAX_ORDER
        invariant order <= MAX_ORDER
        invariant forall b :: b in FreeBlocks() && b.order < order ==> !b.Has(pfn)
      {
        blockHead := HeadAt(pfn, order);
        OnlyBlockAround(FreeBlocks(), pfn, blockHead, order);
        FlaggedFree(Block(blockHead, order));
        if flags[blockHead].free && flags[blockHead].order == order {
          return;
        }
        order := order + 1;
      }
    }

    /** Carve the single frame `pfn` out of the free block of the given order around it. */
    method CarveFrame(pfn: nat, blockHead: nat, order: nat)
      requires Valid() && order < MAX_ORDER && pfn < maxPfn
      requires Block(blockHead, order) in FreeBlocks() && Block(blockHead, order).Has(pfn)
      modifies freeLists, nextFree, prevFree, flags, refcounts, this
      ensures Valid() && totalUsableFrames == old(totalUsableFrames)
      ensures old(NoBuddies(FreeBlocks())) ==> NoBuddies(FreeBlocks())
      ensures FreeSet() == old(FreeSet()) - {pfn} && live == old(live)[pfn := 0]
      ensures refcounts[..] == old(refcounts[..])[pfn := 1]
    {
      hide Linked, Grants, Carving;
      ghost var set0 := FreeSet();
      assert Counts(set0, FramesOf(BlocksOf(live)), freeFrames, totalUsableFrames);
      TakeFree(order, blockHead);
      SplitTowards(pfn, blockHead, order, set0);
      SingleFrame(pfn);
      GrantHand(pfn, 0, true, set0);
    }

    /** The split loop of `reserve`: halve the block in hand down to the one frame, pushing the other half. */
    method SplitTowards(pfn: nat, head: nat, order: nat, ghost set0: set<nat>)
      requires order < MAX_ORDER && Block(head, order).Has(pfn)
      requires ListsOk() && GrantsOk() && Carving(FreeBlocks(), BlocksOf(live), Block(head, order), set0, maxPfn)
      modifies freeLists, nextFree, prevFree, flags, this`lists
      ensures unchanged(this`freeFrames, this`totalUsableFrames, this`live)
      ensures ListsOk() && GrantsOk() && Carving(FreeBlocks(), BlocksOf(live), Block(pfn, 0), set0, maxPfn)
      ensures old(NoBuddies(FreeBlocks())) ==> NoBuddies(FreeBlocks())
    {
      hide Linked, Grants, Carving;
      var curHead: nat, curOrder: nat := head, order;
      while curOrder > 0
        invariant curOrder <= order && Block(curHead, curOrder).Has(pfn)
        invariant ListsOk() && GrantsOk()
          && Carving(FreeBlocks(), BlocksOf(live), Block(curHead, curOrder), set0, maxPfn)
        invariant old(NoBuddies(FreeBlocks())) ==> NoBuddies(FreeBlocks())
        invariant unchanged(this`freeFrames, this`totalUsableFrames, this`live)
      {
        ghost var hand := Block(curHead, curOrder);
        curOrder := curOrder - 1;
        var half := Size(curOrder);
        var lower, upper := curHead, curHead + half;
        HalfHas(hand, pfn, curOrder, half);
        if pfn < upper {
          PushHalf(hand, Block(lower, curOrder), upper, set0);
          curHead := lower;
        } else {
          PushHalf(hand, Block(upper, curOrder), lower, set0);
          curHead := upper;
        }
      }
      OneFrame(curHead, pfn);
    }

    /** Hand a range of physical memory to the allocator, cut greedily into aligned blocks.  The lists stay
        canonical exactly when no allocator block lies across the new range and the memory already free. */
    method AddRange(base: nat, length: nat) returns (added: nat)
      requires Valid() && base <= U64_MAX && length <= U64_MAX
      requires FramesOf(FreeBlocks() + BlocksOf(live)) !! Frames(RangeFirst(base), RangeEnd(base, length, maxPfn))
      modifies freeLists, nextFree, prevFree, flags, this
      ensures Valid() && live == old(live)
      ensures added == SatSub(RangeEnd(base, length, maxPfn), RangeFirst(base))
      ensures FreeSet() == old(FreeSet()) + Frames(RangeFirst(base), RangeEnd(base, length, maxPfn))
      ensures freeFrames == old(freeFrames) + added && totalUsableFrames == old(totalUsableFrames) + added
      ensures old(ListsCanonical()) ==>
                (ListsCanonical() <==>
                 !exists b :: Straddles(b, old(FreeSet()), Frames(RangeFirst(base), RangeEnd(base, length, maxPfn))))
    {
      hide Linked, Grants, Books;
      ghost var s, e := RangeFirst(base), RangeEnd(base, length, maxPfn);
      if s >= e { EmptyRange(FreeSet(), s, e); }
      if base + length > U64_MAX {
        return 0;
      }
      var end := base + length;
      var first := Max(AlignUp(base), PAGE_SIZE);
      var last := end - end % PAGE_SIZE;
      RangeBounds(base, length, first, last, maxPfn);
      if first >= last {
        return 0;
      }
      var startPfn := first / PAGE_SIZE;
      var endPfn := Min(last / PAGE_SIZE, maxPfn);
      assert startPfn == s && endPfn == e;
      if startPfn >= endPfn {
        return 0;
      }
      added := endPfn - startPfn;
      AddRun(startPfn, endPfn);
    }

    /** The body of `add_range` once the range is known to be frames `start..end`. */
    method AddRun(start: nat, end: nat)
      requires Valid() && start < end <= maxPfn && FramesOf(FreeBlocks() + BlocksOf(live)) !! Frames(start, end)
      modifies freeLists, nextFree, prevFree, flags, this
      ensures Valid() && live == old(live)
      ensures FreeSet() == old(FreeSet()) + Frames(start, end)
      ensures freeFrames == old(freeFrames) + (end - start)
        && totalUsableFrames == old(totalUsableFrames) + (end - start)
      ensures old(ListsCanonical()) ==>
                (ListsCanonical() <==> !exists b :: Straddles(b, old(FreeSet()), Frames(start, end)))
    {
      hide Linked, Grants, Books;
      ghost var free0, live0, ff, total := FreeBlocks(), live, freeFrames, totalUsableFrames;
      totalUsableFrames := totalUsableFrames + (end - start);
      freeFrames := freeFrames + (end - start);
      FillRun(start, end, free0, live0, ff, total);
    }

    /** Place the blocks of the range; the counters are the caller's business. */
    method FillRun(start: nat, end: nat, ghost free0: set<Block>, ghost live0: map<nat, nat>, ghost ff: nat,
                   ghost total: nat)
      requires start < end <= maxPfn && ListsOk() && GrantsOk()
      requires FreeBlocks() == free0 && live == live0 && Books(free0, BlocksOf(live0), ff, total, maxPfn)
      requires freeFrames == ff + (end - start) && totalUsableFrames == total + (end - start)
      requires FramesOf(free0 + BlocksOf(live0)) !! Frames(start, end)
      modifies freeLists, nextFree, prevFree, flags, this`lists
      ensures unchanged(this`freeFrames, this`totalUsableFrames, this`live)
      ensures Valid()
      ensures FreeSet() == FramesOf(free0) + Frames(start, end)
      ensures Canonical(free0) ==>
        (ListsCanonical() <==> !exists b :: Straddles(b, FramesOf(free0), Frames(start, end)))
    {
      hide Linked, Grants, Filling;
      FillStart(free0, live0, start, end, maxPfn);
      ghost var added := FillLoop(start, end);
      FillEnd(free0, BlocksOf(live0), added, start, end, ff, total, maxPfn);
    }

    /** The outer loop of `add_range`: place the largest block that fits, move past it, repeat. */
    method FillLoop(start: nat, end: nat) returns (ghost added: set<Block>)
      requires start < end <= maxPfn && ListsOk() && GrantsOk()
      requires Filling(FreeBlocks(), BlocksOf(live), {}, start, start, end, maxPfn)
      modifies freeLists, nextFree, prevFree, flags, this`lists
      ensures unchanged(this`freeFrames, this`totalUsableFrames, this`live)
      ensures ListsOk() && GrantsOk() && FreeBlocks() == old(FreeBlocks()) + added
      ensures Filling(old(FreeBlocks()), BlocksOf(live), added, start, end, end, maxPfn)
    {
      hide Linked, Grants, Filling;
      ghost var free0 := FreeBlocks();
      added := {};
      assert free0 + {} == free0;
      var startPfn: nat := start;
      while startPfn < end
        invariant start <= startPfn <= end && ListsOk() && GrantsOk()
        invariant FreeBlocks() == free0 + added
        invariant Filling(free0, BlocksOf(live), added, start, startPfn, end, maxPfn)
        invariant unchanged(this`freeFrames, this`totalUsableFrames, this`live)
      {
        startPfn, added := PlaceNext(start, startPfn, end, free0, added);
      }
    }

    /** One turn of that loop. */
    method PlaceNext(start: nat, cur: nat, end: nat, ghost free0: set<Block>, ghost added: set<Block>)
      returns (cur': nat, ghost added': set<Block>)
      requires start <= cur < end <= maxPfn && ListsOk() && GrantsOk() && FreeBlocks() == free0 + added
      requires Filling(free0, BlocksOf(live), added, start, cur, end, maxPfn)
      modifies freeLists, nextFree, prevFree, flags, this`lists
      ensures unchanged(this`freeFrames, this`totalUsableFrames, this`live)
      ensures cur < cur' <= end && ListsOk() && GrantsOk() && FreeBlocks() == free0 + added'
      ensures Filling(free0, BlocksOf(live), added', start, cur', end, maxPfn)
    {
      hide Linked, Grants, Filling;
      var order := LargestOrder(cur, end);
      FillStep(free0, live, added, start, cur, end, order, maxPfn);
      NotFlaggedFree(cur);
      GrantsFrame(flags[..], refcounts[..], live, cur, Flags(order, false, true, false));
      ListPush(order, cur);
      added' := added + {Block(cur, order)};
      cur' := cur + Size(order);
    }

    /** The inner loop of `add_range`: the largest order at which an aligned block starting here still fits. */
    method LargestOrder(start: nat, end: nat) returns (order: nat)
      requires start < end
      ensures Fits(start, order, end) && order < MAX_ORDER
      ensures order + 1 < MAX_ORDER ==> !Fits(start, order + 1, end)
    {
      order := MAX_ORDER - 1;
      while order > 0
        invariant order < MAX_ORDER
        invariant order + 1 < MAX_ORDER ==> !Fits(start, order + 1, end)
      {
        var blockSize := Size(order);
        if start + blockSize <= end && start % blockSize == 0 {
          break;
        }
        order := order - 1;
      }
    }

    // -------------------------------------------------------------- whole runs

    /** Freeing a block just allocated restores the free lists: the same blocks, not only the same frames. */
    method AllocThenFree(order: nat) returns (r: Option<nat>)
      requires Valid() && ListsCanonical()
      modifies freeLists, nextFree, prevFree, flags, refcounts, this
      ensures Valid() && ListsCanonical()
      ensures r.None? ==> unchanged(this, freeLists, nextFree, prevFree, flags, refcounts)
      ensures r.Some? && r.value > 0 ==> FreeBlocks() == old(FreeBlocks()) && View() == old(View())
    {
      hide Linked, Grants, Books, NoBuddies, FramesOf, Step;
      ghost var p := View();
      ViewIsSound();
      r := AllocOrder(order);
      if r.Some? && r.value > 0 {
        ghost var q := View();
        var addr := r.value * PAGE_SIZE;
        var ok := Free(addr);
        FreeingSucceeds(p, order, r.value, q, ok, View());
        Buddy.AllocThenFree(p, order, r.value, q, View());
        CanonicalIsUnique(FreeBlocks(), old(FreeBlocks()));
      }
    }

    /** One call.  A frame is shared only by an owner, so a frame nobody holds is left alone. */
    method Perform(c: Call) returns (ghost op: Op)
      requires Valid() && ListsCanonical()
      modifies freeLists, nextFree, prevFree, flags, refcounts, this
      ensures Valid() && ListsCanonical() && totalUsableFrames == old(totalUsableFrames)
      ensures Answers(c, op) && Step(old(View()), op, View())
    {
      hide Linked, Grants, Books, NoBuddies, FramesOf;
      match c
      case AllocBlock(order) =>
        var r := AllocOrder(order);
        op := Op.Alloc(order, r);
      case FreeBlock(addr) =>
        var ok := Free(addr);
        op := Op.Free(addr, ok);
      case ReserveFrame(addr) =>
        var _ := Reserve(addr);
        op := Op.Reserve(addr);
      case ShareFrame(pfn) =>
        op := Op.Share(pfn);
        CountedIsLive(pfn);
        if pfn >= maxPfn || refcounts[pfn] > 0 { RefInc(pfn); }
    }

    lemma CountedIsLive(pfn: nat)
      requires Valid()
      ensures pfn in View().live <==> pfn in live
      ensures pfn < maxPfn ==> (refcounts[pfn] > 0 <==> pfn in live)
      ensures pfn >= maxPfn ==> pfn !in live
    {
      hide Linked, Books;
      assert pfn < maxPfn ==> refcounts[..][pfn] == refcounts[pfn];
    }

    /** Any list of calls: the plain view takes one `Step` a call, the lists stay canonical, the usable frames stay the
        same frames, and the counters still count them. */
    method Execute(calls: seq<Call>) returns (ghost states: seq<FramePool>, ghost ops: seq<Op>)
      requires Valid() && ListsCanonical()
      modifies freeLists, nextFree, prevFree, flags, refcounts, this
      ensures Valid() && ListsCanonical()
      ensures |ops| == |calls| && (forall i :: 0 <= i < |calls| ==> Answers(calls[i], ops[i]))
      ensures Run(states, ops) && states[0] == old(View()) && states[|ops|] == View()
      ensures Usable(View()) == old(Usable(View()))
      ensures freeFrames + TotalSize(GrantedBlocks(View().live)) == totalUsableFrames == old(totalUsableFrames)
    {
      hide Linked, Grants, Books, NoBuddies, FramesOf, Step, Answers, TotalSize, PoolOk, Usable, GrantedBlocks;
      ViewIsSound();
      states, ops := [View()], [];
      for i := 0 to |calls|
        invariant Valid() && ListsCanonical() && totalUsableFrames == old(totalUsableFrames)
        invariant |ops| == i && forall j :: 0 <= j < i ==> Answers(calls[j], ops[j])
        invariant Run(states, ops) && states[0] == old(View()) && states[i] == View()
      {
        ghost var op := Perform(calls[i]);
        states, ops := states + [View()], ops + [op];
      }
      ViewIsSound();
      RunConserves(states, ops);
    }
  }

  /** A call, without its answer. */
  datatype Call = AllocBlock(order: nat) | FreeBlock(addr: nat) | ReserveFrame(addr: nat) | ShareFrame(pfn: nat)

  /** The step is one of this call. */
  ghost predicate Answers(c: Call, op: Op) {
    match c
    case AllocBlock(order) => op.Alloc? && op.order == order
    case FreeBlock(addr) => op.Free? && op.addr == addr
    case ReserveFrame(addr) => op == Op.Reserve(addr)
    case ShareFrame(pfn) => op == Op.Share(pfn)
  }

  lemma FreeingSucceeds(p: FramePool, order: nat, h: nat, q: FramePool, ok: bool, r: FramePool)
    requires h > 0 && Step(p, Op.Alloc(order, Some(h)), q) && Step(q, Op.Free(h * PAGE_SIZE, ok), r)
    ensures ok
  {
    assert (h * PAGE_SIZE) / PAGE_SIZE == h;
  }

  /** Two parts of a disjoint set of blocks share no frame. */
  lemma DisjointParts(bs: set<Block>, cs: set<Block>)
    requires Disjoint(bs + cs) && bs !! cs
    ensures FramesOf(bs) !! FramesOf(cs)
  {
    forall b, f | b in bs && f in b.Frames() ensures f !in FramesOf(cs) {
      assert forall c :: c in cs && f in c.Frames() ==> b.Has(f) && c.Has(f);
    }
  }

  lemma BooksAreSound(free: set<Block>, live: set<Block>, ff: nat, total: nat, maxPfn: nat)
    requires Books(free, live, ff, total, maxPfn)
    ensures WellPlaced(live) && Disjoint(live) && FramesOf(live) !! FramesOf(free)
    ensures total == ff + TotalSize(live) == |FramesOf(free) + FramesOf(live)|
  {
    DisjointCard(live);
    DisjointParts(free, live);
    CardOfSum(FramesOf(free), FramesOf(live));
  }

  // ---------------------------------------------------------------- carving a block

  /** Part-way through splitting: `free` no longer covers the block in hand, which is apart from everything. */
  ghost predicate Carving(free: set<Block>, live: set<Block>, hand: Block, set0: set<nat>, maxPfn: nat) {
    && Placed(free + live, maxPfn) && free !! live
    && Apart(free + live, hand, maxPfn)
    && hand.Frames() <= set0
    && FramesOf(free) == set0 - hand.Frames()
  }

  /** `b` is a free block of the least order that can hold a block of the wanted order. */
  ghost predicate BestFit(free: set<Block>, order: nat, b: Block) {
    b in free && b.order >= order && forall c :: c in free && c.order >= order ==> c.order >= b.order
  }

  /** With canonical lists, a free aligned run exists exactly when some free block is large enough. */
  lemma RunNeedsBlock(bs: set<Block>, order: nat)
    requires Canonical(bs) && order < MAX_ORDER
    ensures HasRun(FramesOf(bs), order) <==> exists b :: b in bs && b.order >= order
  {
    if HasRun(FramesOf(bs), order) {
      var h: nat :| Block(h, order).WellPlaced() && Block(h, order).Frames() <= FramesOf(bs);
      var c := CoveredBlockIsInsideOne(bs, Block(h, order));
    }
    if exists b :: b in bs && b.order >= order {
      var b :| b in bs && b.order >= order;
      LowerPart(b, order);
      RemoveBlock(bs, b);
    }
  }

  /** The first `2^order` frames of a larger block are themselves a block. */
  lemma LowerPart(b: Block, order: nat)
    requires b.WellPlaced() && order <= b.order
    ensures Block(b.head, order).WellPlaced() && Block(b.head, order).Frames() <= b.Frames()
  {
    var k := SizeDivides(order, b.order);
    AlignedAtDivisor(b.head, k, Size(order));
    InsideMeansFrames(Block(b.head, order), b);
  }

  lemma CarveStart(free: set<Block>, live: set<Block>, found: Block, maxPfn: nat)
    requires Placed(free + live, maxPfn) && free !! live && found in free
    ensures Carving(free - {found}, live, found, FramesOf(free), maxPfn)
    ensures NoBuddies(free) ==> NoBuddies(free - {found})
  {
    assert (free + live) - {found} == (free - {found}) + live;
    TakeBlock(free + live, found, maxPfn);
    RemoveBlock(free, found);
  }

  /** One split: one half goes to the free blocks, the other stays in hand. */
  lemma CarveStep(free: set<Block>, live: map<nat, nat>, hand: Block, keep: Block, set0: set<nat>, maxPfn: nat)
    requires Carving(free, BlocksOf(live), hand, set0, maxPfn)
    requires hand.order > 0 && keep.order == hand.order - 1
    requires keep.head == hand.head || keep.head == hand.head + Size(keep.order)
    ensures var give := Block(if keep.head == hand.head then hand.head + Size(keep.order) else hand.head, keep.order);
            && Carving(free + {give}, BlocksOf(live), keep, set0, maxPfn)
            && (NoBuddies(free) ==> NoBuddies(free + {give}))
            && give !in free && give.head < maxPfn && give.head !in FramesOf(free) && give.head !in live
  {
    var lb := BlocksOf(live);
    var give := Block(if keep.head == hand.head then hand.head + Size(keep.order) else hand.head, keep.order);
    LowerHalfBuddy(hand.head, keep.order);
    SplitBlock(free + lb, hand, keep, give, maxPfn);
    assert (free + lb) + {give} == (free + {give}) + lb;
    FramesOfUnion(free, lb);
    FramesOfUnion(free, {give});
    assert FramesOf({give}) == give.Frames();
    assert give.head in give.Frames();
    HeadIsLive(live, give.head);
    PlaceBlock(free + lb, give, maxPfn);
    if NoBuddies(free) { AddKeepsNoBuddies(free, give); }
  }

  lemma HeadIsLive(live: map<nat, nat>, h: nat)
    ensures h in live ==> h in FramesOf(BlocksOf(live))
  {
    if h in live {
      assert Block(h, live[h]) in BlocksOf(live);
      assert h in Block(h, live[h]).Frames();
    }
  }

  lemma CarveEnd(free: set<Block>, live: map<nat, nat>, hand: Block, set0: set<nat>, maxPfn: nat)
    requires Carving(free, BlocksOf(live), hand, set0, maxPfn)
    ensures hand.head !in live && hand.head < maxPfn && hand.head !in FramesOf(free)
    ensures Placed(free + BlocksOf(live[hand.head := hand.order]), maxPfn)
      && free !! BlocksOf(live[hand.head := hand.order])
    ensures BlocksOf(live[hand.head := hand.order]) == BlocksOf(live) + {hand} && hand !in BlocksOf(live)
  {
    var lb := BlocksOf(live);
    assert hand.head in hand.Frames();
    FramesOfUnion(free, lb);
    HeadIsLive(live, hand.head);
    BlocksOfUpdate(live, hand.head, hand.order);
    PlaceBlock(free + lb, hand, maxPfn);
    assert free + (lb + {hand}) == (free + lb) + {hand};
  }

  lemma CarveCounts(free: set<Block>, live: map<nat, nat>, hand: Block, set0: set<nat>, ff: nat, total: nat,
                    maxPfn: nat)
    requires Carving(free, BlocksOf(live), hand, set0, maxPfn) && hand.head !in live
    requires Counts(set0, FramesOf(BlocksOf(live)), ff, total)
    ensures Size(hand.order) <= ff
    ensures Counts(FramesOf(free), FramesOf(BlocksOf(live[hand.head := hand.order])), ff - Size(hand.order), total)
  {
    var lb := BlocksOf(live);
    BlocksOfUpdate(live, hand.head, hand.order);
    FramesOfUnion(free, lb);
    BlockCard(hand);
    AddBlock(lb, hand);
    CardOfDifference(set0, hand.Frames());
    CardOfSum(FramesOf(lb), hand.Frames());
  }

  lemma CardOfDifference(s: set<nat>, t: set<nat>)
    requires t <= s
    ensures |s - t| == |s| - |t|
  {
  }

  lemma CardOfSum(s: set<nat>, t: set<nat>)
    requires s !! t
    ensures |s + t| == |s| + |t|
  {
  }

  lemma OneFrame(h: nat, f: nat)
    requires Block(h, 0).Has(f)
    ensures h == f
  {
  }

  lemma HalfHas(hand: Block, f: nat, o: nat, half: nat)
    requires hand.order == o + 1 && half == Size(o) && hand.Has(f)
    ensures if f < hand.head + half then Block(hand.head, o).Has(f) else Block(hand.head + half, o).Has(f)
  {
  }

  /** The only block of a given order that can hold a frame. */
  lemma OnlyBlockAround(bs: set<Block>, f: nat, h: nat, o: nat)
    requires WellPlaced(bs) && h == HeadAt(f, o)
    ensures h <= f && Block(h, o).Has(f) && f in Block(h, o).Frames()
    ensures forall b :: b in bs && b.order == o && b.Has(f) ==> b == Block(h, o)
  {
    HeadAtIsTheBlock(f, o);
  }

  // ---------------------------------------------------------------- merging a block back

  /** Part-way through freeing: the block in hand is apart from everything, and with the free blocks covers `set1`. */
  ghost predicate Merging(free: set<Block>, live: set<Block>, hand: Block, set1: set<nat>, maxPfn: nat) {
    && Placed(free + live, maxPfn) && free !! live
    && Apart(free + live, hand, maxPfn)
    && FramesOf(free) + hand.Frames() == set1
  }

  lemma FreeStart(free: set<Block>, live: map<nat, nat>, h: nat, maxPfn: nat)
    requires Placed(free + BlocksOf(live), maxPfn) && free !! BlocksOf(live) && h in live
    ensures var b := Block(h, live[h]);
            && Merging(free, BlocksOf(live - {h}), b, FramesOf(free) + b.Frames(), maxPfn)
            && FramesOf(free) !! b.Frames() && h !in FramesOf(free)
            && b in BlocksOf(live) && BlocksOf(live - {h}) == BlocksOf(live) - {b}
  {
    var b, rest := Block(h, live[h]), live - {h};
    assert rest[h := live[h]] == live;
    BlocksOfUpdate(rest, h, live[h]);
    var lb, lr := BlocksOf(live), BlocksOf(rest);
    assert b !in lr;
    assert (free + lb) - {b} == free + lr;
    TakeBlock(free + lb, b, maxPfn);
    FramesOfUnion(free, lr);
    assert h in b.Frames();
  }

  lemma FreeCounts(free: set<Block>, lb: set<Block>, b: Block, ff: nat, total: nat)
    requires Disjoint(lb) && b in lb && FramesOf(free) !! b.Frames()
    requires Counts(FramesOf(free), FramesOf(lb), ff, total)
    ensures Counts(FramesOf(free) + b.Frames(), FramesOf(lb - {b}), ff + Size(b.order), total)
  {
    RemoveBlock(lb, b);
    BlockCard(b);
    CardOfSum(FramesOf(free), b.Frames());
    CardOfDifference(FramesOf(lb), b.Frames());
  }

  lemma MergeStep(free: set<Block>, live: map<nat, nat>, hand: Block, set1: set<nat>, maxPfn: nat)
    requires Merging(free, BlocksOf(live), hand, set1, maxPfn)
    requires hand.order + 1 < MAX_ORDER && hand.Buddy() in free
    ensures Merging(free - {hand.Buddy()}, BlocksOf(live), hand.Parent(), set1, maxPfn)
    ensures hand.Parent().head == Min(hand.head, hand.Buddy().head)
    ensures hand.Buddy().head !in live
    ensures NoBuddies(free) ==> NoBuddies(free - {hand.Buddy()})
  {
    var lb, d := BlocksOf(live), hand.Buddy();
    FramesOfUnion(free, lb);
    assert d.head in d.Frames();
    DisjointParts(free, lb);
    HeadIsLive(live, d.head);
    assert (free + lb) - {d} == (free - {d}) + lb;
    MergeBlock(free + lb, hand, maxPfn);
    TakeBlock(free + lb, d, maxPfn);
    RemoveBlock(free, d);
    BuddyGeometry(hand);
    ParentIsBothHalves(hand);
  }

  lemma MergeEnd(free: set<Block>, live: map<nat, nat>, hand: Block, set1: set<nat>, ff: nat, total: nat, maxPfn: nat)
    requires Merging(free, BlocksOf(live), hand, set1, maxPfn) && Counts(set1, FramesOf(BlocksOf(live)), ff, total)
    requires hand.order + 1 < MAX_ORDER ==> hand.Buddy() !in free
    ensures Books(free + {hand}, BlocksOf(live), ff, total, maxPfn) && FramesOf(free + {hand}) == set1
    ensures hand.head !in live && hand.head < maxPfn && hand.head !in FramesOf(free)
    ensures NoBuddies(free) ==> NoBuddies(free + {hand})
  {
    hide NoBuddies, FramesOf;
    var lb := BlocksOf(live);
    FramesOfUnion(free, lb);
    assert hand.head in hand.Frames();
    HeadIsLive(live, hand.head);
    PlaceBlock(free + lb, hand, maxPfn);
    assert (free + lb) + {hand} == free + {hand} + lb;
    AddBlock(free, hand);
    if NoBuddies(free) { AddKeepsNoBuddies(free, hand); }
  }

  // ---------------------------------------------------------------- adding a range

  lemma RangeBounds(base: nat, length: nat, first: nat, last: nat, maxPfn: nat)
    requires base + length <= U64_MAX && first == Max(AlignUp(base), PAGE_SIZE)
    requires last == (base + length) - (base + length) % PAGE_SIZE
    ensures first / PAGE_SIZE == RangeFirst(base) && Min(last / PAGE_SIZE, maxPfn) == RangeEnd(base, length, maxPfn)
    ensures first >= last ==> RangeFirst(base) >= RangeEnd(base, length, maxPfn)
  {
  }

  lemma EmptyRange(free: set<nat>, lo: nat, hi: nat)
    requires lo >= hi
    ensures Frames(lo, hi) == {} && free + Frames(lo, hi) == free
    ensures !exists b :: Straddles(b, free, Frames(lo, hi))
  {
    assert free + {} == free;
  }

  /** No block could have been chosen one order larger when it was placed. */
  ghost predicate Greedy(bs: set<Block>, end: nat) {
    forall b :: b in bs && b.order + 1 < MAX_ORDER ==> !Fits(b.head, b.order + 1, end)
  }

  /** `added` holds the blocks placed so far for the frames `start..cur` of the range `start..end`. */
  ghost predicate Filling(free: set<Block>, live: set<Block>, added: set<Block>, start: nat, cur: nat, end: nat,
                          maxPfn: nat) {
    && Placed(free + live + added, maxPfn) && free + added !! live
    && FramesOf(free + live) !! Frames(start, end)
    && FramesOf(added) == Frames(start, cur)
    && WellPlaced(added) && Disjoint(added) && NoBuddies(added) && Greedy(added, end)
  }

  lemma FillStart(free: set<Block>, live: map<nat, nat>, start: nat, end: nat, maxPfn: nat)
    requires Placed(free + BlocksOf(live), maxPfn) && free !! BlocksOf(live)
      && FramesOf(free + BlocksOf(live)) !! Frames(start, end)
    ensures Filling(free, BlocksOf(live), {}, start, start, end, maxPfn)
  {
    assert free + BlocksOf(live) + {} == free + BlocksOf(live);
    assert FramesOf({}) == {} == Frames(start, start);
  }

  lemma FillStep(free: set<Block>, live: map<nat, nat>, added: set<Block>, start: nat, cur: nat, end: nat, order: nat,
                 maxPfn: nat)
    requires Filling(free, BlocksOf(live), added, start, cur, end, maxPfn) && start <= cur < end <= maxPfn
    requires order < MAX_ORDER && Fits(cur, order, end) && (order + 1 < MAX_ORDER ==> !Fits(cur, order + 1, end))
    ensures Filling(free, BlocksOf(live), added + {Block(cur, order)}, start, cur + Size(order), end, maxPfn)
    ensures cur < maxPfn && cur !in FramesOf(free + added) && cur !in live && Block(cur, order) !in free + added
    ensures free + (added + {Block(cur, order)}) == free + added + {Block(cur, order)}
  {
    var b, lb := Block(cur, order), BlocksOf(live);
    FramesOfUnion(free, lb);
    FramesOfUnion(free + lb, added);
    FramesOfUnion(free, added);
    assert cur in b.Frames() && cur in Frames(start, end);
    HeadIsLive(live, cur);
    NextBlockIsApart(free + lb, added, b, start, cur, end);
    PlaceBlock(free + lb + added, b, maxPfn);
    assert free + lb + added + {b} == free + lb + (added + {b});
    AddBlock(added, b);
    assert Frames(start, cur + Size(order)) == Frames(start, cur) + b.Frames();
    NextBlockHasNoBuddy(added, b, start, end);
    AddKeepsNoBuddies(added, b);
  }

  lemma NextBlockIsApart(rest: set<Block>, added: set<Block>, b: Block, start: nat, cur: nat, end: nat)
    requires FramesOf(rest) !! Frames(start, end) && FramesOf(added) == Frames(start, cur)
    requires b.head == cur && start <= cur && cur + Size(b.order) <= end
    ensures FramesOf(rest + added) !! b.Frames() && FramesOf(added) !! b.Frames()
  {
    FramesOfUnion(rest, added);
    forall f | f in b.Frames() ensures f !in FramesOf(rest) && f !in FramesOf(added) {
      assert InRun(start, end, f) && f in Frames(start, end);
    }
  }

  /** Greedy placement never leaves the left buddy of the next block behind. */
  lemma NextBlockHasNoBuddy(added: set<Block>, b: Block, start: nat, end: nat)
    requires b.WellPlaced() && WellPlaced(added) && Greedy(added, end) && b.head + Size(b.order) <= end
    requires FramesOf(added) == Frames(start, b.head)
    ensures b.order + 1 < MAX_ORDER ==> b.Buddy() !in added
  {
    BuddyGeometry(b);
    var d := b.Buddy();
    assert d.head in d.Frames();
    assert d in added ==> d.head in FramesOf(added) && InRun(start, b.head, d.head);
  }

  lemma FillEnd(free: set<Block>, live: set<Block>, added: set<Block>, start: nat, end: nat, ff: nat, total: nat,
                maxPfn: nat)
    requires Filling(free, live, added, start, end, end, maxPfn) && start <= end
    requires Counts(FramesOf(free), FramesOf(live), ff, total)
    ensures Books(free + added, live, ff + (end - start), total + (end - start), maxPfn)
    ensures FramesOf(free + added) == FramesOf(free) + Frames(start, end)
    ensures Canonical(free) ==>
      (Canonical(free + added) <==> !exists b :: Straddles(b, FramesOf(free), Frames(start, end)))
  {
    assert free + live + added == free + added + live;
    FramesOfUnion(free, added);
    FramesOfUnion(free, live);
    FillCounts(free, live, start, end, ff, total);
    if Canonical(free) { JoinIsCanonical(free, added); }
  }

  lemma FillCounts(free: set<Block>, live: set<Block>, start: nat, end: nat, ff: nat, total: nat)
    requires start <= end && FramesOf(free + live) !! Frames(start, end)
      && Counts(FramesOf(free), FramesOf(live), ff, total)
    ensures Counts(FramesOf(free) + Frames(start, end), FramesOf(live), ff + (end - start), total + (end - start))
  {
    FramesOfUnion(free, live);
    assert forall f: nat :: f in Frames(start, end) <==> InRun(start, end, f);
    RunCard(start, end, Frames(start, end));
    CardOfSum(FramesOf(free), Frames(start, end));
  }

  /** Ranges separated from the free memory by at least one frame on each side keep the lists canonical. */
  lemma SeparatedRangeKeepsCanonical(free: set<nat>, start: nat, end: nat)
    requires start <= end && end !in free && (start > 0 ==> start - 1 !in free)
    ensures !exists b :: Straddles(b, free, Frames(start, end))
  {
    assert forall f: nat :: f in Frames(start, end) <==> InRun(start, end, f);
    forall b ensures !Straddles(b, free, Frames(start, end)) {
      SeparatedRunsDoNotStraddle(free, start, end, Frames(start, end), b);
    }
  }

  /** Separation cannot simply be dropped: adding frames 2 and 3 as two adjacent ranges leaves two mergeable blocks. */
  lemma AdjacentRangesCanStraddle()
    ensures Straddles(Block(2, 1), Frames(2, 3), Frames(3, 4))
  {
    var b := Block(2, 1);
    assert Size(1) == 2 && Size(0) == 1;
    assert b.Has(2) && b.Has(3) && 2 in b.Frames() && 3 in b.Frames();
    assert InRun(2, 3, 2) && InRun(3, 4, 3);
    assert b.Frames() == {2, 3};
  }

  lemma NoFrames()
    ensures FramesOf({}) == {} && BlocksOf(map[]) == {}
  {
  }

  lemma TwoRanges()
    ensures RangeFirst(2 * PAGE_SIZE) == 2 && RangeEnd(2 * PAGE_SIZE, PAGE_SIZE, 8) == 3
    ensures RangeFirst(3 * PAGE_SIZE) == 3 && RangeEnd(3 * PAGE_SIZE, PAGE_SIZE, 8) == 4
    ensures Frames(2, 3) == {2} && Frames(3, 4) == {3} && {} + Frames(2, 3) + Frames(3, 4) == {2, 3}
  {
    assert forall f: nat :: f in Frames(2, 3) <==> InRun(2, 3, f);
    assert forall f: nat :: f in Frames(3, 4) <==> InRun(3, 4, f);
  }

  lemma PlacedFree(a: BuddyAllocator)
    requires a.Valid()
    ensures WellPlaced(a.FreeBlocks()) && Disjoint(a.FreeBlocks())
  {
    hide Linked, Grants, FramesOf;
    assert Placed(a.FreeBlocks() + BlocksOf(a.live), a.maxPfn);
  }

  /** Blocks over the frames 2 and 3 that are not canonical are two single frames. */
  lemma OnlySingles(bs: set<Block>)
    requires WellPlaced(bs) && Disjoint(bs) && FramesOf(bs) == {2, 3} && !Canonical(bs)
    ensures (forall b :: b in bs ==> b.order < 1) && HasRun({2, 3}, 1)
  {
    var pair := Block(2, 1);
    assert Size(1) == 2 && Size(0) == 1;
    assert pair.Frames() == {2, 3} by { assert forall f: nat :: pair.Has(f) <==> f == 2 || f == 3; }
    forall b | b in bs ensures b.order < 1 {
      if b.order >= 1 { AloneIsCanonical(bs, b); }
    }
  }

  lemma AloneIsCanonical(bs: set<Block>, b: Block)
    requires WellPlaced(bs) && Disjoint(bs) && FramesOf(bs) == {2, 3} && b in bs && b.order >= 1
    ensures Canonical(bs)
  {
    SizeAtLeast(b.order);
    assert b.Has(b.head) && b.Has(b.head + 1) && b.head in b.Frames() && b.head + 1 in b.Frames();
    assert b.head in FramesOf(bs) && b.head + 1 in FramesOf(bs);
    assert b.head == 2 && b.Has(2) && b.Has(3);
    forall c | c in bs ensures c == b {
      assert c.Has(c.head) && c.head in c.Frames() && c.head in FramesOf(bs);
    }
    assert b.order + 1 < MAX_ORDER && b.Buddy() in bs ==> b.Buddy() == b;
    BuddyGeometry(b);
  }

  lemma SizeAtLeast(o: nat)
    requires o >= 1
    ensures Size(o) >= 2
  {
  }

  /** Two ranges side by side: both frames of an aligned pair are free, and the pair cannot be had. */
  method AdjacentRangesHideARun() returns (a: BuddyAllocator, r: Option<nat>)
    ensures fresh(a) && a.Valid() && r.None? && HasRun(a.FreeSet(), 1)
  {
    hide NoBuddies, Linked, Grants, Books, FramesOf, Step;
    a := new BuddyAllocator(8);
    NoFrames();
    TwoRanges();
    assert a.FreeBlocks() + BlocksOf(a.live) == {};
    var n := a.AddRange(2 * PAGE_SIZE, PAGE_SIZE);
    SeparatedRangeKeepsCanonical({}, 2, 3);
    assert a.FreeBlocks() + BlocksOf(a.live) == a.FreeBlocks() && a.FreeSet() == Frames(2, 3);
    AdjacentRangesCanStraddle();
    n := a.AddRange(3 * PAGE_SIZE, PAGE_SIZE);
    assert !a.ListsCanonical();
    PlacedFree(a);
    OnlySingles(a.FreeBlocks());
    r := a.AllocOrder(1);
  }

  // ---------------------------------------------------------------- a RESERVED mark that outlives its frame

  /** `reserve` does not always take its frame out of circulation.  Reserving a frame inside a live block only
      marks it; once that block is freed the frame is free and still marked, and a second `reserve` returns
      true without removing it from the free lists. */
  method ReserveCanMissAFreeFrame(a: BuddyAllocator, p: nat) returns (ok: bool)
    requires a.Valid() && a.ListsCanonical() && p > 0
    requires p in a.live && a.live[p] > 0 && a.refcounts[..][p] == 1 && p + 1 < a.maxPfn && !a.flags[p + 1].reserved
    modifies a, a.freeLists, a.nextFree, a.prevFree, a.flags, a.refcounts
    ensures a.Valid() && ok && p + 1 in a.FreeSet()
  {
    MarkInside(a, p);
    FreeMarked(a, p);
    var addr := (p + 1) * PAGE_SIZE;
    assert addr / PAGE_SIZE == p + 1;
    ok := a.Reserve(addr);
  }

  method MarkInside(a: BuddyAllocator, p: nat)
    requires a.Valid() && a.ListsCanonical()
    requires p in a.live && a.live[p] > 0 && p + 1 < a.maxPfn && !a.flags[p + 1].reserved
    modifies a, a.freeLists, a.nextFree, a.prevFree, a.flags, a.refcounts
    ensures a.Valid() && a.ListsCanonical() && a.live == old(a.live) && a.refcounts[..] == old(a.refcounts[..])
    ensures a.flags[p + 1].reserved
  {
    InsideLiveBlock(a.FreeBlocks(), a.live, p, a.freeFrames, a.totalUsableFrames, a.maxPfn);
    var addr := (p + 1) * PAGE_SIZE;
    assert addr / PAGE_SIZE == p + 1;
    assert !a.flags[..][p + 1].inUse;
    var _ := a.Reserve(addr);
    assert a.flags[..][p + 1].reserved;
  }

  method FreeMarked(a: BuddyAllocator, p: nat)
    requires a.Valid() && a.ListsCanonical() && p > 0
    requires p in a.live && a.live[p] > 0 && a.refcounts[..][p] == 1 && p + 1 < a.maxPfn && a.flags[p + 1].reserved
    modifies a, a.freeLists, a.nextFree, a.prevFree, a.flags, a.refcounts
    ensures a.Valid() && p + 1 in a.FreeSet() && a.flags[p + 1].reserved
  {
    InsideLiveBlock(a.FreeBlocks(), a.live, p, a.freeFrames, a.totalUsableFrames, a.maxPfn);
    var addr := p * PAGE_SIZE;
    assert addr / PAGE_SIZE == p;
    ghost var v, flags0 := a.View(), a.flags[..];
    assert v.live[p] == Grant(a.live[p], 1);
    var freed := a.Free(addr);
    StillMarked(a, v, flags0, p, addr, freed);
  }

  lemma StillMarked(a: BuddyAllocator, v: FramePool, flags0: seq<Flags>, p: nat, addr: nat, freed: bool)
    requires a.Valid() && a.ListsCanonical() && p % 2 == 0 && p + 1 < a.maxPfn
    requires addr == p * PAGE_SIZE && addr != 0 && p in v.live && v.live[p].refs == 1
      && Step(v, Op.Free(addr, freed), a.View())
    requires p in Block(p, v.live[p].order).Frames() && p + 1 in Block(p, v.live[p].order).Frames()
    requires MarksKept(flags0, a.flags[..]) && p + 1 < |flags0| && flags0[p + 1].reserved
    ensures p + 1 in a.FreeSet() && a.flags[p + 1].reserved
  {
    hide NoBuddies, Linked, Books, Grants, FramesOf;
    assert addr / PAGE_SIZE == p;
    SecondFrameIsNoHead(a.FreeBlocks(), p);
    a.NoFreeBlockAt(p + 1);
    assert a.flags[..][p + 1].reserved;
  }

  lemma InsideLiveBlock(free: set<Block>, live: map<nat, nat>, p: nat, ff: nat, total: nat, maxPfn: nat)
    requires Books(free, BlocksOf(live), ff, total, maxPfn) && p in live && live[p] > 0
    ensures p + 1 !in live && p + 1 !in FramesOf(free) && p % 2 == 0
    ensures p in Block(p, live[p]).Frames() && p + 1 in Block(p, live[p]).Frames()
  {
    var b := Block(p, live[p]);
    assert b in BlocksOf(live);
    var k := SizeDivides(1, b.order);
    AlignedAtDivisor(p, k, Size(1));
    assert Size(1) == 2;
    assert b.Has(p) && b.Has(p + 1);
    BooksAreSound(free, BlocksOf(live), ff, total, maxPfn);
    OnlyHead(live, b, p + 1);
  }

  lemma HeadInBlocks(live: map<nat, nat>, q: nat)
    ensures q in live ==> Block(q, live[q]) in BlocksOf(live)
  {
  }

  lemma OnlyHead(live: map<nat, nat>, b: Block, q: nat)
    requires Disjoint(BlocksOf(live)) && b in BlocksOf(live) && b.Has(q) && b.head != q
    ensures q !in live
  {
    assert forall o :: Block(q, o).Has(q);
    HeadInBlocks(live, q);
  }

  lemma SecondFrameIsNoHead(free: set<Block>, p: nat)
    requires Canonical(free) && p % 2 == 0 && p in FramesOf(free) && p + 1 in FramesOf(free)
    ensures forall b :: b in free ==> b.head != p + 1
  {
    assert Size(1) == 2 && Size(0) == 1;
    var d := Block(p, 1);
    assert d.Frames() == {p, p + 1} by { assert forall f: nat :: d.Has(f) <==> f == p || f == p + 1; }
    var c := CoveredBlockIsInsideOne(free, d);
    forall b | b in free ensures b.head != p + 1 {
      assert c.Has(p + 1) && c.head != p + 1;
      assert b.head == p + 1 ==> b.Has(p + 1);
    }
  }
}
