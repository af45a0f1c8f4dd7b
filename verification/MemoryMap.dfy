/** The memory map of a process: areas kept in a sorted map (rust/kernel/src/vma.rs), the placement of new ones, and
    `mmap` on top of it (rust/kernel/src/process.rs). */
module MemoryMap {
  import opened Arithmetic
  import opened VmaMap
  import opened Options

  const U64_MAX: nat := 0xffff_ffff_ffff_ffff
  const HALF: nat := 0x8000_0000_0000_0000
  const USER_STACK_START: nat := 0x7fff_ffff_f000 - 16 * PAGE_SIZE
  const MMAP_FALLBACK: nat := 0x1000_0000

  function AlignDown(a: nat): nat { a - a % PAGE_SIZE }

  function AlignUp(a: nat): nat { AlignDown(a + (PAGE_SIZE - 1)) }

  lemma AlignFacts(a: nat)
    ensures Aligned(AlignDown(a)) && AlignDown(a) <= a < AlignDown(a) + PAGE_SIZE
    ensures Aligned(AlignUp(a)) && a <= AlignUp(a) < a + PAGE_SIZE
    ensures Aligned(a) ==> AlignDown(a) == a == AlignUp(a)
  {
  }

  lemma AlignedBelow(b: nat, a: nat)
    requires Aligned(b) && b <= a
    ensures b <= AlignDown(a)
  {
    AlignFacts(a);
    if AlignDown(a) < b {
      var i := Multiple(b, PAGE_SIZE);
      var j := Multiple(AlignDown(a), PAGE_SIZE);
      MulMono(j + 1, i, PAGE_SIZE);
    }
  }

  // ---------------------------------------------------------------- free ranges

  /** No area meets `[base, base + length)`. */
  ghost predicate Free(m: Areas, base: nat, length: nat) {
    forall k :: k in m ==> !(base < m[k].end && m[k].start < base + length)
  }

  /** `base` is the least page-aligned place from `from` on where `length` bytes are free. */
  ghost predicate IsFirstFit(m: Areas, from: nat, length: nat, base: nat) {
    && from <= base && Aligned(base) && Free(m, base, length)
    && forall b: nat :: from <= b < base && Aligned(b) ==> !Free(m, b, length)
  }

  /** Nothing fits from `from` on below `limit`. */
  ghost predicate NoFit(m: Areas, from: nat, length: nat, limit: nat) {
    forall b: nat :: from <= b && b + length < limit && Aligned(b) ==> !Free(m, b, length)
  }

  /** The places a linear search looks at: where it starts, and the end of every area beyond. */
  ghost predicate IsStop(m: Areas, from: nat, c: nat) {
    c == from || (from < c && exists k :: k in m && m[k].end == c)
  }

  /** Every place the search looks at is below the limit or so high that its range would pass the largest address. */
  ghost predicate Overshoots(m: Areas, from: nat, length: nat, limit: nat) {
    forall c: nat :: IsStop(m, from, c) ==> c + length < limit || c + length > U64_MAX
  }

  lemma FirstFitIsUnique(m: Areas, from: nat, length: nat, b: nat, c: nat)
    requires IsFirstFit(m, from, length, b) && IsFirstFit(m, from, length, c)
    ensures b == c
  {
  }

  /** Between a place that meets an area and the end of that area nothing fits. */
  lemma JumpSkipsNothing(m: Areas, k: nat, base: nat, length: nat, b: nat)
    requires k in m && base < m[k].end && m[k].start < base + length && base <= b < m[k].end
    ensures !Free(m, b, length)
  {
  }

  /** Below an area that meets a range and is the first to do so, no other area ends beyond the start of the range. */
  lemma NextStop(m: Areas, from: nat, k: nat, base: nat, length: nat, c: nat)
    requires Valid(m) && k in m && from <= base < m[k].end && m[k].start < base + length
    requires forall l :: l in m && l < k ==> !(base < m[l].end && m[l].start < base + length)
    requires IsStop(m, from, c) && c < m[k].end
    ensures c <= base
  {
    if c != from {
      var l :| l in m && m[l].end == c;
      assert l < k;
    }
  }

  lemma {:induction false} LastStop(m: Areas, from: nat, ks: set<nat>) returns (c: nat)
    requires ks <= m.Keys
    ensures IsStop(m, from, c) && forall k :: k in ks ==> m[k].end <= c
    decreases ks
  {
    if ks == {} {
      c := from;
    } else {
      var k :| k in ks;
      c := LastStop(m, from, ks - {k});
      if c < m[k].end { c := m[k].end; }
    }
  }

  /** With every address below 2^63, a search that fails by overflow was for more bytes than lie below the limit. */
  lemma LowAreasDoNotOvershoot(m: Areas, from: nat, length: nat, limit: nat)
    requires Valid(m) && Aligned(from) && from <= HALF && limit <= HALF && forall k :: k in m ==> m[k].end <= HALF
    requires NoFit(m, from, length, limit) && Overshoots(m, from, length, limit)
    ensures length >= limit && forall start: nat :: NoFit(m, start, length, limit)
  {
    var c := LastStop(m, from, m.Keys);
    assert Free(m, c, length);
    assert c <= HALF && Aligned(c);
  }

  /** An area that ends at the top of the address space: the search that meets it fails, though lower down there is
      room and the second search would find it. */
  lemma OvershootHidesFallback()
    ensures var m: Areas := map[0x7000_0000_0000 := Vma(0x7000_0000_0000, U64_MAX + 1 - PAGE_SIZE, 0, Anonymous)];
            && Valid(m) && NoFit(m, 0x7000_0000_0000, 2 * PAGE_SIZE, USER_STACK_START)
            && Overshoots(m, 0x7000_0000_0000, 2 * PAGE_SIZE, USER_STACK_START)
            && IsFirstFit(m, MMAP_FALLBACK, 2 * PAGE_SIZE, MMAP_FALLBACK)
  {
    var m: Areas := map[0x7000_0000_0000 := Vma(0x7000_0000_0000, U64_MAX + 1 - PAGE_SIZE, 0, Anonymous)];
    forall b: nat | 0x7000_0000_0000 <= b < USER_STACK_START ensures !Free(m, b, 2 * PAGE_SIZE) {
      JumpSkipsNothing(m, 0x7000_0000_0000, 0x7000_0000_0000, 2 * PAGE_SIZE, b);
    }
  }

  /** `m'` shows `v` where it lies and `m` elsewhere. */
  ghost predicate ShowsAlso(m: Areas, m': Areas, v: Vma) {
    forall a: nat :: View(m', a) == if Contains(v, a) then Some(Seen(v, a)) else View(m, a)
  }

  /** `m'` shows nothing in `[start, end)` and `m` elsewhere. */
  ghost predicate Hides(m: Areas, m': Areas, start: nat, end: nat) {
    forall a: nat :: View(m', a) == if start <= a < end then None else View(m, a)
  }

  class ProcessMemoryMap {
    var vmas: Areas
    var mmapHint: nat
    const stackBottom: nat
    const stackTop: nat

    ghost predicate Ok()
      reads this
    {
      Valid(vmas) && Aligned(mmapHint) && Aligned(stackBottom) && stackBottom <= U64_MAX
    }

    constructor (top: nat, bottom: nat)
      requires Aligned(bottom) && bottom <= U64_MAX
      ensures Ok() && vmas == map[] && stackTop == top && stackBottom == bottom && mmapHint == 0x7000_0000_0000
    {
      vmas, mmapHint, stackTop, stackBottom := map[], 0x7000_0000_0000, top, bottom;
    }

    /** Accepts an area exactly when it is page-aligned, not empty and meets no other. */
    method InsertVma(start: nat, end: nat, flags: bv32, backing: Backing) returns (ok: bool)
      requires Ok()
      modifies `vmas
      ensures Ok()
      ensures ok <==> start < end && Aligned(start) && Aligned(end) && Free(old(vmas), start, end - start)
      ensures ok ==> vmas == old(vmas)[start := Vma(start, end, flags, backing)]
      ensures ok ==> ShowsAlso(old(vmas), vmas, Vma(start, end, flags, backing))
      ensures !ok ==> vmas == old(vmas)
    {
      hide View, Advance;
      if start >= end || !Aligned(start) || !Aligned(end) { return false; }
      var p := LastBelow(vmas, end);
      PredecessorIsExact(vmas, start, end);
      if p.Some? && vmas[p.value].end > start {
        var k :| k in vmas && vmas[k].start < end && start < vmas[k].end;
        return false;
      }
      var v := Vma(start, end, flags, backing);
      InsertKeeps(vmas, v);
      vmas := vmas[start := v];
      return true;
    }

    /** The keys of the areas that meet a range, in ascending order. */
    method Meeting(start: nat, end: nat) returns (keys: seq<nat>)
      requires Valid(vmas)
      ensures forall k :: k in keys <==> k in vmas && Overlaps(vmas[k], start, end)
      ensures forall i, j :: 0 <= i < j < |keys| ==> keys[i] < keys[j]
    {
      keys := [];
      var left := set k | k in vmas && vmas[k].start < end && start < vmas[k].end;
      while left != {}
        invariant forall k :: k in keys || k in left <==> k in vmas && Overlaps(vmas[k], start, end)
        invariant forall k, l :: k in keys && l in left ==> k < l
        invariant forall i, j :: 0 <= i < j < |keys| ==> keys[i] < keys[j]
      {
        var k := Least(left);
        assert forall i :: 0 <= i < |keys| ==> keys[i] in keys;
        keys, left := keys + [k], left - {k};
      }
    }

    /** Takes the areas `keys` out and puts `pieces` in. */
    method Replace(keys: seq<nat>, pieces: seq<Vma>, start: nat, end: nat)
      requires Valid(vmas) && PiecesOk(vmas, start, end, pieces)
      requires forall k :: k in keys <==> k in vmas && Overlaps(vmas[k], start, end)
      modifies `vmas
      ensures Valid(vmas) && Replaced(old(vmas), start, end, pieces, vmas)
    {
      ghost var m := vmas;
      for i := 0 to |keys|
        invariant vmas == m - set k | k in keys[..i]
      {
        assert keys[..i + 1] == keys[..i] + [keys[i]];
        vmas := vmas - {keys[i]};
      }
      assert keys[..|keys|] == keys;
      Emptied(m, vmas, keys, start, end);
      for i := 0 to |pieces|
        invariant Replaced(m, start, end, pieces[..i], vmas)
      {
        ReplaceNext(m, start, end, pieces, i, vmas);
        vmas := vmas[pieces[i].start := pieces[i]];
      }
      assert pieces[..|pieces|] == pieces;
      ReplacedIsValid(m, start, end, pieces, vmas);
    }

    /** Nothing is left inside the range; outside it every address sees the same flags and the same place. */
    method RemoveVmaRange(start: nat, end: nat) returns (affected: seq<Vma>)
      requires Ok() && start <= end && Aligned(start) && Aligned(end)
      modifies `vmas
      ensures Ok() && Hides(old(vmas), vmas, start, end)
      ensures forall v :: v in affected <==> v.start in old(vmas) && old(vmas)[v.start] == v && Overlaps(v, start, end)
    {
      hide View, Kept, Aligned, PiecesOk, Replaced;
      var keys := Meeting(start, end);
      affected := [];
      var pieces := [];
      for i := 0 to |keys|
        invariant forall v :: v in affected <==> v.start in keys[..i] && v == vmas[v.start]
        invariant KeptSoFar(vmas, start, end, keys[..i], pieces)
      {
        assert keys[..i + 1] == keys[..i] + [keys[i]] && keys[i] in keys;
        var v := vmas[keys[i]];
        affected := affected + [v];
        pieces := pieces + Kept(v, start, end);
      }
      assert keys[..|keys|] == keys;
      AllKeptNow(vmas, start, end, keys, pieces);
      KeptPiecesOk(vmas, start, end, pieces);
      Replace(keys, pieces, start, end);
      forall a: nat ensures View(vmas, a) == if start <= a < end then None else View(old(vmas), a) {
        RemovedView(old(vmas), start, end, pieces, vmas, a);
      }
    }

    /** The same addresses are covered; inside the range only the access bits change. */
    method ProtectVmaRange(start: nat, end: nat, prot: bv32)
      requires Ok() && start <= end && Aligned(start) && Aligned(end)
      modifies `vmas
      ensures Ok() && ProtectedIn(old(vmas), vmas, start, end, prot)
    {
      hide View, Split, Aligned, PiecesOk, Replaced;
      var keys := Meeting(start, end);
      var pieces := [];
      for i := 0 to |keys|
        invariant unchanged(`vmas) && SplitSoFar(vmas, start, end, prot, keys[..i], pieces)
      {
        assert keys[..i + 1] == keys[..i] + [keys[i]] && keys[i] in keys;
        SplitMore(vmas, start, end, prot, keys[..i], keys[i], pieces);
        pieces := pieces + Split(vmas[keys[i]], start, end, prot);
      }
      assert keys[..|keys|] == keys;
      AllSplitNow(vmas, start, end, prot, keys, pieces);
      SplitPiecesOk(vmas, start, end, prot, pieces);
      Replace(keys, pieces, start, end);
      ProtectedAll(old(vmas), start, end, prot, pieces, vmas);
    }

    /** Succeeds exactly when the page is above the limit and everything from it up to the stack is free. */
    method GrowStackTo(addr: nat) returns (r: Option<nat>)
      requires Ok()
      modifies `vmas
      ensures Ok() && (r.Some? <==> StackFits(old(vmas), stackBottom, AlignDown(addr)))
      ensures r.None? ==> vmas == old(vmas)
      ensures CanGrowStack(old(vmas), stackBottom, stackTop, addr) ==>
        r.Some? && r.value in vmas && Contains(vmas[r.value], addr) && IsStack(vmas[r.value])
      ensures r.Some? ==> var k := FindStack(old(vmas)).value;
        if AlignDown(addr) < k
        then vmas == (old(vmas) - {k})[AlignDown(addr) := old(vmas)[k].(start := AlignDown(addr))]
             && (old(vmas)[k].backing.Anonymous? ==> GrownView(old(vmas), vmas, k, AlignDown(addr)))
        else vmas == old(vmas)
    {
      var start := AlignDown(addr);
      AlignFacts(addr);
      GrowthAgrees(vmas, stackBottom, stackTop, addr);
      if start < stackBottom { return None; }
      var s := FindStack(vmas);
      if s.None? { return None; }
      var stack := vmas[s.value];
      if start >= stack.start { return Some(s.value); }
      var p := LastBelow(vmas - {s.value}, stack.start);
      StackPredecessor(vmas, s.value, start);
      if p.Some? && start < vmas[p.value].end { return None; }
      GrowKeeps(vmas, s.value, start);
      vmas := (vmas - {s.value})[start := stack.(start := start)];
      return Some(start);
    }

    // -------------------------------------------------------------- placing a new area

    /** The linear scan: least free base from `from` on, or none below `limit`; it reports an overflow exactly when it
        finds nothing and steps over the whole stretch between the limit and the largest address. */
    method ScanFrom(from: nat, length: nat, limit: nat) returns (r: Option<nat>, overflow: bool)
      requires Valid(vmas) && Aligned(from) && limit <= U64_MAX
      ensures r.Some? ==> IsFirstFit(vmas, from, length, r.value) && r.value + length < limit
      ensures r.None? ==> NoFit(vmas, from, length, limit)
      ensures overflow <==> r.None? && Overshoots(vmas, from, length, limit)
    {
      hide Valid;
      var candidate := from;
      while true
        invariant from <= candidate && Aligned(candidate) && IsStop(vmas, from, candidate)
        invariant forall b: nat :: from <= b < candidate && Aligned(b) ==> !Free(vmas, b, length)
        invariant forall c: nat :: IsStop(vmas, from, c) && c < candidate ==> c + length < limit
        decreases if candidate + length < limit then limit - candidate else 0
      {
        if candidate + length > U64_MAX { return None, true; }
        if candidate + length >= limit { return None, false; }
        var k := FirstConflict(candidate, length);
        if k.None? { return Some(candidate), false; }
        EndsAligned(vmas, k.value);
        AlignFacts(vmas[k.value].end);
        forall b: nat | candidate <= b < vmas[k.value].end ensures !Free(vmas, b, length) {
          JumpSkipsNothing(vmas, k.value, candidate, length, b);
        }
        forall c: nat | IsStop(vmas, from, c) && c < vmas[k.value].end ensures c <= candidate {
          NextStop(vmas, from, k.value, candidate, length, c);
        }
        candidate := AlignUp(vmas[k.value].end);
      }
      assert false;
    }

    /** The first area, in ascending order, that meets a range. */
    method FirstConflict(base: nat, length: nat) returns (k: Option<nat>)
      ensures k.None? <==> Free(vmas, base, length)
      ensures k.Some? ==> k.value in vmas && base < vmas[k.value].end && vmas[k.value].start < base + length
      ensures k.Some? ==> forall l :: l in vmas && l < k.value ==>
        !(base < vmas[l].end && vmas[l].start < base + length)
    {
      var left := vmas.Keys;
      while left != {}
        invariant left <= vmas.Keys
        invariant forall l :: l in vmas && l !in left ==> !(base < vmas[l].end && vmas[l].start < base + length)
        invariant forall l, x :: l in vmas && l !in left && x in left ==> l < x
      {
        var x := Least(left);
        if base < vmas[x].end && vmas[x].start < base + length { return Some(x); }
        left := left - {x};
      }
      return None;
    }

    /** Fails exactly when the length cannot be rounded up, or the first search finds nothing and either overshoots or
        leaves nothing for the second. */
    method FindFreeMmapRegion(length: nat) returns (r: Option<nat>)
      requires Ok() && length <= U64_MAX
      modifies `mmapHint
      ensures Ok()
      ensures r.Some? ==> r.value + AlignUp(length) < stackBottom
      ensures r.Some? && !NoFit(vmas, old(mmapHint), AlignUp(length), stackBottom) ==>
        IsFirstFit(vmas, old(mmapHint), AlignUp(length), r.value) && mmapHint == r.value + AlignUp(length)
      ensures r.Some? && NoFit(vmas, old(mmapHint), AlignUp(length), stackBottom) ==>
        IsFirstFit(vmas, MMAP_FALLBACK, AlignUp(length), r.value) && mmapHint == old(mmapHint)
      ensures r.None? <==>
        || length + (PAGE_SIZE - 1) > U64_MAX
        || (NoFit(vmas, old(mmapHint), AlignUp(length), stackBottom)
            && (Overshoots(vmas, old(mmapHint), AlignUp(length), stackBottom)
                || NoFit(vmas, MMAP_FALLBACK, AlignUp(length), stackBottom)))
    {
      hide Valid, Free, AlignUp, IsStop;
      if length + (PAGE_SIZE - 1) > U64_MAX { return None; }
      var aligned := AlignUp(length);
      AlignFacts(length);
      var base, overflow := ScanFrom(mmapHint, aligned, stackBottom);
      if overflow { return None; }
      if base.Some? {
        AlignedSum(base.value, aligned);
        mmapHint := base.value + aligned;
        return base;
      }
      r, overflow := ScanFrom(MMAP_FALLBACK, aligned, stackBottom);
    }
  }

  /** Coverage is the same; inside `[start, end)` the access bits are the new ones and no other bit is lost, outside all
      bits are as they were.  The place an address sees stays the same exactly when its area is anonymous or its piece
      begins where the area began. */
  ghost predicate ProtectedIn(m: Areas, m': Areas, start: nat, end: nat, prot: bv32) {
    && (forall a: nat :: !Covered(m, a) ==> View(m', a) == None)
    && (forall k, a: nat :: k in m && Contains(m[k], a) ==> ProtectedAt(m[k], m', start, end, prot, a))
  }

  ghost predicate ProtectedAt(v: Vma, m': Areas, start: nat, end: nat, prot: bv32, a: nat)
    requires Contains(v, a)
  {
    && View(m', a).Some? && FlagsAt(View(m', a).value.flags, v.flags, prot, start <= a < end)
    && (View(m', a).value.place == Seen(v, a).place <==>
      v.backing.Anonymous? || PieceStart(v, start, end, a) == v.start)
  }

  ghost predicate FlagsAt(now: bv32, was: bv32, prot: bv32, inside: bool) {
    if inside then now & RWX == prot & RWX && now & !RWX == (was | prot) & !RWX else now == was
  }

  lemma ProtectedFlags(was: bv32, prot: bv32, inside: bool)
    ensures FlagsAt(if inside then Protected(was, prot) else was, was, prot, inside)
  {
    hide Protected;
    ProtectedBits(was, prot);
  }

  lemma ProtectedAll(m: Areas, start: nat, end: nat, prot: bv32, pieces: seq<Vma>, m': Areas)
    requires Valid(m) && Valid(m') && start <= end && Aligned(start) && Aligned(end)
    requires AllSplit(m, start, end, prot, pieces) && Replaced(m, start, end, pieces, m')
    ensures ProtectedIn(m, m', start, end, prot)
  {
    hide View, AllSplit, Replaced, Protected, PieceStart, FlagsAt;
    forall a: nat | !Covered(m, a) ensures View(m', a) == None {
      ProtectedUncovered(m, start, end, prot, pieces, m', a);
    }
    forall k, a: nat | k in m && Contains(m[k], a) ensures ProtectedAt(m[k], m', start, end, prot, a) {
      ProtectedView(m, start, end, prot, pieces, m', k, a);
      ProtectedFlags(m[k].flags, prot, start <= a < end);
    }
  }

  ghost predicate SplitSoFar(m: Areas, start: nat, end: nat, prot: bv32, keys: seq<nat>, pieces: seq<Vma>) {
    && (forall p :: p in pieces ==> exists k :: k in keys && SplitOf(m, start, end, prot, k, p))
    && (forall k, p :: k in keys && SplitOf(m, start, end, prot, k, p) ==> p in pieces)
  }

  lemma SplitMore(m: Areas, start: nat, end: nat, prot: bv32, keys: seq<nat>, k: nat, pieces: seq<Vma>)
    requires SplitSoFar(m, start, end, prot, keys, pieces) && k in m && Overlaps(m[k], start, end)
    ensures SplitSoFar(m, start, end, prot, keys + [k], pieces + Split(m[k], start, end, prot))
  {
    hide Split;
    forall p | p in pieces + Split(m[k], start, end, prot)
      ensures exists l :: l in keys + [k] && SplitOf(m, start, end, prot, l, p)
    {
      if p in pieces {
        var l :| l in keys && SplitOf(m, start, end, prot, l, p);
        assert l in keys + [k];
      } else {
        assert k in keys + [k] && SplitOf(m, start, end, prot, k, p);
      }
    }
  }

  lemma AllSplitNow(m: Areas, start: nat, end: nat, prot: bv32, keys: seq<nat>, pieces: seq<Vma>)
    requires SplitSoFar(m, start, end, prot, keys, pieces) && forall k :: k in keys <==>
      k in m && Overlaps(m[k], start, end)
    ensures AllSplit(m, start, end, prot, pieces)
  {
  }

  /** The page `start` is not below the limit, and all from it up to the stack is free. */
  ghost predicate StackFits(m: Areas, bottom: nat, start: nat) {
    bottom <= start && FindStack(m).Some? &&
    (FindStack(m).value <= start || forall l :: l in m && l < FindStack(m).value ==> m[l].end <= start)
  }

  lemma GrowthAgrees(m: Areas, bottom: nat, top: nat, a: nat)
    requires Valid(m) && Aligned(bottom)
    ensures CanGrowStack(m, bottom, top, a) ==> StackFits(m, bottom, AlignDown(a)) && AlignDown(a) < FindStack(m).value
  {
    AlignFacts(a);
    if CanGrowStack(m, bottom, top, a) {
      AlignedBelow(bottom, a);
      var s := FindStack(m).value;
      forall l | l in m && l < s ensures m[l].end <= AlignDown(a) {
        var p := LastBelow(m, s).value;
        assert l < p ==> m[l].end <= p;
        AlignedBelow(m[p].end, a);
      }
    }
  }

  /** Looking at the area below the stack is looking at all of them. */
  lemma StackPredecessor(m: Areas, s: nat, start: nat)
    requires Valid(m) && s in m
    ensures var p := LastBelow(m - {s}, s);
      (p.Some? && start < m[p.value].end) <==> exists l :: l in m && l < s && start < m[l].end
  {
    var p := LastBelow(m - {s}, s);
    forall l | l in m && l < s && start < m[l].end ensures p.Some? && start < m[p.value].end {
      assert l in m - {s};
    }
  }

  lemma EndsAligned(m: Areas, k: nat)
    requires Valid(m) && k in m
    ensures Aligned(m[k].end)
  {
  }

  lemma AlignedSum(a: nat, b: nat)
    requires Aligned(a) && Aligned(b)
    ensures Aligned(a + b)
  {
  }

  lemma Emptied(m: Areas, m': Areas, keys: seq<nat>, start: nat, end: nat)
    requires m' == m - (set k | k in keys) && forall k :: k in keys <==> k in m && Overlaps(m[k], start, end)
    ensures Replaced(m, start, end, [], m')
  {
  }

  lemma ReplaceNext(m: Areas, start: nat, end: nat, pieces: seq<Vma>, i: nat, m': Areas)
    requires Valid(m) && i < |pieces| && PiecesOk(m, start, end, pieces) && Replaced(m, start, end, pieces[..i], m')
    ensures Replaced(m, start, end, pieces[..i + 1], m'[pieces[i].start := pieces[i]])
  {
    var p := pieces[i];
    assert pieces[..i + 1] == pieces[..i] + [p] && p in pieces;
    forall k | k in m && !Overlaps(m[k], start, end) ensures k != p.start {
      PieceApart(m, start, end, p, k);
    }
    forall q | q in pieces[..i] ensures q == p || q.start != p.start {
      assert q in pieces;
    }
  }

  ghost predicate KeptSoFar(m: Areas, start: nat, end: nat, keys: seq<nat>, pieces: seq<Vma>) {
    && (forall p :: p in pieces ==> exists k :: k in keys && KeptOf(m, start, end, k, p))
    && (forall k, p :: k in keys && KeptOf(m, start, end, k, p) ==> p in pieces)
  }

  lemma AllKeptNow(m: Areas, start: nat, end: nat, keys: seq<nat>, pieces: seq<Vma>)
    requires KeptSoFar(m, start, end, keys, pieces) && forall k :: k in keys <==> k in m && Overlaps(m[k], start, end)
    ensures AllKept(m, start, end, pieces)
  {
  }
}
