/** The interval map of a process (rust/kernel/src/vma.rs) as a value: areas keyed by start, and what each address
    sees. */
module VmaMap {
  import opened Options

  const PAGE_SIZE: nat := 4096

  const READ: bv32 := 1
  const WRITE: bv32 := 2
  const EXEC: bv32 := 4
  const SHARED: bv32 := 8
  const ANONYMOUS: bv32 := 16
  const STACK: bv32 := 64
  const RWX: bv32 := 7

  datatype Backing =
    | Anonymous
    | FileBacked(mount: nat, inode: nat, offset: nat, fileSize: nat, shared: bool)
    | DeviceMmio(phys: nat)

  datatype Vma = Vma(start: nat, end: nat, flags: bv32, backing: Backing)

  type Areas = map<nat, Vma>

  predicate Aligned(a: nat) { a % PAGE_SIZE == 0 }

  predicate Contains(v: Vma, a: nat) { v.start <= a < v.end }

  /** Areas are keyed by start, not empty, page-aligned, and end before the next begins. */
  ghost predicate Valid(m: Areas) {
    && (forall k :: k in m ==> m[k].start == k && k < m[k].end && Aligned(k) && Aligned(m[k].end))
    && (forall k, l :: k in m && l in m && k < l ==> m[k].end <= l)
  }

  /** What the `n`-th byte of a backing is. */
  function Advance(b: Backing, n: nat): Backing {
    match b
    case Anonymous => Anonymous
    case FileBacked(mount, inode, offset, size, shared) => FileBacked(mount, inode, offset + n, size, shared)
    case DeviceMmio(phys) => DeviceMmio(phys + n)
  }

  datatype Spot = Spot(flags: bv32, place: Backing)

  function Seen(v: Vma, a: nat): Spot
    requires Contains(v, a)
  {
    Spot(v.flags, Advance(v.backing, a - v.start))
  }

  /** Independent of any search: some area contains the address. */
  ghost predicate Covered(m: Areas, a: nat) { exists k :: k in m && Contains(m[k], a) }

  ghost function View(m: Areas, a: nat): Option<Spot> {
    if Covered(m, a) then var k :| k in m && Contains(m[k], a); Some(Seen(m[k], a)) else None
  }

  /** An address lies in at most one area, so it sees one thing. */
  lemma ViewOf(m: Areas, k: nat, a: nat)
    requires Valid(m) && k in m && Contains(m[k], a)
    ensures View(m, a) == Some(Seen(m[k], a))
  {
    forall l | l in m && Contains(m[l], a) ensures l == k {
    }
  }

  // ---------------------------------------------------------------- the last area that starts below an address

  predicate IsLast(m: Areas, bound: nat, k: nat) {
    k in m && k < bound && forall l :: l in m && l < bound ==> l <= k
  }

  lemma {:induction false} LastExists(m: Areas, bound: nat, keys: set<nat>)
    requires keys == (set k | k in m && k < bound) && keys != {}
    ensures exists k :: IsLast(m, bound, k)
    decreases bound
  {
    if bound - 1 in keys {
      assert IsLast(m, bound, bound - 1);
    } else {
      assert bound > 0;
      var below := set k | k in m && k < bound - 1;
      assert keys == below;
      LastExists(m, bound - 1, below);
      var k :| IsLast(m, bound - 1, k);
      assert IsLast(m, bound, k);
    }
  }

  /** `range(..bound).next_back()`. */
  function LastBelow(m: Areas, bound: nat): (r: Option<nat>)
    ensures r.Some? ==> IsLast(m, bound, r.value)
    ensures r.None? ==> forall k :: k in m ==> bound <= k
  {
    var keys := set k | k in m && k < bound;
    assert forall k :: k in m && k < bound ==> k in keys;
    if keys != {} then
      LastExists(m, bound, keys);
      var k :| IsLast(m, bound, k);
      Some(k)
    else None
  }

  /** The predecessor tells all: an area meets `[start, end)` exactly when the last one below `end` does. */
  lemma PredecessorIsExact(m: Areas, start: nat, end: nat)
    requires Valid(m)
    ensures var p := LastBelow(m, end);
      (p.Some? && m[p.value].end > start) <==> exists k :: k in m && m[k].start < end && start < m[k].end
  {
    var p := LastBelow(m, end);
    if p.Some? {
      forall k | k in m && k < end && start < m[k].end ensures m[p.value].end > start {
        if k < p.value { assert m[k].end <= p.value; }
      }
    }
  }

  function FindVma(m: Areas, a: nat): Option<Vma> {
    var p := LastBelow(m, a + 1);
    if p.Some? && Contains(m[p.value], a) then Some(m[p.value]) else None
  }

  /** The lookup finds an area exactly when one contains the address, and then that one. */
  lemma FindIsExact(m: Areas, a: nat)
    requires Valid(m)
    ensures FindVma(m, a).Some? <==> Covered(m, a)
    ensures forall k :: k in m && Contains(m[k], a) ==> FindVma(m, a) == Some(m[k])
    ensures FindVma(m, a).Some? ==> Contains(FindVma(m, a).value, a) && View(m, a) == Some(Seen(FindVma(m, a).value, a))
  {
    var p := LastBelow(m, a + 1);
    forall k | k in m && Contains(m[k], a) ensures p == Some(k) {
      assert p.Some? && k <= p.value;
    }
    if FindVma(m, a).Some? { ViewOf(m, p.value, a); }
  }

  // ---------------------------------------------------------------- adding one area

  lemma InsertKeeps(m: Areas, v: Vma)
    requires Valid(m) && v.start < v.end && Aligned(v.start) && Aligned(v.end)
    requires forall k :: k in m ==> m[k].end <= v.start || v.end <= k
    ensures v.start !in m && Valid(m[v.start := v])
    ensures forall a: nat :: View(m[v.start := v], a) == if Contains(v, a) then Some(Seen(v, a)) else View(m, a)
  {
    var m' := m[v.start := v];
    assert v.start !in m;
    forall a: nat ensures View(m', a) == if Contains(v, a) then Some(Seen(v, a)) else View(m, a) {
      if Contains(v, a) {
        ViewOf(m', v.start, a);
      } else if Covered(m, a) {
        var k :| k in m && Contains(m[k], a);
        ViewOf(m, k, a);
        ViewOf(m', k, a);
      } else {
        assert forall k :: k in m' && k != v.start ==> k in m && m'[k] == m[k];
      }
    }
  }

  // ---------------------------------------------------------------- replacing areas by pieces of themselves

  predicate Overlaps(v: Vma, start: nat, end: nat) { v.start < end && start < v.end }

  /** The parts of an area outside `[start, end)`, the right one further into its backing. */
  function Kept(v: Vma, start: nat, end: nat): seq<Vma>
    requires Overlaps(v, start, end)
  {
    (if v.start < start then [Vma(v.start, start, v.flags, v.backing)] else []) +
    (if end < v.end then [Vma(end, v.end, v.flags, Advance(v.backing, end - v.start))] else [])
  }

  function Protected(flags: bv32, prot: bv32): bv32 { (flags & !RWX) | prot }

  /** The parts of an area left of, in and right of `[start, end)`; all keep the backing as it is. */
  function Split(v: Vma, start: nat, end: nat, prot: bv32): seq<Vma>
    requires Overlaps(v, start, end)
  {
    var from, to := if v.start < start then start else v.start, if end < v.end then end else v.end;
    (if v.start < start then [Vma(v.start, start, v.flags, v.backing)] else []) +
    (if from < to then [Vma(from, to, Protected(v.flags, prot), v.backing)] else []) +
    (if end < v.end then [Vma(end, v.end, v.flags, v.backing)] else [])
  }

  /** Pieces lie inside an area that meets the range, and do not meet each other. */
  ghost predicate PiecesOk(m: Areas, start: nat, end: nat, pieces: seq<Vma>) {
    && (forall p :: p in pieces ==>
      p.start < p.end && Aligned(p.start) && Aligned(p.end) && HasParent(m, start, end, p))
    && (forall p, q :: p in pieces && q in pieces ==> p == q || p.end <= q.start || q.end <= p.start)
  }

  ghost predicate HasParent(m: Areas, start: nat, end: nat, p: Vma) {
    exists k :: k in m && Overlaps(m[k], start, end) && k <= p.start && p.end <= m[k].end
  }

  /** `m'` is `m` without the areas that meet the range, and with `pieces` in their place. */
  ghost predicate Replaced(m: Areas, start: nat, end: nat, pieces: seq<Vma>, m': Areas) {
    && (forall k :: k in m && !Overlaps(m[k], start, end) ==> k in m' && m'[k] == m[k])
    && (forall p :: p in pieces ==> p.start in m' && m'[p.start] == p)
    && (forall k :: k in m' ==>
      (k in m && !Overlaps(m[k], start, end) && m'[k] == m[k]) || (m'[k] in pieces && m'[k].start == k))
  }

  lemma PieceApart(m: Areas, start: nat, end: nat, p: Vma, k: nat)
    requires Valid(m) && HasParent(m, start, end, p) && k in m && !Overlaps(m[k], start, end) && p.start < p.end
    ensures p.end <= k || m[k].end <= p.start
  {
    var l: nat :| l in m && Overlaps(m[l], start, end) && l <= p.start && p.end <= m[l].end;
  }

  lemma ReplacedIsValid(m: Areas, start: nat, end: nat, pieces: seq<Vma>, m': Areas)
    requires Valid(m) && PiecesOk(m, start, end, pieces) && Replaced(m, start, end, pieces, m')
    ensures Valid(m')
  {
    forall k, l | k in m' && l in m' && k < l ensures m'[k].end <= l {
      if m'[k] in pieces && m'[l] !in pieces {
        PieceApart(m, start, end, m'[k], l);
      } else if m'[k] !in pieces && m'[l] in pieces {
        PieceApart(m, start, end, m'[l], k);
      }
    }
  }

  // ---------------------------------------------------------------- removing a range

  ghost predicate KeptOf(m: Areas, start: nat, end: nat, k: nat, p: Vma) {
    k in m && Overlaps(m[k], start, end) && p in Kept(m[k], start, end)
  }

  lemma KeptFacts(m: Areas, start: nat, end: nat, k: nat, p: Vma)
    requires Valid(m) && start <= end && Aligned(start) && Aligned(end) && KeptOf(m, start, end, k, p)
    ensures k in m && Overlaps(m[k], start, end) && k <= p.start < p.end <= m[k].end && Aligned(p.start)
      && Aligned(p.end)
    ensures p.end <= start || end <= p.start
    ensures p.flags == m[k].flags && p.backing == Advance(m[k].backing, p.start - k)
  {
  }

  lemma KeptSide(m: Areas, start: nat, end: nat, k: nat, p: Vma, q: Vma)
    requires KeptOf(m, start, end, k, p) && KeptOf(m, start, end, k, q) && start <= end
      && (p.end <= start <==> q.end <= start)
    requires Valid(m)
    ensures p == q || (start == end && (p.end <= q.start || q.end <= p.start))
  {
  }

  /** Exactly the kept parts of all areas that meet the range. */
  ghost predicate AllKept(m: Areas, start: nat, end: nat, pieces: seq<Vma>) {
    && (forall p :: p in pieces ==> exists k :: KeptOf(m, start, end, k, p))
    && (forall k, p :: KeptOf(m, start, end, k, p) ==> p in pieces)
  }

  lemma KeptPiecesOk(m: Areas, start: nat, end: nat, pieces: seq<Vma>)
    requires Valid(m) && start <= end && Aligned(start) && Aligned(end) && AllKept(m, start, end, pieces)
    ensures PiecesOk(m, start, end, pieces)
  {
    hide Kept, KeptOf, Aligned, Advance;
    forall p | p in pieces
      ensures p.start < p.end && Aligned(p.start) && Aligned(p.end) && HasParent(m, start, end, p)
    {
      var k :| KeptOf(m, start, end, k, p);
      KeptFacts(m, start, end, k, p);
    }
    forall p, q | p in pieces && q in pieces ensures p == q || p.end <= q.start || q.end <= p.start {
      var k :| KeptOf(m, start, end, k, p);
      var l :| KeptOf(m, start, end, l, q);
      KeptFacts(m, start, end, k, p);
      KeptFacts(m, start, end, l, q);
      if k == l && (p.end <= start <==> q.end <= start) { KeptSide(m, start, end, k, p, q); }
    }
  }

  /** After removal nothing is seen inside the range, and every address outside sees what it saw, flags and offset. */
  lemma RemovedView(m: Areas, start: nat, end: nat, pieces: seq<Vma>, m': Areas, a: nat)
    requires Valid(m) && Valid(m') && start <= end && Aligned(start) && Aligned(end)
    requires AllKept(m, start, end, pieces) && Replaced(m, start, end, pieces, m')
    ensures View(m', a) == if start <= a < end then None else View(m, a)
  {
    hide Kept, KeptOf, Aligned, Advance, View;
    if Covered(m', a) {
      var k :| k in m' && Contains(m'[k], a);
      ViewOf(m', k, a);
      if m'[k] in pieces {
        var p := m'[k];
        var l :| KeptOf(m, start, end, l, p);
        KeptFacts(m, start, end, l, p);
        ViewOf(m, l, a);
        AdvanceTwice(m[l].backing, p.start - l, a - p.start);
      } else {
        ViewOf(m, k, a);
      }
    } else {
      NotSeen(m', a);
      if Covered(m, a) {
        var l :| l in m && Contains(m[l], a);
        KeptCovers(m, start, end, pieces, m', l, a);
      } else {
        NotSeen(m, a);
      }
    }
  }

  lemma NotSeen(m: Areas, a: nat)
    requires !Covered(m, a)
    ensures View(m, a) == None
  {
  }

  lemma AdvanceTwice(b: Backing, i: nat, j: nat)
    ensures Advance(Advance(b, i), j) == Advance(b, i + j)
  {
  }

  lemma KeptCovers(m: Areas, start: nat, end: nat, pieces: seq<Vma>, m': Areas, l: nat, a: nat)
    requires Valid(m) && start <= end && AllKept(m, start, end, pieces) && Replaced(m, start, end, pieces, m')
    requires l in m && Contains(m[l], a)
    ensures start <= a < end || Covered(m', a)
  {
    if Overlaps(m[l], start, end) && !(start <= a < end) {
      var ps := Kept(m[l], start, end);
      var p := if a < start then ps[0] else ps[|ps| - 1];
      assert p in ps && Contains(p, a);
      assert KeptOf(m, start, end, l, p);
      assert m'[p.start] == p;
    }
  }

  // ---------------------------------------------------------------- protecting a range

  ghost predicate SplitOf(m: Areas, start: nat, end: nat, prot: bv32, k: nat, p: Vma) {
    k in m && Overlaps(m[k], start, end) && p in Split(m[k], start, end, prot)
  }

  lemma SplitFacts(m: Areas, start: nat, end: nat, prot: bv32, k: nat, p: Vma)
    requires Valid(m) && start <= end && Aligned(start) && Aligned(end) && SplitOf(m, start, end, prot, k, p)
    ensures k in m && Overlaps(m[k], start, end) && k <= p.start < p.end <= m[k].end && Aligned(p.start)
      && Aligned(p.end)
    ensures p.end <= start || end <= p.start || (start <= p.start && p.end <= end)
  {
  }

  lemma SplitSide(m: Areas, start: nat, end: nat, prot: bv32, k: nat, p: Vma, q: Vma)
    requires Valid(m) && start <= end && SplitOf(m, start, end, prot, k, p) && SplitOf(m, start, end, prot, k, q)
    ensures p == q || p.end <= q.start || q.end <= p.start
  {
  }

  ghost predicate AllSplit(m: Areas, start: nat, end: nat, prot: bv32, pieces: seq<Vma>) {
    && (forall p :: p in pieces ==> exists k :: SplitOf(m, start, end, prot, k, p))
    && (forall k, p :: SplitOf(m, start, end, prot, k, p) ==> p in pieces)
  }

  lemma SplitPiecesOk(m: Areas, start: nat, end: nat, prot: bv32, pieces: seq<Vma>)
    requires Valid(m) && start <= end && Aligned(start) && Aligned(end) && AllSplit(m, start, end, prot, pieces)
    ensures PiecesOk(m, start, end, pieces)
  {
    hide Split, SplitOf, Aligned;
    forall p | p in pieces
      ensures p.start < p.end && Aligned(p.start) && Aligned(p.end) && HasParent(m, start, end, p)
    {
      var k :| SplitOf(m, start, end, prot, k, p);
      SplitFacts(m, start, end, prot, k, p);
    }
    forall p, q | p in pieces && q in pieces ensures p == q || p.end <= q.start || q.end <= p.start {
      var k :| SplitOf(m, start, end, prot, k, p);
      var l :| SplitOf(m, start, end, prot, l, q);
      SplitFacts(m, start, end, prot, k, p);
      SplitFacts(m, start, end, prot, l, q);
      if k == l { SplitSide(m, start, end, prot, k, p, q); }
    }
  }

  /** Where the piece that holds `a` begins. */
  function PieceStart(v: Vma, start: nat, end: nat, a: nat): nat {
    if !Overlaps(v, start, end) || a < start then v.start else if end <= a then end else if v.start < start then start
      else v.start
  }

  lemma SplitPart(v: Vma, start: nat, end: nat, prot: bv32, a: nat) returns (p: Vma)
    requires Overlaps(v, start, end) && start <= end && Contains(v, a)
    ensures p in Split(v, start, end, prot) && Contains(p, a) && p.start == PieceStart(v, start, end, a)
    ensures p.flags == (if start <= a < end then Protected(v.flags, prot) else v.flags) && p.backing == v.backing
  {
    var ps := Split(v, start, end, prot);
    p := if a < start then ps[0] else if end <= a then ps[|ps| - 1] else if v.start < start then ps[1] else ps[0];
  }

  /** What an address sees after protection: the same coverage; inside the range only the access bits change.  The place
      it sees is counted from the start of its piece, so it is the same exactly when that is the start of the area. */
  lemma ProtectedView(m: Areas, start: nat, end: nat, prot: bv32, pieces: seq<Vma>, m': Areas, k: nat, a: nat)
    requires Valid(m) && Valid(m') && start <= end && AllSplit(m, start, end, prot, pieces)
      && Replaced(m, start, end, pieces, m')
    requires k in m && Contains(m[k], a)
    ensures View(m', a).Some? && View(m', a).value.flags == if start <= a < end then Protected(m[k].flags, prot)
      else m[k].flags
    ensures View(m', a).value.place == Seen(m[k], a).place <==>
      m[k].backing.Anonymous? || PieceStart(m[k], start, end, a) == k
  {
    hide Split, Protected, Aligned, View;
    if Overlaps(m[k], start, end) {
      var p := SplitPart(m[k], start, end, prot, a);
      assert SplitOf(m, start, end, prot, k, p);
      ViewOf(m', p.start, a);
    } else {
      ViewOf(m', k, a);
    }
  }

  /** A file mapped on three pages: after protecting the second, its first byte sees the first byte of the file. */
  lemma ProtectMovesTheFile()
    ensures var v := Vma(0, 3 * PAGE_SIZE, READ, FileBacked(1, 2, 0, 3 * PAGE_SIZE, false));
            var p := Split(v, PAGE_SIZE, 2 * PAGE_SIZE, READ)[1];
            && Contains(p, PAGE_SIZE) && Seen(p, PAGE_SIZE).place == FileBacked(1, 2, 0, 3 * PAGE_SIZE, false)
            && Seen(v, PAGE_SIZE).place == FileBacked(1, 2, PAGE_SIZE, 3 * PAGE_SIZE, false)
  {
  }

  lemma ProtectedUncovered(m: Areas, start: nat, end: nat, prot: bv32, pieces: seq<Vma>, m': Areas, a: nat)
    requires Valid(m) && start <= end && Aligned(start) && Aligned(end)
    requires AllSplit(m, start, end, prot, pieces) && Replaced(m, start, end, pieces, m') && !Covered(m, a)
    ensures View(m', a) == None
  {
    hide Split, SplitOf, Aligned, View;
    forall k | k in m' ensures !Contains(m'[k], a) {
      if m'[k] in pieces {
        var l :| SplitOf(m, start, end, prot, l, m'[k]);
        SplitFacts(m, start, end, prot, l, m'[k]);
        assert !Contains(m[l], a);
      } else {
        assert !Contains(m[k], a);
      }
    }
    NotSeen(m', a);
  }

  /** The access bits are the new ones; of the others none is lost, and none comes in but from the new flags. */
  lemma ProtectedBits(flags: bv32, prot: bv32)
    ensures Protected(flags, prot) & RWX == prot & RWX && Protected(flags, prot) & !RWX == (flags | prot) & !RWX
  {
  }

  // ---------------------------------------------------------------- the stack

  predicate IsStack(v: Vma) { v.flags & STACK == STACK }

  predicate IsFirstStack(m: Areas, k: nat) {
    k in m && IsStack(m[k]) && forall l :: l in m && IsStack(m[l]) ==> k <= l
  }

  lemma {:induction false} LeastExists(keys: set<nat>) returns (k: nat)
    requires keys != {}
    ensures k in keys && forall l :: l in keys ==> k <= l
    decreases |keys|
  {
    var x :| x in keys;
    if keys == {x} {
      k := x;
    } else {
      var rest := keys - {x};
      assert rest != {} && keys == rest + {x};
      var y := LeastExists(rest);
      k := if x < y then x else y;
    }
  }

  /** The first area marked as stack. */
  function FindStack(m: Areas): (r: Option<nat>)
    ensures r.Some? ==> IsFirstStack(m, r.value)
    ensures r.None? ==> forall k :: k in m ==> !IsStack(m[k])
  {
    var keys := set k | k in m && IsStack(m[k]);
    assert forall k :: k in m && IsStack(m[k]) ==> k in keys;
    if keys != {} then
      assert exists k :: IsFirstStack(m, k) by {
        var k := LeastExists(keys);
        assert IsFirstStack(m, k);
      }
      var k :| IsFirstStack(m, k);
      Some(k)
    else None
  }

  function CanGrowStack(m: Areas, bottom: nat, top: nat, a: nat): bool {
    if top <= a || a < bottom then false else
      var s := FindStack(m);
      s.Some? && a < m[s.value].start &&
      var p := LastBelow(m, m[s.value].start);
      p.None? || m[p.value].end <= a
  }

  /** Addresses from `start` up to the old stack see the stack; all others see what they saw. */
  ghost predicate GrownView(m: Areas, m': Areas, k: nat, start: nat)
    requires k in m
  {
    forall a: nat :: View(m', a) == if start <= a < k then Some(Spot(m[k].flags, Anonymous)) else View(m, a)
  }

  /** An area grows downwards into free space. */
  lemma GrowKeeps(m: Areas, k: nat, start: nat)
    requires Valid(m) && k in m && start < k && Aligned(start)
    requires forall l :: l in m && l < k ==> m[l].end <= start
    ensures start !in m - {k} && Valid((m - {k})[start := m[k].(start := start)])
    ensures m[k].backing.Anonymous? ==> GrownView(m, (m - {k})[start := m[k].(start := start)], k, start)
  {
    var rest, v := m - {k}, m[k].(start := start);
    var m' := rest[start := v];
    assert forall l :: l in rest ==> m[l].end <= start || v.end <= l;
    InsertKeeps(rest, v);
    hide View;
    if m[k].backing.Anonymous? {
      forall a: nat ensures View(m', a) == if start <= a < k then Some(Spot(m[k].flags, Anonymous)) else View(m, a) {
        GrowView(m, k, a);
        assert View(m', a) == if Contains(v, a) then Some(Seen(v, a)) else View(rest, a);
      }
    }
  }

  lemma GrowView(m: Areas, k: nat, a: nat)
    requires Valid(m) && k in m
    ensures View(m, a) == if Contains(m[k], a) then Some(Seen(m[k], a)) else View(m - {k}, a)
  {
    var rest := m - {k};
    assert forall l :: l in rest ==> m[l].end <= k || m[k].end <= l;
    InsertKeeps(rest, m[k]);
    assert rest[k := m[k]] == m;
  }
}
