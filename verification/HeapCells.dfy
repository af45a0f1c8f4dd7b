/** The kernel heap (rust/kernel/src/heap.rs) as values: the cells carved so far, slab caches and their free lists. */
module HeapCells {
  import opened Arithmetic
  import opened BuddyBlocks
  import opened Options

  const PAGE_EXP: nat := 12
  const CLASSES: nat := 7

  /** Address to exponent: a cell at `a` has `Size(cells[a])` bytes. */
  type Cells = map<nat, nat>

  /** A slab cache: its free list, the page it carves from, and how far it has got. */
  datatype Cache = Cache(head: Option<nat>, page: Option<nat>, next: nat)

  /** Object sizes are 32, 64, ..., 2048. */
  function ClassExp(i: nat): nat { 5 + i }

  predicate Apart(a: nat, x: nat, b: nat, y: nat) { a + Size(x) <= b || b + Size(y) <= a }

  /** Cells are aligned to their size and do not meet. */
  ghost predicate CellsOk(cells: Cells) {
    && (forall a :: a in cells ==> a > 0 && a % Size(cells[a]) == 0)
    && (forall a, b :: a in cells && b in cells && a != b ==> Apart(a, cells[a], b, cells[b]))
  }

  /** A range lies in a block granted by the page allocator. */
  ghost predicate Within(granted: Cells, a: nat, n: nat) {
    exists h :: h in granted && h <= a && a + n <= h + Size(granted[h])
  }

  ghost predicate Inside(cells: Cells, granted: Cells) {
    forall a :: a in cells ==> Within(granted, a, Size(cells[a]))
  }

  /** The rest of the current page of class `i` is not carved yet, and its first object is one of the class. */
  ghost predicate PageOk(c: Cache, i: nat, cells: Cells, granted: Cells) {
    c.page.Some? ==>
      var p := c.page.value;
      && p in granted && granted[p] == PAGE_EXP && p in cells && cells[p] == ClassExp(i)
      && c.next <= Size(PAGE_EXP) && c.next % Size(ClassExp(i)) == 0
      && forall a :: a in cells ==> a + Size(cells[a]) <= p + c.next || p + Size(PAGE_EXP) <= a
  }

  ghost predicate PagesOk(caches: seq<Cache>, cells: Cells, granted: Cells) {
    |caches| == CLASSES && forall i :: 0 <= i < |caches| ==> PageOk(caches[i], i, cells, granted)
  }

  ghost predicate Carved(caches: seq<Cache>, cells: Cells, granted: Cells) {
    CellsOk(cells) && CellsOk(granted) && Inside(cells, granted) && PagesOk(caches, cells, granted)
  }

  // ---------------------------------------------------------------- carving

  lemma AlignedInPage(p: nat, n: nat, e: nat)
    requires e <= PAGE_EXP && p % Size(PAGE_EXP) == 0 && n % Size(e) == 0
    ensures (p + n) % Size(e) == 0
  {
    var k := SizeDivides(e, PAGE_EXP);
    AlignedAtDivisor(p, k, Size(e));
    SumAligned(p, n, Size(e));
  }

  lemma SumAligned(a: nat, b: nat, s: nat)
    requires s >= 1 && a % s == 0 && b % s == 0
    ensures (a + b) % s == 0
  {
    var i := Multiple(a, s);
    var j := Multiple(b, s);
    assert a + b == (i + j) * s;
    MultipleHasNoRemainder(i + j, s);
  }

  /** Pages of different classes are different blocks, so they do not meet. */
  lemma OtherPage(caches: seq<Cache>, cells: Cells, granted: Cells, i: nat, j: nat)
    requires PagesOk(caches, cells, granted) && CellsOk(granted) && i < CLASSES && j < CLASSES && i != j
    requires caches[i].page.Some? && caches[j].page.Some?
    ensures Apart(caches[i].page.value, PAGE_EXP, caches[j].page.value, PAGE_EXP)
  {
    assert PageOk(caches[i], i, cells, granted) && PageOk(caches[j], j, cells, granted);
  }

  lemma AddCell(cells: Cells, a: nat, e: nat)
    requires CellsOk(cells) && a > 0 && a % Size(e) == 0 && forall b :: b in cells ==> Apart(b, cells[b], a, e)
    ensures a !in cells && CellsOk(cells[a := e])
  {
    hide Size;
    SizePositive(e);
    assert forall b :: b in cells ==> b != a;
  }

  lemma SizePositive(e: nat)
    ensures Size(e) >= 1
  {
  }

  lemma WithinMore(granted: Cells, base: nat, e: nat, a: nat, n: nat)
    requires Within(granted, a, n) && base !in granted
    ensures Within(granted[base := e], a, n)
  {
    hide Size;
    var h :| h in granted && h <= a && a + n <= h + Size(granted[h]);
    assert h in granted[base := e] && granted[base := e][h] == granted[h];
  }

  lemma WithinBlock(granted: Cells, base: nat, a: nat, n: nat)
    requires base in granted && base <= a && a + n <= base + Size(granted[base])
    ensures Within(granted, a, n)
  {
    hide Size;
  }

  lemma CarveKeeps(caches: seq<Cache>, cells: Cells, granted: Cells, i: nat)
    requires Carved(caches, cells, granted) && i < CLASSES && caches[i].page.Some?
    requires caches[i].next + Size(ClassExp(i)) <= Size(PAGE_EXP)
    ensures var c := caches[i]; var a := c.page.value + c.next;
      a !in cells && Carved(caches[i := c.(next := c.next + Size(ClassExp(i)))], cells[a := ClassExp(i)], granted)
  {
    hide Size, CellsOk, Within;
    var c := caches[i];
    assert PageOk(c, i, cells, granted);
    var p, e := c.page.value, ClassExp(i);
    var a := p + c.next;
    BlockAligned(granted, p);
    AlignedInPage(p, c.next, e);
    AlignedSelf(e);
    SumAligned(c.next, Size(e), Size(e));
    WithinBlock(granted, p, a, Size(e));
    AddCell(cells, a, e);
    var cells', c' := cells[a := e], c.(next := c.next + Size(e));
    var caches' := caches[i := c'];
    forall j | 0 <= j < CLASSES ensures PageOk(caches'[j], j, cells', granted) {
      assert PageOk(caches[j], j, cells, granted);
      if j != i && caches[j].page.Some? { OtherPage(caches, cells, granted, i, j); }
    }
  }

  lemma BlockAligned(granted: Cells, p: nat)
    requires CellsOk(granted) && p in granted
    ensures p > 0 && p % Size(granted[p]) == 0
  {
  }

  lemma AlignedSelf(e: nat)
    ensures Size(e) % Size(e) == 0
  {
    MultipleHasNoRemainder(1, Size(e));
  }

  /** A range in a block that meets no granted block meets no cell. */
  lemma FreshBlock(cells: Cells, granted: Cells, base: nat, e: nat)
    requires Inside(cells, granted) && forall h :: h in granted ==> Apart(h, granted[h], base, e)
    ensures forall a :: a in cells ==> Apart(a, cells[a], base, e)
  {
    forall a | a in cells ensures Apart(a, cells[a], base, e) {
      assert Within(granted, a, Size(cells[a]));
    }
  }

  lemma GrantKeeps(caches: seq<Cache>, cells: Cells, granted: Cells, base: nat, e: nat)
    requires Carved(caches, cells, granted) && base > 0 && base % Size(e) == 0 && forall h :: h in granted ==>
      Apart(h, granted[h], base, e)
    ensures base !in granted && Carved(caches, cells, granted[base := e])
  {
    hide Size, CellsOk, Within;
    AddCell(granted, base, e);
    forall a | a in cells ensures Within(granted[base := e], a, Size(cells[a])) {
      WithinMore(granted, base, e, a, Size(cells[a]));
    }
    forall i | 0 <= i < CLASSES ensures PageOk(caches[i], i, cells, granted[base := e]) {
      assert PageOk(caches[i], i, cells, granted);
    }
  }

  /** A new page for class `i`, with its first object. */
  lemma NewPageKeeps(caches: seq<Cache>, cells: Cells, granted: Cells, i: nat, base: nat)
    requires Carved(caches, cells, granted) && i < CLASSES && base > 0 && base % Size(PAGE_EXP) == 0
    requires forall h :: h in granted ==> Apart(h, granted[h], base, PAGE_EXP)
    ensures base !in cells
    ensures Carved(caches[i := caches[i].(page := Some(base), next := Size(ClassExp(i)))], cells[base := ClassExp(i)],
      granted[base := PAGE_EXP])
  {
    hide Size, CellsOk, Within;
    FreshBlock(cells, granted, base, PAGE_EXP);
    GrantKeeps(caches, cells, granted, base, PAGE_EXP);
    var granted', e := granted[base := PAGE_EXP], ClassExp(i);
    var cells', c' := cells[base := e], caches[i].(page := Some(base), next := Size(e));
    SmallerSize(e, PAGE_EXP);
    ZeroAligned(e);
    AlignedInPage(base, 0, e);
    AlignedSelf(e);
    WithinBlock(granted', base, base, Size(e));
    AddCell(cells, base, e);
    var caches' := caches[i := c'];
    forall j | 0 <= j < CLASSES ensures PageOk(caches'[j], j, cells', granted') {
      assert PageOk(caches[j], j, cells, granted');
      if j != i && caches[j].page.Some? { assert Apart(caches[j].page.value, PAGE_EXP, base, PAGE_EXP); }
    }
  }

  lemma ZeroAligned(e: nat)
    ensures 0 % Size(e) == 0
  {
    MultipleHasNoRemainder(0, Size(e));
  }

  lemma SmallerSize(e: nat, f: nat)
    requires e <= f
    ensures Size(e) <= Size(f)
  {
    var k := SizeDivides(e, f);
    MulMono(1, k, Size(e));
  }

  /** A block of its own for a large allocation, and back. */
  lemma DirectKeeps(caches: seq<Cache>, cells: Cells, granted: Cells, base: nat, e: nat)
    requires Carved(caches, cells, granted) && base > 0 && base % Size(e) == 0 && forall h :: h in granted ==>
      Apart(h, granted[h], base, e)
    ensures base !in cells && Carved(caches, cells[base := e], granted[base := e])
  {
    hide Size, CellsOk, Within;
    FreshBlock(cells, granted, base, e);
    GrantKeeps(caches, cells, granted, base, e);
    var granted' := granted[base := e];
    WithinBlock(granted', base, base, Size(e));
    AddCell(cells, base, e);
    forall i | 0 <= i < CLASSES ensures PageOk(caches[i], i, cells[base := e], granted') {
      assert PageOk(caches[i], i, cells, granted) && PageOk(caches[i], i, cells, granted');
      if caches[i].page.Some? { assert Apart(caches[i].page.value, PAGE_EXP, base, e); }
    }
  }

  lemma DirectFreeKeeps(caches: seq<Cache>, cells: Cells, granted: Cells, base: nat)
    requires Carved(caches, cells, granted) && base in cells && base in granted
      && granted[base] == cells[base] >= PAGE_EXP
    ensures Carved(caches, cells - {base}, granted - {base})
  {
    hide Size, CellsOk;
    RemoveCell(cells, base);
    RemoveCell(granted, base);
    forall a | a in cells && a != base ensures Within(granted - {base}, a, Size(cells[a])) {
      assert Within(granted, a, Size(cells[a]));
      var h :| h in granted && h <= a && a + Size(cells[a]) <= h + Size(granted[h]);
      CellsApart(cells, a, base);
      assert h != base && h in granted - {base};
    }
    forall i | 0 <= i < CLASSES ensures PageOk(caches[i], i, cells - {base}, granted - {base}) {
      assert PageOk(caches[i], i, cells, granted);
    }
  }

  lemma RemoveCell(cells: Cells, a: nat)
    requires CellsOk(cells)
    ensures CellsOk(cells - {a})
  {
    hide Size;
  }

  lemma CellsApart(cells: Cells, a: nat, b: nat)
    requires CellsOk(cells) && a in cells && b in cells && a != b
    ensures Apart(a, cells[a], b, cells[b]) && Size(cells[a]) >= 1 && Size(cells[b]) >= 1
  {
    SizePositive(cells[a]);
    SizePositive(cells[b]);
    hide Size;
  }
}
