/** Slab caches with intrusive free lists, and the global allocator on top of them (rust/kernel/src/heap.rs). */
module Heap {
  import opened Arithmetic
  import opened BuddyBlocks
  import opened HeapCells
  import opened Options

  /** A request: a size, and an alignment that is a power of two. */
  datatype Layout = Layout(size: nat, alignExp: nat)

  function Need(l: Layout): nat { if l.size < Size(l.alignExp) then Size(l.alignExp) else l.size }

  /** An order whose block holds `pages` pages, the least from `o` on (see `OrderIsLeast`). */
  function OrderFor(pages: nat, o: nat): (r: nat)
    ensures pages <= Size(r) && r >= o
    decreases if Size(o) < pages then pages - Size(o) else 0
  {
    if pages <= Size(o) then o else OrderFor(pages, o + 1)
  }

  lemma {:induction false} OrderIsLeast(pages: nat, o: nat, q: nat)
    requires o <= q && pages <= Size(q)
    ensures OrderFor(pages, o) <= q
    decreases q - o
  {
    if Size(o) < pages { OrderIsLeast(pages, o + 1, q); }
  }

  /** The slab class for a size, or none above 2048 bytes. */
  function ClassFor(size: nat): Option<nat> {
    if size <= 32 then Some(0) else if size <= 64 then Some(1) else if size <= 128 then Some(2) else if size <= 256
      then Some(3)
    else if size <= 512 then Some(4) else if size <= 1024 then Some(5) else if size <= 2048 then Some(6) else None
  }

  function PagesFor(size: nat): nat { (size + 4095) / 4096 }

  /** How many bytes an allocation really takes, as an exponent. */
  function ExpFor(l: Layout): nat {
    if ClassFor(Need(l)).Some? then ClassExp(ClassFor(Need(l)).value) else PAGE_EXP + OrderFor(PagesFor(Need(l)), 0)
  }

  lemma {:induction false} SizeSplits(e: nat, o: nat)
    ensures Size(e + o) == Size(e) * Size(o)
    decreases o
  {
    if o > 0 {
      SizeSplits(e, o - 1);
      assert Size(e) * (2 * Size(o - 1)) == 2 * (Size(e) * Size(o - 1));
    }
  }

  lemma SizeOfPage()
    ensures Size(5) == 32 && Size(PAGE_EXP) == 4096
  {
    assert Size(5) == 32;
    SizeSplits(5, 5);
    SizeSplits(10, 2);
  }

  lemma SizeOfClass(i: nat)
    requires i < CLASSES
    ensures Size(ClassExp(0)) == 32 && Size(ClassExp(1)) == 64 && Size(ClassExp(2)) == 128 && Size(ClassExp(3)) == 256
    ensures Size(ClassExp(4)) == 512 && Size(ClassExp(5)) == 1024 && Size(ClassExp(6)) == 2048
    ensures 32 <= Size(ClassExp(i)) <= 2048
  {
    assert Size(5) == 32;
    assert Size(8) == 256;
    assert Size(11) == 2048;
  }

  /** An allocation is at least as large as asked, and as its alignment. */
  lemma ExpIsEnough(l: Layout)
    ensures Need(l) <= Size(ExpFor(l)) && l.size <= Size(ExpFor(l)) && Size(l.alignExp) <= Size(ExpFor(l))
  {
    var n := Need(l);
    SizeOfClass(0);
    if ClassFor(n).None? {
      var o := OrderFor(PagesFor(n), 0);
      SizeSplits(PAGE_EXP, o);
      SizeOfPage();
      MulMono(PagesFor(n), Size(o), 4096);
    }
  }

  /** A multiple of a power of two is a multiple of every smaller one. */
  lemma AlignedToRequest(a: nat, e: nat, l: Layout)
    requires a % Size(e) == 0 && Size(l.alignExp) <= Size(e)
    ensures a % Size(l.alignExp) == 0
  {
    if l.alignExp > e { BiggerSize(e, l.alignExp); }
    var k := SizeDivides(l.alignExp, e);
    AlignedAtDivisor(a, k, Size(l.alignExp));
  }

  lemma BiggerSize(e: nat, f: nat)
    requires e < f
    ensures Size(e) < Size(f)
  {
    SmallerSize(e + 1, f);
  }

  // ---------------------------------------------------------------- free lists

  type Words = map<nat, nat>

  /** The objects of a free list, chained through their first words; zero ends the chain. */
  ghost predicate Linked(mem: Words, head: Option<nat>, l: seq<nat>)
    decreases |l|
  {
    if l == [] then head.None?
    else head == Some(l[0]) && l[0] in mem && Linked(mem, if mem[l[0]] == 0 then None else Some(mem[l[0]]), l[1..])
  }

  lemma {:induction false} LinkedFrame(mem: Words, head: Option<nat>, l: seq<nat>, a: nat, v: nat)
    requires Linked(mem, head, l) && a !in l
    ensures Linked(mem[a := v], head, l)
    decreases |l|
  {
    if l != [] {
      LinkedFrame(mem, if mem[l[0]] == 0 then None else Some(mem[l[0]]), l[1..], a, v);
    }
  }

  ghost predicate Distinct(l: seq<nat>) { forall i, j :: 0 <= i < j < |l| ==> l[i] != l[j] }

  type Live = map<nat, Layout>

  ghost predicate Chained(caches: seq<Cache>, mem: Words, lists: seq<seq<nat>>) {
    |caches| == |lists| == CLASSES && forall i :: 0 <= i < CLASSES ==>
      Linked(mem, caches[i].head, lists[i]) && Distinct(lists[i])
  }

  ghost predicate FreeCell(cells: Cells, live: Live, i: nat, n: nat) {
    n > 0 && n in cells && cells[n] == ClassExp(i) && n !in live
  }

  ghost predicate InList(lists: seq<seq<nat>>, cells: Cells, a: nat)
    requires |lists| == CLASSES && a in cells
  {
    5 <= cells[a] < PAGE_EXP && a in lists[cells[a] - 5]
  }

  /** Free lists hold exactly the slab objects that are not live, each once. */
  ghost predicate ListsOk(caches: seq<Cache>, mem: Words, lists: seq<seq<nat>>, cells: Cells, live: Live) {
    && Chained(caches, mem, lists)
    && (forall i, n :: 0 <= i < CLASSES && n in lists[i] ==> FreeCell(cells, live, i, n))
    && (forall a :: a in cells && a !in live ==> InList(lists, cells, a))
  }

  /** A live allocation has a cell of its own; a large one has its own block. */
  ghost predicate LiveOk(live: Live, cells: Cells, granted: Cells) {
    forall a :: a in live ==>
      a in cells && cells[a] == ExpFor(live[a]) && (cells[a] >= PAGE_EXP ==> a in granted && granted[a] == cells[a])
  }

  /** Bytes taken by live allocations. */
  ghost function Taken(live: Live): nat {
    if live == map[] then 0 else
      var a :| a in live;
      Size(ExpFor(live[a])) + Taken(live - {a})
  }

  lemma {:induction false} TakenWithout(live: Live, a: nat)
    requires a in live
    ensures Taken(live) == Size(ExpFor(live[a])) + Taken(live - {a})
    decreases |live|
  {
    hide Size, ExpFor;
    var b :| b in live && Taken(live) == Size(ExpFor(live[b])) + Taken(live - {b});
    if a != b {
      TakenWithout(live - {b}, a);
      TakenWithout(live - {a}, b);
      assert live - {a} - {b} == live - {b} - {a};
    }
  }

  lemma TakenWith(live: Live, a: nat, l: Layout)
    requires a !in live
    ensures Taken(live[a := l]) == Taken(live) + Size(ExpFor(l))
  {
    TakenWithout(live[a := l], a);
    assert live[a := l] - {a} == live;
  }

  function WordOf(head: Option<nat>): nat { if head.Some? then head.value else 0 }

  function FromWord(w: nat): Option<nat> { if w != 0 then Some(w) else None }

  lemma PopKeeps(caches: seq<Cache>, mem: Words, lists: seq<seq<nat>>, cells: Cells, live: Live, i: nat, l: Layout)
    requires ListsOk(caches, mem, lists, cells, live) && i < CLASSES && caches[i].head.Some?
    ensures var x := caches[i].head.value;
      && x in mem && x in cells && cells[x] == ClassExp(i) && x !in live && lists[i] != []
      && ListsOk(caches[i := caches[i].(head := FromWord(mem[x]))], mem, lists[i := lists[i][1..]], cells, live[x := l])
  {
    var x := caches[i].head.value;
    assert Linked(mem, caches[i].head, lists[i]);
    assert lists[i][0] == x && x in lists[i];
    assert FreeCell(cells, live, i, x);
    var caches', lists', live' :=
      caches[i := caches[i].(head := FromWord(mem[x]))], lists[i := lists[i][1..]], live[x := l];
    forall j | 0 <= j < CLASSES ensures Linked(mem, caches'[j].head, lists'[j]) && Distinct(lists'[j]) {
      assert Linked(mem, caches[j].head, lists[j]) && Distinct(lists[j]);
    }
    assert Chained(caches', mem, lists');
    forall j, n | 0 <= j < CLASSES && n in lists'[j] ensures FreeCell(cells, live', j, n) {
      if j == i { LaterInList(lists[i], n); }
      assert n in lists[j] && FreeCell(cells, live, j, n);
    }
    forall a | a in cells && a !in live' ensures InList(lists', cells, a) {
      assert InList(lists, cells, a);
      if cells[a] - 5 == i { InRest(lists[i], a); }
    }
  }

  lemma LaterInList(l: seq<nat>, n: nat)
    requires l != [] && Distinct(l) && n in l[1..]
    ensures n in l && n != l[0]
  {
    var k :| 0 <= k < |l[1..]| && l[1..][k] == n;
    assert l[k + 1] == n;
  }

  lemma InRest(l: seq<nat>, n: nat)
    requires l != [] && n in l && n != l[0]
    ensures n in l[1..]
  {
    var k :| 0 <= k < |l| && l[k] == n;
    assert l[1..][k - 1] == n;
  }

  lemma PushKeeps(caches: seq<Cache>, mem: Words, lists: seq<seq<nat>>, cells: Cells, live: Live, i: nat, x: nat)
    requires ListsOk(caches, mem, lists, cells, live) && i < CLASSES && x in live && x > 0 && x in cells
      && cells[x] == ClassExp(i)
    ensures ListsOk(caches[i := caches[i].(head := Some(x))], mem[x := WordOf(caches[i].head)],
      lists[i := [x] + lists[i]], cells, live - {x})
  {
    var mem' := mem[x := WordOf(caches[i].head)];
    var caches', lists', live' := caches[i := caches[i].(head := Some(x))], lists[i := [x] + lists[i]], live - {x};
    forall j | 0 <= j < CLASSES ensures Linked(mem', caches'[j].head, lists'[j]) && Distinct(lists'[j]) {
      assert Linked(mem, caches[j].head, lists[j]) && Distinct(lists[j]);
      forall n | n in lists[j] ensures n != x {
        assert FreeCell(cells, live, j, n);
      }
      if j == i {
        if lists[i] != [] { assert lists[i][0] in lists[i] && FreeCell(cells, live, i, lists[i][0]); }
        PushLinked(mem, caches[i].head, lists[i], x);
      } else {
        LinkedFrame(mem, caches[j].head, lists[j], x, WordOf(caches[i].head));
      }
    }
    assert Chained(caches', mem', lists');
    forall j, n | 0 <= j < CLASSES && n in lists'[j] ensures FreeCell(cells, live', j, n) {
      if n != x { assert n in lists[j] && FreeCell(cells, live, j, n); }
    }
    forall a | a in cells && a !in live' ensures InList(lists', cells, a) {
      if a == x { assert lists'[i][0] == x; } else { assert InList(lists, cells, a); }
    }
  }

  lemma PushLinked(mem: Words, head: Option<nat>, l: seq<nat>, x: nat)
    requires Linked(mem, head, l) && x !in l && (l != [] ==> l[0] > 0)
    ensures Linked(mem[x := WordOf(head)], Some(x), [x] + l)
  {
    LinkedFrame(mem, head, l, x, WordOf(head));
    HeadWord(mem, head, l);
    assert ([x] + l)[1..] == l;
  }

  lemma HeadWord(mem: Words, head: Option<nat>, l: seq<nat>)
    requires Linked(mem, head, l)
    ensures l == [] <==> head.None?
    ensures (l != [] ==> l[0] > 0) ==> FromWord(WordOf(head)) == head
  {
  }

  /** A cell that is live from the start changes no list. */
  lemma NewLiveLists(caches: seq<Cache>, caches': seq<Cache>, mem: Words, lists: seq<seq<nat>>, cells: Cells,
                     live: Live, a: nat, e: nat, l: Layout)
    requires ListsOk(caches, mem, lists, cells, live) && a !in cells && |caches'| == CLASSES
    requires forall i :: 0 <= i < CLASSES ==> caches'[i].head == caches[i].head
    ensures ListsOk(caches', mem, lists, cells[a := e], live[a := l])
  {
    forall i | 0 <= i < CLASSES ensures Linked(mem, caches'[i].head, lists[i]) && Distinct(lists[i]) {
      assert Linked(mem, caches[i].head, lists[i]) && Distinct(lists[i]);
    }
    assert Chained(caches', mem, lists);
    var cells', live' := cells[a := e], live[a := l];
    forall i, n | 0 <= i < CLASSES && n in lists[i] ensures FreeCell(cells', live', i, n) {
      assert FreeCell(cells, live, i, n);
    }
    forall b | b in cells' && b !in live' ensures InList(lists, cells', b) {
      assert InList(lists, cells, b);
    }
  }

  lemma DirectFreeLists(caches: seq<Cache>, mem: Words, lists: seq<seq<nat>>, cells: Cells, live: Live, a: nat)
    requires ListsOk(caches, mem, lists, cells, live) && a in live
    ensures ListsOk(caches, mem, lists, cells - {a}, live - {a})
  {
    forall i, n | 0 <= i < CLASSES && n in lists[i] ensures FreeCell(cells - {a}, live - {a}, i, n) {
      assert FreeCell(cells, live, i, n);
    }
    forall b | b in cells - {a} && b !in live - {a} ensures InList(lists, cells - {a}, b) {
      assert InList(lists, cells, b);
    }
  }

  lemma SameHeads(caches: seq<Cache>, caches': seq<Cache>, cells: Cells, granted: Cells)
    requires Carved(caches, cells, granted) && |caches'| == CLASSES
    requires forall i :: 0 <= i < CLASSES ==> caches'[i].page == caches[i].page && caches'[i].next == caches[i].next
    ensures Carved(caches', cells, granted)
  {
    hide Size, CellsOk, Within;
    forall i | 0 <= i < CLASSES ensures PageOk(caches'[i], i, cells, granted) {
      assert PageOk(caches[i], i, cells, granted);
    }
  }

  /** A store into a live object changes no free list. */
  lemma {:induction false} StoreLists(caches: seq<Cache>, mem: Words, lists: seq<seq<nat>>, cells: Cells, live: Live,
                                      a: nat, at: nat, v: nat)
    requires ListsOk(caches, mem, lists, cells, live) && CellsOk(cells) && a in live && a in cells
      && a <= at < a + Size(cells[a])
    ensures ListsOk(caches, mem[at := v], lists, cells, live)
  {
    hide Size;
    forall i | 0 <= i < CLASSES ensures Linked(mem[at := v], caches[i].head, lists[i]) {
      forall n | n in lists[i] ensures n != at {
        assert FreeCell(cells, live, i, n);
        NotInside(cells, a, n);
      }
      LinkedFrame(mem, caches[i].head, lists[i], at, v);
    }
  }

  lemma NotInside(cells: Cells, a: nat, b: nat)
    requires CellsOk(cells) && a in cells && b in cells && a != b
    ensures !(a <= b < a + Size(cells[a]))
  {
    SizePositive(cells[b]);
    hide Size;
    assert Apart(a, cells[a], b, cells[b]);
  }

  // ---------------------------------------------------------------- what it all means

  /** Live allocations do not meet, even by the bytes they really take, and each is aligned as asked. */
  lemma LiveDisjoint(live: Live, cells: Cells, granted: Cells, a: nat, b: nat)
    requires CellsOk(cells) && LiveOk(live, cells, granted) && a in live && b in live
    ensures a % Size(live[a].alignExp) == 0 && live[a].size <= Size(ExpFor(live[a]))
    ensures a != b ==> a + live[a].size <= b || b + live[b].size <= a
    ensures a != b ==> Apart(a, ExpFor(live[a]), b, ExpFor(live[b]))
  {
    ExpIsEnough(live[a]);
    ExpIsEnough(live[b]);
    AlignedToRequest(a, cells[a], live[a]);
    assert a != b ==> Apart(a, cells[a], b, cells[b]);
  }

  lemma BlockBase(hhdm: nat, pfn: nat, order: nat)
    requires order < MAX_ORDER && hhdm % Size(PAGE_EXP + MAX_ORDER) == 0 && pfn % Size(order) == 0
    ensures (hhdm + pfn * 4096) % Size(PAGE_EXP + order) == 0
  {
    var k := SizeDivides(PAGE_EXP + order, PAGE_EXP + MAX_ORDER);
    AlignedAtDivisor(hhdm, k, Size(PAGE_EXP + order));
    SizeSplits(PAGE_EXP, order);
    SizeOfPage();
    hide Size;
    ScaledAligned(pfn, Size(order), 4096);
    SumAligned(hhdm, pfn * 4096, Size(PAGE_EXP + order));
  }

  lemma ScaledAligned(a: nat, s: nat, c: nat)
    requires s >= 1 && c >= 1 && a % s == 0
    ensures c * s >= 1 && (a * c) % (c * s) == 0
  {
    var m := Multiple(a, s);
    assert a * c == m * (c * s) by {
      assert m * s * c == m * (c * s);
    }
    MultipleHasNoRemainder(m, c * s);
  }

  predicate Unused(granted: Cells, base: nat, e: nat) {
    forall h :: h in granted ==> Apart(h, granted[h], base, e)
  }

  predicate FreeAt(granted: Cells, hhdm: nat, frameCount: nat, pfn: nat, order: nat) {
    pfn + Size(order) <= frameCount && pfn % Size(order) == 0 && Unused(granted, hhdm + pfn * 4096, PAGE_EXP + order)
  }

  lemma NoBlockHere(granted: Cells, hhdm: nat, frameCount: nat, order: nat)
    requires forall pfn: nat :: pfn < frameCount ==> !FreeAt(granted, hhdm, frameCount, pfn, order)
    ensures forall pfn: nat :: !FreeAt(granted, hhdm, frameCount, pfn, order)
  {
    hide Unused;
  }

  lemma BlockEnd(hhdm: nat, frameCount: nat, pfn: nat, order: nat)
    requires pfn + Size(order) <= frameCount
    ensures hhdm + pfn * 4096 + Size(PAGE_EXP + order) <= hhdm + frameCount * 4096
  {
    SizeSplits(PAGE_EXP, order);
    SizeOfPage();
    hide Size;
    MulMono(pfn + Size(order), frameCount, 4096);
  }

  class KernelHeap {
    /** Where physical memory is mapped; aligned to the largest block. */
    const hhdm: nat
    const frameCount: nat
    var initialized: bool
    var caches: seq<Cache>
    var mem: Words
    var granted: Cells
    var totalAllocated: nat
    var totalFreed: nat
    ghost var cells: Cells
    ghost var live: Live
    ghost var lists: seq<seq<nat>>

    ghost predicate Sound()
      reads `caches, `mem, `granted, `cells, `live, `lists
    {
      && hhdm > 0 && hhdm % Size(PAGE_EXP + MAX_ORDER) == 0
      && Carved(caches, cells, granted) && ListsOk(caches, mem, lists, cells, live) && LiveOk(live, cells, granted)
    }

    /** Allocated minus freed is what live allocations take. */
    ghost predicate Valid()
      reads this
    {
      Sound() && totalAllocated == totalFreed + Taken(live)
    }

    constructor (hhdm: nat, frameCount: nat)
      requires hhdm > 0 && hhdm % Size(PAGE_EXP + MAX_ORDER) == 0
      ensures Valid() && live == map[] && !initialized
    {
      this.hhdm, this.frameCount, initialized := hhdm, frameCount, false;
      caches := seq(CLASSES, _ => Cache(None, None, 0));
      mem, granted, totalAllocated, totalFreed := map[], map[], 0, 0;
      cells, live, lists := map[], map[], seq(CLASSES, _ => []);
    }

    method Init() returns (ok: bool)
      modifies `initialized
      ensures initialized && ok == !old(initialized)
    {
      ok := !initialized;
      initialized := true;
    }

    /** There is an aligned block of the given order, all of it within memory, that meets none in use. */
    ghost predicate HasBlock(order: nat)
      reads `granted
    {
      exists pfn: nat :: FreeAt(granted, hhdm, frameCount, pfn, order)
    }

    /** The page allocator.  It fails only if it is not willing, the order is too large or there is no such block. */
    method AllocFrames(order: nat, willing: bool) returns (base: Option<nat>)
      requires hhdm > 0 && hhdm % Size(PAGE_EXP + MAX_ORDER) == 0
      ensures base.None? <==> !willing || order >= MAX_ORDER || !HasBlock(order)
      ensures base.Some? ==> base.value > 0 && base.value % Size(PAGE_EXP + order) == 0
      ensures base.Some? ==> Unused(granted, base.value, PAGE_EXP + order)
      ensures base.Some? ==> hhdm <= base.value && base.value + Size(PAGE_EXP + order) <= hhdm + frameCount * 4096
    {
      hide Size, Unused;
      if order >= MAX_ORDER || !willing { return None; }
      if pfn: nat :| pfn < frameCount && FreeAt(granted, hhdm, frameCount, pfn, order) {
        BlockBase(hhdm, pfn, order);
        BlockEnd(hhdm, frameCount, pfn, order);
        return Some(hhdm + pfn * 4096);
      }
      NoBlockHere(granted, hhdm, frameCount, order);
      return None;
    }

    /** Class `i` has no recycled object, no room in its current page and no page to be had. */
    ghost predicate NoObject(i: nat, willing: bool)
      reads `caches, `granted
    {
      i < |caches| && caches[i].head.None?
        && !(caches[i].page.Some? && caches[i].next + Size(ClassExp(i)) <= Size(PAGE_EXP))
      && (!willing || !HasBlock(0))
    }

    /** There is nothing for a request: no object of its class, or no block of its order. */
    ghost predicate NoRoom(l: Layout, willing: bool)
      reads `caches, `granted
    {
      if ClassFor(Need(l)).Some? then NoObject(ClassFor(Need(l)).value, willing)
      else !willing || OrderFor(PagesFor(Need(l)), 0) >= MAX_ORDER || !HasBlock(OrderFor(PagesFor(Need(l)), 0))
    }

    /** The first object of a new page of class `i`. */
    method NewPage(i: nat, willing: bool, ghost l: Layout) returns (p: Option<nat>)
      requires Sound() && i < CLASSES && ExpFor(l) == ClassExp(i) && i < |caches| && caches[i].head.None?
      modifies `caches, `granted, `cells, `live, `lists
      ensures Sound()
      ensures p.Some? ==> p.value > 0 && p.value !in old(live) && live == old(live)[p.value := l]
      ensures p.None? <==> !willing || !old(HasBlock(0))
      ensures p.None? ==> unchanged(`live)
    {
      hide Size, Carved, ListsOk, ExpFor, Linked, Unused, FreeAt;
      CachesLength(caches, mem, lists, cells, live);
      var c, size := caches[i], Size(ClassExp(i));
      var base := AllocFrames(0, willing);
      if base.None? { return None; }
      var b := base.value;
      UnusedMeans(granted, b, PAGE_EXP);
      NewPageKeeps(caches, cells, granted, i, b);
      var caches' := caches[i := c.(page := Some(b), next := size)];
      NewLiveLists(caches, caches', mem, lists, cells, live, b, ClassExp(i), l);
      NewGrantLive(live, cells, granted, b, PAGE_EXP);
      caches, cells, live, granted := caches', cells[b := ClassExp(i)], live[b := l], granted[b := PAGE_EXP];
      return Some(b);
    }

    /** An object of class `i`: recycled, carved from the current page, or the first of a new page. */
    method CacheAlloc(i: nat, willing: bool, ghost l: Layout) returns (p: Option<nat>)
      requires Sound() && i < CLASSES && ExpFor(l) == ClassExp(i)
      modifies `caches, `granted, `cells, `live, `lists
      ensures Sound()
      ensures p.Some? ==> p.value > 0 && p.value !in old(live) && live == old(live)[p.value := l]
      ensures p.None? <==> old(NoObject(i, willing))
      ensures p.None? ==> unchanged(`live)
    {
      hide Size, Carved, ListsOk, ExpFor, Linked, Unused, FreeAt, FromWord;
      CachesLength(caches, mem, lists, cells, live);
      var c := caches[i];
      if c.head.Some? {
        var x := c.head.value;
        PopKeeps(caches, mem, lists, cells, live, i, l);
        var caches' := caches[i := c.(head := FromWord(mem[x]))];
        SameHeads(caches, caches', cells, granted);
        CellPositive(caches, cells, granted, x);
        caches, lists, live := caches', lists[i := lists[i][1..]], live[x := l];
        return Some(x);
      }
      var size := Size(ClassExp(i));
      if c.page.Some? && c.next + size <= Size(PAGE_EXP) {
        var a := c.page.value + c.next;
        CarveKeeps(caches, cells, granted, i);
        var caches' := caches[i := c.(next := c.next + size)];
        NewLiveLists(caches, caches', mem, lists, cells, live, a, ClassExp(i), l);
        caches, cells, live := caches', cells[a := ClassExp(i)], live[a := l];
        CellPositive(caches, cells, granted, a);
        return Some(a);
      }
      p := NewPage(i, willing, l);
    }

    /** Puts an object on the free list of its class, whose link is written into the object. */
    method CacheFree(i: nat, x: nat)
      requires Sound() && i < CLASSES && x in live && ExpFor(live[x]) == ClassExp(i)
      modifies `caches, `mem, `live, `lists
      ensures Sound() && live == old(live) - {x}
    {
      hide Size, Carved, ListsOk, ExpFor, Linked;
      CachesLength(caches, mem, lists, cells, live);
      CellPositive(caches, cells, granted, x);
      PushKeeps(caches, mem, lists, cells, live, i, x);
      var caches' := caches[i := caches[i].(head := Some(x))];
      SameHeads(caches, caches', cells, granted);
      mem := mem[x := WordOf(caches[i].head)];
      lists := lists[i := [x] + lists[i]];
      caches, live := caches', live - {x};
    }

    /** The global allocator's `alloc`; zero is the null pointer. */
    method Alloc(l: Layout, willing: bool) returns (ptr: nat)
      requires Valid()
      modifies this
      ensures Valid() && initialized == old(initialized)
      ensures l.size == 0 ==> ptr == Size(l.alignExp) && live == old(live)
      ensures l.size > 0 ==> (ptr == 0 <==> !old(initialized) || old(NoRoom(l, willing)))
      ensures l.size > 0 && ptr == 0 ==> live == old(live)
      ensures l.size > 0 && ptr != 0 ==> old(initialized) && ptr !in old(live) && live == old(live)[ptr := l]
    {
      hide Size, Carved, ListsOk, LiveOk, Taken, ClassFor, OrderFor, Unused, NoObject, FreeAt;
      if l.size == 0 { return Size(l.alignExp); }
      if !initialized { return 0; }
      var n := Need(l);
      var class_ := ClassFor(n);
      ClassIsSmall(n);
      if class_.Some? {
        var p := CacheAlloc(class_.value, willing, l);
        if p.None? { return 0; }
        ptr := p.value;
      } else {
        var order := OrderFor(PagesFor(n), 0);
        var base := AllocFrames(order, willing);
        if base.None? { return 0; }
        ptr := base.value;
        var e := PAGE_EXP + order;
        UnusedMeans(granted, ptr, e);
        DirectKeeps(caches, cells, granted, ptr, e);
        CachesLength(caches, mem, lists, cells, live);
        NewLiveLists(caches, caches, mem, lists, cells, live, ptr, e, l);
        NewLive(live, cells, granted, ptr, l);
        granted, cells, live := granted[ptr := e], cells[ptr := e], live[ptr := l];
      }
      TakenWith(old(live), ptr, l);
      totalAllocated := totalAllocated + Size(ExpFor(l));
    }

    /** The global allocator's `dealloc`, with the layout of the allocation. */
    method Dealloc(ptr: nat, l: Layout)
      requires Valid() && (ptr == 0 || l.size == 0 || (ptr in live && live[ptr] == l))
      modifies this
      ensures Valid() && initialized == old(initialized)
      ensures if ptr == 0 || l.size == 0 then live == old(live) else live == old(live) - {ptr}
    {
      hide Size, Carved, ListsOk, Taken, ClassFor, OrderFor;
      if ptr == 0 || l.size == 0 { return; }
      TakenWithout(live, ptr);
      var n := Need(l);
      var class_ := ClassFor(n);
      ClassIsSmall(n);
      if class_.Some? {
        CacheFree(class_.value, ptr);
      } else {
        DirectFreeKeeps(caches, cells, granted, ptr);
        DirectFreeLists(caches, mem, lists, cells, live, ptr);
        DirectFreeLive(live, cells, granted, ptr);
        granted, cells, live := granted - {ptr}, cells - {ptr}, live - {ptr};
      }
      totalFreed := totalFreed + Size(ExpFor(l));
    }

    /** The owner of a live allocation writes into it: nothing the heap keeps is disturbed. */
    method Store(a: nat, at: nat, v: nat)
      requires Valid() && a in live && a <= at < a + Size(ExpFor(live[a]))
      modifies `mem
      ensures Valid()
    {
      hide Size, PagesOk, Inside, ListsOk, ExpFor;
      StoreLists(caches, mem, lists, cells, live, a, at, v);
      mem := mem[at := v];
    }

    /** Any two live allocations are disjoint and aligned as asked, and no live object is on a free list. */
    lemma LiveIsSafe(a: nat, b: nat, i: nat)
      requires Valid() && a in live && b in live && i < |lists|
      ensures a % Size(live[a].alignExp) == 0 && a !in lists[i]
      ensures a != b ==> a + live[a].size <= b || b + live[b].size <= a
    {
      hide Size, ExpFor, PagesOk, Inside;
      LiveDisjoint(live, cells, granted, a, b);
      forall n | n in lists[i] ensures n != a {
        assert FreeCell(cells, live, i, n);
      }
    }
  }

  lemma CachesLength(caches: seq<Cache>, mem: Words, lists: seq<seq<nat>>, cells: Cells, live: Live)
    requires ListsOk(caches, mem, lists, cells, live)
    ensures |caches| == |lists| == CLASSES
  {
  }

  lemma CellPositive(caches: seq<Cache>, cells: Cells, granted: Cells, a: nat)
    requires Carved(caches, cells, granted) && a in cells
    ensures a > 0
  {
  }

  lemma UnusedMeans(granted: Cells, base: nat, e: nat)
    requires Unused(granted, base, e)
    ensures base !in granted && forall h :: h in granted ==> Apart(h, granted[h], base, e)
  {
    SizePositive(e);
    forall h | h in granted ensures h != base {
      SizePositive(granted[h]);
      assert Apart(h, granted[h], base, e);
    }
  }

  lemma NewGrantLive(live: Live, cells: Cells, granted: Cells, base: nat, e: nat)
    requires LiveOk(live, cells, granted) && base !in granted
    ensures LiveOk(live, cells, granted[base := e])
  {
  }

  lemma NewLive(live: Live, cells: Cells, granted: Cells, a: nat, l: Layout)
    requires LiveOk(live, cells, granted) && a !in cells && a !in granted
    ensures a !in live && LiveOk(live[a := l], cells[a := ExpFor(l)], granted[a := ExpFor(l)])
  {
    hide ExpFor;
  }

  lemma DirectFreeLive(live: Live, cells: Cells, granted: Cells, a: nat)
    requires LiveOk(live, cells, granted)
    ensures LiveOk(live - {a}, cells - {a}, granted - {a})
  {
  }

  lemma ClassIsSmall(n: nat)
    ensures ClassFor(n).Some? ==> ClassFor(n).value < CLASSES
  {
  }
}
