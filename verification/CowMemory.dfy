/** Copy-on-write fork and fault resolution (rust/kernel/src/paging.rs), run one operation at a time.  Every
    operation is proved to do what it would do if fork copied every page. */
module CowMemory {
  import opened Arithmetic
  import opened CowTables
  import opened Options

  class Machine {
    /** Leaf page-table entries of every address space. */
    var tables: Tables
    /** The bytes of every physical frame. */
    var frames: map<nat, Page>
    /** Reference counts; a frame is free exactly when its count is zero. */
    var refs: map<nat, nat>

    ghost predicate Valid()
      reads this
    {
      Shared(tables, frames, refs)
    }

    /** What each address space reads. */
    ghost function Spaces(): Eager
      requires Valid()
      reads this
    {
      View(tables, frames)
    }

    constructor (available: set<nat>)
      ensures Valid() && tables == map[] && refs.Keys == available
      ensures Spaces() == map[]
    {
      tables := map[];
      frames := map f | f in available :: seq(PAGE_SIZE, _ => 0);
      refs := map f | f in available :: 0;
      new;
      forall f ensures Mappers(map[], f) == {} {}
    }

    /** `alloc_frame`: any free frame, or none. */
    method AllocFrame() returns (r: Option<nat>)
      ensures r.Some? ==> r.value in refs && refs[r.value] == 0
      ensures r.None? ==> forall f :: f in refs ==> refs[f] != 0
    {
      if f :| f in refs && refs[f] == 0 {
        r := Some(f);
      } else {
        r := None;
      }
    }

    /** `free_frame` on a frame in use: drop one reference. */
    method FreeFrame(f: nat)
      requires f in refs && refs[f] > 0
      modifies `refs
      ensures refs == old(refs)[f := old(refs)[f] - 1]
    {
      refs := refs[f := refs[f] - 1];
    }

    /** `resolve_cow_page`: `Done` when the entry is now writable, `Fault` when it is not a copy-on-write page. */
    method ResolveCow(a: nat, v: nat) returns (r: Outcome)
      requires Valid()
      modifies this
      ensures Valid() && Spaces() == old(Spaces()) && tables.Keys == old(tables.Keys)
      ensures r == Done ==> a in tables && v in tables[a] && tables[a][v].writable
      ensures r == Fault <==> !(a in old(tables) && v in old(tables)[a] && old(tables)[a][v].cow)
      ensures r == OutOfMemory ==> unchanged(this) && forall f :: f in refs ==> refs[f] != 0
    {
      hide Counted, Exclusive, View, Mappers;
      if a !in tables || v !in tables[a] {
        return Fault;
      }
      var entry := tables[a][v];
      if !entry.cow {
        return Fault;
      }
      if refs[entry.frame] <= 1 {
        RestoreWrite(a, v);
        return Done;
      }
      var newFrame := AllocFrame();
      if newFrame.None? {
        return OutOfMemory;
      }
      CopyPage(a, v, newFrame.value);
      return Done;
    }

    /** The exclusive-owner branch of `resolve_cow_page`. */
    method RestoreWrite(a: nat, v: nat)
      requires Valid() && a in tables && v in tables[a] && tables[a][v].cow && refs[tables[a][v].frame] <= 1
      modifies `tables
      ensures Valid() && Spaces() == old(Spaces()) && tables.Keys == old(tables.Keys)
      ensures a in tables && v in tables[a] && tables[a][v].writable
    {
      hide Counted, Exclusive, View, Mappers;
      var newEntry := tables[a][v].(writable := true, cow := false);
      SharedAfterUpgrade(tables, frames, refs, a, v);
      ViewAfterSet(tables, frames, a, v, newEntry);
      tables := SetPte(tables, a, v, newEntry);
    }

    /** The shared branch of `resolve_cow_page`: copy the page into a fresh frame and drop the old reference. */
    method CopyPage(a: nat, v: nat, newFrame: nat)
      requires Valid() && a in tables && v in tables[a] && tables[a][v].cow && newFrame in refs && refs[newFrame] == 0
      modifies this
      ensures Valid() && Spaces() == old(Spaces()) && tables.Keys == old(tables.Keys)
      ensures a in tables && v in tables[a] && tables[a][v].writable
    {
      hide Counted, Exclusive, View, Mappers;
      var oldFrame := tables[a][v].frame;
      var newEntry := tables[a][v].(frame := newFrame, writable := true, cow := false);
      SharedAfterMove(tables, frames, refs, a, v, newEntry);
      ViewAfterMove(tables, frames, a, v, newEntry);
      refs := refs[newFrame := 1];
      frames := frames[newFrame := frames[oldFrame]];
      FreeFrame(oldFrame);
      tables := SetPte(tables, a, v, newEntry);
    }

    /** A user store: straight through a writable entry, otherwise through the write-fault handler. */
    method StoreByte(a: nat, v: nat, offset: nat, byte: bv8) returns (r: Outcome)
      requires Valid() && offset < PAGE_SIZE
      modifies this
      ensures Valid() && Spaces() == EagerStep(old(Spaces()), Store(a, v, offset, byte), r)
      ensures r == Fault <==> !(a in old(Spaces()) && v in old(Spaces())[a] && old(Spaces())[a][v].mayWrite)
    {
      hide Counted, Exclusive, Mappers, EagerStep;
      if a in tables && v in tables[a] && tables[a][v].writable {
        r := Done;
      } else {
        ghost var before := Spaces();
        r := ResolveCow(a, v);
        if r != Done {
          EagerUnchanged(before, Store(a, v, offset, byte), r);
          return;
        }
      }
      WriteThrough(a, v, offset, byte);
    }

    /** The hardware side of a store to a writable page. */
    method WriteThrough(a: nat, v: nat, offset: nat, byte: bv8)
      requires Valid() && offset < PAGE_SIZE && a in tables && v in tables[a] && tables[a][v].writable
      modifies `frames
      ensures Valid() && Spaces() == EagerStep(old(Spaces()), Store(a, v, offset, byte), Done)
    {
      hide Counted, Exclusive, View, EagerStep, Mappers;
      SharedAfterStore(tables, frames, refs, a, v, offset, byte);
      ViewAfterStore(tables, frames, a, v, offset, byte);
      var f := tables[a][v].frame;
      frames := frames[f := frames[f][offset := byte]];
    }

    /** What a user load of a mapped page returns. */
    method LoadByte(a: nat, v: nat, offset: nat) returns (r: Option<bv8>)
      requires Valid() && offset < PAGE_SIZE
      ensures r == if a in Spaces() && v in Spaces()[a] then Some(Spaces()[a][v].data[offset]) else None
    {
      if a in tables && v in tables[a] {
        r := Some(frames[tables[a][v].frame][offset]);
      } else {
        r := None;
      }
    }

    /** A page fault on an unmapped anonymous page: map a zeroed frame. */
    method MapZeroPage(a: nat, v: nat, writable: bool) returns (r: Outcome)
      requires Valid() && a in tables && v !in tables[a]
      modifies this
      ensures Valid() && Spaces() == EagerStep(old(Spaces()), MapZero(a, v, writable), r) && r != Fault
    {
      hide Counted, Exclusive, Mappers, View, EagerStep;
      var frame := AllocFrame();
      if frame.None? {
        EagerUnchanged(Spaces(), MapZero(a, v, writable), OutOfMemory);
        return OutOfMemory;
      }
      var entry := Pte(frame.value, writable, false, 0);
      SharedAfterMap(tables, frames, refs, a, v, entry);
      ViewAfterMap(tables, frames, a, v, entry);
      refs := refs[frame.value := 1];
      frames := frames[frame.value := ZeroPage()];
      tables := SetPte(tables, a, v, entry);
      return Done;
    }

    /** `create_address_space`, when its root table can be allocated. */
    method CreateSpace(a: nat)
      requires Valid() && a !in tables
      modifies `tables
      ensures Valid() && Spaces() == EagerStep(old(Spaces()), Create(a), Done)
    {
      hide Counted, Exclusive, Mappers, View, EagerStep;
      EmptySpace(tables, tables[a := map[]], frames, refs, a);
      ViewAfterCreate(tables, frames, a);
      tables := tables[a := map[]];
    }

    /** `unmap` and `free_frame` of one page. */
    method UnmapPage(a: nat, v: nat)
      requires Valid() && a in tables
      modifies this
      ensures Valid() && Spaces() == EagerStep(old(Spaces()), Unmap(a, v), Done)
      ensures unchanged(`frames) && refs.Keys == old(refs.Keys) && tables == ClearPte(old(tables), a, v)
    {
      hide FramesIn, Counted, Exclusive, Mappers;
      if v in tables[a] {
        var f := tables[a][v].frame;
        SharedAfterClear(tables, frames, refs, a, v);
        ViewAfterClear(tables, frames, a, v);
        tables := ClearPte(tables, a, v);
        FreeFrame(f);
      } else {
        ViewAfterClear(tables, frames, a, v);
        var t: Table := tables[a] - {v};
        assert t == tables[a] && tables == ClearPte(tables, a, v);
      }
    }

    /** Give back every page of `pages` that an address space maps. */
    method UnmapAll(a: nat, pages: seq<nat>)
      requires Valid() && a in tables
      modifies this
      ensures Valid() && unchanged(`frames) && refs.Keys == old(refs.Keys)
      ensures tables.Keys == old(tables.Keys) && tables - {a} == old(tables) - {a}
      ensures tables[a].Keys == old(tables)[a].Keys - PageSet(pages)
      ensures forall b :: b in tables && b != a ==> Spaces()[b] == old(Spaces())[b]
    {
      hide Counted, Exclusive, Mappers, FramesIn, TableView;
      for i := 0 to |pages|
        invariant Valid() && a in tables && unchanged(`frames) && refs.Keys == old(refs.Keys)
        invariant tables.Keys == old(tables.Keys) && tables - {a} == old(tables) - {a}
        invariant tables[a].Keys == old(tables)[a].Keys - PageSet(pages[..i])
        invariant forall b :: b in tables && b != a ==> Spaces()[b] == old(Spaces())[b]
      {
        PageSetGrows(pages, i);
        UnmapPage(a, pages[i]);
      }
      assert pages[..|pages|] == pages;
    }

    /** `clone_user_address_space`.  `created` and `budget` stand for the page-table allocations that succeed: the
        child's root table, and the `map` calls. */
    method ForkSpace(parent: nat, child: nat, created: bool, budget: nat) returns (r: Outcome)
      requires Valid() && parent in tables && child !in tables
      modifies this
      ensures Valid() && unchanged(`frames)
      ensures Spaces() == EagerStep(old(Spaces()), Fork(parent, child), r)
      ensures r == Done <==> created && |old(tables)[parent]| <= budget
      ensures r != Done ==> refs == old(refs)
    {
      hide Shared, View, EagerStep, PageSet, Distinct;
      var pages := Ascending(tables[parent].Keys);
      r := ForkPages(parent, child, pages, created, budget);
    }

    /** The fork loop over the parent's mapped pages. */
    method ForkPages(parent: nat, child: nat, pages: seq<nat>, created: bool, budget: nat) returns (r: Outcome)
      requires Valid() && parent in tables && child !in tables
      requires PageSet(pages) == tables[parent].Keys && Distinct(pages)
      modifies this
      ensures Valid() && unchanged(`frames)
      ensures Spaces() == EagerStep(old(Spaces()), Fork(parent, child), r)
      ensures r == Done <==> created && |pages| <= budget
      ensures r != Done ==> refs == old(refs)
    {
      ghost var e0, tables0, refs0 := Spaces(), tables, refs;
      ViewKeys(tables, frames, parent);
      assert parent in e0 && e0[parent].Keys == PageSet(pages) && Counted(tables0, refs0);
      hide Shared, Counted, View, EagerStep, Forked, SameFrames, PageSet, Distinct;
      if !created {
        EagerUnchanged(e0, Fork(parent, child), OutOfMemory);
        return OutOfMemory;
      }
      BeginFork(parent, child);
      PageSetEnds(pages);
      for i := 0 to |pages|
        invariant Valid() && unchanged(`frames) && refs.Keys == refs0.Keys && i <= budget
        invariant Forked(e0, Spaces(), parent, child, PageSet(pages[..i]))
        invariant SameFrames(tables0, tables - {child})
      {
        PageSetGrows(pages, i);
        if i >= budget {
          CancelFork(parent, child, pages[i], pages[..i], e0, tables0, refs0);
          EagerUnchanged(e0, Fork(parent, child), OutOfMemory);
          return OutOfMemory;
        }
        SharePage(parent, child, pages[i], e0, PageSet(pages[..i]), tables0);
      }
      ForkEnd(e0, Spaces(), parent, child);
      r := Done;
    }

    method BeginFork(parent: nat, child: nat)
      requires Valid() && parent in tables && child !in tables
      modifies `tables
      ensures Valid() && Forked(old(Spaces()), Spaces(), parent, child, {}) && SameFrames(old(tables), tables - {child})
    {
      hide Counted, Exclusive, Mappers, View, Forked;
      EmptySpace(tables, tables[child := map[]], frames, refs, child);
      ForkStart(tables, frames, parent, child);
      tables := tables[child := map[]];
    }

    /** One page of the fork loop: count the new mapping, map it in the child, write-protect it in the parent. */
    method SharePage(parent: nat, child: nat, v: nat, ghost e0: Eager, ghost done: set<nat>, ghost tables0: Tables)
      requires Valid() && Forked(e0, Spaces(), parent, child, done) && SameFrames(tables0, tables - {child})
      requires parent in e0 && v in e0[parent] && v !in done
      modifies `tables, `refs
      ensures Valid() && Forked(e0, Spaces(), parent, child, done + {v}) && SameFrames(tables0, tables - {child})
      ensures refs.Keys == old(refs.Keys)
    {
      hide Counted, Exclusive, Mappers, View, Forked, SameFrames;
      NextPage(e0, tables, frames, parent, child, done, v);
      ForkStep(e0, tables, frames, refs, parent, child, done, v);
      SameFramesTransitive(tables0, tables - {child}, ForkPage(tables, parent, child, v) - {child});
      var entry := tables[parent][v];
      if !entry.writable { ForkPageReadOnly(tables, parent, child, v); }
      refs := refs[entry.frame := refs[entry.frame] + 1];
      ghost var shared := ForkPage(tables, parent, child, v);
      tables := SetPte(tables, child, v, ForkPte(entry));
      if entry.writable {
        tables := SetPte(tables, parent, v, ForkPte(entry));
      }
      assert tables == shared;
    }

    /** The failure path of the fork loop: drop the reference just taken, unmap what the child got, remove the child. */
    method CancelFork(parent: nat, child: nat, v: nat, mapped: seq<nat>, ghost e0: Eager, ghost tables0: Tables,
                      ghost refs0: map<nat, nat>)
      requires Valid() && parent in e0 && Forked(e0, Spaces(), parent, child, PageSet(mapped))
      requires v in e0[parent] && v !in PageSet(mapped)
      requires SameFrames(tables0, tables - {child}) && Counted(tables0, refs0) && refs.Keys == refs0.Keys
      modifies this
      ensures Valid() && unchanged(`frames) && Spaces() == e0 && refs == refs0
    {
      hide Counted, Exclusive, Mappers, View, SameFrames, Forked;
      NextPage(e0, tables, frames, parent, child, PageSet(mapped), v);
      ChildPages(e0, tables, frames, parent, child, PageSet(mapped));
      var src := tables[parent][v].frame;
      ghost var before := refs;
      refs := refs[src := refs[src] + 1];
      FreeFrame(src);
      assert refs == before;
      UnmapAll(child, mapped);
      assert tables[child] == map[];
      ForkCancelled(e0, tables, frames, refs, child, tables0, refs0);
      tables := tables - {child};
    }

    /** `cleanup`: give back every page of an address space, then the space itself. */
    method ExitSpace(a: nat)
      requires Valid() && a in tables
      modifies this
      ensures Valid() && Spaces() == EagerStep(old(Spaces()), Exit(a), Done)
    {
      hide Counted, Exclusive, Mappers, TableView, FramesIn, EagerStep, Shared;
      ghost var e0 := Spaces();
      var pages := Ascending(tables[a].Keys);
      UnmapAll(a, pages);
      assert tables[a] == map[];
      RemoveEmptySpace(tables, frames, refs, a);
      SameElsewhere(e0, Spaces(), a);
      tables := tables - {a};
    }

    /** One operation; operations on spaces that do not exist are refused. */
    method Perform(op: Op) returns (r: Outcome)
      requires Valid()
      modifies this
      ensures Valid() && Spaces() == EagerStep(old(Spaces()), op, r)
    {
      hide Shared, EagerStep;
      EagerUnchanged(Spaces(), op, Fault);
      r := Fault;
      match op
      case Create(a) =>
        if a !in tables {
          CreateSpace(a);
          r := Done;
        }
      case MapZero(a, v, writable) =>
        if a in tables && v !in tables[a] {
          r := MapZeroPage(a, v, writable);
        }
      case Fork(parent, child) =>
        if parent in tables && child !in tables {
          var created: bool, budget: nat := *, *;
          r := ForkSpace(parent, child, created, budget);
        }
      case Store(a, v, offset, byte) =>
        if offset < PAGE_SIZE {
          r := StoreByte(a, v, offset, byte);
        }
      case Unmap(a, v) =>
        if a in tables {
          UnmapPage(a, v);
          r := Done;
        }
      case Exit(a) =>
        if a in tables {
          ExitSpace(a);
          r := Done;
        }
    }

    /** Any run of forks, stores through the fault path, unmaps and exits: every address space reads exactly what it
        would read if each fork had copied every page. */
    method Execute(ops: seq<Op>) returns (rs: seq<Outcome>)
      requires Valid()
      modifies this
      ensures |rs| == |ops| && Valid() && Spaces() == EagerRun(old(Spaces()), ops, rs)
    {
      hide Shared, EagerStep, View;
      rs := [];
      for i := 0 to |ops|
        invariant |rs| == i && Valid() && Spaces() == EagerRun(old(Spaces()), ops[..i], rs)
      {
        var r := Perform(ops[i]);
        assert ops[..i + 1][..i] == ops[..i] && (rs + [r])[..i] == rs;
        rs := rs + [r];
      }
      assert ops[..|ops|] == ops;
    }
  }

  /** The members of a set in ascending order, as the table walk meets them. */
  method Ascending(s: set<nat>) returns (pages: seq<nat>)
    ensures PageSet(pages) == s && Distinct(pages) && |pages| == |s|
    ensures forall i, j :: 0 <= i < j < |pages| ==> pages[i] < pages[j]
  {
    hide PageSet;
    pages := [];
    var left := s;
    NoPages();
    while left != {}
      invariant left <= s && PageSet(pages) == s - left && |pages| + |left| == |s|
      invariant forall i, x :: 0 <= i < |pages| && x in left ==> pages[i] < x
      invariant forall i, j :: 0 <= i < j < |pages| ==> pages[i] < pages[j]
      decreases left
    {
      var v := Least(left);
      OnePageMore(pages, v);
      pages := pages + [v];
      left := left - {v};
    }
  }

  lemma NoPages()
    ensures PageSet([]) == {}
  {
  }

  lemma OnePageMore(pages: seq<nat>, v: nat)
    ensures PageSet(pages + [v]) == PageSet(pages) + {v}
  {
  }
}
