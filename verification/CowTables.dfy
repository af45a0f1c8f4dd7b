/** Page tables with copy-on-write entries (rust/kernel/src/paging.rs), restricted to resident private anonymous
    pages: who maps a frame, what each address space reads, and how single entry updates change both. */
module CowTables {
  const PAGE_SIZE: nat := 4096

  type Page = seq<bv8>

  /** A present leaf entry: frame, the WRITABLE and COW bits, and every other flag bit. */
  datatype Pte = Pte(frame: nat, writable: bool, cow: bool, other: nat)

  type Table = map<nat, Pte>

  /** Address space to virtual page to entry. */
  type Tables = map<nat, Table>

  /** The mappings of a frame. */
  ghost function Mappers(ts: Tables, f: nat): set<(nat, nat)> {
    set a, v | a in ts && v in ts[a] && ts[a][v].frame == f :: (a, v)
  }

  lemma InMappers(ts: Tables, f: nat, a: nat, v: nat)
    ensures (a, v) in Mappers(ts, f) <==> a in ts && v in ts[a] && ts[a][v].frame == f
  {
  }

  function SetPte(ts: Tables, a: nat, v: nat, p: Pte): Tables
    requires a in ts
  {
    var t: Table := ts[a][v := p];
    ts[a := t]
  }

  function ClearPte(ts: Tables, a: nat, v: nat): Tables
    requires a in ts
  {
    var t: Table := ts[a] - {v};
    ts[a := t]
  }

  /** Installing an entry adds one mapping to its frame, and takes the old one away. */
  lemma MappersAfterSet(ts: Tables, a: nat, v: nat, p: Pte, f: nat)
    requires a in ts
    ensures Mappers(SetPte(ts, a, v, p), f) ==
            (if p.frame == f then Mappers(ts, f) + {(a, v)} else Mappers(ts, f) - {(a, v)})
  {
    var ts': Tables := SetPte(ts, a, v, p);
    forall b: nat, w: nat ensures (b, w) in Mappers(ts', f) <==>
                        (b, w) in (if p.frame == f then Mappers(ts, f) + {(a, v)} else Mappers(ts, f) - {(a, v)})
    {
      InMappers(ts, f, b, w);
      InMappers(ts', f, b, w);
    }
  }

  lemma MappersAfterClear(ts: Tables, a: nat, v: nat, f: nat)
    requires a in ts
    ensures Mappers(ClearPte(ts, a, v), f) == Mappers(ts, f) - {(a, v)}
  {
    var ts': Tables := ClearPte(ts, a, v);
    forall b: nat, w: nat ensures (b, w) in Mappers(ts', f) <==> (b, w) in Mappers(ts, f) - {(a, v)} {
      InMappers(ts, f, b, w);
      InMappers(ts', f, b, w);
    }
  }

  lemma MappersAfterSpace(ts: Tables, a: nat, f: nat)
    ensures a !in ts ==> Mappers(ts[a := map[]], f) == Mappers(ts, f)
    ensures a in ts && ts[a] == map[] ==> Mappers(ts - {a}, f) == Mappers(ts, f)
  {
    forall b: nat, w: nat
      ensures (b, w) in Mappers(ts, f) <==> b in ts && w in ts[b] && ts[b][w].frame == f { InMappers(ts, f, b, w); }
    forall b: nat, w: nat ensures a !in ts ==> ((b, w) in Mappers(ts[a := map[]], f) <==> (b, w) in Mappers(ts, f)) {
      InMappers(ts[a := map[]], f, b, w);
    }
    forall b: nat, w: nat
      ensures a in ts && ts[a] == map[] ==> ((b, w) in Mappers(ts - {a}, f) <==> (b, w) in Mappers(ts, f))
    {
      InMappers(ts - {a}, f, b, w);
    }
  }

  // ---------------------------------------------------------------- the reference: every fork copies

  /** One page of the eager reference: its own bytes and whether stores are allowed. */
  datatype OwnPage = OwnPage(data: Page, mayWrite: bool)

  type Eager = map<nat, map<nat, OwnPage>>

  datatype Op =
    | Create(space: nat)
    | MapZero(space: nat, page: nat, writable: bool)
    | Fork(parent: nat, child: nat)
    | Store(space: nat, page: nat, offset: nat, byte: bv8)
    | Unmap(space: nat, page: nat)
    | Exit(space: nat)

  function ZeroPage(): Page { seq(PAGE_SIZE, _ => 0) }

  datatype Outcome = Done | Fault | OutOfMemory

  /** What an operation with a given outcome does when every fork copies all pages at once. */
  function EagerStep(e: Eager, op: Op, r: Outcome): Eager {
    if r != Done then e else
      match op
      case Create(a) => e[a := map[]]
      case MapZero(a, v, w) =>
        if a in e then var t: map<nat, OwnPage> := e[a][v := OwnPage(ZeroPage(), w)]; e[a := t] else e
      case Fork(parent, child) => if parent in e then e[child := e[parent]] else e
      case Store(a, v, off, b) =>
        if a in e && v in e[a] && off < |e[a][v].data|
        then var t: map<nat, OwnPage> := e[a][v := e[a][v].(data := e[a][v].data[off := b])]; e[a := t]
        else e
      case Unmap(a, v) => if a in e then var t: map<nat, OwnPage> := e[a] - {v}; e[a := t] else e
      case Exit(a) => e - {a}
  }

  function EagerRun(e: Eager, ops: seq<Op>, rs: seq<Outcome>): Eager
    requires |ops| == |rs|
  {
    if ops == [] then e
    else EagerStep(EagerRun(e, ops[..|ops| - 1], rs[..|ops| - 1]), ops[|ops| - 1], rs[|ops| - 1])
  }

  /** An operation that does not complete changes nothing. */
  lemma EagerUnchanged(e: Eager, op: Op, r: Outcome)
    requires r != Done
    ensures EagerStep(e, op, r) == e
  {
  }

  /** What the copy-on-write tables stand for: the bytes behind every mapping, writable now or after a fault. */
  ghost function PageView(mem: map<nat, Page>, p: Pte): OwnPage
    requires p.frame in mem
  {
    OwnPage(mem[p.frame], p.writable || p.cow)
  }

  ghost predicate FramesIn(ts: Tables, mem: map<nat, Page>) {
    forall a, v :: a in ts && v in ts[a] ==> ts[a][v].frame in mem
  }

  ghost function TableView(t: Table, mem: map<nat, Page>): map<nat, OwnPage>
    requires forall v :: v in t ==> t[v].frame in mem
  {
    map v | v in t :: PageView(mem, t[v])
  }

  ghost function View(ts: Tables, mem: map<nat, Page>): Eager
    requires FramesIn(ts, mem)
  {
    map a | a in ts :: TableView(ts[a], mem)
  }

  // ---------------------------------------------------------------- the invariant

  /** Reference counts count mappings. */
  ghost predicate Counted(ts: Tables, refs: map<nat, nat>) {
    forall f :: f in refs ==> refs[f] == |Mappers(ts, f)|
  }

  /** A writable entry is its frame's only mapping, and does not carry the COW bit. */
  ghost predicate Exclusive(ts: Tables) {
    forall a, v :: a in ts && v in ts[a] && ts[a][v].writable ==>
      !ts[a][v].cow && Mappers(ts, ts[a][v].frame) == {(a, v)}
  }

  ghost predicate Memory(ts: Tables, mem: map<nat, Page>, refs: map<nat, nat>) {
    && refs.Keys == mem.Keys
    && (forall f :: f in mem ==> |mem[f]| == PAGE_SIZE)
    && FramesIn(ts, mem)
  }

  ghost predicate Shared(ts: Tables, mem: map<nat, Page>, refs: map<nat, nat>) {
    Memory(ts, mem, refs) && Counted(ts, refs) && Exclusive(ts)
  }

  // ---------------------------------------------------------------- what single updates do to the view

  lemma FramesInAfterSet(ts: Tables, mem: map<nat, Page>, a: nat, v: nat, p: Pte)
    requires FramesIn(ts, mem) && a in ts && p.frame in mem
    ensures FramesIn(SetPte(ts, a, v, p), mem)
  {
  }

  lemma SameElsewhere(e: Eager, e': Eager, a: nat)
    requires e'.Keys == e.Keys && forall b :: b in e' && b != a ==> e'[b] == e[b]
    ensures e' - {a} == EagerStep(e, Exit(a), Done)
  {
  }

  /** Replacing an entry by one that shows the same page leaves the view alone. */
  lemma ViewAfterSet(ts: Tables, mem: map<nat, Page>, a: nat, v: nat, p: Pte)
    requires FramesIn(ts, mem) && a in ts && p.frame in mem
    ensures FramesIn(SetPte(ts, a, v, p), mem)
    ensures v in ts[a] && PageView(mem, p) == PageView(mem, ts[a][v]) ==>
      View(SetPte(ts, a, v, p), mem) == View(ts, mem)
    ensures TableView(SetPte(ts, a, v, p)[a], mem) == TableView(ts[a], mem)[v := PageView(mem, p)]
    ensures forall b :: b in ts && b != a ==> View(SetPte(ts, a, v, p), mem)[b] == View(ts, mem)[b]
  {
    if v in ts[a] && PageView(mem, p) == PageView(mem, ts[a][v]) {
      assert TableView(SetPte(ts, a, v, p)[a], mem) == TableView(ts[a], mem);
    }
  }

  lemma ViewAfterClear(ts: Tables, mem: map<nat, Page>, a: nat, v: nat)
    requires FramesIn(ts, mem) && a in ts
    ensures FramesIn(ClearPte(ts, a, v), mem)
    ensures View(ClearPte(ts, a, v), mem) == EagerStep(View(ts, mem), Unmap(a, v), Done)
  {
    var t: Table := ts[a] - {v};
    assert TableView(t, mem) == TableView(ts[a], mem) - {v};
  }

  /** Changing bytes of a frame nobody maps is invisible. */
  lemma ViewAfterScratch(ts: Tables, mem: map<nat, Page>, f: nat, data: Page)
    requires FramesIn(ts, mem) && Mappers(ts, f) == {}
    ensures FramesIn(ts, mem[f := data]) && View(ts, mem[f := data]) == View(ts, mem)
  {
    forall a, v | a in ts && v in ts[a] ensures ts[a][v].frame != f { InMappers(ts, f, a, v); }
    assert forall a :: a in ts ==> TableView(ts[a], mem[f := data]) == TableView(ts[a], mem);
  }

  /** Storing into a frame with a single mapping changes that page of that space and nothing else. */
  lemma ViewAfterStore(ts: Tables, mem: map<nat, Page>, a: nat, v: nat, off: nat, b: bv8)
    requires FramesIn(ts, mem) && a in ts && v in ts[a] && off < |mem[ts[a][v].frame]|
    requires Mappers(ts, ts[a][v].frame) == {(a, v)}
    ensures var f := ts[a][v].frame; var mem' := mem[f := mem[f][off := b]];
            FramesIn(ts, mem') && View(ts, mem') == EagerStep(View(ts, mem), Store(a, v, off, b), Done)
  {
    var f := ts[a][v].frame;
    var mem' := mem[f := mem[f][off := b]];
    forall c, w | c in ts && w in ts[c] && (c != a || w != v) ensures ts[c][w].frame != f { InMappers(ts, f, c, w); }
    var old': Eager := View(ts, mem);
    var t: map<nat, OwnPage> := old'[a][v := old'[a][v].(data := old'[a][v].data[off := b])];
    assert TableView(ts[a], mem') == t;
    assert forall c :: c in ts && c != a ==> TableView(ts[c], mem') == TableView(ts[c], mem);
  }

  // ---------------------------------------------------------------- what single updates do to the invariant

  /** Giving write permission to a frame's only mapping. */
  lemma SharedAfterUpgrade(ts: Tables, mem: map<nat, Page>, refs: map<nat, nat>, a: nat, v: nat)
    requires Shared(ts, mem, refs) && a in ts && v in ts[a] && refs[ts[a][v].frame] <= 1
    ensures Shared(SetPte(ts, a, v, ts[a][v].(writable := true, cow := false)), mem, refs)
  {
    OnlyMapper(ts, refs[ts[a][v].frame], a, v);
    SameMappers(ts, a, v, ts[a][v].(writable := true, cow := false));
  }

  lemma SameMappers(ts: Tables, a: nat, v: nat, p: Pte)
    requires a in ts && v in ts[a] && p.frame == ts[a][v].frame
    ensures forall f :: Mappers(SetPte(ts, a, v, p), f) == Mappers(ts, f)
  {
    forall f ensures Mappers(SetPte(ts, a, v, p), f) == Mappers(ts, f) {
      MappersAfterSet(ts, a, v, p, f);
      InMappers(ts, f, a, v);
    }
  }

  lemma OnlyMapper(ts: Tables, n: nat, a: nat, v: nat)
    requires a in ts && v in ts[a] && n == |Mappers(ts, ts[a][v].frame)| <= 1
    ensures n == 1 && Mappers(ts, ts[a][v].frame) == {(a, v)}
  {
    var m := Mappers(ts, ts[a][v].frame);
    InMappers(ts, ts[a][v].frame, a, v);
    assert |m - {(a, v)}| == |m| - 1;
  }

  /** The mappings after an entry moves from its frame to the unmapped frame `g`. */
  lemma MappersAfterMove(ts: Tables, a: nat, v: nat, p: Pte, h: nat)
    requires a in ts && v in ts[a] && Mappers(ts, p.frame) == {}
    ensures p.frame != ts[a][v].frame && (a, v) in Mappers(ts, ts[a][v].frame)
    ensures Mappers(SetPte(ts, a, v, p), h) ==
            if h == p.frame then {(a, v)} else if h == ts[a][v].frame then Mappers(ts, h) - {(a, v)} else Mappers(ts, h)
  {
    InMappers(ts, p.frame, a, v);
    InMappers(ts, ts[a][v].frame, a, v);
    InMappers(ts, h, a, v);
    MappersAfterSet(ts, a, v, p, h);
  }

  lemma CountedAfterMove(ts: Tables, refs: map<nat, nat>, a: nat, v: nat, p: Pte)
    requires Counted(ts, refs) && a in ts && v in ts[a] && ts[a][v].frame in refs && p.frame in refs
      && refs[p.frame] == 0
    ensures Mappers(ts, p.frame) == {} && refs[ts[a][v].frame] >= 1 && p.frame != ts[a][v].frame
    ensures Counted(SetPte(ts, a, v, p), refs[p.frame := 1][ts[a][v].frame := refs[ts[a][v].frame] - 1])
  {
    MappersAfterMove(ts, a, v, p, p.frame);
    var refs' := refs[p.frame := 1][ts[a][v].frame := refs[ts[a][v].frame] - 1];
    forall h | h in refs' ensures refs'[h] == |Mappers(SetPte(ts, a, v, p), h)| {
      MappersAfterMove(ts, a, v, p, h);
    }
  }

  lemma ExclusiveAfterMove(ts: Tables, a: nat, v: nat, p: Pte)
    requires Exclusive(ts) && a in ts && v in ts[a] && Mappers(ts, p.frame) == {} && !p.cow
    ensures Exclusive(SetPte(ts, a, v, p))
  {
    var ts': Tables := SetPte(ts, a, v, p);
    forall b, w | b in ts' && w in ts'[b] && ts'[b][w].writable
      ensures !ts'[b][w].cow && Mappers(ts', ts'[b][w].frame) == {(b, w)}
    {
      MappersAfterMove(ts, a, v, p, ts'[b][w].frame);
      if (b, w) != (a, v) { InMappers(ts, ts'[b][w].frame, a, v); InMappers(ts, p.frame, b, w); }
    }
  }

  ghost predicate MovedOk(ts: Tables, mem: map<nat, Page>, refs: map<nat, nat>, a: nat, v: nat, p: Pte)
    requires a in ts && v in ts[a] && ts[a][v].frame in refs && ts[a][v].frame in mem && refs[ts[a][v].frame] >= 1
  {
    var f := ts[a][v].frame;
    Shared(SetPte(ts, a, v, p), mem[p.frame := mem[f]], refs[p.frame := 1][f := refs[f] - 1])
  }

  /** Moving an entry to a fresh private copy of its page. */
  lemma SharedAfterMove(ts: Tables, mem: map<nat, Page>, refs: map<nat, nat>, a: nat, v: nat, p: Pte)
    requires Shared(ts, mem, refs) && a in ts && v in ts[a] && p.frame in mem && p.frame in refs && refs[p.frame] == 0
      && !p.cow
    ensures ts[a][v].frame in refs && ts[a][v].frame in mem && refs[ts[a][v].frame] >= 1
    ensures p.frame != ts[a][v].frame && Mappers(ts, p.frame) == {}
    ensures MovedOk(ts, mem, refs, a, v, p)
  {
    hide Counted, View, TableView, SetPte;
    CountedAfterMove(ts, refs, a, v, p);
    ExclusiveAfterMove(ts, a, v, p);
    ViewAfterSet(ts, mem[p.frame := mem[ts[a][v].frame]], a, v, p);
  }

  lemma ViewAfterMove(ts: Tables, mem: map<nat, Page>, a: nat, v: nat, p: Pte)
    requires FramesIn(ts, mem) && a in ts && v in ts[a] && p.frame in mem && Mappers(ts, p.frame) == {}
      && p.frame != ts[a][v].frame
    requires p.writable || p.cow <==> ts[a][v].writable || ts[a][v].cow
    ensures FramesIn(SetPte(ts, a, v, p), mem[p.frame := mem[ts[a][v].frame]])
    ensures View(SetPte(ts, a, v, p), mem[p.frame := mem[ts[a][v].frame]]) == View(ts, mem)
  {
    var mem' := mem[p.frame := mem[ts[a][v].frame]];
    ViewAfterScratch(ts, mem, p.frame, mem[ts[a][v].frame]);
    ViewAfterSet(ts, mem', a, v, p);
  }

  // ---------------------------------------------------------------- sharing and dropping a page

  /** The entry both sides of a fork end up with. */
  function ForkPte(p: Pte): Pte {
    if p.writable then p.(writable := false, cow := true) else p
  }

  /** One page of a fork: the child maps the parent's frame and both lose write permission. */
  function ForkPage(ts: Tables, parent: nat, child: nat, v: nat): Tables
    requires parent in ts && child in ts && v in ts[parent]
  {
    SetPte(SetPte(ts, child, v, ForkPte(ts[parent][v])), parent, v, ForkPte(ts[parent][v]))
  }

  lemma MappersAfterFork(ts: Tables, parent: nat, child: nat, v: nat, f: nat)
    requires parent in ts && child in ts && parent != child && v in ts[parent] && v !in ts[child]
    ensures Mappers(ForkPage(ts, parent, child, v), f) ==
            if f == ts[parent][v].frame then Mappers(ts, f) + {(child, v)} else Mappers(ts, f)
    ensures (child, v) !in Mappers(ts, f)
  {
    var p := ForkPte(ts[parent][v]);
    MappersAfterSet(ts, child, v, p, f);
    MappersAfterSet(SetPte(ts, child, v, p), parent, v, p, f);
    InMappers(ts, f, child, v);
    InMappers(ts, f, parent, v);
  }

  lemma ExclusiveAfterFork(ts: Tables, parent: nat, child: nat, v: nat)
    requires Exclusive(ts) && parent in ts && child in ts && parent != child && v in ts[parent] && v !in ts[child]
    ensures Exclusive(ForkPage(ts, parent, child, v))
  {
    var ts': Tables := ForkPage(ts, parent, child, v);
    forall a, w | a in ts' && w in ts'[a] && ts'[a][w].writable
      ensures !ts'[a][w].cow && Mappers(ts', ts'[a][w].frame) == {(a, w)}
    {
      MappersAfterFork(ts, parent, child, v, ts'[a][w].frame);
      InMappers(ts, ts'[a][w].frame, parent, v);
    }
  }

  lemma CountedAfterFork(ts: Tables, refs: map<nat, nat>, parent: nat, child: nat, v: nat)
    requires Counted(ts, refs) && parent in ts && child in ts && parent != child && v in ts[parent] && v !in ts[child]
    requires ts[parent][v].frame in refs
    ensures var f := ts[parent][v].frame; Counted(ForkPage(ts, parent, child, v), refs[f := refs[f] + 1])
  {
    var f, refs' := ts[parent][v].frame, refs[ts[parent][v].frame := refs[ts[parent][v].frame] + 1];
    forall h | h in refs' ensures refs'[h] == |Mappers(ForkPage(ts, parent, child, v), h)| {
      MappersAfterFork(ts, parent, child, v, h);
    }
  }

  lemma SharedAfterFork(ts: Tables, mem: map<nat, Page>, refs: map<nat, nat>, parent: nat, child: nat, v: nat)
    requires Shared(ts, mem, refs) && parent in ts && child in ts && parent != child && v in ts[parent]
      && v !in ts[child]
    ensures var f := ts[parent][v].frame; Shared(ForkPage(ts, parent, child, v), mem, refs[f := refs[f] + 1])
  {
    var p := ForkPte(ts[parent][v]);
    CountedAfterFork(ts, refs, parent, child, v);
    ExclusiveAfterFork(ts, parent, child, v);
    FramesInAfterSet(ts, mem, child, v, p);
    FramesInAfterSet(SetPte(ts, child, v, p), mem, parent, v, p);
    hide Exclusive, Counted, FramesIn;
  }

  lemma ViewAfterFork(ts: Tables, mem: map<nat, Page>, parent: nat, child: nat, v: nat)
    requires FramesIn(ts, mem) && parent in ts && child in ts && parent != child && v in ts[parent]
    ensures FramesIn(ForkPage(ts, parent, child, v), mem)
    ensures var e, e' := View(ts, mem), View(ForkPage(ts, parent, child, v), mem);
            && e'.Keys == e.Keys && e'[child] == e[child][v := e[parent][v]]
            && forall a :: a in e && a != child ==> e'[a] == e[a]
  {
    var p := ForkPte(ts[parent][v]);
    ViewAfterSet(ts, mem, child, v, p);
    ViewAfterSet(SetPte(ts, child, v, p), mem, parent, v, p);
  }

  lemma ExclusiveAfterClear(ts: Tables, a: nat, v: nat)
    requires Exclusive(ts) && a in ts
    ensures Exclusive(ClearPte(ts, a, v))
  {
    var ts': Tables := ClearPte(ts, a, v);
    forall b, w | b in ts' && w in ts'[b] && ts'[b][w].writable
      ensures !ts'[b][w].cow && Mappers(ts', ts'[b][w].frame) == {(b, w)}
    {
      MappersAfterClear(ts, a, v, ts'[b][w].frame);
      InMappers(ts', ts'[b][w].frame, b, w);
    }
  }

  lemma CountedAfterClear(ts: Tables, refs: map<nat, nat>, a: nat, v: nat)
    requires Counted(ts, refs) && a in ts && v in ts[a] && ts[a][v].frame in refs
    ensures var f := ts[a][v].frame; refs[f] >= 1 && Counted(ClearPte(ts, a, v), refs[f := refs[f] - 1])
  {
    var f := ts[a][v].frame;
    InMappers(ts, f, a, v);
    var refs' := refs[f := refs[f] - 1];
    forall h | h in refs' ensures refs'[h] == |Mappers(ClearPte(ts, a, v), h)| {
      MappersAfterClear(ts, a, v, h);
      InMappers(ts, h, a, v);
    }
  }

  lemma SharedAfterClear(ts: Tables, mem: map<nat, Page>, refs: map<nat, nat>, a: nat, v: nat)
    requires Shared(ts, mem, refs) && a in ts && v in ts[a]
    ensures var f := ts[a][v].frame; refs[f] >= 1 && Shared(ClearPte(ts, a, v), mem, refs[f := refs[f] - 1])
  {
    CountedAfterClear(ts, refs, a, v);
    ExclusiveAfterClear(ts, a, v);
  }

  lemma SharedAfterStore(ts: Tables, mem: map<nat, Page>, refs: map<nat, nat>, a: nat, v: nat, off: nat, b: bv8)
    requires Shared(ts, mem, refs) && a in ts && v in ts[a] && ts[a][v].writable && off < PAGE_SIZE
    ensures Mappers(ts, ts[a][v].frame) == {(a, v)} && off < |mem[ts[a][v].frame]|
    ensures Shared(ts, mem[ts[a][v].frame := mem[ts[a][v].frame][off := b]], refs)
  {
    hide Counted, Mappers;
  }

  // ---------------------------------------------------------------- a fork, page by page

  ghost function PageSet(pages: seq<nat>): set<nat> {
    set v | v in pages
  }

  ghost predicate Distinct(pages: seq<nat>) {
    forall i, j :: 0 <= i < j < |pages| ==> pages[i] != pages[j]
  }

  lemma PageSetGrows(pages: seq<nat>, i: nat)
    requires i < |pages|
    ensures PageSet(pages[..i + 1]) == PageSet(pages[..i]) + {pages[i]} && pages[i] in PageSet(pages)
    ensures Distinct(pages) ==> pages[i] !in PageSet(pages[..i])
  {
    assert pages[..i + 1] == pages[..i] + [pages[i]];
  }

  lemma PageSetEnds(pages: seq<nat>)
    ensures PageSet(pages[..0]) == {} && pages[..|pages|] == pages
  {
  }

  /** The pages of `done` have been given to the child; every other space reads as before. */
  ghost predicate Forked(e0: Eager, e: Eager, parent: nat, child: nat, done: set<nat>) {
    && parent in e0 && child !in e0 && e.Keys == e0.Keys + {child}
    && (forall a :: a in e0 ==> e[a] == e0[a])
    && e[child].Keys == done && done <= e0[parent].Keys
    && (forall v :: v in done ==> e[child][v] == e0[parent][v])
  }

  /** The two tables map the same frames at the same places. */
  ghost predicate SameFrames(ts: Tables, ts': Tables) {
    && ts.Keys == ts'.Keys
    && forall a :: a in ts ==> ts[a].Keys == ts'[a].Keys && forall v :: v in ts[a] ==> ts'[a][v].frame == ts[a][v].frame
  }

  lemma SameFramesSameMappers(ts: Tables, ts': Tables, f: nat)
    requires SameFrames(ts, ts')
    ensures Mappers(ts, f) == Mappers(ts', f)
  {
  }

  /** So the reference counts, which count mappings, agree as well. */
  lemma SameFramesSameRefs(ts: Tables, ts': Tables, refs: map<nat, nat>, refs': map<nat, nat>)
    requires SameFrames(ts, ts') && Counted(ts, refs) && Counted(ts', refs') && refs.Keys == refs'.Keys
    ensures refs == refs'
  {
    forall f | f in refs ensures refs[f] == refs'[f] { SameFramesSameMappers(ts, ts', f); }
  }

  /** Adding or removing an address space without pages. */
  lemma EmptySpace(ts: Tables, ts': Tables, mem: map<nat, Page>, refs: map<nat, nat>, a: nat)
    requires Shared(ts, mem, refs)
    requires (a !in ts && ts' == ts[a := map[]]) || (a in ts && ts[a] == map[] && ts' == ts - {a})
    ensures Shared(ts', mem, refs)
  {
    forall f ensures Mappers(ts', f) == Mappers(ts, f) { MappersAfterSpace(ts, a, f); }
    assert Exclusive(ts') by {
      forall b, w | b in ts' && w in ts'[b] && ts'[b][w].writable
        ensures !ts'[b][w].cow && Mappers(ts', ts'[b][w].frame) == {(b, w)}
      {
        assert ts'[b] == ts[b];
      }
    }
    assert Counted(ts', refs);
  }

  lemma ViewAfterCreate(ts: Tables, mem: map<nat, Page>, a: nat)
    requires FramesIn(ts, mem) && a !in ts
    ensures FramesIn(ts[a := map[]], mem)
    ensures View(ts[a := map[]], mem) == EagerStep(View(ts, mem), Create(a), Done)
  {
    assert TableView(map[], mem) == map[];
  }

  lemma ForkStart(ts: Tables, mem: map<nat, Page>, parent: nat, child: nat)
    requires FramesIn(ts, mem) && parent in ts && child !in ts
    ensures FramesIn(ts[child := map[]], mem)
    ensures Forked(View(ts, mem), View(ts[child := map[]], mem), parent, child, {})
    ensures ts[child := map[]] - {child} == ts
  {
    assert TableView(map[], mem) == map[];
  }

  lemma NextPage(e0: Eager, ts: Tables, mem: map<nat, Page>, parent: nat, child: nat, done: set<nat>, v: nat)
    requires FramesIn(ts, mem) && Forked(e0, View(ts, mem), parent, child, done) && v in e0[parent] && v !in done
    ensures parent != child && parent in ts && child in ts && v in ts[parent] && v !in ts[child]
      && ts[parent][v].frame in mem
  {
    assert View(ts, mem)[parent] == e0[parent] && View(ts, mem)[child].Keys == done;
  }

  lemma ViewKeys(ts: Tables, mem: map<nat, Page>, a: nat)
    requires FramesIn(ts, mem) && a in ts
    ensures a in View(ts, mem) && View(ts, mem)[a].Keys == ts[a].Keys
  {
  }

  lemma ChildPages(e0: Eager, ts: Tables, mem: map<nat, Page>, parent: nat, child: nat, done: set<nat>)
    requires FramesIn(ts, mem) && Forked(e0, View(ts, mem), parent, child, done)
    ensures child !in e0 && child in ts && ts[child].Keys == done
    ensures ts.Keys == e0.Keys + {child} && forall a :: a in e0 ==> View(ts, mem)[a] == e0[a]
  {
    assert View(ts, mem)[child].Keys == ts[child].Keys;
  }

  /** One more page of a fork: shared, counted, and in the child. */
  ghost predicate ForkedOn(e0: Eager, ts: Tables, mem: map<nat, Page>, refs: map<nat, nat>, parent: nat, child: nat,
                           done: set<nat>, v: nat)
    requires parent in ts && child in ts && v in ts[parent] && ts[parent][v].frame in refs
  {
    var f, ts' := ts[parent][v].frame, ForkPage(ts, parent, child, v);
    && Shared(ts', mem, refs[f := refs[f] + 1])
    && Forked(e0, View(ts', mem), parent, child, done + {v})
    && SameFrames(ts - {child}, ts' - {child})
  }

  lemma ForkStep(e0: Eager, ts: Tables, mem: map<nat, Page>, refs: map<nat, nat>, parent: nat, child: nat,
                 done: set<nat>, v: nat)
    requires Shared(ts, mem, refs) && Forked(e0, View(ts, mem), parent, child, done) && parent in e0 && v in e0[parent]
      && v !in done
    ensures parent in ts && child in ts && v in ts[parent] && ts[parent][v].frame in refs
    ensures ForkedOn(e0, ts, mem, refs, parent, child, done, v)
  {
    hide Counted, Exclusive, Mappers, Forked, View, SameFrames;
    NextPage(e0, ts, mem, parent, child, done, v);
    SharedAfterFork(ts, mem, refs, parent, child, v);
    ViewAfterFork(ts, mem, parent, child, v);
    ForkSameFrames(ts, parent, child, v);
    ForkedGrows(e0, View(ts, mem), View(ForkPage(ts, parent, child, v), mem), parent, child, done, v);
  }

  lemma ForkSameFrames(ts: Tables, parent: nat, child: nat, v: nat)
    requires parent in ts && child in ts && parent != child && v in ts[parent]
    ensures SameFrames(ts - {child}, ForkPage(ts, parent, child, v) - {child})
  {
  }

  lemma ForkedGrows(e0: Eager, e: Eager, e': Eager, parent: nat, child: nat, done: set<nat>, v: nat)
    requires Forked(e0, e, parent, child, done) && v in e0[parent] && e'.Keys == e.Keys
    requires e'[child] == e[child][v := e[parent][v]] && forall a :: a in e && a != child ==> e'[a] == e[a]
    ensures Forked(e0, e', parent, child, done + {v})
  {
  }

  lemma SameFramesTransitive(a: Tables, b: Tables, c: Tables)
    requires SameFrames(a, b) && SameFrames(b, c)
    ensures SameFrames(a, c)
  {
  }

  /** Dropping the half-made child leaves what there was before the fork. */
  lemma ForkUndone(e0: Eager, e: Eager, child: nat)
    requires child !in e0 && e.Keys == e0.Keys + {child} && forall a :: a in e0 ==> e[a] == e0[a]
    ensures e - {child} == e0
  {
  }

  lemma ForkEnd(e0: Eager, e: Eager, parent: nat, child: nat)
    requires parent in e0 && Forked(e0, e, parent, child, e0[parent].Keys)
    ensures e == EagerStep(e0, Fork(parent, child), Done)
  {
    assert e[child] == e0[parent];
  }

  lemma RemoveEmptySpace(ts: Tables, mem: map<nat, Page>, refs: map<nat, nat>, a: nat)
    requires Shared(ts, mem, refs) && a in ts && ts[a] == map[]
    ensures Shared(ts - {a}, mem, refs) && View(ts - {a}, mem) == View(ts, mem) - {a}
  {
    hide Counted, Exclusive, Mappers;
    EmptySpace(ts, ts - {a}, mem, refs, a);
  }

  lemma ForkPageReadOnly(ts: Tables, parent: nat, child: nat, v: nat)
    requires parent in ts && child in ts && parent != child && v in ts[parent] && !ts[parent][v].writable
    ensures ForkPage(ts, parent, child, v) == SetPte(ts, child, v, ts[parent][v])
  {
    var ts': Tables := SetPte(ts, child, v, ts[parent][v]);
    var t: Table := ts'[parent][v := ts[parent][v]];
    assert t == ts'[parent];
  }

  /** The end of a failed fork: with the child's pages gone, spaces and reference counts are what they were. */
  lemma ForkCancelled(e0: Eager, ts: Tables, mem: map<nat, Page>, refs: map<nat, nat>, child: nat, ts0: Tables,
                      refs0: map<nat, nat>)
    requires Shared(ts, mem, refs) && child in ts && ts[child] == map[] && child !in e0
    requires ts.Keys == e0.Keys + {child} && forall a :: a in e0 ==> View(ts, mem)[a] == e0[a]
    requires SameFrames(ts0, ts - {child}) && Counted(ts0, refs0) && refs.Keys == refs0.Keys
    ensures Shared(ts - {child}, mem, refs) && View(ts - {child}, mem) == e0 && refs == refs0
  {
    RemoveEmptySpace(ts, mem, refs, child);
    ForkUndone(e0, View(ts, mem), child);
    SameFramesSameRefs(ts0, ts - {child}, refs0, refs);
  }

  // ---------------------------------------------------------------- mapping a fresh page

  lemma CountedAfterMap(ts: Tables, refs: map<nat, nat>, a: nat, v: nat, p: Pte)
    requires Counted(ts, refs) && a in ts && v !in ts[a] && p.frame in refs && refs[p.frame] == 0
    ensures Mappers(ts, p.frame) == {} && Counted(SetPte(ts, a, v, p), refs[p.frame := 1])
  {
    var refs' := refs[p.frame := 1];
    forall h | h in refs' ensures refs'[h] == |Mappers(SetPte(ts, a, v, p), h)| {
      MappersAfterSet(ts, a, v, p, h);
      InMappers(ts, h, a, v);
    }
  }

  lemma ExclusiveAfterMap(ts: Tables, a: nat, v: nat, p: Pte)
    requires Exclusive(ts) && a in ts && v !in ts[a] && Mappers(ts, p.frame) == {} && !p.cow
    ensures Exclusive(SetPte(ts, a, v, p))
  {
    var ts': Tables := SetPte(ts, a, v, p);
    forall b, w | b in ts' && w in ts'[b] && ts'[b][w].writable
      ensures !ts'[b][w].cow && Mappers(ts', ts'[b][w].frame) == {(b, w)}
    {
      MappersAfterSet(ts, a, v, p, ts'[b][w].frame);
      InMappers(ts, ts'[b][w].frame, a, v);
      InMappers(ts, p.frame, b, w);
    }
  }

  lemma SharedAfterMap(ts: Tables, mem: map<nat, Page>, refs: map<nat, nat>, a: nat, v: nat, p: Pte)
    requires Shared(ts, mem, refs) && a in ts && v !in ts[a] && p.frame in refs && refs[p.frame] == 0 && !p.cow
    ensures Shared(SetPte(ts, a, v, p), mem[p.frame := ZeroPage()], refs[p.frame := 1])
    ensures Mappers(ts, p.frame) == {}
  {
    CountedAfterMap(ts, refs, a, v, p);
    ExclusiveAfterMap(ts, a, v, p);
    FramesInAfterSet(ts, mem[p.frame := ZeroPage()], a, v, p);
  }

  lemma ViewAfterMap(ts: Tables, mem: map<nat, Page>, a: nat, v: nat, p: Pte)
    requires FramesIn(ts, mem) && a in ts && p.frame in mem && Mappers(ts, p.frame) == {} && !p.cow
    ensures FramesIn(SetPte(ts, a, v, p), mem[p.frame := ZeroPage()])
    ensures View(SetPte(ts, a, v, p), mem[p.frame := ZeroPage()]) ==
      EagerStep(View(ts, mem), MapZero(a, v, p.writable), Done)
  {
    ViewAfterScratch(ts, mem, p.frame, ZeroPage());
    ViewAfterSet(ts, mem[p.frame := ZeroPage()], a, v, p);
  }
}
