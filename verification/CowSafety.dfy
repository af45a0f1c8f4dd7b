/** Safety of copy-on-write over every interleaving of any number of threads. */
module CowSafety {
  import opened CowTables
  import opened CowThreads
  import opened CowHolders
  import opened CowInterleavings
  import opened CowSteps
  import opened Options

  // ---------------------------------------------------------------- starting, ending and abandoning a fork

  /** Only the program counters of the forking thread and of its child change. */
  ghost predicate ForkEdge(s: State, s': State, a: nat, c: nat) {
    && a in s.pcs && a in s'.pcs && Plain(s.pcs[a]) && Plain(s'.pcs[a]) && a != c
    && s'.ptes == s.ptes && s'.mem == s.mem && s'.refs == s.refs
    && (forall b: nat :: b != a && b != c ==> (b in s.pcs <==> b in s'.pcs) && (b in s.pcs ==> s'.pcs[b] == s.pcs[b]))
    && (c in s.pcs ==> s.pcs[c].Embryo?) && (c in s'.pcs ==> s'.pcs[c].Embryo? || s'.pcs[c].Idle?)
    && ((c !in s.pcs || c !in s'.pcs) ==> forall v: nat :: (c, v) !in s.ptes)
    && Carry(s.pcs[a]).None? && Carry(s'.pcs[a]).None?
  }

  lemma ForkEdgeEntries(s: State, o: Holders, s': State, a: nat, c: nat)
    requires EntriesHold(s, o) && ForkEdge(s, s', a, c)
    ensures EntriesHold(s', o)
  {
    hide Lock, Carry;
  }

  lemma ForkEdgeCarriers(s: State, o: Holders, s': State, a: nat, c: nat)
    requires CarriersHold(s, o) && ForkEdge(s, s', a, c)
    ensures CarriersHold(s', o)
  {
    hide Lock;
  }

  lemma ForkEdgeRules(s: State, o: Holders, s': State, a: nat, c: nat)
    requires RefsCount(s, o) && EntriesHold(s, o) && ForkEdge(s, s', a, c)
    ensures HoldersRule(s, o, s', o, a) && StableRule(s, o, s', o, a) && MemoryRule(s, o, s', a)
  {
    hide Lock, Carry, ChildOf, Touches;
  }

  lemma ForkEdgeWritable(s: State, o: Holders, s': State, a: nat, c: nat)
    requires Inv(s, o) && ForkEdge(s, s', a, c)
    ensures forall b, v :: (b, v) in s'.ptes && s'.ptes[(b, v)].writable ==> WritableOk(s', o, b, v)
  {
    hide PcOk, EntriesHold, CarriersHold, LocksOwned, Stripe, Carry, RefsCount;
    forall b, v | (b, v) in s'.ptes && s'.ptes[(b, v)].writable ensures WritableOk(s', o, b, v) {
      assert WritableOk(s, o, b, v);
      assert Sharers(s', b, v) == Sharers(s, b, v);
    }
  }

  lemma ForkEdgeKeeps(s: State, o: Holders, s': State, a: nat, c: nat)
    requires Inv(s, o) && ForkEdge(s, s', a, c) && Elsewhere(s, s', a) && LocksOwned(s')
    requires forall b :: b in s'.pcs && Mine(s, s', a, b) ==> PcOk(s', o, b)
    ensures Inv(s', o)
  {
    hide PcOk, EntriesHold, CarriersHold, LocksOwned, PointsOk, WritableOk, Elsewhere, HoldersRule, StableRule,
      MemoryRule;
    ForkEdgeEntries(s, o, s', a, c);
    ForkEdgeCarriers(s, o, s', a, c);
    ForkEdgeRules(s, o, s', a, c);
    ForkEdgeWritable(s, o, s', a, c);
    assert RefsCount(s', o);
    Assemble(s, o, s', o, a);
  }

  lemma StartForkEdge(s: State, o: Holders, a: nat, c: nat, s': State)
    requires Inv(s, o) && a in s.pcs && OnStartFork(s, a, c) == Some(s')
    ensures ForkEdge(s, s', a, c) && Elsewhere(s, s', a) && LocksOwned(s')
  {
    hide WritableOk, RefsCount, CarriersHold, PcOk, PointsOk, PagesOf;
    assert forall v: nat :: (c, v) !in s.ptes;
    hide EntriesHold;
  }

  lemma StartForkPoints(s: State, o: Holders, a: nat, c: nat, s': State)
    requires Inv(s, o) && a in s.pcs && OnStartFork(s, a, c) == Some(s')
    ensures forall b :: b in s'.pcs && Mine(s, s', a, b) ==> PcOk(s', o, b)
  {
    hide Stripe, WritableOk, RefsCount, CarriersHold, LocksOwned;
    assert PcOk(s, o, a);
  }

  lemma StartForkKeeps(s: State, o: Holders, a: nat, c: nat, s': State)
    requires Inv(s, o) && a in s.pcs && OnStartFork(s, a, c) == Some(s')
    ensures Inv(s', o)
  {
    hide OnStartFork, Inv, ForkEdge, Elsewhere, LocksOwned, PcOk, Mine;
    StartForkEdge(s, o, a, c, s');
    StartForkPoints(s, o, a, c, s');
    ForkEdgeKeeps(s, o, s', a, c);
  }

  lemma EndForkEdge(s: State, o: Holders, a: nat, s': State)
    requires Inv(s, o) && a in s.pcs && OnEndFork(s, a) == Some(s')
    ensures ForkEdge(s, s', a, s.pcs[a].child) && Elsewhere(s, s', a) && LocksOwned(s')
  {
    hide Stripe, WritableOk, RefsCount, CarriersHold;
    assert PcOk(s, o, a);
    hide PcOk;
  }

  lemma EndForkPoints(s: State, o: Holders, a: nat, s': State)
    requires Inv(s, o) && a in s.pcs && OnEndFork(s, a) == Some(s')
    ensures forall b :: b in s'.pcs && Mine(s, s', a, b) ==> PcOk(s', o, b)
  {
    hide Stripe, WritableOk, RefsCount, CarriersHold, LocksOwned;
    assert PcOk(s, o, a);
  }

  lemma EndForkKeeps(s: State, o: Holders, a: nat, s': State)
    requires Inv(s, o) && a in s.pcs && OnEndFork(s, a) == Some(s')
    ensures Inv(s', o)
  {
    hide Inv, ForkEdge, Elsewhere, LocksOwned, PcOk, Mine;
    EndForkEdge(s, o, a, s');
    EndForkPoints(s, o, a, s');
    ForkEdgeKeeps(s, o, s', a, s.pcs[a].child);
  }

  lemma AbortEdge(s: State, o: Holders, a: nat, s': State)
    requires Inv(s, o) && a in s.pcs && OnAbort(s, a) == Some(s')
    ensures ForkEdge(s, s', a, s.pcs[a].child) && Elsewhere(s, s', a) && LocksOwned(s')
  {
    hide Stripe, CarriersHold;
    assert PcOk(s, o, a);
    hide PcOk;
    forall v: nat ensures (s.pcs[a].child, v) !in s.ptes {
      var k: Key := (s.pcs[a].child, v);
      assert k.0 == s.pcs[a].child;
    }
  }

  lemma AbortPoints(s: State, o: Holders, a: nat, s': State)
    requires Inv(s, o) && a in s.pcs && OnAbort(s, a) == Some(s')
    ensures forall b :: b in s'.pcs && Mine(s, s', a, b) ==> PcOk(s', o, b)
  {
    hide Stripe, WritableOk, RefsCount, CarriersHold, LocksOwned;
    assert PcOk(s, o, a);
  }

  lemma AbortKeeps(s: State, o: Holders, a: nat, s': State)
    requires Inv(s, o) && a in s.pcs && OnAbort(s, a) == Some(s')
    ensures Inv(s', o)
  {
    hide Inv, ForkEdge, Elsewhere, LocksOwned, PcOk, Mine;
    AbortEdge(s, o, a, s');
    AbortPoints(s, o, a, s');
    ForkEdgeKeeps(s, o, s', a, s.pcs[a].child);
  }

  // ---------------------------------------------------------------- every step

  lemma StepKeeps(s: State, o: Holders, a: nat, t: Step, s': State) returns (o': Holders)
    requires Inv(s, o) && Take(s, a, t) == Some(s')
    ensures Inv(s', o')
  {
    hide Inv;
    o' := o;
    match t
    case StartCow(v) => StartCowKeeps(s, o, a, v, s');
    case LockCow => LockCowKeeps(s, o, a, s');
    case Reread => RereadKeeps(s, o, a, s');
    case TestRefs => TestRefsKeeps(s, o, a, s');
    case Upgrade => o' := UpgradeKeeps(s, o, a, s');
    case Allocate(g) => o' := AllocateKeeps(s, o, a, g, s');
    case NoMemory => NoMemoryKeeps(s, o, a, s');
    case Copy => o' := CopyKeeps(s, o, a, s');
    case Drop => o' := DropKeeps(s, o, a, s');
    case WriteCopy => o' := WriteCopyKeeps(s, o, a, s');
    case StoreByte(v, off, b) => o' := StoreByteKeeps(s, o, a, v, off, b, s');
    case MapFresh(v, g, w) => o' := MapFreshKeeps(s, o, a, v, g, w, s');
    case Clear(v) => o' := ClearKeeps(s, o, a, v, s');
    case LockUnmap => LockUnmapKeeps(s, o, a, s');
    case FreeUnmapped => o' := FreeUnmappedKeeps(s, o, a, s');
    case StartFork(c) => StartForkKeeps(s, o, a, c, s');
    case ReadPage(v) => ReadPageKeeps(s, o, a, v, s');
    case LockPage => LockPageKeeps(s, o, a, s');
    case CountPage => o' := CountPageKeeps(s, o, a, s');
    case MapPage => o' := MapPageKeeps(s, o, a, s');
    case Protect => o' := ProtectKeeps(s, o, a, s');
    case EndFork => EndForkKeeps(s, o, a, s');
    case MapFails => o' := MapFailsKeeps(s, o, a, s');
    case ClearChild(v) => o' := ClearChildKeeps(s, o, a, v, s');
    case FreeChild => o' := FreeChildKeeps(s, o, a, s');
    case Abort => AbortKeeps(s, o, a, s');
  }

  ghost predicate WritableUnlocked(s: State, a: nat, v: nat) {
    (a, v) in s.ptes && s.ptes[(a, v)].writable && Stripe(s.ptes[(a, v)].frame) !in s.locks
  }

  /** A mapped frame is never in the allocator; and while its lock is free, a writable entry is its only mapping. */
  ghost predicate Safe(s: State) {
    && (forall a, v :: (a, v) in s.ptes ==> s.ptes[(a, v)].frame in s.refs && s.refs[s.ptes[(a, v)].frame] > 0)
    && (forall a, v, b, w :: WritableUnlocked(s, a, v) && Maps(s, b, w, s.ptes[(a, v)].frame) ==> b == a && w == v)
  }

  lemma InvIsSafe(s: State, o: Holders)
    requires Inv(s, o)
    ensures Safe(s)
  {
    forall a, v | (a, v) in s.ptes ensures s.ptes[(a, v)].frame in s.refs && s.refs[s.ptes[(a, v)].frame] > 0 {
      MappedFrameIsHeld(s, o, a, v);
    }
    forall a, v, b, w | WritableUnlocked(s, a, v) && Maps(s, b, w, s.ptes[(a, v)].frame) ensures b == a && w == v
    {
      assert WritableOk(s, o, a, v) && PcOk(s, o, a);
    }
  }

  lemma InitIsInv(s: State)
    requires Init(s)
    ensures Inv(s, map f | f in s.refs :: {})
  {
  }

  /** Any run of any number of threads, step by step and in any order, is safe throughout. */
  lemma {:induction false} RunIsSafe(states: seq<State>, who: seq<nat>, steps: seq<Step>, n: nat) returns (o: Holders)
    requires Run(states, who, steps) && n < |states|
    ensures Inv(states[n], o) && Safe(states[n])
  {
    hide Inv, Safe;
    if n == 0 {
      o := map f | f in states[0].refs :: {};
      InitIsInv(states[0]);
    } else {
      var o0 := RunIsSafe(states, who, steps, n - 1);
      assert Take(states[n - 1], who[n - 1], steps[n - 1]) == Some(states[n]);
      o := StepKeeps(states[n - 1], o0, who[n - 1], steps[n - 1], states[n]);
    }
    InvIsSafe(states[n], o);
  }

  // ---------------------------------------------------------------- what a page reads

  ghost function Reads(s: State, b: nat, w: nat): Option<Page> {
    if (b, w) in s.ptes && s.ptes[(b, w)].frame in s.mem then Some(s.mem[s.ptes[(b, w)].frame]) else None
  }

  /** A store changes the page it names and no other; every other step leaves every mapped page's bytes alone. */
  lemma StepReads(s: State, o: Holders, a: nat, t: Step, s': State, b: nat, w: nat)
    requires Inv(s, o) && Take(s, a, t) == Some(s') && (b, w) in s.ptes && (b, w) in s'.ptes
    ensures Reads(s, b, w).Some?
    ensures Reads(s', b, w) == if t.StoreByte? && (b, w) == (a, t.v) && t.off < |Reads(s, b, w).value|
                               then Some(Reads(s, b, w).value[t.off := t.b]) else Reads(s, b, w)
  {
    hide PcOk, WritableOk, LocksOwned, CarriersHold;
    assert Maps(s, b, w, s.ptes[(b, w)].frame);
    if t.StoreByte? {
      StoreReads(s, o, a, t.v, t.off, t.b, s', b, w);
    } else if t.MapFresh? {
      FreeIsUnmapped(s, o, t.g);
    } else if t.Copy? {
      CopyReads(s, o, a, s', b, w);
    } else if t.WriteCopy? || t.Upgrade? || t.MapPage? || t.Protect? {
      EntryReads(s, o, a, t, s', b, w);
    }
  }

  lemma StoreReads(s: State, o: Holders, a: nat, v: nat, off: nat, byte: bv8, s': State, b: nat, w: nat)
    requires Inv(s, o) && a in s.pcs && OnStoreByte(s, a, v, off, byte) == Some(s') && (b, w) in s.ptes
    ensures Reads(s, b, w).Some? && Reads(s, a, v).Some? && off < |Reads(s, a, v).value|
    ensures Reads(s', b, w) == if (b, w) == (a, v) then Some(Reads(s, b, w).value[off := byte]) else Reads(s, b, w)
  {
    hide PcOk, LocksOwned, CarriersHold;
    assert WritableOk(s, o, a, v);
    assert Maps(s, b, w, s.ptes[(b, w)].frame);
  }

  /** The copy goes to a frame nobody maps. */
  lemma CopyReads(s: State, o: Holders, a: nat, s': State, b: nat, w: nat)
    requires Inv(s, o) && Take(s, a, Copy) == Some(s') && (b, w) in s.ptes
    ensures (b, w) in s'.ptes && Reads(s', b, w) == Reads(s, b, w) && Reads(s, b, w).Some?
  {
    hide LocksOwned, CarriersHold, WritableOk, OtherHolder, Stripe, Taken;
    assert PcOk(s, o, a);
    assert RefsCount(s, o) && EntriesHold(s, o);
  }

  /** Rewriting an entry leaves the bytes it shows. */
  lemma EntryReads(s: State, o: Holders, a: nat, t: Step, s': State, b: nat, w: nat)
    requires Inv(s, o) && Take(s, a, t) == Some(s') && (b, w) in s.ptes
    requires t.WriteCopy? || t.Upgrade? || t.MapPage? || t.Protect?
    ensures (b, w) in s'.ptes && Reads(s', b, w) == Reads(s, b, w) && Reads(s, b, w).Some?
  {
    hide CarriersHold, OtherHolder, Stripe, Taken;
    assert PcOk(s, o, a);
    assert RefsCount(s, o) && EntriesHold(s, o);
  }

  /** The child of a finished fork has its parent's pages, frame for frame, all of them read-only in the child. */
  lemma ForkCopies(s: State, o: Holders, a: nat, s': State, v: nat)
    requires Inv(s, o) && Take(s, a, EndFork) == Some(s')
    ensures var c := s.pcs[a].child;
      && ((c, v) in s'.ptes <==> (a, v) in s'.ptes) && Reads(s', c, v) == Reads(s', a, v)
      && ((c, v) in s'.ptes ==> !s'.ptes[(c, v)].writable && s'.ptes[(a, v)].frame == s'.ptes[(c, v)].frame)
  {
    assert PcOk(s, o, a);
  }

  lemma CarriedIsHeld(s: State, o: Holders, a: nat)
    requires Inv(s, o) && a in s.pcs && Carry(s.pcs[a]).Some?
    ensures Carry(s.pcs[a]).value in s.refs && s.refs[Carry(s.pcs[a]).value] > 0
  {
    hide LocksOwned, WritableOk, EntriesHold, PcOk, Carry;
    assert InFlight(a) in o[Carry(s.pcs[a]).value];
  }

  /** No step is ever held up by a missing frame or by a count that would go below zero. */
  lemma CountsNeverUnderflow(s: State, o: Holders, a: nat)
    requires Inv(s, o) && a in s.pcs
    ensures s.pcs[a].CowChecked? ==> OnTestRefs(s, a).Some?
    ensures s.pcs[a].CowAllocated? ==> OnCopy(s, a).Some?
    ensures s.pcs[a].CowCopied? ==> OnDrop(s, a).Some?
    ensures s.pcs[a].UnmapLocked? ==> OnFreeUnmapped(s, a).Some?
    ensures s.pcs[a].ForkLocked? ==> OnCountPage(s, a).Some?
    ensures s.pcs[a].ForkCounted? ==> OnMapFails(s, a).Some?
    ensures s.pcs[a].ForkUndoFree? ==> OnFreeChild(s, a).Some?
  {
    hide LocksOwned, WritableOk, Stripe, EntriesHold, CarriersHold;
    var pc := s.pcs[a];
    assert PcOk(s, o, a);
    hide PcOk, PointsOk, OtherHolder, ChildOk, Covers;
    if pc.CowChecked? || pc.CowAllocated? || pc.CowCopied? || pc.ForkLocked? { MappedFrameIsHeld(s, o, a, pc.v); }
    if Carry(pc).Some? { CarriedIsHeld(s, o, a); }
  }

  // ---------------------------------------------------------------- why the lock is needed

  const OWN: Pte := Pte(0, true, false, 0)
  const SHARED: Pte := Pte(0, false, true, 0)

  /** A machine with two frames, the first with the given number of references. */
  function Small(ptes: map<Key, Pte>, refs: nat, locks: map<nat, nat>, pcs: map<nat, Pc>): State {
    State(ptes, map[0 := refs, 1 := 0], map[0 := ZeroPage(), 1 := ZeroPage()], locks, pcs)
  }

  /** Two spaces shared frame 0: space 1 holds its lock and has found it shared, space 2 has just unmapped it. */
  function Contended(): State {
    Small(map[(1, 0) := SHARED], 2, map[Stripe(0) := 1], map[1 := CowShared(0, SHARED), 2 := UnmapCleared(0)])
  }

  /** How the machine gets there: space 1 maps a page and forks space 2, then stores to the page while space 2 unmaps
      it. */
  function Moment(i: nat): State {
    var one: map<Key, Pte> := map[(1, 0) := OWN];
    var two: map<Key, Pte> := map[(1, 0) := SHARED, (2, 0) := SHARED];
    var lock := map[Stripe(0) := 1];
    match i
    case 0 => Small(map[], 0, map[], map[1 := Idle])
    case 1 => Small(one, 1, map[], map[1 := Idle])
    case 2 => Small(one, 1, map[], map[1 := ForkNext(2, {0}), 2 := Embryo(1)])
    case 3 => Small(one, 1, map[], map[1 := ForkRead(2, {}, 0, OWN), 2 := Embryo(1)])
    case 4 => Small(one, 1, lock, map[1 := ForkLocked(2, {}, 0, OWN), 2 := Embryo(1)])
    case 5 => Small(one, 2, lock, map[1 := ForkCounted(2, {}, 0, OWN), 2 := Embryo(1)])
    case 6 => Small(one[(2, 0) := SHARED], 2, lock, map[1 := ForkMapped(2, {}, 0, OWN), 2 := Embryo(1)])
    case 7 => Small(two, 2, map[], map[1 := ForkNext(2, {}), 2 := Embryo(1)])
    case 8 => Small(two, 2, map[], map[1 := Idle, 2 := Idle])
    case 9 => Small(two, 2, map[], map[1 := CowRead(0, 0), 2 := Idle])
    case 10 => Small(two, 2, lock, map[1 := CowLocked(0, 0), 2 := Idle])
    case 11 => Small(two, 2, lock, map[1 := CowChecked(0, SHARED), 2 := Idle])
    case 12 => Small(two, 2, lock, map[1 := CowShared(0, SHARED), 2 := Idle])
    case _ => Contended()
  }

  function Action(i: nat): Step {
    match i
    case 0 => MapFresh(0, 0, true)
    case 1 => StartFork(2)
    case 2 => ReadPage(0)
    case 3 => LockPage
    case 4 => CountPage
    case 5 => MapPage
    case 6 => Protect
    case 7 => EndFork
    case 8 => StartCow(0)
    case 9 => LockCow
    case 10 => Reread
    case 11 => TestRefs
    case _ => Clear(0)
  }

  lemma SameState(s: State, t: State)
    requires s.ptes == t.ptes && s.refs == t.refs && s.mem == t.mem && s.locks == t.locks && s.pcs == t.pcs
    ensures s == t
  {
  }

  lemma MapsFresh()
    ensures Take(Moment(0), 1, Action(0)) == Some(Moment(1))
  {
    hide Stripe;
    SameState(Take(Moment(0), 1, Action(0)).value, Moment(1));
  }

  lemma StartsFork()
    ensures Take(Moment(1), 1, Action(1)) == Some(Moment(2))
  {
    hide Stripe;
    assert PagesOf(Moment(1), 1) == {0} by { assert (1, 0) in Moment(1).ptes; }
    SameState(Take(Moment(1), 1, Action(1)).value, Moment(2));
  }

  lemma ReadsPage()
    ensures Take(Moment(2), 1, Action(2)) == Some(Moment(3))
  {
    hide Stripe;
    assert {0 as nat} - {0} == {};
    SameState(Take(Moment(2), 1, Action(2)).value, Moment(3));
  }

  lemma LocksPage()
    ensures Take(Moment(3), 1, Action(3)) == Some(Moment(4))
  {
    hide Stripe;
    SameState(Take(Moment(3), 1, Action(3)).value, Moment(4));
  }

  lemma CountsPage()
    ensures Take(Moment(4), 1, Action(4)) == Some(Moment(5))
  {
    hide Stripe;
    SameState(Take(Moment(4), 1, Action(4)).value, Moment(5));
  }

  lemma MapsChild()
    ensures Take(Moment(5), 1, Action(5)) == Some(Moment(6))
  {
    hide Stripe;
    SameState(Take(Moment(5), 1, Action(5)).value, Moment(6));
  }

  lemma ProtectsPage()
    ensures Take(Moment(6), 1, Action(6)) == Some(Moment(7))
  {
    hide Stripe;
    SameState(Take(Moment(6), 1, Action(6)).value, Moment(7));
  }

  lemma EndsFork()
    ensures Take(Moment(7), 1, Action(7)) == Some(Moment(8))
  {
    hide Stripe;
    SameState(Take(Moment(7), 1, Action(7)).value, Moment(8));
  }

  lemma StartsCow()
    ensures Take(Moment(8), 1, Action(8)) == Some(Moment(9))
  {
    hide Stripe;
    SameState(Take(Moment(8), 1, Action(8)).value, Moment(9));
  }

  lemma LocksCow()
    ensures Take(Moment(9), 1, Action(9)) == Some(Moment(10))
  {
    hide Stripe;
    SameState(Take(Moment(9), 1, Action(9)).value, Moment(10));
  }

  lemma Rereads()
    ensures Take(Moment(10), 1, Action(10)) == Some(Moment(11))
  {
    hide Stripe;
    SameState(Take(Moment(10), 1, Action(10)).value, Moment(11));
  }

  lemma FindsShared()
    ensures Take(Moment(11), 1, Action(11)) == Some(Moment(12))
  {
    hide Stripe;
    SameState(Take(Moment(11), 1, Action(11)).value, Moment(12));
  }

  lemma OtherUnmaps()
    ensures Take(Moment(12), 2, Action(12)) == Some(Moment(13))
  {
    hide Stripe;
    SameState(Take(Moment(12), 2, Action(12)).value, Moment(13));
  }

  /** The contended state is reached from the initial state by steps the lock allows. */
  lemma ReachesContended() returns (states: seq<State>, who: seq<nat>, steps: seq<Step>)
    ensures Run(states, who, steps) && states[|steps|] == Contended()
  {
    states := seq(14, i requires 0 <= i => Moment(i));
    who, steps := seq(13, i => if i == 12 then 2 else 1), seq(13, i requires 0 <= i => Action(i));
    assert Init(states[0]) && states[13] == Contended();
    hide Stripe, Take, Moment, Action;
    forall i | 0 <= i < 13 ensures Take(states[i], who[i], steps[i]) == Some(states[i + 1]) {
      match i
      case 0 => MapsFresh();
      case 1 => StartsFork();
      case 2 => ReadsPage();
      case 3 => LocksPage();
      case 4 => CountsPage();
      case 5 => MapsChild();
      case 6 => ProtectsPage();
      case 7 => EndsFork();
      case 8 => StartsCow();
      case 9 => LocksCow();
      case 10 => Rereads();
      case 11 => FindsShared();
      case _ => OtherUnmaps();
    }
  }

  function CopierDrops(s: State, a: nat, g: nat): Option<State> {
    if a !in s.pcs then None else
      var s1 := OnAllocate(s, a, g);
      if s1.None? || a !in s1.value.pcs then None else
        var s2 := OnCopy(s1.value, a);
        if s2.None? || a !in s2.value.pcs then None else OnDrop(s2.value, a)
  }

  lemma ContendedIsUnsafe()
    ensures 2 in Contended().pcs && OnFreeUnlocked(Contended(), 2).Some?
    ensures var freed := OnFreeUnlocked(Contended(), 2).value;
            CopierDrops(freed, 1, 1).Some? && !Safe(CopierDrops(freed, 1, 1).value)
  {
    hide Stripe;
    var s' := CopierDrops(OnFreeUnlocked(Contended(), 2).value, 1, 1).value;
    assert (1, 0) in s'.ptes && s'.ptes[(1, 0)].frame == 0 && s'.refs[0] == 0;
  }

  /** The lock is needed: at the end of a run from the initial state, if space 2 frees frame 0 without the lock, space 1
      goes on to give back the last reference, and the frame is in the allocator while space 1 still maps it. */
  lemma UnlockedFreeIsUnsafe() returns (states: seq<State>, who: seq<nat>, steps: seq<Step>)
    ensures Run(states, who, steps)
    ensures var s := states[|steps|]; Safe(s) && 2 in s.pcs && OnFreeUnlocked(s, 2).Some?
    ensures var freed := OnFreeUnlocked(states[|steps|], 2).value;
            CopierDrops(freed, 1, 1).Some? && !Safe(CopierDrops(freed, 1, 1).value)
  {
    hide Contended, Safe, CopierDrops, OnFreeUnlocked, Take, Init, Inv;
    states, who, steps := ReachesContended();
    var o := RunIsSafe(states, who, steps, |steps|);
    ContendedIsUnsafe();
  }
}
