/** Every step of every thread keeps the holders in order, so every interleaving is safe. */
module CowInterleavings {
  import opened CowThreads
  import opened CowHolders
  import opened Options

  // ---------------------------------------------------------------- assembling the invariant after a step

  lemma Assemble(s: State, o: Holders, s': State, o': Holders, a: nat)
    requires Inv(s, o) && Elsewhere(s, s', a)
    requires HoldersRule(s, o, s', o', a) && StableRule(s, o, s', o', a) && MemoryRule(s, o, s', a)
    requires RefsCount(s', o') && EntriesHold(s', o') && CarriersHold(s', o') && LocksOwned(s')
    requires forall b :: b in s'.pcs && Mine(s, s', a, b) ==> PcOk(s', o', b)
    requires forall b, v :: (b, v) in s'.ptes && Mine(s, s', a, b) && s'.ptes[(b, v)].writable ==>
      WritableOk(s', o', b, v)
    ensures Inv(s', o')
  {
    forall b | b in s'.pcs ensures PcOk(s', o', b) {
      if !Mine(s, s', a, b) { OthersKeep(s, o, s', o', a, b); }
    }
    hide PcOk, HoldersRule, StableRule, MemoryRule, RefsCount, EntriesHold, CarriersHold, LocksOwned;
    forall b, v | (b, v) in s'.ptes && s'.ptes[(b, v)].writable ensures WritableOk(s', o', b, v) {
      if !Mine(s, s', a, b) { OthersWritable(s, o, s', o', a, b, v); }
    }
  }

  lemma LocksAfterMove(s: State, s': State, a: nat, pc: Pc)
    requires LocksOwned(s) && a in s.pcs && s'.pcs == s.pcs[a := pc] && s'.locks == s.locks
    requires Lock(pc) == Lock(s.pcs[a]) || Lock(pc).None?
    ensures LocksOwned(s')
  {
  }

  lemma LocksAfterTake(s: State, s': State, a: nat, pc: Pc, f: nat)
    requires LocksOwned(s) && a in s.pcs && s'.pcs == s.pcs[a := pc] && Lock(pc) == Some(f) && Lock(s.pcs[a]).None?
    requires Stripe(f) !in s.locks && s'.locks == s.locks[Stripe(f) := a]
    ensures LocksOwned(s')
  {
  }

  lemma LocksAfterRelease(s: State, s': State, a: nat, pc: Pc, f: nat)
    requires LocksOwned(s) && a in s.pcs && s'.pcs == s.pcs[a := pc] && Lock(pc).None? && Lock(s.pcs[a]) == Some(f)
    requires s'.locks == s.locks - {Stripe(f)}
    ensures LocksOwned(s')
  {
  }

  // ---------------------------------------------------------------- steps that move one program counter

  /** The others' holders are the same before and after. */
  ghost predicate SameCarriers(o: Holders, o': Holders, a: nat) {
    o.Keys == o'.Keys && forall f: nat, b: nat :: f in o && b != a ==> (InFlight(b) in o'[f] <==> InFlight(b) in o[f])
  }

  ghost predicate OwnCarrier(o': Holders, a: nat, pc: Pc) {
    (Carry(pc).Some? ==> Carry(pc).value in o') && forall f :: f in o' ==>
      (InFlight(a) in o'[f] <==> Carry(pc) == Some(f))
  }

  lemma CarriersAfter(s: State, o: Holders, s': State, o': Holders, a: nat, pc: Pc)
    requires CarriersHold(s, o) && a in s.pcs && s'.pcs == s.pcs[a := pc] && SameCarriers(o, o', a)
      && OwnCarrier(o', a, pc)
    ensures CarriersHold(s', o')
  {
    hide Carry;
  }

  lemma OwnCarrierKept(s: State, o: Holders, a: nat, pc: Pc)
    requires CarriersHold(s, o) && a in s.pcs && Carry(pc) == Carry(s.pcs[a])
    ensures SameCarriers(o, o, a) && OwnCarrier(o, a, pc)
  {
    hide Carry;
  }

  lemma ElsewhereAfter(s: State, s': State, a: nat, pc: Pc)
    requires a in s.pcs && !s.pcs[a].Embryo? && s'.pcs == s.pcs[a := pc] && ChildOf(pc) == ChildOf(s.pcs[a])
    requires forall k: Key ::
      Mine(s, s', a, k.0) || ((k in s.ptes <==> k in s'.ptes) && (k in s.ptes ==> s'.ptes[k] == s.ptes[k]))
    ensures Elsewhere(s, s', a)
  {
    hide ChildOf;
  }

  lemma ChildAfter(s: State, o: Holders, s': State, o': Holders, a: nat, pc: Pc)
    requires PointsOk(s, o) && a in s.pcs && !s.pcs[a].Embryo? && s'.pcs == s.pcs[a := pc]
    requires ChildOf(pc) == ChildOf(s.pcs[a]) && PcOk(s', o', a)
    ensures forall b :: b in s'.pcs && Mine(s, s', a, b) ==> PcOk(s', o', b)
  {
    if ChildOf(pc).Some? { ChildFacts(s, o, a); }
  }

  /** Points between which only the program counter and the locks change. */
  predicate Plain(pc: Pc) {
    !pc.Embryo? && !pc.CowDropped? && !pc.ForkCounted? && !pc.ForkMapped? && !pc.ForkUndoFree?
  }

  lemma QuietRules(s: State, o: Holders, s': State, a: nat, pc: Pc)
    requires Inv(s, o) && a in s.pcs && Plain(s.pcs[a]) && Plain(pc)
    requires s'.ptes == s.ptes && s'.mem == s.mem && s'.pcs == s.pcs[a := pc]
    ensures HoldersRule(s, o, s', o, a) && StableRule(s, o, s', o, a) && MemoryRule(s, o, s', a) && EntriesHold(s', o)
  {
    hide Lock, Carry, ChildOf, PcOk, WritableOk, LocksOwned, CarriersHold;
  }

  lemma QuietStep(s: State, o: Holders, s': State, a: nat, pc: Pc)
    requires Inv(s, o) && a in s.pcs && Plain(s.pcs[a]) && Plain(pc)
    requires s'.ptes == s.ptes && s'.refs == s.refs && s'.mem == s.mem && s'.pcs == s.pcs[a := pc] && LocksOwned(s')
    requires Carry(pc) == Carry(s.pcs[a]) && ChildOf(pc) == ChildOf(s.pcs[a])
    requires PcOk(s', o, a)
    ensures Inv(s', o)
  {
    hide Lock, Carry, ChildOf, PcOk, WritableOk, LocksOwned, CarriersHold, EntriesHold, HoldersRule, StableRule,
      MemoryRule, PointsOk,
         OwnCarrier, SameCarriers;
    ElsewhereAfter(s, s', a, pc);
    OwnCarrierKept(s, o, a, pc);
    CarriersAfter(s, o, s', o, a, pc);
    QuietRules(s, o, s', a, pc);
    ChildAfter(s, o, s', o, a, pc);
    QuietWritable(s, o, s', a, pc);
    hide Elsewhere;
    Assemble(s, o, s', o, a);
  }

  lemma QuietWritable(s: State, o: Holders, s': State, a: nat, pc: Pc)
    requires Inv(s, o) && a in s.pcs && Plain(s.pcs[a]) && Plain(pc)
    requires s'.ptes == s.ptes && s'.pcs == s.pcs[a := pc]
    ensures forall b, v :: (b, v) in s'.ptes && s'.ptes[(b, v)].writable ==> WritableOk(s', o, b, v)
  {
    forall b, v | (b, v) in s'.ptes && s'.ptes[(b, v)].writable ensures WritableOk(s', o, b, v) {
      assert Sharers(s', b, v) == Sharers(s, b, v);
      assert WritableOk(s, o, b, v);
    }
  }

  // ---------------------------------------------------------------- the quiet steps

  lemma {:induction false} SubsetCard(x: set<Holder>, y: set<Holder>)
    requires x <= y
    ensures |x| <= |y|
  {
    assert y == x + (y - x);
  }

  /** A count above one means a second holder that cannot go away without the lock. */
  lemma SharedHasOther(s: State, o: Holders, a: nat, v: nat)
    requires Inv(s, o) && (a, v) in s.ptes && a in s.pcs && s.pcs[a].CowChecked?
    requires s.refs[s.ptes[(a, v)].frame] > 1
    ensures OtherHolder(s, o, s.ptes[(a, v)].frame, a, v)
  {
    var f := s.ptes[(a, v)].frame;
    hide WritableOk, LocksOwned;
    assert o[f] <= {Mapped(a, v)} ==> |o[f]| <= |{Mapped(a, v)}| by {
      if o[f] <= {Mapped(a, v)} { SubsetCard(o[f], {Mapped(a, v)}); }
    }
    var h :| h in o[f] && h != Mapped(a, v);
    if Unstable(s, h) {
      var h' := StableTwin(s, o, f, h);
      assert h' != Mapped(a, v);
    }
  }

  /** Whoever may leave without the lock maps a page of a forking parent, and the parent maps it too. */
  lemma StableTwin(s: State, o: Holders, f: nat, h: Holder) returns (h': Holder)
    requires Inv(s, o) && f in o && h in o[f] && Unstable(s, h)
    ensures h' in o[f] && h'.Mapped? && !Unstable(s, h') && h'.a in s.pcs && ChildOf(s.pcs[h'.a]).Some?
  {
    hide WritableOk, LocksOwned, RefsCount;
    if h.Mapped? {
      var p := s.pcs[h.a].parent;
      assert PcOk(s, o, h.a);
      assert Maps(s, h.a, h.v, f);
      assert PcOk(s, o, p);
      ChildFacts(s, o, p);
      h' := Mapped(p, h.v);
      assert Maps(s, p, h.v, f) && !Dropped(s, p, h.v);
    } else {
      assert PcOk(s, o, h.a);
      var v :| Maps(s, h.a, v, f);
      h' := Mapped(h.a, v);
      assert !Dropped(s, h.a, v);
    }
  }

  lemma ExclusiveIsOnly(s: State, o: Holders, a: nat, v: nat)
    requires Inv(s, o) && (a, v) in s.ptes && a in s.pcs && s.pcs[a].CowChecked?
    requires s.refs[s.ptes[(a, v)].frame] <= 1
    ensures o[s.ptes[(a, v)].frame] == {Mapped(a, v)}
  {
    hide PcOk, WritableOk, LocksOwned;
    var f := s.ptes[(a, v)].frame;
    assert Maps(s, a, v, f) && Mapped(a, v) in o[f];
    assert |o[f] - {Mapped(a, v)}| == 0;
  }

  lemma StartCowKeeps(s: State, o: Holders, a: nat, v: nat, s': State)
    requires Inv(s, o) && a in s.pcs && OnStartCow(s, a, v) == Some(s')
    ensures Inv(s', o)
  {
    LocksAfterMove(s, s', a, s'.pcs[a]);
    hide LocksOwned, EntriesHold, CarriersHold, RefsCount, PointsOk, WritableOk, Stripe;
    QuietStep(s, o, s', a, s'.pcs[a]);
  }

  lemma LockCowKeeps(s: State, o: Holders, a: nat, s': State)
    requires Inv(s, o) && a in s.pcs && OnLockCow(s, a) == Some(s')
    ensures Inv(s', o)
  {
    assert PcOk(s, o, a);
    LocksAfterTake(s, s', a, s'.pcs[a], s.pcs[a].f);
    hide LocksOwned, EntriesHold, CarriersHold, RefsCount, PointsOk, WritableOk, Stripe;
    QuietStep(s, o, s', a, s'.pcs[a]);
  }

  lemma RereadKeeps(s: State, o: Holders, a: nat, s': State)
    requires Inv(s, o) && a in s.pcs && OnReread(s, a) == Some(s')
    ensures Inv(s', o)
  {
    assert PcOk(s, o, a);
    LocksAfterMove(s, s', a, s'.pcs[a]);
    hide LocksOwned, EntriesHold, CarriersHold, RefsCount, PointsOk, WritableOk, Stripe;
    QuietStep(s, o, s', a, s'.pcs[a]);
  }

  lemma TestRefsKeeps(s: State, o: Holders, a: nat, s': State)
    requires Inv(s, o) && a in s.pcs && OnTestRefs(s, a) == Some(s')
    ensures Inv(s', o)
  {
    assert PcOk(s, o, a);
    LocksAfterMove(s, s', a, s'.pcs[a]);
    hide LocksOwned, EntriesHold, CarriersHold, PointsOk, WritableOk, Stripe;
    var f, v := s.pcs[a].e.frame, s.pcs[a].v;
    if s.refs[f] <= 1 {
      ExclusiveIsOnly(s, o, a, v);
    } else {
      SharedHasOther(s, o, a, v);
      var h :| h in o[f] && h != Mapped(a, v) && !Unstable(s, h);
      assert !Unstable(s', h);
    }
    QuietStep(s, o, s', a, s'.pcs[a]);
  }

  lemma NoMemoryKeeps(s: State, o: Holders, a: nat, s': State)
    requires Inv(s, o) && a in s.pcs && OnNoMemory(s, a) == Some(s')
    ensures Inv(s', o)
  {
    LocksAfterRelease(s, s', a, s'.pcs[a], s.pcs[a].e.frame);
    hide LocksOwned, EntriesHold, CarriersHold, RefsCount, PointsOk, WritableOk, Stripe;
    QuietStep(s, o, s', a, s'.pcs[a]);
  }

  lemma LockUnmapKeeps(s: State, o: Holders, a: nat, s': State)
    requires Inv(s, o) && a in s.pcs && OnLockUnmap(s, a) == Some(s')
    ensures Inv(s', o)
  {
    LocksAfterTake(s, s', a, s'.pcs[a], s.pcs[a].f);
    hide LocksOwned, EntriesHold, CarriersHold, RefsCount, PointsOk, WritableOk, Stripe;
    QuietStep(s, o, s', a, s'.pcs[a]);
  }

  lemma ReadPageKeeps(s: State, o: Holders, a: nat, v: nat, s': State)
    requires Inv(s, o) && a in s.pcs && OnReadPage(s, a, v) == Some(s')
    ensures Inv(s', o)
  {
    hide EntriesHold, CarriersHold, RefsCount, WritableOk, Stripe;
    assert PcOk(s, o, a);
    assert s.pcs[a].todo - {v} + {v} == s.pcs[a].todo;
    LocksAfterMove(s, s', a, s'.pcs[a]);
    hide LocksOwned, PointsOk;
    QuietStep(s, o, s', a, s'.pcs[a]);
  }

  lemma LockPageKeeps(s: State, o: Holders, a: nat, s': State)
    requires Inv(s, o) && a in s.pcs && OnLockPage(s, a) == Some(s')
    ensures Inv(s', o)
  {
    hide EntriesHold, CarriersHold, RefsCount, WritableOk, Stripe;
    assert PcOk(s, o, a);
    LocksAfterTake(s, s', a, s'.pcs[a], s.pcs[a].e.frame);
    hide LocksOwned, PointsOk, ChildOk;
    QuietStep(s, o, s', a, s'.pcs[a]);
  }

  // ---------------------------------------------------------------- steps that change the holders of one frame

  ghost predicate SameEntries(s: State, s': State, b: nat, w: nat) {
    forall c: nat, x: nat :: (c, x) != (b, w) ==>
      && ((c, x) in s.ptes <==> (c, x) in s'.ptes) && ((c, x) in s.ptes ==> s'.ptes[(c, x)] == s.ptes[(c, x)])
      && (Dropped(s, c, x) <==> Dropped(s', c, x))
  }

  ghost predicate SameMapped(o: Holders, o': Holders, b: nat, w: nat) {
    o.Keys == o'.Keys && forall f, c: nat, x: nat :: f in o && (c, x) != (b, w) ==>
      (Mapped(c, x) in o'[f] <==> Mapped(c, x) in o[f])
  }

  ghost predicate OwnEntry(s': State, o': Holders, b: nat, w: nat) {
    && ((b, w) in s'.ptes ==> b in s'.pcs && s'.ptes[(b, w)].frame in o')
    && forall f :: f in o' ==> (Mapped(b, w) in o'[f] <==> Maps(s', b, w, f) && !Dropped(s', b, w))
  }

  lemma EntriesAfter(s: State, o: Holders, s': State, o': Holders, b: nat, w: nat)
    requires EntriesHold(s, o) && s.pcs.Keys <= s'.pcs.Keys
    requires SameEntries(s, s', b, w) && SameMapped(o, o', b, w) && OwnEntry(s', o', b, w)
    ensures EntriesHold(s', o')
  {
    hide Dropped;
  }

  lemma StableAfter(s: State, o: Holders, s': State, a: nat, pc: Pc, f: nat, x: set<Holder>)
    requires a in s.pcs && s'.pcs == s.pcs[a := pc] && f in o && !pc.Embryo?
    requires pc.ForkUndoFree? ==> forall g :: g in o ==> InFlight(a) !in o[g]
    requires Lock(s.pcs[a]) == Some(f)
      || (forall h :: h in o[f] && !Unstable(s, h) ==> StillHeld(s', o[f := x], a, f, h))
    ensures StableRule(s, o, s', o[f := x], a)
  {
    hide Lock;
    forall g, h | g in o && h in o[g] && !Unstable(s, h) && Lock(s.pcs[a]) != Some(g)
      ensures StillHeld(s', o[f := x], a, g, h)
    {
      if g != f { assert h in o[f := x][g] && !Unstable(s', h); }
    }
  }

  /** Entries of `s'` name frames they named before, or `f`. */
  ghost predicate OnlyOnto(s: State, s': State, f: nat) {
    forall b, w :: (b, w) in s'.ptes ==> Maps(s, b, w, s'.ptes[(b, w)].frame) || s'.ptes[(b, w)].frame == f
  }

  lemma HoldersAfter(s: State, o: Holders, s': State, a: nat, f: nat, x: set<Holder>)
    requires Touches(s, s', o, a, f) && OnlyOnto(s, s', f)
    ensures HoldersRule(s, o, s', o[f := x], a)
  {
    assert f in o;
    hide Touches;
  }

  lemma CountAfter(s: State, o: Holders, s': State, f: nat, x: set<Holder>)
    requires RefsCount(s, o) && f in o && s'.refs == s.refs[f := |x|] && s'.mem.Keys == s.mem.Keys
    ensures RefsCount(s', o[f := x])
  {
  }

  lemma OwnWritable(s: State, o: Holders, s': State, a: nat, w: nat, f: nat, x: set<Holder>)
    requires (a, w) in s.ptes && WritableOk(s, o, a, w) && (a, w) in s'.ptes && s'.ptes[(a, w)] == s.ptes[(a, w)]
    requires s.ptes[(a, w)].frame != f && OnlyOnto(s, s', f) && Sharers(s', a, w) == Sharers(s, a, w)
    ensures WritableOk(s', o[f := x], a, w)
  {
    hide Sharers;
  }

  ghost predicate WritablesOk(s: State, o: Holders, a: nat) {
    forall v :: (a, v) in s.ptes && s.ptes[(a, v)].writable ==> WritableOk(s, o, a, v)
  }

  lemma ActiveStep(s: State, o: Holders, s': State, o': Holders, a: nat, pc: Pc)
    requires Inv(s, o) && a in s.pcs && !s.pcs[a].Embryo? && s'.pcs == s.pcs[a := pc]
      && ChildOf(pc) == ChildOf(s.pcs[a])
    requires forall k: Key ::
      Mine(s, s', a, k.0) || ((k in s.ptes <==> k in s'.ptes) && (k in s.ptes ==> s'.ptes[k] == s.ptes[k]))
    requires SameCarriers(o, o', a) && OwnCarrier(o', a, pc)
    requires HoldersRule(s, o, s', o', a) && StableRule(s, o, s', o', a) && MemoryRule(s, o, s', a)
    requires RefsCount(s', o') && EntriesHold(s', o') && LocksOwned(s') && PcOk(s', o', a) && WritablesOk(s', o', a)
    ensures Inv(s', o')
  {
    hide Lock, Carry, LocksOwned, CarriersHold, EntriesHold, HoldersRule, StableRule, MemoryRule, PointsOk,
         OwnCarrier, SameCarriers;
    ElsewhereAfter(s, s', a, pc);
    CarriersAfter(s, o, s', o', a, pc);
    ChildAfter(s, o, s', o', a, pc);
    ChildReadOnly(s', o', a);
    hide Elsewhere, PcOk, WritableOk;
    Assemble(s, o, s', o', a);
  }

  lemma ChildReadOnly(s: State, o: Holders, a: nat)
    requires a in s.pcs && PcOk(s, o, a)
    ensures ChildOf(s.pcs[a]).Some? ==> forall v :: (ChildOf(s.pcs[a]).value, v) in s.ptes ==>
      !s.ptes[(ChildOf(s.pcs[a]).value, v)].writable
  {
  }

  /** `x` replaces the holders of `f`: the step is about the entry `(b, w)` and what `a` carries, and nothing else. */
  ghost predicate Rehold(s: State, o: Holders, s': State, a: nat, f: nat, x: set<Holder>, b: nat, w: nat) {
    && a in s.pcs && a in s'.pcs && f in o && (Carry(s'.pcs[a]).Some? ==> Carry(s'.pcs[a]).value in o)
    && (forall h :: h != Mapped(b, w) && h != InFlight(a) ==> (h in x <==> h in o[f]))
    && (Mapped(b, w) in x <==> Maps(s', b, w, f) && !Dropped(s', b, w))
    && (InFlight(a) in x <==> Carry(s'.pcs[a]) == Some(f))
    && (forall g :: g in o && g != f ==> (Mapped(b, w) in o[g] <==> Maps(s', b, w, g) && !Dropped(s', b, w)))
    && (forall g :: g in o && g != f ==> (InFlight(a) in o[g] <==> Carry(s'.pcs[a]) == Some(g)))
    && ((b, w) in s'.ptes ==> b in s'.pcs && s'.ptes[(b, w)].frame in o)
  }

  lemma Bookkeeping(s: State, o: Holders, s': State, a: nat, f: nat, x: set<Holder>, b: nat, w: nat)
    requires RefsCount(s, o) && EntriesHold(s, o) && s.pcs.Keys <= s'.pcs.Keys
    requires Rehold(s, o, s', a, f, x, b, w) && SameEntries(s, s', b, w)
    requires s'.refs == s.refs[f := |x|] && s'.mem.Keys == s.mem.Keys
    ensures RefsCount(s', o[f := x]) && EntriesHold(s', o[f := x])
    ensures SameCarriers(o, o[f := x], a) && OwnCarrier(o[f := x], a, s'.pcs[a])
  {
    hide Carry, Dropped;
    CountAfter(s, o, s', f, x);
    assert SameMapped(o, o[f := x], b, w);
    assert OwnEntry(s', o[f := x], b, w);
    EntriesAfter(s, o, s', o[f := x], b, w);
  }

  /** A step of `a` that rewrites the holders of `f` and, at most, the entry `(b, w)`. */
  ghost predicate Moves(s: State, o: Holders, s': State, a: nat, f: nat, x: set<Holder>, b: nat, w: nat) {
    && a in s.pcs && !s.pcs[a].Embryo? && a in s'.pcs && s'.pcs == s.pcs[a := s'.pcs[a]]
    && ChildOf(s'.pcs[a]) == ChildOf(s.pcs[a]) && Mine(s, s', a, b)
    && Rehold(s, o, s', a, f, x, b, w) && SameEntries(s, s', b, w)
    && s'.refs == s.refs[f := |x|] && MemoryRule(s, o, s', a)
    && Touches(s, s', o, a, f)
      && ((b, w) in s'.ptes ==> Maps(s, b, w, s'.ptes[(b, w)].frame) || s'.ptes[(b, w)].frame == f)
    && StableRule(s, o, s', o[f := x], a)
  }

  /** What is left to show are its own point, locks and writable entries. */
  lemma HolderStep(s: State, o: Holders, s': State, a: nat, f: nat, x: set<Holder>, b: nat, w: nat)
    requires Inv(s, o) && Moves(s, o, s', a, f, x, b, w)
    requires LocksOwned(s') && PcOk(s', o[f := x], a) && WritablesOk(s', o[f := x], a)
    ensures Inv(s', o[f := x])
  {
    hide Lock, Carry, ChildOf, PcOk, WritableOk, LocksOwned, CarriersHold, StableRule, PointsOk, WritablesOk, Dropped,
      Touches, Unstable;
    Bookkeeping(s, o, s', a, f, x, b, w);
    hide Rehold, EntriesHold;
    HoldersAfter(s, o, s', a, f, x);
    hide OnlyOnto, HoldersRule;
    ActiveStep(s, o, s', o[f := x], a, s'.pcs[a]);
  }

  function HeldFrame(s: State, b: nat, w: nat): Option<nat> {
    if (b, w) in s.ptes && !Dropped(s, b, w) then Some(s.ptes[(b, w)].frame) else None
  }

  predicate AboutOnly(p: Option<nat>, q: Option<nat>, f: nat) {
    p == q || ((p.None? || p.value == f) && (q.None? || q.value == f))
  }

  lemma ReholdFrom(s: State, o: Holders, s': State, a: nat, f: nat, x: set<Holder>, b: nat, w: nat)
    requires EntriesHold(s, o) && CarriersHold(s, o) && a in s.pcs && a in s'.pcs && f in o
    requires forall h :: h != Mapped(b, w) && h != InFlight(a) ==> (h in x <==> h in o[f])
    requires Mapped(b, w) in x <==> HeldFrame(s', b, w) == Some(f)
    requires InFlight(a) in x <==> Carry(s'.pcs[a]) == Some(f)
    requires AboutOnly(HeldFrame(s, b, w), HeldFrame(s', b, w), f) && AboutOnly(Carry(s.pcs[a]), Carry(s'.pcs[a]), f)
    requires (b, w) in s'.ptes ==> b in s'.pcs && s'.ptes[(b, w)].frame in o
    ensures Rehold(s, o, s', a, f, x, b, w)
  {
    hide Carry, Dropped;
  }

  predicate EntryOnly(s: State, s': State, b: nat, w: nat) {
    if (b, w) in s'.ptes then s'.ptes == s.ptes[(b, w) := s'.ptes[(b, w)]] else s'.ptes == s.ptes - {(b, w)}
  }

  predicate DroppedOnly(pc: Pc, a: nat, b: nat, w: nat) {
    pc.CowDropped? ==> a == b && pc.v == w
  }

  lemma MovesFrom(s: State, o: Holders, s': State, a: nat, f: nat, x: set<Holder>, b: nat, w: nat)
    requires EntriesHold(s, o) && CarriersHold(s, o)
    requires a in s.pcs && !s.pcs[a].Embryo? && a in s'.pcs && s'.pcs == s.pcs[a := s'.pcs[a]]
    requires ChildOf(s'.pcs[a]) == ChildOf(s.pcs[a]) && Mine(s, s', a, b)
    requires EntryOnly(s, s', b, w) && DroppedOnly(s.pcs[a], a, b, w) && DroppedOnly(s'.pcs[a], a, b, w)
    requires f in o && x - {Mapped(b, w), InFlight(a)} == o[f] - {Mapped(b, w), InFlight(a)}
    requires Mapped(b, w) in x <==> HeldFrame(s', b, w) == Some(f)
    requires InFlight(a) in x <==> Carry(s'.pcs[a]) == Some(f)
    requires AboutOnly(HeldFrame(s, b, w), HeldFrame(s', b, w), f) && AboutOnly(Carry(s.pcs[a]), Carry(s'.pcs[a]), f)
    requires (b, w) in s'.ptes ==> b in s'.pcs && s'.ptes[(b, w)].frame in o
    requires (b, w) in s'.ptes ==> Maps(s, b, w, s'.ptes[(b, w)].frame) || s'.ptes[(b, w)].frame == f
    requires s'.refs == s.refs[f := |x|] && MemoryRule(s, o, s', a)
    requires Touches(s, s', o, a, f) && StableRule(s, o, s', o[f := x], a)
    ensures Moves(s, o, s', a, f, x, b, w)
  {
    hide StableRule, Touches, Lock, Carry, MemoryRule;
    SameEntriesFrom(s, s', a, b, w);
    forall h | h != Mapped(b, w) && h != InFlight(a) ensures h in x <==> h in o[f] {
      assert h in x <==> h in x - {Mapped(b, w), InFlight(a)};
      assert h in o[f] <==> h in o[f] - {Mapped(b, w), InFlight(a)};
    }
    ReholdFrom(s, o, s', a, f, x, b, w);
  }

  lemma SameEntriesFrom(s: State, s': State, a: nat, b: nat, w: nat)
    requires a in s.pcs && a in s'.pcs && s'.pcs == s.pcs[a := s'.pcs[a]]
    requires EntryOnly(s, s', b, w) && DroppedOnly(s.pcs[a], a, b, w) && DroppedOnly(s'.pcs[a], a, b, w)
    ensures SameEntries(s, s', b, w)
  {
  }

  lemma MemorySame(s: State, o: Holders, s': State, a: nat)
    requires RefsCount(s, o) && s'.mem == s.mem
    ensures MemoryRule(s, o, s', a)
  {
  }

  /** No writable entry of `a` is on `f`, so its writable entries are as before. */
  lemma WritablesApart(s: State, o: Holders, s': State, a: nat, f: nat, x: set<Holder>)
    requires Inv(s, o) && OnlyOnto(s, s', f)
    requires forall w :: (a, w) in s'.ptes && s'.ptes[(a, w)].writable ==>
      Has(s, a, w, s'.ptes[(a, w)]) && s.ptes[(a, w)].frame != f && Sharers(s', a, w) == Sharers(s, a, w)
    ensures WritablesOk(s', o[f := x], a)
  {
    hide PcOk, RefsCount, EntriesHold, CarriersHold, LocksOwned, OnlyOnto, Sharers;
    forall w | (a, w) in s'.ptes && s'.ptes[(a, w)].writable ensures WritableOk(s', o[f := x], a, w) {
      assert WritableOk(s, o, a, w);
      OwnWritable(s, o, s', a, w, f, x);
    }
  }

  lemma HeldIff(s: State, o: Holders, f: nat, b: nat, w: nat)
    requires EntriesHold(s, o) && f in o
    ensures Mapped(b, w) in o[f] <==> HeldFrame(s, b, w) == Some(f)
  {
  }

  /** An entry moved onto a frame that nobody mapped is its only mapping. */
  lemma SoleWritable(s: State, o: Holders, s': State, o': Holders, a: nat, v: nat, g: nat)
    requires Unmapped(s, g) && SameEntries(s, s', a, v) && Maps(s', a, v, g) && !s'.ptes[(a, v)].cow
    requires g in o' && o'[g] == {Mapped(a, v)} && !Counting(s', a, v) && !Sharing(s', a, v)
    ensures WritableOk(s', o', a, v)
  {
    forall b: nat, y: nat | Maps(s', b, y, g) ensures Mapped(b, y) == Mapped(a, v) {
    }
  }

  lemma DroppedHoldsLock(s: State, o: Holders, b: nat, w: nat)
    requires PointsOk(s, o) && (b, w) in s.ptes
    ensures Dropped(s, b, w) ==> Lock(s.pcs[b]) == Some(s.ptes[(b, w)].frame)
  {
    if Dropped(s, b, w) { assert PcOk(s, o, b); }
  }

  /** Under the lock, a frame with one counted holder has one mapping. */
  lemma OnlyMapping(s: State, o: Holders, a: nat, v: nat, b: nat, w: nat)
    requires Inv(s, o) && a in s.pcs && s.pcs[a].CowExclusive? && s.pcs[a].v == v && Maps(s, b, w, s.pcs[a].e.frame)
    ensures b == a && w == v
  {
    assert PcOk(s, o, a);
    hide PcOk, PointsOk, WritableOk, Stripe;
    DroppedHoldsLock(s, o, b, w);
    assert Mapped(b, w) in o[s.pcs[a].e.frame] <==> !Dropped(s, b, w);
  }

  lemma SwapCard(x: set<Holder>, h: Holder, h': Holder)
    requires h in x && h' !in x
    ensures |x - {h} + {h'}| == |x|
  {
  }
}
