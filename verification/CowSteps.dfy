/** The steps one by one: resolving a shared page, mapping and unmapping, forking and undoing a fork. */
module CowSteps {
  import opened CowThreads
  import opened CowHolders
  import opened CowInterleavings
  import opened Options

  // ---------------------------------------------------------------- resolving a shared page

  lemma AllocateKeeps(s: State, o: Holders, a: nat, g: nat, s': State) returns (o': Holders)
    requires Inv(s, o) && a in s.pcs && OnAllocate(s, a, g) == Some(s')
    ensures Inv(s', o')
  {
    hide Stripe, LocksOwned, EntriesHold, CarriersHold, RefsCount, WritableOk, Moves, PcOk, PointsOk, WritablesOk;
    AllocateMoves(s, o, a, g, s');
    LocksAfterMove(s, s', a, s'.pcs[a]);
    AllocatePoint(s, o, a, g, s');
    AllocateWritables(s, o, a, g, s');
    o' := o[g := {InFlight(a)}];
    HolderStep(s, o, s', a, g, {InFlight(a)}, a, s.pcs[a].v);
  }

  lemma AllocateHolders(s: State, o: Holders, a: nat, g: nat, s': State)
    requires Inv(s, o) && a in s.pcs && OnAllocate(s, a, g) == Some(s')
    ensures g in o && g in s.refs && s.refs[g] == |o[g]| && o[g] == {} && HeldFrame(s, a, s.pcs[a].v) != Some(g)
      && Maps(s, a, s.pcs[a].v, s.pcs[a].e.frame) && s.pcs[a].e.frame in o
  {
    hide LocksOwned, Stripe, WritableOk;
    assert PcOk(s, o, a);
    FreeIsUnmapped(s, o, g);
  }

  lemma AllocateMoves(s: State, o: Holders, a: nat, g: nat, s': State)
    requires Inv(s, o) && a in s.pcs && OnAllocate(s, a, g) == Some(s')
    ensures g in o && Moves(s, o, s', a, g, {InFlight(a)}, a, s.pcs[a].v)
  {
    hide LocksOwned, Stripe, WritableOk, PcOk, PointsOk, RefsCount, EntriesHold, CarriersHold;
    AllocateHolders(s, o, a, g, s');
    var f, x := g, {InFlight(a)};
    assert Touches(s, s', o, a, f);
    assert s'.refs == s.refs[f := |x|];
    MemorySame(s, o, s', a);
    HeldIff(s, o, f, a, s.pcs[a].v);
    StableAfter(s, o, s', a, s'.pcs[a], f, x);
    hide StableRule, Unstable, Lock, Touches, MemoryRule;
    MovesFrom(s, o, s', a, f, x, a, s.pcs[a].v);
  }

  lemma AllocatePoint(s: State, o: Holders, a: nat, g: nat, s': State)
    requires Inv(s, o) && a in s.pcs && OnAllocate(s, a, g) == Some(s')
    ensures g in o && a in s'.pcs && PcOk(s', o[g := {InFlight(a)}], a)
  {
    hide Stripe, LocksOwned, WritableOk;
    assert PcOk(s, o, a);
    FreeIsUnmapped(s, o, g);
    var f, v := s.pcs[a].e.frame, s.pcs[a].v;
    var h :| h in o[f] && h != Mapped(a, v) && !Unstable(s, h);
    assert !Unstable(s', h);
  }

  lemma AllocateWritables(s: State, o: Holders, a: nat, g: nat, s': State)
    requires Inv(s, o) && a in s.pcs && OnAllocate(s, a, g) == Some(s')
    ensures g in o && WritablesOk(s', o[g := {InFlight(a)}], a)
  {
    hide Stripe, LocksOwned;
    assert PcOk(s, o, a);
    FreeIsUnmapped(s, o, g);
    forall w | (a, w) in s'.ptes && s'.ptes[(a, w)].writable
      ensures Has(s, a, w, s'.ptes[(a, w)]) && s.ptes[(a, w)].frame != g && Sharers(s', a, w) == Sharers(s, a, w)
    {
      assert WritableOk(s, o, a, w);
    }
    hide PcOk, WritableOk, EntriesHold, CarriersHold, RefsCount, PointsOk;
    WritablesApart(s, o, s', a, g, {InFlight(a)});
  }

  lemma CopyKeeps(s: State, o: Holders, a: nat, s': State) returns (o': Holders)
    requires Inv(s, o) && a in s.pcs && OnCopy(s, a) == Some(s')
    ensures Inv(s', o')
  {
    hide Stripe, LocksOwned, EntriesHold, CarriersHold, RefsCount, WritableOk, Moves, PcOk, PointsOk, WritablesOk;
    CopyMoves(s, o, a, s');
    LocksAfterMove(s, s', a, s'.pcs[a]);
    CopyPoint(s, o, a, s');
    CopyWritables(s, o, a, s');
    o' := o[s.pcs[a].copy := o[s.pcs[a].copy]];
    HolderStep(s, o, s', a, s.pcs[a].copy, o[s.pcs[a].copy], a, s.pcs[a].v);
  }

  lemma CopyHolders(s: State, o: Holders, a: nat, s': State)
    requires Inv(s, o) && a in s.pcs && OnCopy(s, a) == Some(s')
    ensures s.pcs[a].copy in o && s.pcs[a].copy in s.refs && s.refs[s.pcs[a].copy] == |o[s.pcs[a].copy]|
      && o[s.pcs[a].copy] == {InFlight(a)} && MemoryRule(s, o, s', a) && Maps(s, a, s.pcs[a].v, s.pcs[a].e.frame)
      && s.pcs[a].e.frame in o
  {
    hide LocksOwned, Stripe, WritableOk;
    assert PcOk(s, o, a);
  }

  lemma CopyMoves(s: State, o: Holders, a: nat, s': State)
    requires Inv(s, o) && a in s.pcs && OnCopy(s, a) == Some(s')
    ensures s.pcs[a].copy in o && Moves(s, o, s', a, s.pcs[a].copy, o[s.pcs[a].copy], a, s.pcs[a].v)
  {
    hide LocksOwned, Stripe, WritableOk, PcOk, PointsOk, RefsCount, EntriesHold, CarriersHold;
    CopyHolders(s, o, a, s');
    var f, x := s.pcs[a].copy, o[s.pcs[a].copy];
    assert Touches(s, s', o, a, f);
    assert s'.refs == s.refs[f := |x|];
    HeldIff(s, o, f, a, s.pcs[a].v);
    StableAfter(s, o, s', a, s'.pcs[a], f, x);
    hide StableRule, Unstable, Lock, Touches, MemoryRule;
    MovesFrom(s, o, s', a, f, x, a, s.pcs[a].v);
  }

  lemma CopyPoint(s: State, o: Holders, a: nat, s': State)
    requires Inv(s, o) && a in s.pcs && OnCopy(s, a) == Some(s')
    ensures s.pcs[a].copy in o && a in s'.pcs && PcOk(s', o[s.pcs[a].copy := o[s.pcs[a].copy]], a)
  {
    hide Stripe, LocksOwned, WritableOk;
    assert PcOk(s, o, a);
    var f, v := s.pcs[a].e.frame, s.pcs[a].v;
    var h :| h in o[f] && h != Mapped(a, v) && !Unstable(s, h);
    assert !Unstable(s', h);
  }

  lemma CopyWritables(s: State, o: Holders, a: nat, s': State)
    requires Inv(s, o) && a in s.pcs && OnCopy(s, a) == Some(s')
    ensures s.pcs[a].copy in o && WritablesOk(s', o[s.pcs[a].copy := o[s.pcs[a].copy]], a)
  {
    hide Stripe, LocksOwned;
    assert PcOk(s, o, a);
    forall w | (a, w) in s'.ptes && s'.ptes[(a, w)].writable
      ensures Has(s, a, w, s'.ptes[(a, w)]) && s.ptes[(a, w)].frame != s.pcs[a].copy
        && Sharers(s', a, w) == Sharers(s, a, w)
    {
      assert WritableOk(s, o, a, w);
    }
    hide PcOk, WritableOk, EntriesHold, CarriersHold, RefsCount, PointsOk;
    WritablesApart(s, o, s', a, s.pcs[a].copy, o[s.pcs[a].copy]);
  }

  lemma DropKeeps(s: State, o: Holders, a: nat, s': State) returns (o': Holders)
    requires Inv(s, o) && a in s.pcs && OnDrop(s, a) == Some(s')
    ensures Inv(s', o')
  {
    hide Stripe, LocksOwned, EntriesHold, CarriersHold, RefsCount, WritableOk, Moves, PcOk, PointsOk, WritablesOk;
    DropMoves(s, o, a, s');
    LocksAfterMove(s, s', a, s'.pcs[a]);
    DropPoint(s, o, a, s');
    DropWritables(s, o, a, s');
    o' := o[s.pcs[a].e.frame := o[s.pcs[a].e.frame] - {Mapped(a, s.pcs[a].v)}];
    HolderStep(s, o, s', a, s.pcs[a].e.frame, o[s.pcs[a].e.frame] - {Mapped(a, s.pcs[a].v)}, a, s.pcs[a].v);
  }

  lemma DropHolders(s: State, o: Holders, a: nat, s': State)
    requires Inv(s, o) && a in s.pcs && OnDrop(s, a) == Some(s')
    ensures s.pcs[a].e.frame in o && s.pcs[a].e.frame in s.refs && s.refs[s.pcs[a].e.frame] == |o[s.pcs[a].e.frame]|
      && Mapped(a, s.pcs[a].v) in o[s.pcs[a].e.frame] && InFlight(a) !in o[s.pcs[a].e.frame]
      && s.pcs[a].copy != s.pcs[a].e.frame && Maps(s, a, s.pcs[a].v, s.pcs[a].e.frame)
  {
    hide LocksOwned, Stripe, WritableOk;
    assert PcOk(s, o, a);
    assert Maps(s, a, s.pcs[a].v, s.pcs[a].e.frame);
  }

  lemma DropMoves(s: State, o: Holders, a: nat, s': State)
    requires Inv(s, o) && a in s.pcs && OnDrop(s, a) == Some(s')
    ensures s.pcs[a].e.frame in o
      && Moves(s, o, s', a, s.pcs[a].e.frame, o[s.pcs[a].e.frame] - {Mapped(a, s.pcs[a].v)}, a, s.pcs[a].v)
  {
    hide LocksOwned, Stripe, WritableOk, PcOk, PointsOk, RefsCount, EntriesHold, CarriersHold;
    DropHolders(s, o, a, s');
    var f, x := s.pcs[a].e.frame, o[s.pcs[a].e.frame] - {Mapped(a, s.pcs[a].v)};
    assert Touches(s, s', o, a, f);
    assert s'.refs == s.refs[f := |x|];
    MemorySame(s, o, s', a);
    HeldIff(s, o, f, a, s.pcs[a].v);
    StableAfter(s, o, s', a, s'.pcs[a], f, x);
    hide StableRule, Unstable, Lock, Touches, MemoryRule;
    MovesFrom(s, o, s', a, f, x, a, s.pcs[a].v);
  }

  lemma DropPoint(s: State, o: Holders, a: nat, s': State)
    requires Inv(s, o) && a in s.pcs && OnDrop(s, a) == Some(s')
    ensures s.pcs[a].e.frame in o && a in s'.pcs
      && PcOk(s', o[s.pcs[a].e.frame := o[s.pcs[a].e.frame] - {Mapped(a, s.pcs[a].v)}], a)
  {
    hide Stripe, LocksOwned, WritableOk;
    assert PcOk(s, o, a);
    var f, v := s.pcs[a].e.frame, s.pcs[a].v;
    var h :| h in o[f] && h != Mapped(a, v) && !Unstable(s, h);
    assert !Unstable(s', h);
  }

  lemma DropWritables(s: State, o: Holders, a: nat, s': State)
    requires Inv(s, o) && a in s.pcs && OnDrop(s, a) == Some(s')
    ensures s.pcs[a].e.frame in o
      && WritablesOk(s', o[s.pcs[a].e.frame := o[s.pcs[a].e.frame] - {Mapped(a, s.pcs[a].v)}], a)
  {
    hide Stripe, LocksOwned;
    assert PcOk(s, o, a);
    assert Maps(s, a, s.pcs[a].v, s.pcs[a].e.frame);
    forall w | (a, w) in s'.ptes && s'.ptes[(a, w)].writable
      ensures Has(s, a, w, s'.ptes[(a, w)]) && s.ptes[(a, w)].frame != s.pcs[a].e.frame
        && Sharers(s', a, w) == Sharers(s, a, w)
    {
      assert WritableOk(s, o, a, w);
    }
    hide PcOk, WritableOk, EntriesHold, CarriersHold, RefsCount, PointsOk;
    WritablesApart(s, o, s', a, s.pcs[a].e.frame, o[s.pcs[a].e.frame] - {Mapped(a, s.pcs[a].v)});
  }

  lemma WriteCopyKeeps(s: State, o: Holders, a: nat, s': State) returns (o': Holders)
    requires Inv(s, o) && a in s.pcs && OnWriteCopy(s, a) == Some(s')
    ensures Inv(s', o')
  {
    hide Stripe, LocksOwned, EntriesHold, CarriersHold, RefsCount, WritableOk, Moves, PcOk, PointsOk, WritablesOk;
    WriteCopyMoves(s, o, a, s');
    LocksAfterRelease(s, s', a, s'.pcs[a], s.pcs[a].e.frame);
    WriteCopyPoint(s, o, a, s');
    WriteCopyWritables(s, o, a, s');
    o' := o[s.pcs[a].copy := {Mapped(a, s.pcs[a].v)}];
    HolderStep(s, o, s', a, s.pcs[a].copy, {Mapped(a, s.pcs[a].v)}, a, s.pcs[a].v);
  }

  lemma WriteCopyHolders(s: State, o: Holders, a: nat, s': State)
    requires Inv(s, o) && a in s.pcs && OnWriteCopy(s, a) == Some(s')
    ensures s.pcs[a].copy in o && s.pcs[a].copy in s.refs && s.refs[s.pcs[a].copy] == |o[s.pcs[a].copy]|
      && o[s.pcs[a].copy] == {InFlight(a)}
  {
    hide LocksOwned, Stripe, WritableOk;
    assert PcOk(s, o, a);
  }

  lemma WriteCopyMoves(s: State, o: Holders, a: nat, s': State)
    requires Inv(s, o) && a in s.pcs && OnWriteCopy(s, a) == Some(s')
    ensures s.pcs[a].copy in o && Moves(s, o, s', a, s.pcs[a].copy, {Mapped(a, s.pcs[a].v)}, a, s.pcs[a].v)
  {
    hide LocksOwned, Stripe, WritableOk, PcOk, PointsOk, RefsCount, EntriesHold, CarriersHold;
    WriteCopyHolders(s, o, a, s');
    var f, x := s.pcs[a].copy, {Mapped(a, s.pcs[a].v)};
    assert !Unstable(s', Mapped(a, s.pcs[a].v));
    assert Touches(s, s', o, a, f);
    assert s'.refs == s.refs[f := |x|];
    MemorySame(s, o, s', a);
    HeldIff(s, o, f, a, s.pcs[a].v);
    StableAfter(s, o, s', a, s'.pcs[a], f, x);
    hide StableRule, Unstable, Lock, Touches, MemoryRule;
    MovesFrom(s, o, s', a, f, x, a, s.pcs[a].v);
  }

  lemma WriteCopyPoint(s: State, o: Holders, a: nat, s': State)
    requires Inv(s, o) && a in s.pcs && OnWriteCopy(s, a) == Some(s')
    ensures s.pcs[a].copy in o && a in s'.pcs && PcOk(s', o[s.pcs[a].copy := {Mapped(a, s.pcs[a].v)}], a)
  {
    hide Stripe, LocksOwned, WritableOk;
    assert PcOk(s, o, a);
  }

  lemma WriteCopyWritables(s: State, o: Holders, a: nat, s': State)
    requires Inv(s, o) && a in s.pcs && OnWriteCopy(s, a) == Some(s')
    ensures s.pcs[a].copy in o && WritablesOk(s', o[s.pcs[a].copy := {Mapped(a, s.pcs[a].v)}], a)
  {
    hide Stripe, LocksOwned;
    assert PcOk(s, o, a);
    var g, v := s.pcs[a].copy, s.pcs[a].v;
    SoleWritable(s, o, s', o[g := {Mapped(a, v)}], a, v, g);
    hide PcOk, RefsCount, CarriersHold, Carry, Lock, EntriesHold;
    forall w | (a, w) in s'.ptes && s'.ptes[(a, w)].writable && w != v
      ensures WritableOk(s', o[g := {Mapped(a, v)}], a, w)
    {
      assert WritableOk(s, o, a, w);
      OwnWritable(s, o, s', a, w, g, {Mapped(a, v)});
    }
  }

  lemma UpgradeKeeps(s: State, o: Holders, a: nat, s': State) returns (o': Holders)
    requires Inv(s, o) && a in s.pcs && OnUpgrade(s, a) == Some(s')
    ensures Inv(s', o')
  {
    hide Stripe, LocksOwned, EntriesHold, CarriersHold, RefsCount, WritableOk, Moves, PcOk, PointsOk, WritablesOk;
    UpgradeMoves(s, o, a, s');
    LocksAfterRelease(s, s', a, s'.pcs[a], s.pcs[a].e.frame);
    UpgradePoint(s, o, a, s');
    UpgradeWritables(s, o, a, s');
    o' := o[s.pcs[a].e.frame := o[s.pcs[a].e.frame]];
    HolderStep(s, o, s', a, s.pcs[a].e.frame, o[s.pcs[a].e.frame], a, s.pcs[a].v);
  }

  lemma UpgradeHolders(s: State, o: Holders, a: nat, s': State)
    requires Inv(s, o) && a in s.pcs && OnUpgrade(s, a) == Some(s')
    ensures s.pcs[a].e.frame in o && s.pcs[a].e.frame in s.refs && s.refs[s.pcs[a].e.frame] == |o[s.pcs[a].e.frame]|
      && o[s.pcs[a].e.frame] == {Mapped(a, s.pcs[a].v)} && Maps(s, a, s.pcs[a].v, s.pcs[a].e.frame)
  {
    hide LocksOwned, Stripe, WritableOk;
    assert PcOk(s, o, a);
  }

  lemma UpgradeMoves(s: State, o: Holders, a: nat, s': State)
    requires Inv(s, o) && a in s.pcs && OnUpgrade(s, a) == Some(s')
    ensures s.pcs[a].e.frame in o && Moves(s, o, s', a, s.pcs[a].e.frame, o[s.pcs[a].e.frame], a, s.pcs[a].v)
  {
    hide LocksOwned, Stripe, WritableOk, PcOk, PointsOk, RefsCount, EntriesHold, CarriersHold;
    UpgradeHolders(s, o, a, s');
    var f, x := s.pcs[a].e.frame, o[s.pcs[a].e.frame];
    assert Touches(s, s', o, a, f);
    assert s'.refs == s.refs[f := |x|];
    MemorySame(s, o, s', a);
    HeldIff(s, o, f, a, s.pcs[a].v);
    StableAfter(s, o, s', a, s'.pcs[a], f, x);
    hide StableRule, Unstable, Lock, Touches, MemoryRule;
    MovesFrom(s, o, s', a, f, x, a, s.pcs[a].v);
  }

  lemma UpgradePoint(s: State, o: Holders, a: nat, s': State)
    requires Inv(s, o) && a in s.pcs && OnUpgrade(s, a) == Some(s')
    ensures s.pcs[a].e.frame in o && a in s'.pcs && PcOk(s', o[s.pcs[a].e.frame := o[s.pcs[a].e.frame]], a)
  {
    hide Stripe, LocksOwned, WritableOk;
    assert PcOk(s, o, a);
  }

  lemma UpgradeWritables(s: State, o: Holders, a: nat, s': State)
    requires Inv(s, o) && a in s.pcs && OnUpgrade(s, a) == Some(s')
    ensures s.pcs[a].e.frame in o && WritablesOk(s', o[s.pcs[a].e.frame := o[s.pcs[a].e.frame]], a)
  {
    hide Stripe, LocksOwned;
    assert PcOk(s, o, a);
    var f, v := s.pcs[a].e.frame, s.pcs[a].v;
    forall b, y | Maps(s', b, y, f) ensures b == a && y == v {
      assert Maps(s, b, y, f);
      OnlyMapping(s, o, a, v, b, y);
    }
    assert Sharers(s', a, v) == {Mapped(a, v)};
    hide PcOk, RefsCount, CarriersHold, Carry, Lock, EntriesHold;
    forall w | (a, w) in s'.ptes && s'.ptes[(a, w)].writable && w != v ensures WritableOk(s', o[f := o[f]], a, w) {
      assert WritableOk(s, o, a, w);
      OwnWritable(s, o, s', a, w, f, o[f]);
    }
  }

  // ---------------------------------------------------------------- mapping, storing, unmapping

  lemma MapFreshKeeps(s: State, o: Holders, a: nat, v: nat, g: nat, rw: bool, s': State) returns (o': Holders)
    requires Inv(s, o) && a in s.pcs && OnMapFresh(s, a, v, g, rw) == Some(s')
    ensures Inv(s', o')
  {
    hide Stripe, LocksOwned, EntriesHold, CarriersHold, RefsCount, WritableOk, Moves, PcOk, PointsOk, WritablesOk;
    MapFreshMoves(s, o, a, v, g, rw, s');
    LocksAfterMove(s, s', a, s'.pcs[a]);
    MapFreshPoint(s, o, a, v, g, rw, s');
    MapFreshWritables(s, o, a, v, g, rw, s');
    o' := o[g := {Mapped(a, v)}];
    HolderStep(s, o, s', a, g, {Mapped(a, v)}, a, v);
  }

  lemma MapFreshHolders(s: State, o: Holders, a: nat, v: nat, g: nat, rw: bool, s': State)
    requires Inv(s, o) && a in s.pcs && OnMapFresh(s, a, v, g, rw) == Some(s')
    ensures g in o && g in s.refs && s.refs[g] == |o[g]| && o[g] == {} && MemoryRule(s, o, s', a)
  {
    hide LocksOwned, Stripe, WritableOk;
    assert PcOk(s, o, a);
    FreeIsUnmapped(s, o, g);
  }

  lemma MapFreshMoves(s: State, o: Holders, a: nat, v: nat, g: nat, rw: bool, s': State)
    requires Inv(s, o) && a in s.pcs && OnMapFresh(s, a, v, g, rw) == Some(s')
    ensures g in o && Moves(s, o, s', a, g, {Mapped(a, v)}, a, v)
  {
    hide LocksOwned, Stripe, WritableOk, PcOk, PointsOk, RefsCount, EntriesHold, CarriersHold;
    MapFreshHolders(s, o, a, v, g, rw, s');
    var f, x := g, {Mapped(a, v)};
    assert s'.pcs == s.pcs[a := s.pcs[a]];
    assert Touches(s, s', o, a, f);
    assert s'.refs == s.refs[f := |x|];
    HeldIff(s, o, f, a, v);
    StableAfter(s, o, s', a, s'.pcs[a], f, x);
    hide StableRule, Unstable, Lock, Touches, MemoryRule;
    MovesFrom(s, o, s', a, f, x, a, v);
  }

  lemma MapFreshPoint(s: State, o: Holders, a: nat, v: nat, g: nat, rw: bool, s': State)
    requires Inv(s, o) && a in s.pcs && OnMapFresh(s, a, v, g, rw) == Some(s')
    ensures g in o && a in s'.pcs && PcOk(s', o[g := {Mapped(a, v)}], a)
  {
    hide Stripe, LocksOwned, WritableOk;
    assert PcOk(s, o, a);
  }

  lemma MapFreshWritables(s: State, o: Holders, a: nat, v: nat, g: nat, rw: bool, s': State)
    requires Inv(s, o) && a in s.pcs && OnMapFresh(s, a, v, g, rw) == Some(s')
    ensures g in o && WritablesOk(s', o[g := {Mapped(a, v)}], a)
  {
    hide Stripe, LocksOwned;
    assert PcOk(s, o, a);
    FreeIsUnmapped(s, o, g);
    SoleWritable(s, o, s', o[g := {Mapped(a, v)}], a, v, g);
    hide PcOk, RefsCount, CarriersHold, Carry, Lock, EntriesHold;
    forall w | (a, w) in s'.ptes && s'.ptes[(a, w)].writable && w != v
      ensures WritableOk(s', o[g := {Mapped(a, v)}], a, w)
    {
      assert WritableOk(s, o, a, w);
      OwnWritable(s, o, s', a, w, g, {Mapped(a, v)});
    }
  }

  lemma StoreByteKeeps(s: State, o: Holders, a: nat, v: nat, off: nat, byte: bv8, s': State) returns (o': Holders)
    requires Inv(s, o) && a in s.pcs && OnStoreByte(s, a, v, off, byte) == Some(s')
    ensures Inv(s', o')
  {
    hide Stripe, LocksOwned, EntriesHold, CarriersHold, RefsCount, WritableOk, Moves, PcOk, PointsOk, WritablesOk;
    StoreByteMoves(s, o, a, v, off, byte, s');
    LocksAfterMove(s, s', a, s'.pcs[a]);
    StoreBytePoint(s, o, a, v, off, byte, s');
    StoreByteWritables(s, o, a, v, off, byte, s');
    o' := o[s.ptes[(a, v)].frame := o[s.ptes[(a, v)].frame]];
    HolderStep(s, o, s', a, s.ptes[(a, v)].frame, o[s.ptes[(a, v)].frame], a, v);
  }

  lemma StoreByteHolders(s: State, o: Holders, a: nat, v: nat, off: nat, byte: bv8, s': State)
    requires Inv(s, o) && a in s.pcs && OnStoreByte(s, a, v, off, byte) == Some(s')
    ensures s.ptes[(a, v)].frame in o && s.ptes[(a, v)].frame in s.refs
      && s.refs[s.ptes[(a, v)].frame] == |o[s.ptes[(a, v)].frame]| && o[s.ptes[(a, v)].frame] == {Mapped(a, v)}
      && MemoryRule(s, o, s', a)
  {
    hide LocksOwned, Stripe, WritableOk;
    assert PcOk(s, o, a);
    assert WritableOk(s, o, a, v);
    StoreMemory(s, o, a, v, off, byte, s');
  }

  lemma StoreByteMoves(s: State, o: Holders, a: nat, v: nat, off: nat, byte: bv8, s': State)
    requires Inv(s, o) && a in s.pcs && OnStoreByte(s, a, v, off, byte) == Some(s')
    ensures s.ptes[(a, v)].frame in o && Moves(s, o, s', a, s.ptes[(a, v)].frame, o[s.ptes[(a, v)].frame], a, v)
  {
    hide LocksOwned, Stripe, WritableOk, PcOk, PointsOk, RefsCount, EntriesHold, CarriersHold;
    StoreByteHolders(s, o, a, v, off, byte, s');
    var f, x := s.ptes[(a, v)].frame, o[s.ptes[(a, v)].frame];
    assert s'.pcs == s.pcs[a := s.pcs[a]];
    assert Touches(s, s', o, a, f);
    assert s'.refs == s.refs[f := |x|];
    HeldIff(s, o, f, a, v);
    StableAfter(s, o, s', a, s'.pcs[a], f, x);
    hide StableRule, Unstable, Lock, Touches, MemoryRule;
    MovesFrom(s, o, s', a, f, x, a, v);
  }

  lemma StoreBytePoint(s: State, o: Holders, a: nat, v: nat, off: nat, byte: bv8, s': State)
    requires Inv(s, o) && a in s.pcs && OnStoreByte(s, a, v, off, byte) == Some(s')
    ensures s.ptes[(a, v)].frame in o && a in s'.pcs && PcOk(s', o[s.ptes[(a, v)].frame := o[s.ptes[(a, v)].frame]], a)
  {
    hide Stripe, LocksOwned, WritableOk;
    assert PcOk(s, o, a);
  }

  lemma StoreByteWritables(s: State, o: Holders, a: nat, v: nat, off: nat, byte: bv8, s': State)
    requires Inv(s, o) && a in s.pcs && OnStoreByte(s, a, v, off, byte) == Some(s')
    ensures s.ptes[(a, v)].frame in o && WritablesOk(s', o[s.ptes[(a, v)].frame := o[s.ptes[(a, v)].frame]], a)
  {
    hide Stripe, LocksOwned;
    assert PcOk(s, o, a);
    assert o[s.ptes[(a, v)].frame := o[s.ptes[(a, v)].frame]] == o;
    forall w | (a, w) in s'.ptes && s'.ptes[(a, w)].writable ensures WritableOk(s', o, a, w) {
      assert WritableOk(s, o, a, w);
    }
  }

  lemma ClearKeeps(s: State, o: Holders, a: nat, v: nat, s': State) returns (o': Holders)
    requires Inv(s, o) && a in s.pcs && OnClear(s, a, v) == Some(s')
    ensures Inv(s', o')
  {
    hide Stripe, LocksOwned, EntriesHold, CarriersHold, RefsCount, WritableOk, Moves, PcOk, PointsOk, WritablesOk;
    ClearMoves(s, o, a, v, s');
    LocksAfterMove(s, s', a, s'.pcs[a]);
    ClearPoint(s, o, a, v, s');
    ClearWritables(s, o, a, v, s');
    o' := o[s.ptes[(a, v)].frame := o[s.ptes[(a, v)].frame] - {Mapped(a, v)} + {InFlight(a)}];
    HolderStep(s, o, s', a, s.ptes[(a, v)].frame, o[s.ptes[(a, v)].frame] - {Mapped(a, v)} + {InFlight(a)}, a, v);
  }

  lemma ClearHolders(s: State, o: Holders, a: nat, v: nat, s': State)
    requires Inv(s, o) && a in s.pcs && OnClear(s, a, v) == Some(s')
    ensures s.ptes[(a, v)].frame in o && s.ptes[(a, v)].frame in s.refs
      && s.refs[s.ptes[(a, v)].frame] == |o[s.ptes[(a, v)].frame]| && Mapped(a, v) in o[s.ptes[(a, v)].frame]
      && InFlight(a) !in o[s.ptes[(a, v)].frame]
  {
    hide LocksOwned, Stripe, WritableOk;
    assert PcOk(s, o, a);
    assert Maps(s, a, v, s.ptes[(a, v)].frame);
  }

  lemma ClearMoves(s: State, o: Holders, a: nat, v: nat, s': State)
    requires Inv(s, o) && a in s.pcs && OnClear(s, a, v) == Some(s')
    ensures s.ptes[(a, v)].frame in o
      && Moves(s, o, s', a, s.ptes[(a, v)].frame, o[s.ptes[(a, v)].frame] - {Mapped(a, v)} + {InFlight(a)}, a, v)
  {
    hide LocksOwned, Stripe, WritableOk, PcOk, PointsOk, RefsCount, EntriesHold, CarriersHold;
    ClearHolders(s, o, a, v, s');
    var f, x := s.ptes[(a, v)].frame, o[s.ptes[(a, v)].frame] - {Mapped(a, v)} + {InFlight(a)};
    SwapCard(o[f], Mapped(a, v), InFlight(a));
    assert InFlight(a) in x && !Unstable(s', InFlight(a));
    assert Touches(s, s', o, a, f);
    assert s'.refs == s.refs[f := |x|];
    MemorySame(s, o, s', a);
    HeldIff(s, o, f, a, v);
    StableAfter(s, o, s', a, s'.pcs[a], f, x);
    hide StableRule, Unstable, Lock, Touches, MemoryRule;
    MovesFrom(s, o, s', a, f, x, a, v);
  }

  lemma ClearPoint(s: State, o: Holders, a: nat, v: nat, s': State)
    requires Inv(s, o) && a in s.pcs && OnClear(s, a, v) == Some(s')
    ensures s.ptes[(a, v)].frame in o && a in s'.pcs
      && PcOk(s', o[s.ptes[(a, v)].frame := o[s.ptes[(a, v)].frame] - {Mapped(a, v)} + {InFlight(a)}], a)
  {
    hide Stripe, LocksOwned, WritableOk;
    assert PcOk(s, o, a);
  }

  lemma ClearWritables(s: State, o: Holders, a: nat, v: nat, s': State)
    requires Inv(s, o) && a in s.pcs && OnClear(s, a, v) == Some(s')
    ensures s.ptes[(a, v)].frame in o
      && WritablesOk(s', o[s.ptes[(a, v)].frame := o[s.ptes[(a, v)].frame] - {Mapped(a, v)} + {InFlight(a)}], a)
  {
    hide Stripe, LocksOwned;
    assert PcOk(s, o, a);
    assert Maps(s, a, v, s.ptes[(a, v)].frame);
    forall w | (a, w) in s'.ptes && s'.ptes[(a, w)].writable
      ensures Has(s, a, w, s'.ptes[(a, w)]) && s.ptes[(a, w)].frame != s.ptes[(a, v)].frame
        && Sharers(s', a, w) == Sharers(s, a, w)
    {
      assert WritableOk(s, o, a, w);
    }
    hide PcOk, WritableOk, EntriesHold, CarriersHold, RefsCount, PointsOk;
    WritablesApart(s, o, s', a, s.ptes[(a, v)].frame, o[s.ptes[(a, v)].frame] - {Mapped(a, v)} + {InFlight(a)});
  }

  lemma FreeUnmappedKeeps(s: State, o: Holders, a: nat, s': State) returns (o': Holders)
    requires Inv(s, o) && a in s.pcs && OnFreeUnmapped(s, a) == Some(s')
    ensures Inv(s', o')
  {
    hide Stripe, LocksOwned, EntriesHold, CarriersHold, RefsCount, WritableOk, Moves, PcOk, PointsOk, WritablesOk;
    FreeUnmappedMoves(s, o, a, s');
    LocksAfterRelease(s, s', a, s'.pcs[a], s.pcs[a].f);
    FreeUnmappedPoint(s, o, a, s');
    FreeUnmappedWritables(s, o, a, s');
    o' := o[s.pcs[a].f := o[s.pcs[a].f] - {InFlight(a)}];
    HolderStep(s, o, s', a, s.pcs[a].f, o[s.pcs[a].f] - {InFlight(a)}, a, 0);
  }

  lemma FreeUnmappedHolders(s: State, o: Holders, a: nat, s': State)
    requires Inv(s, o) && a in s.pcs && OnFreeUnmapped(s, a) == Some(s')
    ensures s.pcs[a].f in o && s.pcs[a].f in s.refs && s.refs[s.pcs[a].f] == |o[s.pcs[a].f]|
      && InFlight(a) in o[s.pcs[a].f] && ((a, 0) in s.ptes ==> s.ptes[(a, 0)].frame in o)
  {
    hide LocksOwned, Stripe, WritableOk;
    assert PcOk(s, o, a);
  }

  lemma FreeUnmappedMoves(s: State, o: Holders, a: nat, s': State)
    requires Inv(s, o) && a in s.pcs && OnFreeUnmapped(s, a) == Some(s')
    ensures s.pcs[a].f in o && Moves(s, o, s', a, s.pcs[a].f, o[s.pcs[a].f] - {InFlight(a)}, a, 0)
  {
    hide LocksOwned, Stripe, WritableOk, PcOk, PointsOk, RefsCount, EntriesHold, CarriersHold;
    FreeUnmappedHolders(s, o, a, s');
    var f, x := s.pcs[a].f, o[s.pcs[a].f] - {InFlight(a)};
    assert Touches(s, s', o, a, f);
    assert s'.refs == s.refs[f := |x|];
    MemorySame(s, o, s', a);
    HeldIff(s, o, f, a, 0);
    StableAfter(s, o, s', a, s'.pcs[a], f, x);
    hide StableRule, Unstable, Lock, Touches, MemoryRule;
    MovesFrom(s, o, s', a, f, x, a, 0);
  }

  lemma FreeUnmappedPoint(s: State, o: Holders, a: nat, s': State)
    requires Inv(s, o) && a in s.pcs && OnFreeUnmapped(s, a) == Some(s')
    ensures s.pcs[a].f in o && a in s'.pcs && PcOk(s', o[s.pcs[a].f := o[s.pcs[a].f] - {InFlight(a)}], a)
  {
    hide Stripe, LocksOwned, WritableOk;
    assert PcOk(s, o, a);
  }

  lemma FreeUnmappedWritables(s: State, o: Holders, a: nat, s': State)
    requires Inv(s, o) && a in s.pcs && OnFreeUnmapped(s, a) == Some(s')
    ensures s.pcs[a].f in o && WritablesOk(s', o[s.pcs[a].f := o[s.pcs[a].f] - {InFlight(a)}], a)
  {
    hide Stripe, LocksOwned;
    assert PcOk(s, o, a);
    assert InFlight(a) in o[s.pcs[a].f];
    forall w | (a, w) in s'.ptes && s'.ptes[(a, w)].writable
      ensures Has(s, a, w, s'.ptes[(a, w)]) && s.ptes[(a, w)].frame != s.pcs[a].f
        && Sharers(s', a, w) == Sharers(s, a, w)
    {
      assert WritableOk(s, o, a, w);
    }
    hide PcOk, WritableOk, EntriesHold, CarriersHold, RefsCount, PointsOk;
    WritablesApart(s, o, s', a, s.pcs[a].f, o[s.pcs[a].f] - {InFlight(a)});
  }

  // ---------------------------------------------------------------- forking

  lemma CountPageKeeps(s: State, o: Holders, a: nat, s': State) returns (o': Holders)
    requires Inv(s, o) && a in s.pcs && OnCountPage(s, a) == Some(s')
    ensures Inv(s', o')
  {
    hide Stripe, LocksOwned, EntriesHold, CarriersHold, RefsCount, WritableOk, Moves, PcOk, PointsOk, WritablesOk;
    CountPageMoves(s, o, a, s');
    LocksAfterMove(s, s', a, s'.pcs[a]);
    CountPagePoint(s, o, a, s');
    CountPageWritables(s, o, a, s');
    o' := o[s.pcs[a].e.frame := o[s.pcs[a].e.frame] + {InFlight(a)}];
    HolderStep(s, o, s', a, s.pcs[a].e.frame, o[s.pcs[a].e.frame] + {InFlight(a)}, a, s.pcs[a].v);
  }

  lemma CountPageHolders(s: State, o: Holders, a: nat, s': State)
    requires Inv(s, o) && a in s.pcs && OnCountPage(s, a) == Some(s')
    ensures s.pcs[a].e.frame in o && s.pcs[a].e.frame in s.refs && s.refs[s.pcs[a].e.frame] == |o[s.pcs[a].e.frame]|
      && Mapped(a, s.pcs[a].v) in o[s.pcs[a].e.frame] && InFlight(a) !in o[s.pcs[a].e.frame]
      && Maps(s, a, s.pcs[a].v, s.pcs[a].e.frame)
  {
    hide LocksOwned, Stripe, WritableOk;
    assert PcOk(s, o, a);
    assert Maps(s, a, s.pcs[a].v, s.pcs[a].e.frame);
  }

  lemma CountPageMoves(s: State, o: Holders, a: nat, s': State)
    requires Inv(s, o) && a in s.pcs && OnCountPage(s, a) == Some(s')
    ensures s.pcs[a].e.frame in o
      && Moves(s, o, s', a, s.pcs[a].e.frame, o[s.pcs[a].e.frame] + {InFlight(a)}, a, s.pcs[a].v)
  {
    hide LocksOwned, Stripe, WritableOk, PcOk, PointsOk, RefsCount, EntriesHold, CarriersHold;
    CountPageHolders(s, o, a, s');
    var f, x := s.pcs[a].e.frame, o[s.pcs[a].e.frame] + {InFlight(a)};
    assert Touches(s, s', o, a, f);
    assert s'.refs == s.refs[f := |x|];
    MemorySame(s, o, s', a);
    HeldIff(s, o, f, a, s.pcs[a].v);
    StableAfter(s, o, s', a, s'.pcs[a], f, x);
    hide StableRule, Unstable, Lock, Touches, MemoryRule;
    MovesFrom(s, o, s', a, f, x, a, s.pcs[a].v);
  }

  lemma CountPagePoint(s: State, o: Holders, a: nat, s': State)
    requires Inv(s, o) && a in s.pcs && OnCountPage(s, a) == Some(s')
    ensures s.pcs[a].e.frame in o && a in s'.pcs
      && PcOk(s', o[s.pcs[a].e.frame := o[s.pcs[a].e.frame] + {InFlight(a)}], a)
  {
    hide Stripe, LocksOwned, WritableOk;
    assert PcOk(s, o, a);
  }

  lemma CountPageWritables(s: State, o: Holders, a: nat, s': State)
    requires Inv(s, o) && a in s.pcs && OnCountPage(s, a) == Some(s')
    ensures s.pcs[a].e.frame in o && WritablesOk(s', o[s.pcs[a].e.frame := o[s.pcs[a].e.frame] + {InFlight(a)}], a)
  {
    hide Stripe, LocksOwned;
    assert PcOk(s, o, a);
    var f, v := s.pcs[a].e.frame, s.pcs[a].v;
    assert Maps(s, a, v, f);
    CountWritable(s, o, s', a, v);
    hide PcOk, RefsCount, CarriersHold, Carry, Lock, EntriesHold;
    forall w | (a, w) in s'.ptes && s'.ptes[(a, w)].writable && w != v
      ensures WritableOk(s', o[f := o[f] + {InFlight(a)}], a, w)
    {
      assert WritableOk(s, o, a, w);
      OwnWritable(s, o, s', a, w, f, o[f] + {InFlight(a)});
    }
  }

  lemma MapPageKeeps(s: State, o: Holders, a: nat, s': State) returns (o': Holders)
    requires Inv(s, o) && a in s.pcs && OnMapPage(s, a) == Some(s')
    ensures Inv(s', o')
  {
    hide Stripe, LocksOwned, EntriesHold, CarriersHold, RefsCount, WritableOk, Moves, PcOk, PointsOk, WritablesOk;
    MapPageMoves(s, o, a, s');
    LocksAfterMove(s, s', a, s'.pcs[a]);
    MapPagePoint(s, o, a, s');
    MapPageWritables(s, o, a, s');
    o' := o[s.pcs[a].e.frame := o[s.pcs[a].e.frame] - {InFlight(a)} + {Mapped(s.pcs[a].child, s.pcs[a].v)}];
    HolderStep(s, o, s', a, s.pcs[a].e.frame,
      o[s.pcs[a].e.frame] - {InFlight(a)} + {Mapped(s.pcs[a].child, s.pcs[a].v)}, s.pcs[a].child, s.pcs[a].v);
  }

  lemma MapPageHolders(s: State, o: Holders, a: nat, s': State)
    requires Inv(s, o) && a in s.pcs && OnMapPage(s, a) == Some(s')
    ensures s.pcs[a].e.frame in o && s.pcs[a].e.frame in s.refs && s.refs[s.pcs[a].e.frame] == |o[s.pcs[a].e.frame]|
      && InFlight(a) in o[s.pcs[a].e.frame] && Mapped(s.pcs[a].child, s.pcs[a].v) !in o[s.pcs[a].e.frame]
      && s.pcs[a].child != a && s.pcs[a].child in s.pcs && s.pcs[s.pcs[a].child].Embryo?
      && (s.pcs[a].child, s.pcs[a].v) !in s.ptes
  {
    hide LocksOwned, Stripe, WritableOk;
    assert PcOk(s, o, a);
    ChildFacts(s, o, a);
  }

  lemma MapPageMoves(s: State, o: Holders, a: nat, s': State)
    requires Inv(s, o) && a in s.pcs && OnMapPage(s, a) == Some(s')
    ensures s.pcs[a].e.frame in o
      && Moves(s, o, s', a, s.pcs[a].e.frame,
      o[s.pcs[a].e.frame] - {InFlight(a)} + {Mapped(s.pcs[a].child, s.pcs[a].v)}, s.pcs[a].child, s.pcs[a].v)
  {
    hide LocksOwned, Stripe, WritableOk, PcOk, PointsOk, RefsCount, EntriesHold, CarriersHold;
    MapPageHolders(s, o, a, s');
    var f, x := s.pcs[a].e.frame, o[s.pcs[a].e.frame] - {InFlight(a)} + {Mapped(s.pcs[a].child, s.pcs[a].v)};
    SwapCard(o[f], InFlight(a), Mapped(s.pcs[a].child, s.pcs[a].v));
    assert Touches(s, s', o, a, f);
    assert s'.refs == s.refs[f := |x|];
    MemorySame(s, o, s', a);
    HeldIff(s, o, f, s.pcs[a].child, s.pcs[a].v);
    StableAfter(s, o, s', a, s'.pcs[a], f, x);
    hide StableRule, Unstable, Lock, Touches, MemoryRule;
    MovesFrom(s, o, s', a, f, x, s.pcs[a].child, s.pcs[a].v);
  }

  /** Mapping the page in the child keeps what the fork knows of its child and of its parent's entries. */
  lemma ChildAfterMap(s: State, a: nat, s': State)
    requires a in s.pcs && OnMapPage(s, a) == Some(s')
    requires var pc := s.pcs[a];
             && ChildOk(s, a, pc.child, pc.todo + {pc.v}) && Covers(s, a, pc.child, pc.todo + {pc.v})
             && Has(s, a, pc.v, pc.e) && pc.v !in pc.todo
    ensures ChildOk(s', a, s.pcs[a].child, s.pcs[a].todo) && Covers(s', a, s.pcs[a].child, s.pcs[a].todo)
  {
  }

  lemma MapPagePoint(s: State, o: Holders, a: nat, s': State)
    requires Inv(s, o) && a in s.pcs && OnMapPage(s, a) == Some(s')
    ensures s.pcs[a].e.frame in o && a in s'.pcs
    ensures PcOk(s', o[s.pcs[a].e.frame := o[s.pcs[a].e.frame] - {InFlight(a)} + {Mapped(s.pcs[a].child, s.pcs[a].v)}],
      a)
  {
    hide Stripe, LocksOwned, WritableOk, RefsCount, CarriersHold, Carry, Lock, ChildOk, Covers;
    assert PcOk(s, o, a);
    ChildAfterMap(s, a, s');
  }

  lemma MapPageWritables(s: State, o: Holders, a: nat, s': State)
    requires Inv(s, o) && a in s.pcs && OnMapPage(s, a) == Some(s')
    ensures s.pcs[a].e.frame in o
      && WritablesOk(s',
      o[s.pcs[a].e.frame := o[s.pcs[a].e.frame] - {InFlight(a)} + {Mapped(s.pcs[a].child, s.pcs[a].v)}], a)
  {
    hide Stripe, LocksOwned;
    assert PcOk(s, o, a);
    var f, v := s.pcs[a].e.frame, s.pcs[a].v;
    assert Maps(s, a, v, f);
    ShareWritable(s, o, s', a, v);
    hide PcOk, RefsCount, CarriersHold, Carry, Lock, EntriesHold;
    forall w | (a, w) in s'.ptes && s'.ptes[(a, w)].writable && w != v
      ensures WritableOk(s', o[f := o[f] - {InFlight(a)} + {Mapped(s.pcs[a].child, v)}], a, w)
    {
      assert WritableOk(s, o, a, w);
      OwnWritable(s, o, s', a, w, f, o[f] - {InFlight(a)} + {Mapped(s.pcs[a].child, v)});
    }
  }

  lemma ProtectKeeps(s: State, o: Holders, a: nat, s': State) returns (o': Holders)
    requires Inv(s, o) && a in s.pcs && OnProtect(s, a) == Some(s')
    ensures Inv(s', o')
  {
    hide Stripe, LocksOwned, EntriesHold, CarriersHold, RefsCount, WritableOk, Moves, PcOk, PointsOk, WritablesOk;
    ProtectMoves(s, o, a, s');
    LocksAfterRelease(s, s', a, s'.pcs[a], s.pcs[a].e.frame);
    ProtectPoint(s, o, a, s');
    ProtectWritables(s, o, a, s');
    o' := o[s.pcs[a].e.frame := o[s.pcs[a].e.frame]];
    HolderStep(s, o, s', a, s.pcs[a].e.frame, o[s.pcs[a].e.frame], a, s.pcs[a].v);
  }

  lemma ProtectHolders(s: State, o: Holders, a: nat, s': State)
    requires Inv(s, o) && a in s.pcs && OnProtect(s, a) == Some(s')
    ensures s.pcs[a].e.frame in o && s.pcs[a].e.frame in s.refs && s.refs[s.pcs[a].e.frame] == |o[s.pcs[a].e.frame]|
      && Mapped(a, s.pcs[a].v) in o[s.pcs[a].e.frame] && InFlight(a) !in o[s.pcs[a].e.frame]
      && Maps(s, a, s.pcs[a].v, s.pcs[a].e.frame)
  {
    hide LocksOwned, Stripe, WritableOk;
    assert PcOk(s, o, a);
    assert Maps(s, a, s.pcs[a].v, s.pcs[a].e.frame);
  }

  lemma ProtectMoves(s: State, o: Holders, a: nat, s': State)
    requires Inv(s, o) && a in s.pcs && OnProtect(s, a) == Some(s')
    ensures s.pcs[a].e.frame in o && Moves(s, o, s', a, s.pcs[a].e.frame, o[s.pcs[a].e.frame], a, s.pcs[a].v)
  {
    hide LocksOwned, Stripe, WritableOk, PcOk, PointsOk, RefsCount, EntriesHold, CarriersHold;
    ProtectHolders(s, o, a, s');
    var f, x := s.pcs[a].e.frame, o[s.pcs[a].e.frame];
    assert Touches(s, s', o, a, f);
    assert s'.refs == s.refs[f := |x|];
    MemorySame(s, o, s', a);
    HeldIff(s, o, f, a, s.pcs[a].v);
    StableAfter(s, o, s', a, s'.pcs[a], f, x);
    hide StableRule, Unstable, Lock, Touches, MemoryRule;
    MovesFrom(s, o, s', a, f, x, a, s.pcs[a].v);
  }

  lemma ProtectPoint(s: State, o: Holders, a: nat, s': State)
    requires Inv(s, o) && a in s.pcs && OnProtect(s, a) == Some(s')
    ensures s.pcs[a].e.frame in o && a in s'.pcs && PcOk(s', o[s.pcs[a].e.frame := o[s.pcs[a].e.frame]], a)
  {
    hide Stripe, LocksOwned, WritableOk;
    assert PcOk(s, o, a);
  }

  lemma ProtectWritables(s: State, o: Holders, a: nat, s': State)
    requires Inv(s, o) && a in s.pcs && OnProtect(s, a) == Some(s')
    ensures s.pcs[a].e.frame in o && WritablesOk(s', o[s.pcs[a].e.frame := o[s.pcs[a].e.frame]], a)
  {
    hide Stripe, LocksOwned;
    assert PcOk(s, o, a);
    assert Maps(s, a, s.pcs[a].v, s.pcs[a].e.frame);
    forall w | (a, w) in s'.ptes && s'.ptes[(a, w)].writable
      ensures Has(s, a, w, s'.ptes[(a, w)]) && s.ptes[(a, w)].frame != s.pcs[a].e.frame
        && Sharers(s', a, w) == Sharers(s, a, w)
    {
      assert WritableOk(s, o, a, w);
    }
    hide PcOk, WritableOk, EntriesHold, CarriersHold, RefsCount, PointsOk;
    WritablesApart(s, o, s', a, s.pcs[a].e.frame, o[s.pcs[a].e.frame]);
  }

  lemma MapFailsKeeps(s: State, o: Holders, a: nat, s': State) returns (o': Holders)
    requires Inv(s, o) && a in s.pcs && OnMapFails(s, a) == Some(s')
    ensures Inv(s', o')
  {
    hide Stripe, LocksOwned, EntriesHold, CarriersHold, RefsCount, WritableOk, Moves, PcOk, PointsOk, WritablesOk;
    MapFailsMoves(s, o, a, s');
    LocksAfterMove(s, s', a, s'.pcs[a]);
    MapFailsPoint(s, o, a, s');
    MapFailsWritables(s, o, a, s');
    o' := o[s.pcs[a].e.frame := o[s.pcs[a].e.frame] - {InFlight(a)}];
    HolderStep(s, o, s', a, s.pcs[a].e.frame, o[s.pcs[a].e.frame] - {InFlight(a)}, a, s.pcs[a].v);
  }

  lemma MapFailsHolders(s: State, o: Holders, a: nat, s': State)
    requires Inv(s, o) && a in s.pcs && OnMapFails(s, a) == Some(s')
    ensures s.pcs[a].e.frame in o && s.pcs[a].e.frame in s.refs && s.refs[s.pcs[a].e.frame] == |o[s.pcs[a].e.frame]|
      && InFlight(a) in o[s.pcs[a].e.frame] && Mapped(a, s.pcs[a].v) in o[s.pcs[a].e.frame]
      && Maps(s, a, s.pcs[a].v, s.pcs[a].e.frame)
  {
    hide LocksOwned, Stripe, WritableOk;
    assert PcOk(s, o, a);
    assert Maps(s, a, s.pcs[a].v, s.pcs[a].e.frame);
  }

  lemma MapFailsMoves(s: State, o: Holders, a: nat, s': State)
    requires Inv(s, o) && a in s.pcs && OnMapFails(s, a) == Some(s')
    ensures s.pcs[a].e.frame in o
      && Moves(s, o, s', a, s.pcs[a].e.frame, o[s.pcs[a].e.frame] - {InFlight(a)}, a, s.pcs[a].v)
  {
    hide LocksOwned, Stripe, WritableOk, PcOk, PointsOk, RefsCount, EntriesHold, CarriersHold;
    MapFailsHolders(s, o, a, s');
    var f, x := s.pcs[a].e.frame, o[s.pcs[a].e.frame] - {InFlight(a)};
    assert Touches(s, s', o, a, f);
    assert s'.refs == s.refs[f := |x|];
    MemorySame(s, o, s', a);
    HeldIff(s, o, f, a, s.pcs[a].v);
    StableAfter(s, o, s', a, s'.pcs[a], f, x);
    hide StableRule, Unstable, Lock, Touches, MemoryRule;
    MovesFrom(s, o, s', a, f, x, a, s.pcs[a].v);
  }

  lemma MapFailsPoint(s: State, o: Holders, a: nat, s': State)
    requires Inv(s, o) && a in s.pcs && OnMapFails(s, a) == Some(s')
    ensures s.pcs[a].e.frame in o && a in s'.pcs
      && PcOk(s', o[s.pcs[a].e.frame := o[s.pcs[a].e.frame] - {InFlight(a)}], a)
  {
    hide Stripe, LocksOwned, WritableOk;
    assert PcOk(s, o, a);
  }

  lemma MapFailsWritables(s: State, o: Holders, a: nat, s': State)
    requires Inv(s, o) && a in s.pcs && OnMapFails(s, a) == Some(s')
    ensures s.pcs[a].e.frame in o && WritablesOk(s', o[s.pcs[a].e.frame := o[s.pcs[a].e.frame] - {InFlight(a)}], a)
  {
    hide Stripe, LocksOwned;
    assert PcOk(s, o, a);
    var f, v := s.pcs[a].e.frame, s.pcs[a].v;
    assert Maps(s, a, v, f);
    RecountWritable(s, o, s', a, v);
    hide PcOk, RefsCount, CarriersHold, Carry, Lock, EntriesHold;
    forall w | (a, w) in s'.ptes && s'.ptes[(a, w)].writable && w != v
      ensures WritableOk(s', o[f := o[f] - {InFlight(a)}], a, w)
    {
      assert WritableOk(s, o, a, w);
      OwnWritable(s, o, s', a, w, f, o[f] - {InFlight(a)});
    }
  }

  lemma ClearChildKeeps(s: State, o: Holders, a: nat, v: nat, s': State) returns (o': Holders)
    requires Inv(s, o) && a in s.pcs && OnClearChild(s, a, v) == Some(s')
    ensures Inv(s', o')
  {
    hide Stripe, LocksOwned, EntriesHold, CarriersHold, RefsCount, WritableOk, Moves, PcOk, PointsOk, WritablesOk;
    ClearChildMoves(s, o, a, v, s');
    LocksAfterMove(s, s', a, s'.pcs[a]);
    ClearChildPoint(s, o, a, v, s');
    ClearChildWritables(s, o, a, v, s');
    o' := o[s.ptes[(s.pcs[a].child, v)].frame :=
      o[s.ptes[(s.pcs[a].child, v)].frame] - {Mapped(s.pcs[a].child, v)} + {InFlight(a)}];
    HolderStep(s, o, s', a, s.ptes[(s.pcs[a].child, v)].frame,
      o[s.ptes[(s.pcs[a].child, v)].frame] - {Mapped(s.pcs[a].child, v)} + {InFlight(a)}, s.pcs[a].child, v);
  }

  lemma ClearChildHolders(s: State, o: Holders, a: nat, v: nat, s': State)
    requires Inv(s, o) && a in s.pcs && OnClearChild(s, a, v) == Some(s')
    ensures s.ptes[(s.pcs[a].child, v)].frame in o && s.ptes[(s.pcs[a].child, v)].frame in s.refs
      && s.refs[s.ptes[(s.pcs[a].child, v)].frame] == |o[s.ptes[(s.pcs[a].child, v)].frame]|
      && Mapped(s.pcs[a].child, v) in o[s.ptes[(s.pcs[a].child, v)].frame]
      && (forall g :: g in o ==> InFlight(a) !in o[g]) && s.pcs[a].child != a && s.pcs[a].child in s.pcs
      && s.pcs[s.pcs[a].child].Embryo?
  {
    hide LocksOwned, Stripe, WritableOk;
    assert PcOk(s, o, a);
    ChildFacts(s, o, a);
  }

  lemma ClearChildMoves(s: State, o: Holders, a: nat, v: nat, s': State)
    requires Inv(s, o) && a in s.pcs && OnClearChild(s, a, v) == Some(s')
    ensures s.ptes[(s.pcs[a].child, v)].frame in o
      && Moves(s, o, s', a, s.ptes[(s.pcs[a].child, v)].frame,
      o[s.ptes[(s.pcs[a].child, v)].frame] - {Mapped(s.pcs[a].child, v)} + {InFlight(a)}, s.pcs[a].child, v)
  {
    hide LocksOwned, Stripe, WritableOk, PcOk, PointsOk, RefsCount, EntriesHold, CarriersHold;
    ClearChildHolders(s, o, a, v, s');
    var f, x := s.ptes[(s.pcs[a].child, v)].frame,
      o[s.ptes[(s.pcs[a].child, v)].frame] - {Mapped(s.pcs[a].child, v)} + {InFlight(a)};
    SwapCard(o[f], Mapped(s.pcs[a].child, v), InFlight(a));
    assert Unstable(s, Mapped(s.pcs[a].child, v));
    assert Touches(s, s', o, a, f);
    assert s'.refs == s.refs[f := |x|];
    MemorySame(s, o, s', a);
    HeldIff(s, o, f, s.pcs[a].child, v);
    StableAfter(s, o, s', a, s'.pcs[a], f, x);
    hide StableRule, Unstable, Lock, Touches, MemoryRule;
    MovesFrom(s, o, s', a, f, x, s.pcs[a].child, v);
  }

  lemma ClearChildPoint(s: State, o: Holders, a: nat, v: nat, s': State)
    requires Inv(s, o) && a in s.pcs && OnClearChild(s, a, v) == Some(s')
    ensures s.ptes[(s.pcs[a].child, v)].frame in o && a in s'.pcs
      && PcOk(s', o[s.ptes[(s.pcs[a].child, v)].frame :=
      o[s.ptes[(s.pcs[a].child, v)].frame] - {Mapped(s.pcs[a].child, v)} + {InFlight(a)}], a)
  {
    hide Stripe, LocksOwned, WritableOk;
    assert PcOk(s, o, a);
    assert Maps(s', a, v, s.ptes[(s.pcs[a].child, v)].frame);
  }

  lemma ClearChildWritables(s: State, o: Holders, a: nat, v: nat, s': State)
    requires Inv(s, o) && a in s.pcs && OnClearChild(s, a, v) == Some(s')
    ensures s.ptes[(s.pcs[a].child, v)].frame in o
      && WritablesOk(s',
      o[s.ptes[(s.pcs[a].child, v)].frame :=
      o[s.ptes[(s.pcs[a].child, v)].frame] - {Mapped(s.pcs[a].child, v)} + {InFlight(a)}], a)
  {
    hide Stripe, LocksOwned;
    assert PcOk(s, o, a);
    assert Maps(s, s.pcs[a].child, v, s.ptes[(s.pcs[a].child, v)].frame);
    forall w | (a, w) in s'.ptes && s'.ptes[(a, w)].writable
      ensures Has(s, a, w, s'.ptes[(a, w)]) && s.ptes[(a, w)].frame != s.ptes[(s.pcs[a].child, v)].frame
        && Sharers(s', a, w) == Sharers(s, a, w)
    {
      assert WritableOk(s, o, a, w);
    }
    hide PcOk, WritableOk, EntriesHold, CarriersHold, RefsCount, PointsOk;
    WritablesApart(s, o, s', a, s.ptes[(s.pcs[a].child, v)].frame,
      o[s.ptes[(s.pcs[a].child, v)].frame] - {Mapped(s.pcs[a].child, v)} + {InFlight(a)});
  }

  lemma FreeChildKeeps(s: State, o: Holders, a: nat, s': State) returns (o': Holders)
    requires Inv(s, o) && a in s.pcs && OnFreeChild(s, a) == Some(s')
    ensures Inv(s', o')
  {
    hide Stripe, LocksOwned, EntriesHold, CarriersHold, RefsCount, WritableOk, Moves, PcOk, PointsOk, WritablesOk;
    FreeChildMoves(s, o, a, s');
    LocksAfterMove(s, s', a, s'.pcs[a]);
    FreeChildPoint(s, o, a, s');
    FreeChildWritables(s, o, a, s');
    o' := o[s.pcs[a].g := o[s.pcs[a].g] - {InFlight(a)}];
    HolderStep(s, o, s', a, s.pcs[a].g, o[s.pcs[a].g] - {InFlight(a)}, a, 0);
  }

  lemma FreeChildHolders(s: State, o: Holders, a: nat, s': State)
    requires Inv(s, o) && a in s.pcs && OnFreeChild(s, a) == Some(s')
    ensures s.pcs[a].g in o && s.pcs[a].g in s.refs && s.refs[s.pcs[a].g] == |o[s.pcs[a].g]|
      && InFlight(a) in o[s.pcs[a].g] && ((a, 0) in s.ptes ==> s.ptes[(a, 0)].frame in o)
  {
    hide LocksOwned, Stripe, WritableOk;
    assert PcOk(s, o, a);
  }

  lemma FreeChildMoves(s: State, o: Holders, a: nat, s': State)
    requires Inv(s, o) && a in s.pcs && OnFreeChild(s, a) == Some(s')
    ensures s.pcs[a].g in o && Moves(s, o, s', a, s.pcs[a].g, o[s.pcs[a].g] - {InFlight(a)}, a, 0)
  {
    hide LocksOwned, Stripe, WritableOk, PcOk, PointsOk, RefsCount, EntriesHold, CarriersHold;
    FreeChildHolders(s, o, a, s');
    var f, x := s.pcs[a].g, o[s.pcs[a].g] - {InFlight(a)};
    assert Unstable(s, InFlight(a));
    assert Touches(s, s', o, a, f);
    assert s'.refs == s.refs[f := |x|];
    MemorySame(s, o, s', a);
    HeldIff(s, o, f, a, 0);
    StableAfter(s, o, s', a, s'.pcs[a], f, x);
    hide StableRule, Unstable, Lock, Touches, MemoryRule;
    MovesFrom(s, o, s', a, f, x, a, 0);
  }

  lemma FreeChildPoint(s: State, o: Holders, a: nat, s': State)
    requires Inv(s, o) && a in s.pcs && OnFreeChild(s, a) == Some(s')
    ensures s.pcs[a].g in o && a in s'.pcs && PcOk(s', o[s.pcs[a].g := o[s.pcs[a].g] - {InFlight(a)}], a)
  {
    hide Stripe, LocksOwned, WritableOk;
    assert PcOk(s, o, a);
  }

  lemma FreeChildWritables(s: State, o: Holders, a: nat, s': State)
    requires Inv(s, o) && a in s.pcs && OnFreeChild(s, a) == Some(s')
    ensures s.pcs[a].g in o && WritablesOk(s', o[s.pcs[a].g := o[s.pcs[a].g] - {InFlight(a)}], a)
  {
    hide Stripe, LocksOwned;
    assert PcOk(s, o, a);
    assert InFlight(a) in o[s.pcs[a].g];
    forall w | (a, w) in s'.ptes && s'.ptes[(a, w)].writable
      ensures Has(s, a, w, s'.ptes[(a, w)]) && s.ptes[(a, w)].frame != s.pcs[a].g
        && Sharers(s', a, w) == Sharers(s, a, w)
    {
      assert WritableOk(s, o, a, w);
    }
    hide PcOk, WritableOk, EntriesHold, CarriersHold, RefsCount, PointsOk;
    WritablesApart(s, o, s', a, s.pcs[a].g, o[s.pcs[a].g] - {InFlight(a)});
  }

  lemma StoreMemory(s: State, o: Holders, a: nat, v: nat, off: nat, byte: bv8, s': State)
    requires RefsCount(s, o) && a in s.pcs && (a, v) in s.ptes && WritableOk(s, o, a, v)
      && OnStoreByte(s, a, v, off, byte) == Some(s')
    ensures MemoryRule(s, o, s', a) && o[s.ptes[(a, v)].frame] == {Mapped(a, v)}
  {
  }

  lemma CountWritable(s: State, o: Holders, s': State, a: nat, v: nat)
    requires Inv(s, o) && a in s.pcs && OnCountPage(s, a) == Some(s') && s.pcs[a].v == v
      && Maps(s, a, v, s.pcs[a].e.frame)
    ensures var f := s.pcs[a].e.frame; s.ptes[(a, v)].writable ==> WritableOk(s', o[f := o[f] + {InFlight(a)}], a, v)
  {
    if s.ptes[(a, v)].writable { assert WritableOk(s, o, a, v); }
  }

  lemma ShareWritable(s: State, o: Holders, s': State, a: nat, v: nat)
    requires Inv(s, o) && a in s.pcs && OnMapPage(s, a) == Some(s') && s.pcs[a].v == v
      && Maps(s, a, v, s.pcs[a].e.frame)
    requires s.pcs[a].child != a
    ensures var f := s.pcs[a].e.frame; s.ptes[(a, v)].writable ==>
      WritableOk(s', o[f := o[f] - {InFlight(a)} + {Mapped(s.pcs[a].child, v)}], a, v)
  {
    hide LocksOwned, PointsOk, Carry, RefsCount;
    if s.ptes[(a, v)].writable { assert WritableOk(s, o, a, v); }
  }

  lemma RecountWritable(s: State, o: Holders, s': State, a: nat, v: nat)
    requires Inv(s, o) && a in s.pcs && OnMapFails(s, a) == Some(s') && s.pcs[a].v == v
      && Maps(s, a, v, s.pcs[a].e.frame)
    ensures var f := s.pcs[a].e.frame; s.ptes[(a, v)].writable ==> WritableOk(s', o[f := o[f] - {InFlight(a)}], a, v)
  {
    if s.ptes[(a, v)].writable { assert WritableOk(s, o, a, v); }
  }
}
