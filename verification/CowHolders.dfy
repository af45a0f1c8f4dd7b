/** What every interleaving keeps: for each frame, the holders its reference count stands for. */
module CowHolders {
  import opened CowTables
  import opened CowThreads
  import opened Options

  /** A counted reference: a page-table entry, or one carried by a thread between two steps. */
  datatype Holder = Mapped(a: nat, v: nat) | InFlight(a: nat)

  type Holders = map<nat, set<Holder>>

  ghost predicate Maps(s: State, a: nat, v: nat, f: nat) {
    (a, v) in s.ptes && s.ptes[(a, v)].frame == f
  }

  /** The entry's reference has been given back, though the entry is not rewritten yet. */
  predicate Dropped(s: State, a: nat, v: nat) {
    a in s.pcs && s.pcs[a].CowDropped? && s.pcs[a].v == v
  }

  function ChildOf(pc: Pc): Option<nat> {
    match pc
    case ForkNext(c, _) => Some(c)
    case ForkRead(c, _, _, _) => Some(c)
    case ForkLocked(c, _, _, _) => Some(c)
    case ForkCounted(c, _, _, _) => Some(c)
    case ForkMapped(c, _, _, _) => Some(c)
    case ForkUndo(c, _) => Some(c)
    case ForkUndoFree(c, _, _) => Some(c)
    case _ => None
  }

  /** A holder that may give its reference back without the frame's lock. */
  predicate Unstable(s: State, h: Holder) {
    h.a in s.pcs && if h.Mapped? then s.pcs[h.a].Embryo? else s.pcs[h.a].ForkUndoFree?
  }

  ghost predicate OtherHolder(s: State, o: Holders, f: nat, a: nat, v: nat) {
    f in o && exists h :: h in o[f] && h != Mapped(a, v) && !Unstable(s, h)
  }

  ghost predicate Unmapped(s: State, f: nat) {
    forall a, v :: (a, v) in s.ptes ==> s.ptes[(a, v)].frame != f
  }

  /** A frame that only thread `a` knows. */
  ghost predicate Private(s: State, o: Holders, a: nat, f: nat) {
    f in o && o[f] == {InFlight(a)} && Unmapped(s, f)
  }

  ghost predicate Has(s: State, a: nat, v: nat, e: Pte) {
    (a, v) in s.ptes && s.ptes[(a, v)] == e
  }

  /** Every page of an unfinished child is a read-only second mapping of its parent's page. */
  ghost predicate ChildOk(s: State, a: nat, c: nat, todo: set<nat>) {
    && c != a && c in s.pcs && s.pcs[c] == Embryo(a)
    && (forall v :: v in todo ==> (a, v) in s.ptes && (c, v) !in s.ptes)
    && (forall v :: (c, v) in s.ptes ==>
      (a, v) in s.ptes && s.ptes[(a, v)].frame == s.ptes[(c, v)].frame && !s.ptes[(c, v)].writable)
  }

  /** Every page of the parent is still to do or already in the child. */
  ghost predicate Covers(s: State, a: nat, c: nat, todo: set<nat>) {
    forall v: nat :: (a, v) in s.ptes ==> v in todo || (c, v) in s.ptes
  }

  ghost predicate SharedEntry(s: State, o: Holders, a: nat, v: nat, e: Pte) {
    Has(s, a, v, e) && e.cow && OtherHolder(s, o, e.frame, a, v)
  }

  ghost predicate Copied(s: State, f: nat, g: nat) {
    f in s.mem && g in s.mem && s.mem[g] == s.mem[f]
  }

  /** What is known at each program point. */
  ghost predicate PcOk(s: State, o: Holders, a: nat)
    requires a in s.pcs
  {
    match s.pcs[a]
    case Idle => true
    case Embryo(p) => p in s.pcs && p != a && ChildOf(s.pcs[p]) == Some(a)
    case CowRead(v, f) => Maps(s, a, v, f) && s.ptes[(a, v)].cow
    case CowLocked(v, f) => Maps(s, a, v, f) && s.ptes[(a, v)].cow
    case CowChecked(v, e) => Has(s, a, v, e) && e.cow
    case CowExclusive(v, e) => Has(s, a, v, e) && e.cow && e.frame in o && o[e.frame] == {Mapped(a, v)}
    case CowShared(v, e) => SharedEntry(s, o, a, v, e)
    case CowAllocated(v, e, g) => SharedEntry(s, o, a, v, e) && Private(s, o, a, g)
    case CowCopied(v, e, g) => SharedEntry(s, o, a, v, e) && Private(s, o, a, g) && Copied(s, e.frame, g)
    case CowDropped(v, e, g) => SharedEntry(s, o, a, v, e) && Private(s, o, a, g) && Copied(s, e.frame, g)
    case UnmapCleared(_) => true
    case UnmapLocked(_) => true
    case ForkNext(c, todo) => ChildOk(s, a, c, todo) && Covers(s, a, c, todo)
    case ForkRead(c, todo, v, e) =>
      ChildOk(s, a, c, todo + {v}) && Covers(s, a, c, todo + {v}) && Has(s, a, v, e) && v !in todo
    case ForkLocked(c, todo, v, e) =>
      ChildOk(s, a, c, todo + {v}) && Covers(s, a, c, todo + {v}) && Has(s, a, v, e) && v !in todo
    case ForkCounted(c, todo, v, e) =>
      ChildOk(s, a, c, todo + {v}) && Covers(s, a, c, todo + {v}) && Has(s, a, v, e) && v !in todo
    case ForkMapped(c, todo, v, e) =>
      ChildOk(s, a, c, todo) && Covers(s, a, c, todo) && Has(s, a, v, e) && Has(s, c, v, ForkPte(e)) && v !in todo
    case ForkUndo(c, _) => ChildOk(s, a, c, {})
    case ForkUndoFree(c, _, g) => ChildOk(s, a, c, {}) && exists v :: Maps(s, a, v, g)
  }

  ghost predicate PointsOk(s: State, o: Holders) {
    forall a :: a in s.pcs ==> PcOk(s, o, a)
  }

  ghost predicate RefsCount(s: State, o: Holders) {
    && o.Keys == s.refs.Keys == s.mem.Keys
    && forall f :: f in o ==> s.refs[f] == |o[f]|
  }

  ghost predicate EntriesHold(s: State, o: Holders) {
    && (forall a, v :: (a, v) in s.ptes ==> a in s.pcs && s.ptes[(a, v)].frame in o)
    && (forall f, a, v :: f in o ==> (Mapped(a, v) in o[f] <==> Maps(s, a, v, f) && !Dropped(s, a, v)))
  }

  ghost predicate CarriersHold(s: State, o: Holders) {
    && (forall a :: a in s.pcs && Carry(s.pcs[a]).Some? ==> Carry(s.pcs[a]).value in o)
    && (forall f, a :: f in o ==> (InFlight(a) in o[f] <==> a in s.pcs && Carry(s.pcs[a]) == Some(f)))
  }

  ghost predicate LocksOwned(s: State) {
    forall a :: a in s.pcs && Lock(s.pcs[a]).Some? ==>
      var p := Stripe(Lock(s.pcs[a]).value); p in s.locks && s.locks[p] == a
  }

  /** The fork of `(a, v)` is between raising the count and taking the parent's write permission away. */
  predicate Counting(s: State, a: nat, v: nat) {
    a in s.pcs && s.pcs[a].ForkCounted? && s.pcs[a].v == v
  }

  predicate Sharing(s: State, a: nat, v: nat) {
    a in s.pcs && s.pcs[a].ForkMapped? && s.pcs[a].v == v
  }

  function Sharers(s: State, a: nat, v: nat): set<Holder> {
    if Counting(s, a, v) then {Mapped(a, v), InFlight(a)}
    else if Sharing(s, a, v) then {Mapped(a, v), Mapped(s.pcs[a].child, v)}
    else {Mapped(a, v)}
  }

  /** A writable entry is not copy-on-write, and its frame has no other holder and no other mapping. */
  ghost predicate WritableOk(s: State, o: Holders, a: nat, v: nat)
    requires (a, v) in s.ptes
  {
    var e := s.ptes[(a, v)];
    && !e.cow && e.frame in o && o[e.frame] == Sharers(s, a, v)
    && forall b, w :: Maps(s, b, w, e.frame) ==> Mapped(b, w) in Sharers(s, a, v)
  }

  ghost predicate Inv(s: State, o: Holders) {
    && RefsCount(s, o) && EntriesHold(s, o) && CarriersHold(s, o) && LocksOwned(s)
    && PointsOk(s, o)
    && (forall a, v :: (a, v) in s.ptes && s.ptes[(a, v)].writable ==> WritableOk(s, o, a, v))
  }

  // ---------------------------------------------------------------- what the invariant says at once

  lemma MappedFrameIsHeld(s: State, o: Holders, a: nat, v: nat)
    requires Inv(s, o) && (a, v) in s.ptes
    ensures s.ptes[(a, v)].frame in s.refs && s.refs[s.ptes[(a, v)].frame] > 0
    ensures o[s.ptes[(a, v)].frame] != {}
  {
    var f := s.ptes[(a, v)].frame;
    if Dropped(s, a, v) {
      assert PcOk(s, o, a);
      var h :| h in o[f];
    } else {
      assert Mapped(a, v) in o[f];
    }
  }

  lemma FreeIsUnmapped(s: State, o: Holders, f: nat)
    requires Inv(s, o) && f in s.refs && s.refs[f] == 0
    ensures Unmapped(s, f) && o[f] == {}
  {
    forall a, v | (a, v) in s.ptes ensures s.ptes[(a, v)].frame != f {
      MappedFrameIsHeld(s, o, a, v);
    }
  }

  lemma OneLock(s: State, a: nat, b: nat, f: nat)
    requires LocksOwned(s) && a in s.pcs && b in s.pcs
    requires Lock(s.pcs[a]) == Some(f) && Lock(s.pcs[b]) == Some(f)
    ensures a == b
  {
    assert s.locks[Stripe(f)] == a && s.locks[Stripe(f)] == b;
  }

  // ---------------------------------------------------------------- what a step of `a` leaves to the others

  predicate Mine(s: State, s': State, a: nat, b: nat) {
    b == a || (a in s.pcs && ChildOf(s.pcs[a]) == Some(b)) || (a in s'.pcs && ChildOf(s'.pcs[a]) == Some(b))
  }

  ghost predicate Touches(s: State, s': State, o: Holders, a: nat, f: nat) {
    f in o && (o[f] == {} || exists h :: h in o[f] && Mine(s, s', a, h.a))
  }

  /** The stepping thread is nobody's unfinished child, and takes on at most one new child. */
  ghost predicate Steps(s: State, s': State, a: nat) {
    && a in s.pcs && !s.pcs[a].Embryo? && a in s'.pcs
    && var c, c' := ChildOf(s.pcs[a]), ChildOf(s'.pcs[a]);
    c' == c || c'.None? || c'.value !in s.pcs
  }

  ghost predicate Elsewhere(s: State, s': State, a: nat) {
    && Steps(s, s', a)
    && (forall b: nat :: !Mine(s, s', a, b) ==> (b in s.pcs <==> b in s'.pcs))
    && (forall b: nat :: !Mine(s, s', a, b) && b in s.pcs ==> s'.pcs[b] == s.pcs[b])
    && (forall b: nat, w: nat :: !Mine(s, s', a, b) ==> ((b, w) in s.ptes <==> (b, w) in s'.ptes))
    && (forall b: nat, w: nat :: !Mine(s, s', a, b) && (b, w) in s.ptes ==> s'.ptes[(b, w)] == s.ptes[(b, w)])
  }

  ghost predicate HoldersRule(s: State, o: Holders, s': State, o': Holders, a: nat) {
    && o.Keys == o'.Keys
    && (forall f :: f in o && o'[f] != o[f] ==> Touches(s, s', o, a, f))
    && (forall b, w :: (b, w) in s'.ptes && !Maps(s, b, w, s'.ptes[(b, w)].frame) ==>
      Touches(s, s', o, a, s'.ptes[(b, w)].frame))
  }

  ghost predicate MemoryRule(s: State, o: Holders, s': State, a: nat) {
    && s.mem.Keys == s'.mem.Keys == o.Keys
    && (forall f :: f in s.mem && s'.mem[f] != s.mem[f] ==>
          (forall b, w :: Maps(s, b, w, f) ==> b == a) && (forall b :: b != a ==> InFlight(b) !in o[f]))
  }

  /** A stable holder goes only under the frame's lock, or leaves a stable one of the same thread. */
  ghost predicate StableRule(s: State, o: Holders, s': State, o': Holders, a: nat)
    requires a in s.pcs && o.Keys == o'.Keys
  {
    forall f, h :: f in o && h in o[f] && !Unstable(s, h) && Lock(s.pcs[a]) != Some(f) ==> StillHeld(s', o', a, f, h)
  }

  ghost predicate StillHeld(s': State, o': Holders, a: nat, f: nat, h: Holder)
    requires f in o'
  {
    (h in o'[f] && !Unstable(s', h)) || (exists h' :: h' in o'[f] && h'.a == a && !Unstable(s', h'))
  }

  lemma SharedKept(s: State, o: Holders, s': State, o': Holders, a: nat, b: nat, v: nat, e: Pte)
    requires LocksOwned(s) && b in s.pcs && Elsewhere(s, s', a) && !Mine(s, s', a, b)
    requires o.Keys == o'.Keys && StableRule(s, o, s', o', a)
    requires SharedEntry(s, o, b, v, e) && Lock(s.pcs[b]) == Some(e.frame)
    ensures SharedEntry(s', o', b, v, e)
  {
    var f := e.frame;
    if Lock(s.pcs[a]) == Some(f) { OneLock(s, a, b, f); }
    hide Lock, LocksOwned, Unstable;
    var h :| h in o[f] && h != Mapped(b, v) && !Unstable(s, h);
    assert StillHeld(s', o', a, f, h);
  }

  lemma PrivateKept(s: State, o: Holders, s': State, o': Holders, a: nat, b: nat, f: nat)
    requires !Mine(s, s', a, b) && HoldersRule(s, o, s', o', a)
    requires Private(s, o, b, f)
    ensures Private(s', o', b, f)
  {
    assert !Touches(s, s', o, a, f);
    assert forall c, w :: (c, w) in s.ptes ==> !Maps(s, c, w, f);
  }

  lemma CopiedKept(s: State, o: Holders, s': State, a: nat, b: nat, v: nat, e: Pte, g: nat)
    requires b != a && MemoryRule(s, o, s', a)
    requires Has(s, b, v, e) && Private(s, o, b, g) && Copied(s, e.frame, g)
    ensures Copied(s', e.frame, g)
  {
    assert Maps(s, b, v, e.frame);
    assert InFlight(b) in o[g];
  }

  lemma ChildKept(s: State, s': State, a: nat, b: nat, c: nat, todo: set<nat>)
    requires Elsewhere(s, s', a) && !Mine(s, s', a, b) && !Mine(s, s', a, c)
    requires ChildOk(s, b, c, todo)
    ensures ChildOk(s', b, c, todo) && (Covers(s, b, c, todo) ==> Covers(s', b, c, todo))
  {
  }

  lemma ChildFacts(s: State, o: Holders, b: nat)
    requires b in s.pcs && PcOk(s, o, b) && ChildOf(s.pcs[b]).Some?
    ensures ChildOf(s.pcs[b]).value in s.pcs && s.pcs[ChildOf(s.pcs[b]).value] == Embryo(b)
  {
  }

  lemma OthersChild(s: State, o: Holders, s': State, a: nat, b: nat)
    requires PointsOk(s, o) && Steps(s, s', a) && b in s.pcs && !Mine(s, s', a, b) && ChildOf(s.pcs[b]).Some?
    ensures !Mine(s, s', a, ChildOf(s.pcs[b]).value)
  {
    hide PcOk;
    ChildFacts(s, o, b);
    if ChildOf(s.pcs[a]).Some? { ChildFacts(s, o, a); }
  }

  lemma OthersParent(s: State, o: Holders, s': State, a: nat, b: nat)
    requires PointsOk(s, o) && Elsewhere(s, s', a) && b in s.pcs && !Mine(s, s', a, b) && s.pcs[b].Embryo?
    ensures var p := s.pcs[b].parent; p in s'.pcs && p != b && ChildOf(s'.pcs[p]) == Some(b)
  {
    var p := s.pcs[b].parent;
    assert PcOk(s, o, b);
    hide PcOk;
    if ChildOf(s.pcs[a]).Some? { ChildFacts(s, o, a); }
    ChildFacts(s, o, p);
  }

  lemma ForkersKeep(s: State, o: Holders, s': State, o': Holders, a: nat, b: nat)
    requires PointsOk(s, o) && Elsewhere(s, s', a) && b in s.pcs && !Mine(s, s', a, b) && ChildOf(s.pcs[b]).Some?
    ensures b in s'.pcs && PcOk(s', o', b)
  {
    assert PcOk(s, o, b);
    OthersChild(s, o, s', a, b);
    var pc := s.pcs[b];
    var todo := if pc.ForkNext? || pc.ForkMapped? then pc.todo else if pc.ForkUndo? || pc.ForkUndoFree? then {}
      else pc.todo + {pc.v};
    ChildKept(s, s', a, b, ChildOf(pc).value, todo);
    if pc.ForkUndoFree? {
      var v :| Maps(s, b, v, pc.g);
      assert Maps(s', b, v, pc.g);
    }
  }

  lemma ResolversKeep(s: State, o: Holders, s': State, o': Holders, a: nat, b: nat)
    requires PointsOk(s, o) && LocksOwned(s) && Elsewhere(s, s', a) && b in s.pcs && !Mine(s, s', a, b)
    requires HoldersRule(s, o, s', o', a) && StableRule(s, o, s', o', a) && MemoryRule(s, o, s', a)
    requires s.pcs[b].CowShared? || s.pcs[b].CowAllocated? || s.pcs[b].CowCopied? || s.pcs[b].CowDropped?
    ensures b in s'.pcs && PcOk(s', o', b)
  {
    assert PcOk(s, o, b);
    var pc := s.pcs[b];
    assert Lock(pc) == Some(pc.e.frame);
    hide Lock, Carry, ChildOf, LocksOwned, HoldersRule, StableRule, MemoryRule, Private, Copied, Unstable, OtherHolder;
    SharedKept(s, o, s', o', a, b, pc.v, pc.e);
    if !pc.CowShared? { PrivateKept(s, o, s', o', a, b, pc.copy); }
    if pc.CowCopied? || pc.CowDropped? { CopiedKept(s, o, s', a, b, pc.v, pc.e, pc.copy); }
  }

  lemma OthersKeep(s: State, o: Holders, s': State, o': Holders, a: nat, b: nat)
    requires PointsOk(s, o) && LocksOwned(s) && Elsewhere(s, s', a) && b in s.pcs && !Mine(s, s', a, b)
    requires HoldersRule(s, o, s', o', a) && StableRule(s, o, s', o', a) && MemoryRule(s, o, s', a)
    ensures b in s'.pcs && PcOk(s', o', b)
  {
    hide Lock, Carry, LocksOwned, StableRule, MemoryRule, Private, Copied, Unstable, OtherHolder, ChildOk;
    assert PcOk(s, o, b);
    var pc := s.pcs[b];
    if ChildOf(pc).Some? {
      ForkersKeep(s, o, s', o', a, b);
    } else if pc.Embryo? {
      OthersParent(s, o, s', a, b);
    } else if pc.CowShared? || pc.CowAllocated? || pc.CowCopied? || pc.CowDropped? {
      ResolversKeep(s, o, s', o', a, b);
    } else if pc.CowExclusive? {
      assert !Touches(s, s', o, a, pc.e.frame);
    }
  }

  lemma OthersWritable(s: State, o: Holders, s': State, o': Holders, a: nat, b: nat, v: nat)
    requires PointsOk(s, o) && Elsewhere(s, s', a) && !Mine(s, s', a, b) && HoldersRule(s, o, s', o', a)
    requires (b, v) in s.ptes && WritableOk(s, o, b, v)
    ensures (b, v) in s'.ptes && WritableOk(s', o', b, v)
  {
    var f := s.ptes[(b, v)].frame;
    assert Sharers(s', b, v) == Sharers(s, b, v);
    if Sharing(s, b, v) { OthersChild(s, o, s', a, b); }
    hide PcOk;
    assert !Touches(s, s', o, a, f);
    forall c, w | Maps(s', c, w, f) ensures Mapped(c, w) in Sharers(s, b, v) {
      assert Maps(s, c, w, f);
    }
  }
}
