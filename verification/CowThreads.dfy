/** Copy-on-write under concurrency (rust/kernel/src/paging.rs, rust/kernel/src/process.rs): one thread per address
    space, every PTE access, lock, reference-count update and page copy a step of its own, in any interleaving. */
module CowThreads {
  import opened CowTables
  import opened Options

  /** Bitwise exclusive or of two naturals. */
  function Xor(x: nat, y: nat): nat {
    if x == 0 && y == 0 then 0 else (x % 2 + y % 2) % 2 + 2 * Xor(x / 2, y / 2)
  }

  const COW_LOCK_STRIPES: nat := 1024

  /** The lock that guards a frame: `(pfn ^ (pfn >> 10)) % 1024`. */
  function Stripe(f: nat): nat {
    Xor(f, f / 1024) % COW_LOCK_STRIPES
  }

  /** Where a thread is.  A thread named `Embryo` belongs to a fork that has not finished. */
  datatype Pc =
    | Idle
    | Embryo(parent: nat)
      // resolve_cow_page
    | CowRead(v: nat, f: nat)
    | CowLocked(v: nat, f: nat)
    | CowChecked(v: nat, e: Pte)
    | CowExclusive(v: nat, e: Pte)
    | CowShared(v: nat, e: Pte)
    | CowAllocated(v: nat, e: Pte, copy: nat)
    | CowCopied(v: nat, e: Pte, copy: nat)
    | CowDropped(v: nat, e: Pte, copy: nat)
      // munmap: unmap, lock, free
    | UnmapCleared(f: nat)
    | UnmapLocked(f: nat)
      // clone_user_address_space: per page read, lock, count, map, protect
    | ForkNext(child: nat, todo: set<nat>)
    | ForkRead(child: nat, todo: set<nat>, v: nat, e: Pte)
    | ForkLocked(child: nat, todo: set<nat>, v: nat, e: Pte)
    | ForkCounted(child: nat, todo: set<nat>, v: nat, e: Pte)
    | ForkMapped(child: nat, todo: set<nat>, v: nat, e: Pte)
      // its failure path, which keeps the lock of the failing page and frees the others without theirs
    | ForkUndo(child: nat, f: nat)
    | ForkUndoFree(child: nat, f: nat, g: nat)

  type Key = (nat, nat)

  datatype State = State(ptes: map<Key, Pte>, refs: map<nat, nat>, mem: map<nat, Page>, locks: map<nat, nat>,
    pcs: map<nat, Pc>)

  /** The frame whose lock a thread holds. */
  function Lock(pc: Pc): Option<nat> {
    match pc
    case CowLocked(_, f) => Some(f)
    case CowChecked(_, e) => Some(e.frame)
    case CowExclusive(_, e) => Some(e.frame)
    case CowShared(_, e) => Some(e.frame)
    case CowAllocated(_, e, _) => Some(e.frame)
    case CowCopied(_, e, _) => Some(e.frame)
    case CowDropped(_, e, _) => Some(e.frame)
    case UnmapLocked(f) => Some(f)
    case ForkLocked(_, _, _, e) => Some(e.frame)
    case ForkCounted(_, _, _, e) => Some(e.frame)
    case ForkMapped(_, _, _, e) => Some(e.frame)
    case ForkUndo(_, f) => Some(f)
    case ForkUndoFree(_, f, _) => Some(f)
    case _ => None
  }

  /** The frame on which a thread holds a counted reference that no page-table entry accounts for. */
  function Carry(pc: Pc): Option<nat> {
    match pc
    case CowAllocated(_, _, g) => Some(g)
    case CowCopied(_, _, g) => Some(g)
    case CowDropped(_, _, g) => Some(g)
    case UnmapCleared(f) => Some(f)
    case UnmapLocked(f) => Some(f)
    case ForkCounted(_, _, _, e) => Some(e.frame)
    case ForkUndoFree(_, _, g) => Some(g)
    case _ => None
  }

  // ---------------------------------------------------------------- the steps

  function At(s: State, a: nat, pc: Pc): State { s.(pcs := s.pcs[a := pc]) }

  function Taken(s: State, a: nat, f: nat): State { s.(locks := s.locks[Stripe(f) := a]) }

  function Released(s: State, f: nat): State { s.(locks := s.locks - {Stripe(f)}) }

  function SetEntry(s: State, k: Key, p: Pte): State { s.(ptes := s.ptes[k := p]) }

  function SetRefs(s: State, f: nat, r: nat): State { s.(refs := s.refs[f := r]) }

  datatype Step =
    | StartCow(v: nat) | LockCow | Reread | TestRefs | Upgrade | Allocate(g: nat) | NoMemory | Copy | Drop | WriteCopy
    | StoreByte(v: nat, off: nat, b: bv8) | MapFresh(v: nat, g: nat, w: bool)
    | Clear(v: nat) | LockUnmap | FreeUnmapped
    | StartFork(child: nat) | ReadPage(v: nat) | LockPage | CountPage | MapPage | Protect | EndFork
    | MapFails | ClearChild(v: nat) | FreeChild | Abort

  // resolve_cow_page

  function OnStartCow(s: State, a: nat, v: nat): Option<State>
    requires a in s.pcs
  {
    var pc := s.pcs[a];
    if pc.Idle? && (a, v) in s.ptes && s.ptes[(a, v)].cow then Some(At(s, a, CowRead(v, s.ptes[(a, v)].frame)))
      else None
  }

  function OnLockCow(s: State, a: nat): Option<State>
    requires a in s.pcs
  {
    var pc := s.pcs[a];
    if pc.CowRead? && Stripe(pc.f) !in s.locks then Some(At(Taken(s, a, pc.f), a, CowLocked(pc.v, pc.f))) else None
  }

  function OnReread(s: State, a: nat): Option<State>
    requires a in s.pcs
  {
    var pc := s.pcs[a];
    if !pc.CowLocked? then None
    else if (a, pc.v) in s.ptes && s.ptes[(a, pc.v)].cow
      then Some(At(s, a, CowChecked(pc.v, s.ptes[(a, pc.v)].(frame := pc.f))))
    else Some(At(Released(s, pc.f), a, Idle))
  }

  function OnTestRefs(s: State, a: nat): Option<State>
    requires a in s.pcs
  {
    var pc := s.pcs[a];
    if !pc.CowChecked? || pc.e.frame !in s.refs then None
    else if s.refs[pc.e.frame] <= 1 then Some(At(s, a, CowExclusive(pc.v, pc.e)))
      else Some(At(s, a, CowShared(pc.v, pc.e)))
  }

  function OnUpgrade(s: State, a: nat): Option<State>
    requires a in s.pcs
  {
    var pc := s.pcs[a];
    if pc.CowExclusive?
    then Some(At(Released(SetEntry(s, (a, pc.v), pc.e.(writable := true, cow := false)), pc.e.frame), a, Idle))
      else None
  }

  function OnAllocate(s: State, a: nat, g: nat): Option<State>
    requires a in s.pcs
  {
    var pc := s.pcs[a];
    if pc.CowShared? && g in s.refs && s.refs[g] == 0 then Some(At(SetRefs(s, g, 1), a, CowAllocated(pc.v, pc.e, g)))
      else None
  }

  function OnNoMemory(s: State, a: nat): Option<State>
    requires a in s.pcs
  {
    var pc := s.pcs[a];
    if pc.CowShared? then Some(At(Released(s, pc.e.frame), a, Idle)) else None
  }

  function OnCopy(s: State, a: nat): Option<State>
    requires a in s.pcs
  {
    var pc := s.pcs[a];
    if pc.CowAllocated? && pc.e.frame in s.mem
    then Some(At(s.(mem := s.mem[pc.copy := s.mem[pc.e.frame]]), a, CowCopied(pc.v, pc.e, pc.copy))) else None
  }

  function OnDrop(s: State, a: nat): Option<State>
    requires a in s.pcs
  {
    var pc := s.pcs[a];
    if pc.CowCopied? && pc.e.frame in s.refs && s.refs[pc.e.frame] > 0
    then Some(At(SetRefs(s, pc.e.frame, s.refs[pc.e.frame] - 1), a, CowDropped(pc.v, pc.e, pc.copy))) else None
  }

  function OnWriteCopy(s: State, a: nat): Option<State>
    requires a in s.pcs
  {
    var pc := s.pcs[a];
    if pc.CowDropped?
    then Some(At(Released(SetEntry(s, (a, pc.v), pc.e.(frame := pc.copy, writable := true, cow := false)), pc.e.frame),
      a, Idle))
    else None
  }

  // user stores and demand-zero faults

  function OnStoreByte(s: State, a: nat, v: nat, off: nat, b: bv8): Option<State>
    requires a in s.pcs
  {
    var pc := s.pcs[a];
    if pc.Idle? && (a, v) in s.ptes && s.ptes[(a, v)].writable && s.ptes[(a, v)].frame in s.mem
      && off < |s.mem[s.ptes[(a, v)].frame]|
    then var f := s.ptes[(a, v)].frame; Some(s.(mem := s.mem[f := s.mem[f][off := b]])) else None
  }

  function OnMapFresh(s: State, a: nat, v: nat, g: nat, w: bool): Option<State>
    requires a in s.pcs
  {
    var pc := s.pcs[a];
    if pc.Idle? && (a, v) !in s.ptes && g in s.refs && s.refs[g] == 0
    then Some(SetEntry(SetRefs(s, g, 1), (a, v), Pte(g, w, false, 0)).(mem := s.mem[g := ZeroPage()])) else None
  }

  // munmap

  function OnClear(s: State, a: nat, v: nat): Option<State>
    requires a in s.pcs
  {
    var pc := s.pcs[a];
    if pc.Idle? && (a, v) in s.ptes then Some(At(s.(ptes := s.ptes - {(a, v)}), a, UnmapCleared(s.ptes[(a, v)].frame)))
      else None
  }

  function OnLockUnmap(s: State, a: nat): Option<State>
    requires a in s.pcs
  {
    var pc := s.pcs[a];
    if pc.UnmapCleared? && Stripe(pc.f) !in s.locks then Some(At(Taken(s, a, pc.f), a, UnmapLocked(pc.f))) else None
  }

  function OnFreeUnmapped(s: State, a: nat): Option<State>
    requires a in s.pcs
  {
    var pc := s.pcs[a];
    if pc.UnmapLocked? && pc.f in s.refs && s.refs[pc.f] > 0
    then Some(At(Released(SetRefs(s, pc.f, s.refs[pc.f] - 1), pc.f), a, Idle)) else None
  }

  /** The fixed-address path of `mmap`: it frees what it unmaps without the frame's lock.  Not a step of `Take`. */
  function OnFreeUnlocked(s: State, a: nat): Option<State>
    requires a in s.pcs
  {
    var pc := s.pcs[a];
    if pc.UnmapCleared? && pc.f in s.refs && s.refs[pc.f] > 0
    then Some(At(SetRefs(s, pc.f, s.refs[pc.f] - 1), a, Idle)) else None
  }

  // clone_user_address_space

  function PagesOf(s: State, a: nat): set<nat> { set k | k in s.ptes && k.0 == a :: k.1 }

  function OnStartFork(s: State, a: nat, c: nat): Option<State>
    requires a in s.pcs
  {
    var pc := s.pcs[a];
    if pc.Idle? && c !in s.pcs
    then Some(At(At(s, c, Embryo(a)), a, ForkNext(c, PagesOf(s, a)))) else None
  }

  function OnReadPage(s: State, a: nat, v: nat): Option<State>
    requires a in s.pcs
  {
    var pc := s.pcs[a];
    if pc.ForkNext? && v in pc.todo && (a, v) in s.ptes
    then Some(At(s, a, ForkRead(pc.child, pc.todo - {v}, v, s.ptes[(a, v)]))) else None
  }

  function OnLockPage(s: State, a: nat): Option<State>
    requires a in s.pcs
  {
    var pc := s.pcs[a];
    if pc.ForkRead? && Stripe(pc.e.frame) !in s.locks
    then Some(At(Taken(s, a, pc.e.frame), a, ForkLocked(pc.child, pc.todo, pc.v, pc.e))) else None
  }

  function OnCountPage(s: State, a: nat): Option<State>
    requires a in s.pcs
  {
    var pc := s.pcs[a];
    if pc.ForkLocked? && pc.e.frame in s.refs
    then Some(At(SetRefs(s, pc.e.frame, s.refs[pc.e.frame] + 1), a, ForkCounted(pc.child, pc.todo, pc.v, pc.e)))
      else None
  }

  function OnMapPage(s: State, a: nat): Option<State>
    requires a in s.pcs
  {
    var pc := s.pcs[a];
    if pc.ForkCounted?
    then Some(At(SetEntry(s, (pc.child, pc.v), ForkPte(pc.e)), a, ForkMapped(pc.child, pc.todo, pc.v, pc.e))) else None
  }

  function OnProtect(s: State, a: nat): Option<State>
    requires a in s.pcs
  {
    var pc := s.pcs[a];
    if pc.ForkMapped?
    then Some(At(Released(SetEntry(s, (a, pc.v), ForkPte(pc.e)), pc.e.frame), a, ForkNext(pc.child, pc.todo))) else None
  }

  function OnEndFork(s: State, a: nat): Option<State>
    requires a in s.pcs
  {
    var pc := s.pcs[a];
    if pc.ForkNext? && pc.todo == {} then Some(At(At(s, pc.child, Idle), a, Idle)) else None
  }

  // a fork whose `map` fails

  function OnMapFails(s: State, a: nat): Option<State>
    requires a in s.pcs
  {
    var pc := s.pcs[a];
    if pc.ForkCounted? && pc.e.frame in s.refs && s.refs[pc.e.frame] > 0
    then Some(At(SetRefs(s, pc.e.frame, s.refs[pc.e.frame] - 1), a, ForkUndo(pc.child, pc.e.frame))) else None
  }

  function OnClearChild(s: State, a: nat, v: nat): Option<State>
    requires a in s.pcs
  {
    var pc := s.pcs[a];
    if pc.ForkUndo? && (pc.child, v) in s.ptes
    then Some(At(s.(ptes := s.ptes - {(pc.child, v)}), a, ForkUndoFree(pc.child, pc.f, s.ptes[(pc.child, v)].frame)))
      else None
  }

  function OnFreeChild(s: State, a: nat): Option<State>
    requires a in s.pcs
  {
    var pc := s.pcs[a];
    if pc.ForkUndoFree? && pc.g in s.refs && s.refs[pc.g] > 0
    then Some(At(SetRefs(s, pc.g, s.refs[pc.g] - 1), a, ForkUndo(pc.child, pc.f))) else None
  }

  function OnAbort(s: State, a: nat): Option<State>
    requires a in s.pcs
  {
    var pc := s.pcs[a];
    if pc.ForkUndo? && (forall k :: k in s.ptes ==> k.0 != pc.child)
    then Some(At(Released(s, pc.f), a, Idle).(pcs := s.pcs[a := Idle] - {pc.child})) else None
  }

  /** Thread `a` takes step `t`: the next state, or nothing when the step is not enabled. */
  function Take(s: State, a: nat, t: Step): Option<State> {
    if a !in s.pcs then None else
      match t
      case StartCow(v) => OnStartCow(s, a, v)
      case LockCow => OnLockCow(s, a)
      case Reread => OnReread(s, a)
      case TestRefs => OnTestRefs(s, a)
      case Upgrade => OnUpgrade(s, a)
      case Allocate(g) => OnAllocate(s, a, g)
      case NoMemory => OnNoMemory(s, a)
      case Copy => OnCopy(s, a)
      case Drop => OnDrop(s, a)
      case WriteCopy => OnWriteCopy(s, a)
      case StoreByte(v, off, b) => OnStoreByte(s, a, v, off, b)
      case MapFresh(v, g, w) => OnMapFresh(s, a, v, g, w)
      case Clear(v) => OnClear(s, a, v)
      case LockUnmap => OnLockUnmap(s, a)
      case FreeUnmapped => OnFreeUnmapped(s, a)
      case StartFork(c) => OnStartFork(s, a, c)
      case ReadPage(v) => OnReadPage(s, a, v)
      case LockPage => OnLockPage(s, a)
      case CountPage => OnCountPage(s, a)
      case MapPage => OnMapPage(s, a)
      case Protect => OnProtect(s, a)
      case EndFork => OnEndFork(s, a)
      case MapFails => OnMapFails(s, a)
      case ClearChild(v) => OnClearChild(s, a, v)
      case FreeChild => OnFreeChild(s, a)
      case Abort => OnAbort(s, a)
  }

  /** A machine with free frames and one idle thread per address space, nothing mapped yet. */
  ghost predicate Init(s: State) {
    && s.ptes == map[] && s.locks == map[] && s.refs.Keys == s.mem.Keys
    && (forall f :: f in s.refs ==> s.refs[f] == 0)
    && (forall a :: a in s.pcs ==> s.pcs[a].Idle?)
  }

  ghost predicate Run(states: seq<State>, who: seq<nat>, steps: seq<Step>) {
    && |states| == |steps| + 1 == |who| + 1 && Init(states[0])
    && forall i :: 0 <= i < |steps| ==> Take(states[i], who[i], steps[i]) == Some(states[i + 1])
  }
}
