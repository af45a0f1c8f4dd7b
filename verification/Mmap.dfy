/** `mmap` and `munmap` on the memory map of a process (rust/kernel/src/process.rs). */
module Mmap {
  import opened VmaMap
  import opened MemoryMap
  import opened Options

  /** The answer of a placement search: the least free base from `from` on, or none below `limit`. */
  ghost predicate IsAnswer(m: Areas, from: nat, length: nat, limit: nat, r: Option<nat>) {
    if r.Some? then IsFirstFit(m, from, length, r.value) && r.value + length < limit else NoFit(m, from, length, limit)
  }

  /** There is only one answer, so the two searches of the kernel agree wherever they start and stop together. */
  lemma SearchesAgree(m: Areas, from: nat, length: nat, limit: nat, r: Option<nat>, s: Option<nat>)
    requires IsAnswer(m, from, length, limit, r) && IsAnswer(m, from, length, limit, s)
    ensures r == s
  {
    if r.Some? && s.Some? { FirstFitIsUnique(m, from, length, r.value, s.value); }
  }

  /** The two searches of the kernel, on the same map, start and limit, give the same answer. */
  method Compare(map_: ProcessMemoryMap, from: nat, length: nat, limit: nat)
    returns (jump: Option<nat>, scan: Option<nat>)
    requires Valid(map_.vmas) && Aligned(from) && length > 0 && limit <= U64_MAX
    ensures jump == scan
  {
    jump := JumpFrom(map_.vmas, from, length, limit);
    var overflow;
    scan, overflow := map_.ScanFrom(from, length, limit);
    SearchesAgree(map_.vmas, from, length, limit, jump, scan);
  }

  /** The predecessor-jumping search. */
  method JumpFrom(m: Areas, from: nat, length: nat, limit: nat) returns (r: Option<nat>)
    requires Valid(m) && Aligned(from) && length > 0
    ensures IsAnswer(m, from, length, limit, r)
  {
    var base := from;
    while base + length < limit
      invariant from <= base && Aligned(base)
      invariant forall b: nat :: from <= b < base && Aligned(b) ==> !Free(m, b, length)
      decreases limit - base
    {
      var p := LastBelow(m, base + length);
      PredecessorIsExact(m, base, base + length);
      if p.None? || m[p.value].end <= base { return Some(base); }
      AlignFacts(m[p.value].end);
      forall b: nat | base <= b < m[p.value].end ensures !Free(m, b, length) {
        JumpSkipsNothing(m, p.value, base, length, b);
      }
      base := AlignUp(m[p.value].end);
    }
    return None;
  }

  /** A hint is taken when it is page-aligned, below the stack and free. */
  ghost predicate HintOk(m: Areas, addr: nat, length: nat) {
    addr != 0 && Aligned(addr) && addr + length <= USER_STACK_START && Free(m, addr, length)
  }

  /** The test looks at one area only, the last that begins below the end of the range. */
  method TestHint(m: Areas, addr: nat, length: nat) returns (ok: bool)
    requires Valid(m)
    ensures ok <==> HintOk(m, addr, length)
  {
    if addr == 0 || !Aligned(addr) || addr + length > U64_MAX || addr + length > USER_STACK_START { return false; }
    var p := LastBelow(m, addr + length);
    PredecessorIsExact(m, addr, addr + length);
    ok := p.None? || m[p.value].end <= addr;
  }

  ghost predicate FixedOk(addr: nat, length: nat) {
    addr != 0 && Aligned(addr) && addr + length < USER_STACK_START
  }

  function FlagsFor(prot: bv32, backing: Backing): bv32 {
    (prot & RWX) | (if backing.Anonymous? then ANONYMOUS else if backing.FileBacked? && backing.shared then SHARED
      else 0)
  }

  lemma RemoveThenShow(m: Areas, m1: Areas, m2: Areas, v: Vma)
    requires Hides(m, m1, v.start, v.end) && ShowsAlso(m1, m2, v)
    ensures ShowsAlso(m, m2, v)
  {
    hide View;
    forall a: nat ensures View(m2, a) == if Contains(v, a) then Some(Seen(v, a)) else View(m, a) {
      assert View(m2, a) == if Contains(v, a) then Some(Seen(v, a)) else View(m1, a);
    }
  }

  /** Where nothing is seen nothing lies. */
  lemma UnseenIsFree(m: Areas, start: nat, end: nat)
    requires Valid(m) && start < end && forall a: nat :: start <= a < end ==> View(m, a) == None
    ensures Free(m, start, end - start)
  {
    forall k | k in m ensures !(start < m[k].end && m[k].start < end) {
      var a := if k < start then start else k;
      if start < m[k].end && k < end { ViewOf(m, k, a); }
    }
  }

  class Process {
    const areas: ProcessMemoryMap
    var mmapNext: nat

    ghost predicate Ok()
      reads this, areas
    {
      areas.Ok() && Aligned(mmapNext)
    }

    constructor (areas: ProcessMemoryMap, mmapNext: nat)
      requires areas.Ok() && Aligned(mmapNext)
      ensures Ok() && this.areas == areas && this.mmapNext == mmapNext
    {
      this.areas, this.mmapNext := areas, mmapNext;
    }

    /** Where a new area goes when its address is not fixed. */
    method Choose(addr: nat, length: nat) returns (r: Option<nat>)
      requires Ok() && length > 0 && Aligned(length)
      modifies `mmapNext
      ensures Ok()
        && (r.None? <==>
        !HintOk(areas.vmas, addr, length) && NoFit(areas.vmas, old(mmapNext), length, USER_STACK_START))
      ensures r.Some? ==> Aligned(r.value) && Free(areas.vmas, r.value, length) && r.value + length <= USER_STACK_START
      ensures HintOk(areas.vmas, addr, length) ==> r == Some(addr) && mmapNext == old(mmapNext)
      ensures !HintOk(areas.vmas, addr, length) && r.Some? ==>
        IsFirstFit(areas.vmas, old(mmapNext), length, r.value) && mmapNext == r.value + length
    {
      hide Valid, Free;
      var hinted := TestHint(areas.vmas, addr, length);
      if hinted { return Some(addr); }
      r := JumpFrom(areas.vmas, mmapNext, length, USER_STACK_START);
      if r.Some? {
        AlignedSum(r.value, length);
        mmapNext := r.value + length;
      }
    }

    /** Maps `length` bytes.  It fails in the listed cases only: once a base is chosen the area is always accepted.
        After it, the new area shows where it lies and every other address sees what it saw. */
    method MmapBacking(addr: nat, length: nat, prot: bv32, fixed: bool, backing: Backing) returns (r: Option<nat>)
      requires Ok()
      modifies this, areas
      ensures Ok()
      ensures r.None? <==>
        || length == 0 || length + (PAGE_SIZE - 1) > U64_MAX
        || (fixed && !FixedOk(addr, AlignUp(length)))
        || (!fixed && !HintOk(old(areas.vmas), addr, AlignUp(length))
            && NoFit(old(areas.vmas), old(mmapNext), AlignUp(length), USER_STACK_START))
      ensures r.None? ==> areas.vmas == old(areas.vmas)
      ensures r.Some? ==>
        ShowsAlso(old(areas.vmas), areas.vmas,
        Vma(r.value, r.value + AlignUp(length), FlagsFor(prot, backing), backing))
      ensures r.Some? && (fixed || HintOk(old(areas.vmas), addr, AlignUp(length))) ==> r.value == addr
      ensures r.Some? && !fixed && !HintOk(old(areas.vmas), addr, AlignUp(length)) ==>
        IsFirstFit(old(areas.vmas), old(mmapNext), AlignUp(length), r.value)
    {
      hide View, Valid, ShowsAlso, AlignUp;
      if length == 0 || length + (PAGE_SIZE - 1) > U64_MAX { return None; }
      var aligned := AlignUp(length);
      AlignFacts(length);
      var base := addr;
      ghost var m := areas.vmas;
      if fixed {
        if addr == 0 || !Aligned(addr) || addr + aligned > U64_MAX
          || addr + aligned >= USER_STACK_START { return None; }
        AlignedSum(addr, aligned);
        var affected := areas.RemoveVmaRange(addr, addr + aligned);
        UnseenIsFree(areas.vmas, addr, addr + aligned);
      } else {
        var choice := Choose(addr, aligned);
        if choice.None? { return None; }
        base := choice.value;
        AlignedSum(base, aligned);
      }
      var flags: bv32 := 0;
      if prot & 1 != 0 { flags := flags | READ; }
      if prot & 2 != 0 { flags := flags | WRITE; }
      if prot & 4 != 0 { flags := flags | EXEC; }
      if backing.Anonymous? {
        flags := flags | ANONYMOUS;
      } else if backing.FileBacked? && backing.shared {
        flags := flags | SHARED;
      }
      FlagsAgree(prot, backing, flags);
      ghost var m1 := areas.vmas;
      var ok := areas.InsertVma(base, base + aligned, flags, backing);
      if fixed { RemoveThenShow(m, m1, areas.vmas, Vma(base, base + aligned, flags, backing)); }
      return Some(base);
    }

    /** Unmaps a range: nothing is left inside it and nothing changes outside. */
    method Munmap(addr: nat, length: nat) returns (ok: bool)
      requires Ok()
      modifies areas
      ensures Ok() && (ok <==> Aligned(addr) && length != 0 && length + (PAGE_SIZE - 1) <= U64_MAX)
      ensures ok ==> Hides(old(areas.vmas), areas.vmas, addr, addr + AlignUp(length))
      ensures !ok ==> areas.vmas == old(areas.vmas)
    {
      hide View;
      if !Aligned(addr) || length == 0 || length + (PAGE_SIZE - 1) > U64_MAX { return false; }
      var aligned := AlignUp(length);
      AlignFacts(length);
      AlignedSum(addr, aligned);
      var affected := areas.RemoveVmaRange(addr, addr + aligned);
      return true;
    }
  }

  lemma FlagsAgree(prot: bv32, backing: Backing, flags: bv32)
    requires flags ==
      (if prot & 1 != 0 then READ else 0) | (if prot & 2 != 0 then WRITE else 0) | (if prot & 4 != 0 then EXEC else 0)
      | (if backing.Anonymous? then ANONYMOUS else if backing.FileBacked? && backing.shared then SHARED else 0)
    ensures flags == FlagsFor(prot, backing)
  {
  }
}
