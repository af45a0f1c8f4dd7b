/** `TimerWheel` of rust/kernel/src/timer.rs: four levels of slots and an overflow list, updated in place and proved
    to refine the bag of pending timers of module `TimerBag`. */
module Timers {
  import opened TimerBag
  import opened TimerLevels
  import opened Options

  class TimerWheel {
    var currentTick: nat
    const level0: array<seq<Entry>>
    const level1: array<seq<Entry>>
    const level2: array<seq<Entry>>
    const level3: array<seq<Entry>>
    var overflow: seq<Entry>
    var nextTimerId: nat

    ghost predicate Shape() {
      && level0.Length == LVL0_SIZE && level1.Length == level2.Length == level3.Length == LVL_SIZE
      && level0 != level1 && level0 != level2 && level0 != level3 && level1 != level2 && level1 != level3
        && level2 != level3
      && this !in {level0 as object, level1, level2, level3}
    }

    ghost predicate Valid()
      reads `currentTick, `overflow, level0, level1, level2, level3
    {
      && Shape()
      && Level0Ok(level0[..], currentTick)
      && LevelOk(level1[..], LVL0_SPAN, currentTick)
      && LevelOk(level2[..], LVL1_SPAN, currentTick)
      && LevelOk(level3[..], LVL2_SPAN, currentTick)
      && OverflowOk(overflow, currentTick)
    }

    /** Everything the wheel holds. */
    ghost function Pending(): multiset<Entry>
      reads `overflow, level0, level1, level2, level3
    {
      AllOf(Contents(level0[..]), Contents(level1[..]), Contents(level2[..]), Contents(level3[..]), multiset(overflow))
    }

    ghost function View(): Bag
      reads this, level0, level1, level2, level3
    {
      Bag(currentTick, nextTimerId, Pending())
    }

    constructor ()
      ensures Valid() && View() == Bag(0, 1, multiset{})
      ensures fresh(level0) && fresh(level1) && fresh(level2) && fresh(level3)
    {
      hide Level0Ok, Contents;
      currentTick := 0;
      level0 := new seq<Entry>[LVL0_SIZE](_ => []);
      level1 := new seq<Entry>[LVL_SIZE](_ => []);
      level2 := new seq<Entry>[LVL_SIZE](_ => []);
      level3 := new seq<Entry>[LVL_SIZE](_ => []);
      overflow := [];
      nextTimerId := 1;
      new;
      hide Level0Ok, LevelOk, Contents, AllOf;
      EmptyWheel(level0[..], level1[..], level2[..], level3[..]);
    }

    /** File an entry by its distance from the current tick.  Only the level it belongs to changes, and every
        level that was in order stays so: in the middle of a rollover the higher levels are not. */
    method Reinsert(entry: Entry)
      requires Shape() && Level0Ok(level0[..], currentTick)
      modifies level0, level1, level2, level3, `overflow
      ensures Level0Ok(level0[..], currentTick) && Pending() == old(Pending()) + multiset{entry}
      ensures old(LevelOk(level1[..], LVL0_SPAN, currentTick)) ==> LevelOk(level1[..], LVL0_SPAN, currentTick)
      ensures old(LevelOk(level2[..], LVL1_SPAN, currentTick)) ==> LevelOk(level2[..], LVL1_SPAN, currentTick)
      ensures old(LevelOk(level3[..], LVL2_SPAN, currentTick)) ==> LevelOk(level3[..], LVL2_SPAN, currentTick)
      ensures old(OverflowOk(overflow, currentTick)) ==> OverflowOk(overflow, currentTick)
      ensures LevelFor(entry.target, currentTick) < 1 ==> level1[..] == old(level1[..])
      ensures LevelFor(entry.target, currentTick) < 2 ==> level2[..] == old(level2[..])
      ensures LevelFor(entry.target, currentTick) < 3 ==> level3[..] == old(level3[..])
      ensures LevelFor(entry.target, currentTick) < 4 ==> overflow == old(overflow)
    {
      hide Level0Ok, LevelOk, OverflowOk, Contents;
      ghost var l0, l1, l2, l3 := level0[..], level1[..], level2[..], level3[..];
      UnitBounds(entry.target, currentTick);
      var delta := SatSub(entry.target, currentTick);
      if delta < LVL0_SPAN {
        var slot := entry.target % 256;
        PushLevel0(l0, currentTick, entry);
        PushUpdate(l0, slot, entry);
        level0[slot] := level0[slot] + [entry];
        assert level0[..] == l0[slot := l0[slot] + [entry]];
      } else if delta < LVL1_SPAN {
        var slot := (entry.target / 256) % 64;
        if LevelOk(l1, LVL0_SPAN, currentTick) { PushLevel(l1, LVL0_SPAN, currentTick, entry, slot); }
        PushUpdate(l1, slot, entry);
        level1[slot] := level1[slot] + [entry];
        assert level1[..] == l1[slot := l1[slot] + [entry]];
      } else if delta < LVL2_SPAN {
        var slot := (entry.target / 16_384) % 64;
        if LevelOk(l2, LVL1_SPAN, currentTick) { PushLevel(l2, LVL1_SPAN, currentTick, entry, slot); }
        PushUpdate(l2, slot, entry);
        level2[slot] := level2[slot] + [entry];
        assert level2[..] == l2[slot := l2[slot] + [entry]];
      } else if delta < LVL3_SPAN {
        var slot := (entry.target / 1_048_576) % 64;
        if LevelOk(l3, LVL2_SPAN, currentTick) { PushLevel(l3, LVL2_SPAN, currentTick, entry, slot); }
        PushUpdate(l3, slot, entry);
        level3[slot] := level3[slot] + [entry];
        assert level3[..] == l3[slot := l3[slot] + [entry]];
      } else {
        if OverflowOk(overflow, currentTick) { PushOverflow(overflow, currentTick, entry); }
        overflow := overflow + [entry];
      }
    }

    method AddTimer(target: nat, kind: Kind) returns (id: nat)
      requires Valid()
      modifies this, level0, level1, level2, level3
      ensures Valid() && id == old(nextTimerId)
      ensures Step(old(View()), Add(target, kind), View())
    {
      hide Level0Ok, LevelOk, OverflowOk, Contents;
      id := nextTimerId;
      nextTimerId := (nextTimerId + 1) % U64;
      Reinsert(Entry(id, target, kind));
    }

    /** The array of level 0, 1, 2 or 3. */
    function LevelArray(k: nat): array<seq<Entry>>
      requires k <= 3
    {
      if k == 0 then level0 else if k == 1 then level1 else if k == 2 then level2 else level3
    }

    /** Empty one slot of level `k` and file its entries again.  Every entry lands in a strictly lower level. */
    method Cascade(k: nat, slot: nat)
      requires 1 <= k <= 3 && slot < LVL_SIZE && Shape() && Level0Ok(level0[..], currentTick)
      requires forall e :: e in LevelArray(k)[slot] ==> LevelFor(e.target, currentTick) < k
      modifies level0, level1, level2, level3, `overflow
      ensures Level0Ok(level0[..], currentTick) && Pending() == old(Pending())
      ensures LevelArray(k)[..] == old(LevelArray(k)[..])[slot := []]
      ensures overflow == old(overflow)
      ensures k < 2 ==> level2[..] == old(level2[..])
      ensures k < 3 ==> level3[..] == old(level3[..])
      ensures 1 < k && old(LevelOk(level1[..], LVL0_SPAN, currentTick)) ==> LevelOk(level1[..], LVL0_SPAN, currentTick)
      ensures 2 < k && old(LevelOk(level2[..], LVL1_SPAN, currentTick)) ==> LevelOk(level2[..], LVL1_SPAN, currentTick)
    {
      hide Level0Ok, LevelOk, OverflowOk, Contents, LevelFor;
      var level := LevelArray(k);
      ghost var l := level[..];
      var entries := level[slot];
      TakeUpdate(l, slot);
      level[slot] := [];
      assert level[..] == l[slot := []];
      ReinsertAll(k, entries);
    }

    /** File entries that all belong below level `k`. */
    method ReinsertAll(k: nat, entries: seq<Entry>)
      requires 1 <= k <= 3 && Shape() && Level0Ok(level0[..], currentTick)
      requires forall e :: e in entries ==> LevelFor(e.target, currentTick) < k
      modifies level0, level1, level2, level3, `overflow
      ensures Level0Ok(level0[..], currentTick) && Pending() == old(Pending()) + multiset(entries)
      ensures overflow == old(overflow)
      ensures k < 2 ==> level1[..] == old(level1[..])
      ensures k < 3 ==> level2[..] == old(level2[..])
      ensures level3[..] == old(level3[..])
      ensures old(LevelOk(level1[..], LVL0_SPAN, currentTick)) ==> LevelOk(level1[..], LVL0_SPAN, currentTick)
      ensures old(LevelOk(level2[..], LVL1_SPAN, currentTick)) ==> LevelOk(level2[..], LVL1_SPAN, currentTick)
    {
      hide LevelOk, OverflowOk, Contents, LevelFor, AllOf;
      assert entries[..0] == [];
      for i := 0 to |entries|
        invariant Level0Ok(level0[..], currentTick) && Pending() == old(Pending()) + multiset(entries[..i])
        invariant overflow == old(overflow) && level3[..] == old(level3[..])
        invariant k < 2 ==> level1[..] == old(level1[..])
        invariant k < 3 ==> level2[..] == old(level2[..])
        invariant old(LevelOk(level1[..], LVL0_SPAN, currentTick)) ==> LevelOk(level1[..], LVL0_SPAN, currentTick)
        invariant old(LevelOk(level2[..], LVL1_SPAN, currentTick)) ==> LevelOk(level2[..], LVL1_SPAN, currentTick)
      {
        assert entries[..i + 1] == entries[..i] + [entries[i]];
        Reinsert(entries[i]);
      }
      assert entries[..|entries|] == entries;
    }

    /** Move to the wheel every overflow entry that has come within its range. */
    method PromoteOverflow()
      requires Shape() && Level0Ok(level0[..], currentTick) && currentTick % LVL2_SPAN == 0
      requires LevelOk(level1[..], LVL0_SPAN, currentTick) && LevelOk(level2[..], LVL1_SPAN, currentTick)
      requires LevelOk(level3[..], LVL2_SPAN, currentTick)
      modifies level0, level1, level2, level3, `overflow
      ensures Valid() && Pending() == old(Pending())
    {
      hide Level0Ok, LevelOk, Contents, AllOf, SwapRemove;
      var i := 0;
      while i < |overflow|
        invariant i <= |overflow|
        invariant Level0Ok(level0[..], currentTick) && LevelOk(level1[..], LVL0_SPAN, currentTick)
        invariant LevelOk(level2[..], LVL1_SPAN, currentTick) && LevelOk(level3[..], LVL2_SPAN, currentTick)
        invariant forall e :: e in overflow[..i] ==> e.target >= currentTick + LVL3_SPAN
        invariant Pending() == old(Pending())
        decreases |overflow| - i
      {
        if SatSub(overflow[i].target, currentTick) < LVL3_SPAN {
          var entry := overflow[i];
          OneLess(Contents(level0[..]), Contents(level1[..]), Contents(level2[..]), Contents(level3[..]),
            multiset(overflow),
                  multiset(SwapRemove(overflow, i)), entry);
          overflow := SwapRemove(overflow, i);
          Reinsert(entry);
        } else {
          assert overflow[..i + 1] == overflow[..i] + [overflow[i]];
          i := i + 1;
        }
      }
      assert overflow[..i] == overflow;
    }

    /** Return the entries of the current slot that are due.  None of them is not: `remaining` stays empty. */
    method ExpireSlot() returns (expired: seq<Entry>)
      requires Valid()
      modifies level0
      ensures Valid() && multiset(expired) + Pending() == old(Pending())
      ensures forall e :: e in expired ==> Fires(e, currentTick)
      ensures level0[currentTick % 256] == []
    {
      hide LevelOk, OverflowOk, Contents;
      var slot0 := currentTick % 256;
      ghost var l0 := level0[..];
      var entries := level0[slot0];
      TakeUpdate(l0, slot0);
      expired := [];
      var remaining := [];
      for i := 0 to |entries|
        invariant expired == entries[..i] && remaining == []
      {
        var entry := entries[i];
        assert entry in l0[slot0];
        if entry.target <= currentTick {
          expired := expired + [entry];
        } else {
          remaining := remaining + [entry];
        }
      }
      assert entries[..|entries|] == entries;
      level0[slot0] := remaining;
      assert level0[..] == l0[slot0 := []];
    }

    /** Advance the clock by one tick and return exactly the entries that are due. */
    method AdvanceTick() returns (expired: seq<Entry>)
      requires Valid() && currentTick + 1 < U64
      modifies this, level0, level1, level2, level3
      ensures Valid() && Step(old(View()), Tick(multiset(expired)), View())
    {
      hide Level0Ok, LevelOk, OverflowOk, Contents, AllOf;
      RollOver();
      expired := ExpireSlot();
      forall e | e in Pending() ensures !Fires(e, currentTick) {
        NothingDue(level0[..], level1[..], level2[..], level3[..], overflow, currentTick, e);
      }
    }

    /** Step the clock and cascade the slots whose unit begins. */
    method RollOver()
      requires Valid() && currentTick + 1 < U64
      modifies `currentTick, `overflow, level0, level1, level2, level3
      ensures Valid() && currentTick == old(currentTick) + 1 && Pending() == old(Pending())
    {
      hide Level0Ok, LevelOk, OverflowOk, Contents;
      ghost var tick0 := currentTick;
      Level0Advances(level0[..], tick0);
      currentTick := (currentTick + 1) % U64;
      var tick := currentTick;
      var slot1, slot2, slot3 := (tick / 256) % 64, (tick / 16_384) % 64, (tick / 1_048_576) % 64;
      LevelAdvances(level1[..], LVL0_SPAN, tick0, slot1);
      LevelAdvances(level2[..], LVL1_SPAN, tick0, slot2);
      LevelAdvances(level3[..], LVL2_SPAN, tick0, slot3);
      if tick % 256 == 0 {
        forall e | e in level1[slot1] ensures LevelFor(e.target, tick) < 1 { CascadeGoesDown(e.target, tick); }
        Cascade(1, slot1);
      }
      if tick % 16_384 == 0 {
        forall e | e in level2[slot2] ensures LevelFor(e.target, tick) < 2 { CascadeGoesDown(e.target, tick); }
        Cascade(2, slot2);
      }
      if tick % 1_048_576 == 0 {
        forall e | e in level3[slot3] ensures LevelFor(e.target, tick) < 3 { CascadeGoesDown(e.target, tick); }
        Cascade(3, slot3);
        PromoteOverflow();
      } else {
        OverflowAdvances(overflow, tick0);
      }
    }

    /** The slot loops of the cancel functions: remove the first matching entry of one level. */
    method RemoveFrom(level: array<seq<Entry>>, matches: Entry -> bool) returns (r: Option<Entry>)
      modifies level
      ensures r.None? ==> level[..] == old(level[..]) && NoMatch(level[..], matches)
      ensures r.Some? ==> matches(r.value)
      ensures r.Some? ==> exists s: nat, i: nat ::
                && s < level.Length && i < |old(level[..])[s]|
                && FirstMatch(old(level[..]), matches, s, i) && r.value == old(level[..])[s][i]
                && level[..] == old(level[..])[s := Remove(old(level[..])[s], i)]
    {
      ghost var l := level[..];
      var s := 0;
      while s < level.Length
        invariant s <= level.Length && level[..] == l && NoMatch(l[..s], matches)
      {
        var pos := Position(level[s], matches);
        if pos < |level[s]| {
          r := Some(level[s][pos]);
          level[s] := Remove(level[s], pos);
          assert level[..] == l[s := Remove(l[s], pos)] && FirstMatch(l, matches, s, pos);
          return;
        }
        assert l[..s + 1] == l[..s] + [l[s]];
        s := s + 1;
      }
      assert l[..s] == l;
      r := None;
    }

    method RemoveFromLevel(k: nat, matches: Entry -> bool) returns (r: Option<Entry>)
      requires Valid() && k <= 3
      modifies LevelArray(k)
      ensures Valid()
      ensures r.None? ==> LevelArray(k)[..] == old(LevelArray(k)[..]) && NoMatch(LevelArray(k)[..], matches)
      ensures r.Some? ==> matches(r.value) && Pending() + multiset{r.value} == old(Pending())
    {
      hide Level0Ok, LevelOk, OverflowOk, Contents, AllOf, NoMatch, FirstMatch;
      ghost var l, c0, c1, c2, c3 :=
        LevelArray(k)[..], Contents(level0[..]), Contents(level1[..]), Contents(level2[..]), Contents(level3[..]);
      r := RemoveFrom(LevelArray(k), matches);
      if r.Some? {
        ghost var s: nat, i: nat :| s < |l| && i < |l[s]| && FirstMatch(l, matches, s, i) && r.value == l[s][i]
          && LevelArray(k)[..] == l[s := Remove(l[s], i)];
        RemoveUpdate(l, s, i);
        RemoveKeepsLevels(l, s, i, currentTick);
        OneLess(c0, c1, c2, c3, multiset(overflow), Contents(LevelArray(k)[..]), r.value);
      }
    }

    /** Remove the first matching entry of the wheel: levels 0 to 3, then the overflow list. */
    method RemoveMatching(matches: Entry -> bool) returns (r: Option<Entry>)
      requires Valid()
      modifies level0, level1, level2, level3, `overflow
      ensures Valid() && Removes(old(View()), matches, r, View())
    {
      hide Level0Ok, LevelOk, OverflowOk, Contents, AllOf, NoMatch;
      for k := 0 to 4
        invariant Valid() && View() == old(View())
        invariant forall j :: 0 <= j < k ==> NoMatch(LevelArray(j)[..], matches)
      {
        r := RemoveFromLevel(k, matches);
        if r.Some? {
          RemovedOne(old(Pending()), Pending(), r.value);
          return;
        }
      }
      var pos := Position(overflow, matches);
      if pos < |overflow| {
        r := Some(overflow[pos]);
        RemoveFromOverflow(pos);
        RemovedOne(old(Pending()), Pending(), r.value);
        return;
      }
      assert NoMatch(LevelArray(0)[..], matches) && NoMatch(LevelArray(1)[..], matches);
      assert NoMatch(LevelArray(2)[..], matches) && NoMatch(LevelArray(3)[..], matches);
      NothingMatches(level0[..], level1[..], level2[..], level3[..], overflow, matches);
      r := None;
    }

    method RemoveFromOverflow(pos: nat)
      requires Valid() && pos < |overflow|
      modifies `overflow
      ensures Valid() && Pending() + multiset{old(overflow)[pos]} == old(Pending())
    {
      hide Level0Ok, LevelOk, Contents, AllOf;
      OneLess(Contents(level0[..]), Contents(level1[..]), Contents(level2[..]), Contents(level3[..]),
        multiset(overflow),
              multiset(Remove(overflow, pos)), overflow[pos]);
      assert forall e :: e in Remove(overflow, pos) ==> e in overflow;
      overflow := Remove(overflow, pos);
    }

    method CancelSleepTimer(tid: nat) returns (r: Option<nat>)
      requires Valid()
      modifies level0, level1, level2, level3, `overflow
      ensures Valid()
      ensures exists removed :: Step(old(View()), CancelSleep(tid, removed), View()) && r == TargetOf(removed)
    {
      hide Level0Ok, LevelOk, OverflowOk, Contents, AllOf;
      var removed := RemoveMatching(e => SleepsFor(e, tid));
      assert Step(old(View()), CancelSleep(tid, removed), View());
      r := TargetOf(removed);
    }

    method CancelITimer(pid: nat) returns (r: Option<(nat, nat)>)
      requires Valid()
      modifies level0, level1, level2, level3, `overflow
      ensures Valid()
      ensures exists removed ::
                Step(old(View()), TimerBag.CancelITimer(pid, removed), View()) && r == RemainingOf(removed, currentTick)
    {
      hide Level0Ok, LevelOk, OverflowOk, Contents, AllOf;
      var removed := RemoveMatching(e => RingsFor(e, pid));
      assert Step(old(View()), TimerBag.CancelITimer(pid, removed), View());
      r := RemainingOf(removed, currentTick);
    }

    /** `add_sleep_timer`: a sleep of any length, even zero, ends after the current tick. */
    method AddSleepTimer(tid: nat, durationMs: nat) returns (target: nat)
      requires Valid() && currentTick + 1 < U64
      modifies this, level0, level1, level2, level3
      ensures Valid() && old(currentTick) < target < U64
      ensures target == old(currentTick) + (if durationMs == 0 then 1 else durationMs) || target == U64 - 1
      ensures Step(old(View()), Add(target, Sleep(tid)), View())
    {
      target := SatAdd(currentTick, if durationMs == 0 then 1 else durationMs);
      var _ := AddTimer(target, Sleep(tid));
    }

    /** `set_itimer`: replace a process's interval timer and report the one replaced. */
    method SetITimer(pid: nat, which: nat, intervalMs: nat, valueMs: nat) returns (was: (nat, nat))
      requires Valid() && currentTick + 1 < U64
      modifies this, level0, level1, level2, level3
      ensures Valid()
      ensures exists removed, mid :: Replaced(old(View()), pid, which, intervalMs, valueMs, was, View(), removed, mid)
    {
      hide Level0Ok, LevelOk, OverflowOk, Contents, AllOf, Step;
      ghost var before := View();
      var r := CancelITimer(pid);
      ghost var mid := View();
      ghost var removed :| Step(before, TimerBag.CancelITimer(pid, removed), mid)
        && r == RemainingOf(removed, currentTick);
      was := if r.Some? then r.value else (0, 0);
      if valueMs > 0 && which == 0 {
        var target := SatAdd(currentTick, valueMs);
        var _ := AddTimer(target, ITimerReal(pid, intervalMs));
      }
      assert Replaced(before, pid, which, intervalMs, valueMs, was, View(), removed, mid);
    }

    // -------------------------------------------------------------- whole runs

    method Perform(c: Call) returns (fired: seq<Entry>, ghost op: Op)
      requires Valid() && currentTick + 1 < U64
      modifies this, level0, level1, level2, level3
      ensures Valid() && currentTick <= old(currentTick) + 1
      ensures Step(old(View()), op, View()) && Answers(c, op) && (c.NextTick? ==> op == Tick(multiset(fired)))
    {
      hide Level0Ok, LevelOk, OverflowOk, Contents, AllOf;
      fired := [];
      match c
      case AddAt(target, kind) =>
        var _ := AddTimer(target, kind);
        op := Add(target, kind);
      case StopSleep(tid) =>
        var _ := CancelSleepTimer(tid);
        ghost var removed :| Step(old(View()), CancelSleep(tid, removed), View());
        op := CancelSleep(tid, removed);
      case StopITimer(pid) =>
        var _ := CancelITimer(pid);
        ghost var removed :| Step(old(View()), TimerBag.CancelITimer(pid, removed), View());
        op := TimerBag.CancelITimer(pid, removed);
      case NextTick =>
        fired := AdvanceTick();
        op := Tick(multiset(fired));
    }

    /** Any list of calls: what each tick returns is what the bag says, so in every orderly run each timer fires exactly
        once, on its target, unless it is cancelled. */
    method Execute(calls: seq<Call>)
      returns (fired: seq<seq<Entry>>, ghost states: seq<Bag>, ghost ops: seq<Op>)
      requires Valid() && currentTick + |calls| < U64
      modifies this, level0, level1, level2, level3
      ensures Valid() && |fired| == |ops| == |calls|
      ensures Run(states, ops) && states[0] == old(View()) && states[|ops|] == View()
      ensures forall i :: 0 <= i < |calls| ==>
        Answers(calls[i], ops[i]) && (calls[i].NextTick? ==> ops[i] == Tick(multiset(fired[i])))
      ensures Orderly(states, ops) && Fresh(states[0]) ==>
        forall i :: 0 <= i < |ops| && ops[i].Add? ==> Exact(states, ops, i)
    {
      hide Level0Ok, LevelOk, OverflowOk, Contents, AllOf, Step, Answers, Orderly, Fresh, Exact;
      fired, states, ops := [], [View()], [];
      for i := 0 to |calls|
        invariant Valid() && currentTick <= old(currentTick) + i && |fired| == |ops| == i
        invariant Run(states, ops) && states[0] == old(View()) && states[i] == View()
        invariant forall j :: 0 <= j < i ==>
          Answers(calls[j], ops[j]) && (calls[j].NextTick? ==> ops[j] == Tick(multiset(fired[j])))
      {
        var out, op := Perform(calls[i]);
        fired, states, ops := fired + [out], states + [View()], ops + [op];
      }
      if Orderly(states, ops) && Fresh(states[0]) {
        forall i | 0 <= i < |ops| && ops[i].Add? ensures Exact(states, ops, i) {
          TimerExactness(states, ops, i);
        }
      }
    }
  }

  /** A call, without its answer. */
  datatype Call = AddAt(target: nat, kind: Kind) | StopSleep(tid: nat) | StopITimer(pid: nat) | NextTick

  /** The step is one of this call. */
  ghost predicate Answers(c: Call, op: Op) {
    match c
    case AddAt(target, kind) => op == Add(target, kind)
    case StopSleep(tid) => op.CancelSleep? && op.tid == tid
    case StopITimer(pid) => op.CancelITimer? && op.pid == pid
    case NextTick => op.Tick?
  }

  /** What `set_itimer` does to the bag: cancel the process's timer, if any, then add the new one, if any. */
  ghost predicate Replaced(before: Bag, pid: nat, which: nat, interval: nat, value: nat, was: (nat, nat), after: Bag,
                           removed: Option<Entry>, mid: Bag) {
    && Step(before, TimerBag.CancelITimer(pid, removed), mid)
    && was == (var r := RemainingOf(removed, before.now); if r.Some? then r.value else (0, 0))
    && (if value > 0 && which == 0
        then SatAdd(mid.now, value) > mid.now
          && Step(mid, Add(SatAdd(mid.now, value), ITimerReal(pid, interval)), after)
        else after == mid)
  }

  lemma RemovedOne(before: multiset<Entry>, after: multiset<Entry>, e: Entry)
    requires after + multiset{e} == before
    ensures e in before && after == before - multiset{e}
  {
  }

  function TargetOf(removed: Option<Entry>): Option<nat> {
    if removed.Some? then Some(removed.value.target) else None
  }

  /** Interval and time left of an interval timer. */
  function RemainingOf(removed: Option<Entry>, now: nat): Option<(nat, nat)> {
    if removed.Some? && removed.value.kind.ITimerReal?
    then Some((removed.value.kind.interval, SatSub(removed.value.target, now)))
    else None
  }

  /** `saturating_add` on `u64`. */
  function SatAdd(a: nat, b: nat): nat { if a + b < U64 then a + b else U64 - 1 }
}
