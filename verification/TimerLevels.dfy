/** The slots of the hierarchical timer wheel (rust/kernel/src/timer.rs) as values: which entries a level may
    hold at a given tick, and what adding to or emptying a slot does to the bag of entries it holds. */
module TimerLevels {
  import opened TimerBag
  import opened Arithmetic

  const LVL0_SIZE: nat := 256
  const LVL_SIZE: nat := 64

  /** Ticks per slot of levels 1, 2 and 3, which are also the spans of levels 0, 1 and 2. */
  const LVL0_SPAN: nat := 256
  const LVL1_SPAN: nat := 16_384
  const LVL2_SPAN: nat := 1_048_576
  const LVL3_SPAN: nat := 67_108_864

  type Level = seq<seq<Entry>>

  function SatSub(a: nat, b: nat): nat { if a >= b then a - b else 0 }

  /** Level 0: the low eight bits of the target name the slot, and the target is less than a span away.
      There is no lower bound: an entry added late waits in its slot. */
  ghost predicate Level0Ok(l: Level, tick: nat) {
    && |l| == LVL0_SIZE
    && forall s, e :: 0 <= s < LVL0_SIZE && e in l[s] ==> e.target % LVL0_SPAN == s && e.target < tick + LVL0_SPAN
  }

  /** Levels 1 to 3, with `unit` ticks per slot: the slot of the current unit has been emptied, and every
      entry belongs to one of the next 64 units. */
  ghost predicate LevelOk(l: Level, unit: nat, tick: nat)
    requires unit > 0
  {
    && |l| == LVL_SIZE
    && forall s, e :: 0 <= s < LVL_SIZE && e in l[s] ==>
         (e.target / unit) % LVL_SIZE == s && tick / unit < e.target / unit <= tick / unit + LVL_SIZE
  }

  /** The overflow list is looked at every 2^20 ticks; what it holds is at least 2^26 ticks past the last look. */
  ghost predicate OverflowOk(l: seq<Entry>, tick: nat) {
    forall e :: e in l ==> e.target >= (tick / LVL2_SPAN) * LVL2_SPAN + LVL3_SPAN
  }

  /** All entries of a level. */
  ghost function Contents(l: Level): multiset<Entry> {
    if l == [] then multiset{} else Contents(l[..|l| - 1]) + multiset(l[|l| - 1])
  }

  /** Replacing one slot exchanges its entries for the new ones. */
  lemma {:induction false} ContentsUpdate(l: Level, s: nat, x: seq<Entry>)
    requires s < |l|
    ensures Contents(l[s := x]) + multiset(l[s]) == Contents(l) + multiset(x)
  {
    var n := |l| - 1;
    if s == n {
      assert l[s := x][..n] == l[..n];
    } else {
      assert l[s := x][..n] == l[..n][s := x] && l[..n][s] == l[s];
      ContentsUpdate(l[..n], s, x);
      Exchange(Contents(l[..n][s := x]), multiset(l[s]), Contents(l[..n]), multiset(x), multiset(l[n]));
    }
  }

  lemma Exchange(a: multiset<Entry>, b: multiset<Entry>, c: multiset<Entry>, d: multiset<Entry>, z: multiset<Entry>)
    requires a + b == c + d
    ensures (a + z) + b == (c + z) + d
  {
    assert (a + z) + b == (a + b) + z;
  }

  lemma PushUpdate(l: Level, s: nat, e: Entry)
    requires s < |l|
    ensures Contents(l[s := l[s] + [e]]) == Contents(l) + multiset{e}
  {
    ContentsUpdate(l, s, l[s] + [e]);
    MultisetCancel(Contents(l[s := l[s] + [e]]), multiset(l[s]), Contents(l) + multiset{e});
  }

  lemma TakeUpdate(l: Level, s: nat)
    requires s < |l|
    ensures Contents(l[s := []]) + multiset(l[s]) == Contents(l)
  {
    ContentsUpdate(l, s, []);
  }

  lemma MultisetCancel(a: multiset<Entry>, b: multiset<Entry>, c: multiset<Entry>)
    requires a + b == c + b
    ensures a == c
  {
    forall e ensures a[e] == c[e] {
      assert (a + b)[e] == (c + b)[e];
    }
  }

  /** Membership in a level, slot by slot. */
  lemma {:induction false} InContents(l: Level, e: Entry)
    ensures e in Contents(l) <==> exists s :: 0 <= s < |l| && e in l[s]
  {
    if l != [] {
      var n := |l| - 1;
      InContents(l[..n], e);
      assert forall s :: 0 <= s < n ==> l[..n][s] == l[s];
    }
  }

  lemma {:induction false} EmptyContents(l: Level)
    requires forall s :: 0 <= s < |l| ==> l[s] == []
    ensures Contents(l) == multiset{}
  {
    if l != [] { EmptyContents(l[..|l| - 1]); }
  }

  ghost predicate AllEmpty(l: Level) {
    forall s :: 0 <= s < |l| ==> l[s] == []
  }

  /** A wheel with empty slots is in order and holds nothing. */
  lemma EmptyWheel(l0: Level, l1: Level, l2: Level, l3: Level)
    requires |l0| == LVL0_SIZE && |l1| == |l2| == |l3| == LVL_SIZE
    requires AllEmpty(l0) && AllEmpty(l1) && AllEmpty(l2) && AllEmpty(l3)
    ensures Level0Ok(l0, 0) && LevelOk(l1, LVL0_SPAN, 0) && LevelOk(l2, LVL1_SPAN, 0) && LevelOk(l3, LVL2_SPAN, 0)
    ensures AllOf(Contents(l0), Contents(l1), Contents(l2), Contents(l3), multiset([])) == multiset{}
  {
    EmptyContents(l0);
    EmptyContents(l1);
    EmptyContents(l2);
    EmptyContents(l3);
  }

  // ---------------------------------------------------------------- where an entry goes

  /** `Level` index an entry is filed under, by its distance from the current tick. */
  function LevelFor(target: nat, tick: nat): nat {
    var delta := SatSub(target, tick);
    if delta < LVL0_SPAN then 0
    else if delta < LVL1_SPAN then 1
    else if delta < LVL2_SPAN then 2
    else if delta < LVL3_SPAN then 3
    else 4
  }

  lemma PushLevel0(l: Level, tick: nat, e: Entry)
    requires Level0Ok(l, tick) && LevelFor(e.target, tick) == 0
    ensures Level0Ok(l[e.target % 256 := l[e.target % 256] + [e]], tick)
  {
  }

  /** The distance bounds of `reinsert` put an entry within the 64 units a level may hold. */
  lemma UnitBounds(target: nat, tick: nat)
    ensures LevelFor(target, tick) == 1 ==> tick / LVL0_SPAN < target / LVL0_SPAN <= tick / LVL0_SPAN + LVL_SIZE
    ensures LevelFor(target, tick) == 2 ==> tick / LVL1_SPAN < target / LVL1_SPAN <= tick / LVL1_SPAN + LVL_SIZE
    ensures LevelFor(target, tick) == 3 ==> tick / LVL2_SPAN < target / LVL2_SPAN <= tick / LVL2_SPAN + LVL_SIZE
    ensures LevelFor(target, tick) == 4 ==> target >= (tick / LVL2_SPAN) * LVL2_SPAN + LVL3_SPAN
  {
  }

  lemma PushLevel(l: Level, unit: nat, tick: nat, e: Entry, s: nat)
    requires unit > 0 && LevelOk(l, unit, tick) && s == (e.target / unit) % LVL_SIZE
    requires tick / unit < e.target / unit <= tick / unit + LVL_SIZE
    ensures LevelOk(l[s := l[s] + [e]], unit, tick)
  {
  }

  lemma PushOverflow(l: seq<Entry>, tick: nat, e: Entry)
    requires OverflowOk(l, tick) && LevelFor(e.target, tick) == 4
    ensures OverflowOk(l + [e], tick)
  {
  }

  // ---------------------------------------------------------------- advancing the clock

  lemma Level0Advances(l: Level, tick: nat)
    requires Level0Ok(l, tick)
    ensures Level0Ok(l, tick + 1)
  {
  }

  /** Between rollovers of its unit a level is untouched; at a rollover the slot of the new unit holds exactly the
      entries of that unit, and emptying it restores the invariant. */
  lemma LevelAdvances(l: Level, unit: nat, tick: nat, s: nat)
    requires unit > 0 && LevelOk(l, unit, tick) && s == ((tick + 1) / unit) % LVL_SIZE
    ensures (tick + 1) % unit != 0 ==> LevelOk(l, unit, tick + 1)
    ensures (tick + 1) % unit == 0 ==>
              && LevelOk(l[s := []], unit, tick + 1)
              && forall e :: e in l[s] ==> e.target / unit == (tick + 1) / unit
  {
    UnitAdvances(tick, unit);
    if (tick + 1) % unit == 0 {
      var u := (tick + 1) / unit;
      forall t: nat, e | 0 <= t < LVL_SIZE && e in l[t]
        ensures t == s ==> e.target / unit == u
        ensures t != s ==> u < e.target / unit <= u + LVL_SIZE
      {
        SameSlotSameUnit(e.target / unit, u);
      }
    }
  }

  lemma UnitAdvances(tick: nat, unit: nat)
    requires unit > 0
    ensures (tick + 1) / unit == tick / unit + (if (tick + 1) % unit == 0 then 1 else 0)
  {
    var q, r := tick / unit, tick % unit;
    assert tick == q * unit + r;
    if r + 1 == unit {
      assert tick + 1 == (q + 1) * unit;
      DivModUnique(tick + 1, q + 1, 0, unit);
    } else {
      DivModUnique(tick + 1, q, r + 1, unit);
    }
  }

  /** Of 64 consecutive units only one has a given slot. */
  lemma SameSlotSameUnit(v: nat, u: nat)
    requires u <= v <= u + 63
    ensures v % LVL_SIZE == u % LVL_SIZE <==> v == u
  {
  }

  lemma OverflowAdvances(l: seq<Entry>, tick: nat)
    requires OverflowOk(l, tick) && (tick + 1) % LVL2_SPAN != 0
    ensures OverflowOk(l, tick + 1)
  {
    UnitAdvances(tick, LVL2_SPAN);
  }

  /** Entries of the unit that starts now are less than a unit away, so they move to a lower level. */
  lemma CascadeGoesDown(target: nat, tick: nat)
    ensures tick % LVL0_SPAN == 0 && target / LVL0_SPAN == tick / LVL0_SPAN ==> LevelFor(target, tick) == 0
    ensures tick % LVL1_SPAN == 0 && target / LVL1_SPAN == tick / LVL1_SPAN ==> LevelFor(target, tick) <= 1
    ensures tick % LVL2_SPAN == 0 && target / LVL2_SPAN == tick / LVL2_SPAN ==> LevelFor(target, tick) <= 2
  {
  }

  /** What `advance_tick` leaves behind: with the current slot emptied, nothing held is due. */
  lemma NothingDue(l0: Level, l1: Level, l2: Level, l3: Level, over: seq<Entry>, tick: nat, e: Entry)
    requires Level0Ok(l0, tick) && l0[tick % 256] == []
    requires LevelOk(l1, LVL0_SPAN, tick) && LevelOk(l2, LVL1_SPAN, tick) && LevelOk(l3, LVL2_SPAN, tick)
      && OverflowOk(over, tick)
    requires e in AllOf(Contents(l0), Contents(l1), Contents(l2), Contents(l3), multiset(over))
    ensures !Fires(e, tick)
  {
    hide Contents;
    InContents(l0, e);
    InContents(l1, e);
    InContents(l2, e);
    InContents(l3, e);
  }

  /** `Vec::swap_remove`. */
  function SwapRemove(l: seq<Entry>, i: nat): (r: seq<Entry>)
    requires i < |l|
    ensures multiset(r) + multiset{l[i]} == multiset(l)
    ensures |r| == |l| - 1 && r[..i] == l[..i]
  {
    var n := |l| - 1;
    SwappedOut(l, i);
    if i == n then l[..n] else l[..n][i := l[n]]
  }

  lemma SwappedOut(l: seq<Entry>, i: nat)
    requires i < |l|
    ensures var n := |l| - 1; multiset(if i == n then l[..n] else l[..n][i := l[n]]) + multiset{l[i]} == multiset(l)
  {
    var n := |l| - 1;
    assert l == l[..n] + [l[n]];
    if i < n { assert multiset(l[..n][i := l[n]]) == multiset(l[..n]) - multiset{l[i]} + multiset{l[n]}; }
  }

  /** `Vec::remove`. */
  function Remove(l: seq<Entry>, i: nat): (r: seq<Entry>)
    requires i < |l|
    ensures multiset(r) + multiset{l[i]} == multiset(l)
  {
    assert l == l[..i] + [l[i]] + l[i + 1..];
    l[..i] + l[i + 1..]
  }

  lemma RemoveUpdate(l: Level, s: nat, i: nat)
    requires s < |l| && i < |l[s]|
    ensures Contents(l[s := Remove(l[s], i)]) + multiset{l[s][i]} == Contents(l)
  {
    var x := Remove(l[s], i);
    ContentsUpdate(l, s, x);
    MultisetCancel(Contents(l[s := x]) + multiset{l[s][i]}, multiset(x), Contents(l));
  }

  /** Taking an entry away from a slot keeps a level in order. */
  lemma RemoveKeepsLevels(l: Level, s: nat, i: nat, tick: nat)
    requires s < |l| && i < |l[s]|
    ensures var l' := l[s := Remove(l[s], i)];
            && (Level0Ok(l, tick) ==> Level0Ok(l', tick))
            && (LevelOk(l, LVL0_SPAN, tick) ==> LevelOk(l', LVL0_SPAN, tick))
            && (LevelOk(l, LVL1_SPAN, tick) ==> LevelOk(l', LVL1_SPAN, tick))
            && (LevelOk(l, LVL2_SPAN, tick) ==> LevelOk(l', LVL2_SPAN, tick))
  {
    assert forall e :: e in Remove(l[s], i) ==> e in l[s];
  }

  /** `e` is the first entry of a level, in slot order, that satisfies `matches`. */
  ghost predicate FirstMatch(l: Level, matches: Entry -> bool, s: nat, i: nat) {
    && s < |l| && i < |l[s]| && matches(l[s][i])
    && (forall j :: 0 <= j < i ==> !matches(l[s][j]))
    && NoMatch(l[..s], matches)
  }

  ghost predicate NoMatch(l: Level, matches: Entry -> bool) {
    forall t, e :: 0 <= t < |l| && e in l[t] ==> !matches(e)
  }

  /** `iter().position(..)`, with the length for "not found". */
  method Position(l: seq<Entry>, matches: Entry -> bool) returns (pos: nat)
    ensures pos <= |l| && forall j :: 0 <= j < pos ==> !matches(l[j])
    ensures pos < |l| ==> matches(l[pos])
  {
    pos := 0;
    while pos < |l| && !matches(l[pos])
      invariant pos <= |l| && forall j :: 0 <= j < pos ==> !matches(l[j])
    {
      pos := pos + 1;
    }
  }

  lemma NothingMatches(l0: Level, l1: Level, l2: Level, l3: Level, over: seq<Entry>, matches: Entry -> bool)
    requires NoMatch(l0, matches) && NoMatch(l1, matches) && NoMatch(l2, matches) && NoMatch(l3, matches)
    requires forall j :: 0 <= j < |over| ==> !matches(over[j])
    ensures forall e :: e in AllOf(Contents(l0), Contents(l1), Contents(l2), Contents(l3), multiset(over)) ==>
      !matches(e)
  {
    forall e | e in AllOf(Contents(l0), Contents(l1), Contents(l2), Contents(l3), multiset(over)) ensures !matches(e) {
      InContents(l0, e);
      InContents(l1, e);
      InContents(l2, e);
      InContents(l3, e);
    }
  }

  /** The entries of a whole wheel. */
  ghost function AllOf(a: multiset<Entry>, b: multiset<Entry>, c: multiset<Entry>, d: multiset<Entry>,
                       over: multiset<Entry>): multiset<Entry> {
    a + b + c + d + over
  }

  lemma OneLess(a: multiset<Entry>, b: multiset<Entry>, c: multiset<Entry>, d: multiset<Entry>, over: multiset<Entry>,
                x: multiset<Entry>, e: Entry)
    ensures x + multiset{e} == a ==> AllOf(x, b, c, d, over) + multiset{e} == AllOf(a, b, c, d, over)
    ensures x + multiset{e} == b ==> AllOf(a, x, c, d, over) + multiset{e} == AllOf(a, b, c, d, over)
    ensures x + multiset{e} == c ==> AllOf(a, b, x, d, over) + multiset{e} == AllOf(a, b, c, d, over)
    ensures x + multiset{e} == d ==> AllOf(a, b, c, x, over) + multiset{e} == AllOf(a, b, c, d, over)
    ensures x + multiset{e} == over ==> AllOf(a, b, c, d, x) + multiset{e} == AllOf(a, b, c, d, over)
  {
  }
}
