/** The second-chance scan as a relation between the table and the accessed bits before and after. */
module SwapClock {
  import opened Arithmetic
  import opened SwapEntries
  import opened SwapTables
  import opened Options

  const MAX_TRACKED_PAGES: nat := 512

  type Tracked = seq<Option<Key>>

  /** How many entries are occupied. */
  function Occupied(t: Tracked): nat {
    if t == [] then 0 else Occupied(t[..|t| - 1]) + if t[|t| - 1].Some? then 1 else 0
  }

  lemma {:induction false} OccupiedAfter(t: Tracked, i: nat, x: Option<Key>)
    requires i < |t|
    ensures Occupied(t[i := x]) + (if t[i].Some? then 1 else 0) == Occupied(t) + if x.Some? then 1 else 0
  {
    var n := |t| - 1;
    if i == n {
      assert t[i := x][..n] == t[..n];
    } else {
      assert t[i := x][..n] == t[..n][i := x];
      OccupiedAfter(t[..n], i, x);
    }
  }

  lemma {:induction false} NoneOccupied(t: Tracked)
    ensures Occupied(t) == 0 <==> forall i :: 0 <= i < |t| ==> t[i].None?
    decreases |t|
  {
    if t != [] {
      var n := |t| - 1;
      NoneOccupied(t[..n]);
      assert (forall i :: 0 <= i < |t| ==> t[i].None?) <==> (t[n].None? && forall i :: 0 <= i < n ==> t[..n][i].None?);
    }
  }

  ghost predicate Distinct(t: Tracked) {
    forall i, j :: 0 <= i < j < |t| && t[i].Some? ==> t[i] != t[j]
  }

  lemma MembersAfter(t: Tracked, i: nat, x: Option<Key>)
    requires i < |t|
    ensures x in t[i := x] && forall y :: y != x && y != t[i] ==> (y in t[i := x] <==> y in t)
    ensures Distinct(t) && t[i].Some? && x != t[i] ==> t[i] !in t[i := x]
  {
    var t' := t[i := x];
    assert t'[i] == x;
    forall y | y != x && y != t[i] && y in t ensures y in t' {
      var j :| 0 <= j < |t| && t[j] == y;
      assert t'[j] == y;
    }
  }

  lemma NothingCleared(p: Ptes)
    ensures OnlyCleared(p, p)
  {
  }

  /** A tracked page that may be evicted. */
  predicate Candidate(ptes: Ptes, t: Option<Key>) {
    t.Some? && t.value in ptes && ptes[t.value].Present? && !ptes[t.value].cow
  }

  predicate WasUsed(ptes: Ptes, t: Option<Key>)
    requires Candidate(ptes, t)
  {
    ptes[t.value].accessed
  }

  /** How many steps after `hand` the scan first comes to `i`. */
  function Distance(hand: nat, i: nat): nat
    requires hand < MAX_TRACKED_PAGES && i < MAX_TRACKED_PAGES
  {
    if hand <= i then i - hand else i + MAX_TRACKED_PAGES - hand
  }

  lemma DistanceOf(hand: nat, s: nat)
    requires hand < MAX_TRACKED_PAGES && s < 2 * MAX_TRACKED_PAGES
    ensures var i := (hand + s) % MAX_TRACKED_PAGES;
      Distance(hand, i) == if s < MAX_TRACKED_PAGES then s else s - MAX_TRACKED_PAGES
    ensures ((hand + s) % MAX_TRACKED_PAGES + 1) % MAX_TRACKED_PAGES == (hand + s + 1) % MAX_TRACKED_PAGES
  {
    var n := hand + s;
    var k := if n < 512 then 0 else if n < 1024 then 1 else 2;
    DivModUnique(n, k, n - k * 512, 512);
    if n - k * 512 == 511 {
      DivModUnique(n + 1, k + 1, 0, 512);
    } else {
      DivModUnique(n + 1, k, n + 1 - k * 512, 512);
      DivModUnique(n - k * 512 + 1, 0, n - k * 512 + 1, 512);
    }
  }

  /** The same entries, except that some accessed bits were cleared. */
  ghost predicate OnlyCleared(p0: Ptes, p: Ptes) {
    p.Keys == p0.Keys && forall k :: k in p ==> p[k] == p0[k] || (p0[k].Present? && p[k] == p0[k].(accessed := false))
  }

  /** The scan so far: after `s` steps from `hand` no victim was met.  Pages met so far were in use and had their bit
      cleared; pages not met are as they were; entries whose page is not present were dropped. */
  ghost predicate Scanned(p0: Ptes, t0: Tracked, p: Ptes, t: Tracked, hand: nat, s: nat) {
    && |t0| == |t| == MAX_TRACKED_PAGES && hand < MAX_TRACKED_PAGES && OnlyCleared(p0, p)
    && (forall i :: 0 <= i < |t| ==> t[i] == t0[i] || (t[i].None? && Gone(p0, t0[i])))
    && (forall i :: 0 <= i < |t| && Candidate(p0, t0[i]) ==> At(p0, t0[i], p, hand, i, s))
    && (forall i :: 0 <= i < |t| && Distance(hand, i) + MAX_TRACKED_PAGES < s ==> !Candidate(p0, t0[i]))
  }

  predicate Gone(p0: Ptes, k: Option<Key>) { k.Some? && (k.value !in p0 || !p0[k.value].Present?) }

  ghost predicate At(p0: Ptes, k: Option<Key>, p: Ptes, hand: nat, i: nat, s: nat)
    requires hand < MAX_TRACKED_PAGES && i < MAX_TRACKED_PAGES && Candidate(p0, k) && p.Keys == p0.Keys
  {
    if Distance(hand, i) < s then WasUsed(p0, k) && p[k.value] == p0[k.value].(accessed := false)
      else p[k.value] == p0[k.value]
  }

  lemma ScanStart(p: Ptes, t: Tracked, hand: nat)
    requires |t| == MAX_TRACKED_PAGES && hand < MAX_TRACKED_PAGES
    ensures Scanned(p, t, p, t, hand, 0)
  {
  }

  lemma ScannedClears(p0: Ptes, t0: Tracked, p: Ptes, t: Tracked, hand: nat, s: nat)
    requires Scanned(p0, t0, p, t, hand, s)
    ensures OnlyCleared(p0, p)
  {
  }

  /** A page in use, or one that is copy-on-write, is passed by. */
  lemma ScanPass(p0: Ptes, t0: Tracked, p: Ptes, t: Tracked, hand: nat, s: nat, i: nat)
    requires Scanned(p0, t0, p, t, hand, s) && Distinct(t0) && s < 2 * MAX_TRACKED_PAGES
      && i == (hand + s) % MAX_TRACKED_PAGES
    requires t[i].None? || (t[i].value in p && p[t[i].value].Present? && p[t[i].value].cow)
    ensures Scanned(p0, t0, p, t, hand, s + 1)
  {
    DistanceOf(hand, s);
    assert !Candidate(p0, t0[i]);
  }

  lemma ScanClear(p0: Ptes, t0: Tracked, p: Ptes, t: Tracked, hand: nat, s: nat, i: nat)
    requires Scanned(p0, t0, p, t, hand, s) && Distinct(t0) && s < 2 * MAX_TRACKED_PAGES
      && i == (hand + s) % MAX_TRACKED_PAGES
    requires Candidate(p, t[i]) && p[t[i].value].accessed
    ensures s < MAX_TRACKED_PAGES && Scanned(p0, t0, p[t[i].value := p[t[i].value].(accessed := false)], t, hand, s + 1)
  {
    DistanceOf(hand, s);
    assert t[i] == t0[i] && Candidate(p0, t0[i]);
    assert At(p0, t0[i], p, hand, i, s);
    var p' := p[t[i].value := p[t[i].value].(accessed := false)];
    forall j | 0 <= j < |t| && Candidate(p0, t0[j]) ensures At(p0, t0[j], p', hand, j, s + 1) {
      assert At(p0, t0[j], p, hand, j, s);
      assert j != i ==> t0[j] != t0[i];
    }
  }

  lemma ScanDrop(p0: Ptes, t0: Tracked, p: Ptes, t: Tracked, hand: nat, s: nat, i: nat)
    requires Scanned(p0, t0, p, t, hand, s) && Distinct(t0) && s < 2 * MAX_TRACKED_PAGES
      && i == (hand + s) % MAX_TRACKED_PAGES
    requires t[i].Some? && (t[i].value !in p || !p[t[i].value].Present?)
    ensures Scanned(p0, t0, p, t[i := None], hand, s + 1)
  {
    DistanceOf(hand, s);
    assert !Candidate(p0, t0[i]) && Gone(p0, t0[i]);
  }

  /** A page not in use is the victim: it was in use at the start only if every candidate was. */
  lemma ScanVictim(p0: Ptes, t0: Tracked, p: Ptes, t: Tracked, hand: nat, s: nat, i: nat)
    requires Scanned(p0, t0, p, t, hand, s) && s < 2 * MAX_TRACKED_PAGES && i == (hand + s) % MAX_TRACKED_PAGES
    requires Candidate(p, t[i]) && !p[t[i].value].accessed
    ensures t[i] == t0[i] && Candidate(p0, t0[i])
    ensures WasUsed(p0, t0[i]) ==> forall j :: 0 <= j < |t0| && Candidate(p0, t0[j]) ==> WasUsed(p0, t0[j])
  {
    DistanceOf(hand, s);
    assert t[i] == t0[i] && Candidate(p0, t0[i]);
    assert At(p0, t0[i], p, hand, i, s);
    if WasUsed(p0, t0[i]) {
      forall j | 0 <= j < |t0| && Candidate(p0, t0[j]) ensures WasUsed(p0, t0[j]) {
        assert At(p0, t0[j], p, hand, j, s);
      }
    }
  }

  /** Two laps without a victim: there was no candidate. */
  lemma ScanEnd(p0: Ptes, t0: Tracked, p: Ptes, t: Tracked, hand: nat)
    requires Scanned(p0, t0, p, t, hand, 2 * MAX_TRACKED_PAGES)
    ensures forall i :: 0 <= i < |t0| ==> !Candidate(p0, t0[i])
  {
  }

  /** The slots and the bytes do not depend on accessed bits. */
  lemma ClearedKeeps(p0: Ptes, p: Ptes, used: set<nat>, mem: Frames, free: set<nat>, disk: Disk, lba: nat, pages: Pages)
    requires OnlyCleared(p0, p) && SlotsOk(p0, used) && Sound(p0, mem, free, disk, lba, pages)
    ensures SlotsOk(p, used) && Sound(p, mem, free, disk, lba, pages)
  {
    forall s | s in used ensures Holds(p, s) {
      assert Holds(p0, s);
      var k :| k in p0 && p0[k] == Swapped(s, p0[k].perms);
      assert p[k] == p0[k];
    }
  }
}
