/** Swap slots, page-table entries and the swap disk as values (rust/kernel/src/swap.rs, rust/kernel/src/paging.rs). */
module SwapTables {
  import opened Arithmetic
  import opened SwapEntries

  type Bytes = seq<bv8>

  const MAX_SWAP_SLOTS: nat := 16384
  const BITMAP_WORDS: nat := 256
  const PAGE: nat := 4096
  const SECTOR: nat := 512

  // ---------------------------------------------------------------- the bitmap

  /** A 64-bit word, as the set of its one bits. */
  type Word = set<nat>

  const FULL: Word := set b: nat | b < 64

  ghost predicate WordsOk(bm: seq<Word>) {
    |bm| == BITMAP_WORDS && forall w :: 0 <= w < |bm| ==> bm[w] <= FULL
  }

  /** The slots whose bit is set. */
  ghost function Used(bm: seq<Word>): set<nat>
    requires |bm| == BITMAP_WORDS
  {
    set s: nat | s < MAX_SWAP_SLOTS && s % 64 in bm[s / 64]
  }

  lemma UsedWhen(bm: seq<Word>, w: nat, b: nat)
    requires |bm| == BITMAP_WORDS && w < BITMAP_WORDS && b < 64
    ensures w * 64 + b < MAX_SWAP_SLOTS && (w * 64 + b in Used(bm) <==> b in bm[w])
  {
    DivModUnique(w * 64 + b, w, b, 64);
  }

  lemma UsedAfter(bm: seq<Word>, w: nat, b: nat, word: Word)
    requires |bm| == BITMAP_WORDS && w < BITMAP_WORDS && b < 64 && word - {b} == bm[w] - {b}
    ensures Used(bm[w := word]) == if b in word then Used(bm) + {w * 64 + b} else Used(bm) - {w * 64 + b}
  {
    var bm' := bm[w := word];
    DivModUnique(w * 64 + b, w, b, 64);
    forall s: nat | s < MAX_SWAP_SLOTS && s != w * 64 + b ensures s % 64 in bm'[s / 64] <==> s % 64 in bm[s / 64] {
      assert s == (s / 64) * 64 + s % 64;
      assert s / 64 == w ==> (s % 64 in word <==> s % 64 in word - {b}) && (s % 64 in bm[w] <==> s % 64 in bm[w] - {b});
    }
  }

  // ---------------------------------------------------------------- entries

  type Key = (nat, nat)

  type Ptes = map<Key, Pte>
  type Words = map<Key, bv64>
  type Frames = map<nat, Bytes>
  type Disk = map<nat, Bytes>
  type Pages = map<Key, Bytes>

  function ZeroPage(): (page: Bytes)
    ensures |page| == PAGE
  {
    seq(PAGE, _ => 0)
  }

  /** The entries are what the words of the page tables say. */
  ghost predicate Decodes(words: Words, ptes: Ptes) {
    words.Keys == ptes.Keys && forall k :: k in words ==> IsEntry(words[k]) && ptes[k] == Decode(words[k])
  }

  lemma ReadEntry(words: Words, ptes: Ptes, k: Key)
    requires Decodes(words, ptes) && k in words
    ensures k in ptes && ptes[k].perms == words[k] & PERMISSIONS
    ensures ptes[k].Present? <==> words[k] & PRESENT != 0
    ensures ptes[k].Swapped? <==> words[k] & PRESENT == 0 && words[k] & SWAPPED != 0
    ensures ptes[k].Present? ==> ptes[k].frame == FrameOf(words[k])
    ensures ptes[k].Present? ==>
      (ptes[k].cow <==> words[k] & COW != 0) && (ptes[k].accessed <==> words[k] & ACCESSED != 0)
    ensures ptes[k].Swapped? ==> ptes[k].slot == SlotOf(words[k])
  {
    hide SlotOf, FrameOf;
  }

  lemma WriteEntry(words: Words, ptes: Ptes, k: Key, w: bv64, e: Pte)
    requires Decodes(words, ptes) && IsEntry(w) && Decode(w) == e
    ensures Decodes(words[k := w], ptes[k := e])
  {
    hide Decode, IsEntry;
  }

  lemma RemoveEntry(words: Words, ptes: Ptes, k: Key)
    requires Decodes(words, ptes)
    ensures Decodes(words - {k}, ptes - {k})
  {
    hide Decode, IsEntry;
  }

  ghost predicate FramesOk(ptes: Ptes, mem: Frames, free: set<nat>) {
    && (forall k :: k in ptes && ptes[k].Present? ==> ptes[k].frame in mem && ptes[k].frame !in free)
    && (forall k, l ::
      k in ptes && l in ptes && ptes[k].Present? && ptes[l].Present? && ptes[k].frame == ptes[l].frame ==> k == l)
    && (forall f :: f in free ==> f in mem)
    && (forall f :: f in mem ==> |mem[f]| == PAGE && IsFrame(f))
  }

  /** The eight sectors of a slot hold a page. */
  ghost predicate OnDisk(disk: Disk, lba: nat, slot: nat, page: Bytes) {
    |page| == PAGE && forall i: nat :: i < 8 ==> SectorIs(disk, lba, slot, page, i)
  }

  ghost predicate SectorIs(disk: Disk, lba: nat, slot: nat, page: Bytes, i: nat)
    requires |page| == PAGE
  {
    var n := lba + slot * 8 + i;
    i < 8 && n in disk && disk[n] == page[i * SECTOR..i * SECTOR + SECTOR]
  }

  /** Each page's bytes are in its frame or in its slot. */
  ghost predicate Shows(ptes: Ptes, mem: Frames, disk: Disk, lba: nat, pages: Pages) {
    && pages.Keys == ptes.Keys
    && (forall k :: k in ptes && ptes[k].Present? && ptes[k].frame in mem ==> mem[ptes[k].frame] == pages[k])
    && (forall k :: k in ptes && ptes[k].Swapped? ==> OnDisk(disk, lba, ptes[k].slot, pages[k]))
  }

  /** Set bits and swapped entries correspond one to one. */
  ghost predicate SlotsOk(ptes: Ptes, used: set<nat>) {
    && (forall k :: k in ptes && ptes[k].Swapped? ==> ptes[k].slot in used)
    && (forall k, l ::
      k in ptes && l in ptes && ptes[k].Swapped? && ptes[l].Swapped? && ptes[k].slot == ptes[l].slot ==> k == l)
    && (forall s :: s in used ==> Holds(ptes, s))
  }

  ghost predicate Holds(ptes: Ptes, s: nat) { exists k :: k in ptes && ptes[k] == Swapped(s, ptes[k].perms) }

  ghost predicate Sound(ptes: Ptes, mem: Frames, free: set<nat>, disk: Disk, lba: nat, pages: Pages) {
    FramesOk(ptes, mem, free) && Shows(ptes, mem, disk, lba, pages)
  }

  // ---------------------------------------------------------------- the disk

  /** Only sectors of one slot differ. */
  ghost predicate SlotOnly(disk: Disk, disk': Disk, lba: nat, slot: nat) {
    forall n :: n in disk && !(lba + slot * 8 <= n < lba + slot * 8 + 8) ==> n in disk' && disk'[n] == disk[n]
  }

  /** Writing one slot leaves what is in the others. */
  lemma OtherSlots(disk: Disk, disk': Disk, lba: nat, slot: nat, other: nat, page: Bytes)
    requires other != slot && OnDisk(disk, lba, other, page)
    requires SlotOnly(disk, disk', lba, slot)
    ensures OnDisk(disk', lba, other, page)
  {
    forall i: nat | i < 8 ensures SectorIs(disk', lba, other, page, i) {
      assert SectorIs(disk, lba, other, page, i);
    }
  }

  // ---------------------------------------------------------------- one entry changes

  /** A page goes out: its slot now holds its bytes, and its frame is free. */
  lemma OutKeeps(ptes: Ptes, mem: Frames, free: set<nat>, disk: Disk, lba: nat, pages: Pages, k: Key, slot: nat,
                 disk': Disk)
    requires Sound(ptes, mem, free, disk, lba, pages) && k in ptes && ptes[k].Present?
    requires forall l :: l in ptes && ptes[l].Swapped? ==> ptes[l].slot != slot
    requires SlotOnly(disk, disk', lba, slot)
    requires OnDisk(disk', lba, slot, mem[ptes[k].frame])
    ensures Sound(ptes[k := Swapped(slot, ptes[k].perms)], mem, free + {ptes[k].frame}, disk', lba, pages)
  {
    forall l | l in ptes && ptes[l].Swapped? ensures OnDisk(disk', lba, ptes[l].slot, pages[l]) {
      OtherSlots(disk, disk', lba, slot, ptes[l].slot, pages[l]);
    }
  }

  /** A write to a slot that no entry holds disturbs nothing, finished or not. */
  lemma SpareKeeps(ptes: Ptes, mem: Frames, free: set<nat>, disk: Disk, lba: nat, pages: Pages, slot: nat, disk': Disk)
    requires Sound(ptes, mem, free, disk, lba, pages)
    requires forall l :: l in ptes && ptes[l].Swapped? ==> ptes[l].slot != slot
    requires SlotOnly(disk, disk', lba, slot)
    ensures Sound(ptes, mem, free, disk', lba, pages)
  {
    hide OnDisk, FramesOk;
    forall l | l in ptes && ptes[l].Swapped? ensures OnDisk(disk', lba, ptes[l].slot, pages[l]) {
      OtherSlots(disk, disk', lba, slot, ptes[l].slot, pages[l]);
    }
  }

  lemma SpareSlot(ptes: Ptes, used: set<nat>, slot: nat)
    requires SlotsOk(ptes, used - {slot})
    ensures forall l :: l in ptes && ptes[l].Swapped? ==> ptes[l].slot != slot
  {
  }

  /** Nor does whatever is read into a free frame. */
  lemma ScratchKeeps(ptes: Ptes, mem: Frames, free: set<nat>, disk: Disk, lba: nat, pages: Pages, f: nat, data: Bytes)
    requires Sound(ptes, mem, free, disk, lba, pages) && f in free && |data| == PAGE
    ensures Sound(ptes, mem[f := data], free, disk, lba, pages)
  {
    hide OnDisk;
  }

  lemma OutSlots(ptes: Ptes, used: set<nat>, k: Key, slot: nat)
    requires SlotsOk(ptes, used) && k in ptes && ptes[k].Present? && slot !in used
    ensures SlotsOk(ptes[k := Swapped(slot, ptes[k].perms)], used + {slot})
  {
    var ptes' := ptes[k := Swapped(slot, ptes[k].perms)];
    forall s | s in used + {slot} ensures Holds(ptes', s) {
      if s == slot {
        assert ptes'[k] == Swapped(s, ptes'[k].perms);
      } else {
        var l :| l in ptes && ptes[l] == Swapped(s, ptes[l].perms);
        assert l != k && ptes'[l] == ptes[l];
      }
    }
  }

  /** A page comes back into a free frame. */
  lemma InKeeps(ptes: Ptes, mem: Frames, free: set<nat>, disk: Disk, lba: nat, pages: Pages, k: Key, f: nat,
                accessed: bool)
    requires Sound(ptes, mem, free, disk, lba, pages) && k in ptes && ptes[k].Swapped? && f in free
    ensures Sound(ptes[k := Present(f, ptes[k].perms, false, accessed)], mem[f := pages[k]], free - {f}, disk, lba,
      pages)
  {
    assert |pages[k]| == PAGE by { assert OnDisk(disk, lba, ptes[k].slot, pages[k]); }
    hide OnDisk;
  }

  /** An entry that was swapped out gives its slot back. */
  lemma InSlots(ptes: Ptes, used: set<nat>, k: Key, ptes': Ptes)
    requires SlotsOk(ptes, used) && k in ptes && ptes[k].Swapped?
    requires (ptes' == ptes - {k}) || (k in ptes' && ptes'[k].Present? && ptes' == ptes[k := ptes'[k]])
    ensures SlotsOk(ptes', used - {ptes[k].slot})
  {
    forall s | s in used - {ptes[k].slot} ensures Holds(ptes', s) {
      assert Holds(ptes, s);
      var l :| l in ptes && ptes[l] == Swapped(s, ptes[l].perms);
      assert l != k && ptes'[l] == ptes[l];
    }
  }

  /** Entries that are present hold no slot: changing, adding or removing one changes no slot. */
  lemma PresentSlots(ptes: Ptes, used: set<nat>, k: Key, ptes': Ptes)
    requires SlotsOk(ptes, used) && (k in ptes ==> ptes[k].Present?)
    requires (ptes' == ptes - {k}) || (k in ptes' && ptes'[k].Present? && ptes' == ptes[k := ptes'[k]])
    ensures SlotsOk(ptes', used)
  {
    forall s | s in used ensures Holds(ptes', s) {
      assert Holds(ptes, s);
      var l :| l in ptes && ptes[l] == Swapped(s, ptes[l].perms);
      assert l != k && ptes'[l] == ptes[l];
    }
  }

  lemma PresentPage(ptes: Ptes, mem: Frames, free: set<nat>, disk: Disk, lba: nat, pages: Pages, k: Key)
    requires Sound(ptes, mem, free, disk, lba, pages) && k in ptes && ptes[k].Present?
    ensures ptes[k].frame in mem && |mem[ptes[k].frame]| == PAGE
  {
  }

  /** Both at once, for a slot already marked as used. */
  lemma OutBoth(ptes: Ptes, used: set<nat>, mem: Frames, free: set<nat>, disk: Disk, lba: nat, pages: Pages, k: Key,
                slot: nat, disk': Disk)
    requires Sound(ptes, mem, free, disk, lba, pages) && k in ptes && ptes[k].Present?
    requires slot in used && SlotsOk(ptes, used - {slot})
    requires SlotOnly(disk, disk', lba, slot)
    requires ptes[k].frame in mem && OnDisk(disk', lba, slot, mem[ptes[k].frame])
    ensures Sound(ptes[k := Swapped(slot, ptes[k].perms)], mem, free + {ptes[k].frame}, disk', lba, pages)
    ensures SlotsOk(ptes[k := Swapped(slot, ptes[k].perms)], used)
  {
    OutSlots(ptes, used - {slot}, k, slot);
    assert used - {slot} + {slot} == used;
    hide Sound, OnDisk;
    OutKeeps(ptes, mem, free, disk, lba, pages, k, slot, disk');
  }

  lemma StoreKeeps(ptes: Ptes, mem: Frames, free: set<nat>, disk: Disk, lba: nat, pages: Pages, k: Key, off: nat,
                   b: bv8)
    requires Sound(ptes, mem, free, disk, lba, pages) && k in ptes && ptes[k].Present? && off < PAGE
    ensures ptes[k].frame in mem && k in pages && |pages[k]| == PAGE && mem[ptes[k].frame] == pages[k]
    ensures Sound(ptes, mem[ptes[k].frame := pages[k][off := b]], free, disk, lba, pages[k := pages[k][off := b]])
  {
    hide OnDisk;
  }

  /** The bytes do not depend on the accessed bit. */
  lemma TouchKeeps(ptes: Ptes, mem: Frames, free: set<nat>, disk: Disk, lba: nat, pages: Pages, k: Key)
    requires Sound(ptes, mem, free, disk, lba, pages) && k in ptes && ptes[k].Present?
    ensures Sound(ptes[k := ptes[k].(accessed := true)], mem, free, disk, lba, pages)
  {
    hide OnDisk;
  }

  lemma MapKeeps(ptes: Ptes, mem: Frames, free: set<nat>, disk: Disk, lba: nat, pages: Pages, k: Key, e: Pte,
                 page: Bytes)
    requires Sound(ptes, mem, free, disk, lba, pages) && k !in ptes && e.Present? && e.frame in free && |page| == PAGE
    ensures Sound(ptes[k := e], mem[e.frame := page], free - {e.frame}, disk, lba, pages[k := page])
  {
    hide OnDisk;
  }

  lemma UnmapKeeps(ptes: Ptes, mem: Frames, free: set<nat>, disk: Disk, lba: nat, pages: Pages, k: Key)
    requires Sound(ptes, mem, free, disk, lba, pages) && k in ptes
    ensures Sound(ptes - {k}, mem, if ptes[k].Present? then free + {ptes[k].frame} else free, disk, lba, pages - {k})
  {
    hide OnDisk;
  }

  /** A new page where there was none, or over an entry that was out. */
  lemma DemandKeeps(ptes: Ptes, mem: Frames, free: set<nat>, disk: Disk, lba: nat, pages: Pages, k: Key, e: Pte,
                    page: Bytes)
    requires Sound(ptes, mem, free, disk, lba, pages) && (k in ptes ==> ptes[k].Swapped?)
    requires e.Present? && e.frame in free && |page| == PAGE
    ensures Sound(ptes[k := e], mem[e.frame := page], free - {e.frame}, disk, lba, pages[k := page])
  {
    hide Sound;
    if k in ptes {
      UnmapKeeps(ptes, mem, free, disk, lba, pages, k);
      assert (ptes - {k})[k := e] == ptes[k := e] && (pages - {k})[k := page] == pages[k := page];
      MapKeeps(ptes - {k}, mem, free, disk, lba, pages - {k}, k, e, page);
    } else {
      MapKeeps(ptes, mem, free, disk, lba, pages, k, e, page);
    }
  }
}
