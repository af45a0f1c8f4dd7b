/** The swap manager (rust/kernel/src/swap.rs) with the page-table side of paging out and in
    (rust/kernel/src/paging.rs). */
module Swap {
  import opened SwapEntries
  import opened SwapTables
  import opened SwapClock
  import opened Options

  datatype PageIn = Resolved | NotSwapped | OutOfMemory | DiskError

  /** How an access ends: as it should, on a page that is all zero, or with the program killed. */
  datatype Outcome = Done | Zeroed | Killed

  /** What a fault would meet: how many sector reads the disk accepts, and the flags of the anonymous area that allows
      the access, if one does. */
  datatype Setting = Setting(sectors: nat, area: Option<bv64>)

  class Swapper {
    const bitmap: array<Word>
    var usedSlots: nat
    const lba: nat
    var disk: Disk
    var words: Words
    var mem: Frames
    var free: set<nat>
    ghost var ptes: Ptes
    ghost var pages: Pages
    ghost var lost: set<nat>
    const tracked: array<Option<Key>>
    var trackedCount: nat
    var hand: nat

    ghost predicate SlotsValid()
      reads this, bitmap
    {
      bitmap.Length == BITMAP_WORDS && WordsOk(bitmap[..]) && usedSlots == |Used(bitmap[..])|
    }

    /** The slots in use that some entry can still name. */
    ghost function Named(): set<nat>
      requires bitmap.Length == BITMAP_WORDS
      reads this, bitmap
    {
      Used(bitmap[..]) - lost
    }

    /** `ptes` is what the words of the page tables say, `pages` what each virtual page reads, and `lost` are the slots
        in use that no entry names any more. */
    ghost predicate Valid()
      reads this, bitmap
    {
      && SlotsValid() && lost <= Used(bitmap[..]) && SlotsOk(ptes, Named()) && Decodes(words, ptes)
      && Sound(ptes, mem, free, disk, lba, pages)
    }

    /** The table of tracked pages: no page twice, and the count is the number of occupied entries. */
    ghost predicate TrackOk()
      reads this, tracked
    {
      tracked.Length == MAX_TRACKED_PAGES && hand < MAX_TRACKED_PAGES && Distinct(tracked[..])
        && trackedCount == Occupied(tracked[..])
    }

    constructor (frames: set<nat>, lba: nat)
      requires forall f :: f in frames ==> IsFrame(f)
      ensures Valid() && TrackOk() && fresh(bitmap) && fresh(tracked) && pages == map[] && lost == {} && free == frames
        && this.lba == lba
    {
      this.lba := lba;
      bitmap := new Word[BITMAP_WORDS](_ => {});
      tracked := new Option<Key>[MAX_TRACKED_PAGES](_ => None);
      trackedCount, hand := 0, 0;
      usedSlots, disk, words, free := 0, map[], map[], frames;
      ptes, pages, lost := map[], map[], {};
      mem := map f | f in frames :: ZeroPage();
      new;
      assert Used(bitmap[..]) == {};
      NoneOccupied(tracked[..]);
    }

    // -------------------------------------------------------------- slots

    /** Takes the lowest slot that is not in use. */
    method AllocSlot() returns (slot: Option<nat>)
      requires SlotsValid()
      modifies `usedSlots, bitmap
      ensures SlotsValid()
      ensures slot.None? ==> Used(bitmap[..]) == old(Used(bitmap[..])) && forall s: nat :: s < MAX_SWAP_SLOTS ==>
        s in Used(bitmap[..])
      ensures slot.Some? ==> slot.value < MAX_SWAP_SLOTS && slot.value !in old(Used(bitmap[..]))
      ensures slot.Some? ==> Used(bitmap[..]) == old(Used(bitmap[..])) + {slot.value}
      ensures slot.Some? ==> forall s: nat :: s < slot.value ==> s in Used(bitmap[..])
    {
      hide Used;
      var w := 0;
      while w < BITMAP_WORDS
        invariant w <= BITMAP_WORDS && forall i :: 0 <= i < w ==> bitmap[i] == FULL
      {
        if bitmap[w] != FULL {
          var b := LowestClear(bitmap[w]);
          UsedWhen(bitmap[..], w, b);
          UsedAfter(bitmap[..], w, b, bitmap[w] + {b});
          LowestSlot(bitmap[..], w, b);
          assert bitmap[..][w := bitmap[w] + {b}] == bitmap[..w] + [bitmap[w] + {b}] + bitmap[w + 1..];
          bitmap[w] := bitmap[w] + {b};
          usedSlots := usedSlots + 1;
          return Some(w * 64 + b);
        }
        w := w + 1;
      }
      AllFull(bitmap[..]);
      return None;
    }

    /** Gives a slot back; out of range or already free, it does nothing. */
    method FreeSlot(slot: nat)
      requires SlotsValid()
      modifies `usedSlots, bitmap
      ensures SlotsValid() && Used(bitmap[..]) == old(Used(bitmap[..])) - {slot}
    {
      if slot >= MAX_SWAP_SLOTS { return; }
      var w, b := slot / 64, slot % 64;
      UsedWhen(bitmap[..], w, b);
      if b in bitmap[w] {
        UsedAfter(bitmap[..], w, b, bitmap[w] - {b});
        bitmap[w] := bitmap[w] - {b};
        usedSlots := usedSlots - 1;
      }
    }

    // -------------------------------------------------------------- the disk

    /** Eight sector writes, of which the disk accepts the first `writes`. */
    method WritePageToDisk(slot: nat, page: Bytes, writes: nat) returns (ok: bool)
      requires |page| == PAGE
      modifies `disk
      ensures (ok <==> writes >= 8) && (ok ==> OnDisk(disk, lba, slot, page)) && SlotOnly(old(disk), disk, lba, slot)
    {
      var base := lba + slot * 8;
      for i := 0 to 8
        invariant i <= writes && SlotOnly(old(disk), disk, lba, slot)
        invariant forall j: nat :: j < i ==> SectorIs(disk, lba, slot, page, j)
      {
        if i >= writes { return false; }
        ghost var was := disk;
        disk := disk[base + i := page[i * SECTOR..i * SECTOR + SECTOR]];
        forall j: nat | j < i ensures SectorIs(disk, lba, slot, page, j) {
          assert SectorIs(was, lba, slot, page, j);
        }
      }
      return true;
    }

    /** Eight sector reads into a frame, of which the disk accepts the first `sectors`. */
    method ReadPageFromDisk(slot: nat, into: Bytes, sectors: nat, ghost page: Bytes) returns (ok: bool, data: Bytes)
      requires OnDisk(disk, lba, slot, page) && |into| == PAGE
      ensures (ok <==> sectors >= 8) && |data| == PAGE && (ok ==> data == page)
    {
      data := into;
      for i := 0 to 8
        invariant i <= sectors && data == page[..i * SECTOR] + into[i * SECTOR..]
      {
        if i >= sectors { return false, data; }
        assert SectorIs(disk, lba, slot, page, i);
        SectorRead(page, into, i);
        data := data[..i * SECTOR] + disk[lba + slot * 8 + i] + data[i * SECTOR + SECTOR..];
      }
      assert page[..8 * SECTOR] + into[8 * SECTOR..] == page;
      return true, data;
    }

    // -------------------------------------------------------------- paging out and in

    /** Writes a present page to a slot taken for it and frees its frame.  It fails when the page is not present or the
        disk does; then only sectors of the slot may have changed, and every page reads what it read. */
    method SwapPageOut(k: Key, slot: nat, writes: nat) returns (ok: bool)
      requires SlotsValid() && lost <= Used(bitmap[..]) && slot in Named() && SlotsOk(ptes, Named() - {slot})
      requires Decodes(words, ptes) && Sound(ptes, mem, free, disk, lba, pages)
      modifies `disk, `words, `ptes, `free
      ensures ok <==> k in old(ptes) && old(ptes)[k].Present? && writes >= 8
      ensures ok ==> Valid() && words == old(words)[k := OutEntry(old(words)[k], slot)]
      ensures ok ==>
        ptes == old(ptes)[k := Swapped(slot, old(ptes)[k].perms)] && free == old(free) + {old(ptes)[k].frame}
      ensures !ok ==> unchanged(`words, `ptes, `free) && Sound(ptes, mem, free, disk, lba, pages)
      ensures SlotOnly(old(disk), disk, lba, slot)
    {
      hide WordsOk, OnDisk, Sound, SlotsOk, Decodes, Decode, FrameOf, OutEntry, IsEntry;
      SameKeys(words, ptes, k);
      if k !in words { return false; }
      ReadEntry(words, ptes, k);
      var entry := words[k];
      if entry & PRESENT == 0 { return false; }
      var frame := FrameOf(entry);
      ghost var was := disk;
      PresentPage(ptes, mem, free, disk, lba, pages, k);
      SpareSlot(ptes, Named(), slot);
      var written := WritePageToDisk(slot, mem[frame], writes);
      SpareKeeps(ptes, mem, free, was, lba, pages, slot, disk);
      if !written { return false; }
      OutBoth(ptes, Named(), mem, free, was, lba, pages, k, slot, disk);
      SlotIsWord(slot);
      OutDecodes(entry, slot);
      WriteEntry(words, ptes, k, OutEntry(entry, slot), Swapped(slot, ptes[k].perms));
      words := words[k := OutEntry(entry, slot)];
      ptes := ptes[k := Swapped(slot, ptes[k].perms)];
      free := free + {frame};
      return true;
    }

    /** Pages one page out; every failing exit gives the slot back, also when the disk fails half-way. */
    method PageOut(k: Key, writes: nat) returns (r: Option<nat>)
      requires Valid()
      modifies `usedSlots, bitmap, `disk, `words, `ptes, `free
      ensures Valid()
      ensures r.Some? ==>
        k in old(ptes) && old(ptes)[k].Present? && ptes == old(ptes)[k := Swapped(r.value, old(ptes)[k].perms)]
      ensures r.Some? ==>
        free == old(free) + {old(ptes)[k].frame} && r.value !in old(Used(bitmap[..]))
        && Used(bitmap[..]) == old(Used(bitmap[..])) + {r.value}
      ensures r.None? ==> unchanged(`words, `ptes, `free) && Used(bitmap[..]) == old(Used(bitmap[..]))
      ensures r.None? <==>
        || k !in old(ptes) || !old(ptes)[k].Present? || writes < 8
        || forall s: nat :: s < MAX_SWAP_SLOTS ==> s in old(Used(bitmap[..]))
    {
      hide WordsOk, Sound, Used, SlotsOk, Decodes;
      ghost var named := Named();
      var slot := AllocSlot();
      if slot.None? { return None; }
      assert Named() - {slot.value} == named;
      var ok := SwapPageOut(k, slot.value, writes);
      if ok { return slot; }
      GiveBack(slot.value);
      return None;
    }

    /** A slot taken in vain goes back. */
    method GiveBack(slot: nat)
      requires SlotsValid() && lost <= Used(bitmap[..]) && slot in Named() && SlotsOk(ptes, Named() - {slot})
      requires Decodes(words, ptes) && Sound(ptes, mem, free, disk, lba, pages)
      modifies `usedSlots, bitmap
      ensures Valid() && Used(bitmap[..]) == old(Used(bitmap[..])) - {slot}
    {
      hide WordsOk, Sound, Used, SlotsOk, Decodes;
      ghost var named := Named();
      FreeSlot(slot);
      assert Named() == named - {slot};
    }

    /** Brings a swapped page back; its bytes and permissions are as they were.  When the disk fails, the fresh frame
        goes back and the page stays out. */
    method ResolveSwappedPage(k: Key, sectors: nat) returns (r: PageIn)
      requires Valid()
      modifies `usedSlots, bitmap, `words, `ptes, `mem, `free
      ensures Valid()
      ensures r.NotSwapped? <==> k !in old(ptes) || !old(ptes)[k].Swapped?
      ensures r.OutOfMemory? <==> k in old(ptes) && old(ptes)[k].Swapped? && old(free) == {}
      ensures r.DiskError? <==> k in old(ptes) && old(ptes)[k].Swapped? && old(free) != {} && sectors < 8
      ensures r.Resolved? ==> k in ptes && ptes[k].Present? && ptes[k].frame in old(free)
      ensures r.Resolved? ==> ptes == old(ptes)[k := Present(ptes[k].frame, old(ptes)[k].perms, false, false)]
      ensures r.Resolved? ==> words == old(words)[k := InEntry(old(words)[k], ptes[k].frame)]
      ensures r.Resolved? ==> Used(bitmap[..]) == old(Used(bitmap[..])) - {old(ptes)[k].slot}
      ensures !r.Resolved? ==> unchanged(`words, `ptes, `free, `usedSlots, bitmap)
      ensures !r.Resolved? ==> Used(bitmap[..]) == old(Used(bitmap[..]))
    {
      hide WordsOk, Used, SlotsOk, OnDisk, Sound, Decodes, Decode, FrameOf, InEntry, IsEntry, IsFrame, SlotOf;
      SameKeys(words, ptes, k);
      if k !in words { return NotSwapped; }
      ReadEntry(words, ptes, k);
      var entry := words[k];
      if entry & PRESENT != 0 || entry & SWAPPED == 0 { return NotSwapped; }
      var slot := SlotOf(entry);
      if free == {} { return OutOfMemory; }
      var frame :| frame in free;
      SlotBytes(ptes, mem, free, disk, lba, pages, k);
      FreeIsFrame(ptes, mem, free, disk, lba, pages, frame);
      var ok, data := ReadPageFromDisk(slot, mem[frame], sectors, pages[k]);
      ScratchKeeps(ptes, mem, free, disk, lba, pages, frame, data);
      if !ok {
        mem := mem[frame := data];
        return DiskError;
      }
      InKeeps(ptes, mem, free, disk, lba, pages, k, frame, false);
      InDecodes(entry, frame);
      ghost var e', named := Present(frame, ptes[k].perms, false, false), Named();
      WriteEntry(words, ptes, k, InEntry(entry, frame), e');
      InSlots(ptes, named, k, ptes[k := e']);
      NamedSlot(ptes, named, k);
      free, mem, words := free - {frame}, mem[frame := data], words[k := InEntry(entry, frame)];
      ptes := ptes[k := e'];
      FreeSlot(slot);
      assert Named() == named - {slot};
      return Resolved;
    }

    /** Unmaps a page, present or swapped out. */
    method Unmap(k: Key)
      requires Valid()
      modifies `usedSlots, bitmap, `words, `ptes, `free, `pages
      ensures Valid() && pages == old(pages) - {k} && ptes == old(ptes) - {k}
    {
      hide WordsOk, Used, SlotsOk, OnDisk, Sound, Decodes, Decode, FrameOf, SlotOf;
      if k !in words {
        NotMapped(words, ptes, mem, free, disk, lba, pages, k);
        return;
      }
      ReadEntry(words, ptes, k);
      RemoveEntry(words, ptes, k);
      UnmapKeeps(ptes, mem, free, disk, lba, pages, k);
      var entry := words[k];
      ghost var named := Named();
      if entry & PRESENT == 0 {
        InSlots(ptes, named, k, ptes - {k});
        NamedSlot(ptes, named, k);
        words, ptes, pages := words - {k}, ptes - {k}, pages - {k};
        FreeSlot(SlotOf(entry));
        assert Named() == named - {SlotOf(entry)};
      } else {
        PresentSlots(ptes, named, k, ptes - {k});
        words, ptes, pages, free := words - {k}, ptes - {k}, pages - {k}, free + {FrameOf(entry)};
      }
    }

    /** A new zero page for a page of an anonymous area.  `map` looks only at the present bit, so an entry that is out
        is written over, and its slot is lost. */
    method DemandPage(k: Key, flags: bv64) returns (ok: bool)
      requires Valid() && FlagsOk(flags)
      modifies `words, `ptes, `mem, `free, `pages, `lost
      ensures Valid() && (ok <==> (k !in old(ptes) || old(ptes)[k].Swapped?) && old(free) != {})
      ensures ok ==> pages == old(pages)[k := ZeroPage()]
      ensures ok ==> k in ptes && ptes[k].Present? && ptes == old(ptes)[k := ptes[k]]
      ensures ok ==> ptes[k].perms == flags & PERMISSIONS && free < old(free)
      ensures ok ==> lost == if k in old(ptes) then old(lost) + {old(ptes)[k].slot} else old(lost)
      ensures !ok ==> unchanged(`words, `ptes, `pages, `free, `lost)
    {
      hide WordsOk, Used, SlotsOk, Sound, Decodes, FrameOf, MapEntry, IsEntry, IsFrame, SlotOf;
      SameKeys(words, ptes, k);
      if k in words { ReadEntry(words, ptes, k); }
      if free == {} || (k in words && words[k] & PRESENT != 0) { return false; }
      var frame :| frame in free;
      FreeIsFrame(ptes, mem, free, disk, lba, pages, frame);
      MapDecodes(frame, flags);
      ghost var e := Present(frame, flags & PERMISSIONS, flags & COW != 0, flags & ACCESSED != 0);
      WriteEntry(words, ptes, k, MapEntry(frame, flags), e);
      var zero: Bytes := ZeroPage();
      DemandKeeps(ptes, mem, free, disk, lba, pages, k, e, zero);
      ghost var named := Named();
      if k in ptes {
        InSlots(ptes, named, k, ptes[k := e]);
        NamedSlot(ptes, named, k);
        lost := lost + {ptes[k].slot};
        assert Named() == named - {ptes[k].slot};
      } else {
        PresentSlots(ptes, named, k, ptes[k := e]);
      }
      words, mem, free := words[k := MapEntry(frame, flags)], mem[frame := zero], free - {frame};
      ptes, pages := ptes[k := e], pages[k := zero];
      return true;
    }

    /** The fault handler: it first tries to page in and then, whatever the reason that failed, to map a zero page. */
    method HandleFault(k: Key, at: Setting) returns (r: Outcome)
      requires Valid() && TrackOk() && AreaOk(at) && (k in ptes ==> ptes[k].Swapped?)
      modifies `usedSlots, bitmap, `words, `ptes, `mem, `free, `pages, `lost, `trackedCount, tracked
      ensures Valid() && TrackOk() && r == Ends(old(ptes), old(free), k, at)
      ensures Accessed(old(ptes), old(lost), ptes, lost, k, at, r)
      ensures Used(bitmap[..]) == UsedNow(old(ptes), old(Used(bitmap[..])), k, r)
      ensures pages == if r.Zeroed? then old(pages)[k := ZeroPage()] else old(pages)
    {
      hide WordsOk, Used, SlotsOk, Sound, Decodes, FlagsOk, InEntry, ZeroPage, Occupied;
      var p := ResolveSwappedPage(k, at.sectors);
      if p.Resolved? {
        TrackPage(k);
        return Done;
      }
      if at.area.None? { return Killed; }
      var ok := DemandPage(k, at.area.value);
      if !ok { return Killed; }
      TrackPage(k);
      return Zeroed;
    }

    /** An access to a page: through a present entry, or else through the fault handler. */
    method Reach(k: Key, at: Setting) returns (r: Outcome)
      requires Valid() && TrackOk() && AreaOk(at)
      modifies `usedSlots, bitmap, `words, `ptes, `mem, `free, `pages, `lost, `trackedCount, tracked
      ensures Valid() && TrackOk() && r == Ends(old(ptes), old(free), k, at)
      ensures Accessed(old(ptes), old(lost), ptes, lost, k, at, r)
      ensures Used(bitmap[..]) == UsedNow(old(ptes), old(Used(bitmap[..])), k, r)
      ensures pages == if r.Zeroed? then old(pages)[k := ZeroPage()] else old(pages)
    {
      hide WordsOk, Used, SlotsOk, Sound, Decodes, FrameOf, FlagsOk, SlotOf, ZeroPage;
      SameKeys(words, ptes, k);
      if k in words { ReadEntry(words, ptes, k); }
      if k in words && words[k] & PRESENT != 0 { return Done; }
      r := HandleFault(k, at);
    }

    /** The processor sets the accessed bit of a page it uses. */
    method Touch(k: Key)
      requires Valid() && k in ptes && ptes[k].Present?
      modifies `words, `ptes
      ensures Valid() && ptes == old(ptes)[k := old(ptes)[k].(accessed := true)]
    {
      hide WordsOk, Used, SlotsOk, Sound, Decodes, Decode, FrameOf, IsEntry, Marked, Cleared;
      SameKeys(words, ptes, k);
      ReadEntry(words, ptes, k);
      DecodeEntry(words, ptes, k);
      MarkedDecodes(words[k]);
      WriteEntry(words, ptes, k, Marked(words[k]), ptes[k].(accessed := true));
      TouchKeeps(ptes, mem, free, disk, lba, pages, k);
      PresentSlots(ptes, Named(), k, ptes[k := ptes[k].(accessed := true)]);
      words := words[k := Marked(words[k])];
      ptes := ptes[k := ptes[k].(accessed := true)];
    }

    /** A store of one byte. */
    method Store(k: Key, off: nat, b: bv8, at: Setting) returns (r: Outcome)
      requires Valid() && TrackOk() && AreaOk(at) && off < PAGE
      modifies `usedSlots, bitmap, `words, `ptes, `mem, `free, `pages, `lost, `trackedCount, tracked
      ensures Valid() && TrackOk() && r == Ends(old(ptes), old(free), k, at)
      ensures Accessed(old(ptes), old(lost), ptes, lost, k, at, r) && (!r.Killed? ==> ptes[k].accessed)
      ensures Used(bitmap[..]) == UsedNow(old(ptes), old(Used(bitmap[..])), k, r)
      ensures !r.Killed? ==> var was := PageAt(old(pages), k, r);
        |was| == PAGE && pages == old(pages)[k := was[off := b]]
      ensures r.Killed? ==> unchanged(`pages)
    {
      hide WordsOk, Used, SlotsOk, Sound, Decodes, Distinct, Occupied, AreaOk, UsedNow;
      r := Reach(k, at);
      if r.Killed? { return; }
      Touch(k);
      SameKeys(words, ptes, k);
      ReadEntry(words, ptes, k);
      var frame := FrameOf(words[k]);
      StoreKeeps(ptes, mem, free, disk, lba, pages, k, off, b);
      mem := mem[frame := mem[frame][off := b]];
      pages := pages[k := pages[k][off := b]];
    }

    /** A load of a page: it gives the last bytes stored, or zeros. */
    method Load(k: Key, at: Setting) returns (r: Outcome, data: Bytes)
      requires Valid() && TrackOk() && AreaOk(at)
      modifies `usedSlots, bitmap, `words, `ptes, `mem, `free, `pages, `lost, `trackedCount, tracked
      ensures Valid() && TrackOk() && r == Ends(old(ptes), old(free), k, at)
      ensures Accessed(old(ptes), old(lost), ptes, lost, k, at, r) && (!r.Killed? ==> ptes[k].accessed)
      ensures Used(bitmap[..]) == UsedNow(old(ptes), old(Used(bitmap[..])), k, r)
      ensures !r.Killed? ==> data == PageAt(old(pages), k, r) && pages == old(pages)[k := data]
      ensures r.Killed? ==> unchanged(`pages)
    {
      hide WordsOk, Used, SlotsOk, Sound, Decodes, Distinct, Occupied, FrameOf, AreaOk;
      data := [];
      r := Reach(k, at);
      if r.Killed? { return; }
      Touch(k);
      SameKeys(words, ptes, k);
      ReadEntry(words, ptes, k);
      PageBytes(ptes, mem, free, disk, lba, pages, k);
      data := mem[FrameOf(words[k])];
    }

    // -------------------------------------------------------------- the clock

    /** Adds a page unless it is there already or the table is full. */
    method TrackPage(k: Key)
      requires TrackOk()
      modifies `trackedCount, tracked
      ensures TrackOk()
      ensures Some(k) in tracked[..] <==> Some(k) in old(tracked[..]) || None in old(tracked[..])
      ensures forall x: Key :: x != k ==> (Some(x) in tracked[..] <==> Some(x) in old(tracked[..]))
    {
      var i := 0;
      while i < MAX_TRACKED_PAGES
        invariant i <= MAX_TRACKED_PAGES && forall j :: 0 <= j < i ==> tracked[j] != Some(k)
      {
        if tracked[i] == Some(k) { return; }
        i := i + 1;
      }
      i := 0;
      while i < MAX_TRACKED_PAGES
        invariant i <= MAX_TRACKED_PAGES && forall j :: 0 <= j < i ==> tracked[j].Some?
      {
        if tracked[i].None? {
          assert tracked[..][i].None?;
          MembersAfter(tracked[..], i, Some(k));
          SetEntry(i, Some(k));
          return;
        }
        i := i + 1;
      }
    }

    method UntrackPage(k: Key)
      requires TrackOk()
      modifies `trackedCount, tracked
      ensures TrackOk() && Some(k) !in tracked[..]
      ensures forall x: Key :: x != k ==> (Some(x) in tracked[..] <==> Some(x) in old(tracked[..]))
    {
      var i := 0;
      while i < MAX_TRACKED_PAGES
        invariant i <= MAX_TRACKED_PAGES && forall j :: 0 <= j < i ==> tracked[j] != Some(k)
      {
        if tracked[i] == Some(k) {
          MembersAfter(tracked[..], i, None);
          SetEntry(i, None);
          return;
        }
        i := i + 1;
      }
    }

    /** Fills an empty entry or empties a full one, and counts it. */
    method SetEntry(i: nat, x: Option<Key>)
      requires TrackOk() && i < MAX_TRACKED_PAGES && tracked[i].Some? == x.None? && (x.Some? ==> x !in tracked[..])
      modifies `trackedCount, tracked
      ensures TrackOk() && tracked[..] == old(tracked[..])[i := x]
    {
      OccupiedAfter(tracked[..], i, x);
      ghost var t := tracked[..];
      trackedCount := if x.Some? then trackedCount + 1 else trackedCount - 1;
      tracked[i] := x;
      assert tracked[..] == t[i := x];
    }

    method CheckAndClearAccessed(k: Key) returns (r: Option<bool>)
      requires Decodes(words, ptes)
      modifies `words, `ptes
      ensures Decodes(words, ptes)
      ensures r.None? <==> k !in old(ptes) || !old(ptes)[k].Present?
      ensures r.Some? ==> (r.value <==> old(ptes)[k].cow || old(ptes)[k].accessed)
      ensures if Candidate(old(ptes), Some(k)) && old(ptes)[k].accessed
              then ptes == old(ptes)[k := old(ptes)[k].(accessed := false)] else unchanged(`words, `ptes)
    {
      hide Decodes, Decode, FrameOf, IsEntry, Cleared, Marked;
      SameKeys(words, ptes, k);
      if k !in words { return None; }
      ReadEntry(words, ptes, k);
      var entry := words[k];
      if entry & PRESENT == 0 { return None; }
      if entry & COW != 0 { return Some(true); }
      var wasAccessed := entry & ACCESSED != 0;
      if wasAccessed {
        DecodeEntry(words, ptes, k);
        ClearedDecodes(entry);
        WriteEntry(words, ptes, k, Cleared(entry), ptes[k].(accessed := false));
        words := words[k := Cleared(entry)];
        ptes := ptes[k := ptes[k].(accessed := false)];
      }
      return Some(wasAccessed);
    }

    /** Finds a victim within two laps exactly when some tracked page is present and not copy-on-write.  It was in use
        at entry only if all such pages were. */
    method FindVictim() returns (victim: Option<nat>)
      requires TrackOk() && Decodes(words, ptes)
      modifies `words, `ptes, `hand, `trackedCount, tracked
      ensures TrackOk() && Decodes(words, ptes) && OnlyCleared(old(ptes), ptes)
      ensures victim.None? <==> forall i :: 0 <= i < MAX_TRACKED_PAGES ==> !Candidate(old(ptes), old(tracked[..])[i])
      ensures victim.Some? ==>
        victim.value < MAX_TRACKED_PAGES && tracked[victim.value] == old(tracked[..])[victim.value]
      ensures victim.Some? ==> Candidate(old(ptes), old(tracked[..])[victim.value])
      ensures victim.Some? && WasUsed(old(ptes), old(tracked[..])[victim.value]) ==>
        forall j :: 0 <= j < MAX_TRACKED_PAGES && Candidate(old(ptes), old(tracked[..])[j]) ==>
          WasUsed(old(ptes), old(tracked[..])[j])
    {
      hide Distinct, Occupied, Distance, Scanned, Decodes;
      ghost var t0, p0, h0 := tracked[..], ptes, hand;
      ScanStart(p0, t0, h0);
      var scanned := 0;
      while scanned < 2 * MAX_TRACKED_PAGES
        invariant Decodes(words, ptes) && scanned <= 2 * MAX_TRACKED_PAGES && TrackOk()
        invariant hand == (h0 + scanned) % MAX_TRACKED_PAGES
        invariant Scanned(p0, t0, ptes, tracked[..], h0, scanned)
      {
        var i := hand % MAX_TRACKED_PAGES;
        DistanceOf(h0, scanned);
        ghost var p, t := ptes, tracked[..];
        hand := (hand + 1) % MAX_TRACKED_PAGES;
        if tracked[i].Some? {
          var k := tracked[i].value;
          var a := CheckAndClearAccessed(k);
          if a == Some(false) {
            ScannedClears(p0, t0, p, t, h0, scanned);
            ScanVictim(p0, t0, p, t, h0, scanned, i);
            return Some(i);
          } else if a.None? {
            ScanDrop(p0, t0, p, t, h0, scanned, i);
            SetEntry(i, None);
          } else if p[k].cow {
            ScanPass(p0, t0, p, t, h0, scanned, i);
          } else {
            ScanClear(p0, t0, p, t, h0, scanned, i);
          }
        } else {
          ScanPass(p0, t0, p, t, h0, scanned, i);
        }
        scanned := scanned + 1;
      }
      ScannedClears(p0, t0, ptes, tracked[..], h0, scanned);
      ScanEnd(p0, t0, ptes, tracked[..], h0);
      return None;
    }

    /** Evicts one page.  A victim is chosen exactly when there are a free slot and a page to evict, and the call
        succeeds exactly when there is a victim and the disk takes it.  What every page reads stays the same, and a
        failing call keeps no slot; a victim that the disk refuses stays resident and is not tracked any more. */
    method EvictPageClock(writes: nat) returns (r: Option<nat>, ghost victim: Option<Key>)
      requires Valid() && TrackOk()
      modifies `usedSlots, bitmap, `disk, `words, `ptes, `free, `hand, `trackedCount, tracked
      ensures Valid() && TrackOk()
      ensures victim.Some? <==> (exists s: nat :: s < MAX_SWAP_SLOTS && s !in old(Used(bitmap[..])))
                                && exists i :: 0 <= i < MAX_TRACKED_PAGES && Candidate(old(ptes), old(tracked[..])[i])
      ensures r.Some? <==> victim.Some? && writes >= 8
      ensures r.None? ==> Used(bitmap[..]) == old(Used(bitmap[..])) && OnlyCleared(old(ptes), ptes) && unchanged(`free)
      ensures victim.Some? ==> Candidate(old(ptes), victim) && victim in old(tracked[..]) && victim !in tracked[..]
      ensures r.Some? ==> victim.value in ptes && OnlyCleared(old(ptes) - {victim.value}, ptes - {victim.value})
                          && ptes[victim.value] == Swapped(r.value, old(ptes)[victim.value].perms)
      ensures victim.Some? && WasUsed(old(ptes), victim) ==>
        forall j :: 0 <= j < MAX_TRACKED_PAGES && Candidate(old(ptes), old(tracked[..])[j]) ==>
          WasUsed(old(ptes), old(tracked[..])[j])
    {
      hide WordsOk, Sound, Used, SlotsOk, Distinct, Occupied, OnlyCleared, Decodes;
      NoneOccupied(tracked[..]);
      victim := None;
      NothingCleared(ptes);
      if trackedCount == 0 { return None, None; }
      ghost var named, p0 := Named(), ptes;
      var slot := AllocSlot();
      if slot.None? { return None, None; }
      assert Named() - {slot.value} == named;
      var at := FindVictim();
      ClearedKeeps(p0, ptes, named, mem, free, disk, lba, pages);
      if at.None? {
        GiveBack(slot.value);
        return None, None;
      }
      victim := tracked[at.value];
      var k := tracked[at.value].value;
      ghost var p := ptes;
      ClearedPresent(p0, p, k);
      MembersAfter(tracked[..], at.value, None);
      SetEntry(at.value, None);
      var ok := SwapPageOut(k, slot.value, writes);
      if !ok {
        GiveBack(slot.value);
        return None, victim;
      }
      ClearedExcept(p0, p, k, slot.value);
      return slot, victim;
    }

    // -------------------------------------------------------------- whole runs

    /** What a program can see: each page's bytes and its write, user and no-execute bits. */
    ghost function Memory(): Plain
      reads this
    {
      Plain(pages, PermBits(words))
    }

    /** A store or a load. */
    method Access(op: Op) returns (r: Outcome, out: Bytes)
      requires Valid() && TrackOk() && Allowed(op) && (op.Store? || op.Load?)
      modifies this, bitmap, tracked
      ensures Valid() && TrackOk() && Memory() == PlainStep(old(Memory()), op, r)
      ensures op.Load? && !r.Killed? ==> out == PageAt(old(pages), op.k, r)
      ensures r == Ends(old(ptes), old(free), op.k, op.at)
      ensures DiskOk(op) ==> lost == old(lost)
      ensures DiskOk(op) && r.Zeroed? ==> op.k !in old(pages)
    {
      hide Sound, SlotsOk, Used, WordsOk, Distinct, Occupied, OnlyCleared, PermsOf, PermBits, Decodes, FlagsOk;
      PermsAgree(words, ptes);
      SamePages(ptes, mem, free, disk, lba, pages);
      out := [];
      if op.Store? { r := Store(op.k, op.off, op.b, op.at); } else { r, out := Load(op.k, op.at); }
      PermsAfterAccess(old(ptes), old(lost), ptes, lost, op.k, op.at, r);
      PermsAgree(words, ptes);
    }

    method Perform(op: Op) returns (r: Outcome, out: Bytes)
      requires Valid() && TrackOk() && Allowed(op)
      modifies this, bitmap, tracked
      ensures Valid() && TrackOk() && Memory() == PlainStep(old(Memory()), op, r)
      ensures op.Load? && !r.Killed? ==> out == PageAt(old(pages), op.k, r)
      ensures op.Store? || op.Load? ==> r == Ends(old(ptes), old(free), op.k, op.at)
      ensures DiskOk(op) ==> lost == old(lost)
      ensures DiskOk(op) && r.Zeroed? && (op.Store? || op.Load?) ==> op.k !in old(pages)
    {
      hide Sound, SlotsOk, Used, WordsOk, Distinct, Occupied, OnlyCleared, PermsOf, PermBits, Decodes, FlagsOk, PageAt;
      r, out := Done, [];
      PermsAgree(words, ptes);
      match op {
        case Out(k, writes) =>
          var slot := PageOut(k, writes);
          PermsAfterTouch(old(ptes), k, ptes);
        case Evict(writes) =>
          var slot, victim := EvictPageClock(writes);
          if slot.Some? { PermsAfterEvict(old(ptes), victim.value, ptes); } else { PermsAfterClear(old(ptes), ptes); }
        case Unmap(k) =>
          Unmap(k);
          UntrackPage(k);
          PermsAfterUnmap(old(ptes), k);
        case _ =>
          r, out := Access(op);
      }
      PermsAgree(words, ptes);
    }

    /** Any run of stores, loads, page-outs, evictions and unmaps, on a disk that may refuse any write or read, is what
        plain memory would do, except that an access may end on a zero page.  On a disk that refuses no read that
        happens to new pages only, and no slot is ever lost. */
    method Execute(ops: seq<Op>) returns (rs: seq<Outcome>, outs: seq<Bytes>)
      requires Valid() && TrackOk() && forall i :: 0 <= i < |ops| ==> Allowed(ops[i])
      modifies this, bitmap, tracked
      ensures Valid() && TrackOk() && |rs| == |outs| == |ops| && Memory() == PlainRun(old(Memory()), ops, rs)
      ensures forall i :: 0 <= i < |ops| ==> Shown(PlainRun(old(Memory()), ops[..i], rs[..i]), ops[i], rs[i], outs[i])
      ensures (forall i :: 0 <= i < |ops| ==> DiskOk(ops[i])) ==> lost == old(lost)
    {
      hide Sound, SlotsOk, Used, WordsOk, Distinct, Occupied, PermBits, PlainStep, PlainRun, Decodes, Allowed, DiskOk,
        Ends;
      rs, outs := [], [];
      RunNothing(Memory(), ops, rs);
      for n := 0 to |ops|
        invariant Valid() && TrackOk() && |rs| == |outs| == n && Memory() == PlainRun(old(Memory()), ops[..n], rs)
        invariant forall i :: 0 <= i < n ==> Shown(PlainRun(old(Memory()), ops[..i], rs[..i]), ops[i], rs[i], outs[i])
        invariant (forall i :: 0 <= i < n ==> DiskOk(ops[i])) ==> lost == old(lost)
      {
        ghost var rs0 := rs;
        var r, out := Perform(ops[n]);
        RunNext(old(Memory()), ops, rs, n, r);
        rs, outs := rs + [r], outs + [out];
        assert forall i :: 0 <= i <= n ==> rs[..i] == rs0[..i];
        assert rs[..n] == rs0;
      }
      assert ops[..|ops|] == ops;
    }
  }

  /** A refused read loses a page: a byte is stored, the page goes out and comes back as zeros, and its slot stays in
      use with no entry to name it. */
  method RefusedReadLosesThePage(s: Swapper, k: Key, b: bv8, flags: bv64) returns (data: Bytes, ghost slot: nat)
    requires s.Valid() && s.TrackOk() && FlagsOk(flags) && k !in s.ptes && s.free != {}
    requires exists i: nat :: i < MAX_SWAP_SLOTS && i !in Used(s.bitmap[..])
    modifies s, s.bitmap, s.tracked
    ensures s.Valid() && data == ZeroPage() && s.pages == old(s.pages)[k := data]
    ensures slot in Used(s.bitmap[..]) && slot !in old(Used(s.bitmap[..])) && slot !in s.Named()
  {
    hide Sound, SlotsOk, Used, WordsOk, Distinct, Occupied, Decodes, FlagsOk;
    var r := s.Store(k, 0, b, Setting(8, Some(flags)));
    var out := s.PageOut(k, 8);
    slot := out.value;
    NamedSlot(s.ptes, s.Named(), k);
    r, data := s.Load(k, Setting(0, Some(flags)));
  }

  datatype Plain = Plain(bytes: Pages, perms: map<Key, bv64>)

  datatype Op =
    | Store(k: Key, off: nat, b: bv8, at: Setting) | Load(k: Key, at: Setting)
    | Out(k: Key, writes: nat) | Evict(writes: nat) | Unmap(k: Key)

  /** Flags touch no address bit, and a page of one owner starts without the copy-on-write mark. */
  predicate FlagsOk(flags: bv64) { flags & ADDRESS_MASK == 0 && flags & COW == 0 }

  predicate AreaOk(at: Setting) { at.area.Some? ==> FlagsOk(at.area.value) }

  /** A store is inside its page. */
  predicate Allowed(op: Op) { (op.Store? ==> op.off < PAGE) && (op.Store? || op.Load? ==> AreaOk(op.at)) }

  /** The disk refuses no read that the operation may need. */
  predicate DiskOk(op: Op) { op.Store? || op.Load? ==> op.at.sectors >= 8 }

  /** How an access ends, by the state before it. */
  function Ends(ptes: Ptes, free: set<nat>, k: Key, at: Setting): Outcome {
    if k in ptes && (ptes[k].Present? || (free != {} && at.sectors >= 8)) then Done
    else if at.area.Some? && free != {} then Zeroed
    else Killed
  }

  /** What an access does to the entry of its page and to the lost slots: writing a zero page over an entry that is out
      loses its slot. */
  ghost predicate Accessed(p0: Ptes, l0: set<nat>, p: Ptes, l: set<nat>, k: Key, at: Setting, r: Outcome) {
    if r.Killed? then p == p0 && l == l0 else
      && k in p && p[k].Present? && p == p0[k := p[k]]
      && (if r.Done? then k in p0 && p[k].perms == p0[k].perms && l == l0 else
            && at.area.Some? && p[k].perms == at.area.value & PERMISSIONS
            && l == if k in p0 && p0[k].Swapped? then l0 + {p0[k].slot} else l0)
  }

  /** An access gives a slot back exactly when the page comes in from it. */
  function UsedNow(ptes: Ptes, used: set<nat>, k: Key, r: Outcome): set<nat> {
    if r.Done? && k in ptes && ptes[k].Swapped? then used - {ptes[k].slot} else used
  }

  /** The page an access finds. */
  function PageAt(pages: Pages, k: Key, r: Outcome): Bytes {
    if r.Done? && k in pages then pages[k] else ZeroPage()
  }

  /** What a load shows, and that a zero page over a page in use means a refused read. */
  ghost predicate Shown(m: Plain, op: Op, r: Outcome, out: Bytes) {
    && (op.Load? && !r.Killed? ==> out == PageAt(m.bytes, op.k, r))
    && (DiskOk(op) && r.Zeroed? && (op.Load? || op.Store?) ==> op.k !in m.bytes)
  }

  /** The operation on memory that is never paged: only accesses that end on a zero page, stores and unmaps do
      anything. */
  function PlainStep(m: Plain, op: Op, r: Outcome): Plain {
    match op
    case Store(k, off, b, at) =>
      var page := PageAt(m.bytes, k, r);
      if r.Killed? || off >= |page| then m else Plain(m.bytes[k := page[off := b]], Perms(m, k, at, r))
    case Load(k, at) => if r.Killed? then m else Plain(m.bytes[k := PageAt(m.bytes, k, r)], Perms(m, k, at, r))
    case Unmap(k) => Plain(m.bytes - {k}, m.perms - {k})
    case _ => m
  }

  function Perms(m: Plain, k: Key, at: Setting, r: Outcome): map<Key, bv64> {
    if r.Zeroed? && at.area.Some? then m.perms[k := at.area.value & PERMISSIONS] else m.perms
  }

  function PlainRun(m: Plain, ops: seq<Op>, rs: seq<Outcome>): Plain
    requires |ops| == |rs|
  {
    if ops == [] then m else
      var n := |ops| - 1;
      PlainStep(PlainRun(m, ops[..n], rs[..n]), ops[n], rs[n])
  }

  lemma RunNothing(m: Plain, ops: seq<Op>, rs: seq<Outcome>)
    requires rs == []
    ensures PlainRun(m, ops[..0], rs) == m
  {
  }

  lemma RunNext(m: Plain, ops: seq<Op>, rs: seq<Outcome>, n: nat, r: Outcome)
    requires n < |ops| && |rs| == n
    ensures PlainRun(m, ops[..n + 1], rs + [r]) == PlainStep(PlainRun(m, ops[..n], rs), ops[n], r)
  {
    assert ops[..n + 1][..n] == ops[..n] && (rs + [r])[..n] == rs;
  }

  /** The write, user and no-execute bits of every entry. */
  ghost function PermBits(words: Words): map<Key, bv64> { map k | k in words :: words[k] & PERMISSIONS }

  lemma PermsAgree(words: Words, ptes: Ptes)
    requires Decodes(words, ptes)
    ensures PermBits(words) == PermsOf(ptes)
  {
    hide FrameOf, SlotOf;
    assert forall k :: k in words ==> ptes[k].perms == words[k] & PERMISSIONS;
  }

  ghost function PermsOf(ptes: Ptes): map<Key, bv64> { map k | k in ptes :: ptes[k].perms }

  lemma PermsAfterTouch(p: Ptes, k: Key, p': Ptes)
    requires p' == p || (k in p && k in p' && p' == p[k := p'[k]] && p'[k].perms == p[k].perms)
    ensures PermsOf(p') == PermsOf(p)
  {
  }

  lemma PermsAfterAccess(p: Ptes, l: set<nat>, p': Ptes, l': set<nat>, k: Key, at: Setting, r: Outcome)
    requires Accessed(p, l, p', l', k, at, r)
    ensures PermsOf(p') == if r.Zeroed? then PermsOf(p)[k := at.area.value & PERMISSIONS] else PermsOf(p)
  {
  }

  lemma PermsAfterUnmap(p: Ptes, k: Key)
    ensures PermsOf(p - {k}) == PermsOf(p) - {k}
  {
  }

  lemma PermsAfterClear(p: Ptes, p': Ptes)
    requires OnlyCleared(p, p')
    ensures PermsOf(p') == PermsOf(p)
  {
  }

  lemma PermsAfterEvict(p: Ptes, k: Key, p': Ptes)
    requires k in p && k in p' && OnlyCleared(p - {k}, p' - {k}) && p'[k].perms == p[k].perms
    ensures PermsOf(p') == PermsOf(p)
  {
    assert p'.Keys == (p' - {k}).Keys + {k} && p.Keys == (p - {k}).Keys + {k};
  }

  lemma SameKeys(words: Words, ptes: Ptes, k: Key)
    requires Decodes(words, ptes)
    ensures k in words <==> k in ptes
  {
  }

  lemma DecodeEntry(words: Words, ptes: Ptes, k: Key)
    requires Decodes(words, ptes) && k in words
    ensures k in ptes && ptes[k] == Decode(words[k])
  {
  }

  lemma NotMapped(words: Words, ptes: Ptes, mem: Frames, free: set<nat>, disk: Disk, lba: nat, pages: Pages, k: Key)
    requires Decodes(words, ptes) && Sound(ptes, mem, free, disk, lba, pages) && k !in words
    ensures ptes - {k} == ptes && pages - {k} == pages
  {
  }

  lemma PageBytes(ptes: Ptes, mem: Frames, free: set<nat>, disk: Disk, lba: nat, pages: Pages, k: Key)
    requires Sound(ptes, mem, free, disk, lba, pages) && k in ptes && ptes[k].Present?
    ensures k in pages && ptes[k].frame in mem && mem[ptes[k].frame] == pages[k]
  {
    hide OnDisk;
  }

  lemma SlotBytes(ptes: Ptes, mem: Frames, free: set<nat>, disk: Disk, lba: nat, pages: Pages, k: Key)
    requires Sound(ptes, mem, free, disk, lba, pages) && k in ptes && ptes[k].Swapped?
    ensures k in pages && OnDisk(disk, lba, ptes[k].slot, pages[k])
  {
    hide OnDisk;
  }

  lemma SamePages(ptes: Ptes, mem: Frames, free: set<nat>, disk: Disk, lba: nat, pages: Pages)
    requires Sound(ptes, mem, free, disk, lba, pages)
    ensures pages.Keys == ptes.Keys && forall k :: k in pages ==> |pages[k]| == PAGE
  {
    assert forall k :: k in ptes && ptes[k].Swapped? ==> OnDisk(disk, lba, ptes[k].slot, pages[k]);
  }

  lemma NamedSlot(ptes: Ptes, named: set<nat>, k: Key)
    requires SlotsOk(ptes, named) && k in ptes && ptes[k].Swapped?
    ensures ptes[k].slot in named
  {
  }

  lemma SectorRead(page: Bytes, into: Bytes, i: nat)
    requires |page| == |into| == PAGE && i < 8
    ensures var data := page[..i * SECTOR] + into[i * SECTOR..];
      |data| == PAGE && data[..i * SECTOR] + page[i * SECTOR..i * SECTOR + SECTOR] + data[i * SECTOR + SECTOR..] ==
      page[..(i + 1) * SECTOR] + into[(i + 1) * SECTOR..]
  {
  }

  lemma FreeIsFrame(ptes: Ptes, mem: Frames, free: set<nat>, disk: Disk, lba: nat, pages: Pages, f: nat)
    requires Sound(ptes, mem, free, disk, lba, pages) && f in free
    ensures IsFrame(f) && f in mem && |mem[f]| == PAGE
  {
  }

  /** There are fewer slots than the slot bits of an entry can number. */
  lemma SlotIsWord(slot: nat)
    requires slot < MAX_SWAP_SLOTS
    ensures slot < Power2(SLOT_BITS)
  {
    assert Power2(5) == 32 && Power2(10) == 1024 && Power2(15) == 32768;
    PowerGrows(15, SLOT_BITS);
  }

  lemma {:induction false} PowerGrows(j: nat, k: nat)
    requires j <= k
    ensures Power2(j) <= Power2(k)
    decreases k - j
  {
    if j < k { PowerGrows(j + 1, k); }
  }

  lemma ClearedExcept(p0: Ptes, p: Ptes, k: Key, slot: nat)
    requires OnlyCleared(p0, p) && k in p0 && k in p
    ensures p[k].perms == p0[k].perms && OnlyCleared(p0 - {k}, p[k := Swapped(slot, p[k].perms)] - {k})
  {
  }

  lemma ClearedPresent(p0: Ptes, p: Ptes, k: Key)
    requires OnlyCleared(p0, p) && k in p0 && p0[k].Present?
    ensures k in p && p[k].Present?
  {
  }

  method LowestClear(word: Word) returns (b: nat)
    requires word <= FULL && word != FULL
    ensures b < 64 && b !in word && forall c: nat :: c < b ==> c in word
  {
    b := 0;
    ghost var clear :| clear in FULL && clear !in word;
    while b in word
      invariant b <= clear && forall c: nat :: c < b ==> c in word
      decreases clear - b
    {
      b := b + 1;
    }
  }

  lemma LowestSlot(bm: seq<Word>, w: nat, b: nat)
    requires |bm| == BITMAP_WORDS && w < BITMAP_WORDS && b < 64
    requires (forall i :: 0 <= i < w ==> bm[i] == FULL) && forall c: nat :: c < b ==> c in bm[w]
    ensures forall s: nat :: s < w * 64 + b ==> s in Used(bm)
  {
  }

  lemma AllFull(bm: seq<Word>)
    requires |bm| == BITMAP_WORDS && forall i :: 0 <= i < |bm| ==> bm[i] == FULL
    ensures forall s: nat :: s < MAX_SWAP_SLOTS ==> s in Used(bm)
  {
  }
}
