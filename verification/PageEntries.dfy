/** The page cache's tables as values: what must hold between cached pages, the disk and the visible files. */
module PageEntries {
  import opened PageFile

  datatype FileId = FileId(mount: nat, ino: nat)

  datatype PageKey = PageKey(file: FileId, page: nat)

  datatype PageEntry = PageEntry(frame: nat, dirty: bool, valid: nat, lru: nat)

  type Entries = map<PageKey, PageEntry>
  type Frames = map<nat, Bytes>
  type Files = map<FileId, Bytes>

  /** Every entry has a frame of its own, none of them free. */
  ghost predicate FramesOk(entries: Entries, mem: Frames, free: set<nat>) {
    && (forall k :: k in entries ==> entries[k].frame in mem && entries[k].frame !in free)
    && (forall k, k' :: k in entries && k' in entries && entries[k].frame == entries[k'].frame ==> k == k')
    && (forall f :: f in free ==> f in mem)
    && (forall f :: f in mem ==> |mem[f]| == PAGE)
  }

  /** A cached page holds the visible file's page, zero past its end. */
  ghost predicate Cached(entries: Entries, mem: Frames, files: Files) {
    forall k :: k in entries ==>
      k.file in files && entries[k].frame in mem && mem[entries[k].frame] == PageOf(files[k.file], k.page)
  }

  predicate IsDirty(entries: Entries, k: PageKey) {
    k in entries && entries[k].dirty
  }

  /** Where no dirty page stands in front of it, the disk shows the visible file. */
  ghost predicate Backed(entries: Entries, files: Files, disk: Files) {
    && files.Keys == disk.Keys
    && forall f, p: nat :: f in files && !IsDirty(entries, PageKey(f, p)) ==> PageOf(disk[f], p) == PageOf(files[f], p)
  }

  /** The disk holds nothing past the end of the visible file. */
  ghost predicate Tails(files: Files, disk: Files) {
    forall f, i: nat :: f in files && f in disk && |files[f]| <= i ==> ByteAt(disk[f], i) == 0
  }

  ghost predicate Consistent(entries: Entries, mem: Frames, free: set<nat>, files: Files, disk: Files) {
    FramesOk(entries, mem, free) && Cached(entries, mem, files) && Backed(entries, files, disk) && Tails(files, disk)
  }

  /** The length in force: the cached one if there is one, else the disk's. */
  ghost predicate SizesOk(entries: Entries, sizes: map<FileId, nat>, files: Files, disk: Files) {
    && (forall f :: f in files && f in disk ==> |files[f]| == if f in sizes then sizes[f] else |disk[f]|)
    && (forall k :: IsDirty(entries, k) ==> k.file in sizes)
  }

  // ---------------------------------------------------------------- changes to one entry

  /** Bookkeeping on an entry (its age, how much of it is valid) shows nowhere. */
  lemma TouchKeeps(entries: Entries, mem: Frames, free: set<nat>, files: Files, disk: Files, k: PageKey, e: PageEntry)
    requires Consistent(entries, mem, free, files, disk) && k in entries
    requires e.frame == entries[k].frame && e.dirty == entries[k].dirty
    ensures Consistent(entries[k := e], mem, free, files, disk)
  {
    hide PageOf, ByteAt;
    forall f, p: nat | f in files && !IsDirty(entries[k := e], PageKey(f, p))
      ensures PageOf(disk[f], p) == PageOf(files[f], p)
    {
      assert !IsDirty(entries, PageKey(f, p));
    }
  }

  /** A page that was not cached is brought in. */
  lemma InsertKeeps(entries: Entries, mem: Frames, free: set<nat>, files: Files, disk: Files, k: PageKey, e: PageEntry,
                    page: Bytes)
    requires Consistent(entries, mem, free, files, disk) && k !in entries && e.frame in free && k.file in files
    requires |page| == PAGE && page == PageOf(files[k.file], k.page)
    ensures Consistent(entries[k := e], mem[e.frame := page], free - {e.frame}, files, disk)
  {
    hide PageOf, ByteAt;
    forall f, p: nat | f in files && !IsDirty(entries[k := e], PageKey(f, p))
      ensures PageOf(disk[f], p) == PageOf(files[f], p)
    {
      assert !IsDirty(entries, PageKey(f, p));
    }
  }

  /** A chunk is written into a cached page, which becomes dirty. */
  lemma WriteKeeps(entries: Entries, mem: Frames, free: set<nat>, files: Files, disk: Files, k: PageKey, e: PageEntry,
                   at: nat, b: Bytes)
    requires FramesOk(entries, mem, free) && k in entries && k.file in files && e.frame == entries[k].frame && e.dirty
    requires Cached(entries - {k}, mem, files) && Backed(entries[k := e], files, disk) && Tails(files, disk)
    requires at + |b| <= PAGE && Splice(mem[e.frame], at, b) == Splice(PageOf(files[k.file], k.page), at, b)
    ensures var files' := files[k.file := Overlay(files[k.file], k.page * PAGE + at, b)];
      Consistent(entries[k := e], mem[e.frame := Splice(mem[e.frame], at, b)], free, files', disk)
  {
    var v := files[k.file];
    var v' := Overlay(v, k.page * PAGE + at, b);
    var files' := files[k.file := v'];
    forall q: nat ensures PageOf(v', q) == if q == k.page then Splice(PageOf(v, k.page), at, b) else PageOf(v, q) {
      OverlayPage(v, k.page, at, b, q);
    }
    OverlayByte(v, k.page * PAGE + at, b, 0);
    hide PageOf, ByteAt, Overlay, Splice;
    assert Cached(entries[k := e], mem[e.frame := Splice(mem[e.frame], at, b)], files') by {
      forall k' | k' in entries && k' != k ensures mem[entries[k'].frame] == PageOf(files'[k'.file], k'.page) {
        assert k' in entries - {k};
      }
    }
    forall f, p: nat | f in files && !IsDirty(entries[k := e], PageKey(f, p))
      ensures PageOf(disk[f], p) == PageOf(files'[f], p)
    {
      assert PageKey(f, p) != k;
    }
  }

  /** Clean pages may go. */
  lemma EvictKeeps(entries: Entries, mem: Frames, free: set<nat>, files: Files, disk: Files, k: PageKey)
    requires Consistent(entries, mem, free, files, disk) && k in entries && !entries[k].dirty
    ensures Consistent(entries - {k}, mem, free + {entries[k].frame}, files, disk)
  {
    hide PageOf, ByteAt;
    forall f, p: nat | f in files && !IsDirty(entries - {k}, PageKey(f, p))
      ensures PageOf(disk[f], p) == PageOf(files[f], p)
    {
      assert !IsDirty(entries, PageKey(f, p));
    }
  }

  /** A frame is put in place for a page about to be written; what it holds does not count yet. */
  lemma MissKeeps(entries: Entries, mem: Frames, free: set<nat>, files: Files, disk: Files, k: PageKey, e: PageEntry,
                  page: Bytes)
    requires Consistent(entries, mem, free, files, disk) && k !in entries && e.frame in free && e.dirty
      && |page| == PAGE
    ensures FramesOk(entries[k := e], mem[e.frame := page], free - {e.frame})
    ensures Cached(entries[k := e] - {k}, mem[e.frame := page], files) && Backed(entries[k := e], files, disk)
  {
    hide PageOf, ByteAt;
    forall f, p: nat | f in files && !IsDirty(entries[k := e], PageKey(f, p))
      ensures PageOf(disk[f], p) == PageOf(files[f], p)
    {
      assert !IsDirty(entries, PageKey(f, p));
    }
  }

  // ---------------------------------------------------------------- changes to the disk

  /** Cutting or padding the disk file to the visible length shows nowhere. */
  lemma ResizeKeeps(entries: Entries, mem: Frames, free: set<nat>, files: Files, disk: Files, f: FileId)
    requires Consistent(entries, mem, free, files, disk) && f in files
    ensures Consistent(entries, mem, free, files, disk[f := Resize(disk[f], |files[f]|)])
  {
    var n := |files[f]|;
    var d := Resize(disk[f], n);
    forall p: nat ensures PageOf(d, p) == PageOf(disk[f], p) {
      ResizeSamePages(disk[f], n, p);
    }
    forall i: nat | n <= i ensures ByteAt(d, i) == 0 {
      ResizeByte(disk[f], n, i);
    }
    hide PageOf, ByteAt, Resize;
  }

  lemma PageTail(v: Bytes, d: Bytes, p: nat, i: nat)
    requires |v| <= i && (forall j: nat :: |v| <= j ==> ByteAt(d, j) == 0)
    ensures ByteAt(Overlay(d, p * PAGE, PageOf(v, p)), i) == 0
  {
    var s := p * PAGE;
    OverlayByte(d, s, PageOf(v, p), i);
    if s <= i < s + PAGE { assert PageOf(v, p)[i - s] == ByteAt(v, s + (i - s)); }
  }

  /** A cached page is written through. */
  lemma WriteBackKeeps(entries: Entries, mem: Frames, free: set<nat>, files: Files, disk: Files, k: PageKey)
    requires Consistent(entries, mem, free, files, disk) && k in entries
    ensures var d := Overlay(disk[k.file], k.page * PAGE, mem[entries[k].frame]);
      && Consistent(entries, mem, free, files, disk[k.file := d]) && PageOf(d, k.page) == PageOf(files[k.file], k.page)
      && forall q: nat :: PageOf(disk[k.file], q) == PageOf(files[k.file], q) ==>
        PageOf(d, q) == PageOf(files[k.file], q)
  {
    var f, page := k.file, mem[entries[k].frame];
    var d := Overlay(disk[f], k.page * PAGE, page);
    forall q: nat ensures PageOf(d, q) == if q == k.page then page else PageOf(disk[f], q) {
      OverlayPage(disk[f], k.page, 0, page, q);
      assert Splice(PageOf(disk[f], k.page), 0, page) == page;
    }
    forall i: nat | |files[f]| <= i ensures ByteAt(d, i) == 0 {
      PageTail(files[f], disk[f], k.page, i);
    }
    hide PageOf, ByteAt, Overlay;
  }

  /** Dirty pages written one at a time. */
  function WriteEach(d: Bytes, pages: seq<nat>, data: seq<Bytes>): Bytes
    requires |pages| == |data|
  {
    if pages == [] then d else
      var n := |pages| - 1;
      Overlay(WriteEach(d, pages[..n], data[..n]), pages[n] * PAGE, data[n])
  }

  lemma {:induction false} WriteEachGrows(d: Bytes, pages: seq<nat>, data: seq<Bytes>)
    requires |pages| == |data|
    ensures |d| <= |WriteEach(d, pages, data)|
  {
    if pages != [] {
      var n := |pages| - 1;
      WriteEachGrows(d, pages[..n], data[..n]);
      OverlayByte(WriteEach(d, pages[..n], data[..n]), pages[n] * PAGE, data[n], 0);
    }
  }

  lemma WriteEachNext(d: Bytes, pages: seq<nat>, data: seq<Bytes>, p: nat, page: Bytes)
    requires |pages| == |data|
    ensures WriteEach(d, pages + [p], data + [page]) == Overlay(WriteEach(d, pages, data), p * PAGE, page)
  {
    assert (pages + [p])[..|pages|] == pages && (data + [page])[..|data|] == data;
  }

  /** Consecutive pages gathered in one buffer and written at once are the same as page by page. */
  lemma BatchNext(d: Bytes, start: nat, batch: Bytes, count: nat, page: Bytes)
    requires |batch| == count * PAGE && |page| == PAGE
    ensures Overlay(Overlay(d, start * PAGE, batch), (start + count) * PAGE, page) ==
      Overlay(d, start * PAGE, batch + page)
  {
    OverlayTwice(d, start * PAGE, batch, page);
    assert (start + count) * PAGE == start * PAGE + count * PAGE;
  }

  ghost function PagesOf(v: Bytes, pages: seq<nat>): (data: seq<Bytes>)
    ensures |data| == |pages| && forall i :: 0 <= i < |pages| ==> data[i] == PageOf(v, pages[i])
  {
    seq(|pages|, i requires 0 <= i < |pages| => PageOf(v, pages[i]))
  }

  ghost predicate AllCached(entries: Entries, f: FileId, pages: seq<nat>) {
    forall i :: 0 <= i < |pages| ==> PageKey(f, pages[i]) in entries
  }

  ghost predicate OnDisk(d: Bytes, v: Bytes, pages: seq<nat>) {
    forall i :: 0 <= i < |pages| ==> PageOf(d, pages[i]) == PageOf(v, pages[i])
  }

  /** Writing cached pages through, however many, shows nowhere, and leaves them on the disk. */
  lemma {:induction false} WriteEachKeeps(entries: Entries, mem: Frames, free: set<nat>, files: Files, disk: Files,
                                          f: FileId, pages: seq<nat>)
    requires Consistent(entries, mem, free, files, disk) && f in files && AllCached(entries, f, pages)
    ensures var d := WriteEach(disk[f], pages, PagesOf(files[f], pages));
      Consistent(entries, mem, free, files, disk[f := d]) && OnDisk(d, files[f], pages)
    decreases |pages|
  {
    hide PageOf, Overlay;
    if pages == [] {
      assert disk[f := disk[f]] == disk;
    } else {
      var n := |pages| - 1;
      var data := PagesOf(files[f], pages);
      assert data[..n] == PagesOf(files[f], pages[..n]);
      WriteEachKeeps(entries, mem, free, files, disk, f, pages[..n]);
      var d := WriteEach(disk[f], pages[..n], data[..n]);
      var disk' := disk[f := d];
      var k := PageKey(f, pages[n]);
      WriteBackKeeps(entries, mem, free, files, disk', k);
      assert disk'[f := Overlay(d, pages[n] * PAGE, data[n])] == disk[f := Overlay(d, pages[n] * PAGE, data[n])];
      assert forall i :: 0 <= i < n ==> pages[..n][i] == pages[i];
    }
  }

  /** The same entries, with the dirty flags of some pages of `f` cleared. */
  ghost predicate Cleaned(entries: Entries, entries': Entries, f: FileId, pages: seq<nat>) {
    && entries'.Keys == entries.Keys
    && forall k :: k in entries ==>
      entries'[k] == if k.file == f && k.page in pages then entries[k].(dirty := false) else entries[k]
  }

  lemma CleanedKeeps(entries: Entries, entries': Entries, mem: Frames, free: set<nat>, files: Files, disk: Files,
                     f: FileId, pages: seq<nat>)
    requires Consistent(entries, mem, free, files, disk) && f in files && f in disk
    requires Cleaned(entries, entries', f, pages) && OnDisk(disk[f], files[f], pages)
    ensures Consistent(entries', mem, free, files, disk)
  {
    hide PageOf, ByteAt;
    forall g, p: nat | g in files && !IsDirty(entries', PageKey(g, p))
      ensures PageOf(disk[g], p) == PageOf(files[g], p)
    {
      if g == f && p in pages {
        var i :| 0 <= i < |pages| && pages[i] == p;
      } else {
        assert !IsDirty(entries, PageKey(g, p));
      }
    }
  }

  /** With no dirty page in front, the disk file begins with the visible file. */
  lemma CleanMeansDurable(entries: Entries, mem: Frames, free: set<nat>, files: Files, disk: Files, f: FileId)
    requires Consistent(entries, mem, free, files, disk) && f in files && |files[f]| <= |disk[f]|
    requires forall p: nat :: !IsDirty(entries, PageKey(f, p))
    ensures disk[f][..|files[f]|] == files[f]
  {
    forall i | 0 <= i < |files[f]| ensures disk[f][i] == files[f][i] {
      var p := i / PAGE;
      assert !IsDirty(entries, PageKey(f, p));
      assert PageOf(disk[f], p)[i % PAGE] == PageOf(files[f], p)[i % PAGE];
      assert p * PAGE + i % PAGE == i;
      assert PageOf(disk[f], p)[i % PAGE] == ByteAt(disk[f], i) && PageOf(files[f], p)[i % PAGE] == ByteAt(files[f], i);
    }
  }

  // ---------------------------------------------------------------- truncation

  /** Page `p` of a file cut to `n` bytes. */
  function CutPage(page: Bytes, p: nat, n: nat): Bytes
    requires p * PAGE < n && |page| == PAGE
  {
    if (p + 1) * PAGE <= n then page else page[..n - p * PAGE] + Zeros(PAGE - (n - p * PAGE))
  }

  /** The file and its disk copy are cut to `n` together. */
  lemma TruncateKeeps(entries: Entries, mem: Frames, free: set<nat>, files: Files, disk: Files, f: FileId, n: nat,
                      entries': Entries, mem': Frames, free': set<nat>)
    requires Consistent(entries, mem, free, files, disk) && f in files
    requires FramesOk(entries', mem', free')
    requires forall k :: k in entries' ==>
      k in entries && entries'[k].frame == entries[k].frame && (entries[k].dirty ==> entries'[k].dirty)
    requires forall k :: k in entries && k.file != f ==>
      k in entries' && entries'[k] == entries[k] && mem'[entries[k].frame] == mem[entries[k].frame]
    requires forall k :: k in entries' && k.file == f ==>
      k.page * PAGE < n && mem'[entries[k].frame] == CutPage(mem[entries[k].frame], k.page, n)
    requires forall k :: k in entries && k.file == f && k !in entries' ==> n <= k.page * PAGE
    requires forall k :: k in entries' && k.file == f && n < (k.page + 1) * PAGE ==> entries'[k].dirty
    ensures Consistent(entries', mem', free', files[f := Resize(files[f], n)], disk[f := Resize(disk[f], n)])
  {
    var v', d' := Resize(files[f], n), Resize(disk[f], n);
    forall p: nat ensures TruncatedPage(files[f], n, p) && TruncatedPage(disk[f], n, p) {
      ResizePages(files[f], n, p);
      ResizePages(disk[f], n, p);
    }
    forall i: nat | n <= i ensures ByteAt(d', i) == 0 {
      ResizeByte(disk[f], n, i);
    }
    ResizeByte(files[f], n, 0);
    hide PageOf, ByteAt, Resize;
    var files', disk' := files[f := v'], disk[f := d'];
    forall g, p: nat | g in files' && !IsDirty(entries', PageKey(g, p))
      ensures PageOf(disk'[g], p) == PageOf(files'[g], p)
    {
      assert TruncatedPage(files[f], n, p) && TruncatedPage(disk[f], n, p);
      if g == f && p * PAGE < n {
        assert !IsDirty(entries, PageKey(f, p));
      } else if g != f {
        assert !IsDirty(entries, PageKey(g, p));
      }
    }
    forall k | k in entries' ensures mem'[entries'[k].frame] == PageOf(files'[k.file], k.page) {
      assert TruncatedPage(files[f], n, k.page);
    }
  }

  ghost predicate TruncatedPage(d: Bytes, n: nat, p: nat) {
    && ((p + 1) * PAGE <= n ==> PageOf(Resize(d, n), p) == PageOf(d, p))
    && (n <= p * PAGE ==> PageOf(Resize(d, n), p) == Zeros(PAGE))
    && (p * PAGE < n < (p + 1) * PAGE ==>
      PageOf(Resize(d, n), p) == PageOf(d, p)[..n - p * PAGE] + Zeros(PAGE - (n - p * PAGE)))
  }

  /** Pages that go, with their frames. */
  ghost predicate Removed(entries: Entries, free: set<nat>, gone: set<PageKey>, entries': Entries, free': set<nat>) {
    && gone <= entries.Keys && entries' == entries - gone
    && free' == free + set k | k in gone :: entries[k].frame
  }

  lemma RemoveNext(entries: Entries, free: set<nat>, gone: set<PageKey>, entries': Entries, free': set<nat>, k: PageKey)
    requires Removed(entries, free, gone, entries', free') && k in entries'
    ensures entries'[k] == entries[k]
    ensures Removed(entries, free, gone + {k}, entries' - {k}, free' + {entries'[k].frame})
  {
    assert entries - gone - {k} == entries - (gone + {k});
  }

  lemma RemovedFrames(entries: Entries, mem: Frames, free: set<nat>, gone: set<PageKey>, entries': Entries,
                      free': set<nat>)
    requires FramesOk(entries, mem, free) && Removed(entries, free, gone, entries', free')
    ensures FramesOk(entries', mem, free')
  {
  }

  /** The entry and the frame of the page in which the cut falls, if it is cached. */
  function CutEntries(entries: Entries, f: FileId, n: nat): Entries {
    var k := PageKey(f, n / PAGE);
    if n % PAGE > 0 && k in entries then entries[k := entries[k].(valid := n % PAGE, dirty := true)] else entries
  }

  function CutFrames(entries: Entries, mem: Frames, f: FileId, n: nat): Frames
    requires forall k :: k in entries ==> entries[k].frame in mem && |mem[entries[k].frame]| == PAGE
  {
    var k := PageKey(f, n / PAGE);
    if n % PAGE > 0 && k in entries then
      var g := entries[k].frame;
      mem[g := mem[g][..n % PAGE] + Zeros(PAGE - n % PAGE)]
    else mem
  }

  lemma BoundaryPage(p: nat, n: nat)
    ensures BoundaryFacts(p, n)
  {
  }

  /** Dropping the pages past the cut and clearing the rest of the boundary page truncates the cached file. */
  lemma TruncatedTables(entries: Entries, mem: Frames, free: set<nat>, files: Files, disk: Files, f: FileId, n: nat,
                        gone: set<PageKey>, entries1: Entries, free1: set<nat>)
    requires Consistent(entries, mem, free, files, disk) && f in files
    requires Removed(entries, free, gone, entries1, free1) && FramesOk(entries1, mem, free1)
    requires gone == set k | k in entries && k.file == f && (n + PAGE - 1) / PAGE <= k.page
    ensures Consistent(CutEntries(entries1, f, n), CutFrames(entries1, mem, f, n), free1,
                       files[f := Resize(files[f], n)], disk[f := Resize(disk[f], n)])
  {
    hide PageOf, ByteAt, Resize, Backed, Tails, Cached, Consistent;
    forall p: nat ensures BoundaryFacts(p, n) {
      BoundaryPage(p, n);
    }
    var entries2, mem2 := CutEntries(entries1, f, n), CutFrames(entries1, mem, f, n);
    forall k | k in entries2 && k.file == f
      ensures k.page * PAGE < n && mem2[entries[k].frame] == CutPage(mem[entries[k].frame], k.page, n)
    {
      assert BoundaryFacts(k.page, n) && k !in gone;
    }
    forall k | k in entries && k.file == f && k !in entries2 ensures n <= k.page * PAGE {
      assert BoundaryFacts(k.page, n) && k in gone;
    }
    forall k | k in entries2 && k.file == f && n < (k.page + 1) * PAGE ensures entries2[k].dirty {
      assert BoundaryFacts(k.page, n) && k !in gone;
    }
    TruncateKeeps(entries, mem, free, files, disk, f, n, entries2, mem2, free1);
  }

  ghost predicate BoundaryFacts(p: nat, n: nat) {
    && (p * PAGE < n && n < (p + 1) * PAGE <==> p == n / PAGE && n % PAGE > 0)
    && (p * PAGE < n <==> p < (n + PAGE - 1) / PAGE)
    && (p == n / PAGE ==> n - p * PAGE == n % PAGE)
  }

  lemma TruncatedSizes(entries: Entries, sizes: map<FileId, nat>, files: Files, disk: Files, f: FileId, n: nat,
                       gone: set<PageKey>, free: set<nat>, entries1: Entries, free1: set<nat>)
    requires SizesOk(entries, sizes, files, disk) && f in files && f in disk
      && Removed(entries, free, gone, entries1, free1)
    ensures SizesOk(CutEntries(entries1, f, n), sizes[f := n], files[f := Resize(files[f], n)],
      disk[f := Resize(disk[f], n)])
  {
    var entries2 := CutEntries(entries1, f, n);
    forall k | IsDirty(entries2, k) ensures k.file in sizes[f := n] {
      if k.file != f { assert IsDirty(entries, k); }
    }
  }

  /** Once nothing of a file is cached, what shows is its disk copy. */
  lemma ForgetKeeps(entries: Entries, mem: Frames, free: set<nat>, files: Files, disk: Files, f: FileId,
                    gone: set<PageKey>, entries1: Entries, free1: set<nat>)
    requires Consistent(entries, mem, free, files, disk) && f in files
    requires Removed(entries, free, gone, entries1, free1) && gone == set k | k in entries && k.file == f
    ensures Consistent(entries1, mem, free1, files[f := disk[f]], disk)
  {
    RemovedFrames(entries, mem, free, gone, entries1, free1);
    forall i: nat | |disk[f]| <= i ensures ByteAt(disk[f], i) == 0 {
    }
    hide PageOf, ByteAt;
    var files' := files[f := disk[f]];
    forall k | k in entries1 ensures k.file != f {
      assert k !in gone;
    }
    forall g, p: nat | g in files' && !IsDirty(entries1, PageKey(g, p))
      ensures PageOf(disk[g], p) == PageOf(files'[g], p)
    {
      if g != f { assert PageKey(g, p) !in gone && !IsDirty(entries, PageKey(g, p)); }
    }
  }

  // ---------------------------------------------------------------- running out of frames

  /** The pages of `length` bytes from `from` on that are not cached. */
  ghost function Missing(entries: Entries, file: FileId, from: nat, length: nat): set<nat> {
    set i: nat | from <= i < from + length && PageKey(file, i / PAGE) !in entries :: i / PAGE
  }

  /** With `frames` free frames a write of `length` bytes stops after `done`: at the start of a page that is not cached,
      with as many pages missing before it as there are frames. */
  ghost predicate OutAt(entries: Entries, file: FileId, from: nat, frames: nat, length: nat, done: nat) {
    && done < length && (done == 0 || (from + done) % PAGE == 0)
    && PageKey(file, (from + done) / PAGE) !in entries && |Missing(entries, file, from, done)| == frames
  }

  /** Before the write there is at most one place where it can stop. */
  lemma OutAtIsUnique(entries: Entries, file: FileId, from: nat, frames: nat, length: nat, done: nat, done': nat)
    requires OutAt(entries, file, from, frames, length, done) && OutAt(entries, file, from, frames, length, done')
    ensures done == done'
  {
    hide Missing;
    if done < done' { MissingGrows(entries, file, from, done, done'); }
    if done' < done { MissingGrows(entries, file, from, done', done); }
  }

  lemma MissingGrows(entries: Entries, file: FileId, from: nat, done: nat, more: nat)
    requires done < more && (done == 0 || (from + done) % PAGE == 0) && PageKey(file, (from + done) / PAGE) !in entries
    ensures |Missing(entries, file, from, more)| > |Missing(entries, file, from, done)|
  {
    var page := (from + done) / PAGE;
    assert page in Missing(entries, file, from, more);
    forall i: nat | from <= i < from + done ensures i / PAGE < page { EarlierPage(i, from + done); }
    ProperPart(Missing(entries, file, from, done), Missing(entries, file, from, more), page);
  }

  lemma EarlierPage(i: nat, j: nat)
    requires i < j && j % PAGE == 0
    ensures i / PAGE < j / PAGE
  {
  }

  lemma ProperPart(s: set<nat>, t: set<nat>, x: nat)
    requires s <= t && x in t && x !in s
    ensures |s| < |t|
  {
    assert s <= t - {x};
    PartSize(s, t - {x});
  }

  lemma {:induction false} PartSize(s: set<nat>, t: set<nat>)
    requires s <= t
    ensures |s| <= |t|
  {
    if s != {} {
      var x :| x in s;
      PartSize(s - {x}, t - {x});
    }
  }

  /** After `written` of `length` bytes the pages still to come are cached exactly if they were before. */
  ghost predicate Untouched(was: Entries, now: Entries, file: FileId, from: nat, length: nat, written: nat) {
    && (written == 0 || written == length || (from + written) % PAGE == 0)
    && forall p: nat :: written < length && (from + written) / PAGE <= p ==>
      (PageKey(file, p) in now <==> PageKey(file, p) in was)
  }

  lemma MissingNothing(entries: Entries, file: FileId, from: nat, length: nat)
    ensures Missing(entries, file, from, 0) == {} && Untouched(entries, entries, file, from, length, 0)
  {
  }

  /** The bytes of one chunk lie in one page. */
  lemma ChunkPages(entries: Entries, file: FileId, from: nat, written: nat, n: nat)
    requires 0 < n <= PAGE - (from + written) % PAGE && (written == 0 || (from + written) % PAGE == 0)
    ensures var page := (from + written) / PAGE;
      && page !in Missing(entries, file, from, written)
      && Missing(entries, file, from, written + n) ==
         Missing(entries, file, from, written) + if PageKey(file, page) in entries then {} else {page}
  {
    var page := (from + written) / PAGE;
    forall i: nat | from <= i < from + written ensures i / PAGE < page { EarlierPage(i, from + written); }
    forall i: nat | from + written <= i < from + written + n ensures i / PAGE == page { SamePage(i, from + written); }
    assert PageKey(file, page) !in entries ==> page in Missing(entries, file, from, written + n);
  }

  lemma SamePage(i: nat, j: nat)
    requires j <= i < j + PAGE - j % PAGE
    ensures i / PAGE == j / PAGE
  {
  }

  lemma NextChunk(from: nat, length: nat, written: nat)
    requires written < length
    ensures var n := Min(PAGE - (from + written) % PAGE, length - written);
      && 0 < n && (written + n == length
        || ((from + written + n) % PAGE == 0 && (from + written + n) / PAGE == (from + written) / PAGE + 1))
  {
  }

  /** One more chunk needs one more frame if its page was not cached, else none. */
  lemma MissingMore(was: Entries, before: Entries, now: Entries, file: FileId, from: nat, length: nat, written: nat,
                    n: nat)
    requires Untouched(was, before, file, from, length, written) && written < length
    requires n == Min(PAGE - (from + written) % PAGE, length - written)
    requires now.Keys == before.Keys + {PageKey(file, (from + written) / PAGE)}
    ensures Untouched(was, now, file, from, length, written + n)
    ensures |Missing(was, file, from, written + n)| == |Missing(was, file, from, written)| +
              if PageKey(file, (from + written) / PAGE) in before then 0 else 1
  {
    hide Missing;
    ChunkPages(was, file, from, written, n);
    NextChunk(from, length, written);
  }

  /** A page that gets no frame is the first such page, and there are too few frames for the whole write. */
  lemma FirstMissing(was: Entries, now: Entries, file: FileId, from: nat, length: nat, written: nat)
    requires Untouched(was, now, file, from, length, written) && written < length
    requires PageKey(file, (from + written) / PAGE) !in now
    ensures OutAt(was, file, from, |Missing(was, file, from, written)|, length, written)
    ensures |Missing(was, file, from, length)| > |Missing(was, file, from, written)|
  {
    hide Missing;
    MissingGrows(was, file, from, written, length);
  }

  // ---------------------------------------------------------------- reading ahead

  /** `count` pages from `page` on came in, none of which was cached, and nothing else changed its place. */
  ghost predicate Brought(was: Entries, now: Entries, file: FileId, page: nat, count: nat) {
    && (forall q: nat :: page <= q < page + count ==> PageKey(file, q) !in was && PageKey(file, q) in now)
    && (forall k :: k in was ==> k in now)
    && (forall k :: k in now && k !in was ==> k.file == file && page <= k.page < page + count)
  }

  lemma BroughtNone(entries: Entries, file: FileId, page: nat)
    ensures Brought(entries, entries, file, page, 0)
  {
  }

  lemma SameKeysBrought(was: Entries, now: Entries, file: FileId, page: nat)
    requires now.Keys == was.Keys
    ensures Brought(was, now, file, page, 0)
  {
    assert forall k :: k in now <==> k in now.Keys;
  }

  lemma BroughtNext(was: Entries, now: Entries, file: FileId, page: nat, count: nat, e: PageEntry)
    requires Brought(was, now, file, page, count) && PageKey(file, page + count) !in now
    ensures Brought(was, now[PageKey(file, page + count) := e], file, page, count + 1)
  {
  }

  /** Every page of `length` bytes from `from` on is cached. */
  ghost predicate AllIn(entries: Entries, file: FileId, from: nat, length: nat) {
    forall i: nat :: from <= i < from + length ==> PageKey(file, i / PAGE) in entries
  }

  lemma NoneYet(entries: Entries, file: FileId, from: nat)
    ensures AllIn(entries, file, from, 0)
  {
  }

  lemma NothingMissing(entries: Entries, file: FileId, from: nat, length: nat)
    requires AllIn(entries, file, from, length)
    ensures Missing(entries, file, from, length) == {}
  {
  }

  lemma StillMissing(entries: Entries, file: FileId, from: nat, length: nat, done: nat)
    requires done < length && PageKey(file, (from + done) / PAGE) !in entries
    ensures |Missing(entries, file, from, length)| > 0
  {
    assert (from + done) / PAGE in Missing(entries, file, from, length);
  }

  lemma AllInNext(was: Entries, now: Entries, file: FileId, from: nat, done: nat, count: nat, n: nat)
    requires AllIn(was, file, from, done) && Brought(was, now, file, (from + done) / PAGE, count)
    requires n <= PAGE - (from + done) % PAGE && PageKey(file, (from + done) / PAGE) in now
    ensures AllIn(now, file, from, done + n)
  {
    forall i: nat | from <= i < from + done + n ensures PageKey(file, i / PAGE) in now {
      if i >= from + done { SamePage(i, from + done); }
    }
  }

  predicate InPageRun(page: nat, count: nat, q: nat) { page <= q < page + count }

  ghost function PageRun(page: nat, count: nat): set<nat> {
    set q: nat | page <= q < page + count && InPageRun(page, count, q)
  }

  lemma {:induction false} PageRunSize(page: nat, count: nat)
    ensures |PageRun(page, count)| == count
  {
    if count > 0 {
      PageRunSize(page, count - 1);
      assert forall q: nat :: InPageRun(page, count, q) <==> InPageRun(page, count - 1, q) || q == page + count - 1;
      assert PageRun(page, count) == PageRun(page, count - 1) + {page + count - 1};
    }
  }

  /** Bringing in a run leaves as many pages short as before: it fills missing pages one for one until none is
      missing. */
  lemma MissingAfter(was: Entries, now: Entries, file: FileId, from: nat, length: nat, done: nat, count: nat, free: nat)
    requires done < length && AllIn(was, file, from, done) && Brought(was, now, file, (from + done) / PAGE, count)
    ensures |Missing(was, file, from, length)| > free + count <==> |Missing(now, file, from, length)| > free
  {
    var page := (from + done) / PAGE;
    var m, run := Missing(was, file, from, length), PageRun(page, count);
    MissingLess(was, now, file, from, length, done, count);
    PageRunSize(page, count);
    if run <= m {
      assert |m - run| == |m| - |run| by { PartCard(run, m); }
    } else {
      RunPastTheEnd(was, now, file, from, length, done, count);
      PartSize(m, run);
      assert m - run == {};
    }
  }

  lemma PartCard(s: set<nat>, t: set<nat>)
    requires s <= t
    ensures |t - s| == |t| - |s|
  {
    assert t == s + (t - s);
  }

  lemma MissingLess(was: Entries, now: Entries, file: FileId, from: nat, length: nat, done: nat, count: nat)
    requires done < length && Brought(was, now, file, (from + done) / PAGE, count)
    ensures Missing(now, file, from, length) == Missing(was, file, from, length) - PageRun((from + done) / PAGE, count)
  {
    var page := (from + done) / PAGE;
    forall i: nat | from <= i < from + length
      ensures PageKey(file, i / PAGE) !in now <==>
        PageKey(file, i / PAGE) !in was && !InPageRun(page, count, i / PAGE)
    {
    }
  }

  /** A run that holds a page not asked for reaches past the last page asked for, so it holds all that are missing. */
  lemma RunPastTheEnd(was: Entries, now: Entries, file: FileId, from: nat, length: nat, done: nat, count: nat)
    requires done < length && AllIn(was, file, from, done) && Brought(was, now, file, (from + done) / PAGE, count)
    requires !(PageRun((from + done) / PAGE, count) <= Missing(was, file, from, length))
    ensures Missing(was, file, from, length) <= PageRun((from + done) / PAGE, count)
  {
    var page := (from + done) / PAGE;
    var q :| q in PageRun(page, count) && q !in Missing(was, file, from, length);
    assert PageKey(file, q) !in was;
    if q * PAGE < from + length { PageAsked(was, file, from, length, done, q); }
    forall i: nat | from <= i < from + length && PageKey(file, i / PAGE) !in was
      ensures page <= i / PAGE < page + count
    {
      PageOrder(i, from + done);
      PageBelow(i, q);
    }
  }

  lemma PageAsked(was: Entries, file: FileId, from: nat, length: nat, done: nat, q: nat)
    requires done < length && (from + done) / PAGE <= q && PageKey(file, q) !in was && q * PAGE < from + length
    ensures q in Missing(was, file, from, length)
  {
    if q == (from + done) / PAGE {
      assert (from + done) / PAGE in Missing(was, file, from, length);
    } else {
      FirstByteOf(q, from + done);
      assert (q * PAGE) / PAGE in Missing(was, file, from, length);
    }
  }

  lemma FirstByteOf(q: nat, j: nat)
    requires q > j / PAGE
    ensures q * PAGE > j && (q * PAGE) / PAGE == q
  {
  }

  lemma PageOrder(i: nat, j: nat)
    ensures i >= j ==> i / PAGE >= j / PAGE
  {
  }

  lemma PageBelow(i: nat, q: nat)
    ensures i < q * PAGE ==> i / PAGE < q
  {
  }
}
