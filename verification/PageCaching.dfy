/** The unified page cache (rust/kernel/src/page_cache.rs) over a flat byte file per inode. */
module PageCaching {
  import opened Arithmetic
  import opened PageFile
  import opened PageEntries
  import opened Options

  const MAX_READAHEAD: nat := 16
  const BATCH_PAGES: nat := 16

  datatype Result = Ok(count: nat) | NoSpace

  class PageCache {
    var entries: Entries
    var sizes: map<FileId, nat>
    var nextSeq: nat
    var hits: nat
    var misses: nat
    var mem: Frames
    var free: set<nat>
    var disk: Files
    ghost var files: Files

    ghost predicate Steady()
      reads `entries, `mem, `free, `disk, `files
    {
      Consistent(entries, mem, free, files, disk)
    }

    /** `files` is what a reader of each file sees. */
    ghost predicate Valid()
      reads `entries, `mem, `free, `disk, `files, `sizes
    {
      Steady() && SizesOk(entries, sizes, files, disk)
    }

    constructor (frames: set<nat>, contents: Files)
      ensures Valid() && files == contents && disk == contents && free == frames && entries == map[]
    {
      entries, sizes, nextSeq, hits, misses := map[], map[], 1, 0, 0;
      mem := map f | f in frames :: Zeros(PAGE);
      free := frames;
      disk := contents;
      files := contents;
    }

    method AllocFrame() returns (f: Option<nat>)
      modifies `free
      ensures f.None? ==> old(free) == {} && free == old(free)
      ensures f.Some? ==> f.value in old(free) && free == old(free) - {f.value}
    {
      if free == {} { return None; }
      var g :| g in free;
      free := free - {g};
      return Some(g);
    }

    /** The length in force. */
    function SizeOf(file: FileId): (n: nat)
      requires Valid() && file in disk
      reads `entries, `mem, `free, `disk, `files, `sizes
      ensures file in files && n == |files[file]|
    {
      if file in sizes then sizes[file] else |disk[file]|
    }

    method Hit(k: PageKey)
      requires Steady() && k in entries
      modifies `entries, `hits
      ensures Steady() && entries == old(entries)[k := old(entries)[k].(lru := old(entries)[k].lru + 1)]
    {
      var e := entries[k].(lru := entries[k].lru + 1);
      TouchKeeps(entries, mem, free, files, disk, k, e);
      entries := entries[k := e];
      hits := hits + 1;
    }

    // -------------------------------------------------------------- reading

    /** How many pages from `page` on are worth reading together. */
    method ReadaheadRun(file: FileId, page: nat, size: nat) returns (run: nat)
      ensures 1 <= run <= MAX_READAHEAD
      ensures forall q :: page < q < page + run ==> PageKey(file, q) !in entries && q * PAGE < size
    {
      var total := (size + PAGE - 1) / PAGE;
      run := 1;
      while run < MAX_READAHEAD && page + run < total && PageKey(file, page + run) !in entries
        invariant 1 <= run <= MAX_READAHEAD
        invariant forall q :: page < q < page + run ==> PageKey(file, q) !in entries && q * PAGE < size
      {
        InsideFile(page + run, size);
        run := run + 1;
      }
    }

    method AllocBatch(n: nat) returns (batch: seq<nat>)
      requires Steady()
      modifies `free
      ensures |batch| <= n && free + Held(batch) == old(free) && free !! Held(batch)
      ensures forall i, j :: 0 <= i < j < |batch| ==> batch[i] != batch[j]
      ensures n > 0 && batch == [] ==> free == {}
      ensures |free| + |batch| == |old(free)|
    {
      batch := [];
      while |batch| < n
        invariant |free| + |batch| == |old(free)|
        invariant |batch| <= n && free + Held(batch) == old(free) && free !! Held(batch)
        invariant forall i, j :: 0 <= i < j < |batch| ==> batch[i] != batch[j]
        decreases n - |batch|
      {
        var f := AllocFrame();
        if f.None? { return; }
        batch := batch + [f.value];
      }
    }

    /** Brings in a run of pages from `page` on with one disk read; fails only when no frame is free. */
    method Fetch(file: FileId, page: nat, size: nat) returns (frame: Option<nat>, ghost count: nat)
      requires Steady() && file in files && size == |files[file]| && PageKey(file, page) !in entries
        && page * PAGE < size
      modifies `entries, `mem, `free, `misses, `nextSeq
      ensures Steady()
        && (frame.Some? ==> PageKey(file, page) in entries && entries[PageKey(file, page)].frame == frame.value)
      ensures (frame.None? <==> old(free) == {}) && (frame.None? ==> free == {} && unchanged(`entries))
      ensures frame.Some? ==>
        count > 0 && Brought(old(entries), entries, file, page, count) && |free| + count == |old(free)|
      ensures Grown(old(entries), entries, file)
    {
      misses := misses + 1;
      count := 0;
      var run := ReadaheadRun(file, page, size);
      var batch := AllocBatch(run);
      if batch == [] { return None, 0; }
      var start := page * PAGE;
      var total := Min(|batch| * PAGE, size - start);
      var got := Slice(disk[file], start, total);
      InsertBatch(file, page, size, batch, got);
      return Some(batch[0]), |batch|;
    }

    /** Distributes what was read over the frames of the batch. */
    method InsertBatch(file: FileId, page: nat, size: nat, batch: seq<nat>, got: Bytes)
      requires Consistent(entries, mem, free + Held(batch), files, disk) && file in files && batch != []
      requires free !! Held(batch) && (forall x, y :: 0 <= x < y < |batch| ==> batch[x] != batch[y])
      requires size == |files[file]| && page * PAGE < size
        && got == Slice(disk[file], page * PAGE, Min(|batch| * PAGE, size - page * PAGE))
      requires forall q :: page <= q < page + |batch| ==> PageKey(file, q) !in entries
      modifies `entries, `mem, `nextSeq
      ensures Steady() && PageKey(file, page) in entries && entries[PageKey(file, page)].frame == batch[0]
      ensures Grown(old(entries), entries, file) && Brought(old(entries), entries, file, page, |batch|)
    {
      hide Consistent, Held, PageOf, Slice, BatchPage, ValidIn, Brought;
      var i := 0;
      assert batch[0..] == batch;
      BroughtNone(entries, file, page);
      while i < |batch|
        invariant 0 <= i <= |batch|
        invariant Consistent(entries, mem, free + Held(batch[i..]), files, disk) && free !! Held(batch[i..])
        invariant forall q :: page + i <= q < page + |batch| ==> PageKey(file, q) !in entries
        invariant i > 0 ==> PageKey(file, page) in entries && entries[PageKey(file, page)].frame == batch[0]
        invariant Grown(old(entries), entries, file) && Brought(old(entries), entries, file, page, i)
      {
        var data := BatchPage(got, i);
        var k := PageKey(file, page + i);
        FetchedPage(entries, mem, free + Held(batch[i..]), files, disk, k, page, |batch|, i);
        HeldNext(batch, i, free);
        nextSeq := nextSeq + 1;
        var e := PageEntry(batch[i], false, ValidIn(got, i), nextSeq);
        InsertKeeps(entries, mem, free + Held(batch[i..]), files, disk, k, e, data);
        BroughtNext(old(entries), entries, file, page, i, e);
        entries, mem := entries[k := e], mem[batch[i] := data];
        i := i + 1;
      }
      NoneHeld(batch[i..], free);
    }

    /** A frame that holds `page` of `file`, from the cache or from the disk. */
    method FrameFor(file: FileId, page: nat, size: nat) returns (frame: Option<nat>, ghost count: nat)
      requires Valid() && file in files && size == |files[file]| && page * PAGE < size
      modifies `entries, `mem, `free, `hits, `misses, `nextSeq
      ensures Valid() && (frame.Some? ==> frame.value in mem && mem[frame.value] == PageOf(files[file], page))
      ensures frame.None? <==> PageKey(file, page) !in old(entries) && old(free) == {}
      ensures frame.None? ==> free == {} && unchanged(`entries)
      ensures frame.Some? ==> PageKey(file, page) in entries && |free| + count == |old(free)|
      ensures frame.Some? ==> Brought(old(entries), entries, file, page, count)
    {
      var k := PageKey(file, page);
      hide PageOf, Brought;
      if k in entries {
        count := 0;
        Hit(k);
        BroughtNone(entries, file, page);
        SameKeysBrought(old(entries), entries, file, page);
        frame := Some(entries[k].frame);
      } else {
        frame, count := Fetch(file, page, size);
        GrownSizes(old(entries), entries, sizes, files, disk, file);
      }
    }

    /** Reads what a plain byte array would give; the visible files stay as they are.  It fails exactly when it needs
        more new frames than are free, whatever is read ahead. */
    method Read(file: FileId, offset: nat, buf: array<bv8>) returns (r: Result)
      requires Valid() && file in disk
      modifies this`entries, this`sizes, this`mem, this`free, this`hits, this`misses, this`nextSeq, buf
      ensures Valid()
      ensures r.Ok? ==> r.count == |Slice(files[file], offset, buf.Length)|
      ensures r.Ok? ==> buf[..] == Slice(files[file], offset, buf.Length) + old(buf[..])[r.count..]
      ensures r.NoSpace? ==> free == {}
      ensures r.NoSpace? <==>
        |Missing(old(entries), file, offset, |Slice(files[file], offset, buf.Length)|)| > |old(free)|
    {
      hide PageOf, Consistent, Filled, Slice, Missing, Brought, AllIn;
      var size := SizeOf(file);
      SliceFits(files[file], offset, buf.Length);
      MissingNothing(entries, file, offset, 0);
      if buf.Length == 0 { return Ok(0); }
      CacheSizeKeeps(entries, sizes, files, disk, file);
      sizes := sizes[file := size];
      if offset >= size { return Ok(0); }
      var toRead := Min(buf.Length, size - offset);
      ghost var v, was := Slice(files[file], offset, toRead), buf[..];
      var copied := 0;
      FilledStart(v, was);
      NoneYet(entries, file, offset);
      while copied < toRead
        invariant copied <= toRead && Valid() && Filled(buf[..], v, was, copied) && AllIn(entries, file, offset, copied)
        invariant |Missing(old(entries), file, offset, toRead)| > |old(free)| <==>
          |Missing(entries, file, offset, toRead)| > |free|
      {
        var cur := offset + copied;
        var page, at := cur / PAGE, cur % PAGE;
        var n := Min(Min(PAGE - at, toRead - copied), size - cur);
        ghost var before := entries;
        var frame, count := FrameFor(file, page, size);
        if frame.None? {
          StillMissing(entries, file, offset, toRead, copied);
          return NoSpace;
        }
        MissingAfter(before, entries, file, offset, toRead, copied, count, |free|);
        AllInNext(before, entries, file, offset, copied, count, n);
        var chunk := mem[frame.value][at..at + n];
        PageSlice(files[file], page, at, n);
        ChunkOf(files[file], offset, toRead, copied, n);
        ghost var b := buf[..];
        CopyInto(buf, copied, chunk);
        FilledMore(b, buf[..], v, was, copied, chunk);
        copied := copied + n;
      }
      FilledEnd(buf[..], v, was);
      NothingMissing(entries, file, offset, toRead);
      return Ok(copied);
    }

    // -------------------------------------------------------------- writing

    /** The bytes put in a fresh frame before a chunk is copied over them. */
    method FillFor(file: FileId, page: nat, at: nat, n: nat, initial: nat) returns (data: Bytes, valid: nat)
      requires Steady() && file in files && PageKey(file, page) !in entries && at + n <= PAGE
      requires forall i: nat :: initial <= i ==> ByteAt(disk[file], i) == 0
      ensures |data| == PAGE
      ensures at > 0 || n < PAGE ==> data == PageOf(files[file], page)
    {
      assert !IsDirty(entries, PageKey(file, page));
      var start := page * PAGE;
      valid := 0;
      data := Zeros(PAGE);
      if (at > 0 || n < PAGE) && start < initial {
        var got := Slice(disk[file], start, PAGE);
        ReadPage(disk[file], page, PAGE);
        valid := |got|;
        data := got + Zeros(PAGE - |got|);
      } else if at > 0 || n < PAGE {
        ReadPage(disk[file], page, 0);
      }
    }

    /** Puts a frame in place for a page that is not cached; its bytes matter only where the write does not cover
        them. */
    method InstallFrame(file: FileId, page: nat, at: nat, b: Bytes, initial: nat) returns (ok: bool)
      requires Steady() && file in files && PageKey(file, page) !in entries && at + |b| <= PAGE
      requires forall i: nat :: initial <= i ==> ByteAt(disk[file], i) == 0
      modifies `entries, `mem, `free, `misses, `nextSeq
      ensures !ok ==> Steady() && old(free) == {} && free == {} && unchanged(`entries)
      ensures ok ==> Writable(entries, mem, free, files, disk, PageKey(file, page), at, b)
      ensures ok ==>
        entries == old(entries)[PageKey(file, page) := entries[PageKey(file, page)]] && |free| + 1 == |old(free)|
    {
      hide PageOf, ByteAt;
      misses := misses + 1;
      var k := PageKey(file, page);
      var data, valid := FillFor(file, page, at, |b|, initial);
      ghost var pool := free;
      var f := AllocFrame();
      if f.None? { return false; }
      nextSeq := nextSeq + 1;
      var e := PageEntry(f.value, true, Max(valid, at + |b|), nextSeq);
      MissKeeps(entries, mem, pool, files, disk, k, e, data);
      SpliceCovers(data, PageOf(files[file], page), at, b);
      entries, mem := entries[k := e], mem[f.value := data];
      return true;
    }

    /** A cached page is about to be written. */
    method MarkWritten(k: PageKey, at: nat, b: Bytes)
      requires Steady() && k in entries && at + |b| <= PAGE
      modifies `entries, `hits
      ensures Writable(entries, mem, free, files, disk, k, at, b)
      ensures k in entries && entries == old(entries)[k := entries[k]]
    {
      hide PageOf, ByteAt;
      var e := entries[k];
      MarkKeeps(entries, mem, free, files, disk, k,
        e.(dirty := true, valid := Max(e.valid, at + |b|), lru := e.lru + 1), at, b);
      entries := entries[k := e.(dirty := true, valid := Max(e.valid, at + |b|), lru := e.lru + 1)];
      hits := hits + 1;
    }

    /** Writes one chunk, which lies in one page. */
    method WriteChunk(file: FileId, page: nat, at: nat, b: Bytes, initial: nat) returns (ok: bool)
      requires Steady() && file in files && at + |b| <= PAGE
      requires forall i: nat :: initial <= i ==> ByteAt(disk[file], i) == 0
      modifies `entries, `mem, `free, `hits, `misses, `nextSeq, `files
      ensures Steady() && DirtyIn(old(entries), entries, file)
      ensures !ok ==> unchanged(`files) && unchanged(`entries) && free == {} == old(free)
      ensures !ok ==> PageKey(file, page) !in old(entries)
      ensures ok ==> entries.Keys == old(entries.Keys) + {PageKey(file, page)}
      ensures ok ==> |free| + (if PageKey(file, page) in old(entries) then 0 else 1) == |old(free)|
      ensures ok ==> files == old(files)[file := Overlay(old(files)[file], page * PAGE + at, b)]
      ensures ok ==> IsDirty(entries, PageKey(file, page)) && forall k :: IsDirty(old(entries), k) ==>
        IsDirty(entries, k)
    {
      hide PageOf, ByteAt, Overlay, Splice, Cached, Consistent;
      var k := PageKey(file, page);
      ok := true;
      if k in entries {
        MarkWritten(k, at, b);
      } else {
        ok := InstallFrame(file, page, at, b, initial);
        if !ok { return; }
      }
      WriteKeeps(entries, mem, free, files, disk, k, entries[k], at, b);
      assert entries[k := entries[k]] == entries;
      var f := entries[k].frame;
      mem := mem[f := Splice(mem[f], at, b)];
      files := files[file := Overlay(files[file], page * PAGE + at, b)];
    }

    /** A plain write.  It fails exactly when it needs more new frames than are free.  Then the bytes before the first
        page that gets none are in place, but the length is not set: the cache still shows a plain file exactly when
        those bytes lie within a length it already had. */
    method Write(file: FileId, offset: nat, buf: Bytes) returns (r: Result, ghost done: nat)
      requires Valid() && file in disk
      modifies `entries, `sizes, `mem, `free, `hits, `misses, `nextSeq, `files
      ensures Steady() && done <= |buf| && files == old(files)[file := Overlay(old(files)[file], offset, buf[..done])]
      ensures r.Ok? ==> Valid() && r.count == done == |buf|
      ensures r.NoSpace? <==> |Missing(old(entries), file, offset, |buf|)| > |old(free)|
      ensures r.NoSpace? ==>
        OutAt(old(entries), file, offset, |old(free)|, |buf|, done) && free == {} && unchanged(`sizes)
      ensures r.NoSpace? ==> (Valid() <==> done == 0 || (offset + done <= |old(files)[file]| && file in old(sizes)))
    {
      hide PageOf, ByteAt, Overlay, Splice, Consistent, SizesOk, Missing, Untouched;
      done := 0;
      var initial := SizeOf(file);
      OverlayNothing(files[file], offset, buf);
      assert files == files[file := files[file]];
      MissingNothing(entries, file, offset, |buf|);
      if |buf| == 0 { return Ok(0), 0; }
      var newSize := Max(initial, offset + |buf|);
      ghost var v := files[file];
      var written := 0;
      TailsAt(entries, mem, free, files, disk, file);
      while written < |buf|
        invariant written <= |buf| && Steady() && DirtyIn(old(entries), entries, file) && unchanged(`sizes)
        invariant written == 0 ==> forall k :: IsDirty(entries, k) ==> IsDirty(old(entries), k)
        invariant written > 0 ==> IsDirty(entries, PageKey(file, offset / PAGE))
        invariant files == old(files)[file := Overlay(v, offset, buf[..written])]
        invariant Untouched(old(entries), entries, file, offset, |buf|, written)
        invariant |Missing(old(entries), file, offset, written)| + |free| == |old(free)|
      {
        var cur := offset + written;
        var page, at := cur / PAGE, cur % PAGE;
        var n := Min(PAGE - at, |buf| - written);
        ghost var was := entries;
        var ok := WriteChunk(file, page, at, buf[written..written + n], initial);
        if !ok {
          done := written;
          SizesAfterFailure(old(entries), entries, sizes, old(files), files, disk, file, offset, buf[..written]);
          FirstMissing(old(entries), entries, file, offset, |buf|, written);
          return NoSpace, done;
        }
        MissingMore(old(entries), was, entries, file, offset, |buf|, written, n);
        OverlayTwice(v, offset, buf[..written], buf[written..written + n]);
        assert buf[..written] + buf[written..written + n] == buf[..written + n];
        written := written + n;
      }
      done := written;
      assert buf[..written] == buf;
      OverlayByte(v, offset, buf, 0);
      SizesAfterWrite(old(entries), entries, sizes, old(files), files, disk, file);
      sizes := sizes[file := newSize];
      return Ok(written), done;
    }

    // -------------------------------------------------------------- flushing

    /** The dirty pages of a file, in ascending order. */
    method CollectDirty(file: FileId) returns (pages: seq<nat>)
      ensures Ascending(pages) && forall p: nat :: p in pages <==> IsDirty(entries, PageKey(file, p))
    {
      var left := set k | k in entries && k.file == file && entries[k].dirty :: k.page;
      DirtyPages(entries, file);
      pages := [];
      while left != {}
        invariant Ascending(pages) && forall p: nat :: IsDirty(entries, PageKey(file, p)) <==> p in pages || p in left
        invariant forall p, q :: p in pages && q in left ==> p < q
      {
        var p := Least(left);
        assert forall i :: 0 <= i < |pages| ==> pages[i] in pages;
        pages := pages + [p];
        left := left - {p};
      }
    }

    /** Writes back all dirty pages in contiguous batches.  `writes` is how many batch writes the disk accepts. */
    method FlushInode(file: FileId, writes: nat) returns (ok: bool, ghost pages: seq<nat>)
      requires Valid() && file in disk
      modifies `entries, `disk
      ensures Valid() && disk == old(disk)[file := disk[file]]
      ensures Ascending(pages) && forall p: nat :: p in pages <==> IsDirty(old(entries), PageKey(file, p))
      ensures ok ==> Cleaned(old(entries), entries, file, pages) && forall p: nat :: !IsDirty(entries, PageKey(file, p))
      ensures ok ==> disk[file] == Each(Trimmed(old(disk)[file], sizes, file), files[file], pages)
      ensures ok ==> |files[file]| <= |disk[file]| && disk[file][..|files[file]|] == files[file]
      ensures |pages| <= writes ==> ok
    {
      hide PageOf, ByteAt, Overlay, Consistent, SizesOk, Resize, Each, Cleaned;
      ghost var size := SizeOf(file);
      if file in sizes {
        ResizeKeeps(entries, mem, free, files, disk, file);
        TrimKeepsSizes(entries, sizes, files, disk, file);
        disk := disk[file := Resize(disk[file], sizes[file])];
      }
      var dirty := CollectDirty(file);
      pages := dirty;
      ghost var start := disk;
      ghost var done;
      ok, done := WriteBatches(file, dirty, writes);
      FlushedSome(old(entries), entries, mem, free, sizes, files, start, disk, file, dirty, done);
      assert dirty[..|dirty|] == dirty;
      if ok { FlushedAll(old(entries), entries, mem, free, files, start, disk, file, dirty); }
    }

    /** The longest run of consecutive pages from `index` on, at most sixteen, in one buffer. */
    method Gather(file: FileId, pages: seq<nat>, index: nat, ghost d: Bytes, ghost v: Bytes)
      returns (batch: Bytes, count: nat)
      requires index < |pages| && Holding(entries, mem, file, v, pages)
      ensures 1 <= count <= BATCH_PAGES && index + count <= |pages|
      ensures forall i :: index <= i < index + count ==> pages[i] == pages[index] + (i - index)
      ensures Overlay(Each(d, v, pages[..index]), pages[index] * PAGE, batch) == Each(d, v, pages[..index + count])
    {
      hide PageOf, Overlay, Each;
      batch, count := [], 0;
      var start := pages[index];
      OverlayNothing(Each(d, v, pages[..index]), start * PAGE, batch);
      while index + count < |pages| && count < BATCH_PAGES && pages[index + count] == start + count
        invariant count <= BATCH_PAGES && index + count <= |pages| && |batch| == count * PAGE
        invariant forall i :: index <= i < index + count ==> pages[i] == start + (i - index)
        invariant Overlay(Each(d, v, pages[..index]), start * PAGE, batch) == Each(d, v, pages[..index + count])
        decreases BATCH_PAGES - count
      {
        var page := mem[entries[PageKey(file, pages[index + count])].frame];
        BatchNext(Each(d, v, pages[..index]), start, batch, count, page);
        EachNext(d, v, pages, index + count);
        batch := batch + page;
        count := count + 1;
      }
    }

    method MarkClean(file: FileId, pages: seq<nat>, index: nat, count: nat, ghost was: Entries)
      requires index + count <= |pages| && AllCached(entries, file, pages)
        && Cleaned(was, entries, file, pages[..index])
      requires forall i :: index <= i < index + count ==> pages[i] == pages[index] + (i - index)
      modifies `entries
      ensures Cleaned(was, entries, file, pages[..index + count])
    {
      for c := 0 to count
        invariant AllCached(entries, file, pages) && Cleaned(was, entries, file, pages[..index + c])
      {
        var k := PageKey(file, pages[index] + c);
        assert k == PageKey(file, pages[index + c]);
        CleanNext(was, entries, file, pages, index + c);
        if k in entries { entries := entries[k := entries[k].(dirty := false)]; }
      }
    }

    /** The batching loop: gather up to sixteen consecutive pages, write them at once, mark them clean. */
    method WriteBatches(file: FileId, pages: seq<nat>, writes: nat) returns (ok: bool, ghost done: nat)
      requires Steady() && file in disk && file in files && AllCached(entries, file, pages)
      modifies `entries, `disk
      ensures done <= |pages| && Cleaned(old(entries), entries, file, pages[..done])
      ensures disk == old(disk)[file := Each(old(disk)[file], files[file], pages[..done])]
      ensures ok ==> done == |pages|
      ensures |pages| <= writes ==> ok
    {
      hide PageOf, ByteAt, Overlay, Consistent, Each, Cleaned, Holding;
      var index, left := 0, writes;
      ghost var d, v := disk[file], files[file];
      FlushStart(entries, mem, free, files, disk, file, pages);
      while index < |pages|
        invariant index <= |pages| && (|pages| <= writes ==> |pages| - index <= left)
        invariant Cleaned(old(entries), entries, file, pages[..index])
        invariant disk == old(disk)[file := Each(d, v, pages[..index])]
      {
        CleanedHolding(old(entries), entries, mem, file, v, pages, index);
        var batch, count := Gather(file, pages, index, d, v);
        if left == 0 { return false, index; }
        left := left - 1;
        disk := disk[file := Overlay(disk[file], pages[index] * PAGE, batch)];
        MarkClean(file, pages, index, count, old(entries));
        index := index + count;
      }
      assert pages[..index] == pages;
      return true, index;
    }

    // -------------------------------------------------------------- truncating, forgetting, evicting

    /** Removes pages and frees their frames. */
    method DropPages(doomed: set<PageKey>)
      requires doomed <= entries.Keys
      modifies `entries, `free
      ensures Removed(old(entries), old(free), doomed, entries, free)
    {
      var left := doomed;
      ghost var gone: set<PageKey> := {};
      while left != {}
        invariant left !! gone && left + gone == doomed && left <= entries.Keys
        invariant Removed(old(entries), old(free), gone, entries, free)
      {
        var k :| k in left;
        RemoveNext(old(entries), old(free), gone, entries, free, k);
        free := free + {entries[k].frame};
        entries := entries - {k};
        left, gone := left - {k}, gone + {k};
      }
      assert gone == doomed;
    }

    /** Cuts or pads the visible file, together with the disk's own truncate. */
    method Truncate(file: FileId, n: nat)
      requires Valid() && file in disk
      modifies `entries, `sizes, `mem, `free, `disk, `files
      ensures Valid() && files == old(files)[file := Resize(old(files)[file], n)]
      ensures disk == old(disk)[file := Resize(old(disk)[file], n)]
    {
      hide Consistent, SizesOk, Resize, Removed;
      ghost var size := SizeOf(file);
      disk := disk[file := Resize(disk[file], n)];
      sizes := sizes[file := n];
      var first := (n + PAGE - 1) / PAGE;
      var doomed := set k | k in entries && k.file == file && first <= k.page;
      DropPages(doomed);
      DroppedFrames(old(entries), mem, old(free), files, old(disk), doomed, entries, free);
      TruncatedTables(old(entries), mem, old(free), files, old(disk), file, n, doomed, entries, free);
      TruncatedSizes(old(entries), old(sizes), files, old(disk), file, n, doomed, old(free), entries, free);
      var k := PageKey(file, n / PAGE);
      if n % PAGE > 0 && k in entries {
        var f := entries[k].frame;
        mem := mem[f := mem[f][..n % PAGE] + Zeros(PAGE - n % PAGE)];
        entries := entries[k := entries[k].(valid := n % PAGE, dirty := true)];
      }
      files := files[file := Resize(files[file], n)];
    }

    /** Forgets an unlinked file: nothing of it stays cached, and only its disk copy shows. */
    method InvalidateInode(file: FileId)
      requires Valid() && file in disk
      modifies `entries, `sizes, `free, `files
      ensures Valid() && files == old(files)[file := disk[file]]
      ensures file !in sizes && forall k :: k in entries <==> k in old(entries) && k.file != file
    {
      hide Consistent, SizesOk;
      ghost var size := SizeOf(file);
      sizes := sizes - {file};
      var doomed := set k | k in entries && k.file == file;
      DropPages(doomed);
      ForgetKeeps(old(entries), mem, old(free), files, disk, file, doomed, entries, free);
      ForgetSizes(old(entries), old(sizes), files, disk, file, doomed, entries);
      files := files[file := disk[file]];
    }

    /** Evicts up to `max` clean pages, least recently used first, and shows nothing of it. */
    method EvictCleanPages(max: nat) returns (evicted: nat, ghost gone: set<PageKey>)
      requires Valid()
      modifies `entries, `free
      ensures Valid() && Removed(old(entries), old(free), gone, entries, free)
      ensures evicted == |gone| == Min(max, |Clean(old(entries))|) && gone <= Clean(old(entries))
      ensures forall k, k' :: k in gone && k' in Clean(entries) ==>
        k in old(entries) && k' in entries && old(entries)[k].lru <= entries[k'].lru
    {
      hide Consistent, Evicting;
      var clean := Clean(entries);
      evicted, gone := 0, {};
      var count := Min(|clean|, max);
      EvictStart(entries, free);
      while evicted < count
        invariant evicted <= count && evicted == |gone|
        invariant Valid() && Evicting(old(entries), old(free), entries, free, clean, gone)
      {
        SomeLeft(old(entries), old(free), entries, free, clean, gone);
        var k := Oldest(clean);
        EvictKeeps(entries, mem, free, files, disk, k);
        EvictSizes(entries, sizes, files, disk, k);
        EvictNext(old(entries), old(free), entries, free, clean, gone, k);
        free := free + {entries[k].frame};
        entries := entries - {k};
        clean, gone := clean - {k}, gone + {k};
        evicted := evicted + 1;
      }
      EvictEnd(old(entries), old(free), entries, free, clean, gone);
    }

    /** The clean page of a nonempty set that was used longest ago. */
    method Oldest(s: set<PageKey>) returns (m: PageKey)
      requires s != {} && s <= entries.Keys
      ensures m in s && forall k :: k in s ==> entries[m].lru <= entries[k].lru
    {
      m :| m in s;
      var rest := s - {m};
      while rest != {}
        invariant rest <= s && m in s && m !in rest && forall k :: k in s && k !in rest ==>
          entries[m].lru <= entries[k].lru
      {
        var k :| k in rest;
        if entries[k].lru < entries[m].lru { m := k; }
        rest := rest - {k};
      }
    }

    // -------------------------------------------------------------- whole runs

    method Perform(op: Op) returns (out: Bytes, ok: bool)
      requires Valid() && (op.Evict? || op.file in disk)
      modifies this
      ensures disk.Keys == old(disk).Keys
      ensures ok ==> Valid() && files == PlainStep(old(files), op) && out == PlainOutput(old(files), op)
      ensures !ok ==> free == {}
    {
      hide Consistent, SizesOk, Slice, Overlay, Resize;
      out, ok := [], true;
      ghost var size := if op.Evict? then 0 else SizeOf(op.file);
      match op
      case Read(file, offset, n) =>
        var buf := new bv8[n];
        var r := Read(file, offset, buf);
        if r.NoSpace? { return [], false; }
        out := buf[..r.count];
      case Write(file, offset, data) =>
        var r, done := Write(file, offset, data);
        assert data[..|data|] == data;
        ok := r.Ok?;
      case Flush(file, writes) =>
        var flushed, pages := FlushInode(file, writes);
      case Evict(max) =>
        var n, gone := EvictCleanPages(max);
      case Truncate(file, n) =>
        Truncate(file, n);
    }

    /** Any sequence of operations gives what plain byte arrays would, for as long as frames are found. */
    method Execute(ops: seq<Op>) returns (outs: seq<Bytes>)
      requires Valid() && forall i :: 0 <= i < |ops| ==> ops[i].Evict? || ops[i].file in disk
      modifies this
      ensures |outs| <= |ops| && forall i :: 0 <= i < |outs| ==>
        outs[i] == PlainOutput(PlainRun(old(files), ops[..i]), ops[i])
      ensures |outs| == |ops| ==> Valid() && files == PlainRun(old(files), ops)
      ensures |outs| < |ops| ==> free == {}
    {
      hide Consistent, SizesOk, PlainStep, PlainOutput, PlainRun;
      outs := [];
      RunNothing(files, ops);
      for n := 0 to |ops|
        invariant Valid() && disk.Keys == old(disk).Keys && |outs| == n && files == PlainRun(old(files), ops[..n])
        invariant forall i :: 0 <= i < n ==> outs[i] == PlainOutput(PlainRun(old(files), ops[..i]), ops[i])
      {
        var out, ok := Perform(ops[n]);
        if !ok { return; }
        RunNext(old(files), ops, n);
        outs := outs + [out];
      }
      assert ops[..|ops|] == ops;
    }
  }

  datatype Op =
    | Read(file: FileId, offset: nat, n: nat)
    | Write(file: FileId, offset: nat, data: Bytes)
    | Flush(file: FileId, writes: nat)
    | Evict(max: nat)
    | Truncate(file: FileId, size: nat)

  /** The same operation on plain byte arrays. */
  function PlainStep(files: Files, op: Op): Files {
    match op
    case Read(_, _, _) => files
    case Write(f, offset, data) => if f in files then files[f := Overlay(files[f], offset, data)] else files
    case Flush(_, _) => files
    case Evict(_) => files
    case Truncate(f, n) => if f in files then files[f := Resize(files[f], n)] else files
  }

  function PlainOutput(files: Files, op: Op): Bytes {
    if op.Read? && op.file in files then Slice(files[op.file], op.offset, op.n) else []
  }

  function PlainRun(files: Files, ops: seq<Op>): Files {
    if ops == [] then files else PlainStep(PlainRun(files, ops[..|ops| - 1]), ops[|ops| - 1])
  }

  lemma RunNothing(files: Files, ops: seq<Op>)
    ensures PlainRun(files, ops[..0]) == files
  {
  }

  lemma RunNext(files: Files, ops: seq<Op>, n: nat)
    requires n < |ops|
    ensures PlainRun(files, ops[..n + 1]) == PlainStep(PlainRun(files, ops[..n]), ops[n])
  {
    assert ops[..n + 1][..n] == ops[..n];
  }

  function Clean(entries: Entries): set<PageKey> {
    set k | k in entries && !entries[k].dirty
  }

  /** Part-way through an eviction: `gone` went first because it was oldest, `clean` is what is left to choose from. */
  ghost predicate Evicting(was: Entries, freeWas: set<nat>, entries: Entries, free: set<nat>, clean: set<PageKey>,
                           gone: set<PageKey>) {
    && clean !! gone && clean + gone == Clean(was) && clean == Clean(entries)
    && Removed(was, freeWas, gone, entries, free)
    && forall k, k' :: k in gone && k' in clean ==> was[k].lru <= was[k'].lru
  }

  lemma EvictStart(entries: Entries, free: set<nat>)
    ensures Evicting(entries, free, entries, free, Clean(entries), {})
  {
    assert entries - {} == entries;
  }

  lemma EvictNext(was: Entries, freeWas: set<nat>, entries: Entries, free: set<nat>, clean: set<PageKey>,
                  gone: set<PageKey>, k: PageKey)
    requires Evicting(was, freeWas, entries, free, clean, gone) && k in clean && clean <= entries.Keys
    requires forall k' :: k' in clean ==> entries[k].lru <= entries[k'].lru
    ensures Evicting(was, freeWas, entries - {k}, free + {entries[k].frame}, clean - {k}, gone + {k})
      && |gone + {k}| == |gone| + 1
  {
    RemoveNext(was, freeWas, gone, entries, free, k);
    CleanLess(entries, k);
    forall k' | k' in clean ensures entries[k'] == was[k'] {
    }
    assert clean - {k} + (gone + {k}) == clean + gone;
  }

  lemma SomeLeft(was: Entries, freeWas: set<nat>, entries: Entries, free: set<nat>, clean: set<PageKey>,
                 gone: set<PageKey>)
    requires Evicting(was, freeWas, entries, free, clean, gone) && |gone| < |Clean(was)|
    ensures clean != {} && clean <= entries.Keys && forall k :: k in clean ==> !entries[k].dirty
  {
    assert |clean + gone| == |clean| + |gone|;
  }

  lemma EvictEnd(was: Entries, freeWas: set<nat>, entries: Entries, free: set<nat>, clean: set<PageKey>,
                 gone: set<PageKey>)
    requires Evicting(was, freeWas, entries, free, clean, gone)
    ensures Removed(was, freeWas, gone, entries, free) && gone <= Clean(was)
    ensures forall k, k' :: k in gone && k' in Clean(entries) ==>
      k in was && k' in entries && was[k].lru <= entries[k'].lru
  {
  }

  lemma CleanLess(entries: Entries, k: PageKey)
    ensures Clean(entries - {k}) == Clean(entries) - {k}
  {
  }

  lemma EvictSizes(entries: Entries, sizes: map<FileId, nat>, files: Files, disk: Files, k: PageKey)
    requires SizesOk(entries, sizes, files, disk)
    ensures SizesOk(entries - {k}, sizes, files, disk)
  {
    forall k' | IsDirty(entries - {k}, k') ensures k'.file in sizes {
      assert IsDirty(entries, k');
    }
  }

  lemma DroppedFrames(entries: Entries, mem: Frames, free: set<nat>, files: Files, disk: Files, gone: set<PageKey>,
                      entries': Entries, free': set<nat>)
    requires Consistent(entries, mem, free, files, disk) && Removed(entries, free, gone, entries', free')
    ensures FramesOk(entries', mem, free')
  {
    RemovedFrames(entries, mem, free, gone, entries', free');
  }

  lemma ForgetSizes(entries: Entries, sizes: map<FileId, nat>, files: Files, disk: Files, file: FileId,
                    gone: set<PageKey>, entries': Entries)
    requires SizesOk(entries, sizes, files, disk) && file in disk && file in files
    requires entries' == entries - gone && gone == set k | k in entries && k.file == file
    ensures SizesOk(entries', sizes - {file}, files[file := disk[file]], disk)
  {
    forall k | IsDirty(entries', k) ensures k.file in sizes - {file} {
      assert IsDirty(entries, k) && k !in gone;
    }
  }

  /** The disk file as `flush_inode` starts with it. */
  function Trimmed(d: Bytes, sizes: map<FileId, nat>, file: FileId): Bytes {
    if file in sizes then Resize(d, sizes[file]) else d
  }

  ghost predicate Ascending(pages: seq<nat>) {
    forall i, j :: 0 <= i < j < |pages| ==> pages[i] < pages[j]
  }

  lemma DirtyPages(entries: Entries, file: FileId)
    ensures var left := set k | k in entries && k.file == file && entries[k].dirty :: k.page;
      forall p: nat :: p in left <==> IsDirty(entries, PageKey(file, p))
  {
    var left := set k | k in entries && k.file == file && entries[k].dirty :: k.page;
    forall p: nat | IsDirty(entries, PageKey(file, p)) ensures p in left {
      assert PageKey(file, p).page == p;
    }
  }

  /** `pages` of `v` written to `d` one at a time. */
  ghost function Each(d: Bytes, v: Bytes, pages: seq<nat>): Bytes {
    WriteEach(d, pages, PagesOf(v, pages))
  }

  lemma EachNext(d: Bytes, v: Bytes, pages: seq<nat>, i: nat)
    requires i < |pages|
    ensures Each(d, v, pages[..i + 1]) == Overlay(Each(d, v, pages[..i]), pages[i] * PAGE, PageOf(v, pages[i]))
  {
    hide PageOf, Overlay;
    assert pages[..i + 1] == pages[..i] + [pages[i]];
    assert PagesOf(v, pages[..i + 1]) == PagesOf(v, pages[..i]) + [PageOf(v, pages[i])];
    WriteEachNext(d, pages[..i], PagesOf(v, pages[..i]), pages[i], PageOf(v, pages[i]));
  }

  /** The frames of `pages` hold those pages of `v`. */
  ghost predicate Holding(entries: Entries, mem: Frames, file: FileId, v: Bytes, pages: seq<nat>) {
    && AllCached(entries, file, pages)
    && forall i :: 0 <= i < |pages| ==>
      var f := entries[PageKey(file, pages[i])].frame; f in mem && mem[f] == PageOf(v, pages[i])
  }

  lemma FlushStart(entries: Entries, mem: Frames, free: set<nat>, files: Files, disk: Files, file: FileId,
                   pages: seq<nat>)
    requires Consistent(entries, mem, free, files, disk) && file in disk && file in files
      && AllCached(entries, file, pages)
    ensures Cleaned(entries, entries, file, pages[..0]) && Holding(entries, mem, file, files[file], pages)
    ensures disk == disk[file := Each(disk[file], files[file], pages[..0])]
  {
  }

  lemma CleanedHolding(entries: Entries, entries': Entries, mem: Frames, file: FileId, v: Bytes, pages: seq<nat>,
                       i: nat)
    requires i <= |pages| && Cleaned(entries, entries', file, pages[..i]) && Holding(entries, mem, file, v, pages)
    ensures Holding(entries', mem, file, v, pages) && AllCached(entries', file, pages)
  {
    hide PageOf;
  }

  lemma CleanNext(entries: Entries, entries': Entries, file: FileId, pages: seq<nat>, i: nat)
    requires i < |pages| && Cleaned(entries, entries', file, pages[..i]) && AllCached(entries', file, pages)
    ensures var k := PageKey(file, pages[i]);
      Cleaned(entries, entries'[k := entries'[k].(dirty := false)], file, pages[..i + 1])
  {
    assert pages[..i + 1] == pages[..i] + [pages[i]];
  }

  lemma TrimKeepsSizes(entries: Entries, sizes: map<FileId, nat>, files: Files, disk: Files, file: FileId)
    requires SizesOk(entries, sizes, files, disk) && file in sizes && file in files && file in disk
    ensures |Resize(disk[file], sizes[file])| == sizes[file] == |files[file]|
    ensures SizesOk(entries, sizes, files, disk[file := Resize(disk[file], sizes[file])])
  {
  }

  /** Stopping after any number of batches leaves a valid cache. */
  lemma FlushedSome(entries: Entries, entries': Entries, mem: Frames, free: set<nat>, sizes: map<FileId, nat>,
                    files: Files,
                    disk: Files, disk': Files, file: FileId, pages: seq<nat>, done: nat)
    requires Consistent(entries, mem, free, files, disk) && SizesOk(entries, sizes, files, disk) && file in files
      && file in disk
    requires done <= |pages| && AllCached(entries, file, pages) && Cleaned(entries, entries', file, pages[..done])
    requires forall i :: 0 <= i < |pages| ==> IsDirty(entries, PageKey(file, pages[i]))
    requires disk' == disk[file := Each(disk[file], files[file], pages[..done])]
    ensures Consistent(entries', mem, free, files, disk') && SizesOk(entries', sizes, files, disk')
  {
    hide PageOf, ByteAt, Overlay;
    assert done > 0 ==> IsDirty(entries, PageKey(file, pages[0]));
    WriteEachKeeps(entries, mem, free, files, disk, file, pages[..done]);
    CleanedKeeps(entries, entries', mem, free, files, disk', file, pages[..done]);
  }

  lemma FlushedAll(entries: Entries, entries': Entries, mem: Frames, free: set<nat>, files: Files, disk: Files,
                   disk': Files, file: FileId, pages: seq<nat>)
    requires Consistent(entries', mem, free, files, disk') && file in files && file in disk
      && |files[file]| <= |disk[file]|
    requires Cleaned(entries, entries', file, pages) && forall p: nat :: IsDirty(entries, PageKey(file, p)) ==>
      p in pages
    requires disk' == disk[file := Each(disk[file], files[file], pages)]
    ensures forall p: nat :: !IsDirty(entries', PageKey(file, p))
    ensures |files[file]| <= |disk'[file]| && disk'[file][..|files[file]|] == files[file]
  {
    hide PageOf, ByteAt, Overlay;
    WriteEachGrows(disk[file], pages, PagesOf(files[file], pages));
    CleanMeansDurable(entries', mem, free, files, disk', file);
  }

  method CopyInto(buf: array<bv8>, at: nat, chunk: Bytes)
    requires at + |chunk| <= buf.Length
    modifies buf
    ensures buf[..] == Splice(old(buf[..]), at, chunk)
  {
    for i := 0 to |chunk|
      invariant buf[..at] == old(buf[..at]) && buf[at..at + i] == chunk[..i] && buf[at + i..] == old(buf[at + i..])
    {
      buf[at + i] := chunk[i];
    }
  }

  /** A read gives what is left of the file, at most what was asked. */
  lemma SliceFits(v: Bytes, offset: nat, n: nat)
    ensures offset < |v| ==> |Slice(v, offset, n)| == Min(n, |v| - offset)
    ensures offset < |v| ==> Slice(v, offset, Min(n, |v| - offset)) == Slice(v, offset, n)
    ensures offset >= |v| || n == 0 ==> Slice(v, offset, n) == []
  {
  }

  /** The first `n` bytes of `v` are in the buffer, which is as it was beyond them. */
  ghost predicate Filled(b: Bytes, v: Bytes, was: Bytes, n: nat) {
    n <= |v| <= |b| == |was| && b[..n] == v[..n] && b[n..] == was[n..]
  }

  lemma FilledStart(v: Bytes, was: Bytes)
    requires |v| <= |was|
    ensures Filled(was, v, was, 0)
  {
  }

  lemma FilledMore(b: Bytes, b': Bytes, v: Bytes, was: Bytes, n: nat, chunk: Bytes)
    requires Filled(b, v, was, n) && n + |chunk| <= |v| && v[..n + |chunk|] == v[..n] + chunk
      && b' == Splice(b, n, chunk)
    ensures Filled(b', v, was, n + |chunk|)
  {
    assert b'[..n + |chunk|] == b[..n] + chunk;
    assert b'[n + |chunk|..] == b[n..][|chunk|..] == was[n..][|chunk|..];
  }

  lemma FilledEnd(b: Bytes, v: Bytes, was: Bytes)
    requires Filled(b, v, was, |v|)
    ensures b == v + was[|v|..]
  {
    assert b == b[..|v|] + b[|v|..];
  }

  /** The next chunk of the bytes asked for. */
  lemma ChunkOf(v: Bytes, offset: nat, n: nat, done: nat, m: nat)
    requires offset + n <= |v| && done + m <= n
    ensures var s := Slice(v, offset, n); |s| == n && s[..done + m] == s[..done] + v[offset + done..offset + done + m]
  {
  }

  lemma CacheSizeKeeps(entries: Entries, sizes: map<FileId, nat>, files: Files, disk: Files, file: FileId)
    requires SizesOk(entries, sizes, files, disk) && file in files
    ensures SizesOk(entries, sizes[file := |files[file]|], files, disk)
  {
  }

  lemma GrownSizes(entries: Entries, entries': Entries, sizes: map<FileId, nat>, files: Files, disk: Files,
                   file: FileId)
    requires SizesOk(entries, sizes, files, disk) && Grown(entries, entries', file)
    ensures SizesOk(entries', sizes, files, disk)
  {
    forall k | IsDirty(entries', k) ensures k.file in sizes {
      assert IsDirty(entries, k);
    }
  }

  lemma SpliceCovers(x: Bytes, y: Bytes, at: nat, b: Bytes)
    requires |x| == |y| && at + |b| <= |x| && (at > 0 || |b| < |x| ==> x == y)
    ensures Splice(x, at, b) == Splice(y, at, b)
  {
  }

  lemma OverlayNothing(v: Bytes, offset: nat, buf: Bytes)
    ensures Overlay(v, offset, buf[..0]) == v
  {
  }

  /** All is ready for `b` to be copied over page `k`: it is dirty, and right outside the copied part. */
  ghost predicate Writable(entries: Entries, mem: Frames, free: set<nat>, files: Files, disk: Files, k: PageKey,
                           at: nat, b: Bytes)
    requires at + |b| <= PAGE
  {
    && FramesOk(entries, mem, free) && k in entries && k.file in files && entries[k].dirty
    && Cached(entries - {k}, mem, files) && Backed(entries, files, disk) && Tails(files, disk)
    && Splice(mem[entries[k].frame], at, b) == Splice(PageOf(files[k.file], k.page), at, b)
  }

  lemma MarkKeeps(entries: Entries, mem: Frames, free: set<nat>, files: Files, disk: Files, k: PageKey, e: PageEntry,
                  at: nat, b: Bytes)
    requires Consistent(entries, mem, free, files, disk) && k in entries && e.frame == entries[k].frame && e.dirty
      && at + |b| <= PAGE
    ensures Writable(entries[k := e], mem, free, files, disk, k, at, b)
  {
    hide PageOf, ByteAt;
    forall f, p: nat | f in files && !IsDirty(entries[k := e], PageKey(f, p))
      ensures PageOf(disk[f], p) == PageOf(files[f], p)
    {
      assert !IsDirty(entries, PageKey(f, p));
    }
  }

  /** Only pages of `file` became dirty. */
  ghost predicate DirtyIn(entries: Entries, entries': Entries, file: FileId) {
    forall k :: IsDirty(entries', k) ==> IsDirty(entries, k) || k.file == file
  }

  lemma TailsAt(entries: Entries, mem: Frames, free: set<nat>, files: Files, disk: Files, file: FileId)
    requires Consistent(entries, mem, free, files, disk) && file in files
    ensures forall i: nat :: |files[file]| <= i ==> ByteAt(disk[file], i) == 0
  {
  }

  lemma SizesAfterWrite(entries: Entries, entries': Entries, sizes: map<FileId, nat>, files: Files, files': Files,
                        disk: Files, file: FileId)
    requires SizesOk(entries, sizes, files, disk) && DirtyIn(entries, entries', file) && file in files
    requires file in files' && files' == files[file := files'[file]]
    ensures SizesOk(entries', sizes[file := |files'[file]|], files', disk)
  {
  }

  lemma SizesAfterFailure(entries: Entries, entries': Entries, sizes: map<FileId, nat>, files: Files, files': Files,
                          disk: Files,
                          file: FileId, offset: nat, b: Bytes)
    requires SizesOk(entries, sizes, files, disk) && DirtyIn(entries, entries', file) && file in files && file in disk
    requires files' == files[file := Overlay(files[file], offset, b)]
    requires b == [] ==> forall k :: IsDirty(entries', k) ==> IsDirty(entries, k)
    requires b != [] ==> IsDirty(entries', PageKey(file, offset / PAGE))
    ensures SizesOk(entries', sizes, files', disk) <==> b == [] || (offset + |b| <= |files[file]| && file in sizes)
  {
    OverlayByte(files[file], offset, b, 0);
    hide Overlay, ByteAt;
    var w := Overlay(files[file], offset, b);
    if b != [] {
      assert IsDirty(entries', PageKey(file, offset / PAGE));
      assert |files'[file]| == Max(|files[file]|, offset + |b|);
    }
  }

  ghost function Held(batch: seq<nat>): set<nat> { set f | f in batch }

  lemma HeldNext(batch: seq<nat>, i: nat, free: set<nat>)
    requires i < |batch| && free !! Held(batch[i..]) && forall x, y :: 0 <= x < y < |batch| ==> batch[x] != batch[y]
    ensures batch[i] in Held(batch[i..]) && free !! Held(batch[i + 1..])
    ensures free + Held(batch[i..]) - {batch[i]} == free + Held(batch[i + 1..])
  {
    assert batch[i..] == [batch[i]] + batch[i + 1..];
  }

  lemma NoneHeld(batch: seq<nat>, free: set<nat>)
    requires batch == []
    ensures free + Held(batch) == free
  {
  }

  /** Clean pages of `file` were added and nothing else happened. */
  ghost predicate Grown(entries: Entries, entries': Entries, file: FileId) {
    && (forall k :: k in entries ==> k in entries' && entries'[k] == entries[k])
    && (forall k :: k in entries' && k !in entries ==> !entries'[k].dirty && k.file == file)
  }

  lemma FetchedPage(entries: Entries, mem: Frames, free: set<nat>, files: Files, disk: Files, k: PageKey, page: nat,
                    n: nat, i: nat)
    requires Consistent(entries, mem, free, files, disk) && k.file in files && k.page == page + i && k !in entries
    requires i < n && page * PAGE < |files[k.file]|
    ensures BatchPage(Slice(disk[k.file], page * PAGE, Min(n * PAGE, |files[k.file]| - page * PAGE)), i) ==
      PageOf(files[k.file], k.page)
  {
    hide PageOf, BatchPage, Slice;
    BatchPageIsPage(disk[k.file], files[k.file], page, n, i);
    assert !IsDirty(entries, k);
  }

  /** How much of the `i`-th page came from the disk. */
  function ValidIn(got: Bytes, i: nat): nat {
    if i * PAGE < |got| then Min(PAGE, |got| - i * PAGE) else 0
  }

  /** The `i`-th page of what was read, padded with zeros. */
  function BatchPage(got: Bytes, i: nat): (page: Bytes)
    ensures |page| == PAGE
  {
    var from := i * PAGE;
    if from < |got| then
      var piece := got[from..Min(from + PAGE, |got|)];
      piece + Zeros(PAGE - |piece|)
    else Zeros(PAGE)
  }

  lemma BatchPageIsPage(d: Bytes, v: Bytes, page: nat, n: nat, i: nat)
    requires i < n && page * PAGE < |v| && (forall j: nat :: |v| <= j ==> ByteAt(d, j) == 0)
    ensures BatchPage(Slice(d, page * PAGE, Min(n * PAGE, |v| - page * PAGE)), i) == PageOf(d, page + i)
  {
    var s, t := page * PAGE, i * PAGE;
    assert (page + i) * PAGE == s + t;
    MulMono(i + 1, n, PAGE);
    var got := Slice(d, s, Min(n * PAGE, |v| - s));
    var x, y := BatchPage(got, i), PageOf(d, page + i);
    forall j | 0 <= j < PAGE ensures x[j] == y[j] {
      assert y[j] == ByteAt(d, s + t + j);
      assert x[j] == if t + j < |got| then got[t + j] else 0;
    }
  }

  lemma InsideFile(p: nat, size: nat)
    requires p < (size + PAGE - 1) / PAGE
    ensures p * PAGE < size
  {
  }
}
