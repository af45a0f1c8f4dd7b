/** Flat byte files, and their division into zero-padded 4 KiB pages. */
module PageFile {
  import opened Arithmetic

  type Bytes = seq<bv8>

  const PAGE: nat := 4096

  function Zeros(n: nat): Bytes { seq(n, _ => 0) }

  /** The byte at `i`, zero past the end. */
  function ByteAt(d: Bytes, i: nat): bv8 { if i < |d| then d[i] else 0 }

  /** Page `p`, padded with zeros. */
  function PageOf(d: Bytes, p: nat): (page: Bytes)
    ensures |page| == PAGE
  {
    seq(PAGE, j requires 0 <= j => ByteAt(d, p * PAGE + j))
  }

  function Resize(d: Bytes, n: nat): Bytes { if n <= |d| then d[..n] else d + Zeros(n - |d|) }

  /** A plain write: the gap before `off`, if any, becomes zeros. */
  function Overlay(d: Bytes, off: nat, b: Bytes): Bytes {
    if b == [] then d else
      var e := if |d| < off then Resize(d, off) else d;
      e[..off] + b + (if off + |b| < |e| then e[off + |b|..] else [])
  }

  /** A plain read of at most `n` bytes. */
  function Slice(d: Bytes, off: nat, n: nat): Bytes {
    if |d| <= off then [] else if off + n <= |d| then d[off..off + n] else d[off..]
  }

  function Max(a: nat, b: nat): nat { if a < b then b else a }

  function Min(a: nat, b: nat): nat { if a < b then a else b }

  lemma OverlayByte(d: Bytes, off: nat, b: Bytes, i: nat)
    ensures ByteAt(Overlay(d, off, b), i) == if off <= i < off + |b| then b[i - off] else ByteAt(d, i)
    ensures b != [] ==> |Overlay(d, off, b)| == Max(|d|, off + |b|)
  {
  }

  lemma ResizeByte(d: Bytes, n: nat, i: nat)
    ensures ByteAt(Resize(d, n), i) == if i < n then ByteAt(d, i) else 0
    ensures |Resize(d, n)| == n
  {
  }

  /** Files of the same length with the same bytes are the same. */
  lemma SameBytes(c: Bytes, d: Bytes)
    requires |c| == |d| && forall i: nat :: ByteAt(c, i) == ByteAt(d, i)
    ensures c == d
  {
    forall i | 0 <= i < |c| ensures c[i] == d[i] {
      assert ByteAt(c, i) == ByteAt(d, i);
    }
  }

  /** Writing two adjacent pieces is writing them together. */
  lemma OverlayTwice(d: Bytes, off: nat, a: Bytes, b: Bytes)
    ensures Overlay(Overlay(d, off, a), off + |a|, b) == Overlay(d, off, a + b)
  {
    hide ByteAt;
    if a == [] {
      assert a + b == b;
    } else if b == [] {
      assert a + b == a;
    } else {
      var c, e := Overlay(Overlay(d, off, a), off + |a|, b), Overlay(d, off, a + b);
      forall i: nat ensures ByteAt(c, i) == ByteAt(e, i) {
        OverlayByte(Overlay(d, off, a), off + |a|, b, i);
        OverlayByte(d, off, a, i);
        OverlayByte(d, off, a + b, i);
      }
      OverlayByte(Overlay(d, off, a), off + |a|, b, 0);
      OverlayByte(d, off, a, 0);
      OverlayByte(d, off, a + b, 0);
      SameBytes(c, e);
    }
  }

  /** Splicing `b` into a page at `at`. */
  function Splice(page: Bytes, at: nat, b: Bytes): Bytes
    requires at + |b| <= |page|
  {
    page[..at] + b + page[at + |b|..]
  }

  lemma PagesApart(p: nat, q: nat)
    requires p != q
    ensures (p + 1) * PAGE <= q * PAGE || (q + 1) * PAGE <= p * PAGE
  {
    if q < p { MulMono(q + 1, p, PAGE); } else { MulMono(p + 1, q, PAGE); }
  }

  /** A write inside one page splices that page and leaves the others alone. */
  lemma OverlayPage(d: Bytes, p: nat, at: nat, b: Bytes, q: nat)
    requires at + |b| <= PAGE
    ensures PageOf(Overlay(d, p * PAGE + at, b), q) == if q == p then Splice(PageOf(d, p), at, b) else PageOf(d, q)
  {
    var c := Overlay(d, p * PAGE + at, b);
    if q == p {
      OverlayHere(d, p, at, b);
    } else {
      PagesApart(p, q);
      var s, s' := p * PAGE, q * PAGE;
      hide Overlay;
      forall j | 0 <= j < PAGE ensures PageOf(c, q)[j] == PageOf(d, q)[j] {
        OverlayByte(d, s + at, b, s' + j);
      }
      assert PageOf(c, q) == PageOf(d, q);
    }
  }

  lemma OverlayHere(d: Bytes, p: nat, at: nat, b: Bytes)
    requires at + |b| <= PAGE
    ensures PageOf(Overlay(d, p * PAGE + at, b), p) == Splice(PageOf(d, p), at, b)
  {
    var s := p * PAGE;
    var c, e := Overlay(d, s + at, b), Splice(PageOf(d, p), at, b);
    hide Overlay;
    forall j | 0 <= j < PAGE ensures PageOf(c, p)[j] == e[j] {
      OverlayByte(d, s + at, b, s + j);
    }
    assert PageOf(c, p) == e;
  }

  /** Bytes read through the page are the file's bytes. */
  lemma PageSlice(d: Bytes, p: nat, at: nat, n: nat)
    requires at + n <= PAGE && p * PAGE + at + n <= |d|
    ensures PageOf(d, p)[at..at + n] == d[p * PAGE + at..p * PAGE + at + n]
  {
    var s := p * PAGE;
    var x, y := PageOf(d, p)[at..at + n], d[s + at..s + at + n];
    forall j | 0 <= j < n ensures x[j] == y[j] {
      assert PageOf(d, p)[at + j] == ByteAt(d, s + (at + j));
    }
  }

  /** Where all bytes from `n` on are zero, cutting or padding at `n` changes no page. */
  lemma ResizeSamePages(d: Bytes, n: nat, p: nat)
    requires forall i: nat :: n <= i ==> ByteAt(d, i) == 0
    ensures PageOf(Resize(d, n), p) == PageOf(d, p)
  {
    forall j | 0 <= j < PAGE ensures PageOf(Resize(d, n), p)[j] == PageOf(d, p)[j] {
      ResizeByte(d, n, p * PAGE + j);
    }
    assert PageOf(Resize(d, n), p) == PageOf(d, p);
  }

  /** What resizing does to each page: kept before the cut, zero after it, and cut at the boundary. */
  lemma ResizePages(d: Bytes, n: nat, p: nat)
    ensures (p + 1) * PAGE <= n ==> PageOf(Resize(d, n), p) == PageOf(d, p)
    ensures n <= p * PAGE ==> PageOf(Resize(d, n), p) == Zeros(PAGE)
    ensures p * PAGE < n < (p + 1) * PAGE ==>
      PageOf(Resize(d, n), p) == PageOf(d, p)[..n - p * PAGE] + Zeros(PAGE - (n - p * PAGE))
  {
    var c := Resize(d, n);
    forall j: nat | j < PAGE ensures PageOf(c, p)[j] == if p * PAGE + j < n then PageOf(d, p)[j] else 0 {
      ResizeByte(d, n, p * PAGE + j);
    }
    if (p + 1) * PAGE <= n {
      assert PageOf(c, p) == PageOf(d, p);
    } else if n <= p * PAGE {
      assert PageOf(c, p) == Zeros(PAGE);
    } else {
      assert PageOf(c, p) == PageOf(d, p)[..n - p * PAGE] + Zeros(PAGE - (n - p * PAGE));
    }
  }

  /** A page read from offset `p * PAGE` and padded with zeros. */
  lemma ReadPage(d: Bytes, p: nat, n: nat)
    requires n >= PAGE || forall i: nat :: p * PAGE + n <= i ==> ByteAt(d, i) == 0
    ensures var got := Slice(d, p * PAGE, Min(n, PAGE)); |got| <= PAGE && got + Zeros(PAGE - |got|) == PageOf(d, p)
  {
    var s := p * PAGE;
    var got := Slice(d, s, Min(n, PAGE));
    forall j | 0 <= j < PAGE ensures (got + Zeros(PAGE - |got|))[j] == PageOf(d, p)[j] {
      assert PageOf(d, p)[j] == ByteAt(d, s + j);
    }
    assert got + Zeros(PAGE - |got|) == PageOf(d, p);
  }
}
