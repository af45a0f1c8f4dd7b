/** The `newc` CPIO printer and parser of the initramfs (rust/kernel/src/fs.rs). */
module Cpio {

  type Byte = n: nat | n < 256
  type Bytes = seq<Byte>

  const U32: nat := 0x1_0000_0000
  const HEADER_SIZE: nat := 110

  datatype FsError = Truncated | InvalidMagic | InvalidHeader | InvalidEntry | MissingTrailer | NotFound

  datatype Result<+T> = Ok(value: T) | Err(error: FsError)

  datatype Entry = Entry(name: Bytes, data: Bytes, mode: nat)

  const MAGIC: Bytes := [48, 55, 48, 55, 48, 49]
  const TRAILER: Bytes := [84, 82, 65, 73, 76, 69, 82, 33, 33, 33]

  function Align4(n: nat): (r: nat)
    ensures n <= r < n + 4 && r % 4 == 0
  {
    n + (4 - n % 4) % 4
  }

  function Zeros(n: nat): Bytes { seq(n, _ => 0) }

  // ---------------------------------------------------------------- eight hexadecimal digits

  function Digit(d: nat): Byte
    requires d < 16
  {
    if d < 10 then 48 + d else 97 + (d - 10)
  }

  function DigitValue(b: Byte): Result<nat> {
    if 48 <= b <= 57 then Ok(b - 48)
    else if 97 <= b <= 102 then Ok(b - 97 + 10)
    else if 65 <= b <= 70 then Ok(b - 65 + 10)
    else Err(InvalidHeader)
  }

  /** The `n` lowest digits of `v`, highest first. */
  function Hex(v: nat, n: nat): (s: Bytes)
    ensures |s| == n
  {
    if n == 0 then [] else Hex(v / 16, n - 1) + [Digit(v % 16)]
  }

  /** The value of a digit string, or an error at the first byte that is none or makes it too large. */
  function Value(s: Bytes): Result<nat> {
    if s == [] then Ok(0) else
      var high := Value(s[..|s| - 1]);
      if high.Err? then high else
        var d := DigitValue(s[|s| - 1]);
        if d.Err? then d
        else if high.value * 16 + d.value >= U32 then Err(InvalidHeader)
        else Ok(high.value * 16 + d.value)
  }

  function Power16(n: nat): nat { if n == 0 then 1 else 16 * Power16(n - 1) }

  lemma {:induction false} ValueOfHex(v: nat, n: nat)
    requires v < Power16(n) && v < U32
    ensures Value(Hex(v, n)) == Ok(v)
    decreases n
  {
    if n > 0 {
      var s := Hex(v, n);
      ValueOfHex(v / 16, n - 1);
      assert s[..n - 1] == Hex(v / 16, n - 1);
      assert DigitValue(Digit(v % 16)) == Ok(v % 16);
    }
  }

  lemma ValueOfHex8(v: nat)
    requires v < U32
    ensures Value(Hex(v, 8)) == Ok(v)
  {
    assert Power16(8) == U32 by {
      assert Power16(4) == 0x1_0000;
      assert Power16(8) == 0x1_0000 * Power16(4);
    }
    ValueOfHex(v, 8);
  }

  // ---------------------------------------------------------------- printing

  /** Magic, inode 1, the mode, owner and group 0, one link, time 0. */
  function First(mode: nat): (s: Bytes)
    ensures |s| == 54
  {
    MAGIC + Hex(1, 8) + Hex(mode, 8) + (Hex(0, 8) + Hex(0, 8) + Hex(1, 8) + Hex(0, 8))
  }

  /** The size of the data and four zero device fields. */
  function Second(dataSize: nat): (s: Bytes)
    ensures |s| == 40
  {
    Hex(dataSize, 8) + (Hex(0, 8) + Hex(0, 8) + Hex(0, 8) + Hex(0, 8))
  }

  /** The size of the name with its NUL, and a zero checksum. */
  function Third(nameSize: nat): (s: Bytes)
    ensures |s| == 16
  {
    Hex(nameSize, 8) + Hex(0, 8)
  }

  function Header(mode: nat, dataSize: nat, nameSize: nat): (h: Bytes)
    ensures |h| == HEADER_SIZE
  {
    First(mode) + Second(dataSize) + Third(nameSize)
  }

  function NameEnd(e: Entry): nat { HEADER_SIZE + |e.name| + 1 }

  function DataEnd(e: Entry): nat { Align4(NameEnd(e)) + |e.data| }

  function Size(e: Entry): nat { Align4(DataEnd(e)) }

  function Print(e: Entry): (s: Bytes)
    ensures |s| == Size(e)
  {
    Header(e.mode, |e.data|, |e.name| + 1) + e.name + [0] + Zeros(Align4(NameEnd(e)) - NameEnd(e)) + e.data +
      Zeros(Size(e) - DataEnd(e))
  }

  const TRAILER_ENTRY := Entry(TRAILER, [], 0)

  /** An archive: the entries, then the trailer. */
  function Archive(es: seq<Entry>): Bytes {
    if es == [] then Print(TRAILER_ENTRY) else Print(es[0]) + Archive(es[1..])
  }

  // ---------------------------------------------------------------- parsing

  datatype Step = Got(e: Entry, next: nat) | End(next: nat) | Bad(error: FsError)

  /** `archive.get(from..to)`. */
  function Get(s: Bytes, from: nat, to: nat): Result<Bytes> {
    if from <= to <= |s| then Ok(s[from..to]) else Err(Truncated)
  }

  function Field(header: Bytes, at: nat): Result<nat>
    requires at + 8 <= |header|
  {
    Value(header[at..at + 8])
  }

  /** What is at `offset`: an entry, the trailer, or an error. */
  function ParseAt(s: Bytes, offset: nat): Step {
    var header := Get(s, offset, offset + HEADER_SIZE);
    if header.Err? then Bad(header.error)
    else if header.value[..6] != MAGIC then Bad(if offset == 0 then InvalidMagic else InvalidHeader)
    else
      var mode := Field(header.value, 14);
      if mode.Err? then Bad(mode.error) else
        var dataSize := Field(header.value, 54);
        if dataSize.Err? then Bad(dataSize.error) else
          var nameSize := Field(header.value, 94);
          if nameSize.Err? then Bad(nameSize.error)
          else if nameSize.value == 0 then Bad(InvalidEntry)
          else ParseBody(s, offset + HEADER_SIZE, mode.value, dataSize.value, nameSize.value)
  }

  function ParseBody(s: Bytes, start: nat, mode: nat, dataSize: nat, nameSize: nat): Step
    requires nameSize > 0
  {
    var named := Get(s, start, start + nameSize);
    if named.Err? then Bad(named.error)
    else if named.value[nameSize - 1] != 0 then Bad(InvalidEntry)
    else
      var name := named.value[..nameSize - 1];
      var from := Align4(start + nameSize);
      var data := Get(s, from, from + dataSize);
      if data.Err? then Bad(data.error)
      else if name == TRAILER then End(Align4(from + dataSize))
      else if name == [] || 0 in name then Bad(InvalidEntry)
      else Got(Entry(name, data.value, mode), Align4(from + dataSize))
  }

  /** All entries from `offset` on, up to the trailer. */
  function ParseAll(s: Bytes, offset: nat): Result<seq<Entry>>
    decreases if offset <= |s| then |s| - offset + 1 else 0
  {
    match ParseAt(s, offset)
    case Bad(e) => Err(e)
    case End(_) => Ok([])
    case Got(e, next) =>
      var rest := ParseAll(s, next);
      if rest.Err? then rest else Ok([e] + rest.value)
  }

  // ---------------------------------------------------------------- parsing what was printed, or a part of it

  /** From `off` on, `s` is a prefix of `t` or begins with it. */
  ghost predicate Agrees(s: Bytes, off: nat, t: Bytes) {
    forall i :: 0 <= i < |t| && off + i < |s| ==> s[off + i] == t[i]
  }

  ghost predicate Printable(e: Entry) {
    e.name != [] && 0 !in e.name && e.name != TRAILER && |e.name| + 1 < U32 && |e.data| < U32 && e.mode < U32
  }

  lemma HeaderFields(mode: nat, dataSize: nat, nameSize: nat)
    ensures var h := Header(mode, dataSize, nameSize);
      h[..6] == MAGIC && h[14..22] == Hex(mode, 8) && h[54..62] == Hex(dataSize, 8) && h[94..102] == Hex(nameSize, 8)
  {
    hide Hex;
    var a, b, c := First(mode), Second(dataSize), Third(nameSize);
    assert a[..6] == MAGIC && a[14..22] == Hex(mode, 8) && b[..8] == Hex(dataSize, 8) && c[..8] == Hex(nameSize, 8);
    hide First, Second, Third;
    SliceOf(a + b, c, 0, 6);
    SliceOf(a, b, 0, 6);
    SliceOf(a + b, c, 14, 22);
    SliceOf(a, b, 14, 22);
    SliceOf(a + b, c, 54, 62);
    SliceOf(a, b, 54, 62);
    SliceOf(a + b, c, 94, 102);
  }

  lemma SliceOf(a: Bytes, b: Bytes, i: nat, j: nat)
    requires i <= j <= |a + b|
    ensures j <= |a| ==> (a + b)[i..j] == a[i..j]
    ensures |a| <= i ==> (a + b)[i..j] == b[i - |a|..j - |a|]
  {
  }

  lemma AlignShift(off: nat, n: nat)
    requires off % 4 == 0
    ensures Align4(off + n) == off + Align4(n)
  {
  }

  /** Where the parts of a printed entry lie. */
  lemma PrintParts(e: Entry)
    ensures Print(e)[..HEADER_SIZE] == Header(e.mode, |e.data|, |e.name| + 1)
    ensures Print(e)[HEADER_SIZE..NameEnd(e)] == e.name + [0]
    ensures Print(e)[Align4(NameEnd(e))..DataEnd(e)] == e.data
  {
    hide Header;
    var h := Header(e.mode, |e.data|, |e.name| + 1);
    var a := h + e.name + [0];
    var b := a + Zeros(Align4(NameEnd(e)) - NameEnd(e));
    assert Print(e) == b + e.data + Zeros(Size(e) - DataEnd(e));
    assert |a| == NameEnd(e) && |b| == Align4(NameEnd(e));
    assert a[HEADER_SIZE..] == e.name + [0];
  }

  lemma SlicesAgree(s: Bytes, off: nat, t: Bytes, i: nat, j: nat)
    requires Agrees(s, off, t) && i <= j <= |t| && off + j <= |s|
    ensures s[off + i..off + j] == t[i..j]
  {
    var a, b := s[off + i..off + j], t[i..j];
    forall x | 0 <= x < j - i ensures a[x] == b[x] {
      assert s[off + (i + x)] == t[i + x];
    }
  }

  /** Parsing at a printed entry gives the entry, or the trailer, if its data is all there, and else an early end. */
  lemma ParsePrinted(s: Bytes, off: nat, e: Entry)
    requires off % 4 == 0 && Agrees(s, off, Print(e)) && (Printable(e) || e == TRAILER_ENTRY)
    ensures ParseAt(s, off) ==
      if off + DataEnd(e) > |s| then Bad(Truncated) else if e == TRAILER_ENTRY then End(off + Size(e))
        else Got(e, off + Size(e))
  {
    hide Header, Hex, Value, Print;
    if off + HEADER_SIZE <= |s| {
      PrintParts(e);
      SlicesAgree(s, off, Print(e), 0, HEADER_SIZE);
      HeaderFields(e.mode, |e.data|, |e.name| + 1);
      ValueOfHex8(e.mode);
      ValueOfHex8(|e.data|);
      ValueOfHex8(|e.name| + 1);
      ParsePrintedBody(s, off, e);
      assert s[off..off + HEADER_SIZE] == Header(e.mode, |e.data|, |e.name| + 1);
    }
  }

  lemma ParsePrintedBody(s: Bytes, off: nat, e: Entry)
    requires off % 4 == 0 && Agrees(s, off, Print(e)) && (Printable(e) || e == TRAILER_ENTRY)
      && off + HEADER_SIZE <= |s|
    ensures ParseBody(s, off + HEADER_SIZE, e.mode, |e.data|, |e.name| + 1) ==
      if off + DataEnd(e) > |s| then Bad(Truncated) else if e == TRAILER_ENTRY then End(off + Size(e))
        else Got(e, off + Size(e))
  {
    hide Print, Align4, Agrees, ParseBody;
    PrintParts(e);
    var name, from, data := off + NameEnd(e), off + Align4(NameEnd(e)), off + DataEnd(e);
    AlignShift(off, NameEnd(e));
    AlignShift(off, DataEnd(e));
    if name <= |s| { SlicesAgree(s, off, Print(e), HEADER_SIZE, NameEnd(e)); }
    if data <= |s| { SlicesAgree(s, off, Print(e), Align4(NameEnd(e)), DataEnd(e)); }
    BodyAt(s, off + HEADER_SIZE, e, from, off + Size(e));
  }

  lemma BodyAt(s: Bytes, start: nat, e: Entry, from: nat, next: nat)
    requires from == Align4(start + |e.name| + 1) && next == Align4(from + |e.data|)
      && (Printable(e) || e == TRAILER_ENTRY)
    requires start + |e.name| + 1 <= |s| ==> s[start..start + |e.name| + 1] == e.name + [0]
    requires from + |e.data| <= |s| ==> s[from..from + |e.data|] == e.data
    ensures ParseBody(s, start, e.mode, |e.data|, |e.name| + 1) ==
      if from + |e.data| > |s| then Bad(Truncated) else if e == TRAILER_ENTRY then End(next) else Got(e, next)
  {
    hide Align4;
    assert (e.name + [0])[..|e.name|] == e.name;
  }

  lemma SizeFacts(e: Entry)
    ensures 0 < DataEnd(e) <= Size(e) && Size(e) % 4 == 0
  {
  }

  lemma TrailerHasNoPadding()
    ensures DataEnd(TRAILER_ENTRY) == Size(TRAILER_ENTRY)
  {
  }

  lemma ParsePast(s: Bytes, off: nat)
    requires off >= |s|
    ensures ParseAll(s, off) == Err(Truncated)
  {
  }

  lemma AgreesParts(s: Bytes, off: nat, t: Bytes, u: Bytes)
    requires Agrees(s, off, t + u)
    ensures Agrees(s, off, t) && Agrees(s, off + |t|, u)
  {
    forall i | 0 <= i < |t| && off + i < |s| ensures s[off + i] == t[i] {
      assert (t + u)[i] == t[i];
    }
    forall i | 0 <= i < |u| && off + |t| + i < |s| ensures s[off + |t| + i] == u[i] {
      assert (t + u)[|t| + i] == u[i] && s[off + (|t| + i)] == (t + u)[|t| + i];
    }
  }

  /** An archive parses to its entries when it is all there, and is rejected as truncated when any of it is missing. */
  lemma {:induction false} ParseArchive(s: Bytes, off: nat, es: seq<Entry>)
    requires off % 4 == 0 && off <= |s| && Agrees(s, off, Archive(es)) && forall i :: 0 <= i < |es| ==> Printable(es[i])
    ensures ParseAll(s, off) == if off + |Archive(es)| <= |s| then Ok(es) else Err(Truncated)
    decreases |es|
  {
    hide Print, ParseAt, DataEnd, Size, Agrees;
    if es == [] {
      ParsePrinted(s, off, TRAILER_ENTRY);
      TrailerHasNoPadding();
    } else {
      var e := es[0];
      SizeFacts(e);
      AgreesParts(s, off, Print(e), Archive(es[1..]));
      ParsePrinted(s, off, e);
      var next := off + Size(e);
      if next <= |s| {
        ParseArchive(s, next, es[1..]);
      } else if off + DataEnd(e) <= |s| {
        ParsePast(s, next);
      }
      assert [e] + es[1..] == es;
    }
  }

  /** Printing and parsing are inverse. */
  lemma RoundTrip(es: seq<Entry>)
    requires forall i :: 0 <= i < |es| ==> Printable(es[i])
    ensures ParseAll(Archive(es), 0) == Ok(es)
  {
    ParseArchive(Archive(es), 0, es);
  }

  /** No strict prefix of an archive is accepted. */
  lemma PrefixIsTruncated(es: seq<Entry>, n: nat)
    requires n < |Archive(es)| && forall i :: 0 <= i < |es| ==> Printable(es[i])
    ensures ParseAll(Archive(es)[..n], 0) == Err(Truncated)
  {
    ParseArchive(Archive(es)[..n], 0, es);
  }
}
