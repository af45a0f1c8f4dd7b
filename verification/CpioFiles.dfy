/** The in-place archive writer and the archive cursor of the initramfs (rust/kernel/src/fs.rs). */
module CpioFiles {
  import opened Arithmetic
  import opened Cpio
  import opened Options

  // ---------------------------------------------------------------- writing into a buffer

  /** `s` with `t` written over it at `off`. */
  function Patch(s: Bytes, off: nat, t: Bytes): Bytes
    requires off + |t| <= |s|
  {
    s[..off] + t + s[off + |t|..]
  }

  lemma PatchTwice(s: Bytes, off: nat, t: Bytes, u: Bytes)
    requires off + |t| + |u| <= |s|
    ensures Patch(Patch(s, off, t), off + |t|, u) == Patch(s, off, t + u)
  {
  }

  lemma DivTwice(v: nat, a: nat, b: nat)
    requires a >= 1 && b >= 1
    ensures a * b >= 1 && v / a / b == v / (a * b)
  {
    var q := v / a / b;
    var r, r' := v % a, (v / a) % b;
    assert v == (v / a) * a + r && v / a == q * b + r';
    assert v == q * (a * b) + (r' * a + r) by {
      assert (q * b + r') * a == q * (a * b) + r' * a;
    }
    assert r' * a + r < a * b by { MulMono(r' + 1, b, a); }
    DivModUnique(v, q, r' * a + r, a * b);
  }

  lemma {:induction false} HexAt(v: nat, n: nat, i: nat)
    requires i < n
    ensures Power16(n - 1 - i) >= 1 && Hex(v, n)[i] == Digit((v / Power16(n - 1 - i)) % 16)
    decreases n
  {
    PowerPositive(n - 1 - i);
    if i < n - 1 {
      HexAt(v / 16, n - 1, i);
      DivTwice(v, 16, Power16(n - 2 - i));
    }
  }

  lemma {:induction false} PowerPositive(n: nat)
    ensures Power16(n) >= 1
  {
    if n > 0 { PowerPositive(n - 1); }
  }

  method PutHex(a: array<Byte>, off: nat, v: nat)
    requires off + 8 <= a.Length
    modifies a
    ensures a[..] == Patch(old(a[..]), off, Hex(v, 8))
  {
    hide Hex, Digit;
    for i := 0 to 8
      invariant a[..] == old(a[..off]) + Hex(v, 8)[..i] + old(a[off + i..])
    {
      HexAt(v, 8, i);
      a[off + i] := Digit((v / Power16(7 - i)) % 16);
    }
  }

  method CopyBytes(a: array<Byte>, off: nat, s: Bytes)
    requires off + |s| <= a.Length
    modifies a
    ensures a[..] == Patch(old(a[..]), off, s)
  {
    for i := 0 to |s|
      invariant a[..] == old(a[..off]) + s[..i] + old(a[off + i..])
    {
      a[off + i] := s[i];
    }
  }

  /** One more field at `at`, after the `t` written from `off` on. */
  method NextField(a: array<Byte>, at: nat, v: nat, ghost s: Bytes, ghost off: nat, ghost t: Bytes)
    returns (ghost t': Bytes)
    requires at == off + |t| && at + 8 <= a.Length == |s| && a[..] == Patch(s, off, t)
    modifies a
    ensures t' == t + Hex(v, 8) && |t'| == |t| + 8 && a[..] == Patch(s, off, t')
  {
    hide Hex;
    PatchTwice(s, off, t, Hex(v, 8));
    PutHex(a, at, v);
    t' := t + Hex(v, 8);
  }

  method PutFirst(a: array<Byte>, off: nat, mode: nat)
    requires off + 54 <= a.Length
    modifies a
    ensures a[..] == Patch(old(a[..]), off, First(mode))
  {
    hide Hex, Patch;
    ghost var s := a[..];
    CopyBytes(a, off, MAGIC);
    ghost var t := NextField(a, off + 6, 1, s, off, MAGIC);
    t := NextField(a, off + 14, mode, s, off, t);
    t := NextField(a, off + 22, 0, s, off, t);
    t := NextField(a, off + 30, 0, s, off, t);
    t := NextField(a, off + 38, 1, s, off, t);
    t := NextField(a, off + 46, 0, s, off, t);
    FirstIs(mode);
  }

  lemma FirstIs(mode: nat)
    ensures First(mode) == MAGIC + Hex(1, 8) + Hex(mode, 8) + Hex(0, 8) + Hex(0, 8) + Hex(1, 8) + Hex(0, 8)
  {
    hide Hex;
    var a, b, c, d, e := MAGIC + Hex(1, 8) + Hex(mode, 8), Hex(0, 8), Hex(0, 8), Hex(1, 8), Hex(0, 8);
    Reassociate(a, b, c, d, e);
  }

  lemma Reassociate(a: Bytes, b: Bytes, c: Bytes, d: Bytes, e: Bytes)
    ensures a + (b + c + d + e) == a + b + c + d + e
  {
  }

  method PutSecond(a: array<Byte>, off: nat, size: nat)
    requires off + 40 <= a.Length
    modifies a
    ensures a[..] == Patch(old(a[..]), off, Second(size))
  {
    hide Hex, Patch;
    ghost var s := a[..];
    PatchNothing(s, off);
    ghost var t := NextField(a, off, size, s, off, []);
    assert t == Hex(size, 8);
    t := NextField(a, off + 8, 0, s, off, t);
    t := NextField(a, off + 16, 0, s, off, t);
    t := NextField(a, off + 24, 0, s, off, t);
    t := NextField(a, off + 32, 0, s, off, t);
    Reassociate(Hex(size, 8), Hex(0, 8), Hex(0, 8), Hex(0, 8), Hex(0, 8));
  }

  lemma PatchNothing(s: Bytes, off: nat)
    requires off <= |s|
    ensures Patch(s, off, []) == s
  {
  }

  method PutHeader(a: array<Byte>, off: nat, mode: nat, dataSize: nat, nameSize: nat)
    requires off + HEADER_SIZE <= a.Length
    modifies a
    ensures a[..] == Patch(old(a[..]), off, Header(mode, dataSize, nameSize))
  {
    hide Hex, Patch, First, Second;
    ghost var s := a[..];
    PutFirst(a, off, mode);
    PatchTwice(s, off, First(mode), Second(dataSize));
    PutSecond(a, off + 54, dataSize);
    ghost var t := First(mode) + Second(dataSize);
    t := NextField(a, off + 94, nameSize, s, off, t);
    t := NextField(a, off + 102, 0, s, off, t);
    assert First(mode) + Second(dataSize) + (Hex(nameSize, 8) + Hex(0, 8)) == t;
  }

  /** Writing over zeros: what is skipped reads as zeros. */
  lemma PatchSkip(s: Bytes, off: nat, t: Bytes, n: nat)
    requires off + |t| + n <= |s| && forall i :: off <= i < |s| ==> s[i] == 0
    ensures Patch(s, off, t) == Patch(s, off, t + Zeros(n))
  {
    var x, y := Patch(s, off, t), Patch(s, off, t + Zeros(n));
    assert |x| == |y| == |s|;
    forall i | 0 <= i < |s| ensures x[i] == y[i] {
    }
  }

  /** Appends an entry to an archive under construction in a zeroed buffer. */
  method AppendEntry(a: array<Byte>, offset: nat, e: Entry) returns (next: nat)
    requires offset % 4 == 0 && offset + Size(e) <= a.Length && forall i :: offset <= i < a.Length ==> a[i] == 0
    modifies a
    ensures next == offset + Size(e) && next % 4 == 0 && a[..] == Patch(old(a[..]), offset, Print(e))
    ensures forall i :: next <= i < a.Length ==> a[i] == 0
  {
    hide Hex, Patch, Header, Align4;
    ghost var s := a[..];
    PutHeader(a, offset, e.mode, |e.data|, |e.name| + 1);
    ghost var t := Header(e.mode, |e.data|, |e.name| + 1);
    var nameStart := offset + HEADER_SIZE;
    PatchTwice(s, offset, t, e.name);
    CopyBytes(a, nameStart, e.name);
    t := t + e.name;
    PatchTwice(s, offset, t, [0]);
    CopyBytes(a, nameStart + |e.name|, [0]);
    t := t + [0];
    var dataStart := Align4(nameStart + |e.name| + 1);
    AlignShift(offset, NameEnd(e));
    PatchSkip(s, offset, t, Align4(NameEnd(e)) - NameEnd(e));
    t := t + Zeros(Align4(NameEnd(e)) - NameEnd(e));
    PatchTwice(s, offset, t, e.data);
    CopyBytes(a, dataStart, e.data);
    t := t + e.data;
    AlignShift(offset, DataEnd(e));
    PatchSkip(s, offset, t, Size(e) - DataEnd(e));
    next := Align4(dataStart + |e.data|);
    ZerosAfter(s, offset, Print(e), a[..]);
  }

  lemma ZerosAfter(s: Bytes, off: nat, t: Bytes, s': Bytes)
    requires off + |t| <= |s| && s' == Patch(s, off, t) && forall i :: off <= i < |s| ==> s[i] == 0
    ensures |s'| == |s| && forall i :: off + |t| <= i < |s'| ==> s'[i] == 0
  {
  }

  lemma {:induction false} ArchiveGrows(es: seq<Entry>, e: Entry)
    ensures Body(es + [e]) == Body(es) + Print(e)
    decreases |es|
  {
    hide Print;
    if es == [] {
      assert es + [e] == [e] && [e][1..] == [];
      assert Print(e) + Body([]) == Print(e) == Body([]) + Print(e);
    } else {
      assert (es + [e])[1..] == es[1..] + [e];
      ArchiveGrows(es[1..], e);
      assert Print(es[0]) + (Body(es[1..]) + Print(e)) == Print(es[0]) + Body(es[1..]) + Print(e);
    }
  }

  /** The entries without the trailer. */
  function Body(es: seq<Entry>): Bytes {
    if es == [] then [] else Print(es[0]) + Body(es[1..])
  }

  lemma {:induction false} ArchiveIs(es: seq<Entry>)
    ensures Archive(es) == Body(es) + Print(TRAILER_ENTRY)
  {
    hide Print;
    if es != [] {
      ArchiveIs(es[1..]);
      assert Print(es[0]) + (Body(es[1..]) + Print(TRAILER_ENTRY)) ==
        Print(es[0]) + Body(es[1..]) + Print(TRAILER_ENTRY);
    }
  }

  /** Writing a list of entries and the trailer into a buffer of the right size makes their archive. */
  method MakeArchive(es: seq<Entry>) returns (a: array<Byte>)
    ensures fresh(a) && a[..] == Archive(es)
  {
    hide Print, Patch, Body;
    ArchiveIs(es);
    ghost var total := |Archive(es)|;
    var size := ArchiveSize(es);
    a := new Byte[size](_ => 0);
    var offset := 0;
    BodyStart();
    for n := 0 to |es|
      invariant offset == |Body(es[..n])| && offset % 4 == 0 && offset <= |Body(es)| && a[..offset] == Body(es[..n])
      invariant forall i :: offset <= i < a.Length ==> a[i] == 0
    {
      BodyFits(es, n);
      ghost var s := a[..];
      assert es[..n + 1] == es[..n] + [es[n]];
      ArchiveGrows(es[..n], es[n]);
      var next := AppendEntry(a, offset, es[n]);
      PatchedFront(s, offset, Print(es[n]), a[..]);
      offset := next;
    }
    assert es[..|es|] == es;
    ghost var s := a[..];
    var end := AppendEntry(a, offset, TRAILER_ENTRY);
    PatchedFront(s, offset, Print(TRAILER_ENTRY), a[..]);
    assert a[..end] == a[..];
  }

  lemma BodyStart()
    ensures Body([]) == []
  {
  }

  lemma PatchedFront(s: Bytes, off: nat, t: Bytes, s': Bytes)
    requires off + |t| <= |s| && s' == Patch(s, off, t)
    ensures |s'| == |s| && s'[..off + |t|] == s[..off] + t
  {
  }

  function ArchiveSize(es: seq<Entry>): (n: nat)
    ensures n == |Archive(es)| == |Body(es)| + Size(TRAILER_ENTRY)
  {
    ArchiveIs(es);
    if es == [] then Size(TRAILER_ENTRY) else Size(es[0]) + ArchiveSize(es[1..])
  }

  lemma {:induction false} BodyFits(es: seq<Entry>, n: nat)
    requires n < |es|
    ensures |Body(es[..n])| + Size(es[n]) <= |Body(es)|
    decreases n
  {
    hide Print;
    if n == 0 {
      assert es[..0] == [];
    } else {
      assert es[..n][1..] == es[1..][..n - 1] && es[..n][0] == es[0];
      BodyFits(es[1..], n - 1);
    }
  }

  // ---------------------------------------------------------------- reading an archive

  /** A cursor over an archive. */
  class Entries {
    const archive: Bytes
    var offset: nat
    var trailerSeen: bool

    constructor (archive: Bytes)
      ensures this.archive == archive && offset == 0 && !trailerSeen
    {
      this.archive, offset, trailerSeen := archive, 0, false;
    }

    method ParseHex(header: Bytes, at: nat) returns (r: Result<nat>)
      requires at + 8 <= |header|
      ensures r == Value(header[at..at + 8])
    {
      var value := 0;
      for i := 0 to 8
        invariant Value(header[at..at + i]) == Ok(value) && value < U32
      {
        var field := header[at..at + i + 1];
        assert field[..|field| - 1] == header[at..at + i];
        ValueStops(header[at..at + 8], i + 1);
        assert header[at..at + 8][..i + 1] == field;
        var d := DigitValue(header[at + i]);
        if d.Err? { return Err(InvalidHeader); }
        if value * 16 >= U32 { return Err(InvalidHeader); }
        if value * 16 + d.value >= U32 { return Err(InvalidHeader); }
        value := value * 16 + d.value;
      }
      return Ok(value);
    }

    /** The next entry, nothing once the trailer has been seen, or an error. */
    method Next() returns (r: Result<Option<Entry>>)
      modifies this
      ensures old(trailerSeen) ==> r == Ok(None) && unchanged(this)
      ensures !old(trailerSeen) ==> r == match ParseAt(archive, old(offset))
        case Bad(e) => Err(e)
        case End(_) => Ok(None)
        case Got(e, _) => Ok(Some(e))
      ensures !old(trailerSeen) && r.Ok? ==>
        offset == ParseAt(archive, old(offset)).next && trailerSeen == r.value.None?
    {
      hide Value, Align4;
      if trailerSeen { return Ok(None); }
      var end := offset + HEADER_SIZE;
      if end > |archive| { return Err(Truncated); }
      var header := archive[offset..end];
      if header[0..6] != MAGIC { return Err(if offset == 0 then InvalidMagic else InvalidHeader); }
      var mode := ParseHex(header, 14);
      if mode.Err? { return Err(mode.error); }
      var dataSize := ParseHex(header, 54);
      if dataSize.Err? { return Err(dataSize.error); }
      var nameSize := ParseHex(header, 94);
      if nameSize.Err? { return Err(nameSize.error); }
      if nameSize.value == 0 { return Err(InvalidEntry); }
      var nameEnd := end + nameSize.value;
      if nameEnd > |archive| { return Err(Truncated); }
      if archive[nameEnd - 1] != 0 { return Err(InvalidEntry); }
      var name := archive[end..nameEnd - 1];
      FrontOf(archive, end, nameEnd);
      var from := Align4(nameEnd);
      var to := from + dataSize.value;
      if to > |archive| { return Err(Truncated); }
      var data := archive[from..to];
      offset := Align4(to);
      if name == TRAILER {
        trailerSeen := true;
        return Ok(None);
      }
      if name == [] || 0 in name { return Err(InvalidEntry); }
      return Ok(Some(Entry(name, data, mode.value)));
    }
  }

  lemma FrontOf(s: Bytes, i: nat, j: nat)
    requires i < j <= |s|
    ensures s[i..j][..j - i - 1] == s[i..j - 1]
  {
  }

  /** An error in a prefix is the error of the whole. */
  lemma {:induction false} ValueStops(s: Bytes, n: nat)
    requires n <= |s|
    ensures Value(s[..n]).Err? ==> Value(s) == Err(InvalidHeader)
    decreases |s|
  {
    if n < |s| {
      assert s[..|s| - 1][..n] == s[..n];
      ValueStops(s[..|s| - 1], n);
      ValueError(s);
    } else {
      assert s[..n] == s;
      ValueError(s);
    }
  }

  lemma {:induction false} ValueError(s: Bytes)
    ensures Value(s).Err? ==> Value(s) == Err(InvalidHeader)
    decreases |s|
  {
    if s != [] { ValueError(s[..|s| - 1]); }
  }

  /** Counts the entries of an archive, or says why it is none. */
  method Scan(archive: Bytes) returns (r: Result<nat>)
    ensures r == match ParseAll(archive, 0) case Ok(es) => Ok(|es|) case Err(e) => Err(e)
  {
    hide ParseAt;
    var entries := new Entries(archive);
    var count := 0;
    while true
      invariant entries.archive == archive && !entries.trailerSeen
      invariant Counted(archive, 0, count, entries.offset)
      decreases if entries.offset <= |archive| then |archive| - entries.offset + 1 else 0
    {
      ParseAdvances(archive, entries.offset);
      ghost var at := entries.offset;
      var e := entries.Next();
      if e.Err? { return Err(e.error); }
      if e.value.None? { return Ok(count); }
      count := count + 1;
    }
    assert false;
  }

  lemma ParseAdvances(s: Bytes, offset: nat)
    ensures ParseAt(s, offset).Got? ==> offset < ParseAt(s, offset).next && offset < |s|
  {
  }

  /** The answer from `offset` on is `n` entries and then the answer from `now` on. */
  ghost predicate Counted(s: Bytes, offset: nat, n: nat, now: nat) {
    var all, rest := ParseAll(s, offset), ParseAll(s, now);
    if rest.Err? then all == Err(rest.error) else all.Ok? && |all.value| == n + |rest.value|
  }

  /** The first entry with a given name. */
  function FirstNamed(es: seq<Entry>, name: Bytes): Result<Entry> {
    if es == [] then Err(NotFound) else if es[0].name == name then Ok(es[0]) else FirstNamed(es[1..], name)
  }

  /** The entries before the trailer, or before the first thing that is no entry. */
  function Front(s: Bytes, offset: nat): seq<Entry>
    decreases if offset <= |s| then |s| - offset + 1 else 0
  {
    match ParseAt(s, offset)
    case Got(e, next) => [e] + Front(s, next)
    case _ => []
  }

  lemma {:induction false} FrontIsAll(s: Bytes, offset: nat)
    ensures ParseAll(s, offset).Ok? ==> ParseAll(s, offset).value == Front(s, offset)
    decreases if offset <= |s| then |s| - offset + 1 else 0
  {
    hide ParseAt;
    ParseAdvances(s, offset);
    if ParseAt(s, offset).Got? { FrontIsAll(s, ParseAt(s, offset).next); }
  }

  /** The first entry of a name before the archive ends or goes wrong; else what is wrong with it, or that there is
      none. */
  function Lookup(s: Bytes, offset: nat, name: Bytes): Result<Entry> {
    var found := FirstNamed(Front(s, offset), name);
    if found.Ok? then found else match ParseAll(s, offset) case Err(e) => Err(e) case Ok(_) => found
  }

  lemma LookupNext(s: Bytes, offset: nat, name: Bytes)
    ensures Lookup(s, offset, name) == match ParseAt(s, offset)
      case Bad(e) => Err(e)
      case End(_) => Err(NotFound)
      case Got(e, next) => if e.name == name then Ok(e) else Lookup(s, next, name)
  {
    hide ParseAt;
    ParseAdvances(s, offset);
    if ParseAt(s, offset).Got? {
      var e, rest := ParseAt(s, offset).e, Front(s, ParseAt(s, offset).next);
      assert ([e] + rest)[1..] == rest;
    }
  }

  /** Looks a name up, in any archive. */
  method FindBytes(archive: Bytes, name: Bytes) returns (r: Result<Entry>)
    ensures r == Lookup(archive, 0, name)
    ensures ParseAll(archive, 0).Ok? ==> r == FirstNamed(ParseAll(archive, 0).value, name)
  {
    hide ParseAt, ParseAll, Lookup;
    FoundInAll(archive, name);
    var entries := new Entries(archive);
    while true
      invariant entries.archive == archive && !entries.trailerSeen
      invariant Lookup(archive, 0, name) == Lookup(archive, entries.offset, name)
      decreases if entries.offset <= |archive| then |archive| - entries.offset + 1 else 0
    {
      ParseAdvances(archive, entries.offset);
      LookupNext(archive, entries.offset, name);
      var e := entries.Next();
      if e.Err? { return Err(e.error); }
      if e.value.None? { return Err(NotFound); }
      if e.value.value.name == name { return Ok(e.value.value); }
    }
    assert false;
  }

  lemma FoundInAll(s: Bytes, name: Bytes)
    ensures ParseAll(s, 0).Ok? ==> Lookup(s, 0, name) == FirstNamed(ParseAll(s, 0).value, name)
  {
    hide ParseAt, ParseAll, Front;
    FrontIsAll(s, 0);
  }

  /** The whole way: what is written into a buffer is read back, entry by entry. */
  method WriteAndFind(es: seq<Entry>, name: Bytes) returns (count: Result<nat>, found: Result<Entry>)
    requires forall i :: 0 <= i < |es| ==> Printable(es[i])
    ensures count == Ok(|es|) && found == FirstNamed(es, name)
  {
    hide Archive, ParseAll;
    var a := MakeArchive(es);
    RoundTrip(es);
    count := Scan(a[..]);
    found := FindBytes(a[..], name);
  }
}
