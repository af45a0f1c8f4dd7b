/** How a page-table entry carries a frame or a swap slot (rust/kernel/src/paging.rs), on the 64-bit words
    themselves. */
module SwapEntries {
  const PRESENT: bv64 := 0x1
  const WRITABLE: bv64 := 0x2
  const USER: bv64 := 0x4
  const CACHE_DISABLE: bv64 := 0x10
  const ACCESSED: bv64 := 0x20
  const COW: bv64 := 0x200
  const SWAPPED: bv64 := 0x400
  const NO_EXECUTE: bv64 := 0x8000_0000_0000_0000
  const ADDRESS_MASK: bv64 := 0x000f_ffff_ffff_f000
  const FRAME_MASK: bv64 := 0xff_ffff_ffff
  const FRAME_BITS: nat := 40
  const SLOT_MASK: bv64 := 0xf_ffff
  const SLOT_BITS: nat := 20
  const PERMISSIONS: bv64 := 0x8000_0000_0000_0006

  // ---------------------------------------------------------------- frame and slot numbers as words

  function Power2(k: nat): nat { if k == 0 then 1 else 2 * Power2(k - 1) }

  /** The low `k` bits of a number, as a word. */
  function Bits(n: nat, k: nat): bv64 {
    if k == 0 then 0 else Append(Bits(n / 2, k - 1), Bit(n))
  }

  function Append(w: bv64, b: bv64): bv64 { (w << 1) | b }

  function Bit(n: nat): bv64 { if n % 2 == 1 then 1 else 0 }

  /** The number in the low `k` bits of a word. */
  function Value(w: bv64, k: nat): nat {
    if k == 0 then 0 else 2 * Value(w >> 1, k - 1) + if w & 1 == 1 then 1 else 0
  }

  function Ones(k: nat): bv64 { if k == 0 then 0 else Append(Ones(k - 1), 1) }

  predicate AtMost(w: bv64, limit: bv64) { w <= limit }

  lemma {:induction false} OnesGrow(k: nat)
    ensures Ones(k) & (Ones(k) + 1) == 0 && AtMost(Ones(k), Ones(k + 1))
  {
    if k > 0 { OnesGrow(k - 1); }
  }

  lemma {:induction false} OnesFit(k: nat)
    requires k <= FRAME_BITS
    ensures AtMost(Ones(k), FRAME_MASK)
    decreases FRAME_BITS - k
  {
    if k == FRAME_BITS {
      AllOnes();
    } else {
      OnesFit(k + 1);
      OnesGrow(k);
    }
  }

  lemma AllOnes()
    ensures Ones(SLOT_BITS) == SLOT_MASK && Ones(FRAME_BITS) == FRAME_MASK
  {
    assert Ones(4) == 0xf && Ones(8) == 0xff && Ones(12) == 0xfff && Ones(16) == 0xffff && Ones(20) == 0xf_ffff;
    assert Ones(24) == 0xff_ffff && Ones(28) == 0xfff_ffff && Ones(32) == 0xffff_ffff && Ones(36) == 0xf_ffff_ffff;
  }

  lemma AppendBit(w: bv64, b: bv64, ones: bv64)
    requires AtMost(b, 1) && AtMost(w, ones) && AtMost(ones, FRAME_MASK)
    ensures AtMost(Append(w, b), Append(ones, 1)) && Append(w, b) >> 1 == w && Append(w, b) & 1 == b
  {
  }

  lemma BitsAppend(n: nat, k: nat)
    requires 0 < k
    ensures Bits(n, k) == Append(Bits(n / 2, k - 1), Bit(n)) && Ones(k) == Append(Ones(k - 1), 1)
    ensures AtMost(Bit(n), 1) && n == 2 * (n / 2) + if Bit(n) == 1 then 1 else 0
  {
  }

  lemma {:induction false} BitsFit(n: nat, k: nat)
    requires k <= FRAME_BITS
    ensures AtMost(Bits(n, k), Ones(k))
  {
    if k > 0 {
      hide Bits, Bit, Ones, Append, AtMost;
      BitsFit(n / 2, k - 1);
      OnesFit(k - 1);
      BitsAppend(n, k);
      AppendBit(Bits(n / 2, k - 1), Bit(n), Ones(k - 1));
    }
  }

  lemma BitsSmall(n: nat, k: nat)
    requires k <= FRAME_BITS
    ensures AtMost(Bits(n, k), FRAME_MASK)
  {
    hide Bits, Ones;
    BitsFit(n, k);
    OnesFit(k);
  }

  lemma ValueOfAppended(w: bv64, b: bv64, k: nat)
    requires AtMost(b, 1) && AtMost(w, FRAME_MASK)
    ensures Value(Append(w, b), k + 1) == 2 * Value(w, k) + if b == 1 then 1 else 0
  {
    AppendBit(w, b, FRAME_MASK);
  }

  lemma {:induction false} BitsRoundTrip(n: nat, k: nat)
    requires k <= FRAME_BITS && n < Power2(k)
    ensures Value(Bits(n, k), k) == n
  {
    if k > 0 {
      hide Bits, Value, Ones, Bit, Append, AtMost;
      BitsAppend(n, k);
      BitsRoundTrip(n / 2, k - 1);
      BitsSmall(n / 2, k - 1);
      ValueOfAppended(Bits(n / 2, k - 1), Bit(n), k - 1);
    }
  }

  /** Every slot number fits the twenty slot bits and is read back from them, every frame number the forty frame
      bits. */
  lemma NumberFits(n: nat, k: nat)
    requires k <= FRAME_BITS && n < Power2(k)
    ensures Value(Bits(n, k), k) == n && AtMost(Bits(n, k), FRAME_MASK)
    ensures k == SLOT_BITS ==> AtMost(Bits(n, k), SLOT_MASK)
  {
    hide Bits, Value, Ones, Append, Power2;
    BitsRoundTrip(n, k);
    BitsFit(n, k);
    BitsSmall(n, k);
    AllOnes();
  }

  // ---------------------------------------------------------------- entries

  /** A frame number that fits an entry. */
  predicate IsFrame(frame: nat) { frame < Power2(FRAME_BITS) }

  function FrameOf(entry: bv64): nat { Value((entry & ADDRESS_MASK) >> 12, FRAME_BITS) }

  function SlotOf(entry: bv64): nat { Value((entry >> 12) & SLOT_MASK, SLOT_BITS) }

  function MapWord(frame: bv64, flags: bv64): bv64 { ((frame << 12) & ADDRESS_MASK) | flags | PRESENT }

  function OutWord(entry: bv64, slot: bv64): bv64 { ((slot & SLOT_MASK) << 12) | (entry & PERMISSIONS) | SWAPPED }

  function InWord(entry: bv64, frame: bv64): bv64 { (frame << 12) | (entry & PERMISSIONS) | PRESENT }

  /** The entry `map` writes. */
  function MapEntry(frame: nat, flags: bv64): bv64 { MapWord(Bits(frame, FRAME_BITS), flags) }

  /** The entry written when a page goes out to `slot`. */
  function OutEntry(entry: bv64, slot: nat): bv64 { OutWord(entry, Bits(slot, SLOT_BITS)) }

  /** The entry written when a page comes back into a frame. */
  function InEntry(entry: bv64, frame: nat): bv64 { InWord(entry, Bits(frame, FRAME_BITS)) }

  /** An entry in use: a present page, or one that is out on the swap disk. */
  predicate IsEntry(entry: bv64) { entry & PRESENT != 0 || entry & SWAPPED != 0 }

  /** What the kernel reads from an entry in use. */
  datatype Pte =
    | Present(frame: nat, perms: bv64, cow: bool, accessed: bool)
    | Swapped(slot: nat, perms: bv64)

  function Decode(entry: bv64): Pte {
    if entry & PRESENT != 0
    then Present(FrameOf(entry), entry & PERMISSIONS, entry & COW != 0, entry & ACCESSED != 0)
    else Swapped(SlotOf(entry), entry & PERMISSIONS)
  }

  lemma MapBits(frame: bv64, flags: bv64)
    requires AtMost(frame, FRAME_MASK) && flags & ADDRESS_MASK == 0
    ensures var e := MapWord(frame, flags);
            && e & PRESENT != 0 && (e & ADDRESS_MASK) >> 12 == frame && e & PERMISSIONS == flags & PERMISSIONS
            && e & COW == flags & COW && e & ACCESSED == flags & ACCESSED
  {
  }

  lemma MapDecodes(frame: nat, flags: bv64)
    requires IsFrame(frame) && flags & ADDRESS_MASK == 0
    ensures var e := MapEntry(frame, flags);
            IsEntry(e) && Decode(e) == Present(frame, flags & PERMISSIONS, flags & COW != 0, flags & ACCESSED != 0)
  {
    hide Power2, Bits, Value, AtMost, MapWord;
    NumberFits(frame, FRAME_BITS);
    MapBits(Bits(frame, FRAME_BITS), flags);
  }

  lemma OutBits(entry: bv64, slot: bv64)
    requires AtMost(slot, SLOT_MASK)
    ensures var e := OutWord(entry, slot);
            && e & PRESENT == 0 && e & SWAPPED != 0 && (e >> 12) & SLOT_MASK == slot
            && e & PERMISSIONS == entry & PERMISSIONS
  {
  }

  /** The slot and the permissions survive in an entry that no longer counts as present. */
  lemma OutDecodes(entry: bv64, slot: nat)
    requires slot < Power2(SLOT_BITS)
    ensures IsEntry(OutEntry(entry, slot)) && Decode(OutEntry(entry, slot)) == Swapped(slot, entry & PERMISSIONS)
  {
    hide Power2, Bits, Value, AtMost, OutWord;
    NumberFits(slot, SLOT_BITS);
    OutBits(entry, Bits(slot, SLOT_BITS));
  }

  lemma InBits(entry: bv64, frame: bv64)
    requires AtMost(frame, FRAME_MASK)
    ensures var e := InWord(entry, frame);
            && e & PRESENT != 0 && (e & ADDRESS_MASK) >> 12 == frame && e & PERMISSIONS == entry & PERMISSIONS
            && e & COW == 0 && e & ACCESSED == 0
  {
  }

  /** Coming back gives a present entry for the new frame with the permissions the entry carried. */
  lemma InDecodes(entry: bv64, frame: nat)
    requires IsFrame(frame)
    ensures var e := InEntry(entry, frame);
            IsEntry(e) && Decode(e) == Present(frame, entry & PERMISSIONS, false, false)
  {
    hide Power2, Bits, Value, AtMost, InWord;
    NumberFits(frame, FRAME_BITS);
    InBits(entry, Bits(frame, FRAME_BITS));
  }

  function Cleared(entry: bv64): bv64 { entry & !ACCESSED }

  function Marked(entry: bv64): bv64 { entry | ACCESSED }

  lemma ClearedFrame(entry: bv64)
    ensures FrameOf(entry & !ACCESSED) == FrameOf(entry)
  {
    hide Value;
    assert (entry & !ACCESSED) & ADDRESS_MASK == entry & ADDRESS_MASK;
  }

  lemma MarkedFrame(entry: bv64)
    ensures FrameOf(entry | ACCESSED) == FrameOf(entry)
  {
    hide Value;
    assert (entry | ACCESSED) & ADDRESS_MASK == entry & ADDRESS_MASK;
  }

  /** Clearing the accessed bit changes nothing else. */
  lemma ClearedDecodes(entry: bv64)
    requires entry & PRESENT != 0
    ensures Decode(entry).Present? && IsEntry(Cleared(entry))
      && Decode(Cleared(entry)) == Decode(entry).(accessed := false)
  {
    hide FrameOf, SlotOf;
    ClearedFrame(entry);
  }

  /** Nor does setting it. */
  lemma MarkedDecodes(entry: bv64)
    requires entry & PRESENT != 0
    ensures Decode(entry).Present? && IsEntry(Marked(entry))
      && Decode(Marked(entry)) == Decode(entry).(accessed := true)
  {
    hide FrameOf, SlotOf;
    MarkedFrame(entry);
  }

  /** Going out and coming back keeps exactly the write, user and no-execute bits: an entry gets all its flags back if
      and only if it had no other flag set.  An uncached mapping does not. */
  lemma FlagsSurvive(entry: bv64, slot: bv64, frame: bv64)
    requires entry & PRESENT != 0 && frame <= FRAME_MASK && slot <= SLOT_MASK
    ensures var back := InWord(OutWord(entry, slot), frame);
            && back & PERMISSIONS == entry & PERMISSIONS
            && (back & !ADDRESS_MASK == entry & !ADDRESS_MASK <==> entry & !(ADDRESS_MASK | PERMISSIONS | PRESENT) == 0)
            && (entry & CACHE_DISABLE != 0 ==> back & CACHE_DISABLE == 0)
  {
  }
}
