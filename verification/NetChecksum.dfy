/** The Internet checksum (rust/kernel/src/net.rs; RFC 1071, section 1) over bytes and over 16-bit words. */
module NetChecksum {
  import opened Arithmetic

  type Byte = n: nat | n < 256
  type U16 = n: nat | n < 65536
  type Bytes = seq<Byte>

  function Be16(v: U16): (s: Bytes)
    ensures |s| == 2
  {
    [Hi(v), Lo(v)]
  }

  function Hi(v: U16): Byte { v / 256 }

  function Lo(v: U16): Byte { v % 256 }

  function Word(hi: Byte, lo: Byte): U16 { hi * 256 + lo }

  /** The sum of the big-endian 16-bit words; a last odd byte counts as the high half of a word. */
  function Sum(s: Bytes): nat {
    if s == [] then 0 else if |s| == 1 then s[0] * 256 else Word(s[0], s[1]) + Sum(s[2..])
  }

  /** Carries are added back until the sum fits 16 bits. */
  function Fold(n: nat): U16
    decreases n
  {
    if n < 65536 then n else Fold(n % 65536 + n / 65536)
  }

  predicate ValidSum(n: nat) { Fold(n) == 65535 }

  function Complement(n: nat): U16 { 65535 - Fold(n) }

  /** Folding keeps the residue modulo 65535, and only zero folds to zero. */
  lemma {:induction false} FoldResidue(n: nat)
    ensures Fold(n) % 65535 == n % 65535 && (Fold(n) == 0 <==> n == 0)
    decreases n
  {
    if n >= 65536 {
      var m := n % 65536 + n / 65536;
      FoldResidue(m);
      assert n == m + (n / 65536) * 65535;
      ResidueShift(m, n / 65536);
    }
  }

  lemma ResidueShift(m: nat, k: nat)
    ensures (m + k * 65535) % 65535 == m % 65535
  {
    DivModUnique(m + k * 65535, m / 65535 + k, m % 65535, 65535);
  }

  /** The check accepts exactly the positive multiples of 65535. */
  lemma ValidMeans(n: nat)
    ensures ValidSum(n) <==> n > 0 && n % 65535 == 0
  {
    FoldResidue(n);
  }

  /** Adding the complement of a sum makes it valid, whichever of its two forms zero is written in. */
  lemma ComplementIsValid(n: nat, c: U16)
    requires c == Complement(n) || (Complement(n) == 0 && c == 65535)
    ensures ValidSum(n + c)
  {
    FoldResidue(n);
    ValidMeans(n + c);
    var q := n / 65535;
    assert n == q * 65535 + n % 65535;
    if c == Complement(n) {
      if Fold(n) == 65535 {
        assert n % 65535 == 0;
      } else {
        assert n % 65535 == Fold(n);
        DivModUnique(n + c, q + 1, 0, 65535);
      }
    } else {
      DivModUnique(n + c, q + 1, 0, 65535);
    }
  }

  /** A valid sum in which one word is replaced by one that differs modulo 65535 is not valid. */
  lemma ChangeIsDetected(rest: nat, w: nat, w': nat)
    requires ValidSum(rest + w) && w % 65535 != w' % 65535
    ensures !ValidSum(rest + w')
  {
    ValidMeans(rest + w);
    ValidMeans(rest + w');
    if (rest + w') % 65535 == 0 { SameResidue(rest, w, w'); }
  }

  lemma SameResidue(rest: nat, w: nat, w': nat)
    requires (rest + w) % 65535 == 0 && (rest + w') % 65535 == 0
    ensures w % 65535 == w' % 65535
  {
    var i := Multiple(rest + w, 65535);
    var j := Multiple(rest + w', 65535);
    if i <= j { ResidueShift(w, j - i); } else { ResidueShift(w', i - j); }
  }

  // ---------------------------------------------------------------- bytes as words

  /** The big-endian bytes of a list of words. */
  function Flat(ws: seq<U16>): (s: Bytes)
    ensures |s| == 2 * |ws|
  {
    if ws == [] then [] else Flat(ws[..|ws| - 1]) + Be16(ws[|ws| - 1])
  }

  function Total(ws: seq<U16>): nat { if ws == [] then 0 else Total(ws[..|ws| - 1]) + ws[|ws| - 1] }

  lemma {:induction false} SumParts(a: Bytes, b: Bytes)
    requires |a| % 2 == 0
    ensures Sum(a + b) == Sum(a) + Sum(b)
    decreases |a|
  {
    if a == [] {
      assert a + b == b;
    } else {
      assert |a| >= 2 && (a + b)[2..] == a[2..] + b;
      SumParts(a[2..], b);
    }
  }

  lemma SumNothing()
    ensures Sum([]) == 0
  {
  }

  lemma WordBe16(v: U16)
    ensures Word(Hi(v), Lo(v)) == v
  {
  }

  lemma SumWord(v: U16)
    ensures Sum(Be16(v)) == v
  {
    hide Word, Hi, Lo;
    WordBe16(v);
    assert Be16(v)[2..] == [];
  }

  lemma {:induction false} SumFlat(ws: seq<U16>)
    ensures Sum(Flat(ws)) == Total(ws)
    decreases |ws|
  {
    hide Sum, Be16;
    if ws == [] {
      SumNothing();
    } else {
      var n := |ws| - 1;
      SumFlat(ws[..n]);
      SumParts(Flat(ws[..n]), Be16(ws[n]));
      SumWord(ws[n]);
    }
  }

  lemma SumFlatThen(ws: seq<U16>, rest: Bytes)
    ensures Sum(Flat(ws) + rest) == Total(ws) + Sum(rest)
  {
    SumParts(Flat(ws), rest);
    SumFlat(ws);
  }

  lemma {:induction false} TotalSet(ws: seq<U16>, i: nat, w: U16)
    requires i < |ws|
    ensures Total(ws[i := w]) + ws[i] == Total(ws) + w
    decreases |ws|
  {
    var n := |ws| - 1;
    if i == n {
      assert ws[i := w][..n] == ws[..n];
    } else {
      assert ws[i := w][..n] == ws[..n][i := w];
      TotalSet(ws[..n], i, w);
    }
  }

  lemma {:induction false} FlatAt(ws: seq<U16>, i: nat)
    requires i < |ws|
    ensures Flat(ws)[2 * i] == Hi(ws[i]) && Flat(ws)[2 * i + 1] == Lo(ws[i])
    decreases |ws|
  {
    hide Hi, Lo;
    if i < |ws| - 1 { FlatAt(ws[..|ws| - 1], i); }
  }

  /** Reading at an even offset of the words gives the word. */
  lemma FlatWord(ws: seq<U16>, i: nat)
    requires i < |ws|
    ensures Word(Flat(ws)[2 * i], Flat(ws)[2 * i + 1]) == ws[i]
  {
    hide Word, Flat, Hi, Lo;
    FlatAt(ws, i);
    WordBe16(ws[i]);
  }

  lemma FlatSnoc(ws: seq<U16>, w: U16)
    ensures Flat(ws + [w]) == Flat(ws) + Be16(w)
  {
    assert (ws + [w])[..|ws|] == ws;
  }

  /** Writing a word at an even offset replaces that word. */
  lemma FlatSet(ws: seq<U16>, rest: Bytes, i: nat, w: U16)
    requires i < |ws|
    ensures (Flat(ws) + rest)[..2 * i] + Be16(w) + (Flat(ws) + rest)[2 * i + 2..] == Flat(ws[i := w]) + rest
  {
    hide Flat, Hi, Lo;
    var s, t := (Flat(ws) + rest)[..2 * i] + Be16(w) + (Flat(ws) + rest)[2 * i + 2..], Flat(ws[i := w]) + rest;
    forall j | 0 <= j < |t| ensures s[j] == t[j] {
      if j < 2 * |ws| {
        FlatAt(ws, j / 2);
        FlatAt(ws[i := w], j / 2);
        assert j == 2 * (j / 2) || j == 2 * (j / 2) + 1;
      }
    }
  }

  // ---------------------------------------------------------------- the loops

  method AddOnesComplementSum(start: nat, s: Bytes) returns (sum: nat)
    ensures sum == start + Sum(s)
  {
    hide Word;
    sum := start;
    var i := 0;
    while i + 1 < |s|
      invariant i <= |s| && sum + Sum(s[i..]) == start + Sum(s)
    {
      assert s[i..][2..] == s[i + 2..];
      sum := sum + Word(s[i], s[i + 1]);
      i := i + 2;
    }
    if i < |s| {
      var last: nat := s[i];
      sum := sum + last * 256;
    }
  }

  method FoldOnesComplementSum(n: nat) returns (r: U16)
    ensures r == Fold(n)
  {
    var sum := n;
    while sum / 65536 != 0
      invariant Fold(sum) == Fold(n)
      decreases sum
    {
      sum := sum % 65536 + sum / 65536;
    }
    return sum;
  }
}
