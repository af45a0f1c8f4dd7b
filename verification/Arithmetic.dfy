/** Division facts and a set minimum, shared by the models. */
module Arithmetic {
  lemma SmallQuotient(n: nat, s: nat)
    requires n < s
    ensures n / s == 0
  {
  }

  lemma RemainderAtMost(n: nat, s: nat)
    requires s >= 1
    ensures n % s <= n
  {
    if n < s { SmallQuotient(n, s); }
  }

  lemma MulMono(a: nat, b: nat, s: nat)
    requires a <= b
    ensures a * s <= b * s
  {
  }

  lemma DivModUnique(n: nat, q: nat, r: nat, s: nat)
    requires s >= 1 && r < s && n == q * s + r
    ensures n / s == q && n % s == r
  {
    var q', r' := n / s, n % s;
    assert n == q' * s + r' && 0 <= r' < s;
    if q' < q { assert (q' + 1) * s <= q * s by { MulMono(q' + 1, q, s); } }
    if q < q' { assert (q + 1) * s <= q' * s by { MulMono(q + 1, q', s); } }
  }

  lemma Multiple(n: nat, s: nat) returns (k: nat)
    requires s >= 1 && n % s == 0
    ensures n == k * s
  {
    k := n / s;
  }

  lemma MultipleHasNoRemainder(k: nat, s: nat)
    requires s >= 1
    ensures (k * s) % s == 0 && (k * s) / s == k
  {
    DivModUnique(k * s, k, 0, s);
  }

  lemma AlignedAtDivisor(h: nat, k: nat, s: nat)
    requires k >= 1 && s >= 1 && h % (k * s) == 0
    ensures h % s == 0 && s <= k * s
  {
    var n := Multiple(h, k * s);
    assert n * (k * s) == (n * k) * s;
    MultipleHasNoRemainder(n * k, s);
    MulMono(1, k, s);
  }

  /** The least member of a set. */
  method Least(s: set<nat>) returns (m: nat)
    requires s != {}
    ensures m in s && forall x :: x in s ==> m <= x
  {
    m :| m in s;
    var rest := s - {m};
    while rest != {}
      invariant rest <= s && m in s && m !in rest && forall x :: x in s && x !in rest ==> m <= x
    {
      var x :| x in rest;
      if x < m { m := x; }
      rest := rest - {x};
    }
  }
}
