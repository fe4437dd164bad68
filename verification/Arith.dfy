/** Facts about division and remainder that the solver does not find by itself. */
module Arith {

  lemma MulMono(a: int, b: int, c: int)
    requires a <= b && 0 <= c
    ensures a * c <= b * c
  {
  }

  /** Quotient and remainder are unique. */
  lemma DivModUnique(t: int, m: int, q: int, s: int)
    requires m > 0 && t == q * m + s && 0 <= s < m
    ensures t / m == q && t % m == s
  {
    var q', s' := t / m, t % m;
    assert t == q' * m + s' by { assert t == m * (t / m) + t % m; }
    assert (q - q') * m == s' - s;
    if q > q' {
      MulMono(1, q - q', m);
    } else if q < q' {
      assert (q' - q) * m == s - s';
      MulMono(1, q' - q, m);
    }
  }

  lemma DivMod(t: int, m: int)
    requires m > 0
    ensures t == (t / m) * m + t % m && 0 <= t % m < m
  {
    assert t == m * (t / m) + t % m;
  }

  /** A multiple of the modulus does not change the remainder. */
  lemma ModShift(t: int, q: int, m: int)
    requires m > 0
    ensures (t + q * m) % m == t % m
  {
    DivMod(t, m);
    assert t + q * m == (t / m + q) * m + t % m;
    DivModUnique(t + q * m, m, t / m + q, t % m);
  }

  /** A box of aligned positions lies on one side of an aligned boundary. */
  lemma BoxSide(p: nat, b: nat, size: nat)
    requires size > 0 && b % size == 0
    ensures 0 <= p % size <= p
    ensures if p < b then p - p % size + size <= b else b <= p - p % size
  {
    var c, d := p / size, b / size;
    DivMod(p, size);
    DivMod(b, size);
    if c < 0 { MulMono(c, -1, size); }
    MulMono(0, c, size);
    if c < d { MulMono(c + 1, d, size); } else { MulMono(d, c, size); }
  }

  lemma DivByOne(n: int)
    ensures n / 1 == n
  {
  }
}
