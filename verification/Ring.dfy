/** Arithmetic on shares: residues modulo m = 2^L. */
module Ring {
  import opened Arith

  function Add(m: nat, a: int, b: int): (r: int) requires m > 0 ensures 0 <= r < m { (a + b) % m }

  function Sub(m: nat, a: int, b: int): (r: int) requires m > 0 ensures 0 <= r < m { (a - b) % m }

  function Mul(m: nat, a: int, b: int): (r: int) requires m > 0 ensures 0 <= r < m { (a * b) % m }

  function Neg(m: nat, a: int): (r: int) requires m > 0 ensures 0 <= r < m { (-a) % m }

  /** Reducing an operand first does not change the result. */
  lemma WrapAdd(m: nat, a: int, b: int)
    requires m > 0
    ensures Add(m, a % m, b) == Add(m, a, b) == Add(m, a, b % m)
  {
    DivMod(a, m);
    DivMod(b, m);
    ModShift(a % m + b, a / m, m);
    ModShift(a + b % m, b / m, m);
  }

  lemma WrapNeg(m: nat, b: int)
    requires m > 0
    ensures Neg(m, b % m) == Neg(m, b)
  {
    DivMod(b, m);
    ModShift(-(b % m), -(b / m), m);
  }

  lemma WrapSub(m: nat, a: int, b: int)
    requires m > 0
    ensures Sub(m, a % m, b) == Sub(m, a, b) == Sub(m, a, b % m)
  {
    DivMod(a, m);
    DivMod(b, m);
    ModShift(a % m - b, a / m, m);
    ModShift(a - b % m, -(b / m), m);
    assert a - b % m + -(b / m) * m == a - b;
  }

  lemma WrapMul(m: nat, a: int, b: int)
    requires m > 0
    ensures Mul(m, a % m, b) == Mul(m, a, b) == Mul(m, a, b % m)
  {
    DivMod(a, m);
    DivMod(b, m);
    var ra, qa, rb, qb := a % m, a / m, b % m, b / m;
    ModShift(ra * b, qa * b, m);
    assert ra * b + (qa * b) * m == (ra + qa * m) * b;
    ModShift(a * rb, a * qb, m);
    assert a * rb + (a * qb) * m == a * (rb + qb * m);
  }

  lemma SubtractAndAddBack(m: nat, d: int, s: int)
    requires m > 0
    ensures (Sub(m, d, s) + s) % m == d % m
  {
    WrapAdd(m, d - s, s);
  }

  lemma AddResidues(m: nat, a: int, b: int)
    requires m > 0
    ensures Add(m, a % m, b % m) == (a + b) % m
  {
    WrapAdd(m, a, b % m);
    WrapAdd(m, a, b);
  }

  lemma SubResidues(m: nat, a: int, b: int)
    requires m > 0
    ensures Sub(m, a % m, b % m) == (a - b) % m
  {
    WrapSub(m, a, b % m);
    WrapSub(m, a, b);
  }

  lemma MulResidues(m: nat, a: int, b: int)
    requires m > 0
    ensures Mul(m, a % m, b % m) == (a * b) % m
  {
    WrapMul(m, a, b % m);
    WrapMul(m, a, b);
  }

  /** The two's-complement reading of a residue. */
  function Signed(m: nat, a: int): (v: int)
    requires m > 0
  {
    if 2 * a >= m then a - m else a
  }

  /** Storing a number in a machine word and reading it back. */
  function Store(m: nat, a: int): (v: int)
    requires m > 0
  {
    Signed(m, a % m)
  }

  predicate Fits(m: nat, a: int) {
    -(m as int) <= 2 * a < m
  }

  lemma StoreFits(m: nat, a: int)
    requires m > 0 && Fits(m, a)
    ensures Store(m, a) == a
  {
    if a >= 0 { DivModUnique(a, m, 0, a); } else { DivModUnique(a, m, -1, a + m); }
  }
}
