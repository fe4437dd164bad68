/** Machine words of the share type.

    The C++ templates are instantiated with signed integers of 8, 32 or 64 bits.  Here a word is its bit
    sequence, least significant bit first, for any width; `ToNat` and `ToInt` give the unsigned and the
    two's-complement reading, and the carry functions state what binary addition does bit by bit. */
module Words {
  import opened Arith

  type Word = seq<bool>

  function Pow2(n: nat): (p: nat)
    ensures p >= 1
  {
    if n == 0 then 1 else 2 * Pow2(n - 1)
  }

  lemma {:induction false} Pow2Monotone(i: nat, j: nat)
    requires i <= j
    ensures Pow2(i) <= Pow2(j)
    decreases j - i
  {
    if i < j {
      Pow2Monotone(i, j - 1);
    }
  }

  lemma {:induction false} Pow2Divides(i: nat, j: nat)
    requires i <= j
    ensures Pow2(j) % Pow2(i) == 0
    decreases j - i
  {
    if i == j {
      DivModUnique(Pow2(i), Pow2(i), 1, 0);
    } else {
      Pow2Divides(i, j - 1);
      var q := Pow2(j - 1) / Pow2(i);
      DivMod(Pow2(j - 1), Pow2(i));
      assert Pow2(j) == (2 * q) * Pow2(i) + 0;
      DivModUnique(Pow2(j), Pow2(i), 2 * q, 0);
    }
  }

  /** The logarithm, rounded down. */
  function Log2(n: nat): (r: nat) {
    if n <= 1 then 0 else 1 + Log2(n / 2)
  }

  lemma {:induction false} Log2OfPow2(r: nat)
    ensures Log2(Pow2(r)) == r
  {
    if r > 0 {
      Log2OfPow2(r - 1);
      assert Pow2(r) / 2 == Pow2(r - 1);
    }
  }

  predicate IsPowerOfTwo(n: nat) {
    n == Pow2(Log2(n))
  }

  function Zero(l: nat): (r: Word)
    ensures |r| == l && forall j :: 0 <= j < l ==> !r[j]
  {
    seq(l, j => false)
  }

  /** The word whose only possibly set bit is the least significant one. */
  function BitWord(l: nat, b: bool): (r: Word)
    requires l > 0
    ensures |r| == l && r[0] == b && forall j :: 0 < j < l ==> !r[j]
  {
    seq(l, j => j == 0 && b)
  }

  predicate IsBit(w: Word) {
    forall j :: 0 < j < |w| ==> !w[j]
  }

  function Xor(a: Word, b: Word): (r: Word)
    requires |a| == |b|
    ensures |r| == |a| && forall j :: 0 <= j < |a| ==> r[j] == (a[j] != b[j])
  {
    seq(|a|, j requires 0 <= j < |a| => a[j] != b[j])
  }

  function And(a: Word, b: Word): (r: Word)
    requires |a| == |b|
    ensures |r| == |a| && forall j :: 0 <= j < |a| ==> r[j] == (a[j] && b[j])
  {
    seq(|a|, j requires 0 <= j < |a| => a[j] && b[j])
  }

  function Or(a: Word, b: Word): (r: Word)
    requires |a| == |b|
    ensures |r| == |a| && forall j :: 0 <= j < |a| ==> r[j] == (a[j] || b[j])
  {
    seq(|a|, j requires 0 <= j < |a| => a[j] || b[j])
  }

  function Not(a: Word): (r: Word)
    ensures |r| == |a| && forall j :: 0 <= j < |a| ==> r[j] == !a[j]
  {
    seq(|a|, j requires 0 <= j < |a| => !a[j])
  }

  // ------------------------------------------------------------------ values

  /** The value of the `j` least significant bits. */
  function Low(w: Word, j: nat): (v: nat)
    requires j <= |w|
    ensures v < Pow2(j)
  {
    if j == 0 then 0 else Low(w, j - 1) + (if w[j - 1] then Pow2(j - 1) else 0)
  }

  function ToNat(w: Word): (v: nat)
    ensures v < Pow2(|w|)
  {
    Low(w, |w|)
  }

  /** Two's complement. */
  function ToInt(w: Word): (v: int)
    requires |w| > 0
    ensures -(Pow2(|w| - 1) as int) <= v < Pow2(|w| - 1)
  {
    Low(w, |w| - 1) - (if w[|w| - 1] then Pow2(|w| - 1) else 0)
  }

  predicate Sign(w: Word)
    requires |w| > 0
  {
    w[|w| - 1]
  }

  function FromNat(n: nat, l: nat): (w: Word)
    requires n < Pow2(l)
    ensures |w| == l
  {
    if l == 0 then [] else
      var p := Pow2(l - 1);
      if n < p then FromNat(n, l - 1) + [false] else FromNat(n - p, l - 1) + [true]
  }

  lemma {:induction false} LowDepends(a: Word, b: Word, j: nat)
    requires j <= |a| && j <= |b|
    requires forall i :: 0 <= i < j ==> a[i] == b[i]
    ensures Low(a, j) == Low(b, j)
  {
    if j > 0 {
      LowDepends(a, b, j - 1);
    }
  }

  lemma {:induction false} LowInjective(a: Word, b: Word, j: nat)
    requires j <= |a| && j <= |b|
    requires Low(a, j) == Low(b, j)
    ensures forall i :: 0 <= i < j ==> a[i] == b[i]
  {
    if j > 0 {
      assert a[j - 1] == b[j - 1];
      LowInjective(a, b, j - 1);
    }
  }

  /** Writing a number in binary and reading it back. */
  lemma {:induction false} ToNatFromNat(n: nat, l: nat)
    requires n < Pow2(l)
    ensures ToNat(FromNat(n, l)) == n
  {
    if l > 0 {
      var m := if n < Pow2(l - 1) then n else n - Pow2(l - 1);
      ToNatFromNat(m, l - 1);
      LowDepends(FromNat(n, l), FromNat(m, l - 1), l - 1);
    }
  }

  lemma FromNatToNat(w: Word)
    ensures FromNat(ToNat(w), |w|) == w
  {
    ToNatFromNat(ToNat(w), |w|);
    LowInjective(FromNat(ToNat(w), |w|), w, |w|);
  }

  lemma ToIntToNat(w: Word)
    requires |w| > 0
    ensures ToNat(w) == ToInt(w) + (if Sign(w) then Pow2(|w|) else 0)
    ensures Sign(w) <==> ToInt(w) < 0
  {
  }

  // -------------------------------------------------------------- comparison

  predicate SameAbove(a: Word, b: Word, lo: nat, hi: nat)
    requires hi <= |a| && hi <= |b|
  {
    forall i :: lo <= i < hi ==> a[i] == b[i]
  }

  /** The highest differing bit below `hi` decides the order of the two values. */
  lemma {:induction false} HighestDifference(a: Word, b: Word, d: nat, hi: nat)
    requires d < hi <= |a| && hi <= |b|
    requires a[d] && !b[d] && SameAbove(a, b, d + 1, hi)
    ensures Low(a, hi) > Low(b, hi)
  {
    if hi > d + 1 {
      HighestDifference(a, b, d, hi - 1);
    }
  }

  // ---------------------------------------------------------------- addition

  /** The carry into bit `j` of the binary sum of `a` and `b`. */
  predicate Carry(a: Word, b: Word, j: nat)
    requires |a| == |b| && j <= |a|
  {
    j > 0 && ((a[j - 1] && b[j - 1]) || ((a[j - 1] != b[j - 1]) && Carry(a, b, j - 1)))
  }

  function Sum(a: Word, b: Word): (s: Word)
    requires |a| == |b|
    ensures |s| == |a|
    ensures forall j :: 0 <= j < |a| ==> s[j] == ((a[j] != b[j]) != Carry(a, b, j))
  {
    seq(|a|, j requires 0 <= j < |a| => (a[j] != b[j]) != Carry(a, b, j))
  }

  lemma {:induction false} SumLow(a: Word, b: Word, j: nat)
    requires |a| == |b| && j <= |a|
    ensures Low(a, j) + Low(b, j) == Low(Sum(a, b), j) + (if Carry(a, b, j) then Pow2(j) else 0)
  {
    if j > 0 {
      SumLow(a, b, j - 1);
    }
  }

  /** Bitwise addition with carries is addition modulo 2^L. */
  lemma SumIsModular(a: Word, b: Word)
    requires |a| == |b|
    ensures ToNat(Sum(a, b)) == (ToNat(a) + ToNat(b)) % Pow2(|a|)
  {
    SumLow(a, b, |a|);
    var t, m, s := ToNat(a) + ToNat(b), Pow2(|a|), ToNat(Sum(a, b));
    DivModUnique(t, m, if Carry(a, b, |a|) then 1 else 0, s);
  }

  /** Carry out of bit `j` when the addition starts at bit `lo` with no carry in. */
  predicate Generate(a: Word, b: Word, lo: nat, j: int)
    requires |a| == |b| && -1 <= j < |a|
    decreases j + 1
  {
    j >= lo && ((a[j] && b[j]) || ((a[j] != b[j]) && Generate(a, b, lo, j - 1)))
  }

  predicate Propagate(a: Word, b: Word, lo: nat, j: int)
    requires |a| == |b| && -1 <= j < |a|
  {
    forall i :: lo <= i <= j ==> a[i] != b[i]
  }

  lemma {:induction false} GenerateSplit(a: Word, b: Word, lo: nat, mid: nat, j: int)
    requires |a| == |b| && lo <= mid <= j + 1 <= |a|
    ensures Generate(a, b, lo, j) ==
            (Generate(a, b, mid, j) || (Propagate(a, b, mid, j) && Generate(a, b, lo, mid - 1)))
    decreases j + 1
  {
    if j >= mid {
      GenerateSplit(a, b, lo, mid, j - 1);
      assert Propagate(a, b, mid, j) == (a[j] != b[j] && Propagate(a, b, mid, j - 1));
    }
  }

  lemma {:induction false} GenerateIsCarry(a: Word, b: Word, j: nat)
    requires |a| == |b| && j <= |a|
    ensures Generate(a, b, 0, j - 1) == Carry(a, b, j)
  {
    if j > 0 {
      GenerateIsCarry(a, b, j - 1);
    }
  }

  /** Two's-complement readings tell words apart. */
  lemma SameValueSameWord(a: Word, b: Word)
    requires |a| == |b| > 0
    ensures ToInt(a) == ToInt(b) <==> a == b
  {
    ToIntToNat(a);
    ToIntToNat(b);
    if ToInt(a) == ToInt(b) {
      LowInjective(a, b, |a|);
    }
  }
}
