/** The bit-level methods of the plaintext `Vector`, element by element.

    Every method with a loop is proved to compute a closed-form function of the word it is given; the
    functions are what the circuits over shares are reasoned about with. */
module VectorBits {
  import opened Arith
  import opened Words

  function ShiftLeft(w: Word, s: nat): (r: Word)
    ensures |r| == |w| && forall j :: 0 <= j < |w| ==> r[j] == (j >= s && w[j - s])
  {
    seq(|w|, j requires 0 <= j < |w| => j >= s && w[j - s])
  }

  /** Logical shift: the source casts to the unsigned type first. */
  function ShiftRight(w: Word, s: nat): (r: Word)
    ensures |r| == |w| && forall j :: 0 <= j < |w| ==> r[j] == (j + s < |w| && w[j + s])
  {
    seq(|w|, j requires 0 <= j < |w| => j + s < |w| && w[j + s])
  }

  function GetBit(w: Word, i: nat): (r: Word)
    requires |w| > 0
    ensures |r| == |w| && IsBit(r) && (i < |w| ==> r[0] == w[i])
  {
    And(ShiftRight(w, i), BitWord(|w|, true))
  }

  function SetBit(w: Word, bit: Word, i: nat): (r: Word)
    requires |w| == |bit| > i && IsBit(bit)
    ensures r == w[i := bit[0]]
  {
    var r := Or(And(w, Not(ShiftLeft(BitWord(|w|, true), i))), ShiftLeft(bit, i));
    assert r == w[i := bit[0]];
    r
  }

  // ------------------------------------------------------------ level shifts

  /** The aligned block of `size` positions around `j` lies inside `n` when `size` divides `n`. */
  lemma BlockBound(j: nat, n: nat, size: nat)
    requires size > 0 && n % size == 0 && j < n
    ensures j - j % size + size <= n
  {
    var q, t := j / size, n / size;
    DivMod(j, size);
    DivMod(n, size);
    if q + 1 > t {
      MulMono(t, q, size);
    }
    MulMono(q + 1, t, size);
  }

  /** Position `p` of block `q`. */
  lemma InBlock(q: nat, p: nat, size: nat)
    requires p < size
    ensures (q * size + p) % size == p && (q * size + p) / size == q
  {
    DivModUnique(q * size + p, size, q, p);
  }

  /** Stepping from one block boundary to the previous one. */
  lemma PreviousBlock(b: nat, size: nat)
    requires size > 0 && b % size == 0 && b > 0
    ensures b >= size && (b - size) % size == 0
    ensures forall i :: b - size <= i < b ==> i % size == i - (b - size)
  {
    var q := b / size;
    DivMod(b, size);
    if q < 1 { MulMono(q, 0, size); }
    MulMono(1, q, size);
    assert b - size == (q - 1) * size;
    forall i | b - size <= i < b ensures i % size == i - (b - size) {
      InBlock(q - 1, i - (b - size), size);
    }
    InBlock(q - 1, 0, size);
  }

  /** A block that begins inside `n` ends inside it. */
  lemma NextBlock(b: nat, n: nat, size: nat)
    requires size > 0 && n % size == 0 && n > 0 && (b == 0 || b % size == 0) && b < n
    ensures b % size == 0 && b + size <= n && (b + size) % size == 0
    ensures forall i :: b <= i < b + size ==> i % size == i - b
  {
    DivModUnique(0, size, 0, 0);
    DivMod(b, size);
    BlockBound(b, n, size);
    var q := b / size;
    forall i | b <= i < b + size ensures i % size == i - b { DivModUnique(i, size, q, i - b); }
    DivModUnique(b + size, size, q + 1, 0);
  }

  lemma ModAtMost(j: nat, size: nat)
    requires size > 0
    ensures 0 <= j % size <= j
  {
    DivMod(j, size);
    MulMono(0, j / size, size);
  }

  predicate IsLevel(size: nat) {
    size > 0 && size % 2 == 0
  }

  function LevelSource(j: nat, size: nat, n: nat): (s: nat)
    requires IsLevel(size) && n % size == 0 && j < n
    ensures s < n
  {
    BlockBound(j, n, size);
    var p := j % size;
    if p < size / 2 then j - p + size / 2 else j
  }

  /** Every bit of the lower half of an aligned block becomes the lowest bit of the upper half. */
  function LevelShift(w: Word, size: nat): (r: Word)
    requires IsLevel(size) && |w| % size == 0
    ensures |r| == |w|
    ensures forall j :: 0 <= j < |w| ==> r[j] == w[LevelSource(j, size, |w|)]
  {
    seq(|w|, j requires 0 <= j < |w| => w[LevelSource(j, size, |w|)])
  }

  function ReverseLevelSource(j: nat, size: nat): (s: nat)
    requires IsLevel(size)
    ensures s <= j
  {
    ModAtMost(j, size);
    var p := j % size;
    if p >= size / 2 then j - p + size / 2 - 1 else j
  }

  /** Every bit of the upper half of an aligned block becomes the highest bit of the lower half. */
  function ReverseLevelShift(w: Word, size: nat): (r: Word)
    requires IsLevel(size)
    ensures |r| == |w|
    ensures forall j :: 0 <= j < |w| ==> r[j] == w[ReverseLevelSource(j, size)]
  {
    seq(|w|, j requires 0 <= j < |w| => w[ReverseLevelSource(j, size)])
  }

  /** The inner loops: `bit` goes to the `half` positions below, or above, position `j`. */
  method SetBelow(w: Word, bit: Word, j: nat, half: nat) returns (res: Word)
    requires |bit| == |w| && IsBit(bit) && half <= j < |w|
    ensures |res| == |w|
    ensures forall i {:trigger res[i]} :: 0 <= i < |w| ==> res[i] == if j - half <= i < j then bit[0] else w[i]
  {
    res := w;
    var k := 1;
    while k <= half
      invariant 1 <= k <= half + 1 && |res| == |w|
      invariant forall i {:trigger res[i]} :: 0 <= i < |w| ==> res[i] == if j - k < i < j then bit[0] else w[i]
    {
      res := SetBit(res, bit, j - k);
      k := k + 1;
    }
  }

  method SetAbove(w: Word, bit: Word, j: nat, half: nat) returns (res: Word)
    requires |bit| == |w| && IsBit(bit) && j + half < |w|
    ensures |res| == |w|
    ensures forall i {:trigger res[i]} :: 0 <= i < |w| ==> res[i] == if j < i <= j + half then bit[0] else w[i]
  {
    res := w;
    var k := 1;
    while k <= half
      invariant 1 <= k <= half + 1 && |res| == |w|
      invariant forall i {:trigger res[i]} :: 0 <= i < |w| ==> res[i] == if j < i < j + k then bit[0] else w[i]
    {
      res := SetBit(res, bit, j + k);
      k := k + 1;
    }
  }

  method BitLevelShift(w: Word, levelSize: nat) returns (res: Word)
    requires IsLevel(levelSize) && |w| % levelSize == 0 && |w| > 0
    ensures res == LevelShift(w, levelSize)
  {
    var half := levelSize / 2;
    res := w;
    PreviousBlock(|w|, levelSize);
    var j := |w| - half;
    while j > 0
      invariant -half <= j <= |w| - half && |res| == |w|
      invariant (j + half) % levelSize == 0
      invariant forall i {:trigger res[i]} :: 0 <= i < |w| ==>
        res[i] == if i >= j + half then w[LevelSource(i, levelSize, |w|)] else w[i]
      decreases j
    {
      var bit := GetBit(w, j);
      PreviousBlock(j + half, levelSize);
      res := SetBelow(res, bit, j, half);
      j := j - levelSize;
    }
    if j + half > 0 {
      PreviousBlock(j + half, levelSize);
    }
    assert res == LevelShift(w, levelSize);
  }

  method ReverseBitLevelShift(w: Word, levelSize: nat) returns (res: Word)
    requires IsLevel(levelSize) && |w| % levelSize == 0 && |w| > 0
    ensures res == ReverseLevelShift(w, levelSize)
  {
    var half := levelSize / 2;
    res := w;
    var j := half - 1;
    NextBlock(0, |w|, levelSize);
    while j < |w| - half
      invariant j >= half - 1 && (j + 1 - half) % levelSize == 0 && j + 1 - half <= |w| == |res|
      invariant forall i {:trigger res[i]} :: 0 <= i < |w| ==>
        res[i] == if i < j + 1 - half then w[ReverseLevelSource(i, levelSize)] else w[i]
      decreases |w| - j
    {
      var bit := GetBit(w, j);
      NextBlock(j + 1 - half, |w|, levelSize);
      res := SetAbove(res, bit, j, half);
      j := j + levelSize;
    }
    if j + 1 - half < |w| { NextBlock(j + 1 - half, |w|, levelSize); }
  }

  // ------------------------------------------------------------------ parity

  predicate Parity(w: Word, j: nat)
    requires j <= |w|
  {
    j > 0 && (w[j - 1] != Parity(w, j - 1))
  }

  /** Parity of all bits but the most significant one, since a signed type has one digit less. */
  function XorBits(w: Word): (r: Word)
    requires |w| > 0
    ensures |r| == |w| && IsBit(r) && r[0] == Parity(w, |w| - 1)
  {
    BitWord(|w|, Parity(w, |w| - 1))
  }

  method BitXor(w: Word) returns (res: Word)
    requires |w| > 0
    ensures res == XorBits(w)
  {
    res := Zero(|w|);
    for j := 0 to |w| - 1
      invariant |res| == |w| && IsBit(res) && res[0] == Parity(w, j)
    {
      res := Xor(res, GetBit(w, j));
    }
    assert res == XorBits(w);
  }

  lemma {:induction false} ParityXor(a: Word, b: Word, j: nat)
    requires |a| == |b| && j <= |a|
    ensures Parity(Xor(a, b), j) == (Parity(a, j) != Parity(b, j))
  {
    if j > 0 {
      ParityXor(a, b, j - 1);
    }
  }

  lemma {:induction false} ParityNone(w: Word, j: nat)
    requires j <= |w| && forall i :: 0 <= i < j ==> !w[i]
    ensures !Parity(w, j)
  {
    if j > 0 {
      ParityNone(w, j - 1);
    }
  }

  /** With at most one set bit, the parity says whether there is one. */
  lemma {:induction false} ParityOne(w: Word, d: nat, j: nat)
    requires d < j <= |w| && forall i :: 0 <= i < j && i != d ==> !w[i]
    ensures Parity(w, j) == w[d]
  {
    if j - 1 == d {
      ParityNone(w, d);
    } else {
      ParityOne(w, d, j - 1);
    }
  }

  // ---------------------------------------------------------- one-bit words

  function Ltz(w: Word): (r: Word)
    requires |w| > 0
    ensures |r| == |w| && IsBit(r) && r[0] == Sign(w)
  {
    BitWord(|w|, ToInt(w) < 0)
  }

  /** Two's-complement negation, which the source uses to copy a single bit to all positions. */
  function Negate(w: Word): (r: Word)
    ensures |r| == |w|
  {
    var m := Pow2(|w|);
    DivMod(m - ToNat(w), m);
    FromNat((m - ToNat(w)) % m, |w|)
  }

  function Spread(w: Word): (r: Word)
    ensures |r| == |w| && forall j :: 0 <= j < |w| ==> r[j] == w[0]
  {
    seq(|w|, j requires 0 <= j < |w| => w[0])
  }

  lemma {:induction false} LowOfBit(w: Word, j: nat)
    requires 0 < j <= |w| && IsBit(w)
    ensures Low(w, j) == if w[0] then 1 else 0
  {
    if j > 1 {
      LowOfBit(w, j - 1);
    }
  }

  /** Whether `w` has a bit set below position `j`. */
  predicate AnySet(w: Word, j: nat)
    requires j <= |w|
  {
    exists i :: 0 <= i < j && w[i]
  }

  /** Negation keeps the lowest set bit and complements the bits above it. */
  lemma NegateAt(w: Word, j: nat)
    requires j < |w|
    ensures Negate(w)[j] == (w[j] != AnySet(w, j))
  {
    var v := seq(|w|, i requires 0 <= i < |w| => w[i] != AnySet(w, i));
    LowOfNegated(w, v, |w|);
    NegateUnique(w, v);
  }

  /** A word and its negation add up to zero modulo 2^L. */
  lemma NegateUnique(w: Word, v: Word)
    requires |v| == |w| && (ToNat(v) + ToNat(w) == Pow2(|w|) || ToNat(v) == ToNat(w) == 0)
    ensures Negate(w) == v
  {
    var m := Pow2(|w|);
    if ToNat(w) == 0 {
      DivModUnique(m, m, 1, 0);
    } else {
      DivModUnique(m - ToNat(w), m, 0, m - ToNat(w));
    }
    FromNatToNat(v);
  }

  lemma {:induction false} LowOfNegated(w: Word, v: Word, j: nat)
    requires j <= |w| == |v| && forall i :: 0 <= i < |w| ==> v[i] == (w[i] != AnySet(w, i))
    ensures Low(v, j) + Low(w, j) == if AnySet(w, j) then Pow2(j) else 0
  {
    if j > 0 {
      LowOfNegated(w, v, j - 1);
    }
  }

  lemma NegateBit(w: Word)
    requires |w| > 0 && IsBit(w)
    ensures Negate(w) == Spread(w)
  {
    forall j | 0 <= j < |w| ensures Negate(w)[j] == w[0] { NegateAt(w, j); }
  }

  /** Logical negation of the whole word. */
  function IsZeroWord(w: Word): (r: Word)
    requires |w| > 0
    ensures |r| == |w| && IsBit(r) && r[0] == (forall j :: 0 <= j < |w| ==> !w[j])
  {
    BitWord(|w|, forall j :: 0 <= j < |w| ==> !w[j])
  }
}
