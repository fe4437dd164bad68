/** The log-depth circuits over Boolean sharings: comparison and addition.

    Each circuit is the source's sequence of protocol operations, run on the joint state of the parties; its
    contract says what the result opens to.  `ms` supplies the masks of the successive ANDs. */
module Circuits {
  import opened Arith
  import opened Words
  import opened VectorBits
  import opened Sharing
  import opened Boolean

  ghost predicate GoodMasks(ms: nat -> AndMask, n: nat, l: nat) {
    forall t :: GoodMask(ms(t), n, l)
  }

  /** The last two ANDs of a comparison, from mask `t` on, are masked with single bits.  They are the only ones whose
      masks stay visible in the shares of the result. */
  predicate OrderMasks(ms: nat -> AndMask, t: nat) {
    BitMask(ms(t)) && BitMask(ms(t + 1))
  }

  /** The smallest power of two that is not below `digits`, starting the search at `p`. */
  function RoundUp(digits: nat, p: nat): (r: nat)
    requires p > 0
    decreases digits - p
  {
    if digits <= p then p else RoundUp(digits, 2 * p)
  }

  lemma {:induction false} RoundUpDigits(k: nat, j: nat)
    requires k >= 2 && j <= k
    ensures RoundUp(Pow2(k) - 1, Pow2(j)) == Pow2(k)
    decreases k - j
  {
    if j < k {
      Pow2Monotone(j, k - 1);
      assert Pow2(k) == 2 * Pow2(k - 1);
      Pow2Monotone(1, k - 1);
      RoundUpDigits(k, j + 1);
    }
  }

  /** The levels of a circuit are 2, 4, ..., 2^k. */
  lemma Levels(t: nat, k: nat)
    requires t <= k
    ensures t < k <==> 2 * Pow2(t) <= Pow2(k)
    ensures t < k ==> IsLevel(2 * Pow2(t)) && Pow2(k) % (2 * Pow2(t)) == 0
  {
    if t < k {
      Pow2Monotone(t + 1, k);
      Pow2Divides(t + 1, k);
      assert Pow2(t + 1) == 2 * Pow2(t);
    }
  }

  // ------------------------------------------------------------------ blocks

  /** The end of the aligned block of `size` bits around bit `j`. */
  function BlockEnd(j: nat, size: nat): (e: nat)
    requires size > 0
    ensures e > j
  {
    DivMod(j, size);
    j - j % size + size
  }

  /** Position in a block of `2 * s` and in the half of it. */
  lemma HalfBlock(j: nat, s: nat)
    requires s > 0
    ensures j % s == if j % (2 * s) < s then j % (2 * s) else j % (2 * s) - s
    ensures j - j % (2 * s) >= 0 && (j - j % (2 * s) + s) % s == 0
  {
    var q, p := j / (2 * s), j % (2 * s);
    DivMod(j, 2 * s);
    ModAtMost(j, 2 * s);
    if p < s {
      assert j == (2 * q) * s + p;
      DivModUnique(j, s, 2 * q, p);
    } else {
      assert j == (2 * q + 1) * s + (p - s);
      DivModUnique(j, s, 2 * q + 1, p - s);
    }
    assert j - p + s == (2 * q + 1) * s + 0;
    DivModUnique(j - p + s, s, 2 * q + 1, 0);
  }

  // -------------------------------------------------------------- same prefix

  /** Bit `j` of `w` says whether `a` and `b` agree from bit `j` to the end of its block. */
  predicate SameInBlocks(w: Word, a: Word, b: Word, size: nat)
    requires size > 0 && |a| == |b|
  {
    |w| == |a| && forall j :: 0 <= j < |w| ==>
      BlockEnd(j, size) <= |w| && w[j] == SameAbove(a, b, j, BlockEnd(j, size))
  }

  lemma SameStart(w: Word, a: Word, b: Word)
    requires |w| == |a| == |b| && forall j :: 0 <= j < |w| ==> w[j] == (a[j] == b[j])
    ensures SameInBlocks(w, a, b, 1)
  {
    forall j | 0 <= j < |w| ensures BlockEnd(j, 1) == j + 1 { DivModUnique(j, 1, j, 0); }
  }

  lemma SameEnd(w: Word, a: Word, b: Word)
    requires |a| == |b| && |a| > 0 && SameInBlocks(w, a, b, |a|)
    ensures forall j :: 0 <= j < |w| ==> w[j] == SameAbove(a, b, j, |a|)
  {
    forall j | 0 <= j < |w| ensures BlockEnd(j, |a|) == |a| { DivModUnique(j, |a|, 0, j); }
  }

  lemma SameStep(w: Word, a: Word, b: Word, s: nat)
    requires s > 0 && |a| == |b| && |a| % (2 * s) == 0 && SameInBlocks(w, a, b, s) && IsLevel(2 * s)
    ensures SameInBlocks(And(LevelShift(w, 2 * s), w), a, b, 2 * s)
  {
    var v := And(LevelShift(w, 2 * s), w);
    forall j | 0 <= j < |w|
      ensures BlockEnd(j, 2 * s) <= |w| && v[j] == SameAbove(a, b, j, BlockEnd(j, 2 * s))
    {
      HalfBlock(j, s);
      BlockBound(j, |w|, 2 * s);
      var m := LevelSource(j, 2 * s, |w|);
      assert v[j] == (w[m] && w[j]);
      if j % (2 * s) < s {
        assert m % s == 0 && BlockEnd(j, s) == m && BlockEnd(m, s) == BlockEnd(j, 2 * s);
        assert SameAbove(a, b, j, m + s) == (SameAbove(a, b, j, m) && SameAbove(a, b, m, m + s));
      }
    }
  }

  /** One round of the loop. */
  method SameRound(x: Joint<Word>, l: nat, levelSize: nat, m: AndMask) returns (z: Joint<Word>)
    requires Width(x, l) && l > 0 && IsLevel(levelSize) && l % levelSize == 0 && GoodMask(m, |x|, l)
    ensures |z| == |x| && Width(z, l)
    ensures SecretB(z, l) == And(LevelShift(SecretB(x, l), levelSize), SecretB(x, l))
  {
    var shifted := LocalB(Level(levelSize), x, l);
    z := AndB(shifted, x, l, m);
  }

  method BitSame(x: Joint<Word>, y: Joint<Word>, l: nat, k: nat, ms: nat -> AndMask) returns (same: Joint<Word>)
    requires k >= 2 && l == Pow2(k) && Width(x, l) && Width(y, l) && |x| == |y| && GoodMasks(ms, |x|, l)
    ensures |same| == |x| && Width(same, l)
    ensures forall j :: 0 <= j < l ==>
      SecretB(same, l)[j] == SameAbove(SecretB(x, l), SecretB(y, l), j, l)
  {
    hide Width, SecretB;
    var maxBits := RoundUp(l - 1, 1);
    RoundUpDigits(k, 0);
    ghost var a, b := SecretB(x, l), SecretB(y, l);
    var different := XorB(x, y, l);
    same := NotB(different, l);
    SameStart(SecretB(same, l), a, b);
    var levelSize := 2;
    var t := 0;
    while levelSize <= maxBits
      invariant t <= k && levelSize == 2 * Pow2(t)
      invariant |same| == |x| && Width(same, l)
      invariant SameInBlocks(SecretB(same, l), a, b, Pow2(t))
      decreases k - t
    {
      Levels(t, k);
      SameStep(SecretB(same, l), a, b, Pow2(t));
      same := SameRound(same, l, levelSize, ms(t));
      levelSize := levelSize * 2;
      t := t + 1;
    }
    Levels(t, k);
    SameEnd(SecretB(same, l), a, b);
  }

  method Equal(x: Joint<Word>, y: Joint<Word>, l: nat, k: nat, ms: nat -> AndMask) returns (z: Joint<Word>)
    requires k >= 2 && l == Pow2(k) && Width(x, l) && Width(y, l) && |x| == |y| && GoodMasks(ms, |x|, l)
    ensures |z| == |x| && Width(z, l) && SingleBit(z)
    ensures SecretB(z, l) == BitWord(l, SecretB(x, l) == SecretB(y, l))
  {
    hide Width, SecretB, SingleBit;
    var same := BitSame(x, y, l, k, ms);
    z := LocalB(Mask(BitWord(l, true)), same, l);
    assert SameAbove(SecretB(x, l), SecretB(y, l), 0, l) <==> SecretB(x, l) == SecretB(y, l);
    assert SecretB(z, l) == BitWord(l, SecretB(x, l) == SecretB(y, l));
  }

  // ---------------------------------------------------------- greater-than

  /** `e` marks the highest position below the sign where `a` and `b` differ, if `a` has a one there. */
  predicate GreaterEdge(e: Word, a: Word, b: Word)
    requires |a| == |b|
  {
    |e| == |a| && forall j {:trigger e[j]} :: 0 <= j < |a| ==>
      e[j] == (j + 1 < |a| && SameAbove(a, b, j + 1, |a|) && !SameAbove(a, b, j, |a|) && a[j])
  }

  /** The highest position below `hi` where two words differ, or -1. */
  lemma {:induction false} TopDifference(a: Word, b: Word, hi: nat) returns (d: int)
    requires |a| == |b| && hi <= |a|
    ensures -1 <= d < hi && SameAbove(a, b, d + 1, hi)
    ensures d >= 0 ==> a[d] != b[d]
  {
    if hi == 0 {
      d := -1;
    } else if a[hi - 1] != b[hi - 1] {
      d := hi - 1;
    } else {
      d := TopDifference(a, b, hi - 1);
    }
  }

  lemma EdgeParity(e: Word, a: Word, b: Word)
    requires |a| == |b| && |a| > 0 && GreaterEdge(e, a, b) && Sign(a) == Sign(b)
    ensures Parity(e, |a| - 1) == (ToInt(a) > ToInt(b))
  {
    var h := |a| - 1;
    var d := TopDifference(a, b, h);
    forall j | d < j < |a| ensures SameAbove(a, b, j, |a|) {}
    if d < 0 {
      LowDepends(a, b, h);
      forall j | 0 <= j < h ensures !e[j] { assert SameAbove(a, b, j, |a|); }
      ParityNone(e, h);
    } else {
      forall j | 0 <= j < h && j != d ensures !e[j] {
        if j < d { assert !SameAbove(a, b, j + 1, |a|); } else { assert SameAbove(a, b, j, |a|); }
      }
      assert SameAbove(a, b, d + 1, |a|) && !SameAbove(a, b, d, |a|);
      ParityOne(e, d, h);
      if a[d] { HighestDifference(a, b, d, h); } else { HighestDifference(b, a, d, h); }
    }
  }

  /** The final correction with the sign bits. */
  lemma SignedGreater(a: Word, b: Word, unsignedGreater: bool)
    requires |a| == |b| && |a| > 0
    requires Sign(a) == Sign(b) ==> unsignedGreater == (ToInt(a) > ToInt(b))
    ensures (ToInt(a) > ToInt(b)) == if Sign(a) != Sign(b) then Sign(b) else unsignedGreater
  {
    ToIntToNat(a);
    ToIntToNat(b);
  }

  /** `(diffs & sign_2) ^ (!diffs & res)` on the opened words. */
  lemma SelectBySigns(a: Word, b: Word, sign1: Word, sign2: Word, diffs: Word, same: Word, res: Word, l: nat)
    requires l > 0 && |a| == |b| == |same| == |res| == l && IsBit(res)
    requires sign1 == ShiftRight(a, l - 1) && sign2 == ShiftRight(b, l - 1) && diffs == Xor(sign1, sign2)
    requires same[0] == !diffs[0]
    ensures Xor(And(diffs, sign2), And(same, res)) ==
            BitWord(l, if Sign(a) != Sign(b) then Sign(b) else res[0])
  {
    assert sign1[0] == Sign(a) && sign2[0] == Sign(b) && IsBit(sign1) && IsBit(sign2);
  }

  /** The sign of the second operand, and whether the signs differ. */
  method SignBits(x: Joint<Word>, y: Joint<Word>, l: nat) returns (sign2: Joint<Word>, diffs: Joint<Word>)
    requires l > 0 && Width(x, l) && Width(y, l) && |x| == |y|
    ensures |sign2| == |diffs| == |x| && Width(sign2, l) && Width(diffs, l) && SingleBit(sign2) && SingleBit(diffs)
    ensures SecretB(sign2, l) == ShiftRight(SecretB(y, l), l - 1)
    ensures SecretB(diffs, l) == Xor(ShiftRight(SecretB(x, l), l - 1), ShiftRight(SecretB(y, l), l - 1))
  {
    hide Width, SecretB, SingleBit;
    var sign1 := LocalB(Right(l - 1), x, l);
    sign2 := LocalB(Right(l - 1), y, l);
    diffs := XorB(sign1, sign2, l);
  }

  /** `(diffs & sign_2) ^ (!diffs & res)`. */
  method CorrectSigns(x: Joint<Word>, y: Joint<Word>, res: Joint<Word>, l: nat, ms: nat -> AndMask, t: nat)
    returns (z: Joint<Word>)
    requires l > 0 && Width(x, l) && Width(y, l) && Width(res, l) && |x| == |y| == |res|
    requires SingleBit(res) && GoodMasks(ms, |x|, l)
    ensures |z| == |x| && Width(z, l)
    ensures OrderMasks(ms, t) ==> SingleBit(z)
    ensures var a, b := SecretB(x, l), SecretB(y, l);
      SecretB(z, l) == BitWord(l, if Sign(a) != Sign(b) then Sign(b) else SecretB(res, l)[0])
  {
    ghost var a, b := SecretB(x, l), SecretB(y, l);
    SingleBitOpens(res, l);
    hide Width, SecretB, SingleBit, Apply, IsBit, Sign;
    var sign2, diffs := SignBits(x, y, l);
    var left := AndB(diffs, sign2, l, ms(t));
    var same := NotBit(diffs, l);
    var right := AndB(same, res, l, ms(t + 1));
    z := XorB(left, right, l);
    SelectBySigns(a, b, ShiftRight(a, l - 1), ShiftRight(b, l - 1), SecretB(diffs, l), SecretB(same, l),
                  SecretB(res, l), l);
  }

  /** The bit that decides the order, before the signs are taken into account. */
  method Greater(x: Joint<Word>, y: Joint<Word>, l: nat, k: nat, ms: nat -> AndMask) returns (z: Joint<Word>)
    requires k >= 2 && l == Pow2(k) && Width(x, l) && Width(y, l) && |x| == |y| && GoodMasks(ms, |x|, l)
    ensures |z| == |x| && Width(z, l)
    ensures OrderMasks(ms, k + 2) ==> SingleBit(z)
    ensures SecretB(z, l) == BitWord(l, ToInt(SecretB(x, l)) > ToInt(SecretB(y, l)))
  {
    hide Width, SecretB, SingleBit;
    ghost var a, b := SecretB(x, l), SecretB(y, l);
    var same := BitSame(x, y, l, k, ms);
    var shifted := LocalB(Right(1), same, l);
    var different := NotB(same, l);
    var edge := AndB(shifted, different, l, ms(k));
    edge := AndB(edge, x, l, ms(k + 1));
    assert GreaterEdge(SecretB(edge, l), a, b);
    var res := LocalB(XorAll, edge, l);
    z := CorrectSigns(x, y, res, l, ms, k + 2);
    if Sign(a) == Sign(b) { EdgeParity(SecretB(edge, l), a, b); }
    SignedGreater(a, b, SecretB(res, l)[0]);
  }

  // ------------------------------------------------------- fused comparison

  predicate TopBitsDiffer(a: Word, b: Word)
    requires |a| == |b| >= 2
  {
    a[|a| - 1] != b[|a| - 1] || a[|a| - 2] != b[|a| - 2]
  }

  /** `e` marks the highest differing position; the bit below the sign is forced on when `odd` and off otherwise. */
  predicate ForcedEdge(e: Word, a: Word, b: Word, odd: bool)
    requires |a| == |b| >= 2
  {
    |e| == |a| && !e[|a| - 1] && forall j {:trigger e[j]} :: 0 <= j < |a| - 1 ==>
      e[j] == ((if j == |a| - 2 then odd else SameAbove(a, b, j + 1, |a|)) && !SameAbove(a, b, j, |a|))
  }

  lemma ForcedEdgeAt(e: Word, a: Word, b: Word, odd: bool) returns (d: int)
    requires |a| == |b| >= 2 && ForcedEdge(e, a, b, odd)
    ensures -1 <= d < |a| - 1
    ensures forall j :: 0 <= j < |a| - 1 && j != d ==> !e[j]
    ensures d >= 0 <==> a != b && (odd || !TopBitsDiffer(a, b))
    ensures d >= 0 ==> e[d]
    ensures d >= 0 && Sign(a) == Sign(b) ==> a[d] != b[d] && SameAbove(a, b, d + 1, |a| - 1)
  {
    var h := |a| - 1;
    var top := TopDifference(a, b, h);
    forall j | top < j <= h && Sign(a) == Sign(b) ensures SameAbove(a, b, j, |a|) {}
    assert Sign(a) != Sign(b) ==> forall j :: 0 <= j <= h ==> !SameAbove(a, b, j, |a|) by {
      assert Sign(a) != Sign(b) ==> a[h] != b[h];
    }
    assert top >= 0 ==> forall j :: 0 <= j <= top ==> !SameAbove(a, b, j, |a|) by {
      assert top >= 0 ==> a[top] != b[top];
    }
    if Sign(a) != Sign(b) {
      d := if odd then h - 1 else -1;
    } else {
      assert top < 0 <==> a == b by { assert top < 0 ==> SameAbove(a, b, 0, |a|); }
      d := if top == h - 1 && !odd then -1 else top;
    }
    forall j | 0 <= j < h && j != d ensures !e[j] {
      if Sign(a) == Sign(b) && j > top { assert SameAbove(a, b, j, |a|); }
    }
    assert d >= 0 && d < h - 1 ==> SameAbove(a, b, d + 1, |a|);
  }

  lemma ForcedEqual(e: Word, a: Word, b: Word, odd: bool)
    requires |a| == |b| >= 2 && ForcedEdge(e, a, b, odd)
    ensures Parity(e, |a| - 1) == (a != b && (odd || !TopBitsDiffer(a, b)))
  {
    var d := ForcedEdgeAt(e, a, b, odd);
    if d < 0 { ParityNone(e, |a| - 1); } else { ParityOne(e, d, |a| - 1); }
  }

  lemma ForcedGreater(e: Word, g: Word, a: Word, b: Word, odd: bool)
    requires |a| == |b| >= 2 && ForcedEdge(e, a, b, odd) && Sign(a) == Sign(b) && g == And(e, a)
    ensures Parity(g, |a| - 1) == (ToInt(a) > ToInt(b) && (odd || !TopBitsDiffer(a, b)))
  {
    var h := |a| - 1;
    var d := ForcedEdgeAt(e, a, b, odd);
    if d >= 0 {
      ParityOne(g, d, h);
      if a[d] { HighestDifference(a, b, d, h); } else { HighestDifference(b, a, d, h); }
    } else {
      ParityNone(g, h);
    }
  }

  /** `shifted & ~sameBit` after the bit below the sign is set in every share of `shifted`. */
  method ForcedEdges(same: Joint<Word>, l: nat, ghost a: Word, ghost b: Word, m: AndMask) returns (edge: Joint<Word>)
    requires l >= 4 && |a| == |b| == l && Width(same, l) && GoodMask(m, |same|, l)
    requires forall j :: 0 <= j < l ==> SecretB(same, l)[j] == SameAbove(a, b, j, l)
    ensures |edge| == |same| && Width(edge, l)
    ensures ForcedEdge(SecretB(edge, l), a, b, |same| == 3)
  {
    hide Width, SecretB, SingleBit;
    var shifted := LocalB(Right(1), same, l);
    shifted := SetBits(shifted, l, ShiftLeft(BitWord(l, true), l - 2));
    var different := NotB(same, l);
    edge := AndB(shifted, different, l, m);
  }

  /** The two edge words of the fused comparison. */
  method Edges(x: Joint<Word>, y: Joint<Word>, l: nat, k: nat, ms: nat -> AndMask)
    returns (edgeEq: Joint<Word>, edgeGt: Joint<Word>)
    requires k >= 2 && l == Pow2(k) && Width(x, l) && Width(y, l) && |x| == |y| && GoodMasks(ms, |x|, l)
    ensures |edgeEq| == |edgeGt| == |x| && Width(edgeEq, l) && Width(edgeGt, l) && l >= 4 && (|x| == 3 || |x| == 4)
    ensures ForcedEdge(SecretB(edgeEq, l), SecretB(x, l), SecretB(y, l), |x| == 3)
    ensures SecretB(edgeGt, l) == And(SecretB(edgeEq, l), SecretB(x, l))
  {
    Pow2Monotone(2, k);
    assert |x| == 3 || |x| == 4;
    hide Width, SecretB, SingleBit, ForcedEdge, SameAbove;
    var same := BitSame(x, y, l, k, ms);
    edgeEq := ForcedEdges(same, l, SecretB(x, l), SecretB(y, l), ms(k));
    edgeGt := AndB(edgeEq, x, l, ms(k + 1));
  }

  /** Fused `==` and `>` of the multi-key sort.  With three components both are exact; with four, the forced bit is
      cleared instead of set, and words that differ in one of their two top bits are reported as equal. */
  method Compare(x: Joint<Word>, y: Joint<Word>, l: nat, k: nat, ms: nat -> AndMask)
    returns (eq: Joint<Word>, gt: Joint<Word>)
    requires k >= 2 && l == Pow2(k) && Width(x, l) && Width(y, l) && |x| == |y| && GoodMasks(ms, |x|, l)
    ensures |eq| == |gt| == |x| && Width(eq, l) && Width(gt, l) && SingleBit(eq)
    ensures OrderMasks(ms, k + 2) ==> SingleBit(gt)
    ensures var a, b := SecretB(x, l), SecretB(y, l);
      SecretB(eq, l) == BitWord(l, a == b || (|x| == 4 && TopBitsDiffer(a, b)))
    ensures var a, b := SecretB(x, l), SecretB(y, l);
      SecretB(gt, l) == BitWord(l, ToInt(a) > ToInt(b) &&
                                   !(|x| == 4 && Sign(a) == Sign(b) && TopBitsDiffer(a, b)))
  {
    hide Width, SecretB, SingleBit, ToInt, TopBitsDiffer, ForcedEdge, SameAbove, Parity, OrderMasks, IsBit;
    ghost var a, b, odd := SecretB(x, l), SecretB(y, l), |x| == 3;
    var edgeEq, edgeGt := Edges(x, y, l, k, ms);
    var some := LocalB(XorAll, edgeEq, l);
    eq := NotBit(some, l);
    var res := LocalB(XorAll, edgeGt, l);
    gt := CorrectSigns(x, y, res, l, ms, k + 2);
    SingleBitOpens(eq, l);
    ForcedEqual(SecretB(edgeEq, l), a, b, odd);
    BitWordOf(SecretB(eq, l), a == b || (!odd && TopBitsDiffer(a, b)));
    if Sign(a) == Sign(b) { ForcedGreater(SecretB(edgeEq, l), SecretB(edgeGt, l), a, b, odd); }
    SignedGreater(a, b, ToInt(a) > ToInt(b));
  }

  lemma BitWordOf(w: Word, v: bool)
    requires |w| > 0 && IsBit(w) && w[0] == v
    ensures w == BitWord(|w|, v)
  {
  }
}
