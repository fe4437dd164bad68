/** Addition of Boolean sharings: the parallel-prefix adder and the packed ripple-carry adder. */
module Adders {
  import opened Arith
  import opened Words
  import opened VectorBits
  import opened Sharing
  import opened Boolean
  import opened Circuits

  // ---------------------------------------------------------- prefix adder

  function BlockStart(j: nat, size: nat): (s: nat)
    requires size > 0
    ensures s <= j
  {
    ModAtMost(j, size);
    j - j % size
  }

  /** After the round of block size `size`, bit `j` of `g` is the carry out of bit `j` when the addition starts at
      the block's first bit, and bit `j` of `p` says whether a carry into the block would reach past bit `j`. */
  predicate PrefixCarries(g: Word, p: Word, a: Word, b: Word, size: nat)
    requires size > 0 && |a| == |b|
  {
    |g| == |p| == |a| && forall j {:trigger g[j]} {:trigger p[j]} :: 0 <= j < |a| ==>
      g[j] == Generate(a, b, BlockStart(j, size), j) && p[j] == Propagate(a, b, BlockStart(j, size), j)
  }

  lemma PrefixStart(g: Word, p: Word, a: Word, b: Word)
    requires |a| == |b| && p == Xor(a, b) && g == And(a, b)
    ensures PrefixCarries(g, p, a, b, 1)
  {
    forall j | 0 <= j < |a|
      ensures g[j] == Generate(a, b, BlockStart(j, 1), j) && p[j] == Propagate(a, b, BlockStart(j, 1), j)
    {
      DivModUnique(j, 1, j, 0);
    }
  }

  /** Where the half blocks lie in a block of `2 * s`. */
  lemma Halves(j: nat, s: nat)
    requires s > 0
    ensures var lo := BlockStart(j, 2 * s);
      if j % (2 * s) < s then BlockStart(j, s) == lo
      else BlockStart(j, s) == lo + s && BlockStart(lo + s - 1, s) == lo && j >= lo + s
  {
    var q, p := j / (2 * s), j % (2 * s);
    DivMod(j, 2 * s);
    HalfBlock(j, s);
    if p >= s {
      var lo := j - p;
      assert lo + s - 1 == (2 * q) * s + (s - 1);
      DivModUnique(lo + s - 1, s, 2 * q, s - 1);
    }
  }

  lemma PrefixStep(g: Word, p: Word, g': Word, p': Word, a: Word, b: Word, s: nat)
    requires s > 0 && IsLevel(2 * s) && |a| == |b| && PrefixCarries(g, p, a, b, s)
    requires g' == Or(g, And(p, ReverseLevelShift(g, 2 * s)))
    requires p' == And(p, ReverseLevelShift(p, 2 * s))
    ensures PrefixCarries(g', p', a, b, 2 * s)
  {
    forall j | 0 <= j < |a|
      ensures g'[j] == Generate(a, b, BlockStart(j, 2 * s), j)
      ensures p'[j] == Propagate(a, b, BlockStart(j, 2 * s), j)
    {
      Halves(j, s);
      var lo, from := BlockStart(j, 2 * s), ReverseLevelSource(j, 2 * s);
      assert g'[j] == (g[j] || (p[j] && g[from])) && p'[j] == (p[j] && p[from]);
      if j % (2 * s) >= s {
        assert from == lo + s - 1;
        GenerateSplit(a, b, lo, lo + s, j);
      } else {
        assert from == j;
      }
    }
  }

  /** `prefix_sum`: combine two generate/propagate pairs. */
  method PrefixSum(g: Joint<Word>, p: Joint<Word>, gShift: Joint<Word>, pShift: Joint<Word>, l: nat,
                   ms: nat -> AndMask, t: nat) returns (gOut: Joint<Word>, pOut: Joint<Word>)
    requires Width(g, l) && Width(p, l) && Width(gShift, l) && Width(pShift, l)
    requires |g| == |p| == |gShift| == |pShift| && GoodMasks(ms, |g|, l)
    ensures |gOut| == |pOut| == |g| && Width(gOut, l) && Width(pOut, l)
    ensures SecretB(gOut, l) == Or(SecretB(g, l), And(SecretB(p, l), SecretB(gShift, l)))
    ensures SecretB(pOut, l) == And(SecretB(p, l), SecretB(pShift, l))
  {
    hide Width, SecretB, SingleBit;
    var both := AndB(p, gShift, l, ms(t));
    gOut := OrB(g, both, l, ms(t + 1));
    pOut := AndB(p, pShift, l, ms(t + 2));
  }

  lemma PrefixEnd(g: Word, p: Word, a: Word, b: Word)
    requires |a| == |b| && |a| > 0 && PrefixCarries(g, p, a, b, |a|)
    ensures Xor(Xor(a, b), ShiftLeft(g, 1)) == Sum(a, b)
  {
    var s := Xor(Xor(a, b), ShiftLeft(g, 1));
    forall j | 0 <= j < |a| ensures s[j] == Sum(a, b)[j] {
      if j > 0 {
        DivModUnique(j - 1, |a|, 0, j - 1);
        assert g[j - 1] == Generate(a, b, 0, j - 1);
        GenerateIsCarry(a, b, j);
      }
    }
  }

  method ParallelPrefixAdder(x: Joint<Word>, y: Joint<Word>, l: nat, k: nat, ms: nat -> AndMask)
    returns (z: Joint<Word>)
    requires k >= 2 && l == Pow2(k) && Width(x, l) && Width(y, l) && |x| == |y| && GoodMasks(ms, |x|, l)
    ensures |z| == |x| && Width(z, l)
    ensures SecretB(z, l) == Sum(SecretB(x, l), SecretB(y, l))
    ensures ToNat(SecretB(z, l)) == (ToNat(SecretB(x, l)) + ToNat(SecretB(y, l))) % Pow2(l)
  {
    hide Width, SecretB, SingleBit, PrefixCarries, Low, IsLevel, ShiftLeft;
    var maxBits := RoundUp(l - 1, 1);
    RoundUpDigits(k, 0);
    ghost var a, b := SecretB(x, l), SecretB(y, l);
    var p := XorB(x, y, l);
    var g := AndB(x, y, l, ms(0));
    var propagate := p;
    PrefixStart(SecretB(g, l), SecretB(p, l), a, b);
    var i := 2;
    var t := 0;
    while i <= maxBits
      invariant t <= k && i == 2 * Pow2(t)
      invariant |g| == |p| == |x| && Width(g, l) && Width(p, l)
      invariant PrefixCarries(SecretB(g, l), SecretB(p, l), a, b, Pow2(t))
      decreases k - t
    {
      Levels(t, k);
      var gShift := LocalB(ReverseLevel(i), g, l);
      var pShift := LocalB(ReverseLevel(i), p, l);
      ghost var g0, p0 := SecretB(g, l), SecretB(p, l);
      g, p := PrefixSum(g, p, gShift, pShift, l, ms, 1 + 3 * t);
      PrefixStep(g0, p0, SecretB(g, l), SecretB(p, l), a, b, Pow2(t));
      i := 2 * i;
      t := t + 1;
    }
    Levels(t, k);
    PrefixEnd(SecretB(g, l), SecretB(p, l), a, b);
    var carries := LocalB(Left(1), g, l);
    z := XorB(propagate, carries, l);
    SumIsModular(a, b);
  }
}
