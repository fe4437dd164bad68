/** Oblivious selection and swapping of single elements, the building blocks of sorting and aggregation. */
module Multiplexing {
  import opened Arith
  import Ring
  import opened Words
  import opened VectorBits
  import opened Sharing
  import opened Algebra
  import opened Arithmetic
  import opened Boolean
  import opened Products
  import ThreePC = Replicated3PC
  import FourPC = Fantastic4PC

  // ---------------------------------------------------------------- Boolean

  /** `(~c & a) ^ (c & b)` on opened words. */
  function Mixed(c: Word, a: Word, b: Word): (w: Word)
    requires |c| == |a| == |b|
    ensures |w| == |c| && forall j :: 0 <= j < |c| ==> w[j] == if c[j] then b[j] else a[j]
  {
    Xor(And(Not(c), a), And(c, b))
  }

  /** A control word selects one of the operands, whatever they are, exactly when it is all zeros or all ones. */
  lemma SelectsExactly(c: Word, first: bool)
    ensures (forall a, b {:trigger Mixed(c, a, b)} :: |a| == |b| == |c| ==> Mixed(c, a, b) == if first then a else b)
       <==> forall j :: 0 <= j < |c| ==> c[j] == !first
  {
    if forall a, b {:trigger Mixed(c, a, b)} :: |a| == |b| == |c| ==> Mixed(c, a, b) == if first then a else b {
      var w := Mixed(c, Zero(|c|), Not(Zero(|c|)));
      forall j | 0 <= j < |c| ensures c[j] == !first { assert w[j] == c[j]; }
    }
    if forall j :: 0 <= j < |c| ==> c[j] == !first {
      forall a, b {:trigger Mixed(c, a, b)} | |a| == |b| == |c| ensures Mixed(c, a, b) == if first then a else b {}
    }
  }

  /** `(~ext & a) ^ (ext & b)`. */
  method MixB(ext: Joint<Word>, a: Joint<Word>, b: Joint<Word>, l: nat, m0: AndMask, m1: AndMask)
    returns (z: Joint<Word>)
    requires Width(ext, l) && Width(a, l) && Width(b, l) && |ext| == |a| == |b|
    requires GoodMask(m0, |a|, l) && GoodMask(m1, |a|, l)
    ensures |z| == |a| && Width(z, l)
    ensures SecretB(z, l) == Mixed(SecretB(ext, l), SecretB(a, l), SecretB(b, l))
  {
    hide Width, SecretB, SingleBit;
    var no := NotB(ext, l);
    var left := AndB(no, a, l, m0);
    var right := AndB(ext, b, l, m1);
    z := XorB(left, right, l);
  }

  /** Selection by the low bit of `sel`, exact when its shares can be extended. */
  method MultiplexB(sel: Joint<Word>, a: Joint<Word>, b: Joint<Word>, l: nat, m0: AndMask, m1: AndMask)
    returns (z: Joint<Word>)
    requires l > 0 && Width(sel, l) && Width(a, l) && Width(b, l) && |sel| == |a| == |b|
    requires GoodMask(m0, |a|, l) && GoodMask(m1, |a|, l)
    ensures |z| == |a| && Width(z, l)
    ensures SecretB(z, l) == Mixed(Extended(sel, l), SecretB(a, l), SecretB(b, l))
    ensures Extendable(sel, l) ==> SecretB(z, l) == if SecretB(sel, l)[0] then SecretB(b, l) else SecretB(a, l)
  {
    hide Width, SecretB, SingleBit, Extendable, Extended;
    var ext := ExtendLsb(sel, l);
    z := MixB(ext, a, b, l, m0, m1);
  }

  /** The multiplexer selects by the low bit of `sel`, for all operands, exactly when the shares can be extended. */
  lemma MultiplexExactly(sel: Joint<Word>, l: nat)
    requires l > 0 && Width(sel, l)
    ensures (forall a, b {:trigger Mixed(Extended(sel, l), a, b)} :: |a| == |b| == l ==>
               Mixed(Extended(sel, l), a, b) == if SecretB(sel, l)[0] then b else a)
       <==> Extendable(sel, l)
  {
    hide Width, SecretB, OddSetBelow;
    var e, s := Extended(sel, l), SecretB(sel, l);
    SelectsExactly(e, !s[0]);
    ExtendedExactly(sel, l);
    assert (forall j :: 0 <= j < l ==> e[j] == s[0]) <==> e == Spread(s);
  }

  /** Exchanges two elements when the control bit is set. */
  method SwapB(bit: Joint<Word>, x: Joint<Word>, y: Joint<Word>, l: nat, ms: nat -> AndMask, t: nat)
    returns (x': Joint<Word>, y': Joint<Word>)
    requires l > 0 && Width(bit, l) && Width(x, l) && Width(y, l) && |bit| == |x| == |y| && Extendable(bit, l)
    requires forall u :: GoodMask(ms(u), |x|, l)
    ensures |x'| == |y'| == |x| && Width(x', l) && Width(y', l)
    ensures SecretB(x', l) == if SecretB(bit, l)[0] then SecretB(y, l) else SecretB(x, l)
    ensures SecretB(y', l) == if SecretB(bit, l)[0] then SecretB(x, l) else SecretB(y, l)
  {
    hide Width, SecretB, SingleBit, Extendable;
    var ext := ExtendLsb(bit, l);
    x' := MixB(ext, x, y, l, ms(t), ms(t + 1));
    y' := MixB(ext, y, x, l, ms(t + 2), ms(t + 3));
  }

  // ------------------------------------------------------------- arithmetic

  datatype MulMask = Zeros(r: seq<int>) | Agreed(k: FourPC.Masks<int>)

  /** The masks one multiplication consumes: three numbers that sum to zero, or the agreeing draws of four parties. */
  predicate GoodMulMask(mask: MulMask, n: nat, m: nat)
    requires m > 0
  {
    match mask
    case Zeros(r) => n == 3 && |r| == 3 && Plain(r) % m == 0
    case Agreed(k) => n == 4 && FourPC.MasksAgree(Residues(m), k)
  }

  method MulA(x: Joint<int>, y: Joint<int>, m: nat, mask: MulMask) returns (z: Joint<int>)
    requires m > 0 && Replicated(x) && Replicated(y) && |x| == |y| && GoodMulMask(mask, |x|, m)
    ensures |z| == |x| && InRange(m, z)
    ensures SecretA(m, z) == Ring.Mul(m, SecretA(m, x), SecretA(m, y))
  {
    match mask {
      case Zeros(r) =>
        Multiply3Opens(m, x, y, r);
        ProductInRange3(m, x, y, r);
        z := ThreePC.Product(Residues(m), x, y, r);
      case Agreed(k) =>
        Multiply4Opens(m, x, y, k);
        ProductInRange4(m, x, y, k);
        MultiplyMessages(m, x, y, k);
        z := FourPC.Exchanged(Residues(m), x, y, k);
    }
  }

  /** The messages of the 4-party `multiply_a` leave the parties with the product sharing. */
  lemma MultiplyMessages(m: nat, x: Joint<int>, y: Joint<int>, k: FourPC.Masks<int>)
    requires m > 0 && Replicated(x) && Replicated(y) && |x| == |y| == 4 && GoodMulMask(Agreed(k), 4, m)
    ensures FourPC.Fitting(x, y, k)
    ensures FourPC.Exchanged(Residues(m), x, y, k) == FourPC.Product(Residues(m), x, y, k)
  {
    ResiduesLawful(m);
    FourPC.ExchangedIsProduct(Residues(m), x, y, k);
  }

  /** The exchange of `multiply_a` is consistent exactly when the masks agree, whatever residues were drawn. */
  lemma MultiplyMasksMustAgree(m: nat, x: Joint<int>, y: Joint<int>, k: FourPC.Masks<int>)
    requires m > 0 && Replicated(x) && Replicated(y) && FourPC.Fitting(x, y, k) && FourPC.WordMasks(Residues(m), k)
    ensures FourPC.ConsistentRun(Residues(m), x, y, k) <==> FourPC.MasksAgree(Residues(m), k)
  {
    ResiduesLawful(m);
    ResiduesCancel(m);
    FourPC.MasksMustAgree(Residues(m), x, y, k);
  }

  lemma ProductInRange3(m: nat, x: Joint<int>, y: Joint<int>, r: seq<int>)
    requires m > 0 && Shaped(x) && Shaped(y) && |x| == |y| == |r| == 3
    ensures InRange(m, ThreePC.Product(Residues(m), x, y, r))
  {
    hide Deal, Components;
  }

  lemma ProductInRange4(m: nat, x: Joint<int>, y: Joint<int>, k: FourPC.Masks<int>)
    requires m > 0 && FourPC.Fitting(x, y, k)
    ensures InRange(m, FourPC.Product(Residues(m), x, y, k))
  {
    var a, b, r := Components(x), Components(y), Components(k.first);
    forall j | 0 <= j < 4 ensures 0 <= FourPC.ProductComponent(Residues(m), a, b, r, j) < m {}
  }

  lemma SelectSum(m: nat, s: int, a: int, b: int)
    requires m > 0 && (s == 0 || s == 1) && 0 <= a < m && 0 <= b < m
    ensures Ring.Add(m, Ring.Sub(m, a, Ring.Mul(m, s, a)), Ring.Mul(m, s, b)) == if s == 1 then b else a
  {
    DivModUnique(a, m, 0, a);
    DivModUnique(b, m, 0, b);
    DivModUnique(0, m, 0, 0);
  }

  /** `a - sel * a + sel * b`. */
  method MultiplexA(sel: Joint<int>, a: Joint<int>, b: Joint<int>, m: nat, m0: MulMask, m1: MulMask)
    returns (z: Joint<int>)
    requires m > 0 && Replicated(sel) && Replicated(a) && Replicated(b) && |sel| == |a| == |b|
    requires GoodMulMask(m0, |a|, m) && GoodMulMask(m1, |a|, m) && (SecretA(m, sel) == 0 || SecretA(m, sel) == 1)
    ensures |z| == |a| && Replicated(z)
    ensures SecretA(m, z) == if SecretA(m, sel) == 1 then SecretA(m, b) else SecretA(m, a)
  {
    hide SecretA, Deal, Components, GoodMulMask, AddA, SubA;
    var sa := MulA(sel, a, m, m0);
    var sb := MulA(sel, b, m, m1);
    SubOpens(m, a, sa);
    AddOpens(m, SubA(m, a, sa), sb);
    z := AddA(m, SubA(m, a, sa), sb);
    SelectSum(m, SecretA(m, sel), SecretA(m, a), SecretA(m, b));
  }

  method SwapA(bit: Joint<int>, x: Joint<int>, y: Joint<int>, m: nat, ms: nat -> MulMask, t: nat)
    returns (x': Joint<int>, y': Joint<int>)
    requires m > 0 && Replicated(bit) && Replicated(x) && Replicated(y) && |bit| == |x| == |y|
    requires (SecretA(m, bit) == 0 || SecretA(m, bit) == 1) && forall u :: GoodMulMask(ms(u), |x|, m)
    ensures |x'| == |y'| == |x| && Replicated(x') && Replicated(y')
    ensures SecretA(m, x') == if SecretA(m, bit) == 1 then SecretA(m, y) else SecretA(m, x)
    ensures SecretA(m, y') == if SecretA(m, bit) == 1 then SecretA(m, x) else SecretA(m, y)
  {
    hide SecretA, Deal, Components, GoodMulMask;
    x' := MultiplexA(bit, x, y, m, ms(t), ms(t + 1));
    y' := MultiplexA(bit, y, x, m, ms(t + 2), ms(t + 3));
  }
}
