/** Products of arithmetic sharings open to the product of the secrets, in both protocols. */
module Products {
  import Ring
  import opened Sharing
  import opened Algebra
  import opened Arithmetic
  import ThreePC = Replicated3PC
  import FourPC = Fantastic4PC

  // -------------------------------------------------------------- 3 parties

  lemma LocalProductValue(m: nat, x: seq<int>, y: seq<int>, r: int)
    requires m > 0 && |x| == |y| == 2
    ensures ThreePC.LocalProduct(Residues(m), x, y, r) == (x[0] * y[0] + x[0] * y[1] + x[1] * y[0] + r) % m
  {
    var a, b, c := x[0] * y[0], x[0] * y[1], x[1] * y[0];
    Ring.WrapAdd(m, a, b % m);
    Ring.WrapAdd(m, a, b);
    Ring.WrapAdd(m, a + b, c % m);
    Ring.WrapAdd(m, a + b, c);
    Ring.WrapAdd(m, a + b + c, r);
  }

  /** The product terms of component `k`, before reduction. */
  function Terms(a: seq<int>, b: seq<int>, r: seq<int>, k: nat): (t: int)
    requires |a| == |b| == |r| == 3 && k < 3
  {
    var p := (k + 2) % 3;
    a[k] * b[k] + a[k] * b[p] + a[p] * b[k] + r[k]
  }

  /** The nine products of the components are each formed by exactly one party. */
  lemma NineTerms(a: seq<int>, b: seq<int>, r: seq<int>)
    requires |a| == |b| == |r| == 3
    ensures Plain(a) * Plain(b) + Plain(r) == Terms(a, b, r, 0) + Terms(a, b, r, 1) + Terms(a, b, r, 2)
  {
    assert (a[0] + a[1] + a[2]) * (b[0] + b[1] + b[2]) ==
           a[0] * (b[0] + b[1] + b[2]) + a[1] * (b[0] + b[1] + b[2]) + a[2] * (b[0] + b[1] + b[2]);
  }

  lemma MaskCancels(m: nat, v: int, mask: int)
    requires m > 0 && mask % m == 0
    ensures (v + mask) % m == v % m
  {
    Ring.WrapAdd(m, v, mask);
  }

  lemma SumOfTerms(m: nat, a: seq<int>, b: seq<int>, r: seq<int>, cz: seq<int>)
    requires m > 0 && |a| == |b| == |r| == |cz| == 3 && Plain(r) % m == 0
    requires forall k :: 0 <= k < 3 ==> cz[k] == Terms(a, b, r, k) % m
    ensures Plain(cz) % m == Ring.Mul(m, Plain(a) % m, Plain(b) % m)
  {
    NineTerms(a, b, r);
    PlainOfResidues(m, cz, [Terms(a, b, r, 0), Terms(a, b, r, 1), Terms(a, b, r, 2)]);
    MaskCancels(m, Plain(a) * Plain(b), Plain(r));
    Ring.MulResidues(m, Plain(a), Plain(b));
  }

  lemma PartyTerms(m: nat, x: Joint<int>, y: Joint<int>, r: seq<int>, k: nat)
    requires m > 0 && Replicated(x) && Replicated(y) && |x| == |y| == |r| == 3 && k < 3
    ensures ThreePC.LocalProduct(Residues(m), x[k], y[k], r[k]) == Terms(Components(x), Components(y), r, k) % m
  {
    hide ThreePC.LocalProduct, Residues;
    ThreePC.PairOf(x, k);
    ThreePC.PairOf(y, k);
    LocalProductValue(m, x[k], y[k], r[k]);
  }

  /** With masks that sum to zero the result of `multiply_a` is a consistent sharing of the product. */
  lemma Multiply3Opens(m: nat, x: Joint<int>, y: Joint<int>, r: seq<int>)
    requires m > 0 && Replicated(x) && Replicated(y) && |x| == |y| == |r| == 3
    requires Plain(r) % m == 0
    ensures SecretA(m, ThreePC.Product(Residues(m), x, y, r)) == Ring.Mul(m, SecretA(m, x), SecretA(m, y))
  {
    hide Terms, ThreePC.LocalProduct, Residues, Plain, Ring.Mul, ThreePC.Product;
    var a, b, cz := Components(x), Components(y), Components(ThreePC.Product(Residues(m), x, y, r));
    forall k | 0 <= k < 3 ensures cz[k] == Terms(a, b, r, k) % m { PartyTerms(m, x, y, r, k); }
    SumOfTerms(m, a, b, r, cz);
  }

  lemma ThirdShare(m: nat, data: int, s1: int, s2: int)
    requires m > 0
    ensures (s1 + s2 + Ring.Sub(m, Ring.Sub(m, data, s1), s2)) % m == data % m
  {
    var t := Ring.Sub(m, data, s1);
    Ring.SubtractAndAddBack(m, t, s2);
    Ring.WrapAdd(m, Ring.Sub(m, t, s2) + s2, s1);
    Ring.WrapAdd(m, t, s1);
    Ring.SubtractAndAddBack(m, data, s1);
  }

  lemma SecretShareOpens(m: nat, data: int, dataParty: nat, s1: int, s2: int)
    requires m > 0 && dataParty < 3
    ensures SecretA(m, ThreePC.SecretShare(Residues(m), data, dataParty, s1, s2)) == data % m
  {
    hide Total, DealFrom, Plain;
    var s3 := Ring.Sub(m, Ring.Sub(m, data, s1), s2);
    assert ThreePC.SecretShare(Residues(m), data, dataParty, s1, s2) == DealFrom(dataParty, s1, s2, s3);
    DealtSum(dataParty, s1, s2, s3);
    ThirdShare(m, data, s1, s2);
  }

  lemma DealtSum(dataParty: nat, s1: int, s2: int, s3: int)
    requires dataParty < 3
    ensures Plain(Components(DealFrom(dataParty, s1, s2, s3))) == s1 + s2 + s3
  {
  }

  // -------------------------------------------------------------- 4 parties

  function Terms4(a: seq<int>, b: seq<int>, k: nat): (t: int)
    requires |a| == |b| == 4 && k < 4
  {
    var n := (k + 1) % 4;
    a[k] * b[k] + a[k] * b[n] + a[n] * b[k] + (if k < 2 then a[k] * b[k + 2] + a[k + 2] * b[k] else 0)
  }

  lemma SixteenTerms(a: seq<int>, b: seq<int>)
    requires |a| == |b| == 4
    ensures Plain(a) * Plain(b) == Terms4(a, b, 0) + Terms4(a, b, 1) + Terms4(a, b, 2) + Terms4(a, b, 3)
  {
    var s := b[0] + b[1] + b[2] + b[3];
    assert (a[0] + a[1] + a[2] + a[3]) * s == a[0] * s + a[1] * s + a[2] * s + a[3] * s;
  }

  /** Adding a mask back after it was subtracted. */
  lemma MaskedSum(m: nat, p: int, c: int, r: int)
    requires m > 0
    ensures Ring.Add(m, Ring.Add(m, p % m, Ring.Sub(m, c % m, r)), r) == (p + c) % m
  {
    Ring.WrapSub(m, c, r);
    Ring.AddResidues(m, p, c - r);
    Ring.WrapAdd(m, p + c - r, r);
  }

  lemma ProductComponentValue(m: nat, a: seq<int>, b: seq<int>, r: seq<int>, k: nat)
    requires m > 0 && |a| == |b| == |r| == 4 && k < 4
    ensures FourPC.ProductComponent(Residues(m), a, b, r, k) == Terms4(a, b, k) % m
  {
    var n := (k + 1) % 4;
    var p, c := a[k] * b[k], a[k] * b[n] + a[n] * b[k];
    Ring.AddResidues(m, a[k] * b[n], a[n] * b[k]);
    MaskedSum(m, p, c, r[k]);
    if k < 2 {
      Ring.AddResidues(m, a[k] * b[k + 2], a[k + 2] * b[k]);
      Ring.AddResidues(m, p + c, a[k] * b[k + 2] + a[k + 2] * b[k]);
    }
  }

  lemma SumOfTerms4(m: nat, a: seq<int>, b: seq<int>, cz: seq<int>)
    requires m > 0 && |a| == |b| == |cz| == 4
    requires forall k :: 0 <= k < 4 ==> cz[k] == Terms4(a, b, k) % m
    ensures Plain(cz) % m == Ring.Mul(m, Plain(a) % m, Plain(b) % m)
  {
    SixteenTerms(a, b);
    PlainOfResidues(m, cz, [Terms4(a, b, 0), Terms4(a, b, 1), Terms4(a, b, 2), Terms4(a, b, 3)]);
    Ring.MulResidues(m, Plain(a), Plain(b));
  }

  /** Each of the sixteen products of components is counted once in the 4-party `multiply_a`. */
  lemma Multiply4Opens(m: nat, x: Joint<int>, y: Joint<int>, k: FourPC.Masks<int>)
    requires m > 0 && FourPC.Fitting(x, y, k) && Replicated(x) && Replicated(y) && Replicated(k.first)
    ensures SecretA(m, FourPC.Product(Residues(m), x, y, k)) == Ring.Mul(m, SecretA(m, x), SecretA(m, y))
  {
    var a, b, r := Components(x), Components(y), Components(k.first);
    forall j | 0 <= j < 4
      ensures FourPC.ProductComponent(Residues(m), a, b, r, j) == Terms4(a, b, j) % m
    {
      ProductComponentValue(m, a, b, r, j);
    }
    SumOfTerms4(m, a, b, Components(FourPC.Product(Residues(m), x, y, k)));
  }
}
