/** `ASharedVector::div`: division of a shared number by a public constant, with the error correction. */
module SecureDivision {
  import opened Arith
  import Ring
  import opened Words
  import opened Sharing
  import opened Algebra
  import opened Arithmetic
  import opened Boolean
  import opened Circuits
  import opened Inputs
  import opened JointInput
  import opened Division
  import opened Conversions

  function SignedU(m: nat, x: Joint<int>): (u: int)
    requires m > 0 && Shaped(x)
  {
    Ring.Signed(m, PartU(m, x))
  }

  function SignedV(m: nat, x: Joint<int>): (v: int)
    requires m > 0 && Shaped(x)
  {
    Ring.Signed(m, PartV(m, x))
  }

  /** The dividend that party 0 of three shifts by the divisor first, stored in a machine word. */
  function Shifted(m: nat, u: int, c: int): (s: int)
    requires m > 0
  {
    Ring.Store(m, u - Negative(u) * c)
  }

  /** The quotient and remainder parts of `u` as `n` parties compute them. */
  function QuotientU(n: nat, m: nat, u: int, c: int): (q: int)
    requires m > 0 && c > 0
  {
    if n == 3 then TruncDiv(Shifted(m, u, c), c) else Quotient(u, c)
  }

  function RestU(n: nat, m: nat, u: int, c: int): (r: int)
    requires m > 0 && c > 0
  {
    if n == 3 then TruncMod(Shifted(m, u, c), c) + Negative(u) * c else Rest(u, c)
  }

  /** The error that decides the correction. */
  function ErrorOf(n: nat, m: nat, u: int, v: int, c: int): (e: int)
    requires m > 0 && c > 0
  {
    RestU(n, m, u, c) + Rest(v, c) - c
  }

  /** What the three parties compute before the exchange: quotient and error share of party 0, 1 and 2.  Parties 0
      and 2 draw the same masks `rq` and `re`. */
  function QuotientShares3(m: nat, u: int, v: int, c: int, rq: int): (cs: seq<int>)
    requires m > 0 && c > 0
    ensures |cs| == 3
  {
    [(TruncDiv(Shifted(m, u, c), c) - rq) % m, (TruncDiv(v, c) - Negative(v)) % m, rq % m]
  }

  function ErrorShares3(m: nat, u: int, v: int, c: int, re: int): (cs: seq<int>)
    requires m > 0 && c > 0
    ensures |cs| == 3
  {
    [(TruncMod(Shifted(m, u, c), c) + Negative(u) * c - re) % m, (TruncMod(v, c) + Negative(v) * c - c) % m, re % m]
  }

  lemma ThreeResidues(m: nat, a: int, b: int, r: int, z: Joint<int>)
    requires m > 0 && z == Deal([(a - r) % m, b % m, r % m])
    ensures SharesOf(z, 3, m, a + b)
  {
    PlainOfResidues(m, Components(z), [a - r, b, r]);
  }

  lemma TwoInputs(m: nat, a: int, b: int, ra: int, rb: int, z: Joint<int>)
    requires m > 0
    requires z == AddA(m, Deal(InpComponents(Residues(m), 0, a, ra)), Deal(InpComponents(Residues(m), 2, b, rb)))
    ensures SharesOf(z, 4, m, a + b)
  {
    var x, y := Deal(InpComponents(Residues(m), 0, a, ra)), Deal(InpComponents(Residues(m), 2, b, rb));
    AddOpens(m, x, y);
    ZipReplicated(x, y, Residues(m).plus);
    InpOpensA(m, 0, a, ra);
    InpOpensA(m, 2, b, rb);
    Ring.AddResidues(m, a, b);
  }

  datatype DivMask = DivMask(q1: int, q2: int, e1: int, e2: int)

  /** No overflow in `x_sum - x_sum_neg * c`, which only party 0 of three computes. */
  predicate NoUnderflow(n: nat, m: nat, u: int, c: int) {
    n == 3 ==> Ring.Fits(m, u - Negative(u) * c)
  }

  lemma PartsWithoutUnderflow(n: nat, m: nat, u: int, c: int)
    requires m > 0 && c > 0 && NoUnderflow(n, m, u, c)
    ensures QuotientU(n, m, u, c) == Quotient(u, c) && RestU(n, m, u, c) == Rest(u, c)
  {
    if n == 3 {
      Ring.StoreFits(m, u - Negative(u) * c);
      ShiftedDividend(u, c);
    }
  }

  lemma PartsOpen3(m: nat, u: int, v: int, c: int, rq: int, re: int)
    requires m > 0 && c > 0
    ensures SharesOf(Deal(QuotientShares3(m, u, v, c, rq)), 3, m, QuotientU(3, m, u, c) + Quotient(v, c))
    ensures SharesOf(Deal(ErrorShares3(m, u, v, c, re)), 3, m, ErrorOf(3, m, u, v, c))
  {
    hide SharesOf, TruncDiv, TruncMod, Shifted, Negative;
    ThreeResidues(m, QuotientU(3, m, u, c), Quotient(v, c), rq, Deal(QuotientShares3(m, u, v, c, rq)));
    ThreeResidues(m, RestU(3, m, u, c), Rest(v, c) - c, re, Deal(ErrorShares3(m, u, v, c, re)));
  }

  method DivConst3(x: Joint<int>, m: nat, c: int, r: DivMask) returns (res: Joint<int>, err: Joint<int>)
    requires m > 0 && c > 0 && InRange(m, x) && |x| == 3
    ensures SharesOf(res, 3, m, QuotientU(3, m, SignedU(m, x), c) + Quotient(SignedV(m, x), c))
    ensures SharesOf(err, 3, m, ErrorOf(3, m, SignedU(m, x), SignedV(m, x), c))
  {
    ViewsOfThree(x, m);
    var u := Ring.Signed(m, Ring.Add(m, x[0][0], x[0][1]));
    var v := Ring.Signed(m, x[1][0]);
    assert u == SignedU(m, x) && v == SignedV(m, x);
    hide Quotient, QuotientU, ErrorOf, QuotientShares3, ErrorShares3, SharesOf, Ring.Signed, Ring.Add;
    PartsOpen3(m, u, v, c, r.q1, r.e1);
    res := KeepAndPass(QuotientShares3(m, u, v, c, r.q1));
    err := KeepAndPass(ErrorShares3(m, u, v, c, r.e1));
  }

  method DivConst4(x: Joint<int>, m: nat, c: int, r: DivMask) returns (res: Joint<int>, err: Joint<int>)
    requires m > 0 && c > 0 && InRange(m, x) && |x| == 4
    ensures SharesOf(res, 4, m, QuotientU(4, m, SignedU(m, x), c) + Quotient(SignedV(m, x), c))
    ensures SharesOf(err, 4, m, ErrorOf(4, m, SignedU(m, x), SignedV(m, x), c))
  {
    hide Quotient, Rest;
    ViewsOfParts(x, m);
    var u0 := Ring.Signed(m, Ring.Add(m, x[0][0], x[0][1]));
    var u3 := Ring.Signed(m, Ring.Add(m, x[3][1], x[3][2]));
    var v1 := Ring.Signed(m, Ring.Add(m, x[1][1], x[1][2]));
    var v2 := Ring.Signed(m, Ring.Add(m, x[2][0], x[2][1]));
    assert u0 == u3 == SignedU(m, x) && v1 == v2 == SignedV(m, x);
    res := ShareTwo(m, [Quotient(u0, c), Quotient(u3, c)], [Quotient(v1, c), Quotient(v2, c)], r.q1, r.q2);
    err := ShareTwo(m, [Rest(u0, c) - c, Rest(u3, c) - c], [Rest(v1, c), Rest(v2, c)], r.e1, r.e2);
  }

  lemma ViewsOfThree(x: Joint<int>, m: nat)
    requires Replicated(x) && |x| == 3 && m > 0
    ensures Ring.Add(m, x[0][0], x[0][1]) == PartU(m, x) && x[1][0] == PartV(m, x)
  {
    var cs := Components(x);
    assert x[0][0] == cs[Layout(3, 0, 0)] && x[0][1] == cs[Layout(3, 0, 1)] && x[1][0] == cs[Layout(3, 1, 0)];
  }

  /** `inp_a(first, 0, 3, 1, 2) + inp_a(second, 2, 1, 3, 0)`, where each value is known to two parties. */
  method ShareTwo(m: nat, first: seq<int>, second: seq<int>, r1: int, r2: int) returns (z: Joint<int>)
    requires m > 0 && |first| == |second| == 2 && first[0] == first[1] && second[0] == second[1]
    ensures SharesOf(z, 4, m, first[0] + second[0])
  {
    var x := InpA(m, 0, [first[0], 0, 0, first[1]], r1);
    var y := InpA(m, 2, [0, second[0], second[1], 0], r2);
    hide InpComponents, SharesOf, Replicated;
    z := AddA(m, x, y);
    TwoInputs(m, first[0], second[0], r1, r2, z);
  }

  method InpA(m: nat, i: nat, value: seq<int>, r: int) returns (x: Joint<int>)
    requires m > 0 && (i == 0 || i == 2) && |value| == 4 && value[i] == value[(i + 3) % 4]
    ensures x == Deal(InpComponents(Residues(m), i, value[i], r))
  {
    InpHonest(Residues(m), i, value, [r, r, r, r]);
    x := Inp(Residues(m), i, value, [r, r, r, r]);
  }

  lemma ErrorFits(u: int, v: int, c: int, m: nat)
    requires c > 0 && 2 * c < m
    ensures Ring.Fits(m, Rest(u, c) + Rest(v, c) - c)
  {
    QuotientRest(u, c);
    QuotientRest(v, c);
  }

  /** The correction: 1 unless the error, as stored, is negative. */
  function StoredCorrection(m: nat, e: int): (d: int)
    requires m > 0
  {
    if Ring.Store(m, e) < 0 then 0 else 1
  }

  lemma SignOfWord(w: Word, e: int)
    requires |w| > 0 && ToNat(w) == e % Pow2(|w|)
    ensures Sign(w) <==> Ring.Store(Pow2(|w|), e) < 0
  {
    var m := Pow2(|w|);
    DivMod(e, m);
    assert m == 2 * Pow2(|w| - 1);
    StoreResidue(m, e);
    SignOfStored(w, Ring.Store(m, e));
  }

  lemma StoreResidue(m: nat, e: int)
    requires m > 0 && m % 2 == 0
    ensures Ring.Fits(m, Ring.Store(m, e)) && Ring.Store(m, e) % m == e % m
  {
    DivMod(e, m);
    ModShift(e % m, if 2 * (e % m) >= m then -1 else 0, m);
    DivModUnique(e % m, m, 0, e % m);
  }

  /** The correction bit: `!ltz` of the error after its conversion to a Boolean sharing, converted back. */
  method CorrectionShares(err: Joint<int>, l: nat, k: nat, ghost e: int, s: ShareMask, ms: nat -> AndMask)
    returns (correction: Joint<int>)
    requires k >= 2 && l == Pow2(k) && GoodShareMask(s, l) && GoodMasks(ms, |err|, l)
    requires SharesOf(err, |err|, Pow2(l), e)
    ensures SharesOf(correction, |err|, Pow2(l), StoredCorrection(Pow2(l), e))
  {
    var berr := A2B(err, l, k, s, ms);
    SignOfWord(SecretB(berr, l), e);
    hide Width, SecretB, SingleBit, SharesOf;
    var negative := LocalB(SignBit, berr, l);
    var bit := NotBit(negative, l);
    var cs := B2ABit([bit], |err|, l);
    correction := cs[0];
  }

  method AddShares(x: Joint<int>, y: Joint<int>, n: nat, m: nat, ghost a: int, ghost b: int) returns (z: Joint<int>)
    requires m > 0 && SharesOf(x, n, m, a) && SharesOf(y, n, m, b)
    ensures SharesOf(z, n, m, a + b)
  {
    z := AddA(m, x, y);
    AddOpens(m, x, y);
    ZipReplicated(x, y, Residues(m).plus);
    Ring.AddResidues(m, a, b);
  }

  method DivConst(x: Joint<int>, m: nat, c: int, r: DivMask) returns (res: Joint<int>, err: Joint<int>)
    requires m > 0 && c > 0 && InRange(m, x)
    ensures SharesOf(res, |x|, m, QuotientU(|x|, m, SignedU(m, x), c) + Quotient(SignedV(m, x), c))
    ensures SharesOf(err, |x|, m, ErrorOf(|x|, m, SignedU(m, x), SignedV(m, x), c))
  {
    hide Quotient, QuotientU, ErrorOf, SignedU, SignedV, SharesOf;
    if |x| == 3 { res, err := DivConst3(x, m, c, r); } else { res, err := DivConst4(x, m, c, r); }
  }

  method AddCorrection(res: Joint<int>, err: Joint<int>, l: nat, k: nat, ghost q: int, ghost e: int,
                       s: ShareMask, ms: nat -> AndMask) returns (z: Joint<int>)
    requires k >= 2 && l == Pow2(k) && GoodShareMask(s, l) && GoodMasks(ms, |err|, l)
    requires SharesOf(res, |err|, Pow2(l), q) && SharesOf(err, |err|, Pow2(l), e)
    ensures SharesOf(z, |err|, Pow2(l), q + StoredCorrection(Pow2(l), e))
  {
    hide StoredCorrection, InRange, SecretA;
    var correction := CorrectionShares(err, l, k, e, s, ms);
    z := AddShares(res, correction, |err|, Pow2(l), q, StoredCorrection(Pow2(l), e));
  }

  /** What `n` parties compute from the two parts, with every store in a machine word. */
  function MachineQuotient(n: nat, m: nat, u: int, v: int, c: int): (q: int)
    requires m > 0 && c > 0
  {
    QuotientU(n, m, u, c) + Quotient(v, c) + StoredCorrection(m, ErrorOf(n, m, u, v, c))
  }

  /** The floor of the quotient, or one less when both parts are negative multiples. */
  function DivResult(u: int, v: int, c: int): (q: int)
    requires c > 0
  {
    (u + v) / c - (if BothNegativeMultiples(u, v, c) then 1 else 0)
  }

  predicate BothNegativeMultiples(u: int, v: int, c: int)
    requires c > 0
  {
    u < 0 && u % c == 0 && v < 0 && v % c == 0
  }

  /** The result opens to what the machine computes from the parts: without overflow of the shifted dividend the floor
      of the quotient of their sum, except that it is one less exactly when both are negative multiples. */
  method Div(x: Joint<int>, l: nat, k: nat, c: int, r: DivMask, s: ShareMask, ms: nat -> AndMask)
    returns (z: Joint<int>)
    requires k >= 2 && l == Pow2(k) && InRange(Pow2(l), x) && 0 < c && 2 * c < Pow2(l)
    requires GoodShareMask(s, l) && GoodMasks(ms, |x|, l)
    ensures var m, u, v := Pow2(l), SignedU(Pow2(l), x), SignedV(Pow2(l), x);
      && SharesOf(z, |x|, m, MachineQuotient(|x|, m, u, v, c))
      && (NoUnderflow(|x|, m, u, c) ==> SharesOf(z, |x|, m, DivResult(u, v, c)))
  {
    hide Quotient, QuotientU, ErrorOf, SignedU, SignedV, SecretA, DivResult, NoUnderflow, StoredCorrection;
    var m := Pow2(l);
    ghost var u, v := SignedU(m, x), SignedV(m, x);
    if NoUnderflow(|x|, m, u, c) { DivisionFacts(|x|, u, v, c, m); }
    var res, err := DivConst(x, m, c, r);
    z := AddCorrection(res, err, l, k, QuotientU(|x|, m, u, c) + Quotient(v, c), ErrorOf(|x|, m, u, v, c), s, ms);
  }

  lemma DivisionFacts(n: nat, u: int, v: int, c: int, m: nat)
    requires c > 0 && 2 * c < m && NoUnderflow(n, m, u, c)
    ensures MachineQuotient(n, m, u, v, c) == DivResult(u, v, c)
  {
    PartsWithoutUnderflow(n, m, u, c);
    ErrorFits(u, v, c, m);
    Ring.StoreFits(m, Rest(u, c) + Rest(v, c) - c);
    CorrectedQuotient(u, v, c);
    NegativeMultipleMeans(u, c);
    NegativeMultipleMeans(v, c);
  }

  /** Exactly when the result is the floor of the secret by `c`: without overflow of the shifted dividend, when not both
      parts are negative multiples and their sum does not overflow; with it, which only three parties can have, by how
      far the remainders of the parts go. */
  predicate DivisionExact(n: nat, m: nat, u: int, v: int, c: int)
    requires c > 0
  {
    if NoUnderflow(n, m, u, c) then !BothNegativeMultiples(u, v, c) && (Ring.Fits(m, u + v) || c == 1)
    else
      var rests := (u + m) % c + Rest(v, c);
      if Ring.Fits(m, u + v) then c == 1 || rests >= m - c else rests < c
  }

  /** `div` gives the floor of the secret by `c` exactly when `DivisionExact` says so; for a secret that is not negative
      and parts that do not overflow it always does. */
  lemma DivExactness(m: nat, x: Joint<int>, c: int)
    requires m > 0 && m % 2 == 0 && InRange(m, x) && 0 < c && 2 * c < m
    ensures var u, v, secret := SignedU(m, x), SignedV(m, x), Ring.Signed(m, SecretA(m, x));
      && (MachineQuotient(|x|, m, u, v, c) % m == (secret / c) % m <==> DivisionExact(|x|, m, u, v, c))
      && (secret >= 0 && Ring.Fits(m, u + v) && NoUnderflow(|x|, m, u, c) ==> DivisionExact(|x|, m, u, v, c))
  {
    var u, v := SignedU(m, x), SignedV(m, x);
    PartsInRange(m, x);
    SecretIsStored(m, x);
    ExactIff(|x|, m, u, v, c);
    if Ring.Fits(m, u + v) { Ring.StoreFits(m, u + v); }
  }

  lemma PartsInRange(m: nat, x: Joint<int>)
    requires m > 0 && m % 2 == 0 && InRange(m, x)
    ensures Ring.Fits(m, SignedU(m, x)) && Ring.Fits(m, SignedV(m, x))
  {
  }

  /** The secret, read as a signed number, is the sum of the parts as a machine word stores it. */
  lemma SecretIsStored(m: nat, x: Joint<int>)
    requires m > 0 && InRange(m, x)
    ensures Ring.Signed(m, SecretA(m, x)) == Ring.Store(m, SignedU(m, x) + SignedV(m, x))
  {
    PartsAddUp(m, x);
    hide InRange, SecretA, PartU, PartV;
    SignedSum(m, PartU(m, x), PartV(m, x));
  }

  lemma SignedSum(m: nat, u: int, v: int)
    requires m > 0
    ensures Ring.Signed(m, (u + v) % m) == Ring.Store(m, Ring.Signed(m, u) + Ring.Signed(m, v))
  {
    var k := (if 2 * u >= m then -1 else 0) + (if 2 * v >= m then -1 else 0);
    assert Ring.Signed(m, u) + Ring.Signed(m, v) == u + v + k * m;
    ModShift(u + v, k, m);
  }

  lemma ExactIff(n: nat, m: nat, u: int, v: int, c: int)
    requires m > 0 && m % 2 == 0 && 0 < c && 2 * c < m && Ring.Fits(m, u) && Ring.Fits(m, v)
    ensures MachineQuotient(n, m, u, v, c) % m == (Ring.Store(m, u + v) / c) % m <==> DivisionExact(n, m, u, v, c)
  {
    StoredSum(m, u + v);
    if NoUnderflow(n, m, u, c) {
      DivisionFacts(n, u, v, c, m);
      ExactWithoutUnderflow(m, u, v, c);
    } else {
      UnderflowQuotient(n, m, u, v, c);
      ExactWithUnderflow(m, u, v, c);
    }
  }

  /** A sum of two machine words overflows by at most one modulus. */
  lemma StoredSum(m: nat, s: int)
    requires m > 0 && -(m as int) <= s < m
    ensures Ring.Store(m, s) == if 2 * s >= m then s - m else if 2 * s < -(m as int) then s + m else s
  {
    if 2 * s >= m { DivModUnique(s, m, 0, s); }
    else if s >= 0 { DivModUnique(s, m, 0, s); }
    else if s == -(m as int) { DivModUnique(s, m, -1, 0); }
    else { DivModUnique(s, m, -1, s + m); }
  }

  // --------------------------------------------------- residues of small differences

  lemma DifferentResidues(x: int, y: int, m: nat)
    requires 0 < x - y < m || 0 < y - x < m
    ensures x % m != y % m
  {
    if x % m == y % m {
      DivMod(x, m);
      DivMod(y, m);
      var t := x / m - y / m;
      assert t * m == x - y;
      if t >= 1 { MulMono(1, t, m); } else if t <= -1 { MulMono(t, -1, m); }
    }
  }

  /** Adding `g` to a dividend adds the quotient of `g`, or one more, to the floor. */
  lemma FloorGap(a: int, g: int, c: int)
    requires c > 0 && g >= 0
    ensures a / c + g / c <= (a + g) / c <= a / c + g / c + 1
  {
    DivMod(a, c);
    DivMod(g, c);
    var r := a % c + g % c;
    if r < c {
      DivModUnique(a + g, c, a / c + g / c, r);
    } else {
      assert (a / c + g / c + 1) * c == (a / c) * c + (g / c) * c + c;
      DivModUnique(a + g, c, a / c + g / c + 1, r - c);
    }
  }

  lemma ModulusQuotient(m: nat, c: int)
    requires 2 <= c && 2 * c < m
    ensures 2 <= m / c && 2 * (m / c) <= m
  {
    DivMod(m, c);
    if m / c <= 1 { MulMono(m / c, 1, c); }
    MulMono(2, c, m / c);
  }

  /** A sum that overflows has the wrong quotient, unless the divisor is one. */
  lemma OverflowDiffers(m: nat, s: int, t: int, c: int, b: int)
    requires 2 <= c && 2 * c < m && m % 2 == 0 && (t == s - m || t == s + m)
    requires b == 0 || (b == 1 && t == s + m)
    ensures (s / c - b) % m != (t / c) % m
  {
    ModulusQuotient(m, c);
    if t == s - m { FloorGap(t, m, c); } else { FloorGap(s, m, c); }
    DifferentResidues(s / c - b, t / c, m);
  }

  lemma OverflowByOne(m: nat, s: int, t: int, b: int)
    requires m > 1 && (t == s - m || t == s + m) && (b == 0 || b == 1)
    ensures (s - b) % m == t % m <==> b == 0
  {
    ModShift(t, if t == s - m then 1 else -1, m);
    ModShift(t - b, if t == s - m then 1 else -1, m);
    if b == 1 { DifferentResidues(t, t - 1, m); }
  }

  lemma ExactWithoutUnderflow(m: nat, u: int, v: int, c: int)
    requires m > 0 && m % 2 == 0 && 0 < c && 2 * c < m && Ring.Fits(m, u) && Ring.Fits(m, v)
    ensures DivResult(u, v, c) % m == (Ring.Store(m, u + v) / c) % m <==>
            !BothNegativeMultiples(u, v, c) && (Ring.Fits(m, u + v) || c == 1)
  {
    if BothNegativeMultiples(u, v, c) { BothNegative(u, v, c); }
    hide BothNegativeMultiples;
    var s, t, b := u + v, Ring.Store(m, u + v), if BothNegativeMultiples(u, v, c) then 1 else 0;
    StoredSum(m, s);
    hide Ring.Store;
    if Ring.Fits(m, s) {
      if b == 1 { DifferentResidues(s / c, s / c - 1, m); }
    } else if c == 1 {
      OverflowByOne(m, s, t, b);
    } else {
      OverflowDiffers(m, s, t, c, b);
    }
  }

  lemma BothNegative(u: int, v: int, c: int)
    requires c > 0 && BothNegativeMultiples(u, v, c)
    ensures u < 0 && v < 0
  {
  }

  /** When the shifted dividend overflows, its quotient is that of `u + m`, less one. */
  lemma UnderflowParts(m: nat, u: int, c: int)
    requires m > 0 && m % 2 == 0 && 0 < c && 2 * c < m && Ring.Fits(m, u) && !Ring.Fits(m, u - Negative(u) * c)
    ensures u < 0 && !Ring.Fits(m, u - c) && Shifted(m, u, c) == u - c + m > 0
    ensures TruncDiv(Shifted(m, u, c), c) == (u + m) / c - 1 && TruncMod(Shifted(m, u, c), c) == (u + m) % c
  {
    DivModUnique(u - c, m, -1, u - c + m);
    var w := u + m;
    DivMod(w, c);
    assert (w / c - 1) * c == (w / c) * c - c;
    DivModUnique(w - c, c, w / c - 1, w % c);
  }

  lemma UnderflowQuotient(n: nat, m: nat, u: int, v: int, c: int)
    requires m > 0 && m % 2 == 0 && 0 < c && 2 * c < m && Ring.Fits(m, u) && Ring.Fits(m, v)
    requires !NoUnderflow(n, m, u, c)
    ensures u < 0 && !Ring.Fits(m, u - c)
    ensures var rests := (u + m) % c + Rest(v, c);
      && 0 <= rests < 2 * c
      && MachineQuotient(n, m, u, v, c) == (u + m) / c - 1 + Quotient(v, c) + (if 2 * rests >= m then 0 else 1)
  {
    UnderflowParts(m, u, c);
    QuotientRest(v, c);
    DivMod(u + m, c);
    hide TruncDiv, TruncMod, Shifted, Rest, Quotient;
    StoredSum(m, (u + m) % c + Rest(v, c));
  }

  /** The quotient of a sum, from quotients and rests of its terms. */
  lemma QuotientOfSum(q: int, r: int, c: int)
    requires c > 0
    ensures (q * c + r) / c == q + r / c
  {
    DivMod(r, c);
    assert (q + r / c) * c == q * c + (r / c) * c;
    DivModUnique(q * c + r, c, q + r / c, r % c);
  }

  lemma NegativeQuotient(r: int, m: nat, c: int)
    requires 2 <= c && 2 * c < m && -(m as int) <= r < 0
    ensures r >= -c ==> r / c == -1
    ensures r < -c ==> -(m as int) / 2 - 1 <= r / c <= -2
  {
    DivMod(r, c);
    if r >= -c { DivModUnique(r, c, -1, r + c); } else {
      if r / c >= -1 { MulMono(-1, r / c, c); }
      if r / c < -(m as int) / 2 - 1 { MulMono(r / c, -(m as int) / 2 - 2, c); MulMono(2, c, m / 2 + 1); }
    }
  }

  lemma UnderflowFits(m: nat, q: int, r: int, c: int)
    requires 0 < c && 2 * c < m && m % 2 == 0 && 0 <= r < 2 * c && (c == 1 ==> r == 0)
    ensures (q - 1 + (if 2 * r >= m then 0 else 1)) % m == ((q * c + (r - m)) / c) % m <==> c == 1 || r >= m - c
  {
    QuotientOfSum(q, r - m, c);
    if c == 1 {
      OverflowByOne(m, q, q - m, 0);
    } else {
      NegativeQuotient(r - m, m, c);
      if r < m - c { DifferentResidues(q - 1 + (if 2 * r >= m then 0 else 1), q + (r - m) / c, m); }
    }
  }

  lemma UnderflowWraps(m: nat, q: int, r: int, c: int)
    requires 0 < c && 2 * c < m && m % 2 == 0 && 0 <= r < 2 * c
    ensures (q - 1 + (if 2 * r >= m then 0 else 1)) % m == ((q * c + r) / c) % m <==> r < c
  {
    QuotientOfSum(q, r, c);
    if r < c { DivModUnique(r, c, 0, r); } else {
      DivModUnique(r, c, 1, r - c);
      DifferentResidues(q - 1 + (if 2 * r >= m then 0 else 1), q + 1, m);
    }
  }

  /** Quotient and rest of the sum `s + m`, of which a machine word stores `s` or, when that overflows, the whole. */
  lemma UnderflowExact(m: nat, s: int, q: int, r: int, c: int)
    requires m > 0 && m % 2 == 0 && 0 < c && 2 * c < m && 0 <= r < 2 * c
    requires q * c + r == s + m && -(m as int) <= s && 2 * s < m && (Ring.Fits(m, s) && c == 1 ==> r == 0)
    ensures (q - 1 + (if 2 * r >= m then 0 else 1)) % m == (Ring.Store(m, s) / c) % m <==>
            if Ring.Fits(m, s) then c == 1 || r >= m - c else r < c
  {
    StoredSum(m, s);
    hide Ring.Store;
    if Ring.Fits(m, s) {
      assert Ring.Store(m, s) == q * c + (r - m);
      UnderflowFits(m, q, r, c);
    } else {
      assert Ring.Store(m, s) == q * c + r;
      UnderflowWraps(m, q, r, c);
    }
  }

  lemma ExactWithUnderflow(m: nat, u: int, v: int, c: int)
    requires m > 0 && m % 2 == 0 && 0 < c && 2 * c < m && Ring.Fits(m, u) && Ring.Fits(m, v)
    requires u < 0 && !Ring.Fits(m, u - c)
    ensures var rests := (u + m) % c + Rest(v, c);
      ((u + m) / c - 1 + Quotient(v, c) + (if 2 * rests >= m then 0 else 1)) % m == (Ring.Store(m, u + v) / c) % m <==>
      if Ring.Fits(m, u + v) then c == 1 || rests >= m - c else rests < c
  {
    QuotientRest(v, c);
    DivMod(u + m, c);
    hide Rest, Quotient, Ring.Store;
    var qu, ru := (u + m) / c, (u + m) % c;
    SumOfParts(u + m, v, c, qu, ru, Quotient(v, c), Rest(v, c));
    UnderflowExact(m, u + v, qu + Quotient(v, c), ru + Rest(v, c), c);
  }
}
