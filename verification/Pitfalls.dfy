/** Inputs on which operations that assume more than they check go wrong, at the 8-bit share width, and exactly which
    masks keep the shares of a comparison usable as control bits. */
module Pitfalls {
  import opened Arith
  import Ring
  import opened Words
  import opened VectorBits
  import opened Sharing
  import opened Algebra
  import opened Arithmetic
  import opened Boolean
  import opened Circuits
  import opened Multiplexing
  import opened Conversions
  import opened Division
  import opened SecureDivision
  import opened Aggregation
  import Scans
  import GroupMeaning
  import opened Hops
  import opened SessionWindows
  import opened Streaming
  import ThreePC = Replicated3PC
  import FourPC = Fantastic4PC

  /** The 8-bit word 0000 00(b1)(b0). */
  function Small(b1: bool, b0: bool): (w: Word)
    ensures |w| == 8 && w[0] == b0 && w[1] == b1 && forall j :: 2 <= j < 8 ==> !w[j]
  {
    [b0, b1, false, false, false, false, false, false]
  }

  // ---------------------------------------------------------- copying the low bit

  /** The sharing 3 ^ 2 ^ 0 of the bit 1. */
  function WideOne(): (x: Joint<Word>)
    ensures |x| == 3 && Width(x, 8) && SecretB(x, 8) == Small(false, true)
  {
    var x := Deal([Small(true, true), Small(true, false), Small(false, false)]);
    assert Combine(Components(x)) == Small(false, true);
    x
  }

  /** `extend_lsb` turns the sharing 3 ^ 2 ^ 0 of the bit 1 into a sharing of 3, not of all ones. */
  lemma ExtendLsbMisses()
    ensures !Extendable(WideOne(), 8) && Extended(WideOne(), 8) == Small(true, true)
  {
    var x := WideOne();
    var cs := Components(x);
    assert LowestAt(cs[1], 1) && !LowestAt(cs[0], 1) && !LowestAt(cs[2], 1) by { assert cs[0][0]; }
    assert OddLowestAt(x, 8, 1);
    ExtendableBit(x, 8);
    assert AnySet(cs[0], 1) && cs[1][1];
    forall j | 0 <= j < 8 ensures Extended(x, 8)[j] == Small(true, true)[j] {
      assert AnySet(cs[0], j) == (j > 0) by { assert cs[0][0]; }
      assert AnySet(cs[1], j) == (j > 1) by { assert cs[1][1]; }
      assert !AnySet(cs[2], j);
    }
  }

  /** Shares need not be single bits to be extended rightly: 2 ^ 2 ^ 1 can be. */
  lemma WideButExtendable() returns (x: Joint<Word>)
    ensures |x| == 3 && Width(x, 8) && !SingleBit(x) && SecretB(x, 8) == Small(false, true) && Extendable(x, 8)
  {
    x := Deal([Small(true, false), Small(true, false), Small(false, true)]);
    var cs := Components(x);
    assert SecretB(x, 8) == Small(false, true);
    assert cs[0][1] && cs[2][0];
    forall t | 0 < t < 7 ensures !OddLowestAt(x, 8, t) {
      assert cs[0] == cs[1] && !cs[2][t];
    }
    ExtendableBit(x, 8);
  }

  /** An aggregation without keys selects with a shared one: with these shares of it, the maximum of 0 and 4 is 0. */
  method KeylessMaximumMisses(kept: Joint<Word>, best: Joint<Word>, m0: AndMask, m1: AndMask) returns (z: Joint<Word>)
    requires |kept| == |best| == 3 && Width(kept, 8) && Width(best, 8) && GoodMask(m0, 3, 8) && GoodMask(m1, 3, 8)
    requires SecretB(kept, 8) == Zero(8) && SecretB(best, 8) == ShiftLeft(Small(false, true), 2)
    ensures SharedOne(WideOne(), 3, 8) && |z| == 3 && Width(z, 8) && SecretB(z, 8) == Zero(8)
  {
    ExtendLsbMisses();
    assert SharedOne(WideOne(), 3, 8);
    hide Width, SecretB, Extendable, WideOne;
    z := MultiplexB(WideOne(), kept, best, 8, m0, m1);
    assert SecretB(z, 8) == Zero(8);
  }

  // ------------------------------------------------- masks that reach an extension

  /** One operand of the AND is a sharing of single bits. */
  predicate BitOperands(x: Joint<Word>, y: Joint<Word>, l: nat) {
    Width(x, l) && Width(y, l) && |x| == |y| == 3 && (SingleBit(x) || SingleBit(y))
  }

  /** The shares of the AND of two such operands can be extended. */
  predicate AndExtends(x: Joint<Word>, y: Joint<Word>, r: seq<Word>, l: nat)
    requires BitOperands(x, y, l) && GoodMask(Three(r), 3, l)
  {
    And3Opens(x, y, r, l);
    Extendable(ThreePC.Product(Bits(l), x, y, r), l)
  }

  /** No mask has a bit between the lowest and the sign. */
  predicate Narrow(r: seq<Word>, l: nat)
    requires |r| == 3 && forall k :: 0 <= k < 3 ==> |r[k]| == l
  {
    forall k, i :: 0 <= k < 3 && 0 < i < l - 1 ==> !r[k][i]
  }

  /** An AND of three parties with cancelling masks leaves extendable shares, whatever the bits, exactly when its
      masks have no bit between the lowest and the sign. */
  lemma MasksReachExtension(r: seq<Word>, l: nat)
    requires l > 0 && GoodMask(Three(r), 3, l)
    ensures (forall x, y {:trigger AndExtends(x, y, r, l)} :: BitOperands(x, y, l) ==> AndExtends(x, y, r, l))
       <==> Narrow(r, l)
  {
    if Narrow(r, l) {
      forall x, y {:trigger AndExtends(x, y, r, l)} | BitOperands(x, y, l) ensures AndExtends(x, y, r, l) {
        NarrowExtends(x, y, r, l);
      }
    } else {
      var x, y := WideFails(r, l);
    }
  }

  /** Above the lowest bit the components of such an AND are the masks. */
  lemma UpperIsMask(x: Joint<Word>, y: Joint<Word>, r: seq<Word>, l: nat, k: nat, i: nat)
    requires BitOperands(x, y, l) && GoodMask(Three(r), 3, l) && k < 3 && 0 < i < l
    ensures var cz := Components(ThreePC.Product(Bits(l), x, y, r))[k]; |cz| == l && cz[i] == r[k][i]
  {
    And3Terms(x, y, r, l, k);
  }

  lemma NarrowExtends(x: Joint<Word>, y: Joint<Word>, r: seq<Word>, l: nat)
    requires BitOperands(x, y, l) && l > 0 && GoodMask(Three(r), 3, l) && Narrow(r, l)
    ensures AndExtends(x, y, r, l)
  {
    And3Opens(x, y, r, l);
    var z := ThreePC.Product(Bits(l), x, y, r);
    assert IsBit(SecretB(z, l)) by {
      if SingleBit(x) { SingleBitOpens(x, l); } else { SingleBitOpens(y, l); }
    }
    forall t | 0 < t < l - 1 ensures !OddLowestAt(z, l, t) {
      UpperIsMask(x, y, r, l, 0, t);
      UpperIsMask(x, y, r, l, 1, t);
      UpperIsMask(x, y, r, l, 2, t);
    }
    ExtendableBit(z, l);
  }

  /** The lowest position above 0 at which a mask has a bit, and the two masks that have it. */
  lemma {:induction false} LowestWide(r: seq<Word>, l: nat, top: nat) returns (t: nat, p: nat, q: nat)
    requires GoodMask(Three(r), 3, l) && top < l && exists k, i :: 0 <= k < 3 && 0 < i < top && r[k][i]
    ensures 0 < t < top && p < 3 && q < 3 && p != q && r[p][t] && r[q][t] && !r[3 - p - q][t]
    ensures forall k, i :: 0 <= k < 3 && 0 < i < t ==> !r[k][i]
  {
    if exists k, i :: 0 <= k < 3 && 0 < i < top - 1 && r[k][i] {
      t, p, q := LowestWide(r, l, top - 1);
    } else {
      t := top - 1;
      p := if r[0][t] then 0 else 1;
      q := if r[0][t] && r[1][t] then 1 else 2;
    }
  }

  /** Components 1, 1, 1 and the bits that make every component of the AND 0 but component `q`, up to its mask. */
  function AllOnes(l: nat): (x: Joint<Word>)
    requires l > 0
    ensures |x| == 3 && Width(x, l) && SingleBit(x) && forall k :: 0 <= k < 3 ==> Components(x)[k] == BitWord(l, true)
  {
    var one := BitWord(l, true);
    Deal([one, one, one])
  }

  function Chosen(r: seq<Word>, q: nat, l: nat): (y: Joint<Word>)
    requires l > 0 && GoodMask(Three(r), 3, l)
    ensures |y| == 3 && Width(y, l) && SingleBit(y)
    ensures forall k :: 0 <= k < 3 ==> Components(y)[(k + 2) % 3] == BitWord(l, (k == q) != r[k][0])
  {
    var cs := [BitWord(l, (1 == q) != r[1][0]), BitWord(l, (2 == q) != r[2][0]), BitWord(l, (0 == q) != r[0][0])];
    assert Components(Deal(cs)) == cs;
    Deal(cs)
  }

  lemma ChosenBits(r: seq<Word>, q: nat, l: nat, k: nat)
    requires l > 0 && GoodMask(Three(r), 3, l) && k < 3
    ensures var cz := Components(ThreePC.Product(Bits(l), AllOnes(l), Chosen(r, q, l), r))[k];
      |cz| == l && cz[0] == (k == q)
  {
    var x, y := AllOnes(l), Chosen(r, q, l);
    And3Terms(x, y, r, l, k);
    assert Components(y)[(k + 2) % 3] == BitWord(l, (k == q) != r[k][0]);
  }

  predicate LowestIn(z: Joint<Word>, l: nat, t: nat, k: nat)
    requires |z| == 3 && Width(z, l) && t < l && k < 3
  {
    LowestAt(Components(z)[k], t)
  }

  /** A shared bit of which exactly one component has its lowest set bit at `t` cannot be extended. */
  lemma OneLowest(z: Joint<Word>, l: nat, t: nat, p: nat)
    requires |z| == 3 && Width(z, l) && IsBit(SecretB(z, l)) && 0 < t < l - 1 && p < 3
    requires forall k :: 0 <= k < 3 ==> LowestIn(z, l, t, k) == (k == p)
    ensures !Extendable(z, l)
  {
    assert LowestIn(z, l, t, 0) == (0 == p) && LowestIn(z, l, t, 1) == (1 == p) && LowestIn(z, l, t, 2) == (2 == p);
    assert OddLowestAt(z, l, t);
    ExtendableBit(z, l);
  }

  /** Masks `p` and `q` have their lowest wide bit at `t`, the third has none there. */
  predicate WideAt(r: seq<Word>, l: nat, t: nat, p: nat, q: nat)
    requires |r| == 3 && forall k :: 0 <= k < 3 ==> |r[k]| == l
  {
    && 0 < t < l - 1 && p < 3 && q < 3 && p != q && r[p][t] && r[q][t] && !r[3 - p - q][t]
    && forall k, i :: 0 <= k < 3 && 0 < i < t ==> !r[k][i]
  }

  lemma LowestOfMasked(w: Word, mask: Word, t: nat)
    requires |w| == |mask| && 0 < t < |w| && forall i :: 0 < i <= t ==> w[i] == mask[i]
    requires forall i :: 0 < i < t ==> !mask[i]
    ensures LowestAt(w, t) == (mask[t] && !w[0])
  {
    if w[0] { assert AnySet(w, t); }
  }

  function ChosenProduct(r: seq<Word>, q: nat, l: nat): (z: Joint<Word>)
    requires l > 0 && GoodMask(Three(r), 3, l)
    ensures Width(z, l) && |z| == 3 && IsBit(SecretB(z, l))
  {
    And3Opens(AllOnes(l), Chosen(r, q, l), r, l);
    SingleBitOpens(AllOnes(l), l);
    ThreePC.Product(Bits(l), AllOnes(l), Chosen(r, q, l), r)
  }

  lemma ChosenComponent(r: seq<Word>, l: nat, t: nat, p: nat, q: nat, k: nat)
    requires l > 0 && GoodMask(Three(r), 3, l) && WideAt(r, l, t, p, q) && k < 3
    ensures LowestIn(ChosenProduct(r, q, l), l, t, k) == (k == p)
  {
    ChosenWord(r, l, t, q, k);
    MaskAt(r, l, t, p, q, k);
    hide LowestAt, ChosenProduct, Components, WideAt;
    LowestOfMasked(Components(ChosenProduct(r, q, l))[k], r[k], t);
  }

  lemma MaskAt(r: seq<Word>, l: nat, t: nat, p: nat, q: nat, k: nat)
    requires |r| == 3 && (forall i :: 0 <= i < 3 ==> |r[i]| == l) && WideAt(r, l, t, p, q) && k < 3
    ensures 0 < t < l && (r[k][t] && k != q <==> k == p) && forall i :: 0 < i < t ==> !r[k][i]
  {
    assert k == p || k == q || k == 3 - p - q;
  }

  lemma ChosenWord(r: seq<Word>, l: nat, t: nat, q: nat, k: nat)
    requires GoodMask(Three(r), 3, l) && t < l && k < 3
    ensures var cz := Components(ChosenProduct(r, q, l))[k];
      |cz| == l && cz[0] == (k == q) && forall i :: 0 < i <= t ==> cz[i] == r[k][i]
  {
    ChosenBits(r, q, l, k);
    forall i | 0 < i <= t ensures Components(ChosenProduct(r, q, l))[k][i] == r[k][i] {
      UpperIsMask(AllOnes(l), Chosen(r, q, l), r, l, k, i);
    }
  }

  lemma ChosenFails(r: seq<Word>, l: nat, t: nat, p: nat, q: nat)
    requires l > 0 && GoodMask(Three(r), 3, l) && WideAt(r, l, t, p, q)
    ensures BitOperands(AllOnes(l), Chosen(r, q, l), l) && !AndExtends(AllOnes(l), Chosen(r, q, l), r, l)
  {
    hide SecretB, Components, Width, SingleBit, LowestIn, Extendable, GoodMask;
    var z := ChosenProduct(r, q, l);
    forall k | 0 <= k < 3 ensures LowestIn(z, l, t, k) == (k == p) { ChosenComponent(r, l, t, p, q, k); }
    OneLowest(z, l, t, p);
  }

  lemma WideFails(r: seq<Word>, l: nat) returns (x: Joint<Word>, y: Joint<Word>)
    requires l > 0 && GoodMask(Three(r), 3, l) && !Narrow(r, l)
    ensures BitOperands(x, y, l) && !AndExtends(x, y, r, l)
  {
    var t, p, q := LowestWide(r, l, l - 1);
    x, y := AllOnes(l), Chosen(r, q, l);
    ChosenFails(r, l, t, p, q);
  }

  /** The last AND of a comparison, `!diffs & res`, for equal signs and a first operand that is greater: `!diffs` is
      shared as 1 ^ 1 ^ 1 and `res` as 1 ^ 0 ^ 0.  Cancelling masks 2, 2, 0 leave shares that cannot be extended. */
  lemma ComparisonMaskMisses() returns (same: Joint<Word>, res: Joint<Word>, r: seq<Word>)
    ensures BitOperands(same, res, 8) && GoodMask(Three(r), 3, 8)
    ensures r == [Small(true, false), Small(true, false), Small(false, false)]
    ensures Components(same) == [Small(false, true), Small(false, true), Small(false, true)]
    ensures Components(res) == [Small(false, true), Small(false, false), Small(false, false)]
    ensures !AndExtends(same, res, r, 8)
  {
    r := [Small(true, false), Small(true, false), Small(false, false)];
    same, res := AllOnes(8), Chosen(r, 1, 8);
    assert Components(res) == [Small(false, true), Small(false, false), Small(false, false)] by {
      assert Components(res)[(0 + 2) % 3] == BitWord(8, false) == Small(false, false);
      assert Components(res)[(1 + 2) % 3] == BitWord(8, true) == Small(false, true);
      assert Components(res)[(2 + 2) % 3] == BitWord(8, false);
    }
    assert WideAt(r, 8, 1, 0, 1);
    ChosenFails(r, 8, 1, 0, 1);
  }

  // --------------------------------------------------------------- selected groups

  /** Of a group of four rows without the second, row 0 reaches row 2 and not row 3: its sum of 1, 2, 4, 8 is 5 and
      not 13. */
  lemma SelectionMisses()
    ensures var f := Joined((p, q) => true, [true, false, true, true]);
      && Pow2(2) == 4 && Scans.Scan([1, 2, 4, 8], f, 2, 2, false, GroupMeaning.ModularSum(256))[0] == 5
      && Reaches(f, 2, 2, false, 0, 2) && !Reaches(f, 2, 2, false, 0, 3)
  {
    Powers();
    var f, v, op := Joined((p, q) => true, [true, false, true, true]), [1, 2, 4, 8], GroupMeaning.ModularSum(256);
    assert Scans.Distance(2, 1, false) == 2 && Scans.Distance(2, 2, false) == 1;
    assert Hop(f, 2, 1, false, 0) == 2 && Hop(f, 2, 2, false, 0) == -1;
    HopStep(v, f, 2, 2, false, op, 0);
    HopStep(v, f, 2, 1, false, op, 0);
    Scans.LastRound(v, f, 2, 0, false, op);
  }

  // ------------------------------------------------------------- threshold windows

  /** The sharing 1 ^ 3 ^ 2 of zero, as a dealt column of zeros may have it. */
  function WideZero(): (x: Joint<Word>)
    ensures |x| == 3 && Width(x, 8) && SecretB(x, 8) == Zero(8)
  {
    var x := Deal([Small(false, true), Small(true, true), Small(true, false)]);
    assert Combine(Components(x)) == Zero(8);
    x
  }

  /** `extend_lsb` turns it into 1111 1100. */
  lemma WideZeroExtended()
    ensures Extended(WideZero(), 8) == [false, false, true, true, true, true, true, true]
  {
    var x := WideZero();
    var cs := Components(x);
    forall j | 0 <= j < 8 ensures Extended(x, 8)[j] == (j > 1) {
      assert AnySet(cs[0], j) == (j > 0) by { assert cs[0][0]; }
      assert AnySet(cs[1], j) == (j > 0) by { assert cs[1][0]; }
      assert AnySet(cs[2], j) == (j > 1) by { assert cs[2][1]; }
    }
  }

  lemma ThreeAsWord()
    ensures ToInt(Small(true, true)) == 3
  {
    Powers();
    var w := Small(true, true);
    assert Low(w, 1) == 1 && Low(w, 2) == Low(w, 3) == Low(w, 4) == Low(w, 5) == Low(w, 6) == Low(w, 7) == 3;
  }

  lemma WideZeroSelects(stamp: Word)
    requires |stamp| == 8
    ensures Mixed(Extended(WideZero(), 8), Ones(8), stamp) == stamp[0 := true][1 := true]
  {
    WideZeroExtended();
    hide WideZero, Extended;
    forall j | 0 <= j < 8
      ensures Mixed(Extended(WideZero(), 8), Ones(8), stamp)[j] == stamp[0 := true][1 := true][j]
    {
    }
  }

  /** With such a zero as the flag of row 0 of a threshold session, the row shows its timestamp with the two lowest bits
      set, 3 for timestamp 0, where -1 is documented. */
  lemma FirstRowMisses(stamp: Word)
    requires |stamp| == 8
    ensures FirstMark(WideZero(), stamp, 8) == ToInt(stamp[0 := true][1 := true])
    ensures FirstMark(WideZero(), Zero(8), 8) == 3
  {
    WideZeroSelects(stamp);
    WideZeroSelects(Zero(8));
    ThreeAsWord();
    assert Zero(8)[0 := true][1 := true] == Small(true, true);
    hide WideZero, Extended, Mixed, ToInt, Width;
  }

  /** The windows of four rows with the same keys and the timestamps 0, 1, 2, 3, all above the threshold but row 1, when
      row 0 starts from `w`. */
  function FourWindows(w: int): (ids: seq<int>)
    ensures |ids| == 4
  {
    Powers();
    seq(4, p requires 0 <= p < 4 => WindowOf([0, 1, 2, 3], (p, q) => true, [true, false, true, true], 2, w, p))
  }

  /** A 3 in row 0 is carried over row 1 into row 2, but not into row 3 of the same session; -1 gives the windows as
      documented. */
  lemma LaterRowMisses()
    ensures FourWindows(3) == [3, -1, 3, 2] && FourWindows(-1) == [-1, -1, 2, 2]
  {
    Powers();
    var all: (nat, nat) -> bool, above := (p: nat, q: nat) => true, [true, false, true, true];
    var f := Joined(all, above);
    assert Scans.Distance(2, 1, true) == 1 && Scans.Distance(2, 2, true) == 2;
    assert Hop(f, 2, 2, true, 2) == 0 && Hop(f, 2, 2, true, 3) == -1;
    assert Hop(f, 2, 1, true, 2) == -1 && Hop(f, 2, 1, true, 3) == 2;
    assert Latest([0, 1, 2, 3], Crossings(above), all, 2) == 2 == Latest([0, 1, 2, 3], Crossings(above), all, 3);
  }

  // ------------------------------------------------------------------- division

  /** A sharing of three parties whose parts, read as signed 8-bit numbers, are `u` and `v`. */
  function Parts(u: int, v: int): (x: Joint<int>)
    requires -128 <= u < 128 && -128 <= v < 128
    ensures |x| == 3 && InRange(256, x) && SignedU(256, x) == u && SignedV(256, x) == v
  {
    var x := Deal([u % 256, v % 256, 0]);
    assert Components(x) == [u % 256, v % 256, 0];
    x
  }

  /** The result that `div` stores for the two parts, read as a signed number, and the secret. */
  predicate Divides(u: int, v: int, c: int, result: int, secret: int) {
    c > 0 && Ring.Store(256, MachineQuotient(3, 256, u, v, c)) == result && Ring.Store(256, u + v) == secret
  }

  /** Whether that result is the floor of the quotient. */
  predicate Exact(u: int, v: int, c: int) {
    c > 0 && DivisionExact(3, 256, u, v, c)
  }

  /** Without an overflow of the shifted dividend the result is `DivResult`. */
  lemma DividesAs(u: int, v: int, c: int)
    requires 0 < c < 128 && NoUnderflow(3, 256, u, c) && -256 <= u + v < 256 && -256 <= DivResult(u, v, c) < 256
    ensures Divides(u, v, c, Wrapped(DivResult(u, v, c)), Wrapped(u + v))
  {
    DivisionFacts(3, u, v, c, 256);
    hide MachineQuotient, DivResult, Ring.Store;
    StoredSum(256, DivResult(u, v, c));
    StoredSum(256, u + v);
  }

  function Wrapped(s: int): (r: int) {
    if s >= 128 then s - 256 else if s < -128 then s + 256 else s
  }

  /** Both parts are negative multiples: -8 by 2 gives -5. */
  lemma NegativeMultiplesMiss()
    ensures Divides(-4, -4, 2, -5, -8) && !Exact(-4, -4, 2)
  {
    hide Divides;
    DividesAs(-4, -4, 2);
  }

  /** The parts overflow when added: -56 by 2 gives 100. */
  lemma OverflowMisses()
    ensures Divides(100, 100, 2, 100, -56) && !Exact(100, 100, 2)
  {
    hide Divides;
    DividesAs(100, 100, 2);
  }

  /** The same for a secret that is not negative: 56 by 3 gives -67. */
  lemma NegativeOverflowMisses()
    ensures Divides(-100, -100, 3, -67, 56) && !Exact(-100, -100, 3)
  {
    hide Divides;
    DividesAs(-100, -100, 3);
  }

  /** With an overflow of the shifted dividend: what the result is, and when it is right. */
  lemma DividesShifted(v: int, q: int, r: int)
    requires 0 <= v < 128 && v == 100 * q + r && 0 <= r < 100
    ensures Divides(-90, v, 100, if r < 62 then q + 1 else q, v - 90) && (Exact(-90, v, 100) <==> r >= 90)
  {
    DivModUnique(v, 100, q, r);
    DivModUnique(166, 100, 1, 66);
    UnderflowQuotient(3, 256, -90, v, 100);
    assert Quotient(v, 100) == q && Rest(v, 100) == r;
    hide MachineQuotient, Ring.Store;
    StoredSum(256, if r < 62 then q + 1 else q);
    StoredSum(256, v - 90);
  }

  /** The divisor cannot be subtracted from the first part: -90 by 100 gives 1. */
  lemma UnderflowMisses()
    ensures Divides(-90, 0, 100, 1, -90) && !Exact(-90, 0, 100)
  {
    hide Divides, Exact;
    DividesShifted(0, 0, 0);
  }

  /** Nevertheless 5 by 100 gives 0 when its parts are -90 and 95. */
  lemma UnderflowMayMeet()
    ensures Divides(-90, 95, 100, 0, 5) && Exact(-90, 95, 100)
  {
    hide Divides, Exact;
    DividesShifted(95, 0, 95);
  }

  /** Division of these shares. */
  method DivisionMisses(u: int, v: int, c: int, r: DivMask, s: ShareMask, ms: nat -> AndMask) returns (z: Joint<int>)
    requires -128 <= u < 128 && -128 <= v < 128 && 0 < c < 128 && GoodShareMask(s, 8) && GoodMasks(ms, 3, 8)
    ensures SharesOf(z, 3, 256, MachineQuotient(3, 256, u, v, c))
    ensures Divides(u, v, c, Ring.Signed(256, SecretA(256, z)), Ring.Signed(256, SecretA(256, Parts(u, v))))
  {
    Powers();
    SecretIsStored(256, Parts(u, v));
    hide InRange, SecretA, NoUnderflow, DivResult, SignedU, SignedV, MachineQuotient;
    z := Div(Parts(u, v), 8, 3, c, r, s, ms);
  }

  lemma Powers()
    ensures Pow2(2) == 4 && Pow2(3) == 8 && Pow2(6) == 64 && Pow2(7) == 128 && Pow2(8) == 256
  {
    assert Pow2(0) == 1 && Pow2(1) == 2 && Pow2(4) == 16 && Pow2(5) == 32;
  }

  // -------------------------------------------------------- masks of four parties

  function ZeroSharing(): (x: Joint<int>)
    ensures |x| == 4 && Shaped(x) && forall i :: 0 <= i < 4 ==> x[i] == [0, 0, 0]
  {
    Deal([0, 0, 0, 0])
  }

  /** What the four parties conclude from multiplying 0 and 0 with these masks of the second round. */
  function ZeroTimesZero(k: FourPC.Masks<int>): (rs: seq<FourPC.Outcome<int>>)
    requires k.first == ZeroSharing()
    ensures |rs| == 4
  {
    var o, x := Residues(256), ZeroSharing();
    FourPC.Run(o, x, x, k, FourPC.HonestMessages(o, x, x, k))
  }

  lemma ZeroMessages(k: FourPC.Masks<int>, i: nat)
    requires k.first == ZeroSharing() && i < 4 && 0 <= FourPC.SecondMask(k, i) <= 1
    ensures FourPC.HonestMessages(Residues(256), ZeroSharing(), ZeroSharing(), k)[i] ==
            FourPC.Sent(0, 0, if FourPC.SecondMask(k, i) == 0 then 0 else 255)
  {
    hide ZeroSharing;
    ZeroMessage(FourPC.SecondMask(k, i));
  }

  lemma ZeroMessage(second: int)
    requires second == 0 || second == 1
    ensures FourPC.Send(Residues(256), [0, 0, 0], [0, 0, 0], [0, 0, 0], second) ==
            FourPC.Sent(0, 0, if second == 0 then 0 else 255)
  {
    var o := Residues(256);
    assert o.times(0, 0) == 0 && o.plus(0, 0) == 0 && o.minus(0, 0) == 0 && o.minus(0, 1) == 255;
    hide Residues;
    assert FourPC.Cross(o, [0, 0, 0], [0, 0, 0], 0, 1) == 0;
    assert FourPC.Cross(o, [0, 0, 0], [0, 0, 0], 1, 2) == 0;
    assert FourPC.Cross(o, [0, 0, 0], [0, 0, 0], 0, 2) == 0;
  }

  /** A mask of the second round that only one sender has drawn: party 2 accuses. */
  lemma OneSecondMaskMisses()
    ensures ZeroTimesZero(FourPC.Masks(ZeroSharing(), 0, 1, 0, 0, 0))[2] == FourPC.Accuses(3, 1)
  {
    var k := FourPC.Masks(ZeroSharing(), 0, 1, 0, 0, 0);
    ZeroMessages(k, 0);
    ZeroMessages(k, 1);
    ZeroMessages(k, 3);
    hide FourPC.Combine, FourPC.HonestMessages, ZeroSharing;
    assert FourPC.SecondMask(k, 3) == 1;
  }

  /** Masks that both senders have drawn pass the checks, and party 0 ends with a copy of component 2 that party 3
      does not have. */
  lemma EqualSecondMasksMiss()
    ensures var rs := ZeroTimesZero(FourPC.Masks(ZeroSharing(), 1, 0, 0, 1, 1));
      rs[0].Holds? && rs[3].Holds? && rs[0].shares[1] == 1 && rs[3].shares[2] == 0
  {
    var k := FourPC.Masks(ZeroSharing(), 1, 0, 0, 1, 1);
    ZeroMessages(k, 0);
    ZeroMessages(k, 1);
    ZeroMessages(k, 2);
    ZeroMessages(k, 3);
    hide FourPC.HonestMessages, ZeroSharing;
  }

  // ------------------------------------------------------------ fused comparison

  lemma SixtyFourAndZero()
    ensures ToInt(ShiftLeft(Small(false, true), 6)) == 64 && ToInt(Zero(8)) == 0
  {
    Powers();
    var w := ShiftLeft(Small(false, true), 6);
    assert Low(w, 1) == Low(w, 2) == Low(w, 3) == Low(w, 4) == Low(w, 5) == Low(w, 6) == 0 && Low(w, 7) == 64;
    var z := Zero(8);
    assert Low(z, 1) == Low(z, 2) == Low(z, 3) == Low(z, 4) == Low(z, 5) == Low(z, 6) == Low(z, 7) == 0;
  }

  /** The fused comparison of four parties calls 64 and 0 equal and neither greater: multi-key sorting with it would
      leave them in any order. */
  method FourPartyCompareMisses(x: Joint<Word>, y: Joint<Word>, ms: nat -> AndMask)
    returns (eq: Joint<Word>, gt: Joint<Word>)
    requires |x| == |y| == 4 && Width(x, 8) && Width(y, 8) && GoodMasks(ms, 4, 8)
    requires SecretB(x, 8) == ShiftLeft(Small(false, true), 6) && SecretB(y, 8) == Zero(8)
    ensures ToInt(SecretB(x, 8)) == 64 && ToInt(SecretB(y, 8)) == 0
    ensures |eq| == |gt| == 4 && Width(eq, 8) && Width(gt, 8)
    ensures SecretB(eq, 8) == BitWord(8, true) && SecretB(gt, 8) == BitWord(8, false)
  {
    SixtyFourAndZero();
    Powers();
    hide Width, SecretB, SingleBit, ToInt;
    eq, gt := Compare(x, y, 8, 3, ms);
  }
}
