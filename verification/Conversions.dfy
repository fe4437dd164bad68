/** Conversions between arithmetic and Boolean sharings, and division by a public constant. */
module Conversions {
  import opened Arith
  import Ring
  import opened Words
  import opened VectorBits
  import opened Packing
  import opened Sharing
  import opened Algebra
  import opened Arithmetic
  import opened Boolean
  import opened Circuits
  import opened Adders
  import opened RippleCarry
  import opened Inputs
  import opened JointInput
  import ThreePC = Replicated3PC

  /** The two numbers that are held in full by some party: u by party 0 and v by its successor (with four parties,
      u also by party 3 and v by parties 1 and 2). */
  function PartU(m: nat, x: Joint<int>): (u: int)
    requires m > 0 && Shaped(x)
  {
    var cs := Components(x);
    if |x| == 3 then Ring.Add(m, cs[0], cs[2]) else Ring.Add(m, cs[1], cs[2])
  }

  function PartV(m: nat, x: Joint<int>): (v: int)
    requires m > 0 && Shaped(x)
  {
    var cs := Components(x);
    if |x| == 3 then cs[1] else Ring.Add(m, cs[3], cs[0])
  }

  lemma PartsAddUp(m: nat, x: Joint<int>)
    requires m > 0 && Shaped(x)
    ensures (PartU(m, x) + PartV(m, x)) % m == SecretA(m, x)
  {
    hide Ring.Add, Total;
    var cs := Components(x);
    if |x| == 3 {
      TwoAndOne(m, cs[0], cs[2], cs[1]);
    } else {
      TwoAndTwo(m, cs[1], cs[2], cs[3], cs[0]);
    }
  }

  lemma TwoAndOne(m: nat, a: int, b: int, c: int)
    requires m > 0
    ensures (Ring.Add(m, a, b) + c) % m == (a + b + c) % m
  {
    Ring.WrapAdd(m, a + b, c);
  }

  lemma TwoAndTwo(m: nat, a: int, b: int, c: int, d: int)
    requires m > 0
    ensures (Ring.Add(m, a, b) + Ring.Add(m, c, d)) % m == (a + b + c + d) % m
  {
    Ring.AddResidues(m, a + b, c + d);
  }

  // -------------------------------------------------------------------- a2b

  /** The random words drawn when two parts are shared again. */
  datatype ShareMask = ShareMask(s1: Word, s2: Word, t1: Word, t2: Word)

  predicate GoodShareMask(r: ShareMask, l: nat) {
    |r.s1| == |r.s2| == |r.t1| == |r.t2| == l
  }

  /** `redistribute_shares_b`: the two parts become Boolean sharings.  Three parties deal them; four parties use
      `inp` twice, with the mask that its three holders agree on. */
  method RedistributeB(x: Joint<int>, l: nat, r: ShareMask) returns (b1: Joint<Word>, b2: Joint<Word>)
    requires InRange(Pow2(l), x) && GoodShareMask(r, l)
    ensures |b1| == |b2| == |x| && Width(b1, l) && Width(b2, l)
    ensures ToNat(SecretB(b1, l)) == PartU(Pow2(l), x)
    ensures ToNat(SecretB(b2, l)) == PartV(Pow2(l), x)
  {
    var m := Pow2(l);
    var cs := Components(x);
    ghost var u, v := PartU(m, x), PartV(m, x);
    if |x| == 3 {
      assert x[0][0] == cs[Layout(3, 0, 0)] && x[0][1] == cs[Layout(3, 0, 1)] && x[1][0] == cs[Layout(3, 1, 0)];
      var first := FromNat(Ring.Add(m, x[0][0], x[0][1]), l);
      var second := FromNat(x[1][0], l);
      DealtB(first, 0, r.s1, r.s2, l);
      DealtB(second, 1, r.t1, r.t2, l);
      b1 := ThreePC.SecretShare(Bits(l), first, 0, r.s1, r.s2);
      b2 := ThreePC.SecretShare(Bits(l), second, 1, r.t1, r.t2);
      ToNatFromNat(u, l);
      ToNatFromNat(v, l);
    } else {
      var us := [FromNat(Ring.Add(m, x[0][0], x[0][1]), l), Zero(l), Zero(l),
                 FromNat(Ring.Add(m, x[3][1], x[3][2]), l)];
      var vs := [Zero(l), FromNat(Ring.Add(m, x[1][1], x[1][2]), l), FromNat(Ring.Add(m, x[2][0], x[2][1]), l),
                 Zero(l)];
      ViewsOfParts(x, m);
      assert us[0] == us[3] == FromNat(u, l) && vs[1] == vs[2] == FromNat(v, l);
      b1 := Inp(Bits(l), 0, us, [r.s1, r.s1, r.s1, r.s1]);
      b2 := Inp(Bits(l), 2, vs, [r.t1, r.t1, r.t1, r.t1]);
      InpHonest(Bits(l), 0, us, [r.s1, r.s1, r.s1, r.s1]);
      InpHonest(Bits(l), 2, vs, [r.t1, r.t1, r.t1, r.t1]);
      InpOpensB(0, us[0], r.s1, l);
      InpOpensB(2, vs[2], r.t1, l);
      ToNatFromNat(u, l);
      ToNatFromNat(v, l);
    }
  }

  lemma ViewsOfParts(x: Joint<int>, m: nat)
    requires Replicated(x) && |x| == 4 && m > 0
    ensures Ring.Add(m, x[0][0], x[0][1]) == Ring.Add(m, x[3][1], x[3][2]) == PartU(m, x)
    ensures Ring.Add(m, x[1][1], x[1][2]) == Ring.Add(m, x[2][0], x[2][1]) == PartV(m, x)
  {
    var cs := Components(x);
    forall i, c | 0 <= i < 4 && 0 <= c < 3 ensures x[i][c] == cs[Layout(4, i, c)] {}
  }

  /** Arithmetic to Boolean: the result opens to the same machine word. */
  method A2B(x: Joint<int>, l: nat, k: nat, r: ShareMask, ms: nat -> AndMask) returns (z: Joint<Word>)
    requires k >= 2 && l == Pow2(k) && InRange(Pow2(l), x) && GoodShareMask(r, l) && GoodMasks(ms, |x|, l)
    ensures |z| == |x| && Width(z, l)
    ensures ToNat(SecretB(z, l)) == SecretA(Pow2(l), x)
  {
    hide Width, SecretB, SecretA, PartU, PartV;
    PartsAddUp(Pow2(l), x);
    var b1, b2 := RedistributeB(x, l, r);
    z := ParallelPrefixAdder(b1, b2, l, k, ms);
  }

  /** The sign bit of a small number stored in a machine word. */
  lemma SignOfStored(w: Word, e: int)
    requires |w| > 0 && ToNat(w) == e % Pow2(|w|) && Ring.Fits(Pow2(|w|), e)
    ensures Sign(w) <==> e < 0
  {
    var m := Pow2(|w|);
    assert m == 2 * Pow2(|w| - 1);
    if e >= 0 { DivModUnique(e, m, 0, e); } else { DivModUnique(e, m, -1, e + m); }
  }

  // ---------------------------------------------------------------- b2a_bit

  function BitValue(b: bool): (v: nat) {
    if b then 1 else 0
  }

  lemma BitWordValue(l: nat, b: bool)
    requires l > 0
    ensures ToNat(BitWord(l, b)) == BitValue(b)
  {
    LowOfBit(BitWord(l, b), l);
  }

  function ZeroWords(size: nat, l: nat): (v: seq<Word>)
    ensures |v| == size && Uniform(v, l) && forall e :: 0 <= e < size ==> v[e] == Zero(l)
  {
    seq(size, e => Zero(l))
  }

  /** What party `p` sees of the low bits after the packed words are opened and unpacked. */
  method OpenPacked(xs: seq<Joint<Word>>, packed: seq<Joint<Word>>, n: nat, l: nat, p: nat) returns (bits: seq<Word>)
    requires SharedVector(xs, n, l) && SharedVector(packed, n, l) && l > 0 && p < n
    requires |packed| == DivCeil(|xs|, l) && Secrets(packed, n, l) == Packed(Secrets(xs, n, l), 0, l)
    ensures |bits| == |xs| && forall e :: 0 <= e < |xs| ==> bits[e] == BitWord(l, SecretB(xs[e], l)[0])
  {
    hide Width, SecretB, SingleBit, OpenB, PackedWord, Slot, DivCeil;
    forall q | 0 <= q < |packed| ensures OpenB(packed[q], l, p) == Secrets(packed, n, l)[q] {
      OpenBGivesSecret(packed[q], l, p);
    }
    var words := seq(|packed|, q requires 0 <= q < |packed| => OpenB(packed[q], l, p));
    assert words == Secrets(packed, n, l);
    bits := SimpleBitDecompress(ZeroWords(|xs|, l), words, 0, l);
    forall e | 0 <= e < |xs| ensures bits[e] == BitWord(l, SecretB(xs[e], l)[0]) {
      PackedBit(Secrets(xs, n, l), 0, l, e);
    }
  }

  /** The low bits are packed and opened at every party; `seen[p]` is what party `p` gets. */
  method OpenLowBits(xs: seq<Joint<Word>>, n: nat, l: nat) returns (seen: seq<seq<Word>>)
    requires SharedVector(xs, n, l) && l > 0
    ensures |seen| == n
    ensures forall p :: 0 <= p < n ==> |seen[p]| == |xs|
    ensures forall p, e :: 0 <= p < n && 0 <= e < |xs| ==> seen[p][e] == BitWord(l, SecretB(xs[e], l)[0])
  {
    hide Width, SecretB, SingleBit, Packed;
    var packed := CompressB(xs, n, 0, l);
    seen := [];
    for p := 0 to n
      invariant |seen| == p
      invariant forall i :: 0 <= i < p ==> |seen[i]| == |xs|
      invariant forall i, e :: 0 <= i < p && 0 <= e < |xs| ==> seen[i][e] == BitWord(l, SecretB(xs[e], l)[0])
    {
      var bits := OpenPacked(xs, packed, n, l, p);
      seen := seen + [bits];
    }
  }

  /** The arithmetic share of component 1 of 3, or 2 of 4, is the opened bit; the others are zero. */
  function BitComponents(n: nat, b: bool): (cs: seq<int>)
    requires n == 3 || n == 4
    ensures |cs| == n
  {
    if n == 3 then [0, BitValue(b), 0] else [0, BitValue(b), 0, 0]
  }

  /** A consistent arithmetic sharing of `v` modulo `m` among `n` parties, with machine words as components. */
  predicate SharesOf(z: Joint<int>, n: nat, m: nat, v: int) {
    m > 0 && |z| == n && InRange(m, z) && SecretA(m, z) == v % m
  }

  lemma BitComponentsOpen(n: nat, b: bool, m: nat)
    requires (n == 3 || n == 4) && m > 1
    ensures SharesOf(Deal(BitComponents(n, b)), n, m, BitValue(b))
  {
    assert Plain(BitComponents(n, b)) == BitValue(b);
  }

  /** The own share of a party of three: `(r * (res * -2 + 1) + res * (id % 2)) & 1` with `r` zero. */
  function OwnShare3(bit: nat, id: nat): (s: nat)
  {
    (0 * (bit * -2 + 1) + bit * (id % 2)) % 2
  }

  /** Share `c` of a party of four: `(res * pid_mod_c - r * (res * 2 - 1)) & 1` with `r` zero. */
  function Share4(bit: nat, id: nat, c: nat): (s: nat)
  {
    (bit * (if (id + c) % 4 == 0 then 1 else 0) - 0 * (bit * 2 - 1)) % 2
  }

  /** Three parties pack their own bits, pass the packed words to the successor and unpack what they get. */
  method PassOwnBits(own: seq<seq<Word>>, size: nat, l: nat) returns (prev: seq<seq<Word>>)
    requires l > 0 && |own| == 3
    requires forall p :: 0 <= p < 3 ==> |own[p]| == size && BitVector(own[p], l)
    ensures prev == [own[2], own[0], own[1]]
  {
    hide BitVector;
    prev := [];
    for p := 0 to 3
      invariant |prev| == p && forall i :: 0 <= i < p ==> prev[i] == own[Peer(3, 2, i)]
    {
      var words := PassBits(own[Peer(3, 2, p)], size, l);
      prev := prev + [words];
    }
  }

  predicate BitVector(v: seq<Word>, l: nat) {
    Uniform(v, l) && forall e :: 0 <= e < |v| ==> IsBit(v[e])
  }

  method PassBits(sent: seq<Word>, size: nat, l: nat) returns (words: seq<Word>)
    requires l > 0 && |sent| == size && BitVector(sent, l)
    ensures words == sent
  {
    var packed := SimpleBitCompress(sent, 0, l);
    words := SimpleBitDecompress(ZeroWords(size, l), packed, 0, l);
    forall e | 0 <= e < size ensures words[e] == sent[e] {
      PackedBit(sent, 0, l, e);
      assert IsBit(sent[e]);
    }
  }

  /** The own bits of one of three parties, computed from what it opened. */
  method OwnBits(seen: seq<Word>, ghost bits: seq<bool>, party: nat, l: nat) returns (own: seq<Word>)
    requires l > 0 && |seen| == |bits| && party < 3
    requires forall e {:trigger bits[e]} :: 0 <= e < |bits| ==> seen[e] == BitWord(l, bits[e])
    ensures |own| == |bits| && BitVector(own, l)
    ensures forall e {:trigger own[e]} :: 0 <= e < |bits| ==>
      own[e] == BitWord(l, OwnShare3(BitValue(bits[e]), party) == 1)
  {
    hide OwnShare3;
    forall e {:trigger seen[e]} | 0 <= e < |bits| ensures ToNat(seen[e]) == BitValue(bits[e]) {
      BitWordValue(l, bits[e]);
    }
    own := seq(|seen|, e requires 0 <= e < |seen| => BitWord(l, OwnShare3(ToNat(seen[e]), party) == 1));
  }

  /** The shares of one element: the own bit and the one that was passed on. */
  method BitShare3(own0: Word, own1: Word, own2: Word, prev0: Word, prev1: Word, prev2: Word, ghost b: bool, l: nat)
    returns (z: Joint<int>)
    requires prev0 == own2 && prev1 == own0 && prev2 == own1
    requires l > 0 && own0 == BitWord(l, OwnShare3(BitValue(b), 0) == 1)
    requires own1 == BitWord(l, OwnShare3(BitValue(b), 1) == 1) && own2 == BitWord(l, OwnShare3(BitValue(b), 2) == 1)
    ensures z == Deal(BitComponents(3, b))
  {
    hide ToNat, OwnShare3, BitWord, BitComponents, Deal;
    z := [[ToNat(own0), ToNat(prev0)], [ToNat(own1), ToNat(prev1)], [ToNat(own2), ToNat(prev2)]];
    ThreeBitShares(z, [own0, own1, own2], b, l);
  }

  method BitShares3(seen: seq<seq<Word>>, ghost bits: seq<bool>, size: nat, l: nat) returns (zs: seq<Joint<int>>)
    requires l > 0 && |seen| == 3 && |bits| == size && forall p :: 0 <= p < 3 ==> |seen[p]| == size
    requires forall p, e :: 0 <= p < 3 && 0 <= e < |bits| ==> seen[p][e] == BitWord(l, bits[e])
    ensures |zs| == |bits|
    ensures forall e :: 0 <= e < |bits| ==> zs[e] == Deal(BitComponents(3, bits[e]))
  {
    hide OwnShare3, BitWord, BitComponents, Deal, BitVector;
    var own0 := OwnBits(seen[0], bits, 0, l);
    var own1 := OwnBits(seen[1], bits, 1, l);
    var own2 := OwnBits(seen[2], bits, 2, l);
    var prev := PassOwnBits([own0, own1, own2], size, l);
    zs := [];
    for e := 0 to size
      invariant |zs| == e && forall d :: 0 <= d < e ==> zs[d] == Deal(BitComponents(3, bits[d]))
    {
      var z := BitShare3(own0[e], own1[e], own2[e], prev[0][e], prev[1][e], prev[2][e], bits[e], l);
      zs := zs + [z];
    }
  }

  method BitShares4(seen: seq<seq<Word>>, ghost bits: seq<bool>, size: nat, l: nat) returns (zs: seq<Joint<int>>)
    requires l > 0 && |seen| == 4 && |bits| == size && forall p :: 0 <= p < 4 ==> |seen[p]| == size
    requires forall p, e :: 0 <= p < 4 && 0 <= e < |bits| ==> seen[p][e] == BitWord(l, bits[e])
    ensures |zs| == |bits|
    ensures forall e :: 0 <= e < |bits| ==> zs[e] == Deal(BitComponents(4, bits[e]))
  {
    zs := seq(size, e requires 0 <= e < size =>
      seq(4, p requires 0 <= p < 4 => seq(3, c requires 0 <= c < 3 => Share4(ToNat(seen[p][e]), p, c))));
    forall e | 0 <= e < |bits| ensures zs[e] == Deal(BitComponents(4, bits[e])) {
      BitWordValue(l, bits[e]);
      FourBitShares(zs[e], bits[e]);
    }
  }

  /** Boolean to arithmetic, for the low bit of every element. */
  method B2ABit(xs: seq<Joint<Word>>, n: nat, l: nat) returns (zs: seq<Joint<int>>)
    requires SharedVector(xs, n, l) && l > 0
    ensures |zs| == |xs|
    ensures forall e :: 0 <= e < |xs| ==> SharesOf(zs[e], n, Pow2(l), BitValue(SecretB(xs[e], l)[0]))
  {
    var seen := OpenLowBits(xs, n, l);
    ghost var bits := seq(|xs|, e requires 0 <= e < |xs| => SecretB(xs[e], l)[0]);
    if n == 3 { zs := BitShares3(seen, bits, |xs|, l); } else { zs := BitShares4(seen, bits, |xs|, l); }
    forall e | 0 <= e < |xs| ensures SharesOf(zs[e], n, Pow2(l), BitValue(SecretB(xs[e], l)[0])) {
      assert Pow2(l) > 1;
      BitComponentsOpen(n, bits[e], Pow2(l));
    }
  }

  lemma ThreeBitShares(z: Joint<int>, own: seq<Word>, b: bool, l: nat)
    requires |z| == |own| == 3 && Shaped(z) && l > 0
    requires forall p :: 0 <= p < 3 ==> own[p] == BitWord(l, OwnShare3(BitValue(b), p) == 1)
    requires forall p :: 0 <= p < 3 ==> z[p] == [ToNat(own[p]), ToNat(own[(p + 2) % 3])]
    ensures z == Deal(BitComponents(3, b))
  {
    BitWordValue(l, false);
    BitWordValue(l, b);
    assert own[0] == BitWord(l, false) && own[1] == BitWord(l, b) && own[2] == BitWord(l, false);
    DealtThree(BitComponents(3, b), z);
  }

  lemma FourBitShares(z: Joint<int>, b: bool)
    requires |z| == 4 && Shaped(z)
    requires forall p, c :: 0 <= p < 4 && 0 <= c < 3 ==> z[p][c] == Share4(BitValue(b), p, c)
    ensures z == Deal(BitComponents(4, b))
  {
    ReplicatedByEntries(z, BitComponents(4, b));
  }
}
