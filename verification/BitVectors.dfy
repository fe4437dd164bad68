/** Vectors of single-bit sharings. */
module BitVectors {
  import opened Words
  import opened Sharing
  import opened Boolean
  import opened RippleCarry
  import opened Conversions

  /** The low bits of the secrets are `bs`. */
  predicate LowBits(bits: seq<Joint<Word>>, parties: nat, l: nat, bs: seq<bool>) {
    && l > 0 && |bits| == |bs| && SharedVector(bits, parties, l)
    && forall i {:trigger bs[i]} :: 0 <= i < |bs| ==> SecretB(bits[i], l)[0] == bs[i]
  }

  predicate Singles(bits: seq<Joint<Word>>) {
    forall i {:trigger bits[i]} :: 0 <= i < |bits| ==> SingleBit(bits[i])
  }

  /** The sharings are single bits and open to `bs`. */
  predicate Opens(bits: seq<Joint<Word>>, parties: nat, l: nat, bs: seq<bool>) {
    LowBits(bits, parties, l, bs) && Singles(bits)
  }

  /** The sharings can serve as control bits of multiplexers. */
  predicate Controls(bits: seq<Joint<Word>>, parties: nat, l: nat, bs: seq<bool>) {
    && LowBits(bits, parties, l, bs)
    && forall i {:trigger bits[i]} :: 0 <= i < |bits| ==> Extendable(bits[i], l)
  }

  lemma OpensControls(bits: seq<Joint<Word>>, parties: nat, l: nat, bs: seq<bool>)
    requires Opens(bits, parties, l, bs)
    ensures Controls(bits, parties, l, bs)
  {
    hide Width, SecretB, SingleBit, OddSetBelow;
    forall i | 0 <= i < |bits| ensures Extendable(bits[i], l) { SingleBitExtends(bits[i], l); }
  }

  lemma LowBitsMore(bits: seq<Joint<Word>>, bs: seq<bool>, bit: Joint<Word>, b: bool, parties: nat, l: nat)
    requires LowBits(bits, parties, l, bs) && |bit| == parties && Width(bit, l) && SecretB(bit, l)[0] == b
    ensures LowBits(bits + [bit], parties, l, bs + [b])
  {
    hide Width, SecretB;
    var xs, on := bits + [bit], bs + [b];
    forall i | 0 <= i < |xs| ensures SecretB(xs[i], l)[0] == on[i] {
      if i < |bs| { assert xs[i] == bits[i] && on[i] == bs[i]; }
    }
  }

  lemma OpensMore(bits: seq<Joint<Word>>, bs: seq<bool>, bit: Joint<Word>, b: bool, parties: nat, l: nat)
    requires Opens(bits, parties, l, bs) && |bit| == parties && Width(bit, l) && SingleBit(bit)
      && SecretB(bit, l)[0] == b
    ensures Opens(bits + [bit], parties, l, bs + [b])
  {
    hide Width, SecretB, SingleBit, LowBits;
    LowBitsMore(bits, bs, bit, b, parties, l);
  }

  lemma SameLength(bits: seq<Joint<Word>>, bs: seq<bool>, parties: nat, l: nat)
    requires LowBits(bits, parties, l, bs)
    ensures |bits| == |bs|
  {
  }

  lemma LowBitsSlices(xs: seq<Joint<Word>>, on: seq<bool>, d: nat, parties: nat, l: nat)
    requires LowBits(xs, parties, l, on) && d <= |xs|
    ensures LowBits(xs[..|xs| - d], parties, l, on[..|xs| - d]) && LowBits(xs[d..], parties, l, on[d..])
  {
    hide Width, SecretB;
    var n := |xs|;
    forall i | 0 <= i < n - d
      ensures SecretB(xs[..n - d][i], l)[0] == on[..n - d][i] && SecretB(xs[d..][i], l)[0] == on[d..][i]
    {
      assert on[..n - d][i] == on[i] && xs[..n - d][i] == xs[i];
      assert on[d..][i] == on[d + i] && xs[d..][i] == xs[d + i];
    }
  }

  lemma OpensSlices(xs: seq<Joint<Word>>, on: seq<bool>, d: nat, parties: nat, l: nat)
    requires Opens(xs, parties, l, on) && d <= |xs|
    ensures Opens(xs[..|xs| - d], parties, l, on[..|xs| - d]) && Opens(xs[d..], parties, l, on[d..])
  {
    hide SingleBit, LowBits;
    LowBitsSlices(xs, on, d, parties, l);
  }

  lemma OpensNothing(parties: nat, l: nat)
    requires l > 0 && (parties == 3 || parties == 4)
    ensures Opens([], parties, l, [])
  {
  }

  lemma OpensPrepended(bit: Joint<Word>, b: bool, bits: seq<Joint<Word>>, bs: seq<bool>, parties: nat, l: nat)
    requires Opens(bits, parties, l, bs) && |bit| == parties && Width(bit, l) && SingleBit(bit)
      && SecretB(bit, l)[0] == b
    ensures Opens([bit] + bits, parties, l, [b] + bs)
  {
    hide Width, SecretB;
    var xs, on := [bit] + bits, [b] + bs;
    forall i | 0 <= i < |xs| ensures SingleBit(xs[i]) && SecretB(xs[i], l)[0] == on[i] {
      if i > 0 { assert xs[i] == bits[i - 1] && on[i] == bs[i - 1]; }
    }
  }

  lemma OpensAt(bits: seq<Joint<Word>>, bs: seq<bool>, p: nat, parties: nat, l: nat)
    requires Opens(bits, parties, l, bs) && p < |bs|
    ensures |bits[p]| == parties && Width(bits[p], l) && SingleBit(bits[p]) && SecretB(bits[p], l)[0] == bs[p]
  {
    hide Width, SecretB, SingleBit;
    var b := bs[p];
  }

  /** `b2a_bit`, which reads the low bits only. */
  method BitsToNumbers(bits: seq<Joint<Word>>, ghost bs: seq<bool>, parties: nat, l: nat) returns (zs: seq<Joint<int>>)
    requires LowBits(bits, parties, l, bs)
    ensures |zs| == |bs|
    ensures forall i {:trigger bs[i]} :: 0 <= i < |bs| ==> SharesOf(zs[i], parties, Pow2(l), BitValue(bs[i]))
  {
    hide Width, SecretB, SingleBit, SharesOf;
    zs := B2ABit(bits, parties, l);
  }
}
