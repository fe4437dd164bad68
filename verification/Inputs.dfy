/** Inputs of the protocols: what a dealt secret and a value given by `inp` open to. */
module Inputs {
  import Ring
  import opened Words
  import opened Sharing
  import opened Algebra
  import opened Arithmetic
  import opened Boolean
  import opened JointInput
  import ThreePC = Replicated3PC

  // ---------------------------------------------------------------- dealing

  lemma DealtB(data: Word, dataParty: nat, s1: Word, s2: Word, l: nat)
    requires dataParty < 3 && |data| == |s1| == |s2| == l
    ensures var x := ThreePC.SecretShare(Bits(l), data, dataParty, s1, s2);
      Width(x, l) && SecretB(x, l) == data
  {
    var s3 := Xor(Xor(data, s1), s2);
    var x := DealFrom(dataParty, s1, s2, s3);
    assert x == ThreePC.SecretShare(Bits(l), data, dataParty, s1, s2);
    assert Components(x) == [[s1, s2, s3], [s3, s1, s2], [s2, s3, s1]][dataParty];
    ThirdWord(data, s1, s2, s3);
  }

  lemma ThirdWord(data: Word, s1: Word, s2: Word, s3: Word)
    requires |data| == |s1| == |s2| && s3 == Xor(Xor(data, s1), s2)
    ensures Combine([s1, s2, s3]) == Combine([s3, s1, s2]) == Combine([s2, s3, s1]) == data
  {
  }

  /** The data party 0 of the 4-party protocol draws three shares and computes the fourth. */
  function SecretShare4<T>(o: Ops<T>, data: T, s1: T, s2: T, s3: T): (x: Joint<T>)
    ensures |x| == 4 && Shaped(x)
  {
    var s4 := o.minus(o.minus(o.minus(data, s1), s2), s3);
    Deal([s1, s2, s3, s4])
  }

  lemma Dealt4B(data: Word, s1: Word, s2: Word, s3: Word, l: nat)
    requires |data| == |s1| == |s2| == |s3| == l
    ensures var x := SecretShare4(Bits(l), data, s1, s2, s3);
      Width(x, l) && SecretB(x, l) == data
  {
    assert Combine([s1, s2, s3, Xor(Xor(Xor(data, s1), s2), s3)]) == data;
  }

  // -------------------------------------------------------------------- inp

  lemma InpOpensB(i: nat, v: Word, r: Word, l: nat)
    requires (i == 0 || i == 2) && |v| == |r| == l
    ensures var x := Deal(InpComponents(Bits(l), i, v, r)); Width(x, l) && SecretB(x, l) == v
  {
    var cs := InpComponents(Bits(l), i, v, r);
    assert SameWidth(cs, l) && Combine(cs) == v;
  }

  lemma InpOpensA(m: nat, i: nat, v: int, r: int)
    requires m > 0 && (i == 0 || i == 2)
    ensures SecretA(m, Deal(InpComponents(Residues(m), i, v, r))) == v % m
  {
    Ring.SubtractAndAddBack(m, v, r);
    assert Plain(InpComponents(Residues(m), i, v, r)) == Ring.Sub(m, v, r) + r;
  }
}
