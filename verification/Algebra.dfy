/** The two rings the protocols compute in.

    The source spells every product protocol out twice, once with `+`, `-`, `*` on residues and once with
    `^`, `^`, `&` on words.  Both are the same protocol over a ring, so the ring is a parameter here. */
module Algebra {
  import opened Arith
  import Ring
  import opened Words

  /** `operand` says what the machine may compute with, `element` what the results of its operations are. */
  datatype Ops<!T> = Ops(
    zero: T,
    plus: (T, T) -> T,
    minus: (T, T) -> T,
    times: (T, T) -> T,
    operand: T -> bool,
    element: T -> bool)

  function Residues(m: nat): (o: Ops<int>)
    requires m > 0
  {
    Ops(0, (a, b) => Ring.Add(m, a, b), (a, b) => Ring.Sub(m, a, b), (a, b) => Ring.Mul(m, a, b),
        a => true, a => 0 <= a < m)
  }

  function Bits(l: nat): (o: Ops<Word>) {
    Ops(Zero(l),
        (a: Word, b: Word) => if |a| == |b| then Xor(a, b) else a,
        (a: Word, b: Word) => if |a| == |b| then Xor(a, b) else a,
        (a: Word, b: Word) => if |a| == |b| then And(a, b) else a,
        (a: Word) => |a| == l, (a: Word) => |a| == l)
  }

  /** All that the replication of a product rests on. */
  ghost predicate Lawful<T(!new)>(o: Ops<T>) {
    && o.element(o.zero)
    && (forall a {:trigger o.operand(a)} :: o.element(a) ==> o.operand(a))
    && (forall a, b {:trigger o.plus(a, b)} :: o.operand(a) && o.operand(b) ==>
         o.element(o.plus(a, b)) && o.plus(a, b) == o.plus(b, a))
    && (forall a, b {:trigger o.minus(a, b)} :: o.operand(a) && o.operand(b) ==> o.element(o.minus(a, b)))
    && (forall a, b {:trigger o.times(a, b)} :: o.operand(a) && o.operand(b) ==> o.element(o.times(a, b)))
    && (forall a {:trigger o.plus(a, o.zero)} :: o.element(a) ==> o.plus(a, o.zero) == a)
    && (forall a {:trigger o.minus(a, o.zero)} :: o.element(a) ==> o.minus(a, o.zero) == a)
  }

  /** Masks can be told from each other: adding or subtracting different ones gives different results. */
  ghost predicate Cancels<T(!new)>(o: Ops<T>) {
    && (forall a, b, c {:trigger o.plus(a, b), o.plus(a, c)} ::
         o.operand(a) && o.element(b) && o.element(c) && o.plus(a, b) == o.plus(a, c) ==> b == c)
    && (forall a, b, c {:trigger o.minus(a, b), o.minus(a, c)} ::
         o.operand(a) && o.element(b) && o.element(c) && o.minus(a, b) == o.minus(a, c) ==> b == c)
  }

  ghost predicate Elements<T>(o: Ops<T>, cs: seq<T>) {
    forall j :: 0 <= j < |cs| ==> o.element(cs[j])
  }

  ghost predicate Operable<T>(o: Ops<T>, cs: seq<T>) {
    forall j :: 0 <= j < |cs| ==> o.operand(cs[j])
  }

  lemma ResiduesCancel(m: nat)
    requires m > 0
    ensures Cancels(Residues(m))
  {
    var o := Residues(m);
    forall a, b | o.element(b)
      ensures Ring.Sub(m, o.plus(a, b), a) == b && Ring.Sub(m, a, o.minus(a, b)) == b
    {
      Ring.WrapSub(m, a + b, a);
      Ring.WrapSub(m, a, a - b);
      DivModUnique(b, m, 0, b);
    }
  }

  lemma BitsCancel(l: nat)
    ensures Cancels(Bits(l))
  {
    var o := Bits(l);
    forall a, b | |a| == |b| == l ensures Xor(a, Xor(a, b)) == b {}
  }

  lemma ResiduesLawful(m: nat)
    requires m > 0
    ensures Lawful(Residues(m))
  {
    var o := Residues(m);
    forall a | o.element(a) ensures o.plus(a, o.zero) == a && o.minus(a, o.zero) == a {
      DivModUnique(a, m, 0, a);
    }
    DivModUnique(0, m, 0, 0);
  }

  lemma BitsLawful(l: nat)
    ensures Lawful(Bits(l))
  {
    var o := Bits(l);
    forall a, b | o.operand(a) && o.operand(b) ensures o.plus(a, b) == o.plus(b, a) {
      assert Xor(a, b) == Xor(b, a);
    }
    forall a | o.element(a) ensures o.plus(a, o.zero) == a && o.minus(a, o.zero) == a {
      assert Xor(a, Zero(l)) == a;
    }
  }
}
