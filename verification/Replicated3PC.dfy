/** The semi-honest 3-party protocol of Araki et al.: products and the dealing of secrets. */
module Replicated3PC {
  import opened Sharing
  import opened Algebra

  /** The product terms that one party can form, masked. */
  function LocalProduct<T>(o: Ops<T>, x: seq<T>, y: seq<T>, r: T): (v: T)
    requires |x| == |y| == 2
  {
    o.plus(o.plus(o.plus(o.times(x[0], y[0]), o.times(x[0], y[1])), o.times(x[1], y[0])), r)
  }

  /** One step of all three parties: multiply locally, then pass the result to the successor. */
  function Product<T(==)>(o: Ops<T>, x: Joint<T>, y: Joint<T>, r: seq<T>): (z: Joint<T>)
    requires Shaped(x) && Shaped(y) && |x| == |y| == |r| == 3
    ensures Replicated(z) && |z| == 3
    ensures forall k :: 0 <= k < 3 ==> Components(z)[k] == LocalProduct(o, x[k], y[k], r[k])
  {
    KeepAndPass(seq(3, i requires 0 <= i < 3 => LocalProduct(o, x[i], y[i], r[i])))
  }

  lemma PairOf<T>(x: Joint<T>, k: nat)
    requires Replicated(x) && |x| == 3 && k < 3
    ensures x[k] == [Components(x)[k], Components(x)[(k + 2) % 3]]
  {
    assert x[k][0] == Components(x)[Layout(3, k, 0)] && x[k][1] == Components(x)[Layout(3, k, 1)];
  }

  /** The data party draws two shares and computes the third. */
  function SecretShare<T(==)>(o: Ops<T>, data: T, dataParty: nat, s1: T, s2: T): (x: Joint<T>)
    requires dataParty < 3
    ensures Replicated(x) && |x| == 3
  {
    DealFrom(dataParty, s1, s2, o.minus(o.minus(data, s1), s2))
  }
}
