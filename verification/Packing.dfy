/** `simple_bit_compress` and `simple_bit_decompress` for one bit per element: bit `i` of element `e` is stored at
    bit `e % l` of packed word `e / l`. */
module Packing {
  import opened Arith
  import opened Words
  import opened VectorBits

  predicate Uniform(v: seq<Word>, l: nat) {
    forall e :: 0 <= e < |v| ==> |v[e]| == l
  }

  function DivCeil(n: nat, l: nat): (q: nat)
    requires l > 0
    ensures q * l >= n
    ensures n > 0 ==> (q - 1) * l < n
  {
    DivMod(n, l);
    n / l + (if n % l > 0 then 1 else 0)
  }

  /** Where element `e` is packed. */
  lemma PackedAt(e: nat, words: nat, l: nat)
    requires l > 0 && e < words * l
    ensures 0 <= e / l < words && 0 <= e % l < l && e == (e / l) * l + e % l
  {
    DivMod(e, l);
    if e / l < 0 { MulMono(e / l, -1, l); }
    if e / l >= words { MulMono(words, e / l, l); }
  }

  /** The packed bit of element `e`. */
  function Slot(p: seq<Word>, e: nat, l: nat): (b: bool)
    requires l > 0 && Uniform(p, l) && e < |p| * l
  {
    PackedAt(e, |p|, l);
    p[e / l][e % l]
  }

  lemma PackedOnce(q: nat, r: nat, l: nat)
    requires r < l
    ensures (q * l + r) / l == q && (q * l + r) % l == r
  {
    DivModUnique(q * l + r, l, q, r);
  }

  /** Word `q` of the packed vector. */
  function PackedWord(v: seq<Word>, i: nat, l: nat, q: nat): (w: Word)
    requires Uniform(v, l) && i < l
    ensures |w| == l
    ensures forall r :: 0 <= r < l ==> w[r] == (q * l + r < |v| && v[q * l + r][i])
  {
    seq(l, r requires 0 <= r < l => q * l + r < |v| && v[q * l + r][i])
  }

  function Packed(v: seq<Word>, i: nat, l: nat): (p: seq<Word>)
    requires Uniform(v, l) && i < l
    ensures |p| == DivCeil(|v|, l) && Uniform(p, l)
    ensures forall q :: 0 <= q < |p| ==> p[q] == PackedWord(v, i, l, q)
  {
    seq(DivCeil(|v|, l), q requires 0 <= q < DivCeil(|v|, l) => PackedWord(v, i, l, q))
  }

  lemma PackedBit(v: seq<Word>, i: nat, l: nat, e: nat)
    requires Uniform(v, l) && i < l && e < |v|
    ensures Slot(Packed(v, i, l), e, l) == v[e][i]
  {
    PackedAt(e, DivCeil(|v|, l), l);
  }

  /** The vector `v` with bit `i` of element `e` taken from the packed words `p`. */
  function Unpacked(v: seq<Word>, p: seq<Word>, i: nat, l: nat): (u: seq<Word>)
    requires Uniform(v, l) && Uniform(p, l) && i < l && |p| == DivCeil(|v|, l)
    ensures |u| == |v| && Uniform(u, l)
    ensures forall e :: 0 <= e < |v| ==> u[e] == v[e][i := Slot(p, e, l)]
  {
    seq(|v|, e requires 0 <= e < |v| => v[e][i := Slot(p, e, l)])
  }

  lemma UnpackPacked(v: seq<Word>, i: nat, l: nat)
    requires Uniform(v, l) && i < l
    ensures Unpacked(v, Packed(v, i, l), i, l) == v
  {
    hide Slot, DivCeil, PackedWord;
    var u := Unpacked(v, Packed(v, i, l), i, l);
    forall e | 0 <= e < |v| ensures u[e] == v[e] {
      PackedBit(v, i, l, e);
      assert v[e][i := v[e][i]] == v[e];
    }
  }

  /** Packing what was unpacked gives the packed words back, whatever the other bits of the target. */
  lemma PackUnpacked(v: seq<Word>, into: seq<Word>, i: nat, l: nat)
    requires Uniform(v, l) && Uniform(into, l) && |into| == |v| && i < l
    ensures Packed(Unpacked(into, Packed(v, i, l), i, l), i, l) == Packed(v, i, l)
  {
    var p := Packed(v, i, l);
    var u := Unpacked(into, p, i, l);
    forall e | 0 <= e < |v| ensures u[e][i] == v[e][i] { PackedBit(v, i, l, e); }
    forall q | 0 <= q < |p| ensures Packed(u, i, l)[q] == p[q] {
      assert PackedWord(u, i, l, q) == PackedWord(v, i, l, q);
    }
  }

  /** Bit `r` of packed word `q` goes to bit `i` of element `q * l + r`. */
  lemma UnpackedMeans(v: seq<Word>, p: seq<Word>, i: nat, l: nat)
    requires Uniform(v, l) && Uniform(p, l) && i < l && |p| == DivCeil(|v|, l)
    ensures forall q, r :: 0 <= q < |p| && 0 <= r < l && q * l + r < |v| ==>
      Unpacked(v, p, i, l)[q * l + r][i] == p[q][r]
  {
    forall q, r | 0 <= q < |p| && 0 <= r < l && q * l + r < |v|
      ensures Unpacked(v, p, i, l)[q * l + r][i] == p[q][r]
    {
      PackedOnce(q, r, l);
    }
  }

  method SimpleBitCompress(v: seq<Word>, i: nat, l: nat) returns (res: seq<Word>)
    requires Uniform(v, l) && i < l
    ensures res == Packed(v, i, l)
    ensures |res| * l >= |v| && (|res| > 0 ==> (|res| - 1) * l < |v|)
    ensures Uniform(res, l)
    ensures forall q, r :: 0 <= q < |res| && 0 <= r < l ==> res[q][r] == (q * l + r < |v| && v[q * l + r][i])
  {
    res := seq(DivCeil(|v|, l), q => Zero(l));
    for e := 0 to |v|
      invariant |res| == DivCeil(|v|, l) && Uniform(res, l)
      invariant forall q, r :: 0 <= q < |res| && 0 <= r < l ==> res[q][r] == (q * l + r < e && v[q * l + r][i])
    {
      PackedAt(e, DivCeil(|v|, l), l);
      var bit := GetBit(v[e], i);
      var before := res;
      res := res[e / l := SetBit(res[e / l], bit, e % l)];
      forall q, r | 0 <= q < |res| && 0 <= r < l
        ensures res[q][r] == (q * l + r < e + 1 && v[q * l + r][i])
      {
        PackedOnce(q, r, l);
      }
    }
    assert forall q :: 0 <= q < |res| ==> res[q] == PackedWord(v, i, l, q);
  }

  method SimpleBitDecompress(v: seq<Word>, other: seq<Word>, i: nat, l: nat) returns (res: seq<Word>)
    requires Uniform(v, l) && Uniform(other, l) && i < l && |other| == DivCeil(|v|, l)
    ensures res == Unpacked(v, other, i, l)
    ensures |res| == |v| && Uniform(res, l)
    ensures forall e, j {:trigger res[e][j]} :: 0 <= e < |v| && 0 <= j < l && j != i ==> res[e][j] == v[e][j]
    ensures forall q, r :: 0 <= q < |other| && 0 <= r < l && q * l + r < |v| ==> res[q * l + r][i] == other[q][r]
  {
    res := v;
    for e := 0 to |v|
      invariant |res| == |v|
      invariant forall d {:trigger res[d]} :: 0 <= d < |v| ==>
        res[d] == if d < e then Unpacked(v, other, i, l)[d] else v[d]
    {
      PackedAt(e, |other|, l);
      res := res[e := SetBit(res[e], GetBit(other[e / l], e % l), i)];
    }
    assert res == Unpacked(v, other, i, l);
    UnpackedMeans(v, other, i, l);
  }
}
