/** The ripple-carry adder works on packed words: one word holds bit `i` of `l` consecutive rows, so that a single
    protocol operation advances the carries of all of them. */
module RippleCarry {
  import opened Arith
  import opened Words
  import opened Packing
  import opened Sharing
  import opened Boolean
  import opened Circuits

  predicate SharedVector(xs: seq<Joint<Word>>, n: nat, l: nat) {
    (n == 3 || n == 4) && forall e :: 0 <= e < |xs| ==> |xs[e]| == n && Width(xs[e], l)
  }

  function Secrets(xs: seq<Joint<Word>>, n: nat, l: nat): (v: seq<Word>)
    requires SharedVector(xs, n, l)
    ensures |v| == |xs| && Uniform(v, l)
    ensures forall e :: 0 <= e < |xs| ==> v[e] == SecretB(xs[e], l)
  {
    seq(|xs|, e requires 0 <= e < |xs| => SecretB(xs[e], l))
  }

  /** Component `k` of every element. */
  function Column(xs: seq<Joint<Word>>, n: nat, l: nat, k: nat): (v: seq<Word>)
    requires SharedVector(xs, n, l) && k < n
    ensures |v| == |xs| && Uniform(v, l)
    ensures forall e :: 0 <= e < |xs| ==> v[e] == Components(xs[e])[k]
  {
    seq(|xs|, e requires 0 <= e < |xs| => Components(xs[e])[k])
  }

  /** Share `c` of party `i` of every element: the `Vector` that the source packs. */
  function ShareColumn(xs: seq<Joint<Word>>, n: nat, l: nat, i: nat, c: nat): (v: seq<Word>)
    requires SharedVector(xs, n, l) && i < n && c < n - 1
    ensures v == Column(xs, n, l, Layout(n, i, c)) && Uniform(v, l)
  {
    assert forall e :: 0 <= e < |xs| ==> xs[e][i][c] == Components(xs[e])[Layout(n, i, c)];
    seq(|xs|, e requires 0 <= e < |xs| => xs[e][i][c])
  }

  method CompressB(xs: seq<Joint<Word>>, n: nat, i: nat, l: nat) returns (zs: seq<Joint<Word>>)
    requires SharedVector(xs, n, l) && i < l
    ensures SharedVector(zs, n, l) && |zs| == DivCeil(|xs|, l)
    ensures Secrets(zs, n, l) == Packed(Secrets(xs, n, l), i, l)
  {
    zs := seq(DivCeil(|xs|, l), q requires 0 <= q < DivCeil(|xs|, l) =>
      seq(n, p requires 0 <= p < n => seq(n - 1, c requires 0 <= c < n - 1 =>
        Packed(ShareColumn(xs, n, l, p, c), i, l)[q])));
    forall q | 0 <= q < |zs|
      ensures |zs[q]| == n && Width(zs[q], l)
      ensures SecretB(zs[q], l) == PackedWord(Secrets(xs, n, l), i, l, q)
    {
      var cs := seq(n, k requires 0 <= k < n => PackedWord(Column(xs, n, l, k), i, l, q));
      ReplicatedByEntries(zs[q], cs);
      CombinePacked(xs, n, i, l, q, cs);
    }
  }

  lemma CombinePacked(xs: seq<Joint<Word>>, n: nat, i: nat, l: nat, q: nat, cs: seq<Word>)
    requires SharedVector(xs, n, l) && i < l && |cs| == n
    requires forall k :: 0 <= k < n ==> cs[k] == PackedWord(Column(xs, n, l, k), i, l, q)
    ensures SameWidth(cs, l) && Combine(cs) == PackedWord(Secrets(xs, n, l), i, l, q)
  {
    hide Width, SecretB, PackedWord;
    forall r | 0 <= r < l ensures Combine(cs)[r] == PackedWord(Secrets(xs, n, l), i, l, q)[r] {
      var e := PackedPosition(q, r, l);
      forall k | 0 <= k < n ensures cs[k][r] == (e < |xs| && Column(xs, n, l, k)[e][i]) {
        PackedWordBit(Column(xs, n, l, k), i, l, q, r, e);
      }
      PackedWordBit(Secrets(xs, n, l), i, l, q, r, e);
      if e < |xs| { SecretBit(xs, n, l, e, i); }
    }
  }

  /** The row whose bit is at position `r` of word `q`. */
  function PackedPosition(q: nat, r: nat, l: nat): (e: nat) {
    MulMono(0, q, l);
    q * l + r
  }

  lemma PackedWordBit(v: seq<Word>, i: nat, l: nat, q: nat, r: nat, e: nat)
    requires Uniform(v, l) && i < l && r < l && e == PackedPosition(q, r, l)
    ensures PackedWord(v, i, l, q)[r] == (e < |v| && v[e][i])
  {
  }

  /** One bit of an element, from the same bit of its components. */
  lemma SecretBit(xs: seq<Joint<Word>>, n: nat, l: nat, e: nat, j: nat)
    requires SharedVector(xs, n, l) && e < |xs| && j < l
    ensures Secrets(xs, n, l)[e][j] ==
      (((Column(xs, n, l, 0)[e][j] != Column(xs, n, l, 1)[e][j]) != Column(xs, n, l, 2)[e][j])
       != (n == 4 && Column(xs, n, l, 3)[e][j]))
  {
  }

  method DecompressB(into: seq<Joint<Word>>, zs: seq<Joint<Word>>, n: nat, i: nat, l: nat)
    returns (us: seq<Joint<Word>>)
    requires SharedVector(into, n, l) && SharedVector(zs, n, l) && i < l && |zs| == DivCeil(|into|, l)
    ensures SharedVector(us, n, l) && |us| == |into|
    ensures Secrets(us, n, l) == Unpacked(Secrets(into, n, l), Secrets(zs, n, l), i, l)
  {
    us := seq(|into|, e requires 0 <= e < |into| =>
      seq(n, p requires 0 <= p < n => seq(n - 1, c requires 0 <= c < n - 1 =>
        Unpacked(ShareColumn(into, n, l, p, c), ShareColumn(zs, n, l, p, c), i, l)[e])));
    forall e | 0 <= e < |us|
      ensures |us[e]| == n && Width(us[e], l)
      ensures SecretB(us[e], l) == Unpacked(Secrets(into, n, l), Secrets(zs, n, l), i, l)[e]
    {
      var cs := seq(n, k requires 0 <= k < n =>
        Unpacked(Column(into, n, l, k), Column(zs, n, l, k), i, l)[e]);
      ReplicatedByEntries(us[e], cs);
      CombineUnpacked(into, zs, n, i, l, e, cs);
    }
  }

  lemma CombineSlot(zs: seq<Joint<Word>>, n: nat, l: nat, e: nat)
    requires SharedVector(zs, n, l) && l > 0 && e < |zs| * l
    ensures var s := Slot(Secrets(zs, n, l), e, l);
      var c0, c1, c2 := Slot(Column(zs, n, l, 0), e, l), Slot(Column(zs, n, l, 1), e, l),
        Slot(Column(zs, n, l, 2), e, l);
      s == (((c0 != c1) != c2) != (n == 4 && Slot(Column(zs, n, l, 3), e, l)))
  {
    PackedAt(e, |zs|, l);
  }

  lemma CombineUnpacked(into: seq<Joint<Word>>, zs: seq<Joint<Word>>, n: nat, i: nat, l: nat, e: nat, cs: seq<Word>)
    requires SharedVector(into, n, l) && SharedVector(zs, n, l) && i < l && |zs| == DivCeil(|into|, l)
    requires |cs| == n && e < |into|
    requires forall k :: 0 <= k < n ==> cs[k] == Unpacked(Column(into, n, l, k), Column(zs, n, l, k), i, l)[e]
    ensures SameWidth(cs, l)
    ensures Combine(cs) == Unpacked(Secrets(into, n, l), Secrets(zs, n, l), i, l)[e]
  {
    hide Width, SecretB, Slot;
    CombineSlot(zs, n, l, e);
    var u := Unpacked(Secrets(into, n, l), Secrets(zs, n, l), i, l)[e];
    forall j | 0 <= j < l ensures Combine(cs)[j] == u[j] {
      SecretBit(into, n, l, e, j);
      assert forall k :: 0 <= k < n ==>
        cs[k][j] == if j == i then Slot(Column(zs, n, l, k), e, l) else Column(into, n, l, k)[e][j];
    }
  }

  // ------------------------------------------------------ elementwise operations

  method XorVector(xs: seq<Joint<Word>>, ys: seq<Joint<Word>>, n: nat, l: nat) returns (zs: seq<Joint<Word>>)
    requires SharedVector(xs, n, l) && SharedVector(ys, n, l) && |xs| == |ys|
    ensures SharedVector(zs, n, l) && |zs| == |xs|
    ensures forall e :: 0 <= e < |xs| ==> SecretB(zs[e], l) == Xor(SecretB(xs[e], l), SecretB(ys[e], l))
  {
    hide Width, SecretB, SingleBit;
    zs := [];
    for e := 0 to |xs|
      invariant |zs| == e && SharedVector(zs, n, l)
      invariant forall d :: 0 <= d < e ==> SecretB(zs[d], l) == Xor(SecretB(xs[d], l), SecretB(ys[d], l))
    {
      var z := XorB(xs[e], ys[e], l);
      zs := zs + [z];
    }
  }

  method AndVector(xs: seq<Joint<Word>>, ys: seq<Joint<Word>>, n: nat, l: nat, ms: nat -> AndMask)
    returns (zs: seq<Joint<Word>>)
    requires SharedVector(xs, n, l) && SharedVector(ys, n, l) && |xs| == |ys| && GoodMasks(ms, n, l)
    ensures SharedVector(zs, n, l) && |zs| == |xs|
    ensures forall e :: 0 <= e < |xs| ==> SecretB(zs[e], l) == And(SecretB(xs[e], l), SecretB(ys[e], l))
  {
    hide Width, SecretB, SingleBit;
    zs := [];
    for e := 0 to |xs|
      invariant |zs| == e && SharedVector(zs, n, l)
      invariant forall d :: 0 <= d < e ==> SecretB(zs[d], l) == And(SecretB(xs[d], l), SecretB(ys[d], l))
    {
      var z := AndB(xs[e], ys[e], l, ms(e));
      zs := zs + [z];
    }
  }

  method OrVector(xs: seq<Joint<Word>>, ys: seq<Joint<Word>>, n: nat, l: nat, ms: nat -> AndMask)
    returns (zs: seq<Joint<Word>>)
    requires SharedVector(xs, n, l) && SharedVector(ys, n, l) && |xs| == |ys| && GoodMasks(ms, n, l)
    ensures SharedVector(zs, n, l) && |zs| == |xs|
    ensures forall e :: 0 <= e < |xs| ==> SecretB(zs[e], l) == Or(SecretB(xs[e], l), SecretB(ys[e], l))
  {
    hide Width, SecretB, SingleBit;
    zs := [];
    for e := 0 to |xs|
      invariant |zs| == e && SharedVector(zs, n, l)
      invariant forall d :: 0 <= d < e ==> SecretB(zs[d], l) == Or(SecretB(xs[d], l), SecretB(ys[d], l))
    {
      var z := OrB(xs[e], ys[e], l, ms(e));
      zs := zs + [z];
    }
  }

  /** A vector of zeros, the initial contents of a `BSharedVector`. */
  method ZeroVector(size: nat, n: nat, l: nat) returns (zs: seq<Joint<Word>>)
    requires n == 3 || n == 4
    ensures SharedVector(zs, n, l) && |zs| == size
    ensures forall e :: 0 <= e < size ==> SecretB(zs[e], l) == Zero(l)
  {
    var z := Deal(seq(n, k => Zero(l)));
    ReplicatedByEntries(z, seq(n, k => Zero(l)));
    assert Width(z, l) && SecretB(z, l) == Zero(l);
    zs := seq(size, e => z);
  }

  // ------------------------------------------------------------------ the adder

  /** The packed carries into bit `i` of all rows. */
  predicate PackedCarries(carry: seq<Word>, a: seq<Word>, b: seq<Word>, i: nat, l: nat)
    requires Uniform(a, l) && Uniform(b, l) && |a| == |b| && 0 < l && i <= l
  {
    && Uniform(carry, l) && |carry| == DivCeil(|a|, l)
    && forall e :: 0 <= e < |a| ==> Slot(carry, e, l) == Carry(a[e], b[e], i)
  }

  /** The rows of `sum` are the binary sums up to bit `i` and zero above. */
  predicate PartialSums(sum: seq<Word>, a: seq<Word>, b: seq<Word>, i: nat, l: nat)
    requires Uniform(a, l) && Uniform(b, l) && |a| == |b|
  {
    && Uniform(sum, l) && |sum| == |a|
    && forall e, j :: 0 <= e < |a| && 0 <= j < l ==> sum[e][j] == (j < i && Sum(a[e], b[e])[j])
  }

  /** A slot of a pointwise combination is the combination of the slots. */
  lemma SlotPointwise(p: seq<Word>, q: seq<Word>, r: seq<Word>, e: nat, l: nat)
    requires l > 0 && Uniform(p, l) && Uniform(q, l) && Uniform(r, l) && |p| == |q| == |r| && e < |p| * l
    ensures (forall w :: 0 <= w < |p| ==> r[w] == Xor(p[w], q[w])) ==>
      Slot(r, e, l) == (Slot(p, e, l) != Slot(q, e, l))
    ensures (forall w :: 0 <= w < |p| ==> r[w] == And(p[w], q[w])) ==>
      Slot(r, e, l) == (Slot(p, e, l) && Slot(q, e, l))
    ensures (forall w :: 0 <= w < |p| ==> r[w] == Or(p[w], q[w])) ==>
      Slot(r, e, l) == (Slot(p, e, l) || Slot(q, e, l))
  {
    PackedAt(e, |p|, l);
  }

  /** Bit `i` of all sums: the packed XOR of the operands' bits and the carries, spread over the rows. */
  method AddSlice(sums: seq<Joint<Word>>, xorBits: seq<Joint<Word>>, carry: seq<Joint<Word>>, ghost a: seq<Word>,
                  ghost b: seq<Word>, ghost cx: seq<Word>, n: nat, i: nat, l: nat) returns (zs: seq<Joint<Word>>)
    requires i < l && SharedVector(sums, n, l) && SharedVector(xorBits, n, l) && SharedVector(carry, n, l)
    requires Uniform(a, l) && Uniform(b, l) && Uniform(cx, l) && |a| == |b| == |cx|
    requires forall e :: 0 <= e < |a| ==> cx[e] == Xor(a[e], b[e])
    requires Secrets(xorBits, n, l) == Packed(cx, i, l)
    requires PackedCarries(Secrets(carry, n, l), a, b, i, l) && PartialSums(Secrets(sums, n, l), a, b, i, l)
    ensures SharedVector(zs, n, l) && PartialSums(Secrets(zs, n, l), a, b, i + 1, l)
  {
    hide Width, SecretB, SingleBit;
    var sumBits := XorVector(xorBits, carry, n, l);
    zs := DecompressB(sums, sumBits, n, i, l);
    SumStep(a, b, cx, Secrets(carry, n, l), Secrets(sumBits, n, l), Secrets(sums, n, l), Secrets(zs, n, l), i, l);
  }

  /** The packed carries into the next bit. */
  method NextCarry(xorBits: seq<Joint<Word>>, andBits: seq<Joint<Word>>, carry: seq<Joint<Word>>, ghost a: seq<Word>,
                   ghost b: seq<Word>, ghost cx: seq<Word>, ghost ca: seq<Word>, n: nat, i: nat, l: nat,
                   forPassed: nat -> AndMask, forNext: nat -> AndMask) returns (next: seq<Joint<Word>>)
    requires i < l && SharedVector(xorBits, n, l) && SharedVector(andBits, n, l) && SharedVector(carry, n, l)
    requires Uniform(a, l) && Uniform(b, l) && Uniform(cx, l) && Uniform(ca, l) && |a| == |b| == |cx| == |ca|
    requires forall e :: 0 <= e < |a| ==> cx[e] == Xor(a[e], b[e]) && ca[e] == And(a[e], b[e])
    requires Secrets(xorBits, n, l) == Packed(cx, i, l) && Secrets(andBits, n, l) == Packed(ca, i, l)
    requires PackedCarries(Secrets(carry, n, l), a, b, i, l) && GoodMasks(forPassed, n, l) && GoodMasks(forNext, n, l)
    ensures SharedVector(next, n, l) && PackedCarries(Secrets(next, n, l), a, b, i + 1, l)
  {
    hide Width, SecretB, SingleBit;
    var passed := AndVector(carry, xorBits, n, l, forPassed);
    next := OrVector(andBits, passed, n, l, forNext);
    CarryStep(a, b, cx, ca, Secrets(carry, n, l), Secrets(passed, n, l), Secrets(next, n, l), i, l);
  }

  /** `ripple_carry_adder`; `ms(0)` are the masks of the AND of the operands, `ms(2 * i + 1)` and `ms(2 * i + 2)` those
      of the AND and the OR of iteration `i`. */
  method RippleCarryAdder(xs: seq<Joint<Word>>, ys: seq<Joint<Word>>, n: nat, l: nat, k: nat,
                          ms: nat -> nat -> AndMask)
    returns (zs: seq<Joint<Word>>)
    requires k >= 2 && l == Pow2(k) && SharedVector(xs, n, l) && SharedVector(ys, n, l) && |xs| == |ys|
    requires forall i :: GoodMasks(ms(i), n, l)
    ensures SharedVector(zs, n, l) && |zs| == |xs|
    ensures forall e :: 0 <= e < |xs| ==> SecretB(zs[e], l) == Sum(SecretB(xs[e], l), SecretB(ys[e], l))
  {
    hide Width, SecretB, SingleBit, GoodMasks, PartialSums, PackedCarries, Packed, Sum, Carry;
    var maxBits := RoundUp(l - 1, 1);
    RoundUpDigits(k, 0);
    var compressedSize := DivCeil(|xs|, l);
    var aXorB := XorVector(xs, ys, n, l);
    var aAndB := AndVector(xs, ys, n, l, ms(0));
    var carry := ZeroVector(compressedSize, n, l);
    zs := ZeroVector(|xs|, n, l);
    ghost var a, b := Secrets(xs, n, l), Secrets(ys, n, l);
    ghost var cx, ca := Secrets(aXorB, n, l), Secrets(aAndB, n, l);
    CarryStart(Secrets(carry, n, l), a, b, l);
    SumStart(Secrets(zs, n, l), a, b, l);
    var i := 0;
    while i < maxBits
      invariant i <= l && SharedVector(zs, n, l) && SharedVector(carry, n, l)
      invariant PartialSums(Secrets(zs, n, l), a, b, i, l)
      invariant i < l ==> PackedCarries(Secrets(carry, n, l), a, b, i, l)
    {
      var xorBits := CompressB(aXorB, n, i, l);
      var andBits := CompressB(aAndB, n, i, l);
      zs := AddSlice(zs, xorBits, carry, a, b, cx, n, i, l);
      if i < maxBits - 1 {
        carry := NextCarry(xorBits, andBits, carry, a, b, cx, ca, n, i, l, ms(2 * i + 1), ms(2 * i + 2));
      }
      i := i + 1;
    }
    SumEnd(Secrets(zs, n, l), a, b, l);
  }

  lemma SumStart(sum: seq<Word>, a: seq<Word>, b: seq<Word>, l: nat)
    requires Uniform(a, l) && Uniform(b, l) && |a| == |b| == |sum|
    requires forall e :: 0 <= e < |sum| ==> sum[e] == Zero(l)
    ensures PartialSums(sum, a, b, 0, l)
  {
  }

  lemma SumEnd(sum: seq<Word>, a: seq<Word>, b: seq<Word>, l: nat)
    requires Uniform(a, l) && Uniform(b, l) && |a| == |b| && PartialSums(sum, a, b, l, l)
    ensures |sum| == |a| && forall e :: 0 <= e < |a| ==> sum[e] == Sum(a[e], b[e])
  {
    forall e | 0 <= e < |a| ensures sum[e] == Sum(a[e], b[e]) {}
  }

  lemma CarryStart(carry: seq<Word>, a: seq<Word>, b: seq<Word>, l: nat)
    requires Uniform(a, l) && Uniform(b, l) && |a| == |b| && 0 < l
    requires |carry| == DivCeil(|a|, l) && forall q :: 0 <= q < |carry| ==> carry[q] == Zero(l)
    ensures PackedCarries(carry, a, b, 0, l)
  {
    forall e | 0 <= e < |a| ensures Slot(carry, e, l) == Carry(a[e], b[e], 0) { PackedAt(e, |carry|, l); }
  }

  lemma SumStep(a: seq<Word>, b: seq<Word>, cx: seq<Word>, carry: seq<Word>, sumBits: seq<Word>,
                before: seq<Word>, after: seq<Word>, i: nat, l: nat)
    requires i < l && Uniform(a, l) && Uniform(b, l) && Uniform(cx, l) && |a| == |b| == |cx|
    requires forall e :: 0 <= e < |a| ==> cx[e] == Xor(a[e], b[e])
    requires PackedCarries(carry, a, b, i, l) && PartialSums(before, a, b, i, l)
    requires Uniform(sumBits, l) && |sumBits| == |carry|
    requires forall q :: 0 <= q < |carry| ==> sumBits[q] == Xor(Packed(cx, i, l)[q], carry[q])
    requires after == Unpacked(before, sumBits, i, l)
    ensures PartialSums(after, a, b, i + 1, l)
  {
    forall e, j | 0 <= e < |a| && 0 <= j < l ensures after[e][j] == (j < i + 1 && Sum(a[e], b[e])[j]) {
      PackedBit(cx, i, l, e);
      SlotPointwise(Packed(cx, i, l), carry, sumBits, e, l);
    }
  }

  lemma CarryStep(a: seq<Word>, b: seq<Word>, cx: seq<Word>, ca: seq<Word>, carry: seq<Word>, passed: seq<Word>,
                  next: seq<Word>, i: nat, l: nat)
    requires i < l && Uniform(a, l) && Uniform(b, l) && Uniform(cx, l) && Uniform(ca, l)
    requires |a| == |b| == |cx| == |ca|
    requires forall e :: 0 <= e < |a| ==> cx[e] == Xor(a[e], b[e]) && ca[e] == And(a[e], b[e])
    requires PackedCarries(carry, a, b, i, l)
    requires Uniform(passed, l) && Uniform(next, l) && |passed| == |next| == |carry|
    requires forall q :: 0 <= q < |carry| ==> passed[q] == And(carry[q], Packed(cx, i, l)[q])
    requires forall q :: 0 <= q < |carry| ==> next[q] == Or(Packed(ca, i, l)[q], passed[q])
    ensures PackedCarries(next, a, b, i + 1, l)
  {
    forall e | 0 <= e < |a| ensures Slot(next, e, l) == Carry(a[e], b[e], i + 1) {
      PackedBit(cx, i, l, e);
      PackedBit(ca, i, l, e);
      SlotPointwise(carry, Packed(cx, i, l), passed, e, l);
      SlotPointwise(Packed(ca, i, l), passed, next, e, l);
    }
  }
}
