/** Comparison of rows on several keys, each ascending or descending. */
module Rows {
  import opened Words
  import opened Sharing
  import opened Boolean
  import opened Circuits
  import opened Bitonic

  // ------------------------------------------------------ lexicographic order

  /** Whether key value `u` comes after `v`. */
  predicate Beats(u: int, v: int, inverse: bool) {
    if inverse then v > u else u > v
  }

  predicate SameKeys(a: seq<int>, b: seq<int>, c: nat)
    requires |a| == |b| >= c
  {
    forall d :: 0 <= d < c ==> a[d] == b[d]
  }

  /** The rows agree on the keys before `c`, and `a` comes after `b` on key `c`. */
  predicate DecidedAt(a: seq<int>, b: seq<int>, inverse: seq<bool>, c: nat)
    requires |a| == |b| == |inverse| > c
  {
    SameKeys(a, b, c) && Beats(a[c], b[c], inverse[c])
  }

  /** Row `a` comes after row `b` on the first `n` keys. */
  predicate After(a: seq<int>, b: seq<int>, inverse: seq<bool>, n: nat)
    requires |a| == |b| == |inverse| >= n
  {
    exists c :: 0 <= c < n && DecidedAt(a, b, inverse, c)
  }

  /** In plain terms: one row comes after the other by the first key on which they differ, the greater value for an
      ascending key and the smaller one for a descending key. */
  lemma AfterMeans(a: seq<int>, b: seq<int>, inverse: seq<bool>)
    requires |a| == |b| == |inverse|
    ensures After(a, b, inverse, |a|) <==>
      exists d {:trigger inverse[d]} :: 0 <= d < |a| && (forall e :: 0 <= e < d ==> a[e] == b[e])
        && if inverse[d] then a[d] < b[d] else a[d] > b[d]
  {
    if After(a, b, inverse, |a|) {
      var c :| 0 <= c < |a| && DecidedAt(a, b, inverse, c);
      assert inverse[c] == inverse[c];
    }
    forall d {:trigger inverse[d]} | 0 <= d < |a| && (forall e :: 0 <= e < d ==> a[e] == b[e])
                                     && if inverse[d] then a[d] < b[d] else a[d] > b[d]
      ensures After(a, b, inverse, |a|)
    {
      assert DecidedAt(a, b, inverse, d);
    }
  }

  /** When the first of two rows does not come after the second, they are equal or in order on the first key on which
      they differ. */
  lemma NotAfterMeans(a: seq<int>, b: seq<int>, inverse: seq<bool>)
    requires |a| == |b| == |inverse| && !After(a, b, inverse, |a|)
    ensures a == b ||
      exists d {:trigger inverse[d]} :: 0 <= d < |a| && (forall e :: 0 <= e < d ==> a[e] == b[e])
        && if inverse[d] then a[d] > b[d] else a[d] < b[d]
  {
    var d := FirstDifference(a, b, |a|);
    if d == |a| {
      assert a == b;
    } else {
      assert !DecidedAt(a, b, inverse, d);
      assert inverse[d] == inverse[d];
    }
  }

  lemma AfterAsymmetric(a: seq<int>, b: seq<int>, inverse: seq<bool>)
    requires |a| == |b| == |inverse| && After(a, b, inverse, |a|)
    ensures !After(b, a, inverse, |a|)
  {
    var c :| 0 <= c < |a| && DecidedAt(a, b, inverse, c);
    forall d | 0 <= d < |a| ensures !DecidedAt(b, a, inverse, d) {
      assert a[c] != b[c] && (d < |a| ==> (d < c ==> a[d] == b[d]));
    }
  }

  /** The first key on which two rows differ, or the number of keys. */
  lemma {:induction false} FirstDifference(a: seq<int>, b: seq<int>, n: nat) returns (d: nat)
    requires |a| == |b| >= n
    ensures d <= n && SameKeys(a, b, d) && (d < n ==> a[d] != b[d])
  {
    if n == 0 {
      d := 0;
    } else {
      d := FirstDifference(a, b, n - 1);
      if d == n - 1 && a[d] == b[d] { d := n; }
    }
  }

  lemma AfterNegativelyTransitive(a: seq<int>, b: seq<int>, c: seq<int>, inverse: seq<bool>)
    requires |a| == |b| == |c| == |inverse| && After(a, c, inverse, |a|)
    ensures After(a, b, inverse, |a|) || After(b, c, inverse, |a|)
  {
    var e :| 0 <= e < |a| && DecidedAt(a, c, inverse, e);
    var d := FirstDifference(a, b, |a|);
    if d > e {
      assert DecidedAt(b, c, inverse, e);
    } else if Beats(a[d], b[d], inverse[d]) {
      assert DecidedAt(a, b, inverse, d);
    } else {
      assert DecidedAt(b, c, inverse, d);
    }
  }

  // --------------------------------------------------------- rows of a table

  /** Value of column `column` in row `x`; rows beyond the end do not occur. */
  function Cell(column: seq<int>, x: nat): (v: int) {
    if x < |column| then column[x] else 0
  }

  function Row(columns: seq<seq<int>>, x: nat): (row: seq<int>)
    ensures |row| == |columns|
  {
    seq(|columns|, c requires 0 <= c < |columns| => Cell(columns[c], x))
  }

  /** The order of the rows of a table, as an order of row numbers. */
  function RowOrder(columns: seq<seq<int>>, desc: seq<bool>): (gt: (nat, nat) -> bool)
    requires |columns| == |desc|
  {
    (x: nat, y: nat) => After(Row(columns, x), Row(columns, y), desc, |columns|)
  }

  lemma RowOrderIsStrict(columns: seq<seq<int>>, desc: seq<bool>)
    requires |columns| == |desc|
    ensures StrictOrder(RowOrder(columns, desc))
  {
    hide After;
    var gt := RowOrder(columns, desc);
    forall x: nat, y: nat | gt(x, y) ensures !gt(y, x) {
      AfterAsymmetric(Row(columns, x), Row(columns, y), desc);
    }
    forall x: nat, y: nat, z: nat {:trigger gt(x, y), gt(y, z)} | !gt(x, y) && !gt(y, z) ensures !gt(x, z) {
      if gt(x, z) { AfterNegativelyTransitive(Row(columns, x), Row(columns, y), Row(columns, z), desc); }
    }
  }

  // ------------------------------------------------------- comparing shares

  predicate SharedRow(xs: seq<Joint<Word>>, n: nat, l: nat) {
    forall c :: 0 <= c < |xs| ==> |xs[c]| == n && Width(xs[c], l)
  }

  /** The signed values of a shared row. */
  function RowValues(xs: seq<Joint<Word>>, n: nat, l: nat): (row: seq<int>)
    requires SharedRow(xs, n, l) && l > 0
    ensures |row| == |xs| && forall c :: 0 <= c < |xs| ==> row[c] == ToInt(SecretB(xs[c], l))
  {
    seq(|xs|, c requires 0 <= c < |xs| => ToInt(SecretB(xs[c], l)))
  }

  /** One key more: a difference on an earlier key has decided already. */
  lemma AfterStep(a: seq<int>, b: seq<int>, inverse: seq<bool>, c: nat)
    requires |a| == |b| == |inverse| > c
    ensures SameKeys(a, b, c + 1) == (SameKeys(a, b, c) && a[c] == b[c])
    ensures After(a, b, inverse, c + 1) ==
            (After(a, b, inverse, c) != (Beats(a[c], b[c], inverse[c]) && SameKeys(a, b, c)))
  {
    if After(a, b, inverse, c) {
      var d :| 0 <= d < c && DecidedAt(a, b, inverse, d);
      assert a[d] != b[d] && DecidedAt(a, b, inverse, d);
    } else if SameKeys(a, b, c) && Beats(a[c], b[c], inverse[c]) {
      assert DecidedAt(a, b, inverse, c);
    } else {
      assert forall d :: 0 <= d < c ==> !DecidedAt(a, b, inverse, d);
      assert !DecidedAt(a, b, inverse, c);
    }
  }

  /** `compare` on one key, with the operands swapped for a descending one.  Exact for three components. */
  method CompareKey(x: Joint<Word>, y: Joint<Word>, inverse: bool, l: nat, k: nat, ms: nat -> AndMask)
    returns (eq: Joint<Word>, gt: Joint<Word>)
    requires k >= 2 && l == Pow2(k) && Width(x, l) && Width(y, l) && |x| == |y| == 3
    requires GoodMasks(ms, 3, l) && OrderMasks(ms, k + 2)
    ensures |eq| == |gt| == 3 && Width(eq, l) && Width(gt, l) && SingleBit(eq) && SingleBit(gt)
    ensures var u, v := ToInt(SecretB(x, l)), ToInt(SecretB(y, l));
      SecretB(eq, l) == BitWord(l, u == v) && SecretB(gt, l) == BitWord(l, if inverse then u < v else u > v)
  {
    hide Width, SecretB, SingleBit;
    SameValueSameWord(SecretB(x, l), SecretB(y, l));
    if inverse {
      eq, gt := Compare(y, x, l, k, ms);
    } else {
      eq, gt := Compare(x, y, l, k, ms);
    }
  }

  lemma BitWords(l: nat, p: bool, q: bool)
    requires l > 0
    ensures And(BitWord(l, p), BitWord(l, q)) == BitWord(l, p && q)
    ensures Xor(BitWord(l, p), BitWord(l, q)) == BitWord(l, p != q)
  {
  }

  /** The masks of key `c` that stay visible in the shares of the result are single bits. */
  predicate KeyMasks(ms: nat -> AndMask, c: nat, k: nat) {
    OrderMasks(ms, k + 2) && (c > 0 ==> BitMask(ms(k + 4)))
  }

  /** `ms(c)` supplies the masks for key `c`. */
  method CompareRows(xs: seq<Joint<Word>>, ys: seq<Joint<Word>>, inverse: seq<bool>, l: nat, k: nat,
                     ms: nat -> nat -> AndMask) returns (gt: Joint<Word>)
    requires k >= 2 && l == Pow2(k) && |xs| == |ys| == |inverse| > 0 && SharedRow(xs, 3, l) && SharedRow(ys, 3, l)
    requires forall c :: GoodMasks(ms(c), 3, l) && KeyMasks(ms(c), c, k)
    ensures |gt| == 3 && Width(gt, l) && SingleBit(gt)
    ensures SecretB(gt, l) == BitWord(l, After(RowValues(xs, 3, l), RowValues(ys, 3, l), inverse, |xs|))
  {
    hide Width, SecretB, SingleBit, After, SameKeys, ToInt;
    ghost var a, b := RowValues(xs, 3, l), RowValues(ys, 3, l);
    var eq;
    eq, gt := CompareKey(xs[0], ys[0], inverse[0], l, k, ms(0));
    FirstKey(a, b, inverse);
    for c := 1 to |xs|
      invariant |eq| == |gt| == 3 && Width(eq, l) && Width(gt, l) && SingleBit(gt)
      invariant SecretB(eq, l) == BitWord(l, SameKeys(a, b, c))
      invariant SecretB(gt, l) == BitWord(l, After(a, b, inverse, c))
    {
      var newEq, newGt := CompareKey(xs[c], ys[c], inverse[c], l, k, ms(c));
      AfterStep(a, b, inverse, c);
      var later := AndB(newGt, eq, l, ms(c)(k + 4));
      BitWords(l, Beats(a[c], b[c], inverse[c]), SameKeys(a, b, c));
      BitWords(l, After(a, b, inverse, c), Beats(a[c], b[c], inverse[c]) && SameKeys(a, b, c));
      BitWords(l, SameKeys(a, b, c), a[c] == b[c]);
      gt := XorB(gt, later, l);
      eq := AndB(eq, newEq, l, ms(c)(k + 5));
    }
  }

  lemma FirstKey(a: seq<int>, b: seq<int>, inverse: seq<bool>)
    requires |a| == |b| == |inverse| > 0
    ensures SameKeys(a, b, 1) == (a[0] == b[0]) && After(a, b, inverse, 1) == Beats(a[0], b[0], inverse[0])
  {
    assert SameKeys(a, b, 0) && !After(a, b, inverse, 0);
    AfterStep(a, b, inverse, 0);
  }
}
