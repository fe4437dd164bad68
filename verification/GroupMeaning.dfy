/** What the folds over a group are: a sum that counts every row once, a maximum, a minimum. */
module GroupMeaning {
  import opened Arith
  import Ring
  import opened Scans

  // -------------------------------------------------------------------- sums

  function ModularSum(m: nat): (op: (int, int) -> int)
    requires m > 0
  {
    (a, b) => Ring.Add(m, a, b)
  }

  lemma ModularSumCommutes(m: nat)
    requires m > 0
    ensures Commutes(ModularSum(m))
  {
    var op := ModularSum(m);
    forall a, b, c {:trigger op(op(a, b), c)} | true ensures op(op(a, b), c) == op(a, op(b, c)) {
      Ring.WrapAdd(m, a + b, c);
      Ring.WrapAdd(m, a, b + c);
    }
  }

  /** The plain sum over those rows in `lo..hi` that belong to the group of `p`. */
  function SumOfGroup(v: seq<int>, same: (nat, nat) -> bool, p: nat, lo: nat, hi: nat): (s: int)
    requires lo <= hi <= |v|
    decreases hi - lo
  {
    if lo == hi then 0 else
      (if same(p, lo) || same(lo, p) then v[lo] else 0) + SumOfGroup(v, same, p, lo + 1, hi)
  }

  /** Rows of one group have the same group. */
  ghost predicate Groups(same: (nat, nat) -> bool, n: nat) {
    Contiguous(same, n) && forall p: nat, q: nat :: p < n && q < n ==> same(p, q) == same(q, p)
  }

  lemma GroupsAreContiguous(same: (nat, nat) -> bool, n: nat)
    requires Groups(same, n)
    ensures Contiguous(same, n)
  {
  }

  lemma {:induction false} SameGroupSameSum(v: seq<int>, same: (nat, nat) -> bool, p: nat, q: nat, lo: nat, hi: nat)
    requires lo <= hi <= |v| && p <= q < |v| && Groups(same, |v|) && same(p, q) && (q <= lo || hi <= p + 1)
    ensures SumOfGroup(v, same, p, lo, hi) == SumOfGroup(v, same, q, lo, hi)
    decreases hi - lo
  {
    hide Groups, Contiguous;
    if lo < hi {
      SameGroupSameSum(v, same, p, q, lo + 1, hi);
      GroupOfBoth(same, |v|, p, q, lo);
    }
  }

  lemma GroupOfBoth(same: (nat, nat) -> bool, n: nat, p: nat, q: nat, r: nat)
    requires p <= q < n && r < n && Groups(same, n) && same(p, q) && (q <= r || r <= p)
    ensures same(p, r) == same(r, p) == same(q, r) == same(r, q)
  {
    if q <= r { SameSplit(same, n, p, q, r); } else { SameSplit(same, n, r, p, q); }
  }

  /** Past the end of a group there is nothing to count. */
  lemma {:induction false} NothingAbove(v: seq<int>, same: (nat, nat) -> bool, p: nat, lo: nat, hi: nat)
    requires lo <= hi <= |v| && p < lo && Groups(same, |v|) && (lo < |v| ==> !same(p, lo))
    ensures SumOfGroup(v, same, p, lo, hi) == 0
    decreases hi - lo
  {
    if lo < hi {
      if lo + 1 < |v| { SameSplit(same, |v|, p, lo, lo + 1); }
      NothingAbove(v, same, p, lo + 1, hi);
    }
  }

  /** Forward: the suffix fold is the sum modulo `m` of the group's rows at or after `p`, each counted once. */
  lemma {:induction false} SuffixIsSum(v: seq<int>, same: (nat, nat) -> bool, m: nat, p: nat)
    requires m > 0 && p < |v| && Groups(same, |v|)
    ensures GroupSuffix(v, same, ModularSum(m), p) % m == SumOfGroup(v, same, p, p, |v|) % m
    decreases |v| - p
  {
    hide Groups, Contiguous;
    assert same(p, p) by { InOwnGroup(same, |v|, p); }
    assert SumOfGroup(v, same, p, p, |v|) == v[p] + SumOfGroup(v, same, p, p + 1, |v|);
    if p + 1 < |v| && same(p, p + 1) {
      SuffixIsSum(v, same, m, p + 1);
      SameGroupSameSum(v, same, p, p + 1, p + 1, |v|);
      var rest := GroupSuffix(v, same, ModularSum(m), p + 1);
      AddThenReduce(m, v[p], rest, SumOfGroup(v, same, p + 1, p + 1, |v|));
    } else {
      NothingAbove(v, same, p, p + 1, |v|);
    }
  }

  lemma InOwnGroup(same: (nat, nat) -> bool, n: nat, p: nat)
    requires p < n && Groups(same, n)
    ensures same(p, p)
  {
  }

  lemma AddThenReduce(m: nat, a: int, b: int, c: int)
    requires m > 0 && b % m == c % m
    ensures Ring.Add(m, a, b) % m == (a + c) % m
  {
    Ring.WrapAdd(m, a, b);
    Ring.WrapAdd(m, a, c);
    DivModUnique(Ring.Add(m, a, b), m, 0, Ring.Add(m, a, b));
  }

  lemma {:induction false} SplitLast(v: seq<int>, same: (nat, nat) -> bool, p: nat, lo: nat, hi: nat)
    requires lo < hi <= |v|
    ensures SumOfGroup(v, same, p, lo, hi) ==
      SumOfGroup(v, same, p, lo, hi - 1) + (if same(p, hi - 1) || same(hi - 1, p) then v[hi - 1] else 0)
    decreases hi - lo
  {
    if lo + 1 < hi {
      SplitLast(v, same, p, lo + 1, hi);
    }
  }

  lemma {:induction false} NothingBelow(v: seq<int>, same: (nat, nat) -> bool, p: nat, hi: nat)
    requires hi <= p < |v| && Groups(same, |v|) && (hi > 0 ==> !same(hi - 1, p))
    ensures SumOfGroup(v, same, p, 0, hi) == 0
    decreases hi
  {
    if hi > 0 {
      SplitLast(v, same, p, 0, hi);
      if hi > 1 { SameSplit(same, |v|, hi - 2, hi - 1, p); }
      NothingBelow(v, same, p, hi - 1);
    }
  }

  /** Reverse: the prefix fold is the sum modulo `m` of the group's rows at or before `p`. */
  lemma {:induction false} PrefixIsSum(v: seq<int>, same: (nat, nat) -> bool, m: nat, p: nat)
    requires m > 0 && p < |v| && Groups(same, |v|)
    ensures GroupPrefix(v, same, ModularSum(m), p) % m == SumOfGroup(v, same, p, 0, p + 1) % m
  {
    hide Groups, Contiguous;
    assert same(p, p) by { InOwnGroup(same, |v|, p); }
    SplitLast(v, same, p, 0, p + 1);
    if p > 0 && same(p - 1, p) {
      PrefixIsSum(v, same, m, p - 1);
      SameGroupSameSum(v, same, p - 1, p, 0, p);
      AddThenReduce(m, v[p], GroupPrefix(v, same, ModularSum(m), p - 1), SumOfGroup(v, same, p - 1, 0, p));
    } else {
      NothingBelow(v, same, p, p);
    }
  }

  // --------------------------------------------------------- maxima and minima

  /** `multiplex(b > a, a, b)`, and the same with the comparison negated. */
  function Extreme(min: bool): (op: (int, int) -> int) {
    (a: int, b: int) => if (b > a) != min then b else a
  }

  lemma ExtremeCommutes(min: bool)
    ensures Commutes(Extreme(min))
  {
  }

  /** `e` is the greatest (least) value of the rows in `lo..hi` that belong to the group of `p`. */
  ghost predicate IsExtreme(v: seq<int>, same: (nat, nat) -> bool, min: bool, p: nat, lo: nat, hi: nat, e: int)
    requires lo <= hi <= |v|
  {
    && (exists q {:trigger v[q]} :: lo <= q < hi && (same(p, q) || same(q, p)) && v[q] == e)
    && forall q {:trigger v[q]} :: lo <= q < hi && (same(p, q) || same(q, p)) ==> if min then e <= v[q] else e >= v[q]
  }

  lemma {:induction false} SuffixIsExtreme(v: seq<int>, same: (nat, nat) -> bool, min: bool, p: nat)
    requires p < |v| && Groups(same, |v|)
    ensures IsExtreme(v, same, min, p, p, |v|, GroupSuffix(v, same, Extreme(min), p))
    decreases |v| - p
  {
    InOwnGroup(same, |v|, p);
    var e := GroupSuffix(v, same, Extreme(min), p);
    if p + 1 < |v| && same(p, p + 1) {
      SuffixIsExtreme(v, same, min, p + 1);
      var rest := GroupSuffix(v, same, Extreme(min), p + 1);
      forall q {:trigger v[q]} | p + 1 <= q < |v| ensures same(p, q) == same(q, p) == same(p + 1, q) == same(q, p + 1) {
        GroupOfBoth(same, |v|, p, p + 1, q);
      }
      assert e == v[p] || e == rest;
    } else {
      forall q {:trigger v[q]} | p < q < |v| ensures !same(p, q) && !same(q, p) { SameSplit(same, |v|, p, p + 1, q); }
      assert v[p] == e;
    }
  }

  lemma {:induction false} PrefixIsExtreme(v: seq<int>, same: (nat, nat) -> bool, min: bool, p: nat)
    requires p < |v| && Groups(same, |v|)
    ensures IsExtreme(v, same, min, p, 0, p + 1, GroupPrefix(v, same, Extreme(min), p))
  {
    InOwnGroup(same, |v|, p);
    var e := GroupPrefix(v, same, Extreme(min), p);
    if p > 0 && same(p - 1, p) {
      PrefixIsExtreme(v, same, min, p - 1);
      var rest := GroupPrefix(v, same, Extreme(min), p - 1);
      forall q {:trigger v[q]} | 0 <= q < p ensures same(p, q) == same(q, p) == same(p - 1, q) == same(q, p - 1) {
        GroupOfBoth(same, |v|, p - 1, p, q);
      }
      assert e == v[p] || e == rest;
    } else {
      forall q {:trigger v[q]} | 0 <= q < p ensures !same(p, q) && !same(q, p) { SameSplit(same, |v|, q, p - 1, p); }
      assert v[p] == e;
    }
  }
}
