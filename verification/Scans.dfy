/** The rounds of `odd_even_aggregation` on opened values, and what they compute.

    A round with distance `d` combines every element with the one `d` positions away when both are in the same
    group.  Distances n/2, ..., 2, 1 compute a suffix of each group, distances 1, 2, ..., n/2 a prefix. */
module Scans {
  import opened Words

  // ---------------------------------------------------------------- one round

  /** `bs[p]` says that positions `p` and `p + d` are in the same group. */
  function Round(v: seq<int>, d: nat, bs: seq<bool>, reverse: bool, op: (int, int) -> int): (r: seq<int>)
    requires d <= |v| && |bs| == |v| - d
    ensures |r| == |v| && forall p {:trigger r[p]} :: 0 <= p < |v| ==> r[p] == Combined(v, d, bs, reverse, op, p)
  {
    seq(|v|, p requires 0 <= p < |v| => Combined(v, d, bs, reverse, op, p))
  }

  function Combined(v: seq<int>, d: nat, bs: seq<bool>, reverse: bool, op: (int, int) -> int, p: nat): (e: int)
    requires d <= |v| && |bs| == |v| - d && p < |v|
  {
    if reverse then
      if p >= d && bs[p - d] then op(v[p], v[p - d]) else v[p]
    else
      if p < |bs| && bs[p] then op(v[p], v[p + d]) else v[p]
  }

  /** Which pairs at distance `d` are in the same group. */
  function Pairs(same: (nat, nat) -> bool, n: nat, d: nat): (bs: seq<bool>)
    requires d <= n
    ensures |bs| == n - d && forall p {:trigger bs[p]} :: 0 <= p < n - d ==> bs[p] == same(p, p + d)
  {
    seq(n - d, p requires 0 <= p < n - d => same(p, p + d))
  }

  /** The distance of round `i` (counted from 1) of `rounds`. */
  function Distance(rounds: nat, i: nat, reverse: bool): (d: nat)
    requires 1 <= i <= rounds
  {
    if reverse then Pow2(i - 1) else Pow2(rounds - i)
  }

  lemma DistanceFits(n: nat, rounds: nat, i: nat, reverse: bool)
    requires n == Pow2(rounds) && 1 <= i <= rounds
    ensures 1 <= Distance(rounds, i, reverse) < n
  {
    Pow2Monotone(if reverse then i else rounds - i + 1, rounds);
  }

  /** The first `i` rounds. */
  function Scan(v: seq<int>, same: (nat, nat) -> bool, rounds: nat, i: nat, reverse: bool, op: (int, int) -> int)
    : (r: seq<int>)
    requires |v| == Pow2(rounds) && i <= rounds
    ensures |r| == |v|
  {
    if i == 0 then v else
      DistanceFits(|v|, rounds, i, reverse);
      var d := Distance(rounds, i, reverse);
      Round(Scan(v, same, rounds, i - 1, reverse, op), d, Pairs(same, |v|, d), reverse, op)
  }

  lemma LastRound(v: seq<int>, same: (nat, nat) -> bool, rounds: nat, i: nat, reverse: bool, op: (int, int) -> int)
    requires |v| == Pow2(rounds) && i <= rounds
    ensures i == 0 ==> Scan(v, same, rounds, i, reverse, op) == v
    ensures i > 0 ==>
      var d := Distance(rounds, i, reverse);
      && d < |v|
      && Scan(v, same, rounds, i, reverse, op) ==
         Round(Scan(v, same, rounds, i - 1, reverse, op), d, Pairs(same, |v|, d), reverse, op)
  {
    if i > 0 { DistanceFits(|v|, rounds, i, reverse); }
  }

  // ------------------------------------------------------- groups and folds

  /** A row between two rows of a group is in the group, and groups that share a row are one. */
  predicate Splits(same: (nat, nat) -> bool, p: nat, q: nat, r: nat) {
    same(p, r) <==> same(p, q) && same(q, r)
  }

  /** Equal rows are contiguous. */
  ghost predicate Contiguous(same: (nat, nat) -> bool, n: nat) {
    && (forall p: nat :: p < n ==> same(p, p))
    && (forall p: nat, q: nat, r: nat :: p <= q <= r < n ==> Splits(same, p, q, r))
  }

  ghost predicate Commutes(op: (int, int) -> int) {
    && (forall a, b :: op(a, b) == op(b, a))
    && (forall a, b, c {:trigger op(op(a, b), c)} :: op(op(a, b), c) == op(a, op(b, c)))
  }

  lemma Regroup(op: (int, int) -> int, a: int, b: int, c: int)
    requires Commutes(op)
    ensures op(a, op(b, c)) == op(op(a, c), b) == op(op(a, b), c)
  {
    assert op(op(a, c), b) == op(a, op(c, b)) && op(b, c) == op(c, b);
  }

  lemma SameSplit(same: (nat, nat) -> bool, n: nat, p: nat, q: nat, r: nat)
    requires Contiguous(same, n) && p <= q <= r < n
    ensures same(p, r) <==> same(p, q) && same(q, r)
  {
    assert Splits(same, p, q, r);
  }

  /** Fold over `p`, `p + d`, `p + 2d`, ... as long as they are in the group of `p`. */
  function Strided(v: seq<int>, same: (nat, nat) -> bool, op: (int, int) -> int, p: nat, d: nat): (e: int)
    requires p < |v| && d > 0
    decreases |v| - p
  {
    if p + d < |v| && same(p, p + d) then op(v[p], Strided(v, same, op, p + d, d)) else v[p]
  }

  /** The fold over the rows of the group of `p` at or after it. */
  function GroupSuffix(v: seq<int>, same: (nat, nat) -> bool, op: (int, int) -> int, p: nat): (e: int)
    requires p < |v|
  {
    Strided(v, same, op, p, 1)
  }

  /** Splitting a stride into its even and its odd multiples. */
  lemma {:induction false} StrideSplits(v: seq<int>, same: (nat, nat) -> bool, op: (int, int) -> int, p: nat, d: nat)
    requires p < |v| && d > 0 && Contiguous(same, |v|) && Commutes(op)
    ensures Strided(v, same, op, p, d) ==
      var even := Strided(v, same, op, p, 2 * d);
      if p + d < |v| && same(p, p + d) then op(even, Strided(v, same, op, p + d, 2 * d)) else even
    decreases |v| - p
  {
    hide Commutes, Contiguous;
    if p + 2 * d < |v| {
      SameSplit(same, |v|, p, p + d, p + 2 * d);
    }
    if p + d < |v| && same(p, p + d) {
      StrideSplits(v, same, op, p + d, d);
      assert p + d + d == p + 2 * d;
      if p + 2 * d < |v| && same(p + d, p + 2 * d) {
        Regroup(op, v[p], Strided(v, same, op, p + d, 2 * d), Strided(v, same, op, p + 2 * d, 2 * d));
      }
    }
  }

  /** After the forward rounds down to distance `d`, every element is its fold with stride `d`. */
  lemma {:induction false} ForwardRounds(v: seq<int>, same: (nat, nat) -> bool, rounds: nat, i: nat,
                                         op: (int, int) -> int, p: nat)
    requires |v| == Pow2(rounds) && i <= rounds && p < |v| && Contiguous(same, |v|) && Commutes(op)
    ensures Scan(v, same, rounds, i, false, op)[p] == Strided(v, same, op, p, Pow2(rounds - i))
  {
    hide Commutes, Contiguous;
    if i > 0 {
      var d := Distance(rounds, i, false);
      DistanceFits(|v|, rounds, i, false);
      ForwardRounds(v, same, rounds, i - 1, op, p);
      assert Pow2(rounds - (i - 1)) == 2 * d;
      if p + d < |v| {
        ForwardRounds(v, same, rounds, i - 1, op, p + d);
      }
      StrideSplits(v, same, op, p, d);
    }
  }

  /** Forward aggregation gives every row the fold of its group's rows at or after it. */
  lemma ForwardScan(v: seq<int>, same: (nat, nat) -> bool, rounds: nat, op: (int, int) -> int, p: nat)
    requires |v| == Pow2(rounds) && p < |v| && Contiguous(same, |v|) && Commutes(op)
    ensures Scan(v, same, rounds, rounds, false, op)[p] == GroupSuffix(v, same, op, p)
  {
    ForwardRounds(v, same, rounds, rounds, op, p);
  }

  /** Fold over the last `w` positions up to `p` that are in its group. */
  function Window(v: seq<int>, same: (nat, nat) -> bool, op: (int, int) -> int, p: nat, w: nat): (e: int)
    requires p < |v| && w > 0
    decreases w
  {
    if w > 1 && p > 0 && same(p - 1, p) then op(v[p], Window(v, same, op, p - 1, w - 1)) else v[p]
  }

  /** The fold over the rows of the group of `p` at or before it. */
  function GroupPrefix(v: seq<int>, same: (nat, nat) -> bool, op: (int, int) -> int, p: nat): (e: int)
    requires p < |v|
  {
    Window(v, same, op, p, p + 1)
  }

  lemma {:induction false} WindowSplits(v: seq<int>, same: (nat, nat) -> bool, op: (int, int) -> int, p: nat, w: nat,
                                        u: nat)
    requires p < |v| && w > 0 && u > 0 && Contiguous(same, |v|) && Commutes(op)
    ensures Window(v, same, op, p, w + u) ==
      var last := Window(v, same, op, p, w);
      if p >= w && same(p - w, p) then op(last, Window(v, same, op, p - w, u)) else last
    decreases w
  {
    hide Commutes, Contiguous;
    if p > 0 && w > 1 {
      if p >= w { SameSplit(same, |v|, p - w, p - 1, p); }
      if same(p - 1, p) {
        WindowSplits(v, same, op, p - 1, w - 1, u);
        assert p - 1 - (w - 1) == p - w;
        if p >= w && same(p - w, p - 1) {
          Regroup(op, v[p], Window(v, same, op, p - 1, w - 1), Window(v, same, op, p - w, u));
        }
      }
    }
  }

  /** A window that reaches beyond the first row is the whole prefix. */
  lemma {:induction false} WideWindow(v: seq<int>, same: (nat, nat) -> bool, op: (int, int) -> int, p: nat, w: nat)
    requires p < |v| && w > p
    ensures Window(v, same, op, p, w) == GroupPrefix(v, same, op, p)
    decreases p
  {
    if p > 0 {
      WideWindow(v, same, op, p - 1, w - 1);
    }
  }

  lemma ReverseStep(v: seq<int>, same: (nat, nat) -> bool, d: nat, op: (int, int) -> int, p: nat)
    requires d <= |v| && p < |v|
    ensures Round(v, d, Pairs(same, |v|, d), true, op)[p] ==
      if p >= d && same(p - d, p) then op(v[p], v[p - d]) else v[p]
  {
    var bs := Pairs(same, |v|, d);
    if p >= d {
      var q: nat := p - d;
      assert bs[q] == same(q, q + d);
    }
  }

  lemma ForwardStep(v: seq<int>, same: (nat, nat) -> bool, d: nat, op: (int, int) -> int, p: nat)
    requires d <= |v| && p < |v|
    ensures Round(v, d, Pairs(same, |v|, d), false, op)[p] ==
      if p + d < |v| && same(p, p + d) then op(v[p], v[p + d]) else v[p]
  {
    var bs := Pairs(same, |v|, d);
    if p + d < |v| {
      assert bs[p] == same(p, p + d);
    }
  }

  /** A reverse round doubles the windows. */
  lemma WindowsDouble(v: seq<int>, prev: seq<int>, same: (nat, nat) -> bool, d: nat, op: (int, int) -> int, p: nat)
    requires |prev| == |v| > p && 0 < d <= |v| && Contiguous(same, |v|) && Commutes(op)
    requires prev[p] == Window(v, same, op, p, d)
    requires p >= d ==> prev[p - d] == Window(v, same, op, p - d, d)
    ensures Round(prev, d, Pairs(same, |v|, d), true, op)[p] == Window(v, same, op, p, 2 * d)
  {
    hide Commutes, Contiguous, Window, Round;
    ReverseStep(prev, same, d, op, p);
    WindowSplits(v, same, op, p, d, d);
    assert 2 * d == d + d;
  }

  lemma {:induction false} ReverseRounds(v: seq<int>, same: (nat, nat) -> bool, rounds: nat, i: nat,
                                         op: (int, int) -> int, p: nat)
    requires |v| == Pow2(rounds) && i <= rounds && p < |v| && Contiguous(same, |v|) && Commutes(op)
    ensures Scan(v, same, rounds, i, true, op)[p] == Window(v, same, op, p, Pow2(i))
  {
    hide Commutes, Contiguous, Window, Round, Scan, Distance, Pow2, Pairs;
    LastRound(v, same, rounds, i, true, op);
    if i > 0 {
      var d := Distance(rounds, i, true);
      WindowWidth(|v|, rounds, i);
      ReverseRounds(v, same, rounds, i - 1, op, p);
      if p >= d {
        ReverseRounds(v, same, rounds, i - 1, op, p - d);
      }
      WindowsDouble(v, Scan(v, same, rounds, i - 1, true, op), same, d, op, p);
    } else {
      WindowOfOne(v, same, op, p);
    }
  }

  lemma WindowWidth(n: nat, rounds: nat, i: nat)
    requires n == Pow2(rounds) && 1 <= i <= rounds
    ensures Distance(rounds, i, true) == Pow2(i - 1) && Pow2(i) == 2 * Pow2(i - 1) && 1 <= Pow2(i - 1) < n
  {
    DistanceFits(n, rounds, i, true);
  }

  lemma WindowOfOne(v: seq<int>, same: (nat, nat) -> bool, op: (int, int) -> int, p: nat)
    requires p < |v|
    ensures Window(v, same, op, p, Pow2(0)) == v[p]
  {
  }

  /** Reverse aggregation gives every row the fold of its group's rows at or before it. */
  lemma ReverseScan(v: seq<int>, same: (nat, nat) -> bool, rounds: nat, op: (int, int) -> int, p: nat)
    requires |v| == Pow2(rounds) && p < |v| && Contiguous(same, |v|) && Commutes(op)
    ensures Scan(v, same, rounds, rounds, true, op)[p] == GroupPrefix(v, same, op, p)
  {
    ReverseRounds(v, same, rounds, rounds, op, p);
    WideWindow(v, same, op, p, |v|);
  }
}
