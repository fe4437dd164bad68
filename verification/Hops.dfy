/** What a scan computes when rows of a group may be left out: a round combines a row with the one at its distance only
    when both are linked, so a value travels along hops and may miss rows, or pass over rows that are left out. */
module Hops {
  import opened Arith
  import opened Words
  import opened Scans
  import opened GroupMeaning

  // -------------------------------------------------------------------- hops

  /** The row that round `i` combines row `p` with, or -1. */
  function Hop(f: (nat, nat) -> bool, rounds: nat, i: nat, reverse: bool, p: nat): (q: int)
    requires 1 <= i <= rounds && p < Pow2(rounds)
    ensures -1 <= q < Pow2(rounds)
  {
    var d := Distance(rounds, i, reverse);
    if reverse then if p >= d && f(p - d, p) then p - d else -1
    else if p + d < Pow2(rounds) && f(p, p + d) then p + d else -1
  }

  /** After the first `i` rounds row `p` has taken in row `q`. */
  predicate Reaches(f: (nat, nat) -> bool, rounds: nat, i: nat, reverse: bool, p: nat, q: nat)
    requires i <= rounds && p < Pow2(rounds)
    decreases i
  {
    if i == 0 then p == q else
      var h := Hop(f, rounds, i, reverse, p);
      Reaches(f, rounds, i - 1, reverse, p, q) || (h >= 0 && Reaches(f, rounds, i - 1, reverse, h, q))
  }

  /** One round, seen from row `p`. */
  lemma HopStep(v: seq<int>, f: (nat, nat) -> bool, rounds: nat, i: nat, reverse: bool, op: (int, int) -> int, p: nat)
    requires |v| == Pow2(rounds) && 1 <= i <= rounds && p < |v|
    ensures var before, h := Scan(v, f, rounds, i - 1, reverse, op), Hop(f, rounds, i, reverse, p);
      Scan(v, f, rounds, i, reverse, op)[p] == if h >= 0 then op(before[p], before[h]) else before[p]
  {
    hide Scan, Pow2, Distance, Round, Pairs;
    LastRound(v, f, rounds, i, reverse, op);
    DistanceFits(|v|, rounds, i, reverse);
    var before, d := Scan(v, f, rounds, i - 1, reverse, op), Distance(rounds, i, reverse);
    if reverse { ReverseStep(before, f, d, op, p); } else { ForwardStep(before, f, d, op, p); }
  }

  /** Where a row gets within `i` rounds. */
  lemma {:induction false} ReachRange(f: (nat, nat) -> bool, rounds: nat, i: nat, reverse: bool, p: nat, q: nat)
    requires i <= rounds && p < Pow2(rounds) && Reaches(f, rounds, i, reverse, p, q)
    ensures if reverse then q <= p < q + Pow2(i) else p <= q < Pow2(rounds) && (q - p) % Pow2(rounds - i) == 0
  {
    if i == 0 {
      if !reverse { DivModUnique(0, Pow2(rounds), 0, 0); }
    } else if Reaches(f, rounds, i - 1, reverse, p, q) {
      ReachRange(f, rounds, i - 1, reverse, p, q);
      if !reverse { HalfMultiple(q - p, Pow2(rounds - i)); }
    } else {
      var h := Hop(f, rounds, i, reverse, p);
      ReachRange(f, rounds, i - 1, reverse, h, q);
      if !reverse {
        var d := Pow2(rounds - i);
        HalfMultiple(q - h, d);
        ModShift(q - h, 1, d);
      }
    }
  }

  lemma HalfMultiple(t: int, d: nat)
    requires d > 0 && t % (2 * d) == 0
    ensures t % d == 0
  {
    DivMod(t, 2 * d);
    assert t == (2 * (t / (2 * d))) * d + 0;
    DivModUnique(t, d, 2 * (t / (2 * d)), 0);
  }

  /** A row is taken in at most once: not before a round and again through its hop. */
  lemma TakenOnce(f: (nat, nat) -> bool, rounds: nat, i: nat, reverse: bool, p: nat, q: nat)
    requires 1 <= i <= rounds && p < Pow2(rounds) && Hop(f, rounds, i, reverse, p) >= 0
    ensures !(Reaches(f, rounds, i - 1, reverse, p, q)
              && Reaches(f, rounds, i - 1, reverse, Hop(f, rounds, i, reverse, p), q))
  {
    var h := Hop(f, rounds, i, reverse, p);
    if Reaches(f, rounds, i - 1, reverse, p, q) && Reaches(f, rounds, i - 1, reverse, h, q) {
      ReachRange(f, rounds, i - 1, reverse, p, q);
      ReachRange(f, rounds, i - 1, reverse, h, q);
      if !reverse {
        var d := Pow2(rounds - i);
        assert Pow2(rounds - (i - 1)) == 2 * d;
        NotBothMultiples(q - p, d);
      }
    }
  }

  lemma NotBothMultiples(t: int, d: nat)
    requires d > 0 && t % (2 * d) == 0
    ensures (t - d) % (2 * d) != 0
  {
    DivMod(t, 2 * d);
    assert t - d == (t / (2 * d) - 1) * (2 * d) + d;
    DivModUnique(t - d, 2 * d, t / (2 * d) - 1, d);
  }

  // -------------------------------------------------------------------- sums

  /** The values of the rows below `hi` that `taken` accepts. */
  function SumWhere(v: seq<int>, taken: nat -> bool, hi: nat): (s: int)
    requires hi <= |v|
  {
    if hi == 0 then 0 else SumWhere(v, taken, hi - 1) + (if taken(hi - 1) then v[hi - 1] else 0)
  }

  lemma {:induction false} SumOfOne(v: seq<int>, p: nat, taken: nat -> bool, hi: nat)
    requires hi <= |v| && p < |v| && forall q: nat :: q < |v| ==> taken(q) == (p == q)
    ensures SumWhere(v, taken, hi) == if p < hi then v[p] else 0
  {
    if hi > 0 { SumOfOne(v, p, taken, hi - 1); }
  }

  lemma {:induction false} SumOfBoth(v: seq<int>, a: nat -> bool, b: nat -> bool, both: nat -> bool, hi: nat)
    requires hi <= |v| && forall q: nat :: q < |v| ==> both(q) == (a(q) || b(q)) && !(a(q) && b(q))
    ensures SumWhere(v, both, hi) == SumWhere(v, a, hi) + SumWhere(v, b, hi)
  {
    if hi > 0 { SumOfBoth(v, a, b, both, hi - 1); }
  }

  lemma {:induction false} SumSame(v: seq<int>, a: nat -> bool, b: nat -> bool, hi: nat)
    requires hi <= |v| && forall q: nat :: q < hi ==> a(q) == b(q)
    ensures SumWhere(v, a, hi) == SumWhere(v, b, hi)
  {
    if hi > 0 { SumSame(v, a, b, hi - 1); }
  }

  /** The rows that row `p` takes in. */
  function Reached(f: (nat, nat) -> bool, rounds: nat, i: nat, reverse: bool, p: nat): (taken: nat -> bool)
    requires i <= rounds && p < Pow2(rounds)
  {
    (q: nat) => Reaches(f, rounds, i, reverse, p, q)
  }

  /** The scan by sums adds up every row that is reached, once, whatever the relation is. */
  lemma {:induction false} ScanSums(v: seq<int>, f: (nat, nat) -> bool, rounds: nat, i: nat, reverse: bool, m: nat,
                                    p: nat)
    requires m > 0 && |v| == Pow2(rounds) && i <= rounds && p < |v|
    ensures Scan(v, f, rounds, i, reverse, ModularSum(m))[p] % m ==
            SumWhere(v, Reached(f, rounds, i, reverse, p), |v|) % m
  {
    hide Pow2, Hop, Scan, SumWhere;
    var op := ModularSum(m);
    var taken := Reached(f, rounds, i, reverse, p);
    if i == 0 {
      LastRound(v, f, rounds, 0, reverse, op);
      SumOfOne(v, p, taken, |v|);
    } else {
      var h := Hop(f, rounds, i, reverse, p);
      HopStep(v, f, rounds, i, reverse, op, p);
      ScanSums(v, f, rounds, i - 1, reverse, m, p);
      var a := Reached(f, rounds, i - 1, reverse, p);
      if h >= 0 {
        ScanSums(v, f, rounds, i - 1, reverse, m, h);
        var b := Reached(f, rounds, i - 1, reverse, h);
        forall q: nat | q < |v| ensures taken(q) == (a(q) || b(q)) && !(a(q) && b(q)) {
          TakenOnce(f, rounds, i, reverse, p, q);
        }
        SumOfBoth(v, a, b, taken, |v|);
        var before := Scan(v, f, rounds, i - 1, reverse, op);
        SumResidues(before[p], before[h], SumWhere(v, a, |v|), SumWhere(v, b, |v|), m);
      } else {
        SumSame(v, a, taken, |v|);
      }
    }
  }

  lemma SumResidues(a: int, b: int, c: int, d: int, m: nat)
    requires m > 0 && a % m == c % m && b % m == d % m
    ensures ((a + b) % m) % m == (c + d) % m
  {
    DivMod(a, m);
    DivMod(b, m);
    DivMod(c, m);
    DivMod(d, m);
    ModShift(c + d, a / m - c / m + b / m - d / m, m);
    assert c + d + (a / m - c / m + b / m - d / m) * m == a + b;
    DivMod(a + b, m);
    DivModUnique((a + b) % m, m, 0, (a + b) % m);
  }

  ghost predicate SameRows(a: nat -> bool, b: nat -> bool, n: nat) {
    forall q: nat {:trigger a(q)} {:trigger b(q)} :: q < n ==> a(q) == b(q)
  }

  ghost predicate SameSums(a: nat -> bool, b: nat -> bool, n: nat) {
    forall v: seq<int> {:trigger SumWhere(v, a, n)} :: |v| == n ==> SumWhere(v, a, n) == SumWhere(v, b, n)
  }

  /** Two selections have the same sums of all values exactly when they select the same rows. */
  lemma SumsTellApart(a: nat -> bool, b: nat -> bool, n: nat)
    ensures SameSums(a, b, n) <==> SameRows(a, b, n)
  {
    if SameSums(a, b, n) {
      forall q: nat {:trigger a(q)} {:trigger b(q)} | q < n ensures a(q) == b(q) {
        var v := seq(n, p => if p == q then 1 else 0);
        SumOfUnit(v, q, a, n);
        SumOfUnit(v, q, b, n);
        assert SumWhere(v, a, n) == SumWhere(v, b, n);
      }
    }
    if SameRows(a, b, n) {
      forall v: seq<int> {:trigger SumWhere(v, a, n)} | |v| == n ensures SumWhere(v, a, n) == SumWhere(v, b, n) {
        SumSame(v, a, b, n);
      }
    }
  }

  lemma {:induction false} SumOfUnit(v: seq<int>, q: nat, taken: nat -> bool, hi: nat)
    requires hi <= |v| && q < |v| && forall p :: 0 <= p < |v| ==> v[p] == if p == q then 1 else 0
    ensures SumWhere(v, taken, hi) == if q < hi && taken(q) then 1 else 0
  {
    if hi > 0 { SumOfUnit(v, q, taken, hi - 1); }
  }

  // ----------------------------------------------------------------- extremes

  /** `e` is the maximum (minimum) of the rows that `taken` accepts. */
  ghost predicate ExtremeWhere(v: seq<int>, taken: nat -> bool, min: bool, e: int) {
    && (exists q: nat {:trigger v[q]} :: q < |v| && taken(q) && v[q] == e)
    && forall q: nat {:trigger v[q]} :: q < |v| && taken(q) ==> if min then e <= v[q] else e >= v[q]
  }

  lemma ExtremeOfBoth(v: seq<int>, a: nat -> bool, b: nat -> bool, both: nat -> bool, min: bool, x: int, y: int)
    requires forall q: nat :: q < |v| ==> both(q) == (a(q) || b(q))
    requires ExtremeWhere(v, a, min, x) && ExtremeWhere(v, b, min, y)
    ensures ExtremeWhere(v, both, min, Extreme(min)(x, y))
  {
    var p: nat :| p < |v| && a(p) && v[p] == x;
    var q: nat :| q < |v| && b(q) && v[q] == y;
    assert both(p) && both(q);
  }

  /** The scan by maxima or minima is the extreme of the rows that are reached, whatever the relation is. */
  lemma {:induction false} ScanExtremes(v: seq<int>, f: (nat, nat) -> bool, rounds: nat, i: nat, reverse: bool,
                                        min: bool, p: nat)
    requires |v| == Pow2(rounds) && i <= rounds && p < |v|
    ensures ExtremeWhere(v, Reached(f, rounds, i, reverse, p), min, Scan(v, f, rounds, i, reverse, Extreme(min))[p])
  {
    hide Pow2, Hop, Scan, Extreme;
    var op, taken := Extreme(min), Reached(f, rounds, i, reverse, p);
    if i == 0 {
      LastRound(v, f, rounds, 0, reverse, op);
      assert taken(p) && v[p] == v[p];
    } else {
      var h, a := Hop(f, rounds, i, reverse, p), Reached(f, rounds, i - 1, reverse, p);
      HopStep(v, f, rounds, i, reverse, op, p);
      ScanExtremes(v, f, rounds, i - 1, reverse, min, p);
      assert forall q: nat :: taken(q) == (a(q) || (h >= 0 && Reaches(f, rounds, i - 1, reverse, h, q)));
      if h >= 0 {
        ScanExtremes(v, f, rounds, i - 1, reverse, min, h);
        var before := Scan(v, f, rounds, i - 1, reverse, op);
        ExtremeOfBoth(v, a, Reached(f, rounds, i - 1, reverse, h), taken, min, before[p], before[h]);
      }
    }
  }

  /** A different value in row 0 shows in row 0 and in the rows that reach it. */
  lemma {:induction false} PatchedScan(v: seq<int>, f: (nat, nat) -> bool, rounds: nat, i: nat, w: int, p: nat)
    requires |v| == Pow2(rounds) && i <= rounds && p < |v| && v[0] == -1
    requires forall q {:trigger v[q]} :: 0 <= q < |v| ==> v[q] >= -1
    ensures var op := Extreme(false);
      var r, patched := Scan(v, f, rounds, i, true, op), Scan(v[0 := w], f, rounds, i, true, op);
      && r[p] >= -1 && r[0] == -1 && patched[0] == w
      && (p > 0 ==> patched[p] == if Reaches(f, rounds, i, true, p, 0) && w > r[p] then w else r[p])
  {
    hide Pow2, Hop, Scan;
    var op := Extreme(false);
    if i == 0 {
      LastRound(v, f, rounds, 0, true, op);
      LastRound(v[0 := w], f, rounds, 0, true, op);
    } else {
      HopStep(v, f, rounds, i, true, op, p);
      HopStep(v[0 := w], f, rounds, i, true, op, p);
      HopStep(v, f, rounds, i, true, op, 0);
      HopStep(v[0 := w], f, rounds, i, true, op, 0);
      NoHopFromStart(f, rounds, i);
      PatchedScan(v, f, rounds, i - 1, w, p);
      var h := Hop(f, rounds, i, true, p);
      if h >= 0 {
        PatchedScan(v, f, rounds, i - 1, w, h);
        if h == 0 { ReachesItself(f, rounds, i - 1, true, 0); }
      }
    }
  }

  lemma NoHopFromStart(f: (nat, nat) -> bool, rounds: nat, i: nat)
    requires 1 <= i <= rounds
    ensures Hop(f, rounds, i, true, 0) == -1
  {
    DistanceFits(Pow2(rounds), rounds, i, true);
  }

  lemma {:induction false} ReachesItself(f: (nat, nat) -> bool, rounds: nat, i: nat, reverse: bool, p: nat)
    requires i <= rounds && p < Pow2(rounds)
    ensures Reaches(f, rounds, i, reverse, p, p)
  {
    if i > 0 { ReachesItself(f, rounds, i - 1, reverse, p); }
  }
}
