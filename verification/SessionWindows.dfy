/** What the session windows mean, on opened values.  `same` says whether two rows have the same keys. */
module SessionWindows {
  import opened Words
  import opened Scans
  import opened GroupMeaning
  import opened Hops

  /** Timestamps are not negative and do not decrease inside a key run. */
  ghost predicate Ordered(ts: seq<int>, same: (nat, nat) -> bool) {
    && (forall p {:trigger ts[p]} :: 0 <= p < |ts| ==> ts[p] >= 0)
    && forall p: nat, q: nat {:trigger same(p, q)} :: p <= q < |ts| && same(p, q) ==> ts[p] <= ts[q]
  }

  // ------------------------------------------------------------ gap sessions

  /** Row 0 starts a session, and so does every row that comes more than `gap` after the previous one. */
  predicate GapStart(ts: seq<int>, gap: int, p: nat)
    requires p < |ts|
  {
    p == 0 || ts[p] - ts[p - 1] > gap
  }

  /** What the scan starts from: the timestamp where `starts`, -1 elsewhere. */
  function Marked(ts: seq<int>, starts: seq<bool>): (v: seq<int>)
    requires |starts| == |ts|
    ensures |v| == |ts| && forall p {:trigger v[p]} :: 0 <= p < |ts| ==> v[p] == if starts[p] then ts[p] else -1
  {
    seq(|ts|, p requires 0 <= p < |ts| => if starts[p] then ts[p] else -1)
  }

  function GapStarts(ts: seq<int>, gap: int): (starts: seq<bool>)
    ensures |starts| == |ts| && forall p {:trigger starts[p]} :: 0 <= p < |ts| ==> starts[p] == GapStart(ts, gap, p)
  {
    seq(|ts|, p requires 0 <= p < |ts| => GapStart(ts, gap, p))
  }

  /** The timestamp of the latest marked row at or before `p` in its key run, or -1. */
  function Latest(ts: seq<int>, starts: seq<bool>, same: (nat, nat) -> bool, p: nat): (t: int)
    requires |starts| == |ts| && p < |ts|
  {
    if starts[p] then ts[p] else if p > 0 && same(p - 1, p) then Latest(ts, starts, same, p - 1) else -1
  }

  lemma {:induction false} LatestBound(ts: seq<int>, starts: seq<bool>, same: (nat, nat) -> bool, p: nat)
    requires |starts| == |ts| && p < |ts| && Ordered(ts, same)
    ensures -1 <= Latest(ts, starts, same, p) <= ts[p]
  {
    if !starts[p] && p > 0 && same(p - 1, p) {
      LatestBound(ts, starts, same, p - 1);
      assert ts[p - 1] <= ts[p];
    }
  }

  /** The prefix maximum over a key run is the latest mark. */
  lemma {:induction false} PrefixIsLatest(ts: seq<int>, starts: seq<bool>, same: (nat, nat) -> bool, p: nat)
    requires |starts| == |ts| && p < |ts| && Ordered(ts, same)
    ensures GroupPrefix(Marked(ts, starts), same, Extreme(false), p) == Latest(ts, starts, same, p)
  {
    if p > 0 && same(p - 1, p) {
      PrefixIsLatest(ts, starts, same, p - 1);
      LatestBound(ts, starts, same, p - 1);
      assert ts[p - 1] <= ts[p];
    }
  }

  /** Two rows of a key run are in the same window if and only if no gap between them is too large. */
  lemma {:induction false} SameWindow(ts: seq<int>, gap: int, same: (nat, nat) -> bool, p: nat, q: nat)
    requires p <= q < |ts| && gap >= 0 && Ordered(ts, same) && Groups(same, |ts|) && same(p, q)
    ensures Latest(ts, GapStarts(ts, gap), same, p) == Latest(ts, GapStarts(ts, gap), same, q) <==>
      forall r {:trigger ts[r]} :: p < r <= q ==> ts[r] - ts[r - 1] <= gap
    decreases q - p
  {
    var starts := GapStarts(ts, gap);
    if p < q {
      SameSplit(same, |ts|, p, q - 1, q);
      SameWindow(ts, gap, same, p, q - 1);
      LatestBound(ts, starts, same, p);
      if starts[q] {
        assert ts[p] <= ts[q - 1] < ts[q];
      }
    }
  }

  /** Where the latest mark is known outright: a row that starts a session has its own timestamp, and the first row of a
      key run that does not start one has -1. */
  lemma GapEdges(ts: seq<int>, gap: int, same: (nat, nat) -> bool, p: nat)
    requires p < |ts|
    ensures p == 0 || ts[p] - ts[p - 1] > gap ==> Latest(ts, GapStarts(ts, gap), same, p) == ts[p]
    ensures p > 0 && ts[p] - ts[p - 1] <= gap && !same(p - 1, p) ==> Latest(ts, GapStarts(ts, gap), same, p) == -1
  {
  }

  // ------------------------------------------------------ threshold sessions

  /** A row above the threshold whose predecessor is not.  The flag of row 0 is whatever the caller left there. */
  predicate Crossing(above: seq<bool>, p: nat)
    requires p < |above|
  {
    p > 0 && above[p] && !above[p - 1]
  }

  function Crossings(above: seq<bool>): (starts: seq<bool>)
    ensures |starts| == |above| && forall p {:trigger starts[p]} :: 0 <= p < |above| ==> starts[p] == Crossing(above, p)
  {
    seq(|above|, p requires 0 <= p < |above| => Crossing(above, p))
  }

  /** Both rows have the same keys and are above the threshold. */
  function Joined(same: (nat, nat) -> bool, above: seq<bool>): (f: (nat, nat) -> bool) {
    (p: nat, q: nat) => same(p, q) && p < |above| && above[p] && q < |above| && above[q]
  }

  /** `q..p` is a run of rows above the threshold with the same keys. */
  predicate RunAbove(same: (nat, nat) -> bool, above: seq<bool>, q: nat, p: nat)
    requires p < |above|
  {
    q <= p && same(q, p) && forall r :: q <= r <= p ==> above[r]
  }

  /** What a row may hold after rounds that reach back `w` rows: a value of an earlier row of its key run, and at
      least the values of the rows it is connected to.  Hops may skip rows below the threshold. */
  ghost predicate Covers(v: seq<int>, r: seq<int>, same: (nat, nat) -> bool, above: seq<bool>, w: nat, p: nat)
    requires |v| == |r| == |above| > p
  {
    && (exists q: nat {:trigger v[q]} :: q <= p && same(q, p) && r[p] == v[q])
    && (!above[p] ==> r[p] == v[p])
    && forall q: nat {:trigger v[q]} :: p < q + w && q <= p && RunAbove(same, above, q, p) ==> r[p] >= v[q]
  }

  lemma CoversMore(v: seq<int>, r: seq<int>, same: (nat, nat) -> bool, above: seq<bool>, w: nat, p: nat)
    requires |v| == |r| == |above| > p && w > 0 && w <= |v| && Groups(same, |v|)
    requires Covers(v, r, same, above, w, p) && (p >= w ==> Covers(v, r, same, above, w, p - w))
    ensures Covers(v, Round(r, w, Pairs(Joined(same, above), |v|, w), true, Extreme(false)), same, above, 2 * w, p)
  {
    hide Groups, Contiguous, Pairs, Round;
    GroupsAreContiguous(same, |v|);
    var s := Round(r, w, Pairs(Joined(same, above), |v|, w), true, Extreme(false));
    ReverseStep(r, Joined(same, above), w, Extreme(false), p);
    if p >= w && Joined(same, above)(p - w, p) {
      var q: nat :| q <= p - w && same(q, p - w) && r[p - w] == v[q];
      SameSplit(same, |v|, q, p - w, p);
      assert s[p] == r[p] || s[p] == v[q];
    }
    forall q: nat {:trigger v[q]} | p < q + 2 * w && q <= p && RunAbove(same, above, q, p) ensures s[p] >= v[q] {
      if q + w <= p {
        SameSplit(same, |v|, q, p - w, p);
        assert RunAbove(same, above, q, p - w);
        assert r[p - w] >= v[q];
      }
    }
  }

  lemma {:induction false} ScanCovers(v: seq<int>, same: (nat, nat) -> bool, above: seq<bool>, rounds: nat, i: nat,
                                      p: nat)
    requires |v| == |above| == Pow2(rounds) && i <= rounds && p < |v| && Groups(same, |v|)
    ensures Covers(v, Scan(v, Joined(same, above), rounds, i, true, Extreme(false)), same, above, Pow2(i), p)
  {
    hide Groups, Covers, Scan, Round, Pairs, Joined, Extreme;
    var f := Joined(same, above);
    LastRound(v, f, rounds, i, true, Extreme(false));
    if i == 0 {
      CoversSelf(v, same, above, p);
    } else {
      var w := Pow2(i - 1);
      DistanceFits(|v|, rounds, i, true);
      ScanCovers(v, same, above, rounds, i - 1, p);
      if p >= w { ScanCovers(v, same, above, rounds, i - 1, p - w); }
      CoversMore(v, Scan(v, f, rounds, i - 1, true, Extreme(false)), same, above, w, p);
    }
  }

  lemma CoversSelf(v: seq<int>, same: (nat, nat) -> bool, above: seq<bool>, p: nat)
    requires |v| == |above| > p && Groups(same, |v|)
    ensures Covers(v, v, same, above, 1, p)
  {
    InOwnGroup(same, |v|, p);
    var q: nat := p;
    assert q <= p && same(q, p) && v[p] == v[q];
  }

  /** The latest crossing at or before `p` in its key run, or -1. */
  lemma {:induction false} FindLatest(ts: seq<int>, starts: seq<bool>, same: (nat, nat) -> bool, p: nat)
    returns (q: int)
    requires |starts| == |ts| && p < |ts| && Groups(same, |ts|)
    ensures -1 <= q <= p
    ensures q >= 0 ==> starts[q] && same(q, p) && Latest(ts, starts, same, p) == ts[q]
    ensures q < 0 ==> Latest(ts, starts, same, p) == -1
    ensures forall r: nat :: q < r <= p && same(r, p) ==> !starts[r]
  {
    InOwnGroup(same, |ts|, p);
    if starts[p] {
      q := p;
    } else if p > 0 && same(p - 1, p) {
      q := FindLatest(ts, starts, same, p - 1);
      if q >= 0 { SameSplit(same, |ts|, q, p - 1, p); }
      forall r: nat | q < r <= p && same(r, p) ensures !starts[r] {
        if r < p { SameSplit(same, |ts|, r, p - 1, p); }
      }
    } else {
      q := -1;
      forall r: nat | r < p && same(r, p) ensures false { SameSplit(same, |ts|, r, p - 1, p); }
    }
  }

  /** Between the latest crossing and a row above the threshold there is no row below it. */
  lemma {:induction false} NoRowBelow(above: seq<bool>, q: nat, p: nat)
    requires q <= p < |above| && above[p] && (forall r :: q < r <= p ==> !Crossing(above, r))
    ensures forall r :: q <= r <= p ==> above[r]
    decreases p - q
  {
    if q < p {
      assert above[p - 1] by { assert !Crossing(above, p); }
      NoRowBelow(above, q, p - 1);
    }
  }

  /** The window of a row above the threshold is the latest crossing in its key run; rows below it get -1. */
  lemma ThresholdWindow(ts: seq<int>, same: (nat, nat) -> bool, above: seq<bool>, rounds: nat, p: nat)
    requires |ts| == |above| == Pow2(rounds) && p < |ts| && Groups(same, |ts|) && Ordered(ts, same)
    ensures Scan(Marked(ts, Crossings(above)), Joined(same, above), rounds, rounds, true, Extreme(false))[p] ==
      if above[p] then Latest(ts, Crossings(above), same, p) else -1
  {
    hide Scan, Joined, Extreme, Groups, Contiguous, Pow2;
    GroupsAreContiguous(same, |ts|);
    var starts := Crossings(above);
    var v := Marked(ts, starts);
    var r := Scan(v, Joined(same, above), rounds, rounds, true, Extreme(false));
    ScanCovers(v, same, above, rounds, rounds, p);
    if above[p] {
      var from: nat :| from <= p && same(from, p) && r[p] == v[from];
      var q := FindLatest(ts, starts, same, p);
      if q >= 0 {
        LatestReached(ts, same, above, p, q);
        assert r[p] >= v[q];
        if starts[from] {
          assert from <= q;
          SameSplit(same, |ts|, from, q, p);
          assert ts[from] <= ts[q];
        }
      }
    }
  }

  lemma LatestReached(ts: seq<int>, same: (nat, nat) -> bool, above: seq<bool>, p: nat, q: nat)
    requires |ts| == |above| && q <= p < |ts| && Groups(same, |ts|) && same(q, p) && above[p]
    requires forall r: nat :: q < r <= p && same(r, p) ==> !Crossings(above)[r]
    ensures RunAbove(same, above, q, p)
  {
    hide Groups, Contiguous;
    GroupsAreContiguous(same, |ts|);
    forall r: nat | q < r <= p ensures !Crossing(above, r) {
      SameSplit(same, |ts|, q, r, p);
      assert !Crossings(above)[r];
    }
    NoRowBelow(above, q, p);
  }

  /** Where the latest crossing is known outright: a row above the threshold whose predecessor is not has its own
      timestamp, and a row above it that is row 0 or the first of its key run has -1 when its predecessor is above it.
      */
  lemma ThresholdEdges(ts: seq<int>, above: seq<bool>, same: (nat, nat) -> bool, p: nat)
    requires p < |ts| == |above| && above[p]
    ensures p > 0 && !above[p - 1] ==> Latest(ts, Crossings(above), same, p) == ts[p]
    ensures p == 0 || (above[p - 1] && !same(p - 1, p)) ==> Latest(ts, Crossings(above), same, p) == -1
  {
    assert Crossings(above)[p] == Crossing(above, p);
  }

  /** Rows of a key run with no row below the threshold between them have the same latest crossing. */
  lemma {:induction false} SameThresholdWindow(ts: seq<int>, above: seq<bool>, same: (nat, nat) -> bool, p: nat, q: nat)
    requires p <= q < |ts| == |above| && Groups(same, |ts|) && same(p, q) && forall r :: p <= r <= q ==> above[r]
    ensures Latest(ts, Crossings(above), same, p) == Latest(ts, Crossings(above), same, q)
    decreases q - p
  {
    if p < q {
      SameSplit(same, |ts|, p, q - 1, q);
      SameThresholdWindow(ts, above, same, p, q - 1);
      assert above[q - 1] && !Crossings(above)[q];
    }
  }

  /** What the scan leaves when row 0 starts from `w`: its own row shows `w`, and so do the rows above the threshold
      that reach row 0 by hops, over rows below it too, if `w` is later than their crossing. */
  function WindowOf(ts: seq<int>, same: (nat, nat) -> bool, above: seq<bool>, rounds: nat, w: int, p: nat): (t: int)
    requires |ts| == |above| == Pow2(rounds) && p < |ts|
  {
    if p == 0 then w
    else if !above[p] then -1
    else
      var latest := Latest(ts, Crossings(above), same, p);
      if Reaches(Joined(same, above), rounds, rounds, true, p, 0) && w > latest then w else latest
  }

  lemma {:induction false} BelowStays(same: (nat, nat) -> bool, above: seq<bool>, rounds: nat, i: nat, p: nat)
    requires |above| == Pow2(rounds) && i <= rounds && 0 < p < |above| && !above[p]
    ensures !Reaches(Joined(same, above), rounds, i, true, p, 0)
  {
    if i > 0 { BelowStays(same, above, rounds, i - 1, p); }
  }

  lemma PatchedWindow(ts: seq<int>, same: (nat, nat) -> bool, above: seq<bool>, rounds: nat, w: int, p: nat)
    requires |ts| == |above| == Pow2(rounds) && p < |ts| && Groups(same, |ts|) && Ordered(ts, same)
    ensures Scan(Marked(ts, Crossings(above))[0 := w], Joined(same, above), rounds, rounds, true, Extreme(false))[p] ==
            WindowOf(ts, same, above, rounds, w, p)
  {
    hide Scan, Joined, Extreme, Groups, Pow2, Latest, Reaches;
    var v := Marked(ts, Crossings(above));
    PatchedScan(v, Joined(same, above), rounds, rounds, w, p);
    ThresholdWindow(ts, same, above, rounds, p);
    if p > 0 && !above[p] { BelowStays(same, above, rounds, rounds, p); }
  }

  /** All rows show the latest crossing, or -1, exactly when row 0 starts from -1. */
  lemma WindowsExactly(ids: seq<int>, ts: seq<int>, same: (nat, nat) -> bool, above: seq<bool>, rounds: nat, w: int)
    requires |ids| == |ts| == |above| == Pow2(rounds) && Ordered(ts, same)
    requires forall p {:trigger ids[p]} :: 0 <= p < |ids| ==> ids[p] == WindowOf(ts, same, above, rounds, w, p)
    ensures (forall p {:trigger ids[p]} :: 0 <= p < |ids| ==>
               ids[p] == if above[p] then Latest(ts, Crossings(above), same, p) else -1)
       <==> w == -1
  {
    hide Pow2, Reaches;
    assert ids[0] == w;
    if w == -1 {
      forall p {:trigger ids[p]} | 0 <= p < |ids|
        ensures ids[p] == if above[p] then Latest(ts, Crossings(above), same, p) else -1
      {
        LatestBound(ts, Crossings(above), same, p);
      }
    }
  }
}
