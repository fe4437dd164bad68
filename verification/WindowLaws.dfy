/** What the session windows are for, said about opened shares only. */
module WindowLaws {
  import opened Words
  import opened Sharing
  import opened Boolean
  import opened RippleCarry
  import opened Tables
  import opened GroupMeaning
  import opened Aggregation
  import opened OddEvenAggregation
  import opened SessionWindows

  /** The signed value of row `p` of a shared column. */
  function ValueAt(xs: seq<Joint<Word>>, p: nat, parties: nat, l: nat): (v: int)
    requires l > 0 && SharedVector(xs, parties, l) && p < |xs|
  {
    ToInt(SecretB(xs[p], l))
  }

  /** Two rows open to the same keys. */
  ghost predicate RowsAgree(keys: seq<seq<Joint<Word>>>, p: nat, q: nat, parties: nat, n: nat, l: nat)
    requires SharedTable(keys, parties, n, l) && p < n && q < n
  {
    forall c :: 0 <= c < |keys| ==> SecretB(keys[c][p], l) == SecretB(keys[c][q], l)
  }

  /** Gap sessions: a row that comes more than `gap` after the previous one, and row 0, shows its own timestamp; the
      first row of a key run that does not shows -1; two rows of a key run show the same exactly when no gap between
      them is too large. */
  ghost predicate GapLaw(keys: seq<seq<Joint<Word>>>, ts: seq<Joint<Word>>, window: seq<Joint<Word>>, gap: int,
                         parties: nat, n: nat, l: nat)
    requires l > 0 && SharedTable(keys, parties, n, l) && SharedVector(ts, parties, l)
    requires SharedVector(window, parties, l) && |ts| == |window| == n
  {
    && (n > 0 ==> ValueAt(window, 0, parties, l) == ValueAt(ts, 0, parties, l))
    && (forall p: nat :: (0 < p < n && ValueAt(ts, p, parties, l) - ValueAt(ts, p - 1, parties, l) > gap) ==>
          ValueAt(window, p, parties, l) == ValueAt(ts, p, parties, l))
    && (forall p: nat ::
          (0 < p < n && ValueAt(ts, p, parties, l) - ValueAt(ts, p - 1, parties, l) <= gap
           && !RowsAgree(keys, p - 1, p, parties, n, l)) ==>
          ValueAt(window, p, parties, l) == -1)
    && (forall p: nat, q: nat :: (p <= q < n && RowsAgree(keys, p, q, parties, n, l)) ==>
          (ValueAt(window, p, parties, l) == ValueAt(window, q, parties, l) <==> NoGap(ts, p, q, gap, parties, l)))
  }

  /** No gap between rows `p` and `q` is too large. */
  ghost predicate NoGap(ts: seq<Joint<Word>>, p: nat, q: nat, gap: int, parties: nat, l: nat)
    requires l > 0 && SharedVector(ts, parties, l) && q < |ts|
  {
    forall r: nat :: p < r <= q ==> ValueAt(ts, r, parties, l) - ValueAt(ts, r - 1, parties, l) <= gap
  }

  /** Threshold sessions: a row at or below the threshold shows -1; a row above it whose predecessor is not shows its
      own timestamp; a row above it without such a predecessor shows -1 when it is row 0 or the first of its key run;
      and all rows of a stretch of a key run above the threshold show the same. */
  ghost predicate ThresholdLaw(keys: seq<seq<Joint<Word>>>, f: seq<Joint<Word>>, ts: seq<Joint<Word>>,
                               window: seq<Joint<Word>>, threshold: int, parties: nat, n: nat, l: nat)
    requires l > 0 && SharedTable(keys, parties, n, l) && SharedVector(f, parties, l) && SharedVector(ts, parties, l)
    requires SharedVector(window, parties, l) && |f| == |ts| == |window| == n
  {
    && (forall p: nat :: (p < n && ValueAt(f, p, parties, l) <= threshold) ==> ValueAt(window, p, parties, l) == -1)
    && (forall p: nat ::
          (0 < p < n && ValueAt(f, p, parties, l) > threshold && ValueAt(f, p - 1, parties, l) <= threshold) ==>
          ValueAt(window, p, parties, l) == ValueAt(ts, p, parties, l))
    && (n > 0 && ValueAt(f, 0, parties, l) > threshold ==> ValueAt(window, 0, parties, l) == -1)
    && (forall p: nat ::
          (0 < p < n && ValueAt(f, p, parties, l) > threshold && ValueAt(f, p - 1, parties, l) > threshold
           && !RowsAgree(keys, p - 1, p, parties, n, l)) ==>
          ValueAt(window, p, parties, l) == -1)
    && (forall p: nat, q: nat ::
          (p <= q < n && RowsAgree(keys, p, q, parties, n, l) && AllAbove(f, p, q, threshold, parties, l)) ==>
          ValueAt(window, p, parties, l) == ValueAt(window, q, parties, l))
  }

  /** Every row from `p` to `q` is above the threshold. */
  ghost predicate AllAbove(f: seq<Joint<Word>>, p: nat, q: nat, threshold: int, parties: nat, l: nat)
    requires l > 0 && SharedVector(f, parties, l) && q < |f|
  {
    forall r: nat :: p <= r <= q ==> ValueAt(f, r, parties, l) > threshold
  }

  // ------------------------------------------------------------------- proofs

  /** The key columns of a window computation: rows with equal keys are contiguous, and timestamps are ordered. */
  ghost predicate WindowInput(ks: seq<seq<Word>>, t: seq<int>, n: nat) {
    && |t| == n && OfLength(ks, n) && ContiguousKeys(ks, n)
    && Ordered(t, Linked(ks, AllRows(n), n, |ks|))
  }

  lemma AgreeIsLinked(keys: seq<seq<Joint<Word>>>, p: nat, q: nat, parties: nat, n: nat, l: nat)
    requires SharedTable(keys, parties, n, l) && p < n && q < n
    ensures var ks := SecretTable(keys, parties, n, l);
      OfLength(ks, n) && RowsAgree(keys, p, q, parties, n, l) == Linked(ks, AllRows(n), n, |ks|)(p, q)
  {
    hide SecretB, Width;
    var ks := SecretTable(keys, parties, n, l);
    forall c | 0 <= c < |keys| ensures ks[c][p] == SecretB(keys[c][p], l) && ks[c][q] == SecretB(keys[c][q], l) {
      assert ks[c] == Secrets(keys[c], parties, l);
    }
    LinkedIsSameKeys(ks, n, p, q);
  }

  lemma GapRow(keys: seq<seq<Joint<Word>>>, t: seq<int>, gap: int, parties: nat, n: nat, l: nat, p: nat)
    requires SharedTable(keys, parties, n, l) && |t| == n && p < n
    ensures var ks := SecretTable(keys, parties, n, l);
      var latest := Latest(t, GapStarts(t, gap), Linked(ks, AllRows(n), n, |ks|), p);
      && (p == 0 || t[p] - t[p - 1] > gap ==> latest == t[p])
      && (p > 0 && t[p] - t[p - 1] <= gap && !RowsAgree(keys, p - 1, p, parties, n, l) ==> latest == -1)
  {
    hide RowsAgree, Linked;
    var ks := SecretTable(keys, parties, n, l);
    GapEdges(t, gap, Linked(ks, AllRows(n), n, |ks|), p);
    if p > 0 { AgreeIsLinked(keys, p - 1, p, parties, n, l); }
  }

  lemma GapPair(keys: seq<seq<Joint<Word>>>, t: seq<int>, gap: int, parties: nat, n: nat, l: nat, p: nat, q: nat)
    requires SharedTable(keys, parties, n, l) && gap >= 0 && p <= q < n
    requires WindowInput(SecretTable(keys, parties, n, l), t, n) && RowsAgree(keys, p, q, parties, n, l)
    ensures var ks := SecretTable(keys, parties, n, l);
      var starts, same := GapStarts(t, gap), Linked(ks, AllRows(n), n, |ks|);
      Latest(t, starts, same, p) == Latest(t, starts, same, q) <==>
      forall r {:trigger t[r]} :: p < r <= q ==> t[r] - t[r - 1] <= gap
  {
    hide RowsAgree, Linked, ContiguousKeys, Groups, Ordered;
    var ks := SecretTable(keys, parties, n, l);
    LinkedGroups(ks, n);
    AgreeIsLinked(keys, p, q, parties, n, l);
    SameWindow(t, gap, Linked(ks, AllRows(n), n, |ks|), p, q);
  }

  /** What the scan says about the window column of a gap session. */
  ghost predicate GapWindowsOf(keys: seq<seq<Joint<Word>>>, ts: seq<Joint<Word>>, window: seq<Joint<Word>>, gap: int,
                               parties: nat, n: nat, l: nat)
    requires l > 0 && SharedTable(keys, parties, n, l) && SharedVector(ts, parties, l)
    requires SharedVector(window, parties, l) && |ts| == |window| == n
  {
    var ks, t, ids := SecretTable(keys, parties, n, l), SignedValues(ts, parties, l), SignedValues(window, parties, l);
    && WindowInput(ks, t, n)
    && forall p {:trigger ids[p]} :: 0 <= p < n ==>
         ids[p] == Latest(t, GapStarts(t, gap), Linked(ks, AllRows(n), n, |ks|), p)
  }

  lemma GapAt(keys: seq<seq<Joint<Word>>>, ts: seq<Joint<Word>>, window: seq<Joint<Word>>, gap: int, parties: nat,
              n: nat, l: nat, p: nat)
    requires l > 0 && SharedTable(keys, parties, n, l) && SharedVector(ts, parties, l) && gap >= 0 && p < n
    requires SharedVector(window, parties, l) && |ts| == |window| == n
    requires GapWindowsOf(keys, ts, window, gap, parties, n, l)
    ensures p == 0 || ValueAt(ts, p, parties, l) - ValueAt(ts, p - 1, parties, l) > gap ==>
      ValueAt(window, p, parties, l) == ValueAt(ts, p, parties, l)
    ensures p > 0 && ValueAt(ts, p, parties, l) - ValueAt(ts, p - 1, parties, l) <= gap
            && !RowsAgree(keys, p - 1, p, parties, n, l) ==>
      ValueAt(window, p, parties, l) == -1
  {
    hide Linked, Latest, RowsAgree, GapStarts, Ordered, ContiguousKeys;
    var t, ids := SignedValues(ts, parties, l), SignedValues(window, parties, l);
    assert ids[p] == ValueAt(window, p, parties, l);
    GapRow(keys, t, gap, parties, n, l, p);
  }

  lemma GapBetween(keys: seq<seq<Joint<Word>>>, ts: seq<Joint<Word>>, window: seq<Joint<Word>>, gap: int, parties: nat,
                   n: nat, l: nat, p: nat, q: nat)
    requires l > 0 && SharedTable(keys, parties, n, l) && SharedVector(ts, parties, l) && gap >= 0
    requires SharedVector(window, parties, l) && |ts| == |window| == n
    requires GapWindowsOf(keys, ts, window, gap, parties, n, l)
    requires p <= q < n && RowsAgree(keys, p, q, parties, n, l)
    ensures ValueAt(window, p, parties, l) == ValueAt(window, q, parties, l) <==> NoGap(ts, p, q, gap, parties, l)
  {
    hide Linked, Latest, RowsAgree, GapStarts, Ordered, ContiguousKeys, SecretB, Width, ToInt;
    var t, ids := SignedValues(ts, parties, l), SignedValues(window, parties, l);
    assert ids[p] == ValueAt(window, p, parties, l) && ids[q] == ValueAt(window, q, parties, l);
    GapPair(keys, t, gap, parties, n, l, p, q);
    forall r: nat {:trigger t[r]} {:trigger ValueAt(ts, r, parties, l)} | p < r <= q
      ensures ValueAt(ts, r, parties, l) == t[r] && ValueAt(ts, r - 1, parties, l) == t[r - 1]
    {
    }
    if NoGap(ts, p, q, gap, parties, l) {
      forall r {:trigger t[r]} | p < r <= q ensures t[r] - t[r - 1] <= gap {
        assert ValueAt(ts, r, parties, l) - ValueAt(ts, r - 1, parties, l) <= gap;
      }
    }
    if forall r {:trigger t[r]} :: p < r <= q ==> t[r] - t[r - 1] <= gap {
      forall r: nat | p < r <= q ensures ValueAt(ts, r, parties, l) - ValueAt(ts, r - 1, parties, l) <= gap {
        assert t[r] - t[r - 1] <= gap;
      }
    }
  }

  lemma GapLawHolds(keys: seq<seq<Joint<Word>>>, ts: seq<Joint<Word>>, window: seq<Joint<Word>>, gap: int, parties: nat,
                    n: nat, l: nat)
    requires l > 0 && SharedTable(keys, parties, n, l) && SharedVector(ts, parties, l) && gap >= 0
    requires SharedVector(window, parties, l) && |ts| == |window| == n
    requires GapWindowsOf(keys, ts, window, gap, parties, n, l)
    ensures GapLaw(keys, ts, window, gap, parties, n, l)
  {
    hide ValueAt, SharedTable, SharedVector, RowsAgree, GapWindowsOf, NoGap;
    if n > 0 { GapAt(keys, ts, window, gap, parties, n, l, 0); }
    forall p: nat | 0 < p < n
      ensures ValueAt(ts, p, parties, l) - ValueAt(ts, p - 1, parties, l) > gap ==>
        ValueAt(window, p, parties, l) == ValueAt(ts, p, parties, l)
      ensures ValueAt(ts, p, parties, l) - ValueAt(ts, p - 1, parties, l) <= gap
              && !RowsAgree(keys, p - 1, p, parties, n, l) ==>
        ValueAt(window, p, parties, l) == -1
    {
      GapAt(keys, ts, window, gap, parties, n, l, p);
    }
    forall p: nat, q: nat | p <= q < n && RowsAgree(keys, p, q, parties, n, l)
      ensures ValueAt(window, p, parties, l) == ValueAt(window, q, parties, l) <==> NoGap(ts, p, q, gap, parties, l)
    {
      GapBetween(keys, ts, window, gap, parties, n, l, p, q);
    }
  }

  lemma ThresholdRow(keys: seq<seq<Joint<Word>>>, t: seq<int>, above: seq<bool>, parties: nat, n: nat, l: nat, p: nat)
    requires SharedTable(keys, parties, n, l) && |t| == |above| == n && p < n && above[p]
    ensures var ks := SecretTable(keys, parties, n, l);
      var latest := Latest(t, Crossings(above), Linked(ks, AllRows(n), n, |ks|), p);
      && (p > 0 && !above[p - 1] ==> latest == t[p])
      && (p == 0 || (above[p - 1] && !RowsAgree(keys, p - 1, p, parties, n, l)) ==> latest == -1)
  {
    hide RowsAgree, Linked;
    var ks := SecretTable(keys, parties, n, l);
    ThresholdEdges(t, above, Linked(ks, AllRows(n), n, |ks|), p);
    if p > 0 { AgreeIsLinked(keys, p - 1, p, parties, n, l); }
  }

  lemma ThresholdPair(keys: seq<seq<Joint<Word>>>, t: seq<int>, above: seq<bool>, parties: nat, n: nat, l: nat, p: nat,
                      q: nat)
    requires SharedTable(keys, parties, n, l) && p <= q < n && |above| == n && forall r :: p <= r <= q ==> above[r]
    requires WindowInput(SecretTable(keys, parties, n, l), t, n) && RowsAgree(keys, p, q, parties, n, l)
    ensures var ks := SecretTable(keys, parties, n, l);
      var starts, same := Crossings(above), Linked(ks, AllRows(n), n, |ks|);
      Latest(t, starts, same, p) == Latest(t, starts, same, q)
  {
    hide RowsAgree, Linked, ContiguousKeys, Groups, Ordered;
    var ks := SecretTable(keys, parties, n, l);
    LinkedGroups(ks, n);
    AgreeIsLinked(keys, p, q, parties, n, l);
    SameThresholdWindow(t, above, Linked(ks, AllRows(n), n, |ks|), p, q);
  }

  /** What the scan says about the window column of a threshold session whose row 0 is marked -1. */
  ghost predicate ThresholdWindowsOf(keys: seq<seq<Joint<Word>>>, ts: seq<Joint<Word>>, window: seq<Joint<Word>>,
                                     above: seq<bool>, parties: nat, n: nat, l: nat)
    requires l > 0 && SharedTable(keys, parties, n, l) && SharedVector(ts, parties, l)
    requires SharedVector(window, parties, l) && |ts| == |window| == n == |above|
  {
    var ks, t, ids := SecretTable(keys, parties, n, l), SignedValues(ts, parties, l), SignedValues(window, parties, l);
    && WindowInput(ks, t, n)
    && forall p {:trigger ids[p]} :: 0 <= p < n ==>
         ids[p] == if above[p] then Latest(t, Crossings(above), Linked(ks, AllRows(n), n, |ks|), p) else -1
  }

  lemma ThresholdAt(keys: seq<seq<Joint<Word>>>, ts: seq<Joint<Word>>, window: seq<Joint<Word>>, above: seq<bool>,
                    parties: nat, n: nat, l: nat, p: nat)
    requires l > 0 && SharedTable(keys, parties, n, l) && SharedVector(ts, parties, l) && p < n
    requires SharedVector(window, parties, l) && |ts| == |window| == n == |above|
    requires ThresholdWindowsOf(keys, ts, window, above, parties, n, l)
    ensures !above[p] ==> ValueAt(window, p, parties, l) == -1
    ensures p > 0 && above[p] && !above[p - 1] ==> ValueAt(window, p, parties, l) == ValueAt(ts, p, parties, l)
    ensures above[p] && (p == 0 || (above[p - 1] && !RowsAgree(keys, p - 1, p, parties, n, l))) ==>
      ValueAt(window, p, parties, l) == -1
  {
    hide Linked, Latest, RowsAgree, Crossings, Ordered, ContiguousKeys;
    var t, ids := SignedValues(ts, parties, l), SignedValues(window, parties, l);
    assert ids[p] == ValueAt(window, p, parties, l) && t[p] == ValueAt(ts, p, parties, l);
    if above[p] { ThresholdRow(keys, t, above, parties, n, l, p); }
  }

  lemma ThresholdBetween(keys: seq<seq<Joint<Word>>>, ts: seq<Joint<Word>>, window: seq<Joint<Word>>, above: seq<bool>,
                         parties: nat, n: nat, l: nat, p: nat, q: nat)
    requires l > 0 && SharedTable(keys, parties, n, l) && SharedVector(ts, parties, l)
    requires SharedVector(window, parties, l) && |ts| == |window| == n == |above|
    requires ThresholdWindowsOf(keys, ts, window, above, parties, n, l)
    requires p <= q < n && RowsAgree(keys, p, q, parties, n, l) && forall r :: p <= r <= q ==> above[r]
    ensures ValueAt(window, p, parties, l) == ValueAt(window, q, parties, l)
  {
    hide Linked, Latest, RowsAgree, Crossings, Ordered, ContiguousKeys;
    var t, ids := SignedValues(ts, parties, l), SignedValues(window, parties, l);
    assert ids[p] == ValueAt(window, p, parties, l) && ids[q] == ValueAt(window, q, parties, l);
    ThresholdPair(keys, t, above, parties, n, l, p, q);
    assert above[p] && above[q];
  }

  lemma ThresholdLawHolds(keys: seq<seq<Joint<Word>>>, f: seq<Joint<Word>>, ts: seq<Joint<Word>>,
                          window: seq<Joint<Word>>, threshold: int, parties: nat, n: nat, l: nat, above: seq<bool>)
    requires l > 0 && SharedTable(keys, parties, n, l) && SharedVector(f, parties, l) && SharedVector(ts, parties, l)
    requires SharedVector(window, parties, l) && |f| == |ts| == |window| == n == |above|
    requires forall p: nat :: p < n ==> above[p] == (ValueAt(f, p, parties, l) > threshold)
    requires ThresholdWindowsOf(keys, ts, window, above, parties, n, l)
    ensures ThresholdLaw(keys, f, ts, window, threshold, parties, n, l)
  {
    hide ValueAt, SharedTable, SharedVector, RowsAgree, ThresholdWindowsOf;
    forall p: nat | p < n
      ensures !above[p] ==> ValueAt(window, p, parties, l) == -1
      ensures p > 0 && above[p] && !above[p - 1] ==> ValueAt(window, p, parties, l) == ValueAt(ts, p, parties, l)
      ensures p == 0 ==> ValueAt(window, p, parties, l) == -1
      ensures p > 0 && above[p] && above[p - 1] && !RowsAgree(keys, p - 1, p, parties, n, l) ==>
        ValueAt(window, p, parties, l) == -1
    {
      ThresholdAt(keys, ts, window, above, parties, n, l, p);
    }
    forall p: nat, q: nat | p <= q < n && RowsAgree(keys, p, q, parties, n, l)
                            && AllAbove(f, p, q, threshold, parties, l)
      ensures ValueAt(window, p, parties, l) == ValueAt(window, q, parties, l)
    {
      forall r | p <= r <= q ensures above[r] { assert ValueAt(f, r, parties, l) > threshold; }
      ThresholdBetween(keys, ts, window, above, parties, n, l, p, q);
    }
  }

  /** What the scan says about the window column of a threshold session whose row 0 is marked `w`. */
  lemma ThresholdLawExactly(keys: seq<seq<Joint<Word>>>, f: seq<Joint<Word>>, ts: seq<Joint<Word>>,
                            window: seq<Joint<Word>>, threshold: int, parties: nat, n: nat, l: nat, above: seq<bool>,
                            w: int)
    requires l > 0 && SharedTable(keys, parties, n, l) && SharedVector(f, parties, l) && SharedVector(ts, parties, l)
    requires SharedVector(window, parties, l) && |f| == |ts| == |window| == n == |above| > 0
    requires forall p {:trigger above[p]} :: 0 <= p < n ==> above[p] == (SignedValues(f, parties, l)[p] > threshold)
    requires SignedValues(window, parties, l)[0] == w
    requires w == -1 ==> ThresholdWindowsOf(keys, ts, window, above, parties, n, l)
    ensures ThresholdLaw(keys, f, ts, window, threshold, parties, n, l) <==> w == -1
  {
    forall p: nat | p < n ensures above[p] == (ValueAt(f, p, parties, l) > threshold) {
      assert SignedValues(f, parties, l)[p] == ValueAt(f, p, parties, l);
    }
    assert SignedValues(window, parties, l)[0] == ValueAt(window, 0, parties, l);
    hide ValueAt, SharedTable, SharedVector, ThresholdWindowsOf, ThresholdLaw, SignedValues;
    if w == -1 {
      ThresholdLawHolds(keys, f, ts, window, threshold, parties, n, l, above);
    }
    if ThresholdLaw(keys, f, ts, window, threshold, parties, n, l) {
      LawMarksFirstRow(keys, f, ts, window, threshold, parties, n, l);
    }
  }

  /** The law does not hold when row 0 shows anything else. */
  lemma LawMarksFirstRow(keys: seq<seq<Joint<Word>>>, f: seq<Joint<Word>>, ts: seq<Joint<Word>>,
                         window: seq<Joint<Word>>, threshold: int, parties: nat, n: nat, l: nat)
    requires l > 0 && SharedTable(keys, parties, n, l) && SharedVector(f, parties, l) && SharedVector(ts, parties, l)
    requires SharedVector(window, parties, l) && |f| == |ts| == |window| == n > 0
    requires ThresholdLaw(keys, f, ts, window, threshold, parties, n, l)
    ensures ValueAt(window, 0, parties, l) == -1
  {
    hide SharedTable, SharedVector, RowsAgree;
    assert ValueAt(f, 0, parties, l) <= threshold || ValueAt(f, 0, parties, l) > threshold;
  }
}
