/** What an aggregation with a selection computes where the answer is a whole group: for rows that are not selected, and
    for rows whose group is selected from there on. */
module SelectedGroups {
  import opened Words
  import opened Tables
  import opened Scans
  import opened GroupMeaning
  import opened Hops
  import opened Aggregation
  import opened OddEvenAggregation

  /** A row that is not selected reaches itself only. */
  lemma {:induction false} UnselectedReaches(ks: seq<seq<Word>>, on: seq<bool>, n: nat, rounds: nat, i: nat,
                                             reverse: bool, p: nat, q: nat)
    requires OfLength(ks, n) && |on| == n == Pow2(rounds) && i <= rounds && p < n && !on[p]
    ensures Reaches(Linked(ks, on, n, |ks|), rounds, i, reverse, p, q) <==> p == q
  {
    hide Pow2, Distance;
    if i > 0 { UnselectedReaches(ks, on, n, rounds, i - 1, reverse, p, q); }
  }

  /** All rows of the group of `p` at or after it (reverse: at or before it) are selected. */
  predicate MatesSelected(ks: seq<seq<Word>>, on: seq<bool>, n: nat, reverse: bool, p: nat)
    requires OfLength(ks, n) && |on| == n && p < n
  {
    forall q: nat :: q < n && Mates(ks, n, reverse, p)(q) ==> on[q]
  }

  /** From such a row the selection makes no difference. */
  lemma {:induction false} SelectedReaches(ks: seq<seq<Word>>, on: seq<bool>, n: nat, rounds: nat, i: nat,
                                           reverse: bool, p: nat, q: nat)
    requires OfLength(ks, n) && |on| == n == Pow2(rounds) && i <= rounds && p < n
    requires MatesSelected(ks, on, n, reverse, p)
    ensures Reaches(Linked(ks, on, n, |ks|), rounds, i, reverse, p, q) ==
            Reaches(Linked(ks, AllRows(n), n, |ks|), rounds, i, reverse, p, q)
  {
    if i > 0 {
      var f, all := Linked(ks, on, n, |ks|), Linked(ks, AllRows(n), n, |ks|);
      SelectedReaches(ks, on, n, rounds, i - 1, reverse, p, q);
      SelectedHop(ks, on, n, rounds, i, reverse, p);
      var h := Hop(all, rounds, i, reverse, p);
      if h >= 0 { SelectedReaches(ks, on, n, rounds, i - 1, reverse, h, q); }
    }
  }

  lemma SelectedHop(ks: seq<seq<Word>>, on: seq<bool>, n: nat, rounds: nat, i: nat, reverse: bool, p: nat)
    requires OfLength(ks, n) && |on| == n == Pow2(rounds) && 1 <= i <= rounds && p < n
    requires MatesSelected(ks, on, n, reverse, p)
    ensures var h := Hop(Linked(ks, AllRows(n), n, |ks|), rounds, i, reverse, p);
      && Hop(Linked(ks, on, n, |ks|), rounds, i, reverse, p) == h
      && (h >= 0 ==> MatesSelected(ks, on, n, reverse, h))
  {
    hide Pow2, Distance;
    assert Mates(ks, n, reverse, p)(p);
    var d := Distance(rounds, i, reverse);
    if reverse {
      if p >= d { assert Mates(ks, n, reverse, p)(p - d) == forall c :: 0 <= c < |ks| ==> ks[c][p - d] == ks[c][p]; }
    } else if p + d < n {
      assert Mates(ks, n, reverse, p)(p + d) == forall c :: 0 <= c < |ks| ==> ks[c][p + d] == ks[c][p];
    }
    var h := Hop(Linked(ks, AllRows(n), n, |ks|), rounds, i, reverse, p);
    if h >= 0 {
      forall q: nat | q < n && Mates(ks, n, reverse, h)(q) ensures on[q] {
        assert Mates(ks, n, reverse, p)(q);
      }
    }
  }

  function Unit(n: nat, q: nat): (v: seq<int>)
    ensures |v| == n && forall p :: 0 <= p < n ==> v[p] == if p == q then 1 else 0
  {
    seq(n, p => if p == q then 1 else 0)
  }

  /** Without a selection the scan adds up the group, when rows with equal keys are contiguous. */
  lemma ScanOfMates(v: seq<int>, ks: seq<seq<Word>>, n: nat, rounds: nat, reverse: bool, m: nat, p: nat)
    requires m > 0 && OfLength(ks, n) && ContiguousKeys(ks, n) && |v| == n == Pow2(rounds) && p < n
    ensures Scan(v, Linked(ks, AllRows(n), n, |ks|), rounds, rounds, reverse, ModularSum(m))[p] % m ==
            SumWhere(v, Mates(ks, n, reverse, p), n) % m
  {
    var f, op := Linked(ks, AllRows(n), n, |ks|), ModularSum(m);
    MatesAreGroup(ks, n, reverse, p);
    LinkedGroups(ks, n);
    GroupsAreContiguous(f, n);
    ModularSumCommutes(m);
    hide Scan, SumWhere, Pow2, ContiguousKeys, Groups, Contiguous, Commutes, SumOfGroup, Linked, Mates, ModularSum;
    var lo, hi := if reverse then 0 else p, if reverse then p + 1 else n;
    GroupIsWhere(v, f, p, lo, hi, Mates(ks, n, reverse, p), n);
    if reverse {
      ReverseScan(v, f, rounds, op, p);
      PrefixIsSum(v, f, m, p);
    } else {
      ForwardScan(v, f, rounds, op, p);
      SuffixIsSum(v, f, m, p);
    }
  }

  lemma MatesAreGroup(ks: seq<seq<Word>>, n: nat, reverse: bool, p: nat)
    requires OfLength(ks, n) && p < n
    ensures var same := Linked(ks, AllRows(n), n, |ks|);
      var lo, hi := if reverse then 0 else p, if reverse then p + 1 else n;
      forall q: nat :: q < n ==> Mates(ks, n, reverse, p)(q) == (lo <= q < hi && (same(p, q) || same(q, p)))
  {
  }

  /** So every row reaches exactly its group. */
  lemma WholeGroupReached(ks: seq<seq<Word>>, n: nat, rounds: nat, reverse: bool, p: nat, q: nat)
    requires OfLength(ks, n) && ContiguousKeys(ks, n) && n == Pow2(rounds) && p < n && q < n
    ensures Reaches(Linked(ks, AllRows(n), n, |ks|), rounds, rounds, reverse, p, q) <==> Mates(ks, n, reverse, p)(q)
  {
    hide Scan, SumWhere, Pow2, ContiguousKeys, Reaches, Linked, Mates, ModularSum;
    var f, v := Linked(ks, AllRows(n), n, |ks|), Unit(n, q);
    ScanSums(v, f, rounds, rounds, reverse, 2, p);
    ScanOfMates(v, ks, n, rounds, reverse, 2, p);
    SumOfUnit(v, q, Reached(f, rounds, rounds, reverse, p), n);
    SumOfUnit(v, q, Mates(ks, n, reverse, p), n);
  }

  /** Where a selected group is reached as a whole, rows reach exactly their mates. */
  lemma SelectedReachMates(ks: seq<seq<Word>>, on: seq<bool>, n: nat, rounds: nat, reverse: bool, p: nat)
    requires OfLength(ks, n) && ContiguousKeys(ks, n) && |on| == n == Pow2(rounds) && p < n
    requires MatesSelected(ks, on, n, reverse, p)
    ensures forall q: nat :: q < n ==>
      Reached(Linked(ks, on, n, |ks|), rounds, rounds, reverse, p)(q) == Mates(ks, n, reverse, p)(q)
  {
    hide ContiguousKeys, Reaches, Linked, Pow2;
    forall q: nat | q < n
      ensures Reached(Linked(ks, on, n, |ks|), rounds, rounds, reverse, p)(q) == Mates(ks, n, reverse, p)(q)
    {
      SelectedReaches(ks, on, n, rounds, rounds, reverse, p, q);
      WholeGroupReached(ks, n, rounds, reverse, p, q);
    }
  }

  /** A sum with a selection: a row that is not selected keeps its value, and a row whose group is selected from there
      on gets the sum of that part of the group. */
  lemma SelectedSums(now: seq<seq<int>>, vs: seq<seq<int>>, ks: seq<seq<Word>>, on: seq<bool>, n: nat, rounds: nat,
                     reverse: bool, m: nat, c: nat, p: nat)
    requires OfLength(ks, n) && ContiguousKeys(ks, n) && |on| == n == Pow2(rounds) && p < n && c < |vs|
    requires ReachedSums(now, vs, Linked(ks, on, n, |ks|), n, rounds, reverse, m)
    ensures !on[p] ==> now[c][p] == vs[c][p] % m
    ensures MatesSelected(ks, on, n, reverse, p) ==> now[c][p] == SumWhere(vs[c], Mates(ks, n, reverse, p), n) % m
  {
    hide ContiguousKeys, Linked, Pow2, MatesSelected, Reaches;
    var f := Linked(ks, on, n, |ks|);
    var reached := Reached(f, rounds, rounds, reverse, p);
    assert now[c][p] == SumWhere(vs[c], reached, n) % m;
    if !on[p] {
      forall q: nat | q < n ensures reached(q) == (p == q) {
        UnselectedReaches(ks, on, n, rounds, rounds, reverse, p, q);
      }
      SumOfOne(vs[c], p, reached, n);
    }
    if MatesSelected(ks, on, n, reverse, p) {
      SelectedReachMates(ks, on, n, rounds, reverse, p);
      SumSame(vs[c], reached, Mates(ks, n, reverse, p), n);
    }
  }

  /** The same for maxima and minima. */
  lemma SelectedExtremes(now: seq<seq<int>>, vs: seq<seq<int>>, ks: seq<seq<Word>>, on: seq<bool>, n: nat, rounds: nat,
                         reverse: bool, min: bool, c: nat, p: nat)
    requires OfLength(ks, n) && ContiguousKeys(ks, n) && |on| == n == Pow2(rounds) && p < n && c < |vs|
    requires ReachedExtremes(now, vs, Linked(ks, on, n, |ks|), n, rounds, reverse, min)
    ensures !on[p] ==> now[c][p] == vs[c][p]
    ensures MatesSelected(ks, on, n, reverse, p) ==>
      && (exists q: nat {:trigger vs[c][q]} :: q < n && Mates(ks, n, reverse, p)(q) && vs[c][q] == now[c][p])
      && (forall q: nat {:trigger vs[c][q]} :: q < n && Mates(ks, n, reverse, p)(q) ==>
            if min then now[c][p] <= vs[c][q] else vs[c][q] <= now[c][p])
  {
    hide ContiguousKeys, Linked, Pow2, MatesSelected, Reaches, Mates;
    var f := Linked(ks, on, n, |ks|);
    var reached := Reached(f, rounds, rounds, reverse, p);
    assert ExtremeWhere(vs[c], reached, min, now[c][p]);
    if !on[p] {
      forall q: nat | q < n ensures reached(q) == (p == q) {
        UnselectedReaches(ks, on, n, rounds, rounds, reverse, p, q);
      }
    }
    if MatesSelected(ks, on, n, reverse, p) {
      SelectedReachMates(ks, on, n, rounds, reverse, p);
    }
  }
}
