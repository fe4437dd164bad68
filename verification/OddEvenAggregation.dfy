/** The round loop of `odd_even_aggregation` over all result columns, and its result in plain terms. */
module OddEvenAggregation {
  import opened Arith
  import opened Words
  import opened Sharing
  import opened Boolean
  import opened Arithmetic
  import opened RippleCarry
  import opened Conversions
  import opened BitVectors
  import opened Multiplexing
  import opened Tables
  import opened Scans
  import opened GroupMeaning
  import opened Hops
  import opened Aggregation

  // -------------------------------------------------- one round, all columns

  /** The first `c` columns after a round. */
  function RoundFirst(vs: seq<seq<int>>, c: nat, n: nat, d: nat, bs: seq<bool>, reverse: bool, op: (int, int) -> int)
    : (rs: seq<seq<int>>)
    requires OfLength(vs, n) && d <= n && |bs| == n - d
    ensures |rs| == |vs| && OfLength(rs, n)
    ensures forall i {:trigger rs[i]} :: 0 <= i < |vs| ==>
      rs[i] == if i < c then Round(vs[i], d, bs, reverse, op) else vs[i]
  {
    seq(|vs|, i requires 0 <= i < |vs| => if i < c then Round(vs[i], d, bs, reverse, op) else vs[i])
  }

  method SumNext(cols: seq<array<Joint<int>>>, c: nat, n: nat, d: nat, bits: seq<Joint<int>>, ghost bs: seq<bool>,
                 reverse: bool, parties: nat, m: nat, ms: nat -> MulMask)
    requires Separate(cols, n) && 1 <= d < n && |bits| == |bs| == n - d && m > 1 && c < |cols|
    requires forall i {:trigger bs[i]} :: 0 <= i < |bs| ==> SharesOf(bits[i], parties, m, BitValue(bs[i]))
    requires SharedNumberTable(Contents(cols), parties, n) && NumberMasks(ms, parties, m)
    modifies cols[c]
    ensures SharedNumberTable(Contents(cols), parties, n)
    ensures NumberTable(Contents(cols), parties, n, m) ==
            var vs := old(NumberTable(Contents(cols), parties, n, m));
            vs[c := Round(vs[c], d, bs, reverse, ModularSum(m))]
  {
    hide SharesOf, SecretA, Deal, Components, NumberMasks, Round;
    ghost var before := Contents(cols);
    assert SharedNumbers(before[c], parties);
    SumColumn(cols[c], d, bits, bs, reverse, parties, m, ms);
    assert Contents(cols) == before[c := cols[c][..]];
  }

  method SumTable(cols: seq<array<Joint<int>>>, n: nat, d: nat, bits: seq<Joint<int>>, ghost bs: seq<bool>,
                  reverse: bool, parties: nat, m: nat, ms: nat -> nat -> MulMask)
    requires Separate(cols, n) && 1 <= d < n && |bits| == |bs| == n - d && m > 1
    requires forall i {:trigger bs[i]} :: 0 <= i < |bs| ==> SharesOf(bits[i], parties, m, BitValue(bs[i]))
    requires SharedNumberTable(Contents(cols), parties, n) && forall c :: NumberMasks(ms(c), parties, m)
    modifies cols
    ensures SharedNumberTable(Contents(cols), parties, n)
    ensures NumberTable(Contents(cols), parties, n, m) ==
            RoundFirst(old(NumberTable(Contents(cols), parties, n, m)), |cols|, n, d, bs, reverse, ModularSum(m))
  {
    hide SharesOf, SharedNumbers, NumberMasks, Numbers, Round;
    ghost var vs := NumberTable(Contents(cols), parties, n, m);
    for c := 0 to |cols|
      invariant SharedNumberTable(Contents(cols), parties, n)
      invariant NumberTable(Contents(cols), parties, n, m) == RoundFirst(vs, c, n, d, bs, reverse, ModularSum(m))
    {
      SumNext(cols, c, n, d, bits, bs, reverse, parties, m, ms(c));
      assert RoundFirst(vs, c + 1, n, d, bs, reverse, ModularSum(m)) ==
             RoundFirst(vs, c, n, d, bs, reverse, ModularSum(m))[c := Round(vs[c], d, bs, reverse, ModularSum(m))];
    }
  }

  function SignedTable(ts: seq<seq<Joint<Word>>>, parties: nat, n: nat, l: nat): (vs: seq<seq<int>>)
    requires l > 0 && SharedTable(ts, parties, n, l)
    ensures |vs| == |ts| && OfLength(vs, n)
    ensures forall c {:trigger vs[c]} :: 0 <= c < |ts| ==> vs[c] == SignedValues(ts[c], parties, l)
  {
    seq(|ts|, c requires 0 <= c < |ts| => SignedValues(ts[c], parties, l))
  }

  /** The comparisons of a round yield control bits. */
  ghost predicate ExtremeMasks(ms: RoundMasks, k: nat) {
    forall c :: ControlMasks(ms.compare(c), k)
  }

  method ExtremeNext(cols: seq<array<Joint<Word>>>, c: nat, n: nat, d: nat, bits: seq<Joint<Word>>, ghost bs: seq<bool>,
                     reverse: bool, min: bool, parties: nat, l: nat, k: nat, ms: RoundMasks)
    requires k >= 2 && l == Pow2(k) && Separate(cols, n) && 1 <= d < n && c < |cols|
    requires Controls(bits, parties, l, bs) && |bits| == |bs| == n - d && ExtremeMasks(ms, k)
    requires SharedTable(Contents(cols), parties, n, l) && GoodRoundMasks(ms, parties, l)
    modifies cols[c]
    ensures SharedTable(Contents(cols), parties, n, l)
    ensures SignedTable(Contents(cols), parties, n, l) ==
            var vs := old(SignedTable(Contents(cols), parties, n, l));
            vs[c := Round(vs[c], d, bs, reverse, Extreme(min))]
  {
    hide Width, SecretB, SingleBit, ToInt, CircuitMasks, ControlMasks, Controls, Round;
    ghost var before := Contents(cols);
    assert SharedVector(before[c], parties, l);
    ExtremeColumn(cols[c], d, bits, bs, reverse, min, parties, l, k, ms.compare(c), ms.choose(c));
    assert Contents(cols) == before[c := cols[c][..]];
  }

  method ExtremeTable(cols: seq<array<Joint<Word>>>, n: nat, d: nat, bits: seq<Joint<Word>>, ghost bs: seq<bool>,
                      reverse: bool, min: bool, parties: nat, l: nat, k: nat, ms: RoundMasks)
    requires k >= 2 && l == Pow2(k) && Separate(cols, n) && 1 <= d < n
    requires Controls(bits, parties, l, bs) && |bits| == |bs| == n - d && ExtremeMasks(ms, k)
    requires SharedTable(Contents(cols), parties, n, l) && GoodRoundMasks(ms, parties, l)
    modifies cols
    ensures SharedTable(Contents(cols), parties, n, l)
    ensures SignedTable(Contents(cols), parties, n, l) ==
            RoundFirst(old(SignedTable(Contents(cols), parties, n, l)), |cols|, n, d, bs, reverse, Extreme(min))
  {
    hide SharedVector, Controls, GoodRoundMasks, ExtremeMasks, SignedValues, Round, Extreme;
    ghost var vs := SignedTable(Contents(cols), parties, n, l);
    for c := 0 to |cols|
      invariant SharedTable(Contents(cols), parties, n, l)
      invariant SignedTable(Contents(cols), parties, n, l) == RoundFirst(vs, c, n, d, bs, reverse, Extreme(min))
    {
      ExtremeNext(cols, c, n, d, bits, bs, reverse, min, parties, l, k, ms);
      assert RoundFirst(vs, c + 1, n, d, bs, reverse, Extreme(min)) ==
             RoundFirst(vs, c, n, d, bs, reverse, Extreme(min))[c := Round(vs[c], d, bs, reverse, Extreme(min))];
    }
  }

  // --------------------------------------------------------------- all rounds

  function ScanAll(vs: seq<seq<int>>, same: (nat, nat) -> bool, n: nat, rounds: nat, i: nat, reverse: bool,
                   op: (int, int) -> int): (rs: seq<seq<int>>)
    requires OfLength(vs, n) && n == Pow2(rounds) && i <= rounds
    ensures |rs| == |vs| && OfLength(rs, n)
    ensures forall c {:trigger rs[c]} :: 0 <= c < |vs| ==> rs[c] == Scan(vs[c], same, rounds, i, reverse, op)
  {
    seq(|vs|, c requires 0 <= c < |vs| => Scan(vs[c], same, rounds, i, reverse, op))
  }

  /** `now` is what `i` rounds make of `vs`, column by column. */
  predicate Scanned(now: seq<seq<int>>, vs: seq<seq<int>>, same: (nat, nat) -> bool, n: nat, rounds: nat, i: nat,
                    reverse: bool, op: (int, int) -> int) {
    n == Pow2(rounds) && i <= rounds && OfLength(vs, n) && now == ScanAll(vs, same, n, rounds, i, reverse, op)
  }

  lemma ScannedStart(vs: seq<seq<int>>, same: (nat, nat) -> bool, n: nat, rounds: nat, reverse: bool,
                     op: (int, int) -> int)
    requires OfLength(vs, n) && n == Pow2(rounds)
    ensures Scanned(vs, vs, same, n, rounds, 0, reverse, op)
  {
  }

  lemma ScannedStep(now: seq<seq<int>>, next: seq<seq<int>>, vs: seq<seq<int>>, same: (nat, nat) -> bool, n: nat,
                    rounds: nat, i: nat, reverse: bool, op: (int, int) -> int)
    requires 1 <= i <= rounds && Scanned(now, vs, same, n, rounds, i - 1, reverse, op)
    requires var d := Distance(rounds, i, reverse);
      d < n && next == RoundFirst(now, |now|, n, d, Pairs(same, n, d), reverse, op)
    ensures Scanned(next, vs, same, n, rounds, i, reverse, op)
  {
    hide Round, Pairs, Distance, Pow2;
    forall c | 0 <= c < |vs| ensures next[c] == Scan(vs[c], same, rounds, i, reverse, op) {
      LastRound(vs[c], same, rounds, i, reverse, op);
    }
  }

  /** The deep copy at the start: a result column that is a different object gets the values. */
  method CopyValues<T>(values: seq<array<T>>, results: seq<array<T>>, n: nat)
    requires |values| == |results| && Separate(results, n) && forall i :: 0 <= i < |values| ==> values[i].Length == n
    requires forall i :: 0 <= i < |values| ==> values[i] == results[i] || values[i] !in results
    modifies results
    ensures Contents(results) == old(Contents(values))
  {
    for i := 0 to |values|
      invariant forall j :: 0 <= j < i ==> results[j][..] == old(values[j][..])
      invariant forall j :: i <= j < |values| ==> results[j][..] == old(results[j][..])
      invariant forall j :: 0 <= j < |values| && values[j] !in results ==> values[j][..] == old(values[j][..])
    {
      if values[i] != results[i] {
        CopyColumn(values[i], results[i]);
      }
    }
  }

  method CopyColumn<T>(from: array<T>, to: array<T>)
    requires from.Length == to.Length && from != to
    modifies to
    ensures to[..] == from[..]
  {
    for p := 0 to to.Length
      invariant to[..p] == from[..p]
    {
      to[p] := from[p];
    }
  }

  /** `rounds` as the source computes it: `d` is the row count divided by a power of two. */
  lemma RoundDistance(n: nat, rounds: nat, i: nat, reverse: bool)
    requires n == Pow2(rounds) && 1 <= i <= rounds
    ensures n / Pow2(if reverse then rounds - i + 1 else i) == Distance(rounds, i, reverse)
    ensures 1 <= Distance(rounds, i, reverse) < n
  {
    DistanceFits(n, rounds, i, reverse);
    var e := if reverse then rounds - i + 1 else i;
    PowersMultiply(rounds - e, e);
    DivModUnique(n, Pow2(e), Pow2(rounds - e), 0);
  }

  lemma {:induction false} PowersMultiply(a: nat, b: nat)
    ensures Pow2(a) * Pow2(b) == Pow2(a + b)
    decreases b
  {
    if b > 0 {
      PowersMultiply(a, b - 1);
      Doubled(Pow2(a), Pow2(b - 1));
    }
  }

  lemma Doubled(x: int, y: int)
    ensures x * (2 * y) == 2 * (x * y)
  {
  }

  /** The conditions on the operands that both aggregations share. */
  ghost predicate Operands(keys: seq<array<Joint<Word>>>, sel: array?<Joint<Word>>, on: seq<bool>, one: Joint<Word>,
                           n: nat, parties: nat, l: nat, k: nat)
    reads keys, sel
  {
    && k >= 2 && l == Pow2(k) && IsPowerOfTwo(n) && |on| == n && (parties == 3 || parties == 4)
    && Table(keys, n, parties, l) && Selection(sel, on, n, parties, l)
    && (|keys| == 0 ==> SharedOne(one, parties, l))
  }

  lemma KeysFit(keys: seq<array<Joint<Word>>>, sel: array?<Joint<Word>>, on: seq<bool>, one: Joint<Word>, n: nat,
                parties: nat, l: nat, k: nat)
    requires Operands(keys, sel, on, one, n, parties, l, k)
    ensures Table(keys, n, parties, l) && |on| == n && n == Pow2(Log2(n)) && l > 1
  {
    Pow2Monotone(1, k);
  }

  // -------------------------------------------------------------- in plain terms

  predicate SameRowKeys(ks: seq<seq<Word>>, n: nat, p: nat, q: nat)
    requires OfLength(ks, n) && p < n && q < n
  {
    forall d :: 0 <= d < |ks| ==> ks[d][p] == ks[d][q]
  }

  /** Rows with equal keys are contiguous. */
  ghost predicate ContiguousKeys(ks: seq<seq<Word>>, n: nat)
    requires OfLength(ks, n)
  {
    forall p: nat, q: nat, r: nat {:trigger SameRowKeys(ks, n, p, q), SameRowKeys(ks, n, p, r)} ::
      p <= q <= r < n && SameRowKeys(ks, n, p, r) ==> SameRowKeys(ks, n, p, q)
  }

  lemma LinkedIsSameKeys(ks: seq<seq<Word>>, n: nat, p: nat, q: nat)
    requires OfLength(ks, n) && p < n && q < n
    ensures Linked(ks, AllRows(n), n, |ks|)(p, q) == SameRowKeys(ks, n, p, q) == SameRowKeys(ks, n, q, p)
  {
  }

  lemma SameKeysSplit(ks: seq<seq<Word>>, n: nat, p: nat, q: nat, r: nat)
    requires OfLength(ks, n) && ContiguousKeys(ks, n) && p <= q <= r < n
    ensures SameRowKeys(ks, n, p, r) <==> SameRowKeys(ks, n, p, q) && SameRowKeys(ks, n, q, r)
  {
    if SameRowKeys(ks, n, p, r) { assert SameRowKeys(ks, n, p, q); }
  }

  lemma LinkedGroups(ks: seq<seq<Word>>, n: nat)
    requires OfLength(ks, n) && ContiguousKeys(ks, n)
    ensures Groups(Linked(ks, AllRows(n), n, |ks|), n)
  {
    hide Linked, SameRowKeys, ContiguousKeys;
    var same := Linked(ks, AllRows(n), n, |ks|);
    forall p: nat, q: nat | p < n && q < n ensures same(p, q) == same(q, p) {
      LinkedIsSameKeys(ks, n, p, q);
      LinkedIsSameKeys(ks, n, q, p);
    }
    forall p: nat | p < n ensures same(p, p) { LinkedReflexive(ks, n, p); }
    forall p: nat, q: nat, r: nat | p <= q <= r < n ensures Splits(same, p, q, r) {
      LinkedIsSameKeys(ks, n, p, r);
      LinkedIsSameKeys(ks, n, p, q);
      LinkedIsSameKeys(ks, n, q, r);
      SameKeysSplit(ks, n, p, q, r);
    }
  }

  lemma LinkedReflexive(ks: seq<seq<Word>>, n: nat, p: nat)
    requires OfLength(ks, n) && p < n
    ensures Linked(ks, AllRows(n), n, |ks|)(p, p)
  {
  }

  /** The sums: every row of the group at or after (reverse: at or before) row `p` is counted exactly once. */
  lemma AggregatedSums(now: seq<seq<int>>, vs: seq<seq<int>>, ks: seq<seq<Word>>, n: nat, rounds: nat, reverse: bool,
                       m: nat, c: nat, p: nat)
    requires m > 0 && OfLength(ks, n) && ContiguousKeys(ks, n) && p < n && c < |vs|
    requires Scanned(now, vs, Linked(ks, AllRows(n), n, |ks|), n, rounds, rounds, reverse, ModularSum(m))
    requires forall q :: 0 <= q < n ==> 0 <= vs[c][q] < m
    ensures |now| == |vs| && |now[c]| == n
    ensures now[c][p] ==
      SumOfGroup(vs[c], Linked(ks, AllRows(n), n, |ks|), p, if reverse then 0 else p, if reverse then p + 1 else n) % m
  {
    hide Linked, Groups, ContiguousKeys, Commutes, ModularSum;
    var same, op := Linked(ks, AllRows(n), n, |ks|), ModularSum(m);
    LinkedGroups(ks, n);
    ModularSumCommutes(m);
    assert Contiguous(same, n) by { GroupsAreContiguous(same, n); }
    var s := now[c][p];
    if reverse {
      ReverseScan(vs[c], same, rounds, op, p);
      PrefixIsSum(vs[c], same, m, p);
    } else {
      ForwardScan(vs[c], same, rounds, op, p);
      SuffixIsSum(vs[c], same, m, p);
    }
    assert 0 <= s < m by { FoldInRange(vs[c], same, m, p); }
    DivModUnique(s, m, 0, s);
  }

  lemma FoldInRange(v: seq<int>, same: (nat, nat) -> bool, m: nat, p: nat)
    requires m > 0 && p < |v| && 0 <= v[p] < m
    ensures 0 <= GroupSuffix(v, same, ModularSum(m), p) < m
    ensures 0 <= GroupPrefix(v, same, ModularSum(m), p) < m
  {
  }

  /** The maxima and minima of the group's rows at or after (reverse: at or before) row `p`. */
  lemma AggregatedExtremes(now: seq<seq<int>>, vs: seq<seq<int>>, ks: seq<seq<Word>>, n: nat, rounds: nat,
                           reverse: bool, min: bool, c: nat, p: nat)
    requires OfLength(ks, n) && ContiguousKeys(ks, n) && p < n && c < |vs|
    requires Scanned(now, vs, Linked(ks, AllRows(n), n, |ks|), n, rounds, rounds, reverse, Extreme(min))
    ensures |now| == |vs| && |now[c]| == n
    ensures IsExtreme(vs[c], Linked(ks, AllRows(n), n, |ks|), min, p, if reverse then 0 else p,
                      if reverse then p + 1 else n, now[c][p])
  {
    hide Linked, Groups, ContiguousKeys, Commutes, Extreme, IsExtreme;
    var same, op := Linked(ks, AllRows(n), n, |ks|), Extreme(min);
    LinkedGroups(ks, n);
    ExtremeCommutes(min);
    assert Contiguous(same, n) by { GroupsAreContiguous(same, n); }
    if reverse {
      ReverseScan(vs[c], same, rounds, op, p);
      PrefixIsExtreme(vs[c], same, min, p);
    } else {
      ForwardScan(vs[c], same, rounds, op, p);
      SuffixIsExtreme(vs[c], same, min, p);
    }
  }

  /** Row by row the sum modulo `m` of the values of its group at or after it (reverse: at or before it). */
  ghost predicate GroupSums(now: seq<seq<int>>, vs: seq<seq<int>>, ks: seq<seq<Word>>, n: nat, reverse: bool, m: nat)
    requires m > 0 && OfLength(vs, n) && OfLength(ks, n)
  {
    && |now| == |vs| && OfLength(now, n)
    && forall c, p {:trigger now[c][p]} :: 0 <= c < |vs| && 0 <= p < n ==>
      now[c][p] == SumOfGroup(vs[c], Linked(ks, AllRows(n), n, |ks|), p, if reverse then 0 else p,
                              if reverse then p + 1 else n) % m
  }

  lemma ScannedSums(now: seq<seq<int>>, vs: seq<seq<int>>, ks: seq<seq<Word>>, n: nat, rounds: nat, reverse: bool,
                    m: nat)
    requires m > 0 && OfLength(ks, n) && ContiguousKeys(ks, n)
    requires Scanned(now, vs, Linked(ks, AllRows(n), n, |ks|), n, rounds, rounds, reverse, ModularSum(m))
    requires forall c, q :: 0 <= c < |vs| && 0 <= q < |vs[c]| ==> 0 <= vs[c][q] < m
    ensures GroupSums(now, vs, ks, n, reverse, m)
  {
    hide Linked, ContiguousKeys, ModularSum, Scan;
    forall c: nat, p: nat {:trigger now[c][p]} | c < |vs| && p < n
      ensures now[c][p] == SumOfGroup(vs[c], Linked(ks, AllRows(n), n, |ks|), p, if reverse then 0 else p,
                                      if reverse then p + 1 else n) % m
    {
      AggregatedSums(now, vs, ks, n, rounds, reverse, m, c, p);
    }
  }

  /** Row by row the maximum (minimum) of the values of its group at or after it (reverse: at or before it). */
  ghost predicate GroupExtremes(now: seq<seq<int>>, vs: seq<seq<int>>, ks: seq<seq<Word>>, n: nat, reverse: bool,
                                min: bool)
    requires OfLength(vs, n) && OfLength(ks, n)
  {
    && |now| == |vs| && OfLength(now, n)
    && forall c, p {:trigger now[c][p]} :: 0 <= c < |vs| && 0 <= p < n ==>
      IsExtreme(vs[c], Linked(ks, AllRows(n), n, |ks|), min, p, if reverse then 0 else p, if reverse then p + 1 else n,
                now[c][p])
  }

  lemma ScannedExtremes(now: seq<seq<int>>, vs: seq<seq<int>>, ks: seq<seq<Word>>, n: nat, rounds: nat, reverse: bool,
                        min: bool)
    requires OfLength(ks, n) && ContiguousKeys(ks, n)
    requires Scanned(now, vs, Linked(ks, AllRows(n), n, |ks|), n, rounds, rounds, reverse, Extreme(min))
    ensures GroupExtremes(now, vs, ks, n, reverse, min)
  {
    hide Linked, ContiguousKeys, Extreme, Scan, IsExtreme;
    forall c: nat, p: nat {:trigger now[c][p]} | c < |vs| && p < n
      ensures IsExtreme(vs[c], Linked(ks, AllRows(n), n, |ks|), min, p, if reverse then 0 else p,
                        if reverse then p + 1 else n, now[c][p])
    {
      AggregatedExtremes(now, vs, ks, n, rounds, reverse, min, c, p);
    }
  }

  /** The rows of the group of `p` at or after it (reverse: at or before it). */
  function Mates(ks: seq<seq<Word>>, n: nat, reverse: bool, p: nat): (taken: nat -> bool)
    requires OfLength(ks, n) && p < n
  {
    (q: nat) => q < n && (if reverse then q <= p else p <= q) && forall d :: 0 <= d < |ks| ==> ks[d][q] == ks[d][p]
  }

  lemma {:induction false} GroupIsWhere(v: seq<int>, same: (nat, nat) -> bool, p: nat, lo: nat, hi: nat,
                                        taken: nat -> bool, top: nat)
    requires lo <= hi <= |v| && top <= |v|
    requires forall q: nat :: q < |v| ==> taken(q) == (lo <= q < hi && (same(p, q) || same(q, p)))
    ensures SumWhere(v, taken, top) ==
      if top <= lo then 0 else SumOfGroup(v, same, p, lo, if top <= hi then top else hi)
  {
    if top > 0 {
      GroupIsWhere(v, same, p, lo, hi, taken, top - 1);
      if lo < top <= hi { SplitLast(v, same, p, lo, top); }
    }
  }

  /** The group sums in plain terms: the values of all rows that have the same keys. */
  lemma GroupSumsMean(now: seq<seq<int>>, vs: seq<seq<int>>, ks: seq<seq<Word>>, n: nat, reverse: bool, m: nat)
    requires m > 0 && OfLength(vs, n) && OfLength(ks, n) && GroupSums(now, vs, ks, n, reverse, m)
    ensures |now| == |vs| && OfLength(now, n)
    ensures forall c, p {:trigger now[c][p]} :: 0 <= c < |vs| && 0 <= p < n ==>
      now[c][p] == SumWhere(vs[c], Mates(ks, n, reverse, p), n) % m
  {
    forall c: nat, p: nat {:trigger now[c][p]} | c < |vs| && p < n
      ensures now[c][p] == SumWhere(vs[c], Mates(ks, n, reverse, p), n) % m
    {
      var lo, hi := if reverse then 0 else p, if reverse then p + 1 else n;
      GroupIsWhere(vs[c], Linked(ks, AllRows(n), n, |ks|), p, lo, hi, Mates(ks, n, reverse, p), n);
    }
  }

  /** The group extremes in plain terms: the value of some row that has the same keys, and no such row has a greater
      (smaller) one. */
  lemma GroupExtremesMean(now: seq<seq<int>>, vs: seq<seq<int>>, ks: seq<seq<Word>>, n: nat, reverse: bool, min: bool,
                          c: nat, p: nat)
    requires OfLength(vs, n) && OfLength(ks, n) && GroupExtremes(now, vs, ks, n, reverse, min) && c < |vs| && p < n
    ensures |now| == |vs| && |now[c]| == n
    ensures exists q: nat {:trigger vs[c][q]} :: q < n && Mates(ks, n, reverse, p)(q) && vs[c][q] == now[c][p]
    ensures forall q: nat {:trigger vs[c][q]} :: q < n && Mates(ks, n, reverse, p)(q) ==>
      if min then now[c][p] <= vs[c][q] else vs[c][q] <= now[c][p]
  {
    var same, lo, hi := Linked(ks, AllRows(n), n, |ks|), if reverse then 0 else p, if reverse then p + 1 else n;
    forall q: nat | q < n
      ensures Mates(ks, n, reverse, p)(q) == (lo <= q < hi && (same(p, q) || same(q, p)))
    {
    }
    assert IsExtreme(vs[c], same, min, p, lo, hi, now[c][p]);
    var q {:trigger vs[c][q]} :| lo <= q < hi && (same(p, q) || same(q, p)) && vs[c][q] == now[c][p];
    var r: nat := q;
    assert Mates(ks, n, reverse, p)(r) && vs[c][r] == now[c][p];
  }

  // ------------------------------------------------------- any keys and selection

  /** Row by row the sum modulo `m` of the rows that hops between linked rows reach, each counted once. */
  ghost predicate ReachedSums(now: seq<seq<int>>, vs: seq<seq<int>>, f: (nat, nat) -> bool, n: nat, rounds: nat,
                              reverse: bool, m: nat) {
    && m > 0 && n == Pow2(rounds) && |now| == |vs| && OfLength(now, n) && OfLength(vs, n)
    && forall c, p {:trigger now[c][p]} :: 0 <= c < |vs| && 0 <= p < n ==>
      now[c][p] == SumWhere(vs[c], Reached(f, rounds, rounds, reverse, p), n) % m
  }

  lemma ScannedReaches(now: seq<seq<int>>, vs: seq<seq<int>>, f: (nat, nat) -> bool, n: nat, rounds: nat,
                       reverse: bool, m: nat)
    requires m > 0 && Scanned(now, vs, f, n, rounds, rounds, reverse, ModularSum(m))
    requires forall c, q :: 0 <= c < |vs| && 0 <= q < |vs[c]| ==> 0 <= vs[c][q] < m
    ensures ReachedSums(now, vs, f, n, rounds, reverse, m)
  {
    hide Scan, Pow2, Reached, ModularSum, SumWhere;
    forall c: nat, p: nat {:trigger now[c][p]} | c < |vs| && p < n
      ensures now[c][p] == SumWhere(vs[c], Reached(f, rounds, rounds, reverse, p), n) % m
    {
      ScanSums(vs[c], f, rounds, rounds, reverse, m, p);
      ScanInRange(vs[c], f, rounds, rounds, reverse, m, p);
      DivModUnique(now[c][p], m, 0, now[c][p]);
    }
  }

  lemma {:induction false} ScanInRange(v: seq<int>, f: (nat, nat) -> bool, rounds: nat, i: nat, reverse: bool, m: nat,
                                       p: nat)
    requires m > 0 && |v| == Pow2(rounds) && i <= rounds && p < |v|
    requires forall q :: 0 <= q < |v| ==> 0 <= v[q] < m
    ensures 0 <= Scan(v, f, rounds, i, reverse, ModularSum(m))[p] < m
  {
    hide Scan, Pow2, Hop;
    if i == 0 {
      LastRound(v, f, rounds, 0, reverse, ModularSum(m));
    } else {
      HopStep(v, f, rounds, i, reverse, ModularSum(m), p);
      ScanInRange(v, f, rounds, i - 1, reverse, m, p);
    }
  }

  /** Row by row the maximum (minimum) of the rows that hops between linked rows reach. */
  ghost predicate ReachedExtremes(now: seq<seq<int>>, vs: seq<seq<int>>, f: (nat, nat) -> bool, n: nat, rounds: nat,
                                  reverse: bool, min: bool) {
    && n == Pow2(rounds) && |now| == |vs| && OfLength(now, n) && OfLength(vs, n)
    && forall c, p {:trigger now[c][p]} :: 0 <= c < |vs| && 0 <= p < n ==>
      ExtremeWhere(vs[c], Reached(f, rounds, rounds, reverse, p), min, now[c][p])
  }

  lemma ScannedHops(now: seq<seq<int>>, vs: seq<seq<int>>, f: (nat, nat) -> bool, n: nat, rounds: nat, reverse: bool,
                    min: bool)
    requires Scanned(now, vs, f, n, rounds, rounds, reverse, Extreme(min))
    ensures ReachedExtremes(now, vs, f, n, rounds, reverse, min)
  {
    hide Scan, Pow2, Reached, Extreme, ExtremeWhere;
    forall c: nat, p: nat {:trigger now[c][p]} | c < |vs| && p < n
      ensures ExtremeWhere(vs[c], Reached(f, rounds, rounds, reverse, p), min, now[c][p])
    {
      ScanExtremes(vs[c], f, rounds, rounds, reverse, min, p);
    }
  }

  /** The selected rows of the group of row `p` at or after it (reverse: at or before it). */
  function Chosen(ks: seq<seq<Word>>, on: seq<bool>, n: nat, reverse: bool, p: nat): (taken: nat -> bool)
    requires OfLength(ks, n) && |on| == n && p < n
  {
    (q: nat) => q < n && on[q] && SameRowKeys(ks, n, p, q) && if reverse then q <= p else p <= q
  }

  /** A row that is reached is the row itself, or both are selected and have the same keys. */
  lemma {:induction false} ReachedIsChosen(ks: seq<seq<Word>>, on: seq<bool>, n: nat, rounds: nat, i: nat,
                                           reverse: bool, p: nat, q: nat)
    requires OfLength(ks, n) && |on| == n == Pow2(rounds) && i <= rounds && p < n
    requires Reaches(Linked(ks, on, n, |ks|), rounds, i, reverse, p, q)
    ensures q == p || (on[p] && Chosen(ks, on, n, reverse, p)(q))
  {
    hide Pow2, Distance;
    var f := Linked(ks, on, n, |ks|);
    if i > 0 {
      if Reaches(f, rounds, i - 1, reverse, p, q) {
        ReachedIsChosen(ks, on, n, rounds, i - 1, reverse, p, q);
      } else {
        var h := Hop(f, rounds, i, reverse, p);
        ReachedIsChosen(ks, on, n, rounds, i - 1, reverse, h, q);
        SameKeysChain(ks, n, p, h, q);
      }
    }
  }

  lemma SameKeysChain(ks: seq<seq<Word>>, n: nat, p: nat, h: nat, q: nat)
    requires OfLength(ks, n) && p < n && h < n && SameRowKeys(ks, n, p, h) && (q < n && SameRowKeys(ks, n, h, q))
    ensures SameRowKeys(ks, n, p, q)
  {
  }

  /** With a selection the sums of a selected row are those of the selected rows of its group, for all values, exactly
      when every one of these rows is reached. */
  lemma ChosenSumsExactly(ks: seq<seq<Word>>, on: seq<bool>, n: nat, rounds: nat, reverse: bool, p: nat)
    requires OfLength(ks, n) && |on| == n == Pow2(rounds) && p < n && on[p]
    ensures var f, chosen := Linked(ks, on, n, |ks|), Chosen(ks, on, n, reverse, p);
      SameSums(Reached(f, rounds, rounds, reverse, p), chosen, n) <==>
      forall q: nat {:trigger chosen(q)} :: chosen(q) ==> Reaches(f, rounds, rounds, reverse, p, q)
  {
    hide Linked, Pow2;
    var f, chosen := Linked(ks, on, n, |ks|), Chosen(ks, on, n, reverse, p);
    var reached := Reached(f, rounds, rounds, reverse, p);
    SumsTellApart(reached, chosen, n);
    forall q: nat {:trigger reached(q)} {:trigger chosen(q)} | reached(q) ensures chosen(q) {
      ReachedIsChosen(ks, on, n, rounds, rounds, reverse, p, q);
    }
  }

  // ------------------------------------------------------------ the round loops

  lemma NoSelection(keys: seq<array<Joint<Word>>>, sel: array?<Joint<Word>>, on: seq<bool>, one: Joint<Word>, n: nat,
                    parties: nat, l: nat, k: nat)
    requires Operands(keys, sel, on, one, n, parties, l, k) && sel == null
    ensures on == AllRows(n)
  {
  }

  method SumRound(keys: seq<array<Joint<Word>>>, results: seq<array<Joint<int>>>, reverse: bool,
                  sel: array?<Joint<Word>>, ghost on: seq<bool>, one: Joint<Word>, n: nat, d: nat, parties: nat,
                  l: nat, k: nat, ms: RoundMasks)
    requires Operands(keys, sel, on, one, n, parties, l, k) && 1 <= d < n && GoodRoundMasks(ms, parties, l)
    requires Separate(results, n) && SharedNumberTable(Contents(results), parties, n)
    modifies results
    ensures SharedNumberTable(Contents(results), parties, n)
    ensures NumberTable(Contents(results), parties, n, Pow2(l)) ==
            RoundFirst(old(NumberTable(Contents(results), parties, n, Pow2(l))), |results|, n, d,
                       Pairs(Linked(KeyWords(keys, n, parties, l), on, n, |keys|), n, d), reverse, ModularSum(Pow2(l)))
  {
    hide SharedNumbers, Numbers, SharedOne, Selection, Linked, Table, SharesOf, LowBits, Pairs, GroupsControl;
    var bits, bs := GroupBits(keys, one, sel, on, n, d, parties, l, k, ms);
    var numbers := BitsToNumbers(bits, bs, parties, l);
    SumTable(results, n, d, numbers, bs, reverse, parties, Pow2(l), ms.mul);
  }

  /** Round `i` of the loop, with the distance as the source computes it. */
  method AdvanceSum(keys: seq<array<Joint<Word>>>, results: seq<array<Joint<int>>>, reverse: bool,
                    sel: array?<Joint<Word>>, ghost on: seq<bool>, one: Joint<Word>, ghost vs: seq<seq<int>>, n: nat,
                    rounds: nat, i: nat, parties: nat, l: nat, k: nat, ms: RoundMasks)
    requires Operands(keys, sel, on, one, n, parties, l, k) && GoodRoundMasks(ms, parties, l)
    requires n == Pow2(rounds) && 1 <= i <= rounds
    requires Separate(results, n) && SharedNumberTable(Contents(results), parties, n)
    requires Scanned(NumberTable(Contents(results), parties, n, Pow2(l)), vs,
                     Linked(KeyWords(keys, n, parties, l), on, n, |keys|), n, rounds, i - 1, reverse,
                     ModularSum(Pow2(l)))
    modifies results
    ensures SharedNumberTable(Contents(results), parties, n)
    ensures Scanned(NumberTable(Contents(results), parties, n, Pow2(l)), vs,
                    old(Linked(KeyWords(keys, n, parties, l), on, n, |keys|)), n, rounds, i, reverse,
                    ModularSum(Pow2(l)))
  {
    hide SharedNumberTable, GoodRoundMasks, Linked, Table, Distance, NumberTable, RoundFirst, Operands, Separate,
      Scanned, Pairs;
    KeysFit(keys, sel, on, one, n, parties, l, k);
    ghost var now := NumberTable(Contents(results), parties, n, Pow2(l));
    ghost var same := Linked(KeyWords(keys, n, parties, l), on, n, |keys|);
    var d := n / Pow2(if reverse then rounds - i + 1 else i);
    RoundDistance(n, rounds, i, reverse);
    SumRound(keys, results, reverse, sel, on, one, n, d, parties, l, k, ms);
    ScannedStep(now, NumberTable(Contents(results), parties, n, Pow2(l)), vs, same, n, rounds, i, reverse,
                ModularSum(Pow2(l)));
  }

  lemma NumbersInRange(ts: seq<seq<Joint<int>>>, parties: nat, n: nat, m: nat)
    requires m > 0 && SharedNumberTable(ts, parties, n)
    ensures var vs := NumberTable(ts, parties, n, m);
      forall c, q :: 0 <= c < |vs| && 0 <= q < |vs[c]| ==> 0 <= vs[c][q] < m
  {
  }

  method AggregateSum(keys: seq<array<Joint<Word>>>, values: seq<array<Joint<int>>>, results: seq<array<Joint<int>>>,
                      reverse: bool, sel: array?<Joint<Word>>, ghost on: seq<bool>, one: Joint<Word>, parties: nat,
                      l: nat, k: nat, masks: nat -> RoundMasks)
    requires |values| == |results| > 0 && Separate(results, results[0].Length)
    requires forall i :: 0 <= i < |values| ==> values[i].Length == results[0].Length
    requires forall i :: 0 <= i < |values| ==> values[i] == results[i] || values[i] !in results
    requires Operands(keys, sel, on, one, results[0].Length, parties, l, k)
    requires forall i :: GoodRoundMasks(masks(i), parties, l)
    requires SharedNumberTable(Contents(values), parties, results[0].Length)
    modifies results
    ensures Operands(keys, sel, on, one, results[0].Length, parties, l, k)
    ensures SharedNumberTable(Contents(results), parties, results[0].Length)
    ensures var n := results[0].Length;
      Scanned(NumberTable(Contents(results), parties, n, Pow2(l)),
              old(NumberTable(Contents(values), parties, results[0].Length, Pow2(l))),
              Linked(KeyWords(keys, n, parties, l), on, n, |keys|), n, Log2(n), Log2(n), reverse, ModularSum(Pow2(l)))
    ensures var n := results[0].Length;
      ReachedSums(NumberTable(Contents(results), parties, n, Pow2(l)),
                  old(NumberTable(Contents(values), parties, results[0].Length, Pow2(l))),
                  Linked(KeyWords(keys, n, parties, l), on, n, |keys|), n, Log2(n), reverse, Pow2(l))
    ensures var n, ks := results[0].Length, KeyWords(keys, results[0].Length, parties, l);
      sel == null && ContiguousKeys(ks, n) ==>
        GroupSums(NumberTable(Contents(results), parties, n, Pow2(l)),
                  old(NumberTable(Contents(values), parties, results[0].Length, Pow2(l))), ks, n, reverse, Pow2(l))
  {
    hide SharedNumberTable, GoodRoundMasks, Linked, Table, Distance, NumberTable, RoundFirst, Operands, Separate,
      Scanned, Pairs, GroupSums, ContiguousKeys, ReachedSums;
    KeysFit(keys, sel, on, one, results[0].Length, parties, l, k);
    var n, m := results[0].Length, Pow2(l);
    var rounds := Log2(n);
    ghost var vs := NumberTable(Contents(values), parties, n, m);
    NumbersInRange(Contents(values), parties, n, m);
    ghost var same := Linked(KeyWords(keys, n, parties, l), on, n, |keys|);
    CopyValues(values, results, n);
    ScannedStart(vs, same, n, rounds, reverse, ModularSum(m));
    for i := 1 to rounds + 1
      invariant Operands(keys, sel, on, one, n, parties, l, k)
      invariant SharedNumberTable(Contents(results), parties, n)
      invariant Scanned(NumberTable(Contents(results), parties, n, m), vs, same, n, rounds, i - 1, reverse,
                        ModularSum(m))
    {
      AdvanceSum(keys, results, reverse, sel, on, one, vs, n, rounds, i, parties, l, k, masks(i));
    }
    ScannedReaches(NumberTable(Contents(results), parties, n, m), vs, same, n, rounds, reverse, m);
    if sel == null && ContiguousKeys(KeyWords(keys, n, parties, l), n) {
      NoSelection(keys, sel, on, one, n, parties, l, k);
      ScannedSums(NumberTable(Contents(results), parties, n, m), vs, KeyWords(keys, n, parties, l), n, rounds,
                  reverse, m);
    }
  }

  method ExtremeRound(keys: seq<array<Joint<Word>>>, results: seq<array<Joint<Word>>>, reverse: bool, min: bool,
                      sel: array?<Joint<Word>>, ghost on: seq<bool>, one: Joint<Word>, n: nat, d: nat, parties: nat,
                      l: nat, k: nat, ms: RoundMasks)
    requires Operands(keys, sel, on, one, n, parties, l, k) && 1 <= d < n && GoodRoundMasks(ms, parties, l)
    requires ExtremeMasks(ms, k) && GroupsControl(|keys|, one, sel, ms, parties, l)
    requires Separate(results, n) && SharedTable(Contents(results), parties, n, l)
    modifies results
    ensures SharedTable(Contents(results), parties, n, l)
    ensures SignedTable(Contents(results), parties, n, l) ==
            RoundFirst(old(SignedTable(Contents(results), parties, n, l)), |results|, n, d,
                       old(Pairs(Linked(KeyWords(keys, n, parties, l), on, n, |keys|), n, d)), reverse, Extreme(min))
  {
    hide SharedVector, SignedValues, SharedOne, Selection, Linked, Table, LowBits, Controls, Pairs, Extreme,
      GoodRoundMasks, GroupsControl, ExtremeMasks;
    var bits, bs := GroupBits(keys, one, sel, on, n, d, parties, l, k, ms);
    SameLength(bits, bs, parties, l);
    ExtremeTable(results, n, d, bits, bs, reverse, min, parties, l, k, ms);
  }

  method AdvanceExtreme(keys: seq<array<Joint<Word>>>, results: seq<array<Joint<Word>>>, reverse: bool, min: bool,
                        sel: array?<Joint<Word>>, ghost on: seq<bool>, one: Joint<Word>, ghost vs: seq<seq<int>>,
                        n: nat, rounds: nat, i: nat, parties: nat, l: nat, k: nat, ms: RoundMasks)
    requires Operands(keys, sel, on, one, n, parties, l, k) && GoodRoundMasks(ms, parties, l)
    requires ExtremeMasks(ms, k) && GroupsControl(|keys|, one, sel, ms, parties, l)
    requires n == Pow2(rounds) && 1 <= i <= rounds
    requires Separate(results, n) && SharedTable(Contents(results), parties, n, l)
    requires Scanned(SignedTable(Contents(results), parties, n, l), vs,
                     Linked(KeyWords(keys, n, parties, l), on, n, |keys|), n, rounds, i - 1, reverse, Extreme(min))
    modifies results
    ensures SharedTable(Contents(results), parties, n, l)
    ensures Scanned(SignedTable(Contents(results), parties, n, l), vs,
                    old(Linked(KeyWords(keys, n, parties, l), on, n, |keys|)), n, rounds, i, reverse, Extreme(min))
  {
    hide SharedTable, GoodRoundMasks, Linked, Table, Distance, SignedTable, RoundFirst, Operands, Separate, Scanned,
      Pairs, Extreme, ExtremeMasks, GroupsControl;
    KeysFit(keys, sel, on, one, n, parties, l, k);
    ghost var now := SignedTable(Contents(results), parties, n, l);
    ghost var same := Linked(KeyWords(keys, n, parties, l), on, n, |keys|);
    var d := n / Pow2(if reverse then rounds - i + 1 else i);
    RoundDistance(n, rounds, i, reverse);
    ExtremeRound(keys, results, reverse, min, sel, on, one, n, d, parties, l, k, ms);
    ScannedStep(now, SignedTable(Contents(results), parties, n, l), vs, same, n, rounds, i, reverse, Extreme(min));
  }

  method AggregateExtreme(keys: seq<array<Joint<Word>>>, values: seq<array<Joint<Word>>>,
                          results: seq<array<Joint<Word>>>, reverse: bool, min: bool, sel: array?<Joint<Word>>,
                          ghost on: seq<bool>, one: Joint<Word>, parties: nat, l: nat, k: nat, masks: nat -> RoundMasks)
    requires |values| == |results| > 0 && Separate(results, results[0].Length)
    requires forall i :: 0 <= i < |values| ==> values[i].Length == results[0].Length
    requires forall i :: 0 <= i < |values| ==> values[i] == results[i] || values[i] !in results
    requires sel !in results && forall i :: 0 <= i < |keys| ==> keys[i] !in results
    requires Operands(keys, sel, on, one, results[0].Length, parties, l, k)
    requires forall i :: GoodRoundMasks(masks(i), parties, l) && ExtremeMasks(masks(i), k)
    requires forall i :: GroupsControl(|keys|, one, sel, masks(i), parties, l)
    requires SharedTable(Contents(values), parties, results[0].Length, l)
    modifies results
    ensures Operands(keys, sel, on, one, results[0].Length, parties, l, k)
    ensures SharedTable(Contents(results), parties, results[0].Length, l)
    ensures var n := results[0].Length;
      Scanned(SignedTable(Contents(results), parties, n, l),
              old(SignedTable(Contents(values), parties, results[0].Length, l)),
              Linked(KeyWords(keys, n, parties, l), on, n, |keys|), n, Log2(n), Log2(n), reverse, Extreme(min))
    ensures var n := results[0].Length;
      ReachedExtremes(SignedTable(Contents(results), parties, n, l),
                      old(SignedTable(Contents(values), parties, results[0].Length, l)),
                      Linked(KeyWords(keys, n, parties, l), on, n, |keys|), n, Log2(n), reverse, min)
    ensures var n, ks := results[0].Length, KeyWords(keys, results[0].Length, parties, l);
      sel == null && ContiguousKeys(ks, n) ==>
        GroupExtremes(SignedTable(Contents(results), parties, n, l),
                      old(SignedTable(Contents(values), parties, results[0].Length, l)), ks, n, reverse, min)
  {
    hide SharedTable, GoodRoundMasks, Linked, Table, Distance, SignedTable, RoundFirst, Operands, Separate,
      Scanned, Pairs, Extreme, ExtremeMasks, GroupsControl, GroupExtremes, ContiguousKeys, ReachedExtremes;
    KeysFit(keys, sel, on, one, results[0].Length, parties, l, k);
    var n := results[0].Length;
    var rounds := Log2(n);
    ghost var vs := SignedTable(Contents(values), parties, n, l);
    ghost var same := Linked(KeyWords(keys, n, parties, l), on, n, |keys|);
    CopyValues(values, results, n);
    ScannedStart(vs, same, n, rounds, reverse, Extreme(min));
    for i := 1 to rounds + 1
      invariant Operands(keys, sel, on, one, n, parties, l, k)
      invariant forall r :: GroupsControl(|keys|, one, sel, masks(r), parties, l)
      invariant SharedTable(Contents(results), parties, n, l)
      invariant Scanned(SignedTable(Contents(results), parties, n, l), vs, same, n, rounds, i - 1, reverse,
                        Extreme(min))
    {
      AdvanceExtreme(keys, results, reverse, min, sel, on, one, vs, n, rounds, i, parties, l, k, masks(i));
    }
    ScannedHops(SignedTable(Contents(results), parties, n, l), vs, same, n, rounds, reverse, min);
    if sel == null && ContiguousKeys(KeyWords(keys, n, parties, l), n) {
      NoSelection(keys, sel, on, one, n, parties, l, k);
      ScannedExtremes(SignedTable(Contents(results), parties, n, l), vs, KeyWords(keys, n, parties, l), n, rounds,
                      reverse, min);
    }
  }
}
