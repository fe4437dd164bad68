/** The whole of `bitonic_sort`: every step permutes all columns alike, the permutation is the one of the sorting
    network on row numbers, and therefore the table ends up in lexicographic order. */
module BitonicSort {
  import opened Words
  import opened Permutations
  import opened Sharing
  import opened Boolean
  import opened Arithmetic
  import opened RippleCarry
  import opened Bitonic
  import opened SortViews
  import opened Rows
  import opened Tables
  import opened Sorting

  lemma StepBoxes(n: nat, rounds: nat, e: nat)
    requires n == Pow2(rounds) && e < rounds
    ensures Boxes(n, Pow2(e)) && IsSize(n, rounds)
  {
    BoxesFit(n, rounds, e);
  }

  /** The opened table of a state: the key words, the words of the B-shared and the numbers of the A-shared data. */
  datatype Opened = Opened(keys: seq<seq<Word>>, b: seq<seq<Word>>, a: seq<seq<int>>)

  predicate Rectangular(t: Opened, n: nat, l: nat) {
    && OfLength(t.keys, n) && OfLength(t.b, n) && OfLength(t.a, n)
    && forall c, p :: 0 <= c < |t.keys| && 0 <= p < n ==> |t.keys[c][p]| == l
  }

  ghost function OpenTable(keys: seq<seq<Joint<Word>>>, dataA: seq<seq<Joint<int>>>, dataB: seq<seq<Joint<Word>>>,
                     n: nat, l: nat): (t: Opened)
    requires SharedColumns(keys, dataA, dataB, n, l)
    ensures Rectangular(t, n, l) && |t.keys| == |keys|
  {
    Opened(SecretTable(keys, 3, n, l), SecretTable(dataB, 3, n, l), NumberTable(dataA, 3, n, Pow2(l)))
  }

  function PermuteTable(t: Opened, n: nat, l: nat, perm: seq<nat>): (r: Opened)
    requires Rectangular(t, n, l) && Within(perm, n)
    ensures Rectangular(r, |perm|, l) && |r.keys| == |t.keys|
  {
    Opened(PermuteAll(t.keys, n, perm), PermuteAll(t.b, n, perm), PermuteAll(t.a, n, perm))
  }

  /** The order of the rows of an opened table. */
  ghost function Order(t: Opened, n: nat, l: nat, desc: seq<bool>): (gt: (nat, nat) -> bool)
    requires l > 0 && Rectangular(t, n, l) && |desc| == |t.keys|
  {
    RowOrder(Values(t.keys, l), desc)
  }

  /** Row numbers of the permuted table compare as the original rows do. */
  lemma PermutedOrder(t: Opened, n: nat, l: nat, desc: seq<bool>, perm: seq<nat>, p: nat, q: nat)
    requires l > 0 && Rectangular(t, n, l) && |desc| == |t.keys| && Within(perm, n) && |perm| == n && p < n && q < n
    ensures Order(PermuteTable(t, n, l, perm), n, l, desc)(p, q) == Order(t, n, l, desc)(perm[p], perm[q])
  {
    hide After, ToInt;
    var vs := Values(t.keys, l);
    var ps := Values(PermuteAll(t.keys, n, perm), l);
    forall c | 0 <= c < |vs| ensures ps[c] == Permuted(vs[c], perm) {}
    assert ps == PermuteAll(vs, n, perm);
    PermutedRow(vs, n, perm, p);
    PermutedRow(vs, n, perm, q);
  }

  /** What one step of the sort does to the permutation so far is one step of the network. */
  lemma PicksAreStep(n: nat, h: nat, flip: bool, bs: seq<bool>, perm: seq<nat>, gt: (nat, nat) -> bool)
    requires Boxes(n, h) && |bs| == n / 2 && |perm| == n
    requires forall i {:trigger bs[i]} :: 0 <= i < n / 2 ==>
      bs[i] == gt(perm[LeftAt(i, n, h, flip)], perm[RightAt(i, n, h, flip)])
    ensures Permuted(perm, Picks(n, h, flip, bs)) == Step(perm, h, flip, gt)
  {
    forall p | 0 <= p < n ensures perm[PickAt(p, n, h, flip, bs)] == Exchanged(perm, p, h, flip, gt) {
      PickIsExchange(n, h, flip, bs, perm, gt, p);
    }
  }

  lemma PickIsExchange(n: nat, h: nat, flip: bool, bs: seq<bool>, perm: seq<nat>, gt: (nat, nat) -> bool, p: nat)
    requires Boxes(n, h) && |bs| == n / 2 && |perm| == n && p < n
    requires forall i {:trigger bs[i]} :: 0 <= i < n / 2 ==>
      bs[i] == gt(perm[LeftAt(i, n, h, flip)], perm[RightAt(i, n, h, flip)])
    ensures perm[PickAt(p, n, h, flip, bs)] == Exchanged(perm, p, h, flip, gt)
  {
    hide IsLeft, PairIndex, Partner, LeftView, RightView;
    PartnerInBox(p, h, flip);
    PartnerSide(p, h, flip, n);
    ViewsCover(n, h, flip, p);
    var i := PairOf(p, n, h, flip);
    ViewsPairPartners(n, h, flip, i);
    assert bs[i] == gt(perm[LeftAt(i, n, h, flip)], perm[RightAt(i, n, h, flip)]);
  }

  lemma StepKeepsPermutation(perm: seq<nat>, n: nat, h: nat, flip: bool, gt: (nat, nat) -> bool)
    requires Boxes(n, h) && IsPermutation(perm, n)
    ensures IsPermutation(Step(perm, h, flip, gt), n)
  {
    hide Step;
    StepDistinct(perm, h, flip, gt);
    var r := Step(perm, h, flip, gt);
    forall p | 0 <= p < |r| ensures r[p] < n { assert r[p] in perm; }
  }

  /** The state after some steps: the original table under the network's permutation of row numbers. */
  ghost predicate Reached(now: Opened, t: Opened, n: nat, l: nat, perm: seq<nat>) {
    Rectangular(t, n, l) && IsPermutation(perm, n) && now == PermuteTable(t, n, l, perm)
  }

  lemma StepReached(now: Opened, next: Opened, t: Opened, n: nat, l: nat, perm: seq<nat>, h: nat, flip: bool,
                    desc: seq<bool>, bs: seq<bool>)
    requires l > 0 && Boxes(n, h) && |bs| == n / 2 && Reached(now, t, n, l, perm) && |desc| == |t.keys|
    requires Rectangular(now, n, l) && |now.keys| == |t.keys|
    requires PairOrder(Values(now.keys, l), desc, n, h, flip, bs)
    requires next == PermuteTable(now, n, l, Picks(n, h, flip, bs))
    ensures Reached(next, t, n, l, Step(perm, h, flip, Order(t, n, l, desc)))
  {
    hide PickAt, Step, RowOrder;
    var gt := Order(t, n, l, desc);
    var picks := Picks(n, h, flip, bs);
    forall i {:trigger bs[i]} | 0 <= i < n / 2
      ensures bs[i] == gt(perm[LeftAt(i, n, h, flip)], perm[RightAt(i, n, h, flip)])
    {
      PermutedOrder(t, n, l, desc, perm, LeftAt(i, n, h, flip), RightAt(i, n, h, flip));
    }
    PicksAreStep(n, h, flip, bs, perm, gt);
    PermuteAllTwice(t.keys, n, perm, picks);
    PermuteAllTwice(t.b, n, perm, picks);
    PermuteAllTwice(t.a, n, perm, picks);
    StepKeepsPermutation(perm, n, h, flip, gt);
  }

  /** No row comes after a later one. */
  ghost predicate Sorted(t: Opened, n: nat, l: nat, desc: seq<bool>)
    requires l > 0 && Rectangular(t, n, l) && |desc| == |t.keys|
  {
    forall p: nat, q: nat :: p < q < n ==> !Order(t, n, l, desc)(p, q)
  }

  lemma NetworkSortsTable(now: Opened, t: Opened, n: nat, l: nat, rounds: nat, desc: seq<bool>)
    requires l > 0 && IsSize(n, rounds) && Rectangular(t, n, l) && |desc| == |t.keys|
    requires Reached(now, t, n, l, Network(Identity(n), rounds, rounds, Order(t, n, l, desc)))
    ensures Rectangular(now, n, l) && |now.keys| == |t.keys| && Sorted(now, n, l, desc)
    ensures multiset(TableRows(now.keys, now.b, now.a, n)) == multiset(TableRows(t.keys, t.b, t.a, n))
  {
    hide RowOrder, Network, Step;
    var gt := Order(t, n, l, desc);
    RowOrderIsStrict(Values(t.keys, l), desc);
    NetworkSorts(Identity(n), rounds, gt);
    var perm := Network(Identity(n), rounds, rounds, gt);
    forall p: nat, q: nat | p < q < n ensures !Order(now, n, l, desc)(p, q) {
      PermutedOrder(t, n, l, desc, perm, p, q);
      assert !gt(perm[p], perm[q]);
    }
    RowsKept(t.keys, t.b, t.a, n, perm);
  }

  // ------------------------------------------------------------ in plain terms

  predicate Earlier(p: int, q: int, n: nat) {
    0 <= p < q < n
  }

  /** The opened keys are in order: of two rows, either all keys are equal, or the earlier row has the smaller value of
      the first key that differs when that key is ascending, and the greater value when it is descending. */
  ghost predicate KeysInOrder(keys: seq<seq<Joint<Word>>>, desc: seq<bool>, n: nat, l: nat)
    requires l > 0 && |desc| == |keys| && SharedTable(keys, 3, n, l)
  {
    forall p, q {:trigger Earlier(p, q, n)} :: Earlier(p, q, n) ==>
      || (forall c :: 0 <= c < |keys| ==> ToInt(SecretB(keys[c][p], l)) == ToInt(SecretB(keys[c][q], l)))
      || exists d {:trigger desc[d]} :: 0 <= d < |keys|
           && (forall c :: 0 <= c < d ==> ToInt(SecretB(keys[c][p], l)) == ToInt(SecretB(keys[c][q], l)))
           && if desc[d] then ToInt(SecretB(keys[d][p], l)) > ToInt(SecretB(keys[d][q], l))
              else ToInt(SecretB(keys[d][p], l)) < ToInt(SecretB(keys[d][q], l))
  }

  lemma SortedMeans(keys: seq<seq<Joint<Word>>>, t: Opened, n: nat, l: nat, desc: seq<bool>)
    requires l > 0 && SharedTable(keys, 3, n, l) && t.keys == SecretTable(keys, 3, n, l)
    requires Rectangular(t, n, l) && |desc| == |keys| && Sorted(t, n, l, desc)
    ensures KeysInOrder(keys, desc, n, l)
  {
    hide After, ToInt, SecretB, Width;
    var vs := Values(t.keys, l);
    forall p, q {:trigger Earlier(p, q, n)} | Earlier(p, q, n)
      ensures || (forall c :: 0 <= c < |keys| ==> ToInt(SecretB(keys[c][p], l)) == ToInt(SecretB(keys[c][q], l)))
              || exists d {:trigger desc[d]} :: 0 <= d < |keys|
                   && (forall c :: 0 <= c < d ==> ToInt(SecretB(keys[c][p], l)) == ToInt(SecretB(keys[c][q], l)))
                   && if desc[d] then ToInt(SecretB(keys[d][p], l)) > ToInt(SecretB(keys[d][q], l))
                      else ToInt(SecretB(keys[d][p], l)) < ToInt(SecretB(keys[d][q], l))
    {
      var a, b := Row(vs, p), Row(vs, q);
      forall c | 0 <= c < |keys|
        ensures a[c] == ToInt(SecretB(keys[c][p], l)) && b[c] == ToInt(SecretB(keys[c][q], l))
      {
        assert t.keys[c] == Secrets(keys[c], 3, l);
      }
      assert !Order(t, n, l, desc)(p, q);
      NotAfterMeans(a, b, desc);
    }
  }

  lemma SortedContents(keys: seq<seq<Joint<Word>>>, dataA: seq<seq<Joint<int>>>, dataB: seq<seq<Joint<Word>>>, n: nat,
                       l: nat, desc: seq<bool>)
    requires l > 0 && SharedColumns(keys, dataA, dataB, n, l) && |desc| == |keys|
    requires Sorted(OpenTable(keys, dataA, dataB, n, l), n, l, desc)
    ensures SharedTable(keys, 3, n, l) && KeysInOrder(keys, desc, n, l)
  {
    hide Sorted, KeysInOrder, SecretTable;
    SortedMeans(keys, OpenTable(keys, dataA, dataB, n, l), n, l, desc);
  }

  /** One permutation takes all opened columns to those after it. */
  ghost predicate RowsMoved(keys: seq<seq<Joint<Word>>>, dataA: seq<seq<Joint<int>>>, dataB: seq<seq<Joint<Word>>>,
                            keys': seq<seq<Joint<Word>>>, dataA': seq<seq<Joint<int>>>,
                            dataB': seq<seq<Joint<Word>>>, n: nat, l: nat)
    requires SharedColumns(keys, dataA, dataB, n, l) && SharedColumns(keys', dataA', dataB', n, l)
    requires |keys'| == |keys| && |dataA'| == |dataA| && |dataB'| == |dataB|
  {
    exists perm: seq<nat> {:trigger IsPermutation(perm, n)} :: IsPermutation(perm, n)
      && (forall c, p :: 0 <= c < |keys| && 0 <= p < n ==> SecretB(keys'[c][p], l) == SecretB(keys[c][perm[p]], l))
      && (forall c, p :: 0 <= c < |dataB| && 0 <= p < n ==> SecretB(dataB'[c][p], l) == SecretB(dataB[c][perm[p]], l))
      && (forall c, p :: 0 <= c < |dataA| && 0 <= p < n ==>
            SecretA(Pow2(l), dataA'[c][p]) == SecretA(Pow2(l), dataA[c][perm[p]]))
  }

  lemma ReachedMeans(keys: seq<seq<Joint<Word>>>, dataA: seq<seq<Joint<int>>>, dataB: seq<seq<Joint<Word>>>,
                     keys': seq<seq<Joint<Word>>>, dataA': seq<seq<Joint<int>>>, dataB': seq<seq<Joint<Word>>>,
                     n: nat, l: nat, perm: seq<nat>)
    requires SharedColumns(keys, dataA, dataB, n, l) && SharedColumns(keys', dataA', dataB', n, l)
    requires |keys'| == |keys| && |dataA'| == |dataA| && |dataB'| == |dataB|
    requires Reached(OpenTable(keys', dataA', dataB', n, l), OpenTable(keys, dataA, dataB, n, l), n, l, perm)
    ensures RowsMoved(keys, dataA, dataB, keys', dataA', dataB', n, l)
  {
    hide SecretB, SecretA;
    var t, r := OpenTable(keys, dataA, dataB, n, l), OpenTable(keys', dataA', dataB', n, l);
    forall c, p | 0 <= c < |keys| && 0 <= p < n
      ensures SecretB(keys'[c][p], l) == SecretB(keys[c][perm[p]], l)
    {
      assert r.keys[c] == Permuted(t.keys[c], perm) && t.keys[c] == Secrets(keys[c], 3, l);
      assert r.keys[c] == Secrets(keys'[c], 3, l);
    }
    forall c, p | 0 <= c < |dataB| && 0 <= p < n
      ensures SecretB(dataB'[c][p], l) == SecretB(dataB[c][perm[p]], l)
    {
      assert r.b[c] == Permuted(t.b[c], perm) && t.b[c] == Secrets(dataB[c], 3, l);
      assert r.b[c] == Secrets(dataB'[c], 3, l);
    }
    forall c, p | 0 <= c < |dataA| && 0 <= p < n
      ensures SecretA(Pow2(l), dataA'[c][p]) == SecretA(Pow2(l), dataA[c][perm[p]])
    {
      assert r.a[c] == Permuted(t.a[c], perm) && t.a[c] == Numbers(dataA[c], 3, Pow2(l));
      assert r.a[c] == Numbers(dataA'[c], 3, Pow2(l));
    }
  }

  lemma StartReached(t: Opened, n: nat, l: nat)
    requires Rectangular(t, n, l)
    ensures Reached(t, t, n, l, Identity(n))
  {
    PermuteNone(t.keys, n);
    PermuteNone(t.b, n);
    PermuteNone(t.a, n);
  }

  ghost function Now(keys: seq<array<Joint<Word>>>, dataA: seq<array<Joint<int>>>, dataB: seq<array<Joint<Word>>>,
                     n: nat, l: nat): (t: Opened)
    requires SharedColumns(Contents(keys), Contents(dataA), Contents(dataB), n, l)
    reads keys, dataA, dataB
    ensures Rectangular(t, n, l) && |t.keys| == |keys|
  {
    OpenTable(Contents(keys), Contents(dataA), Contents(dataB), n, l)
  }

  /** One step, seen on the opened table. */
  method Advance(keys: seq<array<Joint<Word>>>, dataA: seq<array<Joint<int>>>, dataB: seq<array<Joint<Word>>>,
                 desc: seq<bool>, n: nat, h: nat, flip: bool, l: nat, k: nat, ms: StepMasks,
                 ghost t: Opened, ghost perm: seq<nat>)
    requires k >= 2 && l == Pow2(k) && |keys| == |desc| == |t.keys| > 0 && Boxes(n, h)
    requires Separate(keys + dataB, n) && Separate(dataA, n) && GoodStepMasks(ms, l, k)
    requires SharedColumns(Contents(keys), Contents(dataA), Contents(dataB), n, l)
    requires Rectangular(t, n, l) && Reached(Now(keys, dataA, dataB, n, l), t, n, l, perm)
    modifies keys, dataA, dataB
    ensures SharedColumns(Contents(keys), Contents(dataA), Contents(dataB), n, l)
    ensures Reached(Now(keys, dataA, dataB, n, l), t, n, l, Step(perm, h, flip, Order(t, n, l, desc)))
  {
    hide Reached, Separate, GoodStepMasks, SharedTable, SharedNumberTable, PairOrder, Picks, Step, Order;
    ghost var before := Now(keys, dataA, dataB, n, l);
    ghost var bs := SortStep(keys, dataA, dataB, desc, n, h, flip, l, k, ms);
    StepReached(before, Now(keys, dataA, dataB, n, l), t, n, l, perm, h, flip, desc, bs);
  }

  /** `masks(i)(j)` supplies the masks of step `j` of round `i`. */
  method Sort(keys: seq<array<Joint<Word>>>, dataA: seq<array<Joint<int>>>, dataB: seq<array<Joint<Word>>>,
              desc: seq<bool>, l: nat, k: nat, masks: nat -> nat -> StepMasks)
    requires k >= 2 && l == Pow2(k) && |keys| == |desc| > 0 && IsPowerOfTwo(keys[0].Length)
    requires Separate(keys + dataB, keys[0].Length) && Separate(dataA, keys[0].Length)
    requires SharedColumns(Contents(keys), Contents(dataA), Contents(dataB), keys[0].Length, l)
    requires forall i, j :: GoodStepMasks(masks(i)(j), l, k)
    modifies keys, dataA, dataB
    ensures SharedColumns(Contents(keys), Contents(dataA), Contents(dataB), keys[0].Length, l)
    ensures var n := keys[0].Length;
      var t := old(Now(keys, dataA, dataB, keys[0].Length, l));
      var r := Now(keys, dataA, dataB, n, l);
      && Reached(r, t, n, l, Network(Identity(n), Log2(n), Log2(n), Order(t, n, l, desc)))
      && Sorted(r, n, l, desc)
      && multiset(TableRows(r.keys, r.b, r.a, n)) == multiset(TableRows(t.keys, t.b, t.a, n))
    ensures KeysInOrder(Contents(keys), desc, keys[0].Length, l)
    ensures RowsMoved(old(Contents(keys)), old(Contents(dataA)), old(Contents(dataB)),
                      Contents(keys), Contents(dataA), Contents(dataB), keys[0].Length, l)
  {
    hide Reached, Separate, GoodStepMasks, SharedTable, SharedNumberTable, Order, Step, OpenTable, Sorted,
      KeysInOrder, RowsMoved, SharedColumns;
    var n := keys[0].Length;
    var rounds := Log2(n);
    ghost var t := Now(keys, dataA, dataB, n, l);
    ghost var gt := Order(t, n, l, desc);
    StartReached(t, n, l);
    for i := 0 to rounds
      invariant SharedColumns(Contents(keys), Contents(dataA), Contents(dataB), n, l)
      invariant Reached(Now(keys, dataA, dataB, n, l), t, n, l, Network(Identity(n), rounds, i, gt))
    {
      ghost var start := Network(Identity(n), rounds, i, gt);
      for j := 0 to i + 1
        invariant SharedColumns(Contents(keys), Contents(dataA), Contents(dataB), n, l)
        invariant Reached(Now(keys, dataA, dataB, n, l), t, n, l, Merge(start, rounds, i, j, gt))
      {
        StepBoxes(n, rounds, i - j);
        Advance(keys, dataA, dataB, desc, n, Pow2(i - j), j == 0, l, k, masks(i)(j), t, Merge(start, rounds, i, j, gt));
      }
    }
    NetworkSortsTable(Now(keys, dataA, dataB, n, l), t, n, l, rounds, desc);
    SortedContents(Contents(keys), Contents(dataA), Contents(dataB), n, l, desc);
    ReachedMeans(old(Contents(keys)), old(Contents(dataA)), old(Contents(dataB)), Contents(keys), Contents(dataA),
                 Contents(dataB), n, l, Network(Identity(n), rounds, rounds, gt));
  }
}
