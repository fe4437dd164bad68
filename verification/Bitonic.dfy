/** The sorting network of `bitonic_sort`, as a function on sequences, and the proof that it sorts.

    The proof goes by the 0-1 principle: the network commutes with every monotone map into booleans, on booleans
    each round merges sorted blocks, and an unsorted pair in the result of the real comparison would show up in the
    result of the network on booleans. */
module Bitonic {
  import opened Arith
  import opened Words
  import opened Permutations

  /** The position that is compared with `p` in a step with half boxes of size `h`. */
  function Partner(p: nat, h: nat, flip: bool): (q: int)
    requires h > 0
  {
    var o := p % (2 * h);
    if flip then p - o + (2 * h - 1 - o) else if o < h then p + h else p - h
  }

  predicate IsLeft(p: nat, h: nat)
    requires h > 0
  {
    p % (2 * h) < h
  }

  /** The partner lies in the same box, on the other side, and its partner is `p`. */
  lemma PartnerInBox(p: nat, h: nat, flip: bool)
    requires h > 0
    ensures var q, b := Partner(p, h, flip), p - p % (2 * h);
      && 0 <= b <= p && b % (2 * h) == 0 && b <= q < b + 2 * h
      && q % (2 * h) == q - b && IsLeft(q, h) != IsLeft(p, h) && Partner(q, h, flip) == p && q != p
  {
    var o := p % (2 * h);
    DivMod(p, 2 * h);
    var c := p / (2 * h);
    if c < 0 { MulMono(c, -1, 2 * h); }
    MulMono(0, c, 2 * h);
    DivModUnique(p - o, 2 * h, c, 0);
    var q := Partner(p, h, flip);
    DivModUnique(q, 2 * h, c, q - (p - o));
  }

  /** Positions on one side of a box boundary have their partners there too. */
  lemma PartnerSide(p: nat, h: nat, flip: bool, b: nat)
    requires h > 0 && b % (2 * h) == 0
    ensures p < b <==> Partner(p, h, flip) < b
  {
    PartnerInBox(p, h, flip);
    BoxSide(p, b, 2 * h);
  }

  /** One compare-and-swap step over all boxes. */
  function Step<T>(s: seq<T>, h: nat, flip: bool, gt: (T, T) -> bool): (r: seq<T>)
    requires h > 0 && |s| % (2 * h) == 0
    ensures |r| == |s|
    ensures forall p {:trigger r[p]} :: 0 <= p < |s| ==> r[p] == Exchanged(s, p, h, flip, gt)
  {
    seq(|s|, p requires 0 <= p < |s| => Exchanged(s, p, h, flip, gt))
  }

  /** What ends up at position `p`: the left of the two positions gets the smaller element. */
  function Exchanged<T>(s: seq<T>, p: nat, h: nat, flip: bool, gt: (T, T) -> bool): (e: T)
    requires h > 0 && |s| % (2 * h) == 0 && p < |s|
  {
    PartnerInBox(p, h, flip);
    PartnerSide(p, h, flip, |s|);
    var q := Partner(p, h, flip);
    var swap := if IsLeft(p, h) then gt(s[p], s[q]) else gt(s[q], s[p]);
    if swap then s[q] else s[p]
  }

  predicate IsSize(n: nat, rounds: nat) {
    n == Pow2(rounds)
  }

  /** The half box sizes of a round divide the number of rows. */
  lemma BoxesFit(n: nat, rounds: nat, e: nat)
    requires IsSize(n, rounds) && e < rounds
    ensures n % (2 * Pow2(e)) == 0
  {
    Pow2Divides(e + 1, rounds);
    assert Pow2(e + 1) == 2 * Pow2(e);
  }

  /** The first `j` steps of round `i`: the first one compares mirrored positions, the others straight ones. */
  function Merge<T>(s: seq<T>, rounds: nat, i: nat, j: nat, gt: (T, T) -> bool): (r: seq<T>)
    requires IsSize(|s|, rounds) && i < rounds && j <= i + 1
    ensures |r| == |s|
  {
    if j == 0 then s else
      BoxesFit(|s|, rounds, i - (j - 1));
      Step(Merge(s, rounds, i, j - 1, gt), Pow2(i - (j - 1)), j == 1, gt)
  }

  /** The first `i` rounds. */
  function Network<T>(s: seq<T>, rounds: nat, i: nat, gt: (T, T) -> bool): (r: seq<T>)
    requires IsSize(|s|, rounds) && i <= rounds
    ensures |r| == |s|
  {
    if i == 0 then s else Merge(Network(s, rounds, i - 1, gt), rounds, i - 1, i, gt)
  }

  // ------------------------------------------------------- the 0-1 principle

  /** `gt` is the strict part of a total preorder. */
  ghost predicate StrictOrder<T(!new)>(gt: (T, T) -> bool) {
    && (forall x, y :: gt(x, y) ==> !gt(y, x))
    && (forall x, y, z {:trigger gt(x, y), gt(y, z)} :: !gt(x, y) && !gt(y, z) ==> !gt(x, z))
  }

  function Above<T>(s: seq<T>, t: T, gt: (T, T) -> bool): (w: seq<bool>)
    ensures |w| == |s| && forall p :: 0 <= p < |s| ==> w[p] == gt(s[p], t)
  {
    seq(|s|, p requires 0 <= p < |s| => gt(s[p], t))
  }

  function BitGt(): (f: (bool, bool) -> bool) {
    (a: bool, b: bool) => a && !b
  }

  lemma StepAbove<T(!new)>(s: seq<T>, t: T, h: nat, flip: bool, gt: (T, T) -> bool)
    requires h > 0 && |s| % (2 * h) == 0 && StrictOrder(gt)
    ensures Above(Step(s, h, flip, gt), t, gt) == Step(Above(s, t, gt), h, flip, BitGt())
  {
    var a, b := Above(Step(s, h, flip, gt), t, gt), Step(Above(s, t, gt), h, flip, BitGt());
    forall p | 0 <= p < |s| ensures a[p] == b[p] {
      PartnerInBox(p, h, flip);
      PartnerSide(p, h, flip, |s|);
      var q := Partner(p, h, flip);
      var x, y := if IsLeft(p, h) then s[p] else s[q], if IsLeft(p, h) then s[q] else s[p];
      assert !gt(x, y) && !gt(y, t) ==> !gt(x, t);
      assert gt(x, y) ==> !gt(y, x);
      assert !gt(y, x) && !gt(x, t) ==> !gt(y, t);
    }
  }

  lemma {:induction false} MergeAbove<T(!new)>(s: seq<T>, t: T, rounds: nat, i: nat, j: nat, gt: (T, T) -> bool)
    requires IsSize(|s|, rounds) && i < rounds && j <= i + 1 && StrictOrder(gt)
    ensures Above(Merge(s, rounds, i, j, gt), t, gt) == Merge(Above(s, t, gt), rounds, i, j, BitGt())
  {
    if j > 0 {
      MergeAbove(s, t, rounds, i, j - 1, gt);
      BoxesFit(|s|, rounds, i - (j - 1));
      StepAbove(Merge(s, rounds, i, j - 1, gt), t, Pow2(i - (j - 1)), j == 1, gt);
    }
  }

  lemma {:induction false} NetworkAbove<T(!new)>(s: seq<T>, t: T, rounds: nat, i: nat, gt: (T, T) -> bool)
    requires IsSize(|s|, rounds) && i <= rounds && StrictOrder(gt)
    ensures Above(Network(s, rounds, i, gt), t, gt) == Network(Above(s, t, gt), rounds, i, BitGt())
  {
    if i > 0 {
      NetworkAbove(s, t, rounds, i - 1, gt);
      MergeAbove(Network(s, rounds, i - 1, gt), t, rounds, i - 1, i, gt);
    }
  }

  // --------------------------------------------------- the network on booleans

  /** `w[b..e]` is a run of false followed by a run of true. */
  predicate SortedBits(w: seq<bool>, b: nat, e: nat)
    requires b <= e <= |w|
  {
    forall p, q :: b <= p <= q < e && w[p] ==> w[q]
  }

  /** `w[b..e]` is constant except for one run of the opposite value. */
  predicate OneRun(w: seq<bool>, b: nat, e: nat, lo: nat, hi: nat, v: bool)
    requires b <= e <= |w|
  {
    b <= lo <= hi <= e && forall p :: b <= p < e ==> w[p] == (v != (lo <= p < hi))
  }

  ghost predicate BitonicBits(w: seq<bool>, b: nat, e: nat)
    requires b <= e <= |w|
  {
    exists lo: nat, hi: nat, v :: OneRun(w, b, e, lo, hi, v)
  }

  /** In `w[b..e]` everything before the box `o..o+h` is false, everything after it is true, and the box itself is
      bitonic. */
  ghost predicate AlmostSorted(w: seq<bool>, b: nat, e: nat, h: nat, o: nat)
    requires e <= |w|
  {
    && b <= o && o + h <= e && h > 0 && o % h == 0
    && (forall p :: b <= p < o ==> !w[p])
    && (forall p :: o + h <= p < e ==> w[p])
    && BitonicBits(w, o, o + h)
  }

  /** Where the run of true begins in a sorted block. */
  lemma {:induction false} Threshold(w: seq<bool>, b: nat, e: nat) returns (t: nat)
    requires b <= e <= |w| && SortedBits(w, b, e)
    ensures b <= t <= e && forall p :: b <= p < e ==> w[p] == (p >= t)
    decreases e - b
  {
    if b == e || w[b] {
      t := b;
    } else {
      t := Threshold(w, b + 1, e);
    }
  }

  /** In a box of size `2 * h` at `o` a step takes the conjunction to the left and the disjunction to the right. */
  lemma BoxStep(w: seq<bool>, h: nat, flip: bool, o: nat, p: nat)
    requires h > 0 && |w| % (2 * h) == 0 && o % (2 * h) == 0 && o + 2 * h <= |w| && o <= p < o + 2 * h
    ensures var q := if flip then 2 * o + 2 * h - 1 - p else if p < o + h then p + h else p - h;
      Step(w, h, flip, BitGt())[p] == if p < o + h then w[p] && w[q] else w[q] || w[p]
  {
    hide Step;
    BoxOffset(p, o, 2 * h);
  }

  lemma BoxOffset(p: nat, o: nat, size: nat)
    requires size > 0 && o % size == 0 && o <= p < o + size
    ensures p % size == p - o
  {
    DivMod(o, size);
    DivModUnique(p, size, o / size, p - o);
  }

  /** In `r` the left half of a box at `o` holds the conjunctions, the right half the disjunctions, of `w`. */
  ghost predicate Halves(w: seq<bool>, r: seq<bool>, o: nat, h: nat) {
    && |r| == |w| && o + 2 * h <= |w|
    && (forall p {:trigger r[p]} :: o <= p < o + h ==> r[p] == (w[p] && w[p + h]))
    && (forall p {:trigger r[p]} :: o + h <= p < o + 2 * h ==> r[p] == (w[p - h] || w[p]))
  }

  lemma StepHalves(w: seq<bool>, h: nat, o: nat)
    requires h > 0 && |w| % (2 * h) == 0 && o % (2 * h) == 0 && o + 2 * h <= |w|
    ensures Halves(w, Step(w, h, false, BitGt()), o, h)
  {
    hide Step, Exchanged;
    var r := Step(w, h, false, BitGt());
    forall p {:trigger r[p]} | o <= p < o + 2 * h
      ensures r[p] == if p < o + h then w[p] && w[p + h] else w[p - h] || w[p]
    {
      BoxStep(w, h, false, o, p);
    }
    assert |r| == |w|;
  }

  /** A bitonic box of size `2 * h` becomes a constant half, all false on the left or all true on the right, and a
      bitonic half. */
  lemma CleanBox(w: seq<bool>, r: seq<bool>, h: nat, o: nat, lo: nat, hi: nat, v: bool)
      returns (o': nat, lo': nat, hi': nat, v': bool)
    requires h > 0 && Halves(w, r, o, h) && OneRun(w, o, o + 2 * h, lo, hi, v)
    ensures
      && (o' == o || o' == o + h) && OneRun(r, o', o' + h, lo', hi', v')
      && (o' == o ==> forall p :: o + h <= p < o + 2 * h ==> r[p])
      && (o' == o + h ==> forall p :: o <= p < o + h ==> !r[p])
  {
    var m := o + h;
    if hi <= m {
      o', v' := if v then o else m, v;
      lo', hi' := if v then lo else lo + h, if v then hi else hi + h;
    } else if lo >= m {
      o', v' := if v then o else m, v;
      lo', hi' := if v then lo - h else lo, if v then hi - h else hi;
    } else if hi - h <= lo {
      o', v' := if v then o else m, !v;
      lo', hi' := if v then hi - h else hi, if v then lo else lo + h;
    } else {
      o', v' := if v then m else o, v;
      lo', hi' := if v then lo + h else lo, if v then hi else hi - h;
    }
  }

  /** What is constant between two box boundaries stays so. */
  lemma StepConstant(w: seq<bool>, h: nat, flip: bool, b: nat, e: nat, v: bool)
    requires h > 0 && |w| % (2 * h) == 0 && b % (2 * h) == 0 && e % (2 * h) == 0 && e <= |w|
    requires forall p :: b <= p < e ==> w[p] == v
    ensures forall p :: b <= p < e ==> Step(w, h, flip, BitGt())[p] == v
  {
    hide Step, IsLeft, Partner;
    forall p | b <= p < e ensures Step(w, h, flip, BitGt())[p] == v {
      PartnerSide(p, h, flip, b);
      PartnerSide(p, h, flip, e);
    }
  }

  /** A step inside the boxes keeps what is constant, and halves the box that is not. */
  lemma CleanStep(w: seq<bool>, b: nat, e: nat, h: nat, o: nat) returns (o': nat)
    requires h > 0 && e <= |w| && |w| % (2 * h) == 0 && b % (2 * h) == 0 && e % (2 * h) == 0
    requires AlmostSorted(w, b, e, 2 * h, o)
    ensures AlmostSorted(Step(w, h, false, BitGt()), b, e, h, o')
  {
    hide Step, Halves;
    var lo: nat, hi: nat, v :| OneRun(w, o, o + 2 * h, lo, hi, v);
    var r := Step(w, h, false, BitGt());
    StepHalves(w, h, o);
    StepConstant(w, h, false, b, o, false);
    assert (o + 2 * h) % (2 * h) == 0 by { DivMod(o, 2 * h); DivModUnique(o + 2 * h, 2 * h, o / (2 * h) + 1, 0); }
    StepConstant(w, h, false, o + 2 * h, e, true);
    HalfAligned(o, h);
    o' := CleanUp(w, r, b, e, h, o, lo, hi, v);
  }

  lemma CleanUp(w: seq<bool>, r: seq<bool>, b: nat, e: nat, h: nat, o: nat, lo: nat, hi: nat, v: bool) returns (o': nat)
    requires h > 0 && Halves(w, r, o, h) && OneRun(w, o, o + 2 * h, lo, hi, v)
    requires b <= o && o + 2 * h <= e <= |r| && o % h == 0 && (o + h) % h == 0
    requires forall p :: b <= p < o ==> !r[p]
    requires forall p :: o + 2 * h <= p < e ==> r[p]
    ensures AlmostSorted(r, b, e, h, o')
  {
    var lo', hi', v';
    o', lo', hi', v' := CleanBox(w, r, h, o, lo, hi, v);
    assert OneRun(r, o', o' + h, lo', hi', v');
  }

  lemma HalfAligned(o: nat, h: nat)
    requires h > 0 && o % (2 * h) == 0
    ensures o % h == 0 && (o + h) % h == 0
  {
    DivMod(o, 2 * h);
    DivModUnique(o, h, 2 * (o / (2 * h)), 0);
    DivModUnique(o + h, h, 2 * (o / (2 * h)) + 1, 0);
  }

  /** In `r` the left half of a box at `o` holds the conjunctions of mirrored positions, the right half the
      disjunctions. */
  ghost predicate MirroredHalves(w: seq<bool>, r: seq<bool>, o: nat, h: nat) {
    && |r| == |w| && o + 2 * h <= |w|
    && (forall p {:trigger r[p]} :: o <= p < o + h ==> r[p] == (w[p] && w[2 * o + 2 * h - 1 - p]))
    && (forall p {:trigger r[p]} :: o + h <= p < o + 2 * h ==> r[p] == (w[2 * o + 2 * h - 1 - p] || w[p]))
  }

  lemma StepMirroredHalves(w: seq<bool>, h: nat, o: nat)
    requires h > 0 && |w| % (2 * h) == 0 && o % (2 * h) == 0 && o + 2 * h <= |w|
    ensures MirroredHalves(w, Step(w, h, true, BitGt()), o, h)
  {
    hide Step, Exchanged;
    var r, s := Step(w, h, true, BitGt()), 2 * o + 2 * h - 1;
    forall p {:trigger r[p]} | o <= p < o + 2 * h
      ensures r[p] == if p < o + h then w[p] && w[s - p] else w[s - p] || w[p]
    {
      BoxStep(w, h, true, o, p);
    }
    assert |r| == |w|;
  }

  /** Two sorted halves, compared mirrored, leave one half constant and the other bitonic. */
  lemma FlipBox(w: seq<bool>, r: seq<bool>, b: nat, h: nat) returns (o': nat)
    requires h > 0 && MirroredHalves(w, r, b, h)
    requires SortedBits(w, b, b + h) && SortedBits(w, b + h, b + 2 * h)
    ensures (o' == b || o' == b + h) && BitonicBits(r, o', o' + h)
    ensures o' == b ==> forall p :: b + h <= p < b + 2 * h ==> r[p]
    ensures o' == b + h ==> forall p :: b <= p < b + h ==> !r[p]
  {
    var a := Threshold(w, b, b + h);
    var c := Threshold(w, b + h, b + 2 * h);
    var s := 2 * b + 2 * h;
    if a <= s - c {
      o' := b;
      assert OneRun(r, b, b + h, a, s - c, false);
    } else {
      o' := b + h;
      assert OneRun(r, b + h, b + 2 * h, s - a, c, true);
    }
  }

  /** The mirrored step on two sorted halves leaves one half constant and the other bitonic. */
  lemma FlipStep(w: seq<bool>, b: nat, h: nat) returns (o': nat)
    requires h > 0 && |w| % (2 * h) == 0 && b % (2 * h) == 0 && b + 2 * h <= |w|
    requires SortedBits(w, b, b + h) && SortedBits(w, b + h, b + 2 * h)
    ensures AlmostSorted(Step(w, h, true, BitGt()), b, b + 2 * h, h, o')
  {
    StepMirroredHalves(w, h, b);
    HalfAligned(b, h);
    o' := FlipBox(w, Step(w, h, true, BitGt()), b, h);
  }

  lemma CleanEnd(w: seq<bool>, b: nat, e: nat, o: nat)
    requires e <= |w| && AlmostSorted(w, b, e, 1, o)
    ensures SortedBits(w, b, e)
  {
  }

  /** Step `j` of round `i` in one aligned block whose two halves are sorted. */
  lemma {:induction false} MergeBlock(w: seq<bool>, rounds: nat, i: nat, j: nat, b: nat) returns (o: nat)
    requires IsSize(|w|, rounds) && i < rounds && 1 <= j <= i + 1
    requires b % Pow2(i + 1) == 0 && b + Pow2(i + 1) <= |w|
    requires SortedBits(w, b, b + Pow2(i)) && SortedBits(w, b + Pow2(i), b + Pow2(i + 1))
    ensures AlmostSorted(Merge(w, rounds, i, j, BitGt()), b, b + Pow2(i + 1), Pow2(i + 1 - j), o)
  {
    hide Step, AlmostSorted, SortedBits;
    BoxesFit(|w|, rounds, i - (j - 1));
    if j == 1 {
      o := FlipStep(w, b, Pow2(i));
    } else {
      var v := Merge(w, rounds, i, j - 1, BitGt());
      o := MergeBlock(w, rounds, i, j - 1, b);
      BlockEnds(b, i + 1, i - (j - 1) + 1);
      o := CleanStep(v, b, b + Pow2(i + 1), Pow2(i - (j - 1)), o);
    }
  }

  /** The bounds of a block are bounds of every smaller block size. */
  lemma BlockEnds(b: nat, e: nat, d: nat)
    requires b % Pow2(e) == 0 && d <= e
    ensures b % Pow2(d) == 0 && (b + Pow2(e)) % Pow2(d) == 0
  {
    Pow2Divides(d, e);
    MultipleOfMultiple(b, Pow2(e), Pow2(d));
  }

  lemma MultipleOfMultiple(b: nat, n: nat, m: nat)
    requires n > 0 && m > 0 && b % n == 0 && n % m == 0
    ensures b % m == 0 && (b + n) % m == 0
  {
    var a, c := b / n, n / m;
    DivMod(b, n);
    DivMod(n, m);
    Regroup(a, c, m);
    DivModUnique(b, m, a * c, 0);
    DivModUnique(b + n, m, a * c + c, 0);
  }

  lemma Regroup(a: int, c: int, m: int)
    ensures a * (c * m) == (a * c) * m && (a * c + c) * m == a * (c * m) + c * m
  {
  }

  /** The round invariant on booleans: after round `i` every aligned block of 2^i positions is sorted. */
  lemma {:induction false} NetworkSortsBits(w: seq<bool>, rounds: nat, i: nat, b: nat)
    requires IsSize(|w|, rounds) && i <= rounds && b % Pow2(i) == 0 && b + Pow2(i) <= |w|
    ensures SortedBits(Network(w, rounds, i, BitGt()), b, b + Pow2(i))
  {
    if i > 0 {
      hide Merge, AlmostSorted;
      var v := Network(w, rounds, i - 1, BitGt());
      BlockEnds(b, i, i - 1);
      HalfAligned(b, Pow2(i - 1));
      NetworkSortsBits(w, rounds, i - 1, b);
      NetworkSortsBits(w, rounds, i - 1, b + Pow2(i - 1));
      var o := MergeBlock(v, rounds, i - 1, i, b);
      CleanEnd(Network(w, rounds, i, BitGt()), b, b + Pow2(i), o);
    }
  }

  // ------------------------------------------------------------ it sorts

  /** No element of the block is greater than a later one. */
  ghost predicate SortedBlock<T>(s: seq<T>, b: nat, e: nat, gt: (T, T) -> bool)
    requires b <= e <= |s|
  {
    forall p, q {:trigger gt(s[p], s[q])} :: b <= p < q < e ==> !gt(s[p], s[q])
  }

  /** The round invariant for any total preorder. */
  lemma NetworkSortsBlocks<T(!new)>(s: seq<T>, rounds: nat, i: nat, b: nat, gt: (T, T) -> bool)
    requires IsSize(|s|, rounds) && i <= rounds && b % Pow2(i) == 0 && b + Pow2(i) <= |s| && StrictOrder(gt)
    ensures SortedBlock(Network(s, rounds, i, gt), b, b + Pow2(i), gt)
  {
    var out := Network(s, rounds, i, gt);
    forall p, q | b <= p < q < b + Pow2(i) ensures !gt(out[p], out[q]) {
      var t := out[q];
      NetworkAbove(s, t, rounds, i, gt);
      NetworkSortsBits(Above(s, t, gt), rounds, i, b);
      var w := Above(out, t, gt);
      assert w[q] == gt(out[q], t) && w[p] == gt(out[p], t);
    }
  }

  /** For every power-of-two number of rows the network sorts. */
  lemma NetworkSorts<T(!new)>(s: seq<T>, rounds: nat, gt: (T, T) -> bool)
    requires IsSize(|s|, rounds) && StrictOrder(gt)
    ensures SortedBlock(Network(s, rounds, rounds, gt), 0, |s|, gt)
  {
    DivModUnique(0, Pow2(rounds), 0, 0);
    NetworkSortsBlocks(s, rounds, rounds, 0, gt);
  }

  // ----------------------------------------------------- it only permutes

  /** Partners make the same decision, so a step exchanges pairs of elements. */
  lemma StepDistinct<T(!new)>(s: seq<T>, h: nat, flip: bool, gt: (T, T) -> bool)
    requires h > 0 && |s| % (2 * h) == 0 && Distinct(s)
    ensures Distinct(Step(s, h, flip, gt))
    ensures forall e :: e in Step(s, h, flip, gt) ==> e in s
  {
    hide Partner, IsLeft;
    var r := Step(s, h, flip, gt);
    forall p | 0 <= p < |s| ensures r[p] in s { StepTakes(s, h, flip, gt, p); }
    forall p, q | 0 <= p < q < |s| ensures r[p] != r[q] {
      StepTakes(s, h, flip, gt, p);
      StepTakes(s, h, flip, gt, q);
    }
  }

  lemma StepTakes<T>(s: seq<T>, h: nat, flip: bool, gt: (T, T) -> bool, p: nat)
    requires h > 0 && |s| % (2 * h) == 0 && p < |s|
    ensures var q, r := Partner(p, h, flip), Step(s, h, flip, gt);
      && 0 <= q < |s| && q != p && Partner(q, h, flip) == p
      && ((r[p] == s[p] && r[q] == s[q]) || (r[p] == s[q] && r[q] == s[p]))
  {
    PartnerInBox(p, h, flip);
    PartnerSide(p, h, flip, |s|);
  }
}
