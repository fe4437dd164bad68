/** `bitonic_sort`: the columns of a table are sorted in place, through views, on shares of three parties. */
module Sorting {
  import opened Arith
  import opened Words
  import opened Permutations
  import opened Sharing
  import opened Boolean
  import opened Circuits
  import opened Arithmetic
  import opened RippleCarry
  import opened Conversions
  import opened Multiplexing
  import opened BitVectors
  import opened Views
  import opened Columns
  import opened Bitonic
  import opened SortViews
  import opened Rows
  import opened Tables

  // ---------------------------------------------------------- swapping vectors

  /** `ms(i)` supplies the masks for swapping pair `i`. */
  ghost predicate SwapMasks(ms: nat -> nat -> AndMask, parties: nat, l: nat) {
    forall u, t :: GoodMask(ms(u)(t), parties, l)
  }

  ghost predicate SwapMulMasks(ms: nat -> nat -> MulMask, parties: nat, m: nat)
    requires m > 0
  {
    forall u, t :: GoodMulMask(ms(u)(t), parties, m)
  }

  method SwapVectorsB(bits: seq<Joint<Word>>, ghost bs: seq<bool>, xs: seq<Joint<Word>>, ys: seq<Joint<Word>>,
                      parties: nat, l: nat, ms: nat -> nat -> AndMask)
    returns (xs': seq<Joint<Word>>, ys': seq<Joint<Word>>)
    requires Opens(bits, parties, l, bs) && |xs| == |ys| == |bits|
    requires SharedVector(xs, parties, l) && SharedVector(ys, parties, l)
    requires SwapMasks(ms, parties, l)
    ensures |xs'| == |ys'| == |xs| && SharedVector(xs', parties, l) && SharedVector(ys', parties, l)
    ensures forall i {:trigger xs'[i]} :: 0 <= i < |xs| ==>
      SecretB(xs'[i], l) == if bs[i] then SecretB(ys[i], l) else SecretB(xs[i], l)
    ensures forall i {:trigger ys'[i]} :: 0 <= i < |xs| ==>
      SecretB(ys'[i], l) == if bs[i] then SecretB(xs[i], l) else SecretB(ys[i], l)
  {
    hide Width, SecretB, SingleBit, Extendable;
    OpensControls(bits, parties, l, bs);
    xs', ys' := [], [];
    for i := 0 to |xs|
      invariant |xs'| == |ys'| == i && SharedVector(xs', parties, l) && SharedVector(ys', parties, l)
      invariant forall j {:trigger xs'[j]} :: 0 <= j < i ==>
        SecretB(xs'[j], l) == if bs[j] then SecretB(ys[j], l) else SecretB(xs[j], l)
      invariant forall j {:trigger ys'[j]} :: 0 <= j < i ==>
        SecretB(ys'[j], l) == if bs[j] then SecretB(xs[j], l) else SecretB(ys[j], l)
    {
      assert SecretB(bits[i], l)[0] == bs[i] && Extendable(bits[i], l);
      var x, y := SwapB(bits[i], xs[i], ys[i], l, ms(i), 0);
      xs', ys' := xs' + [x], ys' + [y];
    }
  }

  method SwapVectorsA(bits: seq<Joint<int>>, ghost bs: seq<bool>, xs: seq<Joint<int>>, ys: seq<Joint<int>>,
                      parties: nat, m: nat, ms: nat -> nat -> MulMask)
    returns (xs': seq<Joint<int>>, ys': seq<Joint<int>>)
    requires m > 1 && |bits| == |bs| == |xs| == |ys|
    requires forall i {:trigger bs[i]} :: 0 <= i < |bs| ==> SharesOf(bits[i], parties, m, BitValue(bs[i]))
    requires SharedNumbers(xs, parties) && SharedNumbers(ys, parties)
    requires SwapMulMasks(ms, parties, m)
    ensures |xs'| == |ys'| == |xs| && SharedNumbers(xs', parties) && SharedNumbers(ys', parties)
    ensures forall i {:trigger xs'[i]} :: 0 <= i < |xs| ==>
      SecretA(m, xs'[i]) == if bs[i] then SecretA(m, ys[i]) else SecretA(m, xs[i])
    ensures forall i {:trigger ys'[i]} :: 0 <= i < |xs| ==>
      SecretA(m, ys'[i]) == if bs[i] then SecretA(m, xs[i]) else SecretA(m, ys[i])
  {
    hide SecretA, Deal, Components, GoodMulMask;
    xs', ys' := [], [];
    for i := 0 to |xs|
      invariant |xs'| == |ys'| == i && SharedNumbers(xs', parties) && SharedNumbers(ys', parties)
      invariant forall j {:trigger xs'[j]} :: 0 <= j < i ==>
        SecretA(m, xs'[j]) == if bs[j] then SecretA(m, ys[j]) else SecretA(m, xs[j])
      invariant forall j {:trigger ys'[j]} :: 0 <= j < i ==>
        SecretA(m, ys'[j]) == if bs[j] then SecretA(m, xs[j]) else SecretA(m, ys[j])
    {
      SmallResidue(bs[i], m);
      assert SharesOf(bits[i], parties, m, BitValue(bs[i]));
      var x, y := SwapA(bits[i], xs[i], ys[i], m, ms(i), 0);
      xs', ys' := xs' + [x], ys' + [y];
    }
  }

  lemma SmallResidue(b: bool, m: nat)
    requires m > 1
    ensures BitValue(b) % m == BitValue(b)
  {
    DivModUnique(BitValue(b), m, 0, BitValue(b));
  }

  // ---------------------------------------------------------- swapping columns

  /** Where the element that ends up at position `p` comes from. */
  function Picks(n: nat, h: nat, flip: bool, bs: seq<bool>): (picks: seq<nat>)
    requires Boxes(n, h) && |bs| == n / 2
    ensures |picks| == n && Within(picks, n)
    ensures forall p {:trigger picks[p]} :: 0 <= p < n ==> picks[p] == PickAt(p, n, h, flip, bs)
  {
    seq(n, p requires 0 <= p < n => PickAt(p, n, h, flip, bs))
  }

  function PickAt(p: nat, n: nat, h: nat, flip: bool, bs: seq<bool>): (q: nat)
    requires Boxes(n, h) && |bs| == n / 2 && p < n
    ensures q < n
  {
    PartnerInBox(p, h, flip);
    PartnerSide(p, h, flip, n);
    if bs[PairOf(p, n, h, flip)] then Partner(p, h, flip) else p
  }

  function PairOf(p: nat, n: nat, h: nat, flip: bool): (i: nat)
    requires Boxes(n, h) && p < n
    ensures i < n / 2
  {
    ViewsCover(n, h, flip, p);
    PairIndex(p, h, flip)
  }

  /** The new element at position `p` when the left view gets `xs` and the right view `ys`. */
  function Half<T>(p: nat, n: nat, h: nat, flip: bool, xs: seq<T>, ys: seq<T>): (e: T)
    requires Boxes(n, h) && p < n && |xs| == |ys| == n / 2
  {
    if IsLeft(p, h) then xs[PairOf(p, n, h, flip)] else ys[PairOf(p, n, h, flip)]
  }

  /** What a column holds after `right := ys; left := xs`, when `half` is what it held in between. */
  ghost predicate Assigned<T>(col: seq<T>, v: View, s: seq<T>)
    requires Proper(v) && Length(v) == |col| && |s| == Size(v)
  {
    forall i {:trigger s[i]} :: 0 <= i < Size(v) ==> col[At(v, i)] == s[i]
  }

  ghost predicate Untouched<T>(col: seq<T>, before: seq<T>, v: View)
    requires Proper(v) && |col| == |before|
  {
    forall p: nat {:trigger col[p]} :: p < |col| && !Reaches(v, p) ==> col[p] == before[p]
  }

  lemma BothAssigned<T>(col: seq<T>, half: seq<T>, h: nat, flip: bool, xs: seq<T>, ys: seq<T>, p: nat)
    requires var n := |col|; Boxes(n, h) && |half| == n && |xs| == |ys| == n / 2 && p < n
    requires var n := |col|;
      && Proper(LeftView(n, h)) && Length(LeftView(n, h)) == n && Size(LeftView(n, h)) == n / 2
      && Proper(RightView(n, h, flip)) && Length(RightView(n, h, flip)) == n && Size(RightView(n, h, flip)) == n / 2
      && Assigned(half, RightView(n, h, flip), ys) && Assigned(col, LeftView(n, h), xs)
      && Untouched(col, half, LeftView(n, h))
    ensures col[p] == Half(p, |col|, h, flip, xs, ys)
  {
    hide At, Size, Proper, LeftView, RightView, IsLeft, PairIndex, Partner, Reaches, Length;
    var n := |col|;
    ViewsCover(n, h, flip, p);
    var i := PairOf(p, n, h, flip);
    if IsLeft(p, h) {
      assert col[At(LeftView(n, h), i)] == xs[i];
    } else {
      assert half[At(RightView(n, h, flip), i)] == ys[i];
      RightNotLeft(n, h, flip, p);
    }
  }

  lemma RightNotLeft(n: nat, h: nat, flip: bool, p: nat)
    requires Boxes(n, h) && p < n && !IsLeft(p, h)
    ensures Proper(LeftView(n, h)) && !Reaches(LeftView(n, h), p)
  {
    hide At, Size, Proper, LeftView, IsLeft, Partner;
    ViewSizes(n, h, flip);
    var x := LeftView(n, h);
    forall i: nat | i < Size(x) ensures At(x, i) != p { ViewsPairPartners(n, h, flip, i); }
  }

  /** Both views of a column are overwritten; the right one first, as in the source. */
  method AssignBoth<T>(col: array<T>, h: nat, flip: bool, xs: seq<T>, ys: seq<T>)
    requires Boxes(col.Length, h) && |xs| == |ys| == col.Length / 2
    modifies col
    ensures forall p {:trigger col[p]} :: 0 <= p < col.Length ==> col[p] == Half(p, col.Length, h, flip, xs, ys)
  {
    hide At, Size, Proper, Assignable, LeftView, RightView, Half, Reaches, Length;
    var n := col.Length;
    var x, y := LeftView(n, h), RightView(n, h, flip);
    ViewSizes(n, h, flip);
    AssignView(col, y, ys);
    ghost var half := col[..];
    assert Assigned(half, y, ys);
    AssignView(col, x, xs);
    assert Assigned(col[..], x, xs) && Untouched(col[..], half, x);
    forall p: nat {:trigger col[p]} | p < n ensures col[p] == Half(p, n, h, flip, xs, ys) {
      BothAssigned(col[..], half, h, flip, xs, ys, p);
    }
  }

  /** `left` and `right` are what the two views read from `all`. */
  ghost predicate ReadBoth<V>(all: seq<V>, left: seq<V>, right: seq<V>, h: nat, flip: bool) {
    && Boxes(|all|, h) && |left| == |right| == |all| / 2
    && forall p {:trigger all[p]} :: 0 <= p < |all| ==> all[p] == Half(p, |all|, h, flip, left, right)
  }

  method ReadColumn<T(0)>(col: array<T>, h: nat, flip: bool) returns (xs: seq<T>, ys: seq<T>)
    requires Boxes(col.Length, h)
    ensures |xs| == |ys| == col.Length / 2 && ReadBoth(col[..], xs, ys, h, flip)
    ensures forall i {:trigger xs[i]} :: 0 <= i < |xs| ==> xs[i] == col[LeftAt(i, col.Length, h, flip)]
    ensures forall i {:trigger ys[i]} :: 0 <= i < |ys| ==> ys[i] == col[RightAt(i, col.Length, h, flip)]
  {
    hide At, Size, Proper, Assignable, LeftView, RightView, Length, IsLeft, PairIndex, Partner;
    var n := col.Length;
    ViewSizes(n, h, flip);
    xs := ReadView(col, LeftView(n, h));
    ys := ReadView(col, RightView(n, h, flip));
    forall p {:trigger col[p]} | 0 <= p < n ensures col[p] == Half(p, n, h, flip, xs, ys) {
      ViewsCover(n, h, flip, p);
    }
  }

  /** The positions of pair `i`. */
  function LeftAt(i: nat, n: nat, h: nat, flip: bool): (p: nat)
    requires Boxes(n, h) && i < n / 2
    ensures p < n
  {
    ViewsPairPartners(n, h, flip, i);
    At(LeftView(n, h), i)
  }

  function RightAt(i: nat, n: nat, h: nat, flip: bool): (p: nat)
    requires Boxes(n, h) && i < n / 2
    ensures p < n
  {
    ViewsPairPartners(n, h, flip, i);
    At(RightView(n, h, flip), i)
  }

  /** Swapping the pairs that `bs` marks picks every element as `Picks` says. */
  lemma SwappedPairs<V>(all: seq<V>, left: seq<V>, right: seq<V>, left': seq<V>, right': seq<V>, bs: seq<bool>,
                        h: nat, flip: bool, p: nat)
    requires ReadBoth(all, left, right, h, flip) && |left'| == |right'| == |bs| == |left| && p < |all|
    requires forall i {:trigger left'[i]} :: 0 <= i < |bs| ==> left'[i] == if bs[i] then right[i] else left[i]
    requires forall i {:trigger right'[i]} :: 0 <= i < |bs| ==> right'[i] == if bs[i] then left[i] else right[i]
    ensures Half(p, |all|, h, flip, left', right') == all[PickAt(p, |all|, h, flip, bs)]
  {
    hide IsLeft, PairIndex, Partner;
    var n := |all|;
    PartnerInBox(p, h, flip);
    PartnerSide(p, h, flip, n);
    var q, i := Partner(p, h, flip), PairOf(p, n, h, flip);
    assert PairOf(q, n, h, flip) == i && IsLeft(q, h) != IsLeft(p, h) by { PartnersShare(p, n, h, flip); }
    assert all[p] == Half(p, n, h, flip, left, right) && all[q] == Half(q, n, h, flip, left, right);
  }

  lemma PartnersShare(p: nat, n: nat, h: nat, flip: bool)
    requires Boxes(n, h) && p < n && 0 <= Partner(p, h, flip) < n
    ensures PairOf(Partner(p, h, flip), n, h, flip) == PairOf(p, n, h, flip)
    ensures IsLeft(Partner(p, h, flip), h) != IsLeft(p, h)
  {
    hide Partner, IsLeft;
    PartnerInBox(p, h, flip);
  }

  /** `swap` on one B-shared column. */
  method SwapColumnB(col: array<Joint<Word>>, h: nat, flip: bool, bits: seq<Joint<Word>>, ghost bs: seq<bool>,
                     parties: nat, l: nat, ms: nat -> nat -> AndMask)
    requires Boxes(col.Length, h) && |bits| == col.Length / 2 && Opens(bits, parties, l, bs)
    requires SharedVector(col[..], parties, l)
    requires SwapMasks(ms, parties, l)
    modifies col
    ensures SharedVector(col[..], parties, l)
    ensures Secrets(col[..], parties, l) == Permuted(old(Secrets(col[..], parties, l)), Picks(col.Length, h, flip, bs))
  {
    hide Width, SecretB, SingleBit, LeftAt, RightAt;
    ghost var before := col[..];
    var n := col.Length;
    var xs, ys := ReadColumn(col, h, flip);
    var xs', ys' := SwapVectorsB(bits, bs, xs, ys, parties, l, ms);
    AssignBoth(col, h, flip, xs', ys');
    SwappedWords(before, xs, ys, xs', ys', col[..], bs, parties, l, h, flip);
  }

  lemma SwappedWords(before: seq<Joint<Word>>, xs: seq<Joint<Word>>, ys: seq<Joint<Word>>, xs': seq<Joint<Word>>,
                     ys': seq<Joint<Word>>, later: seq<Joint<Word>>, bs: seq<bool>, parties: nat, l: nat, h: nat,
                     flip: bool)
    requires SharedVector(before, parties, l) && ReadBoth(before, xs, ys, h, flip)
    requires |later| == |before| && |xs'| == |ys'| == |bs| == |xs|
    requires SharedVector(xs, parties, l) && SharedVector(ys, parties, l)
    requires SharedVector(xs', parties, l) && SharedVector(ys', parties, l)
    requires forall i {:trigger xs'[i]} :: 0 <= i < |xs| ==>
      SecretB(xs'[i], l) == if bs[i] then SecretB(ys[i], l) else SecretB(xs[i], l)
    requires forall i {:trigger ys'[i]} :: 0 <= i < |xs| ==>
      SecretB(ys'[i], l) == if bs[i] then SecretB(xs[i], l) else SecretB(ys[i], l)
    requires forall p {:trigger later[p]} :: 0 <= p < |before| ==> later[p] == Half(p, |before|, h, flip, xs', ys')
    ensures SharedVector(later, parties, l)
    ensures Secrets(later, parties, l) == Permuted(Secrets(before, parties, l), Picks(|before|, h, flip, bs))
  {
    hide Width, SecretB, PickAt, PairOf, IsLeft;
    var n := |before|;
    var all := Secrets(before, parties, l);
    var left, right := Secrets(xs, parties, l), Secrets(ys, parties, l);
    var left', right' := Secrets(xs', parties, l), Secrets(ys', parties, l);
    assert ReadBoth(all, left, right, h, flip);
    forall p {:trigger later[p]} | 0 <= p < n
      ensures |later[p]| == parties && Width(later[p], l) && SecretB(later[p], l) == all[PickAt(p, n, h, flip, bs)]
    {
      SwappedPairs(all, left, right, left', right', bs, h, flip, p);
      assert later[p] == Half(p, n, h, flip, xs', ys');
    }
    assert SharedVector(later, parties, l);
  }

  /** `swap` on one A-shared column. */
  method SwapColumnA(col: array<Joint<int>>, h: nat, flip: bool, bits: seq<Joint<int>>, ghost bs: seq<bool>,
                     parties: nat, m: nat, ms: nat -> nat -> MulMask)
    requires Boxes(col.Length, h) && |bits| == |bs| == col.Length / 2 && m > 1
    requires forall i {:trigger bs[i]} :: 0 <= i < |bs| ==> SharesOf(bits[i], parties, m, BitValue(bs[i]))
    requires SharedNumbers(col[..], parties)
    requires SwapMulMasks(ms, parties, m)
    modifies col
    ensures SharedNumbers(col[..], parties)
    ensures Numbers(col[..], parties, m) == Permuted(old(Numbers(col[..], parties, m)), Picks(col.Length, h, flip, bs))
  {
    hide SecretA, Deal, Components, LeftAt, RightAt, SharesOf, GoodMulMask;
    ghost var before := col[..];
    var n := col.Length;
    var xs, ys := ReadColumn(col, h, flip);
    var xs', ys' := SwapVectorsA(bits, bs, xs, ys, parties, m, ms);
    AssignBoth(col, h, flip, xs', ys');
    SwappedNumbers(before, xs, ys, xs', ys', col[..], bs, parties, m, h, flip);
  }

  lemma SwappedNumbers(before: seq<Joint<int>>, xs: seq<Joint<int>>, ys: seq<Joint<int>>, xs': seq<Joint<int>>,
                       ys': seq<Joint<int>>, later: seq<Joint<int>>, bs: seq<bool>, parties: nat, m: nat, h: nat,
                       flip: bool)
    requires m > 0 && SharedNumbers(before, parties) && ReadBoth(before, xs, ys, h, flip)
    requires |later| == |before| && |xs'| == |ys'| == |bs| == |xs|
    requires SharedNumbers(xs, parties) && SharedNumbers(ys, parties)
    requires SharedNumbers(xs', parties) && SharedNumbers(ys', parties)
    requires forall i {:trigger xs'[i]} :: 0 <= i < |xs| ==>
      SecretA(m, xs'[i]) == if bs[i] then SecretA(m, ys[i]) else SecretA(m, xs[i])
    requires forall i {:trigger ys'[i]} :: 0 <= i < |xs| ==>
      SecretA(m, ys'[i]) == if bs[i] then SecretA(m, xs[i]) else SecretA(m, ys[i])
    requires forall p {:trigger later[p]} :: 0 <= p < |before| ==> later[p] == Half(p, |before|, h, flip, xs', ys')
    ensures SharedNumbers(later, parties)
    ensures Numbers(later, parties, m) == Permuted(Numbers(before, parties, m), Picks(|before|, h, flip, bs))
  {
    hide SecretA, Deal, Components, PickAt, PairOf, IsLeft;
    var n := |before|;
    var all := Numbers(before, parties, m);
    var left, right := Numbers(xs, parties, m), Numbers(ys, parties, m);
    var left', right' := Numbers(xs', parties, m), Numbers(ys', parties, m);
    assert ReadBoth(all, left, right, h, flip);
    forall p {:trigger later[p]} | 0 <= p < n
      ensures |later[p]| == parties && Replicated(later[p]) && SecretA(m, later[p]) == all[PickAt(p, n, h, flip, bs)]
    {
      SwappedPairs(all, left, right, left', right', bs, h, flip, p);
      assert later[p] == Half(p, n, h, flip, xs', ys');
    }
    assert SharedNumbers(later, parties);
  }

  // ------------------------------------------------------------ whole tables

  ghost predicate SwappedUpTo(now: seq<seq<Joint<Word>>>, before: seq<seq<Joint<Word>>>, c: nat, parties: nat, n: nat,
                              l: nat, picks: seq<nat>)
    requires SharedTable(before, parties, n, l) && Within(picks, n) && |picks| == n && c <= |before|
  {
    && |now| == |before| && SharedTable(now, parties, n, l) && now[c..] == before[c..]
    && forall d {:trigger now[d]} :: 0 <= d < c ==>
      Secrets(now[d], parties, l) == Permuted(Secrets(before[d], parties, l), picks)
  }

  method SwapNextB(cols: seq<array<Joint<Word>>>, n: nat, c: nat, h: nat, flip: bool, bits: seq<Joint<Word>>,
                   ghost bs: seq<bool>, parties: nat, l: nat, ms: nat -> nat -> AndMask)
    requires Separate(cols, n) && Boxes(n, h) && |bits| == |bs| == n / 2 && Opens(bits, parties, l, bs)
    requires c < |cols| && SharedVector(Contents(cols)[c], parties, l) && SwapMasks(ms, parties, l)
    modifies cols[c]
    ensures |cols[c][..]| == n && Contents(cols) == old(Contents(cols))[c := cols[c][..]]
    ensures SharedVector(cols[c][..], parties, l)
    ensures Secrets(cols[c][..], parties, l) ==
            Permuted(old(Secrets(Contents(cols)[c], parties, l)), Picks(n, h, flip, bs))
  {
    hide Opens, Width, SecretB, SingleBit, Picks, SwapMasks;
    SwapColumnB(cols[c], h, flip, bits, bs, parties, l, ms);
  }

  method SwapNextA(cols: seq<array<Joint<int>>>, n: nat, c: nat, h: nat, flip: bool, bits: seq<Joint<int>>,
                   ghost bs: seq<bool>, parties: nat, m: nat, ms: nat -> nat -> MulMask)
    requires Separate(cols, n) && Boxes(n, h) && |bits| == |bs| == n / 2 && m > 1
    requires forall i {:trigger bs[i]} :: 0 <= i < |bs| ==> SharesOf(bits[i], parties, m, BitValue(bs[i]))
    requires c < |cols| && SharedNumbers(Contents(cols)[c], parties) && SwapMulMasks(ms, parties, m)
    modifies cols[c]
    ensures |cols[c][..]| == n && Contents(cols) == old(Contents(cols))[c := cols[c][..]]
    ensures SharedNumbers(cols[c][..], parties)
    ensures Numbers(cols[c][..], parties, m) ==
            Permuted(old(Numbers(Contents(cols)[c], parties, m)), Picks(n, h, flip, bs))
  {
    hide SharesOf, SecretA, Deal, Components, Picks, SwapMulMasks;
    SwapColumnA(cols[c], h, flip, bits, bs, parties, m, ms);
  }

  method SwapTableB(cols: seq<array<Joint<Word>>>, n: nat, h: nat, flip: bool, bits: seq<Joint<Word>>,
                    ghost bs: seq<bool>, parties: nat, l: nat, ms: nat -> nat -> nat -> AndMask)
    requires Separate(cols, n) && Boxes(n, h) && |bits| == |bs| == n / 2 && Opens(bits, parties, l, bs)
    requires SharedTable(Contents(cols), parties, n, l)
    requires forall c :: SwapMasks(ms(c), parties, l)
    modifies cols
    ensures SharedTable(Contents(cols), parties, n, l)
    ensures SecretTable(Contents(cols), parties, n, l) ==
            PermuteAll(old(SecretTable(Contents(cols), parties, n, l)), n, Picks(n, h, flip, bs))
  {
    hide Opens, Width, SecretB, SingleBit, Picks, SwapMasks;
    ghost var before, picks := Contents(cols), Picks(n, h, flip, bs);
    for c := 0 to |cols|
      invariant SwappedUpTo(Contents(cols), before, c, parties, n, l, picks)
    {
      ghost var now := Contents(cols);
      assert now[c] == before[c] by { assert now[c..][0] == before[c..][0]; }
      SwapNextB(cols, n, c, h, flip, bits, bs, parties, l, ms(c));
      ColumnSwapped(now, before, cols[c][..], c, parties, n, l, picks);
    }
  }

  lemma ColumnSwapped(now: seq<seq<Joint<Word>>>, before: seq<seq<Joint<Word>>>, col: seq<Joint<Word>>, c: nat,
                      parties: nat, n: nat, l: nat, picks: seq<nat>)
    requires SharedTable(before, parties, n, l) && Within(picks, n) && |picks| == n && c < |before|
    requires SwappedUpTo(now, before, c, parties, n, l, picks) && |col| == n && SharedVector(col, parties, l)
    requires Secrets(col, parties, l) == Permuted(Secrets(before[c], parties, l), picks)
    ensures SwappedUpTo(now[c := col], before, c + 1, parties, n, l, picks)
  {
    hide Width, SecretB;
    assert now[c := col][c + 1..] == now[c..][1..] == before[c + 1..];
  }

  ghost predicate NumbersSwappedUpTo(now: seq<seq<Joint<int>>>, before: seq<seq<Joint<int>>>, c: nat, parties: nat,
                                     n: nat, m: nat, picks: seq<nat>)
    requires m > 0 && SharedNumberTable(before, parties, n) && Within(picks, n) && |picks| == n && c <= |before|
  {
    && |now| == |before| && SharedNumberTable(now, parties, n) && now[c..] == before[c..]
    && forall d {:trigger now[d]} :: 0 <= d < c ==>
      Numbers(now[d], parties, m) == Permuted(Numbers(before[d], parties, m), picks)
  }

  method SwapTableA(cols: seq<array<Joint<int>>>, n: nat, h: nat, flip: bool, bits: seq<Joint<int>>,
                    ghost bs: seq<bool>, parties: nat, m: nat, ms: nat -> nat -> nat -> MulMask)
    requires Separate(cols, n) && Boxes(n, h) && |bits| == |bs| == n / 2 && m > 1
    requires forall i {:trigger bs[i]} :: 0 <= i < |bs| ==> SharesOf(bits[i], parties, m, BitValue(bs[i]))
    requires SharedNumberTable(Contents(cols), parties, n)
    requires forall c :: SwapMulMasks(ms(c), parties, m)
    modifies cols
    ensures SharedNumberTable(Contents(cols), parties, n)
    ensures NumberTable(Contents(cols), parties, n, m) ==
            PermuteAll(old(NumberTable(Contents(cols), parties, n, m)), n, Picks(n, h, flip, bs))
  {
    hide SharesOf, SecretA, Deal, Components, Picks, SwapMulMasks;
    ghost var before, picks := Contents(cols), Picks(n, h, flip, bs);
    for c := 0 to |cols|
      invariant NumbersSwappedUpTo(Contents(cols), before, c, parties, n, m, picks)
    {
      ghost var now := Contents(cols);
      assert now[c] == before[c] by { assert now[c..][0] == before[c..][0]; }
      SwapNextA(cols, n, c, h, flip, bits, bs, parties, m, ms(c));
      NumbersColumnSwapped(now, before, cols[c][..], c, parties, n, m, picks);
    }
  }

  lemma NumbersColumnSwapped(now: seq<seq<Joint<int>>>, before: seq<seq<Joint<int>>>, col: seq<Joint<int>>, c: nat,
                             parties: nat, n: nat, m: nat, picks: seq<nat>)
    requires m > 0 && SharedNumberTable(before, parties, n) && Within(picks, n) && |picks| == n && c < |before|
    requires NumbersSwappedUpTo(now, before, c, parties, n, m, picks) && |col| == n && SharedNumbers(col, parties)
    requires Numbers(col, parties, m) == Permuted(Numbers(before[c], parties, m), picks)
    ensures NumbersSwappedUpTo(now[c := col], before, c + 1, parties, n, m, picks)
  {
    hide SecretA, Deal, Components;
    assert now[c := col][c + 1..] == now[c..][1..] == before[c + 1..];
  }

  // -------------------------------------------------------------- comparing

  /** The masks that a comparison of rows on any number of keys consumes. */
  ghost predicate RowMasks(ms: nat -> nat -> nat -> AndMask, l: nat, k: nat) {
    forall i, c :: GoodMasks(ms(i)(c), 3, l) && KeyMasks(ms(i)(c), c, k)
  }

  function RowOf(ts: seq<seq<Joint<Word>>>, size: nat, l: nat, i: nat): (row: seq<Joint<Word>>)
    requires SharedTable(ts, 3, size, l) && i < size
    ensures |row| == |ts| && SharedRow(row, 3, l) && forall c :: 0 <= c < |ts| ==> row[c] == ts[c][i]
  {
    hide Width;
    seq(|ts|, c requires 0 <= c < |ts| => ts[c][i])
  }

  /** `compare_rows` on two lists of vectors, row by row. */
  method CompareVectors(xs: seq<seq<Joint<Word>>>, ys: seq<seq<Joint<Word>>>, inverse: seq<bool>, size: nat,
                        l: nat, k: nat, ms: nat -> nat -> nat -> AndMask)
    returns (bits: seq<Joint<Word>>, ghost bs: seq<bool>)
    requires k >= 2 && l == Pow2(k) && |xs| == |ys| == |inverse| > 0
    requires SharedTable(xs, 3, size, l) && SharedTable(ys, 3, size, l) && RowMasks(ms, l, k)
    ensures |bits| == |bs| == size && Opens(bits, 3, l, bs)
    ensures forall i {:trigger bs[i]} :: 0 <= i < size ==>
      bs[i] == After(RowValues(RowOf(xs, size, l, i), 3, l), RowValues(RowOf(ys, size, l, i), 3, l), inverse, |xs|)
  {
    hide Width, SecretB, SingleBit, After, SharedTable;
    bits, bs := [], [];
    for i := 0 to size
      invariant |bits| == |bs| == i && Opens(bits, 3, l, bs)
      invariant forall j {:trigger bs[j]} :: 0 <= j < i ==>
        bs[j] == After(RowValues(RowOf(xs, size, l, j), 3, l), RowValues(RowOf(ys, size, l, j), 3, l), inverse, |xs|)
    {
      var x, y := RowOf(xs, size, l, i), RowOf(ys, size, l, i);
      var bit := CompareRows(x, y, inverse, l, k, ms(i));
      bits, bs := bits + [bit], bs + [After(RowValues(x, 3, l), RowValues(y, 3, l), inverse, |xs|)];
    }
  }

  /** The two sides of all key columns. */
  method ReadKeys(keys: seq<array<Joint<Word>>>, n: nat, h: nat, flip: bool, l: nat)
    returns (xs: seq<seq<Joint<Word>>>, ys: seq<seq<Joint<Word>>>)
    requires Boxes(n, h) && Separate(keys, n) && SharedTable(Contents(keys), 3, n, l)
    ensures |xs| == |ys| == |keys| && SharedTable(xs, 3, n / 2, l) && SharedTable(ys, 3, n / 2, l)
    ensures forall c, i :: 0 <= c < |keys| && 0 <= i < n / 2 ==>
      xs[c][i] == keys[c][LeftAt(i, n, h, flip)] && ys[c][i] == keys[c][RightAt(i, n, h, flip)]
  {
    hide Width, LeftAt, RightAt;
    xs, ys := [], [];
    for c := 0 to |keys|
      invariant |xs| == |ys| == c && SharedTable(xs, 3, n / 2, l) && SharedTable(ys, 3, n / 2, l)
      invariant forall d, i :: 0 <= d < c && 0 <= i < n / 2 ==>
        xs[d][i] == keys[d][LeftAt(i, n, h, flip)] && ys[d][i] == keys[d][RightAt(i, n, h, flip)]
    {
      assert SharedVector(Contents(keys)[c], 3, l);
      var x, y := ReadColumn(keys[c], h, flip);
      xs, ys := xs + [x], ys + [y];
    }
  }

  // ---------------------------------------------------------------- sorting

  /** The masks of one step: for the comparisons, and for the swaps of the three lists of columns. */
  datatype StepMasks = StepMasks(
    compare: nat -> nat -> nat -> AndMask,
    keys: nat -> nat -> nat -> AndMask,
    dataB: nat -> nat -> nat -> AndMask,
    dataA: nat -> nat -> nat -> MulMask)

  ghost predicate GoodStepMasks(ms: StepMasks, l: nat, k: nat) {
    && RowMasks(ms.compare, l, k)
    && (forall c :: SwapMasks(ms.keys(c), 3, l))
    && (forall c :: SwapMasks(ms.dataB(c), 3, l))
    && (forall c :: SwapMulMasks(ms.dataA(c), 3, Pow2(l)))
  }

  /** What the parties hold between two steps. */
  ghost predicate SharedColumns(keys: seq<seq<Joint<Word>>>, dataA: seq<seq<Joint<int>>>, dataB: seq<seq<Joint<Word>>>,
                                n: nat, l: nat) {
    SharedTable(keys, 3, n, l) && SharedNumberTable(dataA, 3, n) && SharedTable(dataB, 3, n, l)
  }

  /** Pair by pair, whether the left row comes after the right one. */
  ghost predicate PairOrder(vs: seq<seq<int>>, desc: seq<bool>, n: nat, h: nat, flip: bool, bs: seq<bool>)
    requires Boxes(n, h) && |bs| == n / 2 && |vs| == |desc|
  {
    forall i {:trigger bs[i]} :: 0 <= i < n / 2 ==>
      bs[i] == RowOrder(vs, desc)(LeftAt(i, n, h, flip), RightAt(i, n, h, flip))
  }

  lemma RowOfKeys(ts: seq<seq<Joint<Word>>>, side: seq<seq<Joint<Word>>>, n: nat, size: nat, l: nat, i: nat, p: nat)
    requires l > 0 && SharedTable(ts, 3, n, l) && SharedTable(side, 3, size, l) && |side| == |ts| && i < size && p < n
    requires forall c :: 0 <= c < |ts| ==> side[c][i] == ts[c][p]
    ensures RowValues(RowOf(side, size, l, i), 3, l) == Row(Values(SecretTable(ts, 3, n, l), l), p)
  {
    hide Width, SecretB, ToInt;
    var row, vs := RowOf(side, size, l, i), Values(SecretTable(ts, 3, n, l), l);
    forall c | 0 <= c < |ts| ensures RowValues(row, 3, l)[c] == Cell(vs[c], p) {
      assert vs[c][p] == ToInt(SecretB(ts[c][p], l));
    }
  }

  method CompareKeys(keys: seq<array<Joint<Word>>>, desc: seq<bool>, n: nat, h: nat, flip: bool, l: nat, k: nat,
                     ms: nat -> nat -> nat -> AndMask) returns (bits: seq<Joint<Word>>, ghost bs: seq<bool>)
    requires k >= 2 && l == Pow2(k) && |keys| == |desc| > 0 && Boxes(n, h) && Separate(keys, n)
    requires SharedTable(Contents(keys), 3, n, l) && RowMasks(ms, l, k)
    ensures |bits| == |bs| == n / 2 && Opens(bits, 3, l, bs)
    ensures PairOrder(Values(SecretTable(Contents(keys), 3, n, l), l), desc, n, h, flip, bs)
  {
    hide Width, SecretB, SingleBit, After, LeftAt, RightAt, Opens, RowMasks, SharedTable, ToInt;
    var xs, ys := ReadKeys(keys, n, h, flip, l);
    bits, bs := CompareVectors(xs, ys, desc, n / 2, l, k, ms);
    ghost var ts := Contents(keys);
    forall i {:trigger bs[i]} | 0 <= i < n / 2
      ensures bs[i] ==
              RowOrder(Values(SecretTable(ts, 3, n, l), l), desc)(LeftAt(i, n, h, flip), RightAt(i, n, h, flip))
    {
      RowOfKeys(ts, xs, n, n / 2, l, i, LeftAt(i, n, h, flip));
      RowOfKeys(ts, ys, n, n / 2, l, i, RightAt(i, n, h, flip));
    }
  }

  /** One step of the sort: all columns are permuted alike, and the permutation is the step of the network. */
  method SortStep(keys: seq<array<Joint<Word>>>, dataA: seq<array<Joint<int>>>, dataB: seq<array<Joint<Word>>>,
                  desc: seq<bool>, n: nat, h: nat, flip: bool, l: nat, k: nat, ms: StepMasks)
    returns (ghost bs: seq<bool>)
    requires k >= 2 && l == Pow2(k) && |keys| == |desc| > 0 && Boxes(n, h)
    requires Separate(keys + dataB, n) && Separate(dataA, n) && GoodStepMasks(ms, l, k)
    requires SharedColumns(Contents(keys), Contents(dataA), Contents(dataB), n, l)
    modifies keys, dataA, dataB
    ensures SharedColumns(Contents(keys), Contents(dataA), Contents(dataB), n, l)
    ensures |bs| == n / 2
    ensures PairOrder(Values(old(SecretTable(Contents(keys), 3, n, l)), l), desc, n, h, flip, bs)
    ensures SecretTable(Contents(keys), 3, n, l) ==
            PermuteAll(old(SecretTable(Contents(keys), 3, n, l)), n, Picks(n, h, flip, bs))
    ensures SecretTable(Contents(dataB), 3, n, l) ==
            PermuteAll(old(SecretTable(Contents(dataB), 3, n, l)), n, Picks(n, h, flip, bs))
    ensures NumberTable(Contents(dataA), 3, n, Pow2(l)) ==
            PermuteAll(old(NumberTable(Contents(dataA), 3, n, Pow2(l))), n, Picks(n, h, flip, bs))
  {
    hide Width, SecretB, SingleBit, RowMasks, SharedTable, SharedNumberTable, PairOrder,
      SecretA, SharesOf, SwapMasks, SwapMulMasks;
    SeparateLists(keys, dataB, n);
    var bits;
    bits, bs := CompareKeys(keys, desc, n, h, flip, l, k, ms.compare);
    SwapTableB(keys, n, h, flip, bits, bs, 3, l, ms.keys);
    if |dataB| > 0 {
      SwapTableB(dataB, n, h, flip, bits, bs, 3, l, ms.dataB);
    }
    if |dataA| > 0 {
      var bitsA := BitsToNumbers(bits, bs, 3, l);
      SwapTableA(dataA, n, h, flip, bitsA, bs, 3, Pow2(l), ms.dataA);
    }
  }

  lemma SeparateLists<T>(a: seq<array<T>>, b: seq<array<T>>, n: nat)
    requires Separate(a + b, n)
    ensures Separate(a, n) && Separate(b, n) && forall c, d :: 0 <= c < |a| && 0 <= d < |b| ==> a[c] != b[d]
  {
    var all := a + b;
    assert forall c :: 0 <= c < |a| ==> a[c] == all[c];
    assert forall d :: 0 <= d < |b| ==> b[d] == all[|a| + d];
  }
}
