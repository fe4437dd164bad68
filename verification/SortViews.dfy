/** The left and right views of a step of `bitonic_sort`: disjoint, together the whole column, and pairing up the
    positions that the network compares. */
module SortViews {
  import opened Arith
  import opened Views
  import opened Bitonic

  function LeftView(n: nat, h: nat): (v: View) {
    Alternating(Whole(n), h, h)
  }

  function RightView(n: nat, h: nat, flip: bool): (v: View) {
    var rest := Simple(Whole(n), h, n - 1, 1);
    if flip then ReversedAlternating(rest, h, h) else Alternating(rest, h, h)
  }

  predicate Boxes(n: nat, h: nat) {
    h > 0 && n > 0 && n % (2 * h) == 0
  }

  lemma BoxCount(n: nat, h: nat) returns (t: nat)
    requires Boxes(n, h)
    ensures t > 0 && n == t * (2 * h) && t * h == n / 2 && n >= 2 * h
    ensures n / (2 * h) == t && (n - h) / (2 * h) == t - 1 && (n - h) % (2 * h) == h
  {
    var c := n / (2 * h);
    DivMod(n, 2 * h);
    if c <= 0 { MulMono(c, 0, 2 * h); }
    t := c;
    MulMono(1, t, 2 * h);
    DivModUnique(n - h, 2 * h, t - 1, h);
  }

  lemma ViewSizes(n: nat, h: nat, flip: bool)
    requires Boxes(n, h)
    ensures var x, y := LeftView(n, h), RightView(n, h, flip);
      && Proper(x) && Assignable(x) && Length(x) == n && Size(x) == n / 2
      && Proper(y) && Assignable(y) && Length(y) == n && Size(y) == n / 2
  {
    var t := BoxCount(n, h);
    DivByOne(n - 1 - h);
    assert AltSize(n, h, 2 * h) == n / 2;
    assert AltSize(n - h, h, 2 * h) == n / 2 by { assert (t - 1) * h + h == t * h; }
    assert SimpleSize(n, h, n - 1, 1) == n - h;
  }

  /** The number of the pair that position `p` belongs to. */
  function PairIndex(p: nat, h: nat, flip: bool): (i: int)
    requires h > 0
  {
    var a := if IsLeft(p, h) then p else Partner(p, h, flip);
    a / (2 * h) * h + a % (2 * h)
  }

  /** Pair `i` lies in box `i / h`. */
  lemma PairBox(n: nat, h: nat, i: nat)
    requires Boxes(n, h) && i < n / 2
    ensures var c, r := i / h, i % h; 0 <= c * h && 0 <= c && 0 <= r < h && i == c * h + r && c * (2 * h) + 2 * h <= n
  {
    var t := BoxCount(n, h);
    DivMod(i, h);
    var c := i / h;
    if c < 0 { MulMono(c, -1, h); }
    if c >= t { MulMono(t, c, h); }
    MulMono(c + 1, t, 2 * h);
    MulMono(0, c, h);
  }

  lemma PairPositions(n: nat, h: nat, flip: bool, i: nat)
    requires Boxes(n, h) && i < n / 2
    ensures Proper(LeftView(n, h)) && Proper(RightView(n, h, flip))
    ensures i < Size(LeftView(n, h)) && i < Size(RightView(n, h, flip))
    ensures At(LeftView(n, h), i) == i / h * (2 * h) + i % h
    ensures At(RightView(n, h, flip), i) == i / h * (2 * h) + (if flip then 2 * h - 1 - i % h else h + i % h)
  {
    hide At, Size, Proper, Assignable;
    ViewSizes(n, h, flip);
    PairBox(n, h, i);
    DivByOne(n - 1 - h);
    AtLeft(n, h, i);
    AtRight(n, h, flip, i);
    assert SimpleSize(n, h, n - 1, 1) == n - h;
  }

  lemma AtLeft(n: nat, h: nat, i: nat)
    requires Proper(LeftView(n, h)) && i < Size(LeftView(n, h))
    ensures At(LeftView(n, h), i) == AltIndex(i, h, 2 * h)
  {
  }

  lemma AtRight(n: nat, h: nat, flip: bool, i: nat)
    requires Proper(RightView(n, h, flip)) && i < Size(RightView(n, h, flip))
    ensures At(RightView(n, h, flip), i) ==
      h + (if flip then ReversedAltIndex(i, h, 2 * h, SimpleSize(n, h, n - 1, 1)) else AltIndex(i, h, 2 * h))
  {
    var v := RightView(n, h, flip);
    LocalInBounds(v, i);
    assert At(v, i) == At(v.base, Local(v, i));
    LocalInBounds(v.base, Local(v, i));
    assert At(v.base, Local(v, i)) == Local(v.base, Local(v, i));
  }

  /** The two elements with number `i` are the two partners of the network. */
  lemma ViewsPairPartners(n: nat, h: nat, flip: bool, i: nat)
    requires Boxes(n, h) && i < n / 2
    ensures Proper(LeftView(n, h)) && Proper(RightView(n, h, flip))
    ensures i < Size(LeftView(n, h)) && i < Size(RightView(n, h, flip))
    ensures var p, q := At(LeftView(n, h), i), At(RightView(n, h, flip), i);
      && p < n && q < n && IsLeft(p, h) && !IsLeft(q, h) && Partner(p, h, flip) == q && Partner(q, h, flip) == p
      && PairIndex(p, h, flip) == PairIndex(q, h, flip) == i
  {
    hide At, Proper, Size, LeftView, RightView;
    PairPositions(n, h, flip, i);
    PairBox(n, h, i);
    var c, r := i / h, i % h;
    var p := At(LeftView(n, h), i);
    DivModUnique(p, 2 * h, c, r);
    PartnerInBox(p, h, flip);
  }

  /** Every position is reached through exactly one of the two views. */
  lemma ViewsCover(n: nat, h: nat, flip: bool, p: nat)
    requires Boxes(n, h) && p < n
    ensures 0 <= PairIndex(p, h, flip) < n / 2
    ensures var i := PairIndex(p, h, flip);
      && Proper(LeftView(n, h)) && Proper(RightView(n, h, flip))
      && i < Size(LeftView(n, h)) && i < Size(RightView(n, h, flip))
      && (if IsLeft(p, h) then At(LeftView(n, h), i) == p else At(RightView(n, h, flip), i) == p)
  {
    hide At, Proper, Size, LeftView, RightView, Partner, IsLeft;
    PartnerInBox(p, h, flip);
    var a := if IsLeft(p, h) then p else Partner(p, h, flip);
    var i := PairIndex(p, h, flip);
    LeftPair(n, h, p, a);
    LeftReaches(n, h, flip, a, i);
    ViewsPairPartners(n, h, flip, i);
  }

  lemma LeftReaches(n: nat, h: nat, flip: bool, a: nat, i: nat)
    requires Boxes(n, h) && i < n / 2 && i / h == a / (2 * h) && i % h == a % (2 * h)
    ensures Proper(LeftView(n, h)) && i < Size(LeftView(n, h)) && At(LeftView(n, h), i) == a
  {
    hide At, Proper, Size, LeftView, RightView;
    PairPositions(n, h, flip, i);
    DivMod(a, 2 * h);
  }

  lemma LeftPair(n: nat, h: nat, p: nat, a: nat)
    requires Boxes(n, h) && p < n && IsLeft(a, h) && a - a % (2 * h) == p - p % (2 * h)
    ensures var i := a / (2 * h) * h + a % (2 * h);
      && 0 <= i < n / 2 && i / h == a / (2 * h) && i % h == a % (2 * h)
  {
    hide IsLeft;
    var t := BoxCount(n, h);
    DivMod(a, 2 * h);
    DivMod(p, 2 * h);
    assert a % (2 * h) < h by { LeftOffset(a, h); }
    PairInBox(a / (2 * h), a % (2 * h), h, t, n, p, p % (2 * h));
  }

  lemma LeftOffset(a: nat, h: nat)
    requires h > 0 && IsLeft(a, h)
    ensures a % (2 * h) < h
  {
  }

  lemma PairInBox(c: int, o: int, h: nat, t: nat, n: nat, p: nat, r: int)
    requires h > 0 && 0 <= o < h && 0 <= r < 2 * h && n == t * (2 * h) && t * h == n / 2 && p < n
    requires c * (2 * h) + r == p
    ensures 0 <= c * h + o < n / 2 && (c * h + o) / h == c && (c * h + o) % h == o
  {
    if c < 0 { MulMono(c, -1, 2 * h); }
    if c >= t { MulMono(t, c, 2 * h); }
    MulMono(0, c, h);
    MulMono(c + 1, t, h);
    DivModUnique(c * h + o, h, c, o);
  }
}
