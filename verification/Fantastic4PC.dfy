/** The 4-party protocol of Dalskov et al.: products, with one party that may send anything. */
module Fantastic4PC {
  import opened Sharing
  import opened Algebra

  /** The masks drawn for one product.  `first[i][s]` is `r_1_1`, `r_1_2`, `r_1_3` of party `i`; the others are
      the `r_2_*` draws of the parties that make them. */
  datatype Masks<T> = Masks(first: Joint<T>, r21at0: T, r21at3: T, r22at1: T, r22at2: T, r23at1: T)

  /** Everything one party puts on the wire in a product. */
  datatype Sent<T> = Sent(shares11: T, shares12Hash: T, shares21: T)

  datatype Inbox<T> = Inbox(shares13: T, shares22: T)

  datatype Outcome<T> = Accuses(first: nat, second: nat) | Holds(shares: seq<T>)

  function Cross<T>(o: Ops<T>, x: seq<T>, y: seq<T>, s: nat, t: nat): (v: T)
    requires |x| == |y| == 3 && s < 3 && t < 3
  {
    o.plus(o.times(x[s], y[t]), o.times(x[t], y[s]))
  }

  function SecondMask<T>(k: Masks<T>, i: nat): (v: T)
    requires i < 4
  {
    if i == 0 then k.r21at0 else if i == 1 then k.r22at1 else if i == 2 then k.r22at2 else k.r21at3
  }

  predicate Fitting<T>(x: Joint<T>, y: Joint<T>, k: Masks<T>) {
    Shaped(x) && Shaped(y) && Shaped(k.first) && |x| == |y| == |k.first| == 4
  }

  function Send<T>(o: Ops<T>, x: seq<T>, y: seq<T>, first: seq<T>, second: T): (s: Sent<T>)
    requires |x| == |y| == |first| == 3
  {
    Sent(o.minus(Cross(o, x, y, 0, 1), first[0]),
         o.minus(Cross(o, x, y, 1, 2), first[1]),
         o.minus(Cross(o, x, y, 0, 2), second))
  }

  function HonestMessages<T>(o: Ops<T>, x: Joint<T>, y: Joint<T>, k: Masks<T>): (w: seq<Sent<T>>)
    requires Fitting(x, y, k)
    ensures |w| == 4
    ensures forall i :: 0 <= i < 4 ==> w[i] == Send(o, x[i], y[i], k.first[i], SecondMask(k, i))
  {
    seq(4, i requires 0 <= i < 4 => Send(o, x[i], y[i], k.first[i], SecondMask(k, i)))
  }

  // ---------------------------------------------------------- message phase

  /** The value and its copy that party `i` compares in the first check. */
  function FirstValue<T>(w: seq<Sent<T>>, i: nat): (v: T)
    requires |w| == 4 && i < 4
  {
    w[Peer(4, 2, i)].shares11
  }

  function FirstCopy<T>(w: seq<Sent<T>>, i: nat): (v: T)
    requires |w| == 4 && i < 4
  {
    w[Peer(4, 1, i)].shares12Hash
  }

  /** Only parties 2 and 3 take part in the second exchange as receivers. */
  function SecondValue<T>(w: seq<Sent<T>>, i: nat): (v: T)
    requires |w| == 4 && i < 4
  {
    w[Peer(4, 1, i)].shares21
  }

  function SecondCopy<T>(w: seq<Sent<T>>, i: nat): (v: T)
    requires |w| == 4 && i < 4
  {
    w[Peer(4, 3, i)].shares21
  }

  /** What party `i` does with its own data and the messages on the wire. */
  function Finish<T(==)>(o: Ops<T>, i: nat, x: seq<T>, y: seq<T>, k: Masks<T>, own: Sent<T>, w: seq<Sent<T>>)
      : (r: Outcome<T>)
    requires i < 4 && |x| == |y| == 3 && |w| == 4
    requires Shaped(k.first) && |k.first| == 4
  {
    if FirstValue(w, i) != FirstCopy(w, i) then Accuses(Peer(4, 2, i), Peer(4, 1, i))
    else if i >= 2 && SecondValue(w, i) != SecondCopy(w, i) then Accuses(Peer(4, 1, i), Peer(4, 3, i))
    else Holds(Combine(o, i, x, y, k, own, Inbox(FirstValue(w, i), SecondValue(w, i))))
  }

  function Combine<T>(o: Ops<T>, i: nat, x: seq<T>, y: seq<T>, k: Masks<T>, own: Sent<T>, box: Inbox<T>)
      : (r: seq<T>)
    requires i < 4 && |x| == |y| == 3
    requires Shaped(k.first) && |k.first| == 4
    ensures |r| == 3
  {
    var r1 := k.first[i];
    var b1 := o.plus(o.plus(o.times(x[0], y[0]), own.shares11), r1[0]);
    var b2 := o.plus(o.plus(o.times(x[1], y[1]), own.shares12Hash), r1[1]);
    var b3 := o.plus(o.plus(o.times(x[2], y[2]), box.shares13), r1[2]);
    if i == 0 then
      [o.plus(o.plus(b1, own.shares21), o.zero), o.plus(b2, k.r21at0), b3]
    else if i == 1 then
      [o.plus(b1, k.r23at1), o.plus(b2, k.r22at1), o.plus(b3, own.shares21)]
    else if i == 2 then
      [b1, o.plus(o.plus(b2, box.shares22), k.r22at2), o.plus(b3, own.shares21)]
    else
      [o.plus(b1, own.shares21), o.plus(o.plus(b2, box.shares22), k.r21at3), b3]
  }

  /** The run of all four parties when the wire carries `w`. */
  function Run<T(==)>(o: Ops<T>, x: Joint<T>, y: Joint<T>, k: Masks<T>, w: seq<Sent<T>>): (rs: seq<Outcome<T>>)
    requires Fitting(x, y, k) && |w| == 4
    ensures |rs| == 4
  {
    var own := HonestMessages(o, x, y, k);
    seq(4, i requires 0 <= i < 4 => Finish(o, i, x[i], y[i], k, own[i], w))
  }

  /** Both copies of everything that is checked are equal when nobody deviates. */
  predicate CopiesAgree<T(==)>(w: seq<Sent<T>>)
    requires |w| == 4
  {
    && (forall i :: 0 <= i < 4 ==> FirstValue(w, i) == FirstCopy(w, i))
    && (forall i :: 2 <= i < 4 ==> SecondValue(w, i) == SecondCopy(w, i))
  }

  /** `w` is `honest` except for what party `bad` sent. */
  predicate Deviates<T(==)>(w: seq<Sent<T>>, honest: seq<Sent<T>>, bad: nat)
    requires |w| == |honest| == 4
  {
    forall i :: 0 <= i < 4 && i != bad ==> w[i] == honest[i]
  }

  /** Whatever one party sends, an honest party either ends up with exactly its shares of the honest run or stops
      and accuses two parties, one of which is the deviating one. */
  lemma OneBadParty<T>(o: Ops<T>, x: Joint<T>, y: Joint<T>, k: Masks<T>, w: seq<Sent<T>>, bad: nat, i: nat)
    requires Fitting(x, y, k) && |w| == 4 && bad < 4 && i < 4 && i != bad
    requires CopiesAgree(HonestMessages(o, x, y, k))
    requires Deviates(w, HonestMessages(o, x, y, k), bad)
    ensures var r := Run(o, x, y, k, w)[i];
      if r.Accuses? then r.first == bad || r.second == bad
      else r == Run(o, x, y, k, HonestMessages(o, x, y, k))[i]
  {
    var honest := HonestMessages(o, x, y, k);
    assert FirstValue(honest, i) == FirstCopy(honest, i);
    assert i >= 2 ==> SecondValue(honest, i) == SecondCopy(honest, i);
    if i < 2 {
      UnusedInbox(o, i, x[i], y[i], k, honest[i], FirstValue(honest, i), SecondValue(w, i), SecondValue(honest, i));
    }
  }

  lemma UnusedInbox<T>(o: Ops<T>, i: nat, x: seq<T>, y: seq<T>, k: Masks<T>, own: Sent<T>, a: T, b: T, c: T)
    requires i < 2 && |x| == |y| == 3
    requires Shaped(k.first) && |k.first| == 4
    ensures Combine(o, i, x, y, k, own, Inbox(a, b)) == Combine(o, i, x, y, k, own, Inbox(a, c))
  {
  }

  // -------------------------------------------------------------- honest run

  /** The three holders of a component draw the same mask for it, and the second round is not masked. */
  predicate MasksAgree<T(==)>(o: Ops<T>, k: Masks<T>) {
    && Replicated(k.first) && |k.first| == 4
    && k.r21at0 == k.r21at3 == k.r22at1 == k.r22at2 == k.r23at1 == o.zero
  }

  /** The cross term of component `j` with the next one. */
  function NextCross<T>(o: Ops<T>, a: seq<T>, b: seq<T>, j: nat): (v: T)
    requires |a| == |b| == 4 && j < 4
  {
    var n := (j + 1) % 4;
    o.plus(o.times(a[j], b[n]), o.times(a[n], b[j]))
  }

  /** The same as it is sent, masked. */
  function MaskedCross<T>(o: Ops<T>, a: seq<T>, b: seq<T>, r: seq<T>, j: nat): (v: T)
    requires |a| == |b| == |r| == 4 && j < 4
  {
    o.minus(NextCross(o, a, b, j), r[j])
  }

  /** The cross term of component `j` with the opposite one. */
  function OppositeCross<T>(o: Ops<T>, a: seq<T>, b: seq<T>, j: nat): (v: T)
    requires |a| == |b| == 4 && j < 2
  {
    o.plus(o.times(a[j], b[j + 2]), o.times(a[j + 2], b[j]))
  }

  /** The part of the product that stays with component `j`: its own square, the cross term with the next
      component and, for the first two components, the cross term with the opposite one. */
  function ProductComponent<T>(o: Ops<T>, a: seq<T>, b: seq<T>, r: seq<T>, j: nat): (v: T)
    requires |a| == |b| == |r| == 4 && j < 4
  {
    var base := o.plus(o.plus(o.times(a[j], b[j]), MaskedCross(o, a, b, r, j)), r[j]);
    if j < 2 then o.plus(base, OppositeCross(o, a, b, j)) else base
  }

  function Product<T>(o: Ops<T>, x: Joint<T>, y: Joint<T>, k: Masks<T>): (z: Joint<T>)
    requires Fitting(x, y, k)
    ensures Replicated(z) && |z| == 4
  {
    var a, b, r := Components(x), Components(y), Components(k.first);
    Deal(seq(4, j requires 0 <= j < 4 => ProductComponent(o, a, b, r, j)))
  }

  lemma ProductComponents<T>(o: Ops<T>, x: Joint<T>, y: Joint<T>, k: Masks<T>)
    requires Fitting(x, y, k)
    ensures var a, b, r := Components(x), Components(y), Components(k.first);
      Components(Product(o, x, y, k)) == seq(4, j requires 0 <= j < 4 => ProductComponent(o, a, b, r, j))
  {
  }

  /** The shares of party `i`, cut out of the components. */
  function ViewOf<T>(c: seq<T>, i: nat): (v: seq<T>)
    requires |c| == 4 && i < 4
    ensures |v| == 3
  {
    [c[(i + 1) % 4], c[(i + 2) % 4], c[(i + 3) % 4]]
  }

  lemma SharesOf<T>(x: Joint<T>, i: nat)
    requires Replicated(x) && |x| == 4 && i < 4
    ensures x[i] == ViewOf(Components(x), i)
  {
    var c := Components(x);
    assert x[i][0] == c[Layout(4, i, 0)] && x[i][1] == c[Layout(4, i, 1)] && x[i][2] == c[Layout(4, i, 2)];
  }

  lemma HonestMessage<T(!new)>(o: Ops<T>, a: seq<T>, b: seq<T>, first: seq<T>, second: T, i: nat)
    requires Lawful(o) && |a| == |b| == 4 && |first| == 3 && i < 4 && Operable(o, a) && Operable(o, b)
    ensures Send(o, ViewOf(a, i), ViewOf(b, i), first, second) ==
            Sent(o.minus(NextCross(o, a, b, (i + 1) % 4), first[0]), o.minus(NextCross(o, a, b, (i + 2) % 4), first[1]),
                 o.minus(OppositeCross(o, a, b, if i == 0 || i == 2 then 1 else 0), second))
  {
    hide Lawful;
    var s, u, t := (i + 1) % 4, (i + 2) % 4, (i + 3) % 4;
    assert (s + 1) % 4 == u && (u + 1) % 4 == t;
    SwappedCross(o, a[s], b[t], a[t], b[s]);
  }

  lemma SwappedCross<T(!new)>(o: Ops<T>, a: T, b: T, c: T, d: T)
    requires Lawful(o) && o.operand(a) && o.operand(b) && o.operand(c) && o.operand(d)
    ensures o.plus(o.times(a, b), o.times(c, d)) == o.plus(o.times(c, d), o.times(a, b))
  {
    assert o.operand(o.times(a, b)) && o.operand(o.times(c, d));
  }

  lemma MaskedMessage<T(!new)>(o: Ops<T>, a: seq<T>, b: seq<T>, r: seq<T>, second: T, i: nat)
    requires Lawful(o) && |a| == |b| == |r| == 4 && i < 4 && Operable(o, a) && Operable(o, b)
    ensures Send(o, ViewOf(a, i), ViewOf(b, i), ViewOf(r, i), second) ==
            Sent(MaskedCross(o, a, b, r, (i + 1) % 4), MaskedCross(o, a, b, r, (i + 2) % 4),
                 o.minus(OppositeCross(o, a, b, if i == 0 || i == 2 then 1 else 0), second))
  {
    hide Lawful, Send, NextCross, OppositeCross, Operable;
    HonestMessage(o, a, b, ViewOf(r, i), second, i);
  }

  lemma HonestShares<T(!new)>(o: Ops<T>, a: seq<T>, b: seq<T>, k: Masks<T>, r: seq<T>, i: nat, own: Sent<T>)
    requires Lawful(o) && MasksAgree(o, k) && |a| == |b| == |r| == 4 && i < 4 && k.first[i] == ViewOf(r, i)
    requires Operable(o, a) && Operable(o, b) && Operable(o, r)
    requires own == Send(o, ViewOf(a, i), ViewOf(b, i), ViewOf(r, i), o.zero)
    ensures Combine(o, i, ViewOf(a, i), ViewOf(b, i), k, own,
                    Inbox(MaskedCross(o, a, b, r, (i + 3) % 4), OppositeCross(o, a, b, if i == 2 then 0 else 1))) ==
            ViewOf(seq(4, j requires 0 <= j < 4 => ProductComponent(o, a, b, r, j)), i)
  {
    hide Lawful, Elements, MaskedCross, OppositeCross, Send, ProductComponent, Combine;
    MaskedMessage(o, a, b, r, o.zero, i);
    ElementOpposite(o, a, b, if i == 0 || i == 2 then 1 else 0);
    var box := Inbox(MaskedCross(o, a, b, r, (i + 3) % 4), OppositeCross(o, a, b, if i == 2 then 0 else 1));
    forall j | 0 <= j < 4
      ensures o.plus(ProductComponent(o, a, b, r, j), o.zero) == ProductComponent(o, a, b, r, j)
    {
      ZeroAddsNothing(o, a, b, r, j);
    }
    forall c | 0 <= c < 3
      ensures Combine(o, i, ViewOf(a, i), ViewOf(b, i), k, own, box)[c] == ProductComponent(o, a, b, r, (i + 1 + c) % 4)
    {
      CombinedShare(o, a, b, k, r, i, own, box, c);
    }
  }

  /** Share by share, `Combine` adds to the square of a component its masked cross term, the mask and, for the first
      two components, the cross term with the opposite one. */
  lemma CombinedShare<T(!new)>(o: Ops<T>, a: seq<T>, b: seq<T>, k: Masks<T>, r: seq<T>, i: nat, own: Sent<T>,
                               box: Inbox<T>, c: nat)
    requires MasksAgree(o, k) && |a| == |b| == |r| == 4 && i < 4 && c < 3 && k.first[i] == ViewOf(r, i)
    requires own.shares11 == MaskedCross(o, a, b, r, (i + 1) % 4)
      && own.shares12Hash == MaskedCross(o, a, b, r, (i + 2) % 4)
    requires own.shares21 == OppositeCross(o, a, b, if i == 0 || i == 2 then 1 else 0)
    requires box == Inbox(MaskedCross(o, a, b, r, (i + 3) % 4), OppositeCross(o, a, b, if i == 2 then 0 else 1))
    requires forall j :: 0 <= j < 4 ==>
      o.plus(ProductComponent(o, a, b, r, j), o.zero) == ProductComponent(o, a, b, r, j)
    ensures Combine(o, i, ViewOf(a, i), ViewOf(b, i), k, own, box)[c] == ProductComponent(o, a, b, r, (i + 1 + c) % 4)
  {
    hide MaskedCross, OppositeCross;
    var j := (i + 1 + c) % 4;
    assert ViewOf(a, i)[c] == a[j] && ViewOf(b, i)[c] == b[j] && ViewOf(r, i)[c] == r[j];
    assert o.plus(ProductComponent(o, a, b, r, j), o.zero) == ProductComponent(o, a, b, r, j);
  }

  lemma ZeroAddsNothing<T(!new)>(o: Ops<T>, a: seq<T>, b: seq<T>, r: seq<T>, j: nat)
    requires Lawful(o) && |a| == |b| == |r| == 4 && j < 4
    requires Operable(o, a) && Operable(o, b) && Operable(o, r)
    ensures o.plus(ProductComponent(o, a, b, r, j), o.zero) == ProductComponent(o, a, b, r, j)
  {
    ElementComponent(o, a, b, r, j);
  }

  lemma ElementOpposite<T(!new)>(o: Ops<T>, a: seq<T>, b: seq<T>, j: nat)
    requires Lawful(o) && |a| == |b| == 4 && j < 2 && Operable(o, a) && Operable(o, b)
    ensures o.element(OppositeCross(o, a, b, j)) && o.operand(OppositeCross(o, a, b, j))
    ensures o.minus(OppositeCross(o, a, b, j), o.zero) == OppositeCross(o, a, b, j)
  {
    assert o.element(o.times(a[j], b[j + 2])) && o.element(o.times(a[j + 2], b[j]));
  }

  lemma ElementComponent<T(!new)>(o: Ops<T>, a: seq<T>, b: seq<T>, r: seq<T>, j: nat)
    requires Lawful(o) && |a| == |b| == |r| == 4 && j < 4
    requires Operable(o, a) && Operable(o, b) && Operable(o, r)
    ensures o.element(ProductComponent(o, a, b, r, j))
    ensures o.element(o.plus(o.plus(o.times(a[j], b[j]), MaskedCross(o, a, b, r, j)), r[j]))
  {
    var n := (j + 1) % 4;
    assert o.element(o.plus(o.times(a[j], b[n]), o.times(a[n], b[j])));
    assert o.element(MaskedCross(o, a, b, r, j));
    if j < 2 {
      assert o.element(OppositeCross(o, a, b, j));
    }
  }

  /** Consistent sharings of operands, and masks of which nothing else is known. */
  ghost predicate HonestInputs<T(!new)>(o: Ops<T>, x: Joint<T>, y: Joint<T>, k: Masks<T>) {
    && Lawful(o) && Replicated(x) && Replicated(y) && Fitting(x, y, k)
    && Operable(o, Components(x)) && Operable(o, Components(y))
    && (forall i :: 0 <= i < 4 ==> Operable(o, k.first[i]))
    && Operable(o, [k.r21at0, k.r21at3, k.r22at1, k.r22at2, k.r23at1])
  }

  lemma HonestWire<T(!new)>(o: Ops<T>, x: Joint<T>, y: Joint<T>, k: Masks<T>, i: nat)
    requires HonestInputs(o, x, y, k) && i < 4
    ensures var a, b := Components(x), Components(y);
      HonestMessages(o, x, y, k)[i] ==
        Sent(o.minus(NextCross(o, a, b, (i + 1) % 4), k.first[i][0]),
             o.minus(NextCross(o, a, b, (i + 2) % 4), k.first[i][1]),
             o.minus(OppositeCross(o, a, b, if i == 0 || i == 2 then 1 else 0), SecondMask(k, i)))
  {
    SharesOf(x, i);
    SharesOf(y, i);
    HonestMessage(o, Components(x), Components(y), k.first[i], SecondMask(k, i), i);
  }

  /** The mask that party `p` draws for its share `c`. */
  function FirstMask<T>(k: Masks<T>, p: nat, c: nat): (r: T)
    requires Shaped(k.first) && |k.first| == 4 && p < 4 && c < 3
  {
    k.first[p][c]
  }

  /** Both senders of the cross term that party `i` lacks mask it with their own draw. */
  lemma FirstArrival<T(!new)>(o: Ops<T>, x: Joint<T>, y: Joint<T>, k: Masks<T>, i: nat)
    requires HonestInputs(o, x, y, k) && i < 4
    ensures var w, cross := HonestMessages(o, x, y, k), NextCross(o, Components(x), Components(y), (i + 3) % 4);
      && FirstValue(w, i) == o.minus(cross, FirstMask(k, (i + 2) % 4, 0))
      && FirstCopy(w, i) == o.minus(cross, FirstMask(k, (i + 1) % 4, 1))
  {
    hide Lawful, NextCross, OppositeCross, HonestMessages, Operable;
    var p, q := (i + 2) % 4, (i + 1) % 4;
    assert Peer(4, 2, i) == p && Peer(4, 1, i) == q && (p + 1) % 4 == (q + 2) % 4 == (i + 3) % 4;
    HonestWire(o, x, y, k, p);
    HonestWire(o, x, y, k, q);
  }

  /** Parties 2 and 3 get the two opposite cross terms twice. */
  lemma SecondArrivals<T(!new)>(o: Ops<T>, x: Joint<T>, y: Joint<T>, k: Masks<T>)
    requires HonestInputs(o, x, y, k)
    ensures var w, a, b := HonestMessages(o, x, y, k), Components(x), Components(y);
      && SecondValue(w, 2) == w[3].shares21 == o.minus(OppositeCross(o, a, b, 0), k.r21at3)
      && SecondCopy(w, 2) == w[1].shares21 == o.minus(OppositeCross(o, a, b, 0), k.r22at1)
      && SecondValue(w, 3) == w[0].shares21 == o.minus(OppositeCross(o, a, b, 1), k.r21at0)
      && SecondCopy(w, 3) == w[2].shares21 == o.minus(OppositeCross(o, a, b, 1), k.r22at2)
  {
    hide Lawful, NextCross, OppositeCross, HonestMessages, Operable;
    HonestWire(o, x, y, k, 0);
    HonestWire(o, x, y, k, 1);
    HonestWire(o, x, y, k, 2);
    HonestWire(o, x, y, k, 3);
  }

  lemma AgreedSeconds<T(!new)>(o: Ops<T>, x: Joint<T>, y: Joint<T>, k: Masks<T>, i: nat)
    requires HonestInputs(o, x, y, k) && MasksAgree(o, k) && 2 <= i < 4
    ensures var w := HonestMessages(o, x, y, k);
      SecondValue(w, i) == SecondCopy(w, i) == OppositeCross(o, Components(x), Components(y), i - 2)
  {
    hide Lawful, NextCross, OppositeCross, HonestMessages, Operable, Replicated, Components, SecondValue, SecondCopy;
    SecondArrivals(o, x, y, k);
    ElementOpposite(o, Components(x), Components(y), 0);
    ElementOpposite(o, Components(x), Components(y), 1);
  }

  /** What arrives when the masks agree. */
  lemma HonestArrivals<T(!new)>(o: Ops<T>, x: Joint<T>, y: Joint<T>, k: Masks<T>, i: nat)
    requires HonestInputs(o, x, y, k) && MasksAgree(o, k) && i < 4
    ensures var a, b, r, w := Components(x), Components(y), Components(k.first), HonestMessages(o, x, y, k);
      && FirstValue(w, i) == FirstCopy(w, i) == MaskedCross(o, a, b, r, (i + 3) % 4)
      && (i >= 2 ==> SecondValue(w, i) == SecondCopy(w, i) == OppositeCross(o, a, b, i - 2))
  {
    hide Lawful, NextCross, OppositeCross, HonestMessages, Operable, FirstValue, FirstCopy, SecondValue, SecondCopy;
    AgreedSenders(o, k, i);
    FirstArrival(o, x, y, k, i);
    if i >= 2 {
      AgreedSeconds(o, x, y, k, i);
    }
  }

  lemma AgreedMask<T>(o: Ops<T>, k: Masks<T>, i: nat)
    requires MasksAgree(o, k) && i < 4
    ensures k.first[i] == ViewOf(Components(k.first), i) && SecondMask(k, i) == o.zero
  {
    hide Replicated, Components;
    SharesOf(k.first, i);
  }

  /** The senders of the cross term that party `i` lacks have drawn the same mask. */
  lemma AgreedSenders<T>(o: Ops<T>, k: Masks<T>, i: nat)
    requires MasksAgree(o, k) && i < 4
    ensures FirstMask(k, (i + 2) % 4, 0) == Components(k.first)[(i + 3) % 4] == FirstMask(k, (i + 1) % 4, 1)
  {
    hide Replicated, Components;
    SharesOf(k.first, (i + 1) % 4);
    SharesOf(k.first, (i + 2) % 4);
  }

  lemma HonestParty<T(!new)>(o: Ops<T>, x: Joint<T>, y: Joint<T>, k: Masks<T>, i: nat)
    requires HonestInputs(o, x, y, k) && MasksAgree(o, k) && i < 4
    ensures Run(o, x, y, k, HonestMessages(o, x, y, k))[i] == Holds(Product(o, x, y, k)[i])
  {
    hide Lawful, MaskedCross, OppositeCross, Operable, Combine, HonestMessages, Product, Finish;
    var a, b, r, w := Components(x), Components(y), Components(k.first), HonestMessages(o, x, y, k);
    HonestConclusion(o, x, y, k, i);
    AgreedMask(o, k, i);
    SharesOf(x, i);
    SharesOf(y, i);
    AgreedComponents(o, x, y, k);
    hide Send;
    assert w[i] == Send(o, ViewOf(a, i), ViewOf(b, i), ViewOf(r, i), o.zero);
    HonestShares(o, a, b, k, r, i, w[i]);
    SharesOf(Product(o, x, y, k), i);
    ProductComponents(o, x, y, k);
  }

  /** No check fails, so party `i` combines what it got. */
  lemma HonestConclusion<T(!new)>(o: Ops<T>, x: Joint<T>, y: Joint<T>, k: Masks<T>, i: nat)
    requires HonestInputs(o, x, y, k) && MasksAgree(o, k) && i < 4
    ensures var a, b, r, w := Components(x), Components(y), Components(k.first), HonestMessages(o, x, y, k);
      Run(o, x, y, k, w)[i] ==
        Holds(Combine(o, i, x[i], y[i], k, w[i],
                      Inbox(MaskedCross(o, a, b, r, (i + 3) % 4), OppositeCross(o, a, b, if i == 2 then 0 else 1))))
  {
    hide Lawful, MaskedCross, OppositeCross, Operable, Combine, HonestMessages, Replicated, Components, FirstValue,
      FirstCopy, SecondValue, SecondCopy, Send;
    var w := HonestMessages(o, x, y, k);
    HonestArrivals(o, x, y, k, i);
    if i < 2 {
      UnusedInbox(o, i, x[i], y[i], k, w[i], FirstValue(w, i), SecondValue(w, i),
                  OppositeCross(o, Components(x), Components(y), 1));
    }
  }

  lemma AgreedComponents<T(!new)>(o: Ops<T>, x: Joint<T>, y: Joint<T>, k: Masks<T>)
    requires HonestInputs(o, x, y, k)
    ensures Operable(o, Components(k.first))
  {
  }

  /** Without deviation no check fails and every party holds its copies of the product components. */
  lemma HonestRun<T(!new)>(o: Ops<T>, x: Joint<T>, y: Joint<T>, k: Masks<T>)
    requires HonestInputs(o, x, y, k) && MasksAgree(o, k)
    ensures CopiesAgree(HonestMessages(o, x, y, k))
    ensures forall i :: 0 <= i < 4 ==>
      Run(o, x, y, k, HonestMessages(o, x, y, k))[i] == Holds(Product(o, x, y, k)[i])
  {
    forall i | 0 <= i < 4
      ensures var w := HonestMessages(o, x, y, k);
        && FirstValue(w, i) == FirstCopy(w, i)
        && (i >= 2 ==> SecondValue(w, i) == SecondCopy(w, i))
      ensures Run(o, x, y, k, HonestMessages(o, x, y, k))[i] == Holds(Product(o, x, y, k)[i])
    {
      HonestArrivals(o, x, y, k, i);
      HonestParty(o, x, y, k, i);
    }
  }

  /** The sharing that the parties end with when none of them stops. */
  function Kept<T>(rs: seq<Outcome<T>>): (z: Joint<T>)
    requires |rs| == 4
    ensures |z| == 4 && forall i :: 0 <= i < 4 && rs[i].Holds? ==> z[i] == rs[i].shares
  {
    seq(4, i requires 0 <= i < 4 => if rs[i].Holds? then rs[i].shares else [])
  }

  /** A product as the exchange of messages computes it. */
  function Exchanged<T(==)>(o: Ops<T>, x: Joint<T>, y: Joint<T>, k: Masks<T>): (z: Joint<T>)
    requires Fitting(x, y, k)
    ensures |z| == 4
  {
    Kept(Run(o, x, y, k, HonestMessages(o, x, y, k)))
  }

  lemma ExchangedIsProduct<T(!new)>(o: Ops<T>, x: Joint<T>, y: Joint<T>, k: Masks<T>)
    requires HonestInputs(o, x, y, k) && MasksAgree(o, k)
    ensures Exchanged(o, x, y, k) == Product(o, x, y, k)
  {
    hide Lawful, Run, Product, HonestMessages;
    HonestRun(o, x, y, k);
  }

  // ------------------------------------------------------- the masks must agree

  /** The undisturbed run ends without accusation and with all copies in agreement. */
  predicate ConsistentRun<T(==)>(o: Ops<T>, x: Joint<T>, y: Joint<T>, k: Masks<T>)
    requires Fitting(x, y, k)
  {
    var rs := Run(o, x, y, k, HonestMessages(o, x, y, k));
    (forall i :: 0 <= i < 4 ==> rs[i].Holds? && |rs[i].shares| == 3) && Replicated(Exchanged(o, x, y, k))
  }

  /** All masks are machine words. */
  ghost predicate WordMasks<T>(o: Ops<T>, k: Masks<T>) {
    && (forall i :: 0 <= i < |k.first| ==> Elements(o, k.first[i]))
    && Elements(o, [k.r21at0, k.r21at3, k.r22at1, k.r22at2, k.r23at1])
  }

  /** Whatever was drawn, the run is consistent exactly when the three holders of every component have drawn the same
      mask for it and the second round of masks, which is not removed again, is zero. */
  lemma MasksMustAgree<T(!new)>(o: Ops<T>, x: Joint<T>, y: Joint<T>, k: Masks<T>)
    requires HonestInputs(o, x, y, k) && Cancels(o) && WordMasks(o, k)
    ensures ConsistentRun(o, x, y, k) <==> MasksAgree(o, k)
  {
    if MasksAgree(o, k) {
      HonestRun(o, x, y, k);
      ExchangedIsProduct(o, x, y, k);
    }
    if ConsistentRun(o, x, y, k) {
      SecondMasksVanish(o, x, y, k);
      FirstMasksAgree(o, x, y, k);
    }
  }

  /** The masks that are compared: both senders of a cross term have drawn the same one, and so have those of the
      second round. */
  lemma ChecksPass<T(!new)>(o: Ops<T>, x: Joint<T>, y: Joint<T>, k: Masks<T>, i: nat)
    requires HonestInputs(o, x, y, k) && Cancels(o) && WordMasks(o, k) && ConsistentRun(o, x, y, k) && i < 4
    ensures var w := HonestMessages(o, x, y, k);
      && FirstValue(w, i) == FirstCopy(w, i) && (i >= 2 ==> SecondValue(w, i) == SecondCopy(w, i))
    ensures SameFirst(k, i)
    ensures (i == 2 ==> k.r21at3 == k.r22at1) && (i == 3 ==> k.r21at0 == k.r22at2)
  {
    hide Lawful, NextCross, OppositeCross, HonestMessages, Operable, Combine, Replicated, Exchanged, Components,
      WordMasks, FirstMask, FirstValue, FirstCopy, SecondValue, SecondCopy;
    assert Run(o, x, y, k, HonestMessages(o, x, y, k))[i].Holds?;
    SameFirstMask(o, x, y, k, i);
    SameSecondMasks(o, x, y, k);
  }

  lemma SameFirstMask<T(!new)>(o: Ops<T>, x: Joint<T>, y: Joint<T>, k: Masks<T>, i: nat)
    requires HonestInputs(o, x, y, k) && Cancels(o) && WordMasks(o, k) && i < 4
    requires FirstValue(HonestMessages(o, x, y, k), i) == FirstCopy(HonestMessages(o, x, y, k), i)
    ensures FirstMask(k, (i + 2) % 4, 0) == FirstMask(k, (i + 1) % 4, 1)
  {
    hide Lawful, NextCross, HonestMessages, Operable, Replicated, Components, WordMasks, FirstMask, FirstValue,
      FirstCopy;
    FirstArrival(o, x, y, k, i);
    ElementCross(o, Components(x), Components(y), (i + 3) % 4);
    MaskWords(o, k, (i + 2) % 4, 0);
    MaskWords(o, k, (i + 1) % 4, 1);
  }

  lemma SameSecondMasks<T(!new)>(o: Ops<T>, x: Joint<T>, y: Joint<T>, k: Masks<T>)
    requires HonestInputs(o, x, y, k) && Cancels(o) && WordMasks(o, k)
    ensures var w := HonestMessages(o, x, y, k);
      && (SecondValue(w, 2) == SecondCopy(w, 2) ==> k.r21at3 == k.r22at1)
      && (SecondValue(w, 3) == SecondCopy(w, 3) ==> k.r21at0 == k.r22at2)
  {
    hide Lawful, OppositeCross, HonestMessages, Operable, Replicated, Components, WordMasks, SecondValue, SecondCopy;
    SecondArrivals(o, x, y, k);
    ElementOpposite(o, Components(x), Components(y), 0);
    ElementOpposite(o, Components(x), Components(y), 1);
    MaskWords(o, k, 0, 0);
  }

  lemma MaskWords<T(!new)>(o: Ops<T>, k: Masks<T>, p: nat, c: nat)
    requires Lawful(o) && WordMasks(o, k) && Shaped(k.first) && |k.first| == 4 && p < 4 && c < 3
    ensures o.element(FirstMask(k, p, c)) && o.operand(FirstMask(k, p, c))
    ensures o.element(k.r21at0) && o.element(k.r21at3) && o.element(k.r22at1) && o.element(k.r22at2)
      && o.element(k.r23at1)
  {
    assert o.element(k.first[p][c]);
    var second := [k.r21at0, k.r21at3, k.r22at1, k.r22at2, k.r23at1];
    assert o.element(second[0]) && o.element(second[1]) && o.element(second[2]) && o.element(second[3]);
    assert o.element(second[4]);
  }

  lemma ElementCross<T(!new)>(o: Ops<T>, a: seq<T>, b: seq<T>, j: nat)
    requires Lawful(o) && |a| == |b| == 4 && j < 4 && Operable(o, a) && Operable(o, b)
    ensures o.element(NextCross(o, a, b, j)) && o.operand(NextCross(o, a, b, j))
  {
    var n := (j + 1) % 4;
    assert o.operand(o.times(a[j], b[n])) && o.operand(o.times(a[n], b[j]));
  }

  /** The square and the masked cross term of component `j`, to which a holder adds its own mask. */
  function Unmasked<T>(o: Ops<T>, a: seq<T>, b: seq<T>, r: T, j: nat, own: T): (v: T)
    requires |a| == |b| == 4 && j < 4
  {
    o.plus(o.plus(o.times(a[j], b[j]), o.minus(NextCross(o, a, b, j), r)), own)
  }

  lemma ElementUnmasked<T(!new)>(o: Ops<T>, a: seq<T>, b: seq<T>, r: T, j: nat, own: T)
    requires Lawful(o) && |a| == |b| == 4 && j < 4 && Operable(o, a) && Operable(o, b) && o.operand(r) && o.operand(own)
    ensures o.element(Unmasked(o, a, b, r, j, own))
  {
    ElementCross(o, a, b, j);
    assert o.operand(o.times(a[j], b[j])) && o.operand(o.minus(NextCross(o, a, b, j), r));
    assert o.operand(o.plus(o.times(a[j], b[j]), o.minus(NextCross(o, a, b, j), r)));
  }

  /** The three values to which the second round adds, at party `i`: `r` is what was subtracted from the cross term
      that it received. */
  lemma HeldBases<T(!new)>(o: Ops<T>, x: Joint<T>, y: Joint<T>, k: Masks<T>, i: nat)
    requires HonestInputs(o, x, y, k) && i < 4
    ensures var a, b, w, f := Components(x), Components(y), HonestMessages(o, x, y, k), k.first[i];
      var r := FirstMask(k, (i + 2) % 4, 0);
      && o.plus(o.plus(o.times(x[i][0], y[i][0]), w[i].shares11), f[0]) == Unmasked(o, a, b, f[0], (i + 1) % 4, f[0])
      && o.plus(o.plus(o.times(x[i][1], y[i][1]), w[i].shares12Hash), f[1]) ==
         Unmasked(o, a, b, f[1], (i + 2) % 4, f[1])
      && o.plus(o.plus(o.times(x[i][2], y[i][2]), FirstValue(w, i)), f[2]) == Unmasked(o, a, b, r, (i + 3) % 4, f[2])
  {
    hide Lawful, NextCross, OppositeCross, HonestMessages, Operable, Replicated, Components, FirstValue;
    SharesOf(x, i);
    SharesOf(y, i);
    HonestWire(o, x, y, k, i);
    FirstArrival(o, x, y, k, i);
  }

  /** What party `i` keeps. */
  lemma KeptShares<T(!new)>(o: Ops<T>, x: Joint<T>, y: Joint<T>, k: Masks<T>, i: nat)
    requires HonestInputs(o, x, y, k) && ConsistentRun(o, x, y, k) && i < 4
    ensures var w, z := HonestMessages(o, x, y, k), Exchanged(o, x, y, k);
      && z[i] == Combine(o, i, x[i], y[i], k, w[i], Inbox(FirstValue(w, i), SecondValue(w, i)))
      && z[i] == ViewOf(Components(z), i)
  {
    hide Lawful, Combine, HonestMessages, FirstValue, SecondValue, FirstCopy, SecondCopy, Components;
    assert Run(o, x, y, k, HonestMessages(o, x, y, k))[i].Holds?;
    SharesOf(Exchanged(o, x, y, k), i);
  }

  /** The copy of component `j` with the mask that its holder `p` adds as share `c`. */
  function Copy<T>(o: Ops<T>, a: seq<T>, b: seq<T>, k: Masks<T>, j: nat, p: nat, c: nat): (v: T)
    requires |a| == |b| == 4 && j < 4 && Shaped(k.first) && |k.first| == 4 && p < 4 && c < 3
  {
    Unmasked(o, a, b, FirstMask(k, (j + 3) % 4, 0), j, FirstMask(k, p, c))
  }

  /** What party `i` has of its three components before the second round. */
  lemma HeldCopies<T(!new)>(o: Ops<T>, x: Joint<T>, y: Joint<T>, k: Masks<T>, i: nat)
    requires HonestInputs(o, x, y, k) && Cancels(o) && WordMasks(o, k) && ConsistentRun(o, x, y, k) && i < 4
    ensures var a, b, w, f := Components(x), Components(y), HonestMessages(o, x, y, k), k.first[i];
      && o.plus(o.plus(o.times(x[i][0], y[i][0]), w[i].shares11), f[0]) == Copy(o, a, b, k, (i + 1) % 4, i, 0)
      && o.plus(o.plus(o.times(x[i][1], y[i][1]), w[i].shares12Hash), f[1]) == Copy(o, a, b, k, (i + 2) % 4, i, 1)
      && o.plus(o.plus(o.times(x[i][2], y[i][2]), FirstValue(w, i)), f[2]) == Copy(o, a, b, k, (i + 3) % 4, i, 2)
  {
    hide Lawful, Cancels, WordMasks, HonestMessages, Unmasked, ConsistentRun, Components, Replicated, FirstValue,
      Copy, FirstMask, Operable;
    var a, b := Components(x), Components(y);
    HeldBases(o, x, y, k, i);
    CopyIs(o, a, b, k, (i + 1) % 4, i, 0, i);
    CopyIs(o, a, b, k, (i + 2) % 4, i, 1, (i + 1) % 4);
    CopyIs(o, a, b, k, (i + 3) % 4, i, 2, (i + 2) % 4);
    NeighbourMask(o, x, y, k, i);
  }

  lemma CopyIs<T>(o: Ops<T>, a: seq<T>, b: seq<T>, k: Masks<T>, j: nat, p: nat, c: nat, sender: nat)
    requires |a| == |b| == 4 && j < 4 && Shaped(k.first) && |k.first| == 4 && p < 4 && c < 3 && sender == (j + 3) % 4
    ensures Copy(o, a, b, k, j, p, c) == Unmasked(o, a, b, FirstMask(k, sender, 0), j, k.first[p][c])
    ensures FirstMask(k, p, c) == k.first[p][c]
  {
  }

  lemma NeighbourMask<T(!new)>(o: Ops<T>, x: Joint<T>, y: Joint<T>, k: Masks<T>, i: nat)
    requires HonestInputs(o, x, y, k) && Cancels(o) && WordMasks(o, k) && ConsistentRun(o, x, y, k) && i < 4
    ensures FirstMask(k, (i + 1) % 4, 0) == k.first[i][1]
  {
    hide Lawful, Cancels, WordMasks, HonestMessages, ConsistentRun, Components, Replicated, FirstValue,
      FirstCopy, SecondValue, SecondCopy;
    var g := (i + 3) % 4;
    assert (g + 2) % 4 == (i + 1) % 4 && (g + 1) % 4 == i;
    ChecksPass(o, x, y, k, g);
  }

  /** The shares that party `i` keeps are copies of the components `z` of the result. */
  lemma KeptBy<T(!new)>(o: Ops<T>, x: Joint<T>, y: Joint<T>, k: Masks<T>, i: nat)
    requires HonestInputs(o, x, y, k) && Cancels(o) && WordMasks(o, k) && ConsistentRun(o, x, y, k) && i < 4
    ensures var a, b, w, z := Components(x), Components(y), HonestMessages(o, x, y, k),
      Components(Exchanged(o, x, y, k));
      match i
      case 0 =>
        && z[1] == o.plus(o.plus(Copy(o, a, b, k, 1, 0, 0), w[0].shares21), o.zero)
        && z[2] == o.plus(Copy(o, a, b, k, 2, 0, 1), k.r21at0) && z[3] == Copy(o, a, b, k, 3, 0, 2)
      case 1 =>
        && z[2] == o.plus(Copy(o, a, b, k, 2, 1, 0), k.r23at1) && z[3] == o.plus(Copy(o, a, b, k, 3, 1, 1), k.r22at1)
        && z[0] == o.plus(Copy(o, a, b, k, 0, 1, 2), w[1].shares21)
      case 2 =>
        && z[3] == Copy(o, a, b, k, 3, 2, 0) && z[1] == o.plus(Copy(o, a, b, k, 1, 2, 2), w[2].shares21)
        && z[0] == o.plus(o.plus(Copy(o, a, b, k, 0, 2, 1), w[3].shares21), k.r22at2)
      case _ =>
        && z[0] == o.plus(Copy(o, a, b, k, 0, 3, 0), w[3].shares21) && z[2] == Copy(o, a, b, k, 2, 3, 2)
        && z[1] == o.plus(o.plus(Copy(o, a, b, k, 1, 3, 1), w[0].shares21), k.r21at3)
  {
    hide Lawful, Cancels, WordMasks, HonestMessages, Copy, ConsistentRun, Components, Replicated, Exchanged;
    KeptShares(o, x, y, k, i);
    HeldCopies(o, x, y, k, i);
  }

  /** Both senders of the cross term that party `i` lacks have drawn the same mask. */
  predicate SameFirst<T(==)>(k: Masks<T>, i: nat)
    requires Shaped(k.first) && |k.first| == 4 && i < 4
  {
    FirstMask(k, (i + 2) % 4, 0) == FirstMask(k, (i + 1) % 4, 1)
  }

  lemma ZeroSummand<T(!new)>(o: Ops<T>, v: T, r: T)
    requires Lawful(o) && Cancels(o) && o.element(v) && o.element(r) && o.plus(v, r) == v
    ensures r == o.zero
  {
    assert o.plus(v, o.zero) == v;
  }

  lemma EqualSummands<T(!new)>(o: Ops<T>, a: T, b: T, c: T)
    requires Lawful(o) && Cancels(o) && o.operand(a) && o.element(b) && o.element(c)
    ensures o.plus(a, b) == o.plus(a, c) || o.plus(b, a) == o.plus(c, a) ==> b == c
  {
    assert o.plus(b, a) == o.plus(a, b) && o.plus(c, a) == o.plus(a, c);
  }

  /** All that is added up is made of machine words. */
  lemma WordsOfRun<T(!new)>(o: Ops<T>, x: Joint<T>, y: Joint<T>, k: Masks<T>)
    requires HonestInputs(o, x, y, k) && WordMasks(o, k)
    ensures var a, b, w := Components(x), Components(y), HonestMessages(o, x, y, k);
      && (forall i :: 0 <= i < 4 ==> o.element(w[i].shares21) && o.operand(w[i].shares21))
      && (forall j, p, c :: 0 <= j < 4 && 0 <= p < 4 && 0 <= c < 3 ==> o.element(Copy(o, a, b, k, j, p, c)))
  {
    hide Replicated, Components, HonestMessages, Unmasked;
    var a, b, w := Components(x), Components(y), HonestMessages(o, x, y, k);
    MaskWords(o, k, 0, 0);
    SecondArrivals(o, x, y, k);
    ElementOpposite(o, a, b, 0);
    ElementOpposite(o, a, b, 1);
    assert o.element(w[0].shares21) && o.element(w[1].shares21) && o.element(w[2].shares21) && o.element(w[3].shares21);
    forall j, p, c | 0 <= j < 4 && 0 <= p < 4 && 0 <= c < 3 ensures o.element(Copy(o, a, b, k, j, p, c)) {
      MaskWords(o, k, (j + 3) % 4, 0);
      MaskWords(o, k, p, c);
      ElementUnmasked(o, a, b, FirstMask(k, (j + 3) % 4, 0), j, FirstMask(k, p, c));
    }
  }

  /** Party 2 adds `r22at2` to component 0, party 3 nothing. */
  lemma VanishAt0<T(!new)>(o: Ops<T>, x: Joint<T>, y: Joint<T>, k: Masks<T>)
    requires HonestInputs(o, x, y, k) && Cancels(o) && WordMasks(o, k) && ConsistentRun(o, x, y, k)
    ensures k.r22at2 == o.zero
  {
    hide Lawful, Cancels, WordMasks, HonestMessages, ConsistentRun, Components, Replicated, FirstMask, Unmasked;
    var s := HonestMessages(o, x, y, k)[3].shares21;
    var c := Copy(o, Components(x), Components(y), k, 0, 3, 0);
    ChecksPass(o, x, y, k, 1);
    KeptBy(o, x, y, k, 2);
    KeptBy(o, x, y, k, 3);
    WordsOfRun(o, x, y, k);
    MaskWords(o, k, 0, 0);
    assert o.element(o.plus(c, s)) by { ElementSum(o, c, s); }
    ZeroSummand(o, o.plus(c, s), k.r22at2);
  }

  lemma ElementSum<T(!new)>(o: Ops<T>, a: T, b: T)
    requires Lawful(o) && o.element(a) && o.element(b)
    ensures o.element(o.plus(a, b)) && o.operand(o.plus(a, b)) && o.operand(a) && o.operand(b)
  {
  }

  /** Party 1 adds `r22at1` to component 3, party 2 nothing. */
  lemma VanishAt3<T(!new)>(o: Ops<T>, x: Joint<T>, y: Joint<T>, k: Masks<T>)
    requires HonestInputs(o, x, y, k) && Cancels(o) && WordMasks(o, k) && ConsistentRun(o, x, y, k)
    ensures k.r22at1 == o.zero
  {
    hide Lawful, Cancels, WordMasks, HonestMessages, ConsistentRun, Components, Replicated, FirstMask, Unmasked;
    ChecksPass(o, x, y, k, 0);
    KeptBy(o, x, y, k, 1);
    KeptBy(o, x, y, k, 2);
    WordsOfRun(o, x, y, k);
    MaskWords(o, k, 0, 0);
    ZeroSummand(o, Copy(o, Components(x), Components(y), k, 3, 2, 0), k.r22at1);
  }

  /** Party 0 adds `r21at0` to component 2, party 1 adds `r23at1`. */
  lemma SameAt2<T(!new)>(o: Ops<T>, x: Joint<T>, y: Joint<T>, k: Masks<T>)
    requires HonestInputs(o, x, y, k) && Cancels(o) && WordMasks(o, k) && ConsistentRun(o, x, y, k)
    ensures k.r21at0 == k.r23at1
  {
    hide Lawful, Cancels, WordMasks, HonestMessages, ConsistentRun, Components, Replicated, FirstMask, Unmasked;
    var c := Copy(o, Components(x), Components(y), k, 2, 1, 0);
    ChecksPass(o, x, y, k, 3);
    KeptBy(o, x, y, k, 0);
    KeptBy(o, x, y, k, 1);
    WordsOfRun(o, x, y, k);
    MaskWords(o, k, 0, 0);
    ElementSum(o, c, c);
    EqualSummands(o, c, k.r23at1, k.r21at0);
  }

  lemma SecondMasksVanish<T(!new)>(o: Ops<T>, x: Joint<T>, y: Joint<T>, k: Masks<T>)
    requires HonestInputs(o, x, y, k) && Cancels(o) && WordMasks(o, k) && ConsistentRun(o, x, y, k)
    ensures k.r21at0 == k.r21at3 == k.r22at1 == k.r22at2 == k.r23at1 == o.zero
  {
    hide *;
    ChecksPass(o, x, y, k, 2);
    ChecksPass(o, x, y, k, 3);
    VanishAt0(o, x, y, k);
    VanishAt3(o, x, y, k);
    SameAt2(o, x, y, k);
  }

  /** Different masks make different copies. */
  lemma CopyTells<T(!new)>(o: Ops<T>, a: seq<T>, b: seq<T>, k: Masks<T>, j: nat, p: nat, c: nat, q: nat, d: nat)
    requires Lawful(o) && Cancels(o) && |a| == |b| == 4 && Operable(o, a) && Operable(o, b) && WordMasks(o, k)
    requires Shaped(k.first) && |k.first| == 4 && j < 4 && p < 4 && q < 4 && c < 3 && d < 3
    ensures Copy(o, a, b, k, j, p, c) == Copy(o, a, b, k, j, q, d) ==> FirstMask(k, p, c) == FirstMask(k, q, d)
  {
    hide Cancels, WordMasks, NextCross, FirstMask;
    var r := FirstMask(k, (j + 3) % 4, 0);
    MaskWords(o, k, (j + 3) % 4, 0);
    MaskWords(o, k, p, c);
    MaskWords(o, k, q, d);
    ElementCross(o, a, b, j);
    var m := o.plus(o.times(a[j], b[j]), o.minus(NextCross(o, a, b, j), r));
    EqualSummands(o, m, FirstMask(k, p, c), FirstMask(k, q, d));
  }

  /** In components 2 and 3 the receiver of a cross term adds the mask that the senders have subtracted from it. */
  lemma UpperReceivers<T(!new)>(o: Ops<T>, x: Joint<T>, y: Joint<T>, k: Masks<T>)
    requires HonestInputs(o, x, y, k) && Cancels(o) && WordMasks(o, k) && ConsistentRun(o, x, y, k)
    ensures FirstMask(k, 3, 2) == FirstMask(k, 1, 0) && FirstMask(k, 0, 2) == FirstMask(k, 2, 0)
  {
    hide Cancels, WordMasks, HonestMessages, ConsistentRun, Components, Replicated, FirstMask, Copy;
    var a, b := Components(x), Components(y);
    SecondMasksVanish(o, x, y, k);
    KeptBy(o, x, y, k, 0);
    KeptBy(o, x, y, k, 1);
    KeptBy(o, x, y, k, 2);
    KeptBy(o, x, y, k, 3);
    WordsOfRun(o, x, y, k);
    CopyTells(o, a, b, k, 2, 3, 2, 1, 0);
    CopyTells(o, a, b, k, 3, 0, 2, 2, 0);
  }

  lemma EqualOpposites<T(!new)>(o: Ops<T>, x: Joint<T>, y: Joint<T>, k: Masks<T>)
    requires HonestInputs(o, x, y, k) && Cancels(o) && WordMasks(o, k) && ConsistentRun(o, x, y, k)
    ensures var w := HonestMessages(o, x, y, k); w[3].shares21 == w[1].shares21 && w[0].shares21 == w[2].shares21
  {
    hide Lawful, Cancels, WordMasks, HonestMessages, ConsistentRun, Components, Replicated, SecondValue, SecondCopy;
    ChecksPass(o, x, y, k, 2);
    ChecksPass(o, x, y, k, 3);
    SecondArrivals(o, x, y, k);
  }

  /** And so it does in components 0 and 1, where an opposite cross term is added. */
  lemma LowerReceivers<T(!new)>(o: Ops<T>, x: Joint<T>, y: Joint<T>, k: Masks<T>, j: nat)
    requires HonestInputs(o, x, y, k) && Cancels(o) && WordMasks(o, k) && ConsistentRun(o, x, y, k) && j < 2
    ensures if j == 0 then FirstMask(k, 1, 2) == FirstMask(k, 3, 0) else FirstMask(k, 2, 2) == FirstMask(k, 0, 0)
  {
    hide Lawful, Cancels, WordMasks, HonestMessages, ConsistentRun, Components, Replicated, FirstMask, Copy;
    var a, b, w := Components(x), Components(y), HonestMessages(o, x, y, k);
    WordsOfRun(o, x, y, k);
    EqualOpposites(o, x, y, k);
    if j == 0 {
      KeptBy(o, x, y, k, 1);
      KeptBy(o, x, y, k, 3);
      EqualSummands(o, w[1].shares21, Copy(o, a, b, k, 0, 3, 0), Copy(o, a, b, k, 0, 1, 2));
      CopyTells(o, a, b, k, 0, 1, 2, 3, 0);
    } else {
      KeptBy(o, x, y, k, 0);
      KeptBy(o, x, y, k, 2);
      ElementSum(o, Copy(o, a, b, k, 1, 0, 0), w[0].shares21);
      ZeroAdds(o, o.plus(Copy(o, a, b, k, 1, 0, 0), w[0].shares21));
      EqualSummands(o, w[2].shares21, Copy(o, a, b, k, 1, 0, 0), Copy(o, a, b, k, 1, 2, 2));
      CopyTells(o, a, b, k, 1, 2, 2, 0, 0);
    }
  }

  lemma ZeroAdds<T(!new)>(o: Ops<T>, v: T)
    requires Lawful(o) && o.element(v)
    ensures o.plus(v, o.zero) == v
  {
  }

  lemma FirstMasksAgree<T(!new)>(o: Ops<T>, x: Joint<T>, y: Joint<T>, k: Masks<T>)
    requires HonestInputs(o, x, y, k) && Cancels(o) && WordMasks(o, k) && ConsistentRun(o, x, y, k)
    ensures Replicated(k.first)
  {
    hide Lawful, Cancels, WordMasks, HonestMessages, ConsistentRun;
    ChecksPass(o, x, y, k, 0);
    ChecksPass(o, x, y, k, 1);
    ChecksPass(o, x, y, k, 2);
    ChecksPass(o, x, y, k, 3);
    LowerReceivers(o, x, y, k, 0);
    LowerReceivers(o, x, y, k, 1);
    UpperReceivers(o, x, y, k);
    AllCopies(k);
  }

  lemma AllCopies<T>(k: Masks<T>)
    requires Shaped(k.first) && |k.first| == 4
    requires SameFirst(k, 0) && SameFirst(k, 1) && SameFirst(k, 2) && SameFirst(k, 3)
    requires FirstMask(k, 1, 2) == FirstMask(k, 3, 0) && FirstMask(k, 2, 2) == FirstMask(k, 0, 0)
    requires FirstMask(k, 3, 2) == FirstMask(k, 1, 0) && FirstMask(k, 0, 2) == FirstMask(k, 2, 0)
    ensures Replicated(k.first)
  {
    var cs := Components(k.first);
    assert cs == [k.first[3][0], k.first[0][0], k.first[1][0], k.first[2][0]];
    ReplicatedByEntries(k.first, cs);
  }
}
