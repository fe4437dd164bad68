/** Boolean sharings: a secret word is the bitwise XOR of its components. */
module Boolean {
  import opened Words
  import opened VectorBits
  import opened Sharing
  import opened Algebra
  import ThreePC = Replicated3PC
  import FourPC = Fantastic4PC

  predicate Width(x: Joint<Word>, l: nat) {
    Replicated(x) && forall k :: 0 <= k < |x| ==> |Components(x)[k]| == l
  }

  function Combine(cs: seq<Word>): (w: Word)
    requires |cs| == 3 || |cs| == 4
    requires forall k :: 0 <= k < |cs| ==> |cs[k]| == |cs[0]|
    ensures |w| == |cs[0]|
    ensures forall j :: 0 <= j < |w| ==>
      w[j] == (((cs[0][j] != cs[1][j]) != cs[2][j]) != (|cs| == 4 && cs[3][j]))
  {
    var w := Xor(Xor(cs[0], cs[1]), cs[2]);
    if |cs| == 3 then w else Xor(w, cs[3])
  }

  function SecretB(x: Joint<Word>, l: nat): (w: Word)
    requires Width(x, l)
    ensures |w| == l
  {
    Combine(Components(x))
  }

  // ------------------------------------------------------------------ opening

  lemma ShareWidth(x: Joint<Word>, l: nat, i: nat, c: nat)
    requires Width(x, l) && i < |x| && c < |x| - 1
    ensures x[i][c] == Components(x)[Layout(|x|, i, c)] && |x[i][c]| == l
  {
  }

  /** What party `i` computes when the sharing is opened. */
  function OpenB(x: Joint<Word>, l: nat, i: nat): (v: Word)
    requires Width(x, l) && i < |x|
  {
    var n := |x|;
    var received :=
      if n == 3 then Exchange(seq(3, j requires 0 <= j < 3 => x[j][1]), 1, 2)
      else Exchange(seq(4, j requires 0 <= j < 4 => x[j][0]), 1, 3);
    ShareWidth(x, l, i, 0);
    ShareWidth(x, l, i, 1);
    ShareWidth(x, l, Peer(n, n - 1, i), if n == 3 then 1 else 0);
    var v := Xor(x[i][0], x[i][1]);
    if n == 3 then Xor(v, received[i]) else
      ShareWidth(x, l, i, 2);
      Xor(Xor(v, x[i][2]), received[i])
  }

  predicate SameWidth(cs: seq<Word>, l: nat) {
    (|cs| == 3 || |cs| == 4) && forall k :: 0 <= k < |cs| ==> |cs[k]| == l
  }

  /** The order in which a party sees the components does not matter. */
  lemma Swapped(a: Word, b: Word, c: Word)
    requires |a| == |b| == |c|
    ensures Combine([a, c, b]) == Combine([b, a, c]) == Combine([c, b, a]) == Combine([a, b, c])
  {
  }

  lemma Rotated(a: Word, b: Word, c: Word, d: Word)
    requires |a| == |b| == |c| == |d|
    ensures Combine([b, c, d, a]) == Combine([a, b, c, d])
  {
  }

  lemma RotationXor(cs: seq<Word>, l: nat, i: nat)
    requires SameWidth(cs, l) && i < |cs|
    ensures Combine(Rotation(cs, i)) == Combine(cs)
  {
    hide Combine;
    if |cs| == 3 {
      Swapped(cs[0], cs[1], cs[2]);
      assert cs == [cs[0], cs[1], cs[2]];
    } else {
      Rotated(cs[0], cs[1], cs[2], cs[3]);
      Rotated(cs[1], cs[2], cs[3], cs[0]);
      Rotated(cs[2], cs[3], cs[0], cs[1]);
      assert cs == [cs[0], cs[1], cs[2], cs[3]];
    }
  }

  /** Opening gives every party the secret. */
  lemma OpenBGivesSecret(x: Joint<Word>, l: nat, i: nat)
    requires Width(x, l) && i < |x|
    ensures OpenB(x, l, i) == SecretB(x, l)
  {
    hide Combine, OpenB, ViewAt, Rotation;
    ViewIsRotation(x, i);
    OpenIsView(x, l, i);
    RotationXor(Components(x), l, i);
  }

  lemma OpenIsView(x: Joint<Word>, l: nat, i: nat)
    requires Width(x, l) && i < |x|
    ensures SameWidth(ViewAt(x, i), l) && OpenB(x, l, i) == Combine(ViewAt(x, i))
  {
    var n := |x|;
    var p := Peer(n, n - 1, i);
    forall c | 0 <= c < n - 1 ensures |x[i][c]| == l && |x[p][c]| == l {
      ShareWidth(x, l, i, c);
      ShareWidth(x, l, p, c);
    }
  }

  /** What party `i` of four reconstructs from its shares and a received word. */
  function OpenWith(x: Joint<Word>, l: nat, i: nat, v: Word): (w: Word)
    requires Width(x, l) && |x| == 4 && i < 4 && |v| == l
    ensures |w| == l
  {
    ShareWidth(x, l, i, 0);
    ShareWidth(x, l, i, 1);
    ShareWidth(x, l, i, 2);
    Xor(Xor(Xor(x[i][0], x[i][1]), x[i][2]), v)
  }

  /** Opening is not checked: the result is the secret exactly when the received word is the component that the party
      lacks. */
  lemma OpeningTrustsSender(x: Joint<Word>, l: nat, i: nat, v: Word)
    requires Width(x, l) && |x| == 4 && i < 4 && |v| == l
    ensures OpenWith(x, l, i, v) == SecretB(x, l) <==> v == Components(x)[i]
  {
    var cs, w := Components(x), OpenWith(x, l, i, v);
    ShareWidth(x, l, i, 0);
    ShareWidth(x, l, i, 1);
    ShareWidth(x, l, i, 2);
    forall j | 0 <= j < l ensures (w[j] == SecretB(x, l)[j]) == (v[j] == cs[i][j]) {
      assert w[j] == (((cs[(i + 1) % 4][j] != cs[(i + 2) % 4][j]) != cs[(i + 3) % 4][j]) != v[j]);
    }
  }

  // ------------------------------------------------- operations without messages

  /** Every share is a single bit.  The operators `!` and `extend_lsb`, which work share by share, then mean what their
      names say; `Negatable` and `Extendable` below say exactly when they do. */
  predicate SingleBit(x: Joint<Word>) {
    Shaped(x) && forall k :: 0 <= k < |x| ==> IsBit(Components(x)[k])
  }

  method XorB(x: Joint<Word>, y: Joint<Word>, l: nat) returns (z: Joint<Word>)
    requires Width(x, l) && Width(y, l) && |x| == |y|
    ensures |z| == |x| && Width(z, l)
    ensures SecretB(z, l) == Xor(SecretB(x, l), SecretB(y, l))
    ensures SingleBit(x) && SingleBit(y) ==> SingleBit(z)
  {
    z := Zip(x, y, Bits(l).plus);
    ZipReplicated(x, y, Bits(l).plus);
    assert Width(z, l);
    assert SecretB(z, l) == Xor(SecretB(x, l), SecretB(y, l));
  }

  /** The source complements all components in the 3-party protocol and exactly one, the fourth, with 4 parties. */
  predicate Flipped(n: nat, i: nat, c: nat)
    requires n == 3 || n == 4
    requires i < n && c < n - 1
  {
    n == 3 || (i == 0 && c == 2) || (i == 1 && c == 1) || (i == 2 && c == 0)
  }

  function FlipShares(x: Joint<Word>, f: Word -> Word): (z: Joint<Word>)
    requires Shaped(x)
    ensures Shaped(z) && |z| == |x|
    ensures forall i, c :: 0 <= i < |x| && 0 <= c < |x| - 1 ==>
      z[i][c] == if Flipped(|x|, i, c) then f(x[i][c]) else x[i][c]
  {
    seq(|x|, i requires 0 <= i < |x| => seq(|x| - 1, c requires 0 <= c < |x| - 1 =>
      if Flipped(|x|, i, c) then f(x[i][c]) else x[i][c]))
  }

  lemma FlipReplicated(x: Joint<Word>, f: Word -> Word)
    requires Replicated(x)
    ensures Replicated(FlipShares(x, f))
    ensures forall k :: 0 <= k < |x| ==>
      Components(FlipShares(x, f))[k] == if |x| == 3 || k == 3 then f(Components(x)[k]) else Components(x)[k]
  {
    var cx := Components(x);
    ReplicatedByEntries(FlipShares(x, f),
      seq(|x|, k requires 0 <= k < |x| => if |x| == 3 || k == 3 then f(cx[k]) else cx[k]));
  }

  method NotB(x: Joint<Word>, l: nat) returns (z: Joint<Word>)
    requires Width(x, l)
    ensures |z| == |x| && Width(z, l)
    ensures SecretB(z, l) == Not(SecretB(x, l))
  {
    z := FlipShares(x, w => Not(w));
    FlipReplicated(x, w => Not(w));
    assert Width(z, l);
    assert SecretB(z, l) == Not(SecretB(x, l));
  }

  // ------------------------------------------------------ single-bit sharings

  lemma SingleBitOpens(x: Joint<Word>, l: nat)
    requires Width(x, l) && SingleBit(x)
    ensures IsBit(SecretB(x, l))
  {
    var cs := Components(x);
    forall j | 0 < j < l ensures !SecretB(x, l)[j] {
      assert !cs[0][j] && !cs[1][j] && !cs[2][j];
    }
  }

  /** A non-zero word with low bit 0. */
  predicate Stray(w: Word)
    requires |w| > 0
  {
    !w[0] && AnySet(w, |w|)
  }

  /** An even number of the components that `!` is applied to are stray. */
  predicate Negatable(x: Joint<Word>, l: nat)
    requires Width(x, l) && l > 0
  {
    var cs := Components(x);
    if |x| == 3 then (Stray(cs[0]) != Stray(cs[1])) == Stray(cs[2]) else !Stray(cs[3])
  }

  /** `!` negates the low bit of the secret exactly when the shares are negatable. */
  method NotBit(x: Joint<Word>, l: nat) returns (z: Joint<Word>)
    requires Width(x, l) && l > 0
    ensures |z| == |x| && Width(z, l)
    ensures SecretB(z, l)[0] == !SecretB(x, l)[0] <==> Negatable(x, l)
    ensures SingleBit(x) ==> SingleBit(z) && SecretB(z, l)[0] == !SecretB(x, l)[0]
  {
    var f := (w: Word) => if |w| > 0 then IsZeroWord(w) else w;
    z := FlipShares(x, f);
    FlipReplicated(x, f);
    assert Width(z, l);
    ghost var cs := Components(x);
    forall k | 0 <= k < |x| ensures IsZeroWord(cs[k])[0] == !(cs[k][0] != Stray(cs[k])) && |cs[k]| == l {}
    if SingleBit(x) {
      forall k | 0 <= k < |x| ensures !Stray(cs[k]) {}
    }
  }

  // -------------------------------------------------------- copying the low bit

  /** An odd number of components has a bit set below position `j`. */
  predicate OddSetBelow(x: Joint<Word>, l: nat, j: nat)
    requires Width(x, l) && j <= l
  {
    var cs := Components(x);
    ((AnySet(cs[0], j) != AnySet(cs[1], j)) != AnySet(cs[2], j)) != (|x| == 4 && AnySet(cs[3], j))
  }

  /** What negating all shares makes of the secret. */
  function Extended(x: Joint<Word>, l: nat): (w: Word)
    requires Width(x, l)
    ensures |w| == l && forall j :: 0 <= j < l ==> w[j] == (SecretB(x, l)[j] != OddSetBelow(x, l, j))
  {
    seq(l, j requires 0 <= j < l => SecretB(x, l)[j] != OddSetBelow(x, l, j))
  }

  /** The carries that cross from one bit to the next, share by share, add up to the low bit of the secret. */
  predicate Extendable(x: Joint<Word>, l: nat)
    requires Width(x, l)
  {
    forall j :: 0 < j < l ==> OddSetBelow(x, l, j) == (SecretB(x, l)[j] != SecretB(x, l)[0])
  }

  /** `extend_lsb` copies the low bit of the secret to all positions exactly when the shares are extendable. */
  method ExtendLsb(x: Joint<Word>, l: nat) returns (z: Joint<Word>)
    requires Width(x, l) && l > 0
    ensures |z| == |x| && Width(z, l) && SecretB(z, l) == Extended(x, l)
    ensures SecretB(z, l) == Spread(SecretB(x, l)) <==> Extendable(x, l)
  {
    var f := (w: Word) => Negate(w);
    z := Map(x, f);
    MapReplicated(x, f);
    assert Width(z, l);
    forall j | 0 <= j < l ensures SecretB(z, l)[j] == Extended(x, l)[j] {
      forall k | 0 <= k < |x| ensures Components(z)[k][j] == (Components(x)[k][j] != AnySet(Components(x)[k], j)) {
        NegateAt(Components(x)[k], j);
      }
    }
    ExtendedExactly(x, l);
  }

  lemma NoneSetBelow(x: Joint<Word>, l: nat)
    requires Width(x, l)
    ensures !OddSetBelow(x, l, 0)
  {
  }

  lemma ExtendedExactly(x: Joint<Word>, l: nat)
    requires Width(x, l) && l > 0
    ensures Extended(x, l) == Spread(SecretB(x, l)) <==> Extendable(x, l)
  {
    hide Width, SecretB, OddSetBelow;
    var e, s := Extended(x, l), SecretB(x, l);
    NoneSetBelow(x, l);
    if Extendable(x, l) {
      forall j | 0 <= j < l ensures e[j] == s[0] {}
    } else {
      var j :| 0 < j < l && OddSetBelow(x, l, j) != (s[j] != s[0]);
      assert e[j] != Spread(s)[j];
    }
  }

  /** Shares that are single bits can be extended. */
  lemma SingleBitExtends(x: Joint<Word>, l: nat)
    requires Width(x, l) && SingleBit(x) && l > 0
    ensures Extendable(x, l)
  {
    var cs := Components(x);
    forall j | 0 < j < l ensures OddSetBelow(x, l, j) == (SecretB(x, l)[j] != SecretB(x, l)[0]) {
      forall k | 0 <= k < |x| ensures AnySet(cs[k], j) == cs[k][0] && !cs[k][j] {}
    }
  }

  predicate LowestAt(w: Word, t: nat)
    requires t < |w|
  {
    w[t] && !AnySet(w, t)
  }

  /** An odd number of components has its lowest set bit at position `t`. */
  predicate OddLowestAt(x: Joint<Word>, l: nat, t: nat)
    requires Width(x, l) && t < l
  {
    var cs := Components(x);
    ((LowestAt(cs[0], t) != LowestAt(cs[1], t)) != LowestAt(cs[2], t)) != (|x| == 4 && LowestAt(cs[3], t))
  }

  lemma OneBitMore(x: Joint<Word>, l: nat, t: nat)
    requires Width(x, l) && t < l
    ensures OddSetBelow(x, l, t + 1) == (OddSetBelow(x, l, t) != OddLowestAt(x, l, t))
  {
    var cs := Components(x);
    forall k | 0 <= k < |x| ensures AnySet(cs[k], t + 1) == (AnySet(cs[k], t) != LowestAt(cs[k], t)) {}
  }

  /** A shared bit can be extended exactly when, at every position above the lowest and below the sign, an even number
      of components has its lowest set bit. */
  lemma ExtendableBit(x: Joint<Word>, l: nat)
    requires Width(x, l) && l > 0 && IsBit(SecretB(x, l))
    ensures Extendable(x, l) <==> forall t :: 0 < t < l - 1 ==> !OddLowestAt(x, l, t)
  {
    var b := SecretB(x, l)[0];
    hide Width, SecretB, OddSetBelow, OddLowestAt;
    if Extendable(x, l) {
      forall t | 0 < t < l - 1 ensures !OddLowestAt(x, l, t) {
        OneBitMore(x, l, t);
        assert OddSetBelow(x, l, t) == b && OddSetBelow(x, l, t + 1) == b;
      }
    }
    if forall t :: 0 < t < l - 1 ==> !OddLowestAt(x, l, t) {
      forall j | 0 < j < l ensures OddSetBelow(x, l, j) == b { NoLowestBetween(x, l, j); }
    }
  }

  lemma {:induction false} NoLowestBetween(x: Joint<Word>, l: nat, j: nat)
    requires Width(x, l) && 0 < j < l && forall t :: 0 < t < l - 1 ==> !OddLowestAt(x, l, t)
    ensures OddSetBelow(x, l, j) == SecretB(x, l)[0]
  {
    if j == 1 {
      var cs := Components(x);
      assert forall k :: 0 <= k < |x| ==> AnySet(cs[k], 1) == cs[k][0];
    } else {
      NoLowestBetween(x, l, j - 1);
      OneBitMore(x, l, j - 1);
    }
  }

  // -------------------------------------------------------- linear operations

  /** The word operations that the source applies to every share separately. */
  datatype Local = Level(size: nat) | ReverseLevel(size: nat) | Left(s: nat) | Right(s: nat) | XorAll | SignBit
                 | Mask(bits: Word)

  predicate Fits(op: Local, l: nat) {
    l > 0 &&
    match op
    case Level(size) => IsLevel(size) && l % size == 0
    case ReverseLevel(size) => IsLevel(size)
    case Mask(bits) => |bits| == l
    case _ => true
  }

  function Apply(op: Local, w: Word): (r: Word)
    requires Fits(op, |w|)
    ensures |r| == |w|
  {
    match op
    case Level(size) => LevelShift(w, size)
    case ReverseLevel(size) => ReverseLevelShift(w, size)
    case Left(s) => ShiftLeft(w, s)
    case Right(s) => ShiftRight(w, s)
    case XorAll => XorBits(w)
    case SignBit => Ltz(w)
    case Mask(bits) => And(w, bits)
  }

  /** The result of these operations is one bit, whatever the share. */
  predicate YieldsBit(op: Local, l: nat) {
    op == XorAll || op == SignBit || (op.Right? && op.s + 1 == l) || (op.Mask? && IsBit(op.bits))
  }

  lemma YieldsBitWord(op: Local, w: Word)
    requires Fits(op, |w|) && YieldsBit(op, |w|)
    ensures IsBit(Apply(op, w))
  {
  }

  /** All of them commute with XOR. */
  lemma Linear(op: Local, a: Word, b: Word)
    requires |a| == |b| && Fits(op, |a|)
    ensures Apply(op, Xor(a, b)) == Xor(Apply(op, a), Apply(op, b))
  {
    match op
    case XorAll => ParityXor(a, b, |a| - 1);
    case _ =>
  }

  /** Linear operations commute with opening, although every party only sees its own shares. */
  method LocalB(op: Local, x: Joint<Word>, l: nat) returns (z: Joint<Word>)
    requires Width(x, l) && Fits(op, l)
    ensures |z| == |x| && Width(z, l)
    ensures SecretB(z, l) == Apply(op, SecretB(x, l))
    ensures YieldsBit(op, l) ==> SingleBit(z)
  {
    var f := (w: Word) => if |w| == l then Apply(op, w) else w;
    z := Map(x, f);
    MapReplicated(x, f);
    assert Width(z, l);
    ghost var cs := Components(x);
    CombineLinear(op, cs, Components(z), l);
    if YieldsBit(op, l) {
      forall k | 0 <= k < |x| ensures IsBit(Components(z)[k]) { YieldsBitWord(op, cs[k]); }
    }
  }

  lemma CombineLinear(op: Local, cs: seq<Word>, cz: seq<Word>, l: nat)
    requires SameWidth(cs, l) && Fits(op, l) && |cz| == |cs|
    requires forall k :: 0 <= k < |cs| ==> cz[k] == Apply(op, cs[k])
    ensures SameWidth(cz, l) && Combine(cz) == Apply(op, Combine(cs))
  {
    hide Apply;
    Linear(op, cs[0], cs[1]);
    Linear(op, Xor(cs[0], cs[1]), cs[2]);
    if |cs| == 4 {
      Linear(op, Xor(Xor(cs[0], cs[1]), cs[2]), cs[3]);
    }
  }

  /** Setting bits in every share sets them in the secret when the number of components is odd and clears them
      when it is even. */
  method SetBits(x: Joint<Word>, l: nat, bits: Word) returns (z: Joint<Word>)
    requires Width(x, l) && |bits| == l
    ensures |z| == |x| && Width(z, l)
    ensures SecretB(z, l) == if |x| == 3 then Or(SecretB(x, l), bits) else And(SecretB(x, l), Not(bits))
  {
    var f := (w: Word) => if |w| == l then Or(w, bits) else w;
    z := Map(x, f);
    MapReplicated(x, f);
    assert Width(z, l);
  }

  // -------------------------------------------------------------------- AND

  datatype AndMask = Three(r: seq<Word>) | Four(k: FourPC.Masks<Word>)

  /** The masks one AND consumes: three words that cancel, or the agreeing draws of the 4-party protocol. */
  ghost predicate GoodMask(m: AndMask, n: nat, l: nat) {
    match m
    case Three(r) =>
      n == 3 && |r| == 3 && (forall k :: 0 <= k < 3 ==> |r[k]| == l)
      && forall j :: 0 <= j < l ==> ((r[0][j] != r[1][j]) == r[2][j])
    case Four(k) =>
      n == 4 && FourPC.MasksAgree(Bits(l), k) && (forall j :: 0 <= j < 4 ==> |Components(k.first)[j]| == l)
  }

  predicate BitMask(m: AndMask) {
    m.Three? ==> forall k :: 0 <= k < |m.r| ==> IsBit(m.r[k])
  }

  method AndB(x: Joint<Word>, y: Joint<Word>, l: nat, m: AndMask) returns (z: Joint<Word>)
    requires Width(x, l) && Width(y, l) && |x| == |y| && GoodMask(m, |x|, l)
    ensures |z| == |x| && Width(z, l)
    ensures SecretB(z, l) == And(SecretB(x, l), SecretB(y, l))
    ensures (SingleBit(x) || SingleBit(y)) && BitMask(m) ==> SingleBit(z)
  {
    assert Shaped(x) && Shaped(y);
    hide Width, SecretB, SingleBit;
    match m {
      case Three(r) =>
        And3Opens(x, y, r, l);
        z := ThreePC.Product(Bits(l), x, y, r);
      case Four(k) =>
        And4Opens(x, y, k, l);
        AndMessages(x, y, k, l);
        z := FourPC.Exchanged(Bits(l), x, y, k);
    }
  }

  /** The messages of the 4-party `and_b` leave the parties with the product sharing. */
  lemma AndMessages(x: Joint<Word>, y: Joint<Word>, k: FourPC.Masks<Word>, l: nat)
    requires Width(x, l) && Width(y, l) && |x| == |y| == 4 && GoodMask(Four(k), 4, l)
    ensures FourPC.Fitting(x, y, k) && FourPC.Exchanged(Bits(l), x, y, k) == FourPC.Product(Bits(l), x, y, k)
  {
    BitsLawful(l);
    FourPC.ExchangedIsProduct(Bits(l), x, y, k);
  }

  /** The exchange of `and_b` is consistent exactly when the masks agree, whatever words were drawn. */
  lemma AndMasksMustAgree(x: Joint<Word>, y: Joint<Word>, k: FourPC.Masks<Word>, l: nat)
    requires Width(x, l) && Width(y, l) && FourPC.Fitting(x, y, k) && FourPC.WordMasks(Bits(l), k)
    ensures FourPC.ConsistentRun(Bits(l), x, y, k) <==> FourPC.MasksAgree(Bits(l), k)
  {
    BitsLawful(l);
    BitsCancel(l);
    FourPC.MasksMustAgree(Bits(l), x, y, k);
  }

  predicate ThreeTerms(z: Word, l: nat, a: seq<Word>, b: seq<Word>, r: seq<Word>, k: nat)
    requires SameWidth(a, l) && SameWidth(b, l) && SameWidth(r, l) && |a| == |b| == |r| == 3 && k < 3
  {
    var p := (k + 2) % 3;
    |z| == l && forall j :: 0 <= j < l ==>
      z[j] == ((((a[k][j] && b[k][j]) != (a[k][j] && b[p][j])) != (a[p][j] && b[k][j])) != r[k][j])
  }

  lemma CombineThreeTerms(a: seq<Word>, b: seq<Word>, r: seq<Word>, cz: seq<Word>, l: nat)
    requires SameWidth(a, l) && SameWidth(b, l) && |a| == |b| == |cz| == 3 && GoodMask(Three(r), 3, l)
    requires forall k :: 0 <= k < 3 ==> ThreeTerms(cz[k], l, a, b, r, k)
    ensures SameWidth(cz, l) && Combine(cz) == And(Combine(a), Combine(b))
  {
    assert ThreeTerms(cz[0], l, a, b, r, 0) && ThreeTerms(cz[1], l, a, b, r, 1) && ThreeTerms(cz[2], l, a, b, r, 2);
  }

  lemma LocalTerms(x: seq<Word>, y: seq<Word>, r: Word, l: nat)
    requires |x| == |y| == 2 && |x[0]| == |x[1]| == |y[0]| == |y[1]| == |r| == l
    ensures var z := ThreePC.LocalProduct(Bits(l), x, y, r);
      |z| == l && forall j :: 0 <= j < l ==>
        z[j] == ((((x[0][j] && y[0][j]) != (x[0][j] && y[1][j])) != (x[1][j] && y[0][j])) != r[j])
  {
    var a, b, c := And(x[0], y[0]), And(x[0], y[1]), And(x[1], y[0]);
    assert ThreePC.LocalProduct(Bits(l), x, y, r) == Xor(Xor(Xor(a, b), c), r);
  }

  lemma And3Terms(x: Joint<Word>, y: Joint<Word>, r: seq<Word>, l: nat, k: nat)
    requires Width(x, l) && Width(y, l) && |x| == |y| == 3 && GoodMask(Three(r), 3, l) && k < 3
    ensures ThreeTerms(Components(ThreePC.Product(Bits(l), x, y, r))[k], l, Components(x), Components(y), r, k)
  {
    ThreePC.PairOf(x, k);
    ThreePC.PairOf(y, k);
    LocalTerms(x[k], y[k], r[k], l);
  }

  lemma And3Opens(x: Joint<Word>, y: Joint<Word>, r: seq<Word>, l: nat)
    requires Width(x, l) && Width(y, l) && |x| == |y| == 3 && GoodMask(Three(r), 3, l)
    ensures var z := ThreePC.Product(Bits(l), x, y, r);
      && Width(z, l) && SecretB(z, l) == And(SecretB(x, l), SecretB(y, l))
      && ((SingleBit(x) || SingleBit(y)) && BitMask(Three(r)) ==> SingleBit(z))
  {
    var a, b, cz := Components(x), Components(y), Components(ThreePC.Product(Bits(l), x, y, r));
    forall k | 0 <= k < 3 ensures ThreeTerms(cz[k], l, a, b, r, k) { And3Terms(x, y, r, l, k); }
    CombineThreeTerms(a, b, r, cz, l);
    if (SingleBit(x) || SingleBit(y)) && BitMask(Three(r)) {
      forall k | 0 <= k < 3 ensures IsBit(cz[k]) { ThreeTermsBit(cz[k], l, a, b, r, k); }
    }
  }

  lemma ThreeTermsBit(z: Word, l: nat, a: seq<Word>, b: seq<Word>, r: seq<Word>, k: nat)
    requires SameWidth(a, l) && SameWidth(b, l) && SameWidth(r, l) && |a| == |b| == |r| == 3 && k < 3
    requires ThreeTerms(z, l, a, b, r, k)
    requires (IsBit(a[k]) && IsBit(a[(k + 2) % 3])) || (IsBit(b[k]) && IsBit(b[(k + 2) % 3]))
    requires IsBit(r[k])
    ensures IsBit(z)
  {
  }

  predicate FourTerms(z: Word, l: nat, a: seq<Word>, b: seq<Word>, k: nat)
    requires SameWidth(a, l) && SameWidth(b, l) && |a| == |b| == 4 && k < 4
  {
    var n := (k + 1) % 4;
    |z| == l && forall j :: 0 <= j < l ==>
      z[j] == (((a[k][j] && b[k][j]) != ((a[k][j] && b[n][j]) != (a[n][j] && b[k][j])))
               != (k < 2 && ((a[k][j] && b[k + 2][j]) != (a[k + 2][j] && b[k][j]))))
  }

  lemma CombineFourTerms(a: seq<Word>, b: seq<Word>, cz: seq<Word>, l: nat)
    requires SameWidth(a, l) && SameWidth(b, l) && |a| == |b| == |cz| == 4
    requires forall k :: 0 <= k < 4 ==> FourTerms(cz[k], l, a, b, k)
    ensures SameWidth(cz, l) && Combine(cz) == And(Combine(a), Combine(b))
  {
    assert FourTerms(cz[0], l, a, b, 0) && FourTerms(cz[1], l, a, b, 1);
    assert FourTerms(cz[2], l, a, b, 2) && FourTerms(cz[3], l, a, b, 3);
  }

  lemma ComponentTerms(a: seq<Word>, b: seq<Word>, r: seq<Word>, l: nat, k: nat)
    requires SameWidth(a, l) && SameWidth(b, l) && SameWidth(r, l) && |a| == |b| == |r| == 4 && k < 4
    ensures FourTerms(FourPC.ProductComponent(Bits(l), a, b, r, k), l, a, b, k)
  {
    var n := (k + 1) % 4;
    var cross := Xor(And(a[k], b[n]), And(a[n], b[k]));
    var base := Xor(Xor(And(a[k], b[k]), Xor(cross, r[k])), r[k]);
    assert k >= 2 ==> FourPC.ProductComponent(Bits(l), a, b, r, k) == base;
    assert k < 2 ==> FourPC.ProductComponent(Bits(l), a, b, r, k) ==
                     Xor(base, Xor(And(a[k], b[k + 2]), And(a[k + 2], b[k])));
  }

  lemma And4Terms(x: Joint<Word>, y: Joint<Word>, k: FourPC.Masks<Word>, l: nat, j: nat)
    requires Width(x, l) && Width(y, l) && |x| == |y| == 4 && GoodMask(Four(k), 4, l) && j < 4
    ensures FourTerms(Components(FourPC.Product(Bits(l), x, y, k))[j], l, Components(x), Components(y), j)
  {
    ComponentTerms(Components(x), Components(y), Components(k.first), l, j);
  }

  lemma And4Opens(x: Joint<Word>, y: Joint<Word>, k: FourPC.Masks<Word>, l: nat)
    requires Width(x, l) && Width(y, l) && |x| == |y| == 4 && GoodMask(Four(k), 4, l)
    ensures var z := FourPC.Product(Bits(l), x, y, k);
      && Width(z, l) && SecretB(z, l) == And(SecretB(x, l), SecretB(y, l))
      && (SingleBit(x) || SingleBit(y) ==> SingleBit(z))
  {
    var a, b, cz := Components(x), Components(y), Components(FourPC.Product(Bits(l), x, y, k));
    forall j | 0 <= j < 4 ensures FourTerms(cz[j], l, a, b, j) { And4Terms(x, y, k, l, j); }
    CombineFourTerms(a, b, cz, l);
    if SingleBit(x) || SingleBit(y) {
      forall j | 0 <= j < 4 ensures IsBit(cz[j]) { FourTermsBit(cz[j], l, a, b, j); }
    }
  }

  lemma FourTermsBit(z: Word, l: nat, a: seq<Word>, b: seq<Word>, k: nat)
    requires SameWidth(a, l) && SameWidth(b, l) && |a| == |b| == 4 && k < 4 && FourTerms(z, l, a, b, k)
    requires (forall i :: 0 <= i < 4 ==> IsBit(a[i])) || (forall i :: 0 <= i < 4 ==> IsBit(b[i]))
    ensures IsBit(z)
  {
  }

  lemma DeMorgan(a: Word, b: Word)
    requires |a| == |b|
    ensures Not(And(Not(a), Not(b))) == Or(a, b)
  {
  }

  method OrB(x: Joint<Word>, y: Joint<Word>, l: nat, m: AndMask) returns (z: Joint<Word>)
    requires Width(x, l) && Width(y, l) && |x| == |y| && GoodMask(m, |x|, l)
    ensures |z| == |x| && Width(z, l)
    ensures SecretB(z, l) == Or(SecretB(x, l), SecretB(y, l))
  {
    DeMorgan(SecretB(x, l), SecretB(y, l));
    var nx := NotB(x, l);
    var ny := NotB(y, l);
    var both := AndB(nx, ny, l, m);
    z := NotB(both, l);
  }
}
