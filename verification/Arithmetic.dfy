/** Arithmetic sharings: a secret is the sum of its components modulo m. */
module Arithmetic {
  import opened Arith
  import Ring
  import opened Algebra
  import opened Sharing

  /** Components summed from the left, reducing at every step as the machine does. */
  function Total(m: nat, cs: seq<int>): (t: int)
    requires m > 0 && (|cs| == 3 || |cs| == 4)
  {
    var t := Ring.Add(m, Ring.Add(m, cs[0], cs[1]), cs[2]);
    if |cs| == 3 then t else Ring.Add(m, t, cs[3])
  }

  function Plain(cs: seq<int>): (t: int)
    requires |cs| == 3 || |cs| == 4
  {
    cs[0] + cs[1] + cs[2] + (if |cs| == 3 then 0 else cs[3])
  }

  function SecretA(m: nat, x: Joint<int>): (s: int)
    requires m > 0 && Shaped(x)
    ensures s == Plain(Components(x)) % m
  {
    TotalIsPlain(m, Components(x));
    Total(m, Components(x))
  }

  lemma TotalIsPlain(m: nat, cs: seq<int>)
    requires m > 0 && (|cs| == 3 || |cs| == 4)
    ensures Total(m, cs) == Plain(cs) % m
  {
    Ring.WrapAdd(m, cs[0] + cs[1], cs[2]);
    if |cs| == 4 {
      Ring.WrapAdd(m, cs[0] + cs[1] + cs[2], cs[3]);
    }
  }

  /** Reducing each of the summands first does not change a sum. */
  lemma SumOfResidues(m: nat, a: int, b: int, c: int, d: int)
    requires m > 0
    ensures (a % m + b % m + c % m + d % m) % m == (a + b + c + d) % m
  {
    Ring.WrapAdd(m, a, b % m + c % m + d % m);
    Ring.WrapAdd(m, b, a + c % m + d % m);
    Ring.WrapAdd(m, c, a + b + d % m);
    Ring.WrapAdd(m, d, a + b + c);
  }

  /** A sharing whose components are the residues of `es` opens to the residue of their sum. */
  lemma PlainOfResidues(m: nat, cs: seq<int>, es: seq<int>)
    requires m > 0 && (|cs| == 3 || |cs| == 4) && |es| == |cs|
    requires forall k :: 0 <= k < |cs| ==> cs[k] == es[k] % m
    ensures Total(m, cs) == Plain(cs) % m == Plain(es) % m
  {
    TotalIsPlain(m, cs);
    DivModUnique(0, m, 0, 0);
    SumOfResidues(m, es[0], es[1], es[2], if |cs| == 3 then 0 else es[3]);
  }

  /** An arithmetic sharing of machine words. */
  predicate InRange(m: nat, x: Joint<int>) {
    Replicated(x) && forall k :: 0 <= k < |x| ==> 0 <= Components(x)[k] < m
  }

  // ----------------------------------------------- operations without messages

  function AddA(m: nat, x: Joint<int>, y: Joint<int>): (r: Joint<int>)
    requires m > 0 && Shaped(x) && Shaped(y) && |x| == |y|
    ensures Shaped(r) && |r| == |x|
  {
    Zip(x, y, Residues(m).plus)
  }

  function SubA(m: nat, x: Joint<int>, y: Joint<int>): (r: Joint<int>)
    requires m > 0 && Shaped(x) && Shaped(y) && |x| == |y|
    ensures Shaped(r) && |r| == |x|
  {
    Zip(x, y, Residues(m).minus)
  }

  function NegA(m: nat, x: Joint<int>): (r: Joint<int>)
    requires m > 0 && Shaped(x)
    ensures Shaped(r) && |r| == |x|
  {
    Map(x, a => Ring.Neg(m, a))
  }

  lemma AddComponents(m: nat, cx: seq<int>, cy: seq<int>, cr: seq<int>)
    requires m > 0 && (|cr| == 3 || |cr| == 4) && |cx| == |cy| == |cr|
    requires forall k :: 0 <= k < |cr| ==> cr[k] == Ring.Add(m, cx[k], cy[k])
    ensures Total(m, cr) == Ring.Add(m, Plain(cx) % m, Plain(cy) % m)
  {
    var es := seq(|cr|, k requires 0 <= k < |cr| => cx[k] + cy[k]);
    PlainOfResidues(m, cr, es);
    assert Plain(es) == Plain(cx) + Plain(cy);
    Ring.AddResidues(m, Plain(cx), Plain(cy));
  }

  lemma AddOpens(m: nat, x: Joint<int>, y: Joint<int>)
    requires m > 0 && Replicated(x) && Replicated(y) && |x| == |y|
    ensures Replicated(AddA(m, x, y))
    ensures SecretA(m, AddA(m, x, y)) == Ring.Add(m, SecretA(m, x), SecretA(m, y))
  {
    ZipReplicated(x, y, Residues(m).plus);
    AddComponents(m, Components(x), Components(y), Components(AddA(m, x, y)));
  }

  lemma SubComponents(m: nat, cx: seq<int>, cy: seq<int>, cr: seq<int>)
    requires m > 0 && (|cr| == 3 || |cr| == 4) && |cx| == |cy| == |cr|
    requires forall k :: 0 <= k < |cr| ==> cr[k] == Ring.Sub(m, cx[k], cy[k])
    ensures Total(m, cr) == Ring.Sub(m, Plain(cx) % m, Plain(cy) % m)
  {
    var es := seq(|cr|, k requires 0 <= k < |cr| => cx[k] - cy[k]);
    PlainOfResidues(m, cr, es);
    assert Plain(es) == Plain(cx) - Plain(cy);
    Ring.SubResidues(m, Plain(cx), Plain(cy));
  }

  lemma SubOpens(m: nat, x: Joint<int>, y: Joint<int>)
    requires m > 0 && Replicated(x) && Replicated(y) && |x| == |y|
    ensures Replicated(SubA(m, x, y))
    ensures SecretA(m, SubA(m, x, y)) == Ring.Sub(m, SecretA(m, x), SecretA(m, y))
  {
    ZipReplicated(x, y, Residues(m).minus);
    SubComponents(m, Components(x), Components(y), Components(SubA(m, x, y)));
  }

  lemma NegComponents(m: nat, cx: seq<int>, cr: seq<int>)
    requires m > 0 && (|cr| == 3 || |cr| == 4) && |cx| == |cr|
    requires forall k :: 0 <= k < |cr| ==> cr[k] == Ring.Neg(m, cx[k])
    ensures Total(m, cr) == Ring.Neg(m, Plain(cx) % m)
  {
    var es := seq(|cr|, k requires 0 <= k < |cr| => -cx[k]);
    PlainOfResidues(m, cr, es);
    assert Plain(es) == -Plain(cx);
    Ring.WrapNeg(m, Plain(cx));
  }

  lemma NegOpens(m: nat, x: Joint<int>)
    requires m > 0 && Replicated(x)
    ensures Replicated(NegA(m, x))
    ensures SecretA(m, NegA(m, x)) == Ring.Neg(m, SecretA(m, x))
  {
    hide Ring.Neg, Plain, Total, Deal, Components;
    MapReplicated(x, a => Ring.Neg(m, a));
    NegComponents(m, Components(x), Components(NegA(m, x)));
  }

  /** The results are machine words again. */
  lemma LocalInRange(m: nat, x: Joint<int>, y: Joint<int>)
    requires m > 0 && Replicated(x) && Replicated(y) && |x| == |y|
    ensures InRange(m, AddA(m, x, y)) && InRange(m, SubA(m, x, y)) && InRange(m, NegA(m, x))
  {
    ZipReplicated(x, y, Residues(m).plus);
    ZipReplicated(x, y, Residues(m).minus);
    MapReplicated(x, (a: int) => Ring.Neg(m, a));
  }

  // ------------------------------------------------------------------ opening

  /** What party `i` computes when the sharing is opened: it asks a peer for the one component it lacks. */
  function OpenA(m: nat, x: Joint<int>, i: nat): (v: int)
    requires m > 0 && Shaped(x) && i < |x|
  {
    if |x| == 3 then
      var received := Exchange(seq(3, j requires 0 <= j < 3 => x[j][1]), 1, 2);
      Ring.Add(m, Ring.Add(m, x[i][0], x[i][1]), received[i])
    else
      var received := Exchange(seq(4, j requires 0 <= j < 4 => x[j][0]), 1, 3);
      Ring.Add(m, Ring.Add(m, Ring.Add(m, x[i][0], x[i][1]), x[i][2]), received[i])
  }

  lemma OpenIsView(m: nat, x: Joint<int>, i: nat)
    requires m > 0 && Shaped(x) && i < |x|
    ensures OpenA(m, x, i) == Total(m, ViewAt(x, i))
  {
  }

  lemma RotationSum(cs: seq<int>, i: nat)
    requires (|cs| == 3 || |cs| == 4) && i < |cs|
    ensures Plain(Rotation(cs, i)) == Plain(cs)
  {
  }

  /** Opening gives every party the secret. */
  lemma OpenAGivesSecret(m: nat, x: Joint<int>, i: nat)
    requires m > 0 && Replicated(x) && i < |x|
    ensures OpenA(m, x, i) == SecretA(m, x)
  {
    hide OpenA, ViewAt, Rotation, Plain, Total, Deal, Components;
    OpenIsView(m, x, i);
    ViewIsRotation(x, i);
    RotationSum(Components(x), i);
    TotalIsPlain(m, ViewAt(x, i));
  }

  /** What party `i` of four reconstructs from its shares and a received number. */
  function OpenAWith(m: nat, x: Joint<int>, i: nat, v: int): (w: int)
    requires m > 0 && Shaped(x) && |x| == 4 && i < 4
  {
    Ring.Add(m, Ring.Add(m, Ring.Add(m, x[i][0], x[i][1]), x[i][2]), v)
  }

  /** Opening is not checked: the result is the secret exactly when the received number is the component that the party
      lacks. */
  lemma OpeningTrustsSenderA(m: nat, x: Joint<int>, i: nat, v: int)
    requires m > 0 && InRange(m, x) && |x| == 4 && i < 4 && 0 <= v < m
    ensures OpenAWith(m, x, i, v) == SecretA(m, x) <==> v == Components(x)[i]
  {
    var cs := Components(x);
    var known := cs[(i + 1) % 4] + cs[(i + 2) % 4] + cs[(i + 3) % 4];
    assert x[i] == [cs[(i + 1) % 4], cs[(i + 2) % 4], cs[(i + 3) % 4]];
    assert Plain(cs) == known + cs[i];
    TotalIsPlain(m, [x[i][0], x[i][1], x[i][2], v]);
    SameResidues(m, known, v, cs[i]);
  }

  lemma SameResidues(m: nat, k: int, v: int, w: int)
    requires m > 0 && 0 <= v < m && 0 <= w < m
    ensures (k + v) % m == (k + w) % m <==> v == w
  {
    DivMod(k + v, m);
    DivMod(k + w, m);
    if (k + v) % m == (k + w) % m {
      var t := (k + v) / m - (k + w) / m;
      assert t * m == v - w;
      if t >= 1 { MulMono(1, t, m); } else if t <= -1 { MulMono(t, -1, m); }
    }
  }
}
