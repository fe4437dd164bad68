/** The 4-party `inp`: two parties that both know a value share it, and a third one compares what they send. */
module JointInput {
  import opened Sharing
  import opened Algebra
  import opened Fantastic4PC

  /** `inp(i, i+3, i+1, i+2)` for `i` 0 or 2: parties `i` and `i+3` know the value and send it masked to `i+1`. */
  function InpShares<T>(o: Ops<T>, i: nat, party: nat, value: T, r: T, fromI: T): (shares: seq<T>)
    requires (i == 0 || i == 2) && party < 4
    ensures |shares| == 3
  {
    if party == i then [r, o.minus(value, r), o.zero]
    else if party == (i + 3) % 4 then [o.zero, r, o.minus(value, r)]
    else if party == (i + 1) % 4 then [fromI, o.zero, o.zero]
    else [o.zero, o.zero, r]
  }

  /** The receiver compares what arrives, `fromI` and `fromJ`, and accuses both senders when it differs. */
  function InpFinish<T(==)>(o: Ops<T>, i: nat, party: nat, value: T, r: T, fromI: T, fromJ: T): (c: Outcome<T>)
    requires (i == 0 || i == 2) && party < 4
    ensures c.Holds? ==> |c.shares| == 3
  {
    if party == (i + 1) % 4 && fromI != fromJ then Accuses(i, (i + 3) % 4)
    else Holds(InpShares(o, i, party, value, r, fromI))
  }

  /** `value[p]` and `r[p]` are what party `p` takes for the value and draws as mask. */
  function InpRun<T(==)>(o: Ops<T>, i: nat, value: seq<T>, r: seq<T>, fromI: T, fromJ: T): (rs: seq<Outcome<T>>)
    requires (i == 0 || i == 2) && |value| == |r| == 4
    ensures |rs| == 4 && forall p :: 0 <= p < 4 && rs[p].Holds? ==> |rs[p].shares| == 3
  {
    seq(4, p requires 0 <= p < 4 => InpFinish(o, i, p, value[p], r[p], fromI, fromJ))
  }

  /** The sharing that the parties end with when nobody deviates. */
  function Inp<T(==)>(o: Ops<T>, i: nat, value: seq<T>, r: seq<T>): (x: Joint<T>)
    requires (i == 0 || i == 2) && |value| == |r| == 4
    ensures |x| == 4
  {
    var j := (i + 3) % 4;
    Kept(InpRun(o, i, value, r, o.minus(value[i], r[i]), o.minus(value[j], r[j])))
  }

  function InpComponents<T>(o: Ops<T>, i: nat, v: T, r: T): (cs: seq<T>)
    requires i == 0 || i == 2
    ensures |cs| == 4
  {
    if i == 0 then [o.zero, r, o.minus(v, r), o.zero] else [o.minus(v, r), o.zero, o.zero, r]
  }

  /** The two senders know the value, and all but the receiver draw the same mask. */
  predicate Prepared<T(==)>(i: nat, party: nat, value: T, r: T, v: T, mask: T) {
    (party == i || party == (i + 3) % 4 ==> value == v) && (party != (i + 1) % 4 ==> r == mask)
  }

  lemma InpShareOf<T>(o: Ops<T>, i: nat, p: nat, value: T, v: T, r: T, mask: T)
    requires (i == 0 || i == 2) && p < 4 && Prepared(i, p, value, r, v, mask)
    ensures InpShares(o, i, p, value, r, o.minus(v, mask)) == Deal(InpComponents(o, i, v, mask))[p]
  {
    var cs := InpComponents(o, i, v, mask);
    assert Deal(cs)[p] == [cs[Layout(4, p, 0)], cs[Layout(4, p, 1)], cs[Layout(4, p, 2)]];
  }

  /** One party may send anything, take anything for the value and draw anything: every other party ends with its
      shares of the honest run, or it is the receiver and accuses a pair that contains the deviating party. */
  lemma InpOneBadParty<T>(o: Ops<T>, i: nat, value: seq<T>, r: seq<T>, v: T, mask: T, fromI: T, fromJ: T, bad: nat,
                          p: nat)
    requires (i == 0 || i == 2) && |value| == |r| == 4 && bad < 4 && p < 4 && p != bad
    requires forall q :: 0 <= q < 4 && q != bad ==> Prepared(i, q, value[q], r[q], v, mask)
    requires (bad != i ==> fromI == o.minus(v, mask)) && (bad != (i + 3) % 4 ==> fromJ == o.minus(v, mask))
    ensures var c := InpRun(o, i, value, r, fromI, fromJ)[p];
      if c.Accuses? then p == (i + 1) % 4 && (c.first == bad || c.second == bad)
      else c == Holds(Deal(InpComponents(o, i, v, mask))[p])
  {
    InpShareOf(o, i, p, value[p], v, r[p], mask);
  }

  /** When the two senders agree on the value and the three mask holders on the mask, nobody stops and the result is a
      consistent sharing of the value. */
  lemma InpHonest<T>(o: Ops<T>, i: nat, value: seq<T>, r: seq<T>)
    requires (i == 0 || i == 2) && |value| == |r| == 4
    requires value[i] == value[(i + 3) % 4] && r[i] == r[(i + 3) % 4] == r[(i + 2) % 4]
    ensures var m := o.minus(value[i], r[i]);
      forall p :: 0 <= p < 4 ==> InpRun(o, i, value, r, m, m)[p] == Holds(Deal(InpComponents(o, i, value[i], r[i]))[p])
    ensures Inp(o, i, value, r) == Deal(InpComponents(o, i, value[i], r[i]))
  {
    var m, d := o.minus(value[i], r[i]), Deal(InpComponents(o, i, value[i], r[i]));
    forall p | 0 <= p < 4 ensures InpRun(o, i, value, r, m, m)[p] == Holds(d[p]) {
      InpShareOf(o, i, p, value[p], value[i], r[p], r[i]);
    }
  }
}
