/** Whole computations of four parties of which one may send anything at every step.

    Programs are straight-line: share-by-share operations, products, and values that two parties know and share with
    `inp`.  The deviating party chooses at every exchange what it sends, different values to different parties if it
    likes, and at every instruction what it stores; since the theorem holds for all choices, they may depend on
    everything seen before.  Every register has its own ring, so conversions are programs too. */
module Robustness {
  import opened Sharing
  import opened Algebra
  import opened Fantastic4PC
  import opened JointInput

  /** `d` is the destination register.  A local function may treat the components differently, as `not_b` does.
      In `Give` party `p` computes the value `f(p, shares)` from its own shares, and parties `i` and `i+3` share it. */
  datatype Instruction<!T> =
    | Local(d: nat, x: nat, y: nat, f: (nat, T, T) -> T)
    | Times(d: nat, x: nat, y: nat, k: Masks<T>)
    | Give(d: nat, x: nat, i: nat, g: (nat, seq<T>) -> T, r: seq<T>)

  /** What the deviating party does at one step: its messages in a product or in `inp`, and what it stores. */
  datatype Choice<T> = Choice(sent: Sent<T>, given: T, stored: seq<T>)

  /** All registers of all parties. */
  type Registers<T> = seq<Joint<T>>

  datatype Progress<T> = Running(regs: Registers<T>) | Aborted(party: nat, first: nat, second: nat)

  predicate Table<T>(regs: Registers<T>) {
    forall r :: 0 <= r < |regs| ==> Shaped(regs[r]) && |regs[r]| == 4
  }

  /** Registers and masks are where the instruction looks for them. */
  predicate Placed<T>(i: Instruction<T>, n: nat) {
    match i
    case Local(d, x, y, _) => d < n && x < n && y < n
    case Times(d, x, y, k) => d < n && x < n && y < n && Shaped(k.first) && |k.first| == 4
    case Give(d, x, p, _, r) => d < n && x < n && (p == 0 || p == 2) && |r| == 4
  }

  /** The elements of one ring are operands of another. */
  ghost predicate Feeds<T(!new)>(a: Ops<T>, b: Ops<T>) {
    forall v {:trigger b.operand(v)} :: a.element(v) ==> b.operand(v)
  }

  /** Parties `i` and `i+3` compute the same value from their shares of any sharing. */
  ghost predicate KnownTwice<T(!new)>(a: Ops<T>, b: Ops<T>, i: nat, g: (nat, seq<T>) -> T)
    requires i == 0 || i == 2
  {
    forall cs {:trigger ViewOf(cs, i)} :: |cs| == 4 && Elements(a, cs) ==>
      g(i, ViewOf(cs, i)) == g((i + 3) % 4, ViewOf(cs, (i + 3) % 4)) && b.operand(g(i, ViewOf(cs, i)))
  }

  /** A local function keeps to the rings of its registers, a given value is known to both senders, and the masks are
      drawn as the parties agreed. */
  ghost predicate Suits<T(!new)>(rings: seq<Ops<T>>, i: Instruction<T>) {
    && Placed(i, |rings|)
    && match i
       case Local(d, x, y, f) =>
         forall j, a, b {:trigger f(j, a, b)} :: j < 4 && rings[x].element(a) && rings[y].element(b) ==>
           rings[d].element(f(j, a, b))
       case Times(d, x, y, k) =>
         Feeds(rings[x], rings[d]) && Feeds(rings[y], rings[d]) && MasksAgree(rings[d], k) && Drawn(rings[d], k.first)
       case Give(d, x, p, g, r) =>
         && KnownTwice(rings[x], rings[d], p, g)
         && r[p] == r[(p + 3) % 4] == r[(p + 2) % 4] && rings[d].element(r[p])
  }

  /** The draws of all parties are operands. */
  ghost predicate Drawn<T>(o: Ops<T>, first: Joint<T>) {
    forall i :: 0 <= i < |first| ==> Operable(o, first[i])
  }

  // --------------------------------------------------------------- honest run

  function ShareByShare<T>(x: Joint<T>, y: Joint<T>, f: (nat, T, T) -> T): (z: Joint<T>)
    requires Shaped(x) && Shaped(y) && |x| == |y| == 4
    ensures Shaped(z) && |z| == 4
    ensures forall i, c :: 0 <= i < 4 && 0 <= c < 3 ==> z[i][c] == f(Layout(4, i, c), x[i][c], y[i][c])
  {
    seq(4, i requires 0 <= i < 4 => seq(3, c requires 0 <= c < 3 => f(Layout(4, i, c), x[i][c], y[i][c])))
  }

  lemma ShareByShareReplicated<T>(x: Joint<T>, y: Joint<T>, f: (nat, T, T) -> T)
    requires Replicated(x) && Replicated(y) && |x| == |y| == 4
    ensures Replicated(ShareByShare(x, y, f))
    ensures forall k :: 0 <= k < 4 ==> Components(ShareByShare(x, y, f))[k] == f(k, Components(x)[k], Components(y)[k])
  {
    var cx, cy := Components(x), Components(y);
    ReplicatedByEntries(ShareByShare(x, y, f), seq(4, k requires 0 <= k < 4 => f(k, cx[k], cy[k])));
  }

  /** The sharing of the value that parties `i` and `i+3` know. */
  function Given<T>(o: Ops<T>, x: Joint<T>, i: nat, g: (nat, seq<T>) -> T, r: seq<T>): (z: Joint<T>)
    requires |x| == |r| == 4 && (i == 0 || i == 2)
    ensures Shaped(z) && |z| == 4
  {
    Deal(InpComponents(o, i, g(i, x[i]), r[i]))
  }

  function HonestStep<T>(rings: seq<Ops<T>>, i: Instruction<T>, regs: Registers<T>): (next: Registers<T>)
    requires Table(regs) && |rings| == |regs| && Placed(i, |regs|)
    ensures Table(next) && |next| == |regs|
  {
    match i
    case Local(d, x, y, f) => regs[d := ShareByShare(regs[x], regs[y], f)]
    case Times(d, x, y, k) => regs[d := Product(rings[d], regs[x], regs[y], k)]
    case Give(d, x, p, g, r) => regs[d := Given(rings[d], regs[x], p, g, r)]
  }

  /** A consistent sharing of ring elements. */
  ghost predicate SoundIn<T(!new)>(o: Ops<T>, x: Joint<T>) {
    Lawful(o) && Replicated(x) && |x| == 4 && Elements(o, Components(x))
  }

  ghost predicate Sound<T(!new)>(rings: seq<Ops<T>>, regs: Registers<T>) {
    |rings| == |regs| && forall r {:trigger regs[r]} :: 0 <= r < |regs| ==> SoundIn(rings[r], regs[r])
  }

  lemma LocalSound<T(!new)>(a: Ops<T>, b: Ops<T>, o: Ops<T>, x: Joint<T>, y: Joint<T>, f: (nat, T, T) -> T)
    requires SoundIn(a, x) && SoundIn(b, y) && Lawful(o)
    requires forall j, u, v {:trigger f(j, u, v)} :: j < 4 && a.element(u) && b.element(v) ==> o.element(f(j, u, v))
    ensures SoundIn(o, ShareByShare(x, y, f))
  {
    hide Lawful;
    ShareByShareReplicated(x, y, f);
  }

  lemma ProductInputs<T(!new)>(a: Ops<T>, b: Ops<T>, o: Ops<T>, x: Joint<T>, y: Joint<T>, k: Masks<T>)
    requires SoundIn(a, x) && SoundIn(b, y) && Lawful(o) && Feeds(a, o) && Feeds(b, o)
    requires MasksAgree(o, k) && Drawn(o, k.first)
    ensures HonestInputs(o, x, y, k)
  {
    assert o.operand(o.zero);
  }

  lemma ProductSound<T(!new)>(o: Ops<T>, x: Joint<T>, y: Joint<T>, k: Masks<T>)
    requires HonestInputs(o, x, y, k) && MasksAgree(o, k)
    ensures SoundIn(o, Product(o, x, y, k))
  {
    hide Lawful;
    var a, b, r := Components(x), Components(y), Components(k.first);
    AgreedComponents(o, x, y, k);
    forall j | 0 <= j < 4 ensures o.element(ProductComponent(o, a, b, r, j)) { ElementComponent(o, a, b, r, j); }
  }

  /** Both senders compute the same value from a consistent sharing. */
  lemma SameValue<T(!new)>(a: Ops<T>, o: Ops<T>, x: Joint<T>, i: nat, g: (nat, seq<T>) -> T)
    requires SoundIn(a, x) && (i == 0 || i == 2) && KnownTwice(a, o, i, g)
    ensures g(i, x[i]) == g((i + 3) % 4, x[(i + 3) % 4]) && o.operand(g(i, x[i]))
  {
    hide Lawful, Elements, Components, ViewOf;
    SharesOf(x, i);
    SharesOf(x, (i + 3) % 4);
    assert ViewOf(Components(x), i) == x[i];
  }

  lemma GivenSound<T(!new)>(a: Ops<T>, o: Ops<T>, x: Joint<T>, i: nat, g: (nat, seq<T>) -> T, r: seq<T>)
    requires SoundIn(a, x) && Lawful(o) && (i == 0 || i == 2) && |r| == 4 && KnownTwice(a, o, i, g) && o.element(r[i])
    ensures SoundIn(o, Given(o, x, i, g, r))
  {
    SameValue(a, o, x, i, g);
    hide KnownTwice, Elements, Replicated;
    var v := g(i, x[i]);
    assert o.element(o.minus(v, r[i])) && o.element(o.zero);
    var cs := InpComponents(o, i, v, r[i]);
    DealtSound(o, cs);
  }

  lemma DealtSound<T(!new)>(o: Ops<T>, cs: seq<T>)
    requires Lawful(o) && |cs| == 4 && o.element(cs[0]) && o.element(cs[1]) && o.element(cs[2]) && o.element(cs[3])
    ensures SoundIn(o, Deal(cs))
  {
    hide Lawful;
  }

  /** Honest steps keep all registers consistent. */
  lemma HonestStepSound<T(!new)>(rings: seq<Ops<T>>, i: Instruction<T>, regs: Registers<T>)
    requires Sound(rings, regs) && Suits(rings, i)
    ensures Table(regs) && Sound(rings, HonestStep(rings, i, regs))
  {
    assert Table(regs) by { TableOf(rings, regs); }
    assert Lawful(rings[i.d]) by { assert SoundIn(rings[i.d], regs[i.d]); }
    hide Lawful, KnownTwice, SoundIn, Given, Product;
    match i
    case Local(d, x, y, f) =>
      LocalSound(rings[x], rings[y], rings[d], regs[x], regs[y], f);
    case Times(d, x, y, k) =>
      ProductInputs(rings[x], rings[y], rings[d], regs[x], regs[y], k);
      ProductSound(rings[d], regs[x], regs[y], k);
    case Give(d, x, p, g, r) =>
      GivenSound(rings[x], rings[d], regs[x], p, g, r);
  }

  lemma TableOf<T(!new)>(rings: seq<Ops<T>>, regs: Registers<T>)
    requires Sound(rings, regs)
    ensures Table(regs)
  {
    hide Lawful, Elements;
    forall r | 0 <= r < |regs| ensures Shaped(regs[r]) && |regs[r]| == 4 { assert SoundIn(rings[r], regs[r]); }
  }

  // --------------------------------------------------------------- actual run

  /** The message of an honest party is computed from its own registers. */
  function Wire<T>(o: Ops<T>, x: Joint<T>, y: Joint<T>, k: Masks<T>, bad: nat, sent: Sent<T>): (w: seq<Sent<T>>)
    requires Fitting(x, y, k) && bad < 4
    ensures |w| == 4 && Deviates(w, HonestMessages(o, x, y, k), bad)
  {
    HonestMessages(o, x, y, k)[bad := sent]
  }

  /** The first party before `n` that stops, other than the deviating one. */
  function Stopping<T>(rs: seq<Outcome<T>>, bad: nat, n: nat): (p: int)
    requires |rs| == 4 && n <= 4
    ensures -1 <= p < n && (p >= 0 ==> p != bad && rs[p].Accuses?)
    ensures p < 0 ==> forall i :: 0 <= i < n && i != bad ==> rs[i].Holds?
  {
    if n == 0 then -1 else
      var p := Stopping(rs, bad, n - 1);
      if p >= 0 then p else if n - 1 != bad && rs[n - 1].Accuses? then n - 1 else -1
  }

  /** What every party concludes from the wire of a product. */
  function Outcomes<T(==)>(o: Ops<T>, x: Joint<T>, y: Joint<T>, k: Masks<T>, bad: nat, sent: Sent<T>)
    : (rs: seq<Outcome<T>>)
    requires Fitting(x, y, k) && bad < 4
    ensures |rs| == 4 && forall j :: 0 <= j < 4 && rs[j].Holds? ==> |rs[j].shares| == 3
  {
    Run(o, x, y, k, Wire(o, x, y, k, bad, sent))
  }

  /** What party `p` sends in `inp`. */
  function GiveMessage<T>(o: Ops<T>, x: Joint<T>, p: nat, g: (nat, seq<T>) -> T, r: seq<T>, bad: nat, given: T): (v: T)
    requires |x| == |r| == 4 && p < 4
  {
    if p == bad then given else o.minus(g(p, x[p]), r[p])
  }

  /** What every party concludes from an `inp`. */
  function GiveOutcomes<T(==)>(o: Ops<T>, x: Joint<T>, i: nat, g: (nat, seq<T>) -> T, r: seq<T>, bad: nat, given: T)
    : (rs: seq<Outcome<T>>)
    requires |x| == |r| == 4 && (i == 0 || i == 2)
    ensures |rs| == 4 && forall j :: 0 <= j < 4 && rs[j].Holds? ==> |rs[j].shares| == 3
  {
    InpRun(o, i, seq(4, p requires 0 <= p < 4 => g(p, x[p])), r, GiveMessage(o, x, i, g, r, bad, given),
           GiveMessage(o, x, (i + 3) % 4, g, r, bad, given))
  }

  /** An exchange ends the program as soon as an honest party accuses. */
  function Settle<T>(rs: seq<Outcome<T>>, regs: Registers<T>, d: nat, bad: nat, stored: seq<T>): (p: Progress<T>)
    requires |rs| == 4 && forall j :: 0 <= j < 4 && rs[j].Holds? ==> |rs[j].shares| == 3
    requires Table(regs) && d < |regs| && bad < 4 && |stored| == 3
    ensures p.Running? ==> Table(p.regs) && |p.regs| == |regs|
  {
    var p := Stopping(rs, bad, 4);
    if p >= 0 then Aborted(p, rs[p].first, rs[p].second) else
      Running(regs[d := seq(4, j requires 0 <= j < 4 => if j == bad then stored else rs[j].shares)])
  }

  function ActualStep<T(==)>(rings: seq<Ops<T>>, i: Instruction<T>, regs: Registers<T>, bad: nat, c: Choice<T>)
    : (p: Progress<T>)
    requires Table(regs) && |rings| == |regs| && Placed(i, |regs|) && bad < 4 && |c.stored| == 3
    ensures p.Running? ==> Table(p.regs) && |p.regs| == |regs|
  {
    match i
    case Local(d, x, y, f) => Running(regs[d := ShareByShare(regs[x], regs[y], f)[bad := c.stored]])
    case Times(d, x, y, k) => Settle(Outcomes(rings[d], regs[x], regs[y], k, bad, c.sent), regs, d, bad, c.stored)
    case Give(d, x, p, g, r) => Settle(GiveOutcomes(rings[d], regs[x], p, g, r, bad, c.given), regs, d, bad, c.stored)
  }

  /** The honest parties hold exactly their shares of the honest run. */
  predicate Agrees<T(==)>(actual: Registers<T>, honest: Registers<T>, bad: nat) {
    && |actual| == |honest| && Table(actual) && Table(honest)
    && forall r, j :: 0 <= r < |honest| && 0 <= j < 4 && j != bad ==> actual[r][j] == honest[r][j]
  }

  /** An abort is by an honest party, and the deviating one is among the two it accuses. */
  predicate JustAbort<T>(p: Progress<T>, bad: nat) {
    p.Aborted? ==> p.party != bad && (p.first == bad || p.second == bad)
  }

  /** Every honest party accuses justly or ends with its share of `z`. */
  predicate JustOutcomes<T(==)>(rs: seq<Outcome<T>>, z: Joint<T>, bad: nat)
    requires |rs| == |z| == 4
  {
    forall j {:trigger rs[j]} :: 0 <= j < 4 && j != bad ==>
      if rs[j].Accuses? then rs[j].first == bad || rs[j].second == bad else rs[j] == Holds(z[j])
  }

  /** What the honest parties conclude in a product depends on their own shares and the wire only. */
  lemma SameConclusion<T(!new)>(o: Ops<T>, ax: Joint<T>, ay: Joint<T>, x: Joint<T>, y: Joint<T>, k: Masks<T>, bad: nat,
                                sent: Sent<T>)
    requires HonestInputs(o, x, y, k) && MasksAgree(o, k) && Fitting(ax, ay, k) && bad < 4
    requires forall i :: 0 <= i < 4 && i != bad ==> ax[i] == x[i] && ay[i] == y[i]
    ensures JustOutcomes(Outcomes(o, ax, ay, k, bad, sent), Product(o, x, y, k), bad)
  {
    hide Lawful, Run, Product, Operable, Replicated, Components, Wire, CopiesAgree, Deviates;
    forall j | 0 <= j < 4 && j != bad
      ensures var c := Outcomes(o, ax, ay, k, bad, sent)[j];
        if c.Accuses? then c.first == bad || c.second == bad else c == Holds(Product(o, x, y, k)[j])
    {
      OwnConclusion(o, ax, ay, x, y, k, bad, sent, j);
    }
  }

  lemma OwnConclusion<T(!new)>(o: Ops<T>, ax: Joint<T>, ay: Joint<T>, x: Joint<T>, y: Joint<T>, k: Masks<T>, bad: nat,
                               sent: Sent<T>, j: nat)
    requires HonestInputs(o, x, y, k) && MasksAgree(o, k) && Fitting(ax, ay, k) && bad < 4 && j < 4 && j != bad
    requires forall i :: 0 <= i < 4 && i != bad ==> ax[i] == x[i] && ay[i] == y[i]
    ensures var c := Outcomes(o, ax, ay, k, bad, sent)[j];
      if c.Accuses? then c.first == bad || c.second == bad else c == Holds(Product(o, x, y, k)[j])
  {
    hide Lawful, Finish, Product, Operable, Replicated, Components;
    var w := Wire(o, ax, ay, k, bad, sent);
    assert Deviates(w, HonestMessages(o, x, y, k), bad);
    HonestRun(o, x, y, k);
    OneBadParty(o, x, y, k, w, bad, j);
    assert Run(o, ax, ay, k, w)[j] == Run(o, x, y, k, w)[j];
  }

  /** The same for `inp`: whether it sends, receives or only draws a mask, the deviating party does not matter. */
  lemma SameGift<T(!new)>(o: Ops<T>, ax: Joint<T>, x: Joint<T>, i: nat, g: (nat, seq<T>) -> T, r: seq<T>, bad: nat,
                          given: T)
    requires |ax| == |x| == |r| == 4 && (i == 0 || i == 2) && bad < 4
    requires g(i, x[i]) == g((i + 3) % 4, x[(i + 3) % 4]) && r[i] == r[(i + 3) % 4] == r[(i + 2) % 4]
    requires forall j :: 0 <= j < 4 && j != bad ==> ax[j] == x[j]
    ensures JustOutcomes(GiveOutcomes(o, ax, i, g, r, bad, given), Given(o, x, i, g, r), bad)
  {
    var v, j := g(i, x[i]), (i + 3) % 4;
    var value := seq(4, p requires 0 <= p < 4 => g(p, ax[p]));
    forall q | 0 <= q < 4 && q != bad ensures Prepared(i, q, value[q], r[q], v, r[i]) {}
    forall p | 0 <= p < 4 && p != bad
      ensures var c := GiveOutcomes(o, ax, i, g, r, bad, given)[p];
        if c.Accuses? then c.first == bad || c.second == bad else c == Holds(Given(o, x, i, g, r)[p])
    {
      InpOneBadParty(o, i, value, r, v, r[i], GiveMessage(o, ax, i, g, r, bad, given),
                     GiveMessage(o, ax, j, g, r, bad, given), bad, p);
    }
  }

  /** Just outcomes leave the honest parties with the honest run or stop it justly. */
  lemma SettlesJustly<T>(rs: seq<Outcome<T>>, actual: Registers<T>, honest: Registers<T>, z: Joint<T>, d: nat, bad: nat,
                         stored: seq<T>)
    requires |rs| == 4 && forall j :: 0 <= j < 4 && rs[j].Holds? ==> |rs[j].shares| == 3
    requires Agrees(actual, honest, bad) && d < |honest| && bad < 4 && |stored| == 3 && Shaped(z) && |z| == 4
    requires JustOutcomes(rs, z, bad)
    ensures var p := Settle(rs, actual, d, bad, stored);
      JustAbort(p, bad) && (p.Running? ==> Agrees(p.regs, honest[d := z], bad))
  {
  }

  /** One instruction: the honest parties follow the honest run or stop with a just accusation. */
  lemma StepRobust<T(!new)>(rings: seq<Ops<T>>, i: Instruction<T>, actual: Registers<T>, honest: Registers<T>, bad: nat,
                            c: Choice<T>)
    requires Sound(rings, honest) && Suits(rings, i) && Agrees(actual, honest, bad) && bad < 4 && |c.stored| == 3
    ensures var p := ActualStep(rings, i, actual, bad, c);
      JustAbort(p, bad) && (p.Running? ==> Agrees(p.regs, HonestStep(rings, i, honest), bad))
  {
    assert Lawful(rings[i.d]) by { assert SoundIn(rings[i.d], honest[i.d]); }
    hide Lawful, Outcomes, GiveOutcomes, Product, Given, SoundIn, KnownTwice, JustOutcomes, Settle, Feeds;
    match i
    case Local(_, _, _, _) =>
    case Times(d, x, y, k) =>
      ProductInputs(rings[x], rings[y], rings[d], honest[x], honest[y], k);
      SameConclusion(rings[d], actual[x], actual[y], honest[x], honest[y], k, bad, c.sent);
      SettlesJustly(Outcomes(rings[d], actual[x], actual[y], k, bad, c.sent), actual, honest,
                    Product(rings[d], honest[x], honest[y], k), d, bad, c.stored);
    case Give(d, x, p, g, r) =>
      SameValue(rings[x], rings[d], honest[x], p, g);
      SameGift(rings[d], actual[x], honest[x], p, g, r, bad, c.given);
      SettlesJustly(GiveOutcomes(rings[d], actual[x], p, g, r, bad, c.given), actual, honest,
                    Given(rings[d], honest[x], p, g, r), d, bad, c.stored);
  }

  /** What the protocol tells party `bad` to send and store. */
  predicate Follows<T(==)>(rings: seq<Ops<T>>, i: Instruction<T>, regs: Registers<T>, bad: nat, c: Choice<T>)
    requires Table(regs) && |rings| == |regs| && Placed(i, |regs|) && bad < 4
  {
    && c.stored == HonestStep(rings, i, regs)[i.d][bad]
    && (i.Times? ==> c.sent == HonestMessages(rings[i.d], regs[i.x], regs[i.y], i.k)[bad])
    && (i.Give? ==> c.given == rings[i.d].minus(i.g(bad, regs[i.x][bad]), i.r[bad]))
  }

  /** There always is such a choice. */
  function ByProtocol<T(==)>(rings: seq<Ops<T>>, i: Instruction<T>, regs: Registers<T>, bad: nat): (c: Choice<T>)
    requires Table(regs) && |rings| == |regs| && Placed(i, |regs|) && bad < 4
    ensures |c.stored| == 3 && Follows(rings, i, regs, bad, c)
  {
    var s := HonestStep(rings, i, regs)[i.d][bad];
    match i
    case Local(_, _, _, _) => Choice(Sent(s[0], s[0], s[0]), s[0], s)
    case Times(d, x, y, k) => Choice(HonestMessages(rings[d], regs[x], regs[y], k)[bad], s[0], s)
    case Give(d, x, _, g, r) => Choice(Sent(s[0], s[0], s[0]), rings[d].minus(g(bad, regs[x][bad]), r[bad]), s)
  }

  lemma SettlesHonest<T>(rs: seq<Outcome<T>>, z: Joint<T>, regs: Registers<T>, d: nat, bad: nat)
    requires |rs| == 4 && Shaped(z) && |z| == 4 && forall j :: 0 <= j < 4 ==> rs[j] == Holds(z[j])
    requires Table(regs) && d < |regs| && bad < 4
    ensures Settle(rs, regs, d, bad, z[bad]) == Running(regs[d := z])
  {
    assert seq(4, j requires 0 <= j < 4 => if j == bad then z[bad] else rs[j].shares) == z;
  }

  lemma HonestOutcomes<T(!new)>(o: Ops<T>, x: Joint<T>, y: Joint<T>, k: Masks<T>, bad: nat)
    requires HonestInputs(o, x, y, k) && MasksAgree(o, k) && bad < 4
    ensures var rs := Outcomes(o, x, y, k, bad, HonestMessages(o, x, y, k)[bad]);
      forall j :: 0 <= j < 4 ==> rs[j] == Holds(Product(o, x, y, k)[j])
  {
    hide Lawful, Run, Product, Operable, Send, HonestMessages, Components, Deviates, CopiesAgree;
    HonestRun(o, x, y, k);
    var w := HonestMessages(o, x, y, k);
    assert Wire(o, x, y, k, bad, w[bad]) == w;
  }

  lemma HonestGift<T(!new)>(o: Ops<T>, x: Joint<T>, i: nat, g: (nat, seq<T>) -> T, r: seq<T>, bad: nat)
    requires |x| == |r| == 4 && (i == 0 || i == 2) && bad < 4
    requires g(i, x[i]) == g((i + 3) % 4, x[(i + 3) % 4]) && r[i] == r[(i + 3) % 4] == r[(i + 2) % 4]
    ensures var rs := GiveOutcomes(o, x, i, g, r, bad, o.minus(g(bad, x[bad]), r[bad]));
      forall j :: 0 <= j < 4 ==> rs[j] == Holds(Given(o, x, i, g, r)[j])
  {
    InpHonest(o, i, seq(4, p requires 0 <= p < 4 => g(p, x[p])), r);
  }

  lemma HonestStepCompletes<T(!new)>(rings: seq<Ops<T>>, i: Instruction<T>, regs: Registers<T>, bad: nat, c: Choice<T>)
    requires Sound(rings, regs) && Suits(rings, i) && bad < 4
    requires Table(regs) && Follows(rings, i, regs, bad, c) && |c.stored| == 3
    ensures ActualStep(rings, i, regs, bad, c) == Running(HonestStep(rings, i, regs))
  {
    assert Lawful(rings[i.d]) by { assert SoundIn(rings[i.d], regs[i.d]); }
    hide Lawful, Outcomes, GiveOutcomes, Product, Given, Settle, HonestMessages, ShareByShare, Replicated, SoundIn,
      KnownTwice, Feeds;
    match i
    case Local(d, x, y, f) =>
      var z := ShareByShare(regs[x], regs[y], f);
      assert z[bad := z[bad]] == z;
    case Times(d, x, y, k) =>
      ProductInputs(rings[x], rings[y], rings[d], regs[x], regs[y], k);
      HonestOutcomes(rings[d], regs[x], regs[y], k, bad);
      SettlesHonest(Outcomes(rings[d], regs[x], regs[y], k, bad, c.sent), Product(rings[d], regs[x], regs[y], k),
                    regs, d, bad);
    case Give(d, x, p, g, r) =>
      SameValue(rings[x], rings[d], regs[x], p, g);
      HonestGift(rings[d], regs[x], p, g, r, bad);
      SettlesHonest(GiveOutcomes(rings[d], regs[x], p, g, r, bad, c.given), Given(rings[d], regs[x], p, g, r), regs, d,
                    bad);
  }

  // ------------------------------------------------------------ whole programs

  function Honest<T>(rings: seq<Ops<T>>, program: seq<Instruction<T>>, n: nat, regs: Registers<T>): (r: Registers<T>)
    requires Table(regs) && |rings| == |regs| && n <= |program|
    requires forall i :: 0 <= i < |program| ==> Placed(program[i], |regs|)
    ensures Table(r) && |r| == |regs|
  {
    if n == 0 then regs else HonestStep(rings, program[n - 1], Honest(rings, program, n - 1, regs))
  }

  function Actual<T(==)>(rings: seq<Ops<T>>, program: seq<Instruction<T>>, n: nat, regs: Registers<T>, bad: nat,
                         choices: seq<Choice<T>>): (p: Progress<T>)
    requires Table(regs) && |rings| == |regs| && n <= |program| == |choices| && bad < 4
    requires forall i :: 0 <= i < |program| ==> Placed(program[i], |regs|) && |choices[i].stored| == 3
    ensures p.Running? ==> Table(p.regs) && |p.regs| == |regs|
  {
    if n == 0 then Running(regs) else
      var p := Actual(rings, program, n - 1, regs, bad, choices);
      if p.Aborted? then p else ActualStep(rings, program[n - 1], p.regs, bad, choices[n - 1])
  }

  ghost predicate AllSuit<T(!new)>(rings: seq<Ops<T>>, program: seq<Instruction<T>>) {
    forall i :: 0 <= i < |program| ==> Suits(rings, program[i])
  }

  /** What soundness and fit say about shapes. */
  lemma ShapesFit<T(!new)>(rings: seq<Ops<T>>, program: seq<Instruction<T>>, regs: Registers<T>)
    requires Sound(rings, regs) && AllSuit(rings, program)
    ensures Table(regs) && |rings| == |regs| && forall i :: 0 <= i < |program| ==> Placed(program[i], |regs|)
  {
    hide SoundIn, KnownTwice;
    TableOf(rings, regs);
  }

  /** The honest run keeps all registers consistent. */
  lemma {:induction false} HonestSound<T(!new)>(rings: seq<Ops<T>>, program: seq<Instruction<T>>, n: nat,
                                                regs: Registers<T>)
    requires Sound(rings, regs) && n <= |program| && AllSuit(rings, program)
    requires Table(regs) && |rings| == |regs| && forall i :: 0 <= i < |program| ==> Placed(program[i], |regs|)
    ensures Sound(rings, Honest(rings, program, n, regs))
  {
    hide Sound, Suits, HonestStep;
    if n > 0 {
      HonestSound(rings, program, n - 1, regs);
      HonestStepSound(rings, program[n - 1], Honest(rings, program, n - 1, regs));
    }
  }

  /** Whatever one party does over a whole program, the others either end with exactly their shares of the honest run
      or stop with an accusation that names it. */
  lemma {:induction false} ProgramRobust<T(!new)>(rings: seq<Ops<T>>, program: seq<Instruction<T>>, n: nat,
                                                  regs: Registers<T>, start: Registers<T>, bad: nat,
                                                  choices: seq<Choice<T>>)
    requires Sound(rings, regs) && n <= |program| == |choices| && bad < 4
    requires AllSuit(rings, program) && forall i :: 0 <= i < |choices| ==> |choices[i].stored| == 3
    requires Agrees(start, regs, bad)
    ensures Table(regs) && |rings| == |regs| && forall i :: 0 <= i < |program| ==> Placed(program[i], |regs|)
    ensures var p := Actual(rings, program, n, start, bad, choices);
      JustAbort(p, bad) && (p.Running? ==> Agrees(p.regs, Honest(rings, program, n, regs), bad))
  {
    hide Sound, Suits, HonestStep, ActualStep;
    ShapesFit(rings, program, regs);
    if n > 0 {
      ProgramRobust(rings, program, n - 1, regs, start, bad, choices);
      HonestSound(rings, program, n - 1, regs);
      var p := Actual(rings, program, n - 1, start, bad, choices);
      if p.Running? {
        StepRobust(rings, program[n - 1], p.regs, Honest(rings, program, n - 1, regs), bad, choices[n - 1]);
      }
    }
  }

  /** The party that could deviate does what the protocol says. */
  predicate Obeys<T(==)>(rings: seq<Ops<T>>, program: seq<Instruction<T>>, regs: Registers<T>, bad: nat,
                         choices: seq<Choice<T>>)
    requires Table(regs) && |rings| == |regs| && forall i :: 0 <= i < |program| ==> Placed(program[i], |regs|)
    requires |program| == |choices| && bad < 4
  {
    forall i :: 0 <= i < |program| ==> Follows(rings, program[i], Honest(rings, program, i, regs), bad, choices[i])
  }

  /** Without deviation no honest party stops, and all end with the shares of the honest run. */
  lemma {:induction false} HonestCompletes<T(!new)>(rings: seq<Ops<T>>, program: seq<Instruction<T>>, n: nat,
                                                    regs: Registers<T>, bad: nat, choices: seq<Choice<T>>)
    requires Sound(rings, regs) && n <= |program| == |choices| && bad < 4
    requires AllSuit(rings, program) && forall i :: 0 <= i < |choices| ==> |choices[i].stored| == 3
    requires Table(regs) && |rings| == |regs| && forall i :: 0 <= i < |program| ==> Placed(program[i], |regs|)
    requires Obeys(rings, program, regs, bad, choices)
    ensures Actual(rings, program, n, regs, bad, choices) == Running(Honest(rings, program, n, regs))
  {
    hide Sound, Suits, Follows, HonestStep, ActualStep;
    if n > 0 {
      HonestCompletes(rings, program, n - 1, regs, bad, choices);
      HonestSound(rings, program, n - 1, regs);
      HonestStepCompletes(rings, program[n - 1], Honest(rings, program, n - 1, regs), bad, choices[n - 1]);
    }
  }

  // ------------------------------------------------- order, and what may happen

  /** A program followed by another one: the honest run of the second starts where that of the first ends. */
  lemma {:induction false} HonestAppend<T>(rings: seq<Ops<T>>, p: seq<Instruction<T>>, q: seq<Instruction<T>>, k: nat,
                                           regs: Registers<T>)
    requires Table(regs) && |rings| == |regs| && k <= |q|
    requires forall i :: 0 <= i < |p| ==> Placed(p[i], |regs|)
    requires forall i :: 0 <= i < |q| ==> Placed(q[i], |regs|)
    ensures forall i :: 0 <= i < |p + q| ==> Placed((p + q)[i], |regs|)
    ensures Honest(rings, p + q, |p| + k, regs) == Honest(rings, q, k, Honest(rings, p, |p|, regs))
  {
    hide HonestStep, Placed, Table;
    if k == 0 {
      HonestPrefix(rings, p, q, |p|, regs);
    } else {
      HonestAppend(rings, p, q, k - 1, regs);
      assert (p + q)[|p| + k - 1] == q[k - 1];
    }
  }

  lemma {:induction false} HonestPrefix<T>(rings: seq<Ops<T>>, p: seq<Instruction<T>>, q: seq<Instruction<T>>, k: nat,
                                           regs: Registers<T>)
    requires Table(regs) && |rings| == |regs| && k <= |p|
    requires forall i :: 0 <= i < |p| ==> Placed(p[i], |regs|)
    requires forall i :: 0 <= i < |q| ==> Placed(q[i], |regs|)
    ensures forall i :: 0 <= i < |p + q| ==> Placed((p + q)[i], |regs|)
    ensures Honest(rings, p + q, k, regs) == Honest(rings, p, k, regs)
  {
    hide HonestStep, Placed, Table;
    if k > 0 {
      HonestPrefix(rings, p, q, k - 1, regs);
      assert (p + q)[k - 1] == p[k - 1];
    }
  }

  /** The same for the actual run, which goes on with the second program unless the first one was stopped. */
  lemma {:induction false} ActualAppend<T>(rings: seq<Ops<T>>, p: seq<Instruction<T>>, q: seq<Instruction<T>>, k: nat,
                                           regs: Registers<T>, bad: nat, cp: seq<Choice<T>>, cq: seq<Choice<T>>)
    requires Table(regs) && |rings| == |regs| && k <= |q| == |cq| && |p| == |cp| && bad < 4
    requires forall i :: 0 <= i < |p| ==> Placed(p[i], |regs|) && |cp[i].stored| == 3
    requires forall i :: 0 <= i < |q| ==> Placed(q[i], |regs|) && |cq[i].stored| == 3
    ensures forall i :: 0 <= i < |p + q| ==> Placed((p + q)[i], |regs|) && |(cp + cq)[i].stored| == 3
    ensures var first := Actual(rings, p, |p|, regs, bad, cp);
      Actual(rings, p + q, |p| + k, regs, bad, cp + cq) ==
      if first.Aborted? then first else Actual(rings, q, k, first.regs, bad, cq)
  {
    hide ActualStep, Placed, Table;
    if k == 0 {
      ActualPrefix(rings, p, q, |p|, regs, bad, cp, cq);
    } else {
      ActualAppend(rings, p, q, k - 1, regs, bad, cp, cq);
      assert (p + q)[|p| + k - 1] == q[k - 1] && (cp + cq)[|p| + k - 1] == cq[k - 1];
    }
  }

  lemma {:induction false} ActualPrefix<T>(rings: seq<Ops<T>>, p: seq<Instruction<T>>, q: seq<Instruction<T>>, k: nat,
                                           regs: Registers<T>, bad: nat, cp: seq<Choice<T>>, cq: seq<Choice<T>>)
    requires Table(regs) && |rings| == |regs| && k <= |p| == |cp| && |q| == |cq| && bad < 4
    requires forall i :: 0 <= i < |p| ==> Placed(p[i], |regs|) && |cp[i].stored| == 3
    requires forall i :: 0 <= i < |q| ==> Placed(q[i], |regs|) && |cq[i].stored| == 3
    ensures forall i :: 0 <= i < |p + q| ==> Placed((p + q)[i], |regs|) && |(cp + cq)[i].stored| == 3
    ensures Actual(rings, p + q, k, regs, bad, cp + cq) == Actual(rings, p, k, regs, bad, cp)
  {
    hide ActualStep, Placed, Table;
    if k > 0 {
      ActualPrefix(rings, p, q, k - 1, regs, bad, cp, cq);
      assert (p + q)[k - 1] == p[k - 1] && (cp + cq)[k - 1] == cp[k - 1];
    }
  }

  /** Whatever a deviating party puts on the wire of a product is one of its choices, and it stores what it likes. */
  lemma AnyDeviation<T>(rings: seq<Ops<T>>, i: Instruction<T>, regs: Registers<T>, bad: nat, w: seq<Sent<T>>,
                        c: Choice<T>)
    requires Table(regs) && |rings| == |regs| && Placed(i, |regs|) && bad < 4 && |c.stored| == 3
    requires i.Times? && |w| == 4 && Deviates(w, HonestMessages(rings[i.d], regs[i.x], regs[i.y], i.k), bad)
    requires c.sent == w[bad]
    ensures var p, rs := ActualStep(rings, i, regs, bad, c), Run(rings[i.d], regs[i.x], regs[i.y], i.k, w);
      && (p.Aborted? <==> exists j :: 0 <= j < 4 && j != bad && rs[j].Accuses?)
      && (p.Running? ==> p.regs[i.d][bad] == c.stored)
      && (p.Running? ==> forall j :: 0 <= j < 4 && j != bad ==> rs[j] == Holds(p.regs[i.d][j]))
      && (p.Running? ==> forall e :: 0 <= e < |regs| && e != i.d ==> p.regs[e] == regs[e])
  {
    assert Wire(rings[i.d], regs[i.x], regs[i.y], i.k, bad, c.sent) == w;
    hide Run, HonestMessages, Table;
  }

  /** The same for `inp` with a deviating sender `i`, and with a deviating sender `i+3`. */
  lemma AnyGift<T>(rings: seq<Ops<T>>, i: Instruction<T>, regs: Registers<T>, bad: nat, fromI: T, fromJ: T,
                   c: Choice<T>)
    requires Table(regs) && |rings| == |regs| && Placed(i, |regs|) && bad < 4 && |c.stored| == 3 && i.Give?
    requires var j := (i.i + 3) % 4; var o := rings[i.d];
      && (if bad == i.i then fromI == c.given else fromI == o.minus(i.g(i.i, regs[i.x][i.i]), i.r[i.i]))
      && (if bad == j then fromJ == c.given else fromJ == o.minus(i.g(j, regs[i.x][j]), i.r[j]))
    ensures var value := seq(4, p requires 0 <= p < 4 => i.g(p, regs[i.x][p]));
      var p, rs := ActualStep(rings, i, regs, bad, c), InpRun(rings[i.d], i.i, value, i.r, fromI, fromJ);
      && (p.Aborted? <==> exists j :: 0 <= j < 4 && j != bad && rs[j].Accuses?)
      && (p.Running? ==> p.regs[i.d][bad] == c.stored)
      && (p.Running? ==> forall j :: 0 <= j < 4 && j != bad ==> rs[j] == Holds(p.regs[i.d][j]))
      && (p.Running? ==> forall e :: 0 <= e < |regs| && e != i.d ==> p.regs[e] == regs[e])
  {
    hide InpRun, Table;
  }
}
