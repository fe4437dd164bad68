/** Products, conversions and division of four parties as programs of `Robustness`: registers hold numbers or words. */
module RobustConversions {
  import Ring
  import opened Words
  import opened Sharing
  import opened Algebra
  import opened Fantastic4PC
  import opened Division
  import opened Robustness

  datatype Value = Residue(n: int) | Bitwise(w: Word)

  function NumberOf(v: Value): (n: int) {
    if v.Residue? then v.n else 0
  }

  function WordOf(v: Value): (w: Word) {
    if v.Bitwise? then v.w else []
  }

  /** A ring on some of the values. */
  function Lift<T(==)>(o: Ops<T>, into: T -> Value, from: Value -> T): (p: Ops<Value>) {
    Ops(into(o.zero),
        (a: Value, b: Value) => into(o.plus(from(a), from(b))),
        (a: Value, b: Value) => into(o.minus(from(a), from(b))),
        (a: Value, b: Value) => into(o.times(from(a), from(b))),
        (a: Value) => into(from(a)) == a && o.operand(from(a)),
        (a: Value) => into(from(a)) == a && o.element(from(a)))
  }

  lemma LiftLawful<T(!new)>(o: Ops<T>, into: T -> Value, from: Value -> T)
    requires Lawful(o) && forall t {:trigger into(t)} :: from(into(t)) == t
    ensures Lawful(Lift(o, into, from))
  {
    var p := Lift(o, into, from);
    forall a, b | p.operand(a) && p.operand(b)
      ensures p.element(p.plus(a, b)) && p.plus(a, b) == p.plus(b, a)
      ensures p.element(p.minus(a, b)) && p.element(p.times(a, b))
    {
      assert o.plus(from(a), from(b)) == o.plus(from(b), from(a));
    }
    forall a | p.element(a) ensures p.operand(a) && p.plus(a, p.zero) == a && p.minus(a, p.zero) == a {
      assert o.operand(from(a)) && o.plus(from(a), o.zero) == from(a) && o.minus(from(a), o.zero) == from(a);
    }
  }

  function NumberRing(m: nat): (o: Ops<Value>)
    requires m > 0
  {
    Lift(Residues(m), n => Residue(n), v => NumberOf(v))
  }

  function WordRing(l: nat): (o: Ops<Value>) {
    Lift(Bits(l), w => Bitwise(w), v => WordOf(v))
  }

  lemma RingsLawful(m: nat, l: nat)
    requires m > 0
    ensures Lawful(NumberRing(m)) && Lawful(WordRing(l))
  {
    hide Lawful, Lift;
    ResiduesLawful(m);
    BitsLawful(l);
    LiftLawful(Residues(m), n => Residue(n), v => NumberOf(v));
    LiftLawful(Bits(l), w => Bitwise(w), v => WordOf(v));
  }

  /** The sum of the two shares that a party adds before `inp`: its first two, or its last two for odd parties. */
  function HeldPart(m: nat, party: nat, shares: seq<Value>): (u: int)
    requires m > 0
  {
    if |shares| != 3 then 0
    else if party == 0 || party == 2 then Ring.Add(m, NumberOf(shares[0]), NumberOf(shares[1]))
    else Ring.Add(m, NumberOf(shares[1]), NumberOf(shares[2]))
  }

  /** Parties 0 and 3 hold one part, parties 2 and 1 the other. */
  lemma PartsHeldTwice(m: nat, cs: seq<Value>, i: nat)
    requires m > 0 && |cs| == 4 && (i == 0 || i == 2)
    ensures HeldPart(m, i, ViewOf(cs, i)) == HeldPart(m, (i + 3) % 4, ViewOf(cs, (i + 3) % 4))
  {
  }

  /** The value that `redistribute_shares_b` gives. */
  function PartWord(l: nat): (g: (nat, seq<Value>) -> Value) {
    (p: nat, s: seq<Value>) => Bitwise(FromNat(HeldPart(Pow2(l), p, s), l))
  }

  /** The values that `div_const_a` gives: the quotient of a part, or its remainder less `off`. */
  function PartQuotient(m: nat, c: int): (g: (nat, seq<Value>) -> Value)
    requires m > 0 && c > 0
  {
    (p: nat, s: seq<Value>) => Residue(Quotient(Ring.Signed(m, HeldPart(m, p, s)), c))
  }

  function PartRest(m: nat, c: int, off: int): (g: (nat, seq<Value>) -> Value)
    requires m > 0 && c > 0
  {
    (p: nat, s: seq<Value>) => Residue(Rest(Ring.Signed(m, HeldPart(m, p, s)), c) - off)
  }

  /** The masks of an `inp` are words of the ring that the three that draw them agree on. */
  ghost predicate GiveMasks(o: Ops<Value>, i: nat, r: seq<Value>) {
    (i == 0 || i == 2) && |r| == 4 && r[i] == r[(i + 3) % 4] == r[(i + 2) % 4] && o.element(r[i])
  }

  /** Both steps of the redistribution are robust instructions. */
  lemma RedistributionSuits(rings: seq<Ops<Value>>, d: nat, x: nat, i: nat, r: seq<Value>, l: nat)
    requires d < |rings| && x < |rings| && rings[d] == WordRing(l) && GiveMasks(WordRing(l), i, r)
    ensures Suits(rings, Give(d, x, i, PartWord(l), r))
  {
    forall cs: seq<Value> {:trigger ViewOf(cs, i)} | |cs| == 4
      ensures PartWord(l)(i, ViewOf(cs, i)) == PartWord(l)((i + 3) % 4, ViewOf(cs, (i + 3) % 4))
    {
      PartsHeldTwice(Pow2(l), cs, i);
    }
  }

  /** And so are the four steps of a division by a constant. */
  lemma DivisionSuits(rings: seq<Ops<Value>>, d: nat, x: nat, i: nat, r: seq<Value>, m: nat, c: int, off: int)
    requires m > 0 && c > 0 && d < |rings| && x < |rings| && rings[d] == NumberRing(m) && GiveMasks(NumberRing(m), i, r)
    ensures Suits(rings, Give(d, x, i, PartQuotient(m, c), r))
    ensures Suits(rings, Give(d, x, i, PartRest(m, c, off), r))
  {
    hide Quotient, Rest;
    forall cs: seq<Value> {:trigger ViewOf(cs, i)} | |cs| == 4
      ensures HeldPart(m, i, ViewOf(cs, i)) == HeldPart(m, (i + 3) % 4, ViewOf(cs, (i + 3) % 4))
    {
      PartsHeldTwice(m, cs, i);
    }
  }

  // -------------------------------------------------------- redistribution as a program

  /** A number and the two words that its parts become. */
  function Sorts(l: nat): (rings: seq<Ops<Value>>)
    ensures |rings| == 3
  {
    [NumberRing(Pow2(l)), WordRing(l), WordRing(l)]
  }

  function Redistribution(l: nat, r: seq<Value>, t: seq<Value>): (program: seq<Instruction<Value>>)
    requires |r| == |t| == 4
    ensures |program| == 2 && forall i :: 0 <= i < 2 ==> Placed(program[i], 3)
  {
    [Give(1, 0, 0, PartWord(l), r), Give(2, 0, 2, PartWord(l), t)]
  }

  lemma RedistributionFits(l: nat, r: seq<Value>, t: seq<Value>)
    requires GiveMasks(WordRing(l), 0, r) && GiveMasks(WordRing(l), 2, t)
    ensures AllSuit(Sorts(l), Redistribution(l, r, t))
  {
    hide WordRing, NumberRing, Suits, GiveMasks;
    var rings := Sorts(l);
    RedistributionSuits(rings, 1, 0, 0, r, l);
    RedistributionSuits(rings, 2, 0, 2, t, l);
  }

  /** Consistent sharings of a number and of two words. */
  ghost predicate HoldsSorts(l: nat, regs: Registers<Value>) {
    && |regs| == 3
    && forall i {:trigger regs[i]} :: 0 <= i < 3 ==>
      Replicated(regs[i]) && |regs[i]| == 4 && Elements(Sorts(l)[i], Components(regs[i]))
  }

  lemma SortsSound(l: nat, regs: Registers<Value>)
    requires HoldsSorts(l, regs)
    ensures Sound(Sorts(l), regs) && Table(regs)
  {
    hide Lawful, Elements, Components, NumberRing, WordRing;
    RingsLawful(Pow2(l), l);
    forall i | 0 <= i < 3 ensures SoundIn(Sorts(l)[i], regs[i]) {}
  }

  /** What the undisturbed run leaves in the two word registers. */
  lemma RedistributionHonest(l: nat, regs: Registers<Value>, r: seq<Value>, t: seq<Value>)
    requires Table(regs) && |regs| == 3 && |r| == |t| == 4
    ensures var h := Honest(Sorts(l), Redistribution(l, r, t), 2, regs);
      && h[1] == Given(WordRing(l), regs[0], 0, PartWord(l), r)
      && h[2] == Given(WordRing(l), regs[0], 2, PartWord(l), t)
  {
    hide WordRing, NumberRing, PartWord, Given;
    var rings, program := Sorts(l), Redistribution(l, r, t);
    var first := HonestStep(rings, program[0], regs);
    assert Honest(rings, program, 0, regs) == regs;
    assert Honest(rings, program, 1, regs) == first;
    assert Honest(rings, program, 2, regs) == HonestStep(rings, program[1], first);
  }

  /** `redistribute_shares_b` of four parties of which one deviates: the others end with exactly their shares of the two
      parts, or one of them stops and accuses a pair that contains it. */
  lemma RedistributionRobust(l: nat, regs: Registers<Value>, r: seq<Value>, t: seq<Value>, bad: nat,
                             choices: seq<Choice<Value>>)
    requires HoldsSorts(l, regs) && GiveMasks(WordRing(l), 0, r) && GiveMasks(WordRing(l), 2, t)
    requires bad < 4 && |choices| == 2 && forall i :: 0 <= i < 2 ==> |choices[i].stored| == 3
    ensures Table(regs)
    ensures var p := Actual(Sorts(l), Redistribution(l, r, t), 2, regs, bad, choices);
      && JustAbort(p, bad)
      && (p.Running? ==> forall j :: 0 <= j < 4 && j != bad ==>
            && p.regs[1][j] == Given(WordRing(l), regs[0], 0, PartWord(l), r)[j]
            && p.regs[2][j] == Given(WordRing(l), regs[0], 2, PartWord(l), t)[j])
  {
    SortsSound(l, regs);
    RedistributionFits(l, r, t);
    RedistributionHonest(l, regs, r, t);
    hide WordRing, NumberRing, PartWord, Sound, Actual, Given, GiveMasks, Honest, AllSuit, Redistribution, HoldsSorts;
    ProgramRobust(Sorts(l), Redistribution(l, r, t), 2, regs, regs, bad, choices);
  }
}
