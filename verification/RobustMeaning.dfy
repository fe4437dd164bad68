/** What the registers of an undisturbed four-party program open to: products, given values, the redistribution and the
    division of a number, said about sums and XORs of components. */
module RobustMeaning {
  import opened Arith
  import Ring
  import opened Words
  import opened Sharing
  import opened Algebra
  import opened Arithmetic
  import opened Boolean
  import opened Inputs
  import opened Division
  import opened Robustness
  import opened RobustConversions
  import JointInput
  import Products
  import FourPC = Fantastic4PC

  // ----------------------------------------------------------- opened registers

  /** The numbers of a register, share by share. */
  function NumberShares(x: Joint<Value>): (z: Joint<int>)
    requires Shaped(x)
    ensures Shaped(z) && |z| == |x|
  {
    Map(x, v => NumberOf(v))
  }

  function WordShares(x: Joint<Value>): (z: Joint<Word>)
    requires Shaped(x)
    ensures Shaped(z) && |z| == |x|
  {
    Map(x, v => WordOf(v))
  }

  function NumberMasks(k: FourPC.Masks<Value>): (r: FourPC.Masks<int>)
    requires Shaped(k.first)
  {
    FourPC.Masks(NumberShares(k.first), NumberOf(k.r21at0), NumberOf(k.r21at3), NumberOf(k.r22at1), NumberOf(k.r22at2),
                 NumberOf(k.r23at1))
  }

  function WordMasks(k: FourPC.Masks<Value>): (r: FourPC.Masks<Word>)
    requires Shaped(k.first)
  {
    FourPC.Masks(WordShares(k.first), WordOf(k.r21at0), WordOf(k.r21at3), WordOf(k.r22at1), WordOf(k.r22at2),
                 WordOf(k.r23at1))
  }

  lemma SharesOfNumbers(x: Joint<Value>, m: nat)
    requires m > 0 && SoundIn(NumberRing(m), x)
    ensures InRange(m, NumberShares(x))
    ensures forall j :: 0 <= j < 4 ==> Components(NumberShares(x))[j] == NumberOf(Components(x)[j])
  {
    hide Lawful;
    MapReplicated(x, (v: Value) => NumberOf(v));
    assert forall j :: 0 <= j < 4 ==> NumberRing(m).element(Components(x)[j]);
  }

  lemma SharesOfWords(x: Joint<Value>, l: nat)
    requires SoundIn(WordRing(l), x)
    ensures Width(WordShares(x), l)
    ensures forall j :: 0 <= j < 4 ==> Components(WordShares(x))[j] == WordOf(Components(x)[j])
  {
    hide Lawful;
    MapReplicated(x, (v: Value) => WordOf(v));
    assert forall j :: 0 <= j < 4 ==> WordRing(l).element(Components(x)[j]);
  }

  // ----------------------------------------------------------------- products

  /** A product component in a lifted ring is the lifted product component. */
  lemma NumberComponent(m: nat, a: seq<Value>, b: seq<Value>, r: seq<Value>, j: nat, u: seq<int>, v: seq<int>,
                        s: seq<int>)
    requires m > 0 && |a| == |b| == |r| == |u| == |v| == |s| == 4 && j < 4
    requires forall i :: 0 <= i < 4 ==> u[i] == NumberOf(a[i]) && v[i] == NumberOf(b[i]) && s[i] == NumberOf(r[i])
    ensures NumberOf(FourPC.ProductComponent(NumberRing(m), a, b, r, j)) ==
            FourPC.ProductComponent(Residues(m), u, v, s, j)
  {
  }

  lemma WordComponent(l: nat, a: seq<Value>, b: seq<Value>, r: seq<Value>, j: nat, u: seq<Word>, v: seq<Word>,
                      s: seq<Word>)
    requires |a| == |b| == |r| == |u| == |v| == |s| == 4 && j < 4
    requires forall i :: 0 <= i < 4 ==> u[i] == WordOf(a[i]) && v[i] == WordOf(b[i]) && s[i] == WordOf(r[i])
    ensures WordOf(FourPC.ProductComponent(WordRing(l), a, b, r, j)) == FourPC.ProductComponent(Bits(l), u, v, s, j)
  {
  }

  /** A register that the honest run fills with a product of numbers opens to the product of what its operands open to;
      the other registers stay. */
  lemma TimesOpensNumber(rings: seq<Ops<Value>>, regs: Registers<Value>, d: nat, x: nat, y: nat, k: FourPC.Masks<Value>,
                         m: nat)
    requires m > 0 && Sound(rings, regs) && Suits(rings, Times(d, x, y, k)) && Table(regs)
    requires rings[d] == rings[x] == rings[y] == NumberRing(m)
    ensures var next := HonestStep(rings, Times(d, x, y, k), regs);
      && InRange(m, NumberShares(next[d]))
      && SecretA(m, NumberShares(next[d])) ==
         (SecretA(m, NumberShares(regs[x])) * SecretA(m, NumberShares(regs[y]))) % m
      && forall e :: 0 <= e < |regs| && e != d ==> next[e] == regs[e]
  {
    hide Lawful, SecretA;
    var z := FourPC.Product(NumberRing(m), regs[x], regs[y], k);
    assert SoundIn(rings[x], regs[x]) && SoundIn(rings[y], regs[y]);
    HonestStepSound(rings, Times(d, x, y, k), regs);
    assert SoundIn(rings[d], HonestStep(rings, Times(d, x, y, k), regs)[d]);
    SharesOfNumbers(z, m);
    NumberProduct(m, regs[x], regs[y], k, z);
  }

  lemma NumberProduct(m: nat, x: Joint<Value>, y: Joint<Value>, k: FourPC.Masks<Value>, z: Joint<Value>)
    requires m > 0 && SoundIn(NumberRing(m), x) && SoundIn(NumberRing(m), y) && FourPC.Fitting(x, y, k)
    requires Replicated(k.first) && z == FourPC.Product(NumberRing(m), x, y, k) && SoundIn(NumberRing(m), z)
    ensures SecretA(m, NumberShares(z)) == (SecretA(m, NumberShares(x)) * SecretA(m, NumberShares(y))) % m
  {
    hide Lawful, NumberRing, FourPC.ProductComponent, Elements;
    SharesOfNumbers(x, m);
    SharesOfNumbers(y, m);
    SharesOfNumbers(z, m);
    MapReplicated(k.first, (v: Value) => NumberOf(v));
    var u, v, ks := NumberShares(x), NumberShares(y), NumberMasks(k);
    var w := FourPC.Product(Residues(m), u, v, ks);
    forall j | 0 <= j < 4 ensures Components(NumberShares(z))[j] == Components(w)[j] {
      NumberComponent(m, Components(x), Components(y), Components(k.first), j, Components(u), Components(v),
                      Components(ks.first));
    }
    assert Components(NumberShares(z)) == Components(w);
    Products.Multiply4Opens(m, u, v, ks);
  }

  lemma TimesOpensWord(rings: seq<Ops<Value>>, regs: Registers<Value>, d: nat, x: nat, y: nat, k: FourPC.Masks<Value>,
                       l: nat)
    requires Sound(rings, regs) && Suits(rings, Times(d, x, y, k)) && Table(regs)
    requires rings[d] == rings[x] == rings[y] == WordRing(l)
    ensures var next := HonestStep(rings, Times(d, x, y, k), regs);
      && Width(WordShares(next[d]), l) && Width(WordShares(regs[x]), l) && Width(WordShares(regs[y]), l)
      && SecretB(WordShares(next[d]), l) == And(SecretB(WordShares(regs[x]), l), SecretB(WordShares(regs[y]), l))
      && forall e :: 0 <= e < |regs| && e != d ==> next[e] == regs[e]
  {
    hide Lawful, SecretB;
    var z := FourPC.Product(WordRing(l), regs[x], regs[y], k);
    assert SoundIn(rings[x], regs[x]) && SoundIn(rings[y], regs[y]);
    HonestStepSound(rings, Times(d, x, y, k), regs);
    assert SoundIn(rings[d], HonestStep(rings, Times(d, x, y, k), regs)[d]);
    SharesOfWords(z, l);
    SharesOfWords(regs[x], l);
    SharesOfWords(regs[y], l);
    WordProduct(l, regs[x], regs[y], k, z);
  }

  lemma AgreedWordMasks(l: nat, k: FourPC.Masks<Value>)
    requires Shaped(k.first) && FourPC.MasksAgree(WordRing(l), k) && Drawn(WordRing(l), k.first)
    ensures GoodMask(Four(WordMasks(k)), 4, l)
    ensures forall j :: 0 <= j < 4 ==> Components(WordMasks(k).first)[j] == WordOf(Components(k.first)[j])
  {
    MapReplicated(k.first, (v: Value) => WordOf(v));
    forall j | 0 <= j < 4 ensures |WordOf(Components(k.first)[j])| == l {
      assert Components(k.first)[j] == k.first[Holder(4, j)][0];
      assert Operable(WordRing(l), k.first[Holder(4, j)]);
    }
  }

  lemma WordProduct(l: nat, x: Joint<Value>, y: Joint<Value>, k: FourPC.Masks<Value>, z: Joint<Value>)
    requires SoundIn(WordRing(l), x) && SoundIn(WordRing(l), y) && FourPC.Fitting(x, y, k)
    requires FourPC.MasksAgree(WordRing(l), k) && Drawn(WordRing(l), k.first)
    requires z == FourPC.Product(WordRing(l), x, y, k) && SoundIn(WordRing(l), z)
    requires Width(WordShares(x), l) && Width(WordShares(y), l) && Width(WordShares(z), l)
    ensures SecretB(WordShares(z), l) == And(SecretB(WordShares(x), l), SecretB(WordShares(y), l))
  {
    SharesOfWords(x, l);
    SharesOfWords(y, l);
    SharesOfWords(z, l);
    AgreedWordMasks(l, k);
    hide Lawful, WordRing, FourPC.ProductComponent, Elements, GoodMask, SecretB, FourPC.MasksAgree, Drawn;
    var u, v, ks := WordShares(x), WordShares(y), WordMasks(k);
    var w := FourPC.Product(Bits(l), u, v, ks);
    forall j | 0 <= j < 4 ensures Components(WordShares(z))[j] == Components(w)[j] {
      WordComponent(l, Components(x), Components(y), Components(k.first), j, Components(u), Components(v),
                    Components(ks.first));
    }
    assert Components(WordShares(z)) == Components(w);
    And4Opens(u, v, ks, l);
    SameComponents(WordShares(z), w);
  }

  lemma SameComponents(x: Joint<Word>, y: Joint<Word>)
    requires Replicated(x) && Replicated(y) && Components(x) == Components(y)
    ensures x == y
  {
    assert x == Deal(Components(x)) == y;
  }

  // -------------------------------------------------------------- local steps

  /** A local step acts on the components one by one and leaves the other registers. */
  lemma LocalActs(rings: seq<Ops<Value>>, regs: Registers<Value>, d: nat, x: nat, y: nat,
                  f: (nat, Value, Value) -> Value)
    requires Sound(rings, regs) && Suits(rings, Local(d, x, y, f)) && Table(regs)
    ensures var next := HonestStep(rings, Local(d, x, y, f), regs);
      && Replicated(next[d]) && |next[d]| == 4
      && (forall j :: 0 <= j < 4 ==> Components(next[d])[j] == f(j, Components(regs[x])[j], Components(regs[y])[j]))
      && forall e :: 0 <= e < |regs| && e != d ==> next[e] == regs[e]
  {
    hide Lawful, Elements;
    assert SoundIn(rings[x], regs[x]) && SoundIn(rings[y], regs[y]);
    ShareByShareReplicated(regs[x], regs[y], f);
  }

  // ------------------------------------------------------------- given values

  /** A number that two parties give is what the register then opens to. */
  lemma GivenOpensNumber(m: nat, x: Joint<Value>, i: nat, g: (nat, seq<Value>) -> Value, r: seq<Value>)
    requires m > 0 && |x| == |r| == 4 && (i == 0 || i == 2)
    ensures SecretA(m, NumberShares(Given(NumberRing(m), x, i, g, r))) == NumberOf(g(i, x[i])) % m
  {
    hide SecretA;
    var v, q := NumberOf(g(i, x[i])), NumberOf(r[i]);
    var z := Given(NumberRing(m), x, i, g, r);
    MapReplicated(z, (w: Value) => NumberOf(w));
    var cs := JointInput.InpComponents(Residues(m), i, v, q);
    assert Components(NumberShares(z)) == cs;
    InpOpensA(m, i, v, q);
    assert NumberShares(z) == Deal(cs);
  }

  lemma GivenOpensWord(l: nat, x: Joint<Value>, i: nat, g: (nat, seq<Value>) -> Value, r: seq<Value>)
    requires |x| == |r| == 4 && (i == 0 || i == 2) && |WordOf(g(i, x[i]))| == l && |WordOf(r[i])| == l
    ensures var z := WordShares(Given(WordRing(l), x, i, g, r));
      Width(z, l) && SecretB(z, l) == WordOf(g(i, x[i]))
  {
    GivenWordShares(l, x, i, g, r);
    hide SecretB, Given, Width, WordRing;
    InpOpensB(i, WordOf(g(i, x[i])), WordOf(r[i]), l);
  }

  lemma GivenWordShares(l: nat, x: Joint<Value>, i: nat, g: (nat, seq<Value>) -> Value, r: seq<Value>)
    requires |x| == |r| == 4 && (i == 0 || i == 2)
    ensures WordShares(Given(WordRing(l), x, i, g, r)) ==
            Deal(JointInput.InpComponents(Bits(l), i, WordOf(g(i, x[i])), WordOf(r[i])))
  {
    var z, cs := Given(WordRing(l), x, i, g, r),
                 JointInput.InpComponents(Bits(l), i, WordOf(g(i, x[i])), WordOf(r[i]));
    MapReplicated(z, (w: Value) => WordOf(w));
    hide Given, Map;
    assert Components(WordShares(z)) == cs by { GivenWordComponents(l, x, i, g, r); }
  }

  lemma GivenWordComponents(l: nat, x: Joint<Value>, i: nat, g: (nat, seq<Value>) -> Value, r: seq<Value>)
    requires |x| == |r| == 4 && (i == 0 || i == 2)
    ensures Components(WordShares(Given(WordRing(l), x, i, g, r))) ==
            JointInput.InpComponents(Bits(l), i, WordOf(g(i, x[i])), WordOf(r[i]))
  {
    MapReplicated(Given(WordRing(l), x, i, g, r), (w: Value) => WordOf(w));
  }

  // ----------------------------------------------------------- redistribution

  /** The two word registers that an undisturbed redistribution leaves open to the sums of components 1 and 2 and of
      components 3 and 0, so they add up to the number. */
  lemma RedistributionMeans(l: nat, regs: Registers<Value>, r: seq<Value>, t: seq<Value>)
    requires HoldsSorts(l, regs) && GiveMasks(WordRing(l), 0, r) && GiveMasks(WordRing(l), 2, t)
    ensures Table(regs)
    ensures var h := Honest(Sorts(l), Redistribution(l, r, t), 2, regs);
      var m, u, v := Pow2(l), WordShares(h[1]), WordShares(h[2]);
      && Width(u, l) && Width(v, l)
      && ToNat(SecretB(u, l)) == (NumberOf(regs[0][0][0]) + NumberOf(regs[0][0][1])) % m
      && ToNat(SecretB(v, l)) == (NumberOf(regs[0][2][0]) + NumberOf(regs[0][2][1])) % m
      && (ToNat(SecretB(u, l)) + ToNat(SecretB(v, l))) % m == SecretA(m, NumberShares(regs[0]))
  {
    hide *;
    SortsSound(l, regs);
    RedistributionShapes(l, regs, r, t);
    RedistributionHonest(l, regs, r, t);
    GivenParts(l, regs[0], r, t, Given(WordRing(l), regs[0], 0, PartWord(l), r),
               Given(WordRing(l), regs[0], 2, PartWord(l), t));
  }

  lemma RedistributionShapes(l: nat, regs: Registers<Value>, r: seq<Value>, t: seq<Value>)
    requires HoldsSorts(l, regs) && GiveMasks(WordRing(l), 0, r) && GiveMasks(WordRing(l), 2, t)
    ensures |r| == |t| == 4 && |regs| == 3 && Replicated(regs[0]) && |regs[0]| == 4
  {
  }

  lemma GivenParts(l: nat, x: Joint<Value>, r: seq<Value>, t: seq<Value>, y: Joint<Value>, z: Joint<Value>)
    requires Replicated(x) && |x| == 4 && GiveMasks(WordRing(l), 0, r) && GiveMasks(WordRing(l), 2, t)
    requires y == Given(WordRing(l), x, 0, PartWord(l), r) && z == Given(WordRing(l), x, 2, PartWord(l), t)
    ensures var m, u, v := Pow2(l), WordShares(y), WordShares(z);
      && Width(u, l) && Width(v, l)
      && ToNat(SecretB(u, l)) == (NumberOf(x[0][0]) + NumberOf(x[0][1])) % m
      && ToNat(SecretB(v, l)) == (NumberOf(x[2][0]) + NumberOf(x[2][1])) % m
      && (ToNat(SecretB(u, l)) + ToNat(SecretB(v, l))) % m == SecretA(m, NumberShares(x))
  {
    hide SecretB, SecretA, ToNat, WordRing, PartWord, Given, Width, GiveMasks;
    PartGiven(l, x, 0, r);
    PartGiven(l, x, 2, t);
    PartsSum(l, x);
  }

  lemma PartGiven(l: nat, x: Joint<Value>, i: nat, r: seq<Value>)
    requires Shaped(x) && |x| == 4 && (i == 0 || i == 2) && GiveMasks(WordRing(l), i, r)
    ensures var z := WordShares(Given(WordRing(l), x, i, PartWord(l), r));
      && Width(z, l) && ToNat(SecretB(z, l)) == (NumberOf(x[i][0]) + NumberOf(x[i][1])) % Pow2(l)
  {
    hide SecretB, Given;
    var n := (NumberOf(x[i][0]) + NumberOf(x[i][1])) % Pow2(l);
    DivMod(NumberOf(x[i][0]) + NumberOf(x[i][1]), Pow2(l));
    assert HeldPart(Pow2(l), i, x[i]) == n;
    ToNatFromNat(n, l);
    GivenOpensWord(l, x, i, PartWord(l), r);
  }

  lemma PartsSum(l: nat, x: Joint<Value>)
    requires Replicated(x) && |x| == 4
    ensures var m := Pow2(l);
      ((NumberOf(x[0][0]) + NumberOf(x[0][1])) % m + (NumberOf(x[2][0]) + NumberOf(x[2][1])) % m) % m ==
      SecretA(m, NumberShares(x))
  {
    var m, z := Pow2(l), NumberShares(x);
    MapReplicated(x, (v: Value) => NumberOf(v));
    var cs := Components(z);
    assert x[0][0] == Components(x)[1] && x[0][1] == Components(x)[2];
    assert x[2][0] == Components(x)[3] && x[2][1] == Components(x)[0];
    SumOfResidues(m, cs[1] + cs[2], cs[3] + cs[0], 0, 0);
    DivModUnique(0, m, 0, 0);
  }

  /** The parties other than `bad` hold their shares of two words that add up to the number of register `x`. */
  ghost predicate HoldAddends(regs: Registers<Value>, x: Joint<Value>, l: nat, bad: nat) {
    && Table(regs) && |regs| == 3
    && exists y, z :: WordsAddUp(y, z, x, l)
         && forall j :: 0 <= j < 4 && j != bad ==> regs[1][j] == y[j] && regs[2][j] == z[j]
  }

  /** Two consistent sharings of words that add up to the number of a register. */
  predicate WordsAddUp(y: Joint<Value>, z: Joint<Value>, x: Joint<Value>, l: nat) {
    && Replicated(y) && Replicated(z) && Replicated(x) && |y| == |z| == 4
    && Width(WordShares(y), l) && Width(WordShares(z), l)
    && (ToNat(SecretB(WordShares(y), l)) + ToNat(SecretB(WordShares(z), l))) % Pow2(l) ==
       SecretA(Pow2(l), NumberShares(x))
  }

  /** The deviating party has no say in it: when nobody stops, the others hold their shares of two words that add up to
      the number. */
  lemma RedistributionKept(l: nat, regs: Registers<Value>, r: seq<Value>, t: seq<Value>, bad: nat,
                           choices: seq<Choice<Value>>)
    requires HoldsSorts(l, regs) && GiveMasks(WordRing(l), 0, r) && GiveMasks(WordRing(l), 2, t)
    requires bad < 4 && |choices| == 2 && forall i :: 0 <= i < 2 ==> |choices[i].stored| == 3
    ensures Table(regs)
    ensures var p := Actual(Sorts(l), Redistribution(l, r, t), 2, regs, bad, choices);
      JustAbort(p, bad) && (p.Running? ==> HoldAddends(p.regs, regs[0], l, bad))
  {
    hide *;
    RedistributionShapes(l, regs, r, t);
    RedistributionRobust(l, regs, r, t, bad, choices);
    var y, z := Given(WordRing(l), regs[0], 0, PartWord(l), r), Given(WordRing(l), regs[0], 2, PartWord(l), t);
    GivenAddUp(l, regs[0], r, t, y, z);
    var p := Actual(Sorts(l), Redistribution(l, r, t), 2, regs, bad, choices);
    if p.Running? { KeptMeans(p.regs, regs[0], l, bad, y, z); }
  }

  lemma KeptMeans(regs: Registers<Value>, x: Joint<Value>, l: nat, bad: nat, y: Joint<Value>, z: Joint<Value>)
    requires Table(regs) && |regs| == 3 && WordsAddUp(y, z, x, l)
    requires forall j :: 0 <= j < 4 && j != bad ==> regs[1][j] == y[j] && regs[2][j] == z[j]
    ensures HoldAddends(regs, x, l, bad)
  {
    hide WordsAddUp;
  }

  lemma GivenAddUp(l: nat, x: Joint<Value>, r: seq<Value>, t: seq<Value>, y: Joint<Value>, z: Joint<Value>)
    requires Replicated(x) && |x| == 4 && GiveMasks(WordRing(l), 0, r) && GiveMasks(WordRing(l), 2, t)
    requires |r| == |t| == 4
    requires y == Given(WordRing(l), x, 0, PartWord(l), r) && z == Given(WordRing(l), x, 2, PartWord(l), t)
    ensures WordsAddUp(y, z, x, l) && |y| == |z| == 4
  {
    hide *;
    GivenReplicated(WordRing(l), x, 0, PartWord(l), r);
    GivenReplicated(WordRing(l), x, 2, PartWord(l), t);
    GivenParts(l, x, r, t, y, z);
    AddendsOf(y, z, x, l);
  }

  lemma AddendsOf(y: Joint<Value>, z: Joint<Value>, x: Joint<Value>, l: nat)
    requires Replicated(y) && Replicated(z) && Replicated(x) && |y| == |z| == 4
    requires Width(WordShares(y), l) && Width(WordShares(z), l)
    requires (ToNat(SecretB(WordShares(y), l)) + ToNat(SecretB(WordShares(z), l))) % Pow2(l) ==
             SecretA(Pow2(l), NumberShares(x))
    ensures WordsAddUp(y, z, x, l)
  {
  }

  lemma GivenReplicated<T>(o: Ops<T>, x: Joint<T>, i: nat, g: (nat, seq<T>) -> T, r: seq<T>)
    requires |x| == |r| == 4 && (i == 0 || i == 2)
    ensures Replicated(Given(o, x, i, g, r)) && |Given(o, x, i, g, r)| == 4
  {
  }

  // ----------------------------------------------------------------- division

  /** The values of a division open to the quotient, and to the remainder less `off`, of the signed sum of two
      components: the first two shares of party `i`. */
  lemma DivisionMeans(m: nat, x: Joint<Value>, i: nat, c: int, off: int, r: seq<Value>)
    requires m > 0 && c > 0 && Shaped(x) && |x| == |r| == 4 && (i == 0 || i == 2)
    ensures var part := Ring.Signed(m, (NumberOf(x[i][0]) + NumberOf(x[i][1])) % m);
      && SecretA(m, NumberShares(Given(NumberRing(m), x, i, PartQuotient(m, c), r))) == Quotient(part, c) % m
      && SecretA(m, NumberShares(Given(NumberRing(m), x, i, PartRest(m, c, off), r))) == (Rest(part, c) - off) % m
  {
    hide SecretA, Given, Quotient, Rest, Ring.Signed;
    assert HeldPart(m, i, x[i]) == (NumberOf(x[i][0]) + NumberOf(x[i][1])) % m;
    GivenOpensNumber(m, x, i, PartQuotient(m, c), r);
    GivenOpensNumber(m, x, i, PartRest(m, c, off), r);
  }
}
