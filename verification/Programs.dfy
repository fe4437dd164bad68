/** Straight-line programs over shared registers: whatever the program, the parties' registers stay consistent
    sharings and open, at every party, to what the program computes on plain numbers and words. */
module Programs {
  import opened Arith
  import opened Words
  import opened Sharing
  import opened Boolean
  import opened Circuits
  import opened Adders
  import opened Arithmetic
  import opened Conversions
  import opened Multiplexing

  datatype NumberOp = Plus | Minus | Times | Negative

  datatype BitOp = Exclusive | Both | Complement | PlusBits | Equals | Exceeds

  /** `d` is the destination register, `x` and `y` are the operands; unary operations ignore `y`. */
  datatype Instruction =
    | OnNumbers(op: NumberOp, d: nat, x: nat, y: nat)
    | OnBits(bop: BitOp, d: nat, x: nat, y: nat)
    | ToBits(d: nat, x: nat)
    | ToNumber(d: nat, x: nat)

  predicate Fit(i: Instruction, na: nat, nb: nat) {
    match i
    case OnNumbers(_, d, x, y) => d < na && x < na && y < na
    case OnBits(_, d, x, y) => d < nb && x < nb && y < nb
    case ToBits(d, x) => d < nb && x < na
    case ToNumber(d, x) => d < na && x < nb
  }

  // ---------------------------------------------------------- plain meaning

  function NumberMeaning(op: NumberOp, u: int, v: int, m: nat): (r: int)
    requires m > 0
    ensures 0 <= r < m
  {
    match op
    case Plus => (u + v) % m
    case Minus => (u - v) % m
    case Times => (u * v) % m
    case Negative => (-u) % m
  }

  function BitMeaning(op: BitOp, u: Word, v: Word, l: nat): (r: Word)
    requires l > 0 && |u| == |v| == l
    ensures |r| == l
  {
    match op
    case Exclusive => Xor(u, v)
    case Both => And(u, v)
    case Complement => Not(u)
    case PlusBits => ResidueWord(ToNat(u) + ToNat(v), l)
    case Equals => BitWord(l, u == v)
    case Exceeds => BitWord(l, ToInt(u) > ToInt(v))
  }

  function ResidueWord(n: nat, l: nat): (w: Word)
    ensures |w| == l
  {
    DivMod(n, Pow2(l));
    FromNat(n % Pow2(l), l)
  }

  /** Numbers modulo 2^l and words of l bits. */
  datatype Plaintext = Plaintext(a: seq<int>, b: seq<Word>)

  predicate Proper(s: Plaintext, l: nat) {
    && (forall r {:trigger s.a[r]} :: 0 <= r < |s.a| ==> 0 <= s.a[r] < Pow2(l))
    && (forall r {:trigger s.b[r]} :: 0 <= r < |s.b| ==> |s.b[r]| == l)
  }

  function Meaning(i: Instruction, s: Plaintext, l: nat): (r: Plaintext)
    requires l > 0 && Proper(s, l) && Fit(i, |s.a|, |s.b|)
    ensures Proper(r, l) && |r.a| == |s.a| && |r.b| == |s.b|
  {
    match i
    case OnNumbers(op, d, x, y) => s.(a := s.a[d := NumberMeaning(op, s.a[x], s.a[y], Pow2(l))])
    case OnBits(op, d, x, y) => s.(b := s.b[d := BitMeaning(op, s.b[x], s.b[y], l)])
    case ToBits(d, x) => s.(b := s.b[d := FromNat(s.a[x], l)])
    case ToNumber(d, x) => s.(a := s.a[d := BitValue(s.b[x][0]) % Pow2(l)])
  }

  /** The first `k` instructions. */
  function Evaluate(program: seq<Instruction>, k: nat, s: Plaintext, l: nat): (r: Plaintext)
    requires l > 0 && Proper(s, l) && k <= |program|
    requires forall i :: 0 <= i < |program| ==> Fit(program[i], |s.a|, |s.b|)
    ensures Proper(r, l) && |r.a| == |s.a| && |r.b| == |s.b|
  {
    if k == 0 then s else Meaning(program[k - 1], Evaluate(program, k - 1, s, l), l)
  }

  lemma {:induction false} EvaluatePrefix(p: seq<Instruction>, q: seq<Instruction>, k: nat, s: Plaintext, l: nat)
    requires l > 0 && Proper(s, l) && k <= |p|
    requires forall i :: 0 <= i < |p| ==> Fit(p[i], |s.a|, |s.b|)
    requires forall i :: 0 <= i < |q| ==> Fit(q[i], |s.a|, |s.b|)
    ensures forall i :: 0 <= i < |p + q| ==> Fit((p + q)[i], |s.a|, |s.b|)
    ensures Evaluate(p + q, k, s, l) == Evaluate(p, k, s, l)
  {
    hide Meaning, Fit;
    if k > 0 {
      EvaluatePrefix(p, q, k - 1, s, l);
      assert (p + q)[k - 1] == p[k - 1];
    }
  }

  /** A program followed by another one does what the second does to the results of the first. */
  lemma {:induction false} EvaluateAppend(p: seq<Instruction>, q: seq<Instruction>, k: nat, s: Plaintext, l: nat)
    requires l > 0 && Proper(s, l) && k <= |q|
    requires forall i :: 0 <= i < |p| ==> Fit(p[i], |s.a|, |s.b|)
    requires forall i :: 0 <= i < |q| ==> Fit(q[i], |s.a|, |s.b|)
    ensures forall i :: 0 <= i < |p + q| ==> Fit((p + q)[i], |s.a|, |s.b|)
    ensures Evaluate(p + q, |p| + k, s, l) == Evaluate(q, k, Evaluate(p, |p|, s, l), l)
  {
    hide Meaning, Fit;
    if k == 0 {
      EvaluatePrefix(p, q, |p|, s, l);
    } else {
      EvaluateAppend(p, q, k - 1, s, l);
      assert (p + q)[|p| + k - 1] == q[k - 1];
    }
  }

  /** One instruction on numbers, in plain terms. */
  lemma OneOnNumbers(op: NumberOp, d: nat, x: nat, y: nat, s: Plaintext, l: nat)
    requires l > 0 && Proper(s, l) && d < |s.a| && x < |s.a| && y < |s.a|
    ensures var r := Evaluate([OnNumbers(op, d, x, y)], 1, s, l);
      && r.b == s.b && |r.a| == |s.a| && (forall e :: 0 <= e < |s.a| && e != d ==> r.a[e] == s.a[e])
      && (op == Plus ==> r.a[d] == (s.a[x] + s.a[y]) % Pow2(l))
      && (op == Minus ==> r.a[d] == (s.a[x] - s.a[y]) % Pow2(l))
      && (op == Times ==> r.a[d] == (s.a[x] * s.a[y]) % Pow2(l))
      && (op == Negative ==> r.a[d] == (0 - s.a[x]) % Pow2(l))
  {
    assert Evaluate([OnNumbers(op, d, x, y)], 0, s, l) == s;
  }

  /** One instruction on words, bit by bit or by the values of the words. */
  lemma OneOnBits(op: BitOp, d: nat, x: nat, y: nat, s: Plaintext, l: nat)
    requires l > 0 && Proper(s, l) && d < |s.b| && x < |s.b| && y < |s.b|
    ensures var r := Evaluate([OnBits(op, d, x, y)], 1, s, l);
      && r.a == s.a && |r.b| == |s.b| && |r.b[d]| == l && (forall e :: 0 <= e < |s.b| && e != d ==> r.b[e] == s.b[e])
      && (op == Exclusive ==> forall j :: 0 <= j < l ==> r.b[d][j] == (s.b[x][j] != s.b[y][j]))
      && (op == Both ==> forall j :: 0 <= j < l ==> r.b[d][j] == (s.b[x][j] && s.b[y][j]))
      && (op == Complement ==> forall j :: 0 <= j < l ==> r.b[d][j] == !s.b[x][j])
      && (op == PlusBits ==> ToNat(r.b[d]) == (ToNat(s.b[x]) + ToNat(s.b[y])) % Pow2(l))
      && (op == Equals ==> forall j :: 0 <= j < l ==> r.b[d][j] == (j == 0 && s.b[x] == s.b[y]))
      && (op == Exceeds ==> forall j :: 0 <= j < l ==> r.b[d][j] == (j == 0 && ToInt(s.b[x]) > ToInt(s.b[y])))
  {
    assert Evaluate([OnBits(op, d, x, y)], 0, s, l) == s;
    var n := ToNat(s.b[x]) + ToNat(s.b[y]);
    DivMod(n, Pow2(l));
    hide ToNat, ToInt;
    ToNatFromNat(n % Pow2(l), l);
  }

  /** One conversion, in plain terms. */
  lemma OneConversion(d: nat, x: nat, s: Plaintext, l: nat)
    requires l > 0 && Proper(s, l)
    ensures d < |s.b| && x < |s.a| ==>
      var r := Evaluate([ToBits(d, x)], 1, s, l);
      && r.a == s.a && |r.b| == |s.b| && (forall e :: 0 <= e < |s.b| && e != d ==> r.b[e] == s.b[e])
      && ToNat(r.b[d]) == s.a[x]
    ensures d < |s.a| && x < |s.b| ==>
      var r := Evaluate([ToNumber(d, x)], 1, s, l);
      && r.b == s.b && |r.a| == |s.a| && (forall e :: 0 <= e < |s.a| && e != d ==> r.a[e] == s.a[e])
      && r.a[d] == if s.b[x][0] then 1 else 0
  {
    hide ToNat, ToInt;
    Pow2Monotone(1, l);
    assert Pow2(1) == 2 * Pow2(0);
    if d < |s.b| && x < |s.a| {
      assert Evaluate([ToBits(d, x)], 0, s, l) == s;
      ToNatFromNat(s.a[x], l);
    }
    if d < |s.a| && x < |s.b| {
      assert Evaluate([ToNumber(d, x)], 0, s, l) == s;
      DivModUnique(0, Pow2(l), 0, 0);
      DivModUnique(1, Pow2(l), 0, 1);
    }
  }

  // --------------------------------------------------------------- on shares

  predicate HoldsNumber(x: Joint<int>, v: int, parties: nat, l: nat) {
    |x| == parties && InRange(Pow2(l), x) && SecretA(Pow2(l), x) == v
  }

  predicate HoldsWord(x: Joint<Word>, w: Word, parties: nat, l: nat) {
    |x| == parties && Width(x, l) && SecretB(x, l) == w
  }

  /** The registers of all parties, opening to `s`. */
  predicate Holds(a: seq<Joint<int>>, b: seq<Joint<Word>>, s: Plaintext, parties: nat, l: nat) {
    && (parties == 3 || parties == 4) && |a| == |s.a| && |b| == |s.b|
    && (forall r {:trigger a[r]} :: 0 <= r < |a| ==> HoldsNumber(a[r], s.a[r], parties, l))
    && (forall r {:trigger b[r]} :: 0 <= r < |b| ==> HoldsWord(b[r], s.b[r], parties, l))
  }

  /** The masks that one instruction may consume. */
  datatype InstructionMasks = InstructionMasks(circuit: nat -> AndMask, mul: MulMask, share: ShareMask)

  ghost predicate GoodInstructionMasks(ms: InstructionMasks, parties: nat, l: nat) {
    GoodMasks(ms.circuit, parties, l) && GoodMulMask(ms.mul, parties, Pow2(l)) && GoodShareMask(ms.share, l)
  }

  method NumberStep(op: NumberOp, x: Joint<int>, y: Joint<int>, ghost u: int, ghost v: int, parties: nat, l: nat,
                    mask: MulMask) returns (z: Joint<int>)
    requires (parties == 3 || parties == 4) && HoldsNumber(x, u, parties, l) && HoldsNumber(y, v, parties, l)
    requires GoodMulMask(mask, parties, Pow2(l))
    ensures HoldsNumber(z, NumberMeaning(op, u, v, Pow2(l)), parties, l)
  {
    hide SecretA, Deal, Components, GoodMulMask, AddA, SubA, NegA;
    var m := Pow2(l);
    LocalInRange(m, x, y);
    match op {
      case Plus => AddOpens(m, x, y); z := AddA(m, x, y);
      case Minus => SubOpens(m, x, y); z := SubA(m, x, y);
      case Times => z := MulA(x, y, m, mask);
      case Negative => NegOpens(m, x); z := NegA(m, x);
    }
  }

  method BitStep(op: BitOp, x: Joint<Word>, y: Joint<Word>, ghost u: Word, ghost v: Word, parties: nat, l: nat, k: nat,
                 ms: nat -> AndMask) returns (z: Joint<Word>)
    requires k >= 2 && l == Pow2(k) && (parties == 3 || parties == 4) && |u| == |v| == l
    requires HoldsWord(x, u, parties, l) && HoldsWord(y, v, parties, l) && GoodMasks(ms, parties, l)
    ensures HoldsWord(z, BitMeaning(op, u, v, l), parties, l)
  {
    hide Width, SecretB, SingleBit, ToInt, ToNat, Sum;
    match op {
      case Exclusive => z := XorB(x, y, l);
      case Both => z := AndB(x, y, l, ms(0));
      case Complement => z := NotB(x, l);
      case PlusBits =>
        z := ParallelPrefixAdder(x, y, l, k, ms);
        FromNatToNat(SecretB(z, l));
      case Equals => z := Equal(x, y, l, k, ms);
      case Exceeds => z := Greater(x, y, l, k, ms);
    }
  }

  method ToBitsStep(x: Joint<int>, ghost v: int, parties: nat, l: nat, k: nat, ms: InstructionMasks)
    returns (z: Joint<Word>)
    requires k >= 2 && l == Pow2(k) && (parties == 3 || parties == 4) && HoldsNumber(x, v, parties, l)
    requires GoodInstructionMasks(ms, parties, l)
    ensures 0 <= v < Pow2(l) && HoldsWord(z, FromNat(v, l), parties, l)
  {
    hide Width, SecretB, InRange, ToNat;
    z := A2B(x, l, k, ms.share, ms.circuit);
    FromNatToNat(SecretB(z, l));
  }

  method ToNumberStep(x: Joint<Word>, ghost w: Word, parties: nat, l: nat) returns (z: Joint<int>)
    requires l > 0 && |w| == l && (parties == 3 || parties == 4) && HoldsWord(x, w, parties, l)
    ensures HoldsNumber(z, BitValue(w[0]) % Pow2(l), parties, l)
  {
    hide Width, SecretB, InRange, SecretA;
    var zs := B2ABit([x], parties, l);
    z := zs[0];
  }

  method RunInstruction(i: Instruction, a: seq<Joint<int>>, b: seq<Joint<Word>>, ghost s: Plaintext, parties: nat,
                        l: nat, k: nat, ms: InstructionMasks) returns (a': seq<Joint<int>>, b': seq<Joint<Word>>)
    requires k >= 2 && l == Pow2(k) && Proper(s, l) && Fit(i, |s.a|, |s.b|) && Holds(a, b, s, parties, l)
    requires GoodInstructionMasks(ms, parties, l)
    ensures Holds(a', b', Meaning(i, s, l), parties, l)
  {
    hide HoldsNumber, HoldsWord, NumberMeaning, BitMeaning;
    a', b' := a, b;
    match i {
      case OnNumbers(op, d, x, y) =>
        var z := NumberStep(op, a[x], a[y], s.a[x], s.a[y], parties, l, ms.mul);
        a' := a[d := z];
      case OnBits(op, d, x, y) =>
        var z := BitStep(op, b[x], b[y], s.b[x], s.b[y], parties, l, k, ms.circuit);
        b' := b[d := z];
      case ToBits(d, x) =>
        var z := ToBitsStep(a[x], s.a[x], parties, l, k, ms);
        b' := b[d := z];
      case ToNumber(d, x) =>
        var z := ToNumberStep(b[x], s.b[x], parties, l);
        a' := a[d := z];
    }
  }

  /** Running a program on shares refines running it on plain values. */
  method RunProgram(program: seq<Instruction>, a: seq<Joint<int>>, b: seq<Joint<Word>>, ghost s: Plaintext,
                    parties: nat, l: nat, k: nat, masks: nat -> InstructionMasks)
    returns (a': seq<Joint<int>>, b': seq<Joint<Word>>)
    requires k >= 2 && l == Pow2(k) && Proper(s, l) && Holds(a, b, s, parties, l)
    requires forall i :: 0 <= i < |program| ==> Fit(program[i], |s.a|, |s.b|)
    requires forall i :: GoodInstructionMasks(masks(i), parties, l)
    ensures Holds(a', b', Evaluate(program, |program|, s, l), parties, l)
    ensures |a'| == |a| && |b'| == |b|
    ensures forall r, p {:trigger OpenA(Pow2(l), a'[r], p)} :: 0 <= r < |a'| && 0 <= p < parties ==>
      OpenA(Pow2(l), a'[r], p) == Evaluate(program, |program|, s, l).a[r]
    ensures forall r, p {:trigger OpenB(b'[r], l, p)} :: 0 <= r < |b'| && 0 <= p < parties ==>
      OpenB(b'[r], l, p) == Evaluate(program, |program|, s, l).b[r]
  {
    hide HoldsNumber, HoldsWord, Meaning, GoodInstructionMasks, Fit, OpenA, OpenB, Proper;
    a', b' := a, b;
    for i := 0 to |program|
      invariant |a'| == |a| && |b'| == |b|
      invariant Holds(a', b', Evaluate(program, i, s, l), parties, l)
    {
      a', b' := RunInstruction(program[i], a', b', Evaluate(program, i, s, l), parties, l, k, masks(i));
    }
    RegistersOpen(a', b', Evaluate(program, |program|, s, l), parties, l);
  }

  /** Every party opens the registers to their values. */
  lemma RegistersOpen(a: seq<Joint<int>>, b: seq<Joint<Word>>, s: Plaintext, parties: nat, l: nat)
    requires Holds(a, b, s, parties, l)
    ensures forall r, p {:trigger OpenA(Pow2(l), a[r], p)} :: 0 <= r < |a| && 0 <= p < parties ==>
      OpenA(Pow2(l), a[r], p) == s.a[r]
    ensures forall r, p {:trigger OpenB(b[r], l, p)} :: 0 <= r < |b| && 0 <= p < parties ==>
      OpenB(b[r], l, p) == s.b[r]
  {
    hide SecretA, SecretB, OpenA, OpenB, Deal, Components;
    forall r, p | 0 <= r < |a| && 0 <= p < parties ensures OpenA(Pow2(l), a[r], p) == s.a[r] {
      OpenAGivesSecret(Pow2(l), a[r], p);
    }
    forall r, p | 0 <= r < |b| && 0 <= p < parties ensures OpenB(b[r], l, p) == s.b[r] {
      OpenBGivesSecret(b[r], l, p);
    }
  }
}
