/** Gap and threshold session windows on shares. */
module Streaming {
  import Ring
  import opened Words
  import opened VectorBits
  import opened Sharing
  import opened Algebra
  import opened Boolean
  import opened Circuits
  import opened Arithmetic
  import opened Products
  import opened Inputs
  import opened RippleCarry
  import opened Conversions
  import opened Multiplexing
  import opened BitVectors
  import opened Tables
  import opened Scans
  import opened GroupMeaning
  import opened Aggregation
  import opened OddEvenAggregation
  import opened SessionWindows
  import opened WindowLaws
  import ThreePC = Replicated3PC

  // ------------------------------------------------------- shared constants

  /** A public word, shared by party 0 with the masks it draws. */
  method ShareWord(data: Word, parties: nat, l: nat, r: seq<Word>) returns (x: Joint<Word>)
    requires (parties == 3 || parties == 4) && |data| == l && |r| == 3 && forall i :: 0 <= i < 3 ==> |r[i]| == l
    ensures |x| == parties && Width(x, l) && SecretB(x, l) == data
  {
    if parties == 3 {
      DealtB(data, 0, r[0], r[1], l);
      x := ThreePC.SecretShare(Bits(l), data, 0, r[0], r[1]);
    } else {
      Dealt4B(data, r[0], r[1], r[2], l);
      x := SecretShare4(Bits(l), data, r[0], r[1], r[2]);
    }
  }

  lemma Dealt4A(m: nat, data: int, s1: int, s2: int, s3: int)
    requires m > 0
    ensures SecretA(m, SecretShare4(Residues(m), data, s1, s2, s3)) == data % m
  {
    var rest := Ring.Sub(m, Ring.Sub(m, data, s1), s2);
    ThirdShare(m, data, s1, s2);
    Ring.SubtractAndAddBack(m, rest, s3);
    Ring.WrapAdd(m, Ring.Sub(m, rest, s3) + s3, s1 + s2);
    Ring.WrapAdd(m, rest, s1 + s2);
    assert Plain([s1, s2, s3, Ring.Sub(m, rest, s3)]) == Ring.Sub(m, rest, s3) + s3 + (s1 + s2);
  }

  method ShareNumber(data: int, parties: nat, m: nat, r: seq<int>) returns (x: Joint<int>)
    requires m > 0 && (parties == 3 || parties == 4) && |r| == 3 && forall i :: 0 <= i < 3 ==> 0 <= r[i] < m
    ensures |x| == parties && InRange(m, x) && SecretA(m, x) == data % m
  {
    hide SecretA;
    if parties == 3 {
      SecretShareOpens(m, data, 0, r[0], r[1]);
      x := ThreePC.SecretShare(Residues(m), data, 0, r[0], r[1]);
    } else {
      Dealt4A(m, data, r[0], r[1], r[2]);
      x := SecretShare4(Residues(m), data, r[0], r[1], r[2]);
    }
  }

  // ------------------------------------------------------------ gap sessions

  /** The arithmetic sharings of the timestamps `t`. */
  predicate TimestampsA(xs: seq<Joint<int>>, t: seq<int>, parties: nat, m: nat) {
    && m > 0 && (parties == 3 || parties == 4) && |xs| == |t|
    && forall p {:trigger xs[p]} :: 0 <= p < |t| ==>
      |xs[p]| == parties && InRange(m, xs[p]) && SecretA(m, xs[p]) == t[p] % m
  }

  predicate TimestampsB(xs: seq<Joint<Word>>, t: seq<int>, parties: nat, l: nat) {
    l > 0 && SharedVector(xs, parties, l) && SignedValues(xs, parties, l) == t
  }

  /** The machine computes every gap without overflow. */
  predicate NoOverflow(t: seq<int>, gap: int, m: nat) {
    forall p {:trigger t[p]} :: 1 <= p < |t| ==> Ring.Fits(m, t[p - 1] + gap - t[p])
  }

  lemma GapResidue(m: nat, a: int, gap: int, b: int)
    requires m > 0
    ensures Ring.Sub(m, Ring.Add(m, a % m, gap % m), b % m) == (a + gap - b) % m
  {
    Ring.AddResidues(m, a, gap);
    Ring.SubResidues(m, a + gap, b);
  }

  /** `ltz(a2b(previous + gap - next))`. */
  method GapFlag(previous: Joint<int>, gap: Joint<int>, next: Joint<int>, ghost a: int, ghost g: int, ghost b: int,
                 parties: nat, l: nat, k: nat, r: ShareMask, ms: nat -> AndMask) returns (z: Joint<Word>)
    requires k >= 2 && l == Pow2(k) && |previous| == |gap| == |next| == parties && (parties == 3 || parties == 4)
    requires InRange(Pow2(l), previous) && InRange(Pow2(l), gap) && InRange(Pow2(l), next)
    requires SecretA(Pow2(l), previous) == a % Pow2(l) && SecretA(Pow2(l), gap) == g % Pow2(l)
    requires SecretA(Pow2(l), next) == b % Pow2(l) && Ring.Fits(Pow2(l), a + g - b)
    requires GoodShareMask(r, l) && GoodMasks(ms, parties, l)
    ensures |z| == parties && Width(z, l) && SingleBit(z) && SecretB(z, l)[0] == (a + g - b < 0)
  {
    hide Width, SecretB, SingleBit, SecretA, Deal, Components, AddA, SubA, Ring.Add, Ring.Sub;
    var m := Pow2(l);
    AddOpens(m, previous, gap);
    var sum := AddA(m, previous, gap);
    SubOpens(m, sum, next);
    LocalInRange(m, sum, next);
    GapResidue(m, a, g, b);
    var w := A2B(SubA(m, sum, next), l, k, r, ms);
    SignOfStored(SecretB(w, l), a + g - b);
    z := LocalB(SignBit, w, l);
  }

  /** The masks of one session window computation. */
  datatype WindowMasks = WindowMasks(
    one: seq<Word>, minusOne: seq<Word>, threshold: seq<Word>, gap: seq<int>,
    reshare: nat -> ShareMask, circuit: nat -> nat -> AndMask, edge: nat -> AndMask, choose: nat -> nat -> AndMask,
    rounds: nat -> RoundMasks)

  ghost predicate GoodWindowMasks(ms: WindowMasks, parties: nat, l: nat) {
    && |ms.one| == |ms.minusOne| == |ms.threshold| == |ms.gap| == 3
    && (forall i :: 0 <= i < 3 ==> |ms.one[i]| == |ms.minusOne[i]| == |ms.threshold[i]| == l)
    && (forall i :: 0 <= i < 3 ==> 0 <= ms.gap[i] < Pow2(l))
    && (forall p :: GoodShareMask(ms.reshare(p), l))
    && CircuitMasks(ms.circuit, parties, l) && VectorMasks(ms.edge, parties, l) && CircuitMasks(ms.choose, parties, l)
    && (forall i :: GoodRoundMasks(ms.rounds(i), parties, l))
  }

  /** What is known about the operands of flag `p`. */
  lemma FlagFacts(first: seq<Joint<int>>, second: seq<Joint<int>>, t: seq<int>, g: int, p: nat, parties: nat, m: nat)
    requires m > 0 && p < |t| - 1 && NoOverflow(t, g, m)
    requires TimestampsA(first, t[..|t| - 1], parties, m) && TimestampsA(second, t[1..], parties, m)
    ensures |first[p]| == parties && InRange(m, first[p]) && SecretA(m, first[p]) == t[p] % m
    ensures |second[p]| == parties && InRange(m, second[p]) && SecretA(m, second[p]) == t[p + 1] % m
    ensures GapStarts(t, g)[1..][p] == (t[p] + g - t[p + 1] < 0) && Ring.Fits(m, t[p] + g - t[p + 1])
  {
    hide InRange, SecretA, Ring.Fits;
    assert GapStarts(t, g)[1..][p] == GapStarts(t, g)[p + 1];
    var q := p + 1;
    assert t[..|t| - 1][p] == t[p] && t[1..][p] == t[q];
    assert Ring.Fits(m, t[q - 1] + g - t[q]);
  }

  method GapFlags(first: seq<Joint<int>>, second: seq<Joint<int>>, gap: Joint<int>, ghost t: seq<int>, ghost g: int,
                  parties: nat, l: nat, k: nat, ms: WindowMasks) returns (flags: seq<Joint<Word>>)
    requires k >= 2 && l == Pow2(k) && |t| > 0 && GoodWindowMasks(ms, parties, l) && NoOverflow(t, g, Pow2(l))
    requires |first| == |second| == |t| - 1
    requires TimestampsA(first, t[..|t| - 1], parties, Pow2(l)) && TimestampsA(second, t[1..], parties, Pow2(l))
    requires |gap| == parties && InRange(Pow2(l), gap) && SecretA(Pow2(l), gap) == g % Pow2(l)
    ensures Opens(flags, parties, l, GapStarts(t, g)[1..])
  {
    hide Width, SecretB, SingleBit, SecretA, InRange, TimestampsA, NoOverflow, GapStarts, Opens, Ring.Fits;
    TimestampCount(first, t[..|t| - 1], parties, Pow2(l));
    ghost var starts := GapStarts(t, g)[1..];
    OpensNothing(parties, l);
    flags := [];
    for p := 0 to |first|
      invariant |flags| == p && Opens(flags, parties, l, starts[..p])
    {
      FlagFacts(first, second, t, g, p, parties, Pow2(l));
      var flag := GapFlag(first[p], gap, second[p], t[p], g, t[p + 1], parties, l, k, ms.reshare(p), ms.circuit(p));
      OpensMore(flags, starts[..p], flag, starts[p], parties, l);
      assert starts[..p + 1] == starts[..p] + [starts[p]];
      flags := flags + [flag];
    }
    assert starts[..|first|] == starts;
  }

  lemma SliceTimestamps(xs: seq<Joint<int>>, t: seq<int>, parties: nat, m: nat)
    requires TimestampsA(xs, t, parties, m) && |t| > 0
    ensures TimestampsA(xs[..|t| - 1], t[..|t| - 1], parties, m) && TimestampsA(xs[1..], t[1..], parties, m)
  {
    hide InRange, SecretA;
  }

  /** `mark_gap_session`. */
  method MarkGapSession(timestamp: array<Joint<int>>, start: array<Joint<Word>>, gap: int, ghost t: seq<int>,
                        parties: nat, l: nat, k: nat, ms: WindowMasks)
    requires k >= 2 && l == Pow2(k) && timestamp.Length == start.Length > 0 && GoodWindowMasks(ms, parties, l)
    requires TimestampsA(timestamp[..], t, parties, Pow2(l)) && NoOverflow(t, gap, Pow2(l))
    modifies start
    ensures Opens(start[..], parties, l, GapStarts(t, gap))
  {
    hide Width, SecretB, SingleBit, TimestampsA, NoOverflow, InRange, SecretA;
    var n := start.Length;
    TimestampCount(timestamp[..], t, parties, Pow2(l));
    var one := ShareWord(BitWord(l, true), parties, l, ms.one);
    one := LocalB(Mask(BitWord(l, true)), one, l);
    var shared := ShareNumber(gap, parties, Pow2(l), ms.gap);
    var first, second := ReadSlices(timestamp, 1);
    SliceTimestamps(timestamp[..], t, parties, Pow2(l));
    var flags := GapFlags(first, second, shared, t, gap, parties, l, k, ms);
    start[0] := one;
    AssignSlice(start, 1, flags, true);
    ghost var starts := GapStarts(t, gap);
    assert start[..] == [one] + flags;
    OpensPrepended(one, true, flags, starts[1..], parties, l);
    assert starts == [true] + starts[1..];
  }

  lemma TimestampCount(xs: seq<Joint<int>>, t: seq<int>, parties: nat, m: nat)
    requires TimestampsA(xs, t, parties, m)
    ensures |xs| == |t| && (parties == 3 || parties == 4)
  {
  }

  function Ones(l: nat): (w: Word)
    ensures |w| == l && forall j :: 0 <= j < l ==> w[j]
  {
    Not(Zero(l))
  }

  lemma {:induction false} LowOfOnes(l: nat, j: nat)
    requires j <= l
    ensures Low(Ones(l), j) == Pow2(j) - 1
  {
    if j > 0 { LowOfOnes(l, j - 1); }
  }

  lemma OnesIsMinusOne(l: nat)
    requires l > 0
    ensures ToInt(Ones(l)) == -1
  {
    LowOfOnes(l, l - 1);
  }

  /** What the multiplexer makes of row 0, whose flag comes from the caller. */
  function FirstMark(flag: Joint<Word>, stamp: Word, l: nat): (w: int)
    requires l > 0 && Width(flag, l) && |stamp| == l
  {
    ToInt(Mixed(Extended(flag, l), Ones(l), stamp))
  }

  lemma ExtendableMark(flag: Joint<Word>, stamp: Word, l: nat)
    requires l > 0 && Width(flag, l) && |stamp| == l && Extendable(flag, l)
    ensures FirstMark(flag, stamp, l) == if SecretB(flag, l)[0] then ToInt(stamp) else -1
  {
    hide Width, SecretB, Extendable;
    OnesIsMinusOne(l);
    ExtendedExactly(flag, l);
    var b := SecretB(flag, l)[0];
    assert Mixed(Extended(flag, l), Ones(l), stamp) == if b then stamp else Ones(l);
  }

  /** Row 0 is marked -1, whatever its timestamp, exactly when its flag is clear and its shares can be extended. */
  lemma FirstMarkExactly(flag: Joint<Word>, l: nat)
    requires l > 0 && Width(flag, l)
    ensures (forall stamp {:trigger FirstMark(flag, stamp, l)} :: |stamp| == l ==> FirstMark(flag, stamp, l) == -1)
       <==> !SecretB(flag, l)[0] && Extendable(flag, l)
  {
    hide Width, SecretB, OddSetBelow;
    OnesIsMinusOne(l);
    if forall stamp {:trigger FirstMark(flag, stamp, l)} :: |stamp| == l ==> FirstMark(flag, stamp, l) == -1 {
      var w := Mixed(Extended(flag, l), Ones(l), Zero(l));
      assert FirstMark(flag, Zero(l), l) == -1;
      SameValueSameWord(w, Ones(l));
      assert forall j :: 0 <= j < l ==> w[j] == !Extended(flag, l)[j];
      assert Extended(flag, l)[0] == SecretB(flag, l)[0] by { NoneSetBelow(flag, l); }
      assert Extended(flag, l) == Spread(SecretB(flag, l));
      ExtendedExactly(flag, l);
    }
    if !SecretB(flag, l)[0] && Extendable(flag, l) {
      forall stamp {:trigger FirstMark(flag, stamp, l)} | |stamp| == l ensures FirstMark(flag, stamp, l) == -1 {
        ExtendableMark(flag, stamp, l);
      }
    }
  }

  /** All flags but the first, which comes from the caller, can serve as control bits. */
  predicate MarkFlags(bits: seq<Joint<Word>>, starts: seq<bool>, parties: nat, l: nat) {
    && |bits| > 0 && LowBits(bits, parties, l, starts)
    && forall p {:trigger bits[p]} :: 1 <= p < |bits| ==> Extendable(bits[p], l)
  }

  /** `multiplex(starts, -1, timestamps)`. */
  method MarkTimestamps(bits: seq<Joint<Word>>, ghost starts: seq<bool>, minusOne: Joint<Word>, ts: seq<Joint<Word>>,
                        ghost t: seq<int>, parties: nat, l: nat, ms: nat -> nat -> AndMask)
    returns (zs: seq<Joint<Word>>)
    requires MarkFlags(bits, starts, parties, l) && |ts| == |bits| && TimestampsB(ts, t, parties, l)
    requires |minusOne| == parties && Width(minusOne, l) && SecretB(minusOne, l) == Ones(l)
    requires CircuitMasks(ms, parties, l)
    ensures |zs| == |ts| == |t| == |starts| && SharedVector(zs, parties, l)
    ensures SignedValues(zs, parties, l) == Marked(t, starts)[0 := FirstMark(bits[0], SecretB(ts[0], l), l)]
  {
    hide Width, SecretB, SingleBit, ToInt, Extendable, Extended, Mixed;
    OnesIsMinusOne(l);
    ghost var first := FirstMark(bits[0], SecretB(ts[0], l), l);
    zs := [];
    for p := 0 to |ts|
      invariant |zs| == p && SharedVector(zs, parties, l)
      invariant forall q {:trigger zs[q]} :: 0 <= q < p ==>
        ToInt(SecretB(zs[q], l)) == if q == 0 then first else if starts[q] then t[q] else -1
    {
      assert starts[p] == SecretB(bits[p], l)[0] && t[p] == ToInt(SecretB(ts[p], l));
      var z := MultiplexB(bits[p], minusOne, ts[p], l, ms(p)(0), ms(p)(1));
      zs := zs + [z];
    }
  }

  method AssignAll<T>(col: array<T>, s: seq<T>)
    requires |s| == col.Length
    modifies col
    ensures col[..] == s
  {
    for p := 0 to |s|
      invariant col[..p] == s[..p]
    {
      col[p] := s[p];
    }
  }

  method OverwriteMarks(window: array<Joint<Word>>, ghost starts: seq<bool>, ts: array<Joint<Word>>, ghost t: seq<int>,
                        parties: nat, l: nat, ms: WindowMasks)
    requires window.Length == ts.Length && MarkFlags(window[..], starts, parties, l)
    requires TimestampsB(ts[..], t, parties, l) && GoodWindowMasks(ms, parties, l)
    modifies window
    ensures |starts| == |t| == window.Length > 0 && SharedVector(window[..], parties, l)
    ensures SignedValues(window[..], parties, l) ==
            Marked(t, starts)[0 := old(FirstMark(window[0], SecretB(ts[0], l), l))]
  {
    hide Width, SecretB, SingleBit, SignedValues, CircuitMasks, FirstMark, Extendable;
    var minusOne := ShareWord(Ones(l), parties, l, ms.minusOne);
    var zs := MarkTimestamps(window[..], starts, minusOne, ts[..], t, parties, l, ms.choose);
    AssignAll(window, zs);
  }

  /** A single column as a table. */
  lemma OneColumnTable(col: array<Joint<Word>>, parties: nat, l: nat)
    requires l > 0 && SharedVector(col[..], parties, l)
    ensures Contents([col]) == [col[..]] && Separate([col], col.Length)
    ensures SharedTable(Contents([col]), parties, col.Length, l)
    ensures SignedTable(Contents([col]), parties, col.Length, l) == [SignedValues(col[..], parties, l)]
  {
    hide SharedVector;
    assert Contents([col]) == [col[..]];
  }

  lemma ColumnOfTable(col: array<Joint<Word>>, parties: nat, l: nat)
    requires l > 0 && SharedTable(Contents([col]), parties, col.Length, l)
    ensures SharedVector(col[..], parties, l)
    ensures SignedTable(Contents([col]), parties, col.Length, l) == [SignedValues(col[..], parties, l)]
  {
    hide SharedVector;
    assert Contents([col])[0] == col[..];
  }

  /** The aggregation of both session windows: maxima of one column, in reverse. */
  method AggregateMarks(keys: seq<array<Joint<Word>>>, window: array<Joint<Word>>, sel: array?<Joint<Word>>,
                        ghost on: seq<bool>, one: Joint<Word>, parties: nat, l: nat, k: nat, masks: nat -> RoundMasks)
    requires Operands(keys, sel, on, one, window.Length, parties, l, k)
    requires sel != window && forall c :: 0 <= c < |keys| ==> keys[c] != window
    requires forall i :: GoodRoundMasks(masks(i), parties, l) && ExtremeMasks(masks(i), k)
    requires forall i :: GroupsControl(|keys|, one, sel, masks(i), parties, l)
    requires l > 0 && SharedVector(window[..], parties, l) && Table(keys, window.Length, parties, l)
    modifies window
    ensures SharedVector(window[..], parties, l)
    ensures var ks, n := old(KeyWords(keys, window.Length, parties, l)), window.Length;
      && OfLength(ks, n) && |on| == n
      && Scanned([SignedValues(window[..], parties, l)], [old(SignedValues(window[..], parties, l))],
                 Linked(ks, on, n, |ks|), n, Log2(n), Log2(n), true, Extreme(false))
  {
    hide SharedVector, SignedValues, Table, Linked, Scanned, GoodRoundMasks, ExtremeMasks, GroupsControl, SharedTable,
      Operands;
    KeysFit(keys, sel, on, one, window.Length, parties, l, k);
    OneColumnTable(window, parties, l);
    AggregateExtreme(keys, [window], [window], true, false, sel, on, one, parties, l, k, masks);
    ColumnOfTable(window, parties, l);
  }

  /** What the reverse scan leaves in the window column. */
  lemma GapWindows(ids: seq<int>, ks: seq<seq<Word>>, t: seq<int>, gap: int, n: nat, rounds: nat)
    requires WindowInput(ks, t, n) && gap >= 0
    requires Scanned([ids], [Marked(t, GapStarts(t, gap))], Linked(ks, AllRows(n), n, |ks|), n, rounds, rounds, true,
                     Extreme(false))
    ensures |ids| == n
    ensures var same := Linked(ks, AllRows(n), n, |ks|);
      && (forall p {:trigger ids[p]} :: 0 <= p < n ==> ids[p] == Latest(t, GapStarts(t, gap), same, p))
      && forall p: nat, q: nat {:trigger ids[p], ids[q]} :: p <= q < n && same(p, q) ==>
           (ids[p] == ids[q] <==> forall r {:trigger t[r]} :: p < r <= q ==> t[r] - t[r - 1] <= gap)
  {
    hide Linked, Groups, ContiguousKeys, Commutes, Extreme, GapStarts, Marked, Latest, Ordered, Scan;
    var same, v := Linked(ks, AllRows(n), n, |ks|), Marked(t, GapStarts(t, gap));
    LinkedGroups(ks, n);
    GroupsAreContiguous(same, n);
    ExtremeCommutes(false);
    assert ids == [ids][0];
    forall p {:trigger ids[p]} | 0 <= p < n ensures ids[p] == Latest(t, GapStarts(t, gap), same, p) {
      ReverseScan(v, same, rounds, Extreme(false), p);
      PrefixIsLatest(t, GapStarts(t, gap), same, p);
    }
    forall p: nat, q: nat {:trigger ids[p], ids[q]} | p <= q < n && same(p, q)
      ensures ids[p] == ids[q] <==> forall r {:trigger t[r]} :: p < r <= q ==> t[r] - t[r - 1] <= gap
    {
      SameWindow(t, gap, same, p, q);
    }
  }

  lemma OperandSizes(keys: seq<array<Joint<Word>>>, sel: array?<Joint<Word>>, on: seq<bool>, one: Joint<Word>, n: nat,
                     parties: nat, l: nat, k: nat)
    requires Operands(keys, sel, on, one, n, parties, l, k)
    ensures k >= 2 && l == Pow2(k) && l > 1 && (parties == 3 || parties == 4)
  {
    KeysFit(keys, sel, on, one, n, parties, l, k);
  }

  /** The flags of a gap session are all control bits, and the one of row 0 is set. */
  lemma GapFlagsMark(bits: seq<Joint<Word>>, ts: seq<Joint<Word>>, t: seq<int>, gap: int, parties: nat, l: nat)
    requires |bits| == |ts| > 0 && Opens(bits, parties, l, GapStarts(t, gap)) && TimestampsB(ts, t, parties, l)
    ensures MarkFlags(bits, GapStarts(t, gap), parties, l) && Width(bits[0], l) && Width(ts[0], l)
    ensures Marked(t, GapStarts(t, gap))[0 := FirstMark(bits[0], SecretB(ts[0], l), l)] == Marked(t, GapStarts(t, gap))
  {
    hide Width, SecretB, SingleBit, ToInt, Extendable, FirstMark;
    OpensControls(bits, parties, l, GapStarts(t, gap));
    assert t[0] == ToInt(SecretB(ts[0], l)) && GapStarts(t, gap)[0];
    ExtendableMark(bits[0], SecretB(ts[0], l), l);
  }

  /** Session starts show their timestamps, all other rows -1: what `gap_session_window` aggregates. */
  method MarkGaps(timestampA: array<Joint<int>>, timestampB: array<Joint<Word>>, window: array<Joint<Word>>, gap: int,
                  ghost t: seq<int>, parties: nat, l: nat, k: nat, ms: WindowMasks)
    requires k >= 2 && l == Pow2(k) && timestampA.Length == timestampB.Length == window.Length > 0
    requires timestampB != window
    requires TimestampsA(timestampA[..], t, parties, Pow2(l)) && TimestampsB(timestampB[..], t, parties, l)
    requires NoOverflow(t, gap, Pow2(l)) && GoodWindowMasks(ms, parties, l)
    modifies window
    ensures SharedVector(window[..], parties, l)
    ensures SignedValues(window[..], parties, l) == Marked(t, GapStarts(t, gap))
  {
    hide Width, SecretB, SingleBit, SignedValues, TimestampsA, TimestampsB, Opens, NoOverflow, GapStarts, Marked,
      SharedVector, MarkFlags, FirstMark, LowBits, Singles, GoodWindowMasks;
    MarkGapSession(timestampA, window, gap, t, parties, l, k, ms);
    GapFlagsMark(window[..], timestampB[..], t, gap, parties, l);
    OverwriteMarks(window, GapStarts(t, gap), timestampB, t, parties, l, ms);
  }

  /** `gap_session_window`: a row's window is the timestamp of the session start it belongs to. */
  method GapSessionWindow(keys: seq<array<Joint<Word>>>, timestampA: array<Joint<int>>, timestampB: array<Joint<Word>>,
                          window: array<Joint<Word>>, gap: int, one: Joint<Word>, ghost t: seq<int>, parties: nat,
                          l: nat, k: nat, ms: WindowMasks)
    requires timestampA.Length == timestampB.Length == window.Length > 0 && gap >= 0
    requires timestampB != window && forall c :: 0 <= c < |keys| ==> keys[c] != window
    requires Operands(keys, null, AllRows(window.Length), one, window.Length, parties, l, k)
    requires TimestampsA(timestampA[..], t, parties, Pow2(l)) && TimestampsB(timestampB[..], t, parties, l)
    requires NoOverflow(t, gap, Pow2(l)) && GoodWindowMasks(ms, parties, l)
    requires forall i :: ExtremeMasks(ms.rounds(i), k) && KeysControl(|keys|, one, ms.rounds(i), parties, l)
    requires Table(keys, window.Length, parties, l)
    requires WindowInput(KeyWords(keys, window.Length, parties, l), t, window.Length)
    modifies window
    ensures SharedVector(window[..], parties, l) && |t| == window.Length
    ensures var n := window.Length;
      var same := Linked(old(KeyWords(keys, window.Length, parties, l)), AllRows(n), n, |keys|);
      var ids := SignedValues(window[..], parties, l);
      && (forall p {:trigger ids[p]} :: 0 <= p < n ==> ids[p] == Latest(t, GapStarts(t, gap), same, p))
      && forall p: nat, q: nat {:trigger ids[p], ids[q]} :: p <= q < n && same(p, q) ==>
           (ids[p] == ids[q] <==> forall r {:trigger t[r]} :: p < r <= q ==> t[r] - t[r - 1] <= gap)
    ensures GapLaw(old(Contents(keys)), timestampB[..], window[..], gap, parties, window.Length, l)
  {
    WindowColumns(keys, timestampB[..], t, window.Length, parties, l);
    hide Width, SecretB, SingleBit, SignedValues, TimestampsA, TimestampsB, Operands, Table, Opens, NoOverflow, Linked,
      GapStarts, Marked, Scanned, SharedVector, MarkFlags, FirstMark, LowBits, Singles, GapLaw, SharedTable, Latest;
    ghost var n := window.Length;
    ghost var ks := KeyWords(keys, n, parties, l);
    OperandSizes(keys, null, AllRows(n), one, n, parties, l, k);
    MarkGaps(timestampA, timestampB, window, gap, t, parties, l, k, ms);
    AggregateMarks(keys, window, null, AllRows(n), one, parties, l, k, ms.rounds);
    GapOutcome(old(Contents(keys)), timestampB[..], window[..], ks, t, gap, parties, n, l, Log2(n));
  }

  /** What the scan leaves in the window column of a gap session. */
  lemma GapOutcome(keys: seq<seq<Joint<Word>>>, ts: seq<Joint<Word>>, window: seq<Joint<Word>>, ks: seq<seq<Word>>,
                   t: seq<int>, gap: int, parties: nat, n: nat, l: nat, rounds: nat)
    requires l > 0 && SharedTable(keys, parties, n, l) && SharedVector(ts, parties, l)
    requires SharedVector(window, parties, l) && |window| == |ts| == n && gap >= 0
    requires ks == SecretTable(keys, parties, n, l) && t == SignedValues(ts, parties, l) && WindowInput(ks, t, n)
    requires Scanned([SignedValues(window, parties, l)], [Marked(t, GapStarts(t, gap))],
                     Linked(ks, AllRows(n), n, |ks|), n, rounds, rounds, true, Extreme(false))
    ensures var same, ids := Linked(ks, AllRows(n), n, |ks|), SignedValues(window, parties, l);
      && (forall p {:trigger ids[p]} :: 0 <= p < n ==> ids[p] == Latest(t, GapStarts(t, gap), same, p))
      && forall p: nat, q: nat {:trigger ids[p], ids[q]} :: p <= q < n && same(p, q) ==>
           (ids[p] == ids[q] <==> forall r {:trigger t[r]} :: p < r <= q ==> t[r] - t[r - 1] <= gap)
    ensures GapLaw(keys, ts, window, gap, parties, n, l)
  {
    hide Linked, SignedValues, SharedVector, SharedTable, Marked, GapStarts, Latest, Scanned, SecretTable, GapLaw,
      ContiguousKeys, Ordered;
    GapWindows(SignedValues(window, parties, l), ks, t, gap, n, rounds);
    GapLawHolds(keys, ts, window, gap, parties, n, l);
  }

  /** The columns that the law of a session window speaks about. */
  lemma WindowColumns(keys: seq<array<Joint<Word>>>, ts: seq<Joint<Word>>, t: seq<int>, n: nat, parties: nat, l: nat)
    requires Table(keys, n, parties, l) && TimestampsB(ts, t, parties, l)
    ensures SharedTable(Contents(keys), parties, n, l) && SharedVector(ts, parties, l)
    ensures KeyWords(keys, n, parties, l) == SecretTable(Contents(keys), parties, n, l)
    ensures SignedValues(ts, parties, l) == t && |ts| == |t|
  {
  }

  // ------------------------------------------------------ threshold sessions

  function AboveThreshold(f: seq<int>, threshold: int): (above: seq<bool>)
    ensures |above| == |f| && forall p {:trigger above[p]} :: 0 <= p < |f| ==> above[p] == (f[p] > threshold)
  {
    seq(|f|, p requires 0 <= p < |f| => f[p] > threshold)
  }

  /** `function_res > threshold`, with the threshold shared and repeated. */
  method CompareWithThreshold(xs: seq<Joint<Word>>, shared: Joint<Word>, threshold: int, parties: nat, l: nat, k: nat,
                              ms: nat -> nat -> AndMask) returns (bits: seq<Joint<Word>>)
    requires k >= 2 && l == Pow2(k) && SharedVector(xs, parties, l) && CircuitMasks(ms, parties, l)
      && ControlMasks(ms, k)
    requires |shared| == parties && Width(shared, l) && ToInt(SecretB(shared, l)) == threshold
    ensures Opens(bits, parties, l, AboveThreshold(SignedValues(xs, parties, l), threshold))
  {
    hide Width, SecretB, SingleBit, ToInt;
    ghost var above := AboveThreshold(SignedValues(xs, parties, l), threshold);
    bits := [];
    for p := 0 to |xs|
      invariant |bits| == p && Opens(bits, parties, l, above[..p])
    {
      var bit := Greater(xs[p], shared, l, k, ms(p));
      assert above[p] == (ToInt(SecretB(xs[p], l)) > threshold);
      OpensMore(bits, above[..p], bit, above[p], parties, l);
      assert above[..p + 1] == above[..p] + [above[p]];
      bits := bits + [bit];
    }
    assert above[..|xs|] == above;
  }

  /** `now & (now ^ before)`. */
  method RisingEdges(before: seq<Joint<Word>>, now: seq<Joint<Word>>, ghost above: seq<bool>, parties: nat, l: nat,
                     ms: nat -> AndMask) returns (zs: seq<Joint<Word>>)
    requires |above| > 0 && |before| == |now| == |above| - 1 && VectorMasks(ms, parties, l) && NarrowMasks(ms)
    requires Opens(before, parties, l, above[..|above| - 1]) && Opens(now, parties, l, above[1..])
    ensures Opens(zs, parties, l, Crossings(above)[1..])
    ensures forall p {:trigger zs[p]} :: 0 <= p < |zs| ==>
      Width(zs[p], l) && SecretB(zs[p], l)[0] == (above[p + 1] && !above[p])
  {
    hide Width, SecretB, SingleBit;
    ghost var starts := Crossings(above)[1..];
    zs := [];
    for p := 0 to |now|
      invariant |zs| == p && Opens(zs, parties, l, starts[..p])
    {
      OpensAt(before, above[..|above| - 1], p, parties, l);
      OpensAt(now, above[1..], p, parties, l);
      assert starts[p] == Crossings(above)[p + 1];
      var change := XorB(now[p], before[p], l);
      var z := AndB(now[p], change, l, ms(p));
      OpensMore(zs, starts[..p], z, starts[p], parties, l);
      assert starts[..p + 1] == starts[..p] + [starts[p]];
      zs := zs + [z];
    }
    assert starts[..|now|] == starts;
    forall p {:trigger zs[p]} | 0 <= p < |zs|
      ensures Width(zs[p], l) && SecretB(zs[p], l)[0] == (above[p + 1] && !above[p])
    {
      OpensAt(zs, starts, p, parties, l);
      assert starts[p] == Crossings(above)[p + 1];
    }
  }

  /** `mark_threshold_session`; the flag of row 0 stays what it was. */
  method MarkThresholdSession(functionRes: array<Joint<Word>>, start: array<Joint<Word>>, potential: array<Joint<Word>>,
                              threshold: Word, parties: nat, l: nat, k: nat, ms: WindowMasks)
    requires k >= 2 && l == Pow2(k) && functionRes.Length == start.Length == potential.Length > 0
    requires start != potential && functionRes != potential && |threshold| == l
    requires (parties == 3 || parties == 4) && GoodWindowMasks(ms, parties, l)
    requires ControlMasks(ms.circuit, k) && NarrowMasks(ms.edge)
    requires SharedVector(functionRes[..], parties, l)
    modifies start, potential
    ensures var above := AboveThreshold(old(SignedValues(functionRes[..], parties, l)), ToInt(threshold));
      Opens(potential[..], parties, l, above) && Opens(start[1..], parties, l, Crossings(above)[1..])
    ensures start[0] == old(start[0])
    ensures var v := old(SignedValues(functionRes[..], parties, l));
      forall p {:trigger start[p]} :: 1 <= p < start.Length ==>
        && Width(start[p], l)
        && SecretB(start[p], l)[0] == (v[p] > ToInt(threshold) && v[p - 1] <= ToInt(threshold))
  {
    hide Width, SecretB, SingleBit, CircuitMasks, ToInt, LowBits, Singles, ControlMasks, NarrowMasks;
    ghost var above := AboveThreshold(SignedValues(functionRes[..], parties, l), ToInt(threshold));
    ghost var flags := start[..];
    var shared := ShareWord(threshold, parties, l, ms.threshold);
    var bits := CompareWithThreshold(functionRes[..], shared, ToInt(threshold), parties, l, k, ms.circuit);
    SameLength(bits, above, parties, l);
    AssignAll(potential, bits);
    var before, now := ReadSlices(potential, 1);
    OpensSlices(bits, above, 1, parties, l);
    var edges := RisingEdges(before, now, above, parties, l, ms.edge);
    SameLength(edges, Crossings(above)[1..], parties, l);
    AssignSlice(start, 1, edges, true);
    assert start[..] == flags[..1] + edges;
    assert start[1..] == edges;
    assert forall p {:trigger start[p]} :: 1 <= p < start.Length ==> start[p] == edges[p - 1];
  }

  lemma {:induction false} ScanCongruent(v: seq<int>, f: (nat, nat) -> bool, g: (nat, nat) -> bool, rounds: nat, i: nat,
                                         reverse: bool, op: (int, int) -> int)
    requires |v| == Pow2(rounds) && i <= rounds && forall p: nat, q: nat :: p < |v| && q < |v| ==> f(p, q) == g(p, q)
    ensures Scan(v, f, rounds, i, reverse, op) == Scan(v, g, rounds, i, reverse, op)
  {
    hide Scan, Round;
    LastRound(v, f, rounds, i, reverse, op);
    LastRound(v, g, rounds, i, reverse, op);
    if i > 0 {
      ScanCongruent(v, f, g, rounds, i - 1, reverse, op);
      var d := Distance(rounds, i, reverse);
      assert Pairs(f, |v|, d) == Pairs(g, |v|, d);
    }
  }

  lemma ThresholdWindows(ids: seq<int>, ks: seq<seq<Word>>, t: seq<int>, above: seq<bool>, n: nat, rounds: nat, w: int)
    requires WindowInput(ks, t, n) && |above| == n > 0
    requires Scanned([ids], [Marked(t, Crossings(above))[0 := w]], Linked(ks, above, n, |ks|), n, rounds, rounds, true,
                     Extreme(false))
    ensures |ids| == n == Pow2(rounds)
    ensures forall p {:trigger ids[p]} :: 0 <= p < n ==>
      ids[p] == WindowOf(t, Linked(ks, AllRows(n), n, |ks|), above, rounds, w, p)
  {
    hide Groups, ContiguousKeys, Extreme, Marked, WindowOf, Ordered, Scan, Crossings;
    var same, v := Linked(ks, AllRows(n), n, |ks|), Marked(t, Crossings(above))[0 := w];
    LinkedGroups(ks, n);
    assert ids == [ids][0];
    assert forall p: nat, q: nat :: p < n && q < n ==> Linked(ks, above, n, |ks|)(p, q) == Joined(same, above)(p, q);
    ScanCongruent(v, Linked(ks, above, n, |ks|), Joined(same, above), rounds, rounds, true, Extreme(false));
    forall p {:trigger ids[p]} | 0 <= p < n ensures ids[p] == WindowOf(t, same, above, rounds, w, p) {
      PatchedWindow(t, same, above, rounds, w, p);
    }
  }

  lemma FirstStamp(ts: seq<Joint<Word>>, t: seq<int>, parties: nat, l: nat)
    requires TimestampsB(ts, t, parties, l) && |ts| > 0
    ensures |t| == |ts| && Width(ts[0], l)
  {
    hide Width, SecretB;
  }

  /** The flags that `mark_threshold_session` leaves. */
  lemma ThresholdFlagsMark(bits: seq<Joint<Word>>, above: seq<bool>, t: seq<int>, parties: nat, l: nat, w: int)
    requires |bits| == |above| == |t| > 0 && Opens(bits[1..], parties, l, Crossings(above)[1..])
    requires |bits[0]| == parties && Width(bits[0], l)
    ensures var starts := [SecretB(bits[0], l)[0]] + Crossings(above)[1..];
      && MarkFlags(bits, starts, parties, l) && |starts| == |t|
      && Marked(t, starts)[0 := w] == Marked(t, Crossings(above))[0 := w]
  {
    hide Width, SecretB, SingleBit, Extendable;
    var tail, low := bits[1..], Crossings(above)[1..];
    OpensControls(tail, parties, l, low);
    var starts := [SecretB(bits[0], l)[0]] + low;
    forall p | 0 <= p < |bits|
      ensures |bits[p]| == parties && Width(bits[p], l) && SecretB(bits[p], l)[0] == starts[p]
      ensures p > 0 ==> Extendable(bits[p], l)
    {
      if p > 0 { assert bits[p] == tail[p - 1] && starts[p] == low[p - 1]; }
    }
    assert Marked(t, starts)[0 := w] == Marked(t, Crossings(above))[0 := w];
  }

  /** What `threshold_session_window` aggregates: crossings show their timestamps, row 0 its mark, all other rows -1;
      and the selection. */
  method MarkCrossings(functionRes: array<Joint<Word>>, timestampB: array<Joint<Word>>, window: array<Joint<Word>>,
                       potential: array<Joint<Word>>, threshold: Word, ghost t: seq<int>, ghost above: seq<bool>,
                       parties: nat, l: nat, k: nat, ms: WindowMasks)
    requires k >= 2 && l == Pow2(k) && functionRes.Length == timestampB.Length == window.Length == potential.Length > 0
    requires timestampB != window && functionRes != window && |threshold| == l && (parties == 3 || parties == 4)
    requires potential !in [window, functionRes, timestampB]
    requires SharedVector(functionRes[..], parties, l) && TimestampsB(timestampB[..], t, parties, l)
    requires GoodWindowMasks(ms, parties, l) && ControlMasks(ms.circuit, k) && NarrowMasks(ms.edge)
    requires |window[0]| == parties && Width(window[0], l) && Width(timestampB[0], l)
    requires above == AboveThreshold(SignedValues(functionRes[..], parties, l), ToInt(threshold))
    modifies window, potential
    ensures SharedVector(window[..], parties, l) && Opens(potential[..], parties, l, above)
    ensures |t| == window.Length == |above|
    ensures SignedValues(window[..], parties, l) ==
            Marked(t, Crossings(above))[0 := old(FirstMark(window[0], SecretB(timestampB[0], l), l))]
  {
    hide Width, SecretB, SingleBit, SignedValues, TimestampsB, LowBits, Singles, FirstMark, Crossings, Marked,
      SharedVector, ToInt, AboveThreshold, NarrowMasks, ControlMasks, MarkFlags, GoodWindowMasks;
    MarkThresholdSession(functionRes, window, potential, threshold, parties, l, k, ms);
    FirstStamp(timestampB[..], t, parties, l);
    ghost var w := FirstMark(window[0], SecretB(timestampB[0], l), l);
    ghost var starts := [SecretB(window[0], l)[0]] + Crossings(above)[1..];
    ThresholdFlagsMark(window[..], above, t, parties, l, w);
    OverwriteMarks(window, starts, timestampB, t, parties, l, ms);
  }

  /** `threshold_session_window`.  Row 0 shows what its flag, which the caller left in the column, makes of its
      timestamp; a row above the threshold gets the latest crossing at or before it in its key run, or -1, unless it
      reaches row 0 by hops and row 0 shows something later; every other row gets -1.  The windows are as documented
      exactly when row 0 is marked -1. */
  method ThresholdSessionWindow(keys: seq<array<Joint<Word>>>, functionRes: array<Joint<Word>>,
                                timestampB: array<Joint<Word>>, window: array<Joint<Word>>, threshold: Word,
                                one: Joint<Word>, ghost t: seq<int>, parties: nat, l: nat, k: nat, ms: WindowMasks)
    requires functionRes.Length == timestampB.Length == window.Length > 0 && |threshold| == l
    requires timestampB != window && functionRes != window && forall c :: 0 <= c < |keys| ==> keys[c] != window
    requires Operands(keys, null, AllRows(window.Length), one, window.Length, parties, l, k)
    requires SharedVector(functionRes[..], parties, l) && TimestampsB(timestampB[..], t, parties, l)
    requires GoodWindowMasks(ms, parties, l) && ControlMasks(ms.circuit, k) && NarrowMasks(ms.edge)
    requires forall i :: ExtremeMasks(ms.rounds(i), k) && NarrowMasks(ms.rounds(i).select(1))
    requires Table(keys, window.Length, parties, l)
    requires WindowInput(KeyWords(keys, window.Length, parties, l), t, window.Length)
    requires |window[0]| == parties && Width(window[0], l)
    modifies window
    ensures SharedVector(window[..], parties, l) && |t| == window.Length == Pow2(Log2(window.Length))
    ensures var n := window.Length;
      var same := Linked(old(KeyWords(keys, window.Length, parties, l)), AllRows(n), n, |keys|);
      var above := AboveThreshold(SignedValues(functionRes[..], parties, l), ToInt(threshold));
      var w := old(FirstMark(window[0], SecretB(timestampB[0], l), l));
      var ids := SignedValues(window[..], parties, l);
      && (forall p {:trigger ids[p]} :: 0 <= p < n ==> ids[p] == WindowOf(t, same, above, Log2(n), w, p))
      && ((forall p {:trigger ids[p]} :: 0 <= p < n ==>
             ids[p] == if above[p] then Latest(t, Crossings(above), same, p) else -1) <==> w == -1)
    ensures ThresholdLaw(old(Contents(keys)), functionRes[..], timestampB[..], window[..], ToInt(threshold), parties,
                         window.Length, l)
       <==> old(FirstMark(window[0], SecretB(timestampB[0], l), l)) == -1
  {
    WindowColumns(keys, timestampB[..], t, window.Length, parties, l);
    hide Width, SecretB, SingleBit, SignedValues, TimestampsB, Operands, Table, LowBits, Singles, Linked, FirstMark,
      Crossings, Marked, Scanned, SharedVector, ToInt, AboveThreshold, NarrowMasks, ExtremeMasks, ControlMasks,
      WindowOf, MarkFlags, ThresholdLaw, SharedTable, Latest;
    var n := window.Length;
    ghost var ks := KeyWords(keys, n, parties, l);
    OperandSizes(keys, null, AllRows(n), one, n, parties, l, k);
    ghost var above := AboveThreshold(SignedValues(functionRes[..], parties, l), ToInt(threshold));
    var potential := new Joint<Word>[n](i => []);
    FirstStamp(timestampB[..], t, parties, l);
    ghost var w := FirstMark(window[0], SecretB(timestampB[0], l), l);
    MarkCrossings(functionRes, timestampB, window, potential, threshold, t, above, parties, l, k, ms);
    SelectionOperands(keys, potential, above, one, n, parties, l, k);
    AggregateMarks(keys, window, potential, above, one, parties, l, k, ms.rounds);
    ThresholdOutcome(old(Contents(keys)), functionRes[..], timestampB[..], window[..], ToInt(threshold), ks, t, above,
                     parties, n, l, Log2(n), w);
  }

  /** What the scan leaves in the window column of a threshold session. */
  lemma ThresholdOutcome(keys: seq<seq<Joint<Word>>>, f: seq<Joint<Word>>, ts: seq<Joint<Word>>,
                         window: seq<Joint<Word>>, threshold: int, ks: seq<seq<Word>>, t: seq<int>, above: seq<bool>,
                         parties: nat, n: nat, l: nat, rounds: nat, w: int)
    requires l > 0 && SharedTable(keys, parties, n, l) && SharedVector(f, parties, l) && SharedVector(ts, parties, l)
    requires SharedVector(window, parties, l) && |window| == |f| == |ts| == |above| == n > 0
    requires above == AboveThreshold(SignedValues(f, parties, l), threshold)
    requires ks == SecretTable(keys, parties, n, l) && t == SignedValues(ts, parties, l) && WindowInput(ks, t, n)
    requires Scanned([SignedValues(window, parties, l)], [Marked(t, Crossings(above))[0 := w]],
                     Linked(ks, above, n, |ks|), n, rounds, rounds, true, Extreme(false))
    ensures n == Pow2(rounds)
    ensures var same, ids := Linked(ks, AllRows(n), n, |ks|), SignedValues(window, parties, l);
      && (forall p {:trigger ids[p]} :: 0 <= p < n ==> ids[p] == WindowOf(t, same, above, rounds, w, p))
      && ((forall p {:trigger ids[p]} :: 0 <= p < n ==>
             ids[p] == if above[p] then Latest(t, Crossings(above), same, p) else -1) <==> w == -1)
    ensures ThresholdLaw(keys, f, ts, window, threshold, parties, n, l) <==> w == -1
  {
    hide Linked, SignedValues, SharedVector, SharedTable, Marked, Crossings, Latest, Scanned, SecretTable, ThresholdLaw,
      ContiguousKeys, Ordered, WindowOf;
    var ids := SignedValues(window, parties, l);
    ThresholdWindows(ids, ks, t, above, n, rounds, w);
    WindowsExactly(ids, t, Linked(ks, AllRows(n), n, |ks|), above, rounds, w);
    FirstWindow(ids, t, Linked(ks, AllRows(n), n, |ks|), above, rounds, w);
    ThresholdLawExactly(keys, f, ts, window, threshold, parties, n, l, above, w);
  }

  lemma FirstWindow(ids: seq<int>, t: seq<int>, same: (nat, nat) -> bool, above: seq<bool>, rounds: nat, w: int)
    requires |t| == |above| == |ids| == Pow2(rounds) > 0
    requires forall p {:trigger ids[p]} :: 0 <= p < |ids| ==> ids[p] == WindowOf(t, same, above, rounds, w, p)
    ensures ids[0] == w
  {
  }

  lemma SelectionOperands(keys: seq<array<Joint<Word>>>, sel: array<Joint<Word>>, on: seq<bool>, one: Joint<Word>,
                          n: nat, parties: nat, l: nat, k: nat)
    requires Operands(keys, null, AllRows(n), one, n, parties, l, k)
    requires sel.Length == n && Opens(sel[..], parties, l, on)
    ensures Operands(keys, sel, on, one, n, parties, l, k)
  {
    SameLength(sel[..], on, parties, l);
  }
}
