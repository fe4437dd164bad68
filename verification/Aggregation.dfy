/** `odd_even_aggregation` on shares, in place on the result columns, for three and four parties. */
module Aggregation {
  import opened Arith
  import Ring
  import opened Words
  import opened Sharing
  import opened Boolean
  import opened Circuits
  import opened Arithmetic
  import opened RippleCarry
  import opened Conversions
  import opened Multiplexing
  import opened BitVectors
  import opened Views
  import opened Columns
  import opened Tables
  import opened Scans
  import opened GroupMeaning

  // ------------------------------------------------------------------ slices

  /** `simple_subset_reference(0, 1, n - d - 1)` and `simple_subset_reference(d)`. */
  function First(n: nat, d: nat): (v: View) {
    Simple(Whole(n), 0, n - d - 1, 1)
  }

  function Second(n: nat, d: nat): (v: View) {
    Simple(Whole(n), d, n - 1, 1)
  }

  lemma SliceViews(n: nat, d: nat)
    requires 1 <= d <= n
    ensures var x, y := First(n, d), Second(n, d);
      && Proper(x) && Assignable(x) && Length(x) == n && Size(x) == n - d
      && Proper(y) && Assignable(y) && Length(y) == n && Size(y) == n - d
      && (forall i {:trigger At(x, i)} :: 0 <= i < n - d ==> At(x, i) == i)
      && (forall i {:trigger At(y, i)} :: 0 <= i < n - d ==> At(y, i) == d + i)
  {
    DivByOne(n - d - 1);
    var x, y := First(n, d), Second(n, d);
    assert Size(x.base) == n && Size(y.base) == n;
    forall i | 0 <= i < n - d ensures At(x, i) == i && At(y, i) == d + i {
      assert Views.Local(x, i) == i && Views.Local(y, i) == d + i;
      LocalInBounds(x, i);
      LocalInBounds(y, i);
      assert At(x, i) == At(x.base, i) && At(y, i) == At(y.base, d + i);
    }
  }

  method ReadSlices<T(0)>(col: array<T>, d: nat) returns (first: seq<T>, second: seq<T>)
    requires 1 <= d <= col.Length
    ensures first == col[..col.Length - d] && second == col[d..]
  {
    hide At, Proper, Size, Length, First, Second;
    var n := col.Length;
    SliceViews(n, d);
    first := ReadView(col, First(n, d));
    second := ReadView(col, Second(n, d));
    forall i | 0 <= i < n - d ensures first[i] == col[i] && second[i] == col[d + i] {
      assert At(First(n, d), i) == i && At(Second(n, d), i) == d + i;
    }
  }

  method AssignSlice<T>(col: array<T>, d: nat, s: seq<T>, second: bool)
    requires 1 <= d <= col.Length && |s| == col.Length - d
    modifies col
    ensures second ==> col[..] == old(col[..])[..d] + s
    ensures !second ==> col[..] == s + old(col[..])[col.Length - d..]
  {
    hide At, Proper, Size, Length, First, Second, Assignable, Reaches;
    var n := col.Length;
    ghost var before := col[..];
    SliceViews(n, d);
    var v := if second then Second(n, d) else First(n, d);
    AssignView(col, v, s);
    forall p | 0 <= p < n ensures col[p] == (if second then before[..d] + s else s + before[n - d..])[p] {
      SliceCell(n, d, second, p);
      var i := if second then p - d else p;
      assert 0 <= i < n - d ==> col[At(v, i)] == s[i];
    }
  }

  lemma SliceCell(n: nat, d: nat, second: bool, p: nat)
    requires 1 <= d <= n && p < n
    ensures var v, i := if second then Second(n, d) else First(n, d), if second then p - d else p;
      && Proper(v) && Size(v) == n - d
      && (if 0 <= i < n - d then At(v, i) == p else !Reaches(v, p))
  {
    hide At, Proper, Size, Length, First, Second;
    SliceViews(n, d);
  }

  // -------------------------------------------------------------- group bits

  method EqualSlices(col: array<Joint<Word>>, d: nat, parties: nat, l: nat, k: nat, ms: nat -> nat -> AndMask)
    returns (bits: seq<Joint<Word>>, ghost bs: seq<bool>)
    requires k >= 2 && l == Pow2(k) && 1 <= d < col.Length && SharedVector(col[..], parties, l)
    requires forall p :: GoodMasks(ms(p), parties, l)
    ensures Opens(bits, parties, l, bs) && |bs| == col.Length - d
    ensures forall p {:trigger bs[p]} :: 0 <= p < col.Length - d ==>
      bs[p] == (SecretB(col[p], l) == SecretB(col[p + d], l))
  {
    hide Width, SecretB, SingleBit;
    var n := col.Length;
    var first, second := ReadSlices(col, d);
    bits, bs := [], [];
    for p := 0 to n - d
      invariant |bits| == |bs| == p && Opens(bits, parties, l, bs)
      invariant forall q {:trigger bs[q]} :: 0 <= q < p ==> bs[q] == (SecretB(col[q], l) == SecretB(col[q + d], l))
    {
      assert first[p] == col[..][p] && second[p] == col[..][p + d];
      var bit := Equal(first[p], second[p], l, k, ms(p));
      OpensMore(bits, bs, bit, SecretB(first[p], l) == SecretB(second[p], l), parties, l);
      bits, bs := bits + [bit], bs + [SecretB(first[p], l) == SecretB(second[p], l)];
    }
  }

  /** Both bits, element by element. */
  method AndVectors(xs: seq<Joint<Word>>, ghost bsx: seq<bool>, ys: seq<Joint<Word>>, ghost bsy: seq<bool>,
                    parties: nat, l: nat, ms: nat -> AndMask) returns (zs: seq<Joint<Word>>, ghost bz: seq<bool>)
    requires LowBits(xs, parties, l, bsx) && LowBits(ys, parties, l, bsy) && |xs| == |ys|
    requires VectorMasks(ms, parties, l)
    ensures LowBits(zs, parties, l, bz) && |bz| == |bsx|
    ensures forall p {:trigger bz[p]} :: 0 <= p < |bsx| ==> bz[p] == (bsx[p] && bsy[p])
    ensures Singles(ys) && NarrowMasks(ms) ==> Singles(zs)
  {
    hide Width, SecretB, SingleBit, BitMask;
    zs, bz := [], [];
    for p := 0 to |xs|
      invariant |zs| == |bz| == p && LowBits(zs, parties, l, bz)
      invariant forall q {:trigger bz[q]} :: 0 <= q < p ==> bz[q] == (bsx[q] && bsy[q])
      invariant Singles(ys) && NarrowMasks(ms) ==> Singles(zs)
    {
      assert bsx[p] == SecretB(xs[p], l)[0] && bsy[p] == SecretB(ys[p], l)[0];
      var z := AndB(xs[p], ys[p], l, ms(p));
      assert Singles(ys) && NarrowMasks(ms) ==> SingleBit(ys[p]) && BitMask(ms(p));
      LowBitsMore(zs, bz, z, bsx[p] && bsy[p], parties, l);
      zs, bz := zs + [z], bz + [bsx[p] && bsy[p]];
    }
  }

  /** The rows agree on the first `c` keys, and both are selected. */
  function Linked(ks: seq<seq<Word>>, on: seq<bool>, n: nat, c: nat): (same: (nat, nat) -> bool)
    requires OfLength(ks, n) && |on| == n && c <= |ks|
  {
    (p: nat, q: nat) => p < n && q < n && on[p] && on[q] && forall d :: 0 <= d < c ==> ks[d][p] == ks[d][q]
  }

  function AllRows(n: nat): (on: seq<bool>)
    ensures |on| == n && forall p :: 0 <= p < n ==> on[p]
  {
    seq(n, p => true)
  }

  /** The masks of one round, by key or result column and by position. */
  datatype RoundMasks = RoundMasks(
    equal: nat -> nat -> nat -> AndMask,
    join: nat -> nat -> AndMask,
    select: nat -> nat -> AndMask,
    compare: nat -> nat -> nat -> AndMask,
    choose: nat -> nat -> nat -> AndMask,
    mul: nat -> nat -> MulMask)

  ghost predicate VectorMasks(ms: nat -> AndMask, parties: nat, l: nat) {
    forall p :: GoodMask(ms(p), parties, l)
  }

  /** No mask has a bit above the lowest. */
  ghost predicate NarrowMasks(ms: nat -> AndMask) {
    forall p :: BitMask(ms(p))
  }

  /** The masks of comparisons whose results serve as control bits. */
  ghost predicate ControlMasks(ms: nat -> nat -> AndMask, k: nat) {
    forall p :: OrderMasks(ms(p), k + 2)
  }

  ghost predicate CircuitMasks(ms: nat -> nat -> AndMask, parties: nat, l: nat) {
    forall p :: GoodMasks(ms(p), parties, l)
  }

  ghost predicate NumberMasks(ms: nat -> MulMask, parties: nat, m: nat)
    requires m > 0
  {
    forall p :: GoodMulMask(ms(p), parties, m)
  }

  ghost predicate GoodRoundMasks(ms: RoundMasks, parties: nat, l: nat) {
    && (forall c :: CircuitMasks(ms.equal(c), parties, l))
    && (forall c :: VectorMasks(ms.join(c), parties, l))
    && (forall c :: VectorMasks(ms.select(c), parties, l))
    && (forall c :: CircuitMasks(ms.compare(c), parties, l))
    && (forall c :: CircuitMasks(ms.choose(c), parties, l))
    && (forall c :: NumberMasks(ms.mul(c), parties, Pow2(l)))
  }

  /** A shared constant with low bit one, which is repeated. */
  predicate SharedOne(one: Joint<Word>, parties: nat, l: nat) {
    l > 0 && (parties == 3 || parties == 4) && |one| == parties && Width(one, l) && SecretB(one, l)[0]
  }

  method RepeatOne(one: Joint<Word>, size: nat, parties: nat, l: nat) returns (bits: seq<Joint<Word>>)
    requires SharedOne(one, parties, l)
    ensures LowBits(bits, parties, l, AllRows(size))
    ensures Extendable(one, l) ==> Controls(bits, parties, l, AllRows(size))
  {
    hide Width, SecretB, Extendable;
    bits := seq(size, p => one);
  }

  /** The group bits by `keys` keys can serve as control bits: the constant one can, or the last AND of the keys was
      masked with single bits. */
  ghost predicate KeysControl(keys: nat, one: Joint<Word>, ms: RoundMasks, parties: nat, l: nat) {
    if keys == 0 then SharedOne(one, parties, l) && Extendable(one, l) else keys > 1 ==> NarrowMasks(ms.join(keys - 1))
  }

  ghost predicate Table(keys: seq<array<Joint<Word>>>, n: nat, parties: nat, l: nat)
    reads keys
  {
    (forall c :: 0 <= c < |keys| ==> keys[c].Length == n) && SharedTable(Contents(keys), parties, n, l)
  }

  ghost function KeyWords(keys: seq<array<Joint<Word>>>, n: nat, parties: nat, l: nat): (ks: seq<seq<Word>>)
    requires Table(keys, n, parties, l)
    reads keys
    ensures |ks| == |keys| && OfLength(ks, n)
  {
    SecretTable(Contents(keys), parties, n, l)
  }

  /** The bits that say which rows at distance `d` agree on all keys. */
  method KeyBits(keys: seq<array<Joint<Word>>>, one: Joint<Word>, n: nat, d: nat, parties: nat, l: nat, k: nat,
                 ms: RoundMasks) returns (bits: seq<Joint<Word>>, ghost bs: seq<bool>)
    requires k >= 2 && l == Pow2(k) && 1 <= d < n && Table(keys, n, parties, l)
    requires (|keys| == 0 ==> SharedOne(one, parties, l)) && GoodRoundMasks(ms, parties, l)
    ensures LowBits(bits, parties, l, bs)
    ensures bs == Pairs(Linked(KeyWords(keys, n, parties, l), AllRows(n), n, |keys|), n, d)
    ensures KeysControl(|keys|, one, ms, parties, l) ==> Controls(bits, parties, l, bs)
  {
    hide Width, SecretB, SingleBit, LowBits, Singles, SharedOne, Linked, Pairs, AllRows, Table, CircuitMasks,
      VectorMasks, Extendable, NarrowMasks;
    ghost var ks := KeyWords(keys, n, parties, l);
    NoKeys(ks, n, d);
    if |keys| == 0 {
      bits := RepeatOne(one, n - d, parties, l);
      bs := AllRows(n - d);
    } else {
      bits, bs := KeyColumnBits(keys, 0, n, d, parties, l, k, ms.equal(0));
      OneKeyMore(ks, n, d, 0, AllRows(n - d), bs, bs);
      for c := 1 to |keys|
        invariant LowBits(bits, parties, l, bs) && bs == Pairs(Linked(ks, AllRows(n), n, c), n, d)
        invariant (c > 1 ==> NarrowMasks(ms.join(c - 1))) ==> Singles(bits)
      {
        var more, bm := KeyColumnBits(keys, c, n, d, parties, l, k, ms.equal(c));
        SameLength(bits, bs, parties, l);
        SameLength(more, bm, parties, l);
        ghost var before := bs;
        bits, bs := AndVectors(bits, bs, more, bm, parties, l, ms.join(c));
        OneKeyMore(ks, n, d, c, before, bm, bs);
      }
      if KeysControl(|keys|, one, ms, parties, l) { OpensControls(bits, parties, l, bs); }
    }
  }

  lemma NoKeys(ks: seq<seq<Word>>, n: nat, d: nat)
    requires OfLength(ks, n) && d <= n
    ensures AllRows(n - d) == Pairs(Linked(ks, AllRows(n), n, 0), n, d)
  {
  }

  lemma OneKeyMore(ks: seq<seq<Word>>, n: nat, d: nat, c: nat, bs: seq<bool>, more: seq<bool>, both: seq<bool>)
    requires OfLength(ks, n) && d <= n && c < |ks| && |more| == |both| == n - d
    requires bs == Pairs(Linked(ks, AllRows(n), n, c), n, d)
    requires forall p {:trigger more[p]} :: 0 <= p < n - d ==> more[p] == (ks[c][p] == ks[c][p + d])
    requires forall p {:trigger both[p]} :: 0 <= p < n - d ==> both[p] == (bs[p] && more[p])
    ensures both == Pairs(Linked(ks, AllRows(n), n, c + 1), n, d)
  {
    var next := Pairs(Linked(ks, AllRows(n), n, c + 1), n, d);
    forall p: nat | p < n - d ensures both[p] == next[p] {
      assert next[p] == Linked(ks, AllRows(n), n, c + 1)(p, p + d);
      assert bs[p] == Linked(ks, AllRows(n), n, c)(p, p + d);
    }
  }

  method KeyColumnBits(keys: seq<array<Joint<Word>>>, c: nat, n: nat, d: nat, parties: nat, l: nat, k: nat,
                       ms: nat -> nat -> AndMask) returns (bits: seq<Joint<Word>>, ghost bs: seq<bool>)
    requires k >= 2 && l == Pow2(k) && 1 <= d < n && Table(keys, n, parties, l) && c < |keys|
    requires CircuitMasks(ms, parties, l)
    ensures Opens(bits, parties, l, bs) && |bs| == n - d
    ensures forall p {:trigger bs[p]} :: 0 <= p < n - d ==>
      var ks := KeyWords(keys, n, parties, l); bs[p] == (ks[c][p] == ks[c][p + d])
  {
    hide Width, SecretB, SingleBit;
    assert SharedVector(Contents(keys)[c], parties, l);
    bits, bs := EqualSlices(keys[c], d, parties, l, k, ms);
  }

  // ------------------------------------------------------------------ rounds

  /** The selection column, when there is one. */
  ghost predicate Selection(sel: array?<Joint<Word>>, on: seq<bool>, n: nat, parties: nat, l: nat)
    reads sel
  {
    if sel == null then on == AllRows(n) else sel.Length == n && LowBits(sel[..], parties, l, on)
  }

  /** The group bits of a round can serve as control bits.  With a selection column its shares are single bits, and
      so are the masks of the AND with the second row. */
  ghost predicate GroupsControl(keys: nat, one: Joint<Word>, sel: array?<Joint<Word>>, ms: RoundMasks, parties: nat,
                                l: nat)
    reads sel
  {
    if sel == null then KeysControl(keys, one, ms, parties, l) else Singles(sel[..]) && NarrowMasks(ms.select(1))
  }

  /** The group bits of a round: the keys agree, and both rows are selected. */
  method GroupBits(keys: seq<array<Joint<Word>>>, one: Joint<Word>, sel: array?<Joint<Word>>, ghost on: seq<bool>,
                   n: nat, d: nat, parties: nat, l: nat, k: nat, ms: RoundMasks)
    returns (bits: seq<Joint<Word>>, ghost bs: seq<bool>)
    requires k >= 2 && l == Pow2(k) && 1 <= d < n && Table(keys, n, parties, l) && |on| == n
    requires (|keys| == 0 ==> SharedOne(one, parties, l)) && GoodRoundMasks(ms, parties, l)
    requires Selection(sel, on, n, parties, l)
    ensures LowBits(bits, parties, l, bs)
    ensures bs == Pairs(Linked(KeyWords(keys, n, parties, l), on, n, |keys|), n, d)
    ensures GroupsControl(|keys|, one, sel, ms, parties, l) ==> Controls(bits, parties, l, bs)
  {
    hide Width, SecretB, SingleBit, LowBits, Singles, SharedOne, Linked, Pairs, Table, CircuitMasks, VectorMasks,
      KeysControl, Controls, NarrowMasks;
    bits, bs := KeyBits(keys, one, n, d, parties, l, k, ms);
    if sel != null {
      ghost var ks, byKeys := KeyWords(keys, n, parties, l), bs;
      var first, second := ReadSlices(sel, d);
      LowBitsSlices(sel[..], on, d, parties, l);
      SameLength(bits, bs, parties, l);
      SameLength(first, on[..n - d], parties, l);
      bits, bs := AndVectors(bits, bs, first, on[..n - d], parties, l, ms.select(0));
      SameLength(bits, bs, parties, l);
      ghost var once := bs;
      bits, bs := AndVectors(bits, bs, second, on[d..], parties, l, ms.select(1));
      BothSelected(ks, on, n, d, byKeys, once, bs);
      if Singles(sel[..]) && NarrowMasks(ms.select(1)) {
        SinglesSlice(sel[..], d);
        OpensControls(bits, parties, l, bs);
      }
    }
  }

  lemma SinglesSlice(xs: seq<Joint<Word>>, d: nat)
    requires Singles(xs) && d <= |xs|
    ensures Singles(xs[d..])
  {
    hide SingleBit;
    forall i | 0 <= i < |xs| - d ensures SingleBit(xs[d..][i]) { assert xs[d..][i] == xs[d + i]; }
  }

  lemma BothSelected(ks: seq<seq<Word>>, on: seq<bool>, n: nat, d: nat, byKeys: seq<bool>, once: seq<bool>,
                     bs: seq<bool>)
    requires OfLength(ks, n) && |on| == n && d <= n && |once| == |bs| == n - d
    requires byKeys == Pairs(Linked(ks, AllRows(n), n, |ks|), n, d)
    requires forall p {:trigger once[p]} :: 0 <= p < n - d ==> once[p] == (byKeys[p] && on[..n - d][p])
    requires forall p {:trigger bs[p]} :: 0 <= p < n - d ==> bs[p] == (once[p] && on[d..][p])
    ensures bs == Pairs(Linked(ks, on, n, |ks|), n, d)
  {
    var next := Pairs(Linked(ks, on, n, |ks|), n, d);
    forall p: nat | p < n - d ensures bs[p] == next[p] {
      assert next[p] == Linked(ks, on, n, |ks|)(p, p + d);
      assert byKeys[p] == Linked(ks, AllRows(n), n, |ks|)(p, p + d);
      assert on[d..][p] == on[p + d];
    }
  }

  /** `kept + bits * added`. */
  method SumSlices(kept: seq<Joint<int>>, added: seq<Joint<int>>, bits: seq<Joint<int>>, ghost bs: seq<bool>,
                   parties: nat, m: nat, ms: nat -> MulMask) returns (sums: seq<Joint<int>>)
    requires |kept| == |added| == |bits| == |bs| && m > 1
    requires forall i {:trigger bs[i]} :: 0 <= i < |bs| ==> SharesOf(bits[i], parties, m, BitValue(bs[i]))
    requires SharedNumbers(kept, parties) && SharedNumbers(added, parties) && NumberMasks(ms, parties, m)
    ensures |sums| == |bs| && SharedNumbers(sums, parties)
    ensures forall q {:trigger sums[q]} :: 0 <= q < |bs| ==>
      SecretA(m, sums[q]) == if bs[q] then Ring.Add(m, SecretA(m, kept[q]), SecretA(m, added[q]))
      else SecretA(m, kept[q])
  {
    hide SecretA, Deal, Components, AddA, GoodMulMask;
    sums := [];
    for p := 0 to |kept|
      invariant |sums| == p && SharedNumbers(sums, parties)
      invariant forall q {:trigger sums[q]} :: 0 <= q < p ==>
        SecretA(m, sums[q]) == if bs[q] then Ring.Add(m, SecretA(m, kept[q]), SecretA(m, added[q]))
        else SecretA(m, kept[q])
    {
      assert SharesOf(bits[p], parties, m, BitValue(bs[p]));
      var product := MulA(bits[p], added[p], m, ms(p));
      AddOpens(m, kept[p], product);
      AddOrKeep(m, bs[p], SecretA(m, kept[p]), SecretA(m, added[p]));
      sums := sums + [AddA(m, kept[p], product)];
    }
  }

  /** `sum_aggregation` on one column. */
  method SumColumn(col: array<Joint<int>>, d: nat, bits: seq<Joint<int>>, ghost bs: seq<bool>, reverse: bool,
                   parties: nat, m: nat, ms: nat -> MulMask)
    requires 1 <= d < col.Length && |bits| == |bs| == col.Length - d && m > 1
    requires forall i {:trigger bs[i]} :: 0 <= i < |bs| ==> SharesOf(bits[i], parties, m, BitValue(bs[i]))
    requires SharedNumbers(col[..], parties) && NumberMasks(ms, parties, m)
    modifies col
    ensures SharedNumbers(col[..], parties)
    ensures Numbers(col[..], parties, m) == Round(old(Numbers(col[..], parties, m)), d, bs, reverse, ModularSum(m))
  {
    hide SecretA, Deal, Components, SharesOf, NumberMasks;
    ghost var before := col[..];
    var first, second := ReadSlices(col, d);
    var sums;
    if reverse {
      sums := SumSlices(second, first, bits, bs, parties, m, ms);
    } else {
      sums := SumSlices(first, second, bits, bs, parties, m, ms);
    }
    AssignSlice(col, d, sums, reverse);
    SumsAreRound(before, sums, col[..], d, bs, reverse, parties, m);
  }

  lemma AddOrKeep(m: nat, b: bool, x: int, y: int)
    requires m > 1 && 0 <= x < m && 0 <= y < m
    ensures Ring.Add(m, x, Ring.Mul(m, BitValue(b) % m, y)) == if b then Ring.Add(m, x, y) else x
  {
    DivModUnique(BitValue(b), m, 0, BitValue(b));
    DivModUnique(x, m, 0, x);
    DivModUnique(y, m, 0, y);
    DivModUnique(0, m, 0, 0);
  }

  lemma SumsAreRound(before: seq<Joint<int>>, sums: seq<Joint<int>>, later: seq<Joint<int>>, d: nat, bs: seq<bool>,
                     reverse: bool, parties: nat, m: nat)
    requires m > 0 && 1 <= d < |before| && |sums| == |bs| == |before| - d
    requires SharedNumbers(before, parties) && SharedNumbers(sums, parties)
    requires later == if reverse then before[..d] + sums else sums + before[|before| - d..]
    requires var kept, added := if reverse then before[d..] else before[..|before| - d],
                                if reverse then before[..|before| - d] else before[d..];
      forall q {:trigger sums[q]} :: 0 <= q < |bs| ==>
        SecretA(m, sums[q]) == if bs[q] then Ring.Add(m, SecretA(m, kept[q]), SecretA(m, added[q]))
        else SecretA(m, kept[q])
    ensures SharedNumbers(later, parties)
    ensures Numbers(later, parties, m) == Round(Numbers(before, parties, m), d, bs, reverse, ModularSum(m))
  {
    hide SecretA, Deal, Components;
    var n := |before|;
    var v := Numbers(before, parties, m);
    forall p | 0 <= p < n
      ensures |later[p]| == parties && Replicated(later[p])
      ensures SecretA(m, later[p]) == Combined(v, d, bs, reverse, ModularSum(m), p)
    {
      var q := if reverse then p - d else p;
      if 0 <= q < n - d { assert later[p] == sums[q]; } else { assert later[p] == before[p]; }
    }
    assert SharedNumbers(later, parties);
  }

  /** The signed values of a B-shared vector. */
  function SignedValues(xs: seq<Joint<Word>>, parties: nat, l: nat): (v: seq<int>)
    requires l > 0 && SharedVector(xs, parties, l)
    ensures |v| == |xs| && forall e {:trigger v[e]} :: 0 <= e < |xs| ==> v[e] == ToInt(SecretB(xs[e], l))
  {
    seq(|xs|, e requires 0 <= e < |xs| => ToInt(SecretB(xs[e], l)))
  }

  /** The larger (smaller) of two elements, by `>` and `multiplex`. */
  method ExtremeOf(first: Joint<Word>, second: Joint<Word>, min: bool, parties: nat, l: nat, k: nat,
                   compare: nat -> AndMask, choose: nat -> AndMask) returns (z: Joint<Word>)
    requires k >= 2 && l == Pow2(k) && (parties == 3 || parties == 4) && |first| == |second| == parties
    requires Width(first, l) && Width(second, l) && GoodMasks(compare, parties, l) && OrderMasks(compare, k + 2)
    requires GoodMasks(choose, parties, l)
    ensures |z| == parties && Width(z, l)
    ensures ToInt(SecretB(z, l)) == Extreme(min)(ToInt(SecretB(first, l)), ToInt(SecretB(second, l)))
  {
    hide Width, SecretB, SingleBit, ToInt;
    var greater := Greater(second, first, l, k, compare);
    if min {
      greater := NotBit(greater, l);
    }
    SingleBitExtends(greater, l);
    z := MultiplexB(greater, first, second, l, choose(0), choose(1));
  }

  /** `max_aggregation` and `min_aggregation` on the two slices of a column. */
  method ExtremeSlices(first: seq<Joint<Word>>, second: seq<Joint<Word>>, bits: seq<Joint<Word>>, ghost bs: seq<bool>,
                       reverse: bool, min: bool, parties: nat, l: nat, k: nat, compare: nat -> nat -> AndMask,
                       choose: nat -> nat -> AndMask) returns (zs: seq<Joint<Word>>)
    requires k >= 2 && l == Pow2(k) && |first| == |second| == |bits| && Controls(bits, parties, l, bs)
    requires SharedVector(first, parties, l) && SharedVector(second, parties, l)
    requires CircuitMasks(compare, parties, l) && ControlMasks(compare, k) && CircuitMasks(choose, parties, l)
    ensures |zs| == |bs| == |first| && SharedVector(zs, parties, l)
    ensures forall q {:trigger zs[q]} :: 0 <= q < |first| ==>
      var x, y := ToInt(SecretB(first[q], l)), ToInt(SecretB(second[q], l));
      ToInt(SecretB(zs[q], l)) == if bs[q] then Extreme(min)(x, y) else if reverse then y else x
  {
    hide Width, SecretB, SingleBit, ToInt, Extreme, Extendable, OrderMasks, Mixed, Extended;
    zs := [];
    for p := 0 to |first|
      invariant |zs| == p && SharedVector(zs, parties, l)
      invariant forall q {:trigger zs[q]} :: 0 <= q < p ==>
        var x, y := ToInt(SecretB(first[q], l)), ToInt(SecretB(second[q], l));
        ToInt(SecretB(zs[q], l)) == if bs[q] then Extreme(min)(x, y) else if reverse then y else x
    {
      var best := ExtremeOf(first[p], second[p], min, parties, l, k, compare(p), choose(p));
      assert bs[p] == SecretB(bits[p], l)[0] && Extendable(bits[p], l);
      var z := MultiplexB(bits[p], if reverse then second[p] else first[p], best, l, choose(p)(2), choose(p)(3));
      zs := zs + [z];
    }
  }

  method ExtremeColumn(col: array<Joint<Word>>, d: nat, bits: seq<Joint<Word>>, ghost bs: seq<bool>, reverse: bool,
                       min: bool, parties: nat, l: nat, k: nat, compare: nat -> nat -> AndMask,
                       choose: nat -> nat -> AndMask)
    requires k >= 2 && l == Pow2(k) && 1 <= d < col.Length && |bits| == col.Length - d
    requires Controls(bits, parties, l, bs) && SharedVector(col[..], parties, l)
    requires CircuitMasks(compare, parties, l) && ControlMasks(compare, k) && CircuitMasks(choose, parties, l)
    modifies col
    ensures SharedVector(col[..], parties, l) && |bs| == col.Length - d
    ensures SignedValues(col[..], parties, l) ==
            Round(old(SignedValues(col[..], parties, l)), d, bs, reverse, Extreme(min))
  {
    hide Width, SecretB, SingleBit, ToInt, CircuitMasks, ControlMasks, Extendable;
    ghost var before := col[..];
    var first, second := ReadSlices(col, d);
    var zs := ExtremeSlices(first, second, bits, bs, reverse, min, parties, l, k, compare, choose);
    AssignSlice(col, d, zs, reverse);
    ExtremesAreRound(before, zs, col[..], d, bs, reverse, min, parties, l);
  }

  lemma ExtremesAreRound(before: seq<Joint<Word>>, zs: seq<Joint<Word>>, later: seq<Joint<Word>>, d: nat, bs: seq<bool>,
                         reverse: bool, min: bool, parties: nat, l: nat)
    requires l > 0 && 1 <= d < |before| && |zs| == |bs| == |before| - d
    requires SharedVector(before, parties, l) && SharedVector(zs, parties, l)
    requires later == if reverse then before[..d] + zs else zs + before[|before| - d..]
    requires forall q {:trigger zs[q]} :: 0 <= q < |bs| ==>
      var x, y := ToInt(SecretB(before[q], l)), ToInt(SecretB(before[q + d], l));
      ToInt(SecretB(zs[q], l)) == if bs[q] then Extreme(min)(x, y) else if reverse then y else x
    ensures SharedVector(later, parties, l)
    ensures SignedValues(later, parties, l) == Round(SignedValues(before, parties, l), d, bs, reverse, Extreme(min))
  {
    hide Width, SecretB, ToInt;
    var n := |before|;
    var v := SignedValues(before, parties, l);
    forall p | 0 <= p < n
      ensures |later[p]| == parties && Width(later[p], l)
      ensures ToInt(SecretB(later[p], l)) == Combined(v, d, bs, reverse, Extreme(min), p)
    {
      var q := if reverse then p - d else p;
      if 0 <= q < n - d { assert later[p] == zs[q]; } else { assert later[p] == before[p]; }
    }
    assert SharedVector(later, parties, l);
  }
}
