/** Tables as lists of columns of equal length, and what permuting their rows means. */
module Tables {
  import opened Words
  import opened Permutations
  import opened Sharing
  import opened Boolean
  import opened Arithmetic
  import opened RippleCarry
  import opened Rows

  // ------------------------------------------------------------- on the heap

  /** The columns are different arrays of `n` elements. */
  ghost predicate Separate<T>(cols: seq<array<T>>, n: nat) {
    && (forall c :: 0 <= c < |cols| ==> cols[c].Length == n)
    && (forall c, d :: 0 <= c < d < |cols| ==> cols[c] != cols[d])
  }

  function Contents<T>(cols: seq<array<T>>): (ts: seq<seq<T>>)
    reads cols
    ensures |ts| == |cols| && forall c {:trigger ts[c]} :: 0 <= c < |cols| ==> ts[c] == cols[c][..]
  {
    seq(|cols|, c requires 0 <= c < |cols| reads cols => cols[c][..])
  }

  // ----------------------------------------------------------------- opened

  predicate SharedTable(ts: seq<seq<Joint<Word>>>, parties: nat, n: nat, l: nat) {
    forall c :: 0 <= c < |ts| ==> |ts[c]| == n && SharedVector(ts[c], parties, l)
  }

  function SecretTable(ts: seq<seq<Joint<Word>>>, parties: nat, n: nat, l: nat): (ws: seq<seq<Word>>)
    requires SharedTable(ts, parties, n, l)
    ensures |ws| == |ts| && forall c {:trigger ws[c]} :: 0 <= c < |ts| ==> ws[c] == Secrets(ts[c], parties, l)
  {
    seq(|ts|, c requires 0 <= c < |ts| => Secrets(ts[c], parties, l))
  }

  /** Arithmetic sharings, element by element. */
  predicate SharedNumbers(xs: seq<Joint<int>>, parties: nat) {
    (parties == 3 || parties == 4) && forall e :: 0 <= e < |xs| ==> |xs[e]| == parties && Replicated(xs[e])
  }

  function Numbers(xs: seq<Joint<int>>, parties: nat, m: nat): (v: seq<int>)
    requires m > 0 && SharedNumbers(xs, parties)
    ensures |v| == |xs| && forall e {:trigger v[e]} :: 0 <= e < |xs| ==> v[e] == SecretA(m, xs[e])
  {
    seq(|xs|, e requires 0 <= e < |xs| => SecretA(m, xs[e]))
  }

  predicate SharedNumberTable(ts: seq<seq<Joint<int>>>, parties: nat, n: nat) {
    forall c :: 0 <= c < |ts| ==> |ts[c]| == n && SharedNumbers(ts[c], parties)
  }

  function NumberTable(ts: seq<seq<Joint<int>>>, parties: nat, n: nat, m: nat): (vs: seq<seq<int>>)
    requires m > 0 && SharedNumberTable(ts, parties, n)
    ensures |vs| == |ts| && forall c {:trigger vs[c]} :: 0 <= c < |ts| ==> vs[c] == Numbers(ts[c], parties, m)
  {
    seq(|ts|, c requires 0 <= c < |ts| => Numbers(ts[c], parties, m))
  }

  /** The signed values of opened columns. */
  function Values(ws: seq<seq<Word>>, l: nat): (vs: seq<seq<int>>)
    requires l > 0 && forall c, p :: 0 <= c < |ws| && 0 <= p < |ws[c]| ==> |ws[c][p]| == l
    ensures |vs| == |ws|
    ensures forall c {:trigger vs[c]} :: 0 <= c < |ws| ==>
      |vs[c]| == |ws[c]| && forall p :: 0 <= p < |ws[c]| ==> vs[c][p] == ToInt(ws[c][p])
  {
    seq(|ws|, c requires 0 <= c < |ws| => seq(|ws[c]|, p requires 0 <= p < |ws[c]| => ToInt(ws[c][p])))
  }

  // ------------------------------------------------------------ permutations

  predicate OfLength<T>(ts: seq<seq<T>>, n: nat) {
    forall c :: 0 <= c < |ts| ==> |ts[c]| == n
  }

  function PermuteAll<T>(ts: seq<seq<T>>, n: nat, perm: seq<nat>): (rs: seq<seq<T>>)
    requires OfLength(ts, n) && Within(perm, n)
    ensures |rs| == |ts| && forall c {:trigger rs[c]} :: 0 <= c < |ts| ==> rs[c] == Permuted(ts[c], perm)
    ensures OfLength(rs, |perm|)
  {
    seq(|ts|, c requires 0 <= c < |ts| => Permuted(ts[c], perm))
  }

  lemma PermuteAllTwice<T>(ts: seq<seq<T>>, n: nat, perm: seq<nat>, pick: seq<nat>)
    requires OfLength(ts, n) && Within(perm, n) && Within(pick, |perm|)
    ensures PermuteAll(PermuteAll(ts, n, perm), |perm|, pick) == PermuteAll(ts, n, Permuted(perm, pick))
  {
    var once := PermuteAll(ts, n, perm);
    forall c | 0 <= c < |ts| ensures Permuted(once[c], pick) == Permuted(ts[c], Permuted(perm, pick)) {
      PermutedTwice(ts[c], perm, pick);
    }
  }

  lemma PermuteNone<T>(ts: seq<seq<T>>, n: nat)
    requires OfLength(ts, n)
    ensures PermuteAll(ts, n, Identity(n)) == ts
  {
    forall c | 0 <= c < |ts| ensures Permuted(ts[c], Identity(n)) == ts[c] {}
  }

  /** A table as a sequence of rows. */
  function ColumnsAt<T>(ts: seq<seq<T>>, n: nat, p: nat): (row: seq<T>)
    requires OfLength(ts, n) && p < n
    ensures |row| == |ts| && forall c :: 0 <= c < |ts| ==> row[c] == ts[c][p]
  {
    seq(|ts|, c requires 0 <= c < |ts| => ts[c][p])
  }

  datatype TableRow = TableRow(key: seq<Word>, b: seq<Word>, a: seq<int>)

  function TableRows(keys: seq<seq<Word>>, b: seq<seq<Word>>, a: seq<seq<int>>, n: nat): (rows: seq<TableRow>)
    requires OfLength(keys, n) && OfLength(b, n) && OfLength(a, n)
    ensures |rows| == n
    ensures forall p {:trigger rows[p]} :: 0 <= p < n ==>
      rows[p] == TableRow(ColumnsAt(keys, n, p), ColumnsAt(b, n, p), ColumnsAt(a, n, p))
  {
    seq(n, p requires 0 <= p < n => TableRow(ColumnsAt(keys, n, p), ColumnsAt(b, n, p), ColumnsAt(a, n, p)))
  }

  lemma PermutedColumnsAt<T>(ts: seq<seq<T>>, n: nat, perm: seq<nat>, p: nat)
    requires OfLength(ts, n) && IsPermutation(perm, n) && p < n
    ensures ColumnsAt(PermuteAll(ts, n, perm), n, p) == ColumnsAt(ts, n, perm[p])
  {
  }

  /** One permutation of all columns keeps every row together, and neither loses nor duplicates one. */
  lemma RowsKept(keys: seq<seq<Word>>, b: seq<seq<Word>>, a: seq<seq<int>>, n: nat, perm: seq<nat>)
    requires OfLength(keys, n) && OfLength(b, n) && OfLength(a, n) && IsPermutation(perm, n)
    ensures multiset(TableRows(PermuteAll(keys, n, perm), PermuteAll(b, n, perm), PermuteAll(a, n, perm), n))
         == multiset(TableRows(keys, b, a, n))
  {
    var before := TableRows(keys, b, a, n);
    var later := TableRows(PermuteAll(keys, n, perm), PermuteAll(b, n, perm), PermuteAll(a, n, perm), n);
    forall p | 0 <= p < n ensures later[p] == before[perm[p]] {
      PermutedColumnsAt(keys, n, perm, p);
      PermutedColumnsAt(b, n, perm, p);
      PermutedColumnsAt(a, n, perm, p);
    }
    assert later == Permuted(before, perm);
    PermutedMultiset(before, perm);
  }

  /** The row order of a permuted table is the row order of the original at the original row numbers. */
  lemma PermutedRow(vs: seq<seq<int>>, n: nat, perm: seq<nat>, p: nat)
    requires OfLength(vs, n) && Within(perm, n) && p < |perm|
    ensures Row(PermuteAll(vs, n, perm), p) == Row(vs, perm[p])
  {
    var ps := PermuteAll(vs, n, perm);
    forall c | 0 <= c < |vs| ensures Cell(ps[c], p) == Cell(vs[c], perm[p]) {}
  }
}
