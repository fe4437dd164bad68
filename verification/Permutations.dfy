/** Sequences of positions used as permutations. */
module Permutations {

  ghost predicate Distinct<T(!new)>(s: seq<T>) {
    forall p, q :: 0 <= p < q < |s| ==> s[p] != s[q]
  }

  predicate Within(perm: seq<nat>, n: nat) {
    forall p :: 0 <= p < |perm| ==> perm[p] < n
  }

  ghost predicate IsPermutation(perm: seq<nat>, n: nat) {
    |perm| == n && Within(perm, n) && Distinct(perm)
  }

  function Identity(n: nat): (perm: seq<nat>)
    ensures |perm| == n && forall p :: 0 <= p < n ==> perm[p] == p
  {
    seq(n, p => p)
  }

  /** Position `p` of the result holds what `s` holds at `perm[p]`. */
  function Permuted<T>(s: seq<T>, perm: seq<nat>): (r: seq<T>)
    requires Within(perm, |s|)
    ensures |r| == |perm| && forall p :: 0 <= p < |perm| ==> r[p] == s[perm[p]]
  {
    seq(|perm|, p requires 0 <= p < |perm| => s[perm[p]])
  }

  lemma PermutedTwice<T>(s: seq<T>, perm: seq<nat>, pick: seq<nat>)
    requires Within(perm, |s|) && Within(pick, |perm|)
    ensures Permuted(Permuted(s, perm), pick) == Permuted(s, Permuted(perm, pick))
  {
  }

  /** No value below `n` is missing from `n` distinct values below `n`. */
  lemma Onto(perm: seq<nat>, n: nat, v: nat) returns (k: nat)
    requires IsPermutation(perm, n) && v < n
    ensures k < n && perm[k] == v
  {
    if v !in perm {
      DistinctCount(perm);
      assert v in Below(n) && v !in Elements(perm);
      assert Elements(perm) <= Below(n) - {v};
      SubsetSize(Elements(perm), Below(n) - {v});
      assert false;
    }
    k :| 0 <= k < |perm| && perm[k] == v;
  }

  function Elements(s: seq<nat>): (all: set<nat>)
    ensures forall e :: e in all <==> e in s
  {
    if s == [] then {} else Elements(s[..|s| - 1]) + {s[|s| - 1]}
  }

  lemma {:induction false} DistinctCount(s: seq<nat>)
    requires Distinct(s)
    ensures |Elements(s)| == |s|
  {
    if s != [] {
      var last, rest := s[|s| - 1], s[..|s| - 1];
      DistinctCount(rest);
      assert last !in rest;
    }
  }

  function Below(n: nat): (all: set<nat>)
    ensures |all| == n && forall e: nat :: e in all <==> e < n
  {
    if n == 0 then {} else Below(n - 1) + {n - 1}
  }

  lemma {:induction false} SubsetSize(a: set<nat>, b: set<nat>)
    requires a <= b
    ensures |a| <= |b|
  {
    if a != {} {
      var e :| e in a;
      SubsetSize(a - {e}, b - {e});
    }
  }

  lemma Without(perm: seq<nat>, n: nat, k: nat)
    requires IsPermutation(perm, n) && k < n && perm[k] == n - 1
    ensures IsPermutation(perm[..k] + perm[k + 1..], n - 1)
  {
    var rest := perm[..k] + perm[k + 1..];
    forall p | 0 <= p < |rest| ensures rest[p] < n - 1 {
      assert rest[p] == perm[if p < k then p else p + 1];
    }
  }

  /** A permutation neither loses nor duplicates elements. */
  lemma {:induction false} PermutedMultiset<T>(s: seq<T>, perm: seq<nat>)
    requires IsPermutation(perm, |s|)
    ensures multiset(Permuted(s, perm)) == multiset(s)
    decreases |s|
  {
    var n := |s|;
    if n > 0 {
      var k := Onto(perm, n, n - 1);
      var rest := perm[..k] + perm[k + 1..];
      Without(perm, n, k);
      PermutedMultiset(s[..n - 1], rest);
      var a, b := Permuted(s, perm), Permuted(s[..n - 1], rest);
      assert a == b[..k] + [s[n - 1]] + b[k..];
      assert b == b[..k] + b[k..];
      assert s == s[..n - 1] + [s[n - 1]];
    }
  }
}
