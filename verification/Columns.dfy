/** Reading and writing an array through an index view. */
module Columns {
  import opened Views

  method ReadView<T(0)>(a: array<T>, v: View) returns (s: seq<T>)
    requires Proper(v) && Length(v) == a.Length
    ensures |s| == Size(v) && forall i :: 0 <= i < Size(v) ==> s[i] == a[At(v, i)]
  {
    s := [];
    for i := 0 to Size(v)
      invariant |s| == i && forall j :: 0 <= j < i ==> s[j] == a[At(v, j)]
    {
      s := s + [a[At(v, i)]];
    }
  }

  /** The view reaches array cell `p`. */
  ghost predicate Reaches(v: View, p: nat)
    requires Proper(v)
  {
    exists i: nat :: i < Size(v) && At(v, i) == p
  }

  /** `view = values`: element by element in ascending order.  Exactly the cells of the view change. */
  method AssignView<T>(a: array<T>, v: View, s: seq<T>)
    requires Proper(v) && Assignable(v) && Length(v) == a.Length && |s| == Size(v)
    modifies a
    ensures forall i {:trigger s[i]} :: 0 <= i < Size(v) ==> a[At(v, i)] == s[i]
    ensures forall p {:trigger a[p]} :: 0 <= p < a.Length && !Reaches(v, p) ==> a[p] == old(a[p])
  {
    hide Size, At, Proper, Assignable;
    for i := 0 to Size(v)
      invariant forall j :: 0 <= j < i ==> a[At(v, j)] == s[j]
      invariant forall p {:trigger a[p]} :: 0 <= p < a.Length && !Reaches(v, p) ==> a[p] == old(a[p])
    {
      forall j | 0 <= j < i ensures At(v, j) != At(v, i) {
        if At(v, j) == At(v, i) { AtInjective(v, i, j); }
      }
      assert Reaches(v, At(v, i));
      a[At(v, i)] := s[i];
    }
  }
}
