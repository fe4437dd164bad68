/** Replicated secret sharing as the joint state of all computing parties.

    `x[i][c]` is share `c` of party `i`, what the source writes `x(c)` when it runs as party `i`.  A party holds
    all components of the secret but one: two of three in the 3-party protocol, three of four in the 4-party one. */
module Sharing {

  type Joint<T> = seq<seq<T>>

  /** The index of the component that party `i` keeps as its share `c`. */
  function Layout(n: nat, i: nat, c: nat): (k: nat)
    requires n == 3 || n == 4
    requires i < n && c < n - 1
    ensures k < n
  {
    if n == 3 then (i + 2 * c) % 3 else (i + 1 + c) % 4
  }

  /** A party whose first share is component `k`. */
  function Holder(n: nat, k: nat): (i: nat)
    requires n == 3 || n == 4
    requires k < n
    ensures i < n && Layout(n, i, 0) == k
  {
    if n == 3 then k else (k + 3) % 4
  }

  predicate Shaped<T>(x: Joint<T>) {
    (|x| == 3 || |x| == 4) && forall i :: 0 <= i < |x| ==> |x[i]| == |x| - 1
  }

  function Components<T>(x: Joint<T>): (cs: seq<T>)
    requires Shaped(x)
    ensures |cs| == |x|
  {
    seq(|x|, k requires 0 <= k < |x| => x[Holder(|x|, k)][0])
  }

  function Deal<T>(cs: seq<T>): (x: Joint<T>)
    requires |cs| == 3 || |cs| == 4
    ensures Shaped(x) && |x| == |cs|
    ensures forall i, c :: 0 <= i < |x| && 0 <= c < |x| - 1 ==> x[i][c] == cs[Layout(|x|, i, c)]
    ensures Components(x) == cs
  {
    seq(|cs|, i requires 0 <= i < |cs| => seq(|cs| - 1, c requires 0 <= c < |cs| - 1 => cs[Layout(|cs|, i, c)]))
  }

  /** All copies of every component agree. */
  predicate Replicated<T(==)>(x: Joint<T>) {
    Shaped(x) && x == Deal(Components(x))
  }

  lemma ReplicatedByEntries<T>(x: Joint<T>, cs: seq<T>)
    requires Shaped(x) && |cs| == |x|
    requires forall i, c :: 0 <= i < |x| && 0 <= c < |x| - 1 ==> x[i][c] == cs[Layout(|x|, i, c)]
    ensures x == Deal(cs) && Components(x) == cs && Replicated(x)
  {
    var d := Deal(cs);
    forall i | 0 <= i < |x| ensures x[i] == d[i] {
      assert forall c :: 0 <= c < |x| - 1 ==> x[i][c] == d[i][c];
    }
  }

  // ------------------------------------------------- share by share operations

  /** Every party combines its shares pairwise, without messages. */
  function Zip<T, U>(x: Joint<T>, y: Joint<T>, f: (T, T) -> U): (r: Joint<U>)
    requires Shaped(x) && Shaped(y) && |x| == |y|
    ensures Shaped(r) && |r| == |x|
    ensures forall i, c :: 0 <= i < |x| && 0 <= c < |x| - 1 ==> r[i][c] == f(x[i][c], y[i][c])
  {
    seq(|x|, i requires 0 <= i < |x| =>
      seq(|x| - 1, c requires 0 <= c < |x| - 1 => f(x[i][c], y[i][c])))
  }

  lemma ZipReplicated<T, U>(x: Joint<T>, y: Joint<T>, f: (T, T) -> U)
    requires Replicated(x) && Replicated(y) && |x| == |y|
    ensures Replicated(Zip(x, y, f))
    ensures forall k :: 0 <= k < |x| ==> Components(Zip(x, y, f))[k] == f(Components(x)[k], Components(y)[k])
  {
    var cx, cy := Components(x), Components(y);
    ReplicatedByEntries(Zip(x, y, f), seq(|x|, k requires 0 <= k < |x| => f(cx[k], cy[k])));
  }

  function Map<T, U>(x: Joint<T>, f: T -> U): (r: Joint<U>)
    requires Shaped(x)
    ensures Shaped(r) && |r| == |x|
  {
    Zip(x, x, (a, b) => f(a))
  }

  lemma MapReplicated<T, U>(x: Joint<T>, f: T -> U)
    requires Replicated(x)
    ensures Replicated(Map(x, f))
    ensures forall k :: 0 <= k < |x| ==> Components(Map(x, f))[k] == f(Components(x)[k])
  {
    ZipReplicated(x, x, (a: T, b: T) => f(a));
  }

  // ------------------------------------------------------------ communicator

  /** The absolute id of the party at relative position `id`. */
  function Peer(n: nat, id: nat, self: nat): (p: nat)
    requires n == 3 || n == 4
    requires id < n && self < n
    ensures p < n
  {
    if n == 3 then (3 + id + self) % 3 else (4 + id + self) % 4
  }

  /** Every party sends its entry to `toId` and gets the entry of `fromId`; the two ids are mutually inverse,
      so that every message that is awaited is the one that is sent. */
  function Exchange<T>(sent: seq<T>, toId: nat, fromId: nat): (received: seq<T>)
    requires |sent| == 3 || |sent| == 4
    requires toId < |sent| && fromId < |sent|
    requires toId + fromId == |sent|
    ensures |received| == |sent|
    ensures forall j :: 0 <= j < |sent| ==> received[Peer(|sent|, toId, j)] == sent[j]
  {
    seq(|sent|, i requires 0 <= i < |sent| => sent[Peer(|sent|, fromId, i)])
  }

  // ---------------------------------------------------------------- opening

  /** The shares of party `i` followed by the one it receives when a sharing is opened. */
  function ViewAt<T>(x: Joint<T>, i: nat): (view: seq<T>)
    requires Shaped(x) && i < |x|
    ensures |view| == |x|
  {
    var p := Peer(|x|, |x| - 1, i);
    if |x| == 3 then [x[i][0], x[i][1], x[p][1]] else [x[i][0], x[i][1], x[i][2], x[p][0]]
  }

  /** The components in the order in which party `i` sees them. */
  function Rotation<T>(cs: seq<T>, i: nat): (r: seq<T>)
    requires (|cs| == 3 || |cs| == 4) && i < |cs|
    ensures |r| == |cs|
  {
    if |cs| == 3 then [cs[i], cs[(i + 2) % 3], cs[(i + 1) % 3]]
    else [cs[(i + 1) % 4], cs[(i + 2) % 4], cs[(i + 3) % 4], cs[i]]
  }

  lemma EntryOf<T>(x: Joint<T>, i: nat)
    requires Replicated(x) && i < |x|
    ensures forall c :: 0 <= c < |x| - 1 ==> x[i][c] == Components(x)[Layout(|x|, i, c)]
  {
  }

  /** Every party sees every component exactly once. */
  lemma ViewIsRotation<T>(x: Joint<T>, i: nat)
    requires Replicated(x) && i < |x|
    ensures ViewAt(x, i) == Rotation(Components(x), i)
  {
    hide Deal, Components;
    EntryOf(x, i);
    EntryOf(x, Peer(|x|, |x| - 1, i));
  }

  // ------------------------------------------------- the three-party pattern

  lemma DealtThree<T>(cs: seq<T>, z: Joint<T>)
    requires |cs| == 3 && Shaped(z) && |z| == 3
    requires z[0][0] == cs[0] && z[0][1] == cs[2]
    requires z[1][0] == cs[1] && z[1][1] == cs[0]
    requires z[2][0] == cs[2] && z[2][1] == cs[1]
    ensures z == Deal(cs)
  {
    var d := Deal(cs);
    assert Layout(3, 0, 0) == 0 && Layout(3, 0, 1) == 2 && Layout(3, 1, 0) == 1;
    assert Layout(3, 1, 1) == 0 && Layout(3, 2, 0) == 2 && Layout(3, 2, 1) == 1;
    assert z[0] == d[0] && z[1] == d[1] && z[2] == d[2];
  }

  /** Every party keeps what it computed and hands a copy to its successor. */
  function KeepAndPass<T>(sent: seq<T>): (z: Joint<T>)
    requires |sent| == 3
    ensures z == Deal(sent)
  {
    var received := Exchange(sent, 1, 2);
    var z := seq(3, i requires 0 <= i < 3 => [sent[i], received[i]]);
    DealtThree(sent, z);
    z
  }

  /** The data party keeps the first pair and sends the other two to its successor and predecessor. */
  function DealFrom<T>(dataParty: nat, s1: T, s2: T, s3: T): (x: Joint<T>)
    requires dataParty < 3
    ensures x == Deal(seq(3, i requires 0 <= i < 3 => [s1, s2, s3][(3 + i - dataParty) % 3]))
  {
    var dealt := [[s1, s3], [s2, s1], [s3, s2]];
    var x := seq(3, i requires 0 <= i < 3 => dealt[(3 + i - dataParty) % 3]);
    DealtThree(seq(3, i requires 0 <= i < 3 => [s1, s2, s3][(3 + i - dataParty) % 3]), x);
    x
  }
}
