/** How a vector operation is divided among threads and batches, and that dividing it changes nothing. */
module Batching {
  import opened Arith

  // ----------------------------------------------------------- thread ranges

  /** The number of whole batches before thread `t`: the first `remaining` threads get one more. */
  function PreviousBatches(total: nat, batch: nat, threads: nat, t: nat): (k: int)
    requires batch > 0 && threads > 0
  {
    var batches := total / batch;
    t * (batches / threads) + (if t >= batches % threads then batches % threads else t)
  }

  /** Where the range of thread `t` begins; the last thread also takes the partial batch at the end. */
  function Boundary(total: nat, batch: nat, threads: nat, t: nat): (b: int)
    requires batch > 0 && threads > 0
  {
    if t >= threads then total else PreviousBatches(total, batch, threads, t) * batch
  }

  method ThreadBatchBoundary(total: nat, batch: nat, thread: nat, threads: nat) returns (start: int, end: int)
    requires batch > 0 && thread < threads
    ensures start == Boundary(total, batch, threads, thread) && end == Boundary(total, batch, threads, thread + 1)
  {
    var totalBatches := total / batch;
    var threadBatches := totalBatches / threads;
    var remaining := totalBatches % threads;
    var thisBatches := if thread >= remaining then threadBatches else threadBatches + 1;
    var previousInc := if thread >= remaining then remaining else thread;
    var previous := thread * threadBatches + previousInc;
    start := previous * batch;
    end := if thread == threads - 1 then total else start + thisBatches * batch;
    NextThread(thread, threadBatches);
    Distribute(previous, thisBatches, batch);
  }

  lemma NextThread(t: int, k: int)
    ensures (t + 1) * k == t * k + k
  {
  }

  lemma Distribute(a: int, b: int, c: int)
    ensures (a + b) * c == a * c + b * c
  {
  }

  /** All whole batches are handed out. */
  lemma AllBatches(total: nat, batch: nat, threads: nat)
    requires batch > 0 && threads > 0
    ensures PreviousBatches(total, batch, threads, 0) == 0
    ensures PreviousBatches(total, batch, threads, threads) == total / batch
    ensures 0 <= total / batch * batch <= total
  {
    DivMod(total, batch);
    DivMod(total / batch, threads);
    if total / batch < 0 { MulMono(total / batch, -1, batch); }
    MulMono(0, total / batch, batch);
  }

  lemma BatchesGrow(total: nat, batch: nat, threads: nat, t: nat)
    requires batch > 0 && threads > 0
    ensures PreviousBatches(total, batch, threads, t) <= PreviousBatches(total, batch, threads, t + 1)
  {
    var k := total / batch / threads;
    DivMod(total, batch);
    DivMod(total / batch, threads);
    if total / batch < 0 { MulMono(total / batch, -1, batch); }
    if k < 0 { MulMono(k, -1, threads); }
    NextThread(t, k);
  }

  /** The ranges tile the vector in order. */
  lemma {:induction false} RangesTile(total: nat, batch: nat, threads: nat, t: nat)
    requires batch > 0 && t < threads
    ensures Boundary(total, batch, threads, 0) == 0 && Boundary(total, batch, threads, threads) == total
    ensures 0 <= Boundary(total, batch, threads, t) <= Boundary(total, batch, threads, t + 1) <= total
    decreases threads - t
  {
    AllBatches(total, batch, threads);
    var a, b := PreviousBatches(total, batch, threads, t), PreviousBatches(total, batch, threads, t + 1);
    BatchesGrow(total, batch, threads, t);
    MulMono(a, b, batch);
    if t + 1 < threads { RangesTile(total, batch, threads, t + 1); }
    BatchesNotNegative(total, batch, threads, t);
    MulMono(0, a, batch);
  }

  lemma {:induction false} BatchesNotNegative(total: nat, batch: nat, threads: nat, t: nat)
    requires batch > 0 && threads > 0
    ensures PreviousBatches(total, batch, threads, t) >= 0
  {
    if t == 0 { AllBatches(total, batch, threads); } else {
      BatchesNotNegative(total, batch, threads, t - 1);
      BatchesGrow(total, batch, threads, t - 1);
    }
  }

  /** Every thread but the last gets a whole number of batches, and the first `remaining` threads get one more than
      the others. */
  lemma RangesBalanced(total: nat, batch: nat, threads: nat, t: nat)
    requires batch > 0 && t + 1 < threads
    ensures Boundary(total, batch, threads, t + 1) - Boundary(total, batch, threads, t) ==
      (total / batch / threads + (if t < total / batch % threads then 1 else 0)) * batch
  {
    NextThread(t, total / batch / threads);
    var before := PreviousBatches(total, batch, threads, t);
    Distribute(before, total / batch / threads + (if t < total / batch % threads then 1 else 0), batch);
  }

  /** The thread whose range contains position `p`. */
  lemma {:induction false} ThreadOf(total: nat, batch: nat, threads: nat, p: nat, t: nat) returns (u: nat)
    requires batch > 0 && threads > 0 && p < total && t < threads && Boundary(total, batch, threads, t) <= p
    ensures u < threads && Boundary(total, batch, threads, u) <= p < Boundary(total, batch, threads, u + 1)
    decreases threads - t
  {
    hide Boundary;
    RangesTile(total, batch, threads, t);
    if p < Boundary(total, batch, threads, t + 1) {
      u := t;
    } else {
      u := ThreadOf(total, batch, threads, p, t + 1);
    }
  }

  // ----------------------------------------------------------------- batches

  datatype Piece = Piece(start: nat, end: nat)

  /** The pieces into which a task cuts its range. */
  function Pieces(start: nat, end: nat, batch: nat): (ps: seq<Piece>)
    requires batch > 0
    decreases end - start
  {
    if start >= end then [] else
      [Piece(start, if start + batch <= end then start + batch else end)] + Pieces(start + batch, end, batch)
  }

  /** Every piece is non-empty, at most a batch long and inside the range. */
  lemma {:induction false} PiecesFit(start: nat, end: nat, batch: nat)
    requires batch > 0
    ensures forall k {:trigger Pieces(start, end, batch)[k]} :: 0 <= k < |Pieces(start, end, batch)| ==>
      var q := Pieces(start, end, batch)[k]; start <= q.start < q.end <= q.start + batch && q.end <= end
    decreases end - start
  {
    if start < end {
      PiecesFit(start + batch, end, batch);
      var ps, rest := Pieces(start, end, batch), Pieces(start + batch, end, batch);
      forall k {:trigger ps[k]} | 0 <= k < |ps|
        ensures var q := ps[k]; start <= q.start < q.end <= q.start + batch && q.end <= end
      {
        if k > 0 { assert ps[k] == rest[k - 1]; }
      }
    }
  }

  /** The pieces follow each other without a gap from the start of the range to its end, and only the last one may be
      shorter than a batch. */
  lemma {:induction false} PiecesTile(start: nat, end: nat, batch: nat, k: nat)
    requires batch > 0 && k < |Pieces(start, end, batch)|
    ensures var ps := Pieces(start, end, batch);
      && ps[0].start == start && ps[|ps| - 1].end == end
      && (k + 1 < |ps| ==> ps[k].end == ps[k + 1].start && ps[k].end == ps[k].start + batch)
    decreases end - start
  {
    var ps, rest := Pieces(start, end, batch), Pieces(start + batch, end, batch);
    assert ps == [ps[0]] + rest;
    if rest != [] {
      PiecesTile(start + batch, end, batch, if k > 0 then k - 1 else 0);
    }
  }

  /** Every position of the range is in a piece. */
  lemma {:induction false} PieceOf(start: nat, end: nat, batch: nat, p: nat) returns (k: nat)
    requires batch > 0 && start <= p < end
    ensures k < |Pieces(start, end, batch)|
    ensures Pieces(start, end, batch)[k].start <= p < Pieces(start, end, batch)[k].end
    decreases end - start
  {
    if p < start + batch {
      k := 0;
    } else {
      var j := PieceOf(start + batch, end, batch, p);
      k := j + 1;
      assert Pieces(start, end, batch)[k] == Pieces(start + batch, end, batch)[j];
    }
  }

  // -------------------------------------------------- one piece, many pieces

  /** The elementwise operation on one piece. */
  function Apply<X, R>(x: seq<X>, res: seq<R>, f: X -> R, q: Piece): (r: seq<R>)
    requires |x| == |res|
    ensures |r| == |res|
    ensures forall p {:trigger r[p]} :: 0 <= p < |res| ==> r[p] == if q.start <= p < q.end then f(x[p]) else res[p]
  {
    seq(|res|, p requires 0 <= p < |res| => if q.start <= p < q.end then f(x[p]) else res[p])
  }

  function ApplyAll<X, R>(x: seq<X>, res: seq<R>, f: X -> R, ps: seq<Piece>): (r: seq<R>)
    requires |x| == |res|
    ensures |r| == |res|
  {
    if ps == [] then res else Apply(x, ApplyAll(x, res, f, ps[..|ps| - 1]), f, ps[|ps| - 1])
  }

  predicate Covered(ps: seq<Piece>, p: nat) {
    exists k :: 0 <= k < |ps| && ps[k].start <= p < ps[k].end
  }

  /** Whatever the order of the pieces, and whichever thread runs them, what is covered is computed once and for all
      and the rest is untouched. */
  lemma {:induction false} ApplyAllAt<X, R>(x: seq<X>, res: seq<R>, f: X -> R, ps: seq<Piece>, p: nat)
    requires |x| == |res| && p < |x|
    ensures ApplyAll(x, res, f, ps)[p] == if Covered(ps, p) then f(x[p]) else res[p]
    decreases |ps|
  {
    if ps != [] {
      hide Apply;
      var n := |ps| - 1;
      CoveredByOne(ps, p);
      ApplyAllAt(x, res, f, ps[..n], p);
    }
  }

  lemma CoveredByOne(ps: seq<Piece>, p: nat)
    requires ps != []
    ensures var n := |ps| - 1; Covered(ps, p) <==> Covered(ps[..n], p) || ps[n].start <= p < ps[n].end
  {
    var n := |ps| - 1;
    if Covered(ps, p) {
      var k :| 0 <= k < |ps| && ps[k].start <= p < ps[k].end;
      if k < n { assert ps[..n][k] == ps[k]; }
    }
    if Covered(ps[..n], p) {
      var k :| 0 <= k < n && ps[..n][k].start <= p < ps[..n][k].end;
      assert ps[k] == ps[..n][k];
    }
  }

  /** Any interleaving of the pieces of all threads computes the operation on the whole vector. */
  lemma PiecewiseIsWhole<X, R>(x: seq<X>, res: seq<R>, f: X -> R, batch: nat, threads: nat, ps: seq<Piece>)
    requires |x| == |res| && batch > 0 && threads > 0
    requires forall t {:trigger Boundary(|x|, batch, threads, t)} :: 0 <= t < threads ==>
      0 <= Boundary(|x|, batch, threads, t) && 0 <= Boundary(|x|, batch, threads, t + 1) &&
      forall q :: q in Pieces(Boundary(|x|, batch, threads, t), Boundary(|x|, batch, threads, t + 1), batch) ==> q in ps
    ensures ApplyAll(x, res, f, ps) == seq(|x|, p requires 0 <= p < |x| => f(x[p]))
  {
    hide Boundary;
    var n := |x|;
    forall p | 0 <= p < n ensures ApplyAll(x, res, f, ps)[p] == f(x[p]) {
      RangesTile(n, batch, threads, 0);
      var t := ThreadOf(n, batch, threads, p, 0);
      RangesTile(n, batch, threads, t);
      var k := PieceOf(Boundary(n, batch, threads, t), Boundary(n, batch, threads, t + 1), batch, p);
      assert Pieces(Boundary(n, batch, threads, t), Boundary(n, batch, threads, t + 1), batch)[k] in ps;
      ApplyAllAt(x, res, f, ps, p);
    }
  }

  /** All pieces of a range compute the operation on the range and leave the rest. */
  lemma PiecesDoRange<X, R>(x: seq<X>, res: seq<R>, f: X -> R, start: nat, end: nat, batch: nat)
    requires |x| == |res| && end <= |x| && batch > 0
    ensures ApplyAll(x, res, f, Pieces(start, end, batch)) ==
            seq(|x|, p requires 0 <= p < |x| => if start <= p < end then f(x[p]) else res[p])
  {
    hide Apply, ApplyAll;
    var ps := Pieces(start, end, batch);
    forall p | 0 <= p < |x| ensures ApplyAll(x, res, f, ps)[p] == if start <= p < end then f(x[p]) else res[p] {
      ApplyAllAt(x, res, f, ps, p);
      PiecesFit(start, end, batch);
      if start <= p < end { var k := PieceOf(start, end, batch, p); }
    }
  }

  lemma OnePieceMore(done: seq<Piece>, q: Piece, rest: seq<Piece>)
    ensures (done + [q])[..|done|] == done && (done + [q]) + rest == done + ([q] + rest)
  {
  }

  // ------------------------------------------------------------------- tasks

  class Task<X, R> {
    const x: array<X>
    const res: array<R>
    const f: X -> R
    const start: nat
    const end: nat
    const batchSize: nat

    ghost predicate Valid() {
      x.Length == res.Length && end <= x.Length && batchSize > 0
    }

    constructor (x: array<X>, res: array<R>, start: nat, end: nat, batchSize: nat, f: X -> R)
      requires x.Length == res.Length && end <= x.Length && batchSize > 0
      ensures Valid() && this.x == x && this.res == res && this.f == f
      ensures this.start == start && this.end == end && this.batchSize == batchSize
    {
      this.x, this.res, this.f := x, res, f;
      this.start, this.end, this.batchSize := start, end, batchSize;
    }

    /** The operation on the batch `from..to`, through the batch windows of both vectors. */
    method RunBatch(from: nat, to: nat)
      requires Valid() && from <= to <= x.Length && (x as object) != res
      modifies res
      ensures res[..] == Apply(x[..], old(res[..]), f, Piece(from, to))
      ensures forall p :: 0 <= p < res.Length ==> res[p] == if from <= p < to then f(x[p]) else old(res[..])[p]
    {
      for p := from to to
        invariant x[..] == old(x[..])
        invariant forall q {:trigger res[q]} :: 0 <= q < res.Length ==>
          res[q] == if from <= q < p then f(x[q]) else old(res[..])[q]
      {
        res[p] := f(x[p]);
      }
    }

    /** The batch loop. */
    method Execute()
      requires Valid() && (x as object) != res
      modifies res
      ensures res[..] == ApplyAll(x[..], old(res[..]), f, Pieces(start, end, batchSize))
      ensures forall p :: 0 <= p < res.Length ==> res[p] == if start <= p < end then f(x[p]) else old(res[..])[p]
    {
      hide Apply;
      ghost var pieces: seq<Piece> := [];
      var i := start;
      while i < end
        invariant start <= i && x[..] == old(x[..])
        invariant Pieces(start, end, batchSize) == pieces + Pieces(i, end, batchSize)
        invariant res[..] == ApplyAll(x[..], old(res[..]), f, pieces)
        decreases end - i
      {
        var to := if i + batchSize <= end then i + batchSize else end;
        RunBatch(i, to);
        OnePieceMore(pieces, Piece(i, to), Pieces(i + batchSize, end, batchSize));
        pieces := pieces + [Piece(i, to)];
        i := i + batchSize;
      }
      assert pieces + [] == pieces;
      PiecesDoRange(x[..], old(res[..]), f, start, end, batchSize);
      assert forall p :: 0 <= p < res.Length ==> res[p] == res[..][p];
    }
  }
}
