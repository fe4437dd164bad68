/** Index views of a vector.  The source's `VectorData` classes form chains of references down to one array; a view
    here is the chain of index maps, and an array is read and written through it. */
module Views {
  import opened Arith

  datatype View =
    | Whole(n: nat)
    | Simple(base: View, start: nat, end: int, step: nat)
    | Alternating(base: View, included: nat, excluded: nat)
    | ReversedAlternating(base: View, included: nat, excluded: nat)
    | Reversed(base: View)
    | Repeated(base: View, times: nat)
    | Cyclic(base: View, times: nat)

  function Min(a: int, b: int): (c: int) {
    if a <= b then a else b
  }

  /** Number of elements that an alternating pattern selects from `n`. */
  function AltSize(n: nat, inc: nat, chunk: nat): (s: nat)
    requires 0 < inc <= chunk
  {
    DivMod(n, chunk);
    if n / chunk < 0 then (MulMono(n / chunk, -1, chunk); 0)
    else
      MulMono(0, n / chunk, inc);
      n / chunk * inc + Min(inc, n % chunk)
  }

  function AltIndex(i: nat, inc: nat, chunk: nat): (k: int)
    requires 0 < inc <= chunk
  {
    i / inc * chunk + i % inc
  }

  function ReversedAltIndex(i: nat, inc: nat, chunk: nat, n: nat): (k: int)
    requires 0 < inc <= chunk
  {
    Min(i / inc * chunk + inc - 1, n - 1) - i % inc
  }

  /** `(end - start) / step + 1` with truncating division, but never more than the size of what is referred to.
      The range may be empty only with step 1, where the formula gives 0. */
  function SimpleSize(n: nat, start: nat, end: int, step: nat): (s: nat)
    requires step > 0 && (end >= start || (end == start - 1 && step == 1))
  {
    if end < start then 0 else
      DivMod(end - start, step);
      if (end - start) / step < 0 then (MulMono((end - start) / step, -1, step); 0)
      else Min(n, (end - start) / step + 1)
  }

  /** What the callers of the view constructors guarantee: positive chunk and step sizes, and a range inside the
      vector referred to. */
  predicate Proper(v: View)
    decreases v, 0
  {
    match v
    case Whole(_) => true
    case Simple(b, start, end, step) =>
      Proper(b) && step > 0 && end < Size(b) && (end >= start || (end == start - 1 && step == 1))
    case Alternating(b, inc, _) => Proper(b) && inc > 0
    case ReversedAlternating(b, inc, _) => Proper(b) && inc > 0
    case Reversed(b) => Proper(b)
    case Repeated(b, times) => Proper(b) && times > 0
    case Cyclic(b, _) => Proper(b)
  }

  function Size(v: View): (s: nat)
    requires Proper(v)
    decreases v, 1
  {
    match v
    case Whole(n) => n
    case Simple(b, start, end, step) => SimpleSize(Size(b), start, end, step)
    case Alternating(b, inc, exc) => AltSize(Size(b), inc, inc + exc)
    case ReversedAlternating(b, inc, exc) => AltSize(Size(b), inc, inc + exc)
    case Reversed(b) => Size(b)
    case Repeated(b, times) => Size(b) * times
    case Cyclic(b, times) => Size(b) * times
  }

  /** The index in `v.base` of element `i` of `v`. */
  function Local(v: View, i: nat): (k: int)
    requires Proper(v) && !v.Whole? && i < Size(v)
  {
    match v
    case Simple(b, start, end, step) => start + i * step
    case Alternating(b, inc, exc) => AltIndex(i, inc, inc + exc)
    case ReversedAlternating(b, inc, exc) => ReversedAltIndex(i, inc, inc + exc, Size(b))
    case Reversed(b) => Size(b) - 1 - i
    case Repeated(b, times) => i / times
    case Cyclic(b, _) => if Size(b) == 0 then 0 else i % Size(b)
  }

  // ------------------------------------------------------------------ bounds

  lemma Chunk(i: nat, n: nat, inc: nat, chunk: nat)
    requires 0 < inc <= chunk && i < AltSize(n, inc, chunk)
    ensures var c, r, t, u := i / inc, i % inc, n / chunk, n % chunk;
      && 0 <= c <= t && 0 <= r < inc && i == c * inc + r && n == t * chunk + u && 0 <= u
      && (c == t ==> r < Min(inc, u))
      && (c < t ==> c * chunk + chunk <= t * chunk)
      && 0 <= c * chunk
  {
    DivMod(i, inc);
    DivMod(n, chunk);
    ChunkOf(i, n, inc, chunk, i / inc, i % inc, n / chunk, n % chunk);
  }

  /** The same in terms of quotients and remainders. */
  lemma ChunkOf(i: nat, n: nat, inc: nat, chunk: nat, c: int, r: int, t: int, u: int)
    requires 0 < inc <= chunk && i == c * inc + r && 0 <= r < inc && n == t * chunk + u && 0 <= u < chunk
    requires t >= 0 ==> i < t * inc + Min(inc, u)
    ensures 0 <= c <= t && (c == t ==> r < Min(inc, u)) && (c < t ==> c * chunk + chunk <= t * chunk) && 0 <= c * chunk
  {
    if c < 0 { MulMono(c, -1, inc); }
    if t < 0 { MulMono(t, -1, chunk); }
    if c > t { MulMono(t + 1, c, inc); }
    if c < t { MulMono(c + 1, t, chunk); }
    MulMono(0, c, chunk);
  }

  lemma SimpleInBounds(i: nat, n: nat, start: nat, end: int, step: nat)
    requires step > 0 && start <= end < n && i < SimpleSize(n, start, end, step)
    ensures start + i * step < n && 0 <= i * step
  {
    DivMod(end - start, step);
    MulMono(i, (end - start) / step, step);
    MulMono(0, i, step);
  }

  lemma RepeatedInBounds(i: nat, n: nat, times: nat)
    requires times > 0 && i < n * times
    ensures 0 <= i / times < n
  {
    DivMod(i, times);
    if i / times < 0 { MulMono(i / times, -1, times); }
    if i / times >= n { MulMono(n, i / times, times); }
  }

  lemma LocalInBounds(v: View, i: nat)
    requires Proper(v) && !v.Whole? && i < Size(v)
    ensures 0 <= Local(v, i) < Size(v.base)
  {
    hide SimpleSize, AltSize;
    var n := Size(v.base);
    match v
    case Simple(b, start, end, step) => SimpleBounds(i, n, start, end, step);
    case Alternating(b, inc, exc) => AltInBounds(i, n, inc, inc + exc);
    case ReversedAlternating(b, inc, exc) => AltInBounds(i, n, inc, inc + exc);
    case Reversed(b) =>
    case Repeated(b, times) => RepeatedInBounds(i, n, times);
    case Cyclic(b, times) => if n > 0 { DivMod(i, n); }
  }

  lemma SimpleBounds(i: nat, n: nat, start: nat, end: int, step: nat)
    requires step > 0 && (end >= start || (end == start - 1 && step == 1)) && end < n
      && i < SimpleSize(n, start, end, step)
    ensures 0 <= start + i * step < n
  {
    SimpleInBounds(i, n, start, end, step);
  }

  lemma AltInBounds(i: nat, n: nat, inc: nat, chunk: nat)
    requires 0 < inc <= chunk && i < AltSize(n, inc, chunk)
    ensures 0 <= AltIndex(i, inc, chunk) < n && 0 <= ReversedAltIndex(i, inc, chunk, n) < n
  {
    Chunk(i, n, inc, chunk);
    hide AltSize;
  }

  function Length(v: View): (n: nat) {
    if v.Whole? then v.n else Length(v.base)
  }

  /** The array index of element `i`. */
  function At(v: View, i: nat): (k: nat)
    requires Proper(v) && i < Size(v)
    ensures k < Length(v)
  {
    if v.Whole? then i else
      LocalInBounds(v, i);
      At(v.base, Local(v, i))
  }

  // ------------------------------------------------------- which element is read

  /** Element `j` of a stepped range is the element `j` steps after its start. */
  lemma SimpleReads(b: View, start: nat, end: int, step: nat, j: nat)
    requires Proper(Simple(b, start, end, step)) && j < Size(Simple(b, start, end, step))
    ensures 0 <= start + j * step < Size(b)
    ensures At(Simple(b, start, end, step), j) == At(b, start + j * step)
  {
    LocalInBounds(Simple(b, start, end, step), j);
  }

  /** An alternating view reads `inc` elements and leaves out `exc`; the reversed one reads each chunk backwards, the
      last one as far as it goes. */
  lemma AlternatingReads(b: View, inc: nat, exc: nat, c: nat, r: nat)
    requires Proper(Alternating(b, inc, exc)) && r < inc && 0 <= c * inc + r < Size(Alternating(b, inc, exc))
    ensures 0 <= c * (inc + exc) + r < Size(b)
    ensures At(Alternating(b, inc, exc), c * inc + r) == At(b, c * (inc + exc) + r)
    ensures var last := Min(c * (inc + exc) + inc, Size(b)) - 1;
      0 <= last - r < Size(b) && At(ReversedAlternating(b, inc, exc), c * inc + r) == At(b, last - r)
  {
    LocalInBounds(Alternating(b, inc, exc), c * inc + r);
    LocalInBounds(ReversedAlternating(b, inc, exc), c * inc + r);
    DivModUnique(c * inc + r, inc, c, r);
  }

  lemma ReversedReads(b: View, j: nat)
    requires Proper(b) && j < Size(b)
    ensures At(Reversed(b), j) == At(b, Size(b) - 1 - j)
  {
  }

  /** A repeated view reads every element `times` times before the next one. */
  lemma RepeatedReads(b: View, times: nat, j: nat, r: nat)
    requires Proper(b) && j < Size(b) && r < times
    ensures 0 <= j * times + r < Size(Repeated(b, times)) && At(Repeated(b, times), j * times + r) == At(b, j)
  {
    InBlock(j, Size(b), times, r);
  }

  /** Position `r` of block `j` of `blocks` blocks of `size`. */
  lemma InBlock(j: nat, blocks: nat, size: nat, r: nat)
    requires j < blocks && r < size
    ensures 0 <= j * size + r < blocks * size == size * blocks
    ensures (j * size + r) / size == j && (j * size + r) % size == r
  {
    MulMono(0, j, size);
    MulMono(j + 1, blocks, size);
    DivModUnique(j * size + r, size, j, r);
  }

  /** A cyclic view reads all elements `times` times over. */
  lemma CyclicReads(b: View, times: nat, j: nat, r: nat)
    requires Proper(b) && j < times && r < Size(b)
    ensures 0 <= j * Size(b) + r < Size(Cyclic(b, times))
    ensures At(Cyclic(b, times), j * Size(b) + r) == At(b, r)
  {
    InBlock(j, times, Size(b), r);
    CyclicLocal(b, times, j * Size(b) + r);
  }

  lemma CyclicLocal(b: View, times: nat, i: nat)
    requires Proper(b) && 0 < Size(b) && i < Size(Cyclic(b, times))
    ensures 0 <= i % Size(b) < Size(b) && At(Cyclic(b, times), i) == At(b, i % Size(b))
  {
    LocalInBounds(Cyclic(b, times), i);
  }

  // --------------------------------------------------------------- injectivity

  /** A view through which no array cell is reached twice, so that it can be assigned through. */
  predicate Assignable(v: View) {
    match v
    case Whole(_) => true
    case Simple(b, _, _, _) => Assignable(b)
    case Alternating(b, _, _) => Assignable(b)
    case ReversedAlternating(b, _, _) => Assignable(b)
    case Reversed(b) => Assignable(b)
    case Repeated(b, times) => Assignable(b) && times == 1
    case Cyclic(b, times) => Assignable(b) && times == 1
  }

  /** Both patterns stay inside the included part of their chunk. */
  lemma InsideChunk(i: nat, n: nat, inc: nat, chunk: nat)
    requires 0 < inc <= chunk && i < AltSize(n, inc, chunk)
    ensures var base := i / inc * chunk;
      && base <= AltIndex(i, inc, chunk) < base + inc
      && AltIndex(i, inc, chunk) == base + i % inc
      && base <= ReversedAltIndex(i, inc, chunk, n) < base + inc
      && ReversedAltIndex(i, inc, chunk, n) == base + Min(inc, n - base) - 1 - i % inc
  {
    Chunk(i, n, inc, chunk);
  }

  lemma RangesApart(c: int, d: int, x: int, y: int, inc: nat, chunk: nat)
    requires c != d && 0 < inc <= chunk
    requires c * chunk <= x < c * chunk + inc && d * chunk <= y < d * chunk + inc
    ensures x != y
  {
    if c < d { MulMono(c + 1, d, chunk); } else { MulMono(d + 1, c, chunk); }
  }

  /** Elements of different chunks are mapped to different places. */
  lemma ChunksApart(i: nat, j: nat, n: nat, inc: nat, chunk: nat)
    requires 0 < inc <= chunk && i < AltSize(n, inc, chunk) && j < AltSize(n, inc, chunk) && i != j
    ensures AltIndex(i, inc, chunk) != AltIndex(j, inc, chunk)
    ensures ReversedAltIndex(i, inc, chunk, n) != ReversedAltIndex(j, inc, chunk, n)
  {
    hide AltSize, AltIndex, ReversedAltIndex;
    InsideChunk(i, n, inc, chunk);
    InsideChunk(j, n, inc, chunk);
    DivMod(i, inc);
    DivMod(j, inc);
    if i / inc != j / inc {
      RangesApart(i / inc, j / inc, AltIndex(i, inc, chunk), AltIndex(j, inc, chunk), inc, chunk);
      RangesApart(i / inc, j / inc, ReversedAltIndex(i, inc, chunk, n), ReversedAltIndex(j, inc, chunk, n), inc, chunk);
    }
  }

  lemma MultiplesApart(i: int, j: int, step: nat)
    requires step > 0 && i * step == j * step
    ensures i == j
  {
    assert (i - j) * step == 0;
    if i > j { MulMono(1, i - j, step); } else if i < j { MulMono(1, j - i, step); }
  }

  lemma LocalInjective(v: View, i: nat, j: nat)
    requires Proper(v) && Assignable(v) && !v.Whole? && i < Size(v) && j < Size(v)
    requires Local(v, i) == Local(v, j)
    ensures i == j
  {
    var n := Size(v.base);
    if i != j {
      match v
      case Simple(b, start, end, step) => MultiplesApart(i, j, step);
      case Alternating(b, inc, exc) => ChunksApart(i, j, n, inc, inc + exc);
      case ReversedAlternating(b, inc, exc) => ChunksApart(i, j, n, inc, inc + exc);
      case Reversed(b) =>
      case Repeated(b, times) => DivModUnique(i, 1, i, 0); DivModUnique(j, 1, j, 0);
      case Cyclic(b, times) => DivModUnique(i, n, 0, i); DivModUnique(j, n, 0, j);
    }
  }

  /** Every element of an assignable view is a cell of its own. */
  lemma {:induction false} AtInjective(v: View, i: nat, j: nat)
    requires Proper(v) && Assignable(v) && i < Size(v) && j < Size(v) && At(v, i) == At(v, j)
    ensures i == j
  {
    if !v.Whole? {
      LocalInBounds(v, i);
      LocalInBounds(v, j);
      AtInjective(v.base, Local(v, i), Local(v, j));
      LocalInjective(v, i, j);
    }
  }

  // ------------------------------------------------------ reversed alternation

  /** The number of selected elements in chunk `c`. */
  function ChunkLength(c: int, n: nat, inc: nat, chunk: nat): (k: int)
    requires 0 < inc <= chunk
  {
    if c < n / chunk then inc else Min(inc, n % chunk)
  }

  /** The position in the same chunk, counted from its other end; the last chunk may be partial. */
  function Mirror(i: nat, n: nat, inc: nat, chunk: nat): (k: int)
    requires 0 < inc <= chunk
  {
    var c := i / inc;
    c * inc + ChunkLength(c, n, inc, chunk) - 1 - i % inc
  }

  /** A reversed alternating view visits the positions of the alternating one, each chunk in reverse. */
  lemma ReversedVisitsMirror(i: nat, n: nat, inc: nat, chunk: nat)
    requires 0 < inc <= chunk && i < AltSize(n, inc, chunk)
    ensures 0 <= Mirror(i, n, inc, chunk) < AltSize(n, inc, chunk)
    ensures ReversedAltIndex(i, inc, chunk, n) == AltIndex(Mirror(i, n, inc, chunk), inc, chunk)
    ensures Mirror(Mirror(i, n, inc, chunk), n, inc, chunk) == i
  {
    MirrorInside(i, n, inc, chunk);
    hide AltSize, Mirror;
    Chunk(i, n, inc, chunk);
    InsideChunk(i, n, inc, chunk);
  }

  lemma MirrorInside(i: nat, n: nat, inc: nat, chunk: nat)
    requires 0 < inc <= chunk && i < AltSize(n, inc, chunk)
    ensures var k, len := Mirror(i, n, inc, chunk), ChunkLength(i / inc, n, inc, chunk);
      && 0 <= k < AltSize(n, inc, chunk) && k / inc == i / inc && k % inc == len - 1 - i % inc
      && Mirror(k, n, inc, chunk) == i
      && len == Min(inc, n - i / inc * chunk)
  {
    Chunk(i, n, inc, chunk);
    var c, r, t, u := i / inc, i % inc, n / chunk, n % chunk;
    var len, k := ChunkLength(c, n, inc, chunk), Mirror(i, n, inc, chunk);
    MirrorOf(n, inc, chunk, c, r, t, u, len);
    DivModUnique(k, inc, c, len - 1 - r);
  }

  lemma MirrorOf(n: nat, inc: nat, chunk: nat, c: int, r: int, t: int, u: int, len: int)
    requires 0 < inc <= chunk && 0 <= c <= t && 0 <= r < inc && n == t * chunk + u && 0 <= u < chunk
    requires len == (if c < t then inc else Min(inc, u)) && (c == t ==> r < Min(inc, u))
    requires c < t ==> c * chunk + chunk <= t * chunk
    ensures 0 <= c * inc + (len - 1 - r) < t * inc + Min(inc, u) && 0 <= len - 1 - r < inc
    ensures len == Min(inc, n - c * chunk)
  {
    MulMono(0, c, inc);
    if c < t { MulMono(c + 1, t, inc); }
  }
}
