/** A fixed-size circular buffer: each region it hands out may wrap around the end of
    the storage and so consists of two buffers. */
module CircularBuffers {
  import opened Regions

  /** Cell number x of the ring, for x below twice the capacity. */
  function Wrap(x: nat, cap: nat): nat {
    if x < cap then x else if x < 2 * cap then x - cap else 0
  }

  lemma ModIsWrap(x: nat, cap: nat)
    requires 0 < cap && x < 2 * cap
    ensures x % cap == Wrap(x, cap)
  {
    var q := x / cap;
    assert x == cap * q + x % cap;
    if q >= 2 {
      MulGrows(cap, q);
    }
    assert q == 0 || q == 1;
  }

  lemma MulGrows(a: nat, q: nat)
    requires q >= 2
    ensures a * q >= 2 * a
  {
    assert a * q == 2 * a + a * (q - 2);
  }

  /** n consecutive cells of the ring from position pos. */
  function Span(base: nat, cap: nat, pos: nat, n: nat): (c: seq<nat>)
    ensures |c| == n && forall k :: 0 <= k < n ==> c[k] == base + Wrap(pos + k, cap)
  {
    if n == 0 then [] else Span(base, cap, pos, n - 1) + [base + Wrap(pos + n - 1, cap)]
  }

  /** The two buffers covering n cells from pos: split at the end of the storage. */
  function Split(base: nat, cap: nat, pos: nat, n: nat): (r: seq<Region>)
    requires pos <= cap
    ensures |r| == 2
  {
    if pos + n <= cap then [Region(base + pos, n), Region(base, 0)]
    else [Region(base + pos, cap - pos), Region(base, n - (cap - pos))]
  }

  datatype Ring = Ring(base: nat, cap: nat, inPos: nat, inLen: nat, outSize: nat) {
    ghost predicate Valid() {
      && inLen + outSize <= cap
      && (if cap == 0 then inPos == 0 else inPos < cap)
    }

    /** Where the writable bytes start. */
    function OutPos(): nat {
      Wrap(inPos + inLen, cap)
    }

    function Data(): seq<Region>
      requires inPos <= cap
    {
      Split(base, cap, inPos, inLen)
    }

    /** The buffers the last prepare returned. */
    function Prepared(): seq<Region>
      requires inPos <= cap
    {
      Split(base, cap, OutPos(), outSize)
    }

    function Prepare(n: nat): Ring {
      this.(outSize := n)
    }

    function Commit(n: nat): Ring {
      this.(inLen := inLen + Min(n, outSize), outSize := 0)
    }

    function Consume(n: nat): Ring {
      var k := Min(n, inLen);
      if k == inLen && outSize == 0 then this.(inPos := 0, inLen := 0)
      else this.(inPos := Wrap(inPos + k, cap), inLen := inLen - k)
    }
  }

  function Fresh(base: nat, cap: nat, inLen: nat): Ring {
    Ring(base, cap, 0, inLen, 0)
  }

  // ---- the cells behind the regions

  lemma SplitCells(base: nat, cap: nat, pos: nat, n: nat)
    requires pos <= cap && n <= cap && (pos == cap ==> n == 0)
    ensures CellsOf(Split(base, cap, pos, n)) == Span(base, cap, pos, n)
  {
    hide CellsOf;
    var r := Split(base, cap, pos, n);
    assert r == [r[0]] + [r[1]];
    CellsSnoc([r[0]], r[1]);
    CellsOne(r[0]);
    assert r[0].Cells() + r[1].Cells() == Span(base, cap, pos, n);
  }

  lemma SpanConcat(base: nat, cap: nat, pos: nat, a: nat, b: nat)
    requires a + b <= cap && (a + b > 0 ==> pos < cap)
    ensures Span(base, cap, pos, a + b) == Span(base, cap, pos, a) + Span(base, cap, Wrap(pos + a, cap), b)
  {
  }

  /** The readable cells and the prepared cells are consecutive on the ring. */
  lemma RegionCells(r: Ring)
    requires r.Valid()
    ensures CellsOf(r.Data()) == Span(r.base, r.cap, r.inPos, r.inLen)
    ensures CellsOf(r.Prepared()) == Span(r.base, r.cap, r.OutPos(), r.outSize)
    ensures CellsOf(r.Data()) + CellsOf(r.Prepared()) == Span(r.base, r.cap, r.inPos, r.inLen + r.outSize)
  {
    hide CellsOf, Split, Span;
    SplitCells(r.base, r.cap, r.inPos, r.inLen);
    SplitCells(r.base, r.cap, r.OutPos(), r.outSize);
    SpanConcat(r.base, r.cap, r.inPos, r.inLen, r.outSize);
  }

  lemma SpanDistinct(base: nat, cap: nat, pos: nat, n: nat)
    requires n <= cap && (n > 0 ==> pos < cap)
    ensures Distinct(Span(base, cap, pos, n)) && Inside(Span(base, cap, pos, n), base, base + cap)
  {
  }

  ghost predicate Inside(c: seq<nat>, lo: nat, hi: nat) {
    forall i :: 0 <= i < |c| ==> lo <= c[i] < hi
  }

  lemma InsideParts(a: seq<nat>, b: seq<nat>, lo: nat, hi: nat)
    requires Inside(a + b, lo, hi)
    ensures Inside(a, lo, hi) && Inside(b, lo, hi)
  {
    assert forall i :: 0 <= i < |a| ==> a[i] == (a + b)[i];
    assert forall i :: 0 <= i < |b| ==> b[i] == (a + b)[|a| + i];
  }

  /** Readable and prepared regions are inside the storage and share no cell, and no
      cell occurs twice in either. */
  lemma RegionsSeparate(r: Ring)
    requires r.Valid()
    ensures Apart(CellsOf(r.Data()), CellsOf(r.Prepared()))
    ensures Distinct(CellsOf(r.Data())) && Distinct(CellsOf(r.Prepared()))
    ensures Inside(CellsOf(r.Data()), r.base, r.base + r.cap)
    ensures Inside(CellsOf(r.Prepared()), r.base, r.base + r.cap)
  {
    hide CellsOf, Ring.Data, Ring.Prepared;
    RegionCells(r);
    SpanDistinct(r.base, r.cap, r.inPos, r.inLen + r.outSize);
    DistinctParts(CellsOf(r.Data()), CellsOf(r.Prepared()));
    InsideParts(CellsOf(r.Data()), CellsOf(r.Prepared()), r.base, r.base + r.cap);
  }

  lemma DistinctParts(a: seq<nat>, b: seq<nat>)
    requires Distinct(a + b)
    ensures Distinct(a) && Distinct(b) && Apart(a, b)
  {
    assert forall i :: 0 <= i < |a| ==> a[i] == (a + b)[i];
    assert forall i :: 0 <= i < |b| ==> b[i] == (a + b)[|a| + i];
  }

  // ---- what the operations do to the regions

  lemma PrepareCells(r: Ring, n: nat)
    requires r.Valid() && n <= r.cap - r.inLen
    ensures var q := r.Prepare(n);
            q.Valid() && q.Data() == r.Data() && |CellsOf(q.Prepared())| == n
  {
    RegionCells(r.Prepare(n));
  }

  /** Commit moves a prefix of the prepared cells behind the readable ones; the readable
      cells handed out before keep their place. */
  lemma CommitCells(r: Ring, n: nat)
    requires r.Valid()
    ensures var q := r.Commit(n);
            && q.Valid()
            && CellsOf(q.Data()) == CellsOf(r.Data()) + Take(CellsOf(r.Prepared()), n)
            && CellsOf(q.Prepared()) == []
  {
    hide CellsOf, Split, Span, Take;
    var q, k := r.Commit(n), Min(n, r.outSize);
    RegionCells(r);
    RegionCells(q);
    if r.cap > 0 {
      SpanConcat(r.base, r.cap, r.inPos, r.inLen, k);
      SpanConcat(r.base, r.cap, r.OutPos(), k, r.outSize - k);
    }
    TakePart(Span(r.base, r.cap, r.OutPos(), r.outSize), Span(r.base, r.cap, r.OutPos(), k), n);
  }

  lemma TakePart<T>(c: seq<T>, a: seq<T>, n: nat)
    requires a <= c && |a| == Min(n, |c|)
    ensures Take(c, n) == a
  {
  }

  lemma DropPart<T>(c: seq<T>, a: seq<T>, b: seq<T>, n: nat)
    requires c == a + b && |a| == Min(n, |c|)
    ensures Drop(c, n) == b
  {
  }

  /** Consume drops readable cells at the front and leaves the prepared cells where they
      are, even when everything readable is consumed. */
  lemma ConsumeCells(r: Ring, n: nat)
    requires r.Valid()
    ensures var q := r.Consume(n);
            && q.Valid()
            && CellsOf(q.Data()) == Drop(CellsOf(r.Data()), n)
            && CellsOf(q.Prepared()) == CellsOf(r.Prepared())
  {
    hide CellsOf, Split, Span, Drop;
    var q, k := r.Consume(n), Min(n, r.inLen);
    RegionCells(r);
    RegionCells(q);
    var a, b := Span(r.base, r.cap, r.inPos, k), Span(r.base, r.cap, q.inPos, q.inLen);
    if r.cap > 0 {
      SpanConcat(r.base, r.cap, r.inPos, k, r.inLen - k);
    }
    assert Span(r.base, r.cap, r.inPos, r.inLen) == a + b;
    DropPart(Span(r.base, r.cap, r.inPos, r.inLen), a, b, n);
  }

  /** Any number of consumes leaves the prepared cells in place. */
  lemma {:induction false} PreparedSurvives(r: Ring, ns: seq<nat>)
    requires r.Valid()
    ensures var q := ConsumeAll(r, ns);
            q.Valid() && q.outSize == r.outSize && CellsOf(q.Prepared()) == CellsOf(r.Prepared())
    decreases |ns|
  {
    hide CellsOf, Ring.Prepared, Ring.Data;
    if ns != [] {
      ConsumeCells(r, ns[0]);
      PreparedSurvives(r.Consume(ns[0]), ns[1..]);
    }
  }

  function ConsumeAll(r: Ring, ns: seq<nat>): Ring
    decreases |ns|
  {
    if ns == [] then r else ConsumeAll(r.Consume(ns[0]), ns[1..])
  }

  /** Consuming everything with nothing prepared makes room in one piece: any accepted
      prepare then returns a single contiguous region. */
  lemma PrepareAfterEmptying(r: Ring, n: nat, m: nat)
    requires r.Valid() && r.outSize == 0 && n >= r.inLen && m <= r.cap
    ensures r.Consume(n).Prepare(m).Prepared() == [Region(r.base, m), Region(r.base, 0)]
  {
  }

  // ---- machine arithmetic

  const TWO_64: nat := 0x1_0000_0000_0000_0000
  const TWO_63: nat := 0x8000_0000_0000_0000

  /** Every sum that data, prepare(n), commit(n) and consume(n) form fits in 64 bits. */
  ghost predicate SumsFit(r: Ring, n: nat) {
    && r.inPos + r.inLen < TWO_64
    && (n <= r.cap - r.inLen ==> r.OutPos() + n < TWO_64)
    && r.inLen + Min(n, r.outSize) < TWO_64
    && (n < r.inLen ==> r.inPos + n < TWO_64)
  }

  /** No sum overflows in any valid state, for every capacity up to 2^63 ... */
  lemma NoOverflow(r: Ring, n: nat)
    requires r.Valid() && r.cap <= TWO_63
    ensures SumsFit(r, n)
  {
  }

  /** ... and for every larger capacity this short run reaches a state where one does. */
  lemma OverflowReached(base: nat, cap: nat)
    requires TWO_63 < cap < TWO_64
    ensures var r := Fresh(base, cap, 0).Prepare(cap).Commit(cap).Consume(cap - 1).Prepare(cap - 1).Commit(cap - 1);
            r.Valid() && !SumsFit(r, 0)
  {
  }

  /** So 2^63 is the exact bound. */
  lemma OverflowExactly(base: nat, cap: nat)
    requires cap < TWO_64
    ensures cap <= TWO_63 <==>
            forall r: Ring, n: nat :: r.Valid() && r.base == base && r.cap == cap ==> SumsFit(r, n)
  {
    if cap <= TWO_63 {
      forall r: Ring, n: nat | r.Valid() && r.base == base && r.cap == cap ensures SumsFit(r, n) {
        NoOverflow(r, n);
      }
    } else {
      OverflowReached(base, cap);
      var r := Fresh(base, cap, 0).Prepare(cap).Commit(cap).Consume(cap - 1).Prepare(cap - 1).Commit(cap - 1);
      assert r.Valid() && r.base == base && r.cap == cap && !SumsFit(r, 0);
    }
  }

  // ---- the class

  datatype PrepareResult = Buffers(bs: seq<Region>) | LengthError

  class CircularBuffer {
    const base: nat
    const cap: nat
    var inPos: nat
    var inLen: nat
    var outSize: nat

    ghost function State(): Ring
      reads this
    {
      Ring(base, cap, inPos, inLen, outSize)
    }

    constructor (base: nat, cap: nat)
      ensures State() == Fresh(base, cap, 0) && State().Valid()
    {
      this.base, this.cap, inPos, inLen, outSize := base, cap, 0, 0, 0;
    }

    constructor WithSize(base: nat, cap: nat, initialSize: nat)
      requires initialSize <= cap
      ensures State() == Fresh(base, cap, initialSize) && State().Valid()
    {
      this.base, this.cap, inPos, inLen, outSize := base, cap, 0, initialSize, 0;
    }

    method Data() returns (r: seq<Region>)
      requires State().Valid()
      ensures r == State().Data()
    {
      if inPos + inLen <= cap {
        return [Region(base + inPos, inLen), Region(base, 0)];
      }
      return [Region(base + inPos, cap - inPos), Region(base, inLen - (cap - inPos))];
    }

    /** The remainder by cap_ is taken only for an accepted n, so a zero capacity is a
        division by zero for n == 0 alone. */
    method Prepare(n: nat) returns (r: PrepareResult)
      requires State().Valid() && (cap > 0 || n > 0)
      modifies this
      ensures State().Valid()
      ensures r.Buffers? <==> n <= cap - old(inLen)
      ensures State() == if r.Buffers? then old(State()).Prepare(n) else old(State())
      ensures r.Buffers? ==> r.bs == State().Prepared() && |CellsOf(r.bs)| == n
      ensures State().Data() == old(State()).Data()
    {
      if n > cap - inLen {
        return LengthError;
      }
      PrepareCells(State(), n);
      outSize := n;
      ModIsWrap(inPos + inLen, cap);
      var pos := (inPos + inLen) % cap;
      if pos + n <= cap {
        return Buffers([Region(base + pos, n), Region(base, 0)]);
      }
      return Buffers([Region(base + pos, cap - pos), Region(base, n - (cap - pos))]);
    }

    method Commit(n: nat)
      requires State().Valid()
      modifies this
      ensures State().Valid() && State() == old(State()).Commit(n)
      ensures CellsOf(State().Data()) == CellsOf(old(State()).Data()) + Take(CellsOf(old(State()).Prepared()), n)
    {
      hide CellsOf, Split;
      CommitCells(State(), n);
      if n < outSize {
        inLen := inLen + n;
      } else {
        inLen := inLen + outSize;
      }
      outSize := 0;
    }

    method Consume(n: nat)
      requires State().Valid()
      modifies this
      ensures State().Valid() && State() == old(State()).Consume(n)
      ensures CellsOf(State().Data()) == Drop(CellsOf(old(State()).Data()), n)
      ensures CellsOf(State().Prepared()) == CellsOf(old(State()).Prepared())
    {
      hide CellsOf, Split;
      ConsumeCells(State(), n);
      if n < inLen {
        ModIsWrap(inPos + n, cap);
        inPos := (inPos + n) % cap;
        inLen := inLen - n;
      } else {
        if outSize != 0 {
          ModIsWrap(inPos + inLen, cap);
          inPos := (inPos + inLen) % cap;
          inLen := 0;
        } else {
          inPos := 0;
          inLen := 0;
        }
      }
    }
  }

  lemma FreshCells(base: nat, cap: nat, initialSize: nat)
    requires initialSize <= cap
    ensures Fresh(base, cap, initialSize).Valid()
    ensures CellsOf(Fresh(base, cap, initialSize).Data()) == Region(base, initialSize).Cells()
  {
    hide CellsOf;
    var a, b := Region(base, initialSize), Region(base, 0);
    CellsOne(a);
    CellsSnoc([a], b);
    assert [a] + [b] == [a, b];
  }

  datatype MakeResult = Made(b: CircularBuffer) | InvalidArgument

  /** The constructor with readable bytes already in the storage. */
  method MakeCircular(base: nat, cap: nat, initialSize: nat) returns (r: MakeResult)
    ensures r.Made? <==> initialSize <= cap
    ensures r.Made? ==>
              && fresh(r.b) && r.b.State() == Fresh(base, cap, initialSize) && r.b.State().Valid()
              && CellsOf(r.b.State().Data()) == Region(base, initialSize).Cells()
  {
    if initialSize > cap {
      return InvalidArgument;
    }
    var b := new CircularBuffer.WithSize(base, cap, initialSize);
    FreshCells(base, cap, initialSize);
    return Made(b);
  }
}
