/** The type-erased dynamic buffer: a wrapped buffer and a cache of its regions. */
module DynamicBuffers {
  import opened Regions
  import opened CircularBuffers
  import opened QueueRuns

  /** Capacity of the cached arrays. */
  const N := 8

  /** unroll(): the first len buffers of a sequence, written to an array. */
  method Unroll(bs: seq<Region>, dest: array<Region>, len: nat) returns (i: nat)
    requires 0 < len <= dest.Length
    modifies dest
    ensures i == Min(|bs|, len)
    ensures dest[..i] == Take(bs, len) && dest[i..] == old(dest[i..])
  {
    i := 0;
    var it := 0;
    while it != |bs|
      invariant i == it <= |bs| && i < len
      invariant dest[..i] == bs[..i] && dest[i..] == old(dest[i..])
    {
      ghost var before := dest[..];
      dest[i] := bs[it];
      assert dest[..i] == before[..i] && dest[i + 1..] == before[i..][1..];
      i := i + 1;
      assert dest[..i] == dest[..i - 1] + [bs[i - 1]];
      if i == len {
        break;
      }
      it := it + 1;
    }
  }

  /** any_dynamic_buffer_impl over a circular buffer. */
  class AnyDynamicBuffer {
    const b: CircularBuffer
    const data: array<Region>
    const out: array<Region>
    var dataLen: nat
    var outLen: nat

    ghost predicate Valid()
      reads this, b
    {
      b.State().Valid() && data.Length == out.Length == N && data != out && dataLen <= N && outLen <= N
    }

    /** What data() returns. */
    ghost function Cached(): seq<Region>
      requires dataLen <= data.Length
      reads this, data
    {
      data[..dataLen]
    }

    constructor (b: CircularBuffer)
      requires b.State().Valid()
      ensures this.b == b && Valid() && fresh(data) && fresh(out) && Cached() == []
      ensures data.Length == out.Length == 8
    {
      this.b := b;
      data := new Region[N];
      out := new Region[N];
      dataLen, outLen := 0, 0;
    }

    method Data() returns (r: seq<Region>)
      requires Valid()
      ensures r == Cached()
    {
      return data[..dataLen];
    }

    /** Hands out all of the wrapped buffer's region; the cache of data() is not
        refreshed, and what it caches has not moved. */
    method Prepare(n: nat) returns (r: PrepareResult)
      requires Valid() && (b.cap > 0 || n > 0)
      modifies this, b, out
      ensures Valid()
      ensures r.Buffers? <==> n <= b.cap - old(b.inLen)
      ensures b.State() == if r.Buffers? then old(b.State()).Prepare(n) else old(b.State())
      ensures r.Buffers? ==> r.bs == b.State().Prepared()
      ensures Cached() == old(Cached()) && b.State().Data() == old(b.State()).Data()
    {
      var p := b.Prepare(n);
      if p.LengthError? {
        return p;
      }
      outLen := Unroll(p.bs, out, N);
      assert Take(p.bs, N) == p.bs;
      return Buffers(out[..outLen]);
    }

    method Commit(n: nat)
      requires Valid()
      modifies this, b, data
      ensures Valid() && b.State() == old(b.State()).Commit(n)
      ensures Cached() == b.State().Data()
    {
      b.Commit(n);
      var bs := b.Data();
      dataLen := Unroll(bs, data, N);
      assert Take(bs, N) == bs;
    }

    method Consume(n: nat)
      requires Valid()
      modifies this, b, data
      ensures Valid() && b.State() == old(b.State()).Consume(n)
      ensures Cached() == b.State().Data()
    {
      b.Consume(n);
      var bs := b.Data();
      dataLen := Unroll(bs, data, N);
      assert Take(bs, N) == bs;
    }
  }

  // ---- cache coherence over runs

  /** The wrapped buffer with its client; the cached buffers and the number of the
      allocation they point into. */
  datatype Wrapped = Wrapped(w: World, cache: seq<Region>, stamp: nat)

  /** The cached buffers cover the readable cells, and none is left dangling. */
  ghost predicate Coherent(a: Wrapped)
    requires a.w.d.Valid()
  {
    CellsOf(a.cache) == a.w.d.Ready() && (a.w.d.Ready() == [] || a.stamp == a.w.d.Allocation())
  }

  predicate Refreshes(op: Op) {
    op.Commits? || op.Consumes?
  }

  /** A prepare that may move the characters of a string. */
  predicate Moves(d: Dyn, op: Op) {
    op.Prepares? && d.Accepts(op.n) && d.Grows(op.n)
  }

  ghost function NextWrapped(a: Wrapped, op: Op): Wrapped
    requires Handled(a.w) && Allowed(a.w, op)
  {
    NextStaged(a.w, op);
    var w := Next(a.w, op);
    if Refreshes(op) then Wrapped(w, Take(w.d.Data(), N), w.d.Allocation()) else a.(w := w)
  }

  ghost function RunWrapped(a: Wrapped, ops: seq<Op>): Wrapped
    requires Handled(a.w) && Legal(a.w, ops)
    decreases |ops|
  {
    if ops == [] then a
    else
      NextStaged(a.w, ops[0]);
      RunWrapped(NextWrapped(a, ops[0]), ops[1..])
  }

  /** There has been a commit or consume, and since the last one no prepare has moved the
      readable bytes; right says whether that held before the run. */
  ghost predicate StillRight(right: bool, w: World, ops: seq<Op>)
    requires Handled(w) && Legal(w, ops)
    decreases |ops|
  {
    if ops == [] then right
    else
      NextStaged(w, ops[0]);
      StillRight(Refreshes(ops[0]) || (right && !Moves(w.d, ops[0])), Next(w, ops[0]), ops[1..])
  }

  /** What the wrapper does in each call: only commit and consume touch the cache. */
  lemma NextWrappedIs(a: Wrapped, op: Op)
    requires Handled(a.w) && Allowed(a.w, op)
    ensures var b := NextWrapped(a, op);
            && Handled(b.w) && b.w == Next(a.w, op)
            && match op
               case Prepares(_) => b.cache == a.cache && b.stamp == a.stamp
               case Writes(_, _) => b.cache == a.cache && b.stamp == a.stamp
               case Commits(_) => b.cache == b.w.d.Data() && b.stamp == b.w.d.Allocation()
               case Consumes(_) => b.cache == b.w.d.Data() && b.stamp == b.w.d.Allocation()
  {
    hide CellsOf, Next, Allowed, Dyn.Data;
    NextStaged(a.w, op);
    DataFits(Next(a.w, op).d);
  }

  lemma DataFits(d: Dyn)
    requires d.Valid()
    ensures Take(d.Data(), N) == d.Data()
  {
  }

  lemma NextKeepsData(w: World, op: Op)
    requires Handled(w) && Allowed(w, op) && !Refreshes(op)
    ensures Next(w, op).d.Valid() && Next(w, op).d.Data() == w.d.Data()
    ensures Next(w, op).d.Allocation() == w.d.Allocation() + if Moves(w.d, op) then 1 else 0
  {
    hide CellsOf, Poke;
    NextStaged(w, op);
    if op.Prepares? && w.d.Accepts(op.n) {
      PrepareLaw(w.d, op.n);
    }
  }

  /** What the wrapper knows: a right cache is the wrapped data in its present allocation;
      a wrong one is empty as at first, or points into an earlier allocation. */
  ghost predicate Caches(a: Wrapped, right: bool) {
    && Handled(a.w)
    && if right then a.cache == a.w.d.Data() && a.stamp == a.w.d.Allocation()
       else a.cache == [] || (a.cache == a.w.d.Data() && a.stamp < a.w.d.Allocation())
  }

  lemma NextCaches(a: Wrapped, right: bool, op: Op)
    requires Caches(a, right) && Allowed(a.w, op)
    ensures Caches(NextWrapped(a, op), Refreshes(op) || (right && !Moves(a.w.d, op)))
  {
    hide CellsOf, Next, Allowed, Dyn.Data;
    NextStaged(a.w, op);
    if Refreshes(op) {
      DataFits(Next(a.w, op).d);
    } else {
      NextKeepsData(a.w, op);
    }
  }

  lemma {:induction false} RunCaches(a: Wrapped, right: bool, ops: seq<Op>)
    requires Caches(a, right) && Legal(a.w, ops)
    ensures Caches(RunWrapped(a, ops), StillRight(right, a.w, ops)) && RunWrapped(a, ops).w == Run(a.w, ops)
    decreases |ops|
  {
    hide CellsOf, Next, Allowed, Caches;
    CachesHandled(a, right);
    if ops != [] {
      NextCaches(a, right, ops[0]);
      CachesHandled(NextWrapped(a, ops[0]), Refreshes(ops[0]) || (right && !Moves(a.w.d, ops[0])));
      RunCaches(NextWrapped(a, ops[0]), Refreshes(ops[0]) || (right && !Moves(a.w.d, ops[0])), ops[1..]);
    }
  }

  lemma CachesHandled(a: Wrapped, right: bool)
    requires Caches(a, right)
    ensures Handled(a.w)
  {
  }

  /** Cache coherence, exactly: on every run from construction over a buffer of any kind,
      what data() returns is right if and only if no byte is readable, or some commit or
      consume has happened and no prepare has made a string grow since the last one. */
  lemma CacheCoherent(d: Dyn, ops: seq<Op>)
    requires d.Valid() && d.Staged() == [] && Legal(Start(d), ops)
    ensures var r := RunWrapped(Wrapped(Start(d), [], 0), ops);
            && Handled(r.w) && r.w == Run(Start(d), ops)
            && (Coherent(r) <==> r.w.d.Ready() == [] || StillRight(false, Start(d), ops))
  {
    hide CellsOf, Next, Allowed;
    var a := Wrapped(Start(d), [], 0);
    RunCaches(a, false, ops);
    var r := RunWrapped(a, ops);
    NoCells();
    if r.w.d.Ready() == [] {
      EmptyCovers(r, StillRight(false, Start(d), ops));
    }
  }

  lemma EmptyCovers(a: Wrapped, right: bool)
    requires Caches(a, right) && a.w.d.Ready() == []
    ensures CellsOf(a.cache) == []
  {
  }

  /** A buffer with storage of its own never moves: its cache is right from the first
      commit or consume on. */
  lemma {:induction false} FixedStays(right: bool, w: World, ops: seq<Op>)
    requires Handled(w) && Legal(w, ops) && !w.d.Str?
    ensures StillRight(right, w, ops) <==> right || exists i :: 0 <= i < |ops| && Refreshes(ops[i])
    decreases |ops|
  {
    hide CellsOf, Poke, Peek;
    if ops != [] {
      NextStaged(w, ops[0]);
      FixedStays(right || Refreshes(ops[0]), Next(w, ops[0]), ops[1..]);
      assert forall i :: 0 <= i < |ops[1..]| ==> ops[1..][i] == ops[i + 1];
      if i :| 0 <= i < |ops| && Refreshes(ops[i]) {
        assert i > 0 ==> Refreshes(ops[1..][i - 1]);
      }
    }
  }

  lemma OneStep(right: bool, w: World, op: Op)
    requires Handled(w) && Allowed(w, op)
    ensures Legal(w, [op]) && Handled(Next(w, op)) && Run(w, [op]) == Next(w, op)
    ensures StillRight(right, w, [op]) <==> Refreshes(op) || (right && !Moves(w.d, op))
  {
    hide Next, Allowed, Handled, Refreshes, Moves;
    NextStaged(w, op);
    assert [op][1..] == [];
    assert Legal(Next(w, op), []);
  }

  lemma TwoSteps(w: World, op: Op, next: Op)
    requires Handled(w) && Allowed(w, op) && Handled(Next(w, op)) && Allowed(Next(w, op), next)
    ensures var ops := [op, next];
            && Legal(w, ops) && Run(w, ops) == Next(Next(w, op), next)
            && (StillRight(false, w, ops) <==> Refreshes(next) || (Refreshes(op) && !Moves(Next(w, op).d, next)))
  {
    hide Next, Allowed, Handled, Refreshes, Moves;
    var v := Next(w, op);
    OneStep(Refreshes(op), v, next);
    assert [op, next][1..] == [next];
  }

  lemma StringGrows(s: seq<byte>, maxSize: nat, n: nat)
    requires 0 < |s| && 0 < n && |s| + n <= maxSize
    ensures var w := StartString(s, maxSize);
            var v := Next(w, Consumes(0));
            && Handled(v) && v.d.Str? && v.d.str.inSize == |s| && Moves(v.d, Prepares(n))
            && var x := Next(v, Prepares(n)).d; x.Valid() && x.Ready() != []
  {
    hide CellsOf, Poke, Peek;
    var w := StartString(s, maxSize);
    NextStaged(w, Consumes(0));
    var v := Next(w, Consumes(0));
    NextStaged(v, Prepares(n));
    CellsOne(Next(v, Prepares(n)).d.str.Data());
  }

  /** The shortest failing run: a string that is not empty, a consume that refreshes the
      cache, and a prepare that makes the string grow. */
  lemma StringDangles(s: seq<byte>, maxSize: nat, n: nat)
    requires 0 < |s| && 0 < n && |s| + n <= maxSize
    ensures var w, ops := StartString(s, maxSize), [Consumes(0), Prepares(n)];
            Legal(w, ops) && var r := RunWrapped(Wrapped(w, [], 0), ops); Handled(r.w) && !Coherent(r)
  {
    hide CellsOf, Next, Moves, Coherent, Dyn.Ready;
    var w, ops := StartString(s, maxSize), [Consumes(0), Prepares(n)];
    StringGrows(s, maxSize, n);
    TwoSteps(w, Consumes(0), Prepares(n));
    CacheCoherent(w.d, ops);
  }
}
