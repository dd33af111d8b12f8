/** The three dynamic buffers as first-in first-out byte queues, over every run of
    prepare, writes into the prepared region, commit and consume. */
module QueueRuns {
  import opened Regions
  import opened CircularBuffers
  import opened FlatBuffers
  import opened StringBuffers

  /** A dynamic buffer with the memory its regions point into. */
  datatype Dyn =
    | Circ(mem: seq<byte>, ring: Ring)
    | Flat(mem: seq<byte>, flat: FlatState)
    | Str(str: StringState)
  {
    ghost predicate Valid() {
      match this
      case Circ(mem, ring) => ring.Valid() && ring.base + ring.cap <= |mem|
      case Flat(mem, flat) => flat.Valid() && flat.base + flat.cap <= |mem|
      case Str(str) => str.Valid()
    }

    function Mem(): seq<byte> {
      if Str? then str.s else mem
    }

    function WithMem(m: seq<byte>): Dyn {
      match this
      case Circ(_, ring) => Circ(m, ring)
      case Flat(_, flat) => Flat(m, flat)
      case Str(_) => Str(str.(s := m))
    }

    /** data() */
    function Data(): seq<Region>
      requires Circ? ==> ring.inPos <= ring.cap
    {
      match this
      case Circ(_, ring) => ring.Data()
      case Flat(_, flat) => [flat.Data()]
      case Str(str) => [str.Data()]
    }

    /** The region the next commit takes its bytes from. */
    function Prepared(): seq<Region>
      requires Circ? ==> ring.inPos <= ring.cap
    {
      match this
      case Circ(_, ring) => ring.Prepared()
      case Flat(_, flat) => [flat.Prepared()]
      case Str(str) => [str.Prepared()]
    }

    predicate Accepts(n: nat) {
      match this
      case Circ(_, ring) => ring.inLen + n <= ring.cap
      case Flat(_, flat) => flat.Accepts(n)
      case Str(str) => str.Accepts(n)
    }

    function Prepare(n: nat): Dyn {
      match this
      case Circ(m, ring) => Circ(m, ring.Prepare(n))
      case Flat(m, flat) => Flat(m, flat.Prepare(n))
      case Str(str) => Str(str.Prepare(n))
    }

    function Commit(n: nat): Dyn {
      match this
      case Circ(m, ring) => Circ(m, ring.Commit(n))
      case Flat(m, flat) => Flat(m, flat.Commit(n))
      case Str(str) => Str(str.Commit(n))
    }

    function Consume(n: nat): Dyn
      requires Str? ==> str.inSize <= |str.s|
    {
      match this
      case Circ(m, ring) => Circ(m, ring.Consume(n))
      case Flat(m, flat) => Flat(m, flat.Consume(n))
      case Str(str) => Str(str.Consume(n))
    }

    /** prepare(n) makes a string grow, which may move its characters. */
    predicate Grows(n: nat) {
      Str? && str.Grows(n)
    }

    /** The number of the allocation the regions point into. */
    function Allocation(): nat {
      if Str? then str.alloc else 0
    }

    /** consume(n) leaves a prepared region usable. */
    predicate Keeps(n: nat) {
      match this
      case Circ(_, _) => true
      case Flat(_, flat) => flat.Keeps(n)
      case Str(str) => str.Keeps(n)
    }

    ghost function Ready(): seq<nat>
      requires Valid()
    {
      CellsOf(Data())
    }

    ghost function Staged(): seq<nat>
      requires Valid()
    {
      CellsOf(Prepared())
    }

    /** The bytes in the prepared region. */
    ghost function StagedBytes(): seq<byte>
      requires Valid()
    {
      Cellular(this);
      Peek(Mem(), Staged())
    }

    /** The readable bytes. */
    ghost function Bytes(): seq<byte>
      requires Valid()
    {
      Cellular(this);
      Peek(Mem(), Ready())
    }
  }

  // ---- the laws every dynamic buffer obeys

  lemma Cellular(d: Dyn)
    requires d.Valid()
    ensures Within(d.Ready(), |d.Mem()|) && Within(d.Staged(), |d.Mem()|)
    ensures Apart(d.Staged(), d.Ready()) && Distinct(d.Staged())
  {
    hide CellsOf, Ring.Data, Ring.Prepared;
    match d
    case Circ(_, ring) =>
      RegionsSeparate(ring);
    case Flat(_, flat) =>
      CellsOne(flat.Data());
      CellsOne(flat.Prepared());
    case Str(str) =>
      CellsOne(str.Data());
      CellsOne(str.Prepared());
  }

  /** Prepare leaves the readable bytes alone and stages n cells. */
  lemma PrepareLaw(d: Dyn, n: nat)
    requires d.Valid() && d.Accepts(n)
    ensures d.Prepare(n).Valid() && d.Prepare(n).Bytes() == d.Bytes() && |d.Prepare(n).Staged()| == n
    ensures d.Prepare(n).Data() == d.Data()
  {
    hide CellsOf, Ring.Data, Ring.Prepared, Resize;
    match d
    case Circ(_, ring) =>
      PrepareCells(ring, n);
    case Flat(_, flat) =>
      CellsOne(flat.Prepare(n).Prepared());
    case Str(str) =>
      CellsOne(str.Prepare(n).Prepared());
      StringPrepareKeeps(str, n);
      StringBytes(str);
      StringBytes(str.Prepare(n));
  }

  /** Which prepares are accepted: for a circular buffer those that fit beside the readable
      cells, for a flat one those that fit behind them, for a string those that keep within
      the maximum. */
  lemma AcceptLaw(d: Dyn, n: nat)
    requires d.Valid()
    ensures match d
            case Circ(_, ring) => d.Accepts(n) <==> |d.Ready()| + n <= ring.cap
            case Flat(_, flat) =>
              && d.Ready() == flat.Data().Cells()
              && (d.Accepts(n) <==> flat.Data().off + |d.Ready()| + n <= flat.base + flat.cap)
            case Str(str) => d.Accepts(n) <==> |d.Bytes()| + n <= str.maxSize
  {
    hide CellsOf, Ring.Data;
    match d
    case Circ(_, ring) =>
      RegionCells(ring);
    case Flat(_, flat) =>
      CellsOne(flat.Data());
    case Str(str) =>
      CellsOne(str.Data());
  }

  lemma StringBytes(t: StringState)
    requires t.Valid()
    ensures Str(t).Bytes() == t.Bytes()
  {
    hide CellsOf;
    CellsOne(t.Data());
    Cellular(Str(t));
  }

  lemma CommitLaw(d: Dyn, n: nat)
    requires d.Valid()
    ensures var e := d.Commit(n);
            && e.Valid() && e.Mem() == d.Mem()
            && e.Ready() == d.Ready() + Take(d.Staged(), n) && e.Staged() == []
  {
    hide CellsOf, Ring.Data, Ring.Prepared;
    match d
    case Circ(_, ring) =>
      CommitCells(ring, n);
    case Flat(_, flat) =>
      CellsOne(flat.Data());
      CellsOne(flat.Prepared());
      CellsOne(flat.Commit(n).Data());
      CellsOne(flat.Commit(n).Prepared());
      FlatCommitCells(flat, n);
    case Str(str) =>
      CellsOne(str.Data());
      CellsOne(str.Prepared());
      CellsOne(str.Commit(n).Data());
      CellsOne(str.Commit(n).Prepared());
      StringCommitCells(str, n);
  }

  /** Consume drops bytes at the front; a prepared region stays in place exactly where
      Keeps says so, which for the circular buffer is always. */
  lemma ConsumeLaw(d: Dyn, n: nat)
    requires d.Valid()
    ensures d.Consume(n).Valid() && d.Consume(n).Bytes() == Drop(d.Bytes(), n)
    ensures d.Consume(n).Staged() == d.Staged() <==> d.Keeps(n)
    ensures d.Str? || d.Consume(n).Mem() == d.Mem()
  {
    hide CellsOf, Ring.Data, Ring.Prepared;
    match d
    case Circ(_, ring) =>
      ConsumeCells(ring, n);
      Cellular(d);
    case Flat(_, flat) =>
      CellsOne(flat.Data());
      CellsOne(flat.Prepared());
      CellsOne(flat.Consume(n).Data());
      CellsOne(flat.Consume(n).Prepared());
      FlatConsumeCells(flat, n);
      Cellular(d);
    case Str(str) =>
      CellsOne(str.Prepared());
      CellsOne(str.Consume(n).Prepared());
      StringConsumeBytes(str, n);
      StringBytes(str);
      StringBytes(str.Consume(n));
  }

  /** s with v in place of the elements from position at on. */
  ghost function Overlay<T>(s: seq<T>, at: nat, v: seq<T>): (r: seq<T>)
    requires at + |v| <= |s|
    ensures |r| == |s|
    ensures forall i :: 0 <= i < |s| ==> r[i] == if at <= i < at + |v| then v[i - at] else s[i]
  {
    s[..at] + v + s[at + |v|..]
  }

  /** Writing anywhere in the prepared region: the bytes written are found there, the rest
      of the region and the readable bytes are as before. */
  lemma WriteLaw(d: Dyn, at: nat, bs: seq<byte>)
    requires d.Valid() && at + |bs| <= |d.Staged()|
    ensures Within(Part(d.Staged(), at, |bs|), |d.Mem()|)
    ensures var e := d.WithMem(Poke(d.Mem(), Part(d.Staged(), at, |bs|), bs));
            && e.Valid() && |e.Mem()| == |d.Mem()| && e.Bytes() == d.Bytes() && e.Staged() == d.Staged()
            && e.StagedBytes() == Overlay(d.StagedBytes(), at, bs)
  {
    hide CellsOf, Ring.Data, Ring.Prepared, Overlay;
    Cellular(d);
    var cells := Part(d.Staged(), at, |bs|);
    PartOf(d.Staged(), at, |bs|, |d.Mem()|, d.Ready());
    var e := d.WithMem(Poke(d.Mem(), cells, bs));
    Cellular(e);
    PeekApart(d.Mem(), cells, bs, d.Ready());
    PeekOverlay(d.Mem(), d.Staged(), at, bs);
  }

  /** The k elements from position at on. */
  ghost function Part<T>(s: seq<T>, at: nat, k: nat): (r: seq<T>)
    requires at + k <= |s|
    ensures |r| == k && forall i :: 0 <= i < k ==> r[i] == s[at + i]
  {
    s[at..at + k]
  }

  lemma PartOf(a: seq<nat>, at: nat, k: nat, n: nat, other: seq<nat>)
    requires at + k <= |a| && Within(a, n) && Apart(a, other)
    ensures Within(Part(a, at, k), n) && Apart(Part(a, at, k), other)
    ensures Distinct(a) ==> Distinct(Part(a, at, k))
  {
  }

  lemma PeekOverlay(m: seq<byte>, a: seq<nat>, at: nat, v: seq<byte>)
    requires at + |v| <= |a| && Within(a, |m|) && Distinct(a) && Within(Part(a, at, |v|), |m|)
    ensures Peek(Poke(m, Part(a, at, |v|), v), a) == Overlay(Peek(m, a), at, v)
  {
    hide Poke;
    var b := Part(a, at, |v|);
    PeekPoke(m, b, v);
    forall i | 0 <= i < |a| ensures Poke(m, b, v)[a[i]] == if at <= i < at + |v| then v[i - at] else m[a[i]] {
      if at <= i < at + |v| {
        assert Peek(Poke(m, b, v), b)[i - at] == v[i - at];
      } else {
        PokeFrame(m, b, v, a[i]);
      }
    }
  }

  // ---- runs

  datatype Op = Prepares(n: nat) | Writes(at: nat, bytes: seq<byte>) | Commits(n: nat) | Consumes(n: nat)

  /** A buffer; the region last handed to the client, whether it is still the one the
      buffer will commit from, and what the client has written at which of its positions;
      all bytes committed so far, and the number of bytes consumed. */
  datatype World = World(d: Dyn, live: bool, handle: seq<Region>, wrote: map<nat, byte>,
                         committed: seq<byte>, consumed: nat)

  /** The client finds what it wrote. */
  ghost predicate Holds(bytes: seq<byte>, wrote: map<nat, byte>) {
    forall x :: x in wrote ==> x < |bytes| && bytes[x] == wrote[x]
  }

  /** A live region is the one the buffer has staged, and holds what was written to it.  A
      circular buffer never takes a region away, and a string buffer that has done so has
      nothing to commit. */
  ghost predicate Handled(w: World) {
    && w.d.Valid()
    && (w.live ==> CellsOf(w.handle) == w.d.Staged() && Holds(w.d.StagedBytes(), w.wrote))
    && (w.d.Circ? ==> w.live)
    && (w.d.Str? && !w.live ==> w.d.str.outSize == 0)
  }

  /** What a client must not do: write through a region that a consume has taken away, and
      prepare(0) on a circular buffer of capacity zero. */
  predicate Allowed(w: World, op: Op) {
    match op
    case Prepares(n) => w.d.Circ? ==> w.d.ring.cap > 0 || n > 0
    case Writes(_, _) => w.live
    case Commits(_) => true
    case Consumes(_) => true
  }

  /** Of bytes written from position at on, those that fit a region of size n. */
  function Fitting(at: nat, bytes: seq<byte>, n: nat): (r: (nat, seq<byte>))
    ensures r.0 + |r.1| <= n
  {
    (Min(at, n), Take(bytes, n - Min(at, n)))
  }

  /** What has been written, after writing bs from position at on. */
  function Wrote(prior: map<nat, byte>, at: nat, bs: seq<byte>): (r: map<nat, byte>)
    ensures forall x :: x in r <==> x in prior || at <= x < at + |bs|
    ensures forall x :: x in r ==> r[x] == if at <= x < at + |bs| then bs[x - at] else prior[x]
  {
    if bs == [] then prior
    else
      var k := |bs| - 1;
      Wrote(prior, at, bs[..k])[at + k := bs[k]]
  }

  /** The bytes a commit can take: those the client has in its region or, where a consume
      has taken that away, those in the buffer's own. */
  ghost function Pending(w: World): seq<byte>
    requires Handled(w)
  {
    if w.live then
      Cellular(w.d);
      Peek(w.d.Mem(), CellsOf(w.handle))
    else w.d.StagedBytes()
  }

  ghost function Next(w: World, op: Op): World
    requires Handled(w) && Allowed(w, op)
  {
    match op
    case Prepares(n) =>
      if w.d.Accepts(n) then
        w.(d := w.d.Prepare(n), live := true, handle := w.d.Prepare(n).Prepared(), wrote := map[])
      else w
    case Writes(at, bytes) =>
      var (a, bs) := Fitting(at, bytes, |w.d.Staged()|);
      WriteLaw(w.d, a, bs);
      w.(d := w.d.WithMem(Poke(w.d.Mem(), Part(CellsOf(w.handle), a, |bs|), bs)),
         wrote := Wrote(w.wrote, a, bs))
    case Commits(n) =>
      w.(d := w.d.Commit(n), live := true, handle := [], wrote := map[], committed := w.committed + Take(Pending(w), n))
    case Consumes(n) =>
      w.(d := w.d.Consume(n), live := w.live && w.d.Keeps(n), consumed := w.consumed + Min(n, |w.d.Bytes()|))
  }

  /** The queue: initial bytes, then all that was committed, without what was consumed. */
  ghost predicate Queued(init: seq<byte>, w: World) {
    && Handled(w)
    && w.consumed <= |init + w.committed|
    && w.d.Bytes() == (init + w.committed)[w.consumed..]
  }

  lemma HoldsOverlay(bytes: seq<byte>, wrote: map<nat, byte>, at: nat, bs: seq<byte>)
    requires Holds(bytes, wrote) && at + |bs| <= |bytes|
    ensures Holds(Overlay(bytes, at, bs), Wrote(wrote, at, bs))
  {
  }

  lemma HoldsNothing(bytes: seq<byte>)
    ensures Holds(bytes, map[])
  {
  }

  lemma PrepareStaged(w: World, n: nat)
    requires Handled(w) && Allowed(w, Prepares(n))
    ensures var x := Next(w, Prepares(n));
            && Handled(x)
            && if w.d.Accepts(n) then x.live && |x.d.Staged()| == n && x.wrote == map[] else x == w
  {
    hide CellsOf, Ring.Data, Ring.Prepared, Holds, Resize;
    if w.d.Accepts(n) {
      PrepareLaw(w.d, n);
      HoldsNothing(w.d.Prepare(n).StagedBytes());
    }
  }

  lemma WriteStaged(w: World, at: nat, bytes: seq<byte>)
    requires Handled(w) && w.live
    ensures var x := Next(w, Writes(at, bytes));
            && Handled(x) && x.live
            && var a := Min(at, |w.d.Staged()|);
            var bs := Take(bytes, |w.d.Staged()| - a);
            && x.d.Staged() == w.d.Staged() && x.d.StagedBytes() == Overlay(w.d.StagedBytes(), a, bs)
            && x.wrote == Wrote(w.wrote, a, bs)
  {
    hide CellsOf, Ring.Data, Ring.Prepared, Overlay, Part, Poke, Peek, Wrote, Holds;
    var (a, bs) := Fitting(at, bytes, |w.d.Staged()|);
    WriteLaw(w.d, a, bs);
    HoldsOverlay(w.d.StagedBytes(), w.wrote, a, bs);
  }

  lemma CommitStaged(w: World, n: nat)
    requires Handled(w)
    ensures var x := Next(w, Commits(n)); Handled(x) && x.live && x.d.Staged() == [] && x.wrote == map[]
  {
    hide CellsOf, Ring.Data, Ring.Prepared, Holds, Peek;
    CommitLaw(w.d, n);
    HoldsNothing(w.d.Commit(n).StagedBytes());
    NoCells();
  }

  lemma ConsumeStaged(w: World, n: nat)
    requires Handled(w)
    ensures var x := Next(w, Consumes(n));
            && Handled(x) && (x.live <==> w.live && x.d.Staged() == w.d.Staged()) && x.wrote == w.wrote
            && (x.live ==> x.d.StagedBytes() == w.d.StagedBytes())
  {
    hide CellsOf, Ring.Data, Ring.Prepared, Holds, Dyn.StagedBytes, Dyn.Bytes;
    ConsumeLaw(w.d, n);
    if w.d.Keeps(n) {
      KeptBytes(w.d, n);
    }
  }

  /** What a step does to the region. */
  lemma NextStaged(w: World, op: Op)
    requires Handled(w) && Allowed(w, op)
    ensures Handled(Next(w, op))
    ensures var x := Next(w, op);
            match op
            case Prepares(n) => if w.d.Accepts(n) then x.live && |x.d.Staged()| == n && x.wrote == map[] else x == w
            case Writes(at, bytes) =>
              var a := Min(at, |w.d.Staged()|);
              var bs := Take(bytes, |w.d.Staged()| - a);
              && x.live && x.d.Staged() == w.d.Staged() && x.d.StagedBytes() == Overlay(w.d.StagedBytes(), a, bs)
              && x.wrote == Wrote(w.wrote, a, bs)
            case Commits(_) => x.live && x.d.Staged() == [] && x.wrote == map[]
            case Consumes(n) =>
              && (x.live <==> w.live && x.d.Staged() == w.d.Staged()) && x.wrote == w.wrote
              && (x.live ==> x.d.StagedBytes() == w.d.StagedBytes())
  {
    hide Next, Dyn.Staged, Dyn.StagedBytes, Dyn.Accepts, Overlay, Wrote;
    match op
    case Prepares(n) => PrepareStaged(w, n);
    case Writes(at, bytes) => WriteStaged(w, at, bytes);
    case Commits(n) => CommitStaged(w, n);
    case Consumes(n) => ConsumeStaged(w, n);
  }

  lemma KeptBytes(d: Dyn, n: nat)
    requires d.Valid() && d.Keeps(n)
    ensures d.Consume(n).Valid() && d.Consume(n).StagedBytes() == d.StagedBytes()
  {
    hide CellsOf, Ring.Data, Ring.Prepared;
    ConsumeLaw(d, n);
    if d.Str? {
      CellsOne(d.str.Prepared());
    }
  }

  lemma NoCells()
    ensures CellsOf([]) == []
  {
  }

  /** What a step does to the readable bytes and the history. */
  lemma NextBytes(w: World, op: Op)
    requires Handled(w) && Allowed(w, op)
    ensures Pending(w) == w.d.StagedBytes()
    ensures Next(w, op).d.Valid()
    ensures match op
            case Commits(n) => Next(w, op).d.Bytes() == w.d.Bytes() + Take(Pending(w), n)
            case Consumes(n) => Next(w, op).d.Bytes() == Drop(w.d.Bytes(), n)
            case _ => Next(w, op).d.Bytes() == w.d.Bytes()
    ensures Next(w, op).committed == w.committed + if op.Commits? then Take(Pending(w), op.n) else []
    ensures Next(w, op).consumed == w.consumed + if op.Consumes? then Min(op.n, |w.d.Bytes()|) else 0
  {
    hide CellsOf, Poke, Part, Overlay;
    Cellular(w.d);
    match op
    case Prepares(n) =>
      if w.d.Accepts(n) {
        PrepareLaw(w.d, n);
      }
    case Writes(at, bytes) =>
      var (a, bs) := Fitting(at, bytes, |w.d.Staged()|);
      WriteLaw(w.d, a, bs);
    case Commits(n) =>
      CommitLaw(w.d, n);
      WithinFront(w.d.Staged(), Min(n, |w.d.Staged()|), |w.d.Mem()|);
      PeekConcat(w.d.Mem(), w.d.Ready(), Take(w.d.Staged(), n));
    case Consumes(n) =>
      ConsumeLaw(w.d, n);
  }

  lemma NextQueued(init: seq<byte>, w: World, op: Op)
    requires Queued(init, w) && Allowed(w, op)
    ensures Queued(init, Next(w, op))
  {
    hide CellsOf, Dyn.Bytes, Dyn.Staged, Dyn.Ready, Peek, Poke, Pending;
    NextStaged(w, op);
    NextBytes(w, op);
    match op
    case Prepares(_) =>
    case Writes(_, _) =>
    case Commits(n) =>
      var more := Take(Pending(w), n);
      Assoc(init, w.committed, more);
      DropLonger(init + w.committed, more, w.consumed);
    case Consumes(n) =>
      DropDrop(init + w.committed, w.consumed, n);
  }

  lemma DropLonger<T>(a: seq<T>, b: seq<T>, k: nat)
    requires k <= |a|
    ensures (a + b)[k..] == a[k..] + b
  {
  }

  lemma DropDrop<T>(a: seq<T>, k: nat, n: nat)
    requires k <= |a|
    ensures k + Min(n, |a[k..]|) <= |a| && Drop(a[k..], n) == a[k + Min(n, |a[k..]|)..]
  {
  }

  ghost predicate Legal(w: World, ops: seq<Op>)
    requires Handled(w)
    decreases |ops|
  {
    ops == [] || (Allowed(w, ops[0]) && (NextStaged(w, ops[0]); Legal(Next(w, ops[0]), ops[1..])))
  }

  ghost function Run(w: World, ops: seq<Op>): World
    requires Handled(w) && Legal(w, ops)
    decreases |ops|
  {
    if ops == [] then w
    else
      NextStaged(w, ops[0]);
      Run(Next(w, ops[0]), ops[1..])
  }

  /** First in, first out, over every run: the readable bytes are the initial ones, then
      the pending bytes at each commit, without the consumed front.  Any call may come at
      any time; only writes need a live region. */
  lemma {:induction false} RunQueues(init: seq<byte>, w: World, ops: seq<Op>)
    requires Queued(init, w) && Legal(w, ops)
    ensures Queued(init, Run(w, ops))
    decreases |ops|
  {
    hide CellsOf, Next, Dyn.Bytes;
    if ops != [] {
      NextStaged(w, ops[0]);
      NextQueued(init, w, ops[0]);
      RunQueues(init, Next(w, ops[0]), ops[1..]);
    }
  }

  /** A buffer with nothing prepared, as constructed. */
  ghost function Start(d: Dyn): (w: World)
    requires d.Valid() && d.Staged() == []
    ensures Queued(d.Bytes(), w)
  {
    NoCells();
    assert d.Bytes() + [] == d.Bytes();
    World(d, true, [], map[], [], 0)
  }

  /** The queue law from construction, for every kind of buffer. */
  lemma FirstInFirstOut(d: Dyn, ops: seq<Op>)
    requires d.Valid() && d.Staged() == [] && Legal(Start(d), ops)
    ensures var r := Run(Start(d), ops);
            && r.d.Valid() && r.consumed <= |d.Bytes() + r.committed|
            && r.d.Bytes() == (d.Bytes() + r.committed)[r.consumed..]
  {
    hide CellsOf, Dyn.Bytes, Next;
    RunQueues(d.Bytes(), Start(d), ops);
  }

  /** The same kind of buffer, over the same storage or with the same maximum. */
  ghost predicate SameKind(d: Dyn, e: Dyn) {
    match d
    case Circ(_, ring) => e.Circ? && e.ring.base == ring.base && e.ring.cap == ring.cap
    case Flat(_, flat) => e.Flat? && e.flat.base == flat.base && e.flat.cap == flat.cap
    case Str(str) => e.Str? && e.str.maxSize == str.maxSize
  }

  lemma NextKind(w: World, op: Op)
    requires Handled(w) && Allowed(w, op)
    ensures Handled(Next(w, op)) && SameKind(w.d, Next(w, op).d)
  {
    hide CellsOf, Poke, Peek, Resize;
    NextStaged(w, op);
  }

  lemma {:induction false} KindStays(w: World, ops: seq<Op>)
    requires Handled(w) && Legal(w, ops)
    ensures Handled(Run(w, ops)) && SameKind(w.d, Run(w, ops).d)
    decreases |ops|
  {
    hide CellsOf, Next, Allowed;
    if ops != [] {
      NextKind(w, ops[0]);
      KindStays(Next(w, ops[0]), ops[1..]);
    }
  }

  /** Room for n more bytes, given what is readable. */
  ghost predicate Room(d: Dyn, readable: nat, n: nat)
    requires d.Valid()
  {
    match d
    case Circ(_, ring) => readable + n <= ring.cap
    case Flat(_, flat) => flat.Data().off - flat.base + readable + n <= flat.cap
    case Str(str) => readable + n <= str.maxSize
  }

  /** Prepare in every state of every run: it is accepted if and only if there is room for
      n bytes beside those still queued, and then hands out n fresh cells; otherwise nothing
      at all changes. */
  lemma PrepareInRun(d: Dyn, ops: seq<Op>, n: nat)
    requires d.Valid() && d.Staged() == [] && Legal(Start(d), ops)
    requires Allowed(Run(Start(d), ops), Prepares(n))
    ensures var r := Run(Start(d), ops);
            && Handled(r) && SameKind(d, r.d) && r.consumed <= |d.Bytes() + r.committed|
            && var x := Next(r, Prepares(n));
            if Room(r.d, |d.Bytes() + r.committed| - r.consumed, n) then
              && Handled(x) && x.live && |CellsOf(x.handle)| == n && CellsOf(x.handle) == x.d.Staged()
              && x.wrote == map[] && x.d.Bytes() == r.d.Bytes()
            else x == r
  {
    hide CellsOf, Dyn.Bytes, Dyn.Staged, Dyn.Ready, Next;
    FirstInFirstOut(d, ops);
    KindStays(Start(d), ops);
    var r := Run(Start(d), ops);
    AcceptLaw(r.d, n);
    ReadyLength(r.d);
    NextStaged(r, Prepares(n));
    NextBytes(r, Prepares(n));
  }

  lemma ReadyLength(d: Dyn)
    requires d.Valid()
    ensures |d.Ready()| == |d.Bytes()|
  {
  }

  lemma StepThen(w: World, op: Op, ops: seq<Op>)
    requires Handled(w) && Allowed(w, op) && Handled(Next(w, op)) && Legal(Next(w, op), ops)
    ensures Legal(w, [op] + ops) && Run(w, [op] + ops) == Run(Next(w, op), ops)
  {
    hide Next, Allowed, Handled;
    NextStaged(w, op);
    assert ([op] + ops)[1..] == ops;
  }

  lemma PutBytes(w: World, v: seq<byte>)
    requires Handled(w) && w.d.Accepts(|v|) && Allowed(w, Prepares(|v|))
    ensures var a := Next(w, Prepares(|v|));
            && Handled(a) && Allowed(a, Writes(0, v))
            && var b := Next(a, Writes(0, v));
            && Handled(b) && Handled(Next(b, Commits(|v|))) && Next(b, Commits(|v|)).d.Bytes() == w.d.Bytes() + v
  {
    hide CellsOf, Dyn.Bytes, Dyn.StagedBytes, Dyn.Staged, Dyn.Ready, Next, Pending, Wrote;
    NextStaged(w, Prepares(|v|));
    NextBytes(w, Prepares(|v|));
    var a := Next(w, Prepares(|v|));
    NextStaged(a, Writes(0, v));
    NextBytes(a, Writes(0, v));
    var b := Next(a, Writes(0, v));
    StagedLength(a.d);
    assert b.d.StagedBytes() == v;
    NextStaged(b, Commits(|v|));
    NextBytes(b, Commits(|v|));
  }

  /** Bytes prepared for, written and committed become readable, behind those that were. */
  lemma PutThrough(w: World, v: seq<byte>)
    requires Handled(w) && Room(w.d, |w.d.Ready()|, |v|) && Allowed(w, Prepares(|v|))
    ensures var ops := [Prepares(|v|)] + ([Writes(0, v)] + ([Commits(|v|)] + []));
            Legal(w, ops) && Handled(Run(w, ops)) && Run(w, ops).d.Bytes() == w.d.Bytes() + v
  {
    hide Next, Allowed, Handled;
    HandledValid(w);
    AcceptLaw(w.d, |v|);
    ReadyLength(w.d);
    PutBytes(w, v);
    var a := Next(w, Prepares(|v|));
    var b := Next(a, Writes(0, v));
    CommitAllowed(b, |v|);
    assert Legal(Next(b, Commits(|v|)), []);
    StepThen(b, Commits(|v|), []);
    StepThen(a, Writes(0, v), [Commits(|v|)] + []);
    StepThen(w, Prepares(|v|), [Writes(0, v)] + ([Commits(|v|)] + []));
  }

  lemma CommitAllowed(w: World, n: nat)
    ensures Allowed(w, Commits(n))
  {
  }

  lemma HandledValid(w: World)
    requires Handled(w)
    ensures w.d.Valid()
  {
  }

  /** Prepare, commit and consume may come in any order on every kind of buffer, and on a
      circular one writes as well; only prepare(0) without storage is ruled out. */
  lemma {:induction false} CallsAreLegal(w: World, ops: seq<Op>)
    requires Handled(w)
    requires w.d.Circ? || forall i :: 0 <= i < |ops| ==> !ops[i].Writes?
    requires w.d.Circ? && w.d.ring.cap == 0 ==> forall i :: 0 <= i < |ops| ==> ops[i] != Prepares(0)
    ensures Legal(w, ops)
    decreases |ops|
  {
    hide CellsOf, Next;
    if ops != [] {
      assert ops[0] in ops;
      NextKind(w, ops[0]);
      CallsAreLegal(Next(w, ops[0]), ops[1..]);
    }
  }

  ghost function StartString(s: seq<byte>, maxSize: nat): (w: World)
    ensures Queued(Take(s, maxSize), w) && w.d == Str(Open(s, 0, maxSize))
    ensures w.d.Staged() == [] && w == Start(w.d)
  {
    var d := Str(Open(s, 0, maxSize));
    CellsOne(d.str.Prepared());
    StringBytes(d.str);
    Start(d)
  }

  /** A string buffer over its life: in every reachable state the readable and prepared
      bytes fit in the string and the string in the maximum, and what the destructor
      leaves in the string is the initial string, cut to the maximum, plus everything
      committed, minus everything consumed. */
  lemma StringLifetime(s: seq<byte>, maxSize: nat, ops: seq<Op>)
    requires Legal(StartString(s, maxSize), ops)
    ensures var r := Run(StartString(s, maxSize), ops);
            && r.d.Str?
            && r.d.str.inSize + r.d.str.outSize <= |r.d.str.s| <= maxSize
            && r.consumed <= |Take(s, maxSize) + r.committed|
            && r.d.str.Bytes() == (Take(s, maxSize) + r.committed)[r.consumed..]
  {
    hide CellsOf;
    var w := StartString(s, maxSize);
    KindStays(w, ops);
    RunQueues(Take(s, maxSize), w, ops);
    StringBytes(Run(w, ops).d.str);
  }

  // ---- two buffers side by side

  /** The first k positions of the region have been written. */
  ghost predicate AllWritten(wrote: map<nat, byte>, k: nat) {
    forall x :: 0 <= x < k ==> x in wrote
  }

  /** The bytes at the first k positions. */
  ghost function Prefix(wrote: map<nat, byte>, k: nat): (r: seq<byte>)
    requires AllWritten(wrote, k)
    ensures |r| == k && forall x :: 0 <= x < k ==> r[x] == wrote[x]
  {
    seq(k, x requires 0 <= x < k => wrote[x])
  }

  /** A commit of positions that have all been written, in any order and however often,
      and with any consumes in between, appends what was last written there. */
  lemma CommitDelivers(w: World, n: nat)
    requires Handled(w) && w.live && AllWritten(w.wrote, Min(n, |w.d.Staged()|))
    ensures var added := Prefix(w.wrote, Min(n, |w.d.Staged()|));
            && Next(w, Commits(n)).committed == w.committed + added
            && Next(w, Commits(n)).d.Valid() && Next(w, Commits(n)).d.Bytes() == w.d.Bytes() + added
  {
    hide CellsOf, Dyn.Bytes, Dyn.StagedBytes, Dyn.Staged, Dyn.Ready, Pending;
    NextBytes(w, Commits(n));
    StagedLength(w.d);
    HeldPrefix(w.d.StagedBytes(), w.wrote, n);
  }

  lemma HeldPrefix(bytes: seq<byte>, wrote: map<nat, byte>, n: nat)
    requires Holds(bytes, wrote) && AllWritten(wrote, Min(n, |bytes|))
    ensures Take(bytes, n) == Prefix(wrote, Min(n, |bytes|))
  {
  }

  /** The same readable bytes, history and client's bytes, and equally long regions while
      both are live. */
  ghost predicate Alike(w: World, v: World) {
    && Handled(w) && Handled(v)
    && w.d.Bytes() == v.d.Bytes() && w.committed == v.committed && w.consumed == v.consumed
    && w.wrote == v.wrote
    && (w.live && v.live ==> |w.d.Staged()| == |v.d.Staged()|)
  }

  /** A step both clients may take: a prepare is accepted by both buffers or by neither,
      writes go to a live region, and a commit takes written bytes of live regions or
      appends nothing. */
  ghost predicate Together(w: World, v: World, op: Op)
    requires Handled(w) && Handled(v)
  {
    && Allowed(w, op) && Allowed(v, op)
    && (op.Prepares? ==> (w.d.Accepts(op.n) <==> v.d.Accepts(op.n)))
    && (op.Commits? ==>
          || (w.live && v.live && AllWritten(w.wrote, Min(op.n, |w.d.Staged()|)))
          || Min(op.n, |w.d.Staged()|) == Min(op.n, |v.d.Staged()|) == 0)
  }

  lemma AlikeNext(w: World, v: World, op: Op)
    requires Alike(w, v) && Together(w, v, op)
    ensures Alike(Next(w, op), Next(v, op))
  {
    hide CellsOf, Dyn.Bytes, Dyn.StagedBytes, Dyn.Staged, Dyn.Ready, Pending, Poke, Part, Overlay, Holds;
    NextStaged(w, op);
    NextStaged(v, op);
    NextBytes(w, op);
    NextBytes(v, op);
    StagedLength(w.d);
    StagedLength(v.d);
    if op.Commits? && w.live && v.live && AllWritten(w.wrote, Min(op.n, |w.d.Staged()|)) {
      CommitDelivers(w, op.n);
      CommitDelivers(v, op.n);
    }
  }

  lemma StagedLength(d: Dyn)
    requires d.Valid()
    ensures |d.StagedBytes()| == |d.Staged()|
  {
  }

  ghost predicate AllTogether(w: World, v: World, ops: seq<Op>)
    requires Handled(w) && Handled(v)
    decreases |ops|
  {
    ops == [] ||
    (Together(w, v, ops[0]) &&
      (NextStaged(w, ops[0]);
       NextStaged(v, ops[0]);
       AllTogether(Next(w, ops[0]), Next(v, ops[0]), ops[1..])))
  }

  lemma {:induction false} AllTogetherLegal(w: World, v: World, ops: seq<Op>)
    requires Handled(w) && Handled(v) && AllTogether(w, v, ops)
    ensures Legal(w, ops) && Legal(v, ops)
    decreases |ops|
  {
    hide CellsOf, Next;
    if ops != [] {
      NextStaged(w, ops[0]);
      NextStaged(v, ops[0]);
      AllTogetherLegal(Next(w, ops[0]), Next(v, ops[0]), ops[1..]);
    }
  }

  lemma {:induction false} StayAlike(w: World, v: World, ops: seq<Op>)
    requires Alike(w, v) && AllTogether(w, v, ops)
    ensures Legal(w, ops) && Legal(v, ops)
    ensures Alike(Run(w, ops), Run(v, ops))
    decreases |ops|
  {
    hide CellsOf, Next, Dyn.Bytes, Dyn.StagedBytes, Dyn.Staged;
    AllTogetherLegal(w, v, ops);
    if ops != [] {
      AlikeNext(w, v, ops[0]);
      AllTogetherLegal(Next(w, ops[0]), Next(v, ops[0]), ops[1..]);
      StayAlike(Next(w, ops[0]), Next(v, ops[0]), ops[1..]);
    }
  }

  /** Circular, flat and string buffers hold identical readable bytes: any two buffers of
      any kinds and sizes that start with the same bytes, after any steps both clients may
      take together. */
  lemma BuffersAgree(d: Dyn, d': Dyn, ops: seq<Op>)
    requires d.Valid() && d'.Valid() && d.Staged() == d'.Staged() == [] && d.Bytes() == d'.Bytes()
    requires AllTogether(Start(d), Start(d'), ops)
    ensures Legal(Start(d), ops) && Legal(Start(d'), ops)
    ensures var r, r' := Run(Start(d), ops), Run(Start(d'), ops);
            && r.d.Valid() && r'.d.Valid() && r.d.Bytes() == r'.d.Bytes()
            && r.committed == r'.committed && r.consumed == r'.consumed
  {
    hide CellsOf, Next, Dyn.Bytes, AllTogether;
    StagedLength(d);
    StagedLength(d');
    StayAlike(Start(d), Start(d'), ops);
  }
}
