/** Reads as deliveries, and what processing a destination in groups of buffers means. */
module Batching {
  import opened Regions

  /** Whether a non-zero code of another category is a failure is up to that category. */
  datatype ErrorCode = NoError | Eof | Other(value: nat, failed: bool) {
    predicate Failed() {
      Eof? || (Other? && failed)
    }
  }

  /** The outcome of one read: the new state, the bytes delivered into the first cells
      of the destination, and the error code. */
  datatype Delivery<S> = Delivery(st: S, bytes: seq<byte>, ec: ErrorCode)

  /** A source's read(), as a function of its state and the destination buffers. */
  type Reader<!S> = (S, seq<Region>) -> Delivery<S>

  /** What the batching loops assert of every read: it fills the destination or fails. */
  ghost predicate FillOrFail<S(!new)>(read: Reader<S>) {
    forall st, dest :: Fills(read(st, dest), dest)
  }

  predicate Fills<S>(d: Delivery<S>, dest: seq<Region>) {
    |d.bytes| <= Size(dest) && (d.ec.Failed() || |d.bytes| == Size(dest))
  }

  /** The number of buffers passed to one read. */
  const N := 16

  /** Consecutive groups of N buffers, and a shorter remainder if there is one. */
  function Groups(dest: seq<Region>): seq<seq<Region>> {
    if dest == [] then []
    else if |dest| <= N then [dest]
    else [dest[..N]] + Groups(dest[N..])
  }

  function Flatten(gs: seq<seq<Region>>): seq<Region> {
    if gs == [] then [] else gs[0] + Flatten(gs[1..])
  }

  lemma {:induction false} GroupsPartition(dest: seq<Region>)
    ensures Flatten(Groups(dest)) == dest
    ensures dest != [] ==> Groups(dest) != []
    ensures forall i :: 0 <= i < |Groups(dest)| ==> 1 <= |Groups(dest)[i]| <= 16
    ensures forall i :: 0 <= i < |Groups(dest)| - 1 ==> |Groups(dest)[i]| == 16
  {
    if |dest| > N {
      GroupsPartition(dest[N..]);
      assert Groups(dest)[1..] == Groups(dest[N..]);
      assert dest[..N] + dest[N..] == dest;
    } else if dest != [] {
      assert Groups(dest)[1..] == [];
    }
  }

  /** The next group is the first N buffers, or all that is left. */
  lemma GroupsNext(rest: seq<Region>, k: nat)
    requires 1 <= k <= |rest| && (k == N || k == |rest| < N)
    ensures Groups(rest) == [rest[..k]] + Groups(rest[k..])
  {
    assert k == |rest| ==> rest[..k] == rest && rest[k..] == [];
  }

  /** Reading group after group until one fails. */
  function Drain<S>(read: Reader<S>, st: S, ec: ErrorCode, gs: seq<seq<Region>>): Delivery<S>
    decreases |gs|
  {
    if gs == [] then Delivery(st, [], ec)
    else
      var d := read(st, gs[0]);
      if d.ec.Failed() then d else Prepend(d.bytes, Drain(read, d.st, d.ec, gs[1..]))
  }

  function Prepend<S>(bytes: seq<byte>, d: Delivery<S>): Delivery<S> {
    Delivery(d.st, bytes + d.bytes, d.ec)
  }

  lemma DrainNext<S>(read: Reader<S>, st: S, ec: ErrorCode, g: seq<Region>, gs: seq<seq<Region>>)
    ensures var d := read(st, g);
            Drain(read, st, ec, [g] + gs) == if d.ec.Failed() then d else Prepend(d.bytes, Drain(read, d.st, d.ec, gs))
  {
    assert ([g] + gs)[1..] == gs;
  }

  /** Which error codes end a drain: end of file, and a code of another category that the
      category calls a failure.  Any other code, also a non-zero one, lets it go on. */
  lemma DrainStops<S>(read: Reader<S>, st: S, ec: ErrorCode, g: seq<Region>, gs: seq<seq<Region>>)
    ensures var d, all := read(st, g), Drain(read, st, ec, [g] + gs);
            match d.ec
            case NoError => var e := Drain(read, d.st, NoError, gs); all == Delivery(e.st, d.bytes + e.bytes, e.ec)
            case Eof => all == Delivery(d.st, d.bytes, Eof)
            case Other(v, true) => all == Delivery(d.st, d.bytes, Other(v, true))
            case Other(v, false) =>
              var e := Drain(read, d.st, Other(v, false), gs);
              all == Delivery(e.st, d.bytes + e.bytes, e.ec)
  {
    DrainNext(read, st, ec, g, gs);
  }

  /** What the loops' assertion asks of a read: it may fall short only with such a code. */
  lemma FillsExactly<S>(d: Delivery<S>, dest: seq<Region>)
    ensures Fills(d, dest) <==>
            match d.ec
            case NoError => |d.bytes| == Size(dest)
            case Eof => |d.bytes| <= Size(dest)
            case Other(_, true) => |d.bytes| <= Size(dest)
            case Other(_, false) => |d.bytes| == Size(dest)
  {
  }

  /** Reading g and, unless that fails, reading h. */
  function Twice<S>(read: Reader<S>, st: S, g: seq<Region>, h: seq<Region>): Delivery<S> {
    var d := read(st, g);
    if d.ec.Failed() then d else Prepend(d.bytes, read(d.st, h))
  }

  /** A read of g + h cannot be told from a read of g followed by a read of h. */
  ghost predicate Splits<S(!new)>(read: Reader<S>) {
    forall st, g, h :: read(st, g + h) == Twice(read, st, g, h)
  }

  /** If a source cannot tell split reads apart, no grouping of the destination matters:
      any sequence of groups acts as one read of the whole. */
  lemma {:induction false} GroupingInvisible<S(!new)>(read: Reader<S>, st: S, ec: ErrorCode, gs: seq<seq<Region>>)
    requires Splits(read) && gs != []
    ensures Drain(read, st, ec, gs) == read(st, Flatten(gs))
    decreases |gs|
  {
    var g, rest := gs[0], gs[1..];
    var d := read(st, g);
    if rest == [] {
      assert Flatten(gs) == g + [] == g;
      if !d.ec.Failed() {
        assert Drain(read, d.st, d.ec, rest) == Delivery(d.st, [], d.ec);
        assert d.bytes + [] == d.bytes;
      }
    } else {
      assert Flatten(gs) == g + Flatten(rest);
      assert read(st, g + Flatten(rest)) == Twice(read, st, g, Flatten(rest));
      if !d.ec.Failed() {
        GroupingInvisible(read, d.st, d.ec, rest);
      }
    }
  }

  /** A drained destination is filled, or the error is reported. */
  lemma {:induction false} DrainFills<S(!new)>(read: Reader<S>, st: S, ec: ErrorCode, gs: seq<seq<Region>>)
    requires FillOrFail(read)
    ensures Fills(Drain(read, st, ec, gs), Flatten(gs))
    decreases |gs|
  {
    if gs != [] {
      var d := read(st, gs[0]);
      assert Fills(d, gs[0]);
      CellsConcat(gs[0], Flatten(gs[1..]));
      if !d.ec.Failed() {
        DrainFills(read, d.st, d.ec, gs[1..]);
      }
    }
  }

  /** The calls a client makes on a source. */
  datatype SourceOp = ReadInto(dest: seq<Region>) | Rewind

  // ---- the state of a batching loop

  lemma PartWithin(c: seq<nat>, lo: nat, hi: nat, part: seq<nat>, n: nat, other: seq<nat>)
    requires lo <= hi <= |c| && part == c[lo..hi] && Within(c, n)
    ensures Within(part, n)
    ensures Apart(c, other) ==> Apart(part, other)
  {
    assert forall i :: 0 <= i < |part| ==> part[i] == c[lo + i];
  }

  /** A group of the destination runs through some of its cells. */
  lemma GroupWithin(dest: seq<Region>, k: nat, g: seq<Region>, n: nat, other: seq<nat>)
    requires Within(CellsOf(dest), n) && k + |g| <= |dest| && g == dest[k..k + |g|]
    ensures Within(CellsOf(g), n)
    ensures Apart(CellsOf(dest), other) ==> Apart(CellsOf(g), other)
  {
    hide CellsOf, Within, Apart;
    RangeDenotes(dest, k, k + |g|);
    PartWithin(CellsOf(dest), Size(dest[..k]), Size(dest[..k + |g|]), CellsOf(g), n, other);
  }

  /** One batched read: the source and its state, the error code and destination passed
      in, and memory at the call. */
  datatype Job<!S> = Job(read: Reader<S>, st: S, ec: ErrorCode, dest: seq<Region>, mem: seq<byte>) {
    function Outcome(): Delivery<S> {
      Drain(read, st, ec, Groups(dest))
    }
  }

  /** Memory after the bytes v have been written to the first cells of c. */
  ghost predicate Filled(m0: seq<byte>, c: seq<nat>, v: seq<byte>, m: seq<byte>) {
    |v| <= |c| && Within(c, |m0|) && m == Poke(m0, c[..|v|], v)
  }

  /** The first k buffers of the destination have been filled with the bytes soFar, and
      what is left to do continues the drain of the whole destination. */
  ghost predicate Batched<S>(job: Job<S>, k: nat, st: S, ec: ErrorCode, m: seq<byte>, soFar: seq<byte>) {
    && k <= |job.dest| && |soFar| == Size(job.dest[..k]) <= Size(job.dest)
    && Filled(job.mem, CellsOf(job.dest), soFar, m)
    && job.Outcome() == Prepend(soFar, Drain(job.read, st, ec, Groups(job.dest[k..])))
  }

  /** The read is over: the bytes soFar are all that is delivered. */
  ghost predicate Ended<S>(job: Job<S>, st: S, ec: ErrorCode, m: seq<byte>, soFar: seq<byte>) {
    && Filled(job.mem, CellsOf(job.dest), soFar, m)
    && job.Outcome() == Delivery(st, soFar, ec)
  }

  lemma BatchedStart<S>(job: Job<S>)
    requires Within(CellsOf(job.dest), |job.mem|)
    ensures Batched(job, 0, job.st, job.ec, job.mem, [])
  {
    hide Drain, Groups;
    assert job.dest[..0] == [] && job.dest[0..] == job.dest;
    assert [] + job.Outcome().bytes == job.Outcome().bytes;
  }

  lemma BatchedEnd<S>(job: Job<S>, st: S, ec: ErrorCode, m: seq<byte>, soFar: seq<byte>)
    requires Batched(job, |job.dest|, st, ec, m, soFar)
    ensures Ended(job, st, ec, m, soFar)
  {
    hide CellsOf;
    assert job.dest[|job.dest|..] == [];
    assert soFar + [] == soFar;
  }

  lemma EndedMeans<S>(job: Job<S>, st: S, ec: ErrorCode, m: seq<byte>, soFar: seq<byte>)
    requires Ended(job, st, ec, m, soFar)
    ensures Drain(job.read, job.st, job.ec, Groups(job.dest)) == Delivery(st, soFar, ec)
    ensures |soFar| <= |CellsOf(job.dest)| && Within(CellsOf(job.dest), |job.mem|)
    ensures m == Poke(job.mem, CellsOf(job.dest)[..|soFar|], soFar)
  {
  }

  lemma CellsOfThree(dest: seq<Region>, a: seq<Region>, b: seq<Region>, ab: seq<Region>, c: seq<Region>, n: nat)
    requires dest == ab + c && ab == a + b && n <= Size(b)
    ensures Size(a) + Size(b) == Size(ab) <= Size(dest)
    ensures CellsOf(dest)[..Size(a) + n] == CellsOf(dest)[..Size(a)] + CellsOf(b)[..n]
  {
    hide CellsOf;
    CellsConcat(a, b);
    CellsConcat(ab, c);
    TakeOfThree(CellsOf(dest), CellsOf(a), CellsOf(b), CellsOf(c), n);
  }

  /** Where group b == dest[k..k + j] lies in the whole destination. */
  lemma GroupCells(dest: seq<Region>, k: nat, j: nat, n: nat, a: seq<Region>, b: seq<Region>, ab: seq<Region>)
    requires k + j <= |dest| && n <= Size(b)
    requires a == dest[..k] && b == dest[k..k + j] && ab == dest[..k + j]
    ensures Size(a) + Size(b) == Size(ab) <= Size(dest)
    ensures CellsOf(dest)[..Size(a) + n] == CellsOf(dest)[..Size(a)] + CellsOf(b)[..n]
  {
    hide *;
    var c := dest[k + j..];
    assert ab + c == dest && a + b == ab;
    CellsOfThree(dest, a, b, ab, c, n);
  }

  lemma TakeOfThree<T>(c: seq<T>, x: seq<T>, y: seq<T>, z: seq<T>, n: nat)
    requires c == (x + y) + z && n <= |y|
    ensures c[..|x| + n] == c[..|x|] + y[..n]
  {
  }

  /** g is the next group of the destination after k buffers. */
  predicate NextGroup(dest: seq<Region>, k: nat, g: seq<Region>) {
    && 1 <= |g| && k + |g| <= |dest| && g == dest[k..k + |g|]
    && (|g| == N || |g| == |dest| - k < N)
  }

  /** The first n elements of the array are the last n buffers before position it. */
  ghost predicate Gathered(mb: array<Region>, n: nat, dest: seq<Region>, it: nat)
    reads mb
  {
    mb.Length == N && n <= N && n <= it <= |dest| && mb[..n] == dest[it - n..it]
  }

  method Gather(mb: array<Region>, n: nat, dest: seq<Region>, it: nat)
    requires n < N && it < |dest| && Gathered(mb, n, dest, it)
    modifies mb
    ensures Gathered(mb, n + 1, dest, it + 1)
  {
    mb[n] := dest[it];
  }

  lemma GatherNothing(mb: array<Region>, dest: seq<Region>, it: nat)
    requires mb.Length == N && it <= |dest|
    ensures Gathered(mb, 0, dest, it)
  {
  }

  lemma GatherGroup(mb: array<Region>, n: nat, dest: seq<Region>, it: nat)
    requires Gathered(mb, n, dest, it) && 1 <= n && (n == N || it == |dest|)
    ensures n <= mb.Length && n <= it && NextGroup(dest, it - n, mb[..n])
  {
  }

  lemma GroupPlace(dest: seq<Region>, k: nat, g: seq<Region>, n: nat, t: nat)
    requires NextGroup(dest, k, g) && n <= Size(g) && t == Size(dest[..k]) + n
    ensures Size(dest[..k]) + Size(g) == Size(dest[..k + |g|]) <= Size(dest)
    ensures CellsOf(dest)[..t] == CellsOf(dest)[..Size(dest[..k])] + CellsOf(g)[..n]
  {
    hide CellsOf;
    GroupCells(dest, k, |g|, n, dest[..k], g, dest[..k + |g|]);
  }

  lemma PokeMore(m0: seq<byte>, a: seq<nat>, v: seq<byte>, m: seq<byte>, g: seq<nat>, w: seq<byte>, m': seq<byte>,
                 ag: seq<nat>, vw: seq<byte>)
    requires |a| == |v| && |g| == |w| && ag == a + g && vw == v + w && Within(a, |m0|) && Within(g, |m|)
    requires m == Poke(m0, a, v) && m' == Poke(m, g, w)
    ensures Within(ag, |m0|) && m' == Poke(m0, ag, vw)
  {
    hide *;
    PokeConcat(m0, a, v, g, w);
  }

  lemma FilledMore(m0: seq<byte>, c: seq<nat>, v: seq<byte>, m: seq<byte>, gc: seq<nat>, w: seq<byte>, m': seq<byte>,
                   vw: seq<byte>, a: seq<nat>, g: seq<nat>, ag: seq<nat>)
    requires Filled(m0, c, v, m) && Filled(m, gc, w, m') && vw == v + w && |vw| <= |c|
    requires a == c[..|v|] && g == gc[..|w|] && ag == c[..|vw|] && ag == a + g
    ensures Filled(m0, c, vw, m')
  {
    hide Poke, Within;
    WithinFront(c, |v|, |m0|);
    WithinFront(gc, |w|, |m|);
    PokeMore(m0, a, v, m, g, w, m', ag, vw);
  }

  /** What the group's read adds to memory. */
  lemma StepMemory<S>(job: Job<S>, k: nat, st: S, ec: ErrorCode, m: seq<byte>, soFar: seq<byte>,
                      g: seq<Region>, bytes: seq<byte>, m': seq<byte>, all: seq<byte>)
    requires Batched(job, k, st, ec, m, soFar) && NextGroup(job.dest, k, g) && |bytes| <= Size(g)
    requires Filled(m, CellsOf(g), bytes, m') && all == soFar + bytes
    ensures |soFar| + Size(g) == Size(job.dest[..k + |g|]) <= Size(job.dest)
    ensures Filled(job.mem, CellsOf(job.dest), all, m')
  {
    hide CellsOf, Drain, Groups, Filled, NextGroup;
    GroupPlace(job.dest, k, g, |bytes|, |all|);
    FilledMore(job.mem, CellsOf(job.dest), soFar, m, CellsOf(g), bytes, m', all,
               CellsOf(job.dest)[..|soFar|], CellsOf(g)[..|bytes|], CellsOf(job.dest)[..|all|]);
  }

  /** What it leaves to be drained. */
  lemma StepOutcome<S>(job: Job<S>, k: nat, st: S, ec: ErrorCode, m: seq<byte>, soFar: seq<byte>,
                       g: seq<Region>, d: Delivery<S>)
    requires Batched(job, k, st, ec, m, soFar) && NextGroup(job.dest, k, g) && d == job.read(st, g)
    ensures job.Outcome() == if d.ec.Failed() then Delivery(d.st, soFar + d.bytes, d.ec)
                             else Prepend(soFar + d.bytes, Drain(job.read, d.st, d.ec, Groups(job.dest[k + |g|..])))
  {
    hide CellsOf, Drain, Groups, Poke;
    var rest := job.dest[k..];
    assert rest[..|g|] == g && rest[|g|..] == job.dest[k + |g|..];
    GroupsNext(rest, |g|);
    DrainNext(job.read, st, ec, g, Groups(rest[|g|..]));
    if !d.ec.Failed() {
      Assoc(soFar, d.bytes, Drain(job.read, d.st, d.ec, Groups(job.dest[k + |g|..])).bytes);
    }
  }

  /** One read of the next group continues the loop, or ends it with the whole result. */
  lemma BatchedStep<S>(job: Job<S>, k: nat, st: S, ec: ErrorCode, m: seq<byte>, soFar: seq<byte>,
                       g: seq<Region>, d: Delivery<S>, m': seq<byte>)
    requires Batched(job, k, st, ec, m, soFar) && NextGroup(job.dest, k, g)
    requires d == job.read(st, g) && Fills(d, g)
    requires Within(CellsOf(g), |m|) && m' == Poke(m, CellsOf(g)[..|d.bytes|], d.bytes)
    ensures if d.ec.Failed() then Ended(job, d.st, d.ec, m', soFar + d.bytes)
            else Batched(job, k + |g|, d.st, d.ec, m', soFar + d.bytes)
  {
    hide CellsOf, Drain, Groups, Poke, Job.Outcome;
    StepMemory(job, k, st, ec, m, soFar, g, d.bytes, m', soFar + d.bytes);
    StepOutcome(job, k, st, ec, m, soFar, g, d);
  }
}
