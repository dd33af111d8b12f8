/** The type-erased read source: its own batching loop, the sticky error, and its
    agreement with the loop of any_source. */
module AnyReadSources {
  import opened Regions
  import opened Batching
  import opened AnySources

  /** do_read(): a failed source is not asked again. */
  function StickyRead<S>(read: Reader<S>, s: (S, ErrorCode), dest: seq<Region>): Delivery<(S, ErrorCode)> {
    if s.1.Failed() then Delivery(s, [], s.1)
    else
      var d := read(s.0, dest);
      Delivery((d.st, d.ec), d.bytes, d.ec)
  }

  function StickyReader<S>(read: Reader<S>): Reader<(S, ErrorCode)> {
    (s, dest) => StickyRead(read, s, dest)
  }

  /** Which kept errors keep a source from being asked. */
  lemma StickyAnswers<S>(read: Reader<S>, st: S, e: ErrorCode, dest: seq<Region>)
    ensures var s, own := StickyRead(read, (st, e), dest), read(st, dest);
            match e
            case Eof => s == Delivery((st, Eof), [], Eof)
            case Other(v, true) => s == Delivery((st, e), [], Other(v, true))
            case NoError => s == Delivery((own.st, own.ec), own.bytes, own.ec)
            case Other(_, false) => s == Delivery((own.st, own.ec), own.bytes, own.ec)
  {
  }

  class ReadSourceImpl<S(!new)> {
    const read: Reader<S>
    const initial: S
    const hasRewind: bool
    var st: S
    var ec: ErrorCode

    constructor (read: Reader<S>, initial: S, hasRewind: bool)
      ensures this.read == read && this.initial == initial && this.hasRewind == hasRewind
      ensures State() == (initial, NoError)
    {
      this.read, this.initial, this.hasRewind, st, ec := read, initial, hasRewind, initial, NoError;
    }

    ghost function State(): (S, ErrorCode)
      reads this
    {
      (st, ec)
    }

    ghost function Source(): ReadSource<S> {
      ReadSource(read, initial, hasRewind)
    }

    /** Resets the source and forgets the error; refused if the source cannot rewind. */
    method Rewind() returns (r: Answer<()>)
      modifies this
      ensures r.Value? <==> hasRewind
      ensures State() == if hasRewind then (initial, NoError) else old(State())
      ensures forall e :: Source().Call(old(State()), e, SourceOp.Rewind) == Delivery(State(), [], e)
    {
      if !hasRewind {
        return InvalidArgument;
      }
      ec := NoError;
      st := initial;
      return Value(());
    }

    method DoRead(mem: array<byte>, p: seq<Region>) returns (n: nat, e: ErrorCode)
      requires FillOrFail(read) && Within(CellsOf(p), mem.Length)
      modifies this, mem
      ensures var d := StickyRead(read, old(State()), p);
              && State() == d.st && n == |d.bytes| && e == d.ec && Fills(d, p)
              && n <= |CellsOf(p)| && mem[..] == Poke(old(mem[..]), CellsOf(p)[..n], d.bytes)
    {
      hide CellsOf;
      if ec.Failed() {
        assert CellsOf(p)[..0] == [];
        return 0, ec;
      }
      var d := read(st, p);
      assert Fills(d, p);
      Deliver(mem, p, d.bytes);
      st := d.st;
      ec := d.ec;
      return |d.bytes|, d.ec;
    }

    /** The read of one group, seen from the whole job. */
    method DoReadGroup(mem: array<byte>, g: seq<Region>, ghost job: Job<(S, ErrorCode)>, ghost k: nat,
                       ghost e0: ErrorCode, ghost soFar: seq<byte>)
      returns (nread: nat, e: ErrorCode, ghost bytes: seq<byte>)
      requires FillOrFail(read) && job.read == StickyReader(read) && NextGroup(job.dest, k, g)
      requires Within(CellsOf(job.dest), mem.Length) && Batched(job, k, State(), e0, mem[..], soFar)
      modifies this, mem
      ensures nread == |bytes| && (e.Failed() || nread == Size(g))
      ensures if e.Failed() then Ended(job, State(), e, mem[..], soFar + bytes)
              else Batched(job, k + |g|, State(), e, mem[..], soFar + bytes)
    {
      hide CellsOf, Batched, Ended, Poke, FillOrFail;
      ghost var s, m := State(), mem[..];
      GroupWithin(job.dest, k, g, mem.Length, []);
      nread, e := DoRead(mem, g);
      ghost var d := StickyRead(read, s, g);
      bytes := d.bytes;
      BatchedStep(job, k, s, e0, m, soFar, g, d, mem[..]);
    }

    /** read(): full groups of N buffers inside the loop, the remainder after it. */
    method Read(mem: array<byte>, dest: seq<Region>, ec0: ErrorCode) returns (result: nat, e: ErrorCode)
      requires FillOrFail(read) && Within(CellsOf(dest), mem.Length)
      modifies this, mem
      ensures var d := Drain(StickyReader(read), old(State()), ec0, Groups(dest));
              && d == Source().Call(old(State()), ec0, ReadInto(dest))
              && State() == d.st && result == |d.bytes| && e == d.ec
              && result <= |CellsOf(dest)| && mem[..] == Poke(old(mem[..]), CellsOf(dest)[..result], d.bytes)
    {
      hide CellsOf, Drain, Groups, Poke, FillOrFail, StickyRead, Batched, Ended, NextGroup, Gathered;
      ghost var job := Job(StickyReader(read), State(), ec0, dest, mem[..]);
      ghost var soFar: seq<byte>, bytes: seq<byte> := [], [];
      var nread: nat;
      result, e := 0, ec0;
      var n := 0;
      var mb := new Region[N];
      var it := 0;
      BatchedStart(job);
      GatherNothing(mb, dest, it);
      while it != |dest|
        invariant n <= it <= |dest| && n < N && mb.Length == N && fresh(mb)
        invariant Gathered(mb, n, dest, it)
        invariant result == |soFar|
        invariant Batched(job, it - n, State(), e, mem[..], soFar)
        decreases |dest| - it
      {
        Gather(mb, n, dest, it);
        n, it := n + 1, it + 1;
        if n < N {
          continue;
        }
        GatherGroup(mb, n, dest, it);
        nread, e, bytes := DoReadGroup(mem, mb[..n], job, it - n, e, soFar);
        assert e.Failed() || nread == Size(mb[..n]);
        result := result + nread;
        soFar := soFar + bytes;
        if e.Failed() {
          EndedMeans(job, State(), e, mem[..], soFar);
          return;
        }
        n := 0;
        GatherNothing(mb, dest, it);
      }
      if n > 0 {
        GatherGroup(mb, n, dest, it);
        nread, e, bytes := DoReadGroup(mem, mb[..n], job, it - n, e, soFar);
        assert e.Failed() || nread == Size(mb[..n]);
        result := result + nread;
        soFar := soFar + bytes;
        if e.Failed() {
          EndedMeans(job, State(), e, mem[..], soFar);
          return;
        }
      }
      BatchedEnd(job, State(), e, mem[..], soFar);
      EndedMeans(job, State(), e, mem[..], soFar);
    }
  }

  // ---- the two loops agree

  /** Over a source that has not failed, stickiness changes nothing within one read: the
      same bytes, error and source state, and the error is remembered. */
  lemma {:induction false} StickyTransparent<S>(read: Reader<S>, st: S, e: ErrorCode, ec: ErrorCode, gs: seq<seq<Region>>)
    requires !e.Failed()
    ensures var s, d := Drain(StickyReader(read), (st, e), ec, gs), Drain(read, st, ec, gs);
            && s.bytes == d.bytes && s.ec == d.ec && s.st.0 == d.st
            && s.st.1 == if gs == [] then e else d.ec
    decreases |gs|
  {
    if gs != [] {
      var d := read(st, gs[0]);
      if !d.ec.Failed() {
        StickyTransparent(read, d.st, d.ec, d.ec, gs[1..]);
      }
    }
  }

  lemma {:induction false} StreamDrains<S(!new)>(impl: Impl<S>, content: seq<byte>, st: S, ec: ErrorCode, gs: seq<seq<Region>>)
    requires impl.Stream? || impl.SizedStream?
    ensures Drain(ImplReader(impl, content), Inner(st), ec, gs) == AtInner(Drain(impl.r.read, st, ec, gs))
    decreases |gs|
  {
    if gs != [] {
      var d := impl.r.read(st, gs[0]);
      if !d.ec.Failed() {
        StreamDrains(impl, content, d.st, d.ec, gs[1..]);
      }
    }
  }

  /** any_source::read and any_read_source::read, by their contracts, agree on every
      destination and every source whose kept error e is no failure: same bytes, same
      count, same error, same state of the source afterwards. */
  lemma TwoLoopsAgree<S(!new)>(impl: Impl<S>, content: seq<byte>, st: S, e: ErrorCode, ec: ErrorCode, dest: seq<Region>)
    requires (impl.Stream? || impl.SizedStream?) && !e.Failed()
    ensures var a := Drain(ImplReader(impl, content), Inner(st), ec, Groups(dest));
            var b := Drain(StickyReader(impl.r.read), (st, e), ec, Groups(dest));
            && a.bytes == b.bytes && a.ec == b.ec && a.st == Inner(b.st.0)
            && b.st.1 == (if dest == [] then e else a.ec)
            && (FillOrFail(impl.r.read) ==> Fills(a, dest))
  {
    hide CellsOf, Drain, Groups;
    GroupsPartition(dest);
    StickyTransparent(impl.r.read, st, e, ec, Groups(dest));
    StreamDrains(impl, content, st, ec, Groups(dest));
    if FillOrFail(impl.r.read) {
      DrainFills(impl.r.read, st, ec, Groups(dest));
    }
  }

  /** A source that records the destinations it is asked to fill. */
  function Logging<S>(read: Reader<S>): Reader<(S, seq<seq<Region>>)> {
    (s, dest) => LoggedRead(read, s, dest)
  }

  function LoggedRead<S>(read: Reader<S>, s: (S, seq<seq<Region>>), dest: seq<Region>): Delivery<(S, seq<seq<Region>>)> {
    var d := read(s.0, dest);
    Delivery((d.st, s.1 + [dest]), d.bytes, d.ec)
  }

  /** The calls of a drain are its groups in order, up to and including the first one
      that fails. */
  lemma {:induction false} DrainAsks<S>(read: Reader<S>, st: S, log: seq<seq<Region>>, ec: ErrorCode, gs: seq<seq<Region>>)
    ensures var d: Delivery<(S, seq<seq<Region>>)> := Drain(Logging(read), (st, log), ec, gs);
            && log <= d.st.1 <= log + gs
            && (gs != [] && !d.ec.Failed() ==> d.st.1 == log + gs)
            && (gs != [] ==> log < d.st.1)
    decreases |gs|
  {
    if gs != [] {
      var d := read(st, gs[0]);
      assert gs == [gs[0]] + gs[1..];
      Assoc(log, [gs[0]], gs[1..]);
      if !d.ec.Failed() {
        DrainAsks(read, d.st, log + [gs[0]], d.ec, gs[1..]);
        if gs[1..] == [] {
          assert log + [gs[0]] == log + gs;
        }
      }
    }
  }

  /** Both loops make the same calls: consecutive groups of N buffers and a remainder. */
  lemma SameCalls<S>(read: Reader<S>, st: S, e: ErrorCode, ec: ErrorCode, dest: seq<Region>)
    requires !e.Failed()
    ensures var a: Delivery<(S, seq<seq<Region>>)> := Drain(Logging(read), (st, []), ec, Groups(dest));
            var b: Delivery<((S, seq<seq<Region>>), ErrorCode)> :=
              Drain(StickyReader(Logging(read)), ((st, []), e), ec, Groups(dest));
            && a.st.1 == b.st.0.1
            && a.st.1 <= Groups(dest)
            && (dest != [] && !a.ec.Failed() ==> a.st.1 == Groups(dest))
  {
    hide Drain, Groups;
    GroupsPartition(dest);
    StickyTransparent(Logging(read), (st, []), e, ec, Groups(dest));
    DrainAsks(read, st, [], ec, Groups(dest));
    assert [] + Groups(dest) == Groups(dest);
  }

  // ---- the sticky error

  /** A read source: its read(), where rewind() takes it, and whether it has one. */
  datatype ReadSource<!S> = ReadSource(read: Reader<S>, initial: S, hasRewind: bool) {
    predicate Resets(op: SourceOp) {
      op.Rewind? && hasRewind
    }

    /** One call: the new state, and what the caller sees.  A rewind that is refused
        changes nothing. */
    function Call(s: (S, ErrorCode), ec: ErrorCode, op: SourceOp): Delivery<(S, ErrorCode)> {
      match op
      case ReadInto(dest) => Drain(StickyReader(read), s, ec, Groups(dest))
      case Rewind => Delivery(if hasRewind then (initial, NoError) else s, [], ec)
    }

    /** What each call of a run delivers and reports. */
    function Calls(s: (S, ErrorCode), ec: ErrorCode, ops: seq<SourceOp>): (r: seq<Delivery<(S, ErrorCode)>>)
      ensures |r| == |ops|
      decreases |ops|
    {
      if ops == [] then []
      else
        var d := Call(s, ec, ops[0]);
        [d] + Calls(d.st, d.ec, ops[1..])
    }

    /** The state and error kept before call j. */
    function Before(s: (S, ErrorCode), ec: ErrorCode, ops: seq<SourceOp>, j: nat): (S, ErrorCode)
      requires j <= |ops|
    {
      if j == 0 then s else Calls(s, ec, ops)[j - 1].st
    }

    /** Call i is a read that reports failure. */
    predicate FailsAt(s: (S, ErrorCode), ec: ErrorCode, ops: seq<SourceOp>, i: nat)
      requires i < |ops|
    {
      && ops[i].ReadInto? && ops[i].dest != []
      && match Calls(s, ec, ops)[i].ec
         case NoError => false
         case Eof => true
         case Other(_, failed) => failed
    }

    /** No call from i on, before j, resets the source. */
    predicate NoReset(ops: seq<SourceOp>, i: nat, j: nat)
      requires j <= |ops|
    {
      forall x :: i <= x < j ==> !Resets(ops[x])
    }

    /** Call i fails and nothing resets the source before call j. */
    predicate FailedSince(s: (S, ErrorCode), ec: ErrorCode, ops: seq<SourceOp>, i: nat, j: nat)
      requires i < j <= |ops|
    {
      FailsAt(s, ec, ops, i) && NoReset(ops, i + 1, j)
    }
  }

  lemma {:induction false} CallAt<S>(src: ReadSource<S>, s: (S, ErrorCode), ec: ErrorCode, ops: seq<SourceOp>, j: nat)
    requires j < |ops|
    ensures var calls := src.Calls(s, ec, ops);
            calls[j] == src.Call(src.Before(s, ec, ops, j), if j == 0 then ec else calls[j - 1].ec, ops[j])
    decreases |ops|
  {
    if j > 0 {
      var d := src.Call(s, ec, ops[0]);
      CallAt(src, d.st, d.ec, ops[1..], j - 1);
    }
  }

  /** A read that reports a failure leaves it behind ... */
  lemma {:induction false} FailureIsKept<S>(read: Reader<S>, s: (S, ErrorCode), ec: ErrorCode, gs: seq<seq<Region>>)
    requires gs != []
    ensures Drain(StickyReader(read), s, ec, gs).st.1 == Drain(StickyReader(read), s, ec, gs).ec
    decreases |gs|
  {
    var d := StickyRead(read, s, gs[0]);
    if !d.ec.Failed() && gs[1..] != [] {
      FailureIsKept(read, d.st, d.ec, gs[1..]);
    }
  }

  /** ... and a kept failure answers every read by itself. */
  lemma KeptAnswers<S>(read: Reader<S>, s: (S, ErrorCode), ec: ErrorCode, dest: seq<Region>)
    requires s.1.Failed()
    ensures Drain(StickyReader(read), s, ec, Groups(dest)) == Delivery(s, [], if dest == [] then ec else s.1)
  {
    GroupsPartition(dest);
  }

  /** What a call of a history does.  A read of a source that has kept no failure delivers
      what the source's own reader does for the same groups, with the same error, inner
      state, and kept error; one that has kept a failure reports it and delivers nothing. */
  lemma CallDelivers<S>(src: ReadSource<S>, st: S, e: ErrorCode, ec: ErrorCode, op: SourceOp)
    ensures var d := src.Call((st, e), ec, op);
            match op
            case Rewind => d == Delivery(if src.hasRewind then (src.initial, NoError) else (st, e), [], ec)
            case ReadInto(dest) =>
              if e == Eof || (e.Other? && e.failed) then d == Delivery((st, e), [], if dest == [] then ec else e)
              else var own := Drain(src.read, st, ec, Groups(dest));
                   d == Delivery((own.st, if dest == [] then e else own.ec), own.bytes, own.ec)
  {
    if op.ReadInto? {
      GroupsPartition(op.dest);
      if e.Failed() {
        KeptAnswers(src.read, (st, e), ec, op.dest);
      } else {
        StickyTransparent(src.read, st, e, ec, Groups(op.dest));
      }
    }
  }

  /** The sticky error over every history: once call i has failed, and until a rewind
      succeeds, every later call j leaves the source alone and delivers nothing, and a
      read into at least one buffer reports the error of call i. */
  lemma {:induction false} StickyHistory<S>(src: ReadSource<S>, s: (S, ErrorCode), ec: ErrorCode, ops: seq<SourceOp>, i: nat, j: nat)
    requires i < j < |ops| && src.FailedSince(s, ec, ops, i, j + 1)
    ensures var calls := src.Calls(s, ec, ops);
            && calls[j].st == calls[i].st && calls[j].bytes == []
            && (ops[j].ReadInto? && ops[j].dest != [] ==> calls[j].ec == calls[i].ec)
    decreases j
  {
    var calls := src.Calls(s, ec, ops);
    CallAt(src, s, ec, ops, i);
    GroupsPartition(ops[i].dest);
    FailureIsKept(src.read, src.Before(s, ec, ops, i), if i == 0 then ec else calls[i - 1].ec, Groups(ops[i].dest));
    if i + 1 < j {
      StickyHistory(src, s, ec, ops, i, j - 1);
    }
    CallAt(src, s, ec, ops, j);
    if ops[j].ReadInto? {
      KeptAnswers(src.read, calls[j - 1].st, calls[j - 1].ec, ops[j].dest);
    }
  }

  /** What one call does to the kept error. */
  lemma KeptNext<S>(src: ReadSource<S>, b: (S, ErrorCode), ec: ErrorCode, op: SourceOp)
    ensures var d := src.Call(b, ec, op);
            d.st.1.Failed() <==> (op.ReadInto? && op.dest != [] && d.ec.Failed()) || (b.1.Failed() && !src.Resets(op))
  {
    if op.ReadInto? {
      GroupsPartition(op.dest);
      if op.dest != [] {
        FailureIsKept(src.read, b, ec, Groups(op.dest));
      }
      if b.1.Failed() {
        KeptAnswers(src.read, b, ec, op.dest);
      }
    }
  }

  /** Exactly when a call finds a failure kept: a source that started without one has one
      before call j if and only if some earlier read failed and no rewind succeeded since. */
  lemma {:induction false} StickyExactly<S>(src: ReadSource<S>, s: (S, ErrorCode), ec: ErrorCode, ops: seq<SourceOp>, j: nat)
    requires !s.1.Failed() && j <= |ops|
    ensures src.Before(s, ec, ops, j).1.Failed() <==> exists i :: 0 <= i < j && src.FailedSince(s, ec, ops, i, j)
    decreases j
  {
    hide ReadSource.Call;
    if j > 0 {
      var calls, k := src.Calls(s, ec, ops), j - 1;
      StickyExactly(src, s, ec, ops, k);
      CallAt(src, s, ec, ops, k);
      KeptNext(src, src.Before(s, ec, ops, k), if k == 0 then ec else calls[k - 1].ec, ops[k]);
      forall i | 0 <= i < k
        ensures src.FailedSince(s, ec, ops, i, j) <==> src.FailedSince(s, ec, ops, i, k) && !src.Resets(ops[k])
      {
      }
      assert src.FailedSince(s, ec, ops, k, j) <==> src.FailsAt(s, ec, ops, k);
    }
  }

  /** A rewind clears the error: whatever the history before it, the calls after it go as
      they would on a new source. */
  lemma {:induction false} RewindResumes<S>(src: ReadSource<S>, s: (S, ErrorCode), ec: ErrorCode, ops: seq<SourceOp>, i: nat)
    requires i < |ops| && src.Resets(ops[i])
    ensures var calls := src.Calls(s, ec, ops);
            calls[i + 1..] == src.Calls((src.initial, NoError), calls[i].ec, ops[i + 1..])
    decreases |ops|
  {
    var d := src.Call(s, ec, ops[0]);
    if i > 0 {
      RewindResumes(src, d.st, d.ec, ops[1..], i - 1);
      assert ops[1..][i..] == ops[i + 1..];
      assert src.Calls(s, ec, ops)[i + 1..] == src.Calls(d.st, d.ec, ops[1..])[i..];
    }
  }
}
