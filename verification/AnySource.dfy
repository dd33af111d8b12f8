/** Data sources, read sources behind a type-erased interface, and the batched read of
    any_source. */
module AnySources {
  import opened Regions
  import opened Slicing
  import opened Copying
  import opened Batching

  // ---- what reading a data source means

  /** Reading at offset pos: the next bytes, as many as fit; eof once all are read. */
  function DataRead(content: seq<byte>, pos: nat, dest: seq<Region>): Delivery<nat> {
    var bytes := Take(Drop(content, pos), Size(dest));
    Delivery(pos + |bytes|, bytes, if pos + |bytes| >= |content| then Eof else NoError)
  }

  lemma DataFills(content: seq<byte>, pos: nat, dest: seq<Region>)
    ensures Fills(DataRead(content, pos, dest), dest)
  {
  }

  lemma DataSplits(content: seq<byte>, pos: nat, g: seq<Region>, h: seq<Region>)
    ensures DataRead(content, pos, g + h) == Twice((p, d) => DataRead(content, p, d), pos, g, h)
  {
    hide CellsOf;
    CellsConcat(g, h);
    var rest := Drop(content, pos);
    var d := DataRead(content, pos, g);
    if !d.ec.Failed() {
      assert |d.bytes| == Size(g);
      assert Drop(content, d.st) == rest[Size(g)..];
      assert Take(rest, Size(g) + Size(h)) == Take(rest, Size(g)) + Take(rest[Size(g)..], Size(h));
    } else {
      assert |d.bytes| == |rest|;
      assert Take(rest, Size(g) + Size(h)) == rest == d.bytes;
    }
  }

  lemma PeekDrop(m: seq<byte>, cells: seq<nat>, pos: nat, k: nat)
    requires Within(cells, |m|) && k <= |Drop(cells, pos)|
    ensures Within(Drop(cells, pos)[..k], |m|)
    ensures Peek(m, Drop(cells, pos)[..k]) == Take(Drop(Peek(m, cells), pos), k)
  {
  }

  // ---- the implementations behind the interface

  /** Holds a data source: a sequence of buffers in memory, read from offset nread on. */
  class DataModel {
    const data: seq<Region>
    const size: nat
    var nread: nat

    ghost predicate Valid()
      reads this
    {
      size == Size(data) <= SIZE_MAX && nread <= size
    }

    constructor (data: seq<Region>)
      requires Size(data) <= SIZE_MAX
      ensures this.data == data && Valid() && nread == 0
    {
      this.data := data;
      var n := SizeOf(data);
      size := n;
      nread := 0;
    }

    method Rewind()
      requires Valid()
      modifies this
      ensures Valid() && nread == 0
    {
      nread := 0;
    }

    method Read(mem: array<byte>, dest: seq<Region>) returns (n: nat, ec: ErrorCode)
      requires Valid() && Within(CellsOf(data), mem.Length)
      requires Within(CellsOf(dest), mem.Length) && Apart(CellsOf(dest), CellsOf(data))
      modifies this, mem
      ensures Valid()
      ensures var d := DataRead(Peek(old(mem[..]), CellsOf(data)), old(nread), dest);
              && nread == d.st && n == |d.bytes| && ec == d.ec
              && n <= Size(dest) && mem[..] == Poke(old(mem[..]), CellsOf(dest)[..n], d.bytes)
    {
      hide CellsOf, Copyable, Poke;
      var s := SansPrefix(data, nread);
      var src := Forward(s);
      ghost var k := CopyCount(CellsOf(dest), CellsOf(src), SIZE_MAX);
      PartsOfApart(CellsOf(dest), CellsOf(data), nread, k, mem.Length);
      PeekDrop(mem[..], CellsOf(data), nread, k);
      ApartCopyable(mem[..], dest, src, SIZE_MAX);
      CopyDelivers(mem[..], CellsOf(dest), CellsOf(src), SIZE_MAX);
      n := Copy(mem, dest, src, SIZE_MAX);
      nread := nread + n;
      if nread >= size {
        ec := Eof;
      } else {
        ec := NoError;
      }
    }
  }

  lemma PartsOfApart(a: seq<nat>, c: seq<nat>, pos: nat, k: nat, n: nat)
    requires Within(a, n) && Within(c, n) && Apart(a, c) && k <= |a| && k <= |Drop(c, pos)|
    ensures Within(a[..k], n) && Within(Drop(c, pos)[..k], n) && Apart(a[..k], Drop(c, pos)[..k])
  {
  }

  lemma NothingFilled(m: seq<byte>, c: seq<nat>)
    ensures Poke(m, c[..0], []) == m
  {
    assert c[..0] == [];
  }

  /** User code of a read source: bytes written to the first cells of dest, in order. */
  method Deliver(mem: array<byte>, dest: seq<Region>, bytes: seq<byte>)
    requires Within(CellsOf(dest), mem.Length) && |bytes| <= Size(dest)
    modifies mem
    ensures mem[..] == Poke(old(mem[..]), CellsOf(dest)[..|bytes|], bytes)
  {
    var cells := CellsOf(dest);
    ghost var m0 := mem[..];
    for i := 0 to |bytes|
      invariant mem[..] == Poke(m0, cells[..i], bytes[..i])
    {
      ghost var before := mem[..];
      mem[cells[i]] := bytes[i];
      assert mem[..] == before[cells[i] := bytes[i]];
      PokeNext(m0, cells[..|bytes|], bytes, i);
      assert cells[..|bytes|][..i] == cells[..i] && cells[..|bytes|][..i + 1] == cells[..i + 1];
    }
    assert bytes[..|bytes|] == bytes;
  }

  /** Holds a read source of the user: abstract but for what read() must do. */
  class ReadModel<S(!new)> {
    const read: Reader<S>
    const initial: S
    var st: S

    constructor (read: Reader<S>, initial: S)
      ensures this.read == read && this.initial == initial && st == initial
    {
      this.read, this.initial, st := read, initial, initial;
    }

    method Rewind()
      modifies this
      ensures st == initial
    {
      st := initial;
    }

    method Read(mem: array<byte>, dest: seq<Region>) returns (n: nat, ec: ErrorCode)
      requires FillOrFail(read) && Within(CellsOf(dest), mem.Length)
      modifies this, mem
      ensures var d := read(old(st), dest);
              && st == d.st && n == |d.bytes| && ec == d.ec && Fills(d, dest)
              && n <= Size(dest) && mem[..] == Poke(old(mem[..]), CellsOf(dest)[..n], d.bytes)
    {
      var d := read(st, dest);
      assert Fills(d, dest);
      st := d.st;
      Deliver(mem, dest, d.bytes);
      return |d.bytes|, d.ec;
    }
  }

  /** The dynamic type behind any_source. */
  datatype Impl<!S(!new)> = Default | Data(d: DataModel) | Stream(r: ReadModel<S>) | SizedStream(known: nat, r: ReadModel<S>)

  /** Where a source stands: an offset into its data, or the state of a read source. */
  datatype Position<S> = Offset(n: nat) | Inner(st: S)

  function AtOffset<S>(d: Delivery<nat>): Delivery<Position<S>> {
    Delivery(Offset(d.st), d.bytes, d.ec)
  }

  function AtInner<S>(d: Delivery<S>): Delivery<Position<S>> {
    Delivery(Inner(d.st), d.bytes, d.ec)
  }

  /** The virtual read(), as a function of the position. */
  ghost function ImplRead<S(!new)>(impl: Impl<S>, content: seq<byte>, p: Position<S>, dest: seq<Region>): Delivery<Position<S>> {
    if impl.Data? && p.Offset? then AtOffset(DataRead(content, p.n, dest))
    else if (impl.Stream? || impl.SizedStream?) && p.Inner? then AtInner(impl.r.read(p.st, dest))
    else Delivery(p, [], Eof)
  }

  ghost function ImplReader<S(!new)>(impl: Impl<S>, content: seq<byte>): Reader<Position<S>> {
    (p, dest) => ImplRead(impl, content, p, dest)
  }

  lemma ImplSplits<S(!new)>(impl: Impl<S>, content: seq<byte>)
    requires impl.Data?
    ensures Splits(ImplReader(impl, content))
  {
    var rd := ImplReader(impl, content);
    forall p: Position<S>, g, h ensures rd(p, g + h) == Twice(rd, p, g, h) {
      if p.Offset? {
        DataSplits(content, p.n, g, h);
      }
    }
  }

  /** Batching is invisible: draining a non-empty destination in groups of any source of
      data, from any offset, is one read of the whole destination. */
  lemma BatchingIsOneRead<S(!new)>(impl: Impl<S>, content: seq<byte>, pos: nat, ec: ErrorCode, dest: seq<Region>)
    requires impl.Data? && dest != []
    ensures Drain(ImplReader(impl, content), Offset(pos), ec, Groups(dest)) == AtOffset(DataRead(content, pos, dest))
  {
    hide Drain, Groups, DataRead;
    ImplSplits(impl, content);
    GroupsPartition(dest);
    GroupingInvisible(ImplReader(impl, content), Offset(pos), ec, Groups(dest));
  }

  /** A default-constructed source is at its end. */
  lemma DefaultEnds<S(!new)>(impl: Impl<S>, content: seq<byte>, p: Position<S>, ec: ErrorCode, dest: seq<Region>)
    requires impl.Default? && dest != []
    ensures Drain(ImplReader(impl, content), p, ec, Groups(dest)) == Delivery(p, [], Eof)
  {
    GroupsPartition(dest);
  }

  datatype Answer<T> = Value(value: T) | InvalidArgument

  class AnySource<S(!new)> {
    const impl: Impl<S>

    constructor (impl: Impl<S>)
      ensures this.impl == impl
    {
      this.impl := impl;
    }

    ghost function Objects(): set<object> {
      if impl.Data? then {impl.d} else if impl.Stream? || impl.SizedStream? then {impl.r} else {}
    }

    ghost function Position(): Position<S>
      reads Objects()
    {
      if impl.Data? then Offset(impl.d.nread)
      else if impl.Stream? || impl.SizedStream? then Inner(impl.r.st)
      else Offset(0)
    }

    /** The bytes of a data source in memory m. */
    ghost function Content(m: seq<byte>): seq<byte> {
      if impl.Data? && Within(CellsOf(impl.d.data), |m|) then Peek(m, CellsOf(impl.d.data)) else []
    }

    /** A data source lies in memory, away from the destination; a read source obeys the
        rule that a read fills the destination or fails. */
    ghost predicate Ready(dest: seq<Region>, n: nat)
      reads Objects()
    {
      && Within(CellsOf(dest), n)
      && (impl.Data? ==> impl.d.Valid() && Within(CellsOf(impl.d.data), n)
                         && Apart(CellsOf(dest), CellsOf(impl.d.data)))
      && (impl.Stream? || impl.SizedStream? ==> FillOrFail(impl.r.read))
    }

    lemma GroupReady(dest: seq<Region>, k: nat, g: seq<Region>, n: nat)
      requires Ready(dest, n) && k + |g| <= |dest| && g == dest[k..k + |g|]
      ensures Ready(g, n)
    {
      hide CellsOf, Apart, Within;
      GroupWithin(dest, k, g, n, if impl.Data? then CellsOf(impl.d.data) else []);
    }

    lemma ContentStays(m: seq<byte>, dest: seq<Region>, bytes: seq<byte>)
      requires Ready(dest, |m|) && |bytes| <= |CellsOf(dest)|
      ensures Within(CellsOf(dest)[..|bytes|], |m|)
      ensures Content(Poke(m, CellsOf(dest)[..|bytes|], bytes)) == Content(m)
    {
      hide CellsOf;
      if impl.Data? {
        PeekApart(m, CellsOf(dest)[..|bytes|], bytes, CellsOf(impl.d.data));
      }
    }

    predicate HasSize() {
      !impl.Stream?
    }

    predicate HasBuffers() {
      impl.Default? || impl.Data?
    }

    /** The buffers returned hold the bytes that reads deliver. */
    function Buffers(): (r: Answer<seq<Region>>)
      ensures r.Value? <==> HasBuffers()
      ensures impl.Default? ==> r == Value([])
      ensures impl.Data? ==> r == Value(impl.d.data)
      ensures impl.Stream? || impl.SizedStream? ==> r == InvalidArgument
      ensures r.Value? ==> forall m: seq<byte> :: Within(CellsOf(r.value), |m|) ==> Content(m) == Peek(m, CellsOf(r.value))
    {
      match impl
      case Default => Value([])
      case Data(d) => Value(d.data)
      case _ => InvalidArgument
    }

    /** The number of bytes, where it is known. */
    function Size(): (r: Answer<nat>)
      requires impl.Data? ==> impl.d.Valid()
      reads if impl.Data? then {impl.d} else {}
      ensures r.Value? <==> HasSize()
      ensures HasBuffers() ==> r == Value(|CellsOf(Buffers().value)|)
      ensures impl.SizedStream? ==> r == Value(impl.known)
      ensures impl.Stream? ==> r == InvalidArgument
    {
      match impl
      case Default => Value(0)
      case Data(d) => Value(d.size)
      case Stream(_) => InvalidArgument
      case SizedStream(known, _) => Value(known)
    }

    method Rewind()
      requires impl.Data? ==> impl.d.Valid()
      modifies Objects()
      ensures impl.Data? ==> impl.d.Valid()
      ensures Position() == (if impl.Stream? || impl.SizedStream? then Inner(impl.r.initial) else Offset(0))
    {
      match impl
      case Default =>
      case Data(d) => d.Rewind();
      case Stream(r) => r.Rewind();
      case SizedStream(_, r) => r.Rewind();
    }

    /** The virtual read() of the implementation. */
    method ReadImpl(mem: array<byte>, dest: seq<Region>) returns (n: nat, ec: ErrorCode)
      requires Ready(dest, mem.Length)
      modifies Objects(), mem
      ensures impl.Data? ==> impl.d.Valid()
      ensures var d := ImplRead(impl, Content(old(mem[..])), old(Position()), dest);
              && Position() == d.st && n == |d.bytes| && ec == d.ec && Fills(d, dest)
              && n <= |CellsOf(dest)| && mem[..] == Poke(old(mem[..]), CellsOf(dest)[..n], d.bytes)
    {
      hide CellsOf;
      match impl
      case Default =>
        assert CellsOf(dest)[..0] == [];
        return 0, Eof;
      case Data(d) =>
        DataFills(Content(mem[..]), d.nread, dest);
        n, ec := d.Read(mem, dest);
      case Stream(r) => n, ec := r.Read(mem, dest);
      case SizedStream(_, r) => n, ec := r.Read(mem, dest);
    }

    /** The read of one group, seen from the whole job. */
    method ReadGroup(mem: array<byte>, g: seq<Region>, ghost job: Job<Position<S>>, ghost content: seq<byte>,
                     ghost k: nat, ghost ec0: ErrorCode, ghost soFar: seq<byte>)
      returns (nread: nat, ec: ErrorCode, ghost bytes: seq<byte>)
      requires job.read == ImplReader(impl, content) && NextGroup(job.dest, k, g)
      requires Ready(job.dest, mem.Length) && Content(mem[..]) == content
      requires Batched(job, k, Position(), ec0, mem[..], soFar)
      modifies Objects(), mem
      ensures Ready(job.dest, mem.Length) && Content(mem[..]) == content
      ensures nread == |bytes| && (ec.Failed() || nread == Regions.Size(g))
      ensures if ec.Failed() then Ended(job, Position(), ec, mem[..], soFar + bytes)
              else Batched(job, k + |g|, Position(), ec, mem[..], soFar + bytes)
    {
      hide CellsOf, Batched, Ended, Poke, Peek, DataRead;
      ghost var p, m := Position(), mem[..];
      GroupReady(job.dest, k, g, mem.Length);
      nread, ec := ReadImpl(mem, g);
      ghost var d := ImplRead(impl, content, p, g);
      bytes := d.bytes;
      ContentStays(m, g, bytes);
      BatchedStep(job, k, p, ec0, m, soFar, g, d, mem[..]);
    }

    /** read(): up to N buffers at a time are passed on, until all are filled or one
        read fails. */
    method Read(mem: array<byte>, dest: seq<Region>, ec0: ErrorCode) returns (result: nat, ec: ErrorCode)
      requires Ready(dest, mem.Length)
      modifies Objects(), mem
      ensures impl.Data? ==> impl.d.Valid()
      ensures var d := Drain(ImplReader(impl, Content(old(mem[..]))), old(Position()), ec0, Groups(dest));
              && Position() == d.st && result == |d.bytes| && ec == d.ec
              && result <= |CellsOf(dest)| && mem[..] == Poke(old(mem[..]), CellsOf(dest)[..result], d.bytes)
      ensures impl.Data? && dest != [] ==>
                var d := DataRead(Content(old(mem[..])), old(impl.d.nread), dest);
                && impl.d.nread == d.st && result == |d.bytes| && ec == d.ec
                && mem[..] == Poke(old(mem[..]), CellsOf(dest)[..result], d.bytes)
      ensures impl.Default? && dest != [] ==> result == 0 && ec == Eof && mem[..] == old(mem[..])
    {
      hide CellsOf, Drain, Groups, Poke, Peek, DataRead, Batched, ImplRead, Content, Ended, NextGroup, Gathered;
      ghost var content := Content(mem[..]);
      ghost var job := Job(ImplReader(impl, content), Position(), ec0, dest, mem[..]);
      ghost var soFar: seq<byte> := [];
      if impl.Data? && dest != [] {
        BatchingIsOneRead(impl, content, impl.d.nread, ec0, dest);
      }
      if impl.Default? && dest != [] {
        DefaultEnds(impl, content, Position(), ec0, dest);
        NothingFilled(mem[..], CellsOf(dest));
      }
      result, ec := 0, ec0;
      var n := 0;
      var mb := new Region[N];
      var it := 0;
      BatchedStart(job);
      GatherNothing(mb, dest, it);
      if it == |dest| {
        BatchedEnd(job, Position(), ec, mem[..], soFar);
        EndedMeans(job, Position(), ec, mem[..], soFar);
        return;
      }
      while true
        invariant n <= it < |dest| && n < N && mb.Length == N && fresh(mb)
        invariant Gathered(mb, n, dest, it)
        invariant result == |soFar|
        invariant Ready(dest, mem.Length) && Content(mem[..]) == content
        invariant Batched(job, it - n, Position(), ec, mem[..], soFar)
        decreases |dest| - it
      {
        Gather(mb, n, dest, it);
        n, it := n + 1, it + 1;
        if n < N && it != |dest| {
          continue;
        }
        var nread;
        ghost var bytes;
        GatherGroup(mb, n, dest, it);
        nread, ec, bytes := ReadGroup(mem, mb[..n], job, content, it - n, ec, soFar);
        assert ec.Failed() || nread == Regions.Size(mb[..n]);
        result := result + nread;
        soFar := soFar + bytes;
        if ec.Failed() {
          break;
        }
        if it == |dest| {
          BatchedEnd(job, Position(), ec, mem[..], soFar);
          break;
        }
        n := 0;
        GatherNothing(mb, dest, it);
      }
      EndedMeans(job, Position(), ec, mem[..], soFar);
    }
  }
}
