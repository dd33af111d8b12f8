/** Reading a data source to the end: batching cannot be observed, and every run of
    reads and rewinds delivers exactly the bytes of the source. */
module SourceRuns {
  import opened Regions
  import opened SliceStates
  import opened SliceLaws
  import opened Copying
  import opened Batching
  import opened AnySources

  /** One read of a data source is one copy from what sans_prefix leaves of it. */
  lemma OneReadIsOneCopy(m: seq<byte>, data: seq<Region>, pos: nat, dest: seq<Region>)
    requires Within(CellsOf(data), |m|) && Within(CellsOf(dest), |m|) && Apart(CellsOf(dest), CellsOf(data))
    requires Size(data) <= SIZE_MAX
    ensures var s := Whole(data).RemovePrefix(pos);
            var d := DataRead(Peek(m, CellsOf(data)), pos, dest);
            && s.Inv()
            && |d.bytes| == CopyCount(CellsOf(dest), s.Cells(), SIZE_MAX)
            && Copyable(m, dest, s.Buffers(), SIZE_MAX)
            && |d.bytes| <= |CellsOf(dest)| && Within(CellsOf(dest)[..|d.bytes|], |m|)
            && Poke(m, CellsOf(dest)[..|d.bytes|], d.bytes) == Copied(m, CellsOf(dest), s.Cells(), SIZE_MAX)
  {
    hide CellsOf, Poke, Copyable, Copied;
    var s := Whole(data).RemovePrefix(pos);
    RemovePrefixDenotes(Whole(data), pos);
    WholeCells(data);
    var k := CopyCount(CellsOf(dest), s.Cells(), SIZE_MAX);
    PartsOfApart(CellsOf(dest), CellsOf(data), pos, k, |m|);
    PeekDrop(m, CellsOf(data), pos, k);
    ApartCopyable(m, dest, s.Buffers(), SIZE_MAX);
    CopyDelivers(m, CellsOf(dest), s.Cells(), SIZE_MAX);
  }

  /** What any_source::read does on a data source, by its own contract, is what a single
      copy(dest, sans_prefix(data, nread)) does: count, memory and new offset. */
  lemma BatchingIsInvisible<S(!new)>(impl: Impl<S>, m: seq<byte>, pos: nat, ec: ErrorCode, dest: seq<Region>)
    requires impl.Data? && dest != [] && Size(impl.d.data) <= SIZE_MAX
    requires Within(CellsOf(impl.d.data), |m|) && Within(CellsOf(dest), |m|)
    requires Apart(CellsOf(dest), CellsOf(impl.d.data))
    ensures var content := Peek(m, CellsOf(impl.d.data));
            var d := Drain(ImplReader(impl, content), Offset(pos), ec, Groups(dest));
            var s := Whole(impl.d.data).RemovePrefix(pos);
            && s.Inv()
            && |d.bytes| == CopyCount(CellsOf(dest), s.Cells(), SIZE_MAX)
            && d.st == Offset(pos + |d.bytes|)
            && d.ec == (if pos + |d.bytes| >= |content| then Eof else NoError)
            && Copyable(m, dest, s.Buffers(), SIZE_MAX)
            && |d.bytes| <= |CellsOf(dest)| && Within(CellsOf(dest)[..|d.bytes|], |m|)
            && Poke(m, CellsOf(dest)[..|d.bytes|], d.bytes) == Copied(m, CellsOf(dest), s.Cells(), SIZE_MAX)
  {
    hide CellsOf, Poke, Copied, Copyable, Drain, Groups;
    BatchingIsOneRead(impl, Peek(m, CellsOf(impl.d.data)), pos, ec, dest);
    OneReadIsOneCopy(m, impl.d.data, pos, dest);
  }

  // ---- runs of reads and rewinds

  /** Memory, the source's offset, the last error code, and the bytes found in the
      destinations of all reads since construction or the last rewind. */
  datatype World = World(mem: seq<byte>, pos: nat, ec: ErrorCode, log: seq<byte>)

  ghost predicate Good(data: seq<Region>, op: SourceOp, n: nat) {
    op.ReadInto? ==>
      && Within(CellsOf(op.dest), n) && Distinct(CellsOf(op.dest))
      && Apart(CellsOf(op.dest), CellsOf(data))
  }

  ghost function Next(data: seq<Region>, w: World, op: SourceOp): (r: World)
    requires Within(CellsOf(data), |w.mem|) && Good(data, op, |w.mem|)
    ensures |r.mem| == |w.mem|
  {
    match op
    case Rewind => w.(pos := 0, log := [])
    case ReadInto(dest) =>
      if dest == [] then w
      else
        var d := DataRead(Peek(w.mem, CellsOf(data)), w.pos, dest);
        var cells := CellsOf(dest)[..|d.bytes|];
        WithinFront(CellsOf(dest), |d.bytes|, |w.mem|);
        var mem := Poke(w.mem, cells, d.bytes);
        World(mem, d.st, d.ec, w.log + Peek(mem, cells))
  }

  /** A step of a run is what any_source::read or rewind does by its contract. */
  lemma NextIsRead<S(!new)>(impl: Impl<S>, w: World, dest: seq<Region>)
    requires impl.Data? && Within(CellsOf(impl.d.data), |w.mem|)
    requires Good(impl.d.data, ReadInto(dest), |w.mem|)
    ensures var content := Peek(w.mem, CellsOf(impl.d.data));
            var d := Drain(ImplReader(impl, content), Offset(w.pos), w.ec, Groups(dest));
            var r := Next(impl.d.data, w, ReadInto(dest));
            && d.st == Offset(r.pos) && d.ec == r.ec && |d.bytes| <= |CellsOf(dest)|
            && Within(CellsOf(dest)[..|d.bytes|], |w.mem|)
            && r.mem == Poke(w.mem, CellsOf(dest)[..|d.bytes|], d.bytes)
    ensures var r := Next(impl.d.data, w, Rewind); r.mem == w.mem && r.ec == w.ec && r.pos == 0
  {
    hide CellsOf, Poke, Peek;
    var content := Peek(w.mem, CellsOf(impl.d.data));
    if dest == [] {
      assert CellsOf(dest)[..0] == [];
      PokeNothing(w.mem);
    } else {
      BatchingIsOneRead(impl, content, w.pos, w.ec, dest);
      WithinFront(CellsOf(dest), |DataRead(content, w.pos, dest).bytes|, |w.mem|);
    }
  }

  /** The source still holds its bytes, and the log is what the offset says it is. */
  ghost predicate Streaming(data: seq<Region>, content: seq<byte>, w: World) {
    && Within(CellsOf(data), |w.mem|) && Peek(w.mem, CellsOf(data)) == content
    && w.pos <= |content| && w.log == content[..w.pos]
  }

  lemma TakeNext<T>(c: seq<T>, pos: nat, n: nat)
    requires pos <= |c|
    ensures var b := Take(Drop(c, pos), n); pos + |b| <= |c| && c[..pos] + b == c[..pos + |b|]
  {
  }

  lemma NextStreams(data: seq<Region>, content: seq<byte>, w: World, op: SourceOp)
    requires Streaming(data, content, w) && Good(data, op, |w.mem|)
    ensures Streaming(data, content, Next(data, w, op))
  {
    hide CellsOf, Poke, Peek;
    if op.ReadInto? && op.dest != [] {
      var d := DataRead(content, w.pos, op.dest);
      var cells := CellsOf(op.dest)[..|d.bytes|];
      WithinFront(CellsOf(op.dest), |d.bytes|, |w.mem|);
      PeekPoke(w.mem, cells, d.bytes);
      PeekApart(w.mem, cells, d.bytes, CellsOf(data));
      TakeNext(content, w.pos, Size(op.dest));
    }
  }

  ghost function Run(data: seq<Region>, w: World, ops: seq<SourceOp>): (r: World)
    requires Within(CellsOf(data), |w.mem|)
    requires forall i :: 0 <= i < |ops| ==> Good(data, ops[i], |w.mem|)
    ensures |r.mem| == |w.mem|
    decreases |ops|
  {
    if ops == [] then w else Run(data, Next(data, w, ops[0]), ops[1..])
  }

  /** Streaming over whole runs: whatever the destinations, what has been delivered since
      construction or rewind is exactly the first pos bytes of the source. */
  lemma {:induction false} RunDelivers(data: seq<Region>, content: seq<byte>, w: World, ops: seq<SourceOp>)
    requires Streaming(data, content, w)
    requires forall i :: 0 <= i < |ops| ==> Good(data, ops[i], |w.mem|)
    ensures Streaming(data, content, Run(data, w, ops))
    decreases |ops|
  {
    hide CellsOf, Next, Good, Streaming;
    if ops != [] {
      NextStreams(data, content, w, ops[0]);
      StreamingWithin(data, content, w);
      StreamingWithin(data, content, Next(data, w, ops[0]));
      RunDelivers(data, content, Next(data, w, ops[0]), ops[1..]);
    }
  }

  lemma StreamingWithin(data: seq<Region>, content: seq<byte>, w: World)
    requires Streaming(data, content, w)
    ensures Within(CellsOf(data), |w.mem|)
  {
  }

  /** After a read into a non-empty destination, eof is reported exactly when all bytes
      have been delivered; it fills the destination or reaches the end; and once at the
      end, a read delivers nothing, reports eof, and leaves memory alone. */
  lemma EofExactly(data: seq<Region>, content: seq<byte>, w: World, dest: seq<Region>)
    requires Streaming(data, content, w) && Good(data, ReadInto(dest), |w.mem|) && dest != []
    ensures var r := Next(data, w, ReadInto(dest));
            && (r.ec == Eof <==> r.pos == |content|)
            && (r.ec == NoError <==> r.pos < |content|)
            && r.pos == Min(w.pos + Size(dest), |content|)
            && (w.pos == |content| ==> r == w.(ec := Eof))
  {
    NextStreams(data, content, w, ReadInto(dest));
    if w.pos == |content| {
      assert Drop(content, w.pos) == [];
      assert CellsOf(dest)[..0] == [];
    }
  }

  /** A rewind replays: after it, any further run delivers what the same reads deliver
      from a fresh source, whatever was read before and whatever memory holds. */
  lemma {:induction false} RewindReplays(data: seq<Region>, content: seq<byte>, w: World, v: World, ops: seq<SourceOp>)
    requires Streaming(data, content, w) && Streaming(data, content, v) && w.pos == v.pos && |w.mem| == |v.mem|
    requires forall i :: 0 <= i < |ops| ==> Good(data, ops[i], |w.mem|)
    ensures Run(data, w, ops).pos == Run(data, v, ops).pos
    ensures Run(data, w, ops).log == Run(data, v, ops).log
    ensures (exists i :: 0 <= i < |ops| && ops[i].ReadInto? && ops[i].dest != []) || w.ec == v.ec ==>
              Run(data, w, ops).ec == Run(data, v, ops).ec
    decreases |ops|
  {
    hide CellsOf, Poke, Peek;
    if ops != [] {
      NextStreams(data, content, w, ops[0]);
      NextStreams(data, content, v, ops[0]);
      RewindReplays(data, content, Next(data, w, ops[0]), Next(data, v, ops[0]), ops[1..]);
      if exists i :: 0 <= i < |ops| && ops[i].ReadInto? && ops[i].dest != [] {
        var i :| 0 <= i < |ops| && ops[i].ReadInto? && ops[i].dest != [];
        assert i > 0 ==> ops[1..][i - 1] == ops[i];
      }
    }
  }

  /** Wherever a history contains a rewind, what the calls after it deliver is what they
      deliver from any fresh source over the same data. */
  lemma {:induction false} RewindStartsAgain(data: seq<Region>, content: seq<byte>, w: World, ops: seq<SourceOp>, i: nat, start: World)
    requires Streaming(data, content, w) && i < |ops| && ops[i].Rewind?
    requires forall j :: 0 <= j < |ops| ==> Good(data, ops[j], |w.mem|)
    requires Streaming(data, content, start) && start.pos == 0 && |start.mem| == |w.mem|
    ensures var r, f := Run(data, w, ops), Run(data, start, ops[i + 1..]);
            && r.pos == f.pos && r.log == f.log
            && ((exists j :: i < j < |ops| && ops[j].ReadInto? && ops[j].dest != []) ==> r.ec == f.ec)
    decreases |ops|
  {
    hide CellsOf, Poke, Peek;
    var rest := ops[i + 1..];
    NextStreams(data, content, w, ops[0]);
    if i == 0 {
      RewindReplays(data, content, Next(data, w, ops[0]), start, rest);
      if j :| i < j < |ops| && ops[j].ReadInto? && ops[j].dest != [] {
        assert rest[j - 1] == ops[j];
      }
    } else {
      RewindStartsAgain(data, content, Next(data, w, ops[0]), ops[1..], i - 1, start);
      assert ops[1..][i..] == rest;
      if j :| i < j < |ops| && ops[j].ReadInto? && ops[j].dest != [] {
        assert ops[1..][j - 1] == ops[j];
      }
    }
  }
}
