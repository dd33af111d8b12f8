/** A dynamic buffer in one contiguous piece of fixed-size storage. */
module FlatBuffers {
  import opened Regions

  datatype FlatState = FlatState(base: nat, cap: nat, inPos: nat, inSize: nat, outSize: nat) {
    ghost predicate Valid() {
      inPos + inSize + outSize <= cap
    }

    function Data(): Region {
      Region(base + inPos, inSize)
    }

    /** The buffer at which the next commit takes its bytes. */
    function Prepared(): Region {
      Region(base + inPos + inSize, outSize)
    }

    function Accepts(n: nat): bool {
      inPos + inSize + n <= cap
    }

    function Prepare(n: nat): FlatState {
      this.(outSize := n)
    }

    function Commit(n: nat): FlatState {
      this.(inSize := inSize + Min(n, outSize), outSize := 0)
    }

    function Consume(n: nat): FlatState {
      if n < inSize then this.(inPos := inPos + n, inSize := inSize - n) else this.(inPos := 0, inSize := 0)
    }

    /** Consuming n bytes leaves the prepared region in place. */
    predicate Keeps(n: nat) {
      outSize == 0 || n < inSize || inPos + inSize == 0
    }
  }

  lemma FlatCommitCells(f: FlatState, n: nat)
    requires f.Valid()
    ensures f.Commit(n).Valid()
    ensures f.Commit(n).Data().Cells() == f.Data().Cells() + Take(f.Prepared().Cells(), n)
    ensures f.Commit(n).Prepared().Cells() == []
  {
  }

  /** Consume drops readable cells at the front.  It moves the prepared region exactly
      when it empties a buffer that does not start at the storage: a commit then appends
      other cells than those prepared. */
  lemma FlatConsumeCells(f: FlatState, n: nat)
    requires f.Valid()
    ensures f.Consume(n).Valid()
    ensures f.Consume(n).Data().Cells() == Drop(f.Data().Cells(), n)
    ensures f.Consume(n).Prepared().Cells() == f.Prepared().Cells() <==> f.Keeps(n)
  {
    var g := f.Consume(n);
    if !f.Keeps(n) {
      assert f.Prepared().Cells()[0] == f.base + f.inPos + f.inSize;
      assert g.Prepared().Cells()[0] == f.base;
    }
  }

  /** A commit after such a consume: emptying the buffer with a region pending and then
      committing k bytes appends storage from its start, which are the prepared cells
      exactly if nothing is committed or the region lay there anyway. */
  lemma FlatStaleCommit(f: FlatState, n: nat, k: nat)
    requires f.Valid() && f.outSize > 0 && n >= f.inSize
    ensures f.Consume(n).Commit(k).Data() == Region(f.base, Min(k, f.outSize))
    ensures f.Consume(n).Commit(k).Data().Cells() == Take(f.Prepared().Cells(), k)
            <==> k == 0 || f.inPos + f.inSize == 0
  {
    var got, want := f.Consume(n).Commit(k).Data().Cells(), Take(f.Prepared().Cells(), k);
    if k > 0 {
      assert got[0] == f.base && want[0] == f.base + f.inPos + f.inSize;
    }
  }

  /** Preparing fails exactly for lack of storage behind the readable bytes.  That is the
      documented limit, size() + n against max_size(), only while nothing in front of
      them has been consumed. */
  lemma FlatAcceptsDocumented(f: FlatState)
    requires f.Valid()
    ensures (forall n: nat :: f.Accepts(n) <==> f.inSize + n <= f.cap) <==> f.inPos == 0
  {
    if f.inPos > 0 {
      var n := f.cap - f.inSize;
      assert !f.Accepts(n) && f.inSize + n <= f.cap;
    }
  }

  /** Consuming everything makes all of the storage available again, whether or not a region
      is prepared; consuming less gives nothing back. */
  lemma FlatAfterConsume(f: FlatState, n: nat, m: nat)
    requires f.Valid()
    ensures n >= f.inSize ==> (f.Consume(n).Accepts(m) <==> m <= f.cap)
    ensures n < f.inSize ==> (f.Consume(n).Accepts(m) <==> f.Accepts(m))
  {
  }

  datatype PrepareResult = Buffer(b: Region) | InvalidArgument

  class FlatBuffer {
    const base: nat
    const cap: nat
    var inPos: nat
    var inSize: nat
    var outSize: nat

    ghost function State(): FlatState
      reads this
    {
      FlatState(base, cap, inPos, inSize, outSize)
    }

    constructor (base: nat, cap: nat, initialSize: nat)
      requires initialSize <= cap
      ensures State() == FlatState(base, cap, 0, initialSize, 0) && State().Valid()
    {
      this.base, this.cap, inPos, inSize, outSize := base, cap, 0, initialSize, 0;
    }

    function Capacity(): nat
      requires inPos + inSize <= cap
      reads this
    {
      cap - (inPos + inSize)
    }

    method Data() returns (r: Region)
      ensures r == State().Data()
    {
      return Region(base + inPos, inSize);
    }

    method Prepare(n: nat) returns (r: PrepareResult)
      requires State().Valid()
      modifies this
      ensures State().Valid()
      ensures r.Buffer? <==> n <= cap - old(inPos) - old(inSize)
      ensures State() == if r.Buffer? then old(State()).Prepare(n) else old(State())
      ensures r.Buffer? ==> r.b == State().Prepared() && r.b.len == n
      ensures State().Data() == old(State()).Data()
    {
      if n > Capacity() {
        return InvalidArgument;
      }
      outSize := n;
      return Buffer(Region(base + inPos + inSize, n));
    }

    method Commit(n: nat)
      requires State().Valid()
      modifies this
      ensures State().Valid() && State() == old(State()).Commit(n)
      ensures State().Data().Cells() == old(State()).Data().Cells() + Take(old(State()).Prepared().Cells(), n)
    {
      FlatCommitCells(State(), n);
      if n < outSize {
        inSize := inSize + n;
      } else {
        inSize := inSize + outSize;
      }
      outSize := 0;
    }

    method Consume(n: nat)
      requires State().Valid()
      modifies this
      ensures State().Valid() && State() == old(State()).Consume(n)
      ensures State().Data().Cells() == Drop(old(State()).Data().Cells(), n)
      ensures State().Prepared().Cells() == old(State()).Prepared().Cells() <==> old(State()).Keeps(n)
    {
      FlatConsumeCells(State(), n);
      if n < inSize {
        inPos := inPos + n;
        inSize := inSize - n;
      } else {
        inPos := 0;
        inSize := 0;
      }
    }
  }

  datatype MakeResult = Made(b: FlatBuffer) | TooLarge

  /** The constructor, with the error it throws. */
  method MakeFlat(base: nat, cap: nat, initialSize: nat) returns (r: MakeResult)
    ensures r.Made? <==> initialSize <= cap
    ensures r.Made? ==>
              && fresh(r.b) && r.b.State() == FlatState(base, cap, 0, initialSize, 0) && r.b.State().Valid()
              && r.b.State().Data() == Region(base, initialSize)
  {
    if initialSize > cap {
      return TooLarge;
    }
    var b := new FlatBuffer(base, cap, initialSize);
    return Made(b);
  }
}
