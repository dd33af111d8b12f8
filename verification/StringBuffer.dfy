/** A dynamic buffer over a string owned by the caller. */
module StringBuffers {
  import opened Regions

  /** std::string::resize: cut, or extend with zero characters. */
  function Resize(s: seq<byte>, n: nat): (r: seq<byte>)
    ensures |r| == n
    ensures r[..Min(n, |s|)] == s[..Min(n, |s|)]
    ensures forall i :: |s| <= i < n ==> r[i] == 0
  {
    if n <= |s| then s[..n] else s + seq(n - |s|, _ => 0)
  }

  /** The string's characters and the number of the allocation that holds them: growing
      may move them, which the number records by going up. */
  datatype StringState = StringState(s: seq<byte>, alloc: nat, maxSize: nat, inSize: nat, outSize: nat) {
    ghost predicate Valid() {
      inSize + outSize <= |s| <= maxSize
    }

    function Data(): Region {
      Region(0, inSize)
    }

    function Prepared(): Region {
      Region(inSize, outSize)
    }

    function Accepts(n: nat): bool {
      inSize + n <= maxSize
    }

    /** prepare(n) has to make the string longer. */
    predicate Grows(n: nat) {
      |s| < inSize + n
    }

    function Prepare(n: nat): StringState {
      this.(s := Resize(s, if Grows(n) then inSize + n else |s|),
            alloc := if Grows(n) then alloc + 1 else alloc, outSize := n)
    }

    function Commit(n: nat): StringState {
      this.(inSize := inSize + Min(n, outSize), outSize := 0)
    }

    function Consume(n: nat): StringState
      requires inSize <= |s|
    {
      if n < inSize then this.(s := s[n..], inSize := inSize - n, outSize := 0)
      else this.(inSize := 0, outSize := 0)
    }

    /** The readable bytes. */
    function Bytes(): seq<byte>
      requires inSize <= |s|
    {
      s[..inSize]
    }

    /** Consuming n bytes leaves the prepared region in place: none may be pending. */
    predicate Keeps(n: nat) {
      outSize == 0
    }
  }

  /** The constructor cuts an initial string longer than the maximum. */
  function Open(s: seq<byte>, alloc: nat, maxSize: nat): (r: StringState)
    ensures r.Valid() && r.Bytes() == Take(s, maxSize)
  {
    var cut := if |s| > maxSize then Resize(s, maxSize) else s;
    StringState(cut, alloc, maxSize, |cut|, 0)
  }

  lemma StringPrepareKeeps(t: StringState, n: nat)
    requires t.Valid() && t.Accepts(n)
    ensures t.Prepare(n).Valid() && t.Prepare(n).Bytes() == t.Bytes()
    ensures t.s <= t.Prepare(n).s
    ensures |t.Prepare(n).s| == if |t.s| < |t.Bytes()| + n then |t.Bytes()| + n else |t.s|
    ensures forall i :: |t.s| <= i < |t.Prepare(n).s| ==> t.Prepare(n).s[i] == 0
  {
    var r := t.Prepare(n).s;
    assert r[..|t.s|] == t.s;
    assert r[..t.inSize] == r[..|t.s|][..t.inSize];
  }

  lemma StringCommitCells(t: StringState, n: nat)
    requires t.Valid()
    ensures t.Commit(n).Valid()
    ensures t.Commit(n).Data().Cells() == t.Data().Cells() + Take(t.Prepared().Cells(), n)
    ensures t.Commit(n).Prepared().Cells() == []
  {
  }

  lemma StringConsumeBytes(t: StringState, n: nat)
    requires t.Valid()
    ensures t.Consume(n).Valid() && t.Consume(n).Bytes() == Drop(t.Bytes(), n)
    ensures t.Consume(n).Prepared().Cells() == []
    ensures t.Keeps(n) <==> t.Consume(n).Prepared().Cells() == t.Prepared().Cells()
  {
  }

  /** The string, shared with its owner. */
  class OwnedString {
    var chars: seq<byte>
    var alloc: nat

    constructor (chars: seq<byte>)
      ensures this.chars == chars && alloc == 0
    {
      this.chars, alloc := chars, 0;
    }

    /** resize(): growing counts as a new allocation. */
    method SetLength(n: nat)
      modifies this
      ensures chars == Resize(old(chars), n)
      ensures alloc == if n > |old(chars)| then old(alloc) + 1 else old(alloc)
    {
      if n > |chars| {
        alloc := alloc + 1;
      }
      chars := Resize(chars, n);
    }
  }

  datatype PrepareResult = Buffer(b: Region) | InvalidArgument

  class StringBuffer {
    const str: OwnedString
    const maxSize: nat
    var inSize: nat
    var outSize: nat

    ghost function State(): StringState
      reads this, str
    {
      StringState(str.chars, str.alloc, maxSize, inSize, outSize)
    }

    /** stringMax is the string type's own limit. */
    constructor (str: OwnedString, maxSize: nat, stringMax: nat)
      modifies str
      ensures this.str == str
      ensures State() == Open(old(str.chars), old(str.alloc), Min(maxSize, stringMax)) && State().Valid()
    {
      this.str := str;
      this.maxSize := if maxSize > stringMax then stringMax else maxSize;
      inSize, outSize := 0, 0;
      new;
      if |str.chars| > this.maxSize {
        str.SetLength(this.maxSize);
      }
      inSize := |str.chars|;
    }

    method Data() returns (r: Region)
      ensures r == State().Data()
    {
      return Region(0, inSize);
    }

    method Prepare(n: nat) returns (r: PrepareResult)
      requires State().Valid()
      modifies this, str
      ensures State().Valid()
      ensures r.Buffer? <==> |old(State()).Bytes()| + n <= maxSize
      ensures State() == if r.Buffer? then old(State()).Prepare(n) else old(State())
      ensures r.Buffer? ==> r.b == State().Prepared() && r.b.len == n
      ensures State().Bytes() == old(State()).Bytes()
    {
      if n > maxSize - inSize {
        return InvalidArgument;
      }
      StringPrepareKeeps(State(), n);
      assert Resize(str.chars, |str.chars|) == str.chars;
      if |str.chars| < inSize + n {
        str.SetLength(inSize + n);
      }
      outSize := n;
      return Buffer(Region(inSize, outSize));
    }

    method Commit(n: nat)
      requires State().Valid()
      modifies this
      ensures State().Valid() && State() == old(State()).Commit(n)
      ensures State().Bytes() == old(State()).s[..old(inSize) + Min(n, old(outSize))]
    {
      if n < outSize {
        inSize := inSize + n;
      } else {
        inSize := inSize + outSize;
      }
      outSize := 0;
    }

    method Consume(n: nat)
      requires State().Valid()
      modifies this, str
      ensures State().Valid() && State() == old(State()).Consume(n)
      ensures State().Bytes() == Drop(old(State()).Bytes(), n)
    {
      StringConsumeBytes(State(), n);
      if n < inSize {
        str.chars := str.chars[n..];
        inSize := inSize - n;
      } else {
        inSize := 0;
      }
      outSize := 0;
    }

    /** The destructor leaves the readable bytes in the owner's string. */
    method Destroy()
      requires State().Valid()
      modifies str
      ensures str.chars == old(State()).Bytes() && str.alloc == old(str.alloc)
    {
      str.SetLength(inSize);
    }
  }
}
