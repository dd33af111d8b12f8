/** The state of a slice as a value: which part of the base sequence it covers, what
    each slicing step does to the state, and what that means for the cells. */
module SliceStates {
  import opened Regions

  /** Skip whole buffers from the front; the rest of n is inside the buffer reached. */
  function SkipFront(bs: seq<Region>, begin: nat, end: nat, n: nat): (r: (nat, nat))
    requires begin <= end <= |bs|
    ensures begin <= r.0 <= end
    decreases end - begin
  {
    if n == 0 || begin == end || n < bs[begin].len then (begin, n)
    else SkipFront(bs, begin + 1, end, n - bs[begin].len)
  }

  lemma {:induction false} SkipFrontSpec(bs: seq<Region>, begin: nat, end: nat, n: nat)
    requires begin <= end <= |bs|
    ensures var (b, p) := SkipFront(bs, begin, end, n);
            && Size(bs[..begin]) + n == Size(bs[..b]) + p
            && (b < end ==> p == 0 || p < bs[b].len)
    decreases end - begin
  {
    if n > 0 && begin < end && n >= bs[begin].len {
      SizeNext(bs, begin);
      SkipFrontSpec(bs, begin + 1, end, n - bs[begin].len);
    }
  }

  /** Skip whole buffers from the back, but never the buffer at begin. */
  function SkipBack(bs: seq<Region>, begin: nat, end: nat, n: nat): (r: (nat, nat))
    requires begin < end <= |bs|
    ensures begin < r.0 <= end
    decreases end
  {
    if begin == end - 1 || n < bs[end - 1].len then (end, n)
    else SkipBack(bs, begin, end - 1, n - bs[end - 1].len)
  }

  lemma {:induction false} SkipBackSpec(bs: seq<Region>, begin: nat, end: nat, n: nat)
    requires begin < end <= |bs|
    ensures var (e, q) := SkipBack(bs, begin, end, n);
            && Size(bs[..end]) + q == Size(bs[..e]) + n
            && (e == begin + 1 || q < bs[e - 1].len)
    decreases end
  {
    if begin < end - 1 && n >= bs[end - 1].len {
      SizeNext(bs, end - 1);
      SkipBackSpec(bs, begin, end - 1, n - bs[end - 1].len);
    }
  }

  function TrimFront(w: seq<Region>, p: nat): seq<Region>
    requires w != [] && p <= w[0].len
  {
    w[0 := Region(w[0].off + p, w[0].len - p)]
  }

  function TrimBack(w: seq<Region>, q: nat): seq<Region>
    requires w != [] && q <= w[|w| - 1].len
  {
    w[|w| - 1 := Region(w[|w| - 1].off, w[|w| - 1].len - q)]
  }

  datatype Slice = Slice(bs: seq<Region>, begin: nat, end: nat, len: nat, size: nat, prefix: nat, suffix: nat) {

    /** The indices stay inside the base, and the used bytes inside the end buffers. */
    ghost predicate Shape() {
      && begin <= end <= |bs|
      && len == end - begin
      && (len == 1 ==> prefix + suffix <= bs[begin].len)
      && (len > 1 ==> prefix <= bs[begin].len && suffix <= bs[end - 1].len)
    }

    /** Logical offset, in the base sequence, of the first byte of the slice. */
    ghost function Lo(): nat
      requires begin <= |bs|
    {
      Size(bs[..begin]) + prefix
    }

    /** What every reachable state satisfies.  On an empty range either a used prefix
        or a byte count may be left over, never both. */
    ghost predicate Inv() {
      && Shape()
      && (begin < end ==> Lo() + size + suffix == Size(bs[..end]))
      && (begin == end ==> size == 0 || prefix == 0)
      && size + prefix <= Size(bs)
    }

    /** The buffer the iterator yields at position i. */
    function At(i: nat): Region
      requires Shape() && i < len
    {
      var r := bs[begin + i];
      var p := if i == 0 then prefix else 0;
      var q := if i == len - 1 then suffix else 0;
      Region(r.off + p, r.len - p - q)
    }

    /** The buffers of the slice, in order. */
    function Buffers(): (r: seq<Region>)
      requires Shape()
      ensures |r| == len
      ensures forall i :: 0 <= i < len ==> r[i] == At(i)
    {
      seq(len, i requires 0 <= i < len => At(i))
    }

    function Cells(): seq<nat>
      requires Shape()
    {
      CellsOf(Buffers())
    }

    /** The stored byte total is the iterated one. */
    ghost predicate Counted()
      requires Shape()
    {
      size == |Cells()|
    }

    function RemovePrefix(n: nat): Slice
      requires begin <= end <= |bs|
    {
      var k := Min(n, size) + prefix;
      var (b, p) := SkipFront(bs, begin, end, k);
      var used := if b == end then 0 else p;
      Slice(bs, b, end, end - b, size + prefix - k + p - used, used, suffix)
    }

    /** The two assertions at the entry of remove_suffix_impl. */
    predicate SuffixAsserts() {
      size == 0 <==> begin == end
    }

    function RemoveSuffix(n: nat): Slice
      requires begin <= end <= |bs| && SuffixAsserts()
    {
      if size == 0 then this
      else
        var m := Min(n, size);
        var (e, q) := SkipBack(bs, begin, end, m + suffix);
        if e == begin + 1 && q >= bs[begin].len - prefix then
          this.(end := begin, len := 0, size := 0, suffix := 0)
        else
          this.(end := e, len := e - begin, size := size - m, suffix := q)
    }

    /** keep_prefix(n) does not trip an assertion. */
    predicate KeepSafe(n: nat) {
      !(begin == end && 0 < n < size)
    }

    function KeepPrefix(n: nat): Slice
      requires begin <= end <= |bs| && KeepSafe(n)
    {
      if n >= size then this
      else if n == 0 then this.(end := begin, len := 0, size := 0)
      else RemoveSuffix(size - n)
    }
  }

  /** The slice of a whole sequence. */
  function Whole(bs: seq<Region>): (s: Slice)
    ensures s.Inv() && s.Lo() == 0
  {
    assert bs[..|bs|] == bs;
    Slice(bs, 0, |bs|, |bs|, Size(bs), 0, 0)
  }

  // ---- what the trimmed buffers denote

  lemma TrimFrontDenotes(w: seq<Region>, p: nat)
    requires w != [] && p <= w[0].len
    ensures p <= Size(w)
    ensures CellsOf(TrimFront(w, p)) == CellsOf(w)[p..]
  {
    var r := Region(w[0].off + p, w[0].len - p);
    assert TrimFront(w, p)[1..] == w[1..];
    CutFront(w[0].Cells(), r.Cells(), CellsOf(w[1..]), p);
  }

  lemma CutFront<T>(y: seq<T>, z: seq<T>, x: seq<T>, p: nat)
    requires p <= |y| && |z| == |y| - p && forall i :: 0 <= i < |z| ==> z[i] == y[p + i]
    ensures z + x == (y + x)[p..]
  {
  }

  lemma TrimLast(w: seq<Region>, a: seq<Region>, last: Region, r: Region, t: seq<Region>)
    requires w == a + [last] && t == a + [r]
    requires r.off == last.off && r.len <= last.len
    ensures last.len <= Size(w)
    ensures CellsOf(t) == CellsOf(w)[..Size(w) - (last.len - r.len)]
  {
    hide CellsOf;
    CellsSnoc(a, last);
    CellsSnoc(a, r);
    CutBack(CellsOf(w), CellsOf(a), last.Cells(), r.Cells());
  }

  lemma TrimBackDenotes(w: seq<Region>, q: nat)
    requires w != [] && q <= w[|w| - 1].len
    ensures q <= Size(w)
    ensures CellsOf(TrimBack(w, q)) == CellsOf(w)[..Size(w) - q]
  {
    hide CellsOf;
    var k := |w| - 1;
    TrimLast(w, w[..k], w[k], Region(w[k].off, w[k].len - q), TrimBack(w, q));
  }

  lemma CutBack<T>(c: seq<T>, x: seq<T>, y: seq<T>, z: seq<T>)
    requires c == x + y && z <= y
    ensures c[..|c| - (|y| - |z|)] == x + z
  {
  }

  lemma TrimDenotes(w: seq<Region>, p: nat, q: nat)
    requires w != [] && p <= w[0].len
    requires var t := TrimFront(w, p); q <= t[|t| - 1].len
    ensures p + q <= Size(w)
    ensures CellsOf(TrimBack(TrimFront(w, p), q)) == CellsOf(w)[p..Size(w) - q]
  {
    hide CellsOf;
    TrimFrontDenotes(w, p);
    var t := TrimFront(w, p);
    assert t != [];
    TrimBackDenotes(t, q);
    FrontThenBack(CellsOf(w), p, q);
  }

  lemma FrontThenBack<T>(c: seq<T>, p: nat, q: nat)
    requires p + q <= |c|
    ensures c[p..][..|c| - p - q] == c[p..|c| - q]
  {
  }

  lemma BuffersAreTrimmed(s: Slice, w: seq<Region>)
    requires s.Shape() && s.begin < s.end && w == s.bs[s.begin..s.end]
    ensures s.prefix <= w[0].len
    ensures var t := TrimFront(w, s.prefix);
            s.suffix <= t[|t| - 1].len && s.Buffers() == TrimBack(t, s.suffix)
  {
  }

  lemma WindowNonEmpty(s: Slice)
    requires s.Inv() && s.begin < s.end
    ensures s.Lo() + s.size <= Size(s.bs)
    ensures s.Cells() == CellsOf(s.bs)[s.Lo()..s.Lo() + s.size]
  {
    hide CellsOf;
    var w := s.bs[s.begin..s.end];
    BuffersAreTrimmed(s, w);
    RangeDenotes(s.bs, s.begin, s.end);
    TrimDenotes(w, s.prefix, s.suffix);
    SliceTwice(CellsOf(s.bs), CellsOf(w), Size(s.bs[..s.begin]), Size(s.bs[..s.end]), s.prefix, s.suffix);
  }

  lemma SliceTwice<T>(c: seq<T>, d: seq<T>, lo: nat, hi: nat, p: nat, q: nat)
    requires lo + p + q <= hi <= |c| && d == c[lo..hi]
    ensures d[p..|d| - q] == c[lo + p..hi - q]
  {
    assert forall i :: 0 <= i < |d| ==> d[i] == c[lo + i];
  }

  /** A slice is a window of its base: it iterates the cells Lo .. Lo + size. */
  lemma Window(s: Slice)
    requires s.Inv()
    ensures s.begin == s.end ==> s.Cells() == []
    ensures s.begin < s.end ==> s.Lo() + s.size <= Size(s.bs)
    ensures s.begin < s.end ==> s.Cells() == CellsOf(s.bs)[s.Lo()..s.Lo() + s.size]
    ensures s.Counted() <==> (s.begin == s.end ==> s.size == 0)
  {
    if s.begin < s.end {
      hide CellsOf;
      WindowNonEmpty(s);
    } else {
      assert s.Buffers() == [];
    }
  }
}
