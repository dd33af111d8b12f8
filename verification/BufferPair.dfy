/** Slicing a pair of buffers in place, and the agreement of the three slicing
    implementations: one buffer, a pair, and a slice of any sequence. */
module BufferPairs {
  import opened Regions
  import opened SliceStates
  import opened SliceLaws
  import opened Slicing

  function PairSlice(p: Region, q: Region, how: SliceHow, n: nat): (Region, Region) {
    match how
    case RemovePrefix => if n < p.len then (p.Advance(n), q) else (q.Advance(n - p.len), NOTHING)
    case KeepPrefix => if n <= p.len then (Region(p.off, n), NOTHING) else (p, q.DoSlice(how, n - p.len))
  }

  lemma PairCells(p: Region, q: Region)
    ensures CellsOf([p, q]) == p.Cells() + q.Cells()
  {
    assert [p] + [q] == [p, q];
    CellsSnoc([p], q);
    CellsOne(p);
  }

  lemma PairDenotes(p: Region, q: Region, how: SliceHow, n: nat)
    ensures var (p', q') := PairSlice(p, q, how, n);
            CellsOf([p', q']) == ApplyCells(CellsOf([p, q]), Step(how, n))
  {
    var (p', q') := PairSlice(p, q, how, n);
    PairCells(p, q);
    PairCells(p', q');
  }

  /** tag_invoke on a pair; the const and the mutable version are the same code. */
  method SlicePair(bs: array<Region>, how: SliceHow, n: nat)
    requires bs.Length == 2
    modifies bs
    ensures (bs[0], bs[1]) == PairSlice(old(bs[0]), old(bs[1]), how, n)
    ensures CellsOf(bs[..]) == ApplyCells(CellsOf(old(bs[..])), Step(how, n))
  {
    PairDenotes(bs[0], bs[1], how, n);
    assert bs[..] == [bs[0], bs[1]];
    var m := n;
    match how {
      case RemovePrefix =>
        if m < bs[0].len {
          bs[0] := bs[0].DoSlice(how, m);
        } else {
          m := m - bs[0].len;
          bs[0] := bs[1];
          bs[1] := NOTHING;
          bs[0] := bs[0].DoSlice(how, m);
        }
      case KeepPrefix =>
        if m <= bs[0].len {
          bs[0] := bs[0].DoSlice(how, m);
          bs[1] := NOTHING;
        } else {
          m := m - bs[0].len;
          bs[1] := bs[1].DoSlice(how, m);
        }
    }
    assert bs[..] == [bs[0], bs[1]];
  }

  /** Any of the sliceable sequences. */
  datatype Sliceable = One(r: Region) | Pair(p: Region, q: Region) | Many(s: Slice) {
    ghost predicate Valid() {
      Many? ==> s.Inv() && s.Counted()
    }

    function Cells(): seq<nat>
      requires Many? ==> s.Shape()
    {
      match this
      case One(r) => CellsOf([r])
      case Pair(p, q) => CellsOf([p, q])
      case Many(s) => s.Cells()
    }

    /** Dispatch of tag_invoke. */
    function Sliced(how: SliceHow, n: nat): (x: Sliceable)
      requires Valid()
      ensures x.Many? ==> x.s.Inv()
    {
      match this
      case One(r) => One(r.DoSlice(how, n))
      case Pair(p, q) => var (p', q') := PairSlice(p, q, how, n); Pair(p', q')
      case Many(s) =>
        Window(s);
        StepDenotes(s, Step(how, n));
        Many(if how.KeepPrefix? then s.KeepPrefix(n) else s.RemovePrefix(n))
    }

    function Prefix(n: nat): (x: Sliceable)
      requires Valid()
      ensures x.Many? ==> x.s.Inv()
    {
      Sliced(SliceHow.KeepPrefix, n)
    }

    function Suffix(n: nat): (x: Sliceable)
      requires Valid()
      ensures x.Many? ==> x.s.Inv()
    {
      var n0 := |Cells()|;
      if n < n0 then Sliced(SliceHow.RemovePrefix, n0 - n) else this
    }

    function SansPrefix(n: nat): (x: Sliceable)
      requires Valid()
      ensures x.Many? ==> x.s.Inv()
    {
      Sliced(SliceHow.RemovePrefix, n)
    }

    function SansSuffix(n: nat): (x: Sliceable)
      requires Valid()
      ensures x.Many? ==> x.s.Inv()
    {
      var n0 := |Cells()|;
      if n > 0 then Sliced(SliceHow.KeepPrefix, n0 - Min(n, n0)) else this
    }
  }

  lemma SlicedDenotes(x: Sliceable, how: SliceHow, n: nat)
    requires x.Valid()
    ensures x.Sliced(how, n).Cells() == ApplyCells(x.Cells(), Step(how, n))
  {
    match x
    case One(r) => DoSliceDenotes(r, n);
    case Pair(p, q) => PairDenotes(p, q, how, n);
    case Many(s) =>
      Window(s);
      StepDenotes(s, Step(how, n));
  }

  /** Every implementation takes and drops the same cells, at every n. */
  lemma SlicingDenotes(x: Sliceable, n: nat)
    requires x.Valid()
    ensures x.Prefix(n).Cells() == Take(x.Cells(), n)
    ensures x.Suffix(n).Cells() == TakeLast(x.Cells(), n)
    ensures x.SansPrefix(n).Cells() == Drop(x.Cells(), n)
    ensures x.SansSuffix(n).Cells() == DropLast(x.Cells(), n)
  {
    hide CellsOf;
    var n0 := |x.Cells()|;
    SlicedDenotes(x, SliceHow.KeepPrefix, n);
    SlicedDenotes(x, SliceHow.RemovePrefix, n);
    if n < n0 {
      SlicedDenotes(x, SliceHow.RemovePrefix, n0 - n);
    }
    SlicedDenotes(x, SliceHow.KeepPrefix, n0 - Min(n, n0));
  }

  /** Slicing the same cells through any two implementations gives the same cells, and
      what is kept and what is removed reassemble the original. */
  lemma ImplementationsAgree(x: Sliceable, y: Sliceable, n: nat)
    requires x.Valid() && y.Valid() && x.Cells() == y.Cells()
    ensures x.Prefix(n).Cells() == y.Prefix(n).Cells()
    ensures x.Suffix(n).Cells() == y.Suffix(n).Cells()
    ensures x.SansPrefix(n).Cells() == y.SansPrefix(n).Cells()
    ensures x.SansSuffix(n).Cells() == y.SansSuffix(n).Cells()
    ensures x.Prefix(n).Cells() + y.SansPrefix(n).Cells() == x.Cells()
    ensures x.SansSuffix(n).Cells() + y.Suffix(n).Cells() == x.Cells()
  {
    TakeDrop(x.Cells(), n);
    hide *;
    SlicingDenotes(x, n);
    SlicingDenotes(y, n);
  }

  lemma TakeDrop<T>(c: seq<T>, n: nat)
    ensures Take(c, n) + Drop(c, n) == c
    ensures DropLast(c, n) + TakeLast(c, n) == c
  {
  }
}
