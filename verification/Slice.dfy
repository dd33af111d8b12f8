/** A wrapper enabling a buffer sequence to be consumed, its iterators, and the
    slicing algorithms. */
module Slices {
  import opened Regions
  import opened SliceStates
  import opened SliceLaws

  /** A position in a slice: the base position plus the trimming of the end buffers. */
  class ConstIterator {
    const bs: seq<Region>
    const prefix: nat
    const suffix: nat
    const n: nat
    var it: nat
    var i: nat

    /** This iterator stands at position k of slice s. */
    ghost predicate Points(s: Slice, k: nat)
      reads this
    {
      s.Shape() && k <= s.len && bs == s.bs && prefix == s.prefix && suffix == s.suffix && n == s.len
      && i == k && it == s.begin + k
    }

    constructor (bs: seq<Region>, it: nat, prefix: nat, suffix: nat, i: nat, n: nat)
      ensures this.bs == bs && this.it == it && this.prefix == prefix && this.suffix == suffix
      ensures this.i == i && this.n == n
    {
      this.bs, this.it, this.prefix, this.suffix, this.i, this.n := bs, it, prefix, suffix, i, n;
    }

    predicate Equals(other: ConstIterator)
      reads this, other
    {
      it == other.it && bs == other.bs && prefix == other.prefix && suffix == other.suffix
      && i == other.i && n == other.n
    }

    function Deref(ghost s: Slice, ghost k: nat): (r: Region)
      requires Points(s, k) && k < s.len
      reads this
      ensures r == s.At(k)
    {
      var v := bs[it];
      var p := if i == 0 then prefix else 0;
      var q := if i == n - 1 then suffix else 0;
      Region(v.off + p, v.len - p - q)
    }

    method Increment()
      requires i < n
      modifies this
      ensures i == old(i) + 1 && it == old(it) + 1
    {
      it := it + 1;
      i := i + 1;
    }

    method Decrement()
      requires 0 < i <= it
      modifies this
      ensures i == old(i) - 1 && it == old(it) - 1
    {
      it := it - 1;
      i := i - 1;
    }
  }

  /** Iterators of one slice are equal exactly at equal positions, and the buffer at a
      position is part of the base buffer at that index. */
  lemma IteratorPositions(s: Slice, a: ConstIterator, j: nat, b: ConstIterator, k: nat)
    requires a.Points(s, j) && b.Points(s, k)
    ensures a.Equals(b) <==> j == k
    ensures j < s.len ==>
              var base, r := s.bs[s.begin + j], a.Deref(s, j);
              base.off <= r.off && r.off + r.len <= base.off + base.len
  {
  }

  class SliceOf {
    const bs: seq<Region>
    var begin: nat
    var end: nat
    var len: nat
    var size: nat
    var prefix: nat
    var suffix: nat

    ghost function State(): Slice
      reads this
    {
      Slice(bs, begin, end, len, size, prefix, suffix)
    }

    constructor (bs: seq<Region>)
      ensures this.bs == bs && State() == Whole(bs)
      ensures State().Counted() && State().Cells() == CellsOf(bs)
    {
      this.bs := bs;
      begin, len, size, prefix, suffix := 0, 0, 0, 0, 0;
      end := |bs|;
      new;
      var it := 0;
      while it != |bs|
        invariant 0 <= it <= |bs| && len == it && size == Size(bs[..it])
        invariant this.bs == bs && begin == prefix == suffix == 0 && end == |bs|
      {
        SizeNext(bs, it);
        size := size + bs[it].len;
        len := len + 1;
        it := it + 1;
      }
      assert bs[..it] == bs;
      Window(State());
      assert bs[..0] == [];
      assert bs == [] ==> Size(bs) == 0;
    }

    method Begin() returns (r: ConstIterator)
      requires State().Shape()
      ensures fresh(r) && r.Points(State(), 0)
    {
      r := new ConstIterator(bs, begin, prefix, suffix, 0, len);
    }

    method End() returns (r: ConstIterator)
      requires State().Shape()
      ensures fresh(r) && r.Points(State(), len)
    {
      r := new ConstIterator(bs, end, prefix, suffix, len, len);
    }

    method RemovePrefixImpl(n: nat)
      requires begin <= end <= |bs| && len == end - begin
      modifies this
      ensures State() == old(State()).RemovePrefix(n)
    {
      hide CellsOf;
      ghost var k := Min(n, size) + prefix;
      ghost var r, total := SkipFront(bs, begin, end, k), size + prefix;
      var m: nat := if n > size then size else n;
      m := m + prefix;
      size := size + prefix;
      prefix := 0;
      var it := begin;
      while m > 0 && begin != end
        invariant it == begin <= end == old(end) && prefix == 0 && suffix == old(suffix)
        invariant len == end - begin && m <= size == total - k + m
        invariant SkipFront(bs, begin, end, m) == r
        decreases end - begin
      {
        var b := bs[it];
        if m < b.len {
          prefix := m;
          size := size - m;
          break;
        }
        m := m - b.len;
        size := size - b.len;
        begin := begin + 1;
        it := it + 1;
        len := len - 1;
      }
    }

    method RemoveSuffixImpl(n: nat)
      requires begin <= end <= |bs| && len == end - begin && State().SuffixAsserts()
      requires begin < end ==> prefix <= bs[begin].len
      requires begin < end ==> Size(bs[..begin]) + prefix + size + suffix == Size(bs[..end])
      modifies this
      ensures State() == old(State()).RemoveSuffix(n)
    {
      hide CellsOf;
      if size == 0 {
        assert begin == end;
        return;
      }
      assert begin != end;
      ghost var r, k := SkipBack(bs, begin, end, Min(n, size) + suffix), Min(n, size);
      var m: nat := if n > size then size else n;
      m := m + suffix;
      size := size + suffix;
      suffix := 0;
      var bit, it := begin, end;
      it := it - 1;
      while it != bit
        invariant begin == old(begin) == bit <= it == end - 1 < old(end)
        invariant prefix == old(prefix) && suffix == 0 && len == end - begin
        invariant m <= size == old(size) - k + m
        invariant SkipBack(bs, begin, end, m) == r
        decreases it
      {
        var b := bs[it];
        if m < b.len {
          suffix := m;
          size := size - m;
          return;
        }
        m := m - b.len;
        size := size - b.len;
        it := it - 1;
        end := end - 1;
        len := len - 1;
      }
      var b := bs[it];
      var left := b.len - prefix;
      if m < left {
        suffix := m;
        size := size - m;
        return;
      }
      end := begin;
      len := 0;
      size := 0;
    }

    method KeepPrefixImpl(n: nat)
      requires State().Inv() && State().KeepSafe(n)
      modifies this
      ensures State() == old(State()).KeepPrefix(n)
    {
      hide CellsOf;
      if n >= size {
        return;
      }
      if n == 0 {
        end := begin;
        len := 0;
        size := 0;
        return;
      }
      RemoveSuffixImpl(size - n);
    }

    /** slice_impl, the tag_invoke customization. */
    method SliceImpl(how: SliceHow, n: nat)
      requires State().Inv() && (how.KeepPrefix? ==> State().KeepSafe(n))
      modifies this
      ensures Apply(old(State()), Step(how, n)) == Reached(State())
      ensures State().Inv() && State().Cells() == ApplyCells(old(State()).Cells(), Step(how, n))
    {
      hide CellsOf;
      StepDenotes(State(), Step(how, n));
      match how
      case RemovePrefix => RemovePrefixImpl(n);
      case KeepPrefix => KeepPrefixImpl(n);
    }
  }
}
