/** Iterating slices, and the eight slicing algorithms. */
module Slicing {
  import opened Regions
  import opened SliceStates
  import opened Slices

  /** The last min(n, |s|) elements. */
  function TakeLast<T>(s: seq<T>, n: nat): seq<T> {
    Drop(s, |s| - Min(n, |s|))
  }

  /** All but the last min(n, |s|) elements. */
  function DropLast<T>(s: seq<T>, n: nat): seq<T> {
    Take(s, |s| - Min(n, |s|))
  }

  // ---- iteration

  /** Walking ++ from begin() to end() visits the len buffers of the slice in order. */
  method Forward(s: SliceOf) returns (out: seq<Region>)
    requires s.State().Shape()
    ensures out == s.State().Buffers() && |out| == s.len
  {
    var it := s.Begin();
    var e := s.End();
    ghost var st := s.State();
    out := [];
    while !it.Equals(e)
      invariant s.State() == st && e.Points(st, st.len) && it != e
      invariant |out| <= st.len && it.Points(st, |out|)
      invariant out == st.Buffers()[..|out|]
      decreases st.len - |out|
    {
      IteratorPositions(st, it, |out|, e, st.len);
      out := out + [it.Deref(st, |out|)];
      it.Increment();
    }
    IteratorPositions(st, it, |out|, e, st.len);
  }

  /** Walking -- from end() to begin() visits the same buffers, last first. */
  method Backward(s: SliceOf) returns (out: seq<Region>)
    requires s.State().Shape()
    ensures |out| == s.len
    ensures forall i :: 0 <= i < |out| ==> out[i] == s.State().Buffers()[s.len - 1 - i]
  {
    var it := s.End();
    var b := s.Begin();
    ghost var st := s.State();
    out := [];
    while !it.Equals(b)
      invariant s.State() == st && b.Points(st, 0) && it != b
      invariant |out| <= st.len && it.Points(st, st.len - |out|)
      invariant forall i :: 0 <= i < |out| ==> out[i] == st.At(st.len - 1 - i)
      decreases st.len - |out|
    {
      IteratorPositions(st, it, st.len - |out|, b, 0);
      it.Decrement();
      out := out + [it.Deref(st, st.len - |out| - 1)];
    }
    IteratorPositions(st, it, st.len - |out|, b, 0);
  }

  /** size(): the bytes counted by iteration, not the stored total. */
  method SizeOfSlice(s: SliceOf) returns (n: nat)
    requires s.State().Shape()
    ensures n == |s.State().Cells()|
  {
    var it := s.Begin();
    var e := s.End();
    ghost var st, k := s.State(), 0;
    n := 0;
    while !it.Equals(e)
      invariant s.State() == st && e.Points(st, st.len) && it != e
      invariant k <= st.len && it.Points(st, k)
      invariant n == Size(st.Buffers()[..k])
      decreases st.len - k
    {
      IteratorPositions(st, it, k, e, st.len);
      SizeNext(st.Buffers(), k);
      n := n + it.Deref(st, k).len;
      it.Increment();
      k := k + 1;
    }
    IteratorPositions(st, it, k, e, st.len);
    assert st.Buffers()[..k] == st.Buffers();
  }

  // ---- in place

  method KeepPrefix(s: SliceOf, n: nat)
    requires s.State().Inv() && s.State().KeepSafe(n)
    modifies s
    ensures s.State().Inv() && s.State() == old(s.State()).KeepPrefix(n)
    ensures s.State().Cells() == Take(old(s.State()).Cells(), n)
  {
    s.SliceImpl(SliceHow.KeepPrefix, n);
  }

  method RemovePrefix(s: SliceOf, n: nat)
    requires s.State().Inv()
    modifies s
    ensures s.State().Inv() && s.State() == old(s.State()).RemovePrefix(n)
    ensures s.State().Cells() == Drop(old(s.State()).Cells(), n)
  {
    s.SliceImpl(SliceHow.RemovePrefix, n);
  }

  /** Safe in every state: it never asks for a prefix of an empty slice. */
  method KeepSuffix(s: SliceOf, n: nat)
    requires s.State().Inv()
    modifies s
    ensures var s0, n0 := old(s.State()), |old(s.State()).Cells()|;
            s.State().Inv() && s.State() == if n < n0 then s0.RemovePrefix(n0 - n) else s0
    ensures s.State().Cells() == TakeLast(old(s.State()).Cells(), n)
  {
    var n0 := SizeOfSlice(s);
    if n < n0 {
      s.SliceImpl(SliceHow.RemovePrefix, n0 - n);
    }
  }

  /** Safe in every state: on an empty slice it keeps zero bytes. */
  method RemoveSuffix(s: SliceOf, n: nat)
    requires s.State().Inv()
    modifies s
    ensures var s0, n0 := old(s.State()), |old(s.State()).Cells()|;
            && s.State().Inv() && s0.KeepSafe(n0 - Min(n, n0))
            && s.State() == if n > 0 then s0.KeepPrefix(n0 - Min(n, n0)) else s0
    ensures s.State().Cells() == DropLast(old(s.State()).Cells(), n)
  {
    var n0 := SizeOfSlice(s);
    Window(s.State());
    if n > 0 {
      var m := n;
      if m > n0 {
        m := n0;
      }
      s.SliceImpl(SliceHow.KeepPrefix, n0 - m);
    }
  }

  // ---- returning a slice of a sequence

  method Prefix(bs: seq<Region>, n: nat) returns (r: SliceOf)
    ensures fresh(r) && r.State().Inv()
    ensures r.State().Cells() == Take(CellsOf(bs), n)
  {
    r := new SliceOf(bs);
    Window(r.State());
    KeepPrefix(r, n);
  }

  method Suffix(bs: seq<Region>, n: nat) returns (r: SliceOf)
    ensures fresh(r) && r.State().Inv()
    ensures r.State().Cells() == TakeLast(CellsOf(bs), n)
  {
    r := new SliceOf(bs);
    KeepSuffix(r, n);
  }

  method SansPrefix(bs: seq<Region>, n: nat) returns (r: SliceOf)
    ensures fresh(r) && r.State().Inv()
    ensures r.State() == Whole(bs).RemovePrefix(n)
    ensures r.State().Cells() == Drop(CellsOf(bs), n)
  {
    r := new SliceOf(bs);
    RemovePrefix(r, n);
  }

  method SansSuffix(bs: seq<Region>, n: nat) returns (r: SliceOf)
    ensures fresh(r) && r.State().Inv()
    ensures r.State().Cells() == DropLast(CellsOf(bs), n)
  {
    r := new SliceOf(bs);
    RemoveSuffix(r, n);
  }
}
