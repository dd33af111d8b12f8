/** Memory regions and buffer sequences.

    A buffer is a region (offset, length) of one shared memory, and a buffer
    sequence is a finite list of regions.  What a sequence denotes is the list of
    memory cells it runs through, in order: two sequences with the same cells read
    the same bytes and write through to the same places. */
module Regions {

  type byte = x: int | 0 <= x < 0x100

  function Min(a: nat, b: nat): nat {
    if a < b then a else b
  }

  /** The first min(n, |s|) elements. */
  function Take<T>(s: seq<T>, n: nat): seq<T> {
    s[..Min(n, |s|)]
  }

  /** All but the first min(n, |s|) elements. */
  function Drop<T>(s: seq<T>, n: nat): seq<T> {
    s[Min(n, |s|)..]
  }

  datatype SliceHow = RemovePrefix | KeepPrefix

  /** A contiguous range of bytes; the default-constructed buffer is (0, 0). */
  datatype Region = Region(off: nat, len: nat) {
    function Cells(): (c: seq<nat>)
      ensures |c| == len
      ensures forall i :: 0 <= i < len ==> c[i] == off + i
    {
      seq(len, i requires 0 <= i => off + i)
    }

    /** operator+=, clamped to the size of the buffer. */
    function Advance(n: nat): Region {
      var k := if n > len then len else n;
      Region(off + k, len - k)
    }

    function DoSlice(how: SliceHow, n: nat): Region {
      match how
      case RemovePrefix => Advance(n)
      case KeepPrefix => if n < len then Region(off, n) else this
    }
  }

  const NOTHING := Region(0, 0)

  /** The cells a sequence runs through, in order. */
  function CellsOf(bs: seq<Region>): seq<nat> {
    if bs == [] then [] else bs[0].Cells() + CellsOf(bs[1..])
  }

  /** The total number of bytes. */
  function Size(bs: seq<Region>): nat {
    |CellsOf(bs)|
  }

  lemma CellsOne(r: Region)
    ensures CellsOf([r]) == r.Cells() && Size([r]) == r.len
  {
    assert [r][1..] == [];
  }

  lemma CellsSnoc(a: seq<Region>, r: Region)
    ensures CellsOf(a + [r]) == CellsOf(a) + r.Cells()
    ensures Size(a + [r]) == Size(a) + r.len
  {
    CellsConcat(a, [r]);
    CellsOne(r);
  }

  /** Slicing one buffer takes or drops cells. */
  lemma DoSliceDenotes(r: Region, n: nat)
    ensures CellsOf([r.DoSlice(RemovePrefix, n)]) == Drop(CellsOf([r]), n)
    ensures CellsOf([r.DoSlice(KeepPrefix, n)]) == Take(CellsOf([r]), n)
  {
    CellsOne(r);
    CellsOne(r.DoSlice(RemovePrefix, n));
    CellsOne(r.DoSlice(KeepPrefix, n));
  }

  lemma {:induction false} CellsConcat(a: seq<Region>, b: seq<Region>)
    ensures CellsOf(a + b) == CellsOf(a) + CellsOf(b)
    ensures Size(a + b) == Size(a) + Size(b)
  {
    if a == [] {
      assert a + b == b;
    } else {
      CellsConcat(a[1..], b);
      assert (a + b)[0] == a[0] && (a + b)[1..] == a[1..] + b;
      Assoc(a[0].Cells(), CellsOf(a[1..]), CellsOf(b));
    }
  }

  lemma Assoc<T>(x: seq<T>, y: seq<T>, z: seq<T>)
    ensures (x + y) + z == x + (y + z)
  {
  }

  lemma CellsSplit(bs: seq<Region>, i: nat)
    requires i <= |bs|
    ensures CellsOf(bs) == CellsOf(bs[..i]) + CellsOf(bs[i..])
    ensures Size(bs) == Size(bs[..i]) + Size(bs[i..])
  {
    CellsConcat(bs[..i], bs[i..]);
    assert bs[..i] + bs[i..] == bs;
  }

  lemma SizeNext(bs: seq<Region>, i: nat)
    requires i < |bs|
    ensures Size(bs[..i + 1]) == Size(bs[..i]) + bs[i].len
    ensures Size(bs[..i]) + bs[i].len <= Size(bs)
  {
    CellsConcat(bs[..i], [bs[i]]);
    assert bs[..i] + [bs[i]] == bs[..i + 1];
    CellsSplit(bs, i + 1);
  }

  lemma SizeMono(bs: seq<Region>, i: nat, j: nat)
    requires i <= j <= |bs|
    ensures Size(bs[..i]) <= Size(bs[..j]) <= Size(bs)
  {
    CellsSplit(bs, j);
    CellsSplit(bs[..j], i);
    assert bs[..j][..i] == bs[..i];
  }

  /** A range of buffers covers a range of the cells. */
  lemma RangeDenotes(bs: seq<Region>, b: nat, e: nat)
    requires b <= e <= |bs|
    ensures Size(bs[..b]) <= Size(bs[..e]) <= Size(bs)
    ensures CellsOf(bs[b..e]) == CellsOf(bs)[Size(bs[..b])..Size(bs[..e])]
  {
    hide CellsOf;
    CellsSplit(bs, e);
    CellsSplit(bs[..e], b);
    assert bs[..e][..b] == bs[..b] && bs[..e][b..] == bs[b..e];
    var x, y, z := CellsOf(bs[..b]), CellsOf(bs[b..e]), CellsOf(bs[e..]);
    assert (x + y + z)[|x|..|x| + |y|] == y;
  }

  lemma CellsParts(bs: seq<Region>, i: nat)
    requires i < |bs|
    ensures CellsOf(bs) == CellsOf(bs[..i]) + (bs[i].Cells() + CellsOf(bs[i + 1..]))
  {
    CellsSplit(bs, i);
    assert bs[i..][0] == bs[i] && bs[i..][1..] == bs[i + 1..];
  }

  lemma SubCells(r: Region, pos: nat, k: nat)
    requires pos + k <= r.len
    ensures r.Cells()[pos..pos + k] == Region(r.off + pos, k).Cells()
  {
  }

  lemma SliceMiddle<T>(c: seq<T>, x: seq<T>, y: seq<T>, z: seq<T>, t: nat, k: nat, part: seq<T>)
    requires c == x + (y + z) && |x| <= t && t + k <= |x| + |y| && part == y[t - |x|..t - |x| + k]
    ensures t + k <= |c| && c[t..t + k] == part
  {
  }

  /** From logical offset t on, k cells of c are the consecutive addresses from off. */
  ghost predicate RunsAt(c: seq<nat>, t: nat, k: nat, off: nat) {
    t + k <= |c| && c[t..t + k] == Region(off, k).Cells()
  }

  /** Inside buffer i of a sequence, the logical cells are consecutive addresses. */
  lemma CellsAt(bs: seq<Region>, i: nat, pos: nat, k: nat, t: nat, off: nat)
    requires i < |bs| && pos + k <= bs[i].len && t == Size(bs[..i]) + pos && off == bs[i].off + pos
    ensures RunsAt(CellsOf(bs), t, k, off)
  {
    hide CellsOf;
    CellsParts(bs, i);
    SubCells(bs[i], pos, k);
    SliceMiddle(CellsOf(bs), CellsOf(bs[..i]), bs[i].Cells(), CellsOf(bs[i + 1..]), t, k, Region(off, k).Cells());
  }

  ghost predicate Within(a: seq<nat>, n: nat) {
    forall i :: 0 <= i < |a| ==> a[i] < n
  }

  lemma WithinFront(a: seq<nat>, k: nat, n: nat)
    requires Within(a, n) && k <= |a|
    ensures Within(a[..k], n)
  {
  }

  ghost predicate Apart(a: seq<nat>, b: seq<nat>) {
    forall i, j :: 0 <= i < |a| && 0 <= j < |b| ==> a[i] != b[j]
  }

  ghost predicate Distinct(a: seq<nat>) {
    forall i, j :: 0 <= i < j < |a| ==> a[i] != a[j]
  }

  /** The bytes found at a list of cells. */
  ghost function Peek(m: seq<byte>, a: seq<nat>): (v: seq<byte>)
    requires Within(a, |m|)
    ensures |v| == |a| && forall i :: 0 <= i < |a| ==> v[i] == m[a[i]]
  {
    seq(|a|, i requires 0 <= i < |a| => m[a[i]])
  }

  /** Memory after writing v[0], v[1], ... to the cells a[0], a[1], ... in turn. */
  ghost function Poke(m: seq<byte>, a: seq<nat>, v: seq<byte>): (r: seq<byte>)
    requires |a| == |v| && Within(a, |m|)
    ensures |r| == |m|
  {
    if a == [] then m
    else
      var k := |a| - 1;
      Poke(m, a[..k], v[..k])[a[k] := v[k]]
  }

  lemma PokeSnoc(m: seq<byte>, a: seq<nat>, v: seq<byte>, c: nat, x: byte)
    requires |a| == |v| && Within(a, |m|) && c < |m|
    ensures Within(a + [c], |m|)
    ensures Poke(m, a + [c], v + [x]) == Poke(m, a, v)[c := x]
  {
    assert (a + [c])[..|a|] == a && (v + [x])[..|a|] == v;
  }

  lemma {:induction false} PokeConcat(m: seq<byte>, a: seq<nat>, v: seq<byte>, b: seq<nat>, w: seq<byte>)
    requires |a| == |v| && |b| == |w| && Within(a, |m|) && Within(b, |m|)
    ensures Within(a + b, |m|)
    ensures Poke(m, a + b, v + w) == Poke(Poke(m, a, v), b, w)
  {
    hide Poke;
    if b == [] {
      assert a + b == a && v + w == v;
      PokeNothing(Poke(m, a, v));
    } else {
      var k := |b| - 1;
      var b', w', c, x := b[..k], w[..k], b[k], w[k];
      assert b == b' + [c] && w == w' + [x];
      PokeConcat(m, a, v, b', w');
      PokeSnoc(m, a + b', v + w', c, x);
      PokeSnoc(Poke(m, a, v), b', w', c, x);
      Assoc(a, b', [c]);
      Assoc(v, w', [x]);
    }
  }

  lemma PokeNothing(m: seq<byte>)
    ensures Poke(m, [], []) == m
  {
  }

  lemma PokeNext(m: seq<byte>, a: seq<nat>, v: seq<byte>, i: nat)
    requires |a| == |v| && Within(a, |m|) && i < |a|
    ensures Poke(m, a[..i + 1], v[..i + 1]) == Poke(m, a[..i], v[..i])[a[i] := v[i]]
  {
    assert a[..i + 1][..i] == a[..i] && v[..i + 1][..i] == v[..i];
  }

  lemma {:induction false} PokeFrame(m: seq<byte>, a: seq<nat>, v: seq<byte>, c: nat)
    requires |a| == |v| && Within(a, |m|) && c < |m|
    requires forall i :: 0 <= i < |a| ==> a[i] != c
    ensures Poke(m, a, v)[c] == m[c]
  {
    if a != [] {
      PokeFrame(m, a[..|a| - 1], v[..|a| - 1], c);
    }
  }

  /** Writes to other cells leave what is read unchanged. */
  lemma PeekApart(m: seq<byte>, a: seq<nat>, v: seq<byte>, c: seq<nat>)
    requires |a| == |v| && Within(a, |m|) && Within(c, |m|) && Apart(a, c)
    ensures Peek(Poke(m, a, v), c) == Peek(m, c)
  {
    forall i | 0 <= i < |c| ensures Poke(m, a, v)[c[i]] == m[c[i]] {
      PokeFrame(m, a, v, c[i]);
    }
  }

  /** What is written to distinct cells is what is read back. */
  lemma {:induction false} PeekPoke(m: seq<byte>, a: seq<nat>, v: seq<byte>)
    requires |a| == |v| && Within(a, |m|) && Distinct(a)
    ensures Peek(Poke(m, a, v), a) == v
  {
    if a != [] {
      var k := |a| - 1;
      PeekPoke(m, a[..k], v[..k]);
      forall i | 0 <= i < |a| ensures Poke(m, a, v)[a[i]] == v[i] {
        if i < k {
          assert Peek(Poke(m, a[..k], v[..k]), a[..k])[i] == v[..k][i];
        }
      }
    }
  }

  lemma PeekConcat(m: seq<byte>, a: seq<nat>, b: seq<nat>)
    requires Within(a, |m|) && Within(b, |m|)
    ensures Within(a + b, |m|)
    ensures Peek(m, a + b) == Peek(m, a) + Peek(m, b)
  {
  }

  /** The total size of a sequence, by the default iteration. */
  method SizeOf(bs: seq<Region>) returns (n: nat)
    ensures n == |CellsOf(bs)|
  {
    n := 0;
    var it := 0;
    while it != |bs|
      invariant 0 <= it <= |bs|
      invariant n == Size(bs[..it])
    {
      SizeNext(bs, it);
      n := n + bs[it].len;
      it := it + 1;
    }
    assert bs[..it] == bs;
  }

  /** memcpy: both ranges lie in memory and do not overlap. */
  method Memcpy(mem: array<byte>, dst: nat, src: nat, n: nat)
    requires dst + n <= mem.Length && src + n <= mem.Length
    requires dst + n <= src || src + n <= dst
    modifies mem
    ensures mem[..] == Poke(old(mem[..]), Region(dst, n).Cells(), Peek(old(mem[..]), Region(src, n).Cells()))
  {
    hide Poke;
    ghost var d, v := Region(dst, n).Cells(), Peek(mem[..], Region(src, n).Cells());
    ghost var m0 := mem[..];
    var i := 0;
    assert d[..0] == [] && v[..0] == [];
    PokeNothing(m0);
    while i < n
      invariant 0 <= i <= n
      invariant mem[..] == Poke(m0, d[..i], v[..i])
      invariant forall j :: i <= j < n ==> mem[src + j] == v[j]
    {
      ghost var before := mem[..];
      mem[dst + i] := mem[src + i];
      assert mem[..] == before[d[i] := v[i]];
      PokeNext(m0, d, v, i);
      i := i + 1;
    }
    assert d[..n] == d && v[..n] == v;
  }
}
