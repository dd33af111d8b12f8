/** Copying one buffer sequence into another. */
module Copying {
  import opened Regions
  import opened SliceStates
  import opened SliceLaws

  /** The default for at_most: the largest std::size_t. */
  const SIZE_MAX: nat := 0xFFFF_FFFF_FFFF_FFFF

  function CopyCount(dest: seq<nat>, src: seq<nat>, atMost: nat): nat {
    Min(Min(|dest|, |src|), atMost)
  }

  /** Memory after copying a list of cells to another, byte by byte from the front: each
      byte is read from memory as it then is.  Any cells may repeat or coincide. */
  ghost function CopyBytes(m: seq<byte>, a: seq<nat>, c: seq<nat>): (r: seq<byte>)
    requires |a| == |c| && Within(a, |m|) && Within(c, |m|)
    ensures |r| == |m|
  {
    if a == [] then m
    else
      var k := |a| - 1;
      var w := CopyBytes(m, a[..k], c[..k]);
      w[a[k] := w[c[k]]]
  }

  lemma CopyBytesSnoc(m: seq<byte>, a: seq<nat>, c: seq<nat>, x: nat, y: nat)
    requires |a| == |c| && Within(a, |m|) && Within(c, |m|) && x < |m| && y < |m|
    ensures Within(a + [x], |m|) && Within(c + [y], |m|)
    ensures CopyBytes(m, a + [x], c + [y]) == CopyBytes(m, a, c)[x := CopyBytes(m, a, c)[y]]
  {
    assert (a + [x])[..|a|] == a && (c + [y])[..|a|] == c;
  }

  lemma CopyNoBytes(m: seq<byte>)
    ensures CopyBytes(m, [], []) == m
  {
  }

  lemma {:induction false} CopyBytesConcat(m: seq<byte>, a: seq<nat>, c: seq<nat>, b: seq<nat>, d: seq<nat>)
    requires |a| == |c| && |b| == |d| && Within(a, |m|) && Within(c, |m|) && Within(b, |m|) && Within(d, |m|)
    ensures Within(a + b, |m|) && Within(c + d, |m|)
    ensures CopyBytes(m, a + b, c + d) == CopyBytes(CopyBytes(m, a, c), b, d)
  {
    hide CopyBytes;
    if b == [] {
      assert a + b == a && c + d == c;
      CopyNoBytes(CopyBytes(m, a, c));
    } else {
      var k := |b| - 1;
      var b', d', x, y := b[..k], d[..k], b[k], d[k];
      assert b == b' + [x] && d == d' + [y];
      CopyBytesConcat(m, a, c, b', d');
      CopyBytesSnoc(m, a + b', c + d', x, y);
      CopyBytesSnoc(CopyBytes(m, a, c), b', d', x, y);
      Assoc(a, b', [x]);
      Assoc(c, d', [y]);
    }
  }

  /** Where the lists share no cell, that is writing what the source cells held before. */
  lemma {:induction false} CopyBytesApart(m: seq<byte>, a: seq<nat>, c: seq<nat>)
    requires |a| == |c| && Within(a, |m|) && Within(c, |m|) && Apart(a, c)
    ensures CopyBytes(m, a, c) == Poke(m, a, Peek(m, c))
  {
    if a != [] {
      var k := |a| - 1;
      CopyBytesApart(m, a[..k], c[..k]);
      PokeFrame(m, a[..k], Peek(m, c[..k]), c[k]);
      assert Peek(m, c)[..k] == Peek(m, c[..k]);
    }
  }

  /** The cells that are copied lie in memory. */
  ghost predicate InMemory(m: seq<byte>, dest: seq<nat>, src: seq<nat>, atMost: nat) {
    var n := CopyCount(dest, src, atMost);
    Within(dest[..n], |m|) && Within(src[..n], |m|)
  }

  /** Memory after copying the first CopyCount cells. */
  ghost function Copied(m: seq<byte>, dest: seq<nat>, src: seq<nat>, atMost: nat): (r: seq<byte>)
    requires InMemory(m, dest, src, atMost)
    ensures |r| == |m|
  {
    var n := CopyCount(dest, src, atMost);
    CopyBytes(m, dest[..n], src[..n])
  }

  /** Copying at most k bytes and then at most j bytes between what remains is copying
      at most k + j bytes, for every fragmentation of both sides and any overlap. */
  lemma CopyResume(m: seq<byte>, dest: seq<nat>, src: seq<nat>, k: nat, j: nat)
    requires InMemory(m, dest, src, k + j)
    ensures InMemory(m, dest, src, k)
    ensures var n := CopyCount(dest, src, k);
            && CopyCount(dest[n..], src[n..], j) + n == CopyCount(dest, src, k + j)
            && InMemory(Copied(m, dest, src, k), dest[n..], src[n..], j)
            && Copied(Copied(m, dest, src, k), dest[n..], src[n..], j) == Copied(m, dest, src, k + j)
  {
    var n := CopyCount(dest, src, k);
    var n2 := CopyCount(dest[n..], src[n..], j);
    SplitPrefix(dest, n, n2, |m|);
    SplitPrefix(src, n, n2, |m|);
    CopyBytesConcat(m, dest[..n], src[..n], dest[n..][..n2], src[n..][..n2]);
  }

  lemma SplitPrefix(c: seq<nat>, n: nat, k: nat, size: nat)
    requires n + k <= |c| && Within(c[..n + k], size)
    ensures c[..n + k] == c[..n] + c[n..][..k]
    ensures Within(c[..n], size) && Within(c[n..][..k], size)
  {
    WithinParts(c[..n], c[n..][..k], c[..n + k], size);
  }

  lemma WithinParts(a: seq<nat>, b: seq<nat>, ab: seq<nat>, n: nat)
    requires ab == a + b && Within(ab, n)
    ensures Within(a, n) && Within(b, n)
  {
    assert forall i :: 0 <= i < |a| ==> a[i] == ab[i];
    assert forall i :: 0 <= i < |b| ==> b[i] == ab[|a| + i];
  }

  /** The resume law for the code's own pieces: the remainders are what sans_prefix
      returns for the two sequences. */
  lemma CopyResumeSliced(m: seq<byte>, dest: seq<Region>, src: seq<Region>, k: nat, j: nat)
    requires InMemory(m, CellsOf(dest), CellsOf(src), k + j)
    ensures InMemory(m, CellsOf(dest), CellsOf(src), k)
    ensures var n := CopyCount(CellsOf(dest), CellsOf(src), k);
            var d, s := Whole(dest).RemovePrefix(n), Whole(src).RemovePrefix(n);
            var m1 := Copied(m, CellsOf(dest), CellsOf(src), k);
            && d.Inv() && s.Inv()
            && CopyCount(d.Cells(), s.Cells(), j) + n == CopyCount(CellsOf(dest), CellsOf(src), k + j)
            && InMemory(m1, d.Cells(), s.Cells(), j)
            && Copied(m1, d.Cells(), s.Cells(), j) == Copied(m, CellsOf(dest), CellsOf(src), k + j)
  {
    hide CellsOf, Copied, InMemory;
    var n := CopyCount(CellsOf(dest), CellsOf(src), k);
    CopyResume(m, CellsOf(dest), CellsOf(src), k, j);
    RemovePrefixDenotes(Whole(dest), n);
    RemovePrefixDenotes(Whole(src), n);
    WholeCells(dest);
    WholeCells(src);
  }

  lemma WholeCells(bs: seq<Region>)
    ensures Whole(bs).Cells() == CellsOf(bs)
  {
    hide CellsOf;
    WholeBuffers(Whole(bs));
  }

  lemma WholeBuffers(s: Slice)
    requires s.Shape() && s.begin == 0 && s.end == |s.bs| && s.prefix == s.suffix == 0
    ensures s.Buffers() == s.bs
  {
  }

  lemma SlicePrefixInBase(s: Slice, n: nat)
    requires s.Inv() && s.begin < s.end && n <= |s.Cells()|
    ensures s.Lo() + n <= |CellsOf(s.bs)| && s.Cells()[..n] == CellsOf(s.bs)[s.Lo()..s.Lo() + n]
  {
    hide CellsOf;
    Window(s);
    WindowTake(CellsOf(s.bs), s.Lo(), s.size, n);
  }

  /** Copying into a slice writes through to its base, at the shifted logical offset. */
  lemma CopyIntoSlice(m: seq<byte>, s: Slice, src: seq<nat>, atMost: nat)
    requires s.Inv() && s.begin < s.end && InMemory(m, s.Cells(), src, atMost)
    ensures var n, c := CopyCount(s.Cells(), src, atMost), CellsOf(s.bs);
            && s.Lo() + n <= |c| && Within(c[s.Lo()..s.Lo() + n], |m|) && Within(src[..n], |m|)
            && Copied(m, s.Cells(), src, atMost) == CopyBytes(m, c[s.Lo()..s.Lo() + n], src[..n])
  {
    hide CellsOf, CopyBytes, Slice.Cells;
    SlicePrefixInBase(s, CopyCount(s.Cells(), src, atMost));
  }

  /** What a reader of memory gets where source and destination share no cell: memory
      with the source bytes written to the destination; with distinct destination cells,
      the first n bytes of dest are those of src; every other cell keeps its byte. */
  lemma CopyDelivers(m: seq<byte>, dest: seq<nat>, src: seq<nat>, atMost: nat)
    requires InMemory(m, dest, src, atMost)
    requires var n := CopyCount(dest, src, atMost); Apart(dest[..n], src[..n])
    ensures var n := CopyCount(dest, src, atMost);
            && Copied(m, dest, src, atMost) == Poke(m, dest[..n], Peek(m, src[..n]))
            && (Distinct(dest[..n]) ==> Peek(Copied(m, dest, src, atMost), dest[..n]) == Peek(m, src[..n]))
            && Peek(Copied(m, dest, src, atMost), src[..n]) == Peek(m, src[..n])
            && (forall c :: 0 <= c < |m| && c !in dest[..n] ==> Copied(m, dest, src, atMost)[c] == m[c])
  {
    var n := CopyCount(dest, src, atMost);
    var a, v := dest[..n], Peek(m, src[..n]);
    CopyBytesApart(m, a, src[..n]);
    if Distinct(a) {
      PeekPoke(m, a, v);
    }
    PeekApart(m, a, v, src[..n]);
    forall c | 0 <= c < |m| && c !in a ensures Poke(m, a, v)[c] == m[c] {
      PokeFrame(m, a, v, c);
    }
  }

  // ---- the turns of the loop

  /** The buffer that holds logical byte t. */
  ghost function BufferOf(bs: seq<Region>, t: nat): nat
    requires t < Size(bs)
  {
    if t < bs[0].len then 0 else 1 + BufferOf(bs[1..], t - bs[0].len)
  }

  lemma {:induction false} BufferAt(bs: seq<Region>, i: nat, x: nat)
    requires i < |bs| && x < bs[i].len
    ensures Size(bs[..i]) + x < Size(bs) && BufferOf(bs, Size(bs[..i]) + x) == i
  {
    if i > 0 {
      BufferAt(bs[1..], i - 1, x);
      assert bs[..i][1..] == bs[1..][..i - 1];
    }
  }

  /** Logical bytes i and j lie in the same buffer on both sides, so that one turn of the
      loop may copy both. */
  ghost predicate SameTurn(dest: seq<Region>, src: seq<Region>, i: nat, j: nat)
    requires i < Size(dest) && i < Size(src) && j < Size(dest) && j < Size(src)
  {
    BufferOf(dest, i) == BufferOf(dest, j) && BufferOf(src, i) == BufferOf(src, j)
  }

  /** What memcpy asks for in every turn: what it copies lies in memory, and its source
      and destination do not overlap.  Other turns may overlap this one in any way. */
  ghost predicate Copyable(m: seq<byte>, dest: seq<Region>, src: seq<Region>, atMost: nat) {
    var n := CopyCount(CellsOf(dest), CellsOf(src), atMost);
    && InMemory(m, CellsOf(dest), CellsOf(src), atMost)
    && forall i, j :: 0 <= i < n && 0 <= j < n && SameTurn(dest, src, i, j) ==>
         CellsOf(dest)[i] != CellsOf(src)[j]
  }

  /** In particular, sequences that share no cell can be copied. */
  lemma ApartCopyable(m: seq<byte>, dest: seq<Region>, src: seq<Region>, atMost: nat)
    requires InMemory(m, CellsOf(dest), CellsOf(src), atMost)
    requires var n := CopyCount(CellsOf(dest), CellsOf(src), atMost);
             Apart(CellsOf(dest)[..n], CellsOf(src)[..n])
    ensures Copyable(m, dest, src, atMost)
  {
    hide CellsOf, BufferOf;
    var n, d, s := CopyCount(CellsOf(dest), CellsOf(src), atMost), CellsOf(dest), CellsOf(src);
    assert forall i :: 0 <= i < n ==> d[..n][i] == d[i] && s[..n][i] == s[i];
  }

  /** A cursor in buffer it, pos bytes into it, has passed total bytes. */
  ghost predicate Cursor(bs: seq<Region>, it: nat, pos: nat, total: nat) {
    && it <= |bs|
    && total == Size(bs[..it]) + pos
    && if it == |bs| then pos == 0 else pos <= bs[it].len
  }

  /** Passing n more bytes of the rest b of the current buffer: they are consecutive
      cells, and the cursor moves on, to the next buffer where b is used up. */
  lemma CursorMoves(bs: seq<Region>, it: nat, pos: nat, b: Region, total: nat, n: nat)
    requires Cursor(bs, it, pos, total) && it < |bs| && b == bs[it].Advance(pos) && n <= b.len
    ensures total + n <= Size(bs)
    ensures RunsAt(CellsOf(bs), total, n, b.off)
    ensures if n == b.len then Cursor(bs, it + 1, 0, total + n) else Cursor(bs, it, pos + n, total + n)
  {
    hide CellsOf, RunsAt;
    CellsAt(bs, it, pos, n, total, b.off);
    SizeNext(bs, it);
  }

  /** The first total bytes have been copied, out of all that will be. */
  ghost predicate Progress(m: seq<byte>, m0: seq<byte>, d: seq<nat>, s: seq<nat>, all: nat, total: nat) {
    && total <= all <= |d| && all <= |s|
    && Within(d[..all], |m0|) && Within(s[..all], |m0|)
    && Within(d[..total], |m0|) && Within(s[..total], |m0|)
    && m == CopyBytes(m0, d[..total], s[..total])
  }

  /** The two-cursor loop.  Each turn finishes a source buffer, a destination buffer or
      the byte allowance, so it ends even with empty buffers. */
  method Copy(mem: array<byte>, dest: seq<Region>, src: seq<Region>, atMost: nat) returns (total: nat)
    requires Copyable(mem[..], dest, src, atMost)
    modifies mem
    ensures total == CopyCount(CellsOf(dest), CellsOf(src), atMost)
            == Min(Min(|CellsOf(dest)|, |CellsOf(src)|), atMost)
    ensures mem[..] == Copied(old(mem[..]), CellsOf(dest), CellsOf(src), atMost)
  {
    hide *;
    total := 0;
    var pos0: nat, pos1: nat, it0: nat, it1: nat := 0, 0, 0, 0;
    ghost var m0, d, s := mem[..], CellsOf(dest), CellsOf(src);
    ghost var all := CopyCount(d, s, atMost);
    CopyStarts(m0, dest, src, atMost);
    while total < atMost && it0 != |src| && it1 != |dest|
      invariant it0 <= |src| && it1 <= |dest| && total <= all <= atMost
      invariant Cursor(src, it0, pos0, total) && (it0 == |src| ==> pos0 == 0)
      invariant Cursor(dest, it1, pos1, total) && (it1 == |dest| ==> pos1 == 0)
      invariant Progress(mem[..], m0, d, s, all, total)
      decreases |src| - it0 + |dest| - it1 + atMost - total
    {
      var b0, b1 := src[it0], dest[it1];
      b0 := b0.Advance(pos0);
      b1 := b1.Advance(pos1);
      Turn(m0, dest, src, it1, pos1, it0, pos0, b1, b0, total, all, atMost);
      var amount := Transfer(mem, b0, b1, atMost - total, m0, d, s, all, total);
      total := total + amount;
      if amount == b1.len {
        it1 := it1 + 1;
        pos1 := 0;
      } else {
        pos1 := pos1 + amount;
      }
      if amount == b0.len {
        it0 := it0 + 1;
        pos0 := 0;
      } else {
        pos0 := pos0 + amount;
      }
    }
    CopyEnds(mem[..], m0, dest, src, atMost, it1, pos1, it0, pos0, total);
    CountIs(d, s, atMost);
  }

  lemma CopyStarts(m: seq<byte>, dest: seq<Region>, src: seq<Region>, atMost: nat)
    requires Copyable(m, dest, src, atMost)
    ensures Cursor(dest, 0, 0, 0) && Cursor(src, 0, 0, 0)
    ensures var all := CopyCount(CellsOf(dest), CellsOf(src), atMost);
            all <= atMost && Progress(m, m, CellsOf(dest), CellsOf(src), all, 0)
  {
    assert dest[..0] == [] && src[..0] == [];
  }

  lemma CopyEnds(m: seq<byte>, m0: seq<byte>, dest: seq<Region>, src: seq<Region>, atMost: nat,
                 it1: nat, pos1: nat, it0: nat, pos0: nat, total: nat)
    requires Copyable(m0, dest, src, atMost)
    requires Cursor(dest, it1, pos1, total) && Cursor(src, it0, pos0, total)
    requires total == atMost || it0 == |src| || it1 == |dest|
    requires Progress(m, m0, CellsOf(dest), CellsOf(src), CopyCount(CellsOf(dest), CellsOf(src), atMost), total)
    ensures total == CopyCount(CellsOf(dest), CellsOf(src), atMost)
    ensures m == Copied(m0, CellsOf(dest), CellsOf(src), atMost)
  {
    hide CellsOf, Progress;
    assert src[..|src|] == src && dest[..|dest|] == dest;
    ProgressMeans(m, m0, CellsOf(dest), CellsOf(src), CopyCount(CellsOf(dest), CellsOf(src), atMost), total);
  }

  lemma CountIs(dest: seq<nat>, src: seq<nat>, atMost: nat)
    ensures CopyCount(dest, src, atMost) == Min(Min(|dest|, |src|), atMost)
  {
  }

  lemma ProgressMeans(m: seq<byte>, m0: seq<byte>, d: seq<nat>, s: seq<nat>, all: nat, total: nat)
    requires Progress(m, m0, d, s, all, total)
    ensures total <= all && total <= |d| && total <= |s| && Within(d[..total], |m0|) && Within(s[..total], |m0|)
    ensures m == CopyBytes(m0, d[..total], s[..total])
  {
  }

  ghost function Amount(b0: Region, b1: Region, allowance: nat): nat {
    Min(Min(b0.len, b1.len), allowance)
  }

  /** What a turn may rely on, and what it leaves to its cursors. */
  lemma Turn(m: seq<byte>, dest: seq<Region>, src: seq<Region>, it1: nat, pos1: nat, it0: nat, pos0: nat,
             b1: Region, b0: Region, total: nat, all: nat, atMost: nat)
    requires all == CopyCount(CellsOf(dest), CellsOf(src), atMost) && total <= all && total < atMost
    requires Copyable(m, dest, src, atMost)
    requires Cursor(dest, it1, pos1, total) && it1 < |dest| && b1 == dest[it1].Advance(pos1)
    requires Cursor(src, it0, pos0, total) && it0 < |src| && b0 == src[it0].Advance(pos0)
    ensures var k := Amount(b0, b1, atMost - total);
            && total + k <= all
            && RunsAt(CellsOf(dest), total, k, b1.off) && RunsAt(CellsOf(src), total, k, b0.off)
            && Clear(b1.off, b0.off, k)
            && k <= b0.len && k <= b1.len && (k == b0.len || k == b1.len || k == atMost - total)
            && (if k == b1.len then Cursor(dest, it1 + 1, 0, total + k) else Cursor(dest, it1, pos1 + k, total + k))
            && (if k == b0.len then Cursor(src, it0 + 1, 0, total + k) else Cursor(src, it0, pos0 + k, total + k))
  {
    hide CellsOf, Cursor, RunsAt, Copyable, Region.Advance, BufferOf;
    var k := Amount(b0, b1, atMost - total);
    CursorMoves(src, it0, pos0, b0, total, k);
    CursorMoves(dest, it1, pos1, b1, total, k);
    TurnClear(m, dest, src, it1, pos1, it0, pos0, b1, b0, total, k, atMost);
  }

  /** The cells of one turn lie in one buffer on each side. */
  lemma CursorBuffer(bs: seq<Region>, it: nat, pos: nat, b: Region, total: nat, x: nat)
    requires Cursor(bs, it, pos, total) && it < |bs| && b == bs[it].Advance(pos) && x < b.len
    ensures total + x < Size(bs) && BufferOf(bs, total + x) == it
  {
    BufferAt(bs, it, pos + x);
  }

  lemma RunCell(c: seq<nat>, t: nat, k: nat, off: nat, x: nat)
    requires RunsAt(c, t, k, off) && x < k
    ensures t + x < |c| && c[t + x] == off + x
  {
    assert c[t..t + k][x] == Region(off, k).Cells()[x];
  }

  /** Two ranges of k bytes that do not overlap. */
  predicate Clear(dst: nat, src: nat, k: nat) {
    k == 0 || dst + k <= src || src + k <= dst
  }

  lemma ClearApart(dst: nat, src: nat, k: nat)
    requires Clear(dst, src, k)
    ensures Apart(Region(dst, k).Cells(), Region(src, k).Cells())
  {
  }

  /** Two bytes of one turn are not copied onto one another. */
  lemma TurnDiffers(m: seq<byte>, dest: seq<Region>, src: seq<Region>, it1: nat, pos1: nat, it0: nat, pos0: nat,
                    b1: Region, b0: Region, total: nat, k: nat, atMost: nat, x: nat, y: nat)
    requires Copyable(m, dest, src, atMost) && total + k <= CopyCount(CellsOf(dest), CellsOf(src), atMost)
    requires Cursor(dest, it1, pos1, total) && it1 < |dest| && b1 == dest[it1].Advance(pos1) && k <= b1.len
    requires Cursor(src, it0, pos0, total) && it0 < |src| && b0 == src[it0].Advance(pos0) && k <= b0.len
    requires RunsAt(CellsOf(dest), total, k, b1.off) && RunsAt(CellsOf(src), total, k, b0.off)
    requires x < k && y < k
    ensures b1.off + x != b0.off + y
  {
    hide CellsOf, Cursor, RunsAt, BufferOf, InMemory, Region.Advance;
    CursorBuffer(dest, it1, pos1, b1, total, x);
    CursorBuffer(dest, it1, pos1, b1, total, y);
    CursorBuffer(src, it0, pos0, b0, total, x);
    CursorBuffer(src, it0, pos0, b0, total, y);
    RunCell(CellsOf(dest), total, k, b1.off, x);
    RunCell(CellsOf(src), total, k, b0.off, y);
    assert SameTurn(dest, src, total + x, total + y);
  }

  lemma TurnClear(m: seq<byte>, dest: seq<Region>, src: seq<Region>, it1: nat, pos1: nat, it0: nat, pos0: nat,
                  b1: Region, b0: Region, total: nat, k: nat, atMost: nat)
    requires Copyable(m, dest, src, atMost) && total + k <= CopyCount(CellsOf(dest), CellsOf(src), atMost)
    requires Cursor(dest, it1, pos1, total) && it1 < |dest| && b1 == dest[it1].Advance(pos1) && k <= b1.len
    requires Cursor(src, it0, pos0, total) && it0 < |src| && b0 == src[it0].Advance(pos0) && k <= b0.len
    requires RunsAt(CellsOf(dest), total, k, b1.off) && RunsAt(CellsOf(src), total, k, b0.off)
    ensures Clear(b1.off, b0.off, k)
  {
    hide CellsOf, Cursor, RunsAt, Copyable, Region.Advance;
    if !Clear(b1.off, b0.off, k) {
      var x, y := if b1.off <= b0.off then b0.off - b1.off else 0, if b1.off <= b0.off then 0 else b1.off - b0.off;
      TurnDiffers(m, dest, src, it1, pos1, it0, pos0, b1, b0, total, k, atMost, x, y);
    }
  }

  /** One turn: as much as both current buffers and the allowance permit. */
  method Transfer(mem: array<byte>, b0: Region, b1: Region, allowance: nat, ghost m0: seq<byte>,
                  ghost d: seq<nat>, ghost s: seq<nat>, ghost all: nat, ghost total: nat) returns (n: nat)
    requires Progress(mem[..], m0, d, s, all, total) && total + Amount(b0, b1, allowance) <= all
    requires RunsAt(d, total, Amount(b0, b1, allowance), b1.off)
    requires RunsAt(s, total, Amount(b0, b1, allowance), b0.off)
    requires Clear(b1.off, b0.off, Amount(b0, b1, allowance))
    modifies mem
    ensures n == Amount(b0, b1, allowance)
    ensures Progress(mem[..], m0, d, s, all, total + n)
  {
    hide Progress, RunsAt, CopyBytes, Poke, Peek;
    n := b0.len;
    if n > b1.len {
      n := b1.len;
    }
    if n > allowance {
      n := allowance;
    }
    if n != 0 {
      ProgressStep(mem[..], m0, d, s, all, total, b1.off, b0.off, n);
      Memcpy(mem, b1.off, b0.off, n);
    }
  }

  lemma RunIs(c: seq<nat>, t: nat, k: nat, off: nat)
    requires RunsAt(c, t, k, off)
    ensures t + k <= |c| && c[t..][..k] == Region(off, k).Cells()
  {
    assert c[t..][..k] == c[t..t + k];
  }

  lemma TakeTake<T>(c: seq<T>, n: nat, k: nat)
    requires k <= n <= |c|
    ensures c[..n] == c[..k] + c[k..n]
  {
  }

  /** The memcpy of a turn is allowed, and continues what has been copied so far. */
  lemma ProgressStep(m: seq<byte>, m0: seq<byte>, d: seq<nat>, s: seq<nat>, all: nat, total: nat,
                     dst: nat, src: nat, n: nat)
    requires Progress(m, m0, d, s, all, total) && 0 < n && total + n <= all
    requires RunsAt(d, total, n, dst) && RunsAt(s, total, n, src)
    requires Clear(dst, src, n)
    ensures |m| == |m0| && dst + n <= |m| && src + n <= |m|
    ensures var a, c := Region(dst, n).Cells(), Region(src, n).Cells();
            Within(a, |m|) && Within(c, |m|) && Progress(Poke(m, a, Peek(m, c)), m0, d, s, all, total + n)
  {
    hide RunsAt;
    var a, c := Region(dst, n).Cells(), Region(src, n).Cells();
    TakeTake(d, all, total + n);
    TakeTake(s, all, total + n);
    WithinParts(d[..total + n], d[total + n..all], d[..all], |m0|);
    WithinParts(s[..total + n], s[total + n..all], s[..all], |m0|);
    RunIs(d, total, n, dst);
    RunIs(s, total, n, src);
    SplitPrefix(d, total, n, |m0|);
    SplitPrefix(s, total, n, |m0|);
    CopyBytesConcat(m0, d[..total], s[..total], a, c);
    ClearApart(dst, src, n);
    CopyBytesApart(m, a, c);
    assert a[n - 1] < |m| && c[n - 1] < |m|;
  }
}
