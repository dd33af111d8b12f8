/** What slicing steps mean: take and drop on the cells, over every run of steps. */
module SliceLaws {
  import opened Regions
  import opened SliceStates

  lemma RemovePrefixIs(s: Slice, n: nat)
    requires s.Inv() && s.begin < s.end
    ensures var k := Min(n, s.size) + s.prefix;
            var (b, p) := SkipFront(s.bs, s.begin, s.end, k);
            && s.RemovePrefix(n) == Slice(s.bs, b, s.end, s.end - b, s.size + s.prefix - k, p, s.suffix)
            && Size(s.bs[..s.begin]) + k == Size(s.bs[..b]) + p
            && (if b == s.end then p == 0 && k == s.size + s.prefix else p <= s.bs[b].len)
  {
    hide CellsOf;
    SkipFrontSpec(s.bs, s.begin, s.end, Min(n, s.size) + s.prefix);
    SizeMono(s.bs, s.begin, s.end);
  }

  lemma RemovePrefixInv(s: Slice, n: nat)
    requires s.Inv()
    ensures s.RemovePrefix(n).Inv()
    ensures s.begin < s.end ==> s.RemovePrefix(n).size == s.size - Min(n, s.size)
    ensures s.begin < s.end ==> s.RemovePrefix(n).Lo() == s.Lo() + Min(n, s.size)
  {
    hide CellsOf;
    if s.begin < s.end {
      RemovePrefixIs(s, n);
      SizeMono(s.bs, s.end, s.end);
      SizeNext(s.bs, s.end - 1);
    }
  }

  /** remove_prefix drops cells in every state; the byte total goes wrong exactly when
      it is applied to an empty range that still holds a used prefix or a total. */
  lemma RemovePrefixDenotes(s: Slice, n: nat)
    requires s.Inv()
    ensures var t := s.RemovePrefix(n);
            && t.Inv()
            && t.Cells() == Drop(s.Cells(), n)
            && (t.Counted() <==> !(s.begin == s.end && s.prefix + s.size > 0))
  {
    hide CellsOf;
    RemovePrefixInv(s, n);
    Window(s);
    Window(s.RemovePrefix(n));
    if s.begin < s.end {
      WindowDrop(CellsOf(s.bs), s.Lo(), s.size, Min(n, s.size));
    }
  }

  lemma WindowDrop<T>(c: seq<T>, lo: nat, k: nat, m: nat)
    requires lo + k <= |c| && m <= k
    ensures c[lo..lo + k][m..] == c[lo + m..lo + k]
  {
  }

  lemma WindowTake<T>(c: seq<T>, lo: nat, k: nat, m: nat)
    requires lo + k <= |c| && m <= k
    ensures c[lo..lo + k][..m] == c[lo..lo + m]
  {
  }

  lemma RemoveSuffixIs(s: Slice, n: nat)
    requires s.Inv() && s.SuffixAsserts() && s.size > 0
    ensures var m := Min(n, s.size);
            var (e, q) := SkipBack(s.bs, s.begin, s.end, m + s.suffix);
            if n >= s.size then
              s.RemoveSuffix(n) == Slice(s.bs, s.begin, s.begin, 0, 0, s.prefix, 0)
            else
              && s.RemoveSuffix(n) == Slice(s.bs, s.begin, e, e - s.begin, s.size - m, s.prefix, q)
              && Size(s.bs[..s.end]) + q == Size(s.bs[..e]) + m + s.suffix
              && (if e == s.begin + 1 then q < s.bs[s.begin].len - s.prefix else q < s.bs[e - 1].len)
  {
    hide CellsOf;
    var (e, q) := SkipBack(s.bs, s.begin, s.end, Min(n, s.size) + s.suffix);
    SkipBackSpec(s.bs, s.begin, s.end, Min(n, s.size) + s.suffix);
    SizeNext(s.bs, s.begin);
    SizeNext(s.bs, e - 1);
    if e > s.begin + 1 {
      SizeMono(s.bs, s.begin + 1, e - 1);
    }
  }

  lemma RemoveSuffixInv(s: Slice, n: nat)
    requires s.Inv() && s.SuffixAsserts()
    ensures var t := s.RemoveSuffix(n);
            && t.Inv()
            && t.size == s.size - Min(n, s.size)
            && t.SuffixAsserts()
            && (t.begin < t.end ==> t.Lo() == s.Lo())
  {
    hide CellsOf;
    if s.size > 0 {
      RemoveSuffixIs(s, n);
    }
  }

  /** remove_suffix_impl, entered where its assertions hold, drops cells at the back. */
  lemma RemoveSuffixDenotes(s: Slice, n: nat)
    requires s.Inv() && s.SuffixAsserts()
    ensures var t := s.RemoveSuffix(n);
            t.Inv() && t.Counted() && t.Cells() == Take(s.Cells(), s.size - Min(n, s.size))
  {
    hide CellsOf;
    RemoveSuffixInv(s, n);
    Window(s);
    Window(s.RemoveSuffix(n));
    if s.begin < s.end {
      WindowTake(CellsOf(s.bs), s.Lo(), s.size, s.size - Min(n, s.size));
    }
  }

  /** keep_prefix takes cells wherever it does not trip an assertion, and it enters
      remove_suffix_impl only where both of that function's assertions hold. */
  lemma KeepPrefixDenotes(s: Slice, n: nat)
    requires s.Inv()
    ensures 0 < n < s.size ==> (s.KeepSafe(n) <==> s.SuffixAsserts())
    ensures s.KeepSafe(n) ==>
              var t := s.KeepPrefix(n);
              && t.Inv()
              && t.Cells() == Take(s.Cells(), n)
              && (s.Counted() || n == 0 ==> t.Counted())
  {
    hide CellsOf;
    Window(s);
    if n >= s.size {
      TakeAll(s.Cells(), n);
    } else if n == 0 {
      Window(s.KeepPrefix(0));
      TakeNone(s.Cells());
    } else if s.KeepSafe(n) {
      RemoveSuffixDenotes(s, s.size - n);
    }
  }

  lemma TakeAll<T>(c: seq<T>, n: nat)
    requires n >= |c|
    ensures Take(c, n) == c
  {
  }

  lemma TakeNone<T>(c: seq<T>)
    ensures Take(c, 0) == []
  {
  }

  /** The exceptional state.  keep_prefix(0) leaves a used prefix behind; the next
      remove_prefix turns it into bytes that are not there; after that, keep_prefix(k)
      trips its assertion for exactly those k below the left-over count. */
  lemma StalePrefix(s: Slice, n: nat, k: nat)
    requires s.Inv() && s.begin < s.end && s.size > 0
    ensures s.KeepPrefix(0).Inv() && s.KeepPrefix(0).Counted()
    ensures var t := s.KeepPrefix(0).RemovePrefix(n);
            && t.Inv()
            && t.Cells() == []
            && t.size == s.prefix
            && (t.KeepSafe(k) <==> !(0 < k < s.prefix))
  {
    hide CellsOf;
    KeepPrefixDenotes(s, 0);
    RemovePrefixDenotes(s.KeepPrefix(0), n);
  }

  // ---- runs

  datatype Step = Step(how: SliceHow, n: nat)

  datatype Outcome = Tripped | Reached(s: Slice)

  /** slice_impl on a state; Tripped where an assertion fails. */
  ghost function Apply(s: Slice, step: Step): (r: Outcome)
    requires s.Inv()
  {
    match step.how
    case RemovePrefix => Reached(s.RemovePrefix(step.n))
    case KeepPrefix => if s.KeepSafe(step.n) then Reached(s.KeepPrefix(step.n)) else Tripped
  }

  function ApplyCells(c: seq<nat>, step: Step): seq<nat> {
    match step.how
    case RemovePrefix => Drop(c, step.n)
    case KeepPrefix => Take(c, step.n)
  }

  /** The slice can lose count only after such a step: keep_prefix(0). */
  predicate Empties(step: Step) {
    step.how == SliceHow.KeepPrefix && step.n == 0
  }

  /** The byte total is right and nothing is left over on an empty range. */
  ghost predicate Clean(s: Slice) {
    s.begin == s.end ==> s.size == 0 && s.prefix == 0
  }

  lemma StepDenotes(s: Slice, step: Step)
    requires s.Inv()
    ensures Apply(s, step).Tripped? <==> step.how.KeepPrefix? && !s.KeepSafe(step.n)
    ensures Apply(s, step).Reached? ==>
              Apply(s, step).s.Inv() && Apply(s, step).s.Cells() == ApplyCells(s.Cells(), step)
    ensures Clean(s) && !Empties(step) ==> Apply(s, step).Reached? && Clean(Apply(s, step).s)
  {
    hide CellsOf;
    match step.how
    case RemovePrefix =>
      RemovePrefixDenotes(s, step.n);
      if Clean(s) {
        RemovePrefixClean(s, step.n);
      }
    case KeepPrefix =>
      KeepPrefixDenotes(s, step.n);
      if 0 < step.n < s.size && s.KeepSafe(step.n) {
        RemoveSuffixInv(s, s.size - step.n);
      }
  }

  lemma RemovePrefixClean(s: Slice, n: nat)
    requires s.Inv() && Clean(s)
    ensures Clean(s.RemovePrefix(n))
  {
    RemovePrefixInv(s, n);
  }

  /** A run of slicing steps; it ends where a step trips an assertion. */
  ghost function Run(s: Slice, steps: seq<Step>): Outcome
    requires s.Inv()
    decreases |steps|
  {
    if steps == [] then Reached(s)
    else
      StepDenotes(s, steps[0]);
      var r := Apply(s, steps[0]);
      if r.Tripped? then Tripped else Run(r.s, steps[1..])
  }

  /** The same steps on the list of cells. */
  function Denote(c: seq<nat>, steps: seq<Step>): seq<nat>
    decreases |steps|
  {
    if steps == [] then c else Denote(ApplyCells(c, steps[0]), steps[1..])
  }

  /** Any mix and order of steps, on any base: a run that does not trip denotes the
      same takes and drops of the cells. */
  lemma {:induction false} RunDenotes(s: Slice, steps: seq<Step>)
    requires s.Inv()
    ensures Run(s, steps).Reached? ==>
              Run(s, steps).s.Inv() && Run(s, steps).s.Cells() == Denote(s.Cells(), steps)
    decreases |steps|
  {
    if steps != [] {
      StepDenotes(s, steps[0]);
      var r := Apply(s, steps[0]);
      if r.Reached? {
        RunDenotes(r.s, steps[1..]);
      }
    }
  }

  /** A run with no keep_prefix(0) never trips, and its byte total stays right. */
  lemma {:induction false} CleanRun(s: Slice, steps: seq<Step>)
    requires s.Inv() && Clean(s)
    requires forall i :: 0 <= i < |steps| ==> !Empties(steps[i])
    ensures Run(s, steps).Reached?
    ensures Run(s, steps).s.Inv() && Clean(Run(s, steps).s) && Run(s, steps).s.Counted()
    decreases |steps|
  {
    if steps == [] {
      Window(s);
    } else {
      StepDenotes(s, steps[0]);
      CleanRun(Apply(s, steps[0]).s, steps[1..]);
    }
  }

  // ---- exactly which runs trip

  /** Bytes of the buffer reached that are used up once r bytes of bs are removed. */
  function UsedPrefix(bs: seq<Region>, r: nat): nat {
    SkipFront(bs, 0, |bs|, r).1
  }

  /** The empty slice counts p bytes that are not there: the next keep_prefix(k) with
      0 < k < p trips; keep_prefix(0) before it puts things right. */
  predicate PhantomTrips(p: nat, steps: seq<Step>)
    decreases |steps|
  {
    steps != [] &&
    match steps[0]
    case Step(RemovePrefix, _) => PhantomTrips(p, steps[1..])
    case Step(KeepPrefix, k) => k > 0 && (k < p || PhantomTrips(p, steps[1..]))
  }

  /** The empty slice has a stale prefix of p bytes: the next remove_prefix counts it. */
  predicate StaleTrips(p: nat, steps: seq<Step>)
    decreases |steps|
  {
    steps != [] &&
    match steps[0].how
    case RemovePrefix => PhantomTrips(p, steps[1..])
    case KeepPrefix => StaleTrips(p, steps[1..])
  }

  /** Which steps trip, from the step list and the base alone: r bytes have been removed
      at the front and z are left.  A run trips if and only if some keep_prefix(0)
      empties a non-empty slice, the first remove_prefix after that is followed by a
      keep_prefix(k) with 0 < k < p, where p is the used prefix at the emptying, and no
      keep_prefix(0) comes between those two. */
  predicate WillTrip(bs: seq<Region>, r: nat, z: nat, steps: seq<Step>)
    decreases |steps|
  {
    steps != [] && z > 0 &&
    match steps[0]
    case Step(RemovePrefix, n) => WillTrip(bs, r + Min(n, z), z - Min(n, z), steps[1..])
    case Step(KeepPrefix, n) =>
      if n == 0 then StaleTrips(UsedPrefix(bs, r), steps[1..]) else WillTrip(bs, r, Min(n, z), steps[1..])
  }

  lemma {:induction false} PhantomExactly(s: Slice, steps: seq<Step>)
    requires s.Inv() && s.begin == s.end && s.prefix == 0
    ensures Run(s, steps) == Tripped <==> PhantomTrips(s.size, steps)
    decreases |steps|
  {
    hide CellsOf;
    if steps != [] {
      StepDenotes(s, steps[0]);
      var r := Apply(s, steps[0]);
      if r.Reached? {
        if steps[0].how.KeepPrefix? && steps[0].n == 0 {
          CleanEmptyRun(r.s, steps[1..]);
        } else {
          assert r.s == s;
          PhantomExactly(s, steps[1..]);
        }
      }
    }
  }

  /** An empty slice with nothing left over never trips. */
  lemma {:induction false} CleanEmptyRun(s: Slice, steps: seq<Step>)
    requires s.Inv() && s.size == 0 && Clean(s)
    ensures Run(s, steps).Reached?
    decreases |steps|
  {
    hide CellsOf;
    if steps != [] {
      StepDenotes(s, steps[0]);
      var r := Apply(s, steps[0]);
      if steps[0].how.RemovePrefix? {
        RemovePrefixClean(s, steps[0].n);
        RemovePrefixInv(s, steps[0].n);
      } else {
        assert r.s == s;
      }
      CleanEmptyRun(r.s, steps[1..]);
    }
  }

  lemma {:induction false} StaleExactly(s: Slice, steps: seq<Step>)
    requires s.Inv() && s.begin == s.end && s.size == 0
    ensures Run(s, steps) == Tripped <==> StaleTrips(s.prefix, steps)
    decreases |steps|
  {
    hide CellsOf;
    if steps != [] {
      StepDenotes(s, steps[0]);
      var r := Apply(s, steps[0]);
      if steps[0].how.RemovePrefix? {
        assert r.s.begin == r.s.end && r.s.prefix == 0 && r.s.size == s.prefix;
        PhantomExactly(r.s, steps[1..]);
      } else {
        assert r.s == s;
        StaleExactly(s, steps[1..]);
      }
    }
  }

  /** Skipping r bytes and then m more is skipping r + m. */
  lemma {:induction false} SkipCompose(bs: seq<Region>, x: nat, r: nat, m: nat)
    requires x <= |bs|
    ensures var (b, p) := SkipFront(bs, x, |bs|, r);
            SkipFront(bs, x, |bs|, r + m) == SkipFront(bs, b, |bs|, p + m)
    decreases |bs| - x
  {
    if r > 0 && x < |bs| && r >= bs[x].len {
      SkipCompose(bs, x + 1, r - bs[x].len, m);
    }
  }

  /** The end of the range matters only where it is reached. */
  lemma {:induction false} SkipBounded(bs: seq<Region>, x: nat, end: nat, n: nat)
    requires x <= end <= |bs| && SkipFront(bs, x, end, n).0 < end
    ensures SkipFront(bs, x, end, n) == SkipFront(bs, x, |bs|, n)
    decreases end - x
  {
    if n > 0 && x < end && n >= bs[x].len {
      SkipBounded(bs, x + 1, end, n - bs[x].len);
    }
  }

  /** The slice stands r bytes into its base with z bytes left and nothing left over. */
  ghost predicate Stands(s: Slice, r: nat, z: nat) {
    && s.Inv() && Clean(s) && s.size == z
    && (z > 0 ==> s.begin < s.end && SkipFront(s.bs, 0, |s.bs|, r) == (s.begin, s.prefix))
  }

  lemma RemoveStands(s: Slice, r: nat, z: nat, n: nat)
    requires Stands(s, r, z) && z > 0
    ensures Stands(s.RemovePrefix(n), r + Min(n, z), z - Min(n, z)) && s.RemovePrefix(n).bs == s.bs
  {
    hide CellsOf;
    var m, t := Min(n, z), s.RemovePrefix(n);
    RemovePrefixInv(s, n);
    RemovePrefixClean(s, n);
    RemovePrefixIs(s, n);
    if z > m {
      assert t.begin < t.end;
      SkipBounded(s.bs, s.begin, s.end, m + s.prefix);
      SkipCompose(s.bs, 0, r, m);
    }
  }

  lemma KeepStands(s: Slice, r: nat, z: nat, n: nat)
    requires Stands(s, r, z) && 0 < n
    ensures s.KeepSafe(n) && Stands(s.KeepPrefix(n), r, Min(n, z)) && s.KeepPrefix(n).bs == s.bs
  {
    hide CellsOf;
    if n < z {
      RemoveSuffixInv(s, z - n);
    }
  }

  lemma {:induction false} StandsExactly(s: Slice, r: nat, z: nat, steps: seq<Step>)
    requires Stands(s, r, z)
    ensures Run(s, steps) == Tripped <==> WillTrip(s.bs, r, z, steps)
    decreases |steps|
  {
    hide CellsOf, SkipFront;
    if z == 0 {
      CleanEmptyRun(s, steps);
    } else if steps != [] {
      var n := steps[0].n;
      StepDenotes(s, steps[0]);
      match steps[0].how
      case RemovePrefix =>
        RemoveStands(s, r, z, n);
        StandsExactly(s.RemovePrefix(n), r + Min(n, z), z - Min(n, z), steps[1..]);
      case KeepPrefix =>
        if n == 0 {
          StaleExactly(s.KeepPrefix(0), steps[1..]);
        } else {
          KeepStands(s, r, z, n);
          StandsExactly(s.KeepPrefix(n), r, Min(n, z), steps[1..]);
        }
    }
  }

  /** Every run of steps from construction, on every base: it trips if and only if
      WillTrip says so. */
  lemma TripsExactly(bs: seq<Region>, steps: seq<Step>)
    ensures Run(Whole(bs), steps) == Tripped <==> WillTrip(bs, 0, Size(bs), steps)
  {
    hide CellsOf;
    if Size(bs) > 0 || bs == [] {
      WholeStands(bs);
      StandsExactly(Whole(bs), 0, Size(bs), steps);
    } else {
      CleanEmptyRun(Whole(bs), steps);
    }
  }

  lemma WholeStands(bs: seq<Region>)
    requires Size(bs) > 0 || bs == []
    ensures Stands(Whole(bs), 0, Size(bs)) && Whole(bs).bs == bs
  {
  }

  lemma TripTail(p: nat, n: nat, k: nat)
    ensures StaleTrips(p, [Step(SliceHow.RemovePrefix, n), Step(SliceHow.KeepPrefix, k)]) <==> 0 < k < p
  {
    assert [Step(SliceHow.RemovePrefix, n), Step(SliceHow.KeepPrefix, k)][1..] == [Step(SliceHow.KeepPrefix, k)];
    assert !PhantomTrips(p, [Step(SliceHow.KeepPrefix, k)][1..]);
  }

  lemma TripHead(bs: seq<Region>, p: nat, z: nat, tail: seq<Step>)
    requires p < z
    ensures WillTrip(bs, 0, z, [Step(SliceHow.RemovePrefix, p), Step(SliceHow.KeepPrefix, 0)] + tail)
            <==> StaleTrips(UsedPrefix(bs, p), tail)
  {
    hide StaleTrips, UsedPrefix;
    var steps := [Step(SliceHow.RemovePrefix, p), Step(SliceHow.KeepPrefix, 0)] + tail;
    assert steps[1..] == [Step(SliceHow.KeepPrefix, 0)] + tail && steps[1..][1..] == tail;
    assert WillTrip(bs, p, z - p, steps[1..]) <==> StaleTrips(UsedPrefix(bs, p), tail);
  }

  /** The shortest failing runs: after removing p bytes inside the first buffer, emptying,
      removing anything and keeping k bytes trips if and only if 0 < k < p. */
  lemma TrippingRun(bs: seq<Region>, p: nat, n: nat, k: nat)
    requires |bs| > 0 && p < bs[0].len
    ensures
      var steps := [Step(SliceHow.RemovePrefix, p), Step(SliceHow.KeepPrefix, 0)]
                   + [Step(SliceHow.RemovePrefix, n), Step(SliceHow.KeepPrefix, k)];
      Run(Whole(bs), steps) == Tripped <==> 0 < k < p
  {
    hide Run, WillTrip, StaleTrips;
    var tail := [Step(SliceHow.RemovePrefix, n), Step(SliceHow.KeepPrefix, k)];
    TripsExactly(bs, [Step(SliceHow.RemovePrefix, p), Step(SliceHow.KeepPrefix, 0)] + tail);
    SkipInFirst(bs, p);
    TripHead(bs, p, Size(bs), tail);
    TripTail(p, n, k);
  }

  lemma SkipInFirst(bs: seq<Region>, n: nat)
    requires |bs| > 0 && n < bs[0].len
    ensures SkipFront(bs, 0, |bs|, n) == (0, n)
  {
  }
}
