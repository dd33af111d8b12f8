# Boost.Buffers, verified

A Dafny model of the parts of Boost.Buffers where scattered memory regions are
treated as one byte string, with proofs of what those parts promise.

Memory is one `array<byte>`, a buffer is a region (offset, length) of it, and a
buffer sequence is a list of regions. What a sequence denotes is `CellsOf`, the
list of memory cells it runs through. Saying that two sequences have the same
cells is stronger than saying that they read the same bytes: writes go to the
same places too. `Peek` reads a list of cells and `Poke` writes one, in order.

The project has three layers.

1. **Slicing and copying.** `SliceState.dfy` holds the seven fields of `slice_of`
   as a value with the effect of each step in closed form; `Slice.dfy` is the class
   whose loops are proved to have that effect, with its iterators; `SliceLaws.dfy`
   proves that steps take and drop cells over every run; `Slicing.dfy` has the eight
   free functions; `BufferPair.dfy` the in-place pair and the agreement of all
   slicing implementations; `Copy.dfy` the two-cursor copy and the resume law.
2. **Streaming.** `Batching.dfy` says what reading in groups of 16 buffers means;
   `AnySource.dfy` has `data_model`, the user's read sources and the `any_source`
   loop; `AnyReadSource.dfy` the other loop, the sticky error and the agreement of
   both; `SourceRuns.dfy` proves that batching cannot be observed and that every run
   of reads and rewinds delivers exactly the bytes of the source.
3. **Dynamic buffers.** `CircularBuffer.dfy`, `FlatBuffer.dfy` and
   `StringBuffer.dfy` model the three buffers; `QueueRuns.dfy` proves that each is a
   first-in first-out byte queue over every run and that they agree with one
   another; `DynamicBuffer.dfy` has the type-erased wrapper and its cache.

A class method states its new state as a function of the old one (`State()` and a
member of the value type); the lemmas in the table say what that function means.
The virtual functions behind `any_source` are a closed sum of its four
implementations. A throw is a result value with the state unchanged. A source of
the user is an arbitrary function from its state and the destination to the bytes
delivered, an error code and a new state, restricted only by the rule the loops
assert: a read fills its destination or fails.

`dafny verify dfyconfig.toml` checks the project.

## Where the code and its promises part

- **`slice_of` after `keep_prefix(0)`.** Emptying a slice this way leaves the used
  prefix in its field (slice.hpp:237-243); the next `remove_prefix` adds it to the
  byte total (slice.hpp:158-164), and a later `keep_prefix(k)` with `k` below that
  total runs into the assertion at slice.hpp:190. The invariant `Inv` covers those
  states too; `RemovePrefixDenotes` and `KeepPrefixDenotes` say exactly when the
  total is wrong and when the assertion fails, `TripsExactly` says of every run from
  construction whether it fails, and `TrippingRun` gives the shortest failing runs.
  Only `keep_prefix` asks its caller for anything, namely that very guard, `KeepSafe`;
  the other three in-place functions are safe in every state.
- **`circular_buffer` arithmetic.** Sums stay below 2^64 in every state if and only
  if the capacity is at most 2^63 (`OverflowExactly`). `prepare` divides by the
  capacity after the length check, so `prepare(0)` on a buffer of capacity zero is
  the one call it cannot take.
- **`consume` with a region prepared.** It leaves the region in place always for
  `circular_buffer`, for `flat_buffer` unless it empties a buffer that does not start
  at the storage, and for `string_buffer` never (`ConsumeLaw`). A region is called live
  until then. The queue theorems allow every call at every time and forbid only writes
  to a region that is no longer live; a commit without a live region appends nothing in
  a `string_buffer`, and in a `flat_buffer` whatever the storage holds at the place
  the buffer now takes for prepared (`FlatStaleCommit`).
- **When `prepare` throws.** doc/modules/ROOT/pages/DynamicBuffer.adoc:73 promises
  `length_error` when `size() + n` exceeds `max_size()`. `flat_buffer` and
  `string_buffer` throw `invalid_argument`, and `flat_buffer` also refuses when
  consumed bytes in front take the room (`FlatAcceptsDocumented`).
- **The type-erased wrapper** starts with an empty cache, so over a buffer that
  already has bytes its `data()` is wrong until the first commit or consume. Over a
  `string_buffer` its `prepare` may also move the characters without refreshing the
  cache, which then dangles until the next commit or consume. `CacheCoherent` is the
  exact condition, `StringDangles` the shortest failing run.

## Model

| member | source | states |
|---|---|---|
| `Regions.SizeOf` | include/boost/buffers/buffer.hpp:596-607 | The summation loop returns the number of cells the sequence runs through |
| `Regions.DoSliceDenotes` | include/boost/buffers/buffer.hpp:207-245 | Slicing one buffer, with the clamp of `operator+=`, drops or takes cells at any n |
| `Regions.Memcpy` | include/boost/buffers/copy.hpp:75-80 | On non-overlapping ranges inside memory, exactly the n destination cells receive the source bytes |
| `SliceStates.Whole` | include/boost/buffers/slice.hpp:95-110 | A new slice is in a valid state at logical offset 0 |
| `SliceStates.Window` | include/boost/buffers/slice.hpp:350-367 | In every valid state the iterated cells are one window of the base sequence, placed by the skipped buffers and the used prefix and as long as the stored total; the total equals the iterated bytes unless an empty range has one left over |
| `SliceLaws.RemovePrefixDenotes` | include/boost/buffers/slice.hpp:150-179 | In every valid state the step keeps the state valid and drops min(n, size) cells; afterwards the byte total is right exactly if the range was not an empty one with a prefix or total left over |
| `SliceLaws.RemoveSuffixDenotes` | include/boost/buffers/slice.hpp:181-229 | Entered where its two assertions hold, it drops min(n, size) cells at the back and leaves the total right |
| `SliceLaws.KeepPrefixDenotes` | include/boost/buffers/slice.hpp:231-245 | Where it does not trip, it keeps the state valid and takes min(n, size) cells; it enters `remove_suffix_impl` with the assertions holding exactly where `KeepSafe` says so |
| `SliceLaws.StalePrefix` | include/boost/buffers/slice.hpp:158-164 | The exact state after `keep_prefix(0)` and any `remove_prefix`: no cells, a total equal to the stale prefix, and the assertion failing for exactly the k below it |
| `SliceLaws.StepDenotes` | include/boost/buffers/slice.hpp:263-281 | One dispatched step: when it trips, what it does to the cells, and that only `keep_prefix(0)` can leave something behind on an empty range |
| `SliceLaws.RunDenotes` | include/boost/buffers/slice.hpp:150-245 | Every run of steps, in any mix and order on any base, keeps the invariant and denotes the same takes and drops, up to the step that trips, if any |
| `SliceLaws.CleanRun` | include/boost/buffers/slice.hpp:150-245 | A run without `keep_prefix(0)` never trips and keeps the stored total equal to the iterated bytes |
| `SliceLaws.TripsExactly` | include/boost/buffers/slice.hpp:150-245 | Every run from construction on every base trips an assertion if and only if some `keep_prefix(0)` empties a non-empty slice with p bytes of its first buffer used, and the first `remove_prefix` after it is followed, before any further `keep_prefix(0)`, by a `keep_prefix(k)` with 0 < k < p; p is computed from the sizes of the base and the bytes removed |
| `SliceLaws.TrippingRun` | include/boost/buffers/slice.hpp:184-190 | The shortest failing runs: removing p bytes inside the first buffer, emptying, removing any prefix and keeping k bytes trips if and only if 0 < k < p |
| `Slices.SliceOf.constructor` | include/boost/buffers/slice.hpp:95-110 | The counting loop yields the whole sequence with its exact byte total |
| `Slices.SliceOf.RemovePrefixImpl` | include/boost/buffers/slice.hpp:150-179 | The loop, with the prefix added back first, leaves exactly the specified fields and never goes below zero or past the end |
| `Slices.SliceOf.RemoveSuffixImpl` | include/boost/buffers/slice.hpp:181-229 | The backward loop leaves exactly the specified fields; both assertions are proved at entry |
| `Slices.SliceOf.KeepPrefixImpl` | include/boost/buffers/slice.hpp:231-245 | Leaves exactly the specified fields |
| `Slices.SliceOf.SliceImpl` | include/boost/buffers/slice.hpp:122-131 | The customization point reaches the specified state and takes or drops the cells |
| `Slices.ConstIterator.Deref` | include/boost/buffers/slice.hpp:350-367 | At position k it yields the k-th buffer of the slice |
| `Slices.ConstIterator.Increment` | include/boost/buffers/slice.hpp:369-376 | Advances base position and index together |
| `Slices.ConstIterator.Decrement` | include/boost/buffers/slice.hpp:386-393 | Moves base position and index back together |
| `Slices.IteratorPositions` | include/boost/buffers/slice.hpp:331-341 | Iterators of one slice are equal exactly at equal positions, and what one yields is part of the base buffer at that index |
| `Slices.SliceOf.Begin` | include/boost/buffers/slice.hpp:406-414 | Stands at position 0 |
| `Slices.SliceOf.End` | include/boost/buffers/slice.hpp:416-424 | Stands at position `len_` |
| `Slicing.Forward` | test/unit/test_buffers.hpp:147-162 | Walking ++ from begin() to end() visits exactly the `len_` buffers in order |
| `Slicing.Backward` | test/unit/test_buffers.hpp:181-196 | Walking -- from end() to begin() visits the same buffers, last first |
| `Slicing.SizeOfSlice` | include/boost/buffers/buffer.hpp:596-607 | size() of a slice is the number of cells it iterates, in every valid state |
| `Slicing.KeepPrefix` | include/boost/buffers/slice.hpp:437-449 | The first min(n, size) cells remain |
| `Slicing.KeepSuffix` | include/boost/buffers/slice.hpp:453-466 | The last min(n, size) cells remain, in every valid state |
| `Slicing.RemovePrefix` | include/boost/buffers/slice.hpp:470-481 | All but the first min(n, size) cells remain |
| `Slicing.RemoveSuffix` | include/boost/buffers/slice.hpp:485-502 | All but the last min(n, size) cells remain; safe in every valid state, since it never asks for a prefix of an empty slice |
| `Slicing.Prefix` | include/boost/buffers/slice.hpp:508-521 | A new slice of the first min(n, size) cells |
| `Slicing.Suffix` | include/boost/buffers/slice.hpp:525-538 | A new slice of the last min(n, size) cells |
| `Slicing.SansPrefix` | include/boost/buffers/slice.hpp:542-555 | A new slice of all but the first min(n, size) cells |
| `Slicing.SansSuffix` | include/boost/buffers/slice.hpp:559-572 | A new slice of all but the last min(n, size) cells |
| `BufferPairs.SlicePair` | src/buffer_pair.cpp:16-96 | Both overloads, in place: the two buffers afterwards, and that the pair takes or drops cells |
| `BufferPairs.PairDenotes` | src/buffer_pair.cpp:16-96 | The branches of the pair drop or take cells at every n, also across the boundary |
| `BufferPairs.SlicingDenotes` | include/boost/buffers/slice.hpp:437-572 | `prefix`, `suffix`, `sans_prefix` and `sans_suffix` have their meaning on a buffer, a pair and a slice, at every n |
| `BufferPairs.ImplementationsAgree` | include/boost/buffers/slice.hpp:437-572 | Any two implementations on the same cells give the same cells for all four functions, and the kept and removed parts reassemble the original |
| `Copying.Copy` | include/boost/buffers/copy.hpp:39-105 | The two-cursor loop ends, returns min(size(dest), size(src), at_most), and leaves memory as copying that many bytes one by one in order does, for every fragmentation, with empty buffers and with ranges that overlap; it asks only what memcpy asks in each turn |
| `Copying.Turn` | include/boost/buffers/copy.hpp:64-101 | Each turn copies consecutive cells on both sides, which do not overlap, and uses up a source buffer, a destination buffer or the byte allowance |
| `Copying.ApartCopyable` | include/boost/buffers/copy.hpp:75-80 | Sequences that share no cell meet what memcpy asks in every turn |
| `Copying.CopyBytesApart` | include/boost/buffers/copy.hpp:75-80 | Copying byte by byte between lists that share no cell writes what the source cells held before |
| `Copying.CopyDelivers` | include/boost/buffers/copy.hpp:32-33 | Where source and destination share no cell, memory is what writing the source bytes to the destination gives: with distinct destination cells, dest reads as src did; the source bytes and every cell outside the copied part are unchanged |
| `Copying.CopyResume` | include/boost/buffers/copy.hpp:52-103 | Copying at most k and then at most j bytes of the remainders is copying at most k + j bytes: same memory and same total, also where source and destination overlap |
| `Copying.CopyResumeSliced` | include/boost/buffers/slice.hpp:542-555 | The resume law with the remainders that `sans_prefix` returns for both sequences |
| `Copying.CopyIntoSlice` | include/boost/buffers/slice.hpp:350-367 | A copy into a slice writes the cells of its base at the shifted logical offset |
| `Batching.GroupsPartition` | include/boost/buffers/any_source.hpp:192-209 | The groups are consecutive, none is empty, all but the last have 16 buffers, and together they are the destination |
| `Batching.GroupingInvisible` | include/boost/buffers/any_source.hpp:184-210 | If a source cannot tell split reads apart, any sequence of groups acts as one read of the whole |
| `Batching.DrainFills` | include/boost/buffers/any_read_source.hpp:71-74 | If each read fills its buffers or fails, so does the batched read |
| `Batching.DrainStops` | include/boost/buffers/any_source.hpp:198-207 | A group that reports eof, or a code that its category calls a failure, ends the read with that code; no error and a code that is no failure let it go on with the next group |
| `Batching.FillsExactly` | include/boost/buffers/any_source.hpp:198-202 | What the loops assert of a read: it may deliver less than it was asked for only with eof or a code that its category calls a failure |
| `Batching.BatchedStep` | include/boost/buffers/any_source.hpp:198-207 | One read of a group carries the loop state on, or ends it with the result and memory of the whole |
| `AnySources.DataModel.constructor` | include/boost/buffers/any_source.hpp:246-252 | Starts at offset 0 with the size of the data |
| `AnySources.DataModel.Rewind` | include/boost/buffers/any_source.hpp:275-278 | Returns to offset 0 |
| `AnySources.DataModel.Read` | include/boost/buffers/any_source.hpp:280-292 | Slicing off the prefix and copying delivers the next bytes of the content, as many as fit, advances by as many, and reports eof exactly when all have been read |
| `AnySources.ReadModel.Read` | include/boost/buffers/any_source.hpp:315-320 | Forwards to the user's source |
| `AnySources.AnySource.ReadImpl` | include/boost/buffers/any_source.hpp:213-226 | The virtual read of each of the four implementations |
| `AnySources.AnySource.Size` | include/boost/buffers/any_source.hpp:141-148 | A size is returned exactly where `has_size` says so, and refused for a read source without one; for data it is the number of bytes of the buffers, for a sized read source the size that source reports |
| `AnySources.AnySource.Buffers` | include/boost/buffers/any_source.hpp:150-158 | Buffers are returned exactly where `has_buffers` says so, and refused for read sources; they hold the bytes that reads deliver; for data they are the sequence it was made of |
| `AnySources.AnySource.Rewind` | include/boost/buffers/any_source.hpp:160-166 | Every implementation returns to its initial position |
| `AnySources.AnySource.Read` | include/boost/buffers/any_source.hpp:178-211 | The batching loop drains the groups of the destination: count, error, position and memory; over a data source and a non-empty destination of any length that is one read of the whole; a default-constructed source reports eof and touches nothing; the internal assertion always holds |
| `AnySources.DefaultEnds` | src/any_source.cpp:82-88 | Draining a non-empty destination from a default-constructed source delivers nothing and reports eof |
| `AnySources.DataSplits` | include/boost/buffers/any_source.hpp:280-292 | A data source cannot tell a split read from a whole one, wherever the end of the data falls |
| `AnySources.BatchingIsOneRead` | include/boost/buffers/any_source.hpp:184-210 | From any offset, draining a non-empty destination group by group is one read of the whole destination |
| `SourceRuns.OneReadIsOneCopy` | include/boost/buffers/any_source.hpp:280-292 | One read of a data source is one copy from what `sans_prefix` leaves of it |
| `SourceRuns.BatchingIsInvisible` | include/boost/buffers/any_source.hpp:184-210 | For every non-empty destination and every offset, the batched read has the count, memory, new offset and error of one `copy(dest, sans_prefix(data, nread_))` |
| `SourceRuns.NextIsRead` | include/boost/buffers/any_source.hpp:160-211 | A read step of a run is what `any_source::read` does, also for an empty destination, and a rewind step is what `rewind` does |
| `SourceRuns.RunDelivers` | include/boost/buffers/any_source.hpp:275-292 | After every run of reads and rewinds, the bytes found in the destinations since construction or rewind are exactly the first `nread_` bytes of the source, which is itself unchanged |
| `SourceRuns.EofExactly` | include/boost/buffers/any_source.hpp:168-177 | After a read into a non-empty destination, eof is reported if and only if everything has been read; the read fills the destination or reaches the end; at the end, a read delivers nothing, reports eof and leaves memory alone |
| `SourceRuns.RewindReplays` | include/boost/buffers/any_source.hpp:160-166 | From equal offsets, the same reads deliver the same bytes and errors whatever happened before, so a rewind replays the source |
| `SourceRuns.RewindStartsAgain` | include/boost/buffers/any_source.hpp:275-278 | Wherever a history contains a rewind, what the calls after it deliver is what the same calls deliver from a fresh source over the same data |
| `AnyReadSources.ReadSourceImpl.DoRead` | include/boost/buffers/any_read_source.hpp:151-165 | A failed source is not asked again; otherwise the read is forwarded and its error kept |
| `AnyReadSources.ReadSourceImpl.Rewind` | include/boost/buffers/any_read_source.hpp:135-149 | Restores the initial state and clears the error, or is refused with nothing changed; that is the rewind step of a history |
| `AnyReadSources.ReadSourceImpl.Read` | include/boost/buffers/any_read_source.hpp:52-92 | The other loop drains the same groups: count, error, state and memory, and that is the read step of a history; both internal assertions always hold |
| `AnyReadSources.StickyTransparent` | include/boost/buffers/any_read_source.hpp:151-165 | Over a source whose kept error is no failure, stickiness changes nothing within a read, and the error of the read is kept |
| `AnyReadSources.StickyAnswers` | include/boost/buffers/any_read_source.hpp:156-164 | A source that keeps eof, or a code that its category calls a failure, answers with that code and no bytes and is not asked; with no error or a code that is no failure it is asked |
| `AnyReadSources.TwoLoopsAgree` | include/boost/buffers/any_read_source.hpp:59-91 | Both loops give the same bytes, count, error and source state on every destination, and fill it or fail |
| `AnyReadSources.SameCalls` | include/boost/buffers/any_read_source.hpp:65-90 | Both loops make the same calls: the groups of 16 and the remainder, in order, up to the first failure |
| `AnyReadSources.CallDelivers` | include/boost/buffers/any_read_source.hpp:52-92 | What a call of a history does: where no failure is kept, a read delivers what the source's own reader delivers for the same groups, with its error and state; where one is kept, nothing and that error |
| `AnyReadSources.StickyHistory` | include/boost/buffers/any_read_source.hpp:135-165 | Over every history of reads and rewinds: after call i has failed with e, and until a rewind succeeds, every later call delivers nothing and leaves the source alone, and a read into at least one buffer reports e |
| `AnyReadSources.StickyExactly` | include/boost/buffers/any_read_source.hpp:135-165 | Over every history, a call finds a failure kept if and only if some earlier read failed and no rewind has succeeded since |
| `AnyReadSources.FailureIsKept` | include/boost/buffers/any_read_source.hpp:161-164 | The error a read reports is the one it leaves behind |
| `AnyReadSources.RewindResumes` | include/boost/buffers/any_read_source.hpp:140-144 | Wherever a history contains a rewind that succeeds, the calls after it go as on a new source, whatever came before |
| `CircularBuffers.ModIsWrap` | src/circular_buffer.cpp:41-42 | The remainder by the capacity is a single wrap for every sum that occurs |
| `CircularBuffers.RegionCells` | src/circular_buffer.cpp:17-29 | The readable and the prepared buffers cover consecutive cells of the ring, wherever it wraps |
| `CircularBuffers.RegionsSeparate` | include/boost/buffers/circular_buffer.hpp:137-151 | Readable and prepared regions are inside the storage, share no cell and repeat none |
| `CircularBuffers.PrepareCells` | src/circular_buffer.cpp:31-50 | An accepted prepare yields n cells and leaves the readable buffers alone |
| `CircularBuffers.CommitCells` | include/boost/buffers/circular_buffer.hpp:137-157 | Commit appends the first min(n, prepared) prepared cells; readable cells handed out before keep their place |
| `CircularBuffers.ConsumeCells` | include/boost/buffers/circular_buffer.hpp:162-178 | Consume drops readable cells at the front and leaves the prepared cells where they are |
| `CircularBuffers.PreparedSurvives` | include/boost/buffers/circular_buffer.hpp:162-178 | Any number of consumes, also of everything, leaves the prepared region addressing the same cells |
| `CircularBuffers.PrepareAfterEmptying` | src/circular_buffer.cpp:83-89 | After consuming everything with nothing prepared, every accepted prepare is one contiguous region |
| `CircularBuffers.OverflowReached` | src/circular_buffer.cpp:22-49 | For every capacity above 2^63 a short run reaches a state in which a sum overflows |
| `CircularBuffers.OverflowExactly` | src/circular_buffer.cpp:22-71 | Every sum fits in 64 bits in all valid states if and only if the capacity is at most 2^63 |
| `CircularBuffers.CircularBuffer.Data` | src/circular_buffer.cpp:17-29 | Returns the two readable buffers |
| `CircularBuffers.CircularBuffer.Prepare` | src/circular_buffer.cpp:31-50 | Accepts exactly n within the capacity left and returns a prepared region of n cells; readable buffers stay, and a refusal changes nothing |
| `CircularBuffers.CircularBuffer.Commit` | src/circular_buffer.cpp:52-62 | The new state; the readable cells are the old ones plus the first min(n, prepared) prepared ones |
| `CircularBuffers.CircularBuffer.Consume` | src/circular_buffer.cpp:64-91 | The new state; min(n, size) readable cells are gone from the front and the prepared cells are where they were |
| `CircularBuffers.MakeCircular` | include/boost/buffers/circular_buffer.hpp:70-81 | Refuses exactly an initial size above the capacity; otherwise the first bytes of the storage are readable |
| `FlatBuffers.FlatCommitCells` | include/boost/buffers/flat_buffer.hpp:126-135 | Commit appends the first min(n, prepared) prepared cells |
| `FlatBuffers.FlatConsumeCells` | include/boost/buffers/flat_buffer.hpp:140-154 | Consume drops readable cells and keeps the prepared region if and only if nothing is prepared, bytes remain, or the buffer starts at the storage |
| `FlatBuffers.FlatStaleCommit` | include/boost/buffers/flat_buffer.hpp:126-154 | What a commit appends after a consume that moved the region, and exactly when that is what was prepared |
| `FlatBuffers.FlatAcceptsDocumented` | include/boost/buffers/flat_buffer.hpp:90-121 | prepare accepts as documented, for all n, if and only if nothing in front has been consumed |
| `FlatBuffers.FlatAfterConsume` | include/boost/buffers/flat_buffer.hpp:140-154 | Consuming everything makes the whole storage available again; consuming less gives nothing back |
| `FlatBuffers.FlatBuffer.Data` | include/boost/buffers/flat_buffer.hpp:98-103 | Returns the readable buffer |
| `FlatBuffers.FlatBuffer.Prepare` | include/boost/buffers/flat_buffer.hpp:111-121 | Accepts exactly n <= cap - in_pos - in_size and hands out n bytes; the readable buffer stays, and a refusal changes nothing |
| `FlatBuffers.FlatBuffer.Commit` | include/boost/buffers/flat_buffer.hpp:126-135 | The new state; the readable cells gain the first min(n, prepared) prepared ones |
| `FlatBuffers.FlatBuffer.Consume` | include/boost/buffers/flat_buffer.hpp:140-154 | The new state; cells are dropped at the front, and exactly when the prepared region stays |
| `FlatBuffers.MakeFlat` | include/boost/buffers/flat_buffer.hpp:50-62 | Refuses exactly an initial size above the capacity; otherwise the first bytes of the storage are readable |
| `StringBuffers.Open` | include/boost/buffers/string_buffer.hpp:63-77 | The constructor keeps the initial string, cut to the maximum |
| `StringBuffers.StringPrepareKeeps` | include/boost/buffers/string_buffer.hpp:111-123 | prepare grows the string with zero characters to what is needed, if it is shorter, and keeps all its characters |
| `StringBuffers.StringConsumeBytes` | include/boost/buffers/string_buffer.hpp:134-146 | Consume drops bytes at the front and discards a prepared region |
| `StringBuffers.StringBuffer.constructor` | include/boost/buffers/string_buffer.hpp:63-77 | Cuts the owner's string to the smaller maximum |
| `StringBuffers.StringBuffer.Data` | include/boost/buffers/string_buffer.hpp:104-109 | Returns the readable buffer |
| `StringBuffers.StringBuffer.Prepare` | include/boost/buffers/string_buffer.hpp:111-123 | Accepts exactly n within the maximum beside the readable bytes, which it keeps, and hands out n bytes; a refusal changes nothing |
| `StringBuffers.StringBuffer.Commit` | include/boost/buffers/string_buffer.hpp:125-132 | The new state; the readable bytes extend over the first min(n, prepared) prepared characters |
| `StringBuffers.StringBuffer.Consume` | include/boost/buffers/string_buffer.hpp:134-146 | The new state of buffer and string; min(n, size) bytes are gone from the front |
| `StringBuffers.StringBuffer.Destroy` | include/boost/buffers/string_buffer.hpp:45-49 | The owner's string is left with exactly the readable bytes |
| `QueueRuns.AcceptLaw` | doc/modules/ROOT/pages/DynamicBuffer.adoc:66-73 | Exactly which prepares each kind accepts, on its readable cells or bytes: those that fit beside them in the ring, behind them in the flat storage, within the maximum of the string |
| `QueueRuns.PrepareLaw` | doc/modules/ROOT/pages/DynamicBuffer.adoc:66-73 | For each kind of buffer, an accepted prepare stages n cells and leaves the readable bytes alone |
| `QueueRuns.CommitLaw` | doc/modules/ROOT/pages/DynamicBuffer.adoc:75-81 | For each kind, commit appends the first min(n, staged) staged cells and discards the rest |
| `QueueRuns.ConsumeLaw` | doc/modules/ROOT/pages/DynamicBuffer.adoc:83-88 | For each kind, consume removes min(n, size) bytes, and the staged region stays in place if and only if `Keeps` |
| `QueueRuns.WriteLaw` | include/boost/buffers/circular_buffer.hpp:114-135 | Writing anywhere in the staged region puts the bytes there, leaves the rest of it, and changes no readable byte |
| `QueueRuns.RunQueues` | src/circular_buffer.cpp:17-91 | The queue law is kept, from any state, by every run of prepare, write, commit and consume in which writes go to a live region |
| `QueueRuns.FirstInFirstOut` | src/circular_buffer.cpp:17-91 | From construction, after every run, the readable bytes of each kind of buffer are the initial ones plus the bytes pending at each commit, minus the consumed front; consume and commit are never restricted |
| `QueueRuns.PrepareInRun` | src/circular_buffer.cpp:31-50 | In every state of every run a prepare is accepted if and only if there is room for n bytes beside those queued (initial plus committed minus consumed), of unchanged capacity; then it hands out n cells, otherwise nothing at all changes |
| `QueueRuns.PutThrough` | doc/modules/ROOT/pages/DynamicBuffer.adoc:66-81 | Wherever there is room, preparing for, writing and committing any bytes makes them readable behind those that were |
| `QueueRuns.CallsAreLegal` | doc/modules/ROOT/pages/DynamicBuffer.adoc:66-88 | Apart from prepare(0) on a circular buffer without storage, every run of prepare, commit and consume is legal on every kind, and on a circular buffer so is every run with writes |
| `QueueRuns.CommitDelivers` | doc/modules/ROOT/pages/DynamicBuffer.adoc:75-81 | What a commit of a live region appends at written positions is what the client last wrote there, whatever the order of the writes and however many consumes came between |
| `QueueRuns.StringLifetime` | include/boost/buffers/string_buffer.hpp:45-146 | In every reachable state, with consumes at any time, in_size + out_size <= length <= maximum, and what the destructor leaves is the cut initial string plus all committed bytes minus all consumed bytes |
| `QueueRuns.BuffersAgree` | include/boost/buffers/flat_buffer.hpp:111-154 | Any two buffers of any kinds and sizes that start with the same bytes hold identical readable bytes after any run that both clients may make: a prepare is accepted by both or by neither, writes go to live regions, and a commit takes written bytes of live regions or appends nothing |
| `DynamicBuffers.Unroll` | include/boost/buffers/dynamic_buffer.hpp:88-105 | Writes the first min(length, len) buffers and nothing else |
| `DynamicBuffers.AnyDynamicBuffer.constructor` | include/boost/buffers/dynamic_buffer.hpp:108-114 | The cache starts empty |
| `DynamicBuffers.AnyDynamicBuffer.Data` | include/boost/buffers/dynamic_buffer.hpp:146-151 | Returns the cached buffers |
| `DynamicBuffers.AnyDynamicBuffer.Prepare` | include/boost/buffers/dynamic_buffer.hpp:153-162 | Hands out the wrapped buffer's whole region; cache and wrapped data stay as they were; a refusal changes nothing |
| `DynamicBuffers.AnyDynamicBuffer.Commit` | include/boost/buffers/dynamic_buffer.hpp:164-171 | Commits to the wrapped buffer, after which the cache is its data |
| `DynamicBuffers.AnyDynamicBuffer.Consume` | include/boost/buffers/dynamic_buffer.hpp:173-180 | Consumes from the wrapped buffer, after which the cache is its data |
| `DynamicBuffers.NextWrappedIs` | include/boost/buffers/dynamic_buffer.hpp:153-180 | Commit and consume set the cache to the wrapped data; prepare and a client's writes leave it alone |
| `DynamicBuffers.CacheCoherent` | include/boost/buffers/dynamic_buffer.hpp:146-180 | On every run over a buffer of any kind, the cache covers the readable cells and does not dangle if and only if nothing is readable, or some commit or consume has happened and no prepare has made a string grow since the last one |
| `DynamicBuffers.FixedStays` | include/boost/buffers/dynamic_buffer.hpp:153-162 | Over a circular or flat buffer that condition is simply that some commit or consume has happened |
| `DynamicBuffers.StringDangles` | include/boost/buffers/string_buffer.hpp:118-119 | A non-empty string, a consume and a prepare that grows the string leave the cache dangling |

## Left out

- Type detection (`is_const_buffer_sequence`, `is_dynamic_buffer`, `is_read_source` and the like): compile time only.
- `any_buffers`: storage of a type-erased sequence; modelled as the sequence it holds.
- `any_stream`, `any_sink` and `sink.hpp`: interfaces or stubs without logic.
- Error categories, exception helpers, `make_buffer`, `front`, `range`, `to_string` and the Asio conversions: thin wrappers.
- `keep_suffix_impl` (slice.hpp:247-261): never called; the free `keep_suffix` goes through `remove_prefix`.
- Slicing a slice by value: copies the seven fields and then runs the same in-place step, so it adds nothing to the in-place functions.
- The move constructor of `basic_string_buffer`, copying of buffers and iterators, and shared ownership of sources: one object of each kind is modelled.
- DynamicBuffers.CacheCoherent: counts every growth of a string as a new allocation, as the standard permits; a string with capacity to spare does not move. `capacity()` of `string_buffer` is not modelled.
- The non-const accessor `buffer()` of the type-erased dynamic buffer, which lets a caller change the wrapped buffer behind the cache.
- 64-bit wrap-around outside `circular_buffer`: sums in slices never exceed the size of the base sequence (part of `Inv`), and offsets in storage never exceed its end, so they fit when the memory itself is addressable.
- A user's read that leaves the error code passed to it untouched: each read sets it.
- Reading a data source into its own data: the destination of a read shares no cell with the buffers of the source.
- DynamicBuffers.AnyDynamicBuffer: the class wraps a circular buffer; the run theorem `CacheCoherent` covers flat and string buffers too.
