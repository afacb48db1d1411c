# shear scene splitter, modelled in Dafny

shear detects scene changes in a video and writes one scene-start frame
index per line, for a chunked encoder. Its one piece of logic is
`split_long_scenes`. This function walks the ranges `[start, end)` between
consecutive scene starts. The last range ends at the total frame count.
For every range it pushes `start`. A range longer than `max_frames` also
gets evenly spaced split points. The function then sorts the collected
boundaries and removes duplicates. Before the call, `main` inserts frame 0
at the front of the detected list when that list is empty or does not start
with 0 (so `[3, 0]` becomes `[0, 3, 0]`). It also picks the
total frame count: the command-line value if it is positive, otherwise the
detector's count.

Files:

- `sequences.dfy` (module `Sequences`): sorted and strictly increasing
  sequences, and `Vec::sort` and `Vec::dedup` as methods with loops. The
  lemma `StrictlyIncreasingUnique` shows that a strictly increasing
  sequence is fixed by its set of values.
- `scenes.dfy` (module `Scenes`):
  - the range arithmetic (`SceneLen`, `NumChunks`, `ChunkSize`, `SplitPoint`);
  - the list the loops push before sorting (`RangePoints`, `EmittedPrefix`, `Emitted`);
  - the splitter as imperative methods (`SplitLongScenes` and `PushRange`, its loop body);
  - the seeding step and the frame-count choice from `main`;
  - the lemmas about all of these.
- `scene_vectors.dfy` (module `SceneVectors`): the four unit tests of
  src/main.rs, and inputs where the documented length bound fails.

`usize` is modelled as `nat`, with `usize::MAX` taken from a 64-bit target. Only one sum in `split_long_scenes` can
overflow a `usize`: `scene_len + max_frames`, which Rust adds before
subtracting 1 in `scene_len + max_frames - 1`. The precondition
`ChunkCountFits` says that sum fits. `LongRangeSplits` proves that every
split point `start + j * chunk_size` stays below the range end, so
computing a split point cannot overflow. `max_frames > 0` is a precondition too, because the
source divides by it.

### Where the documentation and the code disagree

The doc comment of `split_long_scenes` (src/main.rs:158-162) says the
chunks stay "under the max_frames limit". The code does not do that. The
floor-sized chunks leave the whole remainder to the last piece of a range.
Here is the model's proof:

- `LastChunkOverLimit`: 5 frames with `max_frames = 2` give `[0, 1, 2]`. The last piece is 3 frames long.
- `LastPieceUnbounded`: 2k+1 frames with `max_frames = 2` give a last piece of k+1 frames.
- `SplitNotIdempotent`: splitting `[0, 1, 2]` again gives `[0, 1, 2, 3]`. So the splitter is not idempotent.

The model follows the code. It proves the bounds that do hold: every
non-final piece has exactly `chunk_size` frames, with
`1 <= chunk_size <= max_frames`. The final piece has
`chunk_size + scene_len % num_chunks` frames. The unit tests fix the
code's flooring: test 4 expects 432, and spreading the remainder evenly
would give 433. So the code as written is what the model follows.

## Model

| member | source | states |
|---|---|---|
| `Scenes.SplitLongScenes` | src/main.rs:163-197 | The result is strictly increasing and holds exactly the values pushed by the loops (IsSplitResult). It contains every scene start. It is empty exactly for an empty input. For strictly increasing starts it equals the pushed list and is no shorter than the input. When in addition every range, the last one to total_frames included, is at most max_frames long, it equals the input. Requires max_frames > 0 and, for every range that gets split, scene_len + max_frames <= usize::MAX. |
| `Scenes.PushRange` | src/main.rs:175-190 | One pass of the outer loop appends exactly RangePoints(start, end, max_frames): the start, then the guarded split points of an over-long range. |
| `Sequences.Sort` | src/main.rs:194 | The result is sorted and is a permutation, as a multiset, of the input. |
| `Sequences.Dedup` | src/main.rs:195 | The result is the input with every run of equal adjacent values collapsed to one (WithoutAdjacentRepeats, defined element by element). No two adjacent results are equal. The set of values is unchanged, the first value is kept, and the result is no longer than the input. A sorted input gives a strictly increasing result. |
| `Sequences.SortDedup` | src/main.rs:194-195 | The result is strictly increasing and has the same set of values as the input. |
| `Sequences.StrictlyIncreasingUnique` | src/main.rs:194-195 | Two strictly increasing sequences with the same values are equal. So the sorted, deduplicated result is unique. |
| `Scenes.SplitResultProperties` | src/main.rs:167-195 | Every split result keeps every scene start and is empty exactly when the input is. For strictly increasing input it equals the pushed list, starts with the first scene start, and is at least as long as the input. If also no range is longer than max_frames, it equals the input. |
| `Scenes.SplitOfIncreasing` | src/main.rs:164-195 | For strictly increasing scene starts, the sort and dedup change nothing: the result is the list the loops pushed. |
| `Scenes.EmittedPrefixIncreasing` | src/main.rs:167-191 | For strictly increasing scene starts, the loops push in strictly increasing order. Everything pushed for earlier ranges lies below the next scene start. |
| `Scenes.EmittedKeepsStarts` | src/main.rs:175 | Every scene start is among the pushed values. Splitting never removes or moves a boundary. |
| `Scenes.FittingScenesUnchanged` | src/main.rs:177-178 | When no range is longer than max_frames, the loops push exactly the scene starts, in order. |
| `Scenes.ShortRangeNotSplit` | src/main.rs:177-178 | A range with end <= start + max_frames contributes only its start. This covers a range of exactly max_frames, an empty range, and one with end < start (saturating subtraction). |
| `Scenes.LongRangeSplits` | src/main.rs:178-189 | An over-long range has num_chunks >= 2 and 1 <= chunk_size <= max_frames. It gets exactly num_chunks - 1 split points, at start + j*chunk_size, each strictly inside the range, so the `< end` guard never rejects one. Consecutive points are chunk_size apart. The last piece is chunk_size + len % num_chunks frames, with len % num_chunks < num_chunks. |
| `Scenes.RangePointsShape` | src/main.rs:175-189 | A range's points start with its start and are strictly increasing. All later points lie strictly inside the range. |
| `Scenes.ChunkArithmetic` | src/main.rs:180-181 | For len > max_frames > 0: 2 <= num_chunks <= len and 1 <= chunk_size <= max_frames. Also (num_chunks - 1) * chunk_size < len, and the final piece is chunk_size + len % num_chunks. |
| `Scenes.NumChunksIsCeiling` | src/main.rs:180 | (len + max_frames - 1) / max_frames is the least n with len <= n * max_frames. |
| `Scenes.ChunkSizeIsFloor` | src/main.rs:181 | len / num_chunks is the largest c with c * num_chunks <= len. The remainder makes up the rest of len. |
| `Scenes.NumChunks` | src/main.rs:180 | The chunk count of an over-long range, `(scene_len + max_frames - 1) / max_frames`. Characterised by `NumChunksIsCeiling` (the least n with len <= n * max_frames) and bounded by `ChunkArithmetic` (2 <= n <= len when len > max_frames). |
| `Scenes.ChunkSize` | src/main.rs:181 | The chunk size `scene_len / num_chunks`. Characterised by `ChunkSizeIsFloor` (the largest c with c * num_chunks <= len) and bounded by `ChunkArithmetic` (1 <= c <= max_frames). |
| `Scenes.SplitPoint` | src/main.rs:185 | The j-th split point `start + j * chunk_size`. `LongRangeSplits` shows that for j = 1 .. num_chunks - 1 these points lie strictly inside the range, chunk_size apart. |
| `Scenes.Splits` | src/main.rs:184-189 | The split points the inner loop pushes for j = 1 .. k - 1, each when it lies below end. `LongRangeSplits` shows all num_chunks - 1 of them pass the guard; `RangePointsShape` that they are strictly increasing and inside the range. |
| `Scenes.RangePoints` | src/main.rs:175-189 | Everything pushed for one range, the reference for `PushRange`. `RangePointsShape` (start first, strictly increasing, later points inside the range), `LongRangeSplits` (over-long ranges) and `ShortRangeNotSplit` (only the start otherwise) characterise it. |
| `Scenes.EmittedPrefix` | src/main.rs:167-191 | What the outer loop has pushed after its first i ranges. `EmittedPrefixIncreasing` shows it is strictly increasing and below the next scene start for strictly increasing starts; `EmittedPrefixKeepsStarts` that it holds the first i starts; `EmittedLength` that it has at least i values. |
| `Scenes.Emitted` | src/main.rs:164-191 | The unsorted result vector after the outer loop, the reference for `SplitLongScenes`. `EmittedKeepsStarts` (every start is pushed), `EmittedLength` (at least one value per range), `FittingScenesUnchanged` and `SplitResultProperties` state its properties. |
| `Scenes.SceneLen` | src/main.rs:177 | The saturating difference: start + len == end when end >= start, and 0 otherwise. |
| `Scenes.RangeEnd` | src/main.rs:169-173 | A range ends at the next scene start, or at total_frames for the last range. |
| `Scenes.SeedFirstScene` | src/main.rs:122-124 | The seeded list is non-empty and starts with 0. It ends with the whole original list and has at most one extra element. It equals the original exactly when the original is non-empty and starts with 0. Strict increase is preserved. |
| `Scenes.EffectiveTotalFrames` | src/main.rs:127-131 | Gives the command-line count when it is positive, otherwise the detector's count. The result is 0 only when both are 0. |
| `SceneVectors.NoSplitNeeded` | src/main.rs:204-208 | [0,100,200], 300 frames, max 150 gives [0,100,200]. |
| `SceneVectors.SingleSplit` | src/main.rs:211-216 | [0], 400 frames, max 250 gives [0,200]. |
| `SceneVectors.MultipleSplits` | src/main.rs:219-224 | [0], 1000 frames, max 300 gives [0,250,500,750]. |
| `SceneVectors.MixedScenes` | src/main.rs:227-234 | [0,100,600], 900 frames, max 200 gives [0,100,266,432,600,750]. |
| `SceneVectors.LastChunkOverLimit` | src/main.rs:158-162 | [0], 5 frames, max 2 gives [0,1,2]. Its last piece is 3 frames long, more than max_frames, which contradicts the doc comment. |
| `SceneVectors.SplitNotIdempotent` | src/main.rs:163-197 | Splitting [0,1,2] again, with 5 frames and max 2, gives [0,1,2,3]. So a second application changes the result. |
| `SceneVectors.LastPieceUnbounded` | src/main.rs:180-189 | A range of 2k+1 frames with max 2 has k+1 chunks of size 1 planned, k split points, and a last piece of k+1 frames. |

## Left out

- Command-line parsing with clap (src/main.rs:19-58): library plumbing. Its values are parameters here.
- Computing the frame limit from the frame rate (src/main.rs:60-67): floating-point division and `ceil`. `max_frames` is a given positive number.
- FFmpeg decoding and the av-scenechange detection call with its options (src/main.rs:76-109): foreign library calls. The detected scene changes and frame count are inputs.
- Progress output to stderr and the progress callback (src/main.rs:69-74, 89-104, 111-116, 147-153): I/O and floating-point percentages.
- Writing the output file (src/main.rs:136-145): file I/O.
- The sequence of calls in `main` (src/main.rs:119-134) is left out as a member of its own. Each of its three steps is modelled: `SeedFirstScene`, `EffectiveTotalFrames` and `SplitLongScenes`.
- `max_frames == 0` makes src/main.rs:180 panic on division by zero. The model makes it a precondition instead of modelling the panic.
- Overflow of `scene_len + max_frames`, the first addition in `scene_len + max_frames - 1` (src/main.rs:180), is a precondition (`ChunkCountFits`), with `usize::MAX = 2^64 - 1` of a 64-bit target. On a 32-bit target the bound is lower and `ChunkCountFits` admits sums that overflow there. The precondition matches a debug build exactly, where the overflow panics. A release build wraps instead. When the sum exceeds 2^64, the wrapped `scene_len + max_frames - 1` is below `max_frames`, so `num_chunks` is 0 and src/main.rs:181 panics on division by zero. Only a sum of exactly 2^64 wraps to `usize::MAX`, which is the correct ceiling numerator. That one input is handled by a release build and excluded by the model.
- `Sequences.Sort`: Rust's `sort` is a stable sort. The model uses insertion sort, which gives the same result on integers. Only the result (sorted, and a permutation) is stated.
- `SplitLongScenes`: the loop body over one range is the separate method `PushRange` in the model. Only the code layout differs from the source, not what it computes.
