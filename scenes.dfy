/**
 * The scene splitter of shear (src/main.rs): long scenes between detected
 * scene-start frames are cut into evenly spaced chunks.
 *
 * Frame indices are `usize` in the source and `nat` here, with the bound
 * of a 64-bit target. The one addition that can overflow a `usize` is
 * `scene_len + max_frames`, evaluated before the `- 1` of the chunk-count
 * ceiling division; the precondition ChunkCountFits excludes it, exactly
 * where a debug build panics. Every other sum stays below a range end, which
 * LongRangeSplits proves.
 */
module Scenes {
  import opened Sequences

  /** `usize::MAX` on a 64-bit target. */
  const USIZE_MAX: nat := 0xFFFF_FFFF_FFFF_FFFF

  // ---------------------------------------------------------------------
  // One range [start, end)
  // ---------------------------------------------------------------------

  /** `end.saturating_sub(start)`: the length of [start, end), and 0 when end < start. */
  function SceneLen(start: nat, end: nat): (len: nat)
    ensures end >= start ==> start + len == end
    ensures end < start ==> len == 0
  {
    if end >= start then end - start else 0
  }

  /** The end of the i-th range: the next scene start, or the total frame count for the last one. */
  function RangeEnd(sceneStarts: seq<nat>, totalFrames: nat, i: nat): (end: nat)
    requires i < |sceneStarts|
    ensures i + 1 < |sceneStarts| ==> end == sceneStarts[i + 1]
    ensures i + 1 == |sceneStarts| ==> end == totalFrames
  {
    if i + 1 < |sceneStarts| then sceneStarts[i + 1] else totalFrames
  }

  /** `(scene_len + max_frames - 1) / max_frames`: ceiling division. */
  function NumChunks(len: nat, maxFrames: nat): (n: nat)
    requires maxFrames > 0
  {
    (len + maxFrames - 1) / maxFrames
  }

  /** NumChunks is the least number of chunks of at most maxFrames frames that cover len frames. */
  lemma NumChunksIsCeiling(len: nat, maxFrames: nat)
    requires maxFrames > 0
    ensures var n := NumChunks(len, maxFrames);
            len <= n * maxFrames && (n == 0 || (n - 1) * maxFrames < len)
  {
    var q := (len + maxFrames - 1) / maxFrames;
    var rem := (len + maxFrames - 1) % maxFrames;
    assert q * maxFrames + rem == len + maxFrames - 1;
    assert (q - 1) * maxFrames == q * maxFrames - maxFrames;
  }

  /** `scene_len / num_chunks`: floor division. */
  function ChunkSize(len: nat, numChunks: nat): (c: nat)
    requires numChunks > 0
  {
    len / numChunks
  }

  /** ChunkSize is the largest chunk size with numChunks chunks fitting in len frames. */
  lemma ChunkSizeIsFloor(len: nat, numChunks: nat)
    requires numChunks > 0
    ensures var c := ChunkSize(len, numChunks);
            c * numChunks <= len < (c + 1) * numChunks &&
            len == c * numChunks + len % numChunks
  {
    var c := len / numChunks;
    assert c * numChunks + len % numChunks == len;
    assert (c + 1) * numChunks == c * numChunks + numChunks;
  }

  /** `start + j * chunk_size`: the j-th split point of a range. */
  function SplitPoint(start: nat, chunk: nat, j: nat): (p: nat)
  {
    start + j * chunk
  }

  /**
   * The split points the inner loop pushes for j = 1 .. k - 1, in order:
   * SplitPoint(start, chunk, j) whenever it lies below end.
   */
  function Splits(start: nat, end: nat, chunk: nat, k: nat): (points: seq<nat>)
    decreases k
  {
    if k <= 1 then []
    else
      var p := SplitPoint(start, chunk, k - 1);
      Splits(start, end, chunk, k - 1) + (if p < end then [p] else [])
  }

  /** Everything pushed for one range: its start, then the split points of an over-long range. */
  function RangePoints(start: nat, end: nat, maxFrames: nat): (points: seq<nat>)
    requires maxFrames > 0
  {
    var len := SceneLen(start, end);
    if len > maxFrames then
      var n := NumChunks(len, maxFrames);
      assert n > 0 by {
        NumChunksIsCeiling(len, maxFrames);
      }
      [start] + Splits(start, end, ChunkSize(len, n), n)
    else
      [start]
  }

  // ---------------------------------------------------------------------
  // The whole list
  // ---------------------------------------------------------------------

  /** What the outer loop has pushed after its first i ranges, before sorting. */
  function EmittedPrefix(sceneStarts: seq<nat>, totalFrames: nat, maxFrames: nat, i: nat): (pushed: seq<nat>)
    requires maxFrames > 0
    requires i <= |sceneStarts|
    decreases i
  {
    if i == 0 then []
    else
      EmittedPrefix(sceneStarts, totalFrames, maxFrames, i - 1)
        + RangePoints(sceneStarts[i - 1], RangeEnd(sceneStarts, totalFrames, i - 1), maxFrames)
  }

  /** The unsorted `result` vector once every range has been processed. */
  function Emitted(sceneStarts: seq<nat>, totalFrames: nat, maxFrames: nat): (pushed: seq<nat>)
    requires maxFrames > 0
  {
    EmittedPrefix(sceneStarts, totalFrames, maxFrames, |sceneStarts|)
  }

  /**
   * What `split_long_scenes` returns: the emitted boundaries, sorted and
   * without duplicates. StrictlyIncreasingUnique shows at most one
   * sequence qualifies, and SplitLongScenes returns it.
   */
  ghost predicate IsSplitResult(sceneStarts: seq<nat>, totalFrames: nat, maxFrames: nat, r: seq<nat>)
    requires maxFrames > 0
  {
    StrictlyIncreasing(r) && Elems(r) == Elems(Emitted(sceneStarts, totalFrames, maxFrames))
  }

  /** Every range, the last one to totalFrames included, is at most maxFrames long. */
  ghost predicate AllScenesFit(sceneStarts: seq<nat>, totalFrames: nat, maxFrames: nat)
  {
    forall i :: 0 <= i < |sceneStarts| ==>
      SceneLen(sceneStarts[i], RangeEnd(sceneStarts, totalFrames, i)) <= maxFrames
  }

  /**
   * `scene_len + max_frames`, the first addition of `scene_len + max_frames - 1`,
   * does not overflow a 64-bit usize for any range that gets split.
   */
  ghost predicate ChunkCountFits(sceneStarts: seq<nat>, totalFrames: nat, maxFrames: nat)
  {
    forall i :: 0 <= i < |sceneStarts| ==>
      var len := SceneLen(sceneStarts[i], RangeEnd(sceneStarts, totalFrames, i));
      len > maxFrames ==> len + maxFrames <= USIZE_MAX
  }

  // ---------------------------------------------------------------------
  // The operations
  // ---------------------------------------------------------------------

  /**
   * `split_long_scenes`: push every range's start and, for a range longer
   * than maxFrames, its evenly spaced split points; then sort and dedup.
   */
  method SplitLongScenes(sceneStarts: seq<nat>, totalFrames: nat, maxFrames: nat)
    returns (result: seq<nat>)
    requires maxFrames > 0
    requires ChunkCountFits(sceneStarts, totalFrames, maxFrames)
    ensures IsSplitResult(sceneStarts, totalFrames, maxFrames, result)
    ensures forall k :: 0 <= k < |sceneStarts| ==> sceneStarts[k] in result
    ensures sceneStarts == [] ==> result == []
    ensures StrictlyIncreasing(sceneStarts) ==>
              result == Emitted(sceneStarts, totalFrames, maxFrames) && |result| >= |sceneStarts|
    ensures StrictlyIncreasing(sceneStarts) && AllScenesFit(sceneStarts, totalFrames, maxFrames) ==>
              result == sceneStarts
  {
    var pushed: seq<nat> := [];
    for i := 0 to |sceneStarts|
      invariant pushed == EmittedPrefix(sceneStarts, totalFrames, maxFrames, i)
    {
      var start := sceneStarts[i];
      var end := if i + 1 < |sceneStarts| then sceneStarts[i + 1] else totalFrames;
      assert end == RangeEnd(sceneStarts, totalFrames, i);
      pushed := PushRange(pushed, start, end, maxFrames);
    }
    result := SortDedup(pushed);
    SplitResultProperties(sceneStarts, totalFrames, maxFrames, result);
  }

  /**
   * The body of the outer loop of `split_long_scenes` for the range
   * [start, end): push start, and split an over-long range.
   */
  method PushRange(pushed: seq<nat>, start: nat, end: nat, maxFrames: nat) returns (extended: seq<nat>)
    requires maxFrames > 0
    requires SceneLen(start, end) > maxFrames ==> SceneLen(start, end) + maxFrames <= USIZE_MAX
    ensures extended == pushed + RangePoints(start, end, maxFrames)
  {
    extended := pushed + [start];
    var sceneLen := if end >= start then end - start else 0;
    assert sceneLen == SceneLen(start, end);
    if sceneLen > maxFrames {
      var numChunks := NumChunks(sceneLen, maxFrames);
      assert numChunks > 0 by {
        NumChunksIsCeiling(sceneLen, maxFrames);
      }
      var chunkSize := ChunkSize(sceneLen, numChunks);
      ghost var base := extended;
      for j: nat := 1 to numChunks
        invariant extended == base + Splits(start, end, chunkSize, j)
      {
        var split := SplitPoint(start, chunkSize, j);
        ghost var tail := if split < end then [split] else [];
        assert Splits(start, end, chunkSize, j + 1) == Splits(start, end, chunkSize, j) + tail;
        if split < end {
          extended := extended + [split];
        }
        assert extended == base + Splits(start, end, chunkSize, j + 1) by {
          AppendAssoc(base, Splits(start, end, chunkSize, j), tail);
        }
      }
      assert extended == pushed + RangePoints(start, end, maxFrames) by {
        AppendAssoc(pushed, [start], Splits(start, end, chunkSize, numChunks));
      }
    }
  }

  /**
   * What every split result satisfies: it keeps every scene start, is empty
   * only for an empty input, and for strictly increasing scene starts is the
   * emitted list itself, no shorter than the input and equal to it when
   * every range already fits.
   */
  lemma SplitResultProperties(sceneStarts: seq<nat>, totalFrames: nat, maxFrames: nat, r: seq<nat>)
    requires maxFrames > 0
    requires IsSplitResult(sceneStarts, totalFrames, maxFrames, r)
    ensures forall k :: 0 <= k < |sceneStarts| ==> sceneStarts[k] in r
    ensures sceneStarts == [] <==> r == []
    ensures StrictlyIncreasing(sceneStarts) ==>
              r == Emitted(sceneStarts, totalFrames, maxFrames) && |r| >= |sceneStarts|
    ensures StrictlyIncreasing(sceneStarts) && AllScenesFit(sceneStarts, totalFrames, maxFrames) ==>
              r == sceneStarts
    ensures StrictlyIncreasing(sceneStarts) && sceneStarts != [] ==> r[0] == sceneStarts[0]
  {
    var e := Emitted(sceneStarts, totalFrames, maxFrames);
    EmittedKeepsStarts(sceneStarts, totalFrames, maxFrames);
    forall k | 0 <= k < |sceneStarts| ensures sceneStarts[k] in r {
      assert sceneStarts[k] in Elems(e);
    }
    ElemsEmpty(r);
    ElemsEmpty(e);
    if StrictlyIncreasing(sceneStarts) {
      SplitOfIncreasing(sceneStarts, totalFrames, maxFrames, r);
      EmittedLength(sceneStarts, totalFrames, maxFrames, |sceneStarts|);
      if sceneStarts != [] {
        EmittedStartsWithFirstScene(sceneStarts, totalFrames, maxFrames, |sceneStarts|);
      }
      if AllScenesFit(sceneStarts, totalFrames, maxFrames) {
        FittingScenesUnchanged(sceneStarts, totalFrames, maxFrames, |sceneStarts|);
      }
    }
  }

  /**
   * `main`'s seeding step: frame 0 is inserted at the front when the detected
   * list is empty or does not start at 0, so the splitter always sees a
   * first scene starting at frame 0.
   */
  method SeedFirstScene(sceneChanges: seq<nat>) returns (sceneStarts: seq<nat>)
    ensures sceneStarts != [] && sceneStarts[0] == 0
    ensures |sceneChanges| <= |sceneStarts| <= |sceneChanges| + 1
    ensures sceneStarts[|sceneStarts| - |sceneChanges|..] == sceneChanges
    ensures sceneStarts == sceneChanges <==> sceneChanges != [] && sceneChanges[0] == 0
    ensures StrictlyIncreasing(sceneChanges) ==> StrictlyIncreasing(sceneStarts)
  {
    sceneStarts := sceneChanges;
    if sceneStarts == [] || sceneStarts[0] != 0 {
      sceneStarts := [0] + sceneStarts;
    }
  }

  /**
   * `main`'s frame count: the command-line value when it is positive,
   * otherwise the count the detector observed.
   */
  function EffectiveTotalFrames(argTotalFrames: nat, detectedFrameCount: nat): (total: nat)
    ensures argTotalFrames > 0 ==> total == argTotalFrames
    ensures argTotalFrames == 0 ==> total == detectedFrameCount
    ensures total == 0 <==> argTotalFrames == 0 && detectedFrameCount == 0
  {
    if argTotalFrames > 0 then argTotalFrames else detectedFrameCount
  }

  // ---------------------------------------------------------------------
  // Arithmetic of one split
  // ---------------------------------------------------------------------

  lemma MulMonotone(a: nat, b: nat, c: nat)
    ensures a <= b ==> a * c <= b * c
  {
    if a <= b {
      assert b * c == a * c + (b - a) * c;
    }
  }

  /** With n chunks whose ceiling bound is met, an over-long range needs 2..len chunks. */
  lemma ChunkCountRange(len: nat, maxFrames: nat, n: nat)
    requires 0 < maxFrames < len
    requires len <= n * maxFrames && (n == 0 || (n - 1) * maxFrames < len)
    ensures 2 <= n <= len
  {
    MulMonotone(n, 1, maxFrames);
    assert n > 0;
    MulMonotone(1, maxFrames, n - 1);
  }

  /** The floor-sized chunk of such a range holds 1..maxFrames frames and the last split point is below len. */
  lemma ChunkSizeRange(len: nat, maxFrames: nat, n: nat, c: nat)
    requires 0 < n <= len && len <= n * maxFrames
    requires c * n <= len < (c + 1) * n
    ensures 1 <= c <= maxFrames
    ensures (n - 1) * c < len
  {
    MulMonotone(c + 1, 1, n);
    MulMonotone(maxFrames + 1, c, n);
    assert (maxFrames + 1) * n == maxFrames * n + n;
    assert (n - 1) * c == n * c - c;
  }

  /**
   * For a range of len > maxFrames frames: at least two chunks, each of
   * 1..maxFrames frames, the last split point below len, and the final
   * piece chunkSize + len % numChunks long.
   */
  lemma ChunkArithmetic(len: nat, maxFrames: nat)
    requires 0 < maxFrames < len
    ensures var n := NumChunks(len, maxFrames);
            2 <= n <= len &&
            var c := ChunkSize(len, n);
            1 <= c <= maxFrames &&
            (n - 1) * c < len &&
            len - (n - 1) * c == c + len % n &&
            len % n < n
  {
    var n := NumChunks(len, maxFrames);
    NumChunksIsCeiling(len, maxFrames);
    ChunkCountRange(len, maxFrames, n);
    var c := ChunkSize(len, n);
    ChunkSizeIsFloor(len, n);
    ChunkSizeRange(len, maxFrames, n, c);
    assert (n - 1) * c == c * n - c;
  }

  /** When even the last candidate point lies below end, the guard keeps every one. */
  lemma {:induction false} SplitsAllKept(start: nat, end: nat, chunk: nat, k: nat, n: nat)
    requires 1 <= k <= n
    requires start + (n - 1) * chunk < end
    ensures |Splits(start, end, chunk, k)| == k - 1
    ensures forall m :: 0 <= m < k - 1 ==> Splits(start, end, chunk, k)[m] == start + (m + 1) * chunk
  {
    if k > 1 {
      SplitsAllKept(start, end, chunk, k - 1, n);
      MulMonotone(k - 1, n - 1, chunk);
    }
  }

  /**
   * An over-long range [start, end) (len > maxFrames) is cut into numChunks
   * pieces: exactly numChunks - 1 split points at start + j * chunkSize, all
   * strictly inside the range, consecutive ones chunkSize apart, with
   * 1 <= chunkSize <= maxFrames; the last piece is chunkSize + len % numChunks
   * frames long.
   */
  lemma LongRangeSplits(start: nat, end: nat, maxFrames: nat)
    requires maxFrames > 0
    requires SceneLen(start, end) > maxFrames
    ensures var len := SceneLen(start, end);
            var n := NumChunks(len, maxFrames);
            var c := ChunkSize(len, n);
            var s := RangePoints(start, end, maxFrames)[1..];
            2 <= n && 1 <= c <= maxFrames &&
            |s| == n - 1 &&
            (forall m :: 0 <= m < |s| ==> s[m] == start + (m + 1) * c) &&
            (forall m :: 0 <= m < |s| ==> start < s[m] < end) &&
            (forall m :: 0 < m < |s| ==> s[m] - s[m - 1] == c) &&
            end - s[|s| - 1] == c + len % n &&
            len % n < n
  {
    var len := SceneLen(start, end);
    var n := NumChunks(len, maxFrames);
    var c := ChunkSize(len, n);
    ChunkArithmetic(len, maxFrames);
    SplitsAllKept(start, end, c, n, n);
    var s := RangePoints(start, end, maxFrames)[1..];
    assert s == Splits(start, end, c, n);
    forall m | 0 <= m < |s| ensures start < s[m] < end {
      MulMonotone(1, m + 1, c);
      MulMonotone(m + 1, n - 1, c);
    }
    forall m | 0 < m < |s| ensures s[m] - s[m - 1] == c {
      assert (m + 1) * c == m * c + c;
    }
  }

  /** A range no longer than maxFrames (also one with end <= start) contributes only its start. */
  lemma ShortRangeNotSplit(start: nat, end: nat, maxFrames: nat)
    requires maxFrames > 0
    requires end <= start + maxFrames
    ensures RangePoints(start, end, maxFrames) == [start]
  {
  }

  /** The points of one range: its start first, strictly increasing, the rest strictly inside. */
  lemma RangePointsShape(start: nat, end: nat, maxFrames: nat)
    requires maxFrames > 0
    ensures var p := RangePoints(start, end, maxFrames);
            p != [] && p[0] == start && StrictlyIncreasing(p) &&
            forall k :: 0 < k < |p| ==> start < p[k] < end
  {
    var p := RangePoints(start, end, maxFrames);
    if SceneLen(start, end) > maxFrames {
      LongRangeSplits(start, end, maxFrames);
      var len := SceneLen(start, end);
      var c := ChunkSize(len, NumChunks(len, maxFrames));
      forall i, j | 0 <= i < j < |p| ensures p[i] < p[j] {
        if i > 0 {
          assert p[i] == start + i * c && p[j] == start + j * c;
          MulMonotone(i + 1, j, c);
          assert (i + 1) * c == i * c + c;
        }
      }
    }
  }

  // ---------------------------------------------------------------------
  // Properties of the emitted list
  // ---------------------------------------------------------------------

  /** Every input boundary is pushed: splitting never removes a scene start. */
  lemma EmittedKeepsStarts(sceneStarts: seq<nat>, totalFrames: nat, maxFrames: nat)
    requires maxFrames > 0
    ensures forall k :: 0 <= k < |sceneStarts| ==>
              sceneStarts[k] in Emitted(sceneStarts, totalFrames, maxFrames)
  {
    EmittedPrefixKeepsStarts(sceneStarts, totalFrames, maxFrames, |sceneStarts|);
  }

  lemma {:induction false} EmittedPrefixKeepsStarts(sceneStarts: seq<nat>, totalFrames: nat, maxFrames: nat, i: nat)
    requires maxFrames > 0
    requires i <= |sceneStarts|
    ensures forall k :: 0 <= k < i ==>
              sceneStarts[k] in EmittedPrefix(sceneStarts, totalFrames, maxFrames, i)
    decreases i
  {
    if i > 0 {
      EmittedPrefixKeepsStarts(sceneStarts, totalFrames, maxFrames, i - 1);
      var prev := EmittedPrefix(sceneStarts, totalFrames, maxFrames, i - 1);
      var here := RangePoints(sceneStarts[i - 1], RangeEnd(sceneStarts, totalFrames, i - 1), maxFrames);
      assert here[0] == sceneStarts[i - 1];
      forall k | 0 <= k < i ensures sceneStarts[k] in prev + here {
        if k < i - 1 {
          var m :| 0 <= m < |prev| && prev[m] == sceneStarts[k];
          assert (prev + here)[m] == sceneStarts[k];
        } else {
          assert (prev + here)[|prev|] == sceneStarts[k];
        }
      }
    }
  }

  /** The first value pushed is the first scene start. */
  lemma {:induction false} EmittedStartsWithFirstScene(sceneStarts: seq<nat>, totalFrames: nat, maxFrames: nat, i: nat)
    requires maxFrames > 0
    requires 0 < i <= |sceneStarts|
    ensures var e := EmittedPrefix(sceneStarts, totalFrames, maxFrames, i);
            e != [] && e[0] == sceneStarts[0]
    decreases i
  {
    if i > 1 {
      EmittedStartsWithFirstScene(sceneStarts, totalFrames, maxFrames, i - 1);
    }
  }

  /** Each range pushes at least its start. */
  lemma {:induction false} EmittedLength(sceneStarts: seq<nat>, totalFrames: nat, maxFrames: nat, i: nat)
    requires maxFrames > 0
    requires i <= |sceneStarts|
    ensures |EmittedPrefix(sceneStarts, totalFrames, maxFrames, i)| >= i
    decreases i
  {
    if i > 0 {
      EmittedLength(sceneStarts, totalFrames, maxFrames, i - 1);
    }
  }

  /**
   * On strictly increasing scene starts the loop already pushes in strictly
   * increasing order, each value below the start of the next range.
   */
  lemma {:induction false} EmittedPrefixIncreasing(sceneStarts: seq<nat>, totalFrames: nat, maxFrames: nat, i: nat)
    requires maxFrames > 0
    requires StrictlyIncreasing(sceneStarts)
    requires i <= |sceneStarts|
    ensures var e := EmittedPrefix(sceneStarts, totalFrames, maxFrames, i);
            StrictlyIncreasing(e) &&
            (i < |sceneStarts| ==> forall x :: x in e ==> x < sceneStarts[i])
    decreases i
  {
    if i > 0 {
      EmittedPrefixIncreasing(sceneStarts, totalFrames, maxFrames, i - 1);
      var prev := EmittedPrefix(sceneStarts, totalFrames, maxFrames, i - 1);
      var start := sceneStarts[i - 1];
      var end := RangeEnd(sceneStarts, totalFrames, i - 1);
      var here := RangePoints(start, end, maxFrames);
      RangePointsShape(start, end, maxFrames);
      forall y | y in here ensures start <= y {
        var k :| 0 <= k < |here| && here[k] == y;
      }
      StrictlyIncreasingConcat(prev, here);
      if i < |sceneStarts| {
        assert end == sceneStarts[i];
        forall x | x in prev + here ensures x < sceneStarts[i] {
          if x in prev {
          } else {
            var k :| 0 <= k < |here| && here[k] == x;
          }
        }
      }
    }
  }

  /** On strictly increasing scene starts sort and dedup change nothing: the result is the emitted list. */
  lemma SplitOfIncreasing(sceneStarts: seq<nat>, totalFrames: nat, maxFrames: nat, r: seq<nat>)
    requires maxFrames > 0
    requires StrictlyIncreasing(sceneStarts)
    requires IsSplitResult(sceneStarts, totalFrames, maxFrames, r)
    ensures r == Emitted(sceneStarts, totalFrames, maxFrames)
  {
    EmittedPrefixIncreasing(sceneStarts, totalFrames, maxFrames, |sceneStarts|);
    StrictlyIncreasingUnique(r, Emitted(sceneStarts, totalFrames, maxFrames));
  }

  /** When no range is longer than maxFrames, the loop pushes exactly the scene starts. */
  lemma {:induction false} FittingScenesUnchanged(sceneStarts: seq<nat>, totalFrames: nat, maxFrames: nat, i: nat)
    requires maxFrames > 0
    requires AllScenesFit(sceneStarts, totalFrames, maxFrames)
    requires i <= |sceneStarts|
    ensures EmittedPrefix(sceneStarts, totalFrames, maxFrames, i) == sceneStarts[..i]
    decreases i
  {
    if i > 0 {
      FittingScenesUnchanged(sceneStarts, totalFrames, maxFrames, i - 1);
      assert SceneLen(sceneStarts[i - 1], RangeEnd(sceneStarts, totalFrames, i - 1)) <= maxFrames;
      assert sceneStarts[..i] == sceneStarts[..i - 1] + [sceneStarts[i - 1]];
    }
  }
}
