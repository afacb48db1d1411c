/**
 * The four unit tests of src/main.rs, stated about every result that
 * SplitLongScenes may return, and two inputs on which the documented
 * "every chunk stays within max_frames" and a second application's
 * "nothing changes" do not hold.
 */
module SceneVectors {
  import opened Sequences
  import opened Scenes

  /** Three scenes of 100 frames with a limit of 150: nothing to split. */
  lemma NoSplitNeeded(r: seq<nat>)
    requires IsSplitResult([0, 100, 200], 300, 150, r)
    ensures r == [0, 100, 200]
  {
    assert AllScenesFit([0, 100, 200], 300, 150);
    SplitResultProperties([0, 100, 200], 300, 150, r);
  }

  /** 400 frames with a limit of 250: two chunks of 200. */
  lemma SingleSplit(r: seq<nat>)
    requires IsSplitResult([0], 400, 250, r)
    ensures r == [0, 200]
  {
    SplitOfIncreasing([0], 400, 250, r);
    assert NumChunks(400, 250) == 2;
    assert ChunkSize(400, 2) == 200;
  }

  /** 1000 frames with a limit of 300: four chunks of 250. */
  lemma MultipleSplits(r: seq<nat>)
    requires IsSplitResult([0], 1000, 300, r)
    ensures r == [0, 250, 500, 750]
  {
    SplitOfIncreasing([0], 1000, 300, r);
    assert NumChunks(1000, 300) == 4;
    assert ChunkSize(1000, 4) == 250;
  }

  /**
   * Scenes of 100, 500 and 300 frames with a limit of 200: the first is kept,
   * the second becomes three chunks of 166 (the last 168), the third two of 150.
   */
  lemma MixedScenes(r: seq<nat>)
    requires IsSplitResult([0, 100, 600], 900, 200, r)
    ensures r == [0, 100, 266, 432, 600, 750]
  {
    SplitOfIncreasing([0, 100, 600], 900, 200, r);
    assert NumChunks(500, 200) == 3;
    assert ChunkSize(500, 3) == 166;
    assert NumChunks(300, 200) == 2;
    assert ChunkSize(300, 2) == 150;
  }

  /**
   * 5 frames with a limit of 2: three chunks of one frame are planned, the
   * last piece absorbs the remainder and is 3 frames long, over the limit.
   */
  lemma LastChunkOverLimit(r: seq<nat>)
    requires IsSplitResult([0], 5, 2, r)
    ensures r == [0, 1, 2]
    ensures 5 - r[|r| - 1] > 2
  {
    SplitOfIncreasing([0], 5, 2, r);
    assert NumChunks(5, 2) == 3;
    assert ChunkSize(5, 3) == 1;
  }

  /** Splitting that result again splits its 3-frame last scene: the splitter is not idempotent. */
  lemma SplitNotIdempotent(r: seq<nat>, again: seq<nat>)
    requires IsSplitResult([0], 5, 2, r)
    requires IsSplitResult(r, 5, 2, again)
    ensures again == [0, 1, 2, 3] && again != r
  {
    LastChunkOverLimit(r);
    SplitOfIncreasing([0, 1, 2], 5, 2, again);
    assert NumChunks(3, 2) == 2;
    assert ChunkSize(3, 2) == 1;
  }

  /**
   * The overshoot grows without bound: a range of 2k + 1 frames with a limit
   * of 2 gets k + 1 chunks of 1 frame planned, k split points, and a last
   * piece of k + 1 frames.
   */
  lemma LastPieceUnbounded(k: nat)
    requires k >= 1
    ensures NumChunks(2 * k + 1, 2) == k + 1
    ensures ChunkSize(2 * k + 1, k + 1) == 1
    ensures var s := RangePoints(0, 2 * k + 1, 2)[1..];
            |s| == k && (2 * k + 1) - s[|s| - 1] == k + 1
  {
    assert NumChunks(2 * k + 1, 2) == k + 1;
    assert (2 * k + 1) / (k + 1) == 1 by {
      assert 1 * (k + 1) <= 2 * k + 1 < 2 * (k + 1);
    }
    LongRangeSplits(0, 2 * k + 1, 2);
  }
}
