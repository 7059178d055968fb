/** The per-chunk mapping window of OverwriteThread: a view of the file whose start is rounded
  * down to the allocation granularity, wide enough to reach the end of the chunk. */
module Mapping {
  import opened Planner

  datatype MappingWindow = MappingWindow(
    startOffset: nat,    // first byte of the chunk in the file
    chunkLength: nat,    // bytes to overwrite
    alignedStart: nat,   // file offset of the view
    offsetDelta: nat,    // position of the chunk inside the view
    totalMapSize: nat    // size of the view
  )

  /** The window OverwriteThread maps for chunk `idx`. */
  function WindowFor(p: OverwritePlan, idx: nat): (w: MappingWindow)
    requires p.gran > 0
    ensures w.startOffset == ChunkStart(p, idx) && w.chunkLength == ChunkLength(p, idx)
    ensures w.alignedStart % p.gran == 0
    ensures w.alignedStart <= w.startOffset < w.alignedStart + p.gran
    ensures w.alignedStart + w.offsetDelta == w.startOffset
    ensures w.alignedStart + w.totalMapSize == w.startOffset + w.chunkLength
  {
    var startOffset := ChunkStart(p, idx);
    var currentChunkSize := ChunkLength(p, idx);
    var alignedStart := startOffset - startOffset % p.gran;
    var offsetDelta := startOffset - alignedStart;
    AlignDown(startOffset, p.gran);
    MappingWindow(startOffset, currentChunkSize, alignedStart, offsetDelta, currentChunkSize + offsetDelta)
  }

  /** Rounding `x` down to a multiple of `g` moves it back by less than `g`. */
  lemma AlignDown(x: nat, g: nat)
    requires g > 0
    ensures (x - x % g) % g == 0
    ensures x - x % g <= x < x - x % g + g
  {
    var q := x / g;
    assert x - x % g == q * g;
    MultipleMod(q, g);
  }

  lemma MultipleMod(q: nat, g: nat)
    requires g > 0
    ensures (q * g) % g == 0
  {
    var d, r := (q * g) / g, (q * g) % g;
    assert q * g == d * g + r && 0 <= r < g;
    if q > d {
      assert q * g == (q - d) * g + d * g;
      MulAtLeast(q - d, g);
      assert false;
    } else if q < d {
      assert d * g == (d - q) * g + q * g;
      MulAtLeast(d - q, g);
      assert false;
    }
  }

  lemma MulAtLeast(a: nat, g: nat)
    requires a >= 1
    ensures a * g >= g
  {
  }

  /** The view of every chunk of the plan lies inside the file, and the chunk's bytes are the
    * bytes [offsetDelta, offsetDelta + chunkLength) of the view. */
  lemma WindowWithinFile(p: OverwritePlan, idx: nat)
    requires Planned(p) && idx < p.chunkCount
    ensures var w := WindowFor(p, idx);
      w.alignedStart + w.totalMapSize <= p.fileSize &&
      w.offsetDelta + w.chunkLength == w.totalMapSize
  {
    ChunkWithinFile(p, idx);
  }
}
