/** The chunk planner: how a file of `fileSize` bytes is cut into chunks of `chunkSize` bytes.
  *
  * All quantities are unsigned 64-bit integers in the source and `nat` here. The file size is
  * a signed 64-bit quantity, so it is below 2^63, and every chunk lies inside the file
  * (`ChunksTile`), so no product or sum formed below can wrap around.
  */
module Planner {

  /** Computed once per run and shared read-only with every worker. */
  datatype OverwritePlan = OverwritePlan(
    fileSize: nat,
    chunkSize: nat,
    chunkCount: nat,
    remainderBytes: nat,
    gran: nat             // allocation granularity of the host
  )

  /** `chunk_count` and `remainder_bytes` in wmain: whole chunks, plus one short chunk for
    * the remainder when there is one. The chunk count is the ceiling of fileSize / chunkSize. */
  function MakePlan(fileSize: nat, chunkSize: nat, gran: nat): (p: OverwritePlan)
    requires chunkSize > 0
    ensures p.fileSize == fileSize && p.chunkSize == chunkSize && p.gran == gran
    ensures p.remainderBytes == fileSize % chunkSize
    ensures p.chunkCount == 0 <==> fileSize == 0
    ensures fileSize > 0 ==> (p.chunkCount - 1) * chunkSize < fileSize <= p.chunkCount * chunkSize
  {
    var whole := fileSize / chunkSize;
    var rem := fileSize - whole * chunkSize;
    OverwritePlan(fileSize, chunkSize, if rem != 0 then whole + 1 else whole, rem, gran)
  }

  /** A plan as wmain builds it: a positive chunk size (the division at main.c:150) and a
    * positive granularity (the modulo at main.c:42). */
  predicate Planned(p: OverwritePlan) {
    p.chunkSize > 0 && p.gran > 0 && p == MakePlan(p.fileSize, p.chunkSize, p.gran)
  }

  /** `startOffset` of chunk `idx`. */
  function ChunkStart(p: OverwritePlan, idx: nat): nat {
    idx * p.chunkSize
  }

  /** `currentChunkSize` of chunk `idx`: the remainder for the last chunk when there is one. */
  function ChunkLength(p: OverwritePlan, idx: nat): nat {
    if p.chunkCount > 0 && idx == p.chunkCount - 1 && p.remainderBytes != 0 then p.remainderBytes
    else p.chunkSize
  }

  /** Byte `b` of the file lies in chunk `k`. */
  predicate InChunk(p: OverwritePlan, k: nat, b: nat) {
    ChunkStart(p, k) <= b < ChunkStart(p, k) + ChunkLength(p, k)
  }

  /** Consecutive chunks abut, every chunk is non-empty and no longer than `chunkSize`, and the
    * last one ends exactly at the end of the file. */
  lemma ChunksTile(p: OverwritePlan, k: nat)
    requires Planned(p) && k < p.chunkCount
    ensures 0 < ChunkLength(p, k) <= p.chunkSize
    ensures k + 1 < p.chunkCount ==> ChunkStart(p, k) + ChunkLength(p, k) == ChunkStart(p, k + 1)
    ensures k + 1 == p.chunkCount ==> ChunkStart(p, k) + ChunkLength(p, k) == p.fileSize
  {
    var cs := p.chunkSize;
    var whole := p.fileSize / cs;
    assert p.fileSize == whole * cs + p.remainderBytes;
    assert (k + 1) * cs == k * cs + cs;
    if k + 1 == p.chunkCount {
      if p.remainderBytes != 0 {
        assert k == whole;
      } else {
        assert k + 1 == whole;
      }
    }
  }

  /** No chunk of the plan reaches past the end of the file. */
  lemma ChunkWithinFile(p: OverwritePlan, k: nat)
    requires Planned(p) && k < p.chunkCount
    ensures ChunkStart(p, k) + ChunkLength(p, k) <= p.fileSize
  {
    var last := p.chunkCount - 1;
    ChunksTile(p, k);
    ChunksTile(p, last);
    if k < last {
      MulMonotone(k + 1, last, p.chunkSize);
    }
  }

  /** Every byte below `fileSize` falls in chunk `b / chunkSize`, a chunk of the plan. */
  lemma ByteHasChunk(p: OverwritePlan, b: nat)
    requires Planned(p) && b < p.fileSize
    ensures 0 <= b / p.chunkSize < p.chunkCount
  {
    var q := b / p.chunkSize;
    if q >= p.chunkCount {
      MulMonotone(p.chunkCount, q, p.chunkSize);
      assert false;
    }
  }

  /** Byte `b` lies in chunk `k` exactly when it is a byte of the file and `k` is
    * `b / chunkSize`. Together with `ByteHasChunk`: the chunks cover [0, fileSize) without
    * gaps or overlaps, and no chunk contains a byte past the end of the file. */
  lemma InChunkIff(p: OverwritePlan, k: nat, b: nat)
    requires Planned(p) && k < p.chunkCount
    ensures InChunk(p, k, b) <==> b < p.fileSize && k == b / p.chunkSize
  {
    var cs, start, len := p.chunkSize, ChunkStart(p, k), ChunkLength(p, k);
    ChunksTile(p, k);
    ChunkWithinFile(p, k);
    assert start + cs == (k + 1) * cs;
    if InChunk(p, k, b) {
      DivIsChunk(b, k, cs);
    } else if b < p.fileSize && k == b / cs {
      assert false;
    }
  }

  lemma MulMonotone(a: nat, b: nat, c: nat)
    requires a <= b
    ensures a * c <= b * c
  {
  }

  lemma DivIsChunk(b: nat, k: nat, cs: nat)
    requires cs > 0 && k * cs <= b < k * cs + cs
    ensures b / cs == k
  {
    var q := b / cs;
    assert q * cs <= b < q * cs + cs;
    if q < k {
      MulMonotone(q + 1, k, cs);
      assert false;
    } else if q > k {
      MulMonotone(k + 1, q, cs);
      assert false;
    }
  }

  /** Total length of chunks 0 .. m - 1. */
  function SumLengths(p: OverwritePlan, m: nat): nat {
    if m == 0 then 0 else SumLengths(p, m - 1) + ChunkLength(p, m - 1)
  }

  /** The chunk lengths add up to the file size. */
  lemma {:induction false} LengthsSumToFileSize(p: OverwritePlan)
    requires Planned(p)
    ensures SumLengths(p, p.chunkCount) == p.fileSize
  {
    if p.chunkCount > 0 {
      SumIsStart(p, p.chunkCount - 1);
      ChunksTile(p, p.chunkCount - 1);
    }
  }

  lemma {:induction false} SumIsStart(p: OverwritePlan, m: nat)
    requires Planned(p) && m < p.chunkCount
    ensures SumLengths(p, m) == ChunkStart(p, m)
  {
    if m > 0 {
      SumIsStart(p, m - 1);
      ChunksTile(p, m - 1);
    }
  }

  /** A file no longer than one chunk is a single chunk covering the whole file. */
  lemma OneChunkWhenChunkCoversFile(fileSize: nat, chunkSize: nat, gran: nat)
    requires 0 < fileSize <= chunkSize
    ensures var p := MakePlan(fileSize, chunkSize, gran);
      p.chunkCount == 1 && ChunkStart(p, 0) == 0 && ChunkLength(p, 0) == fileSize
  {
    var p := MakePlan(fileSize, chunkSize, gran);
    if fileSize < chunkSize {
      assert fileSize / chunkSize == 0;
    } else {
      assert fileSize / chunkSize == 1;
    }
  }

  /** Worked example: 10 MiB in 4 MiB chunks gives chunks of 4 MiB, 4 MiB and 2 MiB. */
  lemma TenMiBInFourMiBChunks(gran: nat)
    ensures var p := MakePlan(10485760, 4194304, gran);
      p.chunkCount == 3 && p.remainderBytes == 2097152 &&
      ChunkLength(p, 0) == 4194304 && ChunkLength(p, 1) == 4194304 && ChunkLength(p, 2) == 2097152 &&
      ChunkStart(p, 2) == 8388608
  {
  }
}
