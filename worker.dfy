/** The mapped overwrite worker, OverwriteThread: for each of its chunk indices it maps the
  * chunk's window and zero-fills the chunk's bytes through a bounded scratch buffer; it stops
  * at the first window that cannot be mapped.
  *
  * The file is one byte array; a mapped view is the slice [alignedStart, alignedStart +
  * totalMapSize) of it. Whether MapViewOfFile succeeds is not known to the model: `mapFails`
  * is the set of chunk indices whose view cannot be mapped. */
module Worker {
  import opened Sequences
  import opened Planner
  import opened Mapping

  /** The parameter block handed to a worker thread; `i_len` is |i|. */
  datatype OverwriteParams = OverwriteParams(i: seq<nat>, plan: OverwritePlan)

  /** Size of the static scratch buffer of zero bytes. */
  const ZeroBufSize: nat := 1024 * 1024

  function Zeros(n: nat): (z: seq<bv8>)
    ensures |z| == n && forall j :: 0 <= j < n ==> z[j] == 0
  {
    seq(n, _ => 0)
  }

  /** `s` with bytes [lo, hi) set to zero: those bytes are zero, all others unchanged. */
  function ZeroRange(s: seq<bv8>, lo: nat, hi: nat): (r: seq<bv8>)
    requires lo <= hi <= |s|
    ensures |r| == |s|
    ensures forall j :: 0 <= j < |s| ==> r[j] == if lo <= j < hi then 0 else s[j]
  {
    s[..lo] + Zeros(hi - lo) + s[hi..]
  }

  /** The zero-fill loop: copies at most ZeroBufSize zero bytes at a time to `dst` until
    * `count` bytes at `offsetDelta` inside the view starting at `viewStart` are zero. Every
    * write lands inside the view, whether the chunk is shorter or longer than the scratch
    * buffer. */
  method ZeroFill(file: array<bv8>, viewStart: nat, viewSize: nat, offsetDelta: nat, count: nat)
    requires viewStart + viewSize <= file.Length && offsetDelta + count <= viewSize
    modifies file
    ensures file[..] == ZeroRange(old(file[..]), viewStart + offsetDelta, viewStart + offsetDelta + count)
  {
    ghost var before := file[..];
    var lo := viewStart + offsetDelta;
    var bytesLeft: nat := count;
    var dst := lo;
    while bytesLeft > 0
      invariant dst + bytesLeft == lo + count && lo <= dst
      invariant forall j :: 0 <= j < file.Length ==> file[j] == if lo <= j < dst then 0 else before[j]
    {
      var chunk := if bytesLeft > ZeroBufSize then ZeroBufSize else bytesLeft;
      // memcpy(dst, zeroBuf, chunk)
      forall j | dst <= j < dst + chunk {
        file[j] := 0;
      }
      dst := dst + chunk;
      bytesLeft := bytesLeft - chunk;
    }
    assert file[..] == ZeroRange(before, lo, lo + count);
  }

  /** The file after chunk `idx` has been zero-filled through its window: exactly the chunk's
    * bytes are zero, everything else is unchanged. */
  function ZeroChunk(s: seq<bv8>, p: OverwritePlan, idx: nat): (r: seq<bv8>)
    requires Planned(p) && |s| == p.fileSize && idx < p.chunkCount
    ensures |r| == |s|
    ensures forall b :: 0 <= b < |s| ==> r[b] == if InChunk(p, idx, b) then 0 else s[b]
  {
    var w := WindowFor(p, idx);
    WindowWithinFile(p, idx);
    ZeroRange(s, w.alignedStart + w.offsetDelta, w.alignedStart + w.offsetDelta + w.chunkLength)
  }

  /** The file after the chunks `idxs` have been zero-filled one after another. */
  function ZeroChunks(s: seq<bv8>, p: OverwritePlan, idxs: seq<nat>): (r: seq<bv8>)
    requires Planned(p) && |s| == p.fileSize && IndicesBelow(idxs, p.chunkCount)
    ensures |r| == |s|
    decreases |idxs|
  {
    if idxs == [] then s
    else ZeroChunk(ZeroChunks(s, p, idxs[..|idxs| - 1]), p, idxs[|idxs| - 1])
  }

  /** Zero-filling the first k + 1 chunks of a list is zero-filling the first k, then chunk k. */
  lemma ZeroChunksSnoc(s: seq<bv8>, p: OverwritePlan, idxs: seq<nat>, k: nat)
    requires Planned(p) && |s| == p.fileSize && IndicesBelow(idxs, p.chunkCount)
    requires k < |idxs|
    ensures ZeroChunks(s, p, idxs[..k + 1]) == ZeroChunk(ZeroChunks(s, p, idxs[..k]), p, idxs[k])
  {
    assert idxs[..k + 1][..k] == idxs[..k];
  }

  /** Zero-filling a list of chunks zeroes byte `b` exactly when `b`'s chunk is in the list. */
  lemma {:induction false} ZeroChunksAt(s: seq<bv8>, p: OverwritePlan, idxs: seq<nat>, b: nat)
    requires Planned(p) && |s| == p.fileSize && IndicesBelow(idxs, p.chunkCount)
    requires b < |s|
    ensures ZeroChunks(s, p, idxs)[b] == if b / p.chunkSize in idxs then 0 else s[b]
    decreases |idxs|
  {
    if idxs != [] {
      var init, last := idxs[..|idxs| - 1], idxs[|idxs| - 1];
      ZeroChunksAt(s, p, init, b);
      InChunkIff(p, last, b);
      assert idxs == init + [last];
      assert (b / p.chunkSize in idxs) == (b / p.chunkSize in init || b / p.chunkSize == last);
    }
  }

  /** Position in `idxs` of the first chunk whose view cannot be mapped, or |idxs|. */
  function FirstMapFailure(idxs: seq<nat>, mapFails: set<nat>): (k: nat)
    ensures k <= |idxs|
    ensures forall j :: 0 <= j < k ==> idxs[j] !in mapFails
    ensures k < |idxs| ==> idxs[k] in mapFails
    decreases |idxs|
  {
    if idxs == [] then 0
    else if idxs[0] in mapFails then 0
    else 1 + FirstMapFailure(idxs[1..], mapFails)
  }

  /** The file after a worker has run: its chunks are zero-filled in order until the first one
    * whose view cannot be mapped. */
  function RunWorker(s: seq<bv8>, params: OverwriteParams, mapFails: set<nat>): (r: seq<bv8>)
    requires Planned(params.plan) && |s| == params.plan.fileSize
    requires IndicesBelow(params.i, params.plan.chunkCount)
    ensures |r| == |s|
  {
    ZeroChunks(s, params.plan, params.i[..FirstMapFailure(params.i, mapFails)])
  }

  /** Fail-fast outcome of one worker: if the view of its k-th chunk cannot be mapped, its
    * chunks at positions 0 .. k - 1 are zero and every other byte is unchanged; if every view
    * can be mapped, all of its chunks are zero. */
  lemma WorkerOutcome(s: seq<bv8>, params: OverwriteParams, mapFails: set<nat>, b: nat)
    requires Planned(params.plan) && |s| == params.plan.fileSize
    requires IndicesBelow(params.i, params.plan.chunkCount)
    requires b < |s|
    ensures var k := FirstMapFailure(params.i, mapFails);
      RunWorker(s, params, mapFails)[b] ==
        if b / params.plan.chunkSize in params.i[..k] then 0 else s[b]
    ensures (forall j :: 0 <= j < |params.i| ==> params.i[j] !in mapFails) ==>
      RunWorker(s, params, mapFails)[b] == if b / params.plan.chunkSize in params.i then 0 else s[b]
  {
    var k := FirstMapFailure(params.i, mapFails);
    ZeroChunksAt(s, params.plan, params.i[..k], b);
    if k < |params.i| {
      assert params.i[k] in mapFails;
    } else {
      assert params.i[..k] == params.i;
    }
  }

  /** OverwriteThread: returns whether every assigned chunk was overwritten. */
  method OverwriteThread(file: array<bv8>, params: OverwriteParams, mapFails: set<nat>) returns (ok: bool)
    requires Planned(params.plan) && file.Length == params.plan.fileSize
    requires IndicesBelow(params.i, params.plan.chunkCount)
    modifies file
    ensures ok <==> forall j :: 0 <= j < |params.i| ==> params.i[j] !in mapFails
    ensures file[..] == RunWorker(old(file[..]), params, mapFails)
  {
    var p := params.plan;
    var k := 0;   // an `int` in the source, compared against the 64-bit i_len
    while k < |params.i|
      invariant k <= |params.i|
      invariant forall j :: 0 <= j < k ==> params.i[j] !in mapFails
      invariant file[..] == ZeroChunks(old(file[..]), p, params.i[..k])
    {
      var idx := params.i[k];
      var w := WindowFor(p, idx);
      if idx in mapFails {
        // MapViewOfFile returned NULL: release the index buffer and give up.
        assert FirstMapFailure(params.i, mapFails) == k;
        return false;
      }
      assert forall j :: 0 <= j < k + 1 ==> params.i[j] !in mapFails;
      WindowWithinFile(p, idx);
      ZeroFill(file, w.alignedStart, w.totalMapSize, w.offsetDelta, w.chunkLength);
      ZeroChunksSnoc(old(file[..]), p, params.i, k);
      k := k + 1;
    }
    assert params.i[..k] == params.i;
    return true;
  }
}
