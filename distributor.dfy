/** The work distributor of wmain: how many worker threads are used, how many chunks each one
  * takes, and the slot loop that fills each worker's chunk-index buffer.
  *
  * Allocation of a slot's parameter block or index buffer can fail; `failed` is the set of
  * slot numbers for which one of the two allocations fails. Both failures have the same
  * effect: the slot is skipped (`i` advances, `chunk_index` does not). */
module Distributor {
  import opened Sequences

  datatype Distribution = Distribution(
    usedThreads: nat,          // used_threads
    threadChunkCount: nat,     // thread_chunk_count: the base share of every worker
    remainderChunkCount: nat,  // remainder_chunk_count: chunks left over after the base shares
    remainderAdded: bool       // the extra-worker branch was taken
  )

  /** The thread arithmetic of wmain. The extra-worker branch is written as the source has it,
    * but it can never fire: `usedThreads < maxThread` only when every chunk already has a
    * worker of its own, and then nothing is left over. So exactly min(maxThread, chunkCount)
    * workers are used and the last one absorbs the leftover chunks. */
  function Distribute(chunkCount: nat, maxThread: nat): (d: Distribution)
    requires chunkCount >= 1 && maxThread >= 1
    ensures d.usedThreads == Min(maxThread, chunkCount) && d.usedThreads >= 1
    ensures !d.remainderAdded
    ensures d.threadChunkCount >= 1 && d.remainderChunkCount < d.usedThreads
    ensures d.usedThreads * d.threadChunkCount + d.remainderChunkCount == chunkCount
    ensures (d.usedThreads - 1) * d.threadChunkCount + d.threadChunkCount + d.remainderChunkCount
         == chunkCount
  {
    var used := if maxThread > chunkCount then chunkCount else maxThread;
    var base := chunkCount / used;
    var leftover := chunkCount - base * used;
    if leftover != 0 && used < maxThread then
      Distribution(used + 1, base, leftover, true)
    else
      Distribution(used, base, leftover, false)
  }

  /** `current_tc_count` before the fill loop: the base share, plus the leftover chunks for
    * the last worker when no extra worker was added. */
  function Quota(d: Distribution, w: nat): nat {
    if d.usedThreads > 0 && w == d.usedThreads - 1 && !d.remainderAdded then
      d.threadChunkCount + d.remainderChunkCount
    else
      d.threadChunkCount
  }

  /** Every slot's index list is made of chunk indices below `n`. */
  predicate SlotsBelow(slots: seq<Option<seq<nat>>>, n: nat) {
    forall w :: 0 <= w < |slots| ==> slots[w].Some? ==> IndicesBelow(slots[w].value, n)
  }

  /** The outcome of the slot loop, run from slot `i` with `next` as the next chunk index to
    * hand out: one entry per slot the loop visits, `None` for a skipped slot. */
  function Slots(d: Distribution, chunkCount: nat, failed: set<nat>, i: nat, next: nat)
    : (r: seq<Option<seq<nat>>>)
    requires next <= chunkCount
    ensures SlotsBelow(r, chunkCount)
    ensures forall w :: 0 <= w < |r| ==> r[w].Some? ==> IndicesFrom(r[w].value, next)
    decreases d.usedThreads - i
  {
    if i >= d.usedThreads || next >= chunkCount then []
    else if i in failed then [None] + Slots(d, chunkCount, failed, i + 1, next)
    else
      var len := Min(Quota(d, i), chunkCount - next);
      [Some(Range(next, next + len))] + Slots(d, chunkCount, failed, i + 1, next + len)
  }

  predicate IndicesFrom(s: seq<nat>, lo: nat) {
    forall j :: 0 <= j < |s| ==> lo <= s[j]
  }

  /** The inner fill loop of the slot loop: writes consecutive chunk indices from `start` into
    * `buf`, stopping early once the last chunk has been handed out. `len` is `i_len`, the
    * number of indices written, and `next` the new `chunk_index`. */
  method FillIndexBuffer(buf: array<nat>, start: nat, chunkCount: nat) returns (len: nat, next: nat)
    requires start < chunkCount
    modifies buf
    ensures len == Min(buf.Length, chunkCount - start) && next == start + len
    ensures buf[..len] == Range(start, next)
    ensures buf[len..] == old(buf[len..])
  {
    len := buf.Length;
    next := start;
    var k := 0;   // an `int` in the source, compared against a 64-bit count
    while k < len
      invariant len == buf.Length && k <= len
      invariant next == start + k && next < chunkCount
      invariant buf[..k] == Range(start, next)
      invariant forall j :: k <= j < buf.Length ==> buf[j] == old(buf[j])
    {
      buf[k] := next;
      next := next + 1;
      assert buf[..k + 1] == buf[..k] + [buf[k]];
      assert Range(start, next) == Range(start, next - 1) + [next - 1] by {
        RangeConcat(start, next - 1, next);
      }
      if next >= chunkCount {
        len := k + 1;
        break;
      }
      k := k + 1;
    }
  }

  /** The slot loop of wmain (without thread creation): returns the distribution and, for every
    * visited slot, the index list handed to its worker. */
  method AssignChunks(chunkCount: nat, maxThread: nat, failed: set<nat>)
    returns (d: Distribution, slots: seq<Option<seq<nat>>>)
    requires chunkCount >= 1 && maxThread >= 1
    ensures d == Distribute(chunkCount, maxThread)
    ensures slots == Slots(d, chunkCount, failed, 0, 0)
  {
    d := Distribute(chunkCount, maxThread);
    var chunkIndex: nat := 0;
    var i: nat := 0;
    slots := [];
    while i < d.usedThreads && chunkIndex < chunkCount
      invariant chunkIndex <= chunkCount
      invariant slots + Slots(d, chunkCount, failed, i, chunkIndex) == Slots(d, chunkCount, failed, 0, 0)
      decreases d.usedThreads - i
    {
      if i in failed {
        slots := slots + [None];
        i := i + 1;
        continue;
      }
      var wanted := Quota(d, i);
      var buf := new nat[wanted];
      var len, next := FillIndexBuffer(buf, chunkIndex, chunkCount);
      slots := slots + [Some(buf[..len])];
      chunkIndex := next;
      i := i + 1;
    }
  }

  /** Sum of the quotas of the slots from `i` on that are not skipped. */
  function SurvivingQuota(d: Distribution, failed: set<nat>, i: nat): nat
    decreases d.usedThreads - i
  {
    if i >= d.usedThreads then 0
    else (if i in failed then 0 else Quota(d, i)) + SurvivingQuota(d, failed, i + 1)
  }

  /** The quotas of all workers add up to the chunk count. */
  lemma {:induction false} QuotasCoverChunks(n: nat, maxThread: nat, i: nat)
    requires n >= 1 && maxThread >= 1
    requires i < Distribute(n, maxThread).usedThreads
    ensures var d := Distribute(n, maxThread);
      SurvivingQuota(d, {}, i) == (d.usedThreads - i) * d.threadChunkCount + d.remainderChunkCount
    decreases Distribute(n, maxThread).usedThreads - i
  {
    var d := Distribute(n, maxThread);
    if i + 1 < d.usedThreads {
      QuotasCoverChunks(n, maxThread, i + 1);
      assert (d.usedThreads - i) * d.threadChunkCount
          == (d.usedThreads - (i + 1)) * d.threadChunkCount + d.threadChunkCount;
    }
  }

  /** Skipping slots only loses chunks: exactly the skipped slots' quotas are missing. */
  lemma {:induction false} SkippedSlotsLoseQuota(d: Distribution, failed: set<nat>, i: nat)
    requires d.threadChunkCount >= 1
    ensures SurvivingQuota(d, failed, i) <= SurvivingQuota(d, {}, i)
    ensures SurvivingQuota(d, failed, i) == SurvivingQuota(d, {}, i)
        <==> forall w :: i <= w < d.usedThreads ==> w !in failed
    decreases d.usedThreads - i
  {
    if i < d.usedThreads {
      SkippedSlotsLoseQuota(d, failed, i + 1);
      if (forall w :: i <= w < d.usedThreads ==> w !in failed) {
        assert forall w :: i + 1 <= w < d.usedThreads ==> w !in failed;
      }
    }
  }

  /** Started at `next`, the slot loop hands out exactly the consecutive chunks
    * [next, next + SurvivingQuota), as long as they exist: each slot that is not skipped takes
    * its whole quota. */
  lemma {:induction false} SlotsHandOutPrefix(d: Distribution, n: nat, failed: set<nat>, i: nat, next: nat)
    requires d.threadChunkCount >= 1
    requires next + SurvivingQuota(d, failed, i) <= n
    ensures Flatten(Slots(d, n, failed, i, next)) == Range(next, next + SurvivingQuota(d, failed, i))
    decreases d.usedThreads - i
  {
    if i >= d.usedThreads || next >= n {
    } else if i in failed {
      SlotsHandOutPrefix(d, n, failed, i + 1, next);
      assert Flatten(Slots(d, n, failed, i, next)) == Flatten(Slots(d, n, failed, i + 1, next));
    } else {
      var q := Quota(d, i);
      assert Min(q, n - next) == q;
      SlotsHandOutPrefix(d, n, failed, i + 1, next + q);
      var rest := Slots(d, n, failed, i + 1, next + q);
      assert Slots(d, n, failed, i, next) == [Some(Range(next, next + q))] + rest;
      assert Flatten([Some(Range(next, next + q))] + rest) == Range(next, next + q) + Flatten(rest);
      RangeConcat(next, next + q, next + SurvivingQuota(d, failed, i));
    }
  }

  /** On any pattern of allocation failures the chunks handed to workers are a prefix
    * [0, m) of the chunks, in slot order; m is the whole chunk count exactly when no slot was
    * skipped. The chunks that are never overwritten are thus the tail [m, chunkCount). */
  lemma AssignmentIsPrefix(n: nat, maxThread: nat, failed: set<nat>)
    requires n >= 1 && maxThread >= 1
    ensures var d := Distribute(n, maxThread);
      var m := SurvivingQuota(d, failed, 0);
      m <= n &&
      Flatten(Slots(d, n, failed, 0, 0)) == Range(0, m) &&
      (m == n <==> forall w :: 0 <= w < d.usedThreads ==> w !in failed)
  {
    var d := Distribute(n, maxThread);
    QuotasCoverChunks(n, maxThread, 0);
    SkippedSlotsLoseQuota(d, failed, 0);
    SlotsHandOutPrefix(d, n, failed, 0, 0);
  }

  /** The facts about a distribution of `n` chunks that the slot loop relies on
    * (all established by `Distribute`). */
  predicate WellDistributed(d: Distribution, n: nat) {
    d.usedThreads >= 1 && d.threadChunkCount >= 1 && !d.remainderAdded &&
    d.usedThreads * d.threadChunkCount + d.remainderChunkCount == n &&
    (d.usedThreads - 1) * d.threadChunkCount + d.threadChunkCount + d.remainderChunkCount == n
  }

  /** The chunks worker `w` receives on the success path. */
  function FullShare(d: Distribution, w: nat): seq<nat> {
    Range(w * d.threadChunkCount, w * d.threadChunkCount + Quota(d, w))
  }

  /** Without allocation failures the loop from slot `i` (every earlier slot served) gives
    * each later worker `w` the chunks of `FullShare(d, w)`. */
  lemma {:induction false} FullSlotsFrom(d: Distribution, n: nat, i: nat)
    requires WellDistributed(d, n) && i <= d.usedThreads
    ensures var s := Slots(d, n, {}, i, i * d.threadChunkCount);
      |s| == d.usedThreads - i &&
      forall j :: 0 <= j < |s| ==> s[j] == Some(FullShare(d, i + j))
    decreases d.usedThreads - i
  {
    var base, used := d.threadChunkCount, d.usedThreads;
    if i < used {
      var next, q := i * base, Quota(d, i);
      assert (i + 1) * base == next + base;
      assert used * base + d.remainderChunkCount == n;
      if i + 1 < used {
        MulUpTo(i + 1, used, base);
        assert q == base;
        assert next + q < n;
      } else {
        assert next + q == n;
      }
      assert Min(q, n - next) == q;
      var s := Slots(d, n, {}, i, next);
      var rest := Slots(d, n, {}, i + 1, next + q);
      assert s == [Some(Range(next, next + q))] + rest;
      if i + 1 < used {
        assert next + q == (i + 1) * base;
        FullSlotsFrom(d, n, i + 1);
      } else {
        assert rest == [];
      }
      forall j | 0 <= j < |s| ensures s[j] == Some(FullShare(d, i + j)) {
        if j > 0 {
          assert s[j] == rest[j - 1];
          assert i + 1 + (j - 1) == i + j;
        }
      }
    }
  }

  lemma MulUpTo(i: nat, u: nat, base: nat)
    requires i < u
    ensures (i + 1) * base <= u * base
  {
  }

  /** The distribution on the success path (no allocation fails): worker `w` receives its
    * quota of consecutive chunks starting at w * base, i.e. [w * base, (w + 1) * base), and
    * the last worker also the leftover chunks; the workers' lists, concatenated, are exactly
    * 0 .. chunkCount - 1, so every chunk goes to exactly one worker, in increasing order. */
  lemma SuccessPathAssignment(n: nat, maxThread: nat)
    requires n >= 1 && maxThread >= 1
    ensures var d := Distribute(n, maxThread);
      var slots := Slots(d, n, {}, 0, 0);
      |slots| == d.usedThreads &&
      (forall w :: 0 <= w < |slots| ==> slots[w] == Some(FullShare(d, w))) &&
      Flatten(slots) == Range(0, n) &&
      StrictlyIncreasing(Flatten(slots))
  {
    var d := Distribute(n, maxThread);
    assert WellDistributed(d, n);
    FullSlotsFrom(d, n, 0);
    AssignmentIsPrefix(n, maxThread, {});
    RangeIncreasing(0, n);
  }

  /** Worked example: three chunks over two workers give worker 0 chunk 0 and worker 1 chunks
    * 1 and 2 (the last worker absorbs the leftover). */
  lemma ThreeChunksTwoWorkers()
    ensures Distribute(3, 2) == Distribution(2, 1, 1, false)
    ensures Slots(Distribute(3, 2), 3, {}, 0, 0) == [Some([0]), Some([1, 2])]
  {
    SuccessPathAssignment(3, 2);
    assert Range(0, 1) == [0];
    assert Range(1, 3) == [1, 2];
  }

  /** A single chunk is always handed to a single worker. */
  lemma OneChunkOneWorker(maxThread: nat)
    requires maxThread >= 1
    ensures Slots(Distribute(1, maxThread), 1, {}, 0, 0) == [Some([0])]
  {
    SuccessPathAssignment(1, maxThread);
    assert Range(0, 1) == [0];
  }
}
