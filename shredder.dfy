/** The overwrite phase of wmain: plan the chunks, distribute them over worker slots and run
  * every created worker over the file.
  *
  * The workers of the source run as concurrent threads over disjoint chunks; here they run one
  * after another over one byte array. The zero-length file takes its own branch: no mapping,
  * no plan, no workers. */
module Shredder {
  import opened Sequences
  import opened Planner
  import opened Distributor
  import opened Worker

  /** The file after the workers of `slots` have run in slot order; skipped slots do nothing. */
  function RunSlots(s: seq<bv8>, p: OverwritePlan, slots: seq<Option<seq<nat>>>, mapFails: set<nat>)
    : (r: seq<bv8>)
    requires Planned(p) && |s| == p.fileSize && SlotsBelow(slots, p.chunkCount)
    ensures |r| == |s|
    decreases |slots|
  {
    if slots == [] then s
    else
      var prev := RunSlots(s, p, slots[..|slots| - 1], mapFails);
      match slots[|slots| - 1]
      case None => prev
      case Some(ix) => RunWorker(prev, OverwriteParams(ix, p), mapFails)
  }

  /** The chunks the workers of `slots` get to before their first mapping failure. */
  function Reached(slots: seq<Option<seq<nat>>>, mapFails: set<nat>): seq<nat>
    decreases |slots|
  {
    if slots == [] then []
    else
      Reached(slots[..|slots| - 1], mapFails) +
      match slots[|slots| - 1]
      case None => []
      case Some(ix) => ix[..FirstMapFailure(ix, mapFails)]
  }

  /** The file after the overwrite phase of wmain. */
  function OverwriteFile(s: seq<bv8>, chunkSize: nat, maxThread: nat, gran: nat,
                         failed: set<nat>, mapFails: set<nat>): (r: seq<bv8>)
    requires chunkSize > 0 && maxThread >= 1 && gran > 0
    ensures |r| == |s|
  {
    if |s| == 0 then s
    else
      var p := MakePlan(|s|, chunkSize, gran);
      RunSlots(s, p, Slots(Distribute(p.chunkCount, maxThread), p.chunkCount, failed, 0, 0), mapFails)
  }

  /** Running the workers zeroes exactly the bytes of the chunks they reach; every other byte
    * keeps its old value. */
  lemma {:induction false} RunSlotsAt(s: seq<bv8>, p: OverwritePlan, slots: seq<Option<seq<nat>>>,
                                      mapFails: set<nat>, b: nat)
    requires Planned(p) && |s| == p.fileSize && SlotsBelow(slots, p.chunkCount)
    requires b < |s|
    ensures RunSlots(s, p, slots, mapFails)[b] == if b / p.chunkSize in Reached(slots, mapFails) then 0 else s[b]
    decreases |slots|
  {
    if slots != [] {
      var init := slots[..|slots| - 1];
      RunSlotsAt(s, p, init, mapFails, b);
      match slots[|slots| - 1]
      case None =>
      case Some(ix) =>
        var prev := RunSlots(s, p, init, mapFails);
        assert IndicesBelow(ix, p.chunkCount) by {
          assert slots[|slots| - 1].Some?;
        }
        WorkerOutcome(prev, OverwriteParams(ix, p), mapFails, b);
    }
  }

  /** Every chunk a worker reaches is a chunk handed out to it. */
  lemma {:induction false} ReachedWereAssigned(slots: seq<Option<seq<nat>>>, mapFails: set<nat>, c: nat)
    ensures c in Reached(slots, mapFails) ==> c in Flatten(slots)
    ensures mapFails == {} ==> Reached(slots, mapFails) == Flatten(slots)
    decreases |slots|
  {
    if slots != [] {
      var init, last := slots[..|slots| - 1], slots[|slots| - 1];
      ReachedWereAssigned(init, mapFails, c);
      assert slots == init + [last];
      FlattenAppend(init, [last]);
      assert Flatten([last]) == match last case None => [] case Some(ix) => ix;
      match last
      case None =>
      case Some(ix) =>
        var k := FirstMapFailure(ix, mapFails);
        assert c in ix[..k] ==> c in ix;
        if mapFails == {} {
          assert ix[..k] == ix;
        }
    }
  }

  /** On the success path (every allocation and every mapping succeeds), every byte of the
    * file is zero afterwards. */
  lemma FullRunZeroesFile(s: seq<bv8>, chunkSize: nat, maxThread: nat, gran: nat)
    requires chunkSize > 0 && maxThread >= 1 && gran > 0
    ensures forall b :: 0 <= b < |s| ==> OverwriteFile(s, chunkSize, maxThread, gran, {}, {})[b] == 0
  {
    if |s| > 0 {
      var p := MakePlan(|s|, chunkSize, gran);
      var n := p.chunkCount;
      var slots := Slots(Distribute(n, maxThread), n, {}, 0, 0);
      var r := RunSlots(s, p, slots, {});
      assert r == OverwriteFile(s, chunkSize, maxThread, gran, {}, {});
      assert Reached(slots, {}) == Range(0, n) by {
        SuccessPathAssignment(n, maxThread);
        ReachedWereAssigned(slots, {}, 0);
      }
      forall b | 0 <= b < |s| ensures r[b] == 0 {
        EveryChunkReached(s, p, slots, b);
      }
    }
  }

  lemma EveryChunkReached(s: seq<bv8>, p: OverwritePlan, slots: seq<Option<seq<nat>>>, b: nat)
    requires Planned(p) && |s| == p.fileSize && SlotsBelow(slots, p.chunkCount)
    requires Reached(slots, {}) == Range(0, p.chunkCount) && b < |s|
    ensures RunSlots(s, p, slots, {})[b] == 0
  {
    var c := b / p.chunkSize;
    assert 0 <= c < p.chunkCount by {
      ByteHasChunk(p, b);
    }
    assert c in Reached(slots, {}) by {
      InRange(0, p.chunkCount, c);
    }
    RunSlotsAt(s, p, slots, {}, b);
  }

  /** When allocation failures skip slots, the chunks past the surviving quota
    * (SurvivingQuota <= chunkCount, strictly less when any slot is skipped) are never written:
    * their bytes keep their old values, whatever happens to the mappings. */
  lemma SkippedChunksKeepTheirBytes(s: seq<bv8>, chunkSize: nat, maxThread: nat, gran: nat,
                                    failed: set<nat>, mapFails: set<nat>, b: nat)
    requires chunkSize > 0 && maxThread >= 1 && gran > 0
    requires b < |s|
    requires b / chunkSize >= SurvivingQuota(Distribute(MakePlan(|s|, chunkSize, gran).chunkCount, maxThread), failed, 0)
    ensures OverwriteFile(s, chunkSize, maxThread, gran, failed, mapFails)[b] == s[b]
  {
    var p := MakePlan(|s|, chunkSize, gran);
    var d := Distribute(p.chunkCount, maxThread);
    var slots := Slots(d, p.chunkCount, failed, 0, 0);
    AssignmentIsPrefix(p.chunkCount, maxThread, failed);
    RunSlotsAt(s, p, slots, mapFails, b);
    ReachedWereAssigned(slots, mapFails, b / chunkSize);
  }

  /** The overwrite phase. Returns the slots the workers were created from (none for an empty
    * file). */
  method Overwrite(file: array<bv8>, chunkSize: nat, maxThread: nat, gran: nat,
                   failed: set<nat>, mapFails: set<nat>) returns (slots: seq<Option<seq<nat>>>)
    requires chunkSize > 0 && maxThread >= 1 && gran > 0
    modifies file
    ensures file.Length == 0 ==> slots == [] && file[..] == old(file[..])
    ensures file.Length > 0 ==>
      var p := MakePlan(file.Length, chunkSize, gran);
      slots == Slots(Distribute(p.chunkCount, maxThread), p.chunkCount, failed, 0, 0)
    ensures file[..] == OverwriteFile(old(file[..]), chunkSize, maxThread, gran, failed, mapFails)
  {
    var fileSize := file.Length;
    if fileSize == 0 {
      // The file is zero bytes in size: skip the overwriting phase.
      return [];
    }
    var plan := MakePlan(fileSize, chunkSize, gran);
    var d;
    d, slots := AssignChunks(plan.chunkCount, maxThread, failed);
    RunWorkers(file, plan, slots, mapFails);
  }

  /** Creates and runs the worker of every filled slot, one after another; a worker's failure
    * does not stop the others. */
  method RunWorkers(file: array<bv8>, plan: OverwritePlan, slots: seq<Option<seq<nat>>>, mapFails: set<nat>)
    requires Planned(plan) && file.Length == plan.fileSize && SlotsBelow(slots, plan.chunkCount)
    modifies file
    ensures file[..] == RunSlots(old(file[..]), plan, slots, mapFails)
  {
    var w := 0;
    while w < |slots|
      invariant w <= |slots|
      invariant file[..] == RunSlots(old(file[..]), plan, slots[..w], mapFails)
    {
      assert slots[..w + 1][..w] == slots[..w];
      if slots[w].Some? {
        var ok := OverwriteThread(file, OverwriteParams(slots[w].value, plan), mapFails);
      }
      w := w + 1;
    }
    assert slots[..w] == slots;
  }
}
