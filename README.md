# file-shredder: chunked, multi-threaded zero overwrite of a file

The program `main.c` overwrites a file with zero bytes before deleting it. Its `wmain` does the
following for a non-empty file:

- it cuts the file into chunks of `chunk_size` bytes, the last one shorter when the size is not a
  multiple;
- it spreads the chunks over at most `max_thread` workers;
- it fills each worker's chunk-index buffer `params->i`;
- it starts one `OverwriteThread` per worker.

Each worker handles its chunks in order. For each chunk it maps a view of the file, with the
view's start rounded down to the allocation granularity. It then clears the chunk's bytes 1 MiB at
a time from a static buffer of zeros. A worker stops at the first view it cannot map. A zero-length
file skips the whole phase.

The Dafny model has six modules:

- `Sequences`: chunk-index ranges and the concatenation of worker lists.
- `Planner`: the chunk planner. `MakePlan` gives the chunk count and remainder; chunk geometry is
  proved to tile the file.
- `Mapping`: the per-chunk mapping window.
- `Distributor`: the thread arithmetic (`Distribute`) and the slot loop (`AssignChunks`), which
  fills each worker's buffer in place (`FillIndexBuffer`).
- `Worker`: the zero-fill loop (`ZeroFill`, over an `array<bv8>` standing for the file) and the
  worker (`OverwriteThread`).
- `Shredder`: the overwrite phase of `wmain` (`Overwrite`), with the workers run one after another.

Running the workers one after another stands in for the concurrent threads. This is sound because
their chunk lists are disjoint (`SuccessPathAssignment`, `AssignmentIsPrefix`).

The operating system is replaced by two given sets:

- `failed`: the worker slots whose parameter-block or index-buffer allocation fails;
- `mapFails`: the chunks whose `MapViewOfFile` call fails.

Every chunk is mapped at most once, so one set of chunk indices fully describes the mapping
outcomes.

The code's implicit preconditions become `requires` clauses:

- `chunkSize > 0`, because of the division at main.c:150;
- `maxThread >= 1`, because of the division at main.c:162;
- `gran > 0`, because of the modulo at main.c:42.

The extra-worker branch at main.c:165-168 is modelled as written. `Distribute` proves that it
never fires. A slot whose allocation fails advances the slot counter but not `chunk_index`. So,
under failures, the chunks that go unwritten are the tail of `[0, chunk_count)`, not the failed
slot's own block (`AssignmentIsPrefix`, `SkippedChunksKeepTheirBytes`).

## Model

| member | source | states |
|---|---|---|
| `Planner.MakePlan` | main.c:150-159 | the plan keeps the size, the chunk size and the granularity; `remainderBytes` is `fileSize % chunkSize`; the chunk count is 0 exactly for an empty file, and otherwise it is the ceiling of `fileSize / chunkSize`, i.e. `(count-1)*chunkSize < fileSize <= count*chunkSize` |
| `Planner.ChunksTile` | main.c:35-40 | every chunk is non-empty and at most `chunkSize` long; chunk `k` ends where chunk `k+1` starts; the last chunk ends exactly at `fileSize` |
| `Planner.ChunkWithinFile` | main.c:35-40 | no chunk reaches past the end of the file |
| `Planner.ByteHasChunk` | main.c:35-40 | every byte of the file belongs to chunk `b / chunkSize`, a chunk of the plan |
| `Planner.InChunkIff` | main.c:35-40 | byte `b` is in chunk `k` if and only if `b < fileSize` and `k == b / chunkSize`, so the chunks do not overlap and cover nothing outside the file |
| `Planner.LengthsSumToFileSize` | main.c:150-159 | the chunk lengths add up to the file size |
| `Planner.SumIsStart` | main.c:35 | the lengths of chunks `0..m-1` add up to chunk `m`'s start offset `m * chunkSize` |
| `Planner.OneChunkWhenChunkCoversFile` | main.c:150-159 | a non-empty file no longer than a chunk is one chunk, starting at 0 and covering the whole file |
| `Planner.TenMiBInFourMiBChunks` | main.c:150-159 | 10 MiB in 4 MiB chunks: three chunks, of 4, 4 and 2 MiB, with the last one starting at 8 MiB |
| `Mapping.WindowFor` | main.c:35-44 | the window's start offset and length are the chunk's; `alignedStart` is a multiple of `gran`, at most `startOffset` and within `gran` of it; `alignedStart + offsetDelta == startOffset`; the view ends where the chunk ends |
| `Mapping.AlignDown` | main.c:42 | rounding down to a multiple of `gran` gives a multiple that lies less than `gran` below the offset |
| `Mapping.WindowWithinFile` | main.c:42-47 | the view of every chunk lies inside the file, and the chunk is the bytes `[offsetDelta, offsetDelta + chunkLength)` of the view |
| `Distributor.Distribute` | main.c:161-168 | `usedThreads == min(maxThread, chunkCount) >= 1`; the extra-worker branch never fires; the base share is at least 1; the leftover is below `usedThreads`; `usedThreads` base shares plus the leftover make `chunkCount` |
| `Distributor.Slots` | main.c:184-216 | the index lists handed out by the slot loop hold only valid chunk indices, and none of them below the next index to hand out |
| `Distributor.FillIndexBuffer` | main.c:208-216 | the fill loop writes `min(quota, chunks left)` consecutive indices from `chunk_index`, so never an index `>= chunk_count`; `i_len` is the number written; `chunk_index` advances by it; the rest of the buffer is untouched |
| `Distributor.AssignChunks` | main.c:161-234 | the slot loop computes the distribution of `Distribute` and hands out exactly the index lists of `Slots`, skipping failed slots |
| `Distributor.QuotasCoverChunks` | main.c:161-163 | with no failed slot, the quotas of workers `i..usedThreads-1` add up to `(usedThreads - i)` base shares plus the leftover |
| `Distributor.SkippedSlotsLoseQuota` | main.c:186-205 | skipped slots only lose chunks: the total handed out is at most the total with no failures, and equal to it if and only if no slot is skipped |
| `Distributor.SlotsHandOutPrefix` | main.c:184-216 | starting at `next`, the loop hands out exactly the consecutive chunks `[next, next + surviving quota)`, in slot order |
| `Distributor.AssignmentIsPrefix` | main.c:182-216 | under any allocation failures, the concatenated lists are `0..m-1` with `m <= chunkCount`; `m == chunkCount` if and only if no slot failed |
| `Distributor.FullSlotsFrom` | main.c:194-216 | with no failures, from slot `i` on, each worker `w` receives exactly its full share |
| `Distributor.SuccessPathAssignment` | main.c:161-216 | with no failures, there is one list per used worker; worker `w` gets `[w*tcc, w*tcc + quota)` (the last one also gets the leftover); the concatenation is `0..chunkCount-1`, strictly increasing |
| `Distributor.ThreeChunksTwoWorkers` | main.c:161-216 | three chunks over two workers: worker 0 gets `[0]` and worker 1 gets `[1, 2]` |
| `Distributor.OneChunkOneWorker` | main.c:161-216 | a single chunk goes to a single worker, whatever `max_thread` is |
| `Worker.ZeroRange` | main.c:57-64 | zeroing `[lo, hi)` keeps the length, zeroes those bytes and leaves every other byte unchanged |
| `Worker.ZeroFill` | main.c:30-64 | the bounded copy loop makes exactly the `count` bytes at `offsetDelta` in the view zero and leaves the rest of the file unchanged, whether the chunk is shorter or longer than the 1 MiB scratch buffer |
| `Worker.ZeroChunk` | main.c:35-64 | handling one chunk zeroes exactly the bytes of that chunk |
| `Worker.ZeroChunksAt` | main.c:34-64 | handling a list of chunks zeroes byte `b` exactly when `b`'s chunk is in the list, and keeps it otherwise |
| `Worker.FirstMapFailure` | main.c:34-53 | the worker reaches position `k` of its list: every earlier chunk maps, and the chunk at `k` (if any) does not |
| `Worker.WorkerOutcome` | main.c:34-80 | a worker whose mapping fails at position `k` zeroes its chunks `0..k-1` and nothing else; if every mapping succeeds, it zeroes all of its chunks |
| `Worker.OverwriteThread` | main.c:15-81 | the worker returns TRUE if and only if every chunk of its list can be mapped, and leaves the file as `RunWorker` describes |
| `Shredder.RunSlotsAt` | main.c:223-243 | after the workers have run, a byte is zero if its chunk was reached by some worker, and unchanged otherwise |
| `Shredder.ReachedWereAssigned` | main.c:34-53 | every chunk a worker reaches was handed to it; with no mapping failures the reached chunks are exactly the handed-out chunks |
| `Shredder.EveryChunkReached` | main.c:34-64 | when every chunk is reached, every byte of the file is zero |
| `Shredder.FullRunZeroesFile` | main.c:135-243 | when every allocation and mapping succeeds, every byte of the file is zero after the overwrite phase |
| `Shredder.SkippedChunksKeepTheirBytes` | main.c:186-205 | under allocation failures, the bytes of chunks past the surviving quota (the tail of the file) keep their old value, whatever the mappings do |
| `Shredder.Overwrite` | main.c:135-262 | an empty file takes the skip branch: no worker and an unchanged file; otherwise the workers are built from `Slots` and the file ends as `OverwriteFile` describes |
| `Shredder.RunWorkers` | main.c:223-243 | running each created worker one after another leaves the file as `RunSlots` describes; a failing worker does not stop the others |

## Left out

- Command-line parsing: the `max` tokens, `_wcstoui64` and the 512 MiB warning with `getchar`
  (main.c:84-116), including the possible 64-bit overflow in `max_thread * chunk_size`. The chunk
  size, worker limit and granularity are parameters.
- Timing and the floating-point performance figure (main.c:118-120, 278-281), and all logging.
- Win32 calls. `CreateFile`, `GetFileSizeEx`, `CreateFileMapping` and `GetSystemInfo` are replaced
  by the file array and the parameters. The outcomes of `VirtualAlloc` and `MapViewOfFile` are the
  `failed` and `mapFails` sets. `UnmapViewOfFile`, `VirtualFree`, `CloseHandle` and `DeleteFile`
  have no effect on the file's bytes and are not modelled. The unmap-failure warning has no effect
  on the outcome.
- The early exits of `wmain` when `CreateFile`, `CreateFileMapping` or the `thread_list` `malloc`
  fail (main.c:125-129, 139-143, 176-180): these are foreign failures before any byte is written.
- Threading: `CreateThread` in suspended mode, `ResumeThread`, `WaitForSingleObject`,
  `SetThreadPriority` and `Sleep` (main.c:16, 75, 223-243). Workers run sequentially over one file
  array. This is justified by their disjoint chunk lists, but interleavings are not modelled.
- The retry after a failed `CreateThread` (main.c:224-231) is not modelled: thread creation is
  assumed to succeed. That path loops without `i++` after `chunk_index` has already advanced, and
  it releases `VirtualAlloc` memory with `free`; so does main.c:201. These are allocator defects
  outside this model.
- Resuming and joining `thread_list` handles of slots that were skipped (main.c:236-243).
- Ownership of the index buffer: it is filled in place in a fresh array and handed to the worker
  as its contents. Its release at main.c:51 and 78 is not modelled.
- Integer widths: all quantities are unbounded naturals. The file size of a `LARGE_INTEGER` is below
  2^63, and every chunk ends inside the file, so no 64-bit product or sum wraps around. The `int k`
  counters at main.c:34 and 208 would overflow only beyond 2^31 chunks per worker; this is noted
  in comments only.
