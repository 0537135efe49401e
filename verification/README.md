# IAA compression benchmark: size, offset and flag bookkeeping

This project models, in Dafny, the bookkeeping around the Intel QPL
compression engine in the IAA benchmarking suite:

- **Parallel chunk layout.** The multi-engine benchmark cuts a buffer of `mem_size` bytes into
  `job_n` chunk records. Each record holds a prefaulted output buffer of twice
  the chunk's length, plus the chunk's original length.
- **Parallel dispatcher** (`init_qpl`, `free_qpl`, `compress`, `decompress`).
  - Each chunk gets one QPL job context.
  - Every job is submitted asynchronously, framed FIRST|OMIT_VERIFY|LAST, so it is a self-contained DEFLATE stream.
  - A one-byte completion vector is swept until every job is done or one fails.
  - Each chunk's buffer is resized to its job's `total_out`.
  - Decompression writes each chunk at the running sum of the original lengths.
- **A run of either multi-engine benchmark.**
  1. Lay out the chunks.
  2. Compress them.
  3. Add up the compressed sizes in `size_t`.
  4. Decompress into a fresh buffer.
  5. Accept the run only when the reported size is `mem_size` and the bytes equal the source.
- **Single-engine streaming compressor.** It compresses either in one execution or in fixed-size slices. The slices
  use dynamic Huffman codes, or a canned table built from the whole source. FIRST
  goes on the first slice and LAST on the one that takes the rest of the source.
  Decompression is one FIRST|LAST execution.
- **Scattered single-engine compressor.** It uses 64 KiB slices of one connected stream. It records one output size per
  slice, and decompression later walks that list.
- **Page rounding in the full-system benchmark.** Before a compressed file is written for O_DIRECT
  reading, its size is rounded up to a 4 KiB page.

The QPL library is an oracle:
- `QplParallel.Engine` (parallel) and `SingleEngine.JobEngine` (single engine) give the status of every library call, indexed by context or execution number.
- The number of BEING_PROCESSED answers a job gives before its verdict is part of the oracle.
- DEFLATE itself is an opaque `Common.Codec`, a pair of functions. Round trips are proved under one hypothesis about it, `InvertsSelfContained`: inflating a FIRST|LAST stream gives back its input. Section 3.2.3 of RFC 1951 says the final block of such a stream carries BFINAL.
- Whether a chunk's stream fits the buffer the layout gave it is a fact about one run's data, not about the codec (`MultiEngineBenchmark.OutputsFit`): a DEFLATE stream is never empty, so an empty or very short chunk cannot fit twice its length.

C integer widths are written out:
- `size_t` results are reduced modulo 2^64 (`Common.Wrap64`).
- The job count handed to `init_qpl` is narrowed to `uint8_t`.
- The completion vector's `std::reduce` over `uint8_t` is taken modulo 256.
- The layout loop's `uint8_t` counter is modelled. With more than 255 chunks the loop never exits; every pass appends another chunk record with its own buffer, so the run ends when memory runs out (`ExhaustsMemory`, `OutOfMemory`).
- With 256 or more jobs the completion sweep can spin forever without allocating (`Unending`, `NeverReturns`).

One module per source file:
- `QplParallel`: `src/multi_engine/qpl_parallel.h`.
- `MultiEngineBenchmark`: `src/multi_engine/benchmark.h`.
- `QplCanned`: `src/single_engine/qpl_canned.h`.
- `QplScattered`: `src/single_engine/qpl_scattered.h`.
- `FullSystem`: the size arithmetic of `prepare_compressed_files` in `src/full_system/benchmark_full_system.h`.
- `SingleEngine`: the slice loop the two single-engine compressors share.
- `Common`: the shared vocabulary.

Resource and error handling as the code does it:
- `init_qpl` returns an empty vector on a partial failure, without finalizing the contexts it already initialized.
- `free_qpl` stops at the first failing finalization instead of trying the rest.
- `decompress` never finalizes its contexts at all.
- A failed `compress` still leaves the buffers of jobs that completed resized to their output.
- A failed `decompress` leaves the output of completed jobs in `dst`.

The scattered compressor and decompressor are modelled as written, with the
two defects listed under "## Findings": `QplScattered.Compress` records the
sizes of `QplScattered.RecordedAsWritten`, and `QplScattered.Decompress`
sets the flags of `QplScattered.StepFlagsAsWritten`. The evidently intended
definitions, `QplScattered.Deltas` and `QplScattered.StepFlags`, are separate
members; only the lemmas about the corrected behaviour use them
(`DeltasPrefix`, `DeltasAddUp`, `CompressedSizesAddUp`,
`WalkFollowsCompression`, `StepFlagsFrameStream`).

## Model

| member | source | states |
|---|---|---|
| `MultiEngineBenchmark.ChunkLayout` | src/multi_engine/benchmark.h:27-36 | `job_n == 0` divides by zero; `job_n > 255` never exits and allocates until memory runs out (the `uint8_t` counter wraps); a negative `job_n` lays out nothing; otherwise exactly the records of `Chunks` |
| `MultiEngineBenchmark.Chunks` | src/multi_engine/benchmark.h:29-36 | `job_n` records, record `i` holding its chunk length and a buffer of `2 * length` (in `size_t`) prefault bytes, the lengths adding up to `mem_size` |
| `MultiEngineBenchmark.SplitCoversSource` | src/multi_engine/benchmark.h:27-32 | quotient-sized chunks with the remainder on the last one add up to exactly `mem_size`, and none is longer than `mem_size` |
| `MultiEngineBenchmark.LayoutShape` | src/multi_engine/benchmark.h:27-35 | exactly `job_n` records; all but the last `mem_size / job_n` long, the last also taking `mem_size % job_n`; lengths summing to `mem_size`; each buffer exactly twice its length |
| `MultiEngineBenchmark.CompressedSize` | src/multi_engine/benchmark.h:47-49 | the reported compressed size is the total of the chunk buffer sizes modulo 2^64, and that total exactly when it fits a `size_t` |
| `MultiEngineBenchmark.CompressedSizeOfOutputs` | src/multi_engine/benchmark.h:47-49 | after a successful compression the buffer sizes are the jobs' output sizes; since every job finished within its room they add up to at most the buffers the layout allocated, so at most twice the chunk lengths' total |
| `MultiEngineBenchmark.HealthyCompressSucceeds` | src/multi_engine/benchmark.h:33-35 | with every QPL call succeeding, every compress job whose stream fits its chunk's buffer succeeds |
| `MultiEngineBenchmark.CompressedChunksInflate` | src/multi_engine/qpl_parallel.h:88-100 | chunks holding their FIRST\|LAST job outputs inflate back to consecutive slices of the source of exactly the original lengths |
| `MultiEngineBenchmark.HealthyDecompressSucceeds` | src/multi_engine/qpl_parallel.h:149-193 | chunks that inflate to slices of their original lengths decompress without error when every QPL call succeeds |
| `MultiEngineBenchmark.DecompressAndCompare` | src/multi_engine/benchmark.h:52-60 | the verification step reports no mismatch exactly when the decompressed size is `mem_size` and the destination equals the source; chunks that inflate to their slices of the source pass it with a healthy engine |
| `MultiEngineBenchmark.Run` | src/multi_engine/benchmark.h:23-110 | a run divides by zero exactly when `job_n == 0` and runs out of memory exactly when `job_n > 255`; it is accepted (no data mismatch) exactly when the reported size is `mem_size` and the destination equals the source; with healthy engines, a codec that inverts self-contained streams and chunk streams that fit their doubled buffers it finishes with no skip, the round trip holds and the compressed size is the total of the jobs' outputs |
| `QplParallel.InitQpl` | src/multi_engine/qpl_parallel.h:22-46 | returns exactly `threads` contexts when the size query and every initialization succeed, and none otherwise (also for a zero count) |
| `QplParallel.FreeQpl` | src/multi_engine/qpl_parallel.h:48-59 | returns 0 exactly when every finalization succeeds; otherwise stops at the first failing context, after finalizing all earlier ones |
| `QplParallel.Poll` | src/multi_engine/qpl_parallel.h:114-131 | the sweep fails exactly when some job fails, reporting the failing job met first in sweep order, with exactly the jobs seen finishing earlier marked done; otherwise every job is marked once; it ends normally exactly when every chunk was submitted, and spins forever when the `uint8_t` sum of the flags can never reach the chunk count |
| `QplParallel.FirstFailureUnique` | src/multi_engine/qpl_parallel.h:116-125 | the failure the sweep reports is determined by the schedule: two jobs cannot both be the first failure met |
| `QplParallel.CompressJobFor` | src/multi_engine/qpl_parallel.h:87-100 | job `i` reads inside the source; every job is FIRST\|OMIT_VERIFY\|LAST, with DYNAMIC_HUFFMAN exactly in dynamic mode and the table built from the whole source exactly in canned mode |
| `QplParallel.CompressJobsTile` | src/multi_engine/qpl_parallel.h:80-111 | the jobs read consecutive non-overlapping slices: the first at 0, each where the previous ends, the last ending at the total of the original lengths; each with its chunk's length and its chunk's buffer size as room |
| `QplParallel.SubmitCompressJobs` | src/multi_engine/qpl_parallel.h:79-111 | submits the configured jobs of the chunks in order and stops at the first refused submission |
| `QplParallel.AwaitCompressJobs` | src/multi_engine/qpl_parallel.h:113-131 | a reported failure is a job whose status is not OK; a completed chunk's buffer becomes exactly its job's output (never longer than before) with its original length kept; other chunks are untouched |
| `QplParallel.Compress` | src/multi_engine/qpl_parallel.h:61-138 | returns -1 with nothing changed for a chunk count that narrows to 0; returns 0 exactly when every context comes up, the table builds, every job succeeds within its room and every finalization succeeds, and then every buffer is its job's output; spins forever exactly when there are 256 or more chunks, their count does not narrow to 0, and the jobs of the narrowed count all succeed (the `uint8_t` flag sum never reaches the chunk count) |
| `QplParallel.RecompressIsStable` | src/multi_engine/qpl_parallel.h:126-127 | compressing again into the buffers a successful compression resized succeeds again with the same outputs and leaves the chunks unchanged, so repeated benchmark iterations see the same chunks |
| `QplParallel.RecompressJob` | src/multi_engine/qpl_parallel.h:87-100 | a resized chunk's job reads the same slice with the same flags and produces the same output, which fits its new room |
| `QplParallel.JobBlocksCompletion` | src/multi_engine/qpl_parallel.h:102-125 | one refused submission or failed job rules out a successful compression |
| `QplParallel.SubmitDecompressJobs` | src/multi_engine/qpl_parallel.h:149-172 | submits one FIRST\|LAST job per chunk, output at the running sum of the original lengths, and stops at the first refused submission |
| `QplParallel.DecompressRegionsTile` | src/multi_engine/qpl_parallel.h:150-172 | the output regions are consecutive and disjoint: the first at 0, each where the previous ends, each exactly its chunk's original length, all within the total |
| `QplParallel.AwaitDecompressJobs` | src/multi_engine/qpl_parallel.h:174-193 | a reported failure is a job whose status is not OK; when all jobs complete every chunk fits its region and the destination holds every inflated chunk at its offset |
| `QplParallel.Decompress` | src/multi_engine/qpl_parallel.h:140-197 | returns 0 exactly when every context comes up and every job is submitted and succeeds within its room; then one job ran per chunk, each output fits its region, the size is the total of the outputs in `size_t` (at most the total of the original lengths) and `dst` holds the reassembled chunks; the size is written only on success; spins forever exactly when there are 256 or more chunks, their count does not narrow to 0, and the jobs of the narrowed count all succeed |
| `QplParallel.ReassemblePrefix` | src/multi_engine/qpl_parallel.h:157-170 | writing the first `k` slices at their offsets makes the buffer agree with the source up to the next offset and leaves the rest untouched |
| `QplParallel.ReassembleRoundTrip` | src/multi_engine/benchmark.h:58-60 | when every chunk inflates to its slice of the source and the slices cover it, reassembly yields the source whatever the destination held |
| `SingleEngine.OutputCapacity` | src/single_engine/qpl_canned.h:70 | the output room is one byte less than the source, and wraps to the largest `size_t` for an empty source |
| `SingleEngine.TakesRestOnlyLast` | src/single_engine/qpl_canned.h:97-100 | the slice test `chunk_size >= src_bytes_left` holds exactly on the final slice |
| `SingleEngine.SlicesTile` | src/single_engine/qpl_canned.h:92-114 | there are ceil(`src_size` / `chunk_size`) slices, slice `k` starting at `k * chunk_size`, all but the last full, the last non-empty and at most a slice long, lengths adding up to `src_size` |
| `SingleEngine.SliceFlagsSchedule` | src/single_engine/qpl_canned.h:97-112 | FIRST exactly on the first execution, LAST exactly on the final one, every other flag and the table as the job started |
| `SingleEngine.ExecuteSlices` | src/single_engine/qpl_canned.h:92-114 | the loop executes the planned slices in order; it succeeds exactly when every execution does, and otherwise stops right after the first failed one |
| `QplCanned.ScheduleFlags` | src/single_engine/qpl_canned.h:57-112 | in the chunked modes FIRST is only on the first and LAST only on the final execution, OMIT_VERIFY always, DYNAMIC_HUFFMAN exactly in naive mode, the table built from the whole source exactly in canned mode |
| `QplCanned.Compress` | src/single_engine/qpl_canned.h:48-124 | a failed setup or table build returns -1; the continuous mode is one FIRST\|OMIT_VERIFY\|DYNAMIC_HUFFMAN\|LAST execution over the whole source; the chunked modes run the planned slices; 0 exactly when every execution and the finalization succeed; `dst_size` written with the final `total_out` only once all executions succeed; when all succeed every planned slice ran, and otherwise the last execution run is the first that failed; a zero slice size with a non-empty source never returns, and an empty source sets `dst_size` to 0 |
| `QplCanned.ContinuousIsSelfContained` | src/single_engine/qpl_canned.h:73-81 | the continuous execution covers the whole source as one self-contained stream, which a codec that inverts such streams inflates back to the source |
| `QplCanned.Decompress` | src/single_engine/qpl_canned.h:126-158 | one FIRST\|LAST execution over the whole input with the given table and room; 0 exactly when setup, execution and finalization succeed; the actual size is the execution's `total_out`, written once it succeeds |
| `QplCanned.ContinuousRoundTrip` | src/single_engine/qpl_canned.h:136-145 | decompression frames its whole input as one FIRST\|LAST stream, the framing the continuous compressor gives its output, so a codec that inverts such streams returns the source from that output |
| `QplCanned.ContinuousBenchmark` | src/single_engine/benchmark.h:136-162 | one benchmark round in continuous mode: the compressed size starts at twice the source size and is overwritten only by a successful execution; decompression reads that many bytes whether or not compression succeeded; a mismatch is reported unless the size is the source size and the output starts with the source; when both executions succeed and produce the codec's bytes, decompression reads exactly the compressed stream, framed FIRST\|LAST, and gets the source back with no mismatch |
| `QplScattered.RecordedAsWrittenDrifts` | src/single_engine/qpl_scattered.h:94-98 | the recorded-size recurrence as written records 10, 5, 15 for running totals 10, 15, 20, adding up to 30 instead of 20 |
| `QplScattered.DeltasPrefix` | src/single_engine/qpl_scattered.h:94-98 | the first `k + 1` per-slice output sizes add up to the running total after slice `k` |
| `QplScattered.DeltasAddUp` | src/single_engine/qpl_scattered.h:94-108 | the per-slice output sizes add up to the final `total_out`, the reported compressed size |
| `QplScattered.Compress` | src/single_engine/qpl_scattered.h:51-115 | 64 KiB slices of one connected stream; one size appended per successful execution, by the recurrence as written (`total_out` minus the previously recorded size); when all succeed every slice ran, otherwise the last execution run is the first that failed; 0 exactly when every execution and the finalization succeed; `dst_size` is the final `total_out`, written only once every execution succeeded |
| `QplScattered.CompressedSizesAddUp` | src/single_engine/qpl_scattered.h:94-108 | with the recurrence corrected to the per-slice output sizes, the sizes a successful compression records would add up to the compressed size it reports |
| `QplScattered.StepFlagsAsWrittenMissLast` | src/single_engine/qpl_scattered.h:133-142 | with the step counter never advanced, a two-piece stream's final step goes out without LAST |
| `QplScattered.StepFlagsFrameStream` | src/single_engine/qpl_scattered.h:130-159 | with the counter advanced, FIRST is exactly on the first step and LAST exactly on the final one, OMIT_VERIFY on all |
| `QplScattered.Decompress` | src/single_engine/qpl_scattered.h:117-172 | step `k` reads `src_sizes[k]` bytes at the sum of the earlier sizes and writes where the earlier output ends; flags as written (FIRST on the first step, LAST only when there is a single piece); every step runs when all succeed, otherwise it stops right after the first failed one; 0 exactly when every step and the finalization succeed; the actual size is the final `total_out`, written only after every step succeeded |
| `QplScattered.WalkFollowsCompression` | src/single_engine/qpl_scattered.h:131-157 | fed the per-slice output sizes of the corrected recurrence, decompression step `k` reads exactly the bytes compression step `k` wrote |
| `FullSystem.AlignToPageRoundsUp` | src/full_system/benchmark_full_system.h:35 | the rounded size is a multiple of 4096, at least the compressed size and less than a page more, and an aligned size is unchanged |
| `FullSystem.AlignToPageWraps` | src/full_system/benchmark_full_system.h:35 | within 4095 bytes of the `size_t` limit the rounding wraps to 0 |
| `FullSystem.PrepareCompressedFiles` | src/full_system/benchmark_full_system.h:19-54 | 0 exactly when compression, open and a complete write of the rounded count succeed; the file receives the rounded count of bytes (the compressed bytes, then prefault padding); the unrounded size is returned and only on success |

## Left out

- The Google Benchmark iteration loop is modelled as one call of `compress` / `decompress` per run, in the multi-engine runs and in `QplCanned.ContinuousBenchmark`. `QplParallel.RecompressIsStable` shows that repeated successful compressions see the same chunks.
- The floating-point "Compression Ratio" counter and the "Status" counter are left out: they are floating point and reporting only.
- A job that stays BEING_PROCESSED forever is not modelled. Every job in the oracle reaches a verdict after finitely many checks.
- What a job writes into its buffer before failing is not modelled. A failed compression job leaves its chunk untouched, and a failed decompression job leaves its region untouched.
- The contents of `dst` after the scattered decompression are not modelled: only sizes, offsets and flags are. After single-engine decompression they are modelled only in `QplCanned.ContinuousBenchmark`, as the codec's inflation of the bytes read. The parallel dispatcher's reassembly is modelled in full.
- The shrinking of `available_out` across executions is not modelled, in both single-engine compressors and both single-engine decompressors. The program sets the room once, before the first execution, and QPL consumes it as the job writes, which is QPL-internal state. `SingleEngine.Execution.outCapacity` is the room set before the first execution.
- MultiEngineBenchmark.ChunkLayout: `ExhaustsMemory` stands for the abnormal end of a layout loop that never exits (`std::bad_alloc` and termination, or the system's out-of-memory killer); how the memory runs out is not modelled.
- QplParallel.Compress: after a -1 return caused by a refused submission or a failed job, jobs already submitted keep running and may still write their chunk buffers. The model describes the chunks as they are at the return.
- QplParallel.Decompress: after a -1 return caused by a refused submission or a failed job, jobs already submitted keep running and may still write their regions of `dst`. The model describes `dst` as it is at the return.
- QplCanned.ContinuousBenchmark: only continuous mode is modelled end to end. The chunked modes split one stream over several executions, which the codec's FIRST\|LAST hypothesis does not cover. Their compress and decompress calls are modelled separately.
- `total_out` is taken as 0 before a job's first execution, as QPL's job initialization leaves it.
- QplCanned.Compress: with `chunk_size == 0` and a non-empty source, the model returns `NeverReturns`. That assumes the engine keeps accepting zero-length executions; if it rejected one, the source would return -1 instead.
- The non-connected branches of the scattered compressor are left out, because the switch selecting them is set to true and never cleared.
- Leaked job contexts, buffers and tables are not modelled: C++ ownership and memory.
- File I/O (`open`, `write`, `fsync`, `close`, the 0x666 mode), allocation and prefaulting syscalls are left out. `write` is a parameter returning the byte count.
- Canned table creation is a single fallible oracle answer (`tableBuilds`).
- The DEFLATE encoding, QPL job internals, logging and the hardware path choice are left out: they belong to the foreign library.
- The plotting scripts, the benchmark registration and `BM_FullSystem` are not part of this model.

## Findings

| source | as written | input that shows it | evidently intended | confidence | as-written member | corrected member |
|---|---|---|---|---|---|---|
| src/single_engine/qpl_scattered.h:94-95 | each recorded size is the current `total_out` minus the previously recorded size (`QplScattered.RecordedAsWritten`) | three slices with running totals 10, 15, 20 record 10, 5, 15 (sum 30) | each recorded size is the current `total_out` minus the previous `total_out` (`QplScattered.Deltas`), so the sizes add up to the compressed size and decompression reads each slice's output exactly | not executed | `QplScattered.RecordedAsWrittenDrifts` | `QplScattered.DeltasAddUp` |
| src/single_engine/qpl_scattered.h:133-142 | `it_cnt` is never incremented in the decompression loop, so `it_cnt == src_sizes.size() - 1` holds only for a single piece (`QplScattered.StepFlagsAsWritten`) | two recorded sizes: the final step is executed without LAST | LAST on the final piece (`QplScattered.StepFlags`), closing the stream | not executed | `QplScattered.StepFlagsAsWrittenMissLast` | `QplScattered.StepFlagsFrameStream` |
