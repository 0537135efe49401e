/** The multi-engine dispatcher: one QPL job per chunk, all submitted
    asynchronously, then a single-threaded completion vector swept until every
    job is done or one fails. */
module QplParallel {
  import opened Common

  datatype CompressionMode = ParallelFixed | ParallelDynamic | ParallelCanned

  /** One entry of the compressed format: the chunk's buffer (compressed bytes
      after a successful compression) and the chunk's original length. */
  datatype Chunk = Chunk(buffer: seq<byte>, originalSize: nat)

  type CompressedFormat = seq<Chunk>

  function OriginalSizes(fmt: CompressedFormat): (lens: seq<nat>)
    ensures |lens| == |fmt|
    ensures forall i :: 0 <= i < |fmt| ==> lens[i] == fmt[i].originalSize
  {
    seq(|fmt|, i requires 0 <= i < |fmt| => fmt[i].originalSize)
  }

  /** What the QPL library answers, indexed by context / job number: the job
      size query, each context's initialization and finalization, the canned
      table build, each submission, and for each submitted job how many
      `qpl_check_job` calls answer BEING_PROCESSED before its final verdict. */
  datatype Engine = Engine(
    jobSize: Status,
    init: nat -> Status,
    fini: nat -> Status,
    tableBuilds: bool,
    submit: nat -> Status,
    busySweeps: nat -> nat,
    verdict: nat -> Terminal)

  // ---------------------------------------------------------------------------
  // Job pool: init_qpl / free_qpl

  predicate InitSucceeds(eng: Engine, threads: nat)
  {
    eng.jobSize == Ok && forall i :: 0 <= i < threads ==> eng.init(i) == Ok
  }

  /** Acquires `threads` job contexts (context `i` is named by `i`). The count is
      a `uint8_t`: callers narrow their `size_t` count before calling. Any
      failure yields no contexts at all. */
  method InitQpl(eng: Engine, threads: nat) returns (jobs: seq<nat>)
    requires threads < 256
    ensures jobs != [] <==> threads > 0 && InitSucceeds(eng, threads)
    ensures jobs != [] ==> |jobs| == threads
    ensures forall i :: 0 <= i < |jobs| ==> jobs[i] == i
  {
    jobs := [];
    if eng.jobSize != Ok {
      return;
    }
    var i := 0;
    while i < threads
      invariant 0 <= i <= threads
      invariant |jobs| == i
      invariant forall j :: 0 <= j < i ==> jobs[j] == j && eng.init(j) == Ok
    {
      if eng.init(i) != Ok {
        jobs := [];
        return;
      }
      jobs := jobs + [i];
      i := i + 1;
    }
  }

  /** Finalizes the contexts in order and stops at the first failure;
      `finalized` counts the contexts finalized successfully. */
  method FreeQpl(eng: Engine, jobs: seq<nat>) returns (rc: int, finalized: nat)
    ensures rc == 0 || rc == -1
    ensures rc == 0 <==> forall i :: 0 <= i < |jobs| ==> eng.fini(jobs[i]) == Ok
    ensures finalized <= |jobs|
    ensures rc == 0 ==> finalized == |jobs|
    ensures rc == -1 ==> finalized < |jobs| && eng.fini(jobs[finalized]) != Ok
    ensures forall i :: 0 <= i < finalized ==> eng.fini(jobs[i]) == Ok
  {
    finalized := 0;
    while finalized < |jobs|
      invariant finalized <= |jobs|
      invariant forall i :: 0 <= i < finalized ==> eng.fini(jobs[i]) == Ok
    {
      if eng.fini(jobs[finalized]) != Ok {
        return -1, finalized;
      }
      finalized := finalized + 1;
    }
    rc := 0;
  }

  // ---------------------------------------------------------------------------
  // The completion vector

  datatype PollOutcome = AllDone | JobFailed(job: nat) | Spins

  /** The answer of `qpl_check_job` at sweep `sweep` for a job that stays busy
      for `busy` sweeps. */
  function CheckJob(busy: nat, verdict: Terminal, sweep: nat): Status
  {
    if sweep < busy then BeingProcessed else verdict
  }

  /** The sweep loop observes job `j` finishing before job `i`: in an earlier
      sweep, or in the same sweep at a lower index. */
  predicate Earlier(busy: seq<nat>, j: nat, i: nat)
    requires j < |busy| && i < |busy|
  {
    busy[j] < busy[i] || (busy[j] == busy[i] && j < i)
  }

  /** `f` is the failing job the sweep loop meets first. */
  predicate IsFirstFailure(busy: seq<nat>, verdicts: seq<Terminal>, f: nat)
    requires |busy| == |verdicts|
  {
    f < |verdicts| && verdicts[f] != Ok &&
    forall j :: 0 <= j < |verdicts| && Earlier(busy, j, f) ==> verdicts[j] == Ok
  }

  /** Two failing jobs cannot both be met first: the failure the loop reports
      is determined by the schedule. */
  lemma FirstFailureUnique(busy: seq<nat>, verdicts: seq<Terminal>, f: nat, g: nat)
    requires |busy| == |verdicts|
    requires IsFirstFailure(busy, verdicts, f) && IsFirstFailure(busy, verdicts, g)
    ensures f == g
  {
  }

  function MaxOf(s: seq<nat>): (r: nat)
    ensures forall i :: 0 <= i < |s| ==> s[i] <= r
  {
    if |s| == 0 then 0
    else
      var m := MaxOf(s[..|s| - 1]);
      if s[|s| - 1] > m then s[|s| - 1] else m
  }

  /** The wait loop. `cmpl` has `threadCount` one-byte flags but only the
      `|verdicts|` submitted jobs are swept; the loop test sums the flags as a
      `uint8_t` (modulo 256). When every swept job is done and that sum still
      differs from `threadCount`, the source keeps sweeping forever: the model
      reports `Spins`. */
  method Poll(threadCount: nat, busy: seq<nat>, verdicts: seq<Terminal>)
    returns (r: PollOutcome, cmpl: seq<nat>)
    requires |busy| == |verdicts| <= threadCount
    requires |verdicts| < 256
    ensures |cmpl| == threadCount
    ensures forall j :: |verdicts| <= j < threadCount ==> cmpl[j] == 0
    ensures r.JobFailed? <==> exists i :: 0 <= i < |verdicts| && verdicts[i] != Ok
    ensures r.JobFailed? ==> IsFirstFailure(busy, verdicts, r.job)
    ensures r.JobFailed? ==>
      forall j :: 0 <= j < |verdicts| ==> (cmpl[j] == 1 <==> Earlier(busy, j, r.job))
    ensures !r.JobFailed? ==> forall j :: 0 <= j < |verdicts| ==> cmpl[j] == 1
    ensures r.AllDone? <==> !r.JobFailed? && |verdicts| == threadCount
  {
    var m := |verdicts|;
    cmpl := seq(threadCount, _ => 0);
    var sweep := 0;
    while Sum(cmpl) % 256 != threadCount
      invariant |cmpl| == threadCount
      invariant forall i :: 0 <= i < m ==> cmpl[i] == (if busy[i] < sweep then 1 else 0)
      invariant forall i :: m <= i < threadCount ==> cmpl[i] == 0
      invariant forall i :: 0 <= i < m && busy[i] < sweep ==> verdicts[i] == Ok
      invariant sweep <= MaxOf(busy) + 1
      decreases MaxOf(busy) + 1 - sweep
    {
      if forall i | 0 <= i < m :: cmpl[i] == 1 {
        FlagCount(cmpl, m);
        r := Spins;
        return;
      }
      var k :| 0 <= k < m && cmpl[k] != 1;
      assert sweep <= busy[k] <= MaxOf(busy);
      var i := 0;
      while i < m
        invariant 0 <= i <= m
        invariant |cmpl| == threadCount
        invariant forall j :: 0 <= j < i ==> cmpl[j] == (if busy[j] <= sweep then 1 else 0)
        invariant forall j :: i <= j < m ==> cmpl[j] == (if busy[j] < sweep then 1 else 0)
        invariant forall j :: m <= j < threadCount ==> cmpl[j] == 0
        invariant forall j :: 0 <= j < m && (busy[j] < sweep || (busy[j] == sweep && j < i)) ==>
                    verdicts[j] == Ok
      {
        if cmpl[i] == 0 {
          var status := CheckJob(busy[i], verdicts[i], sweep);
          if status != BeingProcessed {
            if status != Ok {
              r := JobFailed(i);
              return;
            }
            cmpl := cmpl[i := 1];
          }
        }
        i := i + 1;
      }
      sweep := sweep + 1;
    }
    FlagCount(cmpl, m);
    r := AllDone;
  }

  // ---------------------------------------------------------------------------
  // Compression

  /** Every compress job is FIRST|OMIT_VERIFY|LAST: one self-contained DEFLATE
      stream per chunk; the dynamic mode asks for dynamic Huffman codes. */
  function CompressFlags(mode: CompressionMode): set<Flag>
  {
    if mode == ParallelDynamic then {First, OmitVerify, Last, DynamicHuffman}
    else {First, OmitVerify, Last}
  }

  /** The Huffman table a job carries: the canned table built from the whole
      source in canned mode, none otherwise. */
  function TableFor(mode: CompressionMode, src: seq<byte>): Table
  {
    if mode == ParallelCanned then Built(src) else NoTable
  }

  datatype CompressJob = CompressJob(
    inStart: nat, inLen: nat, outCapacity: nat, flags: set<Flag>, table: Table)

  /** The job the dispatcher configures for chunk `i`: its slice of the source
      starts at the sum of the earlier chunks' original lengths and lies inside
      the source, its output room is the chunk's current buffer size. Every job
      is FIRST|OMIT_VERIFY|LAST; DYNAMIC_HUFFMAN exactly in dynamic mode, and a
      table (the one built from the whole source) exactly in canned mode. */
  function CompressJobFor(mode: CompressionMode, src: seq<byte>, fmt: CompressedFormat, i: nat)
    : (job: CompressJob)
    requires i < |fmt| && Sum(OriginalSizes(fmt)) <= |src|
    ensures job.inStart + job.inLen <= |src|
    ensures First in job.flags && OmitVerify in job.flags && Last in job.flags
    ensures DynamicHuffman in job.flags <==> mode == ParallelDynamic
    ensures job.table == (if mode == ParallelCanned then Built(src) else NoTable)
  {
    OffsetStep(OriginalSizes(fmt), i);
    CompressJob(Offset(OriginalSizes(fmt), i), fmt[i].originalSize, |fmt[i].buffer|,
                CompressFlags(mode), TableFor(mode, src))
  }

  /** The compress jobs read consecutive, non-overlapping slices of the source:
      the first starts at 0, each starts where the previous one ends, and the
      last ends at the total of the original lengths. Each has its chunk's
      length and its chunk's buffer size as room. */
  lemma CompressJobsTile(mode: CompressionMode, src: seq<byte>, fmt: CompressedFormat)
    requires Sum(OriginalSizes(fmt)) <= |src|
    ensures forall i :: 0 <= i < |fmt| ==>
      CompressJobFor(mode, src, fmt, i).inLen == fmt[i].originalSize &&
      CompressJobFor(mode, src, fmt, i).outCapacity == |fmt[i].buffer|
    ensures |fmt| > 0 ==> CompressJobFor(mode, src, fmt, 0).inStart == 0
    ensures forall i :: 0 <= i < |fmt| - 1 ==>
      CompressJobFor(mode, src, fmt, i).inStart + CompressJobFor(mode, src, fmt, i).inLen
        == CompressJobFor(mode, src, fmt, i + 1).inStart
    ensures |fmt| > 0 ==>
      CompressJobFor(mode, src, fmt, |fmt| - 1).inStart + fmt[|fmt| - 1].originalSize
        == Sum(OriginalSizes(fmt))
  {
    var lens := OriginalSizes(fmt);
    forall i | 0 <= i < |fmt| - 1
      ensures CompressJobFor(mode, src, fmt, i).inStart + CompressJobFor(mode, src, fmt, i).inLen
              == CompressJobFor(mode, src, fmt, i + 1).inStart
    {
      OffsetStep(lens, i);
    }
    if |fmt| > 0 {
      assert lens[..0] == [];
      OffsetStep(lens, |fmt| - 1);
      OffsetAll(lens);
    }
  }

  function CompressOutput(codec: Codec, src: seq<byte>, job: CompressJob): seq<byte>
    requires job.inStart + job.inLen <= |src|
  {
    codec.deflate(src[job.inStart..job.inStart + job.inLen], job.flags, job.table)
  }

  /** A finished job's status: the engine's verdict, and an output that does
      not fit `available_out` is an error too. */
  function JobStatus(verdict: Terminal, out: seq<byte>, capacity: nat): (s: Terminal)
    ensures s == Ok <==> verdict == Ok && |out| <= capacity
  {
    if verdict != Ok then verdict
    else if |out| > capacity then MoreOutputNeeded
    else Ok
  }

  function CompressJobStatus(mode: CompressionMode, src: seq<byte>, fmt: CompressedFormat,
                             eng: Engine, codec: Codec, i: nat): Terminal
    requires i < |fmt| && Sum(OriginalSizes(fmt)) <= |src|
  {
    var job := CompressJobFor(mode, src, fmt, i);
    JobStatus(eng.verdict(i), CompressOutput(codec, src, job), job.outCapacity)
  }

  /** The first `m` contexts come up, the table (if any) builds, and the first
      `m` jobs are submitted and finish with OK. */
  predicate CompressJobsComplete(mode: CompressionMode, src: seq<byte>, fmt: CompressedFormat,
                                 eng: Engine, codec: Codec, m: nat)
    requires m <= |fmt| && Sum(OriginalSizes(fmt)) <= |src|
  {
    && InitSucceeds(eng, m)
    && (mode == ParallelCanned ==> eng.tableBuilds)
    && forall i :: 0 <= i < m ==>
         eng.submit(i) == Ok && CompressJobStatus(mode, src, fmt, eng, codec, i) == Ok
  }

  predicate CompressSucceeds(mode: CompressionMode, src: seq<byte>, fmt: CompressedFormat,
                             eng: Engine, codec: Codec)
    requires Sum(OriginalSizes(fmt)) <= |src|
  {
    && 0 < |fmt| < 256
    && CompressJobsComplete(mode, src, fmt, eng, codec, |fmt|)
    && forall i :: 0 <= i < |fmt| ==> eng.fini(i) == Ok
  }

  /** The submission loop: configures and submits the jobs of the first `m`
      chunks, the input pointer advancing by each chunk's original length; it
      stops at the first submission the engine refuses. */
  method SubmitCompressJobs(mode: CompressionMode, src: seq<byte>, fmt: CompressedFormat,
                            table: Table, eng: Engine, m: nat)
    returns (jobs: seq<CompressJob>)
    requires m <= |fmt| && Sum(OriginalSizes(fmt)) <= |src|
    requires mode == ParallelCanned ==> table == Built(src)
    ensures |jobs| <= m
    ensures forall j :: 0 <= j < |jobs| ==>
      jobs[j] == CompressJobFor(mode, src, fmt, j) && eng.submit(j) == Ok
    ensures |jobs| < m ==> eng.submit(|jobs|) != Ok
  {
    var lens := OriginalSizes(fmt);
    jobs := [];
    var srcOffset := 0;
    var chunk := 0;
    while chunk < m
      invariant chunk <= m
      invariant srcOffset == Offset(lens, chunk)
      invariant |jobs| == chunk
      invariant forall j :: 0 <= j < chunk ==>
                  jobs[j] == CompressJobFor(mode, src, fmt, j) && eng.submit(j) == Ok
    {
      var flags := {First, OmitVerify, Last};
      var jobTable := NoTable;
      if mode == ParallelCanned {
        jobTable := table;
      } else if mode == ParallelDynamic {
        flags := flags + {DynamicHuffman};
      }
      var job := CompressJob(srcOffset, fmt[chunk].originalSize, |fmt[chunk].buffer|, flags, jobTable);
      if eng.submit(chunk) != Ok {
        return;
      }
      OffsetStep(lens, chunk);
      jobs := jobs + [job];
      srcOffset := srcOffset + fmt[chunk].originalSize;
      chunk := chunk + 1;
    }
  }

  /** The compressed format after the wait loop: chunk `j` of a completed job
      holds that job's output, every other chunk is unchanged. */
  function Resized(fmt: CompressedFormat, outs: seq<seq<byte>>, done: seq<bool>)
    : (fmt': CompressedFormat)
    requires |outs| == |done| <= |fmt|
    ensures |fmt'| == |fmt|
    ensures forall j :: 0 <= j < |fmt| ==>
      fmt'[j] == (if j < |done| && done[j] then Chunk(outs[j], fmt[j].originalSize) else fmt[j])
  {
    seq(|fmt|, j requires 0 <= j < |fmt| =>
          if j < |done| && done[j] then Chunk(outs[j], fmt[j].originalSize) else fmt[j])
  }

  /** Compresses every chunk of `fmt` from its slice of `src`. On completion a
      chunk's buffer becomes exactly its job's output (`resize(total_out)`);
      chunks of jobs that did not complete are left as they were. */
  method Compress(mode: CompressionMode, src: seq<byte>, fmt: CompressedFormat,
                  eng: Engine, codec: Codec)
    returns (ret: Ret, fmt': CompressedFormat, jobs: seq<CompressJob>)
    requires Sum(OriginalSizes(fmt)) <= |src|
    ensures ret.Returned? ==> ret.code == 0 || ret.code == -1
    ensures |fmt| % 256 == 0 ==> ret == Returned(-1) && fmt' == fmt
    ensures |jobs| <= |fmt| % 256
    ensures forall i :: 0 <= i < |jobs| ==> jobs[i] == CompressJobFor(mode, src, fmt, i)
    ensures |fmt'| == |fmt|
    ensures forall i :: 0 <= i < |fmt| ==> fmt'[i].originalSize == fmt[i].originalSize
    ensures forall i :: 0 <= i < |fmt| ==>
      fmt'[i] == fmt[i] ||
      (i < |jobs| && fmt'[i].buffer == CompressOutput(codec, src, CompressJobFor(mode, src, fmt, i))
       && |fmt'[i].buffer| <= |fmt[i].buffer|)
    ensures ret == Returned(0) <==> CompressSucceeds(mode, src, fmt, eng, codec)
    ensures ret == Returned(0) ==>
      |jobs| == |fmt| &&
      forall i :: 0 <= i < |fmt| ==>
        fmt'[i].buffer == CompressOutput(codec, src, CompressJobFor(mode, src, fmt, i))
    ensures ret == NeverReturns <==>
      |fmt| >= 256 && |fmt| % 256 != 0 &&
      CompressJobsComplete(mode, src, fmt, eng, codec, |fmt| % 256)
  {
    var threadCount := |fmt|;
    var contexts := InitQpl(eng, threadCount % 256);
    if contexts == [] {
      assert threadCount % 256 == 0 || !InitSucceeds(eng, threadCount % 256);
      assert !CompressSucceeds(mode, src, fmt, eng, codec);
      return Returned(-1), fmt, [];
    }
    var m := |contexts|;
    var table := NoTable;
    if mode == ParallelCanned {
      if !eng.tableBuilds {
        assert !CompressJobsComplete(mode, src, fmt, eng, codec, m);
        assert !CompressSucceeds(mode, src, fmt, eng, codec);
        return Returned(-1), fmt, [];
      }
      table := Built(src);
    }
    jobs := SubmitCompressJobs(mode, src, fmt, table, eng, m);
    if |jobs| < m {
      JobBlocksCompletion(mode, src, fmt, eng, codec, m, |jobs|);
      assert !CompressSucceeds(mode, src, fmt, eng, codec);
      return Returned(-1), fmt, jobs;
    }

    // Wait for every job, then keep the outputs of the completed ones.
    var outcome;
    outcome, fmt' := AwaitCompressJobs(mode, src, fmt, eng, codec, m);
    match outcome
    case JobFailed(f) =>
      JobBlocksCompletion(mode, src, fmt, eng, codec, m, f);
      assert !CompressSucceeds(mode, src, fmt, eng, codec);
      ret := Returned(-1);
    case Spins =>
      assert m != threadCount;
      assert CompressJobsComplete(mode, src, fmt, eng, codec, m);
      assert !CompressSucceeds(mode, src, fmt, eng, codec);
      ret := NeverReturns;
    case AllDone =>
      assert m == threadCount;
      assert CompressJobsComplete(mode, src, fmt, eng, codec, m);
      var rc, _ := FreeQpl(eng, contexts);
      if rc == 0 {
        forall i | 0 <= i < |fmt|
          ensures eng.fini(i) == Ok
        {
          assert contexts[i] == i;
        }
        assert CompressSucceeds(mode, src, fmt, eng, codec);
        ret := Returned(0);
      } else {
        var k :| 0 <= k < m && eng.fini(contexts[k]) != Ok;
        assert contexts[k] == k;
        assert !CompressSucceeds(mode, src, fmt, eng, codec);
        ret := Returned(-1);
      }
  }

  /** Compressing again into the chunks a successful compression resized
      succeeds again with the same outputs, and leaves the chunks as they are:
      each output exactly fills the room its previous run left. */
  lemma RecompressIsStable(mode: CompressionMode, src: seq<byte>,
                           fmt: CompressedFormat, eng: Engine, codec: Codec)
    requires Sum(OriginalSizes(fmt)) <= |src|
    requires CompressSucceeds(mode, src, fmt, eng, codec)
    ensures var outs := CompressOutputs(mode, src, fmt, codec, |fmt|);
      var fmt' := Resized(fmt, outs, AllTrue(|fmt|));
      && OriginalSizes(fmt') == OriginalSizes(fmt)
      && CompressSucceeds(mode, src, fmt', eng, codec)
      && CompressOutputs(mode, src, fmt', codec, |fmt'|) == outs
      && Resized(fmt', outs, AllTrue(|fmt'|)) == fmt'
  {
    var outs := CompressOutputs(mode, src, fmt, codec, |fmt|);
    var fmt' := Resized(fmt, outs, AllTrue(|fmt|));
    assert OriginalSizes(fmt') == OriginalSizes(fmt);
    forall i | 0 <= i < |fmt|
      ensures CompressOutput(codec, src, CompressJobFor(mode, src, fmt', i)) == outs[i]
      ensures CompressJobStatus(mode, src, fmt', eng, codec, i) == Ok
    {
      RecompressJob(mode, src, fmt, fmt', eng, codec, i);
    }
    assert CompressSucceeds(mode, src, fmt', eng, codec);
    assert CompressOutputs(mode, src, fmt', codec, |fmt'|) == outs;
    assert Resized(fmt', outs, AllTrue(|fmt'|)) == fmt';
  }

  /** Job `i` of the second run reads the same slice with the same flags and
      table, so it produces the same output, which fits the resized room. */
  lemma RecompressJob(mode: CompressionMode, src: seq<byte>, fmt: CompressedFormat,
                      fmt': CompressedFormat, eng: Engine, codec: Codec, i: nat)
    requires i < |fmt| && Sum(OriginalSizes(fmt)) <= |src|
    requires OriginalSizes(fmt') == OriginalSizes(fmt)
    requires |fmt'| == |fmt| &&
      fmt'[i].buffer == CompressOutput(codec, src, CompressJobFor(mode, src, fmt, i))
    requires CompressJobStatus(mode, src, fmt, eng, codec, i) == Ok
    ensures CompressOutput(codec, src, CompressJobFor(mode, src, fmt', i)) == fmt'[i].buffer
    ensures CompressJobStatus(mode, src, fmt', eng, codec, i) == Ok
  {
    assert fmt'[i].originalSize == OriginalSizes(fmt')[i] == fmt[i].originalSize;
    var job := CompressJobFor(mode, src, fmt, i);
    assert CompressJobFor(mode, src, fmt', i) == job.(outCapacity := |fmt'[i].buffer|);
  }

  /** The wait loop of compression over the `m` submitted jobs, and the
      resizing of the chunks whose job completed. */
  method AwaitCompressJobs(mode: CompressionMode, src: seq<byte>, fmt: CompressedFormat,
                           eng: Engine, codec: Codec, m: nat)
    returns (outcome: PollOutcome, fmt': CompressedFormat)
    requires 0 < m < 256 && m <= |fmt| && Sum(OriginalSizes(fmt)) <= |src|
    ensures outcome.JobFailed? ==>
      outcome.job < m && CompressJobStatus(mode, src, fmt, eng, codec, outcome.job) != Ok
    ensures !outcome.JobFailed? ==>
      forall i :: 0 <= i < m ==> CompressJobStatus(mode, src, fmt, eng, codec, i) == Ok
    ensures outcome.AllDone? <==> !outcome.JobFailed? && m == |fmt|
    ensures |fmt'| == |fmt|
    ensures forall i :: 0 <= i < |fmt| ==> fmt'[i].originalSize == fmt[i].originalSize
    ensures forall i :: 0 <= i < |fmt| ==>
      fmt'[i] == fmt[i] ||
      (i < m && fmt'[i].buffer == CompressOutput(codec, src, CompressJobFor(mode, src, fmt, i))
       && |fmt'[i].buffer| <= |fmt[i].buffer|)
    ensures !outcome.JobFailed? ==>
      forall i :: 0 <= i < m ==>
        fmt'[i].buffer == CompressOutput(codec, src, CompressJobFor(mode, src, fmt, i))
  {
    var outs := CompressOutputs(mode, src, fmt, codec, m);
    var verdicts := CompressStatuses(mode, src, fmt, eng, codec, m);
    var cmpl;
    outcome, cmpl := Poll(|fmt|, BusySweeps(eng, m), verdicts);
    var done := Completed(cmpl, m);
    assert forall j :: 0 <= j < m && done[j] ==> verdicts[j] == Ok;
    fmt' := Resized(fmt, outs, done);
    if !outcome.JobFailed? {
      assert forall j :: 0 <= j < m ==> done[j];
    }
  }

  function CompressOutputs(mode: CompressionMode, src: seq<byte>, fmt: CompressedFormat,
                           codec: Codec, m: nat): (outs: seq<seq<byte>>)
    requires m <= |fmt| && Sum(OriginalSizes(fmt)) <= |src|
    ensures |outs| == m
    ensures forall j :: 0 <= j < m ==>
      outs[j] == CompressOutput(codec, src, CompressJobFor(mode, src, fmt, j))
  {
    seq(m, j requires 0 <= j < m => CompressOutput(codec, src, CompressJobFor(mode, src, fmt, j)))
  }

  function CompressStatuses(mode: CompressionMode, src: seq<byte>, fmt: CompressedFormat,
                            eng: Engine, codec: Codec, m: nat): (vs: seq<Terminal>)
    requires m <= |fmt| && Sum(OriginalSizes(fmt)) <= |src|
    ensures |vs| == m
    ensures forall j :: 0 <= j < m ==> vs[j] == CompressJobStatus(mode, src, fmt, eng, codec, j)
  {
    seq(m, j requires 0 <= j < m => CompressJobStatus(mode, src, fmt, eng, codec, j))
  }

  /** How many times each of the first `m` jobs answers BEING_PROCESSED. */
  function BusySweeps(eng: Engine, m: nat): (busy: seq<nat>)
    ensures |busy| == m && forall j :: 0 <= j < m ==> busy[j] == eng.busySweeps(j)
  {
    if m == 0 then [] else BusySweeps(eng, m - 1) + [eng.busySweeps(m - 1)]
  }

  /** Which of the first `m` entries of the completion vector are set. */
  function Completed(cmpl: seq<nat>, m: nat): (done: seq<bool>)
    requires m <= |cmpl|
    ensures |done| == m && forall j :: 0 <= j < m ==> (done[j] <==> cmpl[j] == 1)
  {
    seq(m, j requires 0 <= j < m => cmpl[j] == 1)
  }

  /** A refused submission or a failed job among the first `m` rules out completion. */
  lemma JobBlocksCompletion(mode: CompressionMode, src: seq<byte>, fmt: CompressedFormat,
                            eng: Engine, codec: Codec, m: nat, i: nat)
    requires i < m <= |fmt| && Sum(OriginalSizes(fmt)) <= |src|
    requires eng.submit(i) != Ok || CompressJobStatus(mode, src, fmt, eng, codec, i) != Ok
    ensures !CompressJobsComplete(mode, src, fmt, eng, codec, m)
  {
  }

  // ---------------------------------------------------------------------------
  // Decompression and reassembly

  /** `dst` with the output of each done chunk `i` written at the sum of the
      original lengths before it. */
  function Reassemble(dst: seq<byte>, lens: seq<nat>, outs: seq<seq<byte>>, done: seq<bool>)
    : (r: seq<byte>)
    requires |outs| == |done| <= |lens|
    requires Sum(lens) <= |dst|
    requires forall i :: 0 <= i < |outs| && done[i] ==> |outs[i]| <= lens[i]
    ensures |r| == |dst|
    decreases |outs|
  {
    if |outs| == 0 then dst
    else
      var k := |outs| - 1;
      var prev := Reassemble(dst, lens, outs[..k], done[..k]);
      OffsetStep(lens, k);
      if done[k] then Overwrite(prev, Offset(lens, k), outs[k]) else prev
  }

  /** `outs[i]` is the `i`-th slice of `src` when `src` is cut into pieces of
      the lengths `lens`. */
  ghost predicate SlicesOf(src: seq<byte>, lens: seq<nat>, outs: seq<seq<byte>>)
    requires |outs| <= |lens|
  {
    forall i :: 0 <= i < |outs| ==>
      Offset(lens, i) + lens[i] <= |src| &&
      outs[i] == src[Offset(lens, i)..Offset(lens, i) + lens[i]]
  }

  /** Writing the first `k` chunks, each the matching slice of `src`, makes the
      buffer agree with `src` up to the next offset and leaves the rest untouched. */
  lemma {:induction false} ReassemblePrefix(src: seq<byte>, dst: seq<byte>, lens: seq<nat>,
                                            outs: seq<seq<byte>>, done: seq<bool>)
    requires |outs| == |done| <= |lens|
    requires Sum(lens) == |src| == |dst|
    requires forall i :: 0 <= i < |outs| ==> done[i] && |outs[i]| == lens[i]
    requires SlicesOf(src, lens, outs)
    ensures Offset(lens, |outs|) <= |src|
    ensures Reassemble(dst, lens, outs, done)[..Offset(lens, |outs|)] == src[..Offset(lens, |outs|)]
    ensures Reassemble(dst, lens, outs, done)[Offset(lens, |outs|)..] == dst[Offset(lens, |outs|)..]
    decreases |outs|
  {
    if |outs| == 0 {
      assert lens[..0] == [];
    } else {
      var k := |outs| - 1;
      OffsetStep(lens, k);
      assert SlicesOf(src, lens, outs[..k]);
      ReassemblePrefix(src, dst, lens, outs[..k], done[..k]);
      var prev := Reassemble(dst, lens, outs[..k], done[..k]);
      var at := Offset(lens, k);
      assert Reassemble(dst, lens, outs, done) == Overwrite(prev, at, outs[k]);
      OverwriteExtends(src, prev, at, outs[k]);
      assert prev[at + lens[k]..] == prev[at..][lens[k]..];
      assert dst[at + lens[k]..] == dst[at..][lens[k]..];
    }
  }

  /** Writing the next slice of `src` over a buffer that already agrees with
      `src` before it extends the agreement past the slice. */
  lemma OverwriteExtends(src: seq<byte>, prev: seq<byte>, at: nat, data: seq<byte>)
    requires at + |data| <= |src| == |prev|
    requires data == src[at..at + |data|] && prev[..at] == src[..at]
    ensures Overwrite(prev, at, data)[..at + |data|] == src[..at + |data|]
    ensures Overwrite(prev, at, data)[at + |data|..] == prev[at + |data|..]
  {
    var r := Overwrite(prev, at, data);
    assert r[..at + |data|] == r[..at] + r[at..at + |data|];
    assert src[..at + |data|] == src[..at] + src[at..at + |data|];
  }

  /** Reassembly is a round trip: when every chunk decompresses to its slice of
      the source and the slices cover the source, the destination becomes the
      source, whatever it held before. */
  lemma ReassembleRoundTrip(src: seq<byte>, dst: seq<byte>, lens: seq<nat>,
                            outs: seq<seq<byte>>, done: seq<bool>)
    requires |outs| == |done| == |lens|
    requires Sum(lens) == |src| == |dst|
    requires forall i :: 0 <= i < |outs| ==> done[i] && |outs[i]| == lens[i]
    requires SlicesOf(src, lens, outs)
    ensures Reassemble(dst, lens, outs, done) == src
  {
    ReassemblePrefix(src, dst, lens, outs, done);
    OffsetAll(lens);
  }

  datatype DecompressJob = DecompressJob(
    input: seq<byte>, outStart: nat, outCapacity: nat, flags: set<Flag>)

  /** The job the dispatcher configures to decompress chunk `i`. */
  function DecompressJobFor(fmt: CompressedFormat, i: nat): DecompressJob
    requires i < |fmt|
  {
    DecompressJob(fmt[i].buffer, Offset(OriginalSizes(fmt), i), fmt[i].originalSize, {First, Last})
  }

  /** The decompress jobs write consecutive, non-overlapping regions of the
      destination, each exactly as large as its chunk's original length: the
      first at 0, each where the previous one ends, the last ending at the
      total of the original lengths. */
  lemma DecompressRegionsTile(fmt: CompressedFormat)
    ensures |fmt| > 0 ==> DecompressJobFor(fmt, 0).outStart == 0
    ensures forall i :: 0 <= i < |fmt| - 1 ==>
      DecompressJobFor(fmt, i).outStart + DecompressJobFor(fmt, i).outCapacity
        == DecompressJobFor(fmt, i + 1).outStart
    ensures forall i :: 0 <= i < |fmt| ==>
      DecompressJobFor(fmt, i).outStart + DecompressJobFor(fmt, i).outCapacity
        <= Sum(OriginalSizes(fmt))
    ensures |fmt| > 0 ==>
      DecompressJobFor(fmt, |fmt| - 1).outStart + fmt[|fmt| - 1].originalSize
        == Sum(OriginalSizes(fmt))
  {
    var lens := OriginalSizes(fmt);
    forall i | 0 <= i < |fmt|
      ensures DecompressJobFor(fmt, i).outStart + DecompressJobFor(fmt, i).outCapacity
              == Offset(lens, i + 1) <= Sum(lens)
    {
      OffsetStep(lens, i);
    }
    if |fmt| > 0 {
      assert lens[..0] == [];
      OffsetAll(lens);
      assert lens[..|fmt|] == lens;
    }
  }

  function Inflated(fmt: CompressedFormat, codec: Codec): (outs: seq<seq<byte>>)
    ensures |outs| == |fmt|
    ensures forall i :: 0 <= i < |fmt| ==> outs[i] == codec.inflate(fmt[i].buffer)
  {
    seq(|fmt|, i requires 0 <= i < |fmt| => codec.inflate(fmt[i].buffer))
  }

  function AllTrue(n: nat): (done: seq<bool>)
    ensures |done| == n && forall i :: 0 <= i < n ==> done[i]
  {
    seq(n, _ => true)
  }

  function Sizes(outs: seq<seq<byte>>): (sizes: seq<nat>)
    ensures |sizes| == |outs| && forall i :: 0 <= i < |outs| ==> sizes[i] == |outs[i]|
  {
    seq(|outs|, i requires 0 <= i < |outs| => |outs[i]|)
  }

  /** What the engine reports for the job decompressing chunk `i`, whose
      output room is the chunk's original length. */
  function DecompressJobStatus(fmt: CompressedFormat, eng: Engine, codec: Codec, i: nat): Terminal
    requires i < |fmt|
  {
    JobStatus(eng.verdict(i), codec.inflate(fmt[i].buffer), fmt[i].originalSize)
  }

  /** The first `m` contexts come up and the first `m` jobs are submitted and
      finish with OK. */
  predicate DecompressJobsComplete(fmt: CompressedFormat, eng: Engine, codec: Codec, m: nat)
    requires m <= |fmt|
  {
    && InitSucceeds(eng, m)
    && forall i :: 0 <= i < m ==>
         eng.submit(i) == Ok && DecompressJobStatus(fmt, eng, codec, i) == Ok
  }

  predicate DecompressSucceeds(fmt: CompressedFormat, eng: Engine, codec: Codec)
  {
    0 < |fmt| < 256 && DecompressJobsComplete(fmt, eng, codec, |fmt|)
  }

  /** The submission loop of decompression: the output pointer advances by
      each chunk's original length; it stops at the first refused submission. */
  method SubmitDecompressJobs(fmt: CompressedFormat, eng: Engine, m: nat)
    returns (jobs: seq<DecompressJob>)
    requires m <= |fmt|
    ensures |jobs| <= m
    ensures forall j :: 0 <= j < |jobs| ==> jobs[j] == DecompressJobFor(fmt, j) && eng.submit(j) == Ok
    ensures |jobs| < m ==> eng.submit(|jobs|) != Ok
  {
    var lens := OriginalSizes(fmt);
    jobs := [];
    var dstOffset := 0;
    var chunk := 0;
    while chunk < m
      invariant chunk <= m
      invariant dstOffset == Offset(lens, chunk)
      invariant |jobs| == chunk
      invariant forall j :: 0 <= j < chunk ==> jobs[j] == DecompressJobFor(fmt, j) && eng.submit(j) == Ok
    {
      var job := DecompressJob(fmt[chunk].buffer, dstOffset, fmt[chunk].originalSize, {First, Last});
      if eng.submit(chunk) != Ok {
        return;
      }
      OffsetStep(lens, chunk);
      jobs := jobs + [job];
      dstOffset := dstOffset + fmt[chunk].originalSize;
      chunk := chunk + 1;
    }
  }

  /** Decompresses every chunk into `dst` at the running sum of original lengths,
      each with room for exactly its original length. The reported size is the
      sum of the jobs' `total_out` in `size_t` and is written only on success.
      The contexts are never finalized. */
  method Decompress(fmt: CompressedFormat, dst: seq<byte>, actualSize: nat, eng: Engine, codec: Codec)
    returns (ret: Ret, dst': seq<byte>, actualSize': nat, jobs: seq<DecompressJob>)
    requires Sum(OriginalSizes(fmt)) <= |dst|
    ensures ret.Returned? ==> ret.code == 0 || ret.code == -1
    ensures |fmt| % 256 == 0 ==> ret == Returned(-1) && dst' == dst
    ensures |dst'| == |dst|
    ensures ret != Returned(0) ==> actualSize' == actualSize
    ensures |jobs| <= |fmt| % 256
    ensures forall i :: 0 <= i < |jobs| ==> jobs[i] == DecompressJobFor(fmt, i)
    ensures ret == Returned(0) <==> DecompressSucceeds(fmt, eng, codec)
    ensures ret == Returned(0) ==>
      && |jobs| == |fmt|
      && (forall i :: 0 <= i < |fmt| ==> |codec.inflate(fmt[i].buffer)| <= fmt[i].originalSize)
      && Sum(Sizes(Inflated(fmt, codec))) <= Sum(OriginalSizes(fmt))
      && actualSize' == Wrap64(Sum(Sizes(Inflated(fmt, codec))))
      && dst' == Reassemble(dst, OriginalSizes(fmt), Inflated(fmt, codec), AllTrue(|fmt|))
    ensures ret == NeverReturns <==>
      |fmt| >= 256 && |fmt| % 256 != 0 && DecompressJobsComplete(fmt, eng, codec, |fmt| % 256)
  {
    var threadCount := |fmt|;
    dst' := dst;
    actualSize' := actualSize;
    var contexts := InitQpl(eng, threadCount % 256);
    if contexts == [] {
      return Returned(-1), dst, actualSize, [];
    }
    var m := |contexts|;
    jobs := SubmitDecompressJobs(fmt, eng, m);
    if |jobs| < m {
      ret := Returned(-1);
      return;
    }

    // Wait for every job; completed jobs have written their region of dst.
    var outcome;
    outcome, dst' := AwaitDecompressJobs(fmt, dst, eng, codec, m);
    match outcome
    case JobFailed(f) =>
      assert !DecompressSucceeds(fmt, eng, codec);
      ret := Returned(-1);
    case Spins =>
      assert m != threadCount;
      ret := NeverReturns;
    case AllDone =>
      SumMono(Sizes(Inflated(fmt, codec)), OriginalSizes(fmt));
      actualSize' := Wrap64(Sum(Sizes(Inflated(fmt, codec))));
      ret := Returned(0);
  }

  /** The wait loop of decompression over the `m` submitted jobs: every job
      that completed has written its output at its offset of `dst`. */
  method AwaitDecompressJobs(fmt: CompressedFormat, dst: seq<byte>, eng: Engine, codec: Codec, m: nat)
    returns (outcome: PollOutcome, dst': seq<byte>)
    requires 0 < m < 256 && m <= |fmt| && Sum(OriginalSizes(fmt)) <= |dst|
    ensures |dst'| == |dst|
    ensures outcome.JobFailed? ==>
      outcome.job < m &&
      DecompressJobStatus(fmt, eng, codec, outcome.job) != Ok
    ensures !outcome.JobFailed? ==>
      forall i :: 0 <= i < m ==>
        DecompressJobStatus(fmt, eng, codec, i) == Ok
    ensures outcome.AllDone? <==> !outcome.JobFailed? && m == |fmt|
    ensures outcome.AllDone? ==>
      && (forall i :: 0 <= i < |fmt| ==> |codec.inflate(fmt[i].buffer)| <= fmt[i].originalSize)
      && dst' == Reassemble(dst, OriginalSizes(fmt), Inflated(fmt, codec), AllTrue(|fmt|))
  {
    var lens := OriginalSizes(fmt);
    var outs := seq(m, j requires 0 <= j < m => codec.inflate(fmt[j].buffer));
    var verdicts := seq(m, j requires 0 <= j < m => DecompressJobStatus(fmt, eng, codec, j));
    var cmpl;
    outcome, cmpl := Poll(|fmt|, BusySweeps(eng, m), verdicts);
    if !outcome.JobFailed? {
      forall i | 0 <= i < m
        ensures DecompressJobStatus(fmt, eng, codec, i) == Ok
      {
        assert verdicts[i] == Ok;
      }
    }
    var done := Completed(cmpl, m);
    assert forall j :: 0 <= j < m && done[j] ==> verdicts[j] == Ok;
    dst' := Reassemble(dst, lens, outs, done);
    if outcome.AllDone? {
      assert outs == Inflated(fmt, codec);
      assert done == AllTrue(|fmt|);
    }
  }
}
