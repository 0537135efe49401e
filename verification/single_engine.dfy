/** What the single-engine compressors share: one QPL job driven through a
    sequence of synchronous executions, and the loop that streams a source
    through it in fixed-size slices, FIRST on the first slice and LAST on the
    slice that takes the rest. */
module SingleEngine {
  import opened Common

  /** What one `qpl_execute_job` call is given: the input slice, the flags and
      the Huffman table. `outCapacity` is the output room the program sets
      once, before the first execution; QPL consumes it as the job writes,
      which the model does not follow. */
  datatype Execution = Execution(
    inStart: nat, inLen: nat, outCapacity: nat, flags: set<Flag>, table: Table)

  /** What one execution reports: its status and the job's running `total_out`. */
  datatype ExecResult = ExecResult(status: Terminal, totalOut: nat)

  /** What the QPL library answers for the single job of one call: the job size
      query, initialization, finalization, the canned table build, and the
      result of the `k`-th execution. */
  datatype JobEngine = JobEngine(
    jobSize: Status, init: Status, fini: Status, tableBuilds: bool,
    exec: nat -> ExecResult)

  /** `init_qpl` hands out a job exactly when the size query and the
      initialization both succeed. */
  predicate JobReady(eng: JobEngine)
  {
    eng.jobSize == Ok && eng.init == Ok
  }

  /** Output room of compression: `src_size - 1` in `size_t`, which wraps to
      the largest `size_t` for an empty source. */
  function OutputCapacity(srcSize: nat): (cap: nat)
    requires srcSize < SIZE_T_LIMIT
    ensures srcSize > 0 ==> cap + 1 == srcSize
    ensures srcSize == 0 ==> cap == SIZE_MAX
  {
    Wrap64(srcSize - 1)
  }

  /** All of the first `k` executions succeed. */
  predicate ExecutionsOk(eng: JobEngine, k: nat)
  {
    forall j :: 0 <= j < k ==> eng.exec(j).status == Ok
  }

  /** The job's `total_out` after `k` executions (0 before any). */
  function TotalAfter(eng: JobEngine, k: nat): nat
  {
    if k == 0 then 0 else eng.exec(k - 1).totalOut
  }

  /** The `k`-th execution, when it succeeds, appends exactly `output` to what
      the job has written: its `total_out` grows by the length of `output`. */
  predicate Produces(eng: JobEngine, k: nat, output: seq<byte>)
  {
    eng.exec(k).status == Ok ==> eng.exec(k).totalOut == TotalAfter(eng, k) + |output|
  }

  // ---------------------------------------------------------------------------
  // Slicing

  /** Number of slices of a `n`-byte source cut into `c`-byte slices: the
      ceiling of `n / c`. */
  function SliceCount(n: nat, c: nat): nat
    requires c > 0
  {
    (n + c - 1) / c
  }

  lemma CountBounds(n: nat, c: nat)
    requires c > 0
    ensures n == 0 <==> SliceCount(n, c) == 0
    ensures n > 0 ==> (SliceCount(n, c) - 1) * c < n <= SliceCount(n, c) * c
  {
    var q := SliceCount(n, c);
    var r := (n + c - 1) % c;
    assert n + c - 1 == q * c + r;
    if n > 0 {
      assert (q - 1) * c == q * c - c;
    }
  }

  lemma MulMono(a: nat, b: nat, c: nat)
    requires a <= b
    ensures a * c <= b * c
  {
  }

  /** Slice `k` starts below the end of the source. */
  lemma SliceStartsInside(n: nat, c: nat, k: nat)
    requires c > 0 && k < SliceCount(n, c)
    ensures k * c < n
  {
    CountBounds(n, c);
    MulMono(k, SliceCount(n, c) - 1, c);
  }

  /** Length of slice `k`: the bytes left, when they fit in a slice, else a
      whole slice. */
  function SliceLength(n: nat, c: nat, k: nat): nat
    requires c > 0 && k < SliceCount(n, c)
  {
    SliceStartsInside(n, c, k);
    var left := n - k * c;
    if c >= left then left else c
  }

  /** Whether slice `k` is the one that takes the rest of the source. */
  predicate TakesRest(n: nat, c: nat, k: nat)
    requires c > 0 && k < SliceCount(n, c)
  {
    SliceStartsInside(n, c, k);
    c >= n - k * c
  }

  /** Only the final slice takes the rest. */
  lemma TakesRestOnlyLast(n: nat, c: nat, k: nat)
    requires c > 0 && k < SliceCount(n, c)
    ensures TakesRest(n, c, k) <==> k == SliceCount(n, c) - 1
  {
    CountBounds(n, c);
    assert (k + 1) * c == k * c + c;
    if k < SliceCount(n, c) - 1 {
      MulMono(k + 1, SliceCount(n, c) - 1, c);
    }
  }

  /** Flags of execution `k`: the job's initial flags, FIRST cleared after the
      first execution, LAST added on the execution that takes the rest. */
  function SliceFlags(base: set<Flag>, n: nat, c: nat, k: nat): set<Flag>
    requires c > 0 && k < SliceCount(n, c)
  {
    var flags := if k == 0 then base else base - {First};
    if TakesRest(n, c, k) then flags + {Last} else flags
  }

  /** The executions of a source streamed in `c`-byte slices, in order. */
  function Sliced(base: set<Flag>, table: Table, src: seq<byte>, c: nat): (plan: seq<Execution>)
    requires c > 0 && |src| < SIZE_T_LIMIT
    ensures |plan| == SliceCount(|src|, c)
  {
    var n := |src|;
    seq(SliceCount(n, c), k requires 0 <= k < SliceCount(n, c) =>
          Execution(k * c, SliceLength(n, c, k), OutputCapacity(n),
                    SliceFlags(base, n, c, k), table))
  }

  function InputLengths(plan: seq<Execution>): (lens: seq<nat>)
    ensures |lens| == |plan| && forall k :: 0 <= k < |plan| ==> lens[k] == plan[k].inLen
  {
    seq(|plan|, k requires 0 <= k < |plan| => plan[k].inLen)
  }

  /** The slices tile the source: slice `k` starts at `k * c`, every slice but
      the final one is `c` long, the final one is non-empty and at most `c`
      long, and the lengths add up to the source size. */
  lemma {:induction false} SlicesTile(base: set<Flag>, table: Table, src: seq<byte>, c: nat)
    requires c > 0 && |src| < SIZE_T_LIMIT
    ensures var plan := Sliced(base, table, src, c);
      && (|plan| == 0 <==> |src| == 0)
      && (forall k :: 0 <= k < |plan| ==> plan[k].inStart == k * c)
      && (forall k :: 0 <= k < |plan| - 1 ==> plan[k].inLen == c)
      && (|plan| > 0 ==> 0 < plan[|plan| - 1].inLen <= c)
      && Sum(InputLengths(plan)) == |src|
  {
    var n := |src|;
    var plan := Sliced(base, table, src, c);
    var count := |plan|;
    CountBounds(n, c);
    forall k | 0 <= k < count
      ensures plan[k].inLen == (if k == count - 1 then n - k * c else c)
    {
      TakesRestOnlyLast(n, c, k);
    }
    if count > 0 {
      var lens := InputLengths(plan);
      var init := lens[..count - 1];
      SumRepeat(init, c);
      assert lens == init + [lens[count - 1]];
      SumSnoc(init, lens[count - 1]);
    } else {
      assert InputLengths(plan) == [];
    }
  }

  /** The flags of the stream: FIRST exactly on the first execution, LAST
      exactly on the final one, every other flag as the job started with. */
  lemma SliceFlagsSchedule(base: set<Flag>, table: Table, src: seq<byte>, c: nat, k: nat)
    requires c > 0 && |src| < SIZE_T_LIMIT && k < SliceCount(|src|, c)
    requires First in base && Last !in base
    ensures var e := Sliced(base, table, src, c)[k];
      && (First in e.flags <==> k == 0)
      && (Last in e.flags <==> k == SliceCount(|src|, c) - 1)
      && (forall f :: f != First && f != Last ==> (f in e.flags <==> f in base))
      && e.table == table
  {
    TakesRestOnlyLast(|src|, c, k);
  }

  /** The slice loop: executes the slices in order and stops at the first
      failed execution (`ok` false, the failed execution last). */
  method ExecuteSlices(base: set<Flag>, table: Table, src: seq<byte>, chunkSize: nat, eng: JobEngine)
    returns (ok: bool, execs: seq<Execution>)
    requires chunkSize > 0 && |src| < SIZE_T_LIMIT
    ensures |execs| <= SliceCount(|src|, chunkSize)
    ensures execs == Sliced(base, table, src, chunkSize)[..|execs|]
    ensures ok <==> ExecutionsOk(eng, SliceCount(|src|, chunkSize))
    ensures ok ==> |execs| == SliceCount(|src|, chunkSize)
    ensures !ok ==> |execs| > 0 && ExecutionsOk(eng, |execs| - 1) && eng.exec(|execs| - 1).status != Ok
  {
    var n := |src|;
    var plan := Sliced(base, table, src, chunkSize);
    var count := SliceCount(n, chunkSize);
    CountBounds(n, chunkSize);
    var flags := base;
    var c := chunkSize;
    var srcBytesLeft := n;
    var itCnt := 0;
    execs := [];
    while srcBytesLeft > 0
      invariant itCnt <= count
      invariant c == chunkSize
      invariant srcBytesLeft > 0 <==> itCnt < count
      invariant itCnt < count ==> itCnt * chunkSize < n && srcBytesLeft == n - itCnt * chunkSize
      invariant flags == if itCnt == 0 then base else base - {First}
      invariant execs == plan[..itCnt]
      invariant ExecutionsOk(eng, itCnt)
      decreases count - itCnt
    {
      var inStart := itCnt * chunkSize;
      TakesRestOnlyLast(n, chunkSize, itCnt);
      var execFlags := flags;
      var len := c;
      if c >= srcBytesLeft {
        execFlags := execFlags + {Last};
        len := srcBytesLeft;
      }
      var e := Execution(inStart, len, OutputCapacity(n), execFlags, table);
      assert e == plan[itCnt];
      execs := execs + [e];
      if eng.exec(itCnt).status != Ok {
        assert !ExecutionsOk(eng, count);
        return false, execs;
      }
      srcBytesLeft := srcBytesLeft - len;
      flags := flags - {First};
      itCnt := itCnt + 1;
      if itCnt < count {
        MulMono(itCnt, count - 1, chunkSize);
        assert itCnt * chunkSize == (itCnt - 1) * chunkSize + chunkSize;
      }
    }
    assert plan[..count] == plan;
    return true, execs;
  }
}
