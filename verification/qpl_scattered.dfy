/** The scattered single-engine compressor: the source is streamed through one
    job in 64 KiB slices forming one connected DEFLATE stream, and the size of
    each slice's compressed output is recorded so that decompression can feed
    the stream back piece by piece. Only the connected mode is modelled: the
    switch selecting it is set and never cleared. */
module QplScattered {
  import opened Common
  import opened SingleEngine

  /** Slice length of the scattered compressor: 64 KiB. */
  const PAGE_SIZE: nat := 64 * 1024

  /** Flags the compression job starts with. */
  const COMPRESS_FLAGS: set<Flag> := {First, OmitVerify}

  // ---------------------------------------------------------------------------
  // Recorded output sizes

  /** The job's `total_out` after each of the first `k` executions. */
  function Totals(eng: JobEngine, k: nat): (totals: seq<nat>)
    ensures |totals| == k && forall j :: 0 <= j < k ==> totals[j] == eng.exec(j).totalOut
  {
    if k == 0 then [] else Totals(eng, k - 1) + [eng.exec(k - 1).totalOut]
  }

  /** `total_out` only grows along a stream. */
  predicate Nondecreasing(totals: seq<nat>)
  {
    forall i, j :: 0 <= i < j < |totals| ==> totals[i] <= totals[j]
  }

  /** How much `total_out` grew during execution `k`, in `size_t`. */
  function Delta(totals: seq<nat>, k: nat): nat
    requires k < |totals|
  {
    Wrap64(totals[k] as int - (if k == 0 then 0 else totals[k - 1]))
  }

  /** The output size of each slice. */
  function Deltas(totals: seq<nat>): (d: seq<nat>)
    ensures |d| == |totals|
    ensures forall k :: 0 <= k < |totals| ==> d[k] == Delta(totals, k)
  {
    seq(|totals|, k requires 0 <= k < |totals| => Delta(totals, k))
  }

  /** The sizes as the compressor records them: the current `total_out` minus
      the previously recorded entry (not the previous `total_out`). */
  function RecordedAsWritten(totals: seq<nat>): (r: seq<nat>)
    ensures |r| == |totals|
    decreases |totals|
  {
    if |totals| == 0 then []
    else
      var prev := RecordedAsWritten(totals[..|totals| - 1]);
      prev + [Wrap64(totals[|totals| - 1] as int - (if |prev| == 0 then 0 else prev[|prev| - 1]))]
  }

  /** With three slices whose running totals are 10, 15 and 20 bytes, the
      recorded sizes are 10, 5 and 15: they add up to 30, not to the 20
      compressed bytes, whereas the output deltas 10, 5, 5 do. */
  lemma RecordedAsWrittenDrifts()
    ensures RecordedAsWritten([10, 15, 20]) == [10, 5, 15]
    ensures Sum(RecordedAsWritten([10, 15, 20])) == 30
    ensures Deltas([10, 15, 20]) == [10, 5, 5]
    ensures Sum(Deltas([10, 15, 20])) == 20
  {
    var t: seq<nat> := [10, 15, 20];
    assert t[..2] == [10, 15];
    assert t[..2][..1] == [10];
    assert [10][..0] == [];
    assert RecordedAsWritten([10]) == [10];
    assert RecordedAsWritten([10, 15]) == [10, 5];
    assert Deltas(t) == [10, 5, 5];
    assert [10, 5, 15][..2] == [10, 5] && [10, 5][..1] == [10];
    assert [10, 5, 5][..2] == [10, 5];
  }

  /** The deltas of a growing stream are its slices' output sizes: the first
      `k + 1` of them add up to the total after execution `k`. */
  lemma {:induction false} DeltasPrefix(totals: seq<nat>, k: nat)
    requires k < |totals| && Nondecreasing(totals)
    requires forall i :: 0 <= i < |totals| ==> totals[i] < SIZE_T_LIMIT
    ensures Sum(Deltas(totals)[..k + 1]) == totals[k]
  {
    var d := Deltas(totals);
    assert d[..k + 1] == d[..k] + [d[k]];
    SumSnoc(d[..k], d[k]);
    if k == 0 {
      assert d[..0] == [];
      assert d[0] == totals[0];
    } else {
      DeltasPrefix(totals, k - 1);
      assert d[..k] == d[..k - 1 + 1];
      assert totals[k - 1] <= totals[k];
      assert d[k] == totals[k] - totals[k - 1];
    }
  }

  /** So the recorded sizes add up to the final total, which is what the
      compressor reports as the compressed size. */
  lemma DeltasAddUp(totals: seq<nat>)
    requires |totals| > 0 && Nondecreasing(totals)
    requires forall i :: 0 <= i < |totals| ==> totals[i] < SIZE_T_LIMIT
    ensures Sum(Deltas(totals)) == totals[|totals| - 1]
  {
    DeltasPrefix(totals, |totals| - 1);
    assert Deltas(totals)[..|totals|] == Deltas(totals);
  }

  // ---------------------------------------------------------------------------
  // compress

  /** Compresses `src` as one connected stream of 64 KiB slices. One size is
      appended to `dstSizes` per successful execution, before any later
      failure, by the recurrence as the compressor writes it; `dstSize` is
      written with the final `total_out` once every execution has succeeded,
      and a failing finalization still returns -1 after that write. */
  method Compress(src: seq<byte>, dstSize: nat, dstSizes: seq<nat>, eng: JobEngine)
    returns (ret: Ret, dstSize': nat, dstSizes': seq<nat>, execs: seq<Execution>)
    requires |src| < SIZE_T_LIMIT
    ensures ret == Returned(0) || ret == Returned(-1)
    ensures !JobReady(eng) ==> dstSize' == dstSize && dstSizes' == dstSizes && execs == []
    ensures JobReady(eng) ==>
      var count := SliceCount(|src|, PAGE_SIZE);
      && |execs| <= count
      && execs == Sliced(COMPRESS_FLAGS, NoTable, src, PAGE_SIZE)[..|execs|]
      && (ret == Returned(0) <==> ExecutionsOk(eng, count) && eng.fini == Ok)
      && dstSize' == (if ExecutionsOk(eng, count) then TotalAfter(eng, count) else dstSize)
      && (ExecutionsOk(eng, count) ==>
            |execs| == count && dstSizes' == dstSizes + RecordedAsWritten(Totals(eng, count)))
      && (!ExecutionsOk(eng, count) ==>
            0 < |execs| && ExecutionsOk(eng, |execs| - 1) && eng.exec(|execs| - 1).status != Ok &&
            dstSizes' == dstSizes + RecordedAsWritten(Totals(eng, |execs| - 1)))
    ensures ret == Returned(0) ==> JobReady(eng)
  {
    if !JobReady(eng) {
      return Returned(-1), dstSize, dstSizes, [];
    }
    var ok;
    ok, execs := ExecuteSlices(COMPRESS_FLAGS, NoTable, src, PAGE_SIZE, eng);
    var succeeded := if ok then |execs| else |execs| - 1;
    dstSizes' := dstSizes + RecordedAsWritten(Totals(eng, succeeded));
    if !ok {
      return Returned(-1), dstSize, dstSizes', execs;
    }
    dstSize' := TotalAfter(eng, |execs|);
    if eng.fini != Ok {
      return Returned(-1), dstSize', dstSizes', execs;
    }
    ret := Returned(0);
  }

  /** With the recurrence corrected to the output deltas, a successful
      compression of a growing stream would record sizes that add up to the
      compressed size it reports. */
  lemma CompressedSizesAddUp(src: seq<byte>, eng: JobEngine)
    requires |src| > 0
    requires var totals := Totals(eng, SliceCount(|src|, PAGE_SIZE));
      Nondecreasing(totals) && forall i :: 0 <= i < |totals| ==> totals[i] < SIZE_T_LIMIT
    ensures var count := SliceCount(|src|, PAGE_SIZE);
      Sum(Deltas(Totals(eng, count))) == TotalAfter(eng, count)
  {
    var count := SliceCount(|src|, PAGE_SIZE);
    CountBounds(|src|, PAGE_SIZE);
    DeltasAddUp(Totals(eng, count));
  }

  // ---------------------------------------------------------------------------
  // decompress

  /** What one decompression execution is given: where it reads, how much,
      where it writes, and its flags. */
  datatype Step = Step(inStart: nat, inLen: nat, outStart: nat, flags: set<Flag>)

  /** Flags of decompression step `k` of `n`: OMIT_VERIFY always, FIRST on the
      first step, LAST on the final step. */
  function StepFlags(n: nat, k: nat): set<Flag>
  {
    {OmitVerify} + (if k == 0 then {First} else {}) + (if k == n - 1 then {Last} else {})
  }

  /** The flags as the decompressor sets them: the step counter it compares
      with `n - 1` is never advanced, so LAST is set only when there is one step. */
  function StepFlagsAsWritten(n: nat, k: nat): set<Flag>
  {
    {OmitVerify} + (if k == 0 then {First} else {}) + (if n == 1 then {Last} else {})
  }

  /** With two recorded sizes the final step goes out without LAST, so the
      stream is never declared finished. */
  lemma StepFlagsAsWrittenMissLast()
    ensures Last !in StepFlagsAsWritten(2, 1)
    ensures Last in StepFlags(2, 1)
  {
  }

  /** Exactly one step carries LAST, the final one, and exactly one FIRST,
      the first one. */
  lemma StepFlagsFrameStream(n: nat, k: nat)
    requires k < n
    ensures Last in StepFlags(n, k) <==> k == n - 1
    ensures First in StepFlags(n, k) <==> k == 0
    ensures OmitVerify in StepFlags(n, k)
  {
  }

  /** Step `k` of the walk over `srcSizes`: it reads `srcSizes[k]` bytes at the
      sum of the earlier sizes (in `size_t`), writes where the output of the
      earlier steps ends, and carries the flags as the decompressor sets them. */
  function Walk(srcSizes: seq<nat>, eng: JobEngine): (steps: seq<Step>)
    ensures |steps| == |srcSizes|
  {
    seq(|srcSizes|, k requires 0 <= k < |srcSizes| =>
          Step(Wrap64(Offset(srcSizes, k)), srcSizes[k], TotalAfter(eng, k),
               StepFlagsAsWritten(|srcSizes|, k)))
  }

  /** Decompresses the pieces listed in `srcSizes` as one connected stream. The
      actual size is written with the final `total_out` once every step has
      succeeded; a failing finalization still returns -1 after that write. */
  method Decompress(srcSizes: seq<nat>, actualSize: nat, eng: JobEngine)
    returns (ret: Ret, actualSize': nat, steps: seq<Step>)
    ensures ret == Returned(0) || ret == Returned(-1)
    ensures !JobReady(eng) ==> ret == Returned(-1) && actualSize' == actualSize && steps == []
    ensures JobReady(eng) ==>
      && |steps| <= |srcSizes|
      && steps == Walk(srcSizes, eng)[..|steps|]
      && (ExecutionsOk(eng, |srcSizes|) ==> |steps| == |srcSizes|)
      && (ret == Returned(0) <==> ExecutionsOk(eng, |srcSizes|) && eng.fini == Ok)
      && actualSize' ==
           (if ExecutionsOk(eng, |srcSizes|) then TotalAfter(eng, |srcSizes|) else actualSize)
      && (!ExecutionsOk(eng, |srcSizes|) ==>
            0 < |steps| && ExecutionsOk(eng, |steps| - 1) && eng.exec(|steps| - 1).status != Ok)
  {
    if !JobReady(eng) {
      return Returned(-1), actualSize, [];
    }
    var walk := Walk(srcSizes, eng);
    var offset := 0;
    var sizeOut := 0;
    var flags := {OmitVerify, First};
    steps := [];
    var itCnt := 0;
    var k := 0;
    while k < |srcSizes|
      invariant k <= |srcSizes|
      invariant offset == Wrap64(Offset(srcSizes, k))
      invariant sizeOut == TotalAfter(eng, k)
      invariant flags == if k == 0 then {OmitVerify, First} else {OmitVerify}
      invariant steps == walk[..k]
      invariant ExecutionsOk(eng, k)
    {
      var curSize := srcSizes[k];
      // The counter compared with the last index stays 0.
      var stepFlags := if itCnt == |srcSizes| - 1 then flags + {Last} else flags;
      assert stepFlags == StepFlagsAsWritten(|srcSizes|, k);
      assert Step(offset, curSize, sizeOut, stepFlags) == walk[k];
      steps := steps + [Step(offset, curSize, sizeOut, stepFlags)];
      var r := eng.exec(k);
      if r.status != Ok {
        assert !ExecutionsOk(eng, |srcSizes|);
        return Returned(-1), actualSize, steps;
      }
      sizeOut := r.totalOut;
      OffsetStep(srcSizes, k);
      WrapAdd(Offset(srcSizes, k), curSize);
      offset := Wrap64(offset + curSize);
      flags := flags - {First};
      k := k + 1;
    }
    assert walk[..|srcSizes|] == walk;
    actualSize' := sizeOut;
    if eng.fini != Ok {
      return Returned(-1), actualSize', steps;
    }
    ret := Returned(0);
  }

  /** Decompression walks the recorded sizes in step with compression: when
      `srcSizes` are the output deltas of a growing compression stream, step
      `k` reads exactly the bytes execution `k` of compression produced, from
      where the previous one's output ended to the total after execution `k`. */
  lemma WalkFollowsCompression(totals: seq<nat>, eng: JobEngine)
    requires Nondecreasing(totals)
    requires forall i :: 0 <= i < |totals| ==> totals[i] < SIZE_T_LIMIT
    ensures var steps := Walk(Deltas(totals), eng);
      forall k :: 0 <= k < |totals| ==>
        && steps[k].inStart == (if k == 0 then 0 else totals[k - 1])
        && steps[k].inStart + steps[k].inLen == totals[k]
  {
    var d := Deltas(totals);
    forall k | 0 <= k < |totals|
      ensures Wrap64(Offset(d, k)) == (if k == 0 then 0 else totals[k - 1])
      ensures (if k == 0 then 0 else totals[k - 1]) + d[k] == totals[k]
    {
      if k == 0 {
        assert d[..0] == [];
      } else {
        DeltasPrefix(totals, k - 1);
        assert totals[k - 1] <= totals[k];
      }
    }
  }
}
