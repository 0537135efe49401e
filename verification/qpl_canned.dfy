/** The single-engine streaming compressor: one QPL job compresses the source
    either in one execution or as a stream of fixed-size slices (with dynamic
    Huffman codes or with a canned table built from the whole source), the
    FIRST flag on the first slice and LAST on the final one; decompression is
    one FIRST|LAST execution. */
module QplCanned {
  import opened Common
  import opened SingleEngine

  datatype CompressionMode = Continuous | Naive | Canned

  // ---------------------------------------------------------------------------
  // The execution schedule

  /** The single execution of continuous mode: the whole source, one
      self-contained stream with dynamic Huffman codes. */
  function ContinuousExecution(src: seq<byte>): Execution
    requires |src| < SIZE_T_LIMIT
  {
    Execution(0, |src|, OutputCapacity(|src|), {First, OmitVerify, DynamicHuffman, Last}, NoTable)
  }

  /** Flags the job carries before the first execution: FIRST and OMIT_VERIFY,
      plus dynamic Huffman codes in naive mode. */
  function BaseFlags(mode: CompressionMode): set<Flag>
  {
    if mode == Naive then {First, OmitVerify, DynamicHuffman} else {First, OmitVerify}
  }

  function SliceTable(mode: CompressionMode, src: seq<byte>): Table
  {
    if mode == Canned then Built(src) else NoTable
  }

  /** The executions of a chunked compression, in order. */
  function Planned(mode: CompressionMode, src: seq<byte>, c: nat): (plan: seq<Execution>)
    requires c > 0 && |src| < SIZE_T_LIMIT
    ensures |plan| == SliceCount(|src|, c)
  {
    Sliced(BaseFlags(mode), SliceTable(mode, src), src, c)
  }

  /** The flags of the chunked stream: FIRST exactly on the first execution,
      LAST exactly on the final one, OMIT_VERIFY always, dynamic Huffman codes
      exactly in naive mode, and the canned table built from the whole source
      exactly in canned mode. */
  lemma ScheduleFlags(mode: CompressionMode, src: seq<byte>, c: nat, k: nat)
    requires c > 0 && |src| < SIZE_T_LIMIT && k < SliceCount(|src|, c)
    ensures var e := Planned(mode, src, c)[k];
      && (First in e.flags <==> k == 0)
      && (Last in e.flags <==> k == SliceCount(|src|, c) - 1)
      && OmitVerify in e.flags
      && (DynamicHuffman in e.flags <==> mode == Naive)
      && (e.table == Built(src) <==> mode == Canned)
      && (e.table == NoTable <==> mode != Canned)
  {
    SliceFlagsSchedule(BaseFlags(mode), SliceTable(mode, src), src, c, k);
  }

  // ---------------------------------------------------------------------------
  // compress

  /** Compresses `src` with one job. `dstSize` is written only once every
      execution has succeeded, with the job's final `total_out`; a failing
      finalization still returns -1 after that write. In chunked mode a zero
      slice size with a non-empty source never makes progress. */
  method Compress(mode: CompressionMode, src: seq<byte>, dstSize: nat, chunkSize: nat,
                  eng: JobEngine)
    returns (ret: Ret, dstSize': nat, execs: seq<Execution>)
    requires |src| < SIZE_T_LIMIT
    ensures ret.Returned? ==> ret.code == 0 || ret.code == -1
    ensures !JobReady(eng) || (mode == Canned && !eng.tableBuilds) ==>
      ret == Returned(-1) && dstSize' == dstSize && execs == []
    ensures ret == NeverReturns <==>
      JobReady(eng) && mode != Continuous && (mode == Canned ==> eng.tableBuilds) &&
      chunkSize == 0 && |src| > 0
    ensures mode == Continuous && JobReady(eng) ==>
      && execs == [ContinuousExecution(src)]
      && (ret == Returned(0) <==> eng.exec(0).status == Ok && eng.fini == Ok)
      && dstSize' == (if eng.exec(0).status == Ok then eng.exec(0).totalOut else dstSize)
    ensures mode != Continuous && JobReady(eng) && (mode == Canned ==> eng.tableBuilds) &&
            chunkSize > 0 ==>
      var count := SliceCount(|src|, chunkSize);
      && |execs| <= count
      && execs == Planned(mode, src, chunkSize)[..|execs|]
      && (ret == Returned(0) <==> ExecutionsOk(eng, count) && eng.fini == Ok)
      && dstSize' == (if ExecutionsOk(eng, count) then TotalAfter(eng, count) else dstSize)
      && (ExecutionsOk(eng, count) ==> |execs| == count)
      && (!ExecutionsOk(eng, count) ==>
            0 < |execs| && ExecutionsOk(eng, |execs| - 1) && eng.exec(|execs| - 1).status != Ok)
    ensures mode != Continuous && chunkSize == 0 && |src| == 0 && ret.Returned? ==>
      && execs == []
      && (ret == Returned(0) <==>
            JobReady(eng) && eng.fini == Ok && (mode == Canned ==> eng.tableBuilds))
      && (JobReady(eng) && (mode == Canned ==> eng.tableBuilds) ==> dstSize' == 0)
  {
    dstSize' := dstSize;
    execs := [];
    if !JobReady(eng) {
      return Returned(-1), dstSize, [];
    }
    if mode == Canned && !eng.tableBuilds {
      return Returned(-1), dstSize, [];
    }
    var total := 0;
    if mode == Continuous {
      execs := [ContinuousExecution(src)];
      var r := eng.exec(0);
      if r.status != Ok {
        return Returned(-1), dstSize, execs;
      }
      total := r.totalOut;
    } else if chunkSize == 0 {
      if |src| > 0 {
        return NeverReturns, dstSize, [];
      }
    } else {
      var ok;
      ok, execs := ExecuteSlices(BaseFlags(mode), SliceTable(mode, src), src, chunkSize, eng);
      if !ok {
        return Returned(-1), dstSize, execs;
      }
      total := TotalAfter(eng, |execs|);
    }
    dstSize' := total;
    if eng.fini != Ok {
      return Returned(-1), dstSize', execs;
    }
    return Returned(0), dstSize', execs;
  }

  /** The continuous execution frames the whole source as one self-contained
      stream, so a codec that inverts such streams gets the source back from
      its output. */
  lemma ContinuousIsSelfContained(codec: Codec, src: seq<byte>)
    requires |src| < SIZE_T_LIMIT && InvertsSelfContained(codec)
    ensures var e := ContinuousExecution(src);
      && e.inStart == 0 && e.inLen == |src|
      && codec.inflate(codec.deflate(src[e.inStart..e.inStart + e.inLen], e.flags, e.table)) == src
  {
    var e := ContinuousExecution(src);
    assert src[e.inStart..e.inStart + e.inLen] == src;
    assert First in e.flags && Last in e.flags;
  }

  // ---------------------------------------------------------------------------
  // decompress

  /** The single execution of decompression: the whole compressed input, the
      reserved room, FIRST|LAST and the caller's table. */
  function DecompressExecution(srcSize: nat, dstReserved: nat, table: Table): Execution
  {
    Execution(0, srcSize, dstReserved, {First, Last}, table)
  }

  /** Decompresses with one execution; the actual size is written once the
      execution succeeds, before finalization. */
  method Decompress(srcSize: nat, dstReserved: nat, actualSize: nat, table: Table, eng: JobEngine)
    returns (ret: Ret, actualSize': nat, execs: seq<Execution>)
    ensures ret == Returned(0) || ret == Returned(-1)
    ensures ret == Returned(0) <==> JobReady(eng) && eng.exec(0).status == Ok && eng.fini == Ok
    ensures execs == (if JobReady(eng) then [DecompressExecution(srcSize, dstReserved, table)] else [])
    ensures actualSize' ==
      (if JobReady(eng) && eng.exec(0).status == Ok then eng.exec(0).totalOut else actualSize)
  {
    if !JobReady(eng) {
      return Returned(-1), actualSize, [];
    }
    execs := [DecompressExecution(srcSize, dstReserved, table)];
    var r := eng.exec(0);
    if r.status != Ok {
      return Returned(-1), actualSize, execs;
    }
    actualSize' := r.totalOut;
    if eng.fini != Ok {
      return Returned(-1), actualSize', execs;
    }
    ret := Returned(0);
  }

  /** Decompression frames its input exactly as continuous compression framed
      its output: the whole buffer as one FIRST|LAST stream, so with a codec
      that inverts such streams it returns the source. */
  lemma ContinuousRoundTrip(codec: Codec, src: seq<byte>, table: Table)
    requires |src| < SIZE_T_LIMIT && InvertsSelfContained(codec)
    ensures var c := ContinuousExecution(src);
      var compressed := codec.deflate(src[c.inStart..c.inStart + c.inLen], c.flags, c.table);
      var d := DecompressExecution(|compressed|, |src|, table);
      && First in d.flags && Last in d.flags && d.inStart == 0 && d.inLen == |compressed|
      && codec.inflate(compressed) == src
  {
    ContinuousIsSelfContained(codec, src);
  }

  // ---------------------------------------------------------------------------
  // The benchmark's compress-then-verify round

  /** The stream continuous compression writes: the codec's output for the
      whole source, framed as the continuous execution frames it. */
  function ContinuousOutput(codec: Codec, src: seq<byte>): seq<byte>
    requires |src| < SIZE_T_LIMIT
  {
    var e := ContinuousExecution(src);
    codec.deflate(src[e.inStart..e.inStart + e.inLen], e.flags, e.table)
  }

  /** The slice size the benchmark passes to the compressor: 4 KiB. */
  const BENCH_CHUNK_SIZE: nat := 4 * 1024

  /** One round of the single-engine benchmark in continuous mode. The
      compressed size starts at twice the source size (in `size_t`) over a
      buffer of that many prefaulted bytes; compression writes its final size
      over it; decompression then reads that many bytes into room for the
      source, whether or not compression succeeded; and the round reports a
      mismatch unless the decompressed size is the source size and the
      decompressed bytes start with the source. The bytes the decompression
      execution writes are the codec's inflation of the bytes it reads. */
  method ContinuousBenchmark(src: seq<byte>, table: Table, engC: JobEngine, engD: JobEngine,
                             codec: Codec)
    returns (cret: Ret, compressedSize: nat, dret: Ret, decompressionSize: nat,
             dexecs: seq<Execution>, out: seq<byte>, mismatch: bool)
    requires |src| < SIZE_T_LIMIT
    ensures cret == Returned(0) <==> JobReady(engC) && engC.exec(0).status == Ok && engC.fini == Ok
    ensures dret == Returned(0) <==> JobReady(engD) && engD.exec(0).status == Ok && engD.fini == Ok
    ensures compressedSize ==
      (if JobReady(engC) && engC.exec(0).status == Ok then engC.exec(0).totalOut
       else Wrap64(2 * |src|))
    ensures dexecs == (if JobReady(engD) then [DecompressExecution(compressedSize, |src|, table)] else [])
    ensures !(JobReady(engD) && engD.exec(0).status == Ok) ==> decompressionSize == 0 && out == []
    ensures !mismatch <==> decompressionSize == |src| && src <= out
    ensures InvertsSelfContained(codec) &&
            JobReady(engC) && engC.exec(0).status == Ok &&
            Produces(engC, 0, ContinuousOutput(codec, src)) &&
            JobReady(engD) && engD.exec(0).status == Ok &&
            Produces(engD, 0, codec.inflate(ContinuousOutput(codec, src))) ==>
      && compressedSize == |ContinuousOutput(codec, src)|
      && dexecs[0].inLen == |ContinuousOutput(codec, src)|
      && First in dexecs[0].flags && Last in dexecs[0].flags
      && out == src && decompressionSize == |src| && !mismatch
  {
    var initial := Wrap64(2 * |src|);
    var cexecs;
    cret, compressedSize, cexecs := Compress(Continuous, src, initial, BENCH_CHUNK_SIZE, engC);
    var input := if JobReady(engC) && engC.exec(0).status == Ok
                 then ContinuousOutput(codec, src) else Filled(initial, PAGE_PREFAULT);
    dret, decompressionSize, dexecs := Decompress(compressedSize, |src|, 0, table, engD);
    out := if JobReady(engD) && engD.exec(0).status == Ok then codec.inflate(input) else [];
    mismatch := decompressionSize != |src| || !(src <= out);
    if InvertsSelfContained(codec) && JobReady(engC) && engC.exec(0).status == Ok {
      ContinuousRoundTrip(codec, src, table);
    }
  }
}
