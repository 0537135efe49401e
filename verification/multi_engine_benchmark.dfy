/** The multi-engine benchmark driver: it splits the source into `job_n` chunk
    records, compresses them with the parallel dispatcher, sums the compressed
    sizes, decompresses into a fresh buffer and accepts the run only when the
    decompressed bytes are the source. */
module MultiEngineBenchmark {
  import opened Common
  import opened QplParallel

  // ---------------------------------------------------------------------------
  // Chunk layout

  /** Original length of chunk `i` out of `jobN`: the quotient, and the last
      chunk also takes the remainder. */
  function ChunkLength(memSize: nat, jobN: nat, i: nat): nat
    requires 0 < jobN
  {
    if i == jobN - 1 then memSize / jobN + memSize % jobN else memSize / jobN
  }

  /** The chunk records the layout loop builds: chunk `i` has its original
      length and a buffer of twice that many prefault bytes (a `size_t`
      product). The lengths cover the source exactly. */
  function Chunks(memSize: nat, jobN: nat): (fmt: CompressedFormat)
    requires 0 < jobN
    ensures |fmt| == jobN
    ensures forall i :: 0 <= i < jobN ==>
      fmt[i] == Chunk(Filled(Wrap64(2 * ChunkLength(memSize, jobN, i)), PAGE_PREFAULT),
                      ChunkLength(memSize, jobN, i))
    ensures Sum(OriginalSizes(fmt)) == memSize
  {
    var fmt := seq(jobN, i requires 0 <= i < jobN =>
                     Chunk(Filled(Wrap64(2 * ChunkLength(memSize, jobN, i)), PAGE_PREFAULT),
                           ChunkLength(memSize, jobN, i)));
    SplitCoversSource(memSize, jobN, OriginalSizes(fmt));
    fmt
  }

  /** The split lengths add up to the whole source: nothing is dropped and
      nothing is counted twice; so no chunk is longer than the source. */
  lemma SplitCoversSource(memSize: nat, jobN: nat, lens: seq<nat>)
    requires 0 < jobN && |lens| == jobN
    requires forall i :: 0 <= i < jobN ==> lens[i] == ChunkLength(memSize, jobN, i)
    ensures Sum(lens) == memSize
    ensures forall i :: 0 <= i < jobN ==> lens[i] <= memSize
  {
    var init := lens[..jobN - 1];
    SumRepeat(init, memSize / jobN);
    assert lens == init + [lens[jobN - 1]];
    SumSnoc(init, lens[jobN - 1]);
    assert (jobN - 1) * (memSize / jobN) + memSize / jobN == jobN * (memSize / jobN);
  }

  /** How the layout loop ends: with the chunk records, by dividing by zero
      (`job_n == 0`), or by running out of memory (`job_n > 255`: the
      `uint8_t` counter wraps back to 0 before reaching `job_n`, so the loop
      never exits and every pass appends another record with its own buffer
      until allocation fails). */
  datatype Layout = Laid(fmt: CompressedFormat) | DividesByZero | ExhaustsMemory

  /** The layout loop of the two benchmarks. A negative `job_n` is cast to a
      large unsigned divisor and the loop body never runs. */
  method ChunkLayout(memSize: nat, jobN: int) returns (layout: Layout)
    requires memSize < SIZE_T_LIMIT
    ensures layout.DividesByZero? <==> jobN == 0
    ensures layout.ExhaustsMemory? <==> jobN > 255
    ensures jobN < 0 ==> layout == Laid([])
    ensures 0 < jobN <= 255 ==> layout == Laid(Chunks(memSize, jobN))
  {
    if jobN == 0 {
      return DividesByZero;
    }
    if jobN > 255 {
      return ExhaustsMemory;
    }
    if jobN < 0 {
      return Laid([]);
    }
    var chunkSize := memSize / jobN;
    var chunkSizeRem := memSize % jobN;
    var fmt: CompressedFormat := [];
    var i := 0;
    while i < jobN
      invariant 0 <= i <= jobN
      invariant chunkSize == if i == jobN && chunkSizeRem != 0 then memSize / jobN + chunkSizeRem
                             else memSize / jobN
      invariant fmt == Chunks(memSize, jobN)[..i]
    {
      if chunkSizeRem != 0 && i == jobN - 1 {
        chunkSize := chunkSize + chunkSizeRem;
      }
      assert chunkSize == ChunkLength(memSize, jobN, i);
      fmt := fmt + [Chunk(Filled(Wrap64(2 * chunkSize), PAGE_PREFAULT), chunkSize)];
      i := i + 1;
    }
    return Laid(fmt);
  }

  /** The properties the layout promises: exactly `job_n` records, every one but
      the last `mem_size / job_n` long, the last also taking `mem_size % job_n`,
      the lengths adding up to `mem_size`, and each buffer twice its chunk's
      length as long as that product fits a `size_t`. */
  lemma LayoutShape(memSize: nat, jobN: nat)
    requires 0 < jobN && 2 * memSize < SIZE_T_LIMIT
    ensures var fmt := Chunks(memSize, jobN);
      && |fmt| == jobN
      && (forall i :: 0 <= i < jobN - 1 ==> fmt[i].originalSize == memSize / jobN)
      && fmt[jobN - 1].originalSize == memSize / jobN + memSize % jobN
      && Sum(OriginalSizes(fmt)) == memSize
      && (forall i :: 0 <= i < jobN ==> |fmt[i].buffer| == 2 * fmt[i].originalSize)
  {
    var fmt := Chunks(memSize, jobN);
    SplitCoversSource(memSize, jobN, OriginalSizes(fmt));
  }

  // ---------------------------------------------------------------------------
  // Compressed size

  function BufferSizes(fmt: CompressedFormat): (sizes: seq<nat>)
    ensures |sizes| == |fmt| && forall i :: 0 <= i < |fmt| ==> sizes[i] == |fmt[i].buffer|
  {
    seq(|fmt|, i requires 0 <= i < |fmt| => |fmt[i].buffer|)
  }

  /** The reported compressed size: the buffer sizes added up in `size_t`, so
      it is the true total reduced modulo 2^64, and the true total whenever
      that fits. */
  method CompressedSize(fmt: CompressedFormat) returns (size: nat)
    ensures size == Wrap64(Sum(BufferSizes(fmt)))
    ensures Sum(BufferSizes(fmt)) < SIZE_T_LIMIT ==> size == Sum(BufferSizes(fmt))
  {
    size := 0;
    var i := 0;
    while i < |fmt|
      invariant 0 <= i <= |fmt|
      invariant size == Wrap64(Sum(BufferSizes(fmt)[..i]))
    {
      var sizes := BufferSizes(fmt);
      assert sizes[..i + 1] == sizes[..i] + [sizes[i]];
      SumSnoc(sizes[..i], sizes[i]);
      WrapAdd(Sum(sizes[..i]), |fmt[i].buffer|);
      size := Wrap64(size + |fmt[i].buffer|);
      i := i + 1;
    }
    assert BufferSizes(fmt)[..|fmt|] == BufferSizes(fmt);
  }

  // ---------------------------------------------------------------------------
  // A whole run

  /** The two benchmarks differ in what they time and in the fresh destination
      buffer: the compress benchmark decompresses into zeroed memory, the
      decompress benchmark into prefaulted memory. */
  datatype Bench = CompressBench | DecompressBench

  /** Why a run is marked skipped. */
  datatype Skip = FailedToCompress | FailedToDecompress | DataMismatch

  /** How a run ends: with the skip messages issued, the reported compressed
      size, the reported decompressed size and the destination's bytes; by a
      division by zero; by running out of memory in the layout loop; or
      never, spinning in a completion sweep. */
  datatype RunResult =
    | Finished(skips: seq<Skip>, compressedSize: nat, decompressionSize: nat, decompressed: seq<byte>)
    | ZeroDivision
    | OutOfMemory
    | Unending

  function FreshDestination(bench: Bench, n: nat): (dst: seq<byte>)
    ensures |dst| == n
  {
    if bench == CompressBench then Filled(n, 0) else Filled(n, PAGE_PREFAULT)
  }

  /** Every QPL call of the first `n` contexts and jobs succeeds. */
  predicate Healthy(eng: Engine, n: nat)
  {
    && eng.jobSize == Ok
    && eng.tableBuilds
    && forall i :: 0 <= i < n ==>
         eng.init(i) == Ok && eng.fini(i) == Ok && eng.submit(i) == Ok && eng.verdict(i) == Ok
  }

  /** Every chunk's compressed stream fits the buffer the layout gave the
      chunk: a fact about one run's data, since a DEFLATE stream of a short
      (or empty) chunk can be longer than twice the chunk. */
  predicate OutputsFit(mode: CompressionMode, src: seq<byte>, fmt: CompressedFormat, codec: Codec)
    requires Sum(OriginalSizes(fmt)) <= |src|
  {
    forall i :: 0 <= i < |fmt| ==>
      |CompressOutput(codec, src, CompressJobFor(mode, src, fmt, i))| <= |fmt[i].buffer|
  }

  /** With a healthy engine, compressing chunks whose streams fit their
      buffers succeeds. */
  lemma HealthyCompressSucceeds(mode: CompressionMode, src: seq<byte>, fmt: CompressedFormat,
                                eng: Engine, codec: Codec)
    requires 0 < |fmt| < 256 && Sum(OriginalSizes(fmt)) <= |src|
    requires Healthy(eng, |fmt|) && OutputsFit(mode, src, fmt, codec)
    ensures CompressSucceeds(mode, src, fmt, eng, codec)
  {
    forall i | 0 <= i < |fmt|
      ensures CompressJobStatus(mode, src, fmt, eng, codec, i) == Ok
    {
      var job := CompressJobFor(mode, src, fmt, i);
      assert |CompressOutput(codec, src, job)| <= job.outCapacity;
    }
  }

  /** When every chunk holds its job's output and the codec inverts each
      self-contained stream, inflating chunk `i` gives back slice `i` of the
      source. */
  lemma CompressedChunksInflate(mode: CompressionMode, src: seq<byte>, fmt: CompressedFormat,
                                fmt': CompressedFormat, codec: Codec)
    requires Sum(OriginalSizes(fmt)) <= |src|
    requires |fmt'| == |fmt|
    requires forall i :: 0 <= i < |fmt| ==>
      fmt'[i].originalSize == fmt[i].originalSize &&
      fmt'[i].buffer == CompressOutput(codec, src, CompressJobFor(mode, src, fmt, i))
    requires InvertsSelfContained(codec)
    ensures OriginalSizes(fmt') == OriginalSizes(fmt)
    ensures SlicesOf(src, OriginalSizes(fmt'), Inflated(fmt', codec))
    ensures Sizes(Inflated(fmt', codec)) == OriginalSizes(fmt')
  {
    var lens := OriginalSizes(fmt);
    assert OriginalSizes(fmt') == lens;
    var outs := Inflated(fmt', codec);
    forall i | 0 <= i < |fmt|
      ensures Offset(lens, i) + lens[i] <= |src|
      ensures outs[i] == src[Offset(lens, i)..Offset(lens, i) + lens[i]]
    {
      var job := CompressJobFor(mode, src, fmt, i);
      assert job.inStart == Offset(lens, i) && job.inLen == lens[i];
      var slice := src[job.inStart..job.inStart + job.inLen];
      assert First in job.flags && Last in job.flags;
      assert fmt'[i].buffer == codec.deflate(slice, job.flags, job.table);
      assert codec.inflate(codec.deflate(slice, job.flags, job.table)) == slice;
    }
    assert SlicesOf(src, lens, outs);
    assert Sizes(outs) == lens;
  }

  /** The chunks of a successful compression decompress, with a healthy engine,
      back into the source. */
  lemma HealthyDecompressSucceeds(src: seq<byte>, fmt: CompressedFormat, eng: Engine, codec: Codec)
    requires 0 < |fmt| < 256 && Sum(OriginalSizes(fmt)) == |src|
    requires SlicesOf(src, OriginalSizes(fmt), Inflated(fmt, codec))
    requires Sizes(Inflated(fmt, codec)) == OriginalSizes(fmt)
    requires Healthy(eng, |fmt|)
    ensures DecompressSucceeds(fmt, eng, codec)
  {
    forall i | 0 <= i < |fmt|
      ensures DecompressJobStatus(fmt, eng, codec, i) == Ok
    {
      assert Sizes(Inflated(fmt, codec))[i] == OriginalSizes(fmt)[i];
    }
  }

  /** One run of either benchmark: lay out the chunks, compress, add up the
      compressed sizes, decompress into a fresh buffer of `mem_size` bytes and
      compare with the source. A failing step only records a skip message; the
      run goes on. The run is accepted (no mismatch) exactly when the reported
      size is `mem_size` and the destination equals the source; with healthy
      engines, a codec that inverts self-contained streams and chunk streams
      that fit their buffers it is always accepted. */
  method Run(bench: Bench, mode: CompressionMode, src: seq<byte>, jobN: int,
             engC: Engine, engD: Engine, codec: Codec)
    returns (r: RunResult)
    requires |src| < SIZE_T_LIMIT
    ensures r.ZeroDivision? <==> jobN == 0
    ensures r.OutOfMemory? <==> jobN > 255
    ensures r.Finished? ==> |r.decompressed| == |src|
    ensures r.Finished? ==>
      (DataMismatch !in r.skips <==> r.decompressionSize == |src| && r.decompressed == src)
    ensures 0 < jobN < 256 && 2 * |src| < SIZE_T_LIMIT &&
            Healthy(engC, jobN) && Healthy(engD, jobN) &&
            InvertsSelfContained(codec) && OutputsFit(mode, src, Chunks(|src|, jobN), codec) ==>
      && r.Finished? && r.skips == [] && r.decompressionSize == |src| && r.decompressed == src
      && r.compressedSize == Sum(Sizes(CompressOutputs(mode, src, Chunks(|src|, jobN), codec, jobN)))
  {
    var layout := ChunkLayout(|src|, jobN);
    if layout.DividesByZero? {
      return ZeroDivision;
    } else if layout.ExhaustsMemory? {
      return OutOfMemory;
    }
    var fmt := layout.fmt;
    ghost var healthy := 0 < jobN < 256 && 2 * |src| < SIZE_T_LIMIT &&
                         Healthy(engC, jobN) && Healthy(engD, jobN) &&
                         InvertsSelfContained(codec) && OutputsFit(mode, src, fmt, codec);
    if jobN < 0 {
      assert OriginalSizes(fmt) == [];
    }
    if healthy {
      LayoutShape(|src|, jobN);
      HealthyCompressSucceeds(mode, src, fmt, engC, codec);
    }
    var skips: seq<Skip> := [];

    var cret, fmt', _ := Compress(mode, src, fmt, engC, codec);
    if cret == NeverReturns {
      return Unending;
    }
    if cret != Returned(0) {
      skips := skips + [FailedToCompress];
    }
    var compressedSize := CompressedSize(fmt');
    assert OriginalSizes(fmt') == OriginalSizes(fmt);
    if healthy {
      CompressedChunksInflate(mode, src, fmt, fmt', codec);
      CompressedSizeOfOutputs(mode, src, fmt, fmt', engC, codec);
    }

    var dret, decompressionSize, dst', mismatch := DecompressAndCompare(bench, src, fmt', engD, codec);
    if dret == NeverReturns {
      return Unending;
    }
    if dret != Returned(0) {
      skips := skips + [FailedToDecompress];
    }
    if mismatch {
      skips := skips + [DataMismatch];
    }
    r := Finished(skips, compressedSize, decompressionSize, dst');
  }

  /** The verification step of a run: decompress into a fresh buffer of
      `mem_size` bytes and compare the reported size and the bytes with the
      source. Chunks that inflate to their slices of the source pass it with
      a healthy engine. */
  method DecompressAndCompare(bench: Bench, src: seq<byte>, fmt: CompressedFormat,
                              eng: Engine, codec: Codec)
    returns (dret: Ret, decompressionSize: nat, dst': seq<byte>, mismatch: bool)
    requires |src| < SIZE_T_LIMIT && Sum(OriginalSizes(fmt)) <= |src|
    ensures |dst'| == |src|
    ensures !mismatch <==> decompressionSize == |src| && dst' == src
    ensures 0 < |fmt| < 256 && Sum(OriginalSizes(fmt)) == |src| &&
            SlicesOf(src, OriginalSizes(fmt), Inflated(fmt, codec)) &&
            Sizes(Inflated(fmt, codec)) == OriginalSizes(fmt) && Healthy(eng, |fmt|) ==>
      dret == Returned(0) && !mismatch
  {
    var dst := FreshDestination(bench, |src|);
    var jobs;
    dret, dst', decompressionSize, jobs := Decompress(fmt, dst, 0, eng, codec);
    if 0 < |fmt| < 256 && Sum(OriginalSizes(fmt)) == |src| &&
       SlicesOf(src, OriginalSizes(fmt), Inflated(fmt, codec)) &&
       Sizes(Inflated(fmt, codec)) == OriginalSizes(fmt) && Healthy(eng, |fmt|) {
      HealthyDecompressSucceeds(src, fmt, eng, codec);
      ReassembleRoundTrip(src, dst, OriginalSizes(fmt), Inflated(fmt, codec), AllTrue(|fmt|));
    }
    mismatch := decompressionSize != |src| || dst'[..decompressionSize] != src[..decompressionSize];
    if !mismatch {
      assert dst' == dst'[..decompressionSize];
      assert src == src[..decompressionSize];
    }
  }

  /** After a successful compression the compressed size is the total of the
      jobs' outputs. Every job finished within its room, so that total is at
      most the total of the buffers the layout allocated, and at most twice
      the total of the chunk lengths when no buffer is longer than twice its
      chunk. */
  lemma CompressedSizeOfOutputs(mode: CompressionMode, src: seq<byte>, fmt: CompressedFormat,
                                fmt': CompressedFormat, eng: Engine, codec: Codec)
    requires Sum(OriginalSizes(fmt)) <= |src|
    requires |fmt'| == |fmt|
    requires forall i :: 0 <= i < |fmt| ==>
      fmt'[i].buffer == CompressOutput(codec, src, CompressJobFor(mode, src, fmt, i))
    requires CompressSucceeds(mode, src, fmt, eng, codec)
    ensures BufferSizes(fmt') == Sizes(CompressOutputs(mode, src, fmt, codec, |fmt|))
    ensures Sum(BufferSizes(fmt')) <= Sum(BufferSizes(fmt))
    ensures (forall i :: 0 <= i < |fmt| ==> |fmt[i].buffer| <= 2 * fmt[i].originalSize) ==>
      Sum(BufferSizes(fmt')) <= 2 * Sum(OriginalSizes(fmt))
  {
    var sizes := BufferSizes(fmt');
    var room := BufferSizes(fmt);
    forall i | 0 <= i < |fmt|
      ensures sizes[i] <= room[i]
    {
      assert CompressJobStatus(mode, src, fmt, eng, codec, i) == Ok;
    }
    SumMono(sizes, room);
    if forall i :: 0 <= i < |fmt| ==> |fmt[i].buffer| <= 2 * fmt[i].originalSize {
      SumAtMostTwice(room, OriginalSizes(fmt));
    }
  }

  lemma {:induction false} SumAtMostTwice(a: seq<nat>, b: seq<nat>)
    requires |a| == |b|
    requires forall i :: 0 <= i < |a| ==> a[i] <= 2 * b[i]
    ensures Sum(a) <= 2 * Sum(b)
    decreases |a|
  {
    if |a| > 0 {
      SumAtMostTwice(a[..|a| - 1], b[..|b| - 1]);
    }
  }
}
