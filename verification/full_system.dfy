/** The size arithmetic of preparing a compressed file for the full-system
    benchmark: the source is compressed into a buffer of twice its size, the
    compressed length is rounded up to a 4 KiB page so that the file can be read
    with O_DIRECT, that many bytes are written, and the unrounded length is
    handed back. */
module FullSystem {
  import opened Common

  const PAGE: nat := 4096

  /** `(c + 4095) & ~4095` in `size_t`: the sum wraps, and the mask clears the
      low 12 bits, which is subtracting the remainder modulo 4096. */
  function AlignToPage(c: nat): nat
  {
    var s := Wrap64(c + (PAGE - 1));
    s - s % PAGE
  }

  /** Rounding up to a page: the result is a whole number of pages, at least
      the size and less than one page more, and a size that already is a whole
      number of pages is unchanged. */
  lemma AlignToPageRoundsUp(c: nat)
    requires c + (PAGE - 1) < SIZE_T_LIMIT
    ensures AlignToPage(c) % PAGE == 0
    ensures c <= AlignToPage(c) < c + PAGE
    ensures c % PAGE == 0 ==> AlignToPage(c) == c
  {
    var s := c + (PAGE - 1);
    assert Wrap64(s) == s;
    assert s == (s / PAGE) * PAGE + s % PAGE;
    assert c == (c / PAGE) * PAGE + c % PAGE;
  }

  /** Within 4095 bytes of the `size_t` limit the sum wraps and the rounded
      size collapses to 0. */
  lemma AlignToPageWraps(c: nat)
    requires SIZE_T_LIMIT <= c + (PAGE - 1) && c < SIZE_T_LIMIT
    ensures AlignToPage(c) == 0
  {
    var s := c + (PAGE - 1);
    assert Wrap64(s) == s - SIZE_T_LIMIT;
  }

  /** What the compressor called by the preparation reports: a failure, or the
      compressed bytes (their count is the compressed size). */
  datatype CompressReply = CompressFailed | Compressed(out: seq<byte>)

  /** The bytes handed to `write`, if the preparation gets that far. */
  datatype FileWrite = NotWritten | Wrote(bytes: seq<byte>)

  /** Compresses into a prefaulted buffer of `2 * src_size` bytes, opens the
      file, writes the compressed length rounded up to a page, and on success
      reports the unrounded compressed length. `write` answers how many bytes
      it wrote when asked for a count. The rounded length must fit in the
      buffer: `write` reads that many bytes from it. */
  method PrepareCompressedFiles(srcSize: nat, reply: CompressReply, opens: bool,
                                write: nat -> int, sizeOut: nat)
    returns (ret: int, file: FileWrite, sizeOut': nat)
    requires srcSize < SIZE_T_LIMIT
    requires reply.Compressed? ==> |reply.out| <= Wrap64(2 * srcSize)
    requires reply.Compressed? ==> AlignToPage(|reply.out|) <= Wrap64(2 * srcSize)
    ensures ret == 0 || ret == -1
    ensures ret == 0 <==>
      reply.Compressed? && opens && write(AlignToPage(|reply.out|)) == AlignToPage(|reply.out|)
    ensures ret == 0 ==> sizeOut' == |reply.out|
    ensures ret != 0 ==> sizeOut' == sizeOut
    ensures file.Wrote? <==> reply.Compressed? && opens
    ensures file.Wrote? ==>
      && |file.bytes| == AlignToPage(|reply.out|)
      && (|reply.out| <= |file.bytes| ==> file.bytes[..|reply.out|] == reply.out)
      && (forall i :: |reply.out| <= i < |file.bytes| ==> file.bytes[i] == PAGE_PREFAULT)
      && (|reply.out| + (PAGE - 1) < SIZE_T_LIMIT ==>
            |file.bytes| % PAGE == 0 && |reply.out| <= |file.bytes| < |reply.out| + PAGE)
  {
    var capacity := Wrap64(2 * srcSize);
    var buffer := Filled(capacity, PAGE_PREFAULT);
    if reply.CompressFailed? {
      return -1, NotWritten, sizeOut;
    }
    var compressedSize := |reply.out|;
    buffer := Overwrite(buffer, 0, reply.out);

    var aligned := AlignToPage(compressedSize);
    if compressedSize + (PAGE - 1) < SIZE_T_LIMIT {
      AlignToPageRoundsUp(compressedSize);
    }
    if !opens {
      return -1, NotWritten, sizeOut;
    }
    file := Wrote(buffer[..aligned]);
    var s := write(aligned);
    if s == -1 || s != aligned {
      return -1, file, sizeOut;
    }
    return 0, file, compressedSize;
  }
}
