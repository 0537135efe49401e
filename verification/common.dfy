/** Shared vocabulary of the benchmark's compression bookkeeping: bytes, size_t
    arithmetic, prefix sums of chunk lengths, the QPL job flags and statuses, and
    the opaque DEFLATE codec that the engine runs. */
module Common {

  newtype byte = x: int | 0 <= x < 256

  /** 2^64: every `size_t` quantity of the program is below this bound. */
  const SIZE_T_LIMIT: nat := 0x1_0000_0000_0000_0000

  /** The largest `size_t`, the value `0 - 1` wraps to. */
  const SIZE_MAX: nat := SIZE_T_LIMIT - 1

  /** `size_t` arithmetic: a result is reduced modulo 2^64. */
  function Wrap64(x: int): (r: nat)
    ensures r < SIZE_T_LIMIT
    ensures 0 <= x < SIZE_T_LIMIT ==> r == x
    ensures -(SIZE_T_LIMIT as int) <= x < 0 ==> r == x + SIZE_T_LIMIT
  {
    x % SIZE_T_LIMIT
  }

  /** Adding in `size_t` step by step wraps like adding first and wrapping once. */
  lemma WrapAdd(a: int, b: int)
    ensures Wrap64(Wrap64(a) + b) == Wrap64(a + b)
  {
  }

  /** Sum of a sequence of sizes, peeling the last element. */
  function Sum(s: seq<nat>): nat
  {
    if |s| == 0 then 0 else Sum(s[..|s| - 1]) + s[|s| - 1]
  }

  lemma SumSnoc(s: seq<nat>, x: nat)
    ensures Sum(s + [x]) == Sum(s) + x
  {
    assert (s + [x])[..|s|] == s;
  }

  /** Sizes that are each at most their counterparts add up to at most the
      counterparts' total. */
  lemma {:induction false} SumMono(a: seq<nat>, b: seq<nat>)
    requires |a| == |b|
    requires forall i :: 0 <= i < |a| ==> a[i] <= b[i]
    ensures Sum(a) <= Sum(b)
    decreases |a|
  {
    if |a| > 0 {
      SumMono(a[..|a| - 1], b[..|b| - 1]);
    }
  }

  lemma {:induction false} SumAppend(a: seq<nat>, b: seq<nat>)
    ensures Sum(a + b) == Sum(a) + Sum(b)
    decreases |b|
  {
    if |b| == 0 {
      assert a + b == a;
    } else {
      var b' := b[..|b| - 1];
      assert a + b == (a + b') + [b[|b| - 1]];
      SumSnoc(a + b', b[|b| - 1]);
      SumAppend(a, b');
      assert b == b' + [b[|b| - 1]];
      SumSnoc(b', b[|b| - 1]);
    }
  }

  /** A sequence of equal sizes adds up to its length times the size. */
  lemma {:induction false} SumRepeat(s: seq<nat>, x: nat)
    requires forall i :: 0 <= i < |s| ==> s[i] == x
    ensures Sum(s) == |s| * x
    decreases |s|
  {
    if |s| > 0 {
      SumRepeat(s[..|s| - 1], x);
    }
  }

  /** Offset of element `i` when the elements are laid out back to back:
      the sum of the lengths before it. */
  function Offset(lens: seq<nat>, i: nat): nat
    requires i <= |lens|
  {
    Sum(lens[..i])
  }

  /** The next offset is the previous one advanced by the previous length,
      and no offset passes the total. */
  lemma OffsetStep(lens: seq<nat>, i: nat)
    requires i < |lens|
    ensures Offset(lens, i + 1) == Offset(lens, i) + lens[i]
    ensures Offset(lens, i + 1) <= Sum(lens)
  {
    assert lens[..i + 1] == lens[..i] + [lens[i]];
    SumSnoc(lens[..i], lens[i]);
    assert lens == lens[..i + 1] + lens[i + 1..];
    SumAppend(lens[..i + 1], lens[i + 1..]);
  }

  lemma OffsetAll(lens: seq<nat>)
    ensures Offset(lens, |lens|) == Sum(lens)
  {
    assert lens[..|lens|] == lens;
  }

  /** Sum of a sequence of 0/1 completion flags whose tail from `m` on is zero:
      it is at most `m`, and equals `m` exactly when the first `m` flags are all set. */
  lemma {:induction false} FlagCount(flags: seq<nat>, m: nat)
    requires m <= |flags|
    requires forall i :: 0 <= i < |flags| ==> flags[i] <= 1
    requires forall i :: m <= i < |flags| ==> flags[i] == 0
    ensures Sum(flags) <= m
    ensures Sum(flags) == m <==> forall i :: 0 <= i < m ==> flags[i] == 1
    decreases |flags|
  {
    if |flags| == 0 {
    } else {
      var init := flags[..|flags| - 1];
      if m == |flags| {
        FlagCount(init, m - 1);
        assert forall i :: 0 <= i < m - 1 ==> init[i] == flags[i];
      } else {
        FlagCount(init, m);
        assert forall i :: 0 <= i < m ==> init[i] == flags[i];
      }
    }
  }

  /** Byte fresh buffers are filled with so that their pages are faulted in
      (filling with zeros would leave them on the shared zero page). */
  const PAGE_PREFAULT: byte := 1

  /** `n` copies of byte `b`. */
  function Filled(n: nat, b: byte): (s: seq<byte>)
    ensures |s| == n && forall i :: 0 <= i < n ==> s[i] == b
  {
    seq(n, _ => b)
  }

  /** QPL job flags that the program sets or clears. */
  datatype Flag = First | Last | OmitVerify | DynamicHuffman

  /** The statuses the program distinguishes: success, still running on the
      accelerator, output buffer too small, and any other engine error. */
  datatype Status = Ok | BeingProcessed | MoreOutputNeeded | Error(code: nat)

  /** A status a finished job can report. */
  type Terminal = s: Status | !s.BeingProcessed? witness Ok

  /** Huffman table attached to a job: none, or a canned table built from a sample. */
  datatype Table = NoTable | Built(sample: seq<byte>)

  /** How a C function of the program ends: it returns a code, or it loops forever. */
  datatype Ret = Returned(code: int) | NeverReturns

  /** The DEFLATE codec behind the engine, as an opaque pair of functions. */
  datatype Codec = Codec(
    deflate: (seq<byte>, set<Flag>, Table) -> seq<byte>,
    inflate: seq<byte> -> seq<byte>)

  /** A job framed FIRST|LAST is a self-contained DEFLATE stream whose final
      block has BFINAL set (section 3.2.3 of RFC 1951): inflating it gives back
      exactly the bytes that were deflated. */
  ghost predicate InvertsSelfContained(c: Codec)
  {
    forall data, flags, t | First in flags && Last in flags ::
      c.inflate(c.deflate(data, flags, t)) == data
  }

  /** `dst` with the bytes of `data` copied in at position `at`. */
  function Overwrite(dst: seq<byte>, at: nat, data: seq<byte>): (r: seq<byte>)
    requires at + |data| <= |dst|
    ensures |r| == |dst|
    ensures r[at..at + |data|] == data
    ensures r[..at] == dst[..at] && r[at + |data|..] == dst[at + |data|..]
  {
    dst[..at] + data + dst[at + |data|..]
  }
}
