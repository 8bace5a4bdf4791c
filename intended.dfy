/** Where the engine as written cannot confirm a tag that its own file
    produced, and the engine as evidently intended, with the property the
    intended one has: every tag formed from the file is confirmed. */
module Intended {
  import opened Text
  import opened CompositeHasher
  import opened RangeEstimator
  import opened Search

  /** The candidate sizes as intended: the closed range `[min, max]`, from
      the top down, without the size zero that cannot cut anything. */
  function IntendedSizes(r: Range): (sizes: seq<nat>)
    ensures forall k :: 0 <= k < |sizes| ==> sizes[k] > 0
  {
    Descending(if r.min == 0 then 1 else r.min, r.max + 1)
  }

  /** The engine as intended: a single-part tag is compared with the bare
      hex digest of the buffer, and a multipart tag searches the closed
      candidate range for a size whose composite tag is the tag, also when
      the range is a single point. */
  function VerifyIntended(md5: Md5, buf: seq<byte>, tag: string): Outcome {
    if |buf| == 0 then EmptyFile
    else if Utf8Len(tag) < 32 then InvalidTag
    else
      match ParseTag(tag)
      case SinglePart => Answer(Hex(md5(buf)) == tag)
      case Malformed => InvalidTag
      case MultiPart(n) => FindFirst(Hit(md5, buf, tag, n), IntendedSizes(CandidateRange(|buf|, n)))
  }

  /** A scan of positive sizes never reaches the panic. */
  lemma {:induction false} FindFirstPositive(hit: nat -> bool, sizes: seq<nat>)
    requires forall k :: 0 <= k < |sizes| ==> sizes[k] > 0
    ensures FindFirst(hit, sizes) != ChunkSizeZero
    ensures FindFirst(hit, sizes) != Answer(true)
    decreases |sizes|
  {
    if |sizes| > 0 {
      FindFirstPositive(hit, sizes[1..]);
    }
  }

  /** The intended engine never panics on a chunk size of zero. */
  lemma IntendedNeverPanics(md5: Md5, buf: seq<byte>, tag: string)
    ensures VerifyIntended(md5, buf, tag) != ChunkSizeZero
  {
    if |buf| > 0 && Utf8Len(tag) >= 32 && ParseTag(tag).MultiPart? {
      var n := ParseTag(tag).count;
      FindFirstPositive(Hit(md5, buf, tag, n), IntendedSizes(CandidateRange(|buf|, n)));
    }
  }

  /** The intended engine confirms the single-part tag of any non-empty
      buffer. */
  lemma IntendedFindsSinglePart(md5: Md5, buf: seq<byte>)
    requires |buf| > 0
    ensures VerifyIntended(md5, buf, Hex(md5(buf))) == Answer(true)
  {
    var tag := Hex(md5(buf));
    Utf8LenBounds(tag);
    HexHasNoDash(md5(buf));
    ParseTagByDashes(tag);
  }

  /** As written, the single-part tag of a buffer is answered `false`. */
  lemma AsWrittenMissesSinglePart(md5: Md5, buf: seq<byte>)
    requires |buf| > 0
    ensures Verify(md5, buf, Hex(md5(buf))) == Answer(false)
  {
    var tag := Hex(md5(buf));
    Utf8LenBounds(tag);
    HexHasNoDash(md5(buf));
    SinglePartAnswersFalse(md5, buf, tag);
  }

  /** The intended engine confirms every multipart tag formed from the
      buffer: if parts of `size` megabytes cut the buffer into `n` parts,
      with `2 <= n <= U32_MAX`, the composite tag of `size` is matched, at
      `size` or at a larger size that gives the same tag. */
  lemma IntendedFindsMultipart(md5: Md5, buf: seq<byte>, size: nat)
    requires size > 0
    requires 2 <= |Chunks(buf, size * MB)| <= U32_MAX
    ensures var n := |Chunks(buf, size * MB)|;
            var tag := CompositeTag(md5, buf, size, n);
            var o := VerifyIntended(md5, buf, tag);
            o.Matched? && size <= o.size && CompositeTag(md5, buf, o.size, n) == tag
  {
    var n := |Chunks(buf, size * MB)|;
    var tag := CompositeTag(md5, buf, size, n);
    var d := md5(PartDigests(md5, buf, size * MB));
    assert tag == Format(d, n);
    Utf8LenBounds(tag);
    ParseTagFormat(d, n);
    var r := CandidateRange(|buf|, n);
    RangeBracketsPartSize(buf, size);
    var lo := if r.min == 0 then 1 else r.min;
    assert Hit(md5, buf, tag, n)(size);
    FindFirstFindsHit(Hit(md5, buf, tag, n), lo, r.max + 1, size);
  }

  /** A 3 MiB buffer uploaded in three 1 MiB parts: the range is the single
      point 1, and as written the bare hex digest is compared with the
      dashed tag, so the answer is `false`. */
  lemma AsWrittenMissesFixedSize(md5: Md5, buf: seq<byte>)
    requires |buf| == 3 * MB
    ensures |Chunks(buf, 1 * MB)| == 3
    ensures CandidateRange(|buf|, 3) == Range(1, 1)
    ensures Verify(md5, buf, CompositeTag(md5, buf, 1, 3)) == Answer(false)
    ensures VerifyIntended(md5, buf, CompositeTag(md5, buf, 1, 3)) == Matched(1)
  {
    var tag := CompositeTag(md5, buf, 1, 3);
    ChunksCount(buf, 1 * MB);
    WholeMegabytes(|buf|, 3);
    var d := md5(PartDigests(md5, buf, 1 * MB));
    assert tag == Format(d, 3);
    Utf8LenBounds(tag);
    ParseTagFormat(d, 3);
    FixedRangeAnswersFalse(md5, buf, tag);
    assert Hit(md5, buf, tag, 3)(1);
    FindFirstStep(Hit(md5, buf, tag, 3), 1, 2);
  }

  /** A buffer of 10 MiB and one byte uploaded in 10 MiB parts has two
      parts and the range `[5, 10)`; the true size 10 is never tried as
      written, while the closed range tries it first. */
  lemma AsWrittenSkipsUpperBound(md5: Md5, buf: seq<byte>)
    requires |buf| == 10 * MB + 1
    ensures |Chunks(buf, 10 * MB)| == 2
    ensures CandidateRange(|buf|, 2) == Range(5, 10)
    ensures Verify(md5, buf, CompositeTag(md5, buf, 10, 2)) != Matched(10)
    ensures VerifyIntended(md5, buf, CompositeTag(md5, buf, 10, 2)) == Matched(10)
  {
    var tag := CompositeTag(md5, buf, 10, 2);
    ChunksCount(buf, 10 * MB);
    WholeMegabytes(|buf|, 10);
    var d := md5(PartDigests(md5, buf, 10 * MB));
    assert tag == Format(d, 2);
    Utf8LenBounds(tag);
    ParseTagFormat(d, 2);
    MatchedIsSound(md5, buf, tag);
    assert Hit(md5, buf, tag, 2)(10);
    FindFirstStep(Hit(md5, buf, tag, 2), 5, 11);
  }

  /** A buffer of 1 MiB and one byte uploaded in 1 MiB parts has two parts
      and the range `[0, 1)`: as written the only candidate is size zero,
      which panics, while the intended engine matches size 1. */
  lemma AsWrittenPanicsOnSmallParts(md5: Md5, buf: seq<byte>)
    requires |buf| == MB + 1
    ensures |Chunks(buf, 1 * MB)| == 2
    ensures CandidateRange(|buf|, 2) == Range(0, 1)
    ensures Verify(md5, buf, CompositeTag(md5, buf, 1, 2)) == ChunkSizeZero
    ensures VerifyIntended(md5, buf, CompositeTag(md5, buf, 1, 2)) == Matched(1)
  {
    var tag := CompositeTag(md5, buf, 1, 2);
    ChunksCount(buf, 1 * MB);
    WholeMegabytes(|buf|, 1);
    var d := md5(PartDigests(md5, buf, 1 * MB));
    assert tag == Format(d, 2);
    Utf8LenBounds(tag);
    ParseTagFormat(d, 2);
    FindFirstStep(Hit(md5, buf, tag, 2), 0, 1);
    assert Hit(md5, buf, tag, 2)(1);
    FindFirstStep(Hit(md5, buf, tag, 2), 1, 2);
  }

  /** A length from `f` megabytes up to just below `f + 1` holds `f`
      whole megabytes. */
  lemma WholeMegabytes(len: nat, f: nat)
    requires f * MB <= len < f * MB + MB
    ensures FileSizeMb(len) == f
  {
    var k := len / 1024;
    assert len == k * 1024 + len % 1024;
    assert f * MB == (f * 1024) * 1024;
    assert f * MB + MB == (f * 1024 + 1024) * 1024;
    LeDivOfMulLe(len, 1024, f * 1024);
    MulMonotone(f * 1024 + 1024, k, 1024);
    DivUnique(k, 1024, f);
  }
}
