/** The search engine as written: the input guards of `main`, the tag
    parser and dispatch of `guess_etag_parallel`, and the descending scan
    of `compute_concat`, with the process exits turned into outcomes. */
module Search {
  import opened Text
  import opened CompositeHasher
  import opened RangeEstimator

  /** What a run ends with. */
  datatype Outcome =
    | EmptyFile           // "File is empty" and exit
    | InvalidTag          // `etag_error`: "Etag is not valid" and exit
    | ChunkSizeZero       // `par_chunks(0)` panics
    | Matched(size: nat)  // `success_exit_early`: prints `true` and exits
    | Answer(result: bool) // the value `main` prints

  /** The sizes `(lo..hi).rev()` yields: `hi - 1` down to `lo`, each once;
      `hi` itself is not among them. */
  function Descending(lo: nat, hi: nat): (r: seq<nat>)
    ensures |r| == if lo < hi then hi - lo else 0
    ensures forall k :: 0 <= k < |r| ==> r[k] == hi - 1 - k
    ensures forall s :: s in r <==> lo <= s < hi
    decreases hi
  {
    if hi <= lo then [] else [hi - 1] + Descending(lo, hi - 1)
  }

  /** The test `compute_concat` runs on each candidate size: cut, hash and
      format, then compare with the tag. Size zero never passes it (the
      scan stops before calling it there). */
  function Hit(md5: Md5, buf: seq<byte>, tag: string, count: nat): nat -> bool {
    s => s > 0 && CompositeTag(md5, buf, s, count) == tag
  }

  /** The scan over a list of candidate sizes: a size of zero stops it with
      the chunking panic, the first size that passes `hit` stops it with a
      match, and running out of sizes answers `false`. */
  function FindFirst(hit: nat -> bool, sizes: seq<nat>): Outcome
    decreases |sizes|
  {
    if |sizes| == 0 then Answer(false)
    else if sizes[0] == 0 then ChunkSizeZero
    else if hit(sizes[0]) then Matched(sizes[0])
    else FindFirst(hit, sizes[1..])
  }

  /** The scan of `[min, max)` from the top down with the composite-tag test. */
  function Scan(md5: Md5, buf: seq<byte>, tag: string, count: nat, lo: nat, hi: nat): Outcome {
    FindFirst(Hit(md5, buf, tag, count), Descending(lo, hi))
  }

  /** One step of the scan: the top size is tried first, then the rest. */
  lemma FindFirstStep(hit: nat -> bool, lo: nat, hi: nat)
    requires lo < hi
    ensures FindFirst(hit, Descending(lo, hi)) ==
            if hi - 1 == 0 then ChunkSizeZero
            else if hit(hi - 1) then Matched(hi - 1)
            else FindFirst(hit, Descending(lo, hi - 1))
  {
    var rest := Descending(lo, hi - 1);
    assert ([hi - 1] + rest)[1..] == rest;
  }

  /** What a scan of `[lo, hi)` from the top down can end with: never a
      `true` answer; a match only at the largest size in the range that
      passes the test; the panic only when the range reaches down to zero
      and no size above zero passed; `false` only when every size in the
      range is positive and none passed. */
  lemma {:induction false} FindFirstDescending(hit: nat -> bool, lo: nat, hi: nat)
    ensures var o := FindFirst(hit, Descending(lo, hi));
            && (o.Matched? || o == ChunkSizeZero || o == Answer(false))
            && (o.Matched? ==> 0 < o.size && lo <= o.size < hi && hit(o.size)
                               && forall t :: o.size < t < hi ==> !hit(t))
            && (o == ChunkSizeZero ==> lo == 0 < hi && forall t :: 0 < t < hi ==> !hit(t))
            && (o == Answer(false) ==> (lo < hi ==> lo > 0) && forall t :: lo <= t < hi ==> !hit(t))
    decreases hi
  {
    if lo < hi {
      FindFirstStep(hit, lo, hi);
      FindFirstDescending(hit, lo, hi - 1);
    }
  }

  /** A range of positive sizes holding a size that passes the test is
      scanned to a match at that size or a larger one. */
  lemma FindFirstFindsHit(hit: nat -> bool, lo: nat, hi: nat, s: nat)
    requires 0 < lo <= s < hi && hit(s)
    ensures var o := FindFirst(hit, Descending(lo, hi));
            o.Matched? && s <= o.size < hi && hit(o.size)
  {
    FindFirstDescending(hit, lo, hi);
  }

  /** The descending search with early exit of `compute_concat`
      (`(min..max).rev()` and `find_any`): try `hi - 1` down to `lo`, stop
      with the panic at size zero or with a match at the first size that
      passes `hit`. */
  method FindDescending(hit: nat -> bool, lo: nat, hi: nat) returns (o: Outcome)
    ensures o == FindFirst(hit, Descending(lo, hi))
    ensures o.Matched? || o == ChunkSizeZero || o == Answer(false)
    ensures o.Matched? ==> 0 < o.size && lo <= o.size < hi && hit(o.size)
                           && forall t :: o.size < t < hi ==> !hit(t)
    ensures o == ChunkSizeZero ==> lo == 0 < hi && forall t :: 0 < t < hi ==> !hit(t)
    ensures o == Answer(false) ==> (lo < hi ==> lo > 0) && forall t :: lo <= t < hi ==> !hit(t)
  {
    var i: nat := hi;
    while i > lo
      invariant i <= hi && (lo <= hi ==> lo <= i)
      invariant FindFirst(hit, Descending(lo, hi)) == FindFirst(hit, Descending(lo, i))
      invariant i < hi ==> i > 0
      invariant forall t :: i <= t < hi ==> !hit(t)
      decreases i
    {
      var size: nat := i - 1;
      FindFirstStep(hit, lo, i);
      if size == 0 {
        return ChunkSizeZero;
      }
      if hit(size) {
        return Matched(size);
      }
      i := size;
    }
    return Answer(false);
  }

  /** `compute_concat`: the descending search over `[min, max)` with the
      composite-tag test for the tag's part count. */
  method SearchConcat(md5: Md5, buf: seq<byte>, tag: string, count: nat, lo: nat, hi: nat)
    returns (o: Outcome)
    ensures o == Scan(md5, buf, tag, count, lo, hi)
  {
    o := FindDescending(Hit(md5, buf, tag, count), lo, hi);
  }

  /** The shape of a tag, as `guess_etag_parallel` reads it. */
  datatype TagShape = SinglePart | MultiPart(count: nat) | Malformed

  /** The tag parser: split on `-`; one segment is a single-part tag, two
      segments need a suffix that parses as a `u32` above 1, and anything
      else is malformed. */
  function ParseTag(tag: string): (t: TagShape)
    ensures t.MultiPart? ==> 2 <= t.count <= U32_MAX
  {
    var parts := Split(tag, '-');
    if |parts| == 1 then SinglePart
    else if |parts| == 2 then
      match ParseU32(parts[1])
      case None => Malformed
      case Some(count) => if count > 1 then MultiPart(count) else Malformed
    else Malformed
  }

  /** The parser dispatches on the number of dashes: none is a single-part
      tag, two or more are malformed, and a multipart tag has exactly one. */
  lemma ParseTagByDashes(tag: string)
    ensures ParseTag(tag) == SinglePart <==> '-' !in tag
    ensures Count(tag, '-') >= 2 ==> ParseTag(tag) == Malformed
    ensures ParseTag(tag).MultiPart? ==> Count(tag, '-') == 1
  {
    SplitSegmentsHaveNoSeparator(tag, '-');
    SplitCount(tag, '-');
    if '-' !in tag {
      SplitNoSeparator(tag, '-');
    }
  }

  /** A tag `a-b` with dash-free `a` and `b` is multipart exactly when `b`
      parses as a `u32` above 1, with that value as the count. */
  lemma ParseTagOneDash(a: string, b: string)
    requires '-' !in a && '-' !in b
    ensures ParseTag(a + "-" + b) ==
            if ParseU32(b).Some? && ParseU32(b).value > 1 then MultiPart(ParseU32(b).value) else Malformed
  {
    assert a + "-" + b == a + ['-'] + b;
    SplitTwo(a, '-', b);
  }

  /** A formatted composite tag parses back to its part count. */
  lemma ParseTagFormat(d: Digest, n: nat)
    requires 2 <= n <= U32_MAX
    ensures ParseTag(Format(d, n)) == MultiPart(n)
  {
    FormatSplits(d, n);
    ParseU32Decimal(n);
  }

  /** The suffixes `xyz`, `1` and `0` are all rejected. */
  lemma BadSuffixExamples(d: string)
    requires '-' !in d
    ensures ParseTag(d + "-xyz") == Malformed
    ensures ParseTag(d + "-1") == Malformed
    ensures ParseTag(d + "-0") == Malformed
  {
    assert d + "-xyz" == d + "-" + "xyz";
    assert d + "-1" == d + "-" + "1";
    assert d + "-0" == d + "-" + "0";
    assert !IsDigit("xyz"[0]);
    assert DigitsValue("1") == 1 && DigitsValue("0") == 0;
    ParseTagOneDash(d, "xyz");
    ParseTagOneDash(d, "1");
    ParseTagOneDash(d, "0");
  }

  /** `guess_etag_parallel`: a single-part tag is compared with the
      whole-buffer digest, a multipart tag searches the candidate range (or
      falls back to the simple comparison when the range is one point), and
      a malformed tag is an error. */
  function GuessEtag(md5: Md5, buf: seq<byte>, tag: string): Outcome {
    match ParseTag(tag)
    case SinglePart => Answer(SimpleMatches(md5, buf, tag, 1))
    case Malformed => InvalidTag
    case MultiPart(count) =>
      var r := CandidateRange(|buf|, count);
      if r.min == r.max then Answer(SimpleMatches(md5, buf, tag, count))
      else Scan(md5, buf, tag, count, r.min, r.max)
  }

  /** `main` after the file is read: the empty-buffer and tag-length guards
      (the length in bytes of the tag's UTF-8 text), then the engine. */
  function Verify(md5: Md5, buf: seq<byte>, tag: string): Outcome {
    if |buf| == 0 then EmptyFile
    else if Utf8Len(tag) < 32 then InvalidTag
    else GuessEtag(md5, buf, tag)
  }

  /** An empty buffer, a tag shorter than 32 bytes or a malformed tag is
      turned away before anything is hashed: the outcome is the same whatever
      the hash. */
  lemma RejectedBeforeHashing(md5a: Md5, md5b: Md5, buf: seq<byte>, tag: string)
    requires |buf| == 0 || Utf8Len(tag) < 32 || ParseTag(tag) == Malformed
    ensures Verify(md5a, buf, tag) == Verify(md5b, buf, tag)
    ensures Verify(md5a, buf, tag) == if |buf| == 0 then EmptyFile else InvalidTag
  {
  }

  /** A tag shorter than 32 characters is always shorter than 32 bytes, so
      it is rejected. */
  lemma ShortTagRejected(md5: Md5, buf: seq<byte>, tag: string)
    requires |buf| > 0 && |tag| < 32 && forall i :: 0 <= i < |tag| ==> tag[i] as int < 0x80
    ensures Verify(md5, buf, tag) == InvalidTag
  {
    Utf8LenBounds(tag);
  }

  /** A tag without a dash goes to the single-part comparison against
      `<hex>-1`, which it can never equal: the answer is `false`. */
  lemma SinglePartAnswersFalse(md5: Md5, buf: seq<byte>, tag: string)
    requires |buf| > 0 && Utf8Len(tag) >= 32 && '-' !in tag
    ensures Verify(md5, buf, tag) == Answer(SimpleMatches(md5, buf, tag, 1))
    ensures Verify(md5, buf, tag) == Answer(false)
  {
    ParseTagByDashes(tag);
    SimpleNeverMatchesItsCallers(md5, buf, tag, 1);
  }

  /** A multipart tag whose range is a single point is decided by the
      simple comparison of the bare hex digest, which cannot equal a tag
      with a dash: the answer is `false`, and nothing is chunked. */
  lemma FixedRangeAnswersFalse(md5: Md5, buf: seq<byte>, tag: string)
    requires |buf| > 0 && Utf8Len(tag) >= 32 && ParseTag(tag).MultiPart?
    requires var r := CandidateRange(|buf|, ParseTag(tag).count); r.min == r.max
    ensures Verify(md5, buf, tag) == Answer(SimpleMatches(md5, buf, tag, ParseTag(tag).count))
    ensures Verify(md5, buf, tag) == Answer(false)
  {
    ParseTagByDashes(tag);
    SimpleNeverMatchesItsCallers(md5, buf, tag, ParseTag(tag).count);
  }

  /** As written, the engine never answers `true`: a positive verdict only
      ever comes from the early exit of the scan. */
  lemma NeverAnswersTrue(md5: Md5, buf: seq<byte>, tag: string)
    ensures Verify(md5, buf, tag) != Answer(true)
  {
    if |buf| > 0 && Utf8Len(tag) >= 32 {
      ParseTagByDashes(tag);
      match ParseTag(tag)
      case SinglePart =>
        SimpleNeverMatchesItsCallers(md5, buf, tag, 1);
      case Malformed =>
      case MultiPart(n) =>
        var r := CandidateRange(|buf|, n);
        SimpleNeverMatchesItsCallers(md5, buf, tag, n);
        FindFirstDescending(Hit(md5, buf, tag, n), r.min, r.max);
    }
  }

  /** A match is sound: the tag is multipart, the matched size is positive
      and lies in the half-open range derived from the tag's part count,
      its composite tag with that count is the input tag, and no larger
      size of the range reproduces it. */
  lemma MatchedIsSound(md5: Md5, buf: seq<byte>, tag: string)
    ensures Verify(md5, buf, tag).Matched? ==>
            && ParseTag(tag).MultiPart?
            && var s := Verify(md5, buf, tag).size;
               var n := ParseTag(tag).count;
               var r := CandidateRange(|buf|, n);
               && 0 < s && r.min <= s < r.max
               && CompositeTag(md5, buf, s, n) == tag
               && forall t :: s < t < r.max ==> !Hit(md5, buf, tag, n)(t)
  {
    if |buf| > 0 && Utf8Len(tag) >= 32 && ParseTag(tag).MultiPart? {
      var n := ParseTag(tag).count;
      var r := CandidateRange(|buf|, n);
      FindFirstDescending(Hit(md5, buf, tag, n), r.min, r.max);
    }
  }

  /** The panic is reached exactly when the tag is accepted as multipart
      and the buffer holds one whole megabyte fewer than the tag has parts,
      whatever the hash. The range is then `(0, 1)`, whose only candidate
      is size zero. */
  lemma ChunkSizeZeroIsReached(md5: Md5, buf: seq<byte>, tag: string)
    ensures Verify(md5, buf, tag) == ChunkSizeZero <==>
            && |buf| > 0 && Utf8Len(tag) >= 32 && ParseTag(tag).MultiPart?
            && FileSizeMb(|buf|) == ParseTag(tag).count - 1
    ensures Verify(md5, buf, tag) == ChunkSizeZero ==>
            CandidateRange(|buf|, ParseTag(tag).count) == Range(0, 1)
  {
    if |buf| > 0 && Utf8Len(tag) >= 32 && ParseTag(tag).MultiPart? {
      var n := ParseTag(tag).count;
      var f := FileSizeMb(|buf|);
      var r := CandidateRange(|buf|, n);
      FindFirstDescending(Hit(md5, buf, tag, n), r.min, r.max);
      RangeZeroOne(f, n);
      if f == n - 1 {
        FindFirstStep(Hit(md5, buf, tag, n), 0, 1);
      }
    }
  }

  /** The engine as written confirms a genuine multipart tag whenever the
      true part size lies below the upper bound of the range: the scan
      reaches it, or stops earlier at a larger size with the same tag. */
  lemma FindsPartSizeBelowMax(md5: Md5, buf: seq<byte>, size: nat)
    requires size > 0
    requires 2 <= |Chunks(buf, size * MB)| <= U32_MAX
    requires size < CandidateRange(|buf|, |Chunks(buf, size * MB)|).max
    ensures var n := |Chunks(buf, size * MB)|;
            var tag := CompositeTag(md5, buf, size, n);
            var o := Verify(md5, buf, tag);
            && o.Matched? && size <= o.size < CandidateRange(|buf|, n).max
            && CompositeTag(md5, buf, o.size, n) == tag
  {
    var n := |Chunks(buf, size * MB)|;
    var tag := CompositeTag(md5, buf, size, n);
    var d := md5(PartDigests(md5, buf, size * MB));
    assert tag == Format(d, n);
    Utf8LenBounds(tag);
    ParseTagFormat(d, n);
    var r := CandidateRange(|buf|, n);
    RangeBracketsPartSize(buf, size);
    assert Hit(md5, buf, tag, n)(size);
    FindFirstDescending(Hit(md5, buf, tag, n), r.min, r.max);
  }
}
