/** The composite hasher: cut the buffer into parts of one candidate size,
    hash every part, hash the concatenated part digests, and format the
    result the way an object store formats a multipart tag. MD5 itself is a
    parameter of every member: only its 16-byte output is relied on. */
module CompositeHasher {
  import opened Text

  /** Bytes in one megabyte of part size (`1024 * 1024`). */
  const MB: nat := 1024 * 1024

  type Digest = d: seq<byte> | |d| == 16
    witness [0, 0, 0, 0, 0, 0, 0, 0, 0, 0, 0, 0, 0, 0, 0, 0]

  /** A content hash with a 16-byte output; MD5 in the system. */
  type Md5 = seq<byte> -> Digest

  /** Concatenation of a sequence of byte strings. */
  function Flatten(parts: seq<seq<byte>>): seq<byte>
    decreases |parts|
  {
    if |parts| == 0 then [] else parts[0] + Flatten(parts[1..])
  }

  /** Consecutive slices of `size` bytes (`par_chunks(size)`): every slice
      but the last is full, the last is non-empty, an empty buffer has no
      slices, and together they are the buffer again. */
  function Chunks(buf: seq<byte>, size: nat): (r: seq<seq<byte>>)
    requires size > 0
    ensures Flatten(r) == buf
    ensures |r| == 0 <==> |buf| == 0
    ensures forall i :: 0 <= i < |r| ==> 0 < |r[i]| <= size
    ensures forall i :: 0 <= i < |r| - 1 ==> |r[i]| == size
    decreases |buf|
  {
    if |buf| == 0 then []
    else if |buf| <= size then [buf]
    else
      var rest := Chunks(buf[size..], size);
      assert buf == buf[..size] + buf[size..];
      assert ([buf[..size]] + rest)[1..] == rest;
      [buf[..size]] + rest
  }

  /** For a non-empty buffer, `n` slices of `size` bytes hold more than
      `n - 1` full slices and at most `n` of them. */
  lemma {:induction false} ChunksCountBounds(buf: seq<byte>, size: nat)
    requires size > 0 && |buf| > 0
    ensures (|Chunks(buf, size)| - 1) * size < |buf| <= |Chunks(buf, size)| * size
    decreases |buf|
  {
    if |buf| > size {
      var rest := buf[size..];
      ChunksCountBounds(rest, size);
      assert |Chunks(buf, size)| == |Chunks(rest, size)| + 1;
      OneMorePart(|rest|, |Chunks(rest, size)|, size);
    }
  }

  lemma OneMorePart(len: nat, n: nat, size: nat)
    requires (n - 1) * size < len <= n * size
    ensures n * size < len + size <= (n + 1) * size
  {
    assert (n + 1) * size == n * size + size;
    assert (n - 1) * size == n * size - size;
  }

  /** The slice count is the length divided by the size, rounded up. */
  lemma ChunksCount(buf: seq<byte>, size: nat)
    requires size > 0
    ensures |Chunks(buf, size)| == (|buf| + size - 1) / size
  {
    var n := |Chunks(buf, size)|;
    if |buf| > 0 {
      ChunksCountBounds(buf, size);
      assert n * size <= |buf| + size - 1 < n * size + size;
      DivUnique(|buf| + size - 1, size, n);
    }
  }

  /** `x / d == q` exactly when `q * d <= x < q * d + d`. */
  lemma DivUnique(x: nat, d: nat, q: nat)
    requires d > 0 && q * d <= x < q * d + d
    ensures x / d == q
  {
    var k := x / d;
    assert x == k * d + x % d;
    MulMonotone(k + 1, q, d);
    MulMonotone(q + 1, k, d);
  }

  lemma MulMonotone(a: nat, b: nat, d: nat)
    ensures a <= b ==> a * d <= b * d
  {
    assert b * d == a * d + (b - a) * d;
  }

  /** The part digests concatenated in part order (the `flat_map` and
      `collect` over `md5::compute`): sixteen bytes per part, and the
      `k`-th sixteen are the digest of the `k`-th part. */
  function DigestConcat(md5: Md5, parts: seq<seq<byte>>): (r: seq<byte>)
    ensures |r| == 16 * |parts|
    ensures forall k :: 0 <= k < |parts| ==> r[16 * k..16 * k + 16] == md5(parts[k])
    decreases |parts|
  {
    if |parts| == 0 then []
    else
      var head := md5(parts[0]);
      var rest := DigestConcat(md5, parts[1..]);
      assert forall k :: 1 <= k < |parts| ==>
        (head + rest)[16 * k..16 * k + 16] == rest[16 * (k - 1)..16 * (k - 1) + 16];
      head + rest
  }

  /** Tag text `"<hex digest>-<count>"` (`format!("{:x}-{}", ..)`). */
  function Format(d: Digest, count: nat): (s: string)
    ensures |s| > 33
  {
    Hex(d) + "-" + Decimal(count)
  }

  /** The formatted tag has one dash, between the digest and the count. */
  lemma FormatSplits(d: Digest, count: nat)
    ensures Split(Format(d, count), '-') == [Hex(d), Decimal(count)]
  {
    assert Hex(d) + "-" + Decimal(count) == Hex(d) + ['-'] + Decimal(count);
    HexHasNoDash(d);
    DecimalHasNoDash(count);
    SplitTwo(Hex(d), '-', Decimal(count));
  }

  lemma HexHasNoDash(bs: seq<byte>)
    ensures '-' !in Hex(bs)
  {
    HexIsLowerHex(bs);
    var s := Hex(bs);
    assert forall i :: 0 <= i < |s| ==> s[i] != '-';
  }

  lemma DecimalHasNoDash(n: nat)
    ensures '-' !in Decimal(n)
  {
    DecimalIsDigits(n);
    var s := Decimal(n);
    assert forall i :: 0 <= i < |s| ==> s[i] != '-';
  }

  /** Two tags compare equal exactly when their digests and their counts
      are equal: the string comparison decides a digest comparison. */
  lemma FormatInjective(d1: Digest, n1: nat, d2: Digest, n2: nat)
    ensures Format(d1, n1) == Format(d2, n2) <==> d1 == d2 && n1 == n2
  {
    if Format(d1, n1) == Format(d2, n2) {
      FormatSplits(d1, n1);
      FormatSplits(d2, n2);
      HexInjective(d1, d2);
      DecimalInjective(n1, n2);
    }
  }

  /** The bytes the final digest is taken over: the buffer cut into slices
      of `size` bytes, each replaced by its digest, in slice order (the
      `par_chunks`, `flat_map` and `collect` pipeline). */
  function PartDigests(md5: Md5, buf: seq<byte>, size: nat): seq<byte>
    requires size > 0
    decreases |buf|
  {
    if |buf| == 0 then []
    else if |buf| <= size then md5(buf)
    else md5(buf[..size]) + PartDigests(md5, buf[size..], size)
  }

  /** The pipeline computes the concatenated digests of the slices. */
  lemma {:induction false} PartDigestsOfChunks(md5: Md5, buf: seq<byte>, size: nat)
    requires size > 0
    ensures PartDigests(md5, buf, size) == DigestConcat(md5, Chunks(buf, size))
    decreases |buf|
  {
    if |buf| > size {
      PartDigestsOfChunks(md5, buf[size..], size);
      assert ([buf[..size]] + Chunks(buf[size..], size))[1..] == Chunks(buf[size..], size);
    }
  }

  /** The composite tag a multipart upload with parts of `size` megabytes
      would carry, with the part count written as `count`. */
  function CompositeTag(md5: Md5, buf: seq<byte>, size: nat, count: nat): string
    requires size > 0
  {
    Format(md5(PartDigests(md5, buf, size * MB)), count)
  }

  /** What the composite tag is made of: the buffer is cut into
      `ceil(|buf| / (size * MB))` parts, the hashed input is sixteen bytes
      per part holding the part digests in part order, and the tag is the
      formatted digest of that input. */
  lemma CompositeTagInput(md5: Md5, buf: seq<byte>, size: nat, count: nat)
    requires size > 0
    ensures var parts := Chunks(buf, size * MB);
            var input := PartDigests(md5, buf, size * MB);
            && |parts| == (|buf| + size * MB - 1) / (size * MB)
            && |input| == 16 * |parts|
            && (forall k :: 0 <= k < |parts| ==> input[16 * k..16 * k + 16] == md5(parts[k]))
            && CompositeTag(md5, buf, size, count) == Format(md5(input), count)
  {
    ChunksCount(buf, size * MB);
    PartDigestsOfChunks(md5, buf, size * MB);
  }

  /** `compute_simple`: the digest of the whole buffer, written `<hex>-1`
      when `count` is 1 and bare `<hex>` otherwise, compared with the tag. */
  function SimpleMatches(md5: Md5, buf: seq<byte>, tag: string, count: nat): bool
  {
    if count == 1 then Format(md5(buf), 1) == tag else Hex(md5(buf)) == tag
  }

  /** The simple comparison cannot succeed on either path that calls it:
      with count 1 it needs a dash that a dash-free tag lacks, and with any
      other count it needs a dash-free tag. */
  lemma SimpleNeverMatchesItsCallers(md5: Md5, buf: seq<byte>, tag: string, count: nat)
    requires count == 1 <==> '-' !in tag
    ensures !SimpleMatches(md5, buf, tag, count)
  {
    HexHasNoDash(md5(buf));
    if count == 1 {
      assert Format(md5(buf), 1)[32] == '-';
      assert '-' in Format(md5(buf), 1);
    }
  }
}
