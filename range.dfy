/** The candidate range estimator: from the buffer length and the part
    count in the tag, the part sizes (in megabytes) worth trying. */
module RangeEstimator {
  import opened Text
  import opened CompositeHasher

  /** `buffer.len() / 1024 / 1024`: whole megabytes in the buffer. */
  function FileSizeMb(len: nat): nat {
    len / 1024 / 1024
  }

  /** The two bounds the search is given: `min = f / n`, `max = f / (n - 1)`. */
  datatype Range = Range(min: nat, max: nat)

  /** The bounds for a buffer of `len` bytes in `count` parts. The part
      count accepted by the tag parser is at least 2, so `count - 1` is
      never zero, and the lower bound never exceeds the upper one. */
  function CandidateRange(len: nat, count: nat): (r: Range)
    requires count >= 2
    ensures r.min <= r.max
    ensures r.max <= FileSizeMb(len)
  {
    var f := FileSizeMb(len);
    RangeOrdered(f, count);
    DivLeOfLeMul(f, count - 1, f);
    Range(f / count, f / (count - 1))
  }

  /** `f / n <= f / (n - 1)` for every `f` and every `n >= 2`. */
  lemma RangeOrdered(f: nat, n: nat)
    requires n >= 2
    ensures f / n <= f / (n - 1)
  {
    var m := f / n;
    MulLeOfLeDiv(f, n, m);
    MulMonotone(n - 1, n, m);
    assert m * (n - 1) == (n - 1) * m && m * n == n * m;
    LeDivOfMulLe(f, n - 1, m);
  }

  /** `q * d <= x` implies `q <= x / d`. */
  lemma LeDivOfMulLe(x: nat, d: nat, q: nat)
    requires d > 0 && q * d <= x
    ensures q <= x / d
  {
    var k := x / d;
    assert x == k * d + x % d;
    assert (k + 1) * d == k * d + d;
    MulMonotone(k + 1, q, d);
  }

  /** `x <= q * d` implies `x / d <= q`. */
  lemma DivLeOfLeMul(x: nat, d: nat, q: nat)
    requires d > 0 && x <= q * d
    ensures x / d <= q
  {
    var k := x / d;
    assert x == k * d + x % d;
    assert (q + 1) * d == q * d + d;
    MulMonotone(q + 1, k, d);
  }

  /** `q <= x / d` implies `q * d <= x`. */
  lemma MulLeOfLeDiv(x: nat, d: nat, q: nat)
    requires d > 0 && q <= x / d
    ensures q * d <= x
  {
    assert x == (x / d) * d + x % d;
    MulMonotone(q, x / d, d);
  }

  /** A candidate no larger than the upper bound cuts parts that fit in
      the buffer: `size * 1024 * 1024` never exceeds the buffer length. */
  lemma CandidateFitsBuffer(len: nat, count: nat, size: nat)
    requires count >= 2 && size <= CandidateRange(len, count).max
    ensures size * MB <= len
  {
    MulLeOfLeDiv(len / 1024, 1024, size);
    MulLeOfLeDiv(len, 1024, size * 1024);
    assert size * MB == size * 1024 * 1024;
  }

  /** Whole megabytes against a multiple of a megabyte. */
  lemma FileSizeMbBounds(len: nat, q: nat)
    ensures q * MB <= len ==> q <= FileSizeMb(len)
    ensures len <= q * MB ==> FileSizeMb(len) <= q
  {
    assert q * MB == (q * 1024) * 1024;
    if q * MB <= len {
      LeDivOfMulLe(len, 1024, q * 1024);
      LeDivOfMulLe(len / 1024, 1024, q);
    }
    if len <= q * MB {
      DivLeOfLeMul(len, 1024, q * 1024);
      DivLeOfLeMul(len / 1024, 1024, q);
    }
  }

  /** The range brackets the true part size: when a non-empty buffer was
      uploaded in parts of `size` megabytes and that gave `n >= 2` parts,
      `size` lies in the closed range `[min, max]` computed from the
      buffer length and `n`. */
  lemma RangeBracketsPartSize(buf: seq<byte>, size: nat)
    requires size > 0 && |Chunks(buf, size * MB)| >= 2
    ensures var r := CandidateRange(|buf|, |Chunks(buf, size * MB)|);
            r.min <= size <= r.max
  {
    var n := |Chunks(buf, size * MB)|;
    ChunksCountBounds(buf, size * MB);
    BracketArithmetic(|buf|, n, size);
  }

  lemma BracketArithmetic(len: nat, n: nat, size: nat)
    requires n >= 2
    requires (n - 1) * (size * MB) < len <= n * (size * MB)
    ensures FileSizeMb(len) / n <= size <= FileSizeMb(len) / (n - 1)
  {
    PartsBelow(len, n - 1, size);
    PartsAbove(len, n, size);
  }

  /** More than `k` full parts of `size` megabytes: `size <= f / k`. */
  lemma PartsBelow(len: nat, k: nat, size: nat)
    requires k >= 1 && k * (size * MB) < len
    ensures size <= FileSizeMb(len) / k
  {
    var lo := k * size;
    assert lo * MB == k * (size * MB);
    FileSizeMbBounds(len, lo);
    assert size * k == lo;
    LeDivOfMulLe(FileSizeMb(len), k, size);
  }

  /** At most `n` full parts of `size` megabytes: `f / n <= size`. */
  lemma PartsAbove(len: nat, n: nat, size: nat)
    requires n >= 1 && len <= n * (size * MB)
    ensures FileSizeMb(len) / n <= size
  {
    var hi := n * size;
    assert hi * MB == n * (size * MB);
    FileSizeMbBounds(len, hi);
    assert size * n == hi;
    DivLeOfLeMul(FileSizeMb(len), n, size);
  }

  /** The range is `(0, 1)` exactly when the buffer holds one whole
      megabyte fewer than the part count; that is the only way to get
      `min == 0 < max`. */
  lemma RangeZeroOne(f: nat, n: nat)
    requires n >= 2
    ensures f / n == 0 && f / (n - 1) > 0 <==> f == n - 1
    ensures f == n - 1 ==> f / n == 0 && f / (n - 1) == 1
  {
    if f >= n {
      LeDivOfMulLe(f, n, 1);
    }
    if f < n - 1 {
      DivUnique(f, n - 1, 0);
    }
    if f == n - 1 {
      DivUnique(f, n, 0);
      DivUnique(f, n - 1, 1);
    }
  }
}
