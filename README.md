# s3etag tag engine in Dafny

s3etag checks whether a local file matches an object-store entity tag
(an "ETag"). If the object was uploaded in one part, its tag is the MD5 of
the whole file in lowercase hex. If it was uploaded in `n` parts of equal
size `S` megabytes (the last part may be shorter), the tag is
`md5(md5(part1) ‖ … ‖ md5(partN))` in hex, followed by `-n`. The part size
does not appear in the tag. The program therefore derives a range of
plausible part sizes from the file length and `n`, then tries them from
the largest down.

The model covers the engine in `src/main.rs`:

- the guards of `main`: an empty buffer, or a tag shorter than 32 bytes, is
  rejected;
- `guess_etag_parallel`:
  - it splits the tag on `-`;
  - it parses the part count as a `u32` above 1;
  - it computes `f = len / 1024 / 1024`, `min = f / n` and `max = f / (n - 1)`;
  - it dispatches either to the simple comparison or to the search;
- `compute_simple`: compares the digest of the whole buffer with
  `<hex>-1` or with `<hex>`;
- `compute_concat`, as a sequential loop:
  - it tries `max - 1` down to `min`;
  - for each size it cuts the buffer into slices of `size` megabytes,
    hashes each slice, hashes the concatenated digests and formats the
    result;
  - it stops at the first size whose tag equals the input.

MD5 is a parameter of every member that hashes: a function from bytes to 16 bytes.

The model has five modules, one per file:

- `Text` (`text.dfy`): bytes, lowercase hex, decimal rendering,
  `u32::from_str`, `str::split` and the UTF-8 byte length of a string.
- `CompositeHasher` (`hasher.dfy`): chunking, digest concatenation, tag
  formatting and the simple comparison.
- `RangeEstimator` (`range.dfy`): the candidate range, and the proof that
  it brackets the true part size.
- `Search` (`search.dfy`): the outcomes, the tag parser, the descending
  scan (the method `FindDescending` against the function `FindFirst`), and
  `Verify`, the engine as written.
- `Intended` (`intended.dfy`): the engine with the four defects below
  repaired, with the proof that it confirms every tag formed from its own
  file.

The process exits become values of `Search.Outcome`:

- `EmptyFile`;
- `InvalidTag` (from `etag_error`);
- `ChunkSizeZero` (the panic of `par_chunks(0)`);
- `Matched(size)` (from `success_exit_early`);
- `Answer(b)` (the boolean `main` prints).

## How the code is read

- **Range bounds.** `RangeEstimator.RangeBracketsPartSize` proves that the
  true part size lies in the closed range `[min, max]`, and it can equal
  `max`. Yet `src/main.rs:79` iterates `min..max`, which is half-open, so
  `Verify` never tries `max`.
- **One-point range.** When `min == max`, the part size is determined.
  Yet `src/main.rs:108-109` calls `compute_simple` instead of hashing the
  parts at that size, and `Verify` does the same.
- **Tag length.** `str::len` counts UTF-8 bytes, so the guard at
  `src/main.rs:52` uses `Utf8Len`.

Whenever the true part size lies strictly below `max`, the engine as
written does find it (`Search.FindsPartSizeBelowMax`).

## Model

Source functions and their Dafny counterparts:

- `main`'s guards (lines 48-56) are `Search.Verify`.
- `guess_etag_parallel` is `Search.GuessEtag`, with `Search.ParseTag` for
  the split-and-parse step and `RangeEstimator.FileSizeMb` and
  `RangeEstimator.CandidateRange` for the range.
- `compute_simple` is `CompositeHasher.SimpleMatches`.
- `compute_concat` is the method `Search.SearchConcat`, which runs the
  loop `Search.FindDescending`. The loop is specified by the functions
  `Search.Scan` and `Search.FindFirst`. The test it applies to each size
  is `Search.Hit`, built on `CompositeHasher.CompositeTag`.

| member | source | states |
|---|---|---|
| Text.HexIsLowerHex | src/main.rs:73-74 | the `{:x}` rendering of a digest holds only lowercase hex digits |
| Text.UnHexHex | src/main.rs:73-74 | hex rendering is invertible: two digits per byte, high nibble first, read back to the same bytes |
| Text.HexInjective | src/main.rs:74 | two digests render to the same hex text only if they are equal |
| Text.DecimalIsDigits | src/main.rs:86 | `{}` of a count is non-empty ASCII digits with no leading zero |
| Text.DigitsValueDecimal | src/main.rs:86 | the decimal rendering of a count reads back to that count |
| Text.ParseU32 | src/main.rs:101 | `u32::from_str` accepts only an optional `+` followed by digits; any value it returns fits in 32 bits |
| Text.ParseU32Decimal | src/main.rs:101 | parsing the rendering of any `n <= 0xFFFF_FFFF` gives `n` |
| Text.ParseU32Shape | src/main.rs:101-103 | a string that parses is non-empty, and each character is a digit or a leading `+`; a `-` never parses |
| Text.Split | src/main.rs:97 | `split("-")` always yields at least one segment |
| Text.SplitCount | src/main.rs:97-98 | `k` separators give exactly `k + 1` segments, which is what `etag_parts.len()` counts |
| Text.SplitSegmentsHaveNoSeparator | src/main.rs:97 | no segment contains the separator |
| Text.JoinSplit | src/main.rs:97 | joining the segments back with the separator rebuilds the tag |
| Text.SplitNoSeparator | src/main.rs:97-99 | a string without the separator splits into itself alone |
| Text.SplitTwo | src/main.rs:97-100 | `a-b`, with neither side containing a dash, splits into exactly `[a, b]` |
| Text.Utf8LenBounds | src/main.rs:52 | the byte length lies between the character count and four times it, and equals the count exactly for ASCII |
| CompositeHasher.Chunks | src/main.rs:81 | `par_chunks(size)` gives consecutive non-empty slices that concatenate to the buffer, all full except possibly the last, and none for an empty buffer |
| CompositeHasher.ChunksCountBounds | src/main.rs:81 | `n` slices hold more than `n - 1` full slices and at most `n` |
| CompositeHasher.ChunksCount | src/main.rs:81 | the slice count is `ceil(len / size)` |
| CompositeHasher.DigestConcat | src/main.rs:83-84 | the collected bytes are 16 per slice, and the `k`-th 16 are the digest of slice `k` |
| CompositeHasher.PartDigestsOfChunks | src/main.rs:80-84 | the fused chunk-and-hash pipeline equals hashing the slices in order and concatenating |
| CompositeHasher.CompositeTagInput | src/main.rs:80-86 | a composite tag is the formatted MD5 of `16 * ceil(len / (size * 1048576))` bytes, made of the slice digests in slice order |
| CompositeHasher.Format | src/main.rs:86 | `"{:x}-{}"` of a digest is longer than 33 characters |
| CompositeHasher.FormatSplits | src/main.rs:86 | a formatted tag splits on `-` into exactly the hex digest and the decimal count |
| CompositeHasher.FormatInjective | src/main.rs:86 | two formatted tags are equal exactly when their digests and their counts are equal |
| CompositeHasher.HexHasNoDash | src/main.rs:73-74 | hex output contains no `-` |
| CompositeHasher.SimpleNeverMatchesItsCallers | src/main.rs:70-76 | with count 1 the tag must contain a dash, otherwise it must lack one; so `compute_simple` is false for a dash-free tag at count 1 and a dashed tag at any other count |
| RangeEstimator.CandidateRange | src/main.rs:105-107 | for every accepted `n >= 2`, `min <= max <= f` |
| RangeEstimator.RangeOrdered | src/main.rs:106-107 | `f / n <= f / (n - 1)` for all `f` and all `n >= 2` |
| RangeEstimator.CandidateFitsBuffer | src/main.rs:81 | every size up to `max`, multiplied by 1048576, is at most the buffer length, so `size * 1024 * 1024` cannot overflow |
| RangeEstimator.FileSizeMbBounds | src/main.rs:105 | `q * MB <= len` implies `q <= f`, and `len <= q * MB` implies `f <= q` |
| RangeEstimator.RangeBracketsPartSize | src/main.rs:105-107 | if parts of `S` megabytes cut the buffer into `n >= 2` slices, then `min <= S <= max` |
| Search.Descending | src/main.rs:79 | `(lo..hi).rev()` yields `hi - 1` down to `lo`, each exactly once; `hi` is not among them |
| Search.FindFirstStep | src/main.rs:79-89 | the scan tries the top size first: at zero it panics, on a match it stops, otherwise it continues below |
| Search.FindFirstDescending | src/main.rs:79-93 | the scan ends in one of three ways. A match is in range, passes the test and has no larger passing size. The panic happens only when `lo == 0` and no positive size passed. `false` means no size passed |
| Search.FindFirstFindsHit | src/main.rs:79-88 | if some positive size in the range passes, the scan matches a passing size at least as large |
| Search.FindDescending | src/main.rs:79-93 | the loop counts down from `hi - 1` and returns early; it computes the same outcome as the scan, with the characterisation above |
| Search.SearchConcat | src/main.rs:78-94 | `compute_concat` is the descending loop with the composite-tag test for the tag's count |
| Search.ParseTag | src/main.rs:97-114 | the count of a multipart tag is between 2 and `0xFFFF_FFFF` |
| Search.ParseTagByDashes | src/main.rs:97-114 | a tag is single-part exactly when it has no dash; two or more dashes make it malformed; a multipart tag has exactly one dash |
| Search.ParseTagOneDash | src/main.rs:100-104 | `a-b` with dash-free sides is multipart exactly when `b` parses as a `u32` above 1, and then the count is that value |
| Search.ParseTagFormat | src/main.rs:97-104 | a formatted composite tag with count `2 <= n <= 0xFFFF_FFFF` parses back to `MultiPart(n)` |
| Search.BadSuffixExamples | src/main.rs:101-104 | suffixes `xyz`, `1` and `0` are rejected |
| Search.RejectedBeforeHashing | src/main.rs:48-54 | an empty buffer, a tag under 32 bytes or a malformed tag is rejected with the same outcome whatever the hash |
| Search.ShortTagRejected | src/main.rs:52-54 | an ASCII tag of fewer than 32 characters is rejected |
| Search.SinglePartAnswersFalse | src/main.rs:99 | a dash-free tag goes to `compute_simple(.., 1)` and the answer is `false` |
| Search.FixedRangeAnswersFalse | src/main.rs:108-109 | when `min == max`, `compute_simple` decides the outcome, nothing is chunked, and the answer is `false` |
| Search.NeverAnswersTrue | src/main.rs:86-93 | a normal return is never `true`; a positive verdict only comes from the early exit |
| Search.MatchedIsSound | src/main.rs:79-88 | a match comes from a multipart tag. The matched size is positive and lies in `[min, max)`. Its composite tag equals the input tag, and no larger size in the range reproduces it |
| RangeEstimator.RangeZeroOne | src/main.rs:106-107 | `min == 0 < max` holds exactly when `f == n - 1`, and the range is then `(0, 1)` |
| Search.ChunkSizeZeroIsReached | src/main.rs:79-81 | every non-empty buffer with an accepted multipart tag and `f == n - 1` reaches chunk size zero, whatever the hash, and no other input does; the range is then `(0, 1)` |
| Search.FindsPartSizeBelowMax | src/main.rs:79-88 | when parts of `S` megabytes cut the buffer into `2 <= n <= 0xFFFF_FFFF` slices and `S < max`, the composite tag of `S` is matched, at `S` or at a larger size in the range that gives the same tag |
| Intended.IntendedSizes | src/main.rs:79 | the corrected candidate list holds only positive sizes |
| Intended.FindFirstPositive | src/main.rs:79-81 | a scan over positive sizes never panics and never answers `true` |
| Intended.IntendedNeverPanics | src/main.rs:79-81 | the corrected engine never reaches chunk size zero |
| Intended.IntendedFindsSinglePart | src/main.rs:70-74 | the corrected engine confirms the hex digest of any non-empty buffer |
| Intended.AsWrittenMissesSinglePart | src/main.rs:99 | as written, the hex digest of a non-empty buffer is answered `false` |
| Intended.IntendedFindsMultipart | src/main.rs:96-116 | if parts of `S` megabytes cut the buffer into `2 <= n <= 0xFFFF_FFFF` slices, the corrected engine matches the composite tag at `S` or at a larger size that gives the same tag |
| Intended.AsWrittenMissesFixedSize | src/main.rs:108-109 | as written, a 3 MiB buffer in three 1 MiB parts has range `(1, 1)` and is answered `false`; corrected, it matches size 1 |
| Intended.AsWrittenSkipsUpperBound | src/main.rs:79 | as written, a buffer of 10 MiB and 1 byte in parts of 10 MiB has range `(5, 10)` and never matches 10; corrected, it matches 10 |
| Intended.AsWrittenPanicsOnSmallParts | src/main.rs:79-81 | as written, a buffer of 1 MiB and 1 byte in parts of 1 MiB has range `(0, 1)` and reaches chunk size zero; corrected, it matches 1 |
| Intended.WholeMegabytes | src/main.rs:105 | a length from `f` MiB up to just below `f + 1` MiB has `len / 1024 / 1024 == f` |

## Left out

- Command-line parsing with clap (`src/main.rs:8-37`): library plumbing. The file path and the tag arrive as parameters.
- Opening and reading the file (`src/main.rs:38-47`): I/O. The buffer is a given `seq<byte>`.
- `println!`, `eprintln!` and `std::process::exit` (`src/main.rs:57`, `60-68`, `87`): they become `Outcome` values. The messages themselves are not modelled.
- rayon parallelism (`par_bridge`, `find_any`, `par_chunks`, `flat_map`):
  - The candidate scan is sequential, from the top down.
  - The slice digests are collected in slice order, as rayon's `collect` keeps them, so this part is exact.
  - When several sizes match, the parallel program may exit on any of them. The model picks the largest. Every matching size gives the same printed `true`.
- MD5 itself (md5 crate): MD5 is an arbitrary function with 16-byte output. No property of MD5 beyond its output length is used.
- Machine widths of `usize` and the `u32` cast: arithmetic is unbounded. `CandidateFitsBuffer` shows that `size * 1024 * 1024` cannot exceed the buffer length for any size that is tried.
- Search.ShortTagRejected: stated only for ASCII tags. For other tags the byte length can reach 32 with fewer than 32 characters, and `Verify` then measures bytes, as Rust does.

## Findings

| source | as written | input that shows it | evidently intended | confidence | as-written member | corrected member |
|---|---|---|---|---|---|---|
| src/main.rs:73 | a dash-free tag is compared with `"<hex>-1"` | any non-empty buffer with its own hex digest as the tag is answered `false` | compare with the bare hex digest | not executed | Intended.AsWrittenMissesSinglePart | Intended.IntendedFindsSinglePart |
| src/main.rs:108-109 | when `min == max`, the bare hex digest is compared with a dashed tag | a 3 MiB buffer with the tag of three 1 MiB parts is answered `false` | compute the composite tag for the single size `min` | not executed | Intended.AsWrittenMissesFixedSize | Intended.IntendedFindsMultipart |
| src/main.rs:79 | `min..max` is half-open, so `max` is never tried | a buffer of 10 MiB and 1 byte with the tag of 10 MiB parts: the range is `(5, 10)` and 10 is skipped | try the closed range `[min, max]` | not executed | Intended.AsWrittenSkipsUpperBound | Intended.IntendedFindsMultipart |
| src/main.rs:79-81 | when `f == n - 1`, the range is `(0, 1)`, size 0 is tried and `par_chunks(0)` panics | a buffer of 1 MiB and 1 byte with the tag of 1 MiB parts: the range is `(0, 1)` | skip size 0 | not executed | Intended.AsWrittenPanicsOnSmallParts | Intended.IntendedNeverPanics |
