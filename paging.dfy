/** Offset/limit pagination as the repository's paginated reads perform
    it (src/internal/base/db.go:115-152): Go's 64-bit `int` arithmetic for
    `offset := (page - 1) * size`, and the window of rows that
    `Offset(offset).Limit(size)` selects. */
module Paging {

  const MinInt64: int := -0x8000_0000_0000_0000
  const MaxInt64: int := 0x7FFF_FFFF_FFFF_FFFF
  const TwoTo64: int := 0x1_0000_0000_0000_0000

  /** Go's `int` on a 64-bit platform; strconv.Atoi yields only these. */
  type Int64 = x: int | MinInt64 <= x <= MaxInt64

  /** Two's-complement wrap-around of an unbounded result to 64 bits. */
  function Wrap64(x: int): (r: Int64)
    ensures MinInt64 <= x <= MaxInt64 ==> r == x
    ensures (x - r) % TwoTo64 == 0
  {
    var m := x % TwoTo64;
    if m > MaxInt64 then m - TwoTo64 else m
  }

  /** `offset := (page - 1) * size`, both operations wrapping. */
  function Offset(page: Int64, size: Int64): Int64
  {
    Wrap64(Wrap64(page - 1) * size)
  }

  /** Without overflow the offset is the mathematical (page - 1) * size. */
  lemma OffsetExact(page: Int64, size: Int64)
    requires MinInt64 < page
    requires MinInt64 <= (page - 1) * size <= MaxInt64
    ensures Offset(page, size) == (page - 1) * size
  {
    assert Wrap64(page - 1) == page - 1;
  }

  /** The multiplication is not checked: page 2^62 + 1 with size 4 wraps
      round to offset 0, the first page. */
  lemma HugePageWrapsToStart()
    ensures Offset(0x4000_0000_0000_0001, 4) == 0
  {
  }

  /** The number of rows OFFSET skips in a table of `n` rows. gorm leaves
      a negative offset out of the SQL, so it skips nothing. */
  function Skip(offset: int, n: nat): (k: nat)
    ensures k <= n
  {
    if offset < 0 then 0 else if offset > n then n else offset
  }

  /** What `Offset(offset).Limit(limit)` returns from the rows `xs`: the
      consecutive run starting after the skipped rows, as long as `limit`
      allows (gorm leaves a negative limit out of the SQL, so there is no
      bound then) and the rows last. */
  ghost predicate IsWindow<T>(w: seq<T>, xs: seq<T>, offset: int, limit: int)
  {
    var start := Skip(offset, |xs|);
    && |w| == (if limit < 0 || |xs| - start <= limit then |xs| - start else limit)
    && forall k :: 0 <= k < |w| ==> w[k] == xs[start + k]
  }

  function Window<T>(xs: seq<T>, offset: int, limit: int): (w: seq<T>)
    ensures IsWindow(w, xs, offset, limit)
    ensures 0 <= limit ==> |w| <= limit
  {
    var rest := xs[Skip(offset, |xs|)..];
    if limit < 0 || |rest| <= limit then rest else rest[..limit]
  }

  /** The window is determined by its specification. */
  lemma WindowUnique<T>(w: seq<T>, xs: seq<T>, offset: int, limit: int)
    requires IsWindow(w, xs, offset, limit)
    ensures w == Window(xs, offset, limit)
  {
  }

  /** Page 0 of a non-negative size computes a negative offset, which is
      dropped, so it returns the same rows as page 1. */
  lemma PageZeroIsPageOne<T>(xs: seq<T>, size: Int64)
    requires 0 <= size
    ensures Window(xs, Offset(0, size), size) == Window(xs, Offset(1, size), size)
  {
    assert Offset(0, size) == -size;
    assert Offset(1, size) == 0;
  }

  /** A negative size is dropped as a limit, and for any page from 1 on
      (without overflow) the offset is dropped too: the whole table. */
  lemma NegativeSizeIsWholeTable<T>(xs: seq<T>, page: Int64, size: Int64)
    requires 1 <= page && size < 0
    requires MinInt64 <= (page - 1) * size
    ensures Window(xs, Offset(page, size), size) == xs
  {
    OffsetExact(page, size);
    NonNegativeTimesNegative(page - 1, size);
  }

  lemma NonNegativeTimesNegative(a: int, b: int)
    requires 0 <= a && b < 0
    ensures a * b <= 0
  {
  }

  lemma NextMultiple(k: nat, size: nat)
    requires 0 < k
    ensures (k - 1) * size + size == k * size
    ensures 0 <= (k - 1) * size
  {
  }

  /** Pages 1 to k of a given size, concatenated; page k starts at row
      (k - 1) * size, which is the handler's offset while it fits in 64
      bits (PageAtOffset). */
  function Pages<T>(xs: seq<T>, size: nat, k: nat): seq<T>
  {
    if k == 0 then [] else Pages(xs, size, k - 1) + Window(xs, (k - 1) * size, size)
  }

  /** The page that Pages takes for page number k is the window the
      handler reads for page k, as long as its offset does not wrap. */
  lemma PageAtOffset<T>(xs: seq<T>, size: nat, k: nat)
    requires 1 <= k <= MaxInt64 && size <= MaxInt64 && (k - 1) * size <= MaxInt64
    ensures Window(xs, Offset(k, size), size) == Window(xs, (k - 1) * size, size)
  {
    OffsetExact(k, size);
  }

  /** The rows before offset `o` followed by the window at `o` are the
      rows before `o + size`. */
  lemma WindowExtendsPrefix<T>(xs: seq<T>, o: nat, size: nat)
    ensures xs[..if o < |xs| then o else |xs|] + Window(xs, o, size)
         == xs[..if o + size < |xs| then o + size else |xs|]
  {
    var lo := if o < |xs| then o else |xs|;
    var hi := if o + size < |xs| then o + size else |xs|;
    assert Window(xs, o, size) == xs[lo..hi];
    assert xs[..lo] + xs[lo..hi] == xs[..hi];
  }

  /** Consecutive pages tile the table: pages 1 to k are exactly its first
      k * size rows, so once k * size covers the table they are all of it. */
  lemma {:induction false} PagesTileTable<T>(xs: seq<T>, size: nat, k: nat)
    ensures Pages(xs, size, k) == xs[..if k * size < |xs| then k * size else |xs|]
    ensures |xs| <= k * size ==> Pages(xs, size, k) == xs
  {
    if k > 0 {
      PagesTileTable(xs, size, k - 1);
      NextMultiple(k, size);
      var o: nat := (k - 1) * size;
      WindowExtendsPrefix(xs, o, size);
    }
  }
}
