/**
 * Page arithmetic shared by the backend and the client-side mock: LINQ
 * `Skip`/`Take`, JavaScript `Array.prototype.slice`, ceiling division, and
 * the page envelope returned by a list query.
 */
module Paging {
  import opened Books

  function Min(a: int, b: int): int { if a <= b then a else b }

  function Max(a: int, b: int): int { if a >= b then a else b }

  /** LINQ `s.Skip(skip).Take(take)`: a negative skip skips nothing, a non-positive take takes nothing. */
  function SkipTake<T>(s: seq<T>, skip: int, take: int): (r: seq<T>)
    ensures |r| == Min(Max(take, 0), Max(0, |s| - Max(skip, 0)))
    ensures forall i :: 0 <= i < |r| ==> r[i] == s[Max(skip, 0) + i]
  {
    var from := Min(Max(skip, 0), |s|);
    var to := from + Min(Max(take, 0), |s| - from);
    s[from..to]
  }

  /** `page` is the run of `s` that starts at index `skip`. */
  ghost predicate RunAt<T>(page: seq<T>, s: seq<T>, skip: int)
  {
    forall i :: 0 <= i < |page| ==> 0 <= skip + i < |s| && page[i] == s[skip + i]
  }

  /**
   * The number of items before page `pageNumber` when every page holds
   * `pageSize`, as an unbounded integer (the backend's 32-bit product can wrap).
   */
  function Offset(pageNumber: int, pageSize: int): int
  {
    (pageNumber - 1) * pageSize
  }

  /** A page of `size` items at a non-negative offset: its length, emptiness past the end, and contents. */
  lemma PageOf<T>(s: seq<T>, skip: int, size: int)
    requires skip >= 0 && size >= 1
    ensures |SkipTake(s, skip, size)| == Min(size, Max(0, |s| - skip))
    ensures skip >= |s| ==> SkipTake(s, skip, size) == []
    ensures RunAt(SkipTake(s, skip, size), s, skip)
  {
  }

  lemma SliceSplit<T>(s: seq<T>, a: int, b: int)
    requires 0 <= a <= b <= |s|
    ensures s[a..] == s[a..b] + s[b..]
  {
  }

  /** The first page holds everything when everything fits on it. */
  lemma WholePage<T>(s: seq<T>, size: int)
    requires |s| <= size
    ensures SkipTake(s, Offset(1, size), size) == s
  {
    assert Offset(1, size) == 0;
  }

  /** A page of a sorted sequence is sorted and holds only books of that sequence. */
  lemma SkipTakeSorted(c: Comparator, s: seq<Book>, skip: int, take: int)
    requires SortedBy(c, s)
    ensures SortedBy(c, SkipTake(s, skip, take))
    ensures forall b :: b in SkipTake(s, skip, take) ==> b in multiset(s)
  {
    var r := SkipTake(s, skip, take);
    forall i, j | 0 <= i < j < |r| ensures Cmp(c, r[i], r[j]) <= 0 {
      assert r[i] == s[Max(skip, 0) + i] && r[j] == s[Max(skip, 0) + j];
    }
  }

  /** How `slice` resolves an index: negative counts from the end, and both ends clamp to the length. */
  function JsIndex(len: nat, k: int): (r: nat)
    ensures r <= len
    ensures 0 <= k <= len ==> r == k
  {
    if k < 0 then Max(len + k, 0) else Min(k, len)
  }

  /** JavaScript `s.slice(start, end)` for integer arguments. */
  function JsSlice<T>(s: seq<T>, start: int, end: int): seq<T>
  {
    var from := JsIndex(|s|, start);
    var to := JsIndex(|s|, end);
    if from < to then s[from..to] else []
  }

  /** Negative `slice` bounds within the length count back from the end. */
  lemma JsSliceFromEnd<T>(s: seq<T>, start: int, end: int)
    requires -|s| <= start <= end < 0
    ensures JsSlice(s, start, end) == JsSlice(s, |s| + start, |s| + end)
  {
  }

  /** For a non-negative offset, `slice(k, k + n)` is the same page as `Skip(k).Take(n)`. */
  lemma SliceIsSkipTake<T>(s: seq<T>, start: int, size: int)
    requires 0 <= start && 0 <= size
    ensures JsSlice(s, start, start + size) == SkipTake(s, start, size)
  {
    var r, q := JsSlice(s, start, start + size), SkipTake(s, start, size);
    assert |r| == |q|;
    forall i | 0 <= i < |r| ensures r[i] == q[i] {
    }
  }

  /** `pages` pages of `size` items hold `total` items, and one page fewer would not. */
  predicate IsPageCount(total: nat, size: int, pages: int)
  {
    pages * size >= total && (pages == 0 || (pages - 1) * size < total)
  }

  /** The least `r` with `r * d >= n`: the number of pages of size `d` that hold `n` items. */
  function CeilDiv(n: nat, d: int): (r: nat)
    requires d >= 1
    ensures IsPageCount(n, d, r)
  {
    var q := (n + d - 1) / d;
    var m := (n + d - 1) % d;
    assert n + d - 1 == q * d + m && 0 <= m < d;
    assert q * d >= n;
    assert (q - 1) * d == q * d - d;
    q
  }

  /** A JavaScript page count: a whole number, or Infinity/NaN after a division by zero. */
  datatype Pages = Count(n: int) | NotFinite

  /** JavaScript `Math.ceil(n / d)` for a count `n` and an integer `d`. */
  function JsCeilDiv(n: nat, d: int): (r: Pages)
    ensures d >= 1 ==> r == Count(CeilDiv(n, d))
    ensures r.NotFinite? <==> d == 0
    ensures d < 0 ==> r.Count? && r.n <= 0
  {
    if d == 0 then NotFinite
    else if d > 0 then Count(CeilDiv(n, d))
    else Count(-(n / -d))
  }

  /** The page envelope (`PagedBookResult`) of a list query. */
  datatype PagedResult = PagedResult(
    books: seq<Book>,
    pageNumber: int,
    pageSize: int,
    totalCount: nat,
    totalPages: Pages,
    sortField: string,
    sortOrder: string,
    category: string)
}
