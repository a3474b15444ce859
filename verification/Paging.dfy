/** The page cursor of list.go and the client-side window of catalogops/list.go. */
module Paging {
  import opened Decimals
  import opened Args
  import opened Accessors

  datatype List = List(start: int, limit: int)

  /** The requested page size: never negative, and the default when it is zero. */
  function EffectiveSize(pageSize: int, defaultPageSize: int): int {
    var size := if pageSize < 0 then 0 else pageSize;
    if defaultPageSize > 0 && size < 1 then defaultPageSize else size
  }

  function EffectivePage(page: int): int {
    if page < 1 then 1 else page
  }

  /** The offset of a page, held at the largest int when it would not fit. */
  function Clamped(offset: int, max: int): int {
    if offset > max then max else offset
  }

  lemma {:induction false} QuotientBounds(p: nat, s: nat, max: nat)
    requires s > 0
    ensures p > max / s <==> p * s > max
  {
    var q := max / s;
    assert max == q * s + max % s;
    if p > q {
      assert p * s >= (q + 1) * s;
      assert (q + 1) * s == q * s + s;
    } else {
      assert p * s <= q * s;
    }
  }

  /** parseList: the overflow test by division clamps exactly when the product overflows. */
  method ParseList(env: Env, input: Input, defaultPageSize: int) returns (l: List)
    ensures l.limit == EffectiveSize(IntArgOf(env, input, "page-size", 0), defaultPageSize)
    ensures l.limit >= 0
    ensures l.start == Clamped(PageOffset(IntArgOf(env, input, "page", 1), l.limit), MaxInt(env.width))
    ensures 0 <= l.start <= MaxInt(env.width)
    ensures var size := IntArgOf(env, input, "page-size", 0);
            && (size >= 1 ==> l.limit == size)
            && (size < 1 && defaultPageSize >= 1 ==> l.limit == defaultPageSize)
            && (size < 1 && defaultPageSize < 1 ==> l.limit == 0)
    ensures var page := IntArgOf(env, input, "page", 1);
            && (page <= 1 || l.limit == 0 ==> l.start == 0)
            && (page > 1 && (page - 1) * l.limit <= MaxInt(env.width) ==> l.start == (page - 1) * l.limit)
            && (page > 1 && (page - 1) * l.limit > MaxInt(env.width) ==> l.start == MaxInt(env.width))
    ensures Get(input, "page").None? ==> l.start == 0
    ensures Get(input, "page-size").None? && defaultPageSize >= 1 ==> l.limit == defaultPageSize
  {
    var page := IntArgOf(env, input, "page", 1);
    if page < 1 {
      page := 1;
    }
    var pageSize := IntArgOf(env, input, "page-size", 0);
    if pageSize < 0 {
      pageSize := 0;
    }
    if defaultPageSize > 0 && pageSize < 1 {
      pageSize := defaultPageSize;
    }
    var start := 0;
    if pageSize > 0 {
      QuotientBounds(page - 1, pageSize, MaxInt(env.width));
      if page - 1 > MaxInt(env.width) / pageSize {
        start := MaxInt(env.width);
      } else {
        start := (page - 1) * pageSize;
      }
      ProductNonNegative(page - 1, pageSize);
    }
    return List(start, pageSize);
  }

  /** slicePage: what is left from `start` on, cut at `limit` unless that is 0. */
  lemma SliceExactly<T>(items: seq<T>, start: nat, limit: nat)
    ensures SlicePage(items, start, limit) ==
              if start >= |items| then []
              else if limit == 0 || start + limit >= |items| then items[start..]
              else items[start..start + limit]
  {
  }

  /** slicePage. */
  function SlicePage<T>(items: seq<T>, start: int, limit: int): seq<T> {
    if start > 0 && start >= |items| then []
    else
      var rest := if start > 0 then items[start..] else items;
      if limit > 0 && |rest| > limit then rest[..limit] else rest
  }

  function Min(a: int, b: int): int {
    if a < b then a else b
  }

  function Window<T>(items: seq<T>, start: nat, limit: nat): seq<T> {
    if start >= |items| then [] else items[start..Min(|items|, start + limit)]
  }

  function PageOffset(page: int, size: nat): (offset: nat) {
    ProductNonNegative(EffectivePage(page) - 1, size);
    (EffectivePage(page) - 1) * size
  }

  lemma ProductNonNegative(a: nat, b: nat)
    ensures a * b >= 0
  {
  }

  lemma ProductMonotone(a: nat, b: nat, c: nat)
    requires a <= b
    ensures a * c <= b * c
  {
    assert b * c == a * c + (b - a) * c;
    ProductNonNegative(b - a, c);
  }

  /** The items of page `page` as a caller gets them: cursor, then window. */
  function PageOf<T>(items: seq<T>, page: int, size: nat, max: int): seq<T> {
    SlicePage(items, Clamped(PageOffset(page, size), max), size)
  }

  /** Clamping the cursor never shows: a page of a positive size is the stretch of the
      list from its exact offset on. */
  lemma PageIsWindow<T>(items: seq<T>, page: int, size: nat, max: int)
    requires size > 0 && |items| <= max
    ensures PageOf(items, page, size, max) == Window(items, PageOffset(page, size), size)
  {
  }

  function FirstPages<T>(items: seq<T>, count: nat, size: nat, max: int): seq<T> {
    if count == 0 then [] else FirstPages(items, count - 1, size, max) + PageOf(items, count, size, max)
  }

  lemma NextOffset(count: nat, size: nat)
    requires count > 0
    ensures count * size == (count - 1) * size + size
  {
  }

  lemma PrefixThenWindow<T>(items: seq<T>, offset: nat, size: nat)
    ensures items[..Min(|items|, offset)] + Window(items, offset, size) == items[..Min(|items|, offset + size)]
  {
  }

  /** Laid end to end, the first pages are a prefix of the list, clamped or not. */
  lemma {:induction false} FirstPagesArePrefix<T>(items: seq<T>, count: nat, size: nat, max: int)
    requires size > 0 && |items| <= max
    ensures FirstPages(items, count, size, max) == items[..Min(|items|, count * size)]
  {
    if count == 0 {
    } else {
      FirstPagesArePrefix(items, count - 1, size, max);
      PageIsWindow(items, count, size, max);
      var offset := PageOffset(count, size);
      assert count * size == offset + size by { NextOffset(count, size); }
      PrefixThenWindow(items, offset, size);
    }
  }

  function CeilDiv(n: nat, d: nat): nat
    requires d > 0
  {
    (n + d - 1) / d
  }

  lemma {:induction false} CeilDivBounds(n: nat, d: nat)
    requires d > 0
    ensures CeilDiv(n, d) * d >= n
    ensures n > 0 ==> (CeilDiv(n, d) - 1) * d < n
    ensures n > 0 ==> 1 <= CeilDiv(n, d) <= n / d + 1
  {
    var q := CeilDiv(n, d);
    assert n + d - 1 == q * d + (n + d - 1) % d;
    assert (q - 1) * d == q * d - d;
    if n > 0 {
      QuotientBounds(q - 1, d, n);
      QuotientBounds(q, d, n + d - 1);
      QuotientBounds(1, d, n + d - 1);
    }
  }

  lemma {:induction false} LaterPageEmpty<T>(items: seq<T>, size: nat, max: int, page: int)
    requires |items| <= max && size > 0
    requires page > CeilDiv(|items|, size) && page > 1
    ensures PageOf(items, page, size, max) == []
  {
    CeilDivBounds(|items|, size);
    ProductMonotone(CeilDiv(|items|, size), page - 1, size);
    PageIsWindow(items, page, size, max);
  }

  lemma UnpagedIsWhole<T>(items: seq<T>, max: int, page: int)
    requires |items| <= max
    ensures PageOf(items, page, 0, max) == items
  {
    assert PageOffset(page, 0) == 0;
  }

  /** Pages 1..ceil(n/size) give the list back, each item once and in order; every
      later page is empty; without a page size any page is the whole list. */
  lemma {:induction false} PagesTileTheList<T>(items: seq<T>, size: nat, max: int)
    requires |items| <= max
    ensures size > 0 ==> FirstPages(items, CeilDiv(|items|, size), size, max) == items
    ensures size > 0 ==>
              forall page :: page > CeilDiv(|items|, size) && page > 1 ==> PageOf(items, page, size, max) == []
    ensures size == 0 ==> forall page :: PageOf(items, page, size, max) == items
  {
    if size > 0 {
      CeilDivBounds(|items|, size);
      FirstPagesArePrefix(items, CeilDiv(|items|, size), size, max);
      forall page | page > CeilDiv(|items|, size) && page > 1 ensures PageOf(items, page, size, max) == [] {
        LaterPageEmpty(items, size, max, page);
      }
    } else {
      forall page ensures PageOf(items, page, size, max) == items {
        UnpagedIsWhole(items, max, page);
      }
    }
  }

  /** The backend's exclusive end, start + limit in machine arithmetic, lies beyond
      the start exactly when the limit is positive and the sum does not overflow. */
  lemma EndBeyondStart(start: int, limit: int, w: IntWidth)
    requires 0 <= start <= MaxInt(w) && 0 <= limit <= MaxInt(w)
    ensures WrapInt(start + limit, w) > start <==> limit > 0 && start <= MaxInt(w) - limit
  {
    if start + limit > MaxInt(w) {
      assert (start + limit + Half(w)) - 2 * Half(w) == (start + limit + Half(w)) % (2 * Half(w));
    }
  }
}
