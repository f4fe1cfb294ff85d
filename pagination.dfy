/**
 * Client-side pagination shared by the groups grid, the groups API mock and
 * the placeholders table: page `p` (1-based) of a list is
 * `list.slice((p - 1) * size, (p - 1) * size + size)` and the number of pages
 * is `Math.ceil(list.length / size)`.
 */
module Pagination {
  import opened Lists

  function Min(a: int, b: int): int {
    if a <= b then a else b
  }

  function Max(a: int, b: int): int {
    if a >= b then a else b
  }

  /** `Math.ceil(n / size)`: the fewest pages of `size` items that hold `n` items. */
  function TotalPages(n: nat, size: nat): (r: nat)
    requires size > 0
    ensures n <= r * size
    ensures r > 0 ==> (r - 1) * size < n
    ensures r == 0 <==> n == 0
  {
    var r := (n + size - 1) / size;
    assert r * size <= n + size - 1 < (r + 1) * size;
    r
  }

  /** Index of the first item of page `page`. */
  function PageStart(page: int, size: nat): int {
    (page - 1) * size
  }

  /** The items shown on page `page`. */
  function Page<T>(items: seq<T>, page: int, size: nat): (r: seq<T>)
    ensures page >= 1 ==> |r| <= size
    ensures page >= 1 ==>
              r == items[Min(PageStart(page, size), |items|)..Min(PageStart(page, size) + size, |items|)]
  {
    assert page >= 1 ==> PageStart(page, size) >= 0;
    JsSlice(items, PageStart(page, size), PageStart(page, size) + size)
  }

  /** Pages 1 to `k`, one after the other. */
  function PagesUpTo<T>(items: seq<T>, size: nat, k: nat): seq<T> {
    if k == 0 then [] else PagesUpTo(items, size, k - 1) + Page(items, k, size)
  }

  lemma {:induction false} PagesUpToPrefix<T>(items: seq<T>, size: nat, k: nat)
    ensures PagesUpTo(items, size, k) == items[..Min(k * size, |items|)]
  {
    if k > 0 {
      PagesUpToPrefix(items, size, k - 1);
      var a := PageStart(k, size);
      NextPageStart(k, size);
      PrefixJoin(items, a, a + size);
    }
  }

  lemma NextPageStart(k: nat, size: nat)
    requires k > 0
    ensures PageStart(k, size) == (k - 1) * size >= 0
    ensures PageStart(k, size) + size == k * size
  {
  }

  /** The prefix up to `x` followed by the slice from `x` to `y` is the prefix up to `y`. */
  lemma PrefixJoin<T>(items: seq<T>, x: int, y: int)
    requires 0 <= x <= y
    ensures items[..Min(x, |items|)] + items[Min(x, |items|)..Min(y, |items|)] == items[..Min(y, |items|)]
  {
  }

  /** Reading pages 1 to `TotalPages` in order gives back the whole list, each item once. */
  lemma PagesReassemble<T>(items: seq<T>, size: nat)
    requires size > 0
    ensures PagesUpTo(items, size, TotalPages(|items|, size)) == items
  {
    PagesUpToPrefix(items, size, TotalPages(|items|, size));
  }

  /** Every page from 1 to `TotalPages` holds at least one item. */
  lemma PageNonEmpty<T>(items: seq<T>, page: int, size: nat)
    requires size > 0 && 1 <= page <= TotalPages(|items|, size)
    ensures 0 <= PageStart(page, size) < |items|
    ensures |Page(items, page, size)| > 0
  {
    var t := TotalPages(|items|, size);
    var start := PageStart(page, size);
    MulMonotone(page - 1, t - 1, size);
    assert start <= (t - 1) * size < |items|;
    assert Page(items, page, size) == items[start..Min(start + size, |items|)];
  }

  lemma MulMonotone(a: nat, b: nat, c: nat)
    requires a <= b
    ensures a * c <= b * c
  {
  }
}
