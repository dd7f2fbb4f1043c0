/**
 * Splitting an ordered listing into pages of a fixed size, as the listings do with
 * `Paginator(post_list, size).get_page(request.GET.get('page'))`.
 */
module Pagination {
  import opened Wrappers

  /** Posts per page of the main, profile and follow listings. */
  const PER_PAGE: nat := 10

  /** Posts per page of the group listing. */
  const GROUP_PER_PAGE: nat := 2

  /** One page: its items, its 1-based number and how many pages the listing has. */
  datatype Page<T> = Page(items: seq<T>, number: nat, numPages: nat)

  /** The number of pages; an empty listing still has one (empty) page. */
  function NumPages(count: nat, perPage: nat): (n: nat)
    requires perPage > 0
    ensures n >= 1
    ensures count > 0 ==> n * perPage - perPage < count <= n * perPage
    ensures count == 0 ==> n == 1
  {
    if count == 0 then 1
    else
      var n := (count + perPage - 1) / perPage;
      assert count + perPage - 1 == n * perPage + (count + perPage - 1) % perPage;
      n
  }

  /**
   * The page actually served: the requested one when it is a page number in range, the first page
   * when the parameter is absent or not a number, the last page when it is out of range.
   */
  function PageNumber(requested: Option<int>, numPages: nat): (k: nat)
    requires numPages >= 1
    ensures 1 <= k <= numPages
    ensures requested.Some? && 1 <= requested.value <= numPages ==> k == requested.value
  {
    match requested
    case None => 1
    case Some(n) => if 1 <= n <= numPages then n else numPages
  }

  /** A missing or non-numeric page gives the first page; an out-of-range one gives the last. */
  lemma PageNumberClamps(requested: Option<int>, numPages: nat)
    requires numPages >= 1
    ensures requested.None? ==> PageNumber(requested, numPages) == 1
    ensures requested.Some? && !(1 <= requested.value <= numPages) ==> PageNumber(requested, numPages) == numPages
  {
  }

  /** The start of page `k` in the listing. */
  function PageStart(count: nat, perPage: nat, k: nat): (lo: nat)
    requires perPage > 0 && 1 <= k <= NumPages(count, perPage)
    ensures lo <= count
    ensures lo == (k - 1) * perPage
  {
    var n := NumPages(count, perPage);
    assert (k - 1) * perPage <= (n - 1) * perPage;
    (k - 1) * perPage
  }

  /** The end (exclusive) of page `k` in the listing. */
  function PageEnd(count: nat, perPage: nat, k: nat): (hi: nat)
    requires perPage > 0 && 1 <= k <= NumPages(count, perPage)
    ensures PageStart(count, perPage, k) <= hi <= count
    ensures hi - PageStart(count, perPage, k) <= perPage
  {
    var top := PageStart(count, perPage, k) + perPage;
    if top >= count then count else top
  }

  /** The items of page `k`: a contiguous slice of the listing. */
  function PageItems<T>(s: seq<T>, perPage: nat, k: nat): (r: seq<T>)
    requires perPage > 0 && 1 <= k <= NumPages(|s|, perPage)
    ensures |r| <= perPage
    ensures r == s[PageStart(|s|, perPage, k)..PageEnd(|s|, perPage, k)]
  {
    s[PageStart(|s|, perPage, k)..PageEnd(|s|, perPage, k)]
  }

  /** `Paginator(s, perPage).get_page(requested)`. */
  function GetPage<T>(s: seq<T>, perPage: nat, requested: Option<int>): (p: Page<T>)
    requires perPage > 0
    ensures p.numPages == NumPages(|s|, perPage)
    ensures 1 <= p.number <= p.numPages
    ensures |p.items| <= perPage
    ensures forall x :: x in p.items ==> x in s
    ensures p.number == PageNumber(requested, p.numPages)
    ensures p.items == PageItems(s, perPage, p.number)
  {
    var n := NumPages(|s|, perPage);
    var k := PageNumber(requested, n);
    Page(PageItems(s, perPage, k), k, n)
  }

  /** Multiplying by a page size keeps order. */
  lemma MulMonotonic(a: nat, b: nat, perPage: nat)
    requires a <= b
    ensures a * perPage <= b * perPage
  {
  }

  /** The page count is the only `n` whose last page ends at or past the listing's end and starts before it. */
  lemma NumPagesUnique(count: nat, perPage: nat, m: nat)
    requires perPage > 0 && count > 0
    requires m * perPage - perPage < count <= m * perPage
    ensures m == NumPages(count, perPage)
  {
    var n := NumPages(count, perPage);
    if m < n {
      assert (m + 1) * perPage == m * perPage + perPage;
      MulMonotonic(m + 1, n, perPage);
    } else if m > n {
      assert (n + 1) * perPage == n * perPage + perPage;
      MulMonotonic(n + 1, m, perPage);
    }
  }

  /** Every page before the last is full. */
  lemma FullPages<T>(s: seq<T>, perPage: nat, k: nat)
    requires perPage > 0 && 1 <= k < NumPages(|s|, perPage)
    ensures |PageItems(s, perPage, k)| == perPage
  {
    var n := NumPages(|s|, perPage);
    MulMonotonic(k + 1, n, perPage);
    assert (k + 1) * perPage == k * perPage + perPage;
    assert k * perPage == (k - 1) * perPage + perPage;
  }

  /** The last page holds the remainder of the listing, or a full page when the size divides it. */
  lemma LastPageSize<T>(s: seq<T>, perPage: nat)
    requires perPage > 0 && |s| > 0
    ensures |PageItems(s, perPage, NumPages(|s|, perPage))| == if |s| % perPage == 0 then perPage else |s| % perPage
  {
    var n := NumPages(|s|, perPage);
    var q := |s| / perPage;
    assert |s| == q * perPage + |s| % perPage;
    if |s| % perPage == 0 {
      NumPagesUnique(|s|, perPage, q);
    } else {
      assert (q + 1) * perPage == q * perPage + perPage;
      NumPagesUnique(|s|, perPage, q + 1);
    }
    assert n * perPage - perPage == (n - 1) * perPage;
  }

  /** Pages `k` to the last, one after the other. */
  function PagesFrom<T>(s: seq<T>, perPage: nat, k: nat): seq<T>
    requires perPage > 0 && 1 <= k <= NumPages(|s|, perPage)
    decreases NumPages(|s|, perPage) - k
  {
    if k == NumPages(|s|, perPage) then PageItems(s, perPage, k)
    else PageItems(s, perPage, k) + PagesFrom(s, perPage, k + 1)
  }

  /** Reading pages `k` to the last gives the listing from page `k`'s start on: nothing lost, nothing repeated. */
  lemma {:induction false} PagesFromCover<T>(s: seq<T>, perPage: nat, k: nat)
    requires perPage > 0 && 1 <= k <= NumPages(|s|, perPage)
    ensures PagesFrom(s, perPage, k) == s[PageStart(|s|, perPage, k)..]
    decreases NumPages(|s|, perPage) - k
  {
    var n := NumPages(|s|, perPage);
    if k == n {
      assert PageEnd(|s|, perPage, k) == |s|;
    } else {
      PagesFromCover(s, perPage, k + 1);
      assert k * perPage < |s| by {
        MulMonotonic(k + 1, n, perPage);
        assert (k + 1) * perPage == k * perPage + perPage;
      }
      assert PageEnd(|s|, perPage, k) == PageStart(|s|, perPage, k + 1);
      var lo, mid := PageStart(|s|, perPage, k), PageStart(|s|, perPage, k + 1);
      assert s[lo..] == s[lo..mid] + s[mid..];
    }
  }

  /** All pages together are exactly the listing. */
  lemma PagesCoverListing<T>(s: seq<T>, perPage: nat)
    requires perPage > 0
    ensures PagesFrom(s, perPage, 1) == s
  {
    PagesFromCover(s, perPage, 1);
  }

  /**
   * A listing one longer than a page: a full first page and a second page with the one left over,
   * which is the length modulo the page size once a page holds at least two items.
   */
  lemma OneMoreThanAPage<T>(s: seq<T>, perPage: nat)
    requires perPage >= 2 && |s| == perPage + 1
    ensures |GetPage(s, perPage, None).items| == perPage
    ensures |GetPage(s, perPage, Some(2)).items| == |s| % perPage
  {
    NumPagesUnique(|s|, perPage, 2);
    FullPages(s, perPage, 1);
    LastPageSize(s, perPage);
  }

}
