/** The pagination rule of the photo browse page: how the ranked entries of a category
    are cut into pages of a fixed size, how an out-of-range page request is clamped,
    and which zero-based inclusive index range is asked of the data layer for the page
    being served. Counts and pages are mathematical integers. */
module Pagination {

  /** The one way resolving a browse request can fail. */
  datatype PageError = EmptyCategory

  /** A resolved browse request: the clamped page, the number of pages, and the
      zero-based inclusive index range fetched for that page. */
  datatype Page = Page(currentPage: int, numPages: int, start: int, end: int)

  datatype Resolution = Resolved(page: Page) | Failed(error: PageError)

  function Min(a: int, b: int): int { if a <= b then a else b }

  function Distance(a: int, b: int): nat { if a <= b then b - a else a - b }

  /** Number of pages: the integer quotient, plus one when there is a remainder. */
  function NumPages(numEntries: int, pageSize: int): (n: int)
    requires numEntries >= 1 && pageSize >= 1
    ensures n >= 1
    ensures (n - 1) * pageSize < numEntries <= n * pageSize
  {
    var q, r := numEntries / pageSize, numEntries % pageSize;
    assert numEntries == q * pageSize + r && 0 <= r < pageSize;
    if r != 0 then
      assert (q + 1) * pageSize == q * pageSize + pageSize;
      q + 1
    else
      assert (q - 1) * pageSize == q * pageSize - pageSize;
      q
  }

  /** The requested page moved to the nearest page of [1, numPages]. */
  function Clamp(page: int, numPages: int): (c: int)
    requires numPages >= 1
    ensures 1 <= c <= numPages
    ensures 1 <= page <= numPages ==> c == page
    ensures forall q :: 1 <= q <= numPages ==> Distance(c, page) <= Distance(q, page)
  {
    if page < 1 then 1 else if page > numPages then numPages else page
  }

  /** First index of a page (zero-based): the pages before it hold pageSize indices each. */
  function RangeStart(page: int, pageSize: int): (s: int)
    ensures page >= 1 && pageSize >= 0 ==> s >= 0
  {
    (page - 1) * pageSize
  }

  /** Last index of a page (zero-based, inclusive); it may lie past the last entry. */
  function RangeEnd(page: int, pageSize: int): (e: int)
    ensures e - RangeStart(page, pageSize) + 1 == pageSize
    ensures e + 1 == RangeStart(page + 1, pageSize)
  {
    (page - 1) * pageSize + (pageSize - 1)
  }

  /** Condition of the fetch branch meant for pages holding a full page of entries. */
  predicate FullPageGuard(currentPage: int, numPages: int, numEntries: int, pageSize: int): (b: bool)
    requires pageSize >= 1
    ensures 1 <= currentPage <= numPages ==> (b <==> currentPage < numPages || numEntries % pageSize == 0)
  {
    (currentPage == numPages && numEntries % pageSize == 0) || (numPages >= 1 && currentPage < numPages)
  }

  /** Condition of the fetch branch meant for a last page holding fewer entries. */
  predicate LastPartialGuard(currentPage: int, numPages: int, numEntries: int, pageSize: int): (b: bool)
    requires pageSize >= 1
    ensures b ==> !FullPageGuard(currentPage, numPages, numEntries, pageSize)
  {
    currentPage == numPages && numEntries % pageSize != 0
  }

  /** Number of existing entries on a page: those of its range below numEntries. */
  function EntriesOnPage(numEntries: int, page: int, pageSize: int): int
  {
    Min(pageSize, numEntries - RangeStart(page, pageSize))
  }

  /** What a resolved request promises about the numbers it hands on. */
  predicate WellFormed(p: Page, numEntries: int, pageSize: int)
  {
    p.numPages >= 1 &&
    (p.numPages - 1) * pageSize < numEntries <= p.numPages * pageSize &&
    1 <= p.currentPage <= p.numPages &&
    0 <= p.start < numEntries &&
    p.end - p.start + 1 == pageSize &&
    p.start == RangeStart(p.currentPage, pageSize)
  }

  /** The whole browse-page rule: empty category, page count, clamping, fetch range. */
  function ResolvePage(numEntries: int, requestedPage: int, pageSize: int): (r: Resolution)
    requires pageSize >= 1
    ensures r.Failed? <==> numEntries < 1
    ensures r.Failed? ==> r.error == EmptyCategory
    ensures r.Resolved? ==> WellFormed(r.page, numEntries, pageSize)
    ensures r.Resolved? && 1 <= requestedPage <= r.page.numPages ==> r.page.currentPage == requestedPage
    ensures r.Resolved? ==> forall q :: 1 <= q <= r.page.numPages ==>
      Distance(r.page.currentPage, requestedPage) <= Distance(q, requestedPage)
  {
    if numEntries < 1 then Failed(EmptyCategory)
    else
      var n := NumPages(numEntries, pageSize);
      var c := Clamp(requestedPage, n);
      StartOfValidPage(numEntries, pageSize, c);
      Resolved(Page(c, n, RangeStart(c, pageSize), RangeEnd(c, pageSize)))
  }

  /** The first index of every page names an existing entry. */
  lemma StartOfValidPage(numEntries: int, pageSize: int, page: int)
    requires numEntries >= 1 && pageSize >= 1
    requires 1 <= page <= NumPages(numEntries, pageSize)
    ensures 0 <= RangeStart(page, pageSize) < numEntries
  {
  }

  lemma MulMonotone(a: int, b: int, c: int)
    requires a <= b && c >= 0
    ensures a * c <= b * c
  {
    assert b * c - a * c == (b - a) * c;
  }

  /** The page count is the ceiling of numEntries / pageSize: it is the only n with
      (n - 1) * pageSize < numEntries <= n * pageSize. */
  lemma NumPagesIsCeiling(numEntries: int, pageSize: int, n: int)
    requires numEntries >= 1 && pageSize >= 1
    requires (n - 1) * pageSize < numEntries <= n * pageSize
    ensures n == NumPages(numEntries, pageSize)
  {
    var m := NumPages(numEntries, pageSize);
    if n < m {
      MulMonotone(n, m - 1, pageSize);
    } else if m < n {
      MulMonotone(m, n - 1, pageSize);
    }
  }

  /** The two-branch page count equals the usual closed form of the ceiling. */
  lemma NumPagesClosedForm(numEntries: int, pageSize: int)
    requires numEntries >= 1 && pageSize >= 1
    ensures NumPages(numEntries, pageSize) == (numEntries + pageSize - 1) / pageSize
  {
    var n, r := (numEntries + pageSize - 1) / pageSize, (numEntries + pageSize - 1) % pageSize;
    assert numEntries + pageSize - 1 == n * pageSize + r;
    assert (n - 1) * pageSize == n * pageSize - pageSize;
    NumPagesIsCeiling(numEntries, pageSize, n);
  }

  /** Clamping twice is clamping once. */
  lemma ClampIdempotent(page: int, numPages: int)
    requires numPages >= 1
    ensures Clamp(Clamp(page, numPages), numPages) == Clamp(page, numPages)
  {
  }

  /** Clamping is the nearest-page choice: no other page of [1, numPages] is as near. */
  lemma ClampIsUniqueNearest(page: int, numPages: int, c: int)
    requires numPages >= 1 && 1 <= c <= numPages
    requires forall q :: 1 <= q <= numPages ==> Distance(c, page) <= Distance(q, page)
    ensures c == Clamp(page, numPages)
  {
    var k := Clamp(page, numPages);
    assert Distance(c, page) <= Distance(k, page);
  }

  /** Once the count is at least one and the page is clamped, one of the two fetch
      conditions holds: the error branch after them cannot be reached. The first
      condition holds exactly when the page is full, the second exactly when it is not. */
  lemma FetchBranchTaken(numEntries: int, pageSize: int, currentPage: int)
    requires numEntries >= 1 && pageSize >= 1
    requires 1 <= currentPage <= NumPages(numEntries, pageSize)
    ensures FullPageGuard(currentPage, NumPages(numEntries, pageSize), numEntries, pageSize)
         || LastPartialGuard(currentPage, NumPages(numEntries, pageSize), numEntries, pageSize)
    ensures FullPageGuard(currentPage, NumPages(numEntries, pageSize), numEntries, pageSize)
        <==> EntriesOnPage(numEntries, currentPage, pageSize) == pageSize
    ensures LastPartialGuard(currentPage, NumPages(numEntries, pageSize), numEntries, pageSize)
        <==> EntriesOnPage(numEntries, currentPage, pageSize) < pageSize
  {
    var n := NumPages(numEntries, pageSize);
    var q, r := numEntries / pageSize, numEntries % pageSize;
    assert numEntries == q * pageSize + r;
    if currentPage < n {
      MulMonotone(currentPage, n - 1, pageSize);
      assert RangeStart(currentPage, pageSize) + pageSize == currentPage * pageSize;
    } else {
      assert RangeStart(n, pageSize) == n * pageSize - pageSize;
      if r == 0 {
        assert n == q;
      } else {
        assert n == q + 1;
        assert RangeStart(n, pageSize) == q * pageSize;
      }
    }
  }

  /** Both fetch branches ask for the same range, of exactly pageSize indices, whose first
      index exists; the page served holds between one and pageSize entries, and fewer than
      pageSize only on the last page when pageSize does not divide the count. */
  lemma PageFill(numEntries: int, pageSize: int, currentPage: int)
    requires numEntries >= 1 && pageSize >= 1
    requires 1 <= currentPage <= NumPages(numEntries, pageSize)
    ensures RangeEnd(currentPage, pageSize) - RangeStart(currentPage, pageSize) + 1 == pageSize
    ensures 0 <= RangeStart(currentPage, pageSize) <= numEntries - 1
    ensures 1 <= EntriesOnPage(numEntries, currentPage, pageSize) <= pageSize
    ensures EntriesOnPage(numEntries, currentPage, pageSize) < pageSize
        <==> currentPage == NumPages(numEntries, pageSize) && numEntries % pageSize != 0
  {
    StartOfValidPage(numEntries, pageSize, currentPage);
    FetchBranchTaken(numEntries, pageSize, currentPage);
  }

  /** A number lying in [k * d, k * d + d) has quotient k. */
  lemma QuotientInRange(x: int, d: int, k: int)
    requires d >= 1 && k * d <= x < k * d + d
    ensures x / d == k
  {
    var q, r := x / d, x % d;
    assert x == q * d + r;
    if q < k {
      assert (q + 1) * d == q * d + d;
      MulMonotone(q + 1, k, d);
    } else if q > k {
      assert (k + 1) * d == k * d + d;
      MulMonotone(k + 1, q, d);
    }
  }

  /** Every entry lies on a page, the one numbered index / pageSize + 1 ... */
  lemma EntryOnPage(numEntries: int, pageSize: int, index: int)
    requires numEntries >= 1 && pageSize >= 1 && 0 <= index < numEntries
    ensures 1 <= index / pageSize + 1 <= NumPages(numEntries, pageSize)
    ensures RangeStart(index / pageSize + 1, pageSize) <= index <= RangeEnd(index / pageSize + 1, pageSize)
  {
    var q, r := index / pageSize, index % pageSize;
    assert index == q * pageSize + r;
    assert RangeStart(q + 1, pageSize) == q * pageSize;
    var n := NumPages(numEntries, pageSize);
    if n < q + 1 {
      MulMonotone(n, q, pageSize);
    }
  }

  /** ... and on no other page. */
  lemma EntryOnOnePage(pageSize: int, index: int, page: int)
    requires pageSize >= 1
    requires RangeStart(page, pageSize) <= index <= RangeEnd(page, pageSize)
    ensures page == index / pageSize + 1
  {
    QuotientInRange(index, pageSize, page - 1);
  }

  /** The entries the data layer returns for a zero-based inclusive range: those of
      the range that exist, in rank order. The data layer is not part of this model;
      this is the behaviour the browse page relies on. */
  function SliceRange<T>(entries: seq<T>, start: int, end: int): (s: seq<T>)
    requires 0 <= start
    ensures start <= end + 1 ==> |s| <= end + 1 - start
    ensures |s| == if Min(end + 1, |entries|) <= start then 0 else Min(end + 1, |entries|) - start
    ensures forall k :: 0 <= k < |s| ==> s[k] == entries[start + k]
  {
    var lo := Min(start, |entries|);
    var hi := if end + 1 < lo then lo else Min(end + 1, |entries|);
    entries[lo..hi]
  }

  /** The data layer's answer for a page holds exactly the entries the page counts. */
  lemma ServedSize<T>(entries: seq<T>, pageSize: int, p: int)
    requires |entries| >= 1 && pageSize >= 1 && 1 <= p <= NumPages(|entries|, pageSize)
    ensures |SliceRange(entries, RangeStart(p, pageSize), RangeEnd(p, pageSize))| == EntriesOnPage(|entries|, p, pageSize)
  {
    StartOfValidPage(|entries|, pageSize, p);
  }

  /** The last of the three pages of seven entries holds one. */
  lemma ServedSizeSevenEntries<T>(entries: seq<T>)
    requires |entries| == 7
    ensures |SliceRange(entries, 6, 8)| == 1
  {
    ServedSize(entries, 3, 3);
  }

  /** The pages from page p to page numPages, in order, concatenated. */
  function PagesFrom<T>(entries: seq<T>, p: int, numPages: int, pageSize: int): seq<T>
    requires 1 <= p && pageSize >= 1
    decreases numPages - p + 1
  {
    if p > numPages then []
    else SliceRange(entries, RangeStart(p, pageSize), RangeEnd(p, pageSize))
         + PagesFrom(entries, p + 1, numPages, pageSize)
  }

  /** Browsing every page in turn shows each entry exactly once, in rank order. */
  lemma AllPagesCoverEntries<T>(entries: seq<T>, pageSize: int)
    requires |entries| >= 1 && pageSize >= 1
    ensures PagesFrom(entries, 1, NumPages(|entries|, pageSize), pageSize) == entries
  {
    PagesFromIsSuffix(entries, 1, pageSize);
  }

  lemma {:induction false} PagesFromIsSuffix<T>(entries: seq<T>, p: int, pageSize: int)
    requires |entries| >= 1 && pageSize >= 1
    requires 1 <= p <= NumPages(|entries|, pageSize) + 1
    ensures PagesFrom(entries, p, NumPages(|entries|, pageSize), pageSize)
         == entries[Min(RangeStart(p, pageSize), |entries|)..]
    decreases NumPages(|entries|, pageSize) - p + 1
  {
    var n := NumPages(|entries|, pageSize);
    if p > n {
      assert RangeStart(p, pageSize) == n * pageSize;
    } else {
      var lo, end := RangeStart(p, pageSize), RangeEnd(p, pageSize);
      var hi := Min(end + 1, |entries|);
      StartOfValidPage(|entries|, pageSize, p);
      PagesFromIsSuffix(entries, p + 1, pageSize);
      assert PagesFrom(entries, p + 1, n, pageSize) == entries[hi..];
      SliceOfPage(entries, lo, end);
      assert entries[lo..hi] + entries[hi..] == entries[lo..];
    }
  }

  lemma SliceOfPage<T>(entries: seq<T>, lo: int, end: int)
    requires 0 <= lo < |entries| && lo <= end + 1
    ensures SliceRange(entries, lo, end) == entries[lo..Min(end + 1, |entries|)]
  {
  }

  /** Seven entries, page 5 asked for: the last of three pages. */
  lemma ResolveSevenEntries()
    ensures ResolvePage(7, 5, 3) == Resolved(Page(3, 3, 6, 8))
  {
  }

  /** Nine entries, page 2 asked for: the middle one of three full pages. */
  lemma ResolveNineEntries()
    ensures ResolvePage(9, 2, 3) == Resolved(Page(2, 3, 3, 5))
  {
  }
}
