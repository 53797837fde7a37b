/** The page bar of the catalog's pagination control: which page buttons and "..."
    gaps it shows, the "Showing x - y of n" item range, the guard that hides the bar,
    and the range check of the jump-to-page input. */
module Pagination {
  import opened Seqs

  /** One entry of the bar: a page button or the "..." gap. */
  datatype PageItem = Number(page: int) | Ellipsis

  /** At most this many consecutive pages are shown around the current one. */
  const MaxVisible: int := 5

  function Max(a: int, b: int): int { if a >= b then a else b }
  function Min(a: int, b: int): int { if a <= b then a else b }

  /** First page of the window around `currentPage`. */
  function WindowStart(currentPage: int): int
  {
    Max(1, currentPage - 2)
  }

  /** Last page of the window around `currentPage`. */
  function WindowEnd(currentPage: int, totalPages: int): int
  {
    Min(totalPages, WindowStart(currentPage) + MaxVisible - 1)
  }

  /** The buttons `lo, lo + 1, ..., hi` (none when `lo > hi`). */
  function PageRun(lo: int, hi: int): (r: seq<PageItem>)
    ensures |r| == Max(0, hi - lo + 1)
    ensures forall k :: 0 <= k < |r| ==> r[k] == Number(lo + k)
    decreases hi - lo + 1
  {
    if lo > hi then [] else [Number(lo)] + PageRun(lo + 1, hi)
  }

  /** A run grows by one button at its end. */
  lemma PageRunSnoc(lo: int, hi: int)
    requires lo <= hi + 1
    ensures PageRun(lo, hi + 1) == PageRun(lo, hi) + [Number(hi + 1)]
  {
    var r, r' := PageRun(lo, hi), PageRun(lo, hi + 1);
    assert forall k :: 0 <= k < |r'| ==> r'[k] == (r + [Number(hi + 1)])[k];
  }

  /** What precedes the window: page 1 when the window starts later, then "..."
      when at least one page is skipped. */
  function Leading(start: int): seq<PageItem>
  {
    if start > 1 then [Number(1)] + (if start > 2 then [Ellipsis] else []) else []
  }

  /** What follows the window: "..." when at least one page is skipped, then the
      last page when the window ends earlier. */
  function Trailing(end: int, totalPages: int): seq<PageItem>
  {
    if end < totalPages then (if end < totalPages - 1 then [Ellipsis] else []) + [Number(totalPages)]
    else []
  }

  /** The bar as a value: every page when there are at most five, otherwise the
      window with its leading and trailing parts. */
  function VisibleSpec(currentPage: int, totalPages: int): seq<PageItem>
  {
    if totalPages <= MaxVisible then PageRun(1, totalPages)
    else
      var start, end := WindowStart(currentPage), WindowEnd(currentPage, totalPages);
      Leading(start) + PageRun(start, end) + Trailing(end, totalPages)
  }

  /** getVisiblePages: builds the bar by pushing entries one at a time. */
  method VisiblePages(currentPage: int, totalPages: int) returns (pages: seq<PageItem>)
    ensures pages == VisibleSpec(currentPage, totalPages)
  {
    pages := [];
    if totalPages <= MaxVisible {
      pages := PushRun(pages, 1, totalPages);
    } else {
      var start := Max(1, currentPage - 2);
      var end := Min(totalPages, start + MaxVisible - 1);
      if start > 1 {
        pages := pages + [Number(1)];
        if start > 2 {
          pages := pages + [Ellipsis];
        }
      }
      assert pages == Leading(start);
      pages := PushRun(pages, start, end);
      ghost var body := pages;
      if end < totalPages {
        if end < totalPages - 1 {
          pages := pages + [Ellipsis];
        }
        pages := pages + [Number(totalPages)];
      }
      assert pages == body + Trailing(end, totalPages);
    }
  }

  /** The `for (let i = lo; i <= hi; i++) pages.push(i)` loop. */
  method PushRun(pages: seq<PageItem>, lo: int, hi: int) returns (pages': seq<PageItem>)
    ensures pages' == pages + PageRun(lo, hi)
  {
    pages' := pages;
    var i := lo;
    while i <= hi
      invariant lo <= i <= Max(lo, hi + 1)
      invariant pages' == pages + PageRun(lo, i - 1)
    {
      PageRunSnoc(lo, i - 1);
      pages' := pages' + [Number(i)];
      i := i + 1;
    }
  }

  /** The page numbers on the bar, in order. */
  function Numbers(items: seq<PageItem>): (r: seq<int>)
    ensures |r| <= |items|
  {
    if |items| == 0 then []
    else (if items[0].Number? then [items[0].page] else []) + Numbers(items[1..])
  }

  /** How many "..." gaps the bar shows. */
  function Gaps(items: seq<PageItem>): nat
  {
    if |items| == 0 then 0 else (if items[0] == Ellipsis then 1 else 0) + Gaps(items[1..])
  }

  lemma {:induction false} NumbersAppend(a: seq<PageItem>, b: seq<PageItem>)
    ensures Numbers(a + b) == Numbers(a) + Numbers(b)
    ensures Gaps(a + b) == Gaps(a) + Gaps(b)
  {
    if |a| == 0 {
      assert a + b == b;
    } else {
      var c := a + b;
      assert c[0] == a[0] && c[1..] == a[1..] + b;
      NumbersAppend(a[1..], b);
      var n := if a[0].Number? then [a[0].page] else [];
      assert Numbers(c) == n + (Numbers(a[1..]) + Numbers(b));
      assert n + (Numbers(a[1..]) + Numbers(b)) == (n + Numbers(a[1..])) + Numbers(b);
    }
  }

  /** The consecutive integers `lo..hi`. */
  function Interval(lo: int, hi: int): (r: seq<int>)
    ensures |r| == Max(0, hi - lo + 1)
    ensures forall k :: 0 <= k < |r| ==> r[k] == lo + k
    decreases hi - lo + 1
  {
    if lo > hi then [] else [lo] + Interval(lo + 1, hi)
  }

  lemma {:induction false} PageRunNumbers(lo: int, hi: int)
    ensures Numbers(PageRun(lo, hi)) == Interval(lo, hi)
    ensures Gaps(PageRun(lo, hi)) == 0
    decreases hi - lo + 1
  {
    if lo <= hi {
      var r := PageRun(lo, hi);
      assert r == [Number(lo)] + PageRun(lo + 1, hi);
      assert r[1..] == PageRun(lo + 1, hi);
      PageRunNumbers(lo + 1, hi);
    }
  }

  /** The page numbers of the bar: all pages when there are at most five; otherwise
      page 1 if the window starts later, the window `start..end` without holes,
      and the last page if the window ends earlier. The bar shows a "..." before
      the window exactly when `start > 2` and another after it exactly when
      `end < totalPages - 1`. */
  lemma NumbersOfVisible(currentPage: int, totalPages: int)
    ensures totalPages <= MaxVisible ==>
      VisibleSpec(currentPage, totalPages) == PageRun(1, totalPages)
      && Numbers(VisibleSpec(currentPage, totalPages)) == Interval(1, totalPages)
    ensures totalPages > MaxVisible ==>
      var start, end := WindowStart(currentPage), WindowEnd(currentPage, totalPages);
      && Numbers(VisibleSpec(currentPage, totalPages))
         == (if start > 1 then [1] else []) + Interval(start, end) + (if end < totalPages then [totalPages] else [])
      && Gaps(VisibleSpec(currentPage, totalPages))
         == (if start > 2 then 1 else 0) + (if end < totalPages - 1 then 1 else 0)
  {
    PageRunNumbers(1, totalPages);
    if totalPages > MaxVisible {
      var start, end := WindowStart(currentPage), WindowEnd(currentPage, totalPages);
      var lead, run, trail := Leading(start), PageRun(start, end), Trailing(end, totalPages);
      NumbersAppend(lead + run, trail);
      NumbersAppend(lead, run);
      PageRunNumbers(start, end);
      LeadingNumbers(start);
      TrailingNumbers(end, totalPages);
    }
  }

  lemma LeadingNumbers(start: int)
    ensures Numbers(Leading(start)) == (if start > 1 then [1] else [])
    ensures Gaps(Leading(start)) == (if start > 2 then 1 else 0)
  {
    if start > 2 {
      assert Leading(start)[1..] == [Ellipsis];
      assert [Ellipsis][1..] == [];
    } else if start > 1 {
      assert Leading(start)[1..] == [];
    }
  }

  lemma TrailingNumbers(end: int, totalPages: int)
    ensures Numbers(Trailing(end, totalPages)) == (if end < totalPages then [totalPages] else [])
    ensures Gaps(Trailing(end, totalPages)) == (if end < totalPages - 1 then 1 else 0)
  {
    if end < totalPages - 1 {
      assert Trailing(end, totalPages)[1..] == [Number(totalPages)];
      assert [Number(totalPages)][1..] == [];
      assert Gaps([Number(totalPages)]) == 0;
    } else if end < totalPages {
      assert Trailing(end, totalPages)[1..] == [];
    }
  }

  /** Page numbers strictly increase along the bar and lie in `1..totalPages`; the
      bar has at most nine entries; it begins with page 1 when there is a page. */
  lemma VisibleOrderedAndBounded(currentPage: int, totalPages: int)
    ensures var nums := Numbers(VisibleSpec(currentPage, totalPages));
      && (forall i, j :: 0 <= i < j < |nums| ==> nums[i] < nums[j])
      && (forall i :: 0 <= i < |nums| ==> 1 <= nums[i] <= totalPages)
    ensures |VisibleSpec(currentPage, totalPages)| <= 9
    ensures totalPages >= 1 ==> VisibleSpec(currentPage, totalPages)[0] == Number(1)
  {
    NumbersOfVisible(currentPage, totalPages);
    if totalPages > MaxVisible {
      var start, end := WindowStart(currentPage), WindowEnd(currentPage, totalPages);
      WindowNumbersIncreasing(start, end, totalPages);
      assert Numbers(VisibleSpec(currentPage, totalPages))
          == (if start > 1 then [1] else []) + Interval(start, end)
             + (if end < totalPages then [totalPages] else []);
      if start == 1 {
        assert VisibleSpec(currentPage, totalPages)[0] == PageRun(start, end)[0];
      }
    }
  }

  /** Page 1 (when the window starts later), the window, and the last page (when
      the window ends earlier) form a strictly increasing run within `1..totalPages`. */
  lemma WindowNumbersIncreasing(start: int, end: int, totalPages: int)
    requires 1 <= start && totalPages > MaxVisible
    requires end == Min(totalPages, start + MaxVisible - 1)
    ensures var nums := (if start > 1 then [1] else []) + Interval(start, end)
                        + (if end < totalPages then [totalPages] else []);
      && (forall i, j :: 0 <= i < j < |nums| ==> nums[i] < nums[j])
      && (forall i :: 0 <= i < |nums| ==> 1 <= nums[i] <= totalPages)
  {
    var head, mid, tail := (if start > 1 then [1] else []), Interval(start, end),
                           (if end < totalPages then [totalPages] else []);
    var nums := head + mid + tail;
    var h, m := |head|, |head| + |mid|;
    forall k | 0 <= k < |nums|
      ensures nums[k] == (if k < h then 1 else if k < m then start + (k - h) else totalPages)
    {
      if k >= m { assert nums[k] == tail[k - m]; }
      else if k >= h { assert nums[k] == mid[k - h]; }
    }
    forall i, j | 0 <= i < j < |nums| ensures nums[i] < nums[j] {
      if j < m && h <= i { assert nums[j] - nums[i] == j - i; }
    }
  }

  /** For a current page in range the bar shows that page, and ends with the last page. */
  lemma VisibleShowsCurrentAndLast(currentPage: int, totalPages: int)
    requires 1 <= currentPage <= totalPages
    ensures Number(currentPage) in VisibleSpec(currentPage, totalPages)
    ensures VisibleSpec(currentPage, totalPages)[|VisibleSpec(currentPage, totalPages)| - 1] == Number(totalPages)
    ensures totalPages > MaxVisible ==>
      var pages, start, end := VisibleSpec(currentPage, totalPages), WindowStart(currentPage),
                               WindowEnd(currentPage, totalPages);
      && (pages[1] == Ellipsis <==> start > 2)
      && (pages[|pages| - 2] == Ellipsis <==> end < totalPages - 1)
  {
    var pages := VisibleSpec(currentPage, totalPages);
    if totalPages <= MaxVisible {
      assert pages[currentPage - 1] == Number(currentPage);
    } else {
      var start, end := WindowStart(currentPage), WindowEnd(currentPage, totalPages);
      var lead, run, trail := Leading(start), PageRun(start, end), Trailing(end, totalPages);
      assert pages == lead + run + trail;
      assert start <= currentPage <= end;
      assert pages[|lead| + currentPage - start] == run[currentPage - start];
      assert |run| == end - start + 1 >= 3;
    }
  }

  /** With more than five pages, a current page three or more beyond the last page
      leaves only page 1 and a gap: the window starts past the last page, so it is
      empty and nothing trails it. */
  lemma VisibleBeyondLastPage(currentPage: int, totalPages: int)
    requires totalPages > MaxVisible && currentPage >= totalPages + 3
    ensures VisibleSpec(currentPage, totalPages) == [Number(1), Ellipsis]
  {
  }

  // ---------------------------------------------------------------------------
  // Item range and guards

  /** `startItem`: the 1-based number of the first item on the current page. */
  function StartItem(currentPage: int, itemsPerPage: int): int
  {
    (currentPage - 1) * itemsPerPage + 1
  }

  /** `endItem`: the number of the last item on the current page, capped by the total. */
  function EndItem(currentPage: int, itemsPerPage: int, totalItems: int): (r: int)
    ensures r <= totalItems && r <= currentPage * itemsPerPage
    ensures r == totalItems || r == currentPage * itemsPerPage
  {
    Min(currentPage * itemsPerPage, totalItems)
  }

  /** On a page that holds at least one item, the range is non-empty and counts the
      items of that page (a full page, or what is left on the last one); the next
      page starts right after it. */
  lemma ItemRangeOfPage(currentPage: int, itemsPerPage: int, totalItems: int)
    requires currentPage >= 1 && itemsPerPage >= 1
    requires (currentPage - 1) * itemsPerPage < totalItems
    ensures StartItem(currentPage, itemsPerPage) <= EndItem(currentPage, itemsPerPage, totalItems)
    ensures EndItem(currentPage, itemsPerPage, totalItems) - StartItem(currentPage, itemsPerPage) + 1
         == Min(itemsPerPage, totalItems - (currentPage - 1) * itemsPerPage)
    ensures EndItem(currentPage, itemsPerPage, totalItems) < totalItems ==>
      StartItem(currentPage + 1, itemsPerPage) == EndItem(currentPage, itemsPerPage, totalItems) + 1
  {
    assert currentPage * itemsPerPage == (currentPage - 1) * itemsPerPage + itemsPerPage;
    assert (currentPage + 1 - 1) * itemsPerPage == currentPage * itemsPerPage;
  }

  /** `totalPages <= 1`: the whole control renders nothing. */
  predicate ShowsControls(totalPages: int)
  {
    totalPages > 1
  }

  /** Whenever the control is shown for a page in range, its bar offers at least two
      pages, so there is always another page to go to. */
  lemma ShownBarOffersChoice(currentPage: int, totalPages: int)
    requires ShowsControls(totalPages) && 1 <= currentPage <= totalPages
    ensures |Numbers(VisibleSpec(currentPage, totalPages))| >= 2
  {
    NumbersOfVisible(currentPage, totalPages);
    if totalPages > MaxVisible {
      var start, end := WindowStart(currentPage), WindowEnd(currentPage, totalPages);
      assert end - start + 1 >= 3;
    }
  }

  /** The jump input's change handler: `parseInt` gives `None` for text that is not
      a number, and `onPageChange(page)` is called only for `1 <= page <= totalPages`. */
  function JumpTarget(parsed: Option<int>, totalPages: int): (r: Option<int>)
    ensures r.Some? <==> parsed.Some? && 1 <= parsed.value <= totalPages
    ensures r.Some? ==> r.value == parsed.value
  {
    if parsed.Some? && parsed.value >= 1 && parsed.value <= totalPages then parsed else None
  }

  /** A page the jump input accepts is shown, as the current page, on the bar it leads to. */
  lemma JumpTargetIsShown(parsed: Option<int>, totalPages: int)
    requires JumpTarget(parsed, totalPages).Some?
    ensures var page := JumpTarget(parsed, totalPages).value;
      Number(page) in VisibleSpec(page, totalPages)
  {
    var page := JumpTarget(parsed, totalPages).value;
    VisibleShowsCurrentAndLast(page, totalPages);
  }
}
