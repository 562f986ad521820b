/**
 The bounded-ellipsis page list: a window of `siblingCount` pages on either side
 of the current page, `boundaryCount` pages pinned at each end, and at most two
 ellipses for the runs in between.
 */
module EllipsisPagination {
  import opened Wrappers
  import opened Seqs
  import opened PageItems

  /** Defaults of the control that hosts the generator (as coded there). */
  const DefaultSiblingCount: nat := 1
  const DefaultBoundaryCount: nat := 3

  /** The arguments the generator is defined for: the two counts are non-negative; any current page is accepted. */
  predicate ValidArgs(currentPage: int, totalPages: int, siblingCount: int, boundaryCount: int) {
    siblingCount >= 0 && boundaryCount >= 0
  }

  /** The most items a truncated list can need: window, both boundary blocks, two ellipses. */
  function MaxItems(siblingCount: int, boundaryCount: int): int {
    siblingCount * 2 + 1 + boundaryCount * 2 + 2
  }


  /** First page of the middle window. */
  function WindowStart(currentPage: int, siblingCount: int, boundaryCount: int): int {
    Max(boundaryCount + 1, currentPage - siblingCount)
  }

  /** Last page of the middle window. */
  function WindowEnd(currentPage: int, totalPages: int, siblingCount: int, boundaryCount: int): int {
    Min(totalPages - boundaryCount, currentPage + siblingCount)
  }

  /** The loop over `i = start..end` that keeps the pages outside both boundary blocks. */
  function Middle(i: int, end: int, totalPages: int, boundaryCount: int): seq<PageItem>
    decreases end - i
  {
    if i > end then []
    else
      (if i > boundaryCount && i <= totalPages - boundaryCount then [Page(i)] else [])
      + Middle(i + 1, end, totalPages, boundaryCount)
  }

  /** The page list of the control for `(currentPage, totalPages, siblingCount, boundaryCount)`. */
  function GeneratePageNumbers(currentPage: int, totalPages: int, siblingCount: int, boundaryCount: int)
    : (r: seq<PageItem>)
    requires ValidArgs(currentPage, totalPages, siblingCount, boundaryCount)
    ensures |r| <= MaxItems(siblingCount, boundaryCount)
    ensures forall i :: 0 <= i < |r| && r[i].Page? ==> 1 <= r[i].value <= totalPages
  {
    if totalPages <= MaxItems(siblingCount, boundaryCount) then
      Run(1, totalPages)
    else
      var firstPages := Run(1, boundaryCount);
      var lastPages := Run(totalPages - boundaryCount + 1, totalPages);
      var start := WindowStart(currentPage, siblingCount, boundaryCount);
      var end := WindowEnd(currentPage, totalPages, siblingCount, boundaryCount);
      var middle := Middle(start, end, totalPages, boundaryCount);
      MiddleIsWindow(start, end, totalPages, boundaryCount);
      var left := if start > boundaryCount + 1 then [Ellipsis("left")] else [];
      var right := if end < totalPages - boundaryCount then [Ellipsis("right")] else [];
      firstPages + left + middle + right + lastPages
  }

  /** Inside the window the boundary filter never removes a page: the middle is a plain run. */
  lemma {:induction false} MiddleIsWindow(start: int, end: int, totalPages: int, boundaryCount: int)
    requires boundaryCount + 1 <= start
    requires end <= totalPages - boundaryCount
    ensures Middle(start, end, totalPages, boundaryCount) == Run(start, end)
    decreases end - start
  {
    if start <= end {
      MiddleIsWindow(start + 1, end, totalPages, boundaryCount);
    }
  }

  /**
   Reference definition of the shown pages: every page when the whole range fits,
   otherwise the two boundary blocks and the pages within `siblingCount` of the
   current page.
   */
  predicate Shown(currentPage: int, totalPages: int, siblingCount: int, boundaryCount: int, p: int) {
    && 1 <= p <= totalPages
    && (|| totalPages <= MaxItems(siblingCount, boundaryCount)
        || p <= boundaryCount
        || p > totalPages - boundaryCount
        || (currentPage - siblingCount <= p <= currentPage + siblingCount))
  }

  /** A page is in the list exactly when the reference definition shows it. */
  lemma PagesShown(currentPage: int, totalPages: int, siblingCount: int, boundaryCount: int, p: int)
    requires ValidArgs(currentPage, totalPages, siblingCount, boundaryCount)
    ensures Page(p) in GeneratePageNumbers(currentPage, totalPages, siblingCount, boundaryCount)
            <==> Shown(currentPage, totalPages, siblingCount, boundaryCount, p)
  {
    var c, n, s, b := currentPage, totalPages, siblingCount, boundaryCount;
    if n <= MaxItems(s, b) {
      RunContains(1, n, p);
    } else {
      var start := WindowStart(c, s, b);
      var end := WindowEnd(c, n, s, b);
      MiddleIsWindow(start, end, n, b);
      RunContains(1, b, p);
      RunContains(n - b + 1, n, p);
      RunContains(start, end, p);
    }
  }

  /** A current page within range is always listed, whichever block it falls in. */
  lemma CurrentPageShown(currentPage: int, totalPages: int, siblingCount: int, boundaryCount: int)
    requires ValidArgs(currentPage, totalPages, siblingCount, boundaryCount)
    requires 1 <= currentPage <= totalPages
    ensures Page(currentPage) in GeneratePageNumbers(currentPage, totalPages, siblingCount, boundaryCount)
  {
    PagesShown(currentPage, totalPages, siblingCount, boundaryCount, currentPage);
  }

  /** With a non-zero boundary count, both boundary blocks are listed in full. */
  lemma BoundaryBlocksShown(currentPage: int, totalPages: int, siblingCount: int, boundaryCount: int, p: int)
    requires ValidArgs(currentPage, totalPages, siblingCount, boundaryCount)
    requires 1 <= p <= totalPages && (p <= boundaryCount || p > totalPages - boundaryCount)
    ensures Page(p) in GeneratePageNumbers(currentPage, totalPages, siblingCount, boundaryCount)
  {
    PagesShown(currentPage, totalPages, siblingCount, boundaryCount, p);
  }

  /** When the whole range fits, the list is every page `1..totalPages` and nothing else (nothing for a negative count). */
  lemma SmallRangeListsAll(currentPage: int, totalPages: int, siblingCount: int, boundaryCount: int)
    requires ValidArgs(currentPage, totalPages, siblingCount, boundaryCount)
    requires totalPages <= MaxItems(siblingCount, boundaryCount)
    ensures var r := GeneratePageNumbers(currentPage, totalPages, siblingCount, boundaryCount);
            |r| == Max(totalPages, 0) && EllipsisIds(r) == [] &&
            forall i :: 0 <= i < |r| ==> r[i] == Page(i + 1)
  {
    RunValues(1, totalPages);
  }

  /** The left marker of a truncated list: present when the window starts past the first block's neighbour. */
  function LeftMarker(start: int, boundaryCount: int): seq<PageItem> {
    if start > boundaryCount + 1 then [Ellipsis("left")] else []
  }

  /** The right marker of a truncated list: present when the window ends before the last block's neighbour. */
  function RightMarker(end: int, totalPages: int, boundaryCount: int): seq<PageItem> {
    if end < totalPages - boundaryCount then [Ellipsis("right")] else []
  }

  /** A truncated list is the first block, the left marker, the window, the right marker and the last block. */
  lemma TruncatedParts(currentPage: int, totalPages: int, siblingCount: int, boundaryCount: int)
    requires ValidArgs(currentPage, totalPages, siblingCount, boundaryCount)
    requires totalPages > MaxItems(siblingCount, boundaryCount)
    ensures var start := WindowStart(currentPage, siblingCount, boundaryCount);
            var end := WindowEnd(currentPage, totalPages, siblingCount, boundaryCount);
            GeneratePageNumbers(currentPage, totalPages, siblingCount, boundaryCount)
            == Run(1, boundaryCount) + LeftMarker(start, boundaryCount) + Run(start, end)
               + RightMarker(end, totalPages, boundaryCount) + Run(totalPages - boundaryCount + 1, totalPages)
  {
    var start := WindowStart(currentPage, siblingCount, boundaryCount);
    var end := WindowEnd(currentPage, totalPages, siblingCount, boundaryCount);
    MiddleIsWindow(start, end, totalPages, boundaryCount);
  }

  /**
   The list's shape: neighbouring pages are consecutive, each run of hidden pages
   (and nothing else) is one ellipsis, and so page values strictly increase.
   */
  lemma {:induction false} ListShape(currentPage: int, totalPages: int, siblingCount: int, boundaryCount: int)
    requires ValidArgs(currentPage, totalPages, siblingCount, boundaryCount)
    requires totalPages >= 0
    ensures var r := GeneratePageNumbers(currentPage, totalPages, siblingCount, boundaryCount);
            Gapped(r, totalPages) && Increasing(r)
  {
    var c, n, s, b := currentPage, totalPages, siblingCount, boundaryCount;
    var r := GeneratePageNumbers(c, n, s, b);
    if n <= MaxItems(s, b) {
      RunCons(1, n);
      RunSnoc(0, n);
      RunGapMarked(0, n + 1);
    } else {
      var start := WindowStart(c, s, b);
      var end := WindowEnd(c, n, s, b);
      TruncatedParts(c, n, s, b);
      assert start > end ==> (start > b + 1) != (end < n - b);
      PartsShape(start, end, n, b);
    }
    GappedIncreasing(r, n);
  }

  /** No page is listed twice, so page numbers can serve as the items' keys. */
  lemma PagesDistinct(currentPage: int, totalPages: int, siblingCount: int, boundaryCount: int)
    requires ValidArgs(currentPage, totalPages, siblingCount, boundaryCount)
    requires totalPages >= 0
    ensures Distinct(Values(GeneratePageNumbers(currentPage, totalPages, siblingCount, boundaryCount)))
  {
    ListShape(currentPage, totalPages, siblingCount, boundaryCount);
    IncreasingDistinct(GeneratePageNumbers(currentPage, totalPages, siblingCount, boundaryCount));
  }

  /** The truncated assembly is shaped whenever the window lies between the blocks. */
  lemma PartsShape(start: int, end: int, totalPages: int, boundaryCount: int)
    requires 0 <= boundaryCount && boundaryCount + 1 < totalPages - boundaryCount
    requires boundaryCount + 1 <= start && end <= totalPages - boundaryCount
    requires start > end ==> (start > boundaryCount + 1) != (end < totalPages - boundaryCount)
    ensures Gapped(Run(1, boundaryCount) + LeftMarker(start, boundaryCount) + Run(start, end)
                   + RightMarker(end, totalPages, boundaryCount)
                   + Run(totalPages - boundaryCount + 1, totalPages), totalPages)
  {
    var n, b := totalPages, boundaryCount;
    var whole := Run(1, b) + LeftMarker(start, b) + Run(start, end) + RightMarker(end, n, b) + Run(n - b + 1, n);
    var head := Run(0, b);
    var tail := Run(n - b + 1, n + 1);
    RunCons(1, b);
    RunSnoc(n - b + 1, n);
    Regroup(Page(0), Run(1, b), LeftMarker(start, b), Run(start, end), RightMarker(end, n, b),
            Run(n - b + 1, n), Page(n + 1), head, tail);
    BlocksShaped(head, LeftMarker(start, b), Run(start, end), RightMarker(end, n, b), tail, b, start, end, n);
    assert [Page(0)] + whole + [Page(n + 1)]
        == head + LeftMarker(start, b) + Run(start, end) + RightMarker(end, n, b) + tail;
  }

  lemma BlocksShaped(head: seq<PageItem>, left: seq<PageItem>, mid: seq<PageItem>,
                     right: seq<PageItem>, tail: seq<PageItem>, b: int, start: int, end: int, n: int)
    requires 0 <= b && b + 1 < n - b
    requires b + 1 <= start && end <= n - b
    requires start > end ==> (start > b + 1) != (end < n - b)
    requires head == Run(0, b) && mid == Run(start, end) && tail == Run(n - b + 1, n + 1)
    requires left == LeftMarker(start, b) && right == RightMarker(end, n, b)
    ensures GapMarked(head + left + mid + right + tail)
  {
    RunGapMarked(0, b);
    RunGapMarked(n - b + 1, n + 1);
    assert head[|head| - 1] == Page(b) && tail[0] == Page(n - b + 1);
    if start <= end {
      RunGapMarked(start, end);
      assert mid[0] == Page(start) && mid[|mid| - 1] == Page(end);
      WindowShape(head, left, mid, right, tail);
    } else {
      assert mid == [];
      if left != [] {
        JoinGap(head, "left", tail);
        assert head + left + mid + right + tail == head + [Ellipsis("left")] + tail;
      } else {
        JoinGap(head, "right", tail);
        assert head + left + mid + right + tail == head + [Ellipsis("right")] + tail;
      }
    }
  }

  lemma Regroup<T>(x: T, a: seq<T>, l: seq<T>, m: seq<T>, r: seq<T>, z: seq<T>, y: T,
                   head: seq<T>, tail: seq<T>)
    requires [x] + a == head && z + [y] == tail
    ensures [x] + (a + l + m + r + z) + [y] == head + l + m + r + tail
  {
    assert [x] + (a + l + m + r + z) + [y] == ([x] + a) + l + m + r + (z + [y]);
  }

  /** Joining the blocks around a non-empty window, each with its optional marker. */
  lemma WindowShape(head: seq<PageItem>, left: seq<PageItem>, mid: seq<PageItem>,
                    right: seq<PageItem>, tail: seq<PageItem>)
    requires GapMarked(head) && GapMarked(mid) && GapMarked(tail)
    requires left == [] || left == [Ellipsis("left")]
    requires right == [] || right == [Ellipsis("right")]
    requires left == [] ==> head[|head| - 1].value + 1 == mid[0].value
    requires left != [] ==> head[|head| - 1].value + 1 < mid[0].value
    requires right == [] ==> mid[|mid| - 1].value + 1 == tail[0].value
    requires right != [] ==> mid[|mid| - 1].value + 1 < tail[0].value
    ensures GapMarked(head + left + mid + right + tail)
  {
    var front := head + left + mid;
    if left == [] {
      JoinAdjacent(head, mid);
      assert front == head + mid;
    } else {
      JoinGap(head, "left", mid);
    }
    assert front[|front| - 1] == mid[|mid| - 1];
    if right == [] {
      JoinAdjacent(front, tail);
      assert head + left + mid + right + tail == front + tail;
    } else {
      JoinGap(front, "right", tail);
    }
  }

  /**
   The ellipsis keys: none when the whole range fits; otherwise one or two, drawn
   from "left" and "right", never repeated.
   */
  lemma {:induction false} EllipsisKeys(currentPage: int, totalPages: int, siblingCount: int, boundaryCount: int)
    requires ValidArgs(currentPage, totalPages, siblingCount, boundaryCount)
    ensures var ids := EllipsisIds(GeneratePageNumbers(currentPage, totalPages, siblingCount, boundaryCount));
            && Distinct(ids)
            && (forall i :: 0 <= i < |ids| ==> ids[i] in {"left", "right"})
            && (totalPages > MaxItems(siblingCount, boundaryCount) <==> 1 <= |ids|)
            && |ids| <= 2
  {
    var c, n, s, b := currentPage, totalPages, siblingCount, boundaryCount;
    if n <= MaxItems(s, b) {
      RunValues(1, n);
    } else {
      var start := WindowStart(c, s, b);
      var end := WindowEnd(c, n, s, b);
      TruncatedParts(c, n, s, b);
      PartsKeys(start, end, n, b);
      assert LeftMarker(start, b) != [] || RightMarker(end, n, b) != [] by {
        if start <= b + 1 && end >= n - b {
          assert false;
        }
      }
    }
  }

  lemma PartsKeys(start: int, end: int, totalPages: int, boundaryCount: int)
    ensures EllipsisIds(Run(1, boundaryCount) + LeftMarker(start, boundaryCount) + Run(start, end)
                        + RightMarker(end, totalPages, boundaryCount)
                        + Run(totalPages - boundaryCount + 1, totalPages))
            == EllipsisIds(LeftMarker(start, boundaryCount)) + EllipsisIds(RightMarker(end, totalPages, boundaryCount))
    ensures EllipsisIds(LeftMarker(start, boundaryCount)) == if start > boundaryCount + 1 then ["left"] else []
    ensures EllipsisIds(RightMarker(end, totalPages, boundaryCount))
            == if end < totalPages - boundaryCount then ["right"] else []
  {
    var n, b := totalPages, boundaryCount;
    RunValues(1, b);
    RunValues(start, end);
    RunValues(n - b + 1, n);
    IdsOfParts(Run(1, b), LeftMarker(start, b), Run(start, end), RightMarker(end, n, b), Run(n - b + 1, n));
    MarkerIds(Ellipsis("left"));
    MarkerIds(Ellipsis("right"));
  }

  /** Pages carry no keys: only the markers between the runs contribute ellipsis keys. */
  lemma IdsOfParts(a: seq<PageItem>, left: seq<PageItem>, mid: seq<PageItem>, right: seq<PageItem>, z: seq<PageItem>)
    requires EllipsisIds(a) == [] && EllipsisIds(mid) == [] && EllipsisIds(z) == []
    ensures EllipsisIds(a + left + mid + right + z) == EllipsisIds(left) + EllipsisIds(right)
  {
    IdsConcat(a, left);
    IdsConcat(a + left, mid);
    IdsConcat(a + left + mid, right);
    IdsConcat(a + left + mid + right, z);
  }

  /** A lone marker contributes its own key. */
  lemma MarkerIds(m: PageItem)
    requires m.Ellipsis?
    ensures EllipsisIds([m]) == [m.id]
  {
    assert [m][1..] == [];
  }

  /** Every page the control emits, by click or through previous/next, lies in `1..totalPages`. */
  lemma EmittedPagesInRange(currentPage: int, totalPages: int, siblingCount: int, boundaryCount: int, p: int)
    requires ValidArgs(currentPage, totalPages, siblingCount, boundaryCount)
    requires 1 <= currentPage <= totalPages
    requires Emits(GeneratePageNumbers(currentPage, totalPages, siblingCount, boundaryCount),
                   currentPage, totalPages, p)
    ensures 1 <= p <= totalPages
  {
    var r := GeneratePageNumbers(currentPage, totalPages, siblingCount, boundaryCount);
    EmittedInRange(r, currentPage, totalPages, p);
  }

  /** The documented example `(50, 100, 1, 1)`: `1 … 49 50 51 … 100`. */
  lemma DocExample()
    ensures GeneratePageNumbers(50, 100, 1, 1)
            == [Page(1), Ellipsis("left"), Page(49), Page(50), Page(51), Ellipsis("right"), Page(100)]
  {
    assert Run(1, 1) == [Page(1)];
    assert Run(100, 100) == [Page(100)];
    assert Run(49, 51) == [Page(49), Page(50), Page(51)];
  }

  /** With the control's coded defaults, ten pages fit within `MaxItems(1, 3) == 11`: every page is listed and no ellipsis appears, whatever the current page. */
  lemma TenPagesWithDefaults(currentPage: int)
    ensures var r := GeneratePageNumbers(currentPage, 10, DefaultSiblingCount, DefaultBoundaryCount);
            |r| == 10 && EllipsisIds(r) == [] && forall i :: 0 <= i < 10 ==> r[i] == Page(i + 1)
  {
    SmallRangeListsAll(currentPage, 10, DefaultSiblingCount, DefaultBoundaryCount);
  }

  /** With `boundaryCount` 1 (the default the component table documents), ten pages at page 5 are truncated on both sides. */
  lemma TenPagesWithBoundaryOne()
    ensures GeneratePageNumbers(5, 10, DefaultSiblingCount, 1)
            == [Page(1), Ellipsis("left"), Page(4), Page(5), Page(6), Ellipsis("right"), Page(10)]
  {
    assert Run(1, 1) == [Page(1)];
    assert Run(10, 10) == [Page(10)];
    assert Run(4, 6) == [Page(4), Page(5), Page(6)];
  }
}
