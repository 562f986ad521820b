/**
 The exponential page list: pages 1, 2, 3, every power of two from 4 up to the
 last page, a window of `siblingCount` pages around the current page, and the
 last page; sorted, with an ellipsis wherever neighbouring numbers are not
 consecutive.
 */
module ExponentialPagination {
  import opened Wrappers
  import opened Decimal
  import opened Seqs
  import opened PageItems

  const DefaultSiblingCount: nat := 3

  /**
   The arguments the generator is modelled for: at least one page. The current
   page and the sibling count may be anything, as the window is clipped to the
   page range.
   */
  predicate ValidArgs(currentPage: int, totalPages: int, siblingCount: int) {
    totalPages >= 1
  }

  /** `2 ** k`. */
  function Pow2(k: nat): (r: int)
    ensures r >= 1
  {
    if k == 0 then 1 else 2 * Pow2(k - 1)
  }

  lemma {:induction false} Pow2Monotone(i: nat, j: nat)
    requires i <= j
    ensures Pow2(i) <= Pow2(j)
    decreases j - i
  {
    if i < j {
      Pow2Monotone(i, j - 1);
    }
  }

  /** The loop `while (2 ** power <= totalPages) add(2 ** power++)`, from the given power on. */
  function Powers(power: nat, totalPages: int): set<int>
    decreases totalPages - Pow2(power)
  {
    if Pow2(power) <= totalPages then {Pow2(power)} + Powers(power + 1, totalPages) else {}
  }

  /** The powers collected are exactly the `2 ** k` with `k >= power` that do not exceed the last page. */
  lemma {:induction false} PowersExactly(power: nat, totalPages: int, x: int)
    ensures x in Powers(power, totalPages)
            <==> exists k: nat :: power <= k && Pow2(k) == x && x <= totalPages
    decreases totalPages - Pow2(power)
  {
    if Pow2(power) <= totalPages {
      PowersExactly(power + 1, totalPages, x);
      assert Powers(power, totalPages) == {Pow2(power)} + Powers(power + 1, totalPages);
      if x in Powers(power, totalPages) {
        if x != Pow2(power) {
          var k: nat :| power + 1 <= k && Pow2(k) == x && x <= totalPages;
          assert power <= k;
        }
      }
      if exists k: nat :: power <= k && Pow2(k) == x && x <= totalPages {
        var k: nat :| power <= k && Pow2(k) == x && x <= totalPages;
        if k > power {
          assert exists k': nat :: power + 1 <= k' && Pow2(k') == x && x <= totalPages;
        }
      }
    } else {
      forall k: nat | power <= k ensures Pow2(k) > totalPages {
        Pow2Monotone(power, k);
      }
    }
  }


  /** The loop `for (i = lo; i <= hi; i++) add(i)`: the contiguous pages `lo..hi`. */
  function Window(lo: int, hi: int): (r: set<int>)
    ensures forall x :: x in r <==> lo <= x <= hi
    decreases hi - lo
  {
    if lo > hi then {} else {lo} + Window(lo + 1, hi)
  }

  /** The set of page numbers the control builds before sorting. */
  function PageSet(currentPage: int, totalPages: int, siblingCount: int): set<int> {
    {1}
    + (if totalPages >= 2 then {2} else {})
    + (if totalPages >= 3 then {3} else {})
    + Powers(2, totalPages)
    + Window(Max(1, currentPage - siblingCount), Min(totalPages, currentPage + siblingCount))
    + {totalPages}
  }

  /**
   The ascending enumeration of the members of `s` within `lo..hi`: what
   sorting the set with the numeric comparator `(a, b) => a - b` yields once all
   members are known to lie in that range.
   */
  function Ascending(s: set<int>, lo: int, hi: int): (r: seq<int>)
    ensures forall i :: 0 <= i < |r| ==> lo <= r[i] <= hi
    ensures forall i, j :: 0 <= i < j < |r| ==> r[i] < r[j]
    decreases hi - lo
  {
    if lo > hi then []
    else
      var rest := Ascending(s, lo + 1, hi);
      (if lo in s then [lo] else []) + rest
  }

  /** The enumeration holds exactly the set's members within the range. */
  lemma {:induction false} AscendingMembers(s: set<int>, lo: int, hi: int)
    ensures forall x :: x in Ascending(s, lo, hi) <==> x in s && lo <= x <= hi
    decreases hi - lo
  {
    if lo <= hi {
      AscendingMembers(s, lo + 1, hi);
    }
  }

  /** In a strictly increasing sequence the tail holds every element but the head. */
  lemma TailMembers(a: seq<int>)
    requires |a| > 0
    requires forall i, j :: 0 <= i < j < |a| ==> a[i] < a[j]
    ensures forall x :: x in a[1..] <==> x in a && x != a[0]
  {
    forall x | x in a && x != a[0] ensures x in a[1..] {
      var i :| 0 <= i < |a| && a[i] == x;
      assert a[1..][i - 1] == x;
    }
  }

  /** A strictly increasing sequence is determined by its elements: sorting has one answer. */
  lemma {:induction false} SortedEnumerationUnique(a: seq<int>, b: seq<int>)
    requires forall i, j :: 0 <= i < j < |a| ==> a[i] < a[j]
    requires forall i, j :: 0 <= i < j < |b| ==> b[i] < b[j]
    requires forall x :: x in a <==> x in b
    ensures a == b
  {
    if |a| == 0 || |b| == 0 {
      HeadIsMember(a);
      HeadIsMember(b);
    } else {
      assert a[0] in b && b[0] in a;
      assert a[0] == b[0] by {
        var i :| 0 <= i < |b| && b[i] == a[0];
        var j :| 0 <= j < |a| && a[j] == b[0];
        assert a[0] <= a[j] && b[0] <= b[i];
      }
      TailMembers(a);
      TailMembers(b);
      SortedEnumerationUnique(a[1..], b[1..]);
      assert a == [a[0]] + a[1..] && b == [b[0]] + b[1..];
    }
  }

  lemma HeadIsMember(s: seq<int>)
    ensures |s| > 0 ==> s[0] in s
  {
  }

  /** The key of the ellipsis inserted before position `i` of the sorted pages. */
  function EllipsisId(i: nat): string {
    "ellipsis-" + DecimalString(i)
  }

  lemma EllipsisIdInjective(i: nat, j: nat)
    requires EllipsisId(i) == EllipsisId(j)
    ensures i == j
  {
    assert EllipsisId(i)[9..] == DecimalString(i);
    assert EllipsisId(j)[9..] == DecimalString(j);
    DecimalInjective(i, j);
  }

  /** The loop that emits the sorted pages from position `i` on, an ellipsis before each gap. */
  function Mark(ps: seq<int>, i: nat): seq<PageItem>
    requires i <= |ps|
    decreases |ps| - i
  {
    if i == |ps| then []
    else
      (if i > 0 && ps[i] - ps[i - 1] > 1 then [Ellipsis(EllipsisId(i))] else [])
      + [Page(ps[i])] + Mark(ps, i + 1)
  }

  /** `Array.from(pages).sort((a, b) => a - b)`: the collected pages in ascending order. */
  function SortedPageNumbers(currentPage: int, totalPages: int, siblingCount: int): seq<int> {
    Ascending(PageSet(currentPage, totalPages, siblingCount), 1, totalPages)
  }

  /** The page list of the control for `(currentPage, totalPages, siblingCount)`. */
  function GenerateExponentialPages(currentPage: int, totalPages: int, siblingCount: int): seq<PageItem>
    requires ValidArgs(currentPage, totalPages, siblingCount)
  {
    Mark(SortedPageNumbers(currentPage, totalPages, siblingCount), 0)
  }

  // ---------------------------------------------------------------------------
  // The page set

  /** Every collected page lies in `1..totalPages`, so the ascending enumeration over that range loses none. */
  lemma PageSetInRange(currentPage: int, totalPages: int, siblingCount: int, p: int)
    requires ValidArgs(currentPage, totalPages, siblingCount)
    requires p in PageSet(currentPage, totalPages, siblingCount)
    ensures 1 <= p <= totalPages
  {
    if p in Powers(2, totalPages) {
      PowersExactly(2, totalPages, p);
      var k: nat :| 2 <= k && Pow2(k) == p && p <= totalPages;
    }
  }

  /**
   Reference definition of the listed pages: 1; 2 and 3 when they exist; every
   `2 ** k` with `k >= 2` up to the last page; the window around the current page;
   and the last page.
   */
  ghost predicate Listed(currentPage: int, totalPages: int, siblingCount: int, p: int) {
    || p == 1
    || (p == 2 && totalPages >= 2)
    || (p == 3 && totalPages >= 3)
    || (exists k: nat :: 2 <= k && Pow2(k) == p && p <= totalPages)
    || (currentPage - siblingCount <= p <= currentPage + siblingCount && 1 <= p <= totalPages)
    || p == totalPages
  }

  lemma PageSetIsListed(currentPage: int, totalPages: int, siblingCount: int, p: int)
    requires ValidArgs(currentPage, totalPages, siblingCount)
    ensures p in PageSet(currentPage, totalPages, siblingCount) <==> Listed(currentPage, totalPages, siblingCount, p)
  {
    var c, n, s := currentPage, totalPages, siblingCount;
    PowersExactly(2, n, p);
    assert p in Window(Max(1, c - s), Min(n, c + s)) <==> c - s <= p <= c + s && 1 <= p <= n;
    assert p in PageSet(c, n, s) <==>
      || p == 1
      || (p == 2 && n >= 2)
      || (p == 3 && n >= 3)
      || p in Powers(2, n)
      || p in Window(Max(1, c - s), Min(n, c + s))
      || p == n;
    if p in Powers(2, n) {
      var k: nat :| 2 <= k && Pow2(k) == p && p <= n;
      assert Listed(c, n, s, p);
    }
    if exists k: nat :: 2 <= k && Pow2(k) == p && p <= n {
      var k: nat :| 2 <= k && Pow2(k) == p && p <= n;
      assert exists k': nat :: 2 <= k' && Pow2(k') == p && p <= n;
      assert p in Powers(2, n);
    }
  }

  /** The head of a strictly increasing sequence is its least element. */
  lemma HeadLeast(ps: seq<int>, x: int)
    requires forall i, j :: 0 <= i < j < |ps| ==> ps[i] < ps[j]
    requires x in ps
    ensures ps[0] <= x
  {
    var i :| 0 <= i < |ps| && ps[i] == x;
    if i > 0 {
      assert ps[0] < ps[i];
    }
  }

  /** The last element of a strictly increasing sequence is its greatest. */
  lemma LastGreatest(ps: seq<int>, x: int)
    requires forall i, j :: 0 <= i < j < |ps| ==> ps[i] < ps[j]
    requires x in ps
    ensures x <= ps[|ps| - 1]
  {
    var i :| 0 <= i < |ps| && ps[i] == x;
    if i < |ps| - 1 {
      assert ps[i] < ps[|ps| - 1];
    }
  }

  /** Enumerating a set that spans exactly `lo..hi` starts at `lo`, ends at `hi` and stays within the range. */
  lemma AscendingEnds(s: set<int>, lo: int, hi: int)
    requires lo <= hi && lo in s && hi in s
    ensures var ps := Ascending(s, lo, hi);
            && |ps| >= 1 && ps[0] == lo && ps[|ps| - 1] == hi
            && (forall i :: 0 <= i < |ps| ==> lo <= ps[i] <= hi)
            && (forall k :: 0 <= k < |ps| - 1 ==> ps[k] < ps[k + 1])
  {
    var ps := Ascending(s, lo, hi);
    AscendingMembers(s, lo, hi);
    assert lo in ps && hi in ps;
    HeadLeast(ps, lo);
    LastGreatest(ps, hi);
  }

  /** The collected set holds page 1 and the last page, and nothing outside `1..totalPages`. */
  lemma PageSetBounds(currentPage: int, totalPages: int, siblingCount: int)
    requires ValidArgs(currentPage, totalPages, siblingCount)
    ensures 1 in PageSet(currentPage, totalPages, siblingCount)
    ensures totalPages in PageSet(currentPage, totalPages, siblingCount)
  {
  }

  /** The sorted pages increase strictly from page 1 to the last page. */
  lemma SortedEnds(currentPage: int, totalPages: int, siblingCount: int)
    requires ValidArgs(currentPage, totalPages, siblingCount)
    ensures var ps := SortedPageNumbers(currentPage, totalPages, siblingCount);
            && |ps| >= 1 && ps[0] == 1 && ps[|ps| - 1] == totalPages
            && (forall i :: 0 <= i < |ps| ==> 1 <= ps[i] <= totalPages)
            && (forall k :: 0 <= k < |ps| - 1 ==> ps[k] < ps[k + 1])
  {
    PageSetBounds(currentPage, totalPages, siblingCount);
    AscendingEnds(PageSet(currentPage, totalPages, siblingCount), 1, totalPages);
  }

  /** Sorting loses no collected page and adds none. */
  lemma SortedMembers(currentPage: int, totalPages: int, siblingCount: int, p: int)
    requires ValidArgs(currentPage, totalPages, siblingCount)
    ensures p in SortedPageNumbers(currentPage, totalPages, siblingCount)
            <==> p in PageSet(currentPage, totalPages, siblingCount)
  {
    AscendingMembers(PageSet(currentPage, totalPages, siblingCount), 1, totalPages);
    if p in PageSet(currentPage, totalPages, siblingCount) {
      PageSetInRange(currentPage, totalPages, siblingCount, p);
    }
  }

  // ---------------------------------------------------------------------------
  // Ellipsis insertion

  lemma {:induction false} MarkValues(ps: seq<int>, i: nat)
    requires i <= |ps|
    ensures Values(Mark(ps, i)) == ps[i..]
    decreases |ps| - i
  {
    if i < |ps| {
      var gap: seq<PageItem> := if i > 0 && ps[i] - ps[i - 1] > 1 then [Ellipsis(EllipsisId(i))] else [];
      MarkValues(ps, i + 1);
      ValuesAppend(gap, [Page(ps[i])]);
      ValuesAppend(gap + [Page(ps[i])], Mark(ps, i + 1));
      assert ps[i..] == [ps[i]] + ps[i + 1..];
    }
  }

  /** The keys of the ellipses from position `i` on are distinct and all have an index of at least `i`. */
  lemma {:induction false} MarkIds(ps: seq<int>, i: nat)
    requires i <= |ps|
    ensures Distinct(EllipsisIds(Mark(ps, i)))
    ensures forall id :: id in EllipsisIds(Mark(ps, i)) ==> exists j: nat :: i <= j && id == EllipsisId(j)
    decreases |ps| - i
  {
    if i < |ps| {
      var gap: seq<PageItem> := if i > 0 && ps[i] - ps[i - 1] > 1 then [Ellipsis(EllipsisId(i))] else [];
      MarkIds(ps, i + 1);
      ValuesAppend(gap, [Page(ps[i])]);
      ValuesAppend(gap + [Page(ps[i])], Mark(ps, i + 1));
      var rest := EllipsisIds(Mark(ps, i + 1));
      assert EllipsisIds(Mark(ps, i)) == EllipsisIds(gap) + rest;
      if gap != [] {
        assert EllipsisIds(gap) == [EllipsisId(i)];
        forall k | 0 <= k < |rest| ensures rest[k] != EllipsisId(i) {
          assert rest[k] in rest;
          var j: nat :| i + 1 <= j && rest[k] == EllipsisId(j);
          if rest[k] == EllipsisId(i) {
            EllipsisIdInjective(i, j);
          }
        }
      }
    }
  }

  /** A page one below a shaped list's first page extends it. */
  lemma ConsAdjacent(a: int, w: seq<PageItem>)
    requires GapMarked(w) && a + 1 == w[0].value
    ensures GapMarked([Page(a)] + w)
  {
    assert [Page(a)] == Run(a, a);
    RunGapMarked(a, a);
    JoinAdjacent([Page(a)], w);
  }

  /** A page more than one below a shaped list's first page extends it through an ellipsis. */
  lemma ConsGap(a: int, id: string, w: seq<PageItem>)
    requires GapMarked(w) && a + 1 < w[0].value
    ensures GapMarked([Page(a), Ellipsis(id)] + w)
  {
    assert [Page(a)] == Run(a, a);
    RunGapMarked(a, a);
    JoinGap([Page(a)], id, w);
    assert [Page(a)] + [Ellipsis(id)] + w == [Page(a), Ellipsis(id)] + w;
  }

  /** One step of the insertion loop: the optional ellipsis, the page, then the rest. */
  lemma MarkUnfold(ps: seq<int>, i: nat)
    requires 0 < i < |ps|
    ensures Mark(ps, i) == (if ps[i] - ps[i - 1] > 1 then [Ellipsis(EllipsisId(i))] else [])
                           + ([Page(ps[i])] + Mark(ps, i + 1))
  {
  }

  /**
   From position `i` on, the emitted items followed by the virtual page `n + 1`
   and preceded by page `ps[i]` are shaped, when the pages increase up to `n`.
   */
  lemma {:induction false} MarkShapeFrom(ps: seq<int>, i: nat, n: int)
    requires i < |ps| && ps[|ps| - 1] == n
    requires forall k :: 0 <= k < |ps| - 1 ==> ps[k] < ps[k + 1]
    ensures GapMarked([Page(ps[i])] + Mark(ps, i + 1) + [Page(n + 1)])
    decreases |ps| - i
  {
    if i == |ps| - 1 {
      assert [Page(ps[i])] + Mark(ps, i + 1) + [Page(n + 1)] == Run(n, n + 1);
      RunGapMarked(n, n + 1);
    } else {
      MarkShapeFrom(ps, i + 1, n);
      var head, tail := [Page(ps[i])], [Page(n + 1)];
      var mid := [Page(ps[i + 1])] + Mark(ps, i + 2);
      var gap: seq<PageItem> := if ps[i + 1] - ps[i] > 1 then [Ellipsis(EllipsisId(i + 1))] else [];
      MarkUnfold(ps, i + 1);
      Reassociate(head, gap, mid, tail);
      if ps[i + 1] - ps[i] > 1 {
        ConsGap(ps[i], EllipsisId(i + 1), mid + tail);
        assert head + gap == [Page(ps[i]), Ellipsis(EllipsisId(i + 1))];
      } else {
        ConsAdjacent(ps[i], mid + tail);
        assert head + gap == head;
      }
    }
  }

  lemma Reassociate<T>(a: seq<T>, b: seq<T>, c: seq<T>, d: seq<T>)
    ensures a + (b + c) + d == a + b + (c + d)
  {
  }

  /** Inserting ellipses into increasing pages from 1 to `n` gives a shaped list over `1..n`. */
  lemma MarkShape(ps: seq<int>, n: int)
    requires |ps| >= 1 && ps[0] == 1 && ps[|ps| - 1] == n
    requires forall k :: 0 <= k < |ps| - 1 ==> ps[k] < ps[k + 1]
    ensures Gapped(Mark(ps, 0), n)
  {
    MarkShapeFrom(ps, 0, n);
    var w := [Page(ps[0])] + Mark(ps, 1) + [Page(n + 1)];
    assert GapMarked([Page(0)]) by {
      assert [Page(0)] == Run(0, 0);
      RunGapMarked(0, 0);
    }
    JoinAdjacent([Page(0)], w);
    assert [Page(0)] + w == [Page(0)] + Mark(ps, 0) + [Page(n + 1)];
  }

  // ---------------------------------------------------------------------------
  // Properties of the generated list

  /** The last item emitted from position `i` on is the last sorted page. */
  lemma {:induction false} MarkEnds(ps: seq<int>, i: nat)
    requires i < |ps|
    ensures |Mark(ps, i)| >= 1 && Mark(ps, i)[|Mark(ps, i)| - 1] == Page(ps[|ps| - 1])
    decreases |ps| - i
  {
    if i + 1 < |ps| {
      MarkEnds(ps, i + 1);
    }
  }

  /** A page is emitted from sorted pages exactly when it is one of them. */
  lemma MarkPages(ps: seq<int>, p: int)
    ensures Page(p) in Mark(ps, 0) <==> p in ps
  {
    var r := Mark(ps, 0);
    MarkValues(ps, 0);
    ValuesMembers(r);
    assert ps[0..] == ps;
    if Page(p) in r {
      var i :| 0 <= i < |r| && r[i] == Page(p);
      assert p in Values(r);
    }
  }

  /** Emitting increasing pages from 1 to `n` starts with page 1, ends with page `n` and stays within `1..n`. */
  lemma MarkBounds(ps: seq<int>, n: int)
    requires |ps| >= 1 && ps[0] == 1 && ps[|ps| - 1] == n
    requires forall i :: 0 <= i < |ps| ==> 1 <= ps[i] <= n
    ensures var r := Mark(ps, 0);
            && |r| >= 1 && r[0] == Page(1) && r[|r| - 1] == Page(n)
            && forall i :: 0 <= i < |r| && r[i].Page? ==> 1 <= r[i].value <= n
  {
    var r := Mark(ps, 0);
    MarkEnds(ps, 0);
    MarkValues(ps, 0);
    ValuesMembers(r);
    assert ps[0..] == ps;
    forall i | 0 <= i < |r| && r[i].Page? ensures 1 <= r[i].value <= n {
      assert r[i].value in Values(r);
    }
  }

  /**
   The list's pages, in order, are the sorted page set; the list is shaped over
   `1..totalPages`, so it never has two ellipses in a row and page values strictly increase.
   */
  lemma ListShape(currentPage: int, totalPages: int, siblingCount: int)
    requires ValidArgs(currentPage, totalPages, siblingCount)
    ensures var r := GenerateExponentialPages(currentPage, totalPages, siblingCount);
            && Values(r) == SortedPageNumbers(currentPage, totalPages, siblingCount)
            && Gapped(r, totalPages)
            && Increasing(r)
  {
    var ps := SortedPageNumbers(currentPage, totalPages, siblingCount);
    SortedEnds(currentPage, totalPages, siblingCount);
    MarkValues(ps, 0);
    assert ps[0..] == ps;
    MarkShape(ps, totalPages);
    GappedIncreasing(Mark(ps, 0), totalPages);
  }

  /** No page is listed twice, so page numbers can serve as the items' keys. */
  lemma PagesDistinct(currentPage: int, totalPages: int, siblingCount: int)
    requires ValidArgs(currentPage, totalPages, siblingCount)
    ensures Distinct(Values(GenerateExponentialPages(currentPage, totalPages, siblingCount)))
  {
    ListShape(currentPage, totalPages, siblingCount);
    IncreasingDistinct(GenerateExponentialPages(currentPage, totalPages, siblingCount));
  }

  /** Ellipsis keys are pairwise distinct, each derived from a distinct position. */
  lemma EllipsisKeysDistinct(currentPage: int, totalPages: int, siblingCount: int)
    requires ValidArgs(currentPage, totalPages, siblingCount)
    ensures Distinct(EllipsisIds(GenerateExponentialPages(currentPage, totalPages, siblingCount)))
  {
    MarkIds(SortedPageNumbers(currentPage, totalPages, siblingCount), 0);
  }

  /** A page is listed exactly when the reference definition lists it. */
  lemma PagesListed(currentPage: int, totalPages: int, siblingCount: int, p: int)
    requires ValidArgs(currentPage, totalPages, siblingCount)
    ensures Page(p) in GenerateExponentialPages(currentPage, totalPages, siblingCount)
            <==> Listed(currentPage, totalPages, siblingCount, p)
  {
    MarkPages(SortedPageNumbers(currentPage, totalPages, siblingCount), p);
    SortedMembers(currentPage, totalPages, siblingCount, p);
    PageSetIsListed(currentPage, totalPages, siblingCount, p);
  }

  /**
   The list starts with page 1 and ends with the last page (so it neither starts
   nor ends with an ellipsis), and every page lies between them.
   */
  lemma EndsAndRange(currentPage: int, totalPages: int, siblingCount: int)
    requires ValidArgs(currentPage, totalPages, siblingCount)
    ensures var r := GenerateExponentialPages(currentPage, totalPages, siblingCount);
            && |r| >= 1 && r[0] == Page(1) && r[|r| - 1] == Page(totalPages)
            && forall i :: 0 <= i < |r| && r[i].Page? ==> 1 <= r[i].value <= totalPages
  {
    var ps := SortedPageNumbers(currentPage, totalPages, siblingCount);
    SortedEnds(currentPage, totalPages, siblingCount);
    MarkBounds(ps, totalPages);
    assert GenerateExponentialPages(currentPage, totalPages, siblingCount) == Mark(ps, 0);
  }

  /** A current page within range is always listed when the sibling count is not negative. */
  lemma CurrentPageListed(currentPage: int, totalPages: int, siblingCount: int)
    requires ValidArgs(currentPage, totalPages, siblingCount)
    requires 1 <= currentPage <= totalPages && siblingCount >= 0
    ensures Page(currentPage) in GenerateExponentialPages(currentPage, totalPages, siblingCount)
  {
    PagesListed(currentPage, totalPages, siblingCount, currentPage);
  }

  /** A single page yields exactly `[1]`. */
  lemma SinglePage(currentPage: int, siblingCount: int)
    requires ValidArgs(currentPage, 1, siblingCount)
    ensures GenerateExponentialPages(currentPage, 1, siblingCount) == [Page(1)]
  {
    var ps := SortedPageNumbers(currentPage, 1, siblingCount);
    SortedEnds(currentPage, 1, siblingCount);
    assert |ps| == 1;
    assert Mark(ps, 0) == [Page(1)] + Mark(ps, 1);
  }

  /** Every page the control emits, by click or through previous/next, lies in `1..totalPages`. */
  lemma EmittedPagesInRange(currentPage: int, totalPages: int, siblingCount: int, p: int)
    requires ValidArgs(currentPage, totalPages, siblingCount)
    requires 1 <= currentPage <= totalPages
    requires Emits(GenerateExponentialPages(currentPage, totalPages, siblingCount), currentPage, totalPages, p)
    ensures 1 <= p <= totalPages
  {
    EndsAndRange(currentPage, totalPages, siblingCount);
    EmittedInRange(GenerateExponentialPages(currentPage, totalPages, siblingCount), currentPage, totalPages, p);
  }
}
