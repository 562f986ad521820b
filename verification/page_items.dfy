/**
 The render items shared by both pagination controls, the structural facts
 about item lists that both generators establish, and the previous/next
 guards of the shell that hosts them.
 */
module PageItems {
  import opened Wrappers
  import opened Seqs

  /** `Math.max` and `Math.min`, used to clip page windows. */
  function Max(a: int, b: int): int { if a >= b then a else b }
  function Min(a: int, b: int): int { if a <= b then a else b }

  /** A clickable page number, or a non-interactive ellipsis marker with a key. */
  datatype PageItem = Page(value: int) | Ellipsis(id: string)

  /** The pages `lo..hi` in ascending order; empty when `lo > hi`. */
  function Run(lo: int, hi: int): (r: seq<PageItem>)
    ensures |r| == if lo <= hi then hi - lo + 1 else 0
    ensures forall i :: 0 <= i < |r| ==> r[i] == Page(lo + i)
    decreases hi - lo
  {
    if lo > hi then [] else [Page(lo)] + Run(lo + 1, hi)
  }

  lemma RunContains(lo: int, hi: int, p: int)
    ensures Page(p) in Run(lo, hi) <==> lo <= p <= hi
  {
    if lo <= p <= hi {
      assert Run(lo, hi)[p - lo] == Page(p);
    }
  }

  lemma RunCons(lo: int, hi: int)
    requires lo - 1 <= hi
    ensures [Page(lo - 1)] + Run(lo, hi) == Run(lo - 1, hi)
  {
  }

  lemma RunSnoc(lo: int, hi: int)
    requires lo <= hi + 1
    ensures Run(lo, hi) + [Page(hi + 1)] == Run(lo, hi + 1)
  {
  }

  /** The page values of an item list, in order, ellipses skipped. */
  function Values(items: seq<PageItem>): (r: seq<int>)
    ensures |r| <= |items|
  {
    if |items| == 0 then []
    else if items[0].Page? then [items[0].value] + Values(items[1..])
    else Values(items[1..])
  }

  /** The keys of the ellipses of an item list, in order. */
  function EllipsisIds(items: seq<PageItem>): (r: seq<string>)
    ensures |r| <= |items|
  {
    if |items| == 0 then []
    else if items[0].Ellipsis? then [items[0].id] + EllipsisIds(items[1..])
    else EllipsisIds(items[1..])
  }

  lemma {:induction false} ValuesConcat(a: seq<PageItem>, b: seq<PageItem>)
    ensures Values(a + b) == Values(a) + Values(b)
  {
    if |a| == 0 {
      assert a + b == b;
    } else {
      assert (a + b)[1..] == a[1..] + b;
      ValuesConcat(a[1..], b);
    }
  }

  lemma {:induction false} IdsConcat(a: seq<PageItem>, b: seq<PageItem>)
    ensures EllipsisIds(a + b) == EllipsisIds(a) + EllipsisIds(b)
  {
    if |a| == 0 {
      assert a + b == b;
    } else {
      assert (a + b)[1..] == a[1..] + b;
      IdsConcat(a[1..], b);
    }
  }

  /** Pages and ellipsis keys of a concatenation are those of the parts, concatenated. */
  lemma ValuesAppend(a: seq<PageItem>, b: seq<PageItem>)
    ensures Values(a + b) == Values(a) + Values(b)
    ensures EllipsisIds(a + b) == EllipsisIds(a) + EllipsisIds(b)
  {
    ValuesConcat(a, b);
    IdsConcat(a, b);
  }

  lemma {:induction false} RunValues(lo: int, hi: int)
    ensures EllipsisIds(Run(lo, hi)) == []
    ensures |Values(Run(lo, hi))| == |Run(lo, hi)|
    decreases hi - lo
  {
    if lo <= hi {
      RunValues(lo + 1, hi);
    }
  }

  /** Page values strictly increase from left to right, so no page is listed twice. */
  predicate Increasing(items: seq<PageItem>) {
    forall i, j :: 0 <= i < j < |items| && items[i].Page? && items[j].Page? ==>
      items[i].value < items[j].value
  }

  /**
   The local shape rule at position `i`: two neighbouring pages are consecutive
   numbers, a page followed by an ellipsis is followed by a page that skips at
   least one number, and an ellipsis is followed by a page.
   */
  predicate Step(xs: seq<PageItem>, i: int)
    requires 0 <= i < |xs| - 1
  {
    match xs[i]
    case Page(a) =>
      (match xs[i + 1]
       case Page(b) => b == a + 1
       case Ellipsis(_) => i + 2 < |xs| && xs[i + 2].Page? && xs[i + 2].value > a + 1)
    case Ellipsis(_) => xs[i + 1].Page?
  }

  /** A list that starts and ends with a page and obeys the shape rule everywhere. */
  predicate GapMarked(xs: seq<PageItem>) {
    && |xs| >= 1
    && xs[0].Page?
    && xs[|xs| - 1].Page?
    && forall i :: 0 <= i < |xs| - 1 ==> Step(xs, i)
  }

  /**
   `items` renders pages within `1..n` so that every run of hidden pages, and only
   such a run, is shown as exactly one ellipsis. The virtual pages 0 and n + 1
   make a run hidden at either end count too.
   */
  predicate Gapped(items: seq<PageItem>, n: int) {
    GapMarked([Page(0)] + items + [Page(n + 1)])
  }

  lemma {:induction false} RunGapMarked(lo: int, hi: int)
    requires lo <= hi
    ensures GapMarked(Run(lo, hi))
  {
    var r := Run(lo, hi);
    forall i | 0 <= i < |r| - 1 ensures Step(r, i) {
      assert r[i] == Page(lo + i) && r[i + 1] == Page(lo + i + 1);
    }
  }

  /** Two shaped lists join without a marker when the second continues the first. */
  lemma {:induction false} JoinAdjacent(xs: seq<PageItem>, ys: seq<PageItem>)
    requires GapMarked(xs) && GapMarked(ys)
    requires xs[|xs| - 1].value + 1 == ys[0].value
    ensures GapMarked(xs + ys)
  {
    var zs := xs + ys;
    forall i | 0 <= i < |zs| - 1 ensures Step(zs, i) {
      if i < |xs| - 1 {
        assert Step(xs, i);
        if xs[i + 1].Ellipsis? {
          assert i + 2 < |xs|;
        }
      } else if i >= |xs| {
        assert Step(ys, i - |xs|);
        assert zs[i] == ys[i - |xs|] && zs[i + 1] == ys[i - |xs| + 1];
        if ys[i - |xs| + 1].Ellipsis? {
          assert zs[i + 2] == ys[i - |xs| + 2];
        }
      }
    }
  }

  /** Two shaped lists join with one marker when the second skips a page. */
  lemma {:induction false} JoinGap(xs: seq<PageItem>, id: string, ys: seq<PageItem>)
    requires GapMarked(xs) && GapMarked(ys)
    requires xs[|xs| - 1].value + 1 < ys[0].value
    ensures GapMarked(xs + [Ellipsis(id)] + ys)
  {
    var zs := xs + [Ellipsis(id)] + ys;
    var k := |xs| + 1;
    forall i | 0 <= i < |zs| - 1 ensures Step(zs, i) {
      if i < |xs| - 1 {
        assert Step(xs, i);
        if xs[i + 1].Ellipsis? {
          assert i + 2 < |xs|;
        }
      } else if i == |xs| - 1 {
        assert zs[i + 2] == ys[0];
      } else if i >= k {
        assert Step(ys, i - k);
        assert zs[i] == ys[i - k] && zs[i + 1] == ys[i - k + 1];
        if ys[i - k + 1].Ellipsis? {
          assert zs[i + 2] == ys[i - k + 2];
        }
      }
    }
  }

  /** Page values of a shaped list strictly increase. */
  lemma {:induction false} GapMarkedIncreasing(xs: seq<PageItem>)
    requires GapMarked(xs)
    ensures Increasing(xs)
  {
    forall i, j | 0 <= i < j < |xs| && xs[i].Page? && xs[j].Page?
      ensures xs[i].value < xs[j].value
    {
      PageChain(xs, i, j);
    }
  }

  lemma {:induction false} PageChain(xs: seq<PageItem>, i: int, j: int)
    requires GapMarked(xs)
    requires 0 <= i < j < |xs| && xs[i].Page? && xs[j].Page?
    ensures xs[i].value < xs[j].value
    decreases j - i
  {
    assert Step(xs, i);
    var k := if xs[i + 1].Page? then i + 1 else i + 2;
    if k < j {
      PageChain(xs, k, j);
    }
  }

  /** A list shaped over `1..n` has strictly increasing pages. */
  lemma GappedIncreasing(r: seq<PageItem>, n: int)
    requires Gapped(r, n)
    ensures Increasing(r)
  {
    var wrapped := [Page(0)] + r + [Page(n + 1)];
    GapMarkedIncreasing(wrapped);
    assert forall i :: 0 <= i < |r| ==> r[i] == wrapped[i + 1];
  }

  /** Strictly increasing page values are distinct. */
  lemma IncreasingDistinct(items: seq<PageItem>)
    requires Increasing(items)
    ensures Distinct(Values(items))
    ensures forall i :: 0 <= i < |Values(items)| - 1 ==> Values(items)[i] < Values(items)[i + 1]
  {
    ValuesIncreasing(items);
  }

  lemma {:induction false} ValuesIncreasing(items: seq<PageItem>)
    requires Increasing(items)
    ensures forall i, j :: 0 <= i < j < |Values(items)| ==> Values(items)[i] < Values(items)[j]
  {
    if |items| > 0 {
      ValuesIncreasing(items[1..]);
      ValuesMembers(items[1..]);
      var v := Values(items);
      if items[0].Page? {
        forall j | 1 <= j < |v| ensures v[0] < v[j] {
          assert v[j] == Values(items[1..])[j - 1];
          var k :| 0 <= k < |items[1..]| && items[1..][k] == Page(v[j]);
          assert items[k + 1] == Page(v[j]);
        }
      }
    }
  }

  /** Every value listed by `Values` comes from a page item. */
  lemma {:induction false} ValuesMembers(items: seq<PageItem>)
    ensures forall x :: x in Values(items) ==> Page(x) in items
    ensures forall i :: 0 <= i < |items| && items[i].Page? ==> items[i].value in Values(items)
  {
    if |items| > 0 {
      ValuesMembers(items[1..]);
      forall i | 1 <= i < |items| && items[i].Page? ensures items[i].value in Values(items) {
        assert items[i] == items[1..][i - 1];
      }
    }
  }

  /** The "previous" control: emits `currentPage - 1` unless already on the first page. */
  function Previous(currentPage: int): (r: Option<int>)
    ensures r.Some? <==> currentPage > 1
    ensures r.Some? ==> r.value == currentPage - 1
  {
    if currentPage > 1 then Some(currentPage - 1) else None
  }

  /** The "next" control: emits `currentPage + 1` unless already on the last page. */
  function Next(currentPage: int, totalPages: int): (r: Option<int>)
    ensures r.Some? <==> currentPage < totalPages
    ensures r.Some? ==> r.value == currentPage + 1
  {
    if currentPage < totalPages then Some(currentPage + 1) else None
  }

  /** Can the control emit `p`: through previous, next, or a click on a page item. */
  predicate Emits(items: seq<PageItem>, currentPage: int, totalPages: int, p: int) {
    || Previous(currentPage) == Some(p)
    || Next(currentPage, totalPages) == Some(p)
    || Page(p) in items
  }

  /** When every listed page lies in `1..n`, every page the control emits does too. */
  lemma EmittedInRange(items: seq<PageItem>, currentPage: int, totalPages: int, p: int)
    requires 1 <= currentPage <= totalPages
    requires forall i :: 0 <= i < |items| && items[i].Page? ==> 1 <= items[i].value <= totalPages
    requires Emits(items, currentPage, totalPages, p)
    ensures 1 <= p <= totalPages
  {
  }
}
