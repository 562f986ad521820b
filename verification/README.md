# imaimai-ui component logic in Dafny

This project models the logic at the core of five parts of the imaimai-ui component
library and proves properties of it. Rendering, styling and animation are not modelled.

- **Ellipsis pagination** (`EllipsisPagination`, on top of `PageItems`). The page list
  has `boundaryCount` pages pinned at each end and a window of `siblingCount` pages
  around the current page. The runs in between collapse into at most two ellipses,
  keyed `"left"` and `"right"`. The previous/next guards and the page click that both
  pagination shells share are in `PageItems`.
- **Exponential pagination** (`ExponentialPagination`). The page list holds page 1,
  pages 2 and 3 where they exist (≤ `totalPages`), every power of two from 4 up to
  the last page, a clipped window around the current page, and the last page. It is
  sorted, and an ellipsis keyed `ellipsis-<i>` goes before every gap.
- **iOS clock picker** (`ClockPicker`, with `Decimal` for `String`, `padStart` and
  `Number`). This covers:
  - reading `"HH:mm"`;
  - the 12-hour display and the AM/PM split;
  - the three wheels' labels and selected indices;
  - the hour, minute and period handlers that write a new `"HH:mm"`;
  - the wrap-or-clamp snap of a released wheel, and its "report only if changed" rule.
- **Multi-select combobox** (`MultiSelect`, with `Seqs` for `find` and `filter`). This
  covers:
  - the toggle and remove actions on the selected list;
  - the trigger's badges, limited by `maxVisibleItems`, and its "+N" badge;
  - the popover's removable badges and its check marks.
- **Component registry** (`Registry`). This covers the `components` list, the
  `componentsByCategory` reduction that the sidebar renders in key order, and
  `getComponentBySlug`.

Each operation is a pure function over immutable data. The properties relate each one
to an independent description:
- the set of pages a reference predicate says should be shown;
- the inverse operation (parse after format, display hour after 24-hour conversion);
- the invariant kept (no duplicates in a selection, distinct group keys);
- or the standard JavaScript meaning of the primitive used (truncating `%`, `filter`,
  `find`).

The list shape shared by both pagination components is `PageItems.Gapped`:
- neighbouring pages are consecutive;
- an ellipsis stands exactly where pages are skipped;
- an ellipsis starts the list exactly when its first page is above 1, and ends it
  exactly when its last page is below `totalPages`.

The shape is checked with virtual pages 0 and `totalPages + 1` around the list. So with
`boundaryCount = 0` the ellipsis list can itself start or end with an ellipsis. Only the
exponential list is proved to start with page 1 and end with the last page
(`ExponentialPagination.EndsAndRange`).

The ellipsis generator's own shell defaults `boundaryCount` to 3
(`ellipsis-pagination.tsx` line 120). The props table of the documentation site
(`components.ts` line 180) says 1. The model uses the code's value,
`EllipsisPagination.DefaultBoundaryCount`.

With the code's value, the documentation demo for many pages
(`EllipsisPaginationDemo.tsx` lines 53-59) does not show the ellipses its description
promises. It has ten pages, within the item budget of 11, so every page is listed
(`EllipsisPagination.TenPagesWithDefaults`). With the documented 1, the same demo at
its initial page 5 shows both ellipses (`EllipsisPagination.TenPagesWithBoundaryOne`).

The exponential generator is modelled as coded: page 1, pages 2 and 3 where they exist
(≤ `totalPages`), powers of two from 4, the window and the last page, with ellipses at
every gap.

## Model

| member | source | states |
|---|---|---|
| `PageItems.Run` | src/components/registry/ellipsis-pagination.tsx:44-47 | `Array.from({length}, (_, i) => i + 1)` over `lo..hi` is the pages `lo, lo+1, …, hi` in order, and empty when `lo > hi`. |
| `PageItems.Previous` | src/components/registry/ellipsis-pagination.tsx:129-133 | "previous" fires exactly when the current page is above 1, and it requests the page before it. |
| `PageItems.Next` | src/components/registry/ellipsis-pagination.tsx:135-139 | "next" fires exactly when the current page is below the last page, and it requests the page after it. |
| `PageItems.Emits` | src/components/registry/ellipsis-pagination.tsx:129-168 | what the control can request: the page before or after through the guards, or any listed page by a click; `EmittedPagesInRange` (both paginations) proves every such page lies in `1..totalPages`. |
| `PageItems.RunGapMarked` | src/components/registry/ellipsis-pagination.tsx:44-47 | a non-empty run of pages is a correctly shaped list. |
| `PageItems.JoinGap` | src/components/registry/ellipsis-pagination.tsx:84-96 | two shaped lists joined by one ellipsis across a real gap form a shaped list. |
| `PageItems.GappedIncreasing` | src/components/registry/ellipsis-pagination.tsx:84-96 | in a shaped list the page values strictly increase, so no page appears twice. |
| `PageItems.IncreasingDistinct` | src/components/registry/ellipsis-pagination.tsx:156-162 | strictly increasing page values are pairwise distinct, which is what keeps the `page-${value}` keys apart. |
| `EllipsisPagination.MaxItems` | src/components/registry/ellipsis-pagination.tsx:42 | the item budget `2·siblingCount + 1 + 2·boundaryCount + 2`, as coded; `GeneratePageNumbers` never exceeds it, and `SmallRangeListsAll` shows every page is listed, with no ellipsis, when `totalPages` is within it. |
| `EllipsisPagination.GeneratePageNumbers` | src/components/registry/ellipsis-pagination.tsx:35-99 | the list never exceeds `2·siblingCount + 2·boundaryCount + 3` items (window, both blocks, two ellipses), and every page in it lies in `1..totalPages`. |
| `EllipsisPagination.WindowStart` | src/components/registry/ellipsis-pagination.tsx:61 | the window's first page, as coded; `TruncatedParts` and `MiddleIsWindow` state that the listed middle pages are exactly `WindowStart..WindowEnd`, and `CurrentPageShown` that the current page is among them. |
| `EllipsisPagination.WindowEnd` | src/components/registry/ellipsis-pagination.tsx:62-65 | the window's last page, as coded; stated together with `WindowStart` by `TruncatedParts`, `MiddleIsWindow` and `CurrentPageShown`. |
| `EllipsisPagination.Middle` | src/components/registry/ellipsis-pagination.tsx:67-77 | the window loop with its boundary test, as coded; what it yields is stated by `MiddleIsWindow`. |
| `EllipsisPagination.MiddleIsWindow` | src/components/registry/ellipsis-pagination.tsx:67-77 | the loop's boundary test never rejects a page of the window: the middle pages are exactly `startPage..endPage`. |
| `EllipsisPagination.PagesShown` | src/components/registry/ellipsis-pagination.tsx:41-99 | page `p` is listed iff it lies in `1..totalPages` and one of these holds: the range fits, `p` is in the first or last `boundaryCount` pages, or `p` is within `siblingCount` of the current page. |
| `EllipsisPagination.CurrentPageShown` | src/components/registry/ellipsis-pagination.tsx:61-65 | a current page inside the range is always listed. |
| `EllipsisPagination.BoundaryBlocksShown` | src/components/registry/ellipsis-pagination.tsx:50-58 | each of the first and last `boundaryCount` pages is listed. |
| `EllipsisPagination.SmallRangeListsAll` | src/components/registry/ellipsis-pagination.tsx:41-48 | when `totalPages` is at most the item budget, the list is pages `1..totalPages` with no ellipsis. |
| `EllipsisPagination.TruncatedParts` | src/components/registry/ellipsis-pagination.tsx:79-96 | otherwise the list is the first block, a `"left"` ellipsis iff the window starts past `boundaryCount + 1`, the window, a `"right"` ellipsis iff it ends before `totalPages - boundaryCount`, and the last block. |
| `EllipsisPagination.LeftMarker` | src/components/registry/ellipsis-pagination.tsx:80-88 | the `"left"` ellipsis, present iff the window starts past `boundaryCount + 1`, as coded; `ListShape` states it stands exactly where pages are skipped, and `EllipsisKeys` that its key is not repeated. |
| `EllipsisPagination.RightMarker` | src/components/registry/ellipsis-pagination.tsx:81-94 | the `"right"` ellipsis, present iff the window ends before `totalPages - boundaryCount`, as coded; stated by `ListShape` and `EllipsisKeys` as for the left one. |
| `EllipsisPagination.ListShape` | src/components/registry/ellipsis-pagination.tsx:35-99 | for any current page, the list is shaped over `1..totalPages`: an ellipsis stands exactly where pages are skipped, never twice in a row, and page values strictly increase. |
| `EllipsisPagination.PagesDistinct` | src/components/registry/ellipsis-pagination.tsx:156-162 | no page is listed twice, so the `page-${value}` keys of the rendered items are unique. |
| `EllipsisPagination.EllipsisKeys` | src/components/registry/ellipsis-pagination.tsx:80-94 | the ellipsis keys are distinct and drawn from `"left"` and `"right"`, there are at most two, and there is one exactly when the range is truncated. |
| `EllipsisPagination.EmittedPagesInRange` | src/components/registry/ellipsis-pagination.tsx:129-139 | with the current page in range, every page the control requests (click, previous, next) lies in `1..totalPages`. |
| `EllipsisPagination.DocExample` | src/components/registry/ellipsis-pagination.tsx:30-34 | `(50, 100, 1, 1)` yields `1 … 49 50 51 … 100`, as the doc comment says. |
| `EllipsisPagination.TenPagesWithDefaults` | src/components/docs/tab-view/tab-view-demos/ellipsis-pagination-demo/EllipsisPaginationDemo.tsx:53-59 | with the coded defaults (`siblingCount` 1, `boundaryCount` 3), ten pages are listed in full with no ellipsis, for any current page. |
| `EllipsisPagination.TenPagesWithBoundaryOne` | src/config/components.ts:176-181 | with `boundaryCount` 1, as the props table documents, ten pages at page 5 give `1 … 4 5 6 … 10`. |
| `ExponentialPagination.Pow2` | src/components/registry/exponential-pagination.tsx:47-48 | `2 ** k` is at least 1; `PowersExactly` uses it to characterise the loop's additions. |
| `ExponentialPagination.Powers` | src/components/registry/exponential-pagination.tsx:46-50 | the `while (2 ** power <= totalPages)` loop, as coded; `PowersExactly` states it adds exactly the `2^k` with `k ≥ power` not above the last page. |
| `ExponentialPagination.PowersExactly` | src/components/registry/exponential-pagination.tsx:45-50 | the `while (2 ** power <= totalPages)` loop adds exactly the powers `2^k`, `k ≥ 2`, not above the last page. |
| `ExponentialPagination.Window` | src/components/registry/exponential-pagination.tsx:52-59 | the sibling loop adds exactly the pages between its bounds. |
| `ExponentialPagination.PageSet` | src/components/registry/exponential-pagination.tsx:38-62 | the set the `add` calls build, as coded; its members are stated by `PageSetIsListed` and `PageSetInRange`. |
| `ExponentialPagination.Ascending` | src/components/registry/exponential-pagination.tsx:64-65 | the enumeration stays within the range and strictly increases. |
| `ExponentialPagination.AscendingMembers` | src/components/registry/exponential-pagination.tsx:64-65 | the enumeration holds exactly the set's members within the range: with `Ascending`'s ordering, this is the numeric sort of those members. |
| `ExponentialPagination.SortedEnumerationUnique` | src/components/registry/exponential-pagination.tsx:64-65 | two strictly increasing sequences with the same elements are equal, so `Ascending` is the result of the numeric sort. |
| `ExponentialPagination.PageSetInRange` | src/components/registry/exponential-pagination.tsx:38-62 | every collected page lies in `1..totalPages`, whatever the current page and sibling count. |
| `ExponentialPagination.PageSetIsListed` | src/components/registry/exponential-pagination.tsx:38-62 | a page is collected iff it is 1; or 2 or 3 when they exist; or a power of two from 4 up to the last page; or within `siblingCount` of the current page and in range; or the last page. |
| `ExponentialPagination.SortedPageNumbers` | src/components/registry/exponential-pagination.tsx:65 | the numeric sort of the collected set, as coded; `SortedEnds` states it runs from 1 to `totalPages` strictly increasing, and `SortedMembers` that it holds exactly the collected pages. |
| `ExponentialPagination.SortedEnds` | src/components/registry/exponential-pagination.tsx:64-65 | the sorted pages start at 1, end at `totalPages`, stay within that range and strictly increase. |
| `ExponentialPagination.SortedMembers` | src/components/registry/exponential-pagination.tsx:64-65 | sorting neither loses a collected page nor adds one. |
| `ExponentialPagination.EllipsisId` | src/components/registry/exponential-pagination.tsx:71 | the key `ellipsis-${i}`, as coded; `EllipsisIdInjective` states distinct positions give distinct keys, and `MarkIds` that the loop's keys are distinct. |
| `ExponentialPagination.EllipsisIdInjective` | src/components/registry/exponential-pagination.tsx:71 | `ellipsis-${i}` determines `i`. |
| `ExponentialPagination.Mark` | src/components/registry/exponential-pagination.tsx:67-74 | the ellipsis insertion loop, as coded; its output is stated by `MarkValues`, `MarkIds`, `MarkShape`, `MarkPages` and `MarkBounds`. |
| `ExponentialPagination.MarkValues` | src/components/registry/exponential-pagination.tsx:67-74 | the insertion loop keeps the sorted pages, in order, and adds nothing else but ellipses. |
| `ExponentialPagination.MarkIds` | src/components/registry/exponential-pagination.tsx:67-74 | the loop's ellipsis keys are distinct, each naming a position at or after the loop's start. |
| `ExponentialPagination.MarkShape` | src/components/registry/exponential-pagination.tsx:67-74 | over increasing pages from 1 to `n`, the loop puts an ellipsis exactly before each gap, giving a shaped list. |
| `ExponentialPagination.MarkEnds` | src/components/registry/exponential-pagination.tsx:67-74 | the last item the loop emits is the last sorted page. |
| `ExponentialPagination.MarkPages` | src/components/registry/exponential-pagination.tsx:67-74 | the loop emits page `p` iff `p` is one of the sorted pages. |
| `ExponentialPagination.MarkBounds` | src/components/registry/exponential-pagination.tsx:67-74 | over increasing pages from 1 to `n`, the loop's first item is page 1, its last is page `n`, and no page leaves `1..n`. |
| `ExponentialPagination.GenerateExponentialPages` | src/components/registry/exponential-pagination.tsx:33-77 | the generator, as coded; its list is stated by `ListShape`, `PagesListed`, `EndsAndRange`, `PagesDistinct` and `EllipsisKeysDistinct`. |
| `ExponentialPagination.ListShape` | src/components/registry/exponential-pagination.tsx:33-77 | the list's pages are the sorted set, the list is shaped over `1..totalPages`, and its page values strictly increase. |
| `ExponentialPagination.PagesDistinct` | src/components/registry/exponential-pagination.tsx:128-134 | no page is listed twice, so the `page-${value}` keys of the rendered items are unique. |
| `ExponentialPagination.EllipsisKeysDistinct` | src/components/registry/exponential-pagination.tsx:70-72 | no two ellipses share a key. |
| `ExponentialPagination.PagesListed` | src/components/registry/exponential-pagination.tsx:33-77 | page `p` is in the list iff the reference description of collected pages lists it. |
| `ExponentialPagination.EndsAndRange` | src/components/registry/exponential-pagination.tsx:40-62 | the list starts with page 1, ends with the last page, and never goes outside `1..totalPages`. |
| `ExponentialPagination.CurrentPageListed` | src/components/registry/exponential-pagination.tsx:52-59 | a current page inside the range is listed when the sibling count is not negative. |
| `ExponentialPagination.SinglePage` | src/components/registry/exponential-pagination.tsx:38-77 | one page yields exactly `[1]`. |
| `ExponentialPagination.EmittedPagesInRange` | src/components/registry/exponential-pagination.tsx:101-111 | with the current page in range, every page the control requests lies in `1..totalPages`. |
| `Decimal.DecimalString` | src/components/registry/ios-clock-picker.tsx:213 | `String(n)` of a natural is a non-empty digit string, of one digit iff `n < 10`, that starts with `0` only for `n = 0`; with `DigitsValueOfDecimal` this is the canonical spelling. |
| `Decimal.PadStart` | src/components/registry/ios-clock-picker.tsx:213 | `padStart` gives length `max(width, len)`, keeps the text as a suffix, and fills only with the pad character. |
| `Decimal.ParseNumber` | src/components/registry/ios-clock-picker.tsx:205 | `Number` reads a value exactly when the text is all digits. |
| `Decimal.DigitsValueOfDecimal` | src/components/registry/ios-clock-picker.tsx:205 | reading `String(n)` gives back `n`. |
| `Decimal.DecimalInjective` | src/components/registry/exponential-pagination.tsx:71 | different numbers have different decimal texts. |
| `Decimal.ParsePadded` | src/components/registry/ios-clock-picker.tsx:232-234 | zero padding does not change the value read back. |
| `Decimal.Pad2` | src/components/registry/ios-clock-picker.tsx:212-217 | `String(n).padStart(2, "0")`, as coded; `Pad2Length` states it is exactly two digits below 100, and `ParsePadded` that it reads back as `n`. |
| `Decimal.Pad2Length` | src/components/registry/ios-clock-picker.tsx:215-217 | below 100, `padStart(2, "0")` gives exactly two digits. |
| `ClockPicker.Split` | src/components/registry/ios-clock-picker.tsx:205 | `split(":")` yields at least one field, and no field contains the separator. |
| `ClockPicker.JoinSplit` | src/components/registry/ios-clock-picker.tsx:205 | joining the fields with the separator gives back the text. |
| `ClockPicker.Parse` | src/components/registry/ios-clock-picker.tsx:205 | reading `"HH:mm"` yields a value only when there are at least two fields; that a written value reads back is `ParseFormat`. |
| `ClockPicker.Format` | src/components/registry/ios-clock-picker.tsx:232-234 | the `padStart(2, "0")` template the handlers write, as coded; it is stated by `ParseFormat` and `FormatShape`. |
| `ClockPicker.ParseFormat` | src/components/registry/ios-clock-picker.tsx:232-234 | every value a handler writes reads back as the hours and minutes it was written from. |
| `ClockPicker.FormatShape` | src/components/registry/ios-clock-picker.tsx:238-240 | for a time of day the value is five characters: two digits, a colon, two digits. |
| `ClockPicker.DisplayHours` | src/components/registry/ios-clock-picker.tsx:209 | `hours % 12 \|\| 12` lies in `1..12` and agrees with the hours modulo 12. |
| `ClockPicker.To24` | src/components/registry/ios-clock-picker.tsx:225-231 | the 24-hour value of a display hour in a period, as coded; it is stated by `To24RoundTrip` and `DisplayRoundTrip`. |
| `ClockPicker.DisplayRoundTrip` | src/components/registry/ios-clock-picker.tsx:206-209 | a time of day is recovered from its display hour and AM/PM. |
| `ClockPicker.To24RoundTrip` | src/components/registry/ios-clock-picker.tsx:225-231 | every display hour and period converts to a time of day with that display hour and that period. |
| `ClockPicker.IsPM` | src/components/registry/ios-clock-picker.tsx:206 | `hours >= 12`, as coded; `DisplayRoundTrip` states the display hour and `IsPM` recover a time of day, and `To24RoundTrip` that converting back keeps the period. |
| `ClockPicker.HourLabels` | src/components/registry/ios-clock-picker.tsx:212-214 | the twelve labels `"01".."12"`; `SelectedLabels` states the label at the selected index reads back as the display hour. |
| `ClockPicker.MinuteLabels` | src/components/registry/ios-clock-picker.tsx:215-217 | the sixty labels `"00".."59"`; `SelectedLabels` states the label at the selected index reads back as the minutes. |
| `ClockPicker.PeriodLabels` | src/components/registry/ios-clock-picker.tsx:218 | `["AM", "PM"]`; `SelectedLabels` states the label at the selected index is `"PM"` iff the hours are at least 12. |
| `ClockPicker.HourIndex` | src/components/registry/ios-clock-picker.tsx:267 | `displayHours - 1`, as coded; `SelectedLabels` states it is on the wheel, and `HourChangeRoundTrip` that re-selecting it writes the same time. |
| `ClockPicker.MinuteIndex` | src/components/registry/ios-clock-picker.tsx:275 | the minutes, as coded; `SelectedLabels` states it is on the wheel and selects the label of the minutes. |
| `ClockPicker.PeriodIndex` | src/components/registry/ios-clock-picker.tsx:284 | `isPM ? 1 : 0`, as coded; `SelectedLabels` states it is on the wheel and selects the period's label. |
| `ClockPicker.SelectedLabels` | src/components/registry/ios-clock-picker.tsx:212-218 | for a time of day, each wheel's selected index is on the wheel, and its label shows the display hour, the minutes and the period. |
| `ClockPicker.HourChange` | src/components/registry/ios-clock-picker.tsx:221-235 | `handleHourChange`, as coded; it is stated by `HourChangeSpec` and `HourChangeRoundTrip`. |
| `ClockPicker.MinuteChange` | src/components/registry/ios-clock-picker.tsx:237-241 | `handleMinuteChange`, as coded; it is stated by `MinuteChangeSpec`. |
| `ClockPicker.PeriodChange` | src/components/registry/ios-clock-picker.tsx:243-255 | `handlePeriodChange`, as coded; it is stated by `PeriodChangeSpec`. |
| `ClockPicker.HourChangeSpec` | src/components/registry/ios-clock-picker.tsx:221-235 | choosing hour index `i` writes a time of day with display hour `i + 1`, the same period and the same minutes. |
| `ClockPicker.HourChangeRoundTrip` | src/components/registry/ios-clock-picker.tsx:267 | re-selecting the hour wheel's current index writes the same time back. |
| `ClockPicker.MinuteChangeSpec` | src/components/registry/ios-clock-picker.tsx:237-241 | choosing minute index `i` keeps the hours and sets the minutes to `i`. |
| `ClockPicker.PeriodChangeSpec` | src/components/registry/ios-clock-picker.tsx:243-255 | choosing a period keeps the display hour and the minutes, and gives a PM time iff the index is 1. |
| `ClockPicker.JsRem` | src/components/registry/ios-clock-picker.tsx:114 | JavaScript's `%` is the remainder of truncating division, with the sign of the dividend. |
| `ClockPicker.Snap` | src/components/registry/ios-clock-picker.tsx:112-118 | the snapped index is on the wheel. An endless wheel keeps it congruent to the released index; otherwise it is clamped to the first or last item. |
| `ClockPicker.SnapIsModulo` | src/components/registry/ios-clock-picker.tsx:114 | `((i % n) + n) % n` with truncating `%` is the mathematical remainder of `i` by `n`. |
| `ClockPicker.PointerUp` | src/components/registry/ios-clock-picker.tsx:106-134 | a release reports a selection iff a drag was in progress and the snapped index differs from the selected one, and the index it reports is that snapped index. |
| `ClockPicker.HourWheelWritesTimeOfDay` | src/components/registry/ios-clock-picker.tsx:106-134 | releasing the hour wheel at index `i` reports `i mod 12` iff a drag was in progress and that differs from the shown hour; the handler then writes a time of day with display hour `i mod 12 + 1`, in the same period, with the minutes kept. |
| `ClockPicker.MinuteWheelWritesMinutes` | src/components/registry/ios-clock-picker.tsx:106-134 | releasing the minute wheel at index `i` reports `i mod 60` iff a drag was in progress and that differs from the shown minute; the handler then writes those minutes with the hours kept. |
| `ClockPicker.PeriodWheelWritesPeriod` | src/components/registry/ios-clock-picker.tsx:106-134 | releasing the AM/PM wheel at index `i` reports `i mod 2` iff a drag was in progress and that differs from the shown period; the handler then writes a time of day with the same display hour and minutes, PM iff `i mod 2 = 1`. |
| `Seqs.Find` | src/components/registry/multi-select-combobox.tsx:78-80 | `find` returns the first element satisfying the predicate, and `undefined` iff there is none. |
| `Seqs.Map` | src/config/components.ts:188-197 | `xs.map(f)`, used for the categories of the components and the keys of the reduced record: the same length, and element `i` is `f` of element `i`. |
| `Seqs.Filter` | src/components/registry/multi-select-combobox.tsx:59 | `xs.filter(p)` is never longer than `xs`; `FilterMembers`, `FilterMultiset` and `FilterAppend` state what it keeps. |
| `Seqs.FilterMembers` | src/components/registry/multi-select-combobox.tsx:59 | `filter` keeps exactly the elements satisfying the predicate. |
| `Seqs.FilterMultiset` | src/components/registry/multi-select-combobox.tsx:59 | `filter` keeps every kept element as often as it occurs, and drops all copies of the others. |
| `Seqs.FilterAppend` | src/components/registry/multi-select-combobox.tsx:59 | `filter` preserves the relative order: it distributes over concatenation. |
| `MultiSelect.Without` | src/components/registry/multi-select-combobox.tsx:52-59 | `selected.filter((item) => item !== value)`, as coded; `HandleRemove` and `WithoutFacts` state it drops every copy of the value and keeps the others with their multiplicities, and `RemoveAtIndex` that in a duplicate-free list it deletes exactly one position. |
| `MultiSelect.HandleRemove` | src/components/registry/multi-select-combobox.tsx:58-60 | removal deletes every copy of the value, keeps the others with their multiplicities, and changes nothing when the value is absent. |
| `MultiSelect.HandleSelect` | src/components/registry/multi-select-combobox.tsx:49-56 | toggling flips the value's membership and leaves every other value's membership alone; an unselected value is appended at the end. |
| `MultiSelect.RemoveAtIndex` | src/components/registry/multi-select-combobox.tsx:52 | in a duplicate-free selection, removing a value deletes exactly its position, keeping the order of the rest. |
| `MultiSelect.SelectKeepsNoDuplicates` | src/components/registry/multi-select-combobox.tsx:49-56 | toggling never introduces a duplicate. |
| `MultiSelect.SelectTwiceRestores` | src/components/registry/multi-select-combobox.tsx:49-56 | selecting an unselected value twice gives back the original list. |
| `MultiSelect.SelectTwiceMovesToEnd` | src/components/registry/multi-select-combobox.tsx:49-56 | deselecting and reselecting a value moves it to the end. |
| `MultiSelect.LabelOf` | src/components/registry/multi-select-combobox.tsx:78-80 | the label is that of the first option with the value, and is absent iff no option has it. |
| `MultiSelect.Badges` | src/components/registry/multi-select-combobox.tsx:77-91 | there is at most one badge per value, each a non-empty label of one of the values. |
| `MultiSelect.VisibleValues` | src/components/registry/multi-select-combobox.tsx:74-76 | the values given badges, as coded; stated by `VisiblePlusOverflow`. |
| `MultiSelect.Overflow` | src/components/registry/multi-select-combobox.tsx:93-99 | the "+N" badge, as coded; stated by `VisiblePlusOverflow` and `OverflowIgnoresLabels`. |
| `MultiSelect.TriggerView` | src/components/registry/multi-select-combobox.tsx:71-99 | the trigger's content, as coded; stated by `BadgesAreLabels`, `VisiblePlusOverflow` and `TriggerBadgesPrefixPopover`. |
| `MultiSelect.BadgesAreLabels` | src/components/registry/multi-select-combobox.tsx:77-91 | the badges are, in order, the labels of exactly the values that have a non-empty label. |
| `MultiSelect.VisiblePlusOverflow` | src/components/registry/multi-select-combobox.tsx:74-99 | the visible values are the first `min(len, max)` selected (all of them when `max` is 0 or absent), and with "+N" they account for every selected value. |
| `MultiSelect.OverflowIgnoresLabels` | src/components/registry/multi-select-combobox.tsx:93-99 | the "+N" count depends only on the selection, not on which values have labels. |
| `MultiSelect.PopoverBadges` | src/components/registry/multi-select-combobox.tsx:140-147 | the popover's removable badges, as coded; `TriggerBadgesPrefixPopover` states the trigger's badges are a prefix of them, and all of them without a limit. |
| `MultiSelect.TriggerBadgesPrefixPopover` | src/components/registry/multi-select-combobox.tsx:140-147 | the trigger's badges are the first of the popover's badges, and all of them when no limit applies. |
| `MultiSelect.CheckMarks` | src/components/registry/multi-select-combobox.tsx:119-131 | there is one check mark per option, and option `i`'s mark is on iff its value is selected. |
| `MultiSelect.SelectFlipsOneMark` | src/components/registry/multi-select-combobox.tsx:125 | choosing an option flips its own mark, and changes exactly the marks of options with the same value. |
| `Registry.GetBySlug` | src/config/components.ts:200-202 | the result is the first component with the slug, and `undefined` iff no component has it. |
| `Registry.GetOwnSlug` | src/config/components.ts:200-202 | with unique slugs, a component's own slug finds that component. |
| `Registry.Lookup` | src/config/components.ts:190 | `acc[key]` is undefined exactly when the key has not been added. |
| `Registry.Add` | src/config/components.ts:189-195 | the reducer step, as coded; stated by `AddKeys`, `AddLookup`, `AddDistinct` and `AddSize`. |
| `Registry.GroupByCategory` | src/config/components.ts:188-197 | the `reduce` over the components, as coded; stated by `GroupKeys`, `GroupMembers`, `GroupContents`, `GroupOrder` and `GroupSizes`. |
| `Registry.AddKeys` | src/config/components.ts:190-192 | the reducer step appends a new category as the last key and keeps the existing keys in place. |
| `Registry.AddDistinct` | src/config/components.ts:189-195 | the reducer step keeps the keys distinct. |
| `Registry.AddLookup` | src/config/components.ts:193 | the reducer step appends the component to its own category's array and leaves every other array unchanged. |
| `Registry.AddSize` | src/config/components.ts:189-195 | the reducer step stores exactly one more component. |
| `Registry.GroupKeys` | src/config/components.ts:188-197 | the keys of `componentsByCategory` are distinct, and they are exactly the categories that occur. |
| `Registry.GroupMembers` | src/config/components.ts:188-197 | each category's array, read as empty when missing, is the in-order filter of the components of that category. |
| `Registry.GroupContents` | src/config/components.ts:188-197 | each occurring category's array is present, non-empty, and exactly its components in declaration order. |
| `Registry.GroupOrder` | src/config/components.ts:188-197 | the keys come in the order of their categories' first components. |
| `Registry.GroupSizes` | src/config/components.ts:188-197 | the sizes of the category arrays sum to the number of components: each is stored under exactly one key. |
| `Registry.RegistryLookups` | src/config/components.ts:33-185 | the two registered slugs are unique and each finds its own entry, and `"exponential-pagination"`, a component of the library that is not registered, finds nothing; the general "no match gives `undefined`" is `GetBySlug`'s contract. |
| `Registry.RegistryGroups` | src/config/components.ts:33-197 | the sidebar groups are `form: [Multi Select Combobox]`, then `layout: [Ellipsis Pagination]`. |

## Left out

- Rendering is not modelled: the React components, Tailwind classes, accessibility attributes and React's own handling of keys. Both kinds of item key are proved distinct: page keys by `EllipsisPagination.PagesDistinct` and `ExponentialPagination.PagesDistinct`, ellipsis keys by `EllipsisPagination.EllipsisKeys` and `ExponentialPagination.EllipsisKeysDistinct`.
- Clock-picker physics is not modelled: drag deltas, the spring animation, the 3D wheel geometry and `Math.round` of the floating-point drag offset. The rounded index is an input of `ClockPicker.Snap` and `ClockPicker.PointerUp`.
- `ClockPicker.Parse`: `Number` is modelled only on digit strings, with `""` read as 0. Signs, decimals, whitespace and exponents are not read, nor the `NaN` they or other text produce. A value without a second field is `None`; in JavaScript it would be formatted as `"undefined"`.
- `Decimal.ParseNumber`: stated for digit strings only, for the same reason.
- Clock-picker hours and minutes are naturals. A negative `Number` result is not modelled.
- The search and filtering inside the combobox popover belongs to the `cmdk` library, whose code is not part of this model.
- The combobox's `open` state and the `stopPropagation` of the remove button are UI state only.
- `ComponentConfig`'s `description`, `demoProps`, `codeExample`, `props` and dependency fields are display data and are not modelled.
- Pagination arguments are not fully general. The ellipsis generator requires non-negative counts. The exponential generator requires `totalPages ≥ 1`; for zero or negative page counts JavaScript would list page 0 or a negative page. Both accept any current page, and the lemmas about the current page or emitted pages ask for it to be in range.
- Integers are unbounded. JavaScript numbers are doubles, so pages or powers of two above `2^53` would behave differently.
- The lookup of a non-string key in `componentsByCategory` is not modelled. The categories form a closed enumeration.
