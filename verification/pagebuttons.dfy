/** The rows of numbered page buttons under the orders list and the
    notifications list. Both views show an ascending selection of page
    numbers and put an ellipsis wherever the selection skips pages; they
    differ only in which pages they select. */
module PageButtons {
  import opened Pagination

  /** One entry of the button row: a page number, or the '...' marker. */
  datatype Button = Page(n: int) | Ellipsis

  predicate StrictlyIncreasing(ns: seq<int>)
  {
    forall i, j :: 0 <= i < j < |ns| ==> ns[i] < ns[j]
  }

  /** The page numbers of a button row, ellipses dropped. */
  function Numbers(bs: seq<Button>): (r: seq<int>)
    ensures |r| <= |bs|
  {
    if |bs| == 0 then []
    else (if bs[0].Page? then [bs[0].n] else []) + Numbers(bs[1..])
  }

  /** The ellipsis rule shared by both views: an ellipsis stands between two
      page numbers exactly where they are more than one apart, and nowhere
      else. */
  predicate GapMarked(bs: seq<Button>)
  {
    && (forall i :: 0 <= i < |bs| && bs[i].Ellipsis? ==>
          0 < i < |bs| - 1 && bs[i - 1].Page? && bs[i + 1].Page?
          && bs[i + 1].n - bs[i - 1].n > 1)
    && (forall i :: 0 <= i < |bs| - 1 && bs[i].Page? && bs[i + 1].Page? ==>
          bs[i + 1].n - bs[i].n == 1)
  }

  /** The buttons that follow page `prev`: each number, preceded by an
      ellipsis when it is more than one past the number before it. */
  function MarkAfter(prev: int, ns: seq<int>): seq<Button>
    decreases |ns|
  {
    if |ns| == 0 then []
    else (if ns[0] - prev > 1 then [Ellipsis, Page(ns[0])] else [Page(ns[0])])
         + MarkAfter(ns[0], ns[1..])
  }

  /** A button row for an ascending list of page numbers. */
  function Mark(ns: seq<int>): seq<Button>
  {
    if |ns| == 0 then [] else [Page(ns[0])] + MarkAfter(ns[0], ns[1..])
  }

  lemma {:induction false} MarkAfterNumbers(prev: int, ns: seq<int>)
    ensures Numbers(MarkAfter(prev, ns)) == ns
    decreases |ns|
  {
    if |ns| > 0 {
      MarkAfterNumbers(ns[0], ns[1..]);
      var rest := MarkAfter(ns[0], ns[1..]);
      if ns[0] - prev > 1 {
        NumbersAppend([Ellipsis, Page(ns[0])], rest);
        NumbersAppend([Ellipsis], [Page(ns[0])]);
      } else {
        NumbersAppend([Page(ns[0])], rest);
      }
      assert ns == [ns[0]] + ns[1..];
    }
  }

  lemma {:induction false} NumbersAppend(a: seq<Button>, b: seq<Button>)
    ensures Numbers(a + b) == Numbers(a) + Numbers(b)
  {
    if |a| > 0 {
      NumbersAppend(a[1..], b);
      assert (a + b)[1..] == a[1..] + b;
    } else {
      assert a + b == b;
    }
  }

  /** Dropping the ellipses from a marked row gives back the page numbers it
      was built from. */
  lemma MarkNumbers(ns: seq<int>)
    ensures Numbers(Mark(ns)) == ns
  {
    if |ns| > 0 {
      MarkAfterNumbers(ns[0], ns[1..]);
      NumbersAppend([Page(ns[0])], MarkAfter(ns[0], ns[1..]));
      assert ns == [ns[0]] + ns[1..];
    }
  }

  /** `[Page(prev)] + MarkAfter(prev, ns)` obeys the ellipsis rule whenever
      `prev, ns...` ascends. */
  lemma {:induction false} MarkAfterGapMarked(prev: int, ns: seq<int>)
    requires StrictlyIncreasing([prev] + ns)
    ensures GapMarked([Page(prev)] + MarkAfter(prev, ns))
    decreases |ns|
  {
    if |ns| > 0 {
      var x := ns[0];
      assert ([prev] + ns)[0] < ([prev] + ns)[1];
      assert [x] + ns[1..] == ([prev] + ns)[1..];
      MarkAfterGapMarked(x, ns[1..]);
      var tail := [Page(x)] + MarkAfter(x, ns[1..]);
      if x - prev > 1 {
        assert [Page(prev)] + MarkAfter(prev, ns) == [Page(prev), Ellipsis] + tail;
        GapAfterEllipsis(prev, tail);
      } else {
        assert [Page(prev)] + MarkAfter(prev, ns) == [Page(prev)] + tail;
        GapAfterAdjacent(prev, tail);
      }
    }
  }

  /** A page, an ellipsis, and a marked row starting more than one page on. */
  lemma GapAfterEllipsis(prev: int, tail: seq<Button>)
    requires |tail| > 0 && tail[0].Page? && tail[0].n - prev > 1 && GapMarked(tail)
    ensures GapMarked([Page(prev), Ellipsis] + tail)
  {
    var bs := [Page(prev), Ellipsis] + tail;
    forall i | 0 <= i < |bs| && bs[i].Ellipsis?
      ensures 0 < i < |bs| - 1 && bs[i - 1].Page? && bs[i + 1].Page?
              && bs[i + 1].n - bs[i - 1].n > 1
    {
      if i >= 2 {
        assert bs[i] == tail[i - 2];
        assert bs[i - 1] == tail[i - 3] && bs[i + 1] == tail[i - 1];
      }
    }
    forall i | 0 <= i < |bs| - 1 && bs[i].Page? && bs[i + 1].Page?
      ensures bs[i + 1].n - bs[i].n == 1
    {
      assert i >= 2;
      assert bs[i] == tail[i - 2] && bs[i + 1] == tail[i - 1];
    }
  }

  /** A page followed by a marked row starting at the next page. */
  lemma GapAfterAdjacent(prev: int, tail: seq<Button>)
    requires |tail| > 0 && tail[0] == Page(prev + 1) && GapMarked(tail)
    ensures GapMarked([Page(prev)] + tail)
  {
    var bs := [Page(prev)] + tail;
    forall i | 0 <= i < |bs| && bs[i].Ellipsis?
      ensures 0 < i < |bs| - 1 && bs[i - 1].Page? && bs[i + 1].Page?
              && bs[i + 1].n - bs[i - 1].n > 1
    {
      assert bs[i] == tail[i - 1];
      assert bs[i - 1] == tail[i - 2] && bs[i + 1] == tail[i];
    }
    forall i | 0 <= i < |bs| - 1 && bs[i].Page? && bs[i + 1].Page?
      ensures bs[i + 1].n - bs[i].n == 1
    {
      if i >= 1 {
        assert bs[i] == tail[i - 1] && bs[i + 1] == tail[i];
      }
    }
  }

  /** Marking an ascending list of page numbers puts the ellipses exactly at
      the gaps. */
  lemma MarkGapMarked(ns: seq<int>)
    requires StrictlyIncreasing(ns)
    ensures GapMarked(Mark(ns))
  {
    if |ns| > 0 {
      assert [ns[0]] + ns[1..] == ns;
      MarkAfterGapMarked(ns[0], ns[1..]);
    }
  }

  /** The numbers lo, lo+1, ..., hi (none when hi < lo). */
  function Range(lo: int, hi: int): (r: seq<int>)
    ensures |r| == if hi < lo then 0 else hi - lo + 1
    ensures forall i :: 0 <= i < |r| ==> r[i] == lo + i
    decreases hi - lo
  {
    if hi < lo then [] else [lo] + Range(lo + 1, hi)
  }

  /** `for (let i = lo; i <= hi; i++) pages.push(i)` */
  function PagesFrom(lo: int, hi: int): (r: seq<Button>)
    ensures |r| == |Range(lo, hi)|
    ensures forall i :: 0 <= i < |r| ==> r[i] == Page(lo + i)
  {
    seq(|Range(lo, hi)|, i requires 0 <= i < |Range(lo, hi)| => Page(lo + i))
  }

  /** A row of consecutive page numbers needs no ellipsis. */
  lemma {:induction false} MarkAfterConsecutive(prev: int, lo: int, hi: int)
    requires prev == lo - 1
    ensures MarkAfter(prev, Range(lo, hi)) == PagesFrom(lo, hi)
    decreases hi - lo
  {
    if lo <= hi {
      MarkAfterConsecutive(lo, lo + 1, hi);
      PagesFromCons(lo, hi);
    }
  }

  lemma PagesFromCons(lo: int, hi: int)
    requires lo <= hi
    ensures Range(lo, hi)[1..] == Range(lo + 1, hi)
    ensures PagesFrom(lo, hi) == [Page(lo)] + PagesFrom(lo + 1, hi)
  {
  }

  // ---------------------------------------------------------------------
  // The orders view: `getPageNumbers` with `maxButtons = 5`.

  const MaxButtons := 5

  /** The middle group of `getPageNumbers` for more than five pages:
      `start = max(2, currentPage - 1)`, `end = min(start + 2, totalPages - 1)`,
      and `start = end - 2` when `end` reaches `totalPages - 1`. */
  function WindowStart(total: int, current: int): int
  {
    var start := Max(2, current - 1);
    var end := Min(start + 2, total - 1);
    if end == total - 1 then end - 2 else start
  }

  function WindowEnd(total: int, current: int): int
  {
    Min(Max(2, current - 1) + 2, total - 1)
  }

  /** `getPageNumbers()` of the orders view. */
  function OrderPageNumbers(total: int, current: int): (r: seq<Button>)
    ensures total <= MaxButtons ==> Numbers(r) == Range(1, total)
    ensures MaxButtons < total ==> |r| >= 5 && r[0] == Page(1) && r[|r| - 1] == Page(total)
  {
    if total <= MaxButtons then
      var r := PagesFrom(1, total);
      ConsecutiveMark(total);
      MarkNumbers(Range(1, total));
      r
    else
      var start, end := WindowStart(total, current), WindowEnd(total, current);
      [Page(1)]
      + (if start > 2 then [Ellipsis] else [])
      + PagesFrom(start, end)
      + (if end < total - 1 then [Ellipsis] else [])
      + [Page(total)]
  }

  /** For more than five pages the middle group is exactly three consecutive
      pages strictly between the first and the last, whatever `currentPage`
      is. */
  lemma WindowIsThreePages(total: int, current: int)
    requires MaxButtons < total
    ensures WindowEnd(total, current) == WindowStart(total, current) + 2
    ensures 2 <= WindowStart(total, current) && WindowEnd(total, current) <= total - 1
  {
  }

  /** The middle group holds the current page whenever that page is neither
      the first nor the last; at the ends the first or last button itself
      shows it. */
  lemma WindowHoldsCurrent(total: int, current: int)
    requires MaxButtons < total && 1 <= current <= total
    ensures 2 <= current <= total - 1 ==>
      WindowStart(total, current) <= current <= WindowEnd(total, current)
    ensures current == 1 ==> WindowStart(total, current) == 2
    ensures current == total ==> WindowEnd(total, current) == total - 1
  {
  }

  /** For more than five pages, the orders view shows page 1, the three-page
      window and the last page, in that order, with an ellipsis before the
      window exactly when `start > 2` and after it exactly when
      `end < totalPages - 1`; this is the shared ellipsis rule applied to
      `[1, start, start+1, start+2, totalPages]`. */
  lemma OrderPageNumbersShape(total: int, current: int)
    requires MaxButtons < total
    ensures var start := WindowStart(total, current);
      var r := OrderPageNumbers(total, current);
      && r == Mark([1, start, start + 1, start + 2, total])
      && Numbers(r) == [1, start, start + 1, start + 2, total]
      && (r[1] == Ellipsis <==> start > 2)
      && (r[|r| - 2] == Ellipsis <==> start + 2 < total - 1)
  {
    var start := WindowStart(total, current);
    WindowIsThreePages(total, current);
    SpelledRow(total, current);
    MarkWindowRow(start, total);
    MarkNumbers([1, start, start + 1, start + 2, total]);
    SpelledEllipses(start, total);
  }

  /** A many-page row with its window starting at `start`, written out. */
  function WindowButtons(start: int, total: int): seq<Button>
  {
    [Page(1)] + (if start > 2 then [Ellipsis] else [])
    + [Page(start), Page(start + 1), Page(start + 2)]
    + (if start + 2 < total - 1 then [Ellipsis] else []) + [Page(total)]
  }

  lemma SpelledRow(total: int, current: int)
    requires MaxButtons < total
    requires WindowEnd(total, current) == WindowStart(total, current) + 2
    ensures OrderPageNumbers(total, current) == WindowButtons(WindowStart(total, current), total)
  {
    var start := WindowStart(total, current);
    assert PagesFrom(start, start + 2) == [Page(start), Page(start + 1), Page(start + 2)];
  }

  lemma SpelledEllipses(start: int, total: int)
    requires 2 <= start && start + 2 <= total - 1
    ensures var r := WindowButtons(start, total);
      && (r[1] == Ellipsis <==> start > 2)
      && (r[|r| - 2] == Ellipsis <==> start + 2 < total - 1)
  {
    var r := WindowButtons(start, total);
    assert r[1] == if start > 2 then Ellipsis else Page(start);
    assert r[|r| - 2] == if start + 2 < total - 1 then Ellipsis else Page(start + 2);
  }

  /** Marking the five numbers of a many-page row, spelled out. */
  lemma MarkWindowRow(start: int, total: int)
    requires 2 <= start && start + 2 <= total - 1
    ensures Mark([1, start, start + 1, start + 2, total]) == WindowButtons(start, total)
  {
    var last := if start + 2 < total - 1 then [Ellipsis, Page(total)] else [Page(total)];
    MarkWindowTail(start, total);
    var first := if start > 2 then [Ellipsis, Page(start)] else [Page(start)];
    assert MarkAfter(1, [start, start + 1, start + 2, total])
        == first + ([Page(start + 1), Page(start + 2)] + last) by {
      assert [start, start + 1, start + 2, total][1..] == [start + 1, start + 2, total];
    }
    assert [1, start, start + 1, start + 2, total][1..] == [start, start + 1, start + 2, total];
  }

  /** The last three numbers of a many-page row, marked after the window's
      first page. */
  lemma MarkWindowTail(start: int, total: int)
    requires start + 2 <= total - 1
    ensures MarkAfter(start, [start + 1, start + 2, total])
         == [Page(start + 1), Page(start + 2)]
            + (if start + 2 < total - 1 then [Ellipsis, Page(total)] else [Page(total)])
  {
    var last := if start + 2 < total - 1 then [Ellipsis, Page(total)] else [Page(total)];
    MarkLast(start + 2, total);
    assert MarkAfter(start + 1, [start + 2, total]) == [Page(start + 2)] + last by {
      assert [start + 2, total][1..] == [total];
    }
    assert [start + 1, start + 2, total][1..] == [start + 2, total];
  }

  lemma MarkLast(prev: int, total: int)
    ensures MarkAfter(prev, [total])
         == if total - prev > 1 then [Ellipsis, Page(total)] else [Page(total)]
  {
    assert [total][1..] == [];
  }

  /** Every orders-view button row obeys the ellipsis rule, its numbers
      ascend, lie in 1..totalPages, and include the current page. */
  lemma OrderPageNumbersWellFormed(total: int, current: int)
    requires 1 <= current <= total
    ensures GapMarked(OrderPageNumbers(total, current))
    ensures StrictlyIncreasing(Numbers(OrderPageNumbers(total, current)))
    ensures forall k :: k in Numbers(OrderPageNumbers(total, current)) ==> 1 <= k <= total
    ensures current in Numbers(OrderPageNumbers(total, current))
  {
    if total <= MaxButtons {
      FewPagesWellFormed(total, current);
      RangeRow(1, total, current);
    } else {
      ManyPagesWellFormed(total, current);
      WindowRow(total, current);
    }
  }

  /** The pages 1..totalPages, each a button, are the marked row of 1..totalPages. */
  lemma ConsecutiveMark(total: int)
    ensures PagesFrom(1, total) == Mark(Range(1, total))
  {
    if 1 <= total {
      MarkAfterConsecutive(1, 2, total);
      PagesFromCons(1, total);
    }
  }

  /** lo..hi ascends, stays within lo..hi, and holds every number in between. */
  lemma RangeRow(lo: int, hi: int, current: int)
    requires lo <= current <= hi
    ensures StrictlyIncreasing(Range(lo, hi))
    ensures current in Range(lo, hi)
    ensures forall k :: k in Range(lo, hi) ==> lo <= k <= hi
  {
    var ns := Range(lo, hi);
    assert ns[current - lo] == current;
    forall k | k in ns ensures lo <= k <= hi {
      var i :| 0 <= i < |ns| && ns[i] == k;
    }
  }

  lemma FewPagesWellFormed(total: int, current: int)
    requires 1 <= current <= total <= MaxButtons
    ensures GapMarked(OrderPageNumbers(total, current))
    ensures Numbers(OrderPageNumbers(total, current)) == Range(1, total)
  {
    ConsecutiveMark(total);
    RangeRow(1, total, current);
    MarkGapMarked(Range(1, total));
  }

  lemma ManyPagesWellFormed(total: int, current: int)
    requires 1 <= current <= total && MaxButtons < total
    ensures GapMarked(OrderPageNumbers(total, current))
    ensures var start := WindowStart(total, current);
      Numbers(OrderPageNumbers(total, current)) == [1, start, start + 1, start + 2, total]
    ensures current in Numbers(OrderPageNumbers(total, current))
  {
    var start := WindowStart(total, current);
    var ns := [1, start, start + 1, start + 2, total];
    OrderPageNumbersShape(total, current);
    WindowRow(total, current);
    MarkGapMarked(ns);
  }

  /** The five numbers of a many-page row ascend and include the current
      page. */
  lemma WindowRow(total: int, current: int)
    requires 1 <= current <= total && MaxButtons < total
    ensures var start := WindowStart(total, current);
      var ns := [1, start, start + 1, start + 2, total];
      && StrictlyIncreasing(ns) && current in ns
      && forall k :: k in ns ==> 1 <= k <= total
  {
    var start := WindowStart(total, current);
    var ns := [1, start, start + 1, start + 2, total];
    WindowHoldsCurrent(total, current);
    WindowIsThreePages(total, current);
    if current == 1 {
      assert ns[0] == current;
    } else if current == total {
      assert ns[4] == current;
    } else {
      assert ns[current - start + 1] == current;
    }
  }

  // ---------------------------------------------------------------------
  // The notifications view: every page number, filtered, then ellipses.

  function Abs(x: int): nat { if x < 0 then -x else x }

  /** The filter of the notifications view: the first page, the last page,
      and every page within two of the current one. */
  predicate Shown(k: int, total: int, current: int)
  {
    k == 1 || k == total || Abs(current - k) <= 2
  }

  /** `Array.from({length: totalPages}, (_, i) => i + 1).filter(...)`, from
      page `k` on. */
  function ShownFrom(k: int, total: int, current: int): (r: seq<int>)
    ensures forall i :: 0 <= i < |r| ==> k <= r[i] <= total
    ensures StrictlyIncreasing(r)
    decreases total - k
  {
    if total < k then []
    else
      var rest := ShownFrom(k + 1, total, current);
      if Shown(k, total, current) then [k] + rest else rest
  }

  /** The page numbers the notifications view shows. */
  function ShownPages(total: int, current: int): seq<int>
  {
    ShownFrom(1, total, current)
  }

  lemma {:induction false} ShownFromMembers(k: int, total: int, current: int)
    ensures forall m :: m in ShownFrom(k, total, current) <==>
      k <= m <= total && Shown(m, total, current)
    decreases total - k
  {
    if k <= total {
      ShownFromMembers(k + 1, total, current);
    }
  }

  /** Page `m` gets a button exactly when it exists and is the first, the
      last, or within two of the current page; the shown numbers ascend. */
  lemma ShownPagesExactly(total: int, current: int)
    ensures forall m :: m in ShownPages(total, current) <==>
      1 <= m <= total && (m == 1 || m == total || Abs(current - m) <= 2)
    ensures StrictlyIncreasing(ShownPages(total, current))
  {
    ShownFromMembers(1, total, current);
  }

  /** The notifications button row, rendered only when `totalPages > 1`:
      the shown numbers, each preceded by an ellipsis when
      `index > 0 && number - array[index - 1] > 1`. */
  function NotificationButtons(total: int, current: int): seq<Button>
  {
    if total > 1 then Mark(ShownPages(total, current)) else []
  }

  /** With more than one page the notifications row shows exactly the
      selected pages, in ascending order, with ellipses exactly at the gaps;
      with one page or none it shows nothing. */
  lemma NotificationButtonsWellFormed(total: int, current: int)
    ensures total <= 1 <==> NotificationButtons(total, current) == []
    ensures 1 < total ==> Numbers(NotificationButtons(total, current)) == ShownPages(total, current)
    ensures GapMarked(NotificationButtons(total, current))
  {
    if total > 1 {
      MarkNumbers(ShownPages(total, current));
      MarkGapMarked(ShownPages(total, current));
      ShownPagesExactly(total, current);
      assert 1 in ShownPages(total, current);
    } else {
      MarkGapMarked([]);
    }
  }
}
