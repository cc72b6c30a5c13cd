/** Which table pages mapping needs, and when the allocator has enough of them. */
module PageSupply {
  import opened PageTree

  /** The tables that have been made, and the number of pages the allocator has left. */
  datatype Stock = Stock(made: set<Dir>, left: nat)

  /** The tables on the way to page `p`, without the PML4 table. */
  function Way(p: nat): set<Dir> {
    {Dir(1, p / 512 / 512 / 512), Dir(2, p / 512 / 512), Dir(3, p / 512)}
  }

  /** The tables on the ways to the `n` pages from `virt` on. */
  function Ways(virt: nat, n: nat): set<Dir> {
    if n == 0 then {} else Ways(virt, n - 1) + Way(NthPage(virt, n - 1))
  }

  /** The tables in `want` were asked for in some order; every page became a table, and when not all
      of them could be made no page is left. */
  ghost predicate Opened(a: Stock, want: set<Dir>, ok: bool, b: Stock) {
    && |b.made| + b.left == |a.made| + a.left
    && if ok then b.made == a.made + want else a.made <= b.made < a.made + want && b.left == 0
  }

  lemma SmallerSet(a: set<Dir>, b: set<Dir>)
    requires a <= b
    ensures |a| <= |b| && (|a| == |b| ==> a == b)
  {
    assert b == a + (b - a);
  }

  /** All tables can be made exactly when the missing ones are not more than the pages left. */
  lemma OpenedExactly(a: Stock, want: set<Dir>, ok: bool, b: Stock)
    requires Opened(a, want, ok, b)
    ensures ok <==> |want - a.made| <= a.left
  {
    assert a.made + want == a.made + (want - a.made);
    SmallerSet(b.made, a.made + want);
  }

  /** After one success, what comes next decides. */
  lemma OpenedThen(a: Stock, first: set<Dir>, b: Stock, want: set<Dir>, ok: bool, c: Stock)
    requires Opened(a, first, true, b) && Opened(b, want, ok, c)
    ensures Opened(a, first + want, ok, c)
  {
    assert a.made + (first + want) == b.made + want;
  }

  /** After a failure nothing more is made, though later requests may need nothing. */
  lemma FailedThen(a: Stock, first: set<Dir>, b: Stock, want: set<Dir>, ok: bool, c: Stock)
    requires Opened(a, first, false, b) && Opened(b, want, ok, c)
    ensures Opened(a, first + want, false, c)
  {
    SmallerSet(b.made, c.made);
    assert a.made + first <= a.made + (first + want);
    var x :| x in a.made + first && x !in b.made;
    assert x in a.made + (first + want);
  }

  /** The same when nothing more is asked for. */
  lemma FailedForMore(a: Stock, first: set<Dir>, b: Stock, want: set<Dir>)
    requires Opened(a, first, false, b) && first <= want
    ensures Opened(a, want, false, b)
  {
    assert a.made + first <= a.made + want;
  }

  lemma {:induction false} WaysGrow(virt: nat, m: nat, n: nat)
    requires m <= n
    ensures Ways(virt, m) <= Ways(virt, n)
    decreases n
  {
    if m < n { WaysGrow(virt, m, n - 1); }
  }

  /** Three pages for each mapped page suffice. */
  lemma {:induction false} WaysAtMost(virt: nat, n: nat)
    ensures |Ways(virt, n)| <= 3 * n
  {
    if n > 0 {
      WaysAtMost(virt, n - 1);
      UnionAtMost(Ways(virt, n - 1), Way(NthPage(virt, n - 1)));
    }
  }

  lemma UnionAtMost(a: set<Dir>, b: set<Dir>)
    ensures |a + b| <= |a| + |b|
  {
  }

  /** In an empty PML4 table every page needs tables. */
  lemma NothingMade(virt: nat, n: nat)
    requires n > 0
    ensures ROOT !in Ways(virt, n) && |Ways(virt, n) - {ROOT}| >= 3
  {
    WaysBelowRoot(virt, n);
    WaysGrow(virt, 1, n);
    assert Way(NthPage(virt, 0)) <= Ways(virt, 1);
    SmallerSet(Way(NthPage(virt, 0)), Ways(virt, n) - {ROOT});
  }

  lemma {:induction false} WaysBelowRoot(virt: nat, n: nat)
    ensures ROOT !in Ways(virt, n)
  {
    if n > 0 { WaysBelowRoot(virt, n - 1); }
  }

  lemma NextWay(virt: nat, n: nat, page: nat, next: nat)
    requires page == virt + n * SIZE_4KB && next == n + 1
    ensures Ways(virt, next) == Ways(virt, n) + Way(PageNo(page))
  {
    NthPageNo(virt, n);
  }

  /** One page more of a range. */
  lemma OpenedPage(a: Stock, virtStart: nat, n: nat, virt: nat, next: nat, b: Stock, ok: bool, c: Stock)
    requires Opened(a, Ways(virtStart, n), true, b) && virt == virtStart + n * SIZE_4KB && Opened(b, Way(PageNo(virt)), ok, c)
    requires next == n + 1
    ensures Opened(a, Ways(virtStart, next), ok, c)
  {
    NextWay(virtStart, n, virt, next);
    OpenedThen(a, Ways(virtStart, n), b, Way(PageNo(virt)), ok, c);
  }

  /** A failure at one page decides about the range. */
  lemma RangeFailed(a: Stock, virt: nat, m: nat, n: nat, b: Stock)
    requires m <= n && Opened(a, Ways(virt, m), false, b)
    ensures Opened(a, Ways(virt, n), false, b) && a.left < |Ways(virt, n) - a.made|
  {
    WaysGrow(virt, m, n);
    FailedForMore(a, Ways(virt, m), b, Ways(virt, n));
    OpenedExactly(a, Ways(virt, n), false, b);
  }

  lemma OneWay(virt: nat, page: nat)
    requires page == DownToPage(virt)
    ensures Ways(page, RangePages(SIZE_4KB)) == Way(PageNo(virt))
  {
    SamePage(virt);
    NextWay(page, 0, page, 1);
    assert Ways(page, 0) + Way(PageNo(virt)) == Way(PageNo(virt));
  }

  /** One page more of a copy that may have failed before. */
  lemma OpenedNext(a: Stock, virt: nat, ok: seq<bool>, n: nat, page: nat, b: Stock, last: bool, c: Stock, next: nat)
    requires Opened(a, Ways(virt, n), AllOk(ok), b) && page == virt + n * SIZE_4KB
    requires Opened(b, Way(PageNo(page)), last, c) && next == n + 1
    ensures Opened(a, Ways(virt, next), AllOk(ok + [last]), c)
  {
    NextWay(virt, n, page, next);
    AllOkMore(ok, last);
    OpenedTwice(a, Ways(virt, n), AllOk(ok), b, Way(PageNo(page)), last, c);
  }

  lemma OpenedTwice(a: Stock, first: set<Dir>, firstOk: bool, b: Stock, want: set<Dir>, ok: bool, c: Stock)
    requires Opened(a, first, firstOk, b) && Opened(b, want, ok, c)
    ensures Opened(a, first + want, firstOk && ok, c)
  {
    if firstOk { OpenedThen(a, first, b, want, ok, c); } else { FailedThen(a, first, b, want, ok, c); }
  }

  lemma AllOkMore(ok: seq<bool>, last: bool)
    ensures AllOk(ok + [last]) <==> AllOk(ok) && last
  {
    assert (ok + [last])[|ok|] == last;
    assert forall i :: 0 <= i < |ok| ==> (ok + [last])[i] == ok[i];
  }

  // ----- the kernel table

  /** The tables that laying out the first `i` regions needs. */
  function LayoutWays(regions: seq<Region>, i: nat, virt: nat): set<Dir>
    requires i <= |regions|
  {
    if i == 0 then {}
    else
      LayoutWays(regions, i - 1, virt)
      + if regions[i - 1].kind != MEMORY_TYPE_FREE then {}
        else Ways(virt + PagesBefore(regions, i - 1) * SIZE_4KB, RangePages(DownToPage(regions[i - 1].length)))
  }

  lemma {:induction false} LayoutWaysGrow(regions: seq<Region>, i: nat, j: nat, virt: nat)
    requires i <= j <= |regions|
    ensures LayoutWays(regions, i, virt) <= LayoutWays(regions, j, virt)
    decreases j
  {
    if i < j { LayoutWaysGrow(regions, i, j - 1, virt); }
  }

  lemma {:induction false} LayoutBelowRoot(regions: seq<Region>, i: nat, virt: nat)
    requires i <= |regions|
    ensures ROOT !in LayoutWays(regions, i, virt)
  {
    if i > 0 {
      LayoutBelowRoot(regions, i - 1, virt);
      WaysBelowRoot(virt + PagesBefore(regions, i - 1) * SIZE_4KB, RangePages(DownToPage(regions[i - 1].length)));
    }
  }

  /** One free region more; a failure decides about all regions. */
  lemma LayoutOpened(a: Stock, regions: seq<Region>, i: nat, virt: nat, b: Stock, start: nat, count: nat, ok: bool, c: Stock)
    requires i < |regions| && regions[i].kind == MEMORY_TYPE_FREE && start == virt + PagesBefore(regions, i) * SIZE_4KB
    requires count == RangePages(DownToPage(regions[i].length))
    requires a.made == {ROOT} && Opened(a, LayoutWays(regions, i, virt), true, b)
    requires Opened(b, Ways(start, count), ok, c)
    ensures ok ==> Opened(a, LayoutWays(regions, i + 1, virt), true, c)
    ensures !ok ==> a.left < |LayoutWays(regions, |regions|, virt)|
  {
    OpenedThen(a, LayoutWays(regions, i, virt), b, Ways(start, count), ok, c);
    if !ok {
      var all := LayoutWays(regions, |regions|, virt);
      LayoutWaysGrow(regions, i + 1, |regions|, virt);
      FailedForMore(a, LayoutWays(regions, i + 1, virt), c, all);
      OpenedExactly(a, all, false, c);
      LayoutBelowRoot(regions, |regions|, virt);
      assert all - {ROOT} == all;
    }
  }
}
