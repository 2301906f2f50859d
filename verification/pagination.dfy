/**
 * The pagination window of the blog pages (pagination.go: GeneratePagination).
 *
 * The list always starts with page 1 and ends with the last page, shows up
 * to two pages on each side of the current one, and marks a gap on either
 * side with an ellipsis entry (number 0, not a link). The current page is
 * listed but is not a link. A final pass drops repeated page numbers.
 */
module Pagination {
  import opened Wrappers
  import opened Seqs

  /** One entry of the list; number 0 is an ellipsis. */
  datatype Page = Page(number: int, isLink: bool)

  /** The map GeneratePagination returns, as a record. */
  datatype Pagination = Pagination(
    currentPage: int, totalPages: int,
    hasPrev: bool, hasNext: bool, prevPage: int, nextPage: int,
    pages: seq<Page>)

  /** Pages shown on each side of the current page. */
  const Window: int := 2

  const Ellipsis: Page := Page(0, false)

  function MaxInt(a: int, b: int): int { if a < b then b else a }

  function MinInt(a: int, b: int): int { if a < b then a else b }

  /** The linked pages lo..hi, ascending; empty when lo > hi. */
  function Span(lo: int, hi: int): (r: seq<Page>)
    ensures |r| == if lo <= hi then hi - lo + 1 else 0
    ensures forall k :: 0 <= k < |r| ==> r[k] == Page(lo + k, true)
    decreases hi - lo
  {
    if lo > hi then [] else [Page(lo, true)] + Span(lo + 1, hi)
  }

  /** The list before de-duplication: first page, gap, window, gap, last page. */
  function RawPages(cur: int, total: int): seq<Page> {
    var start := MaxInt(2, cur - Window);
    var end := MinInt(total - 1, cur + Window);
    [Page(1, true)]
      + (if cur > Window + 2 then [Ellipsis] else [])
      + Span(start, end)
      + (if cur < total - (Window + 1) then [Ellipsis] else [])
      + [Page(total, true)]
  }

  /**
   * Entry j of the list is the first with its number: an ellipsis, or a
   * page whose number is not in `seen` and not on any earlier entry.
   */
  predicate FirstOf(pages: seq<Page>, seen: set<int>, j: int)
    requires 0 <= j < |pages|
  {
    pages[j].number == 0
    || (pages[j].number !in seen && forall i :: 0 <= i < j ==> pages[i].number != pages[j].number)
  }

  /**
   * The de-duplication pass: the current page loses its link, ellipses are
   * always kept, and a page number already seen is dropped. What is left is
   * the marked list with repeats taken out: every first entry of a number
   * stays, in order, and no page number appears twice.
   */
  function Dedupe(pages: seq<Page>, cur: int, seen: set<int>): (r: seq<Page>)
    ensures |r| <= |pages|
    ensures Subseq(r, MarkCurrent(pages, cur))
    ensures forall k :: 0 <= k < |r| && r[k].number != 0 ==> r[k].number !in seen
    ensures forall a, b :: 0 <= a < b < |r| && r[a].number != 0 ==> r[a].number != r[b].number
    ensures forall j :: 0 <= j < |pages| && FirstOf(pages, seen, j) ==> MarkCurrent(pages, cur)[j] in r
    ensures forall k :: 0 <= k < |r| && r[k].number == cur ==> !r[k].isLink
    decreases |pages|
  {
    if pages == [] then []
    else
      var p := if pages[0].number == cur then pages[0].(isLink := false) else pages[0];
      var m := MarkCurrent(pages, cur);
      assert m[0] == p && m[1..] == MarkCurrent(pages[1..], cur);
      var seen' := if p.number == 0 || p.number in seen then seen else seen + {p.number};
      var rest := Dedupe(pages[1..], cur, seen');
      FirstOfTail(pages, seen, seen', p.number);
      if p.number == 0 || p.number !in seen then
        var r := [p] + rest;
        assert r[1..] == rest;
        assert forall k :: 1 <= k < |r| ==> r[k] == rest[k - 1];
        r
      else rest
  }

  /** A first entry after the head is still first in the tail once the head's number is seen. */
  lemma FirstOfTail(pages: seq<Page>, seen: set<int>, seen': set<int>, head: int)
    requires |pages| > 0 && head == pages[0].number
    requires seen' == if head == 0 || head in seen then seen else seen + {head}
    ensures forall j :: 1 <= j < |pages| && FirstOf(pages, seen, j) ==> FirstOf(pages[1..], seen', j - 1)
  {
    forall j | 1 <= j < |pages| && FirstOf(pages, seen, j)
      ensures FirstOf(pages[1..], seen', j - 1)
    {
      assert pages[1..][j - 1] == pages[j];
      if pages[j].number != 0 {
        assert pages[0].number != pages[j].number;
        forall i | 0 <= i < j - 1
          ensures pages[1..][i].number != pages[j].number
        {
          assert pages[1..][i] == pages[i + 1];
        }
      }
    }
  }

  /** The non-zero page numbers strictly increase along the list. */
  predicate Increasing(pages: seq<Page>) {
    forall a, b :: 0 <= a < b < |pages| && pages[a].number != 0 && pages[b].number != 0 ==>
      pages[a].number < pages[b].number
  }

  /** The current page, and only it, loses its link. */
  function MarkCurrent(pages: seq<Page>, cur: int): (r: seq<Page>)
    ensures |r| == |pages|
    ensures forall k :: 0 <= k < |pages| ==>
              r[k].number == pages[k].number && (r[k].isLink <==> pages[k].isLink && pages[k].number != cur)
  {
    seq(|pages|, k requires 0 <= k < |pages| => if pages[k].number == cur then pages[k].(isLink := false) else pages[k])
  }

  /**
   * On a list whose page numbers already increase, and lie above every
   * number seen, de-duplication drops nothing: it only unlinks the current page.
   */
  lemma {:induction false} DedupeIncreasing(pages: seq<Page>, cur: int, seen: set<int>)
    requires Increasing(pages)
    requires forall k, x :: 0 <= k < |pages| && x in seen && pages[k].number != 0 ==> x < pages[k].number
    ensures Dedupe(pages, cur, seen) == MarkCurrent(pages, cur)
    decreases |pages|
  {
    if pages != [] {
      var p := pages[0];
      var seen' := if p.number == 0 then seen else seen + {p.number};
      forall k, x | 0 <= k < |pages[1..]| && x in seen' && pages[1..][k].number != 0
        ensures x < pages[1..][k].number
      {
        assert pages[1..][k] == pages[k + 1];
      }
      assert Increasing(pages[1..]) by {
        forall a, b | 0 <= a < b < |pages[1..]| && pages[1..][a].number != 0 && pages[1..][b].number != 0
          ensures pages[1..][a].number < pages[1..][b].number
        {
          assert pages[1..][a] == pages[a + 1] && pages[1..][b] == pages[b + 1];
        }
      }
      DedupeIncreasing(pages[1..], cur, seen');
      if p.number != 0 {
        assert p.number !in seen;
      }
      MarkCurrentCons(pages, cur);
    }
  }

  /** The entry k of a marked list. */
  lemma MarkCurrentAt(pages: seq<Page>, cur: int, k: int)
    requires 0 <= k < |pages|
    ensures MarkCurrent(pages, cur)[k] == if pages[k].number == cur then pages[k].(isLink := false) else pages[k]
  {
  }

  /** Marking works entry by entry: the head is marked on its own, the rest as a list. */
  lemma MarkCurrentCons(pages: seq<Page>, cur: int)
    requires pages != []
    ensures MarkCurrent(pages, cur)
              == [if pages[0].number == cur then pages[0].(isLink := false) else pages[0]] + MarkCurrent(pages[1..], cur)
  {
    var m := MarkCurrent(pages, cur);
    assert m[1..] == MarkCurrent(pages[1..], cur);
  }

  /** The numbers of the raw list: 1, the window, the last page, in increasing order, with gaps as 0. */
  lemma RawIncreasing(cur: int, total: int)
    requires total > 1
    ensures Increasing(RawPages(cur, total))
    ensures forall k :: 0 <= k < |RawPages(cur, total)| ==>
              RawPages(cur, total)[k].number == 0 || 1 <= RawPages(cur, total)[k].number <= total
  {
    var start := MaxInt(2, cur - Window);
    var end := MinInt(total - 1, cur + Window);
    var head := [Page(1, true)] + (if cur > Window + 2 then [Ellipsis] else []);
    var mid := Span(start, end);
    var tail := (if cur < total - (Window + 1) then [Ellipsis] else []) + [Page(total, true)];
    var raw := RawPages(cur, total);
    assert raw == head + mid + tail;
    forall a, b | 0 <= a < b < |raw| && raw[a].number != 0 && raw[b].number != 0
      ensures raw[a].number < raw[b].number
    {
      if a < |head| {
        assert raw[a].number == 1;
      } else if a < |head| + |mid| {
        assert raw[a] == mid[a - |head|];
        if b < |head| + |mid| {
          assert raw[b] == mid[b - |head|];
        } else {
          assert raw[b].number == total;
        }
      }
    }
    forall k | 0 <= k < |raw|
      ensures raw[k].number == 0 || 1 <= raw[k].number <= total
    {
      if |head| <= k < |head| + |mid| {
        assert raw[k] == mid[k - |head|];
      }
    }
  }

  /**
   * GeneratePagination: nothing for a single page or none; otherwise the
   * navigation flags and the page list.
   */
  function GeneratePagination(cur: int, total: int): (r: Option<Pagination>)
    ensures r.None? <==> total <= 1
    ensures r.Some? ==>
              && r.value.currentPage == cur && r.value.totalPages == total
              && r.value.hasPrev == (cur > 1) && r.value.hasNext == (cur < total)
              && r.value.prevPage == cur - 1 && r.value.nextPage == cur + 1
    ensures r.Some? ==> r.value.pages == MarkCurrent(RawPages(cur, total), cur)
    ensures r.Some? ==> Increasing(r.value.pages)
    ensures r.Some? ==> forall k :: 0 <= k < |r.value.pages| ==>
              var p := r.value.pages[k];
              && (p.number == 0 || 1 <= p.number <= total)
              && (p.isLink <==> p.number != 0 && p.number != cur)
  {
    if total <= 1 then None
    else
      var raw := RawPages(cur, total);
      RawIncreasing(cur, total);
      DedupeIncreasing(raw, cur, {});
      var pages := Dedupe(raw, cur, {});
      assert forall k :: 0 <= k < |raw| ==> (raw[k].isLink <==> raw[k].number != 0) by {
        RawLinks(cur, total);
      }
      Some(Pagination(cur, total, cur > 1, cur < total, cur - 1, cur + 1, pages))
  }

  /** In the raw list exactly the page entries are links. */
  lemma RawLinks(cur: int, total: int)
    requires total > 1
    ensures forall k :: 0 <= k < |RawPages(cur, total)| ==>
              (RawPages(cur, total)[k].isLink <==> RawPages(cur, total)[k].number != 0)
  {
    var start := MaxInt(2, cur - Window);
    var end := MinInt(total - 1, cur + Window);
    var head := [Page(1, true)] + (if cur > Window + 2 then [Ellipsis] else []);
    var mid := Span(start, end);
    var tail := (if cur < total - (Window + 1) then [Ellipsis] else []) + [Page(total, true)];
    var raw := RawPages(cur, total);
    assert raw == head + mid + tail;
    forall k | 0 <= k < |raw|
      ensures raw[k].isLink <==> raw[k].number != 0
    {
      if |head| <= k < |head| + |mid| {
        assert raw[k] == mid[k - |head|];
      }
    }
  }

  /** The list opens with page 1 and closes with the last page, each a link unless current. */
  lemma PaginationEnds(cur: int, total: int)
    requires total > 1
    ensures var ps := GeneratePagination(cur, total).value.pages;
            && |ps| >= 2
            && ps[0] == Page(1, cur != 1)
            && ps[|ps| - 1] == Page(total, cur != total)
  {
    var raw := RawPages(cur, total);
    assert raw[0] == Page(1, true);
    assert raw[|raw| - 1] == Page(total, true);
  }

  /** The page numbers a list shows, ellipses aside. */
  function Listed(pages: seq<Page>): set<int> {
    set k | 0 <= k < |pages| && pages[k].number != 0 :: pages[k].number
  }

  /**
   * The pages shown are 1, the last page, and exactly the window
   * max(2, cur-2)..min(total-1, cur+2) around the current page.
   */
  lemma PaginationWindow(cur: int, total: int)
    requires total > 1
    ensures var start := MaxInt(2, cur - Window);
            var end := MinInt(total - 1, cur + Window);
            forall n :: n in Listed(GeneratePagination(cur, total).value.pages) <==>
              n == 1 || n == total || start <= n <= end
  {
    var raw := RawPages(cur, total);
    var ps := GeneratePagination(cur, total).value.pages;
    assert forall k :: 0 <= k < |ps| ==> ps[k].number == raw[k].number;
    assert Listed(ps) == Listed(raw);
    RawListed(cur, total);
  }

  lemma RawListed(cur: int, total: int)
    requires total > 1
    ensures var start := MaxInt(2, cur - Window);
            var end := MinInt(total - 1, cur + Window);
            forall n :: n in Listed(RawPages(cur, total)) <==> n == 1 || n == total || start <= n <= end
  {
    var start := MaxInt(2, cur - Window);
    var end := MinInt(total - 1, cur + Window);
    var head := [Page(1, true)] + (if cur > Window + 2 then [Ellipsis] else []);
    var mid := Span(start, end);
    var tail := (if cur < total - (Window + 1) then [Ellipsis] else []) + [Page(total, true)];
    var raw := RawPages(cur, total);
    assert raw == head + mid + tail;
    forall n | n in Listed(raw)
      ensures n == 1 || n == total || start <= n <= end
    {
      var k :| 0 <= k < |raw| && raw[k].number != 0 && raw[k].number == n;
      if |head| <= k < |head| + |mid| {
        assert raw[k] == mid[k - |head|];
      }
    }
    forall n | n == 1 || n == total || start <= n <= end
      ensures n in Listed(raw)
    {
      if n == 1 {
        assert raw[0].number == 1;
      } else if n == total {
        assert raw[|raw| - 1].number == total;
      } else {
        var k := |head| + (n - start);
        assert raw[k] == mid[n - start];
      }
    }
  }

  /**
   * For a current page inside 1..total, an ellipsis follows page 1 exactly
   * when the current page is past 4, and precedes the last page exactly
   * when it is before total-3.
   */
  lemma PaginationEllipses(cur: int, total: int)
    requires total > 1 && 1 <= cur <= total
    ensures var ps := GeneratePagination(cur, total).value.pages;
            && |ps| >= 2
            && (ps[1] == Ellipsis <==> cur > Window + 2)
            && (ps[|ps| - 2] == Ellipsis <==> cur < total - (Window + 1))
  {
    var raw := RawPages(cur, total);
    var ps := GeneratePagination(cur, total).value.pages;
    assert ps == MarkCurrent(raw, cur);
    RawEllipses(cur, total);
    var last := |raw| - 2;
    assert raw[1].number == 0 ==> !raw[1].isLink by { RawLinks(cur, total); }
    assert raw[last].number == 0 ==> !raw[last].isLink by { RawLinks(cur, total); }
    assert ps[1] == Ellipsis <==> raw[1] == Ellipsis by { MarkedEllipsis(raw, cur, 1); }
    assert ps[last] == Ellipsis <==> raw[last] == Ellipsis by { MarkedEllipsis(raw, cur, last); }
  }

  /** The same two facts for the raw list. */
  lemma RawEllipses(cur: int, total: int)
    requires total > 1 && 1 <= cur <= total
    ensures var raw := RawPages(cur, total);
            && |raw| >= 2
            && (raw[1] == Ellipsis <==> cur > Window + 2)
            && (raw[|raw| - 2] == Ellipsis <==> cur < total - (Window + 1))
  {
    var start := MaxInt(2, cur - Window);
    var end := MinInt(total - 1, cur + Window);
    var head := [Page(1, true)] + (if cur > Window + 2 then [Ellipsis] else []);
    var mid := Span(start, end);
    var tail := (if cur < total - (Window + 1) then [Ellipsis] else []) + [Page(total, true)];
    var raw := RawPages(cur, total);
    assert raw == head + mid + tail;
    if |mid| > 0 {
      assert raw[|head|] == mid[0];
      assert raw[|head| + |mid| - 1] == mid[|mid| - 1];
    }
  }

  /** Marking the current page neither makes nor unmakes an ellipsis entry. */
  lemma MarkedEllipsis(pages: seq<Page>, cur: int, k: int)
    requires 0 <= k < |pages|
    requires pages[k].number == 0 ==> !pages[k].isLink
    ensures MarkCurrent(pages, cur)[k] == Ellipsis <==> pages[k] == Ellipsis
  {
    var m := MarkCurrent(pages, cur)[k];
    assert m == Ellipsis <==> m.number == 0 && !m.isLink;
  }
}
