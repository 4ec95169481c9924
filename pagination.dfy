/**
 * The pagination engine: bubbles are packed in one greedy pass into fixed-size pages. The layout
 * measurement "the page's content is taller than the page" is the parameter `overflows`, applied
 * to the bubbles a page holds at the moment of the test.
 */
module Pagination {
  import opened Sequences
  import opened Strings

  /**
   * One step of the pass: the bubble is appended to the current (last) page; if that page then
   * overflows, the bubble is taken out again and put alone on a new page, which is not tested.
   */
  function Place<B>(pages: seq<seq<B>>, b: B, overflows: seq<B> -> bool): (r: seq<seq<B>>)
    requires pages != []
    ensures r != []
  {
    var cur := pages[|pages| - 1];
    if overflows(cur + [b]) then pages + [[b]] else pages[..|pages| - 1] + [cur + [b]]
  }

  /** The pages the pass produces for `bs`: it starts with one empty page and places each bubble in order. */
  function Pack<B>(bs: seq<B>, overflows: seq<B> -> bool): (pages: seq<seq<B>>)
    ensures pages != []
  {
    if bs == [] then [[]] else Place(Pack(bs[..|bs| - 1], overflows), bs[|bs| - 1], overflows)
  }

  /** The page counter's text: "1 page", "2 pages", ... */
  function PageLabel(count: nat): (text: string)
    ensures text == Decimal(count) + (if count > 1 then " pages" else " page")
  {
    Decimal(count) + " page" + (if count > 1 then "s" else "")
  }

  /**
   * `paginate`: the loop over the bubbles with the current page's content, appending, testing,
   * and on overflow removing the bubble and starting a new page that receives it. Returns the
   * pages in order and the page counter's text.
   */
  method Paginate<B>(bubbles: seq<B>, overflows: seq<B> -> bool) returns (pages: seq<seq<B>>, counter: string)
    ensures pages == Pack(bubbles, overflows)
    ensures counter == PageLabel(|pages|)
  {
    var done: seq<seq<B>> := [];
    var content: seq<B> := [];
    for i := 0 to |bubbles|
      invariant done + [content] == Pack(bubbles[..i], overflows)
    {
      var b := bubbles[i];
      content := content + [b];
      if overflows(content) {
        content := content[..|content| - 1];
        done := done + [content];
        content := [b];
      }
      assert bubbles[..i + 1][..i] == bubbles[..i];
    }
    assert bubbles[..|bubbles|] == bubbles;
    pages := done + [content];
    counter := PageLabel(|pages|);
  }

  // ---------------------------------------------------------------- what the pass guarantees

  /** Placing a bubble adds it after everything already placed. */
  lemma PlaceAppends<B>(pages: seq<seq<B>>, b: B, overflows: seq<B> -> bool)
    requires pages != []
    ensures Concat(Place(pages, b, overflows)) == Concat(pages) + [b]
  {
    var cur := pages[|pages| - 1];
    var front := pages[..|pages| - 1];
    assert pages == front + [cur];
    ConcatAppend(front, cur);
    if overflows(cur + [b]) {
      ConcatAppend(pages, [b]);
    } else {
      ConcatAppend(front, cur + [b]);
    }
  }

  /** Order is preserved: the pages, read one after the other, are the bubbles, each exactly once. */
  lemma {:induction false} PackPreservesOrder<B>(bs: seq<B>, overflows: seq<B> -> bool)
    ensures Concat(Pack(bs, overflows)) == bs
    decreases |bs|
  {
    if bs == [] {
      ConcatSingle<B>([]);
    } else {
      PackPreservesOrder(bs[..|bs| - 1], overflows);
      PlaceAppends(Pack(bs[..|bs| - 1], overflows), bs[|bs| - 1], overflows);
      assert bs == bs[..|bs| - 1] + [bs[|bs| - 1]];
    }
  }

  /** With no bubbles there is one empty page, and the counter reads "1 page". */
  lemma PackNoBubbles<B>(overflows: seq<B> -> bool)
    ensures Pack([], overflows) == [[]]
    ensures PageLabel(|Pack([], overflows)|) == "1 page"
  {
  }

  /** The pass places each bubble once, so it ends; it makes at most one page more than there are bubbles. */
  lemma PackPageCount<B>(bs: seq<B>, overflows: seq<B> -> bool)
    ensures 1 <= |Pack(bs, overflows)| <= |bs| + 1
  {
    PackGreedy(bs, overflows);
    PackPreservesOrder(bs, overflows);
    var pages := Pack(bs, overflows);
    ConcatLength(pages);
  }

  /** A sequence of pages, each non-empty, holds at least as many bubbles as there are pages. */
  lemma {:induction false} ConcatLength<B>(pages: seq<seq<B>>)
    requires pages != [] && forall k :: 1 <= k < |pages| ==> pages[k] != []
    ensures |Concat(pages)| >= |pages| - 1
    decreases |pages|
  {
    if |pages| > 1 {
      ConcatLength(pages[..|pages| - 1]);
    }
  }

  /** Every page after the first holds at least one bubble. */
  predicate LaterPagesFilled<B>(pages: seq<seq<B>>) {
    forall k :: 1 <= k < |pages| ==> pages[k] != []
  }

  /** Each page after the first starts with a bubble that made the previous page overflow. */
  predicate BreaksForced<B>(pages: seq<seq<B>>, overflows: seq<B> -> bool)
    requires LaterPagesFilled(pages)
  {
    forall k :: 0 <= k < |pages| - 1 ==> overflows(pages[k] + [pages[k + 1][0]])
  }

  /**
   * Each bubble that was tested fits: every prefix of page 1 that ends in a bubble, and every
   * prefix of a later page that ends in its second or a later bubble, does not overflow.
   */
  predicate TestedPrefixesFit<B>(pages: seq<seq<B>>, overflows: seq<B> -> bool) {
    forall k, j :: 0 <= k < |pages| && (if k == 0 then 1 else 2) <= j <= |pages[k]| ==> !overflows(pages[k][..j])
  }

  predicate Greedy<B>(pages: seq<seq<B>>, overflows: seq<B> -> bool) {
    pages != [] && LaterPagesFilled(pages) && BreaksForced(pages, overflows) && TestedPrefixesFit(pages, overflows)
  }

  lemma PlaceGreedy<B>(pages: seq<seq<B>>, b: B, overflows: seq<B> -> bool)
    requires Greedy(pages, overflows)
    ensures Greedy(Place(pages, b, overflows), overflows)
  {
    var cur := pages[|pages| - 1];
    var r := Place(pages, b, overflows);
    if overflows(cur + [b]) {
      assert r == pages + [[b]];
      assert forall k :: 0 <= k < |pages| ==> r[k] == pages[k];
    } else {
      var last := |pages| - 1;
      assert r == pages[..last] + [cur + [b]];
      assert forall k :: 0 <= k < last ==> r[k] == pages[k];
      assert forall j :: 1 <= j <= |cur| ==> (cur + [b])[..j] == cur[..j];
      assert (cur + [b])[..|cur| + 1] == cur + [b];
      assert TestedPrefixesFit(r, overflows) by {
        forall k, j | 0 <= k < |r| && (if k == 0 then 1 else 2) <= j <= |r[k]|
          ensures !overflows(r[k][..j])
        {
          if k == last && j <= |cur| {
            assert r[k][..j] == cur[..j];
          }
        }
      }
    }
  }

  /**
   * The pass is greedy: later pages are filled, every page break was forced by an overflow, and
   * every tested bubble fitted.
   */
  lemma {:induction false} PackGreedy<B>(bs: seq<B>, overflows: seq<B> -> bool)
    ensures Greedy(Pack(bs, overflows), overflows)
    decreases |bs|
  {
    if bs != [] {
      PackGreedy(bs[..|bs| - 1], overflows);
      PlaceGreedy(Pack(bs[..|bs| - 1], overflows), bs[|bs| - 1], overflows);
    }
  }

  /** Page 1 is empty exactly when there are no bubbles or the first bubble overflows on its own. */
  lemma {:induction false} PackFirstPage<B>(bs: seq<B>, overflows: seq<B> -> bool)
    ensures Pack(bs, overflows)[0] == [] <==> bs == [] || overflows([bs[0]])
    decreases |bs|
  {
    if bs != [] {
      var front := bs[..|bs| - 1];
      PackFirstPage(front, overflows);
      var prev := Pack(front, overflows);
      if front == [] {
        assert bs == [bs[0]];
        assert [] + [bs[0]] == [bs[0]];
      } else {
        assert front[0] == bs[0];
        var cur := prev[|prev| - 1];
        if |prev| == 1 {
          PackPreservesOrder(front, overflows);
          ConcatSingle(prev[0]);
          assert prev == [prev[0]];
          assert prev[0] != [];
          if !overflows(cur + [bs[|bs| - 1]]) {
            assert Pack(bs, overflows)[0] == cur + [bs[|bs| - 1]];
          }
        }
      }
    }
  }

  /**
   * No page overflows once pagination is done, except a page after the first that holds a single
   * bubble too tall for any page: that bubble is placed anyway, and the pass moves on.
   */
  lemma PackNoOverflow<B>(bs: seq<B>, overflows: seq<B> -> bool, k: nat)
    requires k < |Pack(bs, overflows)|
    requires Pack(bs, overflows)[k] != []
    requires k == 0 || |Pack(bs, overflows)[k]| >= 2
    ensures !overflows(Pack(bs, overflows)[k])
  {
    PackGreedy(bs, overflows);
    var p := Pack(bs, overflows)[k];
    assert p[..|p|] == p;
  }

  /** When no content ever overflows a page, every bubble goes on page 1 and there is no other page. */
  lemma PackOnePage<B>(bs: seq<B>, overflows: seq<B> -> bool)
    requires forall p :: !overflows(p)
    ensures Pack(bs, overflows) == [bs]
  {
    PackGreedy(bs, overflows);
    PackPreservesOrder(bs, overflows);
    var pages := Pack(bs, overflows);
    assert forall k :: 0 <= k < |pages| - 1 ==> overflows(pages[k] + [pages[k + 1][0]]);
    assert pages == [pages[0]];
    ConcatSingle(pages[0]);
  }

  /**
   * The greedy properties determine the result: any split of the bubbles into pages in order that
   * fills later pages, breaks only on overflow and keeps every tested bubble fitting is the one
   * the pass produces.
   */
  lemma {:induction false} PackUnique<B>(bs: seq<B>, pages: seq<seq<B>>, overflows: seq<B> -> bool)
    requires Greedy(pages, overflows) && Concat(pages) == bs
    ensures pages == Pack(bs, overflows)
    decreases |bs|
  {
    var n := |pages|;
    var last := pages[n - 1];
    var front := pages[..n - 1];
    assert pages == front + [last];
    ConcatAppend(front, last);
    if bs == [] {
      if n > 1 {
        assert false;
      }
    } else if last == [] {
      assert false;
    } else {
      var b := last[|last| - 1];
      assert bs[..|bs| - 1] + [b] == bs;
      if |last| == 1 && n > 1 {
        assert Concat(front) == bs[..|bs| - 1];
        assert Greedy(front, overflows) by { GreedyPrefix(pages, overflows); }
        PackUnique(bs[..|bs| - 1], front, overflows);
        assert overflows(front[n - 2] + [b]);
      } else {
        var shorter := front + [last[..|last| - 1]];
        assert last == last[..|last| - 1] + [b];
        ConcatAppend(front, last[..|last| - 1]);
        assert Concat(shorter) == bs[..|bs| - 1];
        assert Greedy(shorter, overflows) by { GreedyDropLast(pages, overflows); }
        PackUnique(bs[..|bs| - 1], shorter, overflows);
        assert last[..|last|] == last;
        assert !overflows(last);
      }
    }
  }

  /** Dropping the last page keeps the greedy properties. */
  lemma GreedyPrefix<B>(pages: seq<seq<B>>, overflows: seq<B> -> bool)
    requires Greedy(pages, overflows) && |pages| > 1
    ensures Greedy(pages[..|pages| - 1], overflows)
  {
    var front := pages[..|pages| - 1];
    assert forall k :: 0 <= k < |front| ==> front[k] == pages[k];
  }

  /** Dropping the last bubble keeps the greedy properties, unless a later page would become empty. */
  lemma GreedyDropLast<B>(pages: seq<seq<B>>, overflows: seq<B> -> bool)
    requires Greedy(pages, overflows)
    requires var last := pages[|pages| - 1]; last != [] && (|last| >= 2 || |pages| == 1)
    ensures var last := pages[|pages| - 1];
      Greedy(pages[..|pages| - 1] + [last[..|last| - 1]], overflows)
  {
    var n := |pages|;
    var last := pages[n - 1];
    var shorter := pages[..n - 1] + [last[..|last| - 1]];
    assert forall k :: 0 <= k < n - 1 ==> shorter[k] == pages[k];
    assert shorter[n - 1] == last[..|last| - 1];
    forall k, j | 0 <= k < n && (if k == 0 then 1 else 2) <= j <= |shorter[k]|
      ensures !overflows(shorter[k][..j])
    {
      if k == n - 1 {
        assert shorter[k][..j] == last[..j];
      }
    }
    if n > 1 {
      assert shorter[n - 1][0] == last[0];
    }
  }
}
