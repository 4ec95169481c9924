// Soft centering of a page's bubbles (script.js:614-637).
//
// After pagination every page's content box is pushed down by half of its free space, so that a
// short page does not hug the top edge. The push is skipped when little space is free and capped
// so that a nearly empty page does not look sunk. Layout reads (the computed paddings, the last
// bubble's offsetTop and offsetHeight, the content's clientHeight) are parameters here.
module SoftCentering {
  import opened Wrappers

  /** Below or at this much free space (px) the page is left as it is. */
  const CenterMinFree: int := 140
  /** The largest downward shift (px). */
  const CenterMaxShift: int := 260

  /** The box a page's content is laid out in, as measured after pagination. */
  datatype ContentBox = ContentBox(
    clientHeight: int,
    padTop: real,
    padBottom: real,
    lastOffsetTop: int,
    lastOffsetHeight: int)

  /** Bottom edge of the last bubble, from the content box's top. */
  function UsedBottom(box: ContentBox): int {
    box.lastOffsetTop + box.lastOffsetHeight
  }

  /**
   * Free space under the last bubble: the inner height (client height less both paddings) minus
   * the height used from the top padding down to the last bubble's bottom edge. The top padding
   * appears in both terms and cancels.
   */
  function Free(box: ContentBox): (free: real)
    ensures free == box.clientHeight as real - box.padBottom - UsedBottom(box) as real
  {
    var inner := box.clientHeight as real - box.padTop - box.padBottom;
    var used := UsedBottom(box) as real - box.padTop;
    inner - used
  }

  /**
   * The translateY applied to the content, or None when the transform is left cleared: for a page
   * without bubbles, and when no more than 140 px are free. Otherwise half the free space rounded
   * down, at most 260 px.
   */
  function SoftCenter(bubbleCount: nat, box: ContentBox): (shift: Option<int>)
    ensures shift == None <==> bubbleCount == 0 || Free(box) <= CenterMinFree as real
    ensures shift.Some? ==> CenterMinFree / 2 <= shift.value <= CenterMaxShift
    // The shift is the largest whole number of pixels that is at most half the free space and at
    // most the cap.
    ensures shift.Some? ==> shift.value as real <= Free(box) / 2.0
    ensures shift.Some? ==> shift.value == CenterMaxShift || Free(box) / 2.0 < shift.value as real + 1.0
  {
    if bubbleCount == 0 then None
    else
      var free := Free(box);
      if free <= CenterMinFree as real then None
      else Some(Min((free / 2.0).Floor, CenterMaxShift))
  }

  function Min(a: int, b: int): int {
    if a <= b then a else b
  }

  /**
   * Centering never pushes the last bubble into the bottom padding: after the shift, as much room
   * is left under it as the shift itself.
   */
  lemma ShiftKeepsLastBubbleInside(bubbleCount: nat, box: ContentBox)
    requires SoftCenter(bubbleCount, box).Some?
    ensures var s := SoftCenter(bubbleCount, box).value as real;
      UsedBottom(box) as real + s + s <= box.clientHeight as real - box.padBottom
  {
  }

  /** Only the free space matters: two boxes with the same free space are shifted alike. */
  lemma SoftCenterDependsOnFree(n: nat, a: ContentBox, b: ContentBox)
    requires Free(a) == Free(b)
    ensures SoftCenter(n, a) == SoftCenter(n, b)
  {
  }

  /** More free space never gives a smaller shift. */
  lemma SoftCenterMonotone(n: nat, a: ContentBox, b: ContentBox)
    requires n > 0 && SoftCenter(n, a).Some? && Free(a) <= Free(b)
    ensures SoftCenter(n, b).Some? && SoftCenter(n, a).value <= SoftCenter(n, b).value
  {
    var fa := Free(a) / 2.0;
    var fb := Free(b) / 2.0;
    assert fa.Floor <= fb.Floor by {
      assert fa.Floor as real <= fa <= fb;
    }
  }
}
