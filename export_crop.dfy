// PNG export of the pages (script.js:730-868).
//
// Each page is rendered whole at twice its size, then the part worth keeping is cut out of that
// render and scaled back to export width with rounded corners. Only the last page of several (or
// the only page) may be cropped tighter than the full 832 x 1472 page. Rendering and encoding are
// an oracle here; what is modelled is the crop geometry, the file names and the order in which the
// results are delivered.
module ExportCrop {
  import opened Wrappers
  import opened Strings

  const ExportW: int := 832
  const ExportH: int := 1472
  /** Scale factor of the whole-page render the crop is cut from. */
  const PngRenderScale: int := 2
  /** Room kept above the first bubble and below the last one (px). */
  const CropTopBreath: int := 64
  const CropBottomBreath: int := 64
  /** No crop is smaller than this (px). */
  const CropMinH: int := 520
  /** A page is cropped only when at least this much height would be cut away (px). */
  const CropFreeMin: int := 220
  /** Corner radius of a page, as in the page's CSS (px). */
  const PageRadius: real := 18.0

  /** The rows of a page that end up in the PNG: from `top`, `height` rows, in page pixels. */
  datatype Crop = Crop(top: int, height: int)

  const FullPage: Crop := Crop(0, ExportH)

  /**
   * What measuring a page gives: no bubbles at all (a page without a content element behaves the
   * same), or the first bubble's top edge and the last bubble's bottom edge, relative to the top
   * of the page.
   */
  datatype PageMeasure = NoBubbles | Bubbles(firstTop: real, lastBottom: real)

  function Ceil(x: real): (c: int)
    ensures x <= c as real < x + 1.0
  {
    -((-x).Floor)
  }

  function Max(a: int, b: int): int {
    if a >= b then a else b
  }

  function Min(a: int, b: int): int {
    if a <= b then a else b
  }

  /** The crop's top before it is moved up, and its bottom, in whole pixels inside the page. */
  function RawTop(firstTop: real): (top: int)
    ensures top >= 0 && (top == 0 || top as real <= firstTop - CropTopBreath as real)
  {
    Max(0, (firstTop - CropTopBreath as real).Floor)
  }

  function RawBottom(lastBottom: real): (bottom: int)
    ensures bottom <= ExportH
    ensures bottom == ExportH || lastBottom + CropBottomBreath as real <= bottom as real
  {
    Min(ExportH, Ceil(lastBottom + CropBottomBreath as real))
  }

  predicate WithinPage(c: Crop) {
    0 <= c.top && CropMinH <= c.height <= ExportH && c.top + c.height <= ExportH
  }

  /**
   * The used rectangle of a page, widened by the breathing room, rounded outwards to whole
   * pixels, clipped to the page, made at least 520 px high and, when that pushes it past the
   * bottom of the page, moved up.
   */
  function MeasureUsedBounds(m: PageMeasure): (c: Crop)
    ensures WithinPage(c)
    ensures m.NoBubbles? ==> c == FullPage
    // The crop covers the first bubble's top and the last bubble's bottom with their breathing
    // room, as far as the page allows.
    ensures m.Bubbles? ==> c.top == 0 || c.top as real <= m.firstTop - CropTopBreath as real
    ensures m.Bubbles? ==>
      (c.top + c.height == ExportH || m.lastBottom + CropBottomBreath as real <= (c.top + c.height) as real)
    // It is no taller than that: either it ends at the rounded bottom edge or it has the minimum
    // height.
    ensures m.Bubbles? ==> c.height == CropMinH || c.top + c.height == RawBottom(m.lastBottom)
    // It is moved up only as far as needed to stay on the page.
    ensures m.Bubbles? ==> c.top == RawTop(m.firstTop) || c.top + c.height == ExportH
  {
    match m
    case NoBubbles => FullPage
    case Bubbles(firstTop, lastBottom) =>
      var top := RawTop(firstTop);
      var bottom := RawBottom(lastBottom);
      var height := Max(CropMinH, bottom - top);
      if top + height > ExportH then Crop(Max(0, ExportH - height), height)
      else Crop(top, height)
  }

  /** Only the last page (which covers the only page) is measured for a tighter crop. */
  predicate CropEligible(pageIndex: int, totalPages: int) {
    totalPages == 1 || pageIndex == totalPages - 1
  }

  /**
   * The crop of one page: the whole page unless the page is eligible and at least 220 px of its
   * height would be cut away.
   */
  function GetCropForPage(m: PageMeasure, pageIndex: int, totalPages: int): (c: Crop)
    ensures WithinPage(c)
    ensures !CropEligible(pageIndex, totalPages) ==> c == FullPage
    ensures CropEligible(pageIndex, totalPages) && ExportH - MeasureUsedBounds(m).height < CropFreeMin
            ==> c == FullPage
    ensures CropEligible(pageIndex, totalPages) && ExportH - MeasureUsedBounds(m).height >= CropFreeMin
            ==> c == MeasureUsedBounds(m)
    // A crop is either the whole page or cuts at least 220 px away.
    ensures c == FullPage || c.height <= ExportH - CropFreeMin
  {
    if !CropEligible(pageIndex, totalPages) then FullPage
    else
      var b := MeasureUsedBounds(m);
      if ExportH - b.height < CropFreeMin then FullPage else b
  }

  /** A page that is neither the only one nor the last is always exported whole. */
  lemma {:induction false} OnlyLastPageCropped(ms: seq<PageMeasure>, i: int)
    requires 0 <= i < |ms| && GetCropForPage(ms[i], i, |ms|) != FullPage
    ensures i == |ms| - 1
  {
  }

  /** A page without bubbles is exported whole, wherever it is. */
  lemma EmptyPageNotCropped(i: int, total: int)
    ensures GetCropForPage(NoBubbles, i, total) == FullPage
  {
  }

  /** The corner radius actually drawn: the requested one, but never more than half a side. */
  function CornerRadius(w: real, h: real, r: real): (rr: real)
    ensures 0.0 <= rr
    ensures 0.0 <= r ==> rr <= r
    ensures 0.0 <= w ==> rr <= w / 2.0
    ensures 0.0 <= h ==> rr <= h / 2.0
    ensures 0.0 <= r <= w / 2.0 && r <= h / 2.0 ==> rr == r
    ensures r < 0.0 || w < 0.0 || h < 0.0 ==> rr == 0.0
  {
    var m := if r <= w / 2.0 then r else w / 2.0;
    var m2 := if m <= h / 2.0 then m else h / 2.0;
    if m2 >= 0.0 then m2 else 0.0
  }

  /** `Math.round`: the nearest integer, halves rounded up. */
  function JsRound(x: real): (n: int)
    ensures x - 0.5 < n as real <= x + 0.5
  {
    (x + 0.5).Floor
  }

  /**
   * How a crop is cut out of the scaled render and drawn: the source rectangle (full width, rows
   * `srcY` to `srcY + srcH`), the output size and the radius of its rounded clip.
   */
  datatype Plan = Plan(srcY: int, srcW: int, srcH: int, outW: int, outH: int, radius: real)

  /**
   * The rectangle maths of cutting the crop out of a render made at `scale` and drawing it at
   * export width and crop height with rounded corners.
   */
  function CropAndRound(cropTop: int, cropH: int, scale: real): (p: Plan)
    ensures p.outW == ExportW && p.outH == cropH
    // At a whole-number scale nothing is lost to rounding: the source rectangle is the crop,
    // scaled.
    ensures scale == scale.Floor as real ==>
      var k := scale.Floor; p.srcY == k * cropTop && p.srcH == k * cropH && p.srcW == k * ExportW
    ensures p.radius == CornerRadius(ExportW as real, cropH as real, PageRadius)
  {
    Plan(JsRound(cropTop as real * scale), JsRound(ExportW as real * scale),
         JsRound(cropH as real * scale), ExportW, cropH,
         CornerRadius(ExportW as real, cropH as real, PageRadius))
  }

  /** The plan each page of an export goes through, cropped or not. */
  function PagePlan(ms: seq<PageMeasure>, i: nat): Plan
    requires i < |ms|
  {
    var c := GetCropForPage(ms[i], i, |ms|);
    CropAndRound(c.top, c.height, PngRenderScale as real)
  }

  /**
   * Every page's plan reads inside the whole-page render (832 x 1472 at scale 2), shrinks it
   * uniformly by the render scale, and keeps the full 18 px page corners.
   */
  lemma {:induction false} PagePlanInsideRender(ms: seq<PageMeasure>, i: nat)
    requires i < |ms|
    ensures var p := PagePlan(ms, i);
      0 <= p.srcY && p.srcY + p.srcH <= PngRenderScale * ExportH && p.srcW == PngRenderScale * ExportW
      && p.srcW == PngRenderScale * p.outW && p.srcH == PngRenderScale * p.outH
      && CropMinH <= p.outH <= ExportH && p.radius == PageRadius
  {
    var c := GetCropForPage(ms[i], i, |ms|);
    var p := CropAndRound(c.top, c.height, PngRenderScale as real);
    assert (PngRenderScale as real).Floor == PngRenderScale;
    assert c.height as real >= 520.0;
  }

  // File names

  const FilePrefix: string := "rp_page_"
  const FileSuffix: string := ".png"

  /** The name of the n-th page's file (counting from 1), the number padded to two digits. */
  function FileName(n: nat): string {
    FilePrefix + PadStart(Decimal(n), 2, '0') + FileSuffix
  }

  /** A file name starts with the prefix, ends with `.png`, and pages 0 to 99 all have the same length. */
  lemma FileNameShape(n: nat)
    ensures var name := FileName(n);
      |name| >= |FilePrefix| + 2 + |FileSuffix|
      && name[..|FilePrefix|] == FilePrefix
      && name[|name| - |FileSuffix|..] == FileSuffix
      && (n < 100 ==> |name| == |FilePrefix| + 2 + |FileSuffix|)
  {
  }

  /** The page number a file name carries, 0 when it is not of the form above. */
  function PageNumber(name: string): nat {
    if |name| < |FilePrefix| + |FileSuffix| then 0
    else
      var digits := name[|FilePrefix|..|name| - |FileSuffix|];
      if forall i :: 0 <= i < |digits| ==> IsDigit(digits[i]) then DecimalValue(digits) else 0
  }

  lemma {:induction false} FileNameRoundTrip(n: nat)
    ensures PageNumber(FileName(n)) == n
  {
    var d := Decimal(n);
    var padded := PadStart(d, 2, '0');
    var z := Repeat('0', |padded| - |d|);
    var name := FileName(n);
    assert name[|FilePrefix|..|name| - |FileSuffix|] == padded;
    DecimalValueLeadingZeros(z, d);
    DecimalRoundTrip(n);
  }

  /** Different pages never share a file name. */
  lemma FileNamesDiffer(m: nat, n: nat)
    requires m != n
    ensures FileName(m) != FileName(n)
  {
    FileNameRoundTrip(m);
    FileNameRoundTrip(n);
  }

  // The export loop

  /** One exported page: where its PNG can be fetched, and the name to save it under. */
  datatype Item = Item(url: string, filename: string)

  /**
   * The pages among the first `n` whose PNG could be made, in page order. `encode(i, p)` stands for
   * cutting rendered page `i` out as `p` says and encoding the result; it gives None when no
   * image or no link to it could be made.
   */
  function Delivered(plans: seq<Plan>, encode: (nat, Plan) -> Option<string>, n: nat): (items: seq<Item>)
    requires n <= |plans|
    ensures |items| <= n
  {
    if n == 0 then []
    else
      var i := n - 1;
      var rest := Delivered(plans, encode, i);
      match encode(i, plans[i])
      case Some(url) => rest + [Item(url, FileName(i + 1))]
      case None => rest
  }

  /** One more page adds its item when its PNG could be made, and nothing otherwise. */
  lemma DeliveredStep(plans: seq<Plan>, encode: (nat, Plan) -> Option<string>, i: nat)
    requires i < |plans|
    ensures Delivered(plans, encode, i + 1) == Delivered(plans, encode, i)
      + (if encode(i, plans[i]).Some? then [Item(encode(i, plans[i]).value, FileName(i + 1))] else [])
  {
  }

  /** The plans of all pages of an export, in page order. */
  function PagePlans(ms: seq<PageMeasure>): (plans: seq<Plan>)
    ensures |plans| == |ms| && forall i :: 0 <= i < |ms| ==> plans[i] == PagePlan(ms, i)
  {
    seq(|ms|, i requires 0 <= i < |ms| => PagePlan(ms, i))
  }

  /**
   * The first of the first `n` pages whose rendering fails (`renders(i)` is false when rendering
   * page `i` is rejected), or `n` when all of them render.
   */
  function FirstFailure(renders: nat -> bool, n: nat): (f: nat)
    ensures f <= n && forall i :: 0 <= i < f ==> renders(i)
    ensures f < n ==> !renders(f)
  {
    if n == 0 then 0
    else
      var f := FirstFailure(renders, n - 1);
      if f < n - 1 || !renders(n - 1) then f else n
  }

  /** The first failure is the page that fails after all earlier ones rendered, or `n` when none fails. */
  lemma FirstFailureIs(renders: nat -> bool, n: nat, i: nat)
    requires i <= n && (forall j :: 0 <= j < i ==> renders(j)) && (i < n ==> !renders(i))
    ensures FirstFailure(renders, n) == i
  {
  }

  /**
   * Exports every page in order. On a phone the successful PNGs are collected and the panel of
   * links opens when there is at least one; elsewhere each is downloaded as it is made. A page
   * whose rendering is rejected ends the export there: the pages before it have been delivered,
   * the page stays in its exporting state and no panel opens. Nothing happens when there are no
   * pages.
   */
  method ExportAllPages(ms: seq<PageMeasure>, isMobile: bool, renders: nat -> bool, encode: (nat, Plan) -> Option<string>)
    returns (items: seq<Item>, panelOpen: bool, stillExporting: bool)
    ensures var f := FirstFailure(renders, |ms|);
      items == Delivered(PagePlans(ms), encode, f) && (stillExporting <==> f < |ms|)
    ensures panelOpen <==> !stillExporting && isMobile && items != []
  {
    items := [];
    panelOpen := false;
    stillExporting := false;
    if |ms| == 0 {
      return;
    }
    stillExporting := true;
    for i := 0 to |ms|
      invariant items == Delivered(PagePlans(ms), encode, i)
      invariant forall j :: 0 <= j < i ==> renders(j)
    {
      var c := GetCropForPage(ms[i], i, |ms|);
      if !renders(i) {
        FirstFailureIs(renders, |ms|, i);
        return;
      }
      var plan := CropAndRound(c.top, c.height, PngRenderScale as real);
      var filename := FileName(i + 1);
      assert plan == PagePlans(ms)[i];
      var url := encode(i, plan);
      DeliveredStep(PagePlans(ms), encode, i);
      if url.Some? {
        items := items + [Item(url.value, filename)];
      }
    }
    FirstFailureIs(renders, |ms|, |ms|);
    stillExporting := false;
    panelOpen := isMobile && items != [];
  }

  /** The pages among the first `n` (counting from 0) whose PNG could be made, in increasing order. */
  function MadePages(plans: seq<Plan>, encode: (nat, Plan) -> Option<string>, n: nat): (pages: seq<nat>)
    requires n <= |plans|
    ensures forall j :: 0 <= j < |pages| ==> pages[j] < n && encode(pages[j], plans[pages[j]]).Some?
    ensures forall j, j' :: 0 <= j < j' < |pages| ==> pages[j] < pages[j']
  {
    if n == 0 then []
    else if encode(n - 1, plans[n - 1]).Some? then MadePages(plans, encode, n - 1) + [n - 1]
    else MadePages(plans, encode, n - 1)
  }

  /** What page `i` delivers when its PNG could be made. */
  function ItemOf(plans: seq<Plan>, encode: (nat, Plan) -> Option<string>, i: nat): Item
    requires i < |plans| && encode(i, plans[i]).Some?
  {
    Item(encode(i, plans[i]).value, FileName(i + 1))
  }

  /** `items` are, one for one, what the pages listed in `pages` deliver. */
  predicate Matches(plans: seq<Plan>, encode: (nat, Plan) -> Option<string>, items: seq<Item>, pages: seq<nat>) {
    |items| == |pages|
    && forall j :: 0 <= j < |pages| ==>
      pages[j] < |plans| && encode(pages[j], plans[pages[j]]).Some? && items[j] == ItemOf(plans, encode, pages[j])
  }

  lemma MatchesAppend(plans: seq<Plan>, encode: (nat, Plan) -> Option<string>, items: seq<Item>, pages: seq<nat>, i: nat)
    requires Matches(plans, encode, items, pages)
    requires i < |plans| && encode(i, plans[i]).Some?
    ensures Matches(plans, encode, items + [ItemOf(plans, encode, i)], pages + [i])
  {
    var items' := items + [ItemOf(plans, encode, i)];
    var pages' := pages + [i];
    forall j | 0 <= j < |pages'|
      ensures pages'[j] < |plans| && encode(pages'[j], plans[pages'[j]]).Some?
      ensures items'[j] == ItemOf(plans, encode, pages'[j])
    {
      if j < |pages| {
        assert items'[j] == items[j] && pages'[j] == pages[j];
      }
    }
  }

  /**
   * The delivered items are, in page order, those of the pages whose PNG could be made, each
   * under its page's file name.
   */
  lemma {:induction false} DeliveredInPageOrder(plans: seq<Plan>, encode: (nat, Plan) -> Option<string>, n: nat)
    requires n <= |plans|
    ensures Matches(plans, encode, Delivered(plans, encode, n), MadePages(plans, encode, n))
  {
    if n > 0 {
      DeliveredInPageOrder(plans, encode, n - 1);
      if encode(n - 1, plans[n - 1]).Some? {
        MatchesAppend(plans, encode, Delivered(plans, encode, n - 1), MadePages(plans, encode, n - 1), n - 1);
      }
    }
  }

  lemma NamesOfDifferentPages(x: Item, y: Item, a: nat, b: nat)
    requires x.filename == FileName(a) && y.filename == FileName(b) && a != b
    ensures x.filename != y.filename
  {
    FileNamesDiffer(a, b);
  }

  /** Items matched to strictly increasing pages have pairwise different file names. */
  lemma MatchedNamesDistinct(plans: seq<Plan>, encode: (nat, Plan) -> Option<string>, items: seq<Item>, pages: seq<nat>)
    requires Matches(plans, encode, items, pages)
    requires forall j, j' :: 0 <= j < j' < |pages| ==> pages[j] < pages[j']
    ensures forall j, j' :: 0 <= j < j' < |items| ==> items[j].filename != items[j'].filename
  {
    forall j, j' | 0 <= j < j' < |items|
      ensures items[j].filename != items[j'].filename
    {
      NamesOfDifferentPages(items[j], items[j'], pages[j] + 1, pages[j'] + 1);
    }
  }

  /** No two delivered items share a file name. */
  lemma DeliveredNamesDistinct(plans: seq<Plan>, encode: (nat, Plan) -> Option<string>, n: nat)
    requires n <= |plans|
    ensures var items := Delivered(plans, encode, n);
      forall j, j' :: 0 <= j < j' < |items| ==> items[j].filename != items[j'].filename
  {
    DeliveredInPageOrder(plans, encode, n);
    MatchedNamesDistinct(plans, encode, Delivered(plans, encode, n), MadePages(plans, encode, n));
  }

  /** Looking at one more page only ever appends. */
  lemma DeliveredGrows(plans: seq<Plan>, encode: (nat, Plan) -> Option<string>, n: nat)
    requires 0 < n <= |plans|
    ensures Delivered(plans, encode, n - 1) <= Delivered(plans, encode, n)
  {
  }

  lemma InPrefix<T>(x: T, s: seq<T>, t: seq<T>)
    requires x in s && s <= t
    ensures x in t
  {
    var k :| 0 <= k < |s| && s[k] == x;
    assert t[k] == x;
  }

  /** Every page whose PNG could be made is delivered. */
  lemma {:induction false} DeliveredComplete(plans: seq<Plan>, encode: (nat, Plan) -> Option<string>, n: nat, i: nat)
    requires i < n <= |plans| && encode(i, plans[i]).Some?
    ensures Item(encode(i, plans[i]).value, FileName(i + 1)) in Delivered(plans, encode, n)
  {
    var item := Item(encode(i, plans[i]).value, FileName(i + 1));
    var before := Delivered(plans, encode, n - 1);
    if i < n - 1 {
      DeliveredComplete(plans, encode, n - 1, i);
      DeliveredGrows(plans, encode, n);
      InPrefix(item, before, Delivered(plans, encode, n));
    } else {
      assert Delivered(plans, encode, n) == before + [item];
    }
  }

  /** When every page's PNG can be made, every page is listed. */
  lemma {:induction false} MadePagesAll(plans: seq<Plan>, encode: (nat, Plan) -> Option<string>, n: nat)
    requires n <= |plans|
    requires forall i :: 0 <= i < n ==> encode(i, plans[i]).Some?
    ensures var pages := MadePages(plans, encode, n); |pages| == n && forall j :: 0 <= j < n ==> pages[j] == j
  {
    if n > 0 {
      MadePagesAll(plans, encode, n - 1);
      var pages := MadePages(plans, encode, n);
      assert pages == MadePages(plans, encode, n - 1) + [n - 1];
    }
  }

  /** When every page's PNG can be made, the j-th item is page j + 1's. */
  lemma DeliveredAll(plans: seq<Plan>, encode: (nat, Plan) -> Option<string>, n: nat)
    requires n <= |plans|
    requires forall i :: 0 <= i < n ==> encode(i, plans[i]).Some?
    ensures var items := Delivered(plans, encode, n);
      |items| == n && forall j :: 0 <= j < n ==> items[j] == ItemOf(plans, encode, j)
  {
    DeliveredInPageOrder(plans, encode, n);
    MadePagesAll(plans, encode, n);
  }
}
