# Conversation pages: a verified model

The application lays out a chat between two speakers as fixed-size "story" pages (832 x 1472 px).
The text is split into bubbles at blank lines, and the bubbles alternate between "Supa" (left)
and "Moi" (right). They are packed onto pages, each page's content is softly centred, and the pages
are exported as PNGs, the last one cropped to its content. Light markup (`**bold**`, `*italic*`)
is rendered to HTML, and rich text pasted from the clipboard is turned back into that markup.
Theme, name-colour and bubble-style preferences are read back from storage with defaults.

This project models that logic in Dafny and proves what it promises:

- `Pagination`: the greedy packing pass. It is a method with a loop, proved equal to the function
  `Pack`. Its properties:
  - it keeps the bubbles in order;
  - it always makes at least one page;
  - it starts a page only on overflow;
  - it is the only split with these properties.

  A bubble that overflows the fresh page it lands on still stays there. So a first bubble that
  overflows leaves page 1 empty.
- `SoftCentering`: the downward shift of a page's content. It is skipped when 140 px or less is
  free. Otherwise it is half the free space, capped at 260 px.
- `ExportCrop`: the crop rectangle of each page, the rectangle maths of cutting it out of the
  scale-2 render, the corner radius, the file names, and the export loop. The loop is a method,
  with rendering and encoding as an oracle.
- `Conversation`: `parseBlocks`, the side and speaker of each bubble, and the per-bubble side switch.
- `Markup`: `escapeHTML` (proved to escape characterwise, and to be undone by unescaping), and
  `renderLightMarkdown`. It also covers the clipboard tree walk and clean-up of
  `htmlToLightMarkdown` (the walk is a method), and the paste handler's join rule.
- `ThemePrefs`, `StylePrefs`: colour normalisation and the defaulting of stored preferences.
- `Palette`: the swatches of a choice palette, and the single open palette (`activePaletteEl`).
  The open palette is a class whose invariant is that at most one palette is attached.
- `Strings`, `Sequences`, `Wrappers`: JavaScript white space and `trim`, decimal numbers,
  `padStart`, concatenation of a sequence of sequences, and `Option`.

Measurements the browser makes (`scrollHeight`, `offsetTop`, bounding rectangles, computed
padding) are parameters. The overflow test of a page is a predicate passed to `Paginate`.

Where the code differs from what its interface suggests, the model follows the code:

- **No bubbles:** an empty conversation gives one empty page, labelled "1 page", not zero pages.
- **All pages are cut:** every page, including one kept whole at 0/1472, goes through the crop
  and round step. The separate downscale helper is never called.

## Model

| member | source | states |
|---|---|---|
| `Pagination.Place` | script.js:648-654 | One step of the pass: the bubble joins the last page, or starts a new page when the last page then overflows; there is always a page |
| `Pagination.Pack` | script.js:642-655 | The pass starts with one empty page and places the bubbles in order, so there is always at least one page |
| `Pagination.Paginate` | script.js:639-662 | The pass over the bubbles builds exactly `Pack(bubbles)`, with one new page per overflow and no re-check of the moved bubble; the counter reads `PageLabel` of the page count |
| `Pagination.PageLabel` | script.js:660-661 | "N page" for N <= 1 and "N pages" otherwise, N written in decimal |
| `Pagination.PackPreservesOrder` | script.js:647-655 | Concatenating the pages gives back the bubbles, in order, each once |
| `Pagination.PackNoBubbles` | script.js:641-661 | No bubbles give one empty page, labelled "1 page" |
| `Pagination.PackPageCount` | script.js:641-655 | There are between 1 and one more than the number of bubbles pages |
| `Pagination.PackGreedy` | script.js:647-655 | Every page after the first is non-empty, each such page begins with the bubble that made the previous page overflow, and every bubble that was tested fits |
| `Pagination.PlaceGreedy` | script.js:648-654 | Placing one bubble keeps those greedy properties |
| `Pagination.PackFirstPage` | script.js:642-654 | Page 1 is empty exactly when there are no bubbles or the first bubble alone overflows |
| `Pagination.PackNoOverflow` | script.js:645-654 | No page overflows that is non-empty and is either page 1 or holds two or more bubbles; only a lone bubble moved to a fresh page is never tested |
| `Pagination.PackOnePage` | script.js:645-655 | When nothing ever overflows, all bubbles go on one page, in order, and there is no other page |
| `Pagination.PackUnique` | script.js:647-655 | Any split into pages that preserves order and has the greedy properties is the one the pass makes |
| `Pagination.PlaceAppends` | script.js:648-654 | Placing a bubble appends it to the last page or to a new page, leaving earlier pages alone |
| `SoftCentering.SoftCenter` | script.js:614-637 | No shift without bubbles or with 140 px or less free; otherwise the largest whole number at most half the free space and at most 260, hence between 70 and 260 |
| `SoftCentering.Free` | script.js:627-631 | The free space is the client height less the bottom padding and the last bubble's bottom edge; the top padding cancels |
| `SoftCentering.SoftCenterMonotone` | script.js:633-635 | More free space never gives a smaller shift |
| `ExportCrop.MeasureUsedBounds` | script.js:738-763 | Top >= 0, 520 <= height <= 1472, top + height <= 1472; no bubbles give the full page; the crop covers the bubbles with 64 px of air as far as the page allows; it is no taller than needed and moved up only to stay on the page |
| `ExportCrop.GetCropForPage` | script.js:765-778 | Pages other than the only or last one are whole; an eligible page is whole when less than 220 px would be cut and otherwise gets its measured bounds |
| `ExportCrop.OnlyLastPageCropped` | script.js:765-769 | A page cropped tighter than the full page is the last page |
| `ExportCrop.CornerRadius` | script.js:781-782 | The radius is non-negative, at most the requested radius and half of each side, and equal to the requested radius when that fits |
| `ExportCrop.JsRound` | script.js:798-800 | `Math.round` gives the integer within one half of its argument, halves rounded up |
| `ExportCrop.CropAndRound` | script.js:797-816 | Output is 832 wide and as high as the crop; at a whole-number scale the source rectangle is the crop scaled exactly; the clip radius is the clamped 18 px |
| `ExportCrop.PagePlanInsideRender` | script.js:834-848 | Every page's source rectangle lies inside the 1664 x 2944 render, scaled by exactly 2 to the output, with the full 18 px corners |
| `ExportCrop.FileNameShape` | script.js:850 | A file name starts with `rp_page_` and ends with `.png`, with at least two characters between; pages below 100 all get names of the same length |
| `ExportCrop.FileNameRoundTrip` | script.js:850 | The page number can be read back from the file name |
| `ExportCrop.FileNamesDiffer` | script.js:850 | Different pages get different file names |
| `ExportCrop.Delivered` | script.js:834-863 | The items the loop delivers from the first n pages, one per page whose image was made, so never more than n |
| `ExportCrop.FirstFailure` | script.js:834-845 | The page where the loop stops: all earlier pages render, and it is the first that does not, or the page count when every page renders |
| `ExportCrop.ExportAllPages` | script.js:824-867 | The loop delivers exactly `Delivered` of the pages before the first rejected render (of all pages when none is rejected); the exporting state stays on exactly when a render is rejected; the panel opens exactly when the loop finished, on a phone, with at least one item |
| `ExportCrop.MadePages` | script.js:852-863 | The pages whose image was made, strictly increasing and each below the page count |
| `ExportCrop.DeliveredInPageOrder` | script.js:834-863 | The delivered items are those of the pages whose image was made, in page order, each under its page's file name |
| `ExportCrop.DeliveredNamesDistinct` | script.js:834-863 | No two delivered items share a file name |
| `ExportCrop.DeliveredComplete` | script.js:852-863 | Every page whose image was made is delivered |
| `ExportCrop.DeliveredAll` | script.js:834-863 | When every image is made, item j is page j + 1's |
| `Conversation.ParseBlocks` | script.js:515-519 | Every block is non-empty and trimmed |
| `Conversation.ParseBlocksContent` | script.js:515-519 | The blocks in order hold exactly the input's non-space characters in the input's order |
| `Conversation.ParseBlocksEmpty` | script.js:515-518 | The result is empty exactly when the input is all white space |
| `Conversation.ParseBlocksNoBlankLine` | script.js:518 | No block contains a blank line (a white-space run with two line feeds) |
| `Conversation.ParseBlocksSeparated` | script.js:515-519 | The trimmed input is the blocks, unchanged, joined by white-space runs each holding at least two line feeds: cuts happen only at blank lines and the white space inside a block is kept |
| `Conversation.ParseBlocksUnique` | script.js:515-519 | Any split of a text into non-empty, trimmed blocks without blank lines, joined by blank-line runs, is the one parsing finds |
| `Conversation.ParseBlocksIdempotent` | script.js:515-519 | Joining the blocks with blank lines and parsing again gives the same blocks |
| `Conversation.SideForIndex` | script.js:528-531 | Bubble i is on the left exactly when i's parity matches "starts by AI" |
| `Conversation.SupaName` | script.js:521-523 | The trimmed name field, "Supa" when blank |
| `Conversation.SpeakerForSide` | script.js:533-535 | Left speaks as Supa's name, right as "Moi" |
| `Conversation.BubbleNode` | script.js:572-584 | A new bubble's name and switch agree with its side, and its HTML is the rendered markup |
| `Conversation.Generate` | script.js:664-667 | One bubble per block, in order, on alternating sides, each consistent, each holding its block's rendered markup as HTML |
| `Conversation.SetSide` | script.js:560-570 | Only bubble k changes: its side, switch and name, keeping its text |
| `Conversation.OnSwitchChange` | script.js:606-609 | Switch on means right, off means left |
| `Conversation.SetSideUndo` | script.js:560-570 | Flipping a bubble's side and back restores the conversation |
| `Markup.EscapeHtmlCharwise` | script.js:438-445 | The five replacements in order equal escaping each character independently |
| `Markup.EscapeHtmlSafe` | script.js:438-445 | The escaped text holds no `<`, `>`, `"` or `'` |
| `Markup.EscapeRoundTrip` | script.js:438-445 | Unescaping the escaped text gives the text back |
| `Markup.EscapeHtmlConcat` | script.js:438-445 | Escaping distributes over concatenation |
| `Markup.RenderLightMarkdown` | script.js:491-497 | The HTML holds no line feed (all become `<br>`) |
| `Markup.RenderInsertsOnlyTags` | script.js:491-497 | Every `<` in the HTML opens `<br>`, `<strong>`, `</strong>`, `<em>` or `</em>`: the text itself cannot inject markup |
| `Markup.RenderPlain` | script.js:491-497 | Text without `*` is only escaped and has its line feeds turned into `<br>` |
| `Markup.RenderBold` | script.js:493 | For non-empty t without `*` and without line feeds, `**t**` renders as `<strong>` around the escaped t |
| `Markup.RenderItalic` | script.js:494 | For non-empty t without `*` and without line feeds, `*t*` renders as `<em>` around the escaped t |
| `Markup.ReplaceBoldSingleStars` | script.js:493 | Text without a double star is left alone by the bold rule |
| `Markup.Walk` | script.js:451-481 | Walking a node appends exactly what the node emits |
| `Markup.WalkChildren` | script.js:462-476 | Walking children appends their emissions in order |
| `Markup.HtmlToLightMarkdown` | script.js:447-488 | The result is the cleaned-up join of the body's emissions |
| `Markup.CleanMarkdownShape` | script.js:483-488 | The cleaned markup is trimmed, has no space or tab before a line feed and never more than one blank line |
| `Markup.CleanSingleLine` | script.js:483-488 | Clean-up leaves a trimmed single line as it is |
| `Markup.PastedEmphasis` | script.js:463-469 | Pasted `<b>`/`<strong>` text becomes `**t**`, `<i>`/`<em>` text `*t*` |
| `Markup.PastedEmphasisRenders` | script.js:463-497 | Pasted emphasis renders back as `<strong>` or `<em>` around the escaped text |
| `Markup.AppendPasted` | script.js:507-509 | The value keeps the earlier text and ends with the pasted markup, joined by a blank line unless the earlier text is empty or already ends with one; the glue is then exactly two line feeds |
| `Markup.OnPaste` | script.js:499-510 | The browser pastes natively exactly when the clipboard HTML has none of the rich tags; empty markup leaves the input unchanged; otherwise the markup is appended |
| `ThemePrefs.NormalizeHex` | script.js:114-118 | The result is a lower-case `#rrggbb`; it is the trimmed input in lower case exactly when that is a hex colour, "#f7f1e3" otherwise |
| `ThemePrefs.NormalizeHexIdempotent` | script.js:114-118 | Normalising twice is normalising once |
| `ThemePrefs.SavedThemeColor` | script.js:120-123 | The saved colour is canonical: the default when nothing or an empty string is stored, the stored value normalised otherwise |
| `ThemePrefs.SaveThemeColor` | script.js:125-129 | The stored colour is canonical: the trimmed input in lower case when that is a hex colour, the default colour otherwise |
| `ThemePrefs.SavedThemeColorRoundTrip` | script.js:120-129 | A colour that is saved is read back unchanged |
| `ThemePrefs.ThemeId` | script.js:178 | The trimmed id, "color" when blank |
| `ThemePrefs.StoredThemeId` | script.js:190-192 | "color" when nothing is stored, the stored id trimmed ("color" when blank) otherwise |
| `ThemePrefs.ApplyTheme` | script.js:177-188 | The "color" theme paints the saved canonical colour; any other theme clears the overrides |
| `ThemePrefs.ApplyThemeIdempotent` | script.js:177-188 | Applying the active theme again changes nothing |
| `StylePrefs.FindBubble` | script.js:281 | The first choice with the id, or none exactly when no choice has it |
| `StylePrefs.LoadBubbleStyle` | script.js:277-284 | The stored style (default "light") when it is in the palette, the first choice otherwise |
| `StylePrefs.SetBubbleStyle` | script.js:259-275 | The chosen style's colours and id (the first choice when none), the button showing chip or background |
| `StylePrefs.BubbleStyleRoundTrip` | script.js:259-287 | A style that is saved is loaded on the next start |
| `StylePrefs.FindNameByKey` | script.js:246 | The first choice whose colour without white space is the key, or none exactly when there is none |
| `StylePrefs.LoadNameColor` | script.js:238-253 | Blank storage gives the first colour; a stored colour equal up to white space to a palette colour gives the first such palette colour in the palette's own spelling; any other stored colour is kept as stored |
| `StylePrefs.SetNameStyle` | script.js:221-222 | The chosen colour when it is non-empty; the neutral colour when there is no choice or its colour is empty |
| `StylePrefs.NameKey` | script.js:233-236 | Trimming then removing white space is the same as removing all white space from the shown colour, so the key never depends on surrounding spaces |
| `StylePrefs.NameColorRoundTrip` | script.js:221-253 | A palette colour that is saved is loaded on the next start |
| `Palette.SwatchOf` | script.js:318-328 | A swatch is marked exactly when its non-empty key is the current key |
| `Palette.BuildSwatches` | script.js:318-338 | The loop builds one swatch per choice, in order |
| `Palette.OneActiveSwatch` | script.js:318-328 | With distinct keys at most one swatch is marked, and one is when the current key is a key |
| `Palette.BubblePaletteMarksPicked` | script.js:384-391 | After a bubble style is picked, the reopened bubble palette marks its swatch and no other |
| `Palette.NamePaletteMarksPicked` | script.js:351-377 | After a name colour is picked, the reopened name palette, keyed by the current name key, marks its swatch and no other |
| `Palette.PaletteHost.Close` | script.js:292-296 | Nothing stays attached or referenced |
| `Palette.PaletteHost.Open` | script.js:306-342 | Without an anchor nothing changes; otherwise the previous palette is closed and the new one is the single attached palette |
| `Palette.PaletteHost.Pick` | script.js:330-335 | The picked choice is handed back for the palette's speaker, and the palette closes |
| `Palette.PaletteHost.PointerDown` | script.js:413-428 | A press outside the palette and the style buttons closes it; any other press leaves it |
| `Palette.PaletteHost.KeyDown` | script.js:430-432 | Escape closes the palette; other keys leave it |
| `Strings.Trim` | script.js:516 | The result is trimmed, empty exactly for all-white-space input, and otherwise the input without its leading and trailing white space |
| `Strings.DecimalRoundTrip` | script.js:661 | The decimal digits of a number read back as the number |

## Left out

- The DOM: building pages, bubbles and swatches, CSS classes and custom properties. Only the
  values they carry are modelled.
- Live layout reads (`scrollHeight`, `clientHeight`, `offsetTop`, `offsetHeight`,
  `getBoundingClientRect`, `getComputedStyle`). They are parameters. Padding is an
  already-parsed `real`; a padding `parseFloat` cannot read counts as 0, and that 0 is left to
  the caller.
- `localStorage` and its try/catch fallbacks: reads are `Option<string>`, with `None` for
  missing or unreadable; writes are the returned values.
- html2canvas, canvas drawing, clipping, `toBlob`, object URLs, their revocation, and anchor
  downloads. The oracle `encode` stands for rendering, cropping and encoding one page.
- `wait`, `setTimeout`, `requestAnimationFrame` and async ordering. The export loop is
  sequential.
- ExportCrop.ExportAllPages: desktop downloads run in `toBlob` callbacks. The model delivers each
  page's item in page order, but the browser may finish those callbacks in a different order.
- `isMobileLike` is a parameter of the export loop.
- `updatePageScale` (floating-point preview scaling) and `setPageSizeCSSVars` are not modelled.
- `positionPalette` (pixel placement of the popup) is not modelled.
- The listener wiring in `initPalettes`, the theme pills and the input listeners are left out.
  What the handlers do is modelled; how they are attached is not.
- `DOMParser` is left out. The walk works on an already-parsed tree of text, element and other
  nodes. Letter case is folded for ASCII tag names only.
- Strings are sequences of Unicode scalar values, where JavaScript strings are UTF-16 code
  units: there are no lone surrogates, and a character outside the Basic Multilingual Plane is
  one character here and two units in JavaScript. There is no Unicode case mapping beyond
  ASCII.
- `Strings.Trim` follows the JavaScript white-space set for `trim` and `\s`.
- `Conversation.ParseBlocks` cuts at whole white-space runs holding two or more line feeds,
  where the regular expression cuts from the run's first to its last line feed. The leftover
  white space is what the following trim removes.
- SoftCentering.SoftCenter: a page without a content element is not modelled. Pages always get
  one when they are created.
- ExportCrop.MeasureUsedBounds: a page without a content element behaves like a page without
  bubbles (`NoBubbles`), as in the code.
- Palette.PaletteHost.Pick: the speaker-specific `onPick` effect is not applied. The method
  returns the choice, and the preference functions in StylePrefs model the effect.
- Markup.RenderBold: proved only for non-empty text without `*` and without line feeds. The
  source's `[^*]+` also spans line feeds, which become `<br>` inside the tags; that case is not
  stated.
- Markup.RenderItalic: proved only for non-empty text without `*` and without line feeds, for
  the same reason as `RenderBold`.
