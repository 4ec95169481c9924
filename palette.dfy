// The shared choice palette (script.js:292-341, 412-431).
//
// A palette is a small popup of swatches opened under one of the four style buttons. The page
// keeps a single reference to the palette that is open (`activePaletteEl`); opening one closes
// the previous one first, so at most one palette is ever attached to the document. Where the
// popup is placed on screen and how the button events are wired are not modelled.
module Palette {
  import opened Wrappers
  import opened Strings
  import opened StylePrefs

  /**
   * A palette choice as the palette reads it; the empty string stands for a property the choice
   * does not have (name choices have no chip or background, bubble choices no value).
   */
  datatype ChoiceView = ChoiceView(caption: string, value: string, id: string, chip: string, bg: string)

  function NameView(c: NameChoice): ChoiceView {
    ChoiceView(c.caption, c.value, c.id, "", "")
  }

  function BubbleView(c: BubbleChoice): ChoiceView {
    ChoiceView(c.caption, "", c.id, c.chip, c.bg)
  }

  /** One swatch button: its tooltip, its background and whether it is marked as the current one. */
  datatype Swatch = Swatch(title: string, background: string, isActive: bool)

  /** The key a swatch is compared by: the choice's value, else its id, without white space. */
  function SwatchKey(c: ChoiceView): string {
    RemoveSpaces(if c.value != "" then c.value else c.id)
  }

  /** The colour a swatch shows: the choice's value, else its chip colour, else its background. */
  function SwatchBackground(c: ChoiceView): string {
    if c.value != "" then c.value else if c.chip != "" then c.chip else c.bg
  }

  /** The swatch of one choice; it is marked when its key is not empty and equals the current key. */
  function SwatchOf(c: ChoiceView, currentKey: string): (s: Swatch)
    ensures s.title == c.caption
    ensures s.isActive ==> SwatchKey(c) == currentKey && currentKey != []
    ensures SwatchKey(c) == currentKey && currentKey != [] ==> s.isActive
  {
    var key := SwatchKey(c);
    Swatch(c.caption, SwatchBackground(c), key != "" && key == currentKey)
  }

  /** The swatches of a palette, one per choice, in choice order. */
  function Swatches(choices: seq<ChoiceView>, currentKey: string): (ss: seq<Swatch>)
    ensures |ss| == |choices|
    ensures forall k :: 0 <= k < |choices| ==> ss[k] == SwatchOf(choices[k], currentKey)
  {
    seq(|choices|, k requires 0 <= k < |choices| => SwatchOf(choices[k], currentKey))
  }

  /** Builds the swatches one choice at a time, appending each to the popup. */
  method BuildSwatches(choices: seq<ChoiceView>, currentKey: string) returns (ss: seq<Swatch>)
    ensures ss == Swatches(choices, currentKey)
  {
    ss := [];
    for i := 0 to |choices|
      invariant ss == Swatches(choices[..i], currentKey)
    {
      ss := ss + [SwatchOf(choices[i], currentKey)];
    }
    assert choices[..|choices|] == choices;
  }

  /** No two choices share a non-empty key. */
  predicate DistinctKeys(choices: seq<ChoiceView>) {
    forall j, k :: 0 <= j < k < |choices| && SwatchKey(choices[j]) != [] ==> SwatchKey(choices[j]) != SwatchKey(choices[k])
  }

  /** How many swatches are marked. */
  function ActiveCount(ss: seq<Swatch>): (n: nat)
    ensures n <= |ss|
  {
    if ss == [] then 0 else ActiveCount(ss[..|ss| - 1]) + (if ss[|ss| - 1].isActive then 1 else 0)
  }

  /**
   * When the choices' keys are distinct, at most one swatch is marked, and exactly one when the
   * current key is one of the keys.
   */
  lemma {:induction false} OneActiveSwatch(choices: seq<ChoiceView>, currentKey: string)
    requires DistinctKeys(choices)
    ensures ActiveCount(Swatches(choices, currentKey)) <= 1
    ensures (exists k :: 0 <= k < |choices| && SwatchKey(choices[k]) == currentKey) && currentKey != []
            ==> ActiveCount(Swatches(choices, currentKey)) == 1
    decreases |choices|
  {
    if choices != [] {
      var n := |choices| - 1;
      var front := choices[..n];
      var ss := Swatches(choices, currentKey);
      SwatchesPrefix(choices, n, currentKey);
      DistinctKeysPrefix(choices, n);
      OneActiveSwatch(front, currentKey);
      assert ss[n] == SwatchOf(choices[n], currentKey);
      if ss[n].isActive {
        forall j | 0 <= j < n
          ensures SwatchKey(front[j]) != currentKey
        {
          assert front[j] == choices[j];
        }
        NoneActive(front, currentKey);
      } else if k :| 0 <= k < |choices| && SwatchKey(choices[k]) == currentKey && currentKey != [] {
        assert front[k] == choices[k];
      }
    }
  }

  lemma {:induction false} NoneActive(choices: seq<ChoiceView>, currentKey: string)
    requires forall k :: 0 <= k < |choices| ==> SwatchKey(choices[k]) != currentKey
    ensures ActiveCount(Swatches(choices, currentKey)) == 0
    decreases |choices|
  {
    if choices != [] {
      var n := |choices| - 1;
      SwatchesPrefix(choices, n, currentKey);
      NoneActive(choices[..n], currentKey);
    }
  }

  lemma SwatchesPrefix(choices: seq<ChoiceView>, n: nat, currentKey: string)
    requires n <= |choices|
    ensures Swatches(choices, currentKey)[..n] == Swatches(choices[..n], currentKey)
  {
  }

  lemma DistinctKeysPrefix(choices: seq<ChoiceView>, n: nat)
    requires DistinctKeys(choices) && n <= |choices|
    ensures DistinctKeys(choices[..n])
  {
  }

  /** The bubble palette: the current key is the stored style id, "light" when nothing is stored. */
  function BubbleCurrentKey(stored: Option<string>): string {
    Trim(if stored.Some? && stored.value != "" then stored.value else "light")
  }

  function BubbleViews(): seq<ChoiceView> {
    seq(|BubbleChoices|, k requires 0 <= k < |BubbleChoices| => BubbleView(BubbleChoices[k]))
  }

  /** With distinct keys, the swatch whose key is the current key is the only one marked. */
  lemma MarksOnlyCurrent(choices: seq<ChoiceView>, k: nat, currentKey: string)
    requires DistinctKeys(choices) && k < |choices|
    requires SwatchKey(choices[k]) == currentKey && currentKey != []
    ensures var ss := Swatches(choices, currentKey);
      ss[k].isActive && forall j :: 0 <= j < |ss| && j != k ==> !ss[j].isActive
  {
  }

  lemma BubbleIdsVisible()
    ensures forall k :: 0 <= k < |BubbleChoices| ==> IsVisibleAscii(BubbleChoices[k].id) && BubbleChoices[k].id != []
    ensures forall i, j :: 0 <= i < j < |BubbleChoices| ==> BubbleChoices[i].id != BubbleChoices[j].id
  {
  }

  /** The bubble palette's keys are the style ids, and they are distinct. */
  lemma BubbleViewKeys()
    ensures var views := BubbleViews();
      DistinctKeys(views) && forall j :: 0 <= j < |views| ==> SwatchKey(views[j]) == BubbleChoices[j].id
  {
    var views := BubbleViews();
    BubbleIdsVisible();
    forall j | 0 <= j < |views|
      ensures SwatchKey(views[j]) == BubbleChoices[j].id
    {
      RemoveSpacesVisible(BubbleChoices[j].id);
    }
  }

  /** After a bubble style is picked, reopening the palette marks that style's swatch and no other. */
  lemma BubblePaletteMarksPicked(k: nat)
    requires k < |BubbleChoices|
    ensures var ss := Swatches(BubbleViews(), BubbleCurrentKey(Some(SetBubbleStyle(Some(BubbleChoices[k])).storedId)));
      ss[k].isActive && forall j :: 0 <= j < |ss| && j != k ==> !ss[j].isActive
  {
    var key := BubbleChoices[k].id;
    BubbleIdsVisible();
    BubbleViewKeys();
    assert SetBubbleStyle(Some(BubbleChoices[k])).storedId == key;
    TrimOfTrimmed(key);
    assert BubbleCurrentKey(Some(key)) == key;
    MarksOnlyCurrent(BubbleViews(), k, key);
  }

  /** The name palette: its choices are the name colours, compared by the applied colour's key. */
  function NameViews(): seq<ChoiceView> {
    seq(|NameChoices|, k requires 0 <= k < |NameChoices| => NameView(NameChoices[k]))
  }

  /** The name palette's keys are the colours as written, and they are distinct. */
  lemma NameViewKeys()
    ensures var views := NameViews();
      DistinctKeys(views) && forall j :: 0 <= j < |views| ==> SwatchKey(views[j]) == NameChoices[j].value
  {
    var views := NameViews();
    NameChoicesVisible();
    NameValuesDistinct();
    forall j | 0 <= j < |views|
      ensures SwatchKey(views[j]) == NameChoices[j].value
    {
      assert NameChoices[j].value != [];
      RemoveSpacesVisible(NameChoices[j].value);
    }
  }

  /** After a name colour is picked, reopening the name palette marks that colour's swatch and no other. */
  lemma NamePaletteMarksPicked(k: nat)
    requires k < |NameChoices|
    ensures var ss := Swatches(NameViews(), NameKey(SetNameStyle(Some(NameChoices[k].value))));
      ss[k].isActive && forall j :: 0 <= j < |ss| && j != k ==> !ss[j].isActive
  {
    var v := NameChoices[k].value;
    NameChoicesVisible();
    NameViewKeys();
    assert SetNameStyle(Some(v)) == v by { assert v != []; }
    RemoveSpacesVisible(v);
    assert NameKey(v) == v;
    MarksOnlyCurrent(NameViews(), k, v);
  }

  // The open palette

  /** An open palette: the speaker it is for, its accessible label, its choices and swatches. */
  datatype Popup = Popup(which: string, ariaLabel: string, choices: seq<ChoiceView>, swatches: seq<Swatch>)

  /** The palettes attached to the document and the reference to the open one. */
  class PaletteHost {
    var active: Option<Popup>
    var attached: seq<Popup>

    /** The reference names exactly what is attached: nothing, or the one open palette. */
    predicate Valid()
      reads this
    {
      attached == if active.Some? then [active.value] else []
    }

    constructor()
      ensures Valid() && active == None
    {
      active := None;
      attached := [];
    }

    /** `closePalette`: detaches the open palette, if any, and forgets it. */
    method Close()
      requires Valid()
      modifies this
      ensures Valid() && active == None && attached == []
    {
      if active.None? {
        return;
      }
      attached := [];
      active := None;
    }

    /**
     * `openChoicePalette`: without an anchor button nothing happens; otherwise the open palette is
     * closed, the new one is built and attached, and becomes the open one.
     */
    method Open(anchorPresent: bool, which: string, ariaLabel: string, choices: seq<ChoiceView>, currentKey: string)
      requires Valid()
      modifies this
      ensures Valid()
      ensures !anchorPresent ==> active == old(active) && attached == old(attached)
      ensures anchorPresent ==> active == Some(Popup(which, ariaLabel, choices, Swatches(choices, currentKey)))
      ensures |attached| <= 1
    {
      if !anchorPresent {
        return;
      }
      Close();
      var swatches := BuildSwatches(choices, currentKey);
      var pal := Popup(which, ariaLabel, choices, swatches);
      attached := attached + [pal];
      active := Some(pal);
    }

    /** A swatch is pressed: its choice is handed back for the speaker, and the palette closes. */
    method Pick(k: nat) returns (which: string, choice: ChoiceView)
      requires Valid() && active.Some? && k < |active.value.choices|
      modifies this
      ensures which == old(active).value.which && choice == old(active).value.choices[k]
      ensures Valid() && active == None
    {
      which := active.value.which;
      choice := active.value.choices[k];
      Close();
    }

    /**
     * A press anywhere on the page: the open palette closes unless the press is inside it or on
     * one of the four style buttons.
     */
    method PointerDown(insidePalette: bool, onStyleButton: bool)
      requires Valid()
      modifies this
      ensures Valid()
      ensures old(active).Some? && !insidePalette && !onStyleButton ==> active == None
      ensures old(active).None? || insidePalette || onStyleButton ==> active == old(active)
    {
      if active.None? {
        return;
      }
      if !insidePalette && !onStyleButton {
        Close();
      }
    }

    /** A key press: Escape closes the open palette, any other key leaves it. */
    method KeyDown(key: string)
      requires Valid()
      modifies this
      ensures Valid()
      ensures key == "Escape" ==> active == None
      ensures key != "Escape" ==> active == old(active)
    {
      if key == "Escape" {
        Close();
      }
    }
  }
}
