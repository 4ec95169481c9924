/**
 * Per-speaker style preferences: the colour of the speaker's name and the style of the speaker's
 * bubbles, chosen from fixed palettes and read back from storage with fallbacks.
 */
module StylePrefs {
  import opened Wrappers
  import opened Strings

  datatype NameChoice = NameChoice(id: string, caption: string, value: string)

  /** `NAME_CHOICES`, in palette order. */
  const NameChoices: seq<NameChoice> := [
    NameChoice("neutral", "Neutral", "rgba(10,12,14,.82)"),
    NameChoice("dark_silver", "Dark silver", "#6f7782"),
    NameChoice("dark_blue", "Dark blue", "#003366"),
    NameChoice("teal", "Teal", "#008080"),
    NameChoice("dark_green", "Dark green", "#006400"),
    NameChoice("dark_indigo", "Dark indigo", "#4B0082"),
    NameChoice("gold_muted", "Gold muted", "#B8860B"),
    NameChoice("brown", "Brown", "#6B4E3D"),
    NameChoice("dark_red", "Dark red", "#8B0000"),
    NameChoice("crimson_rose", "Crimson rose", "#C2185B"),
    NameChoice("dusty_rose", "Dusty Rose", "#A65D6E"),
    NameChoice("ivory", "Ivory", "#8A7F6A")
  ]

  /** The colour `setNameStyle` falls back to when a choice has no value. */
  const DefaultNameColor: string := "rgba(10,12,14,.82)"

  datatype BubbleChoice = BubbleChoice(id: string, caption: string, bg: string, text: string, border: string, chip: string)

  /** `BUBBLE_CHOICES`, in palette order; the first is the default. */
  const BubbleChoices: seq<BubbleChoice> := [
    BubbleChoice("light", "Clair", "rgba(255,255,255,.62)", "rgba(10,12,14,.92)", "rgba(255,255,255,.55)", "rgba(255,255,255,.62)"),
    BubbleChoice("dark", "Sombre", "rgba(12,14,18,.72)", "rgba(255,255,255,.92)", "rgba(255,255,255,.14)", "rgba(12,14,18,.72)"),
    BubbleChoice("aqua", "Eau", "rgba(140,210,200,.08)", "rgba(10,12,14,.92)", "rgba(255,255,255,.55)", "rgba(140,210,200,.22)"),
    BubbleChoice("rose", "Rose", "rgba(235,170,190,.08)", "rgba(10,12,14,.92)", "rgba(255,255,255,.55)", "rgba(235,170,190,.22)")
  ]

  /** `BUBBLE_CHOICES.find((x) => x.id === id)`: the first choice with that id. */
  function FindBubble(choices: seq<BubbleChoice>, id: string): (r: Option<BubbleChoice>)
    ensures r.None? <==> forall k :: 0 <= k < |choices| ==> choices[k].id != id
    ensures r.Some? ==> exists k :: (0 <= k < |choices| && choices[k] == r.value && choices[k].id == id
      && forall j :: 0 <= j < k ==> choices[j].id != id)
  {
    if choices == [] then None
    else if choices[0].id == id then Some(choices[0])
    else
      var r := FindBubble(choices[1..], id);
      assert r.Some? ==> exists k :: (0 <= k < |choices[1..]| && choices[1..][k] == r.value && choices[1..][k].id == id
        && forall j :: 0 <= j < k ==> choices[1..][j].id != id);
      r
  }

  /**
   * The bubble style `initBubbleStyles` loads for one speaker: the stored id, "light" when nothing
   * is stored or storage cannot be read (`None`); an id that is not in the palette falls back to
   * the first choice.
   */
  function LoadBubbleStyle(stored: Option<string>): (c: BubbleChoice)
    ensures c in BubbleChoices
    ensures var saved := if stored.Some? && stored.value != "" then stored.value else "light";
      (exists k :: 0 <= k < |BubbleChoices| && BubbleChoices[k].id == saved) <==> c.id == saved
    ensures var saved := if stored.Some? && stored.value != "" then stored.value else "light";
      c.id != saved ==> c == BubbleChoices[0]
  {
    var saved := if stored.Some? && stored.value != "" then stored.value else "light";
    FindBubble(BubbleChoices, saved).GetOr(BubbleChoices[0])
  }

  /** The CSS variables and stored id `setBubbleStyle` writes for one speaker. */
  datatype BubbleStyle = BubbleStyle(bg: string, text: string, border: string, swatch: string, storedId: string)

  /** `setBubbleStyle`: an absent choice means the first palette entry; the button shows the chip colour. */
  function SetBubbleStyle(choice: Option<BubbleChoice>): (s: BubbleStyle)
    ensures var pick := choice.GetOr(BubbleChoices[0]);
      s.bg == pick.bg && s.text == pick.text && s.border == pick.border && s.storedId == pick.id
    ensures s.swatch == (var pick := choice.GetOr(BubbleChoices[0]); if pick.chip != "" then pick.chip else pick.bg)
  {
    var pick := choice.GetOr(BubbleChoices[0]);
    BubbleStyle(pick.bg, pick.text, pick.border, if pick.chip != "" then pick.chip else pick.bg, pick.id)
  }

  /** A palette pick that is saved is the style loaded on the next start. */
  lemma BubbleStyleRoundTrip(choice: Option<BubbleChoice>)
    requires choice.None? || choice.value in BubbleChoices
    ensures LoadBubbleStyle(Some(SetBubbleStyle(choice).storedId)) == choice.GetOr(BubbleChoices[0])
  {
    var pick := choice.GetOr(BubbleChoices[0]);
    var c := LoadBubbleStyle(Some(pick.id));
    assert c.id == pick.id;
    assert forall j, k :: 0 <= j < k < |BubbleChoices| ==> BubbleChoices[j].id != BubbleChoices[k].id;
  }

  /** `choices.find((c) => (c.value || "").replace(/\s+/g, "") === key)`. */
  function FindNameByKey(choices: seq<NameChoice>, key: string): (r: Option<NameChoice>)
    ensures r.None? <==> forall k :: 0 <= k < |choices| ==> RemoveSpaces(choices[k].value) != key
    ensures r.Some? ==> exists k :: (0 <= k < |choices| && choices[k] == r.value && RemoveSpaces(choices[k].value) == key
      && forall j :: 0 <= j < k ==> RemoveSpaces(choices[j].value) != key)
  {
    if choices == [] then None
    else if RemoveSpaces(choices[0].value) == key then Some(choices[0])
    else
      var r := FindNameByKey(choices[1..], key);
      assert forall k :: 1 <= k < |choices| ==> choices[k] == choices[1..][k - 1];
      assert r.Some? ==> exists k :: (0 <= k < |choices[1..]| && choices[1..][k] == r.value && RemoveSpaces(choices[1..][k].value) == key
        && forall j :: 0 <= j < k ==> RemoveSpaces(choices[1..][j].value) != key);
      r
  }

  /**
   * The name colour `initNameStyles` applies for one speaker. Blank or missing storage gives the
   * first palette colour; a stored colour that equals a palette colour once white space is removed
   * gives that palette colour; any other stored colour is applied as it was stored.
   */
  function LoadNameColor(stored: Option<string>): (col: string)
    ensures var saved := stored.GetOr("");
      RemoveSpaces(Trim(saved)) == [] ==> col == NameChoices[0].value
    ensures var saved := stored.GetOr("");
      RemoveSpaces(Trim(saved)) != [] ==> RemoveSpaces(col) == RemoveSpaces(saved)
    ensures var saved := stored.GetOr("");
      col == saved || exists k :: 0 <= k < |NameChoices| && col == NameChoices[k].value
    // A palette colour matching the stored one is applied in the palette's own spelling: the first
    // such colour; the stored spelling is kept only when no palette colour matches.
    ensures var cleaned := RemoveSpaces(Trim(stored.GetOr("")));
      cleaned != [] ==> forall k ::
        (0 <= k < |NameChoices| && RemoveSpaces(NameChoices[k].value) == cleaned
         && forall j :: 0 <= j < k ==> RemoveSpaces(NameChoices[j].value) != cleaned)
        ==> col == NameChoices[k].value
    ensures var saved := stored.GetOr(""); var cleaned := RemoveSpaces(Trim(saved));
      cleaned != [] && (forall k :: 0 <= k < |NameChoices| ==> RemoveSpaces(NameChoices[k].value) != cleaned) ==> col == saved
  {
    var saved := stored.GetOr("");
    var cleaned := RemoveSpaces(Trim(saved));
    RemoveSpacesTrim(saved);
    if cleaned == [] then NameChoices[0].value
    else
      match FindNameByKey(NameChoices, cleaned)
      case Some(c) => c.value
      case None => saved
  }

  /** `setNameStyle`: the colour applied and stored; a choice without a value uses the neutral colour. */
  function SetNameStyle(choice: Option<string>): (col: string)
    ensures col != []
    ensures choice.Some? && choice.value != [] ==> col == choice.value
    ensures choice.None? || choice.value == [] ==> col == DefaultNameColor
  {
    if choice.Some? && choice.value != [] then choice.value else DefaultNameColor
  }

  /** `currentNameKey`: the applied colour without white space, compared against each swatch's key. */
  function NameKey(col: string): (key: string)
    ensures key == RemoveSpaces(col)
  {
    RemoveSpacesTrim(col);
    RemoveSpaces(Trim(col))
  }

  /** Visible ASCII characters only: nothing for white-space removal to take away. */
  predicate IsVisibleAscii(s: string) {
    forall i :: 0 <= i < |s| ==> '!' <= s[i] <= '~'
  }

  lemma {:induction false} RemoveSpacesVisible(s: string)
    requires IsVisibleAscii(s)
    ensures RemoveSpaces(s) == s
    decreases |s|
  {
    if s != [] {
      RemoveSpacesVisible(s[1..]);
    }
  }

  lemma NameChoicesVisible()
    ensures forall k :: 0 <= k < |NameChoices| ==> IsVisibleAscii(NameChoices[k].value)
  {
  }

  /** No two name colours are spelled alike. */
  lemma NameValuesDistinct()
    ensures forall i, j :: 0 <= i < j < |NameChoices| ==> NameChoices[i].value != NameChoices[j].value
  {
  }

  /** A palette colour that is saved is the colour loaded on the next start. */
  lemma NameColorRoundTrip(k: nat)
    requires k < |NameChoices|
    ensures LoadNameColor(Some(SetNameStyle(Some(NameChoices[k].value)))) == NameChoices[k].value
  {
    var v := NameChoices[k].value;
    assert v != [];
    NameChoicesVisible();
    RemoveSpacesVisible(v);
    RemoveSpacesTrim(v);
    assert SetNameStyle(Some(v)) == v;
    var r := FindNameByKey(NameChoices, v);
    assert r.Some?;
    RemoveSpacesVisible(r.value.value);
    assert r.value.value == v;
  }
}
