/**
 * The theme preference: the theme id chosen with the emoji pills and the solid paper colour of
 * the "color" theme, both read back from storage with a default when missing or malformed.
 */
module ThemePrefs {
  import opened Wrappers
  import opened Strings

  /** Paper colour used when nothing valid is stored. */
  const DefaultThemeColor: string := "#f7f1e3"
  /** Theme id used when nothing is chosen; it is also the solid-colour theme. */
  const ColorTheme: string := "color"

  predicate IsHexDigit(c: char) {
    '0' <= c <= '9' || 'a' <= c <= 'f' || 'A' <= c <= 'F'
  }

  /** `/^#[0-9a-fA-F]{6}$/`. */
  predicate IsHexColor(s: string) {
    |s| == 7 && s[0] == '#' && forall i :: 1 <= i < 7 ==> IsHexDigit(s[i])
  }

  /** A colour in the canonical form the store keeps: `#rrggbb` in lower case. */
  predicate IsCanonicalColor(s: string) {
    |s| == 7 && s[0] == '#' && forall i :: 1 <= i < 7 ==> '0' <= s[i] <= '9' || 'a' <= s[i] <= 'f'
  }

  /**
   * `normalizeHex`: the trimmed input in lower case when it is a six-digit hex colour, the default
   * colour otherwise. The result is always canonical, and it is either the default or the input
   * itself up to surrounding white space and letter case.
   */
  function NormalizeHex(hex: string): (r: string)
    ensures IsCanonicalColor(r)
    ensures r == DefaultThemeColor || r == ToLowerAscii(Trim(hex))
    ensures IsHexColor(Trim(hex)) <==> r == ToLowerAscii(Trim(hex))
  {
    var s := Trim(hex);
    DefaultCanonical();
    LowerHex(s);
    if IsHexColor(s) then ToLowerAscii(s) else DefaultThemeColor
  }

  lemma DefaultCanonical()
    ensures IsCanonicalColor(DefaultThemeColor)
  {
  }

  /** Lower-casing neither makes nor unmakes a hex colour, and it makes a hex colour canonical. */
  lemma LowerHex(s: string)
    ensures IsHexColor(s) <==> IsHexColor(ToLowerAscii(s))
    ensures IsHexColor(s) ==> IsCanonicalColor(ToLowerAscii(s))
  {
  }

  lemma CanonicalIsHex(s: string)
    requires IsCanonicalColor(s)
    ensures IsHexColor(s) && IsTrimmed(s) && Trim(s) == s && ToLowerAscii(s) == s
  {
    TrimOfTrimmed(s);
  }

  /** A canonical colour is left as it is. */
  lemma NormalizeHexCanonical(s: string)
    requires IsCanonicalColor(s)
    ensures NormalizeHex(s) == s
  {
    CanonicalIsHex(s);
  }

  lemma NormalizeHexIdempotent(hex: string)
    ensures NormalizeHex(NormalizeHex(hex)) == NormalizeHex(hex)
  {
    NormalizeHexCanonical(NormalizeHex(hex));
  }

  /**
   * `getSavedThemeColor`: the stored colour normalised, the default when nothing (or the empty
   * string) is stored or storage cannot be read (`None`).
   */
  function SavedThemeColor(stored: Option<string>): (r: string)
    ensures IsCanonicalColor(r)
    ensures stored == None || stored == Some("") ==> r == DefaultThemeColor
    ensures stored.Some? && stored.value != [] ==> r == NormalizeHex(stored.value)
  {
    DefaultCanonical();
    NormalizeHexCanonical(DefaultThemeColor);
    NormalizeHex(if stored.Some? && stored.value != "" then stored.value else DefaultThemeColor)
  }

  /** `setSavedThemeColor`: the value written to storage, which is also the value returned. */
  function SaveThemeColor(hex: string): (stored: string)
    ensures IsCanonicalColor(stored)
    ensures IsHexColor(Trim(hex)) ==> stored == ToLowerAscii(Trim(hex))
    ensures !IsHexColor(Trim(hex)) ==> stored == DefaultThemeColor
  {
    NormalizeHex(hex)
  }

  /** What `setSavedThemeColor` writes, `getSavedThemeColor` reads back unchanged. */
  lemma SavedThemeColorRoundTrip(hex: string)
    ensures SavedThemeColor(Some(SaveThemeColor(hex))) == SaveThemeColor(hex)
  {
    NormalizeHexIdempotent(hex);
  }

  /** `(themeId || "color").trim() || "color"` as in `applyTheme` and `initTheme`. */
  function ThemeId(raw: string): (t: string)
    ensures t != [] && IsTrimmed(t)
    ensures AllSpace(raw) ==> t == ColorTheme
    ensures !AllSpace(raw) ==> t == Trim(raw)
  {
    TrimmedOr(raw, ColorTheme)
  }

  /** The theme id `initTheme` starts with: the stored one, "color" when missing or unreadable. */
  function StoredThemeId(stored: Option<string>): (t: string)
    ensures t != [] && IsTrimmed(t)
    ensures stored == None ==> t == ColorTheme
    ensures stored.Some? ==> t == ThemeId(stored.value)
  {
    ThemeId(stored.GetOr(""))
  }

  /** The page background after `applyTheme`. */
  datatype Paper =
    | Solid(color: string)  // --paperA/--paperB set to the colour, theme image switched off
    | ThemeDefault          // solid-colour overrides removed; the theme's own stylesheet applies

  /** The visible outcome of `applyTheme`: the active theme id (also written to storage) and the paper. */
  datatype AppliedTheme = AppliedTheme(theme: string, paper: Paper)

  /**
   * `applyTheme`: normalise the id; the "color" theme paints the saved colour, any other theme
   * clears the solid-colour overrides.
   */
  function ApplyTheme(themeId: string, storedColor: Option<string>): (a: AppliedTheme)
    ensures a.theme == ThemeId(themeId)
    ensures a.paper.Solid? <==> a.theme == ColorTheme
    ensures a.paper.Solid? ==> IsCanonicalColor(a.paper.color) && a.paper.color == SavedThemeColor(storedColor)
  {
    var t := ThemeId(themeId);
    AppliedTheme(t, if t == ColorTheme then Solid(SavedThemeColor(storedColor)) else ThemeDefault)
  }

  /** Re-applying the theme that is active changes nothing (the theme id that was stored reads back). */
  lemma ApplyThemeIdempotent(themeId: string, storedColor: Option<string>)
    ensures ApplyTheme(ApplyTheme(themeId, storedColor).theme, storedColor) == ApplyTheme(themeId, storedColor)
  {
    TrimmedOrIdempotent(themeId, ColorTheme);
  }
}
