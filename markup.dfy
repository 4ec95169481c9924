/**
 * The light markup used in bubbles: `**bold**`, `*italic*` and line breaks. Bubble text is
 * escaped and turned into HTML for display; rich text pasted into the input is walked as an HTML
 * tree and turned back into the light markup.
 */
module Markup {
  import opened Strings
  import opened Sequences

  // ---------------------------------------------------------------- escapeHTML

  /** `s.replace(/c/g, rep)` for a pattern that is one literal character. */
  function ReplaceChar(s: string, c: char, rep: string): string
  {
    if s == [] then [] else (if s[0] == c then rep else [s[0]]) + ReplaceChar(s[1..], c, rep)
  }

  lemma {:induction false} ReplaceCharConcat(a: string, b: string, c: char, rep: string)
    ensures ReplaceChar(a + b, c, rep) == ReplaceChar(a, c, rep) + ReplaceChar(b, c, rep)
    decreases |a|
  {
    if a == [] {
      assert a + b == b;
    } else {
      assert (a + b)[1..] == a[1..] + b;
      ReplaceCharConcat(a[1..], b, c, rep);
    }
  }

  /** A string in which `c` does not occur is left alone. */
  lemma {:induction false} ReplaceCharAbsent(s: string, c: char, rep: string)
    requires forall i :: 0 <= i < |s| ==> s[i] != c
    ensures ReplaceChar(s, c, rep) == s
    decreases |s|
  {
    if s != [] {
      ReplaceCharAbsent(s[1..], c, rep);
    }
  }

  /** After the replacement no `c` is left, provided the replacement text holds none. */
  lemma {:induction false} ReplaceCharRemoves(s: string, c: char, rep: string)
    requires forall i :: 0 <= i < |rep| ==> rep[i] != c
    ensures forall i :: 0 <= i < |ReplaceChar(s, c, rep)| ==> ReplaceChar(s, c, rep)[i] != c
    decreases |s|
  {
    if s != [] {
      ReplaceCharRemoves(s[1..], c, rep);
    }
  }

  /** The characters `escapeHTML` rewrites. */
  predicate IsHtmlSpecial(c: char) {
    c == '&' || c == '<' || c == '>' || c == '"' || c == '\''
  }

  /** The entity `escapeHTML` writes for one character. */
  function EscapeChar(c: char): string {
    if c == '&' then "&amp;"
    else if c == '<' then "&lt;"
    else if c == '>' then "&gt;"
    else if c == '"' then "&quot;"
    else if c == '\'' then "&#039;"
    else [c]
  }

  /** Reference definition of escaping: every character replaced by its entity, independently. */
  function EscapeEach(s: string): string {
    if s == [] then [] else EscapeChar(s[0]) + EscapeEach(s[1..])
  }

  /** `escapeHTML`: the five global replacements, in the source's order. */
  function EscapeHtml(s: string): string {
    ReplaceChar(ReplaceChar(ReplaceChar(ReplaceChar(ReplaceChar(
      s, '&', "&amp;"), '<', "&lt;"), '>', "&gt;"), '"', "&quot;"), '\'', "&#039;")
  }

  /**
   * The chain of replacements escapes each character on its own: `&` goes first, and no entity
   * holds a character that a later replacement rewrites, so nothing is escaped twice.
   */
  lemma {:induction false} EscapeHtmlCharwise(s: string)
    ensures EscapeHtml(s) == EscapeEach(s)
    decreases |s|
  {
    if s != [] {
      var c, rest := s[0], s[1..];
      assert s == [c] + rest;
      ReplaceCharConcat([c], rest, '&', "&amp;");
      var s1, r1 := ReplaceChar([c], '&', "&amp;"), ReplaceChar(rest, '&', "&amp;");
      ReplaceCharConcat(s1, r1, '<', "&lt;");
      var s2, r2 := ReplaceChar(s1, '<', "&lt;"), ReplaceChar(r1, '<', "&lt;");
      ReplaceCharConcat(s2, r2, '>', "&gt;");
      var s3, r3 := ReplaceChar(s2, '>', "&gt;"), ReplaceChar(r2, '>', "&gt;");
      ReplaceCharConcat(s3, r3, '"', "&quot;");
      var s4, r4 := ReplaceChar(s3, '"', "&quot;"), ReplaceChar(r3, '"', "&quot;");
      ReplaceCharConcat(s4, r4, '\'', "&#039;");
      EscapeHtmlCharwise(rest);
      EscapeOne(c);
    }
  }

  lemma ReplaceCharSingle(c: char, d: char, rep: string)
    ensures ReplaceChar([c], d, rep) == if c == d then rep else [c]
  {
    assert [c][1..] == [];
  }

  lemma EscapeOne(c: char)
    ensures EscapeHtml([c]) == EscapeChar(c)
  {
    ReplaceCharSingle(c, '&', "&amp;");
    if c == '&' {
      EscapeAfterAmp();
    } else {
      EscapeOneFrom2(c);
    }
  }

  lemma EscapeAfterAmp()
    ensures ReplaceChar(ReplaceChar(ReplaceChar(ReplaceChar("&amp;", '<', "&lt;"), '>', "&gt;"), '"', "&quot;"), '\'', "&#039;") == "&amp;"
  {
    var s1 := "&amp;";
    ReplaceCharAbsent(s1, '<', "&lt;");
    ReplaceCharAbsent(s1, '>', "&gt;");
    ReplaceCharAbsent(s1, '"', "&quot;");
    ReplaceCharAbsent(s1, '\'', "&#039;");
  }

  /** The last four passes on a character other than `&`. */
  lemma EscapeOneFrom2(c: char)
    requires c != '&'
    ensures ReplaceChar(ReplaceChar(ReplaceChar(ReplaceChar([c], '<', "&lt;"), '>', "&gt;"), '"', "&quot;"), '\'', "&#039;") == EscapeChar(c)
  {
    ReplaceCharSingle(c, '<', "&lt;");
    if c == '<' {
      var s2 := "&lt;";
      ReplaceCharAbsent(s2, '>', "&gt;");
      ReplaceCharAbsent(s2, '"', "&quot;");
      ReplaceCharAbsent(s2, '\'', "&#039;");
    } else {
      EscapeOneFrom3(c);
    }
  }

  /** The last three passes on a character other than `&` and `<`. */
  lemma EscapeOneFrom3(c: char)
    requires c != '&' && c != '<'
    ensures ReplaceChar(ReplaceChar(ReplaceChar([c], '>', "&gt;"), '"', "&quot;"), '\'', "&#039;") == EscapeChar(c)
  {
    ReplaceCharSingle(c, '>', "&gt;");
    if c == '>' {
      var s3 := "&gt;";
      ReplaceCharAbsent(s3, '"', "&quot;");
      ReplaceCharAbsent(s3, '\'', "&#039;");
    } else {
      ReplaceCharSingle(c, '"', "&quot;");
      if c == '"' {
        ReplaceCharAbsent("&quot;", '\'', "&#039;");
      } else {
        ReplaceCharSingle(c, '\'', "&#039;");
      }
    }
  }

  /** Escaped text holds no character that HTML would read as markup or as an attribute delimiter. */
  lemma EscapeHtmlSafe(s: string)
    ensures forall i :: 0 <= i < |EscapeHtml(s)| ==>
      (EscapeHtml(s)[i] != '<' && EscapeHtml(s)[i] != '>' && EscapeHtml(s)[i] != '"' && EscapeHtml(s)[i] != '\'')
  {
    var s1 := ReplaceChar(s, '&', "&amp;");
    var s2 := ReplaceChar(s1, '<', "&lt;");
    var s3 := ReplaceChar(s2, '>', "&gt;");
    var s4 := ReplaceChar(s3, '"', "&quot;");
    ReplaceCharRemoves(s1, '<', "&lt;");
    ReplaceCharKeepsAbsent(s2, '<', '>', "&gt;");
    ReplaceCharRemoves(s2, '>', "&gt;");
    ReplaceCharKeepsAbsent(s3, '<', '"', "&quot;");
    ReplaceCharKeepsAbsent(s3, '>', '"', "&quot;");
    ReplaceCharRemoves(s3, '"', "&quot;");
    ReplaceCharKeepsAbsent(s4, '<', '\'', "&#039;");
    ReplaceCharKeepsAbsent(s4, '>', '\'', "&#039;");
    ReplaceCharKeepsAbsent(s4, '"', '\'', "&#039;");
    ReplaceCharRemoves(s4, '\'', "&#039;");
  }

  /** Replacing `c` by a text without `d` introduces no `d`. */
  lemma {:induction false} ReplaceCharKeepsAbsent(s: string, d: char, c: char, rep: string)
    requires forall i :: 0 <= i < |s| ==> s[i] != d
    requires forall i :: 0 <= i < |rep| ==> rep[i] != d
    ensures forall i :: 0 <= i < |ReplaceChar(s, c, rep)| ==> ReplaceChar(s, c, rep)[i] != d
    decreases |s|
  {
    if s != [] {
      ReplaceCharKeepsAbsent(s[1..], d, c, rep);
    }
  }

  /** Decoding of the five entities `escapeHTML` writes; every other character stands for itself. */
  function Unescape(s: string): string
    decreases |s|
  {
    if s == [] then []
    else if |s| >= 5 && s[..5] == "&amp;" then "&" + Unescape(s[5..])
    else if |s| >= 4 && s[..4] == "&lt;" then "<" + Unescape(s[4..])
    else if |s| >= 4 && s[..4] == "&gt;" then ">" + Unescape(s[4..])
    else if |s| >= 6 && s[..6] == "&quot;" then "\"" + Unescape(s[6..])
    else if |s| >= 6 && s[..6] == "&#039;" then "'" + Unescape(s[6..])
    else [s[0]] + Unescape(s[1..])
  }

  /** Escaping loses nothing: the displayed text is the bubble text. */
  lemma {:induction false} EscapeRoundTrip(s: string)
    ensures Unescape(EscapeHtml(s)) == s
  {
    EscapeHtmlCharwise(s);
    EscapeEachRoundTrip(s);
  }

  lemma {:induction false} EscapeEachRoundTrip(s: string)
    ensures Unescape(EscapeEach(s)) == s
    decreases |s|
  {
    if s != [] {
      EscapeEachRoundTrip(s[1..]);
      UnescapeEntity(s[0], EscapeEach(s[1..]));
      assert s == [s[0]] + s[1..];
    }
  }

  /** Decoding reads back the entity of one character, whatever follows it. */
  lemma UnescapeEntity(c: char, rest: string)
    ensures Unescape(EscapeChar(c) + rest) == [c] + Unescape(rest)
  {
    if c == '&' {
      UnescapeAmp(rest);
    } else if c == '<' {
      UnescapeLt(rest);
    } else if c == '>' {
      UnescapeGt(rest);
    } else if c == '"' {
      UnescapeQuot(rest);
    } else if c == '\'' {
      UnescapeApos(rest);
    } else {
      var t := [c] + rest;
      assert t[0] == c && t[1..] == rest;
      assert |t| < 4 || (t[..4] != "&lt;" && t[..4] != "&gt;") by {
        if |t| >= 4 { assert t[..4][0] == c; }
      }
      assert |t| < 5 || t[..5] != "&amp;" by {
        if |t| >= 5 { assert t[..5][0] == c; }
      }
      assert |t| < 6 || (t[..6] != "&quot;" && t[..6] != "&#039;") by {
        if |t| >= 6 { assert t[..6][0] == c; }
      }
    }
  }

  lemma UnescapeAmp(rest: string)
    ensures Unescape("&amp;" + rest) == "&" + Unescape(rest)
  {
    var t := "&amp;" + rest;
    assert t[..5] == "&amp;" && t[5..] == rest;
  }

  lemma UnescapeLt(rest: string)
    ensures Unescape("&lt;" + rest) == "<" + Unescape(rest)
  {
    var t := "&lt;" + rest;
    assert t[..4] == "&lt;" && t[4..] == rest;
    assert |t| < 5 || t[..5] != "&amp;" by {
      if |t| >= 5 { assert t[..5][1] == 'l'; }
    }
  }

  lemma UnescapeGt(rest: string)
    ensures Unescape("&gt;" + rest) == ">" + Unescape(rest)
  {
    var t := "&gt;" + rest;
    assert t[..4] == "&gt;" && t[4..] == rest;
    assert |t| < 5 || t[..5] != "&amp;" by {
      if |t| >= 5 { assert t[..5][1] == 'g'; }
    }
    assert t[..4] != "&lt;" by { assert t[..4][1] == 'g'; }
  }

  lemma UnescapeQuot(rest: string)
    ensures Unescape("&quot;" + rest) == "\"" + Unescape(rest)
  {
    var t := "&quot;" + rest;
    assert t[..6] == "&quot;" && t[6..] == rest;
    assert t[..5] != "&amp;" by { assert t[..5][1] == 'q'; }
    assert t[..4] != "&lt;" && t[..4] != "&gt;" by { assert t[..4][1] == 'q'; }
  }

  lemma UnescapeApos(rest: string)
    ensures Unescape("&#039;" + rest) == "'" + Unescape(rest)
  {
    var t := "&#039;" + rest;
    assert t[..6] == "&#039;" && t[6..] == rest;
    assert t[..5] != "&amp;" by { assert t[..5][1] == '#'; }
    assert t[..4] != "&lt;" && t[..4] != "&gt;" by { assert t[..4][1] == '#'; }
    assert t[..6] != "&quot;" by { assert t[..6][1] == '#'; }
  }

  // ---------------------------------------------------------------- renderLightMarkdown

  predicate NoStar(s: string) {
    forall i :: 0 <= i < |s| ==> s[i] != '*'
  }

  /** Index of the first `*` in `s`, or `|s|` when there is none. */
  function StarIndex(s: string): (j: nat)
    ensures j <= |s| && (j < |s| ==> s[j] == '*') && NoStar(s[..j])
  {
    if s == [] || s[0] == '*' then 0
    else
      var j := 1 + StarIndex(s[1..]);
      assert s[..j] == [s[0]] + s[1..][..j - 1];
      j
  }

  // `s.replace(/\*\*([^*]+)\*\*/g, "<strong>$1</strong>")`: scanning from the left, `**` followed by
  // one or more characters other than `*` and then `**` becomes a strong element; the scan goes on
  // after the closing `**`. Where no match starts, one character is copied.
  function ReplaceBold(s: string): string
    decreases |s|
  {
    if s == [] then []
    else if |s| >= 2 && s[0] == '*' && s[1] == '*' then
      var t := s[2..];
      var j := StarIndex(t);
      if 0 < j && j + 1 < |t| && t[j + 1] == '*' then "<strong>" + t[..j] + "</strong>" + ReplaceBold(t[j + 2..])
      else [s[0]] + ReplaceBold(s[1..])
    else [s[0]] + ReplaceBold(s[1..])
  }

  // `s.replace(/\*([^*]+)\*/g, "<em>$1</em>")`, scanned the same way.
  function ReplaceItalic(s: string): string
    decreases |s|
  {
    if s == [] then []
    else if s[0] == '*' then
      var t := s[1..];
      var j := StarIndex(t);
      if 0 < j && j < |t| then "<em>" + t[..j] + "</em>" + ReplaceItalic(t[j + 1..])
      else [s[0]] + ReplaceItalic(s[1..])
    else [s[0]] + ReplaceItalic(s[1..])
  }

  /** `renderLightMarkdown`: escape, then bold, then italic, then line breaks. */
  function RenderLightMarkdown(text: string): (html: string)
    ensures forall i :: 0 <= i < |html| ==> html[i] != '\n'
  {
    var s := ReplaceItalic(ReplaceBold(EscapeHtml(text)));
    ReplaceCharRemoves(s, '\n', "<br>");
    ReplaceChar(s, '\n', "<br>")
  }

  lemma {:induction false} ReplaceBoldNoStar(s: string)
    requires NoStar(s)
    ensures ReplaceBold(s) == s
    decreases |s|
  {
    if s != [] {
      ReplaceBoldNoStar(s[1..]);
    }
  }

  lemma {:induction false} ReplaceItalicNoStar(s: string)
    requires NoStar(s)
    ensures ReplaceItalic(s) == s
    decreases |s|
  {
    if s != [] {
      ReplaceItalicNoStar(s[1..]);
    }
  }

  lemma {:induction false} ReplaceCharNoStar(s: string, c: char, rep: string)
    requires NoStar(s) && NoStar(rep)
    ensures NoStar(ReplaceChar(s, c, rep))
    decreases |s|
  {
    if s != [] {
      ReplaceCharNoStar(s[1..], c, rep);
    }
  }

  /** Escaping neither adds nor removes a `*`. */
  lemma EscapeHtmlNoStar(s: string)
    requires NoStar(s)
    ensures NoStar(EscapeHtml(s))
  {
    var s1 := ReplaceChar(s, '&', "&amp;");
    var s2 := ReplaceChar(s1, '<', "&lt;");
    var s3 := ReplaceChar(s2, '>', "&gt;");
    var s4 := ReplaceChar(s3, '"', "&quot;");
    ReplaceCharNoStar(s, '&', "&amp;");
    ReplaceCharNoStar(s1, '<', "&lt;");
    ReplaceCharNoStar(s2, '>', "&gt;");
    ReplaceCharNoStar(s3, '"', "&quot;");
    ReplaceCharNoStar(s4, '\'', "&#039;");
  }

  lemma EscapeHtmlConcat(a: string, b: string)
    ensures EscapeHtml(a + b) == EscapeHtml(a) + EscapeHtml(b)
  {
    EscapeHtmlCharwise(a + b);
    EscapeHtmlCharwise(a);
    EscapeHtmlCharwise(b);
    EscapeEachConcat(a, b);
  }

  lemma {:induction false} EscapeEachConcat(a: string, b: string)
    ensures EscapeEach(a + b) == EscapeEach(a) + EscapeEach(b)
    decreases |a|
  {
    if a == [] {
      assert a + b == b;
    } else {
      assert (a + b)[1..] == a[1..] + b;
      EscapeEachConcat(a[1..], b);
    }
  }

  /** Text without `*` is only escaped, with its line breaks turned into `<br>`. */
  lemma RenderPlain(text: string)
    requires NoStar(text)
    ensures RenderLightMarkdown(text) == ReplaceChar(EscapeHtml(text), '\n', "<br>")
  {
    EscapeHtmlNoStar(text);
    ReplaceBoldNoStar(EscapeHtml(text));
    ReplaceItalicNoStar(EscapeHtml(text));
  }

  /** Escaping leaves the stars around a text in place. */
  lemma EscapeWrapped(w: string, t: string)
    requires w == "*" || w == "**"
    ensures EscapeHtml(w + t + w) == w + EscapeHtml(t) + w
  {
    EscapeHtmlConcat(w, t);
    EscapeHtmlConcat(w + t, w);
    EscapeHtmlCharwise(w);
    assert EscapeEach("*") == "*" by { assert "*"[1..] == []; }
    assert EscapeEach(w) == w by {
      if w == "**" { assert w[1..] == "*"; }
    }
  }

  /** The first star of `e + rest` is the one that starts `rest`. */
  lemma {:induction false} StarIndexAfter(e: string, rest: string)
    requires NoStar(e) && rest != [] && rest[0] == '*'
    ensures StarIndex(e + rest) == |e|
    decreases |e|
  {
    if e != [] {
      assert (e + rest)[1..] == e[1..] + rest;
      StarIndexAfter(e[1..], rest);
    }
  }

  lemma BoldOfEscaped(e: string)
    requires e != [] && NoStar(e)
    ensures ReplaceBold("**" + e + "**") == "<strong>" + e + "</strong>"
  {
    var s := "**" + e + "**";
    var u := s[2..];
    assert u == e + "**";
    assert u[..|e|] == e;
    StarIndexAfter(e, "**");
    assert u[|e| + 2..] == [];
  }

  lemma ItalicOfEscaped(e: string)
    requires e != [] && NoStar(e)
    ensures ReplaceBold("*" + e + "*") == "*" + e + "*"
    ensures ReplaceItalic("*" + e + "*") == "<em>" + e + "</em>"
  {
    var s := "*" + e + "*";
    assert forall i :: 0 <= i < |s| - 1 ==> !(s[i] == '*' && s[i + 1] == '*') by {
      forall i | 0 <= i < |s| - 1 ensures !(s[i] == '*' && s[i + 1] == '*') {
        if i == 0 { assert s[1] == e[0]; } else { assert s[i] == e[i - 1]; }
      }
    }
    ReplaceBoldSingleStars(s);
    var u := s[1..];
    assert u == e + "*";
    assert u[..|e|] == e;
    StarIndexAfter(e, "*");
    assert u[|e| + 1..] == [];
  }

  /** No star and no line break: what the bold, italic and line-break passes leave alone. */
  predicate Plain(s: string) {
    NoStar(s) && forall i :: 0 <= i < |s| ==> s[i] != '\n'
  }

  lemma PlainConcat(a: string, b: string, c: string)
    requires Plain(a) && Plain(b) && Plain(c)
    ensures Plain(a + b + c)
  {
    var h := a + b + c;
    assert forall i :: 0 <= i < |h| ==> h[i] in a || h[i] in b || h[i] in c;
  }

  /** The four passes of `renderLightMarkdown`, one at a time. */
  lemma RenderVia(text: string, escaped: string, bold: string, h: string)
    requires EscapeHtml(text) == escaped && ReplaceBold(escaped) == bold && ReplaceItalic(bold) == h
    requires forall i :: 0 <= i < |h| ==> h[i] != '\n'
    ensures RenderLightMarkdown(text) == h
  {
    ReplaceCharAbsent(h, '\n', "<br>");
  }

  /** Escaping non-empty plain text gives non-empty plain text. */
  lemma EscapedPlain(t: string)
    requires t != [] && Plain(t)
    ensures EscapeHtml(t) != [] && Plain(EscapeHtml(t))
  {
    EscapeHtmlNoStar(t);
    EscapeNoNewline(t);
    EscapeHtmlCharwise(t);
  }

  lemma TagsPlain()
    ensures Plain("<strong>") && Plain("</strong>") && Plain("<em>") && Plain("</em>")
  {
  }

  /** The passes applied to `**t**`: the stars survive escaping, become a strong element, and the rest is plain. */
  lemma BoldPasses(t: string)
    requires t != [] && Plain(t)
    ensures var e := EscapeHtml(t);
      EscapeHtml("**" + t + "**") == "**" + e + "**"
      && ReplaceBold("**" + e + "**") == "<strong>" + e + "</strong>"
      && Plain("<strong>" + e + "</strong>")
  {
    var e := EscapeHtml(t);
    EscapeWrapped("**", t);
    assert Plain(e) by { EscapedPlain(t); }
    BoldOfEscaped(e);
    TagsPlain();
    PlainConcat("<strong>", e, "</strong>");
  }

  /** The passes applied to `*t*`: the stars survive escaping and the bold pass, then become an emphasis element. */
  lemma ItalicPasses(t: string)
    requires t != [] && Plain(t)
    ensures var e := EscapeHtml(t);
      EscapeHtml("*" + t + "*") == "*" + e + "*"
      && ReplaceBold("*" + e + "*") == "*" + e + "*"
      && ReplaceItalic("*" + e + "*") == "<em>" + e + "</em>"
      && Plain("<em>" + e + "</em>")
  {
    var e := EscapeHtml(t);
    EscapeWrapped("*", t);
    assert Plain(e) by { EscapedPlain(t); }
    ItalicOfEscaped(e);
    TagsPlain();
    PlainConcat("<em>", e, "</em>");
  }

  /** `**t**` renders as a strong element around the escaped text. */
  lemma RenderBold(t: string)
    requires t != [] && NoStar(t) && forall i :: 0 <= i < |t| ==> t[i] != '\n'
    ensures RenderLightMarkdown("**" + t + "**") == "<strong>" + EscapeHtml(t) + "</strong>"
  {
    var e := EscapeHtml(t);
    var h := "<strong>" + e + "</strong>";
    BoldPasses(t);
    ReplaceItalicNoStar(h);
    RenderVia("**" + t + "**", "**" + e + "**", h, h);
  }

  /** `*t*` renders as an emphasis element around the escaped text. */
  lemma RenderItalic(t: string)
    requires t != [] && NoStar(t) && forall i :: 0 <= i < |t| ==> t[i] != '\n'
    ensures RenderLightMarkdown("*" + t + "*") == "<em>" + EscapeHtml(t) + "</em>"
  {
    var e := EscapeHtml(t);
    ItalicPasses(t);
    RenderVia("*" + t + "*", "*" + e + "*", "*" + e + "*", "<em>" + e + "</em>");
  }

  // What the rendered HTML can contain. Bubble text is escaped before the bold, italic and
  // line-break passes, so every `<` in the result opens one of the tags these passes insert: the
  // text of a bubble cannot add elements or attributes of its own.

  /** The tags `renderLightMarkdown` inserts. */
  const InsertedTags: seq<string> := ["<br>", "<strong>", "</strong>", "<em>", "</em>"]

  predicate StartsWith(s: string, p: string) {
    |p| <= |s| && s[..|p|] == p
  }

  predicate OpensTag(s: string) {
    exists k :: 0 <= k < |InsertedTags| && StartsWith(s, InsertedTags[k])
  }

  /** Every `<` in `s` opens one of the inserted tags. */
  predicate OnlyInsertedTags(s: string) {
    forall i :: 0 <= i < |s| && s[i] == '<' ==> OpensTag(s[i..])
  }

  /** Each inserted tag has no star and no line feed, and opens itself. */
  lemma InsertedTagFacts(k: nat)
    requires k < |InsertedTags|
    ensures var t := InsertedTags[k];
      t != [] && t[0] == '<' && Plain(t) && OnlyInsertedTags(t)
  {
    var t := InsertedTags[k];
    assert StartsWith(t[0..], InsertedTags[k]);
    assert forall i :: 1 <= i < |t| ==> t[i] != '<';
  }

  lemma OnlyInsertedTagsConcat(a: string, b: string)
    requires OnlyInsertedTags(a) && OnlyInsertedTags(b)
    ensures OnlyInsertedTags(a + b)
  {
    var s := a + b;
    forall i | 0 <= i < |s| && s[i] == '<'
      ensures OpensTag(s[i..])
    {
      if i < |a| {
        assert a[i] == '<';
        var k :| 0 <= k < |InsertedTags| && StartsWith(a[i..], InsertedTags[k]);
        var n := |InsertedTags[k]|;
        assert s[i..][..n] == a[i..][..n];
        assert StartsWith(s[i..], InsertedTags[k]);
      } else {
        assert s[i..] == b[i - |a|..];
        assert b[i - |a|] == '<';
      }
    }
  }

  lemma OnlyInsertedTagsSuffix(s: string, n: nat)
    requires OnlyInsertedTags(s) && n <= |s|
    ensures OnlyInsertedTags(s[n..])
  {
    forall i | 0 <= i < |s[n..]| && s[n..][i] == '<'
      ensures OpensTag(s[n..][i..])
    {
      assert s[n..][i..] == s[n + i..];
      assert s[n + i] == '<';
    }
  }

  /** Cutting just before a star never splits a tag, since no tag holds a star. */
  lemma OnlyInsertedTagsCut(s: string, j: nat)
    requires OnlyInsertedTags(s) && j < |s| && s[j] == '*'
    ensures OnlyInsertedTags(s[..j])
  {
    var u := s[..j];
    forall i | 0 <= i < |u| && u[i] == '<'
      ensures OpensTag(u[i..])
    {
      assert s[i] == '<';
      var k :| 0 <= k < |InsertedTags| && StartsWith(s[i..], InsertedTags[k]);
      var t := InsertedTags[k];
      InsertedTagFacts(k);
      assert forall m :: i <= m < i + |t| ==> s[m] == t[m - i];
      assert i + |t| <= j;
      assert u[i..][..|t|] == s[i..][..|t|];
    }
  }

  lemma OnlyInsertedTagsWrap(k: nat, mid: string, m: nat, rest: string)
    requires k < |InsertedTags| && m < |InsertedTags|
    requires OnlyInsertedTags(mid) && OnlyInsertedTags(rest)
    ensures OnlyInsertedTags(InsertedTags[k] + mid + InsertedTags[m] + rest)
  {
    InsertedTagFacts(k);
    InsertedTagFacts(m);
    OnlyInsertedTagsConcat(InsertedTags[k], mid);
    OnlyInsertedTagsConcat(InsertedTags[k] + mid, InsertedTags[m]);
    OnlyInsertedTagsConcat(InsertedTags[k] + mid + InsertedTags[m], rest);
  }

  lemma OnlyInsertedTagsCons(c: char, rest: string)
    requires c != '<' && OnlyInsertedTags(rest)
    ensures OnlyInsertedTags([c] + rest)
  {
    OnlyInsertedTagsConcat([c], rest);
  }

  /** A text that starts with a tag is that tag followed by the rest. */
  lemma OpensTagSplit(s: string) returns (k: nat)
    requires OpensTag(s)
    ensures k < |InsertedTags| && |InsertedTags[k]| <= |s| && s == InsertedTags[k] + s[|InsertedTags[k]|..]
  {
    k :| 0 <= k < |InsertedTags| && StartsWith(s, InsertedTags[k]);
    assert s == s[..|InsertedTags[k]|] + s[|InsertedTags[k]|..];
  }

  lemma {:induction false} ReplaceBoldCopies(p: string, rest: string)
    requires NoStar(p)
    ensures ReplaceBold(p + rest) == p + ReplaceBold(rest)
    decreases |p|
  {
    if p != [] {
      var q := p + rest;
      assert q[0] == p[0] && p[0] != '*';
      assert q[1..] == p[1..] + rest;
      assert ReplaceBold(q) == [p[0]] + ReplaceBold(q[1..]);
      assert NoStar(p[1..]);
      ReplaceBoldCopies(p[1..], rest);
      assert p + ReplaceBold(rest) == [p[0]] + (p[1..] + ReplaceBold(rest));
    } else {
      assert p + rest == rest;
    }
  }

  lemma {:induction false} ReplaceItalicCopies(p: string, rest: string)
    requires NoStar(p)
    ensures ReplaceItalic(p + rest) == p + ReplaceItalic(rest)
    decreases |p|
  {
    if p != [] {
      var q := p + rest;
      assert q[0] == p[0] && p[0] != '*';
      assert q[1..] == p[1..] + rest;
      assert ReplaceItalic(q) == [p[0]] + ReplaceItalic(q[1..]);
      assert NoStar(p[1..]);
      ReplaceItalicCopies(p[1..], rest);
      assert p + ReplaceItalic(rest) == [p[0]] + (p[1..] + ReplaceItalic(rest));
    } else {
      assert p + rest == rest;
    }
  }

  lemma {:induction false} ReplaceBoldKeepsTags(s: string)
    requires OnlyInsertedTags(s)
    ensures OnlyInsertedTags(ReplaceBold(s))
    decreases |s|
  {
    if s == [] {
    } else if s[0] == '<' {
      var k := OpensTagSplit(s);
      var n := |InsertedTags[k]|;
      InsertedTagFacts(k);
      OnlyInsertedTagsSuffix(s, n);
      ReplaceBoldKeepsTags(s[n..]);
      ReplaceBoldCopies(InsertedTags[k], s[n..]);
      OnlyInsertedTagsConcat(InsertedTags[k], ReplaceBold(s[n..]));
    } else if |s| >= 2 && s[0] == '*' && s[1] == '*' && 0 < StarIndex(s[2..]) && StarIndex(s[2..]) + 1 < |s[2..]|
        && s[2..][StarIndex(s[2..]) + 1] == '*' {
      var t := s[2..];
      var j := StarIndex(t);
      OnlyInsertedTagsSuffix(s, 2);
      OnlyInsertedTagsCut(t, j);
      OnlyInsertedTagsSuffix(t, j + 2);
      ReplaceBoldKeepsTags(t[j + 2..]);
      OnlyInsertedTagsWrap(1, t[..j], 2, ReplaceBold(t[j + 2..]));
    } else {
      OnlyInsertedTagsSuffix(s, 1);
      ReplaceBoldKeepsTags(s[1..]);
      OnlyInsertedTagsCons(s[0], ReplaceBold(s[1..]));
    }
  }

  lemma {:induction false} ReplaceItalicKeepsTags(s: string)
    requires OnlyInsertedTags(s)
    ensures OnlyInsertedTags(ReplaceItalic(s))
    decreases |s|
  {
    if s == [] {
    } else if s[0] == '<' {
      var k := OpensTagSplit(s);
      var n := |InsertedTags[k]|;
      InsertedTagFacts(k);
      OnlyInsertedTagsSuffix(s, n);
      ReplaceItalicKeepsTags(s[n..]);
      ReplaceItalicCopies(InsertedTags[k], s[n..]);
      OnlyInsertedTagsConcat(InsertedTags[k], ReplaceItalic(s[n..]));
    } else if s[0] == '*' && 0 < StarIndex(s[1..]) < |s[1..]| {
      var t := s[1..];
      var j := StarIndex(t);
      OnlyInsertedTagsSuffix(s, 1);
      OnlyInsertedTagsCut(t, j);
      OnlyInsertedTagsSuffix(t, j + 1);
      ReplaceItalicKeepsTags(t[j + 1..]);
      OnlyInsertedTagsWrap(3, t[..j], 4, ReplaceItalic(t[j + 1..]));
    } else {
      OnlyInsertedTagsSuffix(s, 1);
      ReplaceItalicKeepsTags(s[1..]);
      OnlyInsertedTagsCons(s[0], ReplaceItalic(s[1..]));
    }
  }

  lemma {:induction false} LineBreaksKeepTags(s: string)
    requires OnlyInsertedTags(s)
    ensures OnlyInsertedTags(ReplaceChar(s, '\n', "<br>"))
    decreases |s|
  {
    if s == [] {
    } else if s[0] == '<' {
      var k := OpensTagSplit(s);
      var t := InsertedTags[k];
      InsertedTagFacts(k);
      OnlyInsertedTagsSuffix(s, |t|);
      LineBreaksKeepTags(s[|t|..]);
      ReplaceCharConcat(t, s[|t|..], '\n', "<br>");
      ReplaceCharAbsent(t, '\n', "<br>");
      OnlyInsertedTagsConcat(t, ReplaceChar(s[|t|..], '\n', "<br>"));
    } else {
      OnlyInsertedTagsSuffix(s, 1);
      LineBreaksKeepTags(s[1..]);
      if s[0] == '\n' {
        InsertedTagFacts(0);
        OnlyInsertedTagsConcat(InsertedTags[0], ReplaceChar(s[1..], '\n', "<br>"));
      } else {
        OnlyInsertedTagsCons(s[0], ReplaceChar(s[1..], '\n', "<br>"));
      }
    }
  }

  /**
   * For every text, each `<` in the rendered HTML opens `<br>`, `<strong>`, `</strong>`, `<em>` or
   * `</em>`: escaping leaves no `<` of the text's own, and the three passes only insert these tags.
   */
  lemma RenderInsertsOnlyTags(text: string)
    ensures OnlyInsertedTags(RenderLightMarkdown(text))
  {
    var e := EscapeHtml(text);
    EscapeHtmlSafe(text);
    assert OnlyInsertedTags(e);
    ReplaceBoldKeepsTags(e);
    ReplaceItalicKeepsTags(ReplaceBold(e));
    LineBreaksKeepTags(ReplaceItalic(ReplaceBold(e)));
  }

  /** Without two adjacent stars the bold pass changes nothing. */
  lemma {:induction false} ReplaceBoldSingleStars(s: string)
    requires forall i :: 0 <= i < |s| - 1 ==> !(s[i] == '*' && s[i + 1] == '*')
    ensures ReplaceBold(s) == s
    decreases |s|
  {
    if s != [] {
      ReplaceBoldSingleStars(s[1..]);
    }
  }

  lemma EscapeNoNewline(t: string)
    requires forall i :: 0 <= i < |t| ==> t[i] != '\n'
    ensures forall i :: 0 <= i < |EscapeHtml(t)| ==> EscapeHtml(t)[i] != '\n'
  {
    EscapeHtmlCharwise(t);
    EscapeEachKeepsAbsent(t, '\n');
  }

  lemma {:induction false} EscapeEachKeepsAbsent(t: string, d: char)
    requires forall i :: 0 <= i < |t| ==> t[i] != d
    requires d != '&' && d != 'a' && d != 'm' && d != 'p' && d != ';' && d != 'l' && d != 't' && d != 'g'
      && d != 'q' && d != 'u' && d != 'o' && d != '#' && d != '0' && d != '3' && d != '9'
    ensures forall i :: 0 <= i < |EscapeEach(t)| ==> EscapeEach(t)[i] != d
    decreases |t|
  {
    if t != [] {
      EscapeEachKeepsAbsent(t[1..], d);
    }
  }

  // ---------------------------------------------------------------- htmlToLightMarkdown

  /** A node of the parsed clipboard document: text, an element, or anything else (a comment, say). */
  datatype Node = Text(value: string) | Element(tag: string, children: seq<Node>) | OtherNode

  /** Tags whose content ends with a blank line. */
  predicate IsBlockTag(t: string) {
    t == "p" || t == "div" || t == "section" || t == "article"
  }

  /** What the walk pushes for one node, in order (the tag name compared in lower case). */
  function Emit(n: Node): seq<string>
    decreases n, 1
  {
    match n
    case Text(v) => [v]
    case OtherNode => []
    case Element(tag, kids) =>
      var t := ToLowerAscii(tag);
      if t == "br" then ["\n"]
      else if t == "strong" || t == "b" then ["**"] + EmitAll(kids) + ["**"]
      else if t == "em" || t == "i" then ["*"] + EmitAll(kids) + ["*"]
      else if IsBlockTag(t) then EmitAll(kids) + ["\n\n"]
      else EmitAll(kids)
  }

  /** What the walk pushes for a list of sibling nodes. */
  function EmitAll(ns: seq<Node>): seq<string>
    decreases ns, 0
  {
    if ns == [] then [] else EmitAll(ns[..|ns| - 1]) + Emit(ns[|ns| - 1])
  }

  /** `walk`: appends to `out` what one node contributes. */
  method Walk(node: Node, out: seq<string>) returns (out': seq<string>)
    ensures out' == out + Emit(node)
    decreases node, 1
  {
    match node {
      case Text(v) =>
        out' := out + [v];
      case OtherNode =>
        out' := out;
      case Element(tag, kids) =>
        var t := ToLowerAscii(tag);
        if t == "br" {
          out' := out + ["\n"];
        } else if t == "strong" || t == "b" {
          out' := WalkChildren(kids, out + ["**"]);
          out' := out' + ["**"];
        } else if t == "em" || t == "i" {
          out' := WalkChildren(kids, out + ["*"]);
          out' := out' + ["*"];
        } else if IsBlockTag(t) {
          out' := WalkChildren(kids, out);
          out' := out' + ["\n\n"];
        } else {
          out' := WalkChildren(kids, out);
        }
    }
  }

  /** `[...node.childNodes].forEach(walk)`. */
  method WalkChildren(kids: seq<Node>, out: seq<string>) returns (out': seq<string>)
    ensures out' == out + EmitAll(kids)
    decreases kids, 0
  {
    out' := out;
    for i := 0 to |kids|
      invariant out' == out + EmitAll(kids[..i])
    {
      assert kids[..i + 1][..i] == kids[..i];
      out' := Walk(kids[i], out');
    }
    assert kids[..|kids|] == kids;
  }

  /** `s.replace(/\r\n/g, "\n")`. */
  function ReplaceCrlf(s: string): string
    decreases |s|
  {
    if s == [] then []
    else if |s| >= 2 && s[0] == '\r' && s[1] == '\n' then "\n" + ReplaceCrlf(s[2..])
    else [s[0]] + ReplaceCrlf(s[1..])
  }

  predicate IsBlank(c: char) {
    c == ' ' || c == '\t'
  }

  /** Number of spaces and tabs at the start of `s`. */
  function BlankRun(s: string): (n: nat)
    ensures n <= |s| && (n < |s| ==> !IsBlank(s[n])) && forall i :: 0 <= i < n ==> IsBlank(s[i])
  {
    if s != [] && IsBlank(s[0]) then 1 + BlankRun(s[1..]) else 0
  }

  /** `s.replace(/[ \t]+\n/g, "\n")`: spaces and tabs at the end of a line are dropped. */
  function StripLineEnds(s: string): string
    decreases |s|
  {
    if s == [] then []
    else
      var n := BlankRun(s);
      if n == 0 then [s[0]] + StripLineEnds(s[1..])
      else if n < |s| && s[n] == '\n' then "\n" + StripLineEnds(s[n + 1..])
      else s[..n] + StripLineEnds(s[n..])
  }

  /** Number of line feeds at the start of `s`. */
  function NewlineRun(s: string): (n: nat)
    ensures n <= |s| && (n < |s| ==> s[n] != '\n') && forall i :: 0 <= i < n ==> s[i] == '\n'
  {
    if s != [] && s[0] == '\n' then 1 + NewlineRun(s[1..]) else 0
  }

  /** `s.replace(/\n{3,}/g, "\n\n")`: runs of three or more line feeds become one blank line. */
  function CollapseNewlines(s: string): string
    decreases |s|
  {
    if s == [] then []
    else
      var n := NewlineRun(s);
      if n == 0 then [s[0]] + CollapseNewlines(s[1..])
      else if n >= 3 then "\n\n" + CollapseNewlines(s[n..])
      else s[..n] + CollapseNewlines(s[n..])
  }

  /** The clean-up applied to the joined walk output. */
  function CleanMarkdown(s: string): string {
    Trim(CollapseNewlines(StripLineEnds(ReplaceCrlf(s))))
  }

  /** The light markup for a parsed clipboard document's body. */
  function LightMarkdownOf(body: seq<Node>): string {
    CleanMarkdown(Concat(EmitAll(body)))
  }

  /** `htmlToLightMarkdown` after parsing: walk the body's children, join, clean up. */
  method HtmlToLightMarkdown(body: seq<Node>) returns (md: string)
    ensures md == LightMarkdownOf(body)
  {
    var out := WalkChildren(body, []);
    assert out == EmitAll(body);
    md := CleanMarkdown(Concat(out));
  }

  /** No space or tab right before a line feed. */
  predicate NoTrailingBlanks(s: string) {
    forall i :: 0 < i < |s| && s[i] == '\n' ==> !IsBlank(s[i - 1])
  }

  /** No three line feeds in a row, i.e. never more than one blank line. */
  predicate NoTripleNewline(s: string) {
    forall i :: 0 <= i < |s| - 2 ==> !(s[i] == '\n' && s[i + 1] == '\n' && s[i + 2] == '\n')
  }

  /** A stripped string keeps its first character when that is neither a space nor a tab. */
  lemma StripLineEndsFirst(s: string)
    requires s != [] && !IsBlank(s[0])
    ensures StripLineEnds(s) != [] && StripLineEnds(s)[0] == s[0]
  {
  }

  lemma {:induction false} StripLineEndsClean(s: string)
    ensures NoTrailingBlanks(StripLineEnds(s))
    decreases |s|
  {
    if s != [] {
      var n := BlankRun(s);
      if n == 0 {
        var r := StripLineEnds(s[1..]);
        StripLineEndsClean(s[1..]);
        assert ([s[0]] + r)[1..] == r;
      } else if n < |s| && s[n] == '\n' {
        var r := StripLineEnds(s[n + 1..]);
        StripLineEndsClean(s[n + 1..]);
        assert ("\n" + r)[1..] == r;
      } else {
        var r := StripLineEnds(s[n..]);
        StripLineEndsClean(s[n..]);
        if n < |s| {
          StripLineEndsFirst(s[n..]);
        }
        var w := s[..n] + r;
        forall i | 0 < i < |w| && w[i] == '\n' ensures !IsBlank(w[i - 1]) {
          assert i >= n;
          if i > n { assert w[i - 1] == r[i - 1 - n] && w[i] == r[i - n]; }
        }
      }
    }
  }

  /** Collapsing keeps the first character of a string, and whether it starts with a line feed. */
  lemma CollapseFirst(s: string)
    requires s != []
    ensures CollapseNewlines(s) != []
    ensures CollapseNewlines(s)[0] == '\n' <==> s[0] == '\n'
  {
  }

  lemma {:induction false} CollapseNoTriple(s: string)
    ensures NoTripleNewline(CollapseNewlines(s))
    decreases |s|
  {
    if s != [] {
      var n := NewlineRun(s);
      if n == 0 {
        var r := CollapseNewlines(s[1..]);
        CollapseNoTriple(s[1..]);
        var w := [s[0]] + r;
        forall i | 0 <= i < |w| - 2 ensures !(w[i] == '\n' && w[i + 1] == '\n' && w[i + 2] == '\n') {
          if i > 0 { assert w[i] == r[i - 1] && w[i + 1] == r[i] && w[i + 2] == r[i + 1]; }
        }
      } else {
        var r := CollapseNewlines(s[n..]);
        CollapseNoTriple(s[n..]);
        var head := if n >= 3 then "\n\n" else s[..n];
        assert |head| <= 2;
        if n < |s| { CollapseFirst(s[n..]); }
        var w := head + r;
        forall i | 0 <= i < |w| - 2 ensures !(w[i] == '\n' && w[i + 1] == '\n' && w[i + 2] == '\n') {
          if i >= |head| {
            assert w[i] == r[i - |head|] && w[i + 1] == r[i - |head| + 1] && w[i + 2] == r[i - |head| + 2];
          } else {
            assert r != [] && r[0] != '\n';
            assert w[|head|] == r[0];
          }
        }
      }
    }
  }

  lemma {:induction false} CollapseKeepsClean(s: string)
    requires NoTrailingBlanks(s)
    ensures NoTrailingBlanks(CollapseNewlines(s))
    decreases |s|
  {
    if s != [] {
      var n := NewlineRun(s);
      if n == 0 {
        assert NoTrailingBlanks(s[1..]) by {
          forall i | 0 < i < |s[1..]| && s[1..][i] == '\n' ensures !IsBlank(s[1..][i - 1]) {
            assert s[1..][i] == s[i + 1] && s[1..][i - 1] == s[i];
          }
        }
        var r := CollapseNewlines(s[1..]);
        CollapseKeepsClean(s[1..]);
        if r != [] && r[0] == '\n' {
          CollapseFirst(s[1..]);
          assert s[1] == '\n';
        }
        var w := [s[0]] + r;
        forall i | 0 < i < |w| && w[i] == '\n' ensures !IsBlank(w[i - 1]) {
          if i > 1 { assert w[i - 1] == r[i - 2] && w[i] == r[i - 1]; }
        }
      } else {
        assert NoTrailingBlanks(s[n..]) by {
          forall i | 0 < i < |s[n..]| && s[n..][i] == '\n' ensures !IsBlank(s[n..][i - 1]) {
            assert s[n..][i] == s[i + n] && s[n..][i - 1] == s[i + n - 1];
          }
        }
        var r := CollapseNewlines(s[n..]);
        CollapseKeepsClean(s[n..]);
        if n < |s| { CollapseFirst(s[n..]); }
        var head := if n >= 3 then "\n\n" else s[..n];
        assert forall i :: 0 <= i < |head| ==> head[i] == '\n';
        var w := head + r;
        forall i | 0 < i < |w| && w[i] == '\n' ensures !IsBlank(w[i - 1]) {
          if i > |head| { assert w[i - 1] == r[i - 1 - |head|] && w[i] == r[i - |head|]; }
        }
      }
    }
  }

  /** Trimming keeps both properties: the result is a piece of its input. */
  lemma TrimKeepsClean(s: string)
    requires NoTrailingBlanks(s) && NoTripleNewline(s)
    ensures NoTrailingBlanks(Trim(s)) && NoTripleNewline(Trim(s))
  {
    var r := Trim(s);
    if r != [] {
      var a := LeadingSpaces(s);
      assert forall i :: 0 <= i < |r| ==> r[i] == s[a + i];
    }
  }

  /**
   * The clean-up's promise: the markup is trimmed, no line ends in spaces or tabs, and there is
   * never more than one blank line in a row.
   */
  lemma CleanMarkdownShape(s: string)
    ensures IsTrimmed(CleanMarkdown(s))
    ensures NoTrailingBlanks(CleanMarkdown(s))
    ensures NoTripleNewline(CleanMarkdown(s))
  {
    var t := StripLineEnds(ReplaceCrlf(s));
    StripLineEndsClean(ReplaceCrlf(s));
    CollapseKeepsClean(t);
    CollapseNoTriple(t);
    TrimKeepsClean(CollapseNewlines(t));
  }

  lemma {:induction false} ReplaceCrlfAbsent(s: string)
    requires forall i :: 0 <= i < |s| ==> s[i] != '\r'
    ensures ReplaceCrlf(s) == s
    decreases |s|
  {
    if s != [] {
      ReplaceCrlfAbsent(s[1..]);
    }
  }

  lemma {:induction false} StripLineEndsSingleLine(s: string)
    requires forall i :: 0 <= i < |s| ==> s[i] != '\n'
    ensures StripLineEnds(s) == s
    decreases |s|
  {
    if s != [] {
      var n := BlankRun(s);
      if n == 0 {
        StripLineEndsSingleLine(s[1..]);
      } else {
        StripLineEndsSingleLine(s[n..]);
        assert s == s[..n] + s[n..];
      }
    }
  }

  lemma {:induction false} CollapseSingleLine(s: string)
    requires forall i :: 0 <= i < |s| ==> s[i] != '\n'
    ensures CollapseNewlines(s) == s
    decreases |s|
  {
    if s != [] {
      CollapseSingleLine(s[1..]);
    }
  }

  /** A trimmed single line without carriage returns comes through the clean-up unchanged. */
  lemma CleanSingleLine(s: string)
    requires IsTrimmed(s) && forall i :: 0 <= i < |s| ==> s[i] != '\n' && s[i] != '\r'
    ensures CleanMarkdown(s) == s
  {
    ReplaceCrlfAbsent(s);
    StripLineEndsSingleLine(s);
    CollapseSingleLine(s);
    TrimOfTrimmed(s);
  }

  /** Emphasis round trip, pasted side: a bold or italic element holding one text becomes `**t**` or `*t*`. */
  lemma PastedEmphasis(tag: string, t: string, w: string)
    requires ToLowerAscii(tag) in {"b", "strong", "em", "i"}
    requires w == if ToLowerAscii(tag) in {"b", "strong"} then "**" else "*"
    requires Plain(t) && forall i :: 0 <= i < |t| ==> t[i] != '\r'
    ensures LightMarkdownOf([Element(tag, [Text(t)])]) == w + t + w
  {
    var n := Element(tag, [Text(t)]);
    assert EmitAll([Text(t)]) == [t] by { assert [Text(t)][..0] == []; }
    assert Emit(n) == [w, t, w];
    assert EmitAll([n]) == [w, t, w] by { assert [n][..0] == []; }
    assert Concat([w, t, w]) == w + t + w by {
      ConcatCons(w, [t, w]);
      ConcatCons(t, [w]);
      ConcatSingle(w);
    }
    var s := w + t + w;
    assert forall i :: 0 <= i < |s| ==> s[i] in w || s[i] in t;
    CleanSingleLine(s);
  }

  /**
   * Emphasis round trip: rich text pasted as a bold (italic) element displays, once rendered, as a
   * strong (emphasis) element around the same text.
   */
  lemma PastedEmphasisRenders(tag: string, t: string)
    requires ToLowerAscii(tag) in {"b", "strong", "em", "i"}
    requires t != [] && Plain(t) && forall i :: 0 <= i < |t| ==> t[i] != '\r'
    ensures var md := LightMarkdownOf([Element(tag, [Text(t)])]);
      RenderLightMarkdown(md) == if ToLowerAscii(tag) in {"b", "strong"} then "<strong>" + EscapeHtml(t) + "</strong>"
                                 else "<em>" + EscapeHtml(t) + "</em>"
  {
    if ToLowerAscii(tag) in {"b", "strong"} {
      PastedEmphasis(tag, t, "**");
      RenderBold(t);
    } else {
      PastedEmphasis(tag, t, "*");
      RenderItalic(t);
    }
  }

  // ---------------------------------------------------------------- paste handler

  /** The tags whose presence makes the paste handler take over: `<(em|i|strong|b|span|p|div|br)\b`. */
  const RichTags: seq<string> := ["em", "i", "strong", "b", "span", "p", "div", "br"]

  predicate IsWordChar(c: char) {
    'a' <= c <= 'z' || 'A' <= c <= 'Z' || '0' <= c <= '9' || c == '_'
  }

  /** `html[i..]` is `<` and rich tag `k` (in any letter case), followed by a word boundary. */
  predicate RichTagAt(html: string, i: nat, k: nat)
    requires k < |RichTags|
  {
    var name := RichTags[k];
    var e := i + 1 + |name|;
    && e <= |html|
    && html[i] == '<'
    && ToLowerAscii(html[i + 1..e]) == name
    && (e == |html| || !IsWordChar(html[e]))
  }

  /** `/<(em|i|strong|b|span|p|div|br)\b/i.test(html)`. */
  predicate HasRichTag(html: string) {
    exists i: nat, k: nat :: i < |html| && k < |RichTags| && RichTagAt(html, i, k)
  }

  /** The paste handler either lets the browser paste (`NativePaste`) or sets the input's value. */
  datatype PasteOutcome = NativePaste | InputValue(value: string)

  /** `true` when `s` ends with a blank line (`endsWith("\n\n")`). */
  predicate EndsWithBlankLine(s: string) {
    |s| >= 2 && s[|s| - 2..] == "\n\n"
  }

  /**
   * The input's new value: the pasted markup is appended, separated from earlier text by a blank
   * line unless the earlier text is empty or already ends with one.
   */
  function AppendPasted(before: string, md: string): (r: string)
    ensures |r| >= |before| + |md| && r[..|before|] == before && r[|r| - |md|..] == md
    ensures before == [] ==> r == md
    ensures before != [] ==> EndsWithBlankLine(r[..|r| - |md|])
    ensures EndsWithBlankLine(before) ==> r == before + md
    // Otherwise exactly two characters are inserted, and they end in a blank line: "\n\n".
    ensures before != [] && !EndsWithBlankLine(before) ==> |r| == |before| + 2 + |md|
  {
    var glue := if before != [] && !EndsWithBlankLine(before) then "\n\n" else "";
    var r := before + glue + md;
    assert r[..|r| - |md|] == before + glue;
    r
  }

  /**
   * The `paste` listener: without HTML, or HTML without any of the rich tags, the browser pastes
   * as usual; otherwise the document's markup is appended, and nothing at all is pasted when the
   * markup comes out empty. `body` is the parsed document's body.
   */
  function OnPaste(before: string, html: string, body: seq<Node>): (o: PasteOutcome)
    ensures o.NativePaste? <==> !HasRichTag(html)
    ensures o.InputValue? && LightMarkdownOf(body) == [] ==> o.value == before
    ensures o.InputValue? && LightMarkdownOf(body) != [] ==> o.value == AppendPasted(before, LightMarkdownOf(body))
  {
    if html == [] || !HasRichTag(html) then NativePaste
    else
      var md := LightMarkdownOf(body);
      if md == [] then InputValue(before) else InputValue(AppendPasted(before, md))
  }
}
