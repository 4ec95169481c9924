/**
 * From the input text to bubbles: the text is split into blocks at blank lines, each block
 * becomes a bubble, and bubbles alternate between the two speakers by position. A bubble's side
 * can later be flipped on its own with the switch it carries.
 */
module Conversation {
  import opened Strings
  import opened Sequences
  import Markup

  // ---------------------------------------------------------------- parseBlocks

  /** Number of line feeds in `s`. */
  function NewlineCount(s: string): nat {
    if s == [] then 0 else (if s[0] == '\n' then 1 else 0) + NewlineCount(s[1..])
  }

  /**
   * The pieces `split(/\n\s*\n+/)` cuts `s` into, with `acc` the start of the current piece.
   * A match of the pattern lies inside one maximal run of white space and exists exactly when the
   * run holds two or more line feeds; such a run is a separator. The pieces here leave out all of
   * the separator run, where the pattern leaves out only the part from its first to its last line
   * feed: the difference is white space at the ends of pieces, which is trimmed away afterwards.
   */
  function Pieces(s: string, acc: string): (r: seq<string>)
    ensures r != []
    decreases |s|
  {
    if s == [] then [acc]
    else if IsSpace(s[0]) then
      var n := LeadingSpaces(s);
      if NewlineCount(s[..n]) >= 2 then [acc] + Pieces(s[n..], [])
      else Pieces(s[n..], acc + s[..n])
    else Pieces(s[1..], acc + [s[0]])
  }

  /** `.map((s) => s.trim()).filter(Boolean)`. */
  function TrimAndDropEmpty(ps: seq<string>): (r: seq<string>)
    ensures forall k :: 0 <= k < |r| ==> r[k] != [] && IsTrimmed(r[k])
  {
    if ps == [] then []
    else
      var t := Trim(ps[0]);
      (if t == [] then [] else [t]) + TrimAndDropEmpty(ps[1..])
  }

  /** `parseBlocks`: the blocks of the input, each trimmed and non-empty. */
  function ParseBlocks(raw: string): (blocks: seq<string>)
    ensures forall k :: 0 <= k < |blocks| ==> blocks[k] != [] && IsTrimmed(blocks[k])
  {
    var cleaned := Trim(raw);
    if cleaned == [] then [] else TrimAndDropEmpty(Pieces(cleaned, []))
  }

  lemma {:induction false} PiecesContent(s: string, acc: string)
    ensures RemoveSpaces(Concat(Pieces(s, acc))) == RemoveSpaces(acc) + RemoveSpaces(s)
    decreases |s|
  {
    if s == [] {
      ConcatSingle(acc);
    } else if IsSpace(s[0]) {
      var n := LeadingSpaces(s);
      assert s == s[..n] + s[n..];
      RemoveSpacesConcat(s[..n], s[n..]);
      RemoveSpacesAllSpace(s[..n]);
      if NewlineCount(s[..n]) >= 2 {
        PiecesContent(s[n..], []);
        ConcatCons(acc, Pieces(s[n..], []));
        RemoveSpacesConcat(acc, Concat(Pieces(s[n..], [])));
      } else {
        PiecesContent(s[n..], acc + s[..n]);
        RemoveSpacesConcat(acc, s[..n]);
      }
    } else {
      PiecesContent(s[1..], acc + [s[0]]);
      RemoveSpacesConcat(acc, [s[0]]);
      assert s == [s[0]] + s[1..];
      RemoveSpacesConcat([s[0]], s[1..]);
    }
  }

  lemma {:induction false} TrimAndDropContent(ps: seq<string>)
    ensures RemoveSpaces(Concat(TrimAndDropEmpty(ps))) == RemoveSpaces(Concat(ps))
    decreases |ps|
  {
    if ps != [] {
      var t := Trim(ps[0]);
      var rest := TrimAndDropEmpty(ps[1..]);
      TrimAndDropContent(ps[1..]);
      ConcatCons(ps[0], ps[1..]);
      assert ps == [ps[0]] + ps[1..];
      RemoveSpacesConcat(ps[0], Concat(ps[1..]));
      RemoveSpacesTrim(ps[0]);
      if t == [] {
        assert TrimAndDropEmpty(ps) == rest;
      } else {
        ConcatCons(t, rest);
        RemoveSpacesConcat(t, Concat(rest));
      }
    }
  }

  /**
   * Nothing but white space is lost or gained, and nothing is reordered: the blocks, one after
   * the other, hold exactly the input's other characters in the input's order.
   */
  lemma ParseBlocksContent(raw: string)
    ensures RemoveSpaces(Concat(ParseBlocks(raw))) == RemoveSpaces(raw)
  {
    var cleaned := Trim(raw);
    RemoveSpacesTrim(raw);
    if cleaned == [] {
      RemoveSpacesAllSpace(raw);
    } else {
      PiecesContent(cleaned, []);
      TrimAndDropContent(Pieces(cleaned, []));
    }
  }

  /** Input with anything but white space yields at least one block, and only such input does. */
  lemma ParseBlocksEmpty(raw: string)
    ensures ParseBlocks(raw) == [] <==> AllSpace(raw)
  {
    ParseBlocksContent(raw);
    RemoveSpacesAllSpace(raw);
  }

  /** What `split` cuts at: a run of white space holding at least two line feeds. */
  predicate IsSeparator(s: string) {
    AllSpace(s) && NewlineCount(s) >= 2
  }

  /** The blocks written one after the other with separator `seps[k]` between blocks k and k + 1. */
  function JoinBlocks(blocks: seq<string>, seps: seq<string>): string
    requires |blocks| == |seps| + 1
    decreases |seps|
  {
    if seps == [] then blocks[0] else blocks[0] + seps[0] + JoinBlocks(blocks[1..], seps[1..])
  }

  /** `s` is `blocks` joined by separators. */
  predicate SeparatedBy(s: string, blocks: seq<string>, seps: seq<string>) {
    |blocks| == |seps| + 1 && (forall k :: 0 <= k < |seps| ==> IsSeparator(seps[k])) && JoinBlocks(blocks, seps) == s
  }

  /** The pieces joined by the separator runs they were cut at give back the text. */
  lemma {:induction false} PiecesJoin(s: string, acc: string) returns (seps: seq<string>)
    ensures SeparatedBy(acc + s, Pieces(s, acc), seps)
    decreases |s|
  {
    if s == [] {
      seps := [];
      assert acc + s == acc;
    } else if IsSpace(s[0]) {
      var n := LeadingSpaces(s);
      assert s == s[..n] + s[n..];
      if NewlineCount(s[..n]) >= 2 {
        var rest := PiecesJoin(s[n..], []);
        assert [] + s[n..] == s[n..];
        seps := [s[..n]] + rest;
        var ps := [acc] + Pieces(s[n..], []);
        assert ps[1..] == Pieces(s[n..], []) && seps[1..] == rest;
        assert acc + s == acc + s[..n] + s[n..];
      } else {
        seps := PiecesJoin(s[n..], acc + s[..n]);
        assert acc + s == acc + s[..n] + s[n..];
      }
    } else {
      seps := PiecesJoin(s[1..], acc + [s[0]]);
      assert acc + s == acc + [s[0]] + s[1..];
    }
  }

  /**
   * The pieces of a trimmed text are non-empty and trimmed: each one starts after a maximal run
   * of white space, or at the text's start, and ends before one, or at the text's end.
   */
  lemma {:induction false} PiecesTrimmed(s: string, acc: string)
    requires acc != [] ==> !IsSpace(acc[0])
    requires acc == [] ==> s != [] && !IsSpace(s[0])
    requires s != [] ==> !IsSpace(s[|s| - 1])
    requires s == [] ==> acc != [] && !IsSpace(acc[|acc| - 1])
    requires acc != [] && IsSpace(acc[|acc| - 1]) ==> s != [] && !IsSpace(s[0])
    ensures forall k :: 0 <= k < |Pieces(s, acc)| ==> Pieces(s, acc)[k] != [] && IsTrimmed(Pieces(s, acc)[k])
    decreases |s|
  {
    if s == [] {
    } else if IsSpace(s[0]) {
      var n := LeadingSpaces(s);
      assert n < |s|;
      if NewlineCount(s[..n]) >= 2 {
        PiecesTrimmed(s[n..], []);
        var ps := [acc] + Pieces(s[n..], []);
        assert forall k :: 1 <= k < |ps| ==> ps[k] == Pieces(s[n..], [])[k - 1];
      } else {
        var acc' := acc + s[..n];
        assert acc'[|acc'| - 1] == s[n - 1];
        PiecesTrimmed(s[n..], acc');
      }
    } else {
      var acc' := acc + [s[0]];
      PiecesTrimmed(s[1..], acc');
    }
  }

  /** Trimming non-empty trimmed pieces and dropping empty ones changes nothing. */
  lemma {:induction false} TrimAndDropKeeps(ps: seq<string>)
    requires forall k :: 0 <= k < |ps| ==> ps[k] != [] && IsTrimmed(ps[k])
    ensures TrimAndDropEmpty(ps) == ps
    decreases |ps|
  {
    if ps != [] {
      TrimOfTrimmed(ps[0]);
      TrimAndDropKeeps(ps[1..]);
      assert ps == [ps[0]] + ps[1..];
    }
  }

  /**
   * The input, trimmed, is exactly its blocks joined by separators: a cut happens only at white
   * space holding two line feeds, and everything between cuts, inner white space included, is kept
   * as written.
   */
  lemma ParseBlocksSeparated(raw: string)
    ensures var blocks := ParseBlocks(raw);
      (blocks == [] <==> Trim(raw) == [])
      && (blocks != [] ==> exists seps :: SeparatedBy(Trim(raw), blocks, seps))
  {
    var cleaned := Trim(raw);
    if cleaned != [] {
      PiecesTrimmed(cleaned, []);
      TrimAndDropKeeps(Pieces(cleaned, []));
      var seps := PiecesJoin(cleaned, []);
      assert [] + cleaned == cleaned;
      assert SeparatedBy(cleaned, ParseBlocks(raw), seps);
    }
  }

  /** No stretch of white space in `s` holds two line feeds: `s` contains no blank line. */
  predicate NoBlankLine(s: string) {
    forall i, j :: 0 <= i <= j <= |s| && AllSpace(s[i..j]) ==> NewlineCount(s[i..j]) < 2
  }

  lemma {:induction false} NewlineCountConcat(a: string, b: string)
    ensures NewlineCount(a + b) == NewlineCount(a) + NewlineCount(b)
    decreases |a|
  {
    if a != [] {
      assert (a + b)[0] == a[0];
      assert (a + b)[1..] == a[1..] + b;
      NewlineCountConcat(a[1..], b);
    } else {
      assert a + b == b;
    }
  }

  /** A stretch of a string holds no more line feeds than the string. */
  lemma NewlineCountSlice(s: string, i: nat, j: nat)
    requires i <= j <= |s|
    ensures NewlineCount(s[i..j]) <= NewlineCount(s)
  {
    assert s == s[..i] + s[i..j] + s[j..];
    NewlineCountConcat(s[..i] + s[i..j], s[j..]);
    NewlineCountConcat(s[..i], s[i..j]);
  }

  lemma NoBlankLineSlice(s: string, i: nat, j: nat)
    requires i <= j <= |s| && NoBlankLine(s)
    ensures NoBlankLine(s[i..j])
  {
    var t := s[i..j];
    forall a, b | 0 <= a <= b <= |t|
      ensures AllSpace(t[a..b]) ==> NewlineCount(t[a..b]) < 2
    {
      assert forall k :: 0 <= k < b - a ==> t[a..b][k] == s[i + a + k];
      assert t[a..b] == s[i + a..i + b];
    }
  }

  /** Appending a short run of white space to text that ends in a visible character. */
  lemma NoBlankLineAppendRun(acc: string, run: string)
    requires NoBlankLine(acc) && (acc == [] || !IsSpace(acc[|acc| - 1]))
    requires AllSpace(run) && NewlineCount(run) < 2
    ensures NoBlankLine(acc + run)
  {
    var s := acc + run;
    forall i, j | 0 <= i <= j <= |s|
      ensures AllSpace(s[i..j]) ==> NewlineCount(s[i..j]) < 2
    {
      if j <= |acc| {
        assert s[i..j] == acc[i..j];
      } else if i >= |acc| {
        assert s[i..j] == run[i - |acc|..j - |acc|];
        NewlineCountSlice(run, i - |acc|, j - |acc|);
      } else {
        assert s[i..j][|acc| - 1 - i] == acc[|acc| - 1];
      }
    }
  }

  /** Appending a visible character. */
  lemma NoBlankLineAppendChar(acc: string, c: char)
    requires NoBlankLine(acc) && !IsSpace(c)
    ensures NoBlankLine(acc + [c])
  {
    var s := acc + [c];
    forall i, j | 0 <= i <= j <= |s|
      ensures AllSpace(s[i..j]) ==> NewlineCount(s[i..j]) < 2
    {
      if j <= |acc| {
        assert s[i..j] == acc[i..j];
      } else if i < j {
        assert s[i..j][j - 1 - i] == c;
      }
    }
  }

  lemma {:induction false} PiecesNoBlankLine(s: string, acc: string)
    requires NoBlankLine(acc)
    requires s != [] && IsSpace(s[0]) ==> acc == [] || !IsSpace(acc[|acc| - 1])
    ensures forall k :: 0 <= k < |Pieces(s, acc)| ==> NoBlankLine(Pieces(s, acc)[k])
    decreases |s|
  {
    if s == [] {
    } else if IsSpace(s[0]) {
      var n := LeadingSpaces(s);
      assert AllSpace(s[..n]) by {
        assert forall i :: 0 <= i < n ==> s[..n][i] == s[i];
      }
      if NewlineCount(s[..n]) >= 2 {
        PiecesNoBlankLine(s[n..], []);
      } else {
        NoBlankLineAppendRun(acc, s[..n]);
        PiecesNoBlankLine(s[n..], acc + s[..n]);
      }
    } else {
      NoBlankLineAppendChar(acc, s[0]);
      PiecesNoBlankLine(s[1..], acc + [s[0]]);
    }
  }

  lemma {:induction false} TrimAndDropNoBlankLine(ps: seq<string>)
    requires forall k :: 0 <= k < |ps| ==> NoBlankLine(ps[k])
    ensures forall k :: 0 <= k < |TrimAndDropEmpty(ps)| ==> NoBlankLine(TrimAndDropEmpty(ps)[k])
    decreases |ps|
  {
    if ps != [] {
      var t := Trim(ps[0]);
      if t != [] {
        NoBlankLineSlice(ps[0], LeadingSpaces(ps[0]), |ps[0]| - TrailingSpaces(ps[0]));
      }
      TrimAndDropNoBlankLine(ps[1..]);
    }
  }

  /** No block contains a blank line: the input is cut at every one of them. */
  lemma ParseBlocksNoBlankLine(raw: string)
    ensures forall k :: 0 <= k < |ParseBlocks(raw)| ==> NoBlankLine(ParseBlocks(raw)[k])
  {
    var cleaned := Trim(raw);
    if cleaned != [] {
      PiecesNoBlankLine(cleaned, []);
      TrimAndDropNoBlankLine(Pieces(cleaned, []));
    }
  }

  /** When `b` ends in a non-space character, the white space at the start of `b + rest` lies in `b`. */
  lemma LeadingSpacesPrefix(b: string, rest: string)
    requires b != [] && !IsSpace(b[|b| - 1])
    ensures LeadingSpaces(b + rest) == LeadingSpaces(b) < |b|
  {
    var s := b + rest;
    var m := LeadingSpaces(b);
    var n := LeadingSpaces(s);
    assert forall i :: 0 <= i < |b| ==> s[i] == b[i];
    assert forall i :: 0 <= i < m ==> IsSpace(b[i]) by {
      forall i | 0 <= i < m ensures IsSpace(b[i]) { assert b[..m][i] == b[i]; }
    }
    assert forall i :: 0 <= i < n ==> IsSpace(s[i]) by {
      forall i | 0 <= i < n ensures IsSpace(s[i]) { assert s[..n][i] == s[i]; }
    }
  }

  /** A block without a blank line, ending in a non-space character, is taken into the current piece whole. */
  lemma {:induction false} PiecesSkipBlock(b: string, rest: string, acc: string)
    requires NoBlankLine(b) && (b != [] ==> !IsSpace(b[|b| - 1]))
    ensures Pieces(b + rest, acc) == Pieces(rest, acc + b)
    decreases |b|
  {
    if b == [] {
      assert b + rest == rest && acc + b == acc;
    } else {
      var n := PiecesStep(b, rest, acc);
      NoBlankLineSuffix(b, n);
      PiecesSkipBlock(b[n..], rest, acc + b[..n]);
      assert acc + b[..n] + b[n..] == acc + b;
    }
  }

  /**
   * One step of the scan inside such a block: a non-space character, or a run of white space with
   * fewer than two line feeds, moves into the current piece.
   */
  lemma PiecesStep(b: string, rest: string, acc: string) returns (n: nat)
    requires NoBlankLine(b) && b != [] && !IsSpace(b[|b| - 1])
    ensures 0 < n <= |b| && Pieces(b + rest, acc) == Pieces(b[n..] + rest, acc + b[..n])
    ensures b[n..] != [] ==> b[n..][|b[n..]| - 1] == b[|b| - 1]
  {
    var s := b + rest;
    assert s[0] == b[0];
    if IsSpace(b[0]) {
      n := PiecesSkipRun(b, rest, acc);
    } else {
      n := 1;
      assert s[1..] == b[1..] + rest && b[..1] == [b[0]];
    }
  }

  lemma NoBlankLineSuffix(s: string, n: nat)
    requires n <= |s| && NoBlankLine(s)
    ensures NoBlankLine(s[n..])
  {
    NoBlankLineSlice(s, n, |s|);
    assert s[n..|s|] == s[n..];
  }

  /** The white space opening such a block holds fewer than two line feeds and is kept in the piece. */
  lemma PiecesSkipRun(b: string, rest: string, acc: string) returns (n: nat)
    requires NoBlankLine(b) && b != [] && IsSpace(b[0]) && !IsSpace(b[|b| - 1])
    ensures 0 < n < |b| && Pieces(b + rest, acc) == Pieces(b[n..] + rest, acc + b[..n])
  {
    var s := b + rest;
    assert s[0] == b[0];
    LeadingSpacesPrefix(b, rest);
    n := LeadingSpaces(b);
    assert s[..n] == b[..n] && b[0..n] == b[..n];
    assert AllSpace(b[0..n]);
    assert s[n..] == b[n..] + rest;
  }

  /** A separator followed by a non-space character closes the current piece. */
  lemma PiecesAtSeparator(sep: string, t: string, acc: string)
    requires IsSeparator(sep) && t != [] && !IsSpace(t[0])
    ensures Pieces(sep + t, acc) == [acc] + Pieces(t, [])
  {
    var s := sep + t;
    assert sep != [] by { assert NewlineCount([]) == 0; }
    assert s[0] == sep[0];
    var n := LeadingSpaces(s);
    assert forall i :: 0 <= i < |sep| ==> s[i] == sep[i];
    assert s[|sep|] == t[0];
    assert forall i :: 0 <= i < n ==> IsSpace(s[i]) by {
      forall i | 0 <= i < n ensures IsSpace(s[i]) { assert s[..n][i] == s[i]; }
    }
    assert n == |sep|;
    assert s[..n] == sep && s[n..] == t;
  }

  /** A join starts with its first block and ends with its last. */
  lemma {:induction false} JoinBlocksEnds(blocks: seq<string>, seps: seq<string>)
    requires |blocks| == |seps| + 1 && forall k :: 0 <= k < |blocks| ==> blocks[k] != []
    ensures var s := JoinBlocks(blocks, seps);
      s != [] && s[0] == blocks[0][0] && s[|s| - 1] == blocks[|blocks| - 1][|blocks[|blocks| - 1]| - 1]
    decreases |seps|
  {
    if seps != [] {
      var rest := JoinBlocks(blocks[1..], seps[1..]);
      var s := JoinBlocks(blocks, seps);
      JoinBlocksEnds(blocks[1..], seps[1..]);
      assert s == blocks[0] + seps[0] + rest;
      assert s[0] == blocks[0][0] && s[|s| - 1] == rest[|rest| - 1];
      assert blocks[1..][|blocks| - 2] == blocks[|blocks| - 1];
    }
  }

  /** Blocks as `parseBlocks` makes them, joined by separators, are cut back into those blocks. */
  lemma {:induction false} PiecesOfJoin(blocks: seq<string>, seps: seq<string>)
    requires |blocks| == |seps| + 1 && forall k :: 0 <= k < |seps| ==> IsSeparator(seps[k])
    requires forall k :: 0 <= k < |blocks| ==> blocks[k] != [] && IsTrimmed(blocks[k]) && NoBlankLine(blocks[k])
    ensures Pieces(JoinBlocks(blocks, seps), []) == blocks
    decreases |seps|
  {
    var b := blocks[0];
    if seps == [] {
      PiecesSkipBlock(b, [], []);
      assert b + [] == b && [] + b == b;
      assert blocks == [b];
    } else {
      var rest := JoinBlocks(blocks[1..], seps[1..]);
      JoinBlocksEnds(blocks[1..], seps[1..]);
      PiecesSkipBlock(b, seps[0] + rest, []);
      assert b + seps[0] + rest == b + (seps[0] + rest) && [] + b == b;
      PiecesAtSeparator(seps[0], rest, b);
      PiecesOfJoin(blocks[1..], seps[1..]);
      assert blocks == [b] + blocks[1..];
    }
  }

  /**
   * A text made of non-empty trimmed blocks without blank lines, joined by separators, is parsed
   * into exactly those blocks: the split `parseBlocks` makes is the only one of its kind.
   */
  lemma ParseBlocksUnique(s: string, blocks: seq<string>, seps: seq<string>)
    requires SeparatedBy(s, blocks, seps)
    requires forall k :: 0 <= k < |blocks| ==> blocks[k] != [] && IsTrimmed(blocks[k]) && NoBlankLine(blocks[k])
    ensures ParseBlocks(s) == blocks
  {
    JoinBlocksEnds(blocks, seps);
    TrimOfTrimmed(s);
    PiecesOfJoin(blocks, seps);
    TrimAndDropKeeps(blocks);
  }

  /** The blocks written one after the other with a blank line between neighbours. */
  function JoinWithBlankLines(blocks: seq<string>): string {
    if blocks == [] then [] else JoinBlocks(blocks, seq(|blocks| - 1, _ => "\n\n"))
  }

  /** Parsing the blocks of a text, re-joined with blank lines, gives the same blocks back. */
  lemma ParseBlocksIdempotent(raw: string)
    ensures ParseBlocks(JoinWithBlankLines(ParseBlocks(raw))) == ParseBlocks(raw)
  {
    var blocks := ParseBlocks(raw);
    if blocks == [] {
      assert ParseBlocks([]) == [];
    } else {
      var seps := seq(|blocks| - 1, _ => "\n\n");
      assert IsSeparator("\n\n") by {
        assert NewlineCount("\n\n") == 1 + NewlineCount("\n\n"[1..]);
        assert "\n\n"[1..] == "\n";
        assert NewlineCount("\n") == 1 + NewlineCount("\n"[1..]);
        assert "\n"[1..] == [];
      }
      ParseBlocksNoBlankLine(raw);
      ParseBlocksUnique(JoinWithBlankLines(blocks), blocks, seps);
    }
  }

  // ---------------------------------------------------------------- speakers

  datatype Side = Left | Right

  function Opposite(s: Side): Side {
    if s == Left then Right else Left
  }

  /**
   * `sideForIndex`: the first bubble is on the left when the conversation starts with Supa (the
   * "starts by AI" switch), on the right otherwise, and sides alternate from there.
   */
  function SideForIndex(i: nat, startsByAI: bool): (side: Side)
    ensures side == Left <==> (i % 2 == 0) == startsByAI
  {
    var first := if startsByAI then Left else Right;
    if i % 2 == 0 then first else Opposite(first)
  }

  /** Consecutive bubbles face each other; every second bubble is on the same side. */
  lemma SidesAlternate(i: nat, startsByAI: bool)
    ensures SideForIndex(i + 1, startsByAI) == Opposite(SideForIndex(i, startsByAI))
    ensures SideForIndex(i + 2, startsByAI) == SideForIndex(i, startsByAI)
    ensures SideForIndex(0, startsByAI) == Left <==> startsByAI
  {
  }

  /** `getSupaName`: the name typed in the name field, "Supa" when the field is blank or missing. */
  function SupaName(field: string): (name: string)
    ensures name != [] && IsTrimmed(name)
    ensures AllSpace(field) ==> name == "Supa"
    ensures !AllSpace(field) ==> name == Trim(field)
  {
    TrimmedOr(field, "Supa")
  }

  /** `speakerForSide`: the left side speaks with Supa's name, the right side is "Moi". */
  function SpeakerForSide(side: Side, nameField: string): (name: string)
    ensures name != [] && IsTrimmed(name)
    ensures side == Right ==> name == "Moi"
    ensures side == Left ==> name == SupaName(nameField)
  {
    if side == Left then SupaName(nameField) else "Moi"
  }

  // ---------------------------------------------------------------- bubbles

  /**
   * One bubble as displayed: its text and the HTML rendered from it, its side, the speaker name
   * shown above it, and the state of its side switch (on for the right side).
   */
  datatype Bubble = Bubble(text: string, html: string, side: Side, name: string, switchOn: bool)

  /** A bubble whose name and switch agree with its side. */
  predicate Consistent(b: Bubble, nameField: string) {
    b.name == SpeakerForSide(b.side, nameField) && b.switchOn == (b.side == Right)
  }

  /** `bubbleNode`. */
  function BubbleNode(text: string, side: Side, nameField: string): (b: Bubble)
    ensures Consistent(b, nameField) && b.text == text && b.side == side
    ensures b.html == Markup.RenderLightMarkdown(text)
  {
    Bubble(text, Markup.RenderLightMarkdown(text), side, SpeakerForSide(side, nameField), side == Right)
  }

  /** `generate` before pagination: one bubble per block, sides alternating by position. */
  function Generate(raw: string, startsByAI: bool, nameField: string): (bs: seq<Bubble>)
    ensures |bs| == |ParseBlocks(raw)|
    ensures forall i :: 0 <= i < |bs| ==>
      bs[i].text == ParseBlocks(raw)[i] && bs[i].side == SideForIndex(i, startsByAI) && Consistent(bs[i], nameField)
    ensures forall i :: 0 <= i < |bs| ==> bs[i].html == Markup.RenderLightMarkdown(ParseBlocks(raw)[i])
  {
    var blocks := ParseBlocks(raw);
    seq(|blocks|, i requires 0 <= i < |blocks| => BubbleNode(blocks[i], SideForIndex(i, startsByAI), nameField))
  }

  /**
   * `setSide` on the `k`-th bubble: its side, switch and name change, its text does not, and no
   * other bubble changes.
   */
  function SetSide(bs: seq<Bubble>, k: nat, side: Side, nameField: string): (r: seq<Bubble>)
    requires k < |bs|
    ensures |r| == |bs|
    ensures forall j :: 0 <= j < |bs| && j != k ==> r[j] == bs[j]
    ensures r[k].side == side && r[k].text == bs[k].text && r[k].html == bs[k].html
    ensures Consistent(r[k], nameField)
  {
    bs[k := bs[k].(side := side, switchOn := side == Right, name := SpeakerForSide(side, nameField))]
  }

  /** The switch's `change` handler: on means right, off means left. */
  function OnSwitchChange(bs: seq<Bubble>, k: nat, switchOn: bool, nameField: string): (r: seq<Bubble>)
    requires k < |bs|
    ensures |r| == |bs| && r[k].switchOn == switchOn && (r[k].side == Right <==> switchOn)
  {
    SetSide(bs, k, if switchOn then Right else Left, nameField)
  }

  /** Flipping a consistent bubble's side and flipping it back restores the conversation. */
  lemma SetSideUndo(bs: seq<Bubble>, k: nat, nameField: string)
    requires k < |bs| && Consistent(bs[k], nameField)
    ensures SetSide(SetSide(bs, k, Opposite(bs[k].side), nameField), k, bs[k].side, nameField) == bs
  {
    var r := SetSide(SetSide(bs, k, Opposite(bs[k].side), nameField), k, bs[k].side, nameField);
    assert r[k] == bs[k];
  }
}
