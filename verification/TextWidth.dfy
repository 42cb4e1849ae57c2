/** Column widths of terminal text: measuring, truncating and wrapping (src/cli/textWidth.ts). */
module TextWidth {
  import opened Sequences

  // A string is the sequence of code points its iterator yields.
  type CodePoint = c: int | 0 <= c <= 0x10FFFF

  const ELLIPSIS: CodePoint := 0x2026

  /** The East Asian wide and fullwidth ranges. */
  predicate IsWide(cp: CodePoint) {
    || 0x1100 <= cp <= 0x115f
    || 0x2e80 <= cp <= 0xa4cf
    || 0xac00 <= cp <= 0xd7a3
    || 0xf900 <= cp <= 0xfaff
    || 0xfe30 <= cp <= 0xfe6f
    || 0xff00 <= cp <= 0xff60
    || 0xffe0 <= cp <= 0xffe6
    || 0x20000 <= cp <= 0x3fffd
  }

  function GlyphWidth(cp: CodePoint): nat {
    if IsWide(cp) then 2 else 1
  }

  /** The columns a text occupies: the sum of its glyph widths. */
  function Width(text: seq<CodePoint>): nat {
    if text == [] then 0 else Width(text[..|text| - 1]) + GlyphWidth(text[|text| - 1])
  }

  lemma {:induction false} WidthAppend(a: seq<CodePoint>, b: seq<CodePoint>)
    ensures Width(a + b) == Width(a) + Width(b)
    decreases |b|
  {
    if b == [] {
      assert a + b == a;
    } else {
      assert (a + b)[..|a + b| - 1] == a + b[..|b| - 1];
      WidthAppend(a, b[..|b| - 1]);
    }
  }

  /** A longer prefix is strictly wider: no glyph has width zero. */
  lemma {:induction false} WidthGrows(text: seq<CodePoint>, i: nat, j: nat)
    requires i < j <= |text|
    ensures Width(text[..i]) < Width(text[..j])
  {
    assert text[..j][..j - 1] == text[..j - 1];
    if i < j - 1 {
      WidthGrows(text, i, j - 1);
    }
  }

  lemma SingleWidth(glyph: CodePoint)
    ensures Width([glyph]) == GlyphWidth(glyph)
  {
    assert [glyph][..0] == [];
  }

  method DisplayWidth(text: seq<CodePoint>) returns (width: nat)
    ensures width == Width(text)
  {
    width := 0;
    for i := 0 to |text|
      invariant width == Width(text[..i])
    {
      assert text[..i + 1][..i] == text[..i];
      width := width + GlyphWidth(text[i]);
    }
    assert text[..|text|] == text;
  }

  /** The first k glyphs fit into limit columns, and no longer prefix does. */
  ghost predicate LongestFit(text: seq<CodePoint>, k: nat, limit: int) {
    && k <= |text|
    && Width(text[..k]) <= limit
    && forall j: nat :: k < j <= |text| ==> limit < Width(text[..j])
  }

  /** The loop shared by the two truncations: take glyphs until one no longer fits. */
  method TakeColumns(text: seq<CodePoint>, limit: nat) returns (out: seq<CodePoint>)
    ensures out <= text && LongestFit(text, |out|, limit)
  {
    out := [];
    var width := 0;
    for i := 0 to |text|
      invariant out == text[..i] && width == Width(out) <= limit
    {
      var w := GlyphWidth(text[i]);
      assert text[..i + 1][..i] == text[..i];
      if width + w > limit {
        forall j: nat | i < j <= |text| ensures limit < Width(text[..j]) {
          if i + 1 < j {
            WidthGrows(text, i + 1, j);
          }
        }
        break;
      }
      out := out + [text[i]];
      width := width + w;
    }
  }

  /** Truncation without an ellipsis: the longest prefix that fits, for every limit that anything fits. */
  method ClampWidth(text: seq<CodePoint>, limit: int) returns (out: seq<CodePoint>)
    ensures out <= text
    ensures limit >= 0 ==> LongestFit(text, |out|, limit)
    ensures limit < 0 ==> out == []
  {
    if limit <= 0 {
      forall j: nat | 0 < j <= |text| ensures 0 < Width(text[..j]) {
        WidthGrows(text, 0, j);
      }
      return [];
    }
    var width := DisplayWidth(text);
    if width <= limit {
      assert text[..|text|] == text;
      return text;
    }
    out := TakeColumns(text, limit);
  }

  /** Truncation with an ellipsis: never wider than the limit, and untouched exactly when the text fits. */
  method Fit(text: seq<CodePoint>, limit: int) returns (out: seq<CodePoint>)
    ensures limit >= 0 ==> Width(out) <= limit
    ensures limit <= 0 ==> out == []
    ensures 0 < limit && Width(text) <= limit ==> out == text
    ensures 0 < limit < Width(text) ==>
              exists k: nat :: LongestFit(text, k, limit - 1) && out == text[..k] + [0x2026]
  {
    if limit <= 0 { return []; }
    var width := DisplayWidth(text);
    if width <= limit { return text; }
    var kept := TakeColumns(text, limit - 1);
    out := kept + [ELLIPSIS];
    assert text[..|kept|] == kept && out[..|kept|] == kept;
  }

  /** A split of the text in which every piece fits. */
  ghost predicate FittingSplit(text: seq<CodePoint>, pieces: seq<seq<CodePoint>>, limit: int) {
    && Flatten(pieces) == text
    && forall i :: 0 <= i < |pieces| ==> Width(pieces[i]) <= limit
  }

  /** Lines that are not empty, and that break only where the next glyph would not have fitted. */
  ghost predicate Greedy(lines: seq<seq<CodePoint>>, limit: int) {
    && (forall i :: 0 <= i < |lines| ==> lines[i] != [])
    && (forall i :: 0 < i < |lines| ==> limit < Width(lines[i - 1]) + GlyphWidth(lines[i][0]))
  }

  predicate HasWide(text: seq<CodePoint>) {
    exists i :: 0 <= i < |text| && IsWide(text[i])
  }

  /** The narrowest a wrapped line can be expected to be: the limit, or a lone wide glyph. */
  ghost predicate LineFits(line: seq<CodePoint>, limit: int) {
    Width(line) <= limit || (|line| == 1 && IsWide(line[0]))
  }

  /** A piece that reaches beyond a greedy line, from no later a start, is too wide. */
  lemma ReachingPastIsTooWide(x: seq<CodePoint>, line: seq<CodePoint>, next: CodePoint,
                              rest: seq<CodePoint>, piece: seq<CodePoint>, limit: int)
    requires limit < Width(line) + GlyphWidth(next)
    requires piece <= x + line + [next] + rest
    requires |x| + |line| < |piece|
    ensures limit < Width(piece)
  {
    var head := x + line + [next];
    var whole := head + rest;
    assert head == whole[..|head|] && piece == whole[..|piece|];
    if |head| < |piece| {
      WidthGrows(whole, |head|, |piece|);
    }
    assert [next][..0] == [];
    WidthAppend(x + line, [next]);
    WidthAppend(x, line);
  }

  /** Two sequences that share a suffix still share it after cutting the front of both. */
  lemma CutBoth(x: seq<CodePoint>, line: seq<CodePoint>, below: seq<CodePoint>,
                piece: seq<CodePoint>, later: seq<CodePoint>)
    requires x + (line + below) == piece + later
    requires |piece| <= |x| + |line|
    ensures later == (x + line)[|piece|..] + below
  {
    assert (x + line) + below == piece + later;
    assert later == (piece + later)[|piece|..];
  }

  lemma FlattenNothing()
    ensures Flatten<CodePoint>([]) == []
  {}

  /** Greedy lines of a text are at most as many as the pieces of any fitting split of a text that ends with it. */
  lemma {:induction false} GreedyNeedsFewest(lines: seq<seq<CodePoint>>, x: seq<CodePoint>,
                                             pieces: seq<seq<CodePoint>>, limit: int)
    requires Greedy(lines, limit)
    requires FittingSplit(x + Flatten(lines), pieces, limit)
    ensures |lines| <= |pieces|
    decreases |lines|
  {
    hide Width, Flatten;
    if 0 < |lines| {
      FlattenFront(lines);
      FlattenNothing();
      assert x + Flatten(lines) != [] by {
        assert |x + Flatten(lines)| >= |lines[0]|;
      }
      var line, below, piece := lines[0], lines[1..], pieces[0];
      if 1 < |lines| {
        FlattenFront(pieces);
        if |x| + |line| < |piece| {
          FlattenFront(below);
          var next, rest := below[0][0], below[0][1..] + Flatten(below[1..]);
          assert piece <= x + line + [next] + rest by {
            assert below[0] == [next] + below[0][1..];
            assert x + Flatten(lines) == x + line + [next] + rest;
          }
          ReachingPastIsTooWide(x, line, next, rest, piece, limit);
        }
        CutBoth(x, line, Flatten(below), piece, Flatten(pieces[1..]));
        GreedyNeedsFewest(below, (x + line)[|piece|..], pieces[1..], limit);
      }
    }
  }

  /** Some line is too wide exactly when the limit is one column and the text has a wide glyph. */
  lemma {:induction false} LinesFitUnless(lines: seq<seq<CodePoint>>, limit: int)
    requires limit >= 1
    requires forall i :: 0 <= i < |lines| ==> LineFits(lines[i], limit)
    ensures FittingSplit(Flatten(lines), lines, limit) <==> limit >= 2 || !HasWide(Flatten(lines))
  {
    if lines != [] {
      LinesFitUnless(lines[1..], limit);
      FlattenFront(lines);
      var first, rest := lines[0], Flatten(lines[1..]);
      assert HasWide(first + rest) <==> HasWide(first) || HasWide(rest) by {
        assert forall i :: 0 <= i < |first| ==> (first + rest)[i] == first[i];
        assert forall i :: 0 <= i < |rest| ==> (first + rest)[|first| + i] == rest[i];
      }
      FittingMeansNarrow(first, limit);
      assert lines == [first] + lines[1..];
    }
  }

  /** A line fits one column only if it has no wide glyph; a single glyph always fits two. */
  lemma FittingMeansNarrow(line: seq<CodePoint>, limit: int)
    requires limit >= 1 && LineFits(line, limit)
    ensures Width(line) <= limit <==> limit >= 2 || !HasWide(line)
  {
    if |line| == 1 {
      assert line[..0] == [];
    }
    if HasWide(line) {
      var i: nat :| i < |line| && IsWide(line[i]);
      assert line[..i + 1][..i] == line[..i];
      if i + 1 < |line| {
        WidthGrows(line, i + 1, |line|);
      }
      assert line[..|line|] == line;
    }
  }

  /** Extending the last line keeps the lines greedy: every earlier break depends only on its first glyph. */
  lemma GrowKeepsGreedy(lines: seq<seq<CodePoint>>, current: seq<CodePoint>, glyph: CodePoint, limit: int)
    requires current == [] ==> lines == []
    requires current != [] ==> Greedy(lines + [current], limit)
    ensures Greedy(lines + [current + [glyph]], limit)
  {
    hide Width;
    if current != [] {
      var before, after := lines + [current], lines + [current + [glyph]];
      assert forall i :: 0 <= i < |lines| ==> after[i] == before[i];
      assert after[|lines|][0] == before[|lines|][0];
    }
  }

  /** Starting a new line for a glyph that did not fit keeps the lines greedy. */
  lemma BreakKeepsGreedy(lines: seq<seq<CodePoint>>, current: seq<CodePoint>, glyph: CodePoint, limit: int)
    requires Greedy(lines + [current], limit)
    requires limit < Width(current) + GlyphWidth(glyph)
    ensures Greedy(lines + [current] + [[glyph]], limit)
  {
    hide Width;
    var before, after := lines + [current], lines + [current] + [[glyph]];
    assert forall i :: 0 <= i < |before| ==> after[i] == before[i];
  }

  /** Wrapping: nothing is lost, lines fit exactly when they can, and no fitting split has fewer lines. */
  method WrapToWidth(text: seq<CodePoint>, limit: int) returns (lines: seq<seq<CodePoint>>)
    ensures Flatten(lines) == text
    ensures limit <= 0 && text != [] ==> lines == [text]
    ensures limit >= 1 ==> Greedy(lines, limit)
    ensures FittingSplit(text, lines, limit) <==>
              text == [] || limit >= 2 || (limit == 1 && !HasWide(text))
    ensures forall pieces :: FittingSplit(text, pieces, limit) ==> |lines| <= |pieces|
  {
    if text == [] { return []; }
    if limit <= 0 {
      lines := [text];
      assert Flatten(lines) == text + Flatten([]);
      WidthGrows(text, 0, |text|);
      assert text[..|text|] == text;
      assert limit < Width(lines[0]);
      return;
    }
    lines := WrapPositive(text, limit);
    LinesFitUnless(lines, limit);
    forall pieces | FittingSplit(text, pieces, limit) ensures |lines| <= |pieces| {
      assert [] + Flatten(lines) == text;
      GreedyNeedsFewest(lines, [], pieces, limit);
    }
  }

  /** What the wrapping loop has made of the text seen so far. */
  ghost predicate Wrapped(seen: seq<CodePoint>, lines: seq<seq<CodePoint>>, current: seq<CodePoint>, limit: int) {
    && Flatten(lines) + current == seen
    && (forall j :: 0 <= j < |lines| ==> LineFits(lines[j], limit))
    && if current == [] then lines == [] else LineFits(current, limit) && Greedy(lines + [current], limit)
  }

  lemma WrappedNothing(limit: int)
    ensures Wrapped([], [], [], limit) && Width([]) == 0
  {
  }

  /** The glyph still fits, or is the first of all. */
  lemma WrappedGrows(seen: seq<CodePoint>, lines: seq<seq<CodePoint>>, current: seq<CodePoint>,
                     glyph: CodePoint, limit: int)
    requires Wrapped(seen, lines, current, limit) && limit >= 1
    requires current == [] || Width(current) + GlyphWidth(glyph) <= limit
    ensures Wrapped(seen + [glyph], lines, current + [glyph], limit)
    ensures Width(current + [glyph]) == Width(current) + GlyphWidth(glyph)
  {
    hide Width, Flatten, Greedy;
    SingleWidth(glyph);
    WidthAppend(current, [glyph]);
    GrowKeepsGreedy(lines, current, glyph, limit);
    Regroup(Flatten(lines), current, [glyph]);
    assert current == [] ==> current + [glyph] == [glyph];
  }

  /** The glyph does not fit and starts a new line. */
  lemma WrappedBreaks(seen: seq<CodePoint>, lines: seq<seq<CodePoint>>, current: seq<CodePoint>,
                      glyph: CodePoint, limit: int)
    requires Wrapped(seen, lines, current, limit) && limit >= 1
    requires current != [] && limit < Width(current) + GlyphWidth(glyph)
    ensures Wrapped(seen + [glyph], lines + [current], [glyph], limit)
    ensures Width([glyph]) == GlyphWidth(glyph)
  {
    hide Width, Flatten, Greedy;
    SingleWidth(glyph);
    FlattenAppend(lines, current);
    BreakKeepsGreedy(lines, current, glyph, limit);
  }

  lemma WrappedEnds(seen: seq<CodePoint>, lines: seq<seq<CodePoint>>, current: seq<CodePoint>, limit: int)
    requires Wrapped(seen, lines, current, limit)
    ensures var all := if current == [] then lines else lines + [current];
            && Flatten(all) == seen && Greedy(all, limit)
            && forall j :: 0 <= j < |all| ==> LineFits(all[j], limit)
  {
    hide LineFits, Flatten;
    if current == [] {
      assert Flatten(lines) + [] == Flatten(lines);
    } else {
      FlattenAppend(lines, current);
    }
  }

  /** The wrapping loop, for a limit of at least one column. */
  method WrapPositive(text: seq<CodePoint>, limit: int) returns (lines: seq<seq<CodePoint>>)
    requires limit >= 1
    ensures Flatten(lines) == text && Greedy(lines, limit)
    ensures forall i :: 0 <= i < |lines| ==> LineFits(lines[i], limit)
  {
    hide *;
    lines := [];
    var current, width := [], 0;
    WrappedNothing(limit);
    for i := 0 to |text|
      invariant Wrapped(text[..i], lines, current, limit)
      invariant width == Width(current)
    {
      var glyph := text[i];
      var glyphWidth := GlyphWidth(glyph);
      assert text[..i + 1] == text[..i] + [glyph];
      if current != [] && width + glyphWidth > limit {
        WrappedBreaks(text[..i], lines, current, glyph, limit);
        lines := lines + [current];
        current := [];
        width := 0;
        assert current + [glyph] == [glyph];
      } else {
        WrappedGrows(text[..i], lines, current, glyph, limit);
      }
      current := current + [glyph];
      width := width + glyphWidth;
    }
    assert text[..|text|] == text;
    WrappedEnds(text, lines, current, limit);
    if current != [] { lines := lines + [current]; }
  }

  /** The first line of a wrapped text is what clamping the text keeps. */
  lemma FirstLineIsClamp(lines: seq<seq<CodePoint>>, limit: int, k: nat)
    requires lines != [] && Greedy(lines, limit) && Width(lines[0]) <= limit
    requires LongestFit(Flatten(lines), k, limit)
    ensures lines[0] == Flatten(lines)[..k]
  {
    hide Flatten, Width;
    var text, first := Flatten(lines), lines[0];
    FlattenFront(lines);
    FlattenNothing();
    assert text[..|first|] == first;
    if |first| < k {
      assert text == first + Flatten(lines[1..]);
      assert lines[1..] != [];
      FlattenFront(lines[1..]);
      var rest := lines[1][1..] + Flatten(lines[2..]);
      assert lines[1..][1..] == lines[2..];
      assert Flatten(lines[1..]) == [lines[1][0]] + rest;
      assert text[..k] <= [] + first + [lines[1][0]] + rest;
      ReachingPastIsTooWide([], first, lines[1][0], rest, text[..k], limit);
      assert false;
    }
  }
}
