/**
 * Match highlighting of the selected result in `entry_backend_harfbuzz_update`
 * (src/entry_backend/harfbuzz.c): the result is cut into the text before
 * the first case-insensitive occurrence of the input, the occurrence itself
 * and the text after it; the three are drawn one after the other, the match
 * in the highlight colour, and their extents are combined into one so that a
 * single background box can be drawn around them all.
 */
module MatchHighlight {
  import opened Base
  import opened HexColor
  import opened ThemedText

  /**
   * `utf8_strcasestr`, which lives in a Unicode module that is not part of
   * this model: given a haystack and a needle, the byte offset of a match, or
   * None. A match found is as long as the needle and lies inside the haystack.
   */
  type Finder = find: (Text, Text) -> Option<nat>
    | forall hay: Text, needle: Text :: find(hay, needle).Some? ==> find(hay, needle).value + |needle| <= |hay|
    witness (hay: Text, needle: Text) => None

  /** The three parts of the selected result; the match and the text after it may be absent. */
  datatype Segments = Segments(prematch: Text, found: Option<Text>, postmatch: Option<Text>)

  /** The parts that are drawn, in drawing order. */
  function Pieces(s: Segments): (ps: seq<Text>)
    ensures 1 <= |ps| <= 3 && ps[0] == s.prematch
  {
    [s.prematch]
      + (if s.found.Some? then [s.found.value] else [])
      + (if s.postmatch.Some? then [s.postmatch.value] else [])
  }

  function Concat(ps: seq<Text>): Text
  {
    if ps == [] then [] else ps[0] + Concat(ps[1..])
  }

  lemma ConcatThree(a: Text, b: Text, c: Text)
    ensures Concat([a, b]) == a + b
    ensures Concat([a, b, c]) == a + b + c
  {
    assert Concat([b]) == b by { assert [b][1..] == []; }
    assert Concat([c]) == c by { assert [c][1..] == []; }
    assert Concat([a, b]) == a + Concat([b]) by { assert [a, b][1..] == [b]; }
    assert Concat([b, c]) == b + Concat([c]) by { assert [b, c][1..] == [c]; }
    assert Concat([a, b, c]) == a + Concat([b, c]) by { assert [a, b, c][1..] == [b, c]; }
  }

  /** A match is looked for only when there is input and the highlight colour is visible. */
  function Locate(result: Text, input: Text, highlightAlpha: real, find: Finder): (at: Option<nat>)
    ensures at.Some? ==> |input| > 0 && at.value + |input| <= |result|
    ensures at.Some? ==> at == find(result, input)
  {
    if |input| > 0 && highlightAlpha != 0.0 then find(result, input) else None
  }

  /**
   * The split: with no match the whole result is the prematch. With a match
   * at offset p the prematch is the p bytes before it, the match the next
   * `|input|` bytes, and the rest is the postmatch, kept only when it is
   * not empty.
   */
  function Split(result: Text, input: Text, at: Option<nat>): (s: Segments)
    requires at.Some? ==> at.value + |input| <= |result|
    ensures s.prematch <= result
    ensures s.found.Some? <==> at.Some?
    ensures s.found.Some? ==> |s.found.value| == |input|
    ensures s.postmatch.Some? ==> s.found.Some?
  {
    match at
    case None => Segments(result, None, None)
    case Some(p) =>
      var post := |result| - p - |input|;
      Segments(result[..p], Some(result[p..p + |input|]), if post > 0 then Some(result[p + |input|..]) else None)
  }

  /**
   * The parts drawn are the result, cut at most twice: put back together
   * they give the result; the match, when present, is exactly as long as the
   * input and starts where the prematch ends; the postmatch is there exactly
   * when something follows the match.
   */
  lemma SplitParts(result: Text, input: Text, at: Option<nat>)
    requires at.Some? ==> at.value + |input| <= |result|
    ensures var s := Split(result, input, at);
      && Concat(Pieces(s)) == result
      && (at.None? ==> s.found.None? && s.postmatch.None? && s.prematch == result)
      && (at.Some? ==> |s.prematch| == at.value && s.found.Some? && |s.found.value| == |input|)
      && (s.postmatch.Some? <==> at.Some? && at.value + |input| < |result|)
      && (s.postmatch.Some? ==> s.found.Some? && s.postmatch.value != [])
  {
    var ps := Pieces(Split(result, input, at));
    match at {
      case None =>
        assert ps == [result] && ps[1..] == [];
        assert Concat(ps) == result + [];
      case Some(p) =>
        MatchPieces(result, |input|, p, ps);
    }
  }

  /** The parts of a result cut around a match of length n at offset p join back to the result. */
  lemma MatchPieces(result: Text, n: nat, p: nat, ps: seq<Text>)
    requires p + n <= |result|
    requires ps == [result[..p], result[p..p + n]] + (if p + n < |result| then [result[p + n..]] else [])
    ensures Concat(ps) == result
  {
    ConcatThree(result[..p], result[p..p + n], result[p + n..]);
    if p + n < |result| {
      assert ps == [result[..p], result[p..p + n], result[p + n..]];
      assert result == result[..p] + result[p..p + n] + result[p + n..];
    } else {
      assert ps == [result[..p], result[p..p + n]];
      assert result == result[..p] + result[p..p + n];
    }
  }

  // ---------------------------------------------------------------------
  // Combined extents
  // ---------------------------------------------------------------------

  /**
   * The extents of two runs drawn one after the other, the second starting
   * where the first's pen stops: the ink runs from the first run's leftmost
   * pixel to the second run's rightmost pixel, and the advances add up.
   */
  function Append(left: Extents, right: Extents): (e: Extents)
    ensures e.xBearing == left.xBearing
    ensures e.xBearing + e.width == left.xAdvance + right.xBearing + right.width
    ensures e.xAdvance == left.xAdvance + right.xAdvance
    ensures e.yBearing == left.yBearing && e.height == left.height && e.yAdvance == left.yAdvance
  {
    left.(width := left.xAdvance - left.xBearing + right.xBearing + right.width,
          xAdvance := left.xAdvance + right.xAdvance)
  }

  /**
   * The extents of the selected row: the prematch's; or, when there is a
   * match and the prematch is empty, the match's; otherwise the prematch's
   * with the match appended; then the postmatch appended if there is one.
   */
  function Combined(s: Segments, measure: Text -> Extents): (e: Extents)
    ensures s.found.None? && s.postmatch.None? ==> e == measure(s.prematch)
    ensures var first := if s.found.Some? && s.prematch == [] then measure(s.found.value) else measure(s.prematch);
      e.yBearing == first.yBearing && e.height == first.height && e.yAdvance == first.yAdvance
  {
    var pre := measure(s.prematch);
    var upToMatch :=
      match s.found
      case None => pre
      case Some(m) => if s.prematch == [] then measure(m) else Append(pre, measure(m));
    match s.postmatch
    case None => upToMatch
    case Some(post) => Append(upToMatch, measure(post))
  }

  /** Where the pen is once the first k parts have been drawn. */
  function PenAt(ps: seq<Text>, measure: Text -> Extents, k: nat): real
    requires k <= |ps|
  {
    if k == 0 then 0.0 else PenAt(ps, measure, k - 1) + measure(ps[k - 1]).xAdvance
  }

  /**
   * Whatever the split, the combined advance is the sum of the parts'
   * advances, and the combined ink runs from the ink start of the first
   * non-empty part drawn to the ink end of the last part, each measured from
   * the pen position the part was drawn at. This needs the empty text to
   * have no advance, since an empty prematch is drawn but left out.
   */
  lemma InkSpan(s: Segments, measure: Text -> Extents)
    requires s.postmatch.Some? ==> s.found.Some?
    requires measure([]).xAdvance == 0.0
    ensures var ps := Pieces(s);
      var e := Combined(s, measure);
      var first := if s.found.Some? && s.prematch == [] then 1 else 0;
      var last := |ps| - 1;
      && e.xAdvance == PenAt(ps, measure, |ps|)
      && e.xBearing == PenAt(ps, measure, first) + measure(ps[first]).xBearing
      && e.xBearing + e.width == PenAt(ps, measure, last) + measure(ps[last]).xBearing + measure(ps[last]).width
  {
    var ps := Pieces(s);
    assert PenAt(ps, measure, 1) == measure(s.prematch).xAdvance;
    if s.found.Some? {
      assert ps[1] == s.found.value;
      assert PenAt(ps, measure, 2) == measure(s.prematch).xAdvance + measure(s.found.value).xAdvance;
      if s.postmatch.Some? {
        assert ps[2] == s.postmatch.value;
      }
    }
  }

  /** With no match the row measures as the whole result. */
  lemma NoMatchExtents(result: Text, input: Text, highlightAlpha: real, find: Finder, measure: Text -> Extents)
    requires find(result, input).None?
    ensures Combined(Split(result, input, Locate(result, input, highlightAlpha, find)), measure) == measure(result)
  {
  }

  /** A match covering the whole result measures as the whole result too. */
  lemma WholeMatchExtents(result: Text, input: Text, measure: Text -> Extents)
    requires |input| == |result|
    ensures Combined(Split(result, input, Some(0)), measure) == measure(result)
  {
    assert result[0..|input|] == result;
  }

  // ---------------------------------------------------------------------
  // Drawing
  // ---------------------------------------------------------------------

  /**
   * One pass of drawing: each part at the pen position the parts before it
   * leave, the match in the highlight colour and the others in the
   * selection theme's foreground colour.
   */
  function PassDraws(s: Segments, foreground: Color, highlight: Color, measure: Text -> Extents): (ops: seq<DrawOp>)
    ensures |ops| == |Pieces(s)|
  {
    var ps := Pieces(s);
    seq(|ps|, k requires 0 <= k < |ps| =>
      ShowText(ps[k], if k == 1 && s.found.Some? then highlight else foreground, PenAt(ps, measure, k)))
  }

  /**
   * The two-pass loop for the selected row: draw the parts; if the
   * selection theme has a visible background, paint one box around the
   * combined extents and draw the parts again.
   */
  function HighlightDraws(s: Segments, theme: Theme, highlight: Color, fontHeight: real, measure: Text -> Extents)
    : (r: (Extents, seq<DrawOp>))
    ensures r.0 == Combined(s, measure)
    ensures |r.1| == if theme.background.a == 0.0 then |Pieces(s)| else 2 * |Pieces(s)| + 1
  {
    var e := Combined(s, measure);
    var pass := PassDraws(s, theme.foreground, highlight, measure);
    if theme.background.a == 0.0 then (e, pass)
    else (e, pass + [FillBox(theme.background, BoxAround(e, theme.padding, fontHeight, theme.cornerRadius))] + pass)
  }

  /**
   * When no match is found the selected row is drawn exactly as
   * `render_text_themed` draws it with the selection theme.
   */
  lemma UnmatchedAsThemed(result: Text, theme: Theme, highlight: Color, fontHeight: real, measure: Text -> Extents)
    ensures HighlightDraws(Split(result, [], None), theme, highlight, fontHeight, measure)
         == ThemedDraws(result, theme, fontHeight, measure)
  {
    var s := Split(result, [], None);
    assert Pieces(s) == [result];
    assert PassDraws(s, theme.foreground, highlight, measure) == Pass(result, theme);
  }

  /**
   * The selected row drawn with its match highlighted: its extents are the
   * combined ones; the texts of one pass join back into the whole result;
   * the last thing drawn is a whole pass, so no part is hidden by the box;
   * and exactly one box, around the combined extents, is painted precisely
   * when the selection background is visible.
   */
  lemma HighlightLayers(result: Text, input: Text, at: Option<nat>, theme: Theme, highlight: Color,
                        fontHeight: real, measure: Text -> Extents)
    requires at.Some? ==> at.value + |input| <= |result|
    ensures var s := Split(result, input, at);
      var (e, ops) := HighlightDraws(s, theme, highlight, fontHeight, measure);
      var pass := PassDraws(s, theme.foreground, highlight, measure);
      && e == Combined(s, measure)
      && Concat(Texts(pass)) == result
      && |pass| <= |ops| && ops[|ops| - |pass|..] == pass
      && Boxes(ops) == if theme.background.a == 0.0 then []
                       else [BoxAround(e, theme.padding, fontHeight, theme.cornerRadius)]
  {
    var s := Split(result, input, at);
    var (e, ops) := HighlightDraws(s, theme, highlight, fontHeight, measure);
    var pass := PassDraws(s, theme.foreground, highlight, measure);
    var ps := Pieces(s);
    OnlyText(pass);
    assert Texts(pass) == ps;
    SplitParts(result, input, at);
    if theme.background.a != 0.0 {
      var box := [FillBox(theme.background, BoxAround(e, theme.padding, fontHeight, theme.cornerRadius))];
      assert Boxes(box) == [box[0].box] by { assert box[1..] == []; }
      BoxesAppend(pass, box);
      BoxesAppend(pass + box, pass);
    }
  }
}
