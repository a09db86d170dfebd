/**
 * `render_text_themed` (src/entry_backend/harfbuzz.c): draw a run of text in
 * a theme's foreground colour and, when the theme has a visible background,
 * paint a rounded box over it and draw the text again on top. Drawing is
 * recorded as a list of operations; `measure` stands for shaping and
 * measuring the text (`render_text`), whose extents do not depend on colour.
 */
module ThemedText {
  import opened Base
  import opened HexColor

  /** `struct directional`: padding on each side of a background box. */
  datatype Directional = Directional(top: int, bottom: int, left: int, right: int)

  /** `struct text_theme`. */
  datatype Theme = Theme(foreground: Color, background: Color, padding: Directional, cornerRadius: nat)

  /**
   * A rounded background box: its top-left corner relative to the text's
   * origin, its size and its corner radius, in canvas units.
   */
  datatype Box = Box(x: int, y: int, width: int, height: int, radius: nat)

  /** One drawing step: a run of text at a horizontal offset from the current origin, or a filled box. */
  datatype DrawOp =
    | ShowText(text: Text, color: Color, x: real)
    | FillBox(color: Color, box: Box)

  function Ceil(x: real): (n: int)
    ensures x <= n as real < x + 1.0
  {
    -((-x).Floor)
  }

  /**
   * The box around text with the given extents: the corner sits the left
   * padding before the ink (rounded down) and the top padding above the
   * origin; the box is as wide as the ink plus the side paddings and as tall
   * as the font plus the top and bottom paddings, both rounded up.
   */
  function BoxAround(e: Extents, p: Directional, fontHeight: real, radius: nat): (b: Box)
    ensures b.x as real <= e.xBearing - p.left as real < b.x as real + 1.0
    ensures b.y == -p.top && b.radius == radius
    ensures e.width + (p.left + p.right) as real <= b.width as real < e.width + (p.left + p.right) as real + 1.0
    ensures fontHeight + (p.top + p.bottom) as real <= b.height as real < fontHeight + (p.top + p.bottom) as real + 1.0
  {
    Box((e.xBearing - p.left as real).Floor, -p.top,
        Ceil(e.width + (p.left + p.right) as real), Ceil(fontHeight + (p.top + p.bottom) as real),
        radius)
  }

  /**
   * The box starts at or before the padded left edge of the ink and reaches
   * to within one unit of its padded right edge; vertically it starts at the
   * top padding and reaches at least the padded font height.
   */
  lemma BoxCovers(e: Extents, p: Directional, fontHeight: real, radius: nat)
    ensures var b := BoxAround(e, p, fontHeight, radius);
      && b.x as real <= e.xBearing - p.left as real
      && (b.x + b.width) as real > e.xBearing + e.width + p.right as real - 1.0
      && b.y == -p.top
      && (b.y + b.height) as real >= fontHeight + p.bottom as real
  {
    var b := BoxAround(e, p, fontHeight, radius);
    var f := (e.xBearing - p.left as real).Floor;
    assert f as real > e.xBearing - p.left as real - 1.0;
    assert b.width as real >= e.width + (p.left + p.right) as real;
  }

  /**
   * The one-unit slack is real: with no padding, ink starting half a unit
   * in and one unit wide gets a box that ends half a unit before the ink.
   */
  lemma BoxShortfall()
    ensures var e := Extents(0.5, 0.0, 1.0, 1.0, 2.0, 0.0);
      var b := BoxAround(e, Directional(0, 0, 0, 0), 1.0, 0);
      (b.x + b.width) as real < e.xBearing + e.width
  {
    assert (0.5).Floor == 0;
    assert Ceil(1.0) == 1;
  }

  /** The boxes painted by a list of drawing steps, in order. */
  function Boxes(ops: seq<DrawOp>): (bs: seq<Box>)
    ensures |bs| <= |ops|
  {
    if ops == [] then []
    else (if ops[0].FillBox? then [ops[0].box] else []) + Boxes(ops[1..])
  }

  lemma {:induction false} BoxesAppend(a: seq<DrawOp>, b: seq<DrawOp>)
    ensures Boxes(a + b) == Boxes(a) + Boxes(b)
  {
    if a == [] {
      assert a + b == b;
    } else {
      var head := if a[0].FillBox? then [a[0].box] else [];
      assert (a + b)[0] == a[0] && (a + b)[1..] == a[1..] + b;
      BoxesAppend(a[1..], b);
      assert Boxes(a + b) == head + (Boxes(a[1..]) + Boxes(b));
      assert head + (Boxes(a[1..]) + Boxes(b)) == (head + Boxes(a[1..])) + Boxes(b);
    }
  }

  /** The texts drawn by a list of drawing steps, in order. */
  function Texts(ops: seq<DrawOp>): (ts: seq<Text>)
    ensures |ts| <= |ops|
  {
    if ops == [] then []
    else (if ops[0].ShowText? then [ops[0].text] else []) + Texts(ops[1..])
  }

  /** Steps that only draw text paint no box, and draw their texts in order. */
  lemma {:induction false} OnlyText(ops: seq<DrawOp>)
    requires forall k | 0 <= k < |ops| :: ops[k].ShowText?
    ensures Boxes(ops) == []
    ensures Texts(ops) == seq(|ops|, k requires 0 <= k < |ops| => ops[k].text)
  {
    if ops != [] {
      var tail := ops[1..];
      OnlyText(tail);
      var texts := seq(|ops|, k requires 0 <= k < |ops| => ops[k].text);
      var rest := seq(|tail|, k requires 0 <= k < |tail| => tail[k].text);
      assert texts == [ops[0].text] + rest;
    }
  }

  /** The text in the theme's foreground colour, drawn at the current origin. */
  function Pass(text: Text, theme: Theme): seq<DrawOp>
  {
    [ShowText(text, theme.foreground, 0.0)]
  }

  /**
   * `render_text_themed`: the extents of the text, and what is drawn: the
   * text; then, if the background is not fully transparent, the box in the
   * background colour and the text once more.
   */
  function ThemedDraws(text: Text, theme: Theme, fontHeight: real, measure: Text -> Extents)
    : (r: (Extents, seq<DrawOp>))
    ensures r.0 == measure(text)
    ensures |r.1| == if theme.background.a == 0.0 then 1 else 3
  {
    var e := measure(text);
    if theme.background.a == 0.0 then (e, Pass(text, theme))
    else (e, Pass(text, theme) + [FillBox(theme.background, BoxAround(e, theme.padding, fontHeight, theme.cornerRadius))]
             + Pass(text, theme))
  }

  /**
   * Whatever the theme, the extents are those of the text alone; the last
   * thing drawn is the text in the foreground colour, so the text is never
   * hidden by its box; every text step draws the given text; and exactly one
   * box, around the text's ink, is painted precisely when the background is
   * visible.
   */
  lemma ThemedLayers(text: Text, theme: Theme, fontHeight: real, measure: Text -> Extents)
    ensures var (e, ops) := ThemedDraws(text, theme, fontHeight, measure);
      && e == measure(text)
      && ops != [] && ops[|ops| - 1] == ShowText(text, theme.foreground, 0.0)
      && (forall k | 0 <= k < |ops| && ops[k].ShowText? :: ops[k].text == text)
      && Boxes(ops) == if theme.background.a == 0.0 then []
                       else [BoxAround(measure(text), theme.padding, fontHeight, theme.cornerRadius)]
  {
    var (e, ops) := ThemedDraws(text, theme, fontHeight, measure);
    var pass := Pass(text, theme);
    assert Boxes(pass) == [] by { assert pass[1..] == []; }
    if theme.background.a != 0.0 {
      var box := [FillBox(theme.background, BoxAround(e, theme.padding, fontHeight, theme.cornerRadius))];
      assert Boxes(box) == [box[0].box] by { assert box[1..] == []; }
      BoxesAppend(pass, box);
      BoxesAppend(pass + box, pass);
    }
  }
}
