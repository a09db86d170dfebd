/**
 * The glyph-placement loop of `render_hb_buffer` (src/entry_backend/harfbuzz.c).
 *
 * HarfBuzz reports advances and offsets as 26.6 fixed-point numbers, that is
 * as whole multiples of 1/64 of a canvas unit, and the source divides each by
 * 64.0 before adding it to a running pen position. The model keeps every
 * coordinate in those 1/64 units, so no division appears: a canvas
 * coordinate is the model's integer divided by 64.
 */
module GlyphPlacement {
  import opened Base

  /** `hb_glyph_info_t`, of which only the glyph index (`codepoint` after shaping) is used. */
  datatype GlyphInfo = GlyphInfo(codepoint: nat)

  /** `hb_glyph_position_t`, in 1/64 units, with HarfBuzz's y axis pointing up. */
  datatype GlyphPosition = GlyphPosition(xAdvance: int, yAdvance: int, xOffset: int, yOffset: int)

  /** `cairo_glyph_t`: a glyph index and where it is drawn, in 1/64 units, with Cairo's y axis pointing down. */
  datatype PlacedGlyph = PlacedGlyph(index: nat, x: int, y: int)

  /** The pen's horizontal travel over a run of glyphs. */
  function PenX(pos: seq<GlyphPosition>): int
  {
    if pos == [] then 0 else PenX(pos[..|pos| - 1]) + pos[|pos| - 1].xAdvance
  }

  /** The pen's vertical travel over a run of glyphs, in HarfBuzz's y-up sense. */
  function PenY(pos: seq<GlyphPosition>): int
  {
    if pos == [] then 0 else PenY(pos[..|pos| - 1]) + pos[|pos| - 1].yAdvance
  }

  /**
   * Where glyph k is drawn: at the pen position reached after the glyphs
   * before it, moved by its own offset. Cairo's y axis points the other way,
   * so the vertical travel and offset are subtracted.
   */
  function Placement(infos: seq<GlyphInfo>, pos: seq<GlyphPosition>, k: nat): (g: PlacedGlyph)
    requires k < |infos| == |pos|
    ensures g.index == infos[k].codepoint
    ensures k == 0 ==> g.x == pos[0].xOffset && g.y == -pos[0].yOffset
    ensures k > 0 ==> g.x - pos[k].xOffset == Placement(infos, pos, k - 1).x - pos[k - 1].xOffset + pos[k - 1].xAdvance
    ensures k > 0 ==> g.y + pos[k].yOffset == Placement(infos, pos, k - 1).y + pos[k - 1].yOffset - pos[k - 1].yAdvance
  {
    assert k > 0 ==> pos[..k][..k - 1] == pos[..k - 1];
    PlacedGlyph(infos[k].codepoint, PenX(pos[..k]) + pos[k].xOffset, -PenY(pos[..k]) - pos[k].yOffset)
  }

  /** The loop that fills `cairo_glyphs` from the shaped buffer. */
  method PlaceGlyphs(infos: seq<GlyphInfo>, pos: seq<GlyphPosition>) returns (glyphs: array<PlacedGlyph>)
    requires |infos| == |pos|
    ensures fresh(glyphs) && glyphs.Length == |pos|
    ensures forall k | 0 <= k < |pos| :: glyphs[k] == Placement(infos, pos, k)
  {
    glyphs := new PlacedGlyph[|pos|];
    var x, y := 0, 0;
    for i := 0 to |pos|
      invariant x == PenX(pos[..i]) && y == -PenY(pos[..i])
      invariant forall k | 0 <= k < i :: glyphs[k] == Placement(infos, pos, k)
    {
      glyphs[i] := PlacedGlyph(infos[i].codepoint, x + pos[i].xOffset, y - pos[i].yOffset);
      assert pos[..i + 1][..i] == pos[..i];
      x := x + pos[i].xAdvance;
      y := y - pos[i].yAdvance;
    }
  }

  /**
   * `render_hb_buffer` without its drawing: place the glyphs, let Cairo
   * measure them (`glyphExtents` stands for `cairo_glyph_extents`), and move
   * the reported ink box down by the font's ascent, because the glyphs were
   * drawn in a frame translated by that much to put HarfBuzz's baseline where
   * Cairo expects the top of the text.
   */
  method RenderRun(infos: seq<GlyphInfo>, pos: seq<GlyphPosition>, ascent: real,
                   glyphExtents: seq<PlacedGlyph> -> Extents)
    returns (glyphs: array<PlacedGlyph>, extents: Extents)
    requires |infos| == |pos|
    ensures fresh(glyphs) && glyphs.Length == |pos|
    ensures forall k | 0 <= k < |pos| :: glyphs[k] == Placement(infos, pos, k)
    ensures var measured := glyphExtents(glyphs[..]);
      extents == measured.(yBearing := measured.yBearing + ascent)
  {
    glyphs := PlaceGlyphs(infos, pos);
    extents := glyphExtents(glyphs[..]);
    extents := extents.(yBearing := extents.yBearing + ascent);
  }

  // ---------------------------------------------------------------------
  // Runs placed one after the other
  // ---------------------------------------------------------------------

  lemma {:induction false} PenAppend(a: seq<GlyphPosition>, b: seq<GlyphPosition>)
    ensures PenX(a + b) == PenX(a) + PenX(b)
    ensures PenY(a + b) == PenY(a) + PenY(b)
    decreases |b|
  {
    if b == [] {
      assert a + b == a;
    } else {
      assert (a + b)[..|a + b| - 1] == a + b[..|b| - 1];
      PenAppend(a, b[..|b| - 1]);
    }
  }

  /**
   * Placing a run made of two parts puts every glyph of the second part
   * where placing that part alone puts it, moved by the pen travel of the
   * first part: shaping two pieces and drawing the second at the first's
   * advance lines the glyphs up as shaping them together does.
   */
  lemma Concatenation(infosA: seq<GlyphInfo>, posA: seq<GlyphPosition>,
                      infosB: seq<GlyphInfo>, posB: seq<GlyphPosition>, k: nat)
    requires |infosA| == |posA| && |infosB| == |posB| && k < |posB|
    ensures Placement(infosA + infosB, posA + posB, |posA| + k)
         == var g := Placement(infosB, posB, k);
            PlacedGlyph(g.index, g.x + PenX(posA), g.y - PenY(posA))
  {
    assert (posA + posB)[..|posA| + k] == posA + posB[..k];
    assert (posA + posB)[|posA| + k] == posB[k];
    assert (infosA + infosB)[|posA| + k] == infosB[k];
    PenAppend(posA, posB[..k]);
  }

  /**
   * Left to right: when no glyph moves the pen backwards and none carries a
   * horizontal offset, the glyphs are drawn at non-decreasing x.
   */
  lemma LeftToRight(infos: seq<GlyphInfo>, pos: seq<GlyphPosition>, j: nat, k: nat)
    requires |infos| == |pos| && j <= k < |pos|
    requires forall m | 0 <= m < |pos| :: pos[m].xAdvance >= 0 && pos[m].xOffset == 0
    ensures Placement(infos, pos, j).x <= Placement(infos, pos, k).x
  {
    assert pos[..k] == pos[..j] + pos[j..k];
    PenAppend(pos[..j], pos[j..k]);
    NonNegativeTravel(pos[j..k]);
  }

  lemma {:induction false} NonNegativeTravel(pos: seq<GlyphPosition>)
    requires forall m | 0 <= m < |pos| :: pos[m].xAdvance >= 0
    ensures PenX(pos) >= 0
  {
    if pos != [] {
      NonNegativeTravel(pos[..|pos| - 1]);
    }
  }
}
