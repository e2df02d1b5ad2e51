/**
  The glyph atlas of the GL renderer: one row of the 95 printable ASCII glyphs
  (space to tilde), each one font width wide, and the texture coordinates the
  mesh builder computes to pick a glyph out of it. Texture coordinates are
  idealised as reals; the rasterisation itself is not part of this model.
 */
module GlyphAtlas {
  import opened Terminal

  /** The first glyph in the strip, a space. */
  const FirstGlyph: int := 32
  /** Glyphs in the strip: 32 .. 126. */
  const GlyphCount: int := 95

  predicate InStrip(c: int) {
    FirstGlyph <= c < FirstGlyph + GlyphCount
  }

  /** The code unit used for the texture lookup: a NUL cell is drawn as a
      space; every other code unit is used as it is, in the strip or not. */
  function GlyphCode(c: JChar): (g: JChar)
    ensures g == c <==> c != 0
    ensures c == 0 ==> g == 32 && InStrip(g as int)
  {
    if c == 0 then 32 else c
  }

  /** The left edge, in pixels, at which glyph c is drawn into the atlas. */
  function GlyphLeft(c: int, fontWidth: real): real {
    (c - FirstGlyph) as real * fontWidth
  }

  /** The atlas bitmap's width in pixels: 95 font widths, truncated. */
  function AtlasWidth(fontWidth: real): (w: int)
    requires fontWidth > 0.0
    ensures w as real <= fontWidth * 95.0 < (w + 1) as real
  {
    (fontWidth * 95.0).Floor
  }

  /** Glyphs drawn into the atlas sit side by side in code order, each one
      font width wide: the first starts at the atlas' left edge, each next one
      where the previous one ends, and the last ends at 95 font widths. */
  lemma GlyphsTileStrip(c: int, fontWidth: real)
    requires fontWidth > 0.0 && InStrip(c)
    ensures GlyphLeft(FirstGlyph, fontWidth) == 0.0 <= GlyphLeft(c, fontWidth)
    ensures GlyphLeft(c + 1, fontWidth) == GlyphLeft(c, fontWidth) + fontWidth
    ensures GlyphLeft(c + 1, fontWidth) <= GlyphLeft(FirstGlyph + GlyphCount, fontWidth)
    ensures GlyphLeft(FirstGlyph + GlyphCount, fontWidth) == 95.0 * fontWidth
  {
    LeftMonotone(FirstGlyph, c, fontWidth);
    LeftMonotone(c + 1, FirstGlyph + GlyphCount, fontWidth);
    NextGlyphLeft(c, fontWidth);
  }

  lemma LeftMonotone(c: int, d: int, fontWidth: real)
    requires c <= d && fontWidth > 0.0
    ensures GlyphLeft(c, fontWidth) <= GlyphLeft(d, fontWidth)
  {
    var gap := (d - c) as real;
    assert GlyphLeft(d, fontWidth) - GlyphLeft(c, fontWidth) == gap * fontWidth;
    assert gap * fontWidth >= 0.0;
  }

  lemma NextGlyphLeft(c: int, fontWidth: real)
    ensures GlyphLeft(c + 1, fontWidth) == GlyphLeft(c, fontWidth) + fontWidth
  {
  }

  /** u at the glyph's left edge, as the mesh builder computes it. */
  function TexU1(c: int, fontWidth: real): real
    requires fontWidth > 0.0
  {
    ((c - 32) as real * fontWidth) / (fontWidth * 95.0)
  }

  /** u at the glyph's right edge. */
  function TexU2(c: int, fontWidth: real): real
    requires fontWidth > 0.0
  {
    TexU1(c, fontWidth) + (fontWidth / (fontWidth * 95.0))
  }

  /** The font width cancels: u is the glyph's position in the strip, and
      u1 is its left edge divided by the width of 95 glyphs. */
  lemma TexCoordsNormalized(c: int, fontWidth: real)
    requires fontWidth > 0.0
    ensures TexU1(c, fontWidth) == (c - 32) as real / 95.0
    ensures TexU2(c, fontWidth) == (c - 31) as real / 95.0
    ensures TexU1(c, fontWidth) == GlyphLeft(c, fontWidth) / (fontWidth * 95.0)
  {
    var k := (c - 32) as real;
    calc {
      TexU1(c, fontWidth);
      (k * fontWidth) / (fontWidth * 95.0);
      { assert k * fontWidth == (k / 95.0) * (fontWidth * 95.0); }
      k / 95.0;
    }
    assert fontWidth / (fontWidth * 95.0) == 1.0 / 95.0;
  }

  /** The texture is the bitmap, AtlasWidth pixels wide, but u is normalised
      by 95 font widths. Scaled back to bitmap pixels, the sampled edges of a
      strip glyph lie left of the edges it was drawn at, by less than one
      pixel: (c - 32) / 95 of the width lost to truncating the bitmap. */
  lemma SampledEdgesDrift(c: int, fontWidth: real)
    requires fontWidth > 0.0 && InStrip(c)
    ensures var w := AtlasWidth(fontWidth) as real;
      0.0 <= GlyphLeft(c, fontWidth) - TexU1(c, fontWidth) * w < 1.0
    ensures var w := AtlasWidth(fontWidth) as real;
      0.0 <= GlyphLeft(c + 1, fontWidth) - TexU2(c, fontWidth) * w < 1.0
  {
    TexCoordsNormalized(c, fontWidth);
    EdgeDrift(c - 32, fontWidth);
    EdgeDrift(c - 31, fontWidth);
  }

  /** Glyph slot k of 95: k font widths against k / 95 of the bitmap. */
  lemma EdgeDrift(k: int, fontWidth: real)
    requires fontWidth > 0.0 && 0 <= k <= 95
    ensures var w := AtlasWidth(fontWidth) as real;
      0.0 <= k as real * fontWidth - (k as real / 95.0) * w < 1.0
  {
    var w := AtlasWidth(fontWidth) as real;
    var q := k as real / 95.0;
    var d := fontWidth * 95.0 - w;
    assert 0.0 <= d < 1.0;
    assert 0.0 <= q <= 1.0;
    assert k as real * fontWidth == q * (fontWidth * 95.0);
    assert k as real * fontWidth - q * w == q * d;
    ScaledFraction(q, d);
  }

  lemma ScaledFraction(q: real, d: real)
    requires 0.0 <= q <= 1.0 && 0.0 <= d < 1.0
    ensures 0.0 <= q * d < 1.0
  {
    assert q * d <= d by {
      assert d - q * d == (1.0 - q) * d;
    }
  }

  /** A glyph of the strip is sampled from its own 1/95 of the texture, and
      neighbouring glyphs share an edge. */
  lemma GlyphInStrip(c: int, fontWidth: real)
    requires fontWidth > 0.0 && InStrip(c)
    ensures 0.0 <= TexU1(c, fontWidth) < TexU2(c, fontWidth) <= 1.0
    ensures TexU2(c, fontWidth) - TexU1(c, fontWidth) == 1.0 / 95.0
    ensures TexU2(c, fontWidth) == TexU1(c + 1, fontWidth)
  {
    TexCoordsNormalized(c, fontWidth);
    TexCoordsNormalized(c + 1, fontWidth);
  }

  /** Code units other than NUL are not substituted: one past the strip
      samples beyond its right edge, one before it beyond its left edge. */
  lemma GlyphOutsideStrip(c: int, fontWidth: real)
    requires fontWidth > 0.0 && !InStrip(c)
    ensures c > 126 ==> TexU1(c, fontWidth) >= 1.0 && TexU2(c, fontWidth) > 1.0
    ensures c < 32 ==> TexU1(c, fontWidth) < 0.0
  {
    TexCoordsNormalized(c, fontWidth);
  }

  // ---------------------------------------------------------------------------
  // Vertical placement of the glyphs in the atlas

  /** The baseline at which createFontTexture draws every glyph, from the line
      spacing and the (negative) ascent, both rounded up: as written it is
      lineSpacingAndAscent - lineSpacing. */
  function AtlasBaseline(lineSpacing: int, ascent: int): int {
    var lineSpacingAndAscent := lineSpacing + ascent;
    lineSpacingAndAscent - lineSpacing
  }

  /** The baseline as evidently intended: the ascent below the bitmap's top,
      so the part of a glyph above its baseline starts at row 0. */
  function AtlasBaselineCorrected(lineSpacing: int, ascent: int): int {
    var lineSpacingAndAscent := lineSpacing + ascent;
    lineSpacing - lineSpacingAndAscent
  }

  /** As written, the baseline is the ascent itself, which is negative: the
      whole part of every glyph above its baseline, rows [baseline + ascent,
      baseline), lies above the bitmap's first row. */
  lemma AtlasBaselineAboveBitmap(lineSpacing: int, ascent: int)
    requires ascent < 0
    ensures AtlasBaseline(lineSpacing, ascent) == ascent < 0
    ensures AtlasBaseline(lineSpacing, ascent) + ascent < AtlasBaseline(lineSpacing, ascent) <= -1
  {
  }

  /** Corrected, the part above the baseline fills rows [0, -ascent), which lie
      inside a bitmap one line spacing high. */
  lemma AtlasBaselineCorrectedInBitmap(lineSpacing: int, ascent: int)
    requires ascent < 0 && -ascent <= lineSpacing
    ensures AtlasBaselineCorrected(lineSpacing, ascent) + ascent == 0
    ensures 0 < AtlasBaselineCorrected(lineSpacing, ascent) <= lineSpacing
  {
  }
}
