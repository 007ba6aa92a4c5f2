/**
 * The dense width table: one PDF-space advance per glyph of the font, zero
 * everywhere except at the glyphs the message uses.
 */
module Widths {
  import opened Base

  /**
   * The width the table holds for glyph `g`:
   * `to_font_units(glyph_hor_advance(g).unwrap_or(0) as f32)`.
   * `advance` stands for the font's `glyph_hor_advance` query and
   * `toPdfUnits` for the conversion from font units to 1/1000 em.
   */
  function GlyphWidth(g: GlyphId, advance: GlyphId -> Option<U16>, toPdfUnits: int -> real): (w: real)
    ensures advance(g).Some? ==> w == toPdfUnits(advance(g).value)
    ensures advance(g).None? ==> w == toPdfUnits(0)
  {
    toPdfUnits(advance(g).UnwrapOr(0))
  }

  /**
   * `vec![0.0; num_glyphs]` written at each glyph-set key in ascending order;
   * indexing with a key not below `num_glyphs` panics, and the panic reports
   * the smallest such key, the first the ascending walk reaches.
   */
  method BuildWidths(numGlyphs: U16, glyphSet: GlyphSet, advance: GlyphId -> Option<U16>, toPdfUnits: int -> real)
    returns (r: Result<seq<real>>)
    ensures r.Ok? <==> forall g :: g in glyphSet ==> g < numGlyphs
    ensures r.Ok? ==> |r.value| == numGlyphs
    ensures r.Ok? ==> forall g :: 0 <= g < numGlyphs && g in glyphSet ==> r.value[g] == GlyphWidth(g, advance, toPdfUnits)
    ensures r.Ok? ==> forall g :: 0 <= g < numGlyphs && g !in glyphSet ==> r.value[g] == 0.0
    ensures r.Err? ==>
      exists g :: g in glyphSet && numGlyphs <= g && r.failure == WidthIndexOutOfBounds(g, numGlyphs) &&
        (forall h :: h in glyphSet && h < g ==> h < numGlyphs)
  {
    var widths := new real[numGlyphs](_ => 0.0);
    var keys := SortedKeys(glyphSet.Keys);
    for i := 0 to |keys|
      invariant forall g :: g in glyphSet && g < Visited(keys, i) ==> g < numGlyphs
      invariant forall g :: 0 <= g < numGlyphs ==> widths[g] == Expected(g, glyphSet, Visited(keys, i), advance, toPdfUnits)
    {
      var g := keys[i];
      VisitNext(glyphSet, keys, i);
      if g >= numGlyphs {
        assert keys[i] in keys;
        return Err(WidthIndexOutOfBounds(g, numGlyphs));
      }
      widths[g] := GlyphWidth(g, advance, toPdfUnits);
    }
    r := Ok(widths[..]);
  }

  /** The table entry of glyph `g` once the keys below `bound` have been written. */
  ghost function Expected(g: GlyphId, glyphSet: GlyphSet, bound: int, advance: GlyphId -> Option<U16>, toPdfUnits: int -> real): real {
    if g in glyphSet && g < bound then GlyphWidth(g, advance, toPdfUnits) else 0.0
  }
}
