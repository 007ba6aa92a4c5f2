/**
 * From the message to glyphs: the display glyph sequence (one glyph per
 * character, or a panic) and the glyph set (each used glyph with the first
 * character that produced it).
 */
module GlyphMapping {
  import opened Base

  /** The font's `glyph_index` query: the glyph of a character, if the font has one. */
  type GlyphIndex = char -> Option<GlyphId>

  /**
   * `message.chars().map(|ch| ttf.glyph_index(ch).unwrap().0).collect()`:
   * the glyph of every character, in order, or the panic raised at the
   * first character the font cannot map.
   */
  function DisplayGlyphs(message: string, glyphIndex: GlyphIndex): (r: Result<seq<GlyphId>>)
    ensures r.Ok? <==> forall k :: 0 <= k < |message| ==> glyphIndex(message[k]).Some?
    ensures r.Ok? ==> |r.value| == |message|
    ensures r.Ok? ==> forall k :: 0 <= k < |message| ==> glyphIndex(message[k]) == Some(r.value[k])
    ensures r.Err? ==> exists k :: FirstUnmappable(message, glyphIndex, k) && r.failure == UnmappableCharacter(message[k])
  {
    if message == [] then Ok([])
    else match glyphIndex(message[0])
      case None =>
        assert FirstUnmappable(message, glyphIndex, 0);
        Err(UnmappableCharacter(message[0]))
      case Some(g) =>
        var rest := DisplayGlyphs(message[1..], glyphIndex);
        if rest.Err? then
          assert exists k :: FirstUnmappable(message, glyphIndex, k) && rest.failure == UnmappableCharacter(message[k]) by {
            var k :| FirstUnmappable(message[1..], glyphIndex, k) && rest.failure == UnmappableCharacter(message[1..][k]);
            assert FirstUnmappable(message, glyphIndex, k + 1);
          }
          Err(rest.failure)
        else
          assert forall k :: 1 <= k < |message| ==> message[k] == message[1..][k - 1];
          Ok([g] + rest.value)
  }

  /** Index `k` holds the first character of `message` that the font cannot map. */
  ghost predicate FirstUnmappable(message: string, glyphIndex: GlyphIndex, k: int) {
    0 <= k < |message| && glyphIndex(message[k]).None? &&
    forall j :: 0 <= j < k ==> glyphIndex(message[j]).Some?
  }

  /** Index `k` holds the first character of `message` whose glyph is `g`. */
  ghost predicate FirstOccurrence(message: string, glyphIndex: GlyphIndex, g: GlyphId, k: int) {
    0 <= k < |message| && glyphIndex(message[k]) == Some(g) &&
    forall j :: 0 <= j < k ==> glyphIndex(message[j]) != Some(g)
  }

  /**
   * `glyphSet` is the glyph set of `message`: its keys are exactly the glyphs
   * of the mappable characters, and each key maps to the one-character string
   * of the first character (in message order) that produced it.
   */
  ghost predicate IsGlyphSetOf(glyphSet: GlyphSet, message: string, glyphIndex: GlyphIndex) {
    (forall g :: g in glyphSet <==> exists k :: 0 <= k < |message| && glyphIndex(message[k]) == Some(g)) &&
    (forall g :: g in glyphSet ==> exists k :: FirstOccurrence(message, glyphIndex, g, k) && glyphSet[g] == [message[k]])
  }

  /**
   * One step of the glyph-set loop: an unmappable character is skipped,
   * a mappable one is entered only when its glyph is not yet a key
   * (`entry(glyph).or_insert_with(..)`), so the first character wins.
   */
  lemma {:induction false} GlyphSetStep(glyphSet: GlyphSet, prefix: string, ch: char, glyphIndex: GlyphIndex)
    requires IsGlyphSetOf(glyphSet, prefix, glyphIndex)
    ensures glyphIndex(ch).None? ==> IsGlyphSetOf(glyphSet, prefix + [ch], glyphIndex)
    ensures glyphIndex(ch).Some? ==>
      var g := glyphIndex(ch).value;
      IsGlyphSetOf(if g in glyphSet then glyphSet else glyphSet[g := [ch]], prefix + [ch], glyphIndex)
  {
    var message := prefix + [ch];
    assert forall k :: 0 <= k < |prefix| ==> message[k] == prefix[k];
    assert message[|prefix|] == ch;
    forall g, k | FirstOccurrence(prefix, glyphIndex, g, k)
      ensures FirstOccurrence(message, glyphIndex, g, k)
    {
    }
    if glyphIndex(ch).Some? {
      var g := glyphIndex(ch).value;
      if g !in glyphSet {
        assert FirstOccurrence(message, glyphIndex, g, |prefix|);
      }
    }
  }

  /** The glyph-set loop: the `BTreeMap` built by walking the message once. */
  method BuildGlyphSet(message: string, glyphIndex: GlyphIndex) returns (glyphSet: GlyphSet)
    ensures IsGlyphSetOf(glyphSet, message, glyphIndex)
  {
    glyphSet := map[];
    for i := 0 to |message|
      invariant IsGlyphSetOf(glyphSet, message[..i], glyphIndex)
    {
      var ch := message[i];
      GlyphSetStep(glyphSet, message[..i], ch, glyphIndex);
      assert message[..i + 1] == message[..i] + [ch];
      match glyphIndex(ch) {
        case None =>
        case Some(glyph) =>
          if glyph !in glyphSet {
            glyphSet := glyphSet[glyph := [ch]];
          }
      }
    }
    assert message[..|message|] == message;
  }

  /** IsGlyphSetOf pins the glyph set down completely: one message, one glyph set. */
  lemma {:induction false} GlyphSetUnique(a: GlyphSet, b: GlyphSet, message: string, glyphIndex: GlyphIndex)
    requires IsGlyphSetOf(a, message, glyphIndex) && IsGlyphSetOf(b, message, glyphIndex)
    ensures a == b
  {
    forall g | g in a
      ensures g in b && a[g] == b[g]
    {
      var i :| FirstOccurrence(message, glyphIndex, g, i) && a[g] == [message[i]];
      var j :| FirstOccurrence(message, glyphIndex, g, j) && b[g] == [message[j]];
      assert i == j;
    }
  }

  /**
   * Repeating a character the message already holds leaves the glyph set as
   * it was (so "AA" and "A" have the same glyph set, and the same subset tag).
   */
  lemma {:induction false} RepeatedCharacterKeepsGlyphSet(glyphSet: GlyphSet, message: string, ch: char, glyphIndex: GlyphIndex)
    requires IsGlyphSetOf(glyphSet, message, glyphIndex)
    requires ch in message
    ensures IsGlyphSetOf(glyphSet, message + [ch], glyphIndex)
  {
    GlyphSetStep(glyphSet, message, ch, glyphIndex);
    if glyphIndex(ch).Some? {
      var k :| 0 <= k < |message| && message[k] == ch;
      assert glyphIndex(message[k]) == glyphIndex(ch);
    }
  }

  /**
   * When the whole message displays, the glyphs it shows are exactly the keys
   * of its glyph set: nothing displayed lacks a width or ToUnicode entry, and
   * no unused glyph is entered.
   */
  lemma {:induction false} DisplayedGlyphsAreGlyphSet(glyphSet: GlyphSet, message: string, glyphIndex: GlyphIndex)
    requires IsGlyphSetOf(glyphSet, message, glyphIndex)
    requires DisplayGlyphs(message, glyphIndex).Ok?
    ensures forall g :: g in glyphSet <==> g in DisplayGlyphs(message, glyphIndex).value
  {
    var shown := DisplayGlyphs(message, glyphIndex).value;
    forall g
      ensures g in glyphSet <==> g in shown
    {
      if g in shown {
        var k :| 0 <= k < |shown| && shown[k] == g;
        assert glyphIndex(message[k]) == Some(g);
      }
      if g in glyphSet {
        var k :| 0 <= k < |message| && glyphIndex(message[k]) == Some(g);
        assert shown[k] == g;
      }
    }
  }
}
