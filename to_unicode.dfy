/**
 * The /ToUnicode CMap (`create_cmap`): for every glyph the message uses, the
 * text it stands for, so that a reader can copy the text back out.
 */
module ToUnicode {
  import opened Base

  /** The CID system info written with the font and the CMap (`SYSTEM_INFO`). */
  datatype SystemInfo = SystemInfo(registry: string, ordering: string, supplement: nat)

  const SYSTEM_INFO: SystemInfo := SystemInfo("Adobe", "Identity", 0)

  /** The CMap's name (`CMAP_NAME`). */
  const CMAP_NAME: string := "Custom"

  /** One `pair_with_multiple(glyph, text.chars())` entry. */
  datatype CmapPair = CmapPair(glyph: GlyphId, text: string)

  /** The `UnicodeCmap` under construction: its name, system info and the pairs appended so far. */
  datatype UnicodeCmap = UnicodeCmap(name: string, systemInfo: SystemInfo, pairs: seq<CmapPair>)

  /**
   * `create_cmap`: walk the glyph set in ascending glyph order and append a
   * pair for every glyph whose text is non-empty. The result holds exactly
   * one pair per such glyph, carrying that glyph's text unchanged (so its
   * characters keep their order), in strictly ascending glyph order.
   */
  method CreateCmap(glyphSet: GlyphSet) returns (cmap: UnicodeCmap)
    ensures cmap.name == CMAP_NAME && cmap.systemInfo == SYSTEM_INFO
    ensures forall k :: 0 <= k < |cmap.pairs| ==>
      cmap.pairs[k].glyph in glyphSet && cmap.pairs[k].text == glyphSet[cmap.pairs[k].glyph] && cmap.pairs[k].text != []
    ensures forall g :: g in glyphSet && glyphSet[g] != [] ==>
      exists k :: 0 <= k < |cmap.pairs| && cmap.pairs[k].glyph == g
    ensures forall j, k :: 0 <= j < k < |cmap.pairs| ==> cmap.pairs[j].glyph < cmap.pairs[k].glyph
  {
    cmap := UnicodeCmap(CMAP_NAME, SYSTEM_INFO, []);
    var keys := SortedKeys(glyphSet.Keys);
    ghost var position: map<GlyphId, nat> := map[];  // where each glyph's pair was appended
    for i := 0 to |keys|
      invariant cmap.name == CMAP_NAME && cmap.systemInfo == SYSTEM_INFO
      invariant forall k :: 0 <= k < |cmap.pairs| ==> Entered(glyphSet, cmap.pairs[k]) && cmap.pairs[k].glyph < Visited(keys, i)
      invariant forall g :: g in glyphSet && g < Visited(keys, i) && glyphSet[g] != [] ==>
        g in position && position[g] < |cmap.pairs| && cmap.pairs[position[g]].glyph == g
      invariant Ascending(cmap.pairs)
    {
      var g := keys[i];
      var text := glyphSet[g];
      VisitNext(glyphSet, keys, i);
      if text != [] {
        position := position[g := |cmap.pairs|];
        AppendAscending(cmap.pairs, CmapPair(g, text));
        cmap := cmap.(pairs := cmap.pairs + [CmapPair(g, text)]);
      }
    }
    forall g | g in glyphSet && glyphSet[g] != []
      ensures exists k :: 0 <= k < |cmap.pairs| && cmap.pairs[k].glyph == g
    {
      assert cmap.pairs[position[g]].glyph == g;
    }
  }

  /** The pairs are in strictly ascending glyph order. */
  ghost predicate Ascending(pairs: seq<CmapPair>) {
    forall j, k :: 0 <= j < k < |pairs| ==> pairs[j].glyph < pairs[k].glyph
  }

  /** Appending a pair for a glyph above all others keeps the order. */
  lemma AppendAscending(pairs: seq<CmapPair>, pair: CmapPair)
    requires Ascending(pairs)
    requires forall k :: 0 <= k < |pairs| ==> pairs[k].glyph < pair.glyph
    ensures Ascending(pairs + [pair])
  {
  }

  /** `pair` is a glyph-set entry with non-empty text. */
  ghost predicate Entered(glyphSet: GlyphSet, pair: CmapPair) {
    pair.glyph in glyphSet && pair.text == glyphSet[pair.glyph] && pair.text != []
  }
}
