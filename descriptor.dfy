/**
 * The font descriptor's flags and vertical metrics. The flag bits are those
 * of the /Flags entry, section 9.8.2 of ISO 32000-1:2008 (bit n of the
 * standard is the value 1 << (n - 1)).
 */
module Descriptor {
  import opened Base

  /** The `FontFlags` bit set: a 32-bit word. */
  type FontFlags = bv32

  const FIXED_PITCH: FontFlags := 1 << 0
  const SERIF: FontFlags := 1 << 1
  const SYMBOLIC: FontFlags := 1 << 2
  const SCRIPT: FontFlags := 1 << 3
  const NONSYMBOLIC: FontFlags := 1 << 5
  const ITALIC: FontFlags := 1 << 6
  const SMALL_CAP: FontFlags := 1 << 17

  /** The flags this program ever sets. */
  const WRITTEN: FontFlags := SERIF | FIXED_PITCH | ITALIC | SYMBOLIC | SMALL_CAP

  /** `r` is `flags` with the bits of `flag` switched on (`on`) or off, and no other bit changed. */
  ghost predicate Switched(r: FontFlags, flags: FontFlags, flag: FontFlags, on: bool) {
    r & flag == (if on then flag else 0) && r & !flag == flags & !flag
  }

  /** `flags.insert(flag)`: switch the bits of `flag` on and leave the others. */
  function InsertFlag(flags: FontFlags, flag: FontFlags): (r: FontFlags)
    ensures r & flag == flag
    ensures r & !flag == flags & !flag
  {
    flags | flag
  }

  /** `flags.remove(flag)`: switch the bits of `flag` off and leave the others. */
  function RemoveFlag(flags: FontFlags, flag: FontFlags): (r: FontFlags)
    ensures r & flag == 0
    ensures r & !flag == flags & !flag
  {
    flags & !flag
  }

  /** Inserting a flag switches it on. */
  lemma InsertSwitches(flags: FontFlags, flag: FontFlags)
    ensures Switched(InsertFlag(flags, flag), flags, flag, true)
  {
  }

  /** Removing a flag switches it off. */
  lemma RemoveSwitches(flags: FontFlags, flag: FontFlags)
    ensures Switched(RemoveFlag(flags, flag), flags, flag, false)
  {
  }

  /** `flags.set(flag, on)`: insert `flag` when `on`, remove it otherwise. */
  function SetFlag(flags: FontFlags, flag: FontFlags, on: bool): (r: FontFlags)
    ensures Switched(r, flags, flag, on)
  {
    if on then
      InsertSwitches(flags, flag);
      InsertFlag(flags, flag)
    else
      RemoveSwitches(flags, flag);
      RemoveFlag(flags, flag)
  }

  /** `pat` occurs in `s` starting at index `i`. */
  ghost predicate OccursAt(s: string, pat: string, i: int) {
    0 <= i && i + |pat| <= |s| && s[i..i + |pat|] == pat
  }

  /** `str::contains` with a string pattern: `pat` is a substring of `s` (the empty pattern always is). */
  function Contains(s: string, pat: string): (r: bool)
    ensures r <==> exists i :: OccursAt(s, pat, i)
    decreases |s|
  {
    if |pat| > |s| then
      assert forall i :: !OccursAt(s, pat, i);
      false
    else if s[..|pat|] == pat then
      assert OccursAt(s, pat, 0);
      true
    else
      var r := Contains(s[1..], pat);
      assert r ==> exists i :: OccursAt(s, pat, i) by {
        if r {
          var i :| OccursAt(s[1..], pat, i);
          assert s[1..][i..i + |pat|] == s[i + 1..i + 1 + |pat|];
          assert OccursAt(s, pat, i + 1);
        }
      }
      assert (exists i :: OccursAt(s, pat, i)) ==> r by {
        if exists i :: OccursAt(s, pat, i) {
          var i :| OccursAt(s, pat, i);
          assert i != 0;
          assert s[1..][i - 1..i - 1 + |pat|] == s[i..i + |pat|];
          assert OccursAt(s[1..], pat, i - 1);
        }
      }
      r
  }

  /**
   * The flags written to the descriptor: SERIF when the PostScript name
   * contains "Serif", FIXED_PITCH for a monospaced font, ITALIC for an
   * italic one, SYMBOLIC and SMALL_CAP always, and nothing else.
   */
  function DescriptorFlags(postscriptName: string, isMonospaced: bool, isItalic: bool): (flags: FontFlags)
    ensures flags & SERIF != 0 <==> exists i :: OccursAt(postscriptName, "Serif", i)
    ensures flags & FIXED_PITCH != 0 <==> isMonospaced
    ensures flags & ITALIC != 0 <==> isItalic
    ensures flags & SYMBOLIC != 0 && flags & SMALL_CAP != 0
    ensures flags & NONSYMBOLIC == 0 && flags & SCRIPT == 0
    ensures flags & !WRITTEN == 0
  {
    var flags := SetFlag(0, SERIF, Contains(postscriptName, "Serif"));
    var flags := SetFlag(flags, FIXED_PITCH, isMonospaced);
    var flags := SetFlag(flags, ITALIC, isItalic);
    var flags := InsertFlag(flags, SYMBOLIC);
    InsertFlag(flags, SMALL_CAP)
  }

  /** The descriptor's vertical metrics and italic angle. */
  datatype Metrics<U> = Metrics(italicAngle: real, ascent: U, descent: U, capHeight: U)

  /**
   * The metric fallbacks: the typographic ascender and descender when the
   * font has them, else the generic ones; the capital height when the font
   * has one, else the generic ascender; an italic angle of 0 when it has none.
   * `U` is the font's unit type and `toPdfUnits` the scaling to 1/1000 em.
   */
  function DescriptorMetrics<U, V>(
    italicAngle: Option<real>,
    typographicAscender: Option<U>, ascender: U,
    typographicDescender: Option<U>, descender: U,
    capitalHeight: Option<U>,
    toPdfUnits: U -> V): (m: Metrics<V>)
    ensures italicAngle.Some? ==> m.italicAngle == italicAngle.value
    ensures italicAngle.None? ==> m.italicAngle == 0.0
    ensures typographicAscender.Some? ==> m.ascent == toPdfUnits(typographicAscender.value)
    ensures typographicAscender.None? ==> m.ascent == toPdfUnits(ascender)
    ensures typographicDescender.Some? ==> m.descent == toPdfUnits(typographicDescender.value)
    ensures typographicDescender.None? ==> m.descent == toPdfUnits(descender)
    ensures capitalHeight.Some? ==> m.capHeight == toPdfUnits(capitalHeight.value)
    ensures capitalHeight.None? ==> m.capHeight == toPdfUnits(ascender)
  {
    Metrics(
      italicAngle.UnwrapOr(0.0),
      toPdfUnits(typographicAscender.UnwrapOr(ascender)),
      toPdfUnits(typographicDescender.UnwrapOr(descender)),
      toPdfUnits(capitalHeight.UnwrapOr(ascender)))
  }
}
