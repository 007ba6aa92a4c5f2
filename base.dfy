/**
 * Machine integers, the failure outcome of the program's panics, and the
 * ordered glyph map shared by every stage of the font-embedding pipeline.
 */
module Base {

  /** An unsigned 16-bit integer (`u16`). */
  type U16 = x: int | 0 <= x < 0x1_0000

  /** A TrueType glyph id; with the Identity CID-to-GID mapping it is also the CID. */
  type GlyphId = U16

  /** An unsigned byte (`u8`). */
  type Byte = b: int | 0 <= b < 0x100

  datatype Option<+T> = None | Some(value: T) {
    /** `Option::unwrap_or`. */
    function UnwrapOr(default: T): (r: T)
      ensures Some? ==> r == value
      ensures None? ==> r == default
    {
      match this
      case Some(v) => v
      case None => default
    }
  }

  /** The ways the program aborts: each is a Rust panic, never a recoverable error. */
  datatype Failure =
    | UnmappableCharacter(ch: char)                 // `glyph_index(ch).unwrap()` on a character the font lacks
    | WidthIndexOutOfBounds(glyph: GlyphId, len: nat) // `widths[g as usize]` with g >= the glyph count
    | EmptyWidthTable                               // `widths[0]` on a font with no glyphs

  datatype Result<+T> = Ok(value: T) | Err(failure: Failure)

  /**
   * The glyph set, a `BTreeMap<u16, String>` from glyph id to the text that
   * first produced it. A Dafny map has no order; the B-tree's ascending
   * iteration order is recovered with SortedKeys.
   */
  type GlyphSet = map<GlyphId, string>

  /** The members of `keys` below `n`, in ascending order. */
  function KeysBelow(keys: set<GlyphId>, n: nat): (r: seq<GlyphId>)
    requires n <= 0x1_0000
    ensures forall i, j :: 0 <= i < j < |r| ==> r[i] < r[j]
    ensures forall g :: g in r <==> g in keys && g < n
  {
    if n == 0 then []
    else
      var below := KeysBelow(keys, n - 1);
      var top: seq<GlyphId> := if n - 1 in keys then [n - 1] else [];
      assert forall i :: 0 <= i < |below| ==> below[i] < n - 1 by {
        forall i | 0 <= i < |below|
          ensures below[i] < n - 1
        {
          assert below[i] in below;
        }
      }
      assert forall g :: g in below + top <==> g in below || g in top;
      below + top
  }

  /** The order in which `BTreeMap::keys` and `BTreeMap::iter` visit the keys: each once, ascending. */
  function SortedKeys(keys: set<GlyphId>): (r: seq<GlyphId>)
    ensures forall i, j :: 0 <= i < j < |r| ==> r[i] < r[j]
    ensures forall g :: g in r <==> g in keys
  {
    KeysBelow(keys, 0x1_0000)
  }

  /** Every key below this bound has been visited after `i` steps of the ascending walk over `keys`. */
  function Visited(keys: seq<GlyphId>, i: nat): int
    requires i <= |keys|
  {
    if i < |keys| then keys[i] else 0x1_0000
  }

  /** One step of the ascending walk: only `keys[i]` joins the visited keys. */
  lemma VisitNext<V>(m: map<GlyphId, V>, keys: seq<GlyphId>, i: nat)
    requires keys == SortedKeys(m.Keys) && i < |keys|
    ensures Visited(keys, i) == keys[i] < Visited(keys, i + 1)
    ensures forall g :: g in m && g < Visited(keys, i + 1) ==> g <= keys[i]
  {
    forall g | g in m && g < Visited(keys, i + 1)
      ensures g <= keys[i]
    {
      var j :| 0 <= j < |keys| && keys[j] == g;
      if i + 1 < |keys| {
        assert j < i + 1;
      }
    }
  }
}
