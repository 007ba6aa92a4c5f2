/**
 * The glyphs of the message as the content stream shows them: with the
 * Identity-H encoding every glyph is a two-byte code, high byte first.
 */
module ContentStream {
  import opened Base

  /** `(g >> 8) as u8`: on an unsigned 16-bit value the shift is division by 256. */
  function HighByte(g: GlyphId): (b: Byte)
    ensures 256 * b <= g < 256 * (b + 1)
  {
    g / 256
  }

  /** `(g & 0xff) as u8`: masking the low eight bits is the remainder by 256. */
  function LowByte(g: GlyphId): (b: Byte)
    ensures 256 * HighByte(g) + b == g
  {
    g % 256
  }

  /** The glyph whose high byte is `hi` and low byte `lo`. */
  function Combine(hi: Byte, lo: Byte): GlyphId {
    hi * 256 + lo
  }

  /**
   * How a reader takes the shown string apart again: every pair of bytes,
   * high byte first, is one glyph (`DecodedPairs` states it byte by byte).
   */
  function DecodeGlyphs(bytes: seq<Byte>): (glyphs: seq<GlyphId>)
    requires |bytes| % 2 == 0
    ensures |glyphs| == |bytes| / 2
  {
    if bytes == [] then []
    else
      var n := |bytes|;
      DecodeGlyphs(bytes[..n - 2]) + [Combine(bytes[n - 2], bytes[n - 1])]
  }

  /** Glyph `k` of the decoding is `b[2k] * 256 + b[2k+1]`. */
  lemma {:induction false} DecodedPairs(bytes: seq<Byte>)
    requires |bytes| % 2 == 0
    ensures forall k :: 0 <= k < |bytes| / 2 ==> DecodeGlyphs(bytes)[k] == bytes[2 * k] as int * 256 + bytes[2 * k + 1]
  {
    if bytes != [] {
      var n := |bytes|;
      var front := bytes[..n - 2];
      DecodedPairs(front);
      var decoded := DecodeGlyphs(bytes);
      assert decoded == DecodeGlyphs(front) + [Combine(bytes[n - 2], bytes[n - 1])];
      forall k | 0 <= k < n / 2
        ensures decoded[k] == bytes[2 * k] as int * 256 + bytes[2 * k + 1]
      {
        if k < n / 2 - 1 {
          assert decoded[k] == DecodeGlyphs(front)[k];
          assert front[2 * k] == bytes[2 * k] && front[2 * k + 1] == bytes[2 * k + 1];
        } else {
          assert 2 * k == n - 2;
        }
      }
    }
  }

  /** Decoding one more byte pair decodes one more glyph. */
  lemma DecodeAppend(bytes: seq<Byte>, hi: Byte, lo: Byte)
    requires |bytes| % 2 == 0
    ensures DecodeGlyphs(bytes + [hi, lo]) == DecodeGlyphs(bytes) + [Combine(hi, lo)]
  {
    var longer := bytes + [hi, lo];
    assert longer[..|longer| - 2] == bytes;
  }

  /** `encoded` holds the two bytes of each of the first `i` glyphs, high byte first. */
  ghost predicate Encodes(encoded: seq<Byte>, glyphs: seq<GlyphId>, i: nat) {
    i <= |glyphs| && |encoded| == 2 * i &&
    (forall k :: 0 <= k < i ==> encoded[2 * k] == glyphs[k] / 256 && encoded[2 * k + 1] == glyphs[k] % 256) &&
    DecodeGlyphs(encoded) == glyphs[..i]
  }

  /** One iteration of the `encoded` loop. */
  lemma EncodeStep(encoded: seq<Byte>, glyphs: seq<GlyphId>, i: nat)
    requires i < |glyphs| && Encodes(encoded, glyphs, i)
    ensures Encodes(encoded + [HighByte(glyphs[i]), LowByte(glyphs[i])], glyphs, i + 1)
  {
    var g := glyphs[i];
    var longer := encoded + [HighByte(g), LowByte(g)];
    DecodeAppend(encoded, HighByte(g), LowByte(g));
    assert glyphs[..i + 1] == glyphs[..i] + [g];
    forall k | 0 <= k < i + 1
      ensures longer[2 * k] == glyphs[k] / 256 && longer[2 * k + 1] == glyphs[k] % 256
    {
      if k < i {
        assert longer[2 * k] == encoded[2 * k] && longer[2 * k + 1] == encoded[2 * k + 1];
      }
    }
  }

  /**
   * The `encoded` loop: two bytes per glyph, high byte then low byte, and
   * decoding them gives back the glyphs in order.
   */
  method EncodeGlyphs(glyphs: seq<GlyphId>) returns (encoded: seq<Byte>)
    ensures |encoded| == 2 * |glyphs|
    ensures forall k :: 0 <= k < |glyphs| ==> encoded[2 * k] == glyphs[k] / 256 && encoded[2 * k + 1] == glyphs[k] % 256
    ensures DecodeGlyphs(encoded) == glyphs
  {
    encoded := [];
    for i := 0 to |glyphs|
      invariant Encodes(encoded, glyphs, i)
    {
      var g := glyphs[i];
      EncodeStep(encoded, glyphs, i);
      encoded := encoded + [HighByte(g), LowByte(g)];
    }
    assert glyphs[..|glyphs|] == glyphs;
  }
}
