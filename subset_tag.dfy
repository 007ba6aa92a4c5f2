/**
 * The subset tag (`subset_tag`): six capital letters derived from a 128-bit
 * hash of the glyph set, written before the PostScript name as
 * `TAG+Name` so that readers can tell independently subsetted copies of a
 * font apart.
 */
module SubsetTags {
  import opened Base

  /** An unsigned 128-bit integer (`u128`). */
  type U128 = h: int | 0 <= h < 0x1_0000_0000_0000_0000_0000_0000_0000_0000

  /** The number of letters in a tag (`LEN`). */
  const LEN: nat := 6

  /** The number base of the letters (`BASE`). */
  const BASE: nat := 26

  /** The code of `A` (`b'A'`). */
  const LETTER_A: nat := 65

  function Pow(b: nat, k: nat): (p: nat)
    ensures b > 0 ==> p > 0
  {
    if k == 0 then 1 else b * Pow(b, k - 1)
  }

  /** A multiple of `d` by a positive factor is at least `d`. */
  lemma MulAtLeast(d: nat, n: nat)
    requires n >= 1
    ensures d * n >= d
  {
    assert d * n == d * (n - 1) + d;
  }

  /** Division with remainder has one answer. */
  lemma DivModUnique(a: nat, d: nat, q: nat, r: nat)
    requires 0 <= r < d && a == d * q + r
    ensures a / d == q && a % d == r
  {
    var q', r' := a / d, a % d;
    assert a == d * q' + r';
    if q > q' {
      assert d * q == d * q' + d * (q - q');
      MulAtLeast(d, q - q');
      assert false;
    } else if q < q' {
      assert d * q' == d * q + d * (q' - q);
      MulAtLeast(d, q' - q);
      assert false;
    }
  }

  /** Two nested divisions with remainder as one: the digit arithmetic behind DivDiv and ModSplit. */
  lemma Nest(b: nat, c: nat, q2: nat, r2: nat, r: nat)
    requires r < b && r2 < c
    ensures b * (c * q2 + r2) + r == (b * c) * q2 + (b * r2 + r)
    ensures b * r2 + r < b * c
  {
    assert b * (c * q2 + r2) == b * (c * q2) + b * r2;
    assert b * (c * q2) == (b * c) * q2;
    assert b * r2 <= b * (c - 1) by {
      assert b * (c - 1) == b * r2 + b * (c - 1 - r2);
    }
    assert b * (c - 1) == b * c - b;
  }

  /** Division of `a` by `d` as a quotient and a remainder. */
  lemma Split(a: nat, d: nat) returns (q: nat, r: nat)
    requires d > 0
    ensures q == a / d && r == a % d && a == d * q + r && r < d
  {
    q, r := a / d, a % d;
  }

  /** Dividing by `b` and then by `c` is dividing by `b * c`. */
  lemma DivDiv(a: nat, b: nat, c: nat)
    requires b > 0 && c > 0
    ensures a / b / c == a / (b * c)
  {
    var q, r := Split(a, b);
    var q2, r2 := Split(q, c);
    Nest(b, c, q2, r2, r);
    DivModUnique(a, b * c, q2, b * r2 + r);
  }

  /** The lowest base-`d` digit of `a` followed by the digits of `a / d`. */
  lemma ModSplit(a: nat, d: nat, m: nat)
    requires d > 0 && m > 0
    ensures a % (d * m) == a % d + d * ((a / d) % m)
  {
    var q, r := Split(a, d);
    var q2, r2 := Split(q, m);
    Nest(d, m, q2, r2, r);
    DivModUnique(a, d * m, q2, d * r2 + r);
  }

  /**
   * `std::str::from_utf8(..).unwrap()` on bytes that are all ASCII, where
   * UTF-8 decoding maps each byte to the character with that code.
   */
  function AsciiString(bytes: seq<Byte>): (s: string)
    requires forall k :: 0 <= k < |bytes| ==> bytes[k] < 0x80
    ensures |s| == |bytes|
    ensures forall k :: 0 <= k < |bytes| ==> s[k] as int == bytes[k]
  {
    seq(|bytes|, k requires 0 <= k < |bytes| => bytes[k] as char)
  }

  /** Letter `k` of a tag: `A` plus the k-th base-26 digit of the hash, least significant first. */
  ghost predicate SpellsHash(tag: string, h: nat, n: nat) {
    n <= |tag| && forall k :: 0 <= k < n ==> tag[k] as int == LETTER_A + (h / Pow(BASE, k)) % BASE
  }

  /** Reads a tag back as a number: its letters are base-26 digits, the first the least significant. */
  function TagValue(tag: string): nat
    requires forall k :: 0 <= k < |tag| ==> 'A' <= tag[k] <= 'Z'
  {
    if tag == [] then 0 else (tag[0] as int - LETTER_A) + BASE * TagValue(tag[1..])
  }

  /**
   * A tag spelling `h` reads back as `h mod 26^|tag|`: the tag is exactly the
   * residue of the hash, so two hashes give the same tag if and only if
   * they agree modulo 26^6.
   */
  lemma {:induction false} TagValueIsResidue(tag: string, h: nat)
    requires SpellsHash(tag, h, |tag|)
    ensures forall k :: 0 <= k < |tag| ==> 'A' <= tag[k] <= 'Z'
    ensures TagValue(tag) == h % Pow(BASE, |tag|)
  {
    SpelledLetters(tag, h);
    if tag != [] {
      var rest := tag[1..];
      SpellsRest(tag, h);
      TagValueIsResidue(rest, h / BASE);
      var m := Pow(BASE, |rest|);
      ModSplit(h, BASE, m);
      assert TagValue(tag) == h % BASE + BASE * ((h / BASE) % m);
      assert Pow(BASE, |tag|) == BASE * m;
    }
  }

  /** Reading tags back is one-to-one: tags of one length with the same value are the same tag. */
  lemma {:induction false} TagValueInjective(a: string, b: string)
    requires |a| == |b|
    requires forall k :: 0 <= k < |a| ==> 'A' <= a[k] <= 'Z'
    requires forall k :: 0 <= k < |b| ==> 'A' <= b[k] <= 'Z'
    requires TagValue(a) == TagValue(b)
    ensures a == b
  {
    if a != [] {
      var v := TagValue(a);
      DivModUnique(v, BASE, TagValue(a[1..]), a[0] as int - LETTER_A);
      DivModUnique(v, BASE, TagValue(b[1..]), b[0] as int - LETTER_A);
      TagValueInjective(a[1..], b[1..]);
      assert a == [a[0]] + a[1..] && b == [b[0]] + b[1..];
    }
  }

  /**
   * Two tags of one length spelling the hashes `h1` and `h2` are equal
   * exactly when the hashes agree modulo 26^length.
   */
  lemma SameTagIffSameResidue(tag1: string, h1: nat, tag2: string, h2: nat)
    requires |tag1| == |tag2|
    requires SpellsHash(tag1, h1, |tag1|) && SpellsHash(tag2, h2, |tag2|)
    ensures tag1 == tag2 <==> h1 % Pow(BASE, |tag1|) == h2 % Pow(BASE, |tag2|)
  {
    TagValueIsResidue(tag1, h1);
    TagValueIsResidue(tag2, h2);
    if h1 % Pow(BASE, |tag1|) == h2 % Pow(BASE, |tag2|) {
      TagValueInjective(tag1, tag2);
    }
  }

  /** Every letter of a tag spelling a number is a capital A-Z. */
  lemma SpelledLetters(tag: string, h: nat)
    requires SpellsHash(tag, h, |tag|)
    ensures forall k :: 0 <= k < |tag| ==> 'A' <= tag[k] <= 'Z'
  {
  }

  /** The first letter of a tag is the lowest digit, and the rest spells the quotient by 26. */
  lemma SpellsRest(tag: string, h: nat)
    requires tag != [] && SpellsHash(tag, h, |tag|)
    ensures tag[0] as int - LETTER_A == h % BASE
    ensures SpellsHash(tag[1..], h / BASE, |tag| - 1)
  {
    assert Pow(BASE, 0) == 1;
    var rest := tag[1..];
    forall k | 0 <= k < |rest|
      ensures rest[k] as int == LETTER_A + (h / BASE / Pow(BASE, k)) % BASE
    {
      DivDiv(h, BASE, Pow(BASE, k));
      assert rest[k] == tag[k + 1];
    }
  }

  /**
   * `subset_tag`: the glyph set's 128-bit hash, spelt as six letters A-Z,
   * the k-th being `A + (hash / 26^k) % 26`. The hash (`hash128`, SipHash-1-3
   * over the map's `Hash` serialisation) is a parameter, so equal glyph sets
   * always get equal tags.
   */
  method SubsetTag(glyphs: GlyphSet, hash128: GlyphSet -> U128) returns (tag: string)
    ensures |tag| == LEN
    ensures forall k :: 0 <= k < |tag| ==> 'A' <= tag[k] <= 'Z'
    ensures SpellsHash(tag, hash128(glyphs), LEN)
    ensures TagValue(tag) == hash128(glyphs) % Pow(BASE, LEN)
  {
    ghost var h: nat := hash128(glyphs);
    var hash: nat := hash128(glyphs);
    var letter := new Byte[LEN](_ => LETTER_A);
    for i := 0 to LEN
      invariant hash == h / Pow(BASE, i)
      invariant LettersSpell(letter[..], h, i)
    {
      LetterStep(h, i, hash);
      letter[i] := LETTER_A + hash % BASE;
      hash := hash / BASE;
    }
    tag := AsciiString(letter[..]);
    assert SpellsHash(tag, h, LEN);
    TagValueIsResidue(tag, h);
  }

  /** The first `n` letter bytes are the codes of `A` plus the first `n` base-26 digits of `h`. */
  ghost predicate LettersSpell(letters: seq<Byte>, h: nat, n: nat) {
    n <= |letters| && forall k :: 0 <= k < n ==> letters[k] == LETTER_A + (h / Pow(BASE, k)) % BASE
  }

  /** One iteration of the tag loop: the letter is an ASCII capital and the next quotient is `h / 26^(i+1)`. */
  lemma LetterStep(h: nat, i: nat, hash: nat)
    requires hash == h / Pow(BASE, i)
    ensures LETTER_A <= LETTER_A + hash % BASE <= 90 < 0x80
    ensures hash / BASE == h / Pow(BASE, i + 1)
  {
    DivDiv(h, Pow(BASE, i), BASE);
    assert Pow(BASE, i + 1) == Pow(BASE, i) * BASE;
  }
}
