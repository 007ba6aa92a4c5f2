# Embedding a subsetted TrueType font in a PDF: the data pipeline

The program (`src/main.rs`) writes a one-page PDF showing a short message in a
system font. The font goes in as a Type 0 font, with a CIDFontType2
descendant, the Identity-H encoding and an Identity CID-to-GID mapping, so a
CID is a glyph id. Between reading the font and writing the PDF, a small,
deterministic pipeline turns the message and the font's queries into what the
PDF needs. This project models that pipeline:

- **Glyph mapping** (`GlyphMapping`). This module builds two things:
  - the display sequence: one glyph per character, with a panic at the first character the font cannot map;
  - the glyph set: a `BTreeMap` from each used glyph to the first character that produced it.
- **Width table** (`Widths`): a zero-filled table of one width per glyph of the font, written at the glyph-set keys.
- **Width runs** (`WidthRuns`): the scan that turns the table into the `/W` array of `first last width` entries. It is modelled as written and next to a corrected encoder; see Findings.
- **ToUnicode CMap** (`ToUnicode`): `create_cmap`, one pair per glyph with non-empty text, in ascending glyph order.
- **Subset tag** (`SubsetTags`): `subset_tag`, six letters A-Z spelling the glyph set's 128-bit hash in base 26.
- **Content stream** (`ContentStream`): the two-byte, big-endian code of each displayed glyph.
- **Font descriptor** (`Descriptor`): the `/Flags` bits (section 9.8.2 of ISO 32000-1:2008) and the fallbacks for ascent, descent, cap height and italic angle.

`Base` holds the shared pieces:

- the machine integers (`U16`, `Byte`);
- `Option` and `Result`;
- the `Failure` values that stand for the program's panics;
- `SortedKeys`, the ascending key order of the `BTreeMap`.

Each of the font's queries is a function parameter: `glyph_index`, `glyph_hor_advance` and `to_font_units`. The hash `hash128` is one too.

Rust panics are modelled as the `Err` case of a `Result`, so callers are not required to avoid them:

- `glyph_index(ch).unwrap()` becomes `UnmappableCharacter`;
- `widths[g]` with `g >= num_glyphs` becomes `WidthIndexOutOfBounds`;
- `widths[0]` on an empty table becomes `EmptyWidthTable`.

Two consequences of the code are worth stating on their own:

- Glyph 0 is not filtered: a character that `glyph_index` maps to `Some(GlyphId(0))` enters the glyph set like any other (src/main.rs:59-60).
- With glyph 5 at width 600 followed by zero-width glyph 6, the scan writes `5 6 600`; see Findings.

## Model

| member | source | states |
|---|---|---|
| `Base.SortedKeys` | src/main.rs:124 | `glyph_set.keys()` visits every key of the map exactly once, in strictly ascending order |
| `Base.KeysBelow` | src/main.rs:234 | the keys below a bound, strictly ascending, holding exactly the map's keys under that bound |
| `Base.Option.UnwrapOr` | src/main.rs:125 | `Option::unwrap_or`: the contained value when there is one, else the default |
| `GlyphMapping.DisplayGlyphs` | src/main.rs:54 | succeeds iff every character has a glyph; then it has one glyph per character, in order, each the font's glyph for that character; otherwise it fails naming the first unmappable character |
| `GlyphMapping.BuildGlyphSet` | src/main.rs:57-61 | the loop builds the glyph set: exactly the glyphs of the mappable characters, each mapped to the one-character string of the first character that produced it |
| `GlyphMapping.GlyphSetStep` | src/main.rs:59-60 | one character: an unmappable one is skipped (`continue`); a mappable one is entered only when its glyph is new (`or_insert_with`), which keeps first-wins |
| `GlyphMapping.GlyphSetUnique` | src/main.rs:57-61 | the glyph-set characterisation has exactly one solution per message |
| `GlyphMapping.RepeatedCharacterKeepsGlyphSet` | src/main.rs:60 | a later character never overwrites an entry: repeating a character leaves the glyph set unchanged |
| `GlyphMapping.DisplayedGlyphsAreGlyphSet` | src/main.rs:54-61 | when the message displays, the displayed glyphs and the glyph-set keys are the same set |
| `Widths.BuildWidths` | src/main.rs:122-127 | succeeds iff every key is below `num_glyphs`; then the table has `num_glyphs` entries, each key holds its converted advance (0 for a missing advance) and every other entry is 0; otherwise it fails at the smallest out-of-range key |
| `Widths.GlyphWidth` | src/main.rs:125-126 | a glyph's table width is `to_font_units` of its advance, or of 0 when the font has no advance for it |
| `WidthRuns.CloseIndex` | src/main.rs:133-134 | the scan closes a run at the first later index whose width differs, or at the last index; every width in between equals the run's width |
| `WidthRuns.ScanFrom` | src/main.rs:130-141 | the runs the scan as written emits from an open run at `s`: each has a non-zero width, starts at or after `s`, and has `first < last < len` |
| `WidthRuns.ScanFromStep` | src/main.rs:134-139 | closing the run at a differing index (or the last one) writes it when its width is non-zero, then the scan goes on from that index |
| `WidthRuns.EncodeWidths` | src/main.rs:130-141 | the loop writes exactly the runs of the scan as written; an empty table fails at `widths[0]`; a table of one width writes nothing |
| `WidthRuns.ScanFromRuns` | src/main.rs:133-139 | every written run has a non-zero width, `first < last`, the width held on `[first, last)`, and `last` the first differing index or the last index; runs come in order without overlap |
| `WidthRuns.ScanFromComplete` | src/main.rs:133-139 | every run of equal non-zero widths that starts before the last index is written |
| `WidthRuns.ScanProperties` | src/main.rs:130-141 | for the whole table: all runs have the ScannedRun shape, starts strictly ascend, no run starts at the last index, and every non-zero run starting earlier is written |
| `WidthRuns.ScanMisdescribesWidths` | src/main.rs:136 | as written, the `/W` array for [0, 600, 0] gives CID 2 the width 600, and for [600, 500] gives CID 1 the width 600 |
| `WidthRuns.RunEnd` | src/main.rs:134 | the exclusive end of a maximal run of equal widths: the first differing index or the table's length |
| `WidthRuns.InclusiveRunsFrom` | src/main.rs:130-141 | the corrected scan from `s`: every run has a non-zero width and `s <= first <= last < len` |
| `WidthRuns.InclusiveRunsBounded` | src/main.rs:135-136 | corrected runs lie inside the table, have non-zero widths and are disjoint and ascending |
| `WidthRuns.WidthOfBeforeRuns` | src/main.rs:118 | a CID below every run's start gets the default width 0 |
| `WidthRuns.WidthOfCons` | src/main.rs:136 | a `same(first, last, w)` entry covers `first` to `last` inclusive; where entries overlap, the model's reader takes the first one that covers a CID. That first-wins rule is an assumption about readers, not something the standard or the program states; the Findings inputs have no overlapping runs, and the corrected runs are disjoint (`InclusiveRunsBounded`), so the round trip does not depend on it |
| `WidthRuns.InclusiveRunsExact` | src/main.rs:130-141 | the corrected runs give each CID from a start index on exactly its table width |
| `WidthRuns.InclusiveRunsRoundTrip` | src/main.rs:130-141 | round trip: expanding the corrected `/W` array gives back the width table |
| `WidthRuns.InclusiveRunsStep` | src/main.rs:134-139 | closing the corrected run just before a differing index writes `start i-1 width` when the width is non-zero |
| `WidthRuns.EncodeWidthsInclusive` | src/main.rs:130-141 | the corrected loop writes exactly the maximal non-zero runs with inclusive ends, including the final run, and its `/W` array expands back to the table |
| `ToUnicode.CreateCmap` | src/main.rs:228-241 | a CMap named `Custom` with system info Adobe-Identity-0; one pair per glyph-set key with non-empty text, carrying that text unchanged; no pair for an empty text; strictly ascending glyph order |
| `SubsetTags.SubsetTag` | src/main.rs:244-254 | exactly six letters A-Z; letter k is `A + (h / 26^k) % 26` for the hash h of the glyph set; read back in base 26, the tag is `h mod 26^6` |
| `SubsetTags.LetterStep` | src/main.rs:250-251 | each letter byte is an ASCII capital (65 to 90, so below 0x80), and one more division turns the running hash `h / 26^k` into `h / 26^(k+1)` |
| `SubsetTags.AsciiString` | src/main.rs:253 | `from_utf8` on ASCII bytes: one character per byte, with that code |
| `SubsetTags.TagValueIsResidue` | src/main.rs:249-252 | a tag spelling h has only letters A-Z and, read back in base 26 with the first letter lowest, is `h mod 26^len` |
| `SubsetTags.TagValueInjective` | src/main.rs:249-252 | two tags of one length with the same base-26 value are the same tag |
| `SubsetTags.SameTagIffSameResidue` | src/main.rs:244-254 | two tags are equal iff the hashes they spell agree modulo 26^length, so equal hashes give equal tags and different glyph sets collide only when their hashes agree mod 26^6 |
| `SubsetTags.SpellsRest` | src/main.rs:250-251 | the first letter is the lowest base-26 digit, and the remaining letters spell `h / 26` |
| `SubsetTags.DivDiv` | src/main.rs:251 | dividing by `b` and then by `c` is dividing by `b * c`: the arithmetic step that lets the loop's repeated `hash /= BASE` stay equal to `h / 26^k` |
| `ContentStream.HighByte` | src/main.rs:202 | `(g >> 8) as u8`: the high byte `b` of `g`, with `256 * b <= g < 256 * (b + 1)` |
| `ContentStream.LowByte` | src/main.rs:203 | `(g & 0xff) as u8`: the low byte, which with the high byte gives back `g` (`256 * high + low == g`) |
| `ContentStream.DecodeGlyphs` | src/main.rs:200-204 | decoding the shown bytes yields half as many glyphs |
| `ContentStream.DecodedPairs` | src/main.rs:200-204 | decoded glyph k is `b[2k] * 256 + b[2k+1]`, high byte first |
| `ContentStream.DecodeAppend` | src/main.rs:202-203 | pushing one more byte pair decodes to one more glyph |
| `ContentStream.EncodeGlyphs` | src/main.rs:200-204 | two bytes per glyph, `g / 256` then `g % 256`, and decoding them gives back the glyph sequence |
| `Descriptor.Contains` | src/main.rs:148 | `str::contains`: true iff the pattern occurs at some index of the string |
| `Descriptor.SetFlag` | src/main.rs:148-150 | `flags.set(flag, on)`: the bits of `flag` are all on when `on` and all off otherwise, and no other bit changes |
| `Descriptor.InsertFlag` | src/main.rs:151-152 | `flags.insert(flag)`: the bits of `flag` are on and no other bit changes |
| `Descriptor.RemoveFlag` | src/main.rs:148-150 | `flags.remove(flag)`, what `set` does with `false`: the bits of `flag` are off and no other bit changes |
| `Descriptor.DescriptorFlags` | src/main.rs:147-152 | SERIF iff the PostScript name contains "Serif", FIXED_PITCH iff monospaced, ITALIC iff italic, SYMBOLIC and SMALL_CAP always, and no other bit (in particular not NONSYMBOLIC or SCRIPT) |
| `Descriptor.DescriptorMetrics` | src/main.rs:163-166 | italic angle defaults to 0; ascent and descent use the typographic values when present, else the generic ones; cap height uses the capital height when present, else the generic ascender |

## Left out

- Font discovery (`fontdb`), reading the font file and writing the PDF file: I/O.
- TrueType parsing and the font's queries (`glyph_index`, `glyph_hor_advance`, `number_of_glyphs`, `is_monospaced`, `is_italic`, metric getters): a foreign library. Each is a function or value parameter.
- The PDF object graph and its serialisation (`PdfWriter`, `Content` operators, the font objects, the CMap's text form): performed inside the `pdf-writer` crate, which is not part of this model. `CreateCmap` yields the pairs the CMap receives, not its bytes.
- Font subsetting (`subsetter::subset`) and `deflate`: foreign calls.
- `hash128` (SipHash-1-3 over the map's `Hash` serialisation): a foreign hash. It is an uninterpreted function of the glyph set.
- The base font name `TAG+PostScriptName` (src/main.rs:104): string formatting outside the pipeline.
- Floating point. Widths are `real` and compared only for equality and with 0; `to_font_units` is a parameter and is not modelled beyond that. f32 rounding and NaN (`NaN != NaN` would split a run) are not modelled.
- The bounding box (src/main.rs:155-161) and `stem_v` (src/main.rs:167) are not modelled at all: no member takes the global bounding box or the font weight, because both are floating-point scalings of font queries.
- Widths.GlyphWidth: the advance goes through `to_font_units` as an abstract conversion from integer font units; the f32 cast is not modelled.
- ContentStream.HighByte and ContentStream.LowByte: `>> 8` and `& 0xff` on an unsigned 16-bit glyph id are written as division and remainder by 256, which they equal on that range. The bitwise operators themselves are not modelled.
- WidthRuns.EncodeWidths requires fewer than 65536 widths. The table's length is `number_of_glyphs`, a `u16`, so the `as u16` casts of indices never truncate; the program's `start` as `i32` is modelled as a natural number for the same reason.
- `std::str::from_utf8(..).unwrap()` in `subset_tag` is modelled only on the ASCII bytes it receives (`SubsetTags.AsciiString`); its failure path cannot be reached there.

## Findings

| source | as written | input that shows it | evidently intended | confidence | as-written member | corrected member |
|---|---|---|---|---|---|---|
| src/main.rs:136 | a run closed because the width at index `i` differs is written as `same(start, i, w)`, but `/W` ranges are inclusive (section 9.7.4.3 of ISO 32000-1:2008), so CID `i` is given the run's width | widths [0, 600, 0]: writes `1 2 600`, so a reader gives CID 2 the width 600 instead of 0 | `same(start, i - 1, w)` | high; not executed | `WidthRuns.ScanMisdescribesWidths` | `WidthRuns.EncodeWidthsInclusive` |
| src/main.rs:134-141 | when the last width differs from the run before it, the loop closes that run at the last index and never writes a run for the last glyph itself | widths [600, 500]: writes only `0 1 600`, so CID 1 reads as 600 instead of 500 | after the loop, write the run still open (`start .. len-1`) when its width is non-zero | high; not executed | `WidthRuns.ScanMisdescribesWidths` | `WidthRuns.InclusiveRunsRoundTrip` |
