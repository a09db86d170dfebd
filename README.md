# tofi: hex colours and the HarfBuzz layout backend, in Dafny

This project models two parts of the tofi launcher and proves properties of them.

The first part is the colour parser `hex_to_color` (`src/color.c`). It accepts an optional `#`
followed by 3, 4, 6 or 8 hex digits. The 3- and 4-digit forms double every digit, and the 3- and
6-digit forms get full alpha. The value is packed into a 32-bit `RRGGBBAA` word, and each byte
becomes a channel in [0, 1]. Any other length gives the all `-1` sentinel. The base-16 conversion
`strtol(…, 16)` is modelled as glibc performs it with a 64-bit `long`: leading white space, an
optional sign and an optional `0x` are skipped, then the run of hex digits is read. Channels are
the exact reals `byte / 255`.

The second part is the bookkeeping of the HarfBuzz rendering backend
(`src/entry_backend/harfbuzz.c`). Every call that shapes, draws or measures text is an oracle
argument. `measure` gives a text's extents. `glyphExtents` stands for Cairo's glyph measurement. A
`Finder` stands for the case-insensitive search `utf8_strcasestr`, and `parse` for HarfBuzz's
variation and feature parsers. What remains is modelled in the source's own form:

- **`GlyphPlacement`**: the glyph loop of `render_hb_buffer`, in whole 1/64 units (HarfBuzz's
  26.6 fixed point), so no division appears. It fills a fresh array.
- **`FtErrors`**: the linear search of FreeType's error table.
- **`FontSettings`**: the `strtok_r` token loops that fill the fixed variation and feature
  arrays. They are methods of a class over those arrays.
- **`MaskedInput`**: the nested loops that build the masked-input buffer.
- **`ThemedText`**: `render_text_themed`. It returns a list of drawing steps: text, then a box
  and the text again when the background is visible.
- **`MatchHighlight`**: the prematch/match/postmatch split of the selected row, the combined
  extents, and the two drawing passes.
- **`ResultLayout`**: `size_overflows`, the row count, the theme choice and the result loop of
  `entry_backend_harfbuzz_update`. The loop is a method of the `Entry` class. It writes
  `numResultsDrawn` and is proved equal to the recursive specification `RowsFrom`. The lemmas
  below then state what `RowsFrom` guarantees.

Coordinates are reals, and the canvas transform is modelled by its translation. A result is a
byte sequence, meaning the bytes before its NUL.

Two details of the code are worth stating exactly:

- The selected row takes the highlighting path whenever the selection highlight colour is
  visible (`src/entry_backend/harfbuzz.c:427`), even when nothing has been typed. The search for
  the input runs only when there is input (`src/entry_backend/harfbuzz.c:503`). With no match,
  `MatchHighlight.UnmatchedAsThemed` shows that the two passes draw exactly what
  `render_text_themed` draws with the selection theme.
- The comment at `src/entry_backend/harfbuzz.c:167-170` says the background box is always bigger
  than the text. The box reaches only to within one unit of the ink's right edge, because its left
  corner is rounded down while its width is rounded up separately. `ThemedText.BoxCovers` states
  the bound that does hold, and `ThemedText.BoxShortfall` exhibits the gap.

The colour parser works on the bytes of its argument, as `strlen` and `strtol` do. A character
outside ASCII counts once per byte of its UTF-8 encoding, so it can change which branch is taken
(`HexColor.ExampleMultiByte`).

## Model

| member | source | states |
|---|---|---|
| HexColor.HexToColor | src/color.c:6-48 | The result is the sentinel exactly when the byte length after stripping one `#` is not 3, 4, 6 or 8; every other result has all four channels in [0, 1] |
| HexColor.Strip | src/color.c:8-10 | At most one byte is dropped, from the front, and only when it is a `#` |
| HexColor.PackedWord | src/color.c:12-40 | A packed word exists exactly for the four accepted byte lengths, and it fits in 32 bits |
| HexColor.Strtol16 | src/color.c:21 | The base-16 conversion of n bytes lies strictly between -16^n and 16^n, whatever the bytes are |
| HexColor.ShiftInAlpha | src/color.c:22-23 | `val <<= 8; val \|= 0xFF` on a `uint32_t` stays within 32 bits |
| HexColor.ShiftInAlphaLayout | src/color.c:34-35 | After the shift and OR the low byte is 0xFF and above it sit the old word's low three bytes: the top byte is lost |
| HexColor.Channels | src/color.c:42-47 | Splitting a 32-bit word into four bytes over 255 gives channels in [0, 1] |
| HexColor.ChannelsOfBytes | src/color.c:42-47 | The word packed from bytes r, g, b, a splits back into exactly r/255, g/255, b/255, a/255 |
| HexColor.HexValue | src/color.c:37 | The value of n hex digits is below 16^n |
| HexColor.HexRun | src/color.c:37 | The digits `strtol` reads are a prefix of the text, all hex, and stop only at the end or at a non-hex character |
| HexColor.StrtolOfDigits | src/color.c:37 | On a non-empty all-hex string the base-16 conversion is the plain hex value |
| HexColor.ToUint32 | src/color.c:37 | Storing the `long` into a `uint32_t` keeps it below 2^32 |
| HexColor.HexValueAppend | src/color.c:37 | The hex value of two digit strings side by side is the first's value shifted by the second's length in digits, plus the second's value |
| HexColor.ShiftInAlphaBytes | src/color.c:34-35 | Shifting the word of r, g, b left by 8 and OR-ing 0xFF gives the word of r, g, b, 255 |
| HexColor.EightDigits | src/color.c:36-47 | Eight hex digits give the four byte pairs as r, g, b, a, with no implicit alpha |
| HexColor.SixDigits | src/color.c:32-35 | Six hex digits give the three byte pairs as r, g, b, and alpha 255 |
| HexColor.FourDigits | src/color.c:24-31 | Four digits give every channel, alpha included, as 17 times its digit |
| HexColor.ThreeDigits | src/color.c:15-23 | Three digits give r, g, b as 17 times their digits, and alpha 255 |
| HexColor.RoundTrip | src/color.c:36-47 | Any four bytes written as 8 hex digits, in either case and with or without `#`, parse back to exactly those bytes |
| HexColor.CaseInsensitive | src/color.c:15-37 | Lower-casing the input never changes the colour |
| HexColor.ExampleRed | src/color.c:15-23 | `#F00` is (1, 0, 0, 1) |
| HexColor.ExampleMultiByte | src/color.c:13-23 | `é0`, three bytes in UTF-8, takes the three-digit branch: no digit is read and the colour is opaque black, not the sentinel |
| HexColor.ExampleTranslucentGreen | src/color.c:36-47 | `00ff0080` is (0, 1, 0, 128/255) |
| FtErrors.FirstRow | src/entry_backend/harfbuzz.c:54-58 | The position found holds the code and no earlier row does; the table's length means no row holds it |
| FtErrors.GetFtErrorString | src/entry_backend/harfbuzz.c:52-61 | The loop returns the message of the first row with the code, or "Unknown FT error" when there is none |
| FtErrors.NeverNull | src/entry_backend/harfbuzz.c:15-25 | With a table that opens with code 0 and whose only message-less rows have code 0, every code gets a message |
| GlyphPlacement.Placement | src/entry_backend/harfbuzz.c:109-113 | The first glyph sits at its own offset; each later glyph's pen position is the previous glyph's moved right by its x advance and, in Cairo's downward y, up by its y advance |
| GlyphPlacement.PlaceGlyphs | src/entry_backend/harfbuzz.c:102-114 | Glyph k is drawn at the sum of the earlier x advances plus its x offset, and at minus the earlier y advances minus its y offset |
| GlyphPlacement.RenderRun | src/entry_backend/harfbuzz.c:85-128 | The glyphs are placed as above, and the returned extents are the measured ones with the ascent added to the y bearing |
| GlyphPlacement.PenAppend | src/entry_backend/harfbuzz.c:112-113 | The pen travel over two runs is the sum of the travels |
| GlyphPlacement.Concatenation | src/entry_backend/harfbuzz.c:102-114 | In a run made of two parts, each glyph of the second part lands where it would alone, shifted by the first part's travel |
| GlyphPlacement.LeftToRight | src/entry_backend/harfbuzz.c:109-112 | With non-negative advances and no x offsets, glyphs are drawn at non-decreasing x |
| GlyphPlacement.NonNegativeTravel | src/entry_backend/harfbuzz.c:112 | With non-negative x advances the pen never moves left overall |
| FontSettings.NextToken | src/entry_backend/harfbuzz.c:285 | One `strtok_r` call: when it returns no token only commas were left; otherwise the token is non-empty, free of commas, and the rest is shorter |
| FontSettings.Tokens | src/entry_backend/harfbuzz.c:285-292 | Every token returned is non-empty and holds no comma |
| FontSettings.TokensOfJoin | src/entry_backend/harfbuzz.c:285-292 | Splitting non-empty, comma-free tokens joined with commas gives back exactly those tokens |
| FontSettings.ExtraCommas | src/entry_backend/harfbuzz.c:285-292 | Example: `,,wght=700,,` splits into the single token `wght=700`; the leading, repeated and trailing commas produce no empty token |
| FontSettings.KeptMembers | src/entry_backend/harfbuzz.c:287-291 | Every stored setting comes from a token that parses, and no token that parses is lost |
| FontSettings.KeptAppend | src/entry_backend/harfbuzz.c:286-293 | The settings kept from two token lists are those kept from each, in order |
| FontSettings.KeptPrefix | src/entry_backend/harfbuzz.c:285-293 | When the loop stops with every token seen, or with the array full, the values stored are the kept values that fit |
| FontSettings.ParseInto | src/entry_backend/harfbuzz.c:284-293 | The array's used prefix becomes its old contents plus the parsed tokens that parse, in order, cut at the array's capacity; the count never exceeds the capacity |
| FontSettings.FontSettings.ParseSettings | src/entry_backend/harfbuzz.c:284-316 | The variation list and the feature list each gain their specification's parsed tokens, in order, up to capacity |
| MaskedInput.BuildMasked | src/entry_backend/harfbuzz.c:370-378 | The fresh buffer is the masking character repeated once per input character, followed by a NUL |
| MaskedInput.RepeatLength | src/entry_backend/harfbuzz.c:372 | The masked text is `nchars * char_size` bytes long |
| MaskedInput.RepeatAt | src/entry_backend/harfbuzz.c:373-377 | Byte `m * char_size + j` of the masked text is byte j of the masking character |
| MaskedInput.UpToNul | src/entry_backend/harfbuzz.c:380 | The text read from a buffer is a NUL-free prefix that stops at the first NUL |
| MaskedInput.MaskedText | src/entry_backend/harfbuzz.c:378-380 | With no NUL in the masking character, the text drawn is the whole repetition |
| ThemedText.BoxAround | src/entry_backend/harfbuzz.c:184-193 | The corner is the padded ink start rounded down and the top padding above the origin; width and height are the padded ink width and padded font height rounded up, less than one unit more |
| ThemedText.ThemedDraws | src/entry_backend/harfbuzz.c:152-201 | The extents are the text's; one drawing step when the background is transparent, three (text, box, text) otherwise |
| ThemedText.OnlyText | src/entry_backend/harfbuzz.c:517-569 | Steps that only draw text paint no box and draw their texts in order |
| ThemedText.ThemedLayers | src/entry_backend/harfbuzz.c:152-201 | The extents are the text's whatever the theme; the last step draws the text in the foreground colour; one box, around the text, is painted exactly when the background alpha is not 0 |
| ThemedText.BoxCovers | src/entry_backend/harfbuzz.c:184-193 | The box starts at or before the padded ink, ends less than one unit short of its padded right edge at worst, and spans the padded font height |
| ThemedText.BoxShortfall | src/entry_backend/harfbuzz.c:184-193 | With no padding, the box can end half a unit before the ink does |
| ThemedText.BoxesAppend | src/entry_backend/harfbuzz.c:181-199 | The boxes painted by two lists of steps are those of each, in order |
| MatchHighlight.Locate | src/entry_backend/harfbuzz.c:503-505 | A match is searched for only with non-empty input; one found lies wholly inside the result |
| MatchHighlight.Split | src/entry_backend/harfbuzz.c:498-514 | The prematch is a prefix of the result; a match part exists exactly when a match was found, and is as long as the input; there is a postmatch only after a match |
| MatchHighlight.SplitParts | src/entry_backend/harfbuzz.c:498-514 | The parts join back to the result; with no match the prematch is the result; the match is as long as the input and follows the prematch; the postmatch exists exactly when text follows the match |
| MatchHighlight.Append | src/entry_backend/harfbuzz.c:547-551 | Two runs side by side: the ink spans from the first run's leftmost pixel to the second run's rightmost pixel, and the advances add up |
| MatchHighlight.Combined | src/entry_backend/harfbuzz.c:522-568 | With only a prematch the extents are the prematch's; the vertical metrics are always those of the first part measured (the match when the prematch is empty) |
| MatchHighlight.InkSpan | src/entry_backend/harfbuzz.c:522-568 | The combined advance is the sum of the parts' advances; the combined ink runs from the first non-empty part's ink start to the last part's ink end, each at the pen position where it was drawn |
| MatchHighlight.NoMatchExtents | src/entry_backend/harfbuzz.c:522-523 | With no match the combined extents are the whole result's |
| MatchHighlight.WholeMatchExtents | src/entry_backend/harfbuzz.c:530-533 | A match covering the whole result gives the whole result's extents |
| MatchHighlight.PassDraws | src/entry_backend/harfbuzz.c:517-569 | One pass has exactly one drawing step per part |
| MatchHighlight.HighlightDraws | src/entry_backend/harfbuzz.c:517-598 | The extents are the combined ones; one pass of the parts is drawn, or two passes with one box between them when the selection background is visible |
| MatchHighlight.HighlightLayers | src/entry_backend/harfbuzz.c:517-598 | The texts of one pass join back into the whole result; a whole pass is drawn last, so no part is hidden by the box; exactly one box, around the combined extents, is painted exactly when the selection background alpha is not 0 |
| MatchHighlight.UnmatchedAsThemed | src/entry_backend/harfbuzz.c:517-598 | Without a match, the two passes draw exactly what the themed renderer draws with the selection theme |
| ResultLayout.SizeOverflows | src/entry_backend/harfbuzz.c:203-218 | Whatever does not overflow starts at or before the clip edge on the layout axis |
| ResultLayout.SizeOverflowsAxis | src/entry_backend/harfbuzz.c:203-218 | Only the layout axis is tested; ending exactly at the clip edge is not overflow; what fits still fits when smaller |
| ResultLayout.Truncate | src/entry_backend/harfbuzz.c:448 | A non-negative `double` passed as `uint32_t` loses only its fraction |
| ResultLayout.CandidateCount | src/entry_backend/harfbuzz.c:390-395 | The loop bound never exceeds the number of results, nor a fixed row count |
| ResultLayout.RowRole | src/entry_backend/harfbuzz.c:427-435 | The selection theme goes exactly to the selected position; otherwise the alternate theme goes exactly to odd result indices |
| ResultLayout.Step | src/entry_backend/harfbuzz.c:399-403 | The translation before a row moves only along the layout axis |
| ResultLayout.Kept | src/entry_backend/harfbuzz.c:436-470 | The highlighted selection, and every row of a fixed count, is always kept |
| ResultLayout.RowsFrom | src/entry_backend/harfbuzz.c:396-609 | The recursive statement of the result loop that `DrawResults` is proved equal to; it has no contract of its own, and `RowShape`, `RowOrigins`, `RowsFit` and the count and fitting lemmas state its properties |
| ResultLayout.Entry.DrawResults | src/entry_backend/harfbuzz.c:396-609 | The loop draws exactly the rows `RowsFrom` specifies and records their number as the rows drawn |
| ResultLayout.Entry.Update | src/entry_backend/harfbuzz.c:354-612 | The input field shows the placeholder, masked input or input; the results start past the prompt and padding, with the input's advance widened to `inputWidth` |
| ResultLayout.RowShape | src/entry_backend/harfbuzz.c:413-435 | Row k shows result `firstResult + k` with that position's theme, highlighting and extents; there are never more rows than candidates or remaining results |
| ResultLayout.RowOrigins | src/entry_backend/harfbuzz.c:399-403 | Each row is placed one step past the previous one: past its advance and the spacing, or one line down |
| ResultLayout.RowsFit | src/entry_backend/harfbuzz.c:404-470 | Every row drawn passed its mode's checks, and when candidates remain the next one failed them: the rows are the longest run that fits |
| ResultLayout.FixedCount | src/entry_backend/harfbuzz.c:391-420 | With a fixed count, exactly `min(numResults, count - firstResult)` rows are drawn |
| ResultLayout.FixedCountFrom | src/entry_backend/harfbuzz.c:398-420 | From iteration i on, a fixed count draws the rows left below both bounds |
| ResultLayout.VerticalAutoFit | src/entry_backend/harfbuzz.c:400-453 | Fitting vertically, row k sits at `y0 + (k+1)*(fontHeight + spacing)`, every row drawn fits, and the first row that does not fit ends the list |
| ResultLayout.LineSteps | src/entry_backend/harfbuzz.c:401-403 | When each row is one step past the previous one and rows stack vertically, the step before row k lands k + 1 line heights below the start |
| ResultLayout.HorizontalAutoFit | src/entry_backend/harfbuzz.c:463-470 | Fitting horizontally, every unhighlighted row ends by its advance within the clip; the list stops at the first row that starts past the edge or whose advance takes it past |
| ResultLayout.Alternation | src/entry_backend/harfbuzz.c:427-435 | Neighbouring rows away from the selection take different themes, the default one on even result indices |
| ResultLayout.MaskedInputShown | src/entry_backend/harfbuzz.c:367-384 | A hidden, non-empty input shows the masking character once per input character, `inputChars * char_size` bytes in all |

## Left out

- Shaping, rasterising and measuring text are left out: FreeType, HarfBuzz and Cairo are foreign libraries. `measure`, `glyphExtents`, `find` and `parse` stand for them, and the model assumes a text's extents depend only on the text.
- Font loading and Cairo/HarfBuzz/FreeType set-up and teardown (`entry_backend_harfbuzz_init` outside its token loops, `entry_backend_harfbuzz_destroy`) are left out: they are calls into those libraries.
- The 96/72 point-to-pixel scaling (`PT_TO_DPI`) is left out: it is floating-point arithmetic on the font size only.
- `rounded_rectangle`'s arcs are left out: it is floating-point path drawing. The box is kept as corner, size and radius.
- ThemedText.BoxAround: the box's rounded-up width and height are kept as integers. Their conversion to `uint32_t` for `rounded_rectangle` is not modelled.
- `cairo_save`/`cairo_restore` pairing and the off-screen group of the horizontal fit are left out. These are Cairo state. A row measured aside and then discarded is simply not in the list of rows.
- `utf8_strcasestr` is left out: its module is not part of this model. `Finder` assumes that a match is as long as the input in bytes and lies inside the result.
- The claim that the highlighted selection can never overflow the clip is not proved. The code skips that check, and the model skips it the same way.
- Logging and `exit(EXIT_FAILURE)` on font errors are left out: they are I/O and process control.
- Double-precision rounding is not modelled. Coordinates and extents are exact reals, and glyph positions are exact 1/64 units.
- ResultLayout.SizeOverflows: the clip edge `clip_x + clip_width` is taken over unbounded integers. A 32-bit wrap of that sum is not modelled. The declaration of `struct entry` is not part of this model.
- ResultLayout.Truncate: a negative `double` is taken to convert to 0. C leaves that conversion undefined.
- HexColor.Strtol16: a 32-bit `long`, whose saturation could matter, is not modelled. At most 8 characters ever reach the conversion, so a 64-bit `long` never saturates.
- HexColor.HexToColor requires its argument to hold no NUL, as a C string cannot.
- FontSettings.ParseInto: a token that fails to parse may still have written into the next free slot. The model leaves slots past the count unspecified instead.
- `strtok_r` writing NULs into the settings strings is not modelled: the strings are not read again.
- FtErrors.NeverNull: the table's rows come from FreeType's `fterrors.h`, which is not part of this model. The lemma assumes the table opens with code 0 and that its only row without a message is the closing `{ 0, NULL }`.
- MatchHighlight.InkSpan assumes the empty text has no advance. An empty prematch is drawn, and the pen moves by its advance, but its extents are not combined.
- The `i >= num_results` break in the result loop can never be taken. `ResultLayout.RowsFrom` keeps it, and `ResultLayout.Entry.DrawResults` is proved equal without it.
- The repeated `num_results_drawn = i` assignments inside the loop are not modelled separately. They store the value the final assignment stores.
