# HyperASCII conversion engine, modelled in Dafny

HyperASCII turns an image into ASCII art. Its `ASCIIEngine` (main.py)
takes a single-channel brightness grid and produces two outputs:

- a plain glyph string, which the preview cuts into lines of the grid's
  width;
- a coloured HTML document with one `<span>` per pixel and one `<div>` per
  row.

This model starts from the already-decoded grid: a row-major sequence of
samples 0..255 plus a row width of at least 1. It covers:

- **Ramps** (`ramps.dfy`): the table of named glyph ramps and the two rules
  that pick the ramp a conversion uses.
- **Glyphs** (`glyphs.dfy`): the brightness-to-glyph index
  `min(int(p / 256 * n), n - 1)` and the glyph string of a grid.
- **Colors** (`colors.dfy`): the truncating linear interpolation between a
  dark and a light colour, the `#rrggbb` formatter, and `hex_to_rgb`.
- **Html** (`html.dfy`): the document shell, the escaped span of a pixel,
  the complete rows of the grid and their `<div>`s, and the document a
  conversion produces.
- **Rows** (`rows.dfy`): the bookkeeping of the HTML pixel loop. It shows
  that the `<div>`s written whenever `(i + 1) % width == 0` are exactly the
  complete rows, and that a trailing partial row is dropped.
- **Engine** (`engine.dfy`): the class `AsciiEngine`, whose `ramps` table is
  set by its constructor, and the HTML pixel loop `AppendRows`.
  - `GenerateText` is a loop, proved equal to `Glyphs.MapGlyphs` of the
    selected ramp.
  - `GenerateHtml` parses the two colours and calls `AppendRows`. It is proved
    equal to `Html.HtmlDocument`.
  - `AppendRows` is proved to append the `<div>`s of the complete rows of
    pixel spans.
- **Lines** (`lines.dfy`): the preview's line split
  `"\n".join(s[i:i+w] for i in range(0, len(s), w))`.

Python exceptions are modelled as values of `Base.Result`:

- indexing an empty ramp gives `IndexError`;
- a colour string that `int(_, 16)` refuses gives `ValueError`.

The document header (`Html.Header`) keeps the line breaks and indentation of
the triple-quoted literal, with `\n` line ends: Python reads the source
file's CRLF line ends inside the literal as `\n`.

A ramp name that is not a key of the table selects Standard, as `dict.get`
with a default does (`Ramps.UnknownKeyIsStandard`). The option menu at
main.py:141 offers only the table's keys, so the interface never reaches
this case.

In a few places the code behaves differently from what one might expect.
The model follows the code in each case, and lemmas state the behaviour:

- **No fallback for an empty custom ramp.** Choosing "Custom" with an empty
  custom text does not fall back to the Standard ramp. The table holds `""`
  for "Custom", so the first pixel raises IndexError
  (`Ramps.TextRampEmptyIff`, `Glyphs.MapGlyphs`).
- **HTML ignores the custom text.** The HTML conversion never uses the custom
  text, so "Custom" always fails there once there is a pixel
  (`Ramps.HtmlRampIgnoresCustom`).
- **Channels are truncated, not rounded.** `int()` cuts the interpolated
  channel down to an integer (`Colors.LerpChannel`, `Colors.LerpTruncates`).
- **The brightest sample reaches the last glyph.** Despite the `/ 256`
  divisor, brightness 255 takes the last glyph of every ramp of at most 256
  glyphs (`Glyphs.RampIndexEnds`).

A 4×4 grid of mid-grey 128 under "Minimalist" gives glyph index
`floor(128 * 10 / 256) = 5`. That glyph is `=` in the table literal, so the
preview is four lines of `====`. `Engine.MidGreyGrid` states this from the
ramp selection through to the preview text.

## Model

| member | source | states |
|---|---|---|
| Ramps.Lookup | main.py:46 | The entry under the key when the table has one, otherwise the Standard entry; either way one of the table's ramps. |
| Ramps.SelectTextRamp | main.py:43-46 | "Custom" with a non-empty text selects that text. The ramp is always the custom text or one of the table's ramps, and for every key other than "Custom" the custom text plays no part. |
| Ramps.SelectHtmlRamp | main.py:73 | The ramp is always one of the table's ramps; the custom text is not an input. |
| Ramps.RampSizes | main.py:8-14 | The table's ramps have 70, 5, 3 and 10 glyphs. In the Standard ramp, `\|` keeps its backslash, `\"` is a double quote, and `<` and `>` are present. "Custom" holds the empty string. |
| Ramps.CustomTextUsedIff | main.py:43-46 | For a custom text that is none of the table's ramps (and so not empty), the custom text is the ramp exactly when the key is "Custom" and the text is non-empty. |
| Ramps.UnknownKeyIsStandard | main.py:43-46 | A key missing from the table selects the Standard ramp, in both conversions. |
| Ramps.TextRampEmptyIff | main.py:13 | The selected text ramp is empty exactly when "Custom" is chosen with an empty text. There is no fallback. |
| Ramps.HtmlRampIgnoresCustom | main.py:73 | The HTML ramp is the text ramp with no custom text. It is empty exactly when the key is "Custom". |
| Glyphs.RampIndex | main.py:52-53 | For an empty ramp the index is -1. For a non-empty ramp it is `floor(p * n / 256)` and lies in `[0, n)`, so the clamp never changes it. |
| Glyphs.RampIndexMonotone | main.py:52-53 | A brighter pixel never takes an earlier glyph. |
| Glyphs.RampIndexEnds | main.py:52-53 | Brightness 0 takes the first glyph. Brightness 255 takes the last glyph of any ramp of at most 256 glyphs. |
| Glyphs.Glyph | main.py:52-54 | A pixel's glyph exists exactly when the ramp is non-empty, and it is the ramp's glyph at `RampIndex`. |
| Glyphs.MapGlyphs | main.py:48-56 | The result is a string exactly when the ramp is non-empty or there are no pixels; otherwise it is IndexError. The string has one glyph per pixel, in pixel order, each the ramp's glyph at the pixel's index. |
| Colors.LerpChannel | main.py:63-66 | One interpolated channel is the start at 0 and the end at 255, and always lies between the two. It is the truncation of the exact value: `255 * c <= 255 * s + (e - s) * v < 255 * c + 255`. |
| Colors.LerpTruncates | main.py:63-66 | Truncation, not rounding: brightness 128 and 254 on the range 0 to 1 give 0, and 127 on the range 1 to 0 gives 0, where rounding would give 1 in each case. |
| Colors.LerpEndpoints | main.py:61-67 | The interpolated colour is the dark colour at brightness 0 and the light colour at 255. Every channel lies between the endpoints' channels. |
| Colors.LerpChannelMonotone | main.py:63-66 | A brighter pixel moves each channel towards the light endpoint. |
| Colors.ToHex | main.py:67 | The formatted colour has seven characters, starts with `#`, and is canonical: six lowercase hex digits follow. |
| Colors.Hex2 | main.py:67 | `:02x` of a channel is exactly two lowercase hex digits; `Colors.Hex2RoundTrip` shows they parse back to the channel. |
| Colors.Lerp | main.py:61-66 | The interpolated colour is `LerpChannel` applied to each of the three channels; `Colors.LerpEndpoints` gives its endpoints and bounds. |
| Colors.InterpolateColor | main.py:61-67 | Brightness 0 gives the string of the dark colour and 255 that of the light colour; `Colors.InterpolateColorParses` shows the string parses back to the interpolated colour. |
| Colors.ParseChannel | main.py:59 | The model's `int(t, 16)` succeeds only when the slice is one or two hex digits, in either case; a single digit gives a value below 16. |
| Colors.HexToRgb | main.py:58-59 | A colour is read only from a string of at least six characters whose positions 1, 3 and 5 hold hex digits; anything else is ValueError. It inverts `ToHex` (`Colors.HexRoundTrip`, `Colors.CanonicalRoundTrip`). |
| Colors.Lower | main.py:59 | The lowercase form of a hex digit is a lowercase hex digit with the same value. |
| Colors.LowerHex | main.py:59 | The colour string with every character after the `#` put in lowercase. |
| Colors.ChannelAnyCase | main.py:59 | A two-character slice parses to the same channel, or the same ValueError, as its lowercase form: `int(_, 16)` reads either case. |
| Colors.HexAnyCase | main.py:58-59 | `hex_to_rgb` of a seven-character string gives the same result as of its lowercase form. |
| Colors.AnyCaseRoundTrip | main.py:58-59 | Every `#rrggbb` string with hex digits in either case parses, and its colour is written back as the lowercase form of the string. |
| Colors.DefaultColors | main.py:117-119 | The default colours `#38005E`, `#CFB7FF` and `#000000` parse to the channels they spell. |
| Colors.Hex2RoundTrip | main.py:58-67 | Two lowercase hex digits of a channel parse back to the channel. |
| Colors.HexRoundTrip | main.py:58-67 | `hex_to_rgb` of the formatted colour gives the colour back, and the string is canonical `#rrggbb` in lowercase. |
| Colors.DigitRoundTrip | main.py:58-67 | A lowercase hex digit's value is written back as the same digit. |
| Colors.ChannelRoundTrip | main.py:58-67 | Two lowercase hex digits parse to a channel that is written back as the same two digits. |
| Colors.CanonicalRoundTrip | main.py:58-67 | Every canonical `#rrggbb` string parses, and formatting the parsed colour gives the same string. On canonical strings the two are inverses. |
| Colors.InterpolateColorParses | main.py:58-67 | The colour string of a pixel parses back to the interpolated colour and is canonical. |
| Colors.Slice | main.py:59 | A Python slice `s[i:j]` is at most `j - i` long. |
| Html.EscapeSound | main.py:93-95 | An escaped glyph never contains `<` or `>`. Every other glyph is kept as it is. The glyph can always be read back. |
| Html.Escape | main.py:93-95 | The escaped glyph contains no `<` and no `>`, and is one character or a four-character entity; `Html.EscapeSound` shows the glyph is recovered. |
| Html.Header | main.py:79-82 | Defined as the opening literal with the background colour inserted verbatim; no contract of its own. |
| Html.SpanMarkup | main.py:97 | Defined as `<span style="color:{color}">{text}</span>`; `Html.SpanRoundTrip` shows the colour and glyph can be read back. |
| Html.Span | main.py:93-97 | Defined as the markup of the escaped glyph; `Html.SpanRoundTrip` gives its meaning. |
| Html.PixelSpan | main.py:86-97 | Defined as the span of the pixel's glyph and interpolated colour; `Html.PixelSpanReadsBack` gives its meaning. |
| Html.PixelSpanReadsBack | main.py:86-97 | A pixel's span reads back as the pixel's colour string and glyph, and the colour string parses to the interpolated colour. |
| Html.PixelSpans | main.py:85-97 | Defined as the spans of all pixels in order; `Html.PixelSpansAt` gives one span per pixel. |
| Html.CompleteRows | main.py:99-101 | Defined as the consecutive rows of `w` items, a trailing partial row left out; `Html.RowCount` and `Html.CompleteRowsAt` give their number and contents. |
| Html.DivMarkup | main.py:100 | Defined as `<div>{line}</div>`; `Rows.LayoutDocument` shows these are exactly the complete rows. |
| Html.SpanRoundTrip | main.py:97 | A span built from a seven-character colour and a glyph parses back to that colour and glyph. |
| Html.SpansUpToPrefix | main.py:85-97 | The spans the loop has produced after `i` pixels are the spans of the first `i` pixels. |
| Html.SpansUpToAt | main.py:85-97 | Span `k` of those produced so far is the span of pixel `k`. |
| Html.PixelSpansAt | main.py:85-97 | There is one span per pixel, in pixel order, each carrying the pixel's glyph and interpolated colour. |
| Html.CompleteRowsCount | main.py:99-101 | With `k` whole rows and fewer than `w` leftover items there are exactly `k` complete rows. |
| Html.RowCount | main.py:99-101 | There are `len(pixels) // width` complete rows. |
| Html.CompleteRowsAt | main.py:99-101 | Complete row `j` is items `j * w` up to `j * w + w`, in order. |
| Html.CompleteRowsAppend | main.py:99-101 | Splitting the items at a row boundary splits the rows there. |
| Html.HtmlDocument | main.py:69-104 | The document is IndexError exactly when the ramp is empty and there is a pixel. Otherwise, by definition, it is the header, the `<div>` of every complete row of pixel spans, and the closing `</body></html>`. |
| Rows.Layout | main.py:84-101 | Defined as the loop's document and current line after a sequence of spans, one step per span; `Rows.LayoutDocument` gives the document's meaning. |
| Rows.LayoutSnoc | main.py:97-101 | One more span joins the current line. When the count reaches a multiple of the width, the line goes into the document as a `<div>` and the line is cleared. |
| Rows.AdvanceRows | main.py:97-101 | The `(i + 1) % width == 0` test fires exactly when the current row becomes full. Either way, the document holds the complete rows so far and the line holds the rest. |
| Rows.LayoutRows | main.py:84-101 | After any number of spans, the document holds a `<div>` for every complete row and the line holds the spans of the row under way. |
| Rows.LayoutDocument | main.py:84-103 | After the loop the document holds the `<div>` of every complete row, in order, and nothing of a trailing partial row. |
| Rows.FinishRows | main.py:99-103 | At the end, the row under way is dropped from the document. |
| Rows.CloseRowStep | main.py:99-101 | Closing a full row appends exactly that row's `<div>`. |
| Rows.RowBoundary | main.py:99 | Inside a row that starts at a multiple of the width, the modulo test is zero exactly at the row's end. |
| Rows.AlignedRows | main.py:99 | A row start is a whole number of rows. |
| Rows.LeftoverDropped | main.py:99-103 | The items after the last complete row make no row. |
| Engine.AsciiEngine.constructor | main.py:7-14 | The engine's table is the ramp table, and it holds the Standard entry that every lookup falls back on. |
| Engine.AsciiEngine.GenerateText | main.py:39-56 | The loop's result is the glyph string of the selected ramp, or IndexError. |
| Engine.AsciiEngine.GenerateHtml | main.py:69-104 | An unparsable colour gives ValueError. Otherwise the result is the document of the HTML ramp, the parsed colours, the background and the grid. |
| Engine.AppendRows | main.py:84-103 | The pixel loop fails with IndexError exactly when the ramp is empty and there is a pixel. Otherwise it appends the `<div>` of every complete row of pixel spans, in order. |
| Engine.RenderPixel | main.py:86-97 | One pixel's span is absent exactly when the ramp is empty; otherwise it is the pixel's span. |
| Engine.MidGreyMinimalist | main.py:12-54 | A grid of brightness 128 under the Minimalist ramp becomes all `=` glyphs. |
| Engine.MidGreyGrid | main.py:43-56 | Sixteen pixels of 128 with "Minimalist" chosen, whatever the custom text, select the Minimalist ramp and preview at width 4 as four lines of `====`. |
| Engine.MidGreyChunks | main.py:239 | Sixteen glyphs at width 4 make four lines of four. |
| Engine.FourLines | main.py:239 | Four lines are joined with three line breaks. |
| Engine.MidGreyPreview | main.py:239 | The preview of sixteen `=` at width 4 is four lines of `====`. |
| Lines.Chunks | main.py:239 | Defined as the slices `s[i:i+w]` for `i` in steps of `w`; `Lines.ChunksShape` and `Lines.ChunksConcat` give their meaning. |
| Lines.JoinLines | main.py:239 | Defined as `"\n".join(lines)`; `Lines.JoinLinesRemove` gives its meaning. |
| Lines.FormatText | main.py:239 | Defined as the chunks joined by line breaks; `Lines.FormatTextRoundTrip` gives its meaning. |
| Lines.ChunksConcat | main.py:239 | The lines, put back together, are the glyph string. |
| Lines.ChunksShape | main.py:239 | Every line but the last has exactly `width` glyphs. The last has the rest and is not empty. |
| Lines.ChunksExact | main.py:239 | When the width divides the length, every line has exactly `width` glyphs. |
| Lines.ChunksNoNewline | main.py:239 | No line contains a line break when the glyph string has none. |
| Lines.JoinLinesRemove | main.py:239 | Removing the separators from the joined lines leaves the lines back to back. |
| Lines.RemoveNewlinesAppend | main.py:239 | Removing line breaks distributes over concatenation. |
| Lines.RemoveNewlinesNone | main.py:239 | A string without line breaks is left unchanged. |
| Lines.FormatTextRoundTrip | main.py:239 | Removing the line breaks from the preview gives back the glyph string exactly. |

## Left out

- Image loading, grayscale conversion, contrast enhancement, inversion and LANCZOS resizing (main.py:16-37). These are calls into PIL; the model takes the resulting grid as its input. Its height formula `int(width * h / w * 0.55)` is floating point and is not part of this model.
- The Tk user interface (main.py:107-280): widgets, dialogs, colour chooser and message boxes. Only the line split at main.py:239 is modelled.
- Writing the `.txt` and `.html` files, which is I/O.
- The error message strings of the `except` clause at main.py:36-37.
- Colors.LerpChannel: uses exact rational arithmetic, `floor((255 * s + (e - s) * v) / 255)`, where the source multiplies by the float `v / 255.0`. For some intermediate brightness values the float product can land just below an integer and truncate one lower. At 0 and 255, where `t` is exactly 0.0 and 1.0, the two agree.
- Colors.ParseChannel: see the Colors.HexToRgb line below; the slice forms it refuses and Python accepts are listed there.
- Colors.HexToRgb: models `int(t, 16)` on one or two ASCII hexadecimal digits (either case) only. Python also accepts other two-character slices, which the model treats as ValueError:
  - surrounding whitespace, Unicode whitespace included (`" f"` is 15);
  - Unicode decimal digits (`"٣٣"` is 0x33);
  - a sign. `"+f"` is 15, and `"-f"` is -15, a negative channel that does not raise. It goes on into `interpolate_color` and the colour format, which the model's 0..255 `Channel` type cannot represent.
- Glyphs.RampIndex: relies on `p / 256 * n` being exact in floating point. This holds because `p / 256` is a dyadic rational and `p * n` stays far below 2^53 for any realistic ramp. Longer custom ramps are not considered.
