/** The HTML renderer's building blocks: the document shell, one coloured
    span per pixel with `<` and `>` escaped, and one `<div>` per complete
    row of the grid. */
module Html {
  import opened Base
  import opened Glyphs
  import opened Colors

  /** The document opening, with the background colour inserted verbatim
      (the triple-quoted literal starts and ends with line breaks and
      indentation). */
  const HeaderStart: string := "\n        <html>\n        <body style=\"background-color:"
  const HeaderEnd: string :=
    "; font-family: 'Courier New', monospace; font-size: 10px; line-height: 0.6em; white-space: pre;\">\n        "

  function Header(background: string): string
  {
    HeaderStart + background + HeaderEnd
  }

  const Footer: string := "</body></html>"

  /** The only sanitising done: `<` and `>` become entities, every other
      glyph (`&` and quotes included) is written as it is. */
  function Escape(g: char): (t: string)
    ensures '<' !in t && '>' !in t
    ensures |t| == 1 || |t| == 4
  {
    if g == '<' then "&lt;" else if g == '>' then "&gt;" else [g]
  }

  /** Reads back the glyph a span's text stands for. */
  function Unescape(t: string): Option<char>
  {
    if t == "&lt;" then Some('<')
    else if t == "&gt;" then Some('>')
    else if |t| == 1 then Some(t[0])
    else None
  }

  /** Escaping never leaves a raw `<` or `>` in a span's text, leaves every
      other glyph alone, and loses nothing. */
  lemma EscapeSound(g: char)
    ensures '<' !in Escape(g) && '>' !in Escape(g)
    ensures g != '<' && g != '>' ==> Escape(g) == [g]
    ensures Unescape(Escape(g)) == Some(g)
  {
  }

  const SpanOpen: string := "<span style=\"color:"
  const SpanMid: string := "\">"
  const SpanClose: string := "</span>"

  /** `<span style="color:{color}">{text}</span>`. */
  function SpanMarkup(color: string, text: string): string
  {
    SpanOpen + color + SpanMid + text + SpanClose
  }

  /** The span of one glyph, escaped. */
  function Span(color: string, g: char): string
  {
    SpanMarkup(color, Escape(g))
  }

  /** Splits a span whose colour is a seven-character `#rrggbb` string back
      into its colour and its glyph. */
  function ParseSpan(s: string): Option<(string, char)>
  {
    var a := |SpanOpen|;
    var b := a + 7;
    var c := b + |SpanMid|;
    if |s| < c + |SpanClose| then None
    else
      var d := |s| - |SpanClose|;
      if s[..a] == SpanOpen && s[b..c] == SpanMid && s[d..] == SpanClose then
        match Unescape(s[c..d])
        case Some(g) => Some((s[a..b], g))
        case None => None
      else None
  }

  /** Each span can be read back: its colour and its glyph are recovered
      exactly. */
  lemma {:induction false} SpanRoundTrip(color: string, g: char)
    requires |color| == 7
    ensures ParseSpan(Span(color, g)) == Some((color, g))
  {
    var s := Span(color, g);
    var a := |SpanOpen|;
    var b := a + 7;
    var c := b + |SpanMid|;
    var d := |s| - |SpanClose|;
    EscapeSound(g);
    assert s[..a] == SpanOpen;
    assert s[a..b] == color;
    assert s[b..c] == SpanMid;
    assert s[c..d] == Escape(g);
    assert s[d..] == SpanClose;
  }

  /** The span for one pixel: its glyph from the ramp, its colour
      interpolated from the brightness. */
  function PixelSpan(ramp: string, start: Rgb, end: Rgb, p: Brightness): string
    requires ramp != ""
  {
    Span(InterpolateColor(p, start, end), ramp[RampIndex(p, |ramp|)])
  }

  /** A pixel's span reads back as the pixel's colour, which parses to the
      interpolated colour, and the pixel's glyph. */
  lemma PixelSpanReadsBack(ramp: string, start: Rgb, end: Rgb, p: Brightness)
    requires ramp != ""
    ensures var color := InterpolateColor(p, start, end);
            && ParseSpan(PixelSpan(ramp, start, end, p)) == Some((color, ramp[RampIndex(p, |ramp|)]))
            && HexToRgb(color) == Some(Lerp(p, start, end))
  {
    InterpolateColorParses(p, start, end);
    SpanRoundTrip(InterpolateColor(p, start, end), ramp[RampIndex(p, |ramp|)]);
  }

  /** The spans of all pixels, in pixel order. */
  function PixelSpans(ramp: string, start: Rgb, end: Rgb, pixels: seq<Brightness>): seq<string>
    requires ramp != "" || pixels == []
  {
    if pixels == [] then []
    else PixelSpans(ramp, start, end, pixels[..|pixels| - 1]) + [PixelSpan(ramp, start, end, pixels[|pixels| - 1])]
  }

  /** The spans of the first `i` pixels, counted from the front of the
      whole grid. */
  ghost function SpansUpTo(ramp: string, start: Rgb, end: Rgb, pixels: seq<Brightness>, i: nat): (spans: seq<string>)
    requires i <= |pixels| && (ramp != "" || i == 0)
    ensures |spans| == i
  {
    if i == 0 then [] else SpansUpTo(ramp, start, end, pixels, i - 1) + [PixelSpan(ramp, start, end, pixels[i - 1])]
  }

  /** They are the spans of the prefix `pixels[..i]`. */
  lemma {:induction false} SpansUpToPrefix(ramp: string, start: Rgb, end: Rgb, pixels: seq<Brightness>, i: nat)
    requires i <= |pixels| && (ramp != "" || i == 0)
    ensures SpansUpTo(ramp, start, end, pixels, i) == PixelSpans(ramp, start, end, pixels[..i])
  {
    if i > 0 {
      SpansUpToPrefix(ramp, start, end, pixels, i - 1);
      assert pixels[..i][..i - 1] == pixels[..i - 1];
    }
  }

  /** Span `k` of the first `i` is the span of pixel `k`. */
  lemma {:induction false} SpansUpToAt(ramp: string, start: Rgb, end: Rgb, pixels: seq<Brightness>, i: nat)
    requires i <= |pixels| && (ramp != "" || i == 0)
    ensures forall k :: 0 <= k < i ==> SpansUpTo(ramp, start, end, pixels, i)[k] == PixelSpan(ramp, start, end, pixels[k])
  {
    if i > 0 {
      SpansUpToAt(ramp, start, end, pixels, i - 1);
      var prev := SpansUpTo(ramp, start, end, pixels, i - 1);
      var last := PixelSpan(ramp, start, end, pixels[i - 1]);
      assert SpansUpTo(ramp, start, end, pixels, i) == prev + [last];
      forall k | 0 <= k < i
        ensures (prev + [last])[k] == PixelSpan(ramp, start, end, pixels[k])
      {
        if k < i - 1 {
          assert (prev + [last])[k] == prev[k];
        }
      }
    }
  }

  /** One span per pixel: span `i` is the span of pixel `i`. */
  lemma PixelSpansAt(ramp: string, start: Rgb, end: Rgb, pixels: seq<Brightness>)
    requires ramp != "" || pixels == []
    ensures |PixelSpans(ramp, start, end, pixels)| == |pixels|
    ensures forall i :: 0 <= i < |pixels| ==>
      PixelSpans(ramp, start, end, pixels)[i] == PixelSpan(ramp, start, end, pixels[i])
  {
    SpansUpToPrefix(ramp, start, end, pixels, |pixels|);
    SpansUpToAt(ramp, start, end, pixels, |pixels|);
    assert pixels[..|pixels|] == pixels;
  }

  /** The complete rows of `w` items each, in order; a trailing partial row
      is not among them. */
  function CompleteRows<T>(xs: seq<T>, w: nat): seq<seq<T>>
    requires w >= 1
    decreases |xs|
  {
    if |xs| < w then [] else [xs[..w]] + CompleteRows(xs[w..], w)
  }

  /** With `k` complete rows in `xs` there are exactly `k` rows: the
      leftover items (fewer than `w`) make no row. */
  lemma {:induction false} CompleteRowsCount<T>(xs: seq<T>, w: nat, k: nat)
    requires w >= 1 && k * w <= |xs| < k * w + w
    ensures |CompleteRows(xs, w)| == k
    decreases k
  {
    if k > 0 {
      MulSucc(k - 1, w);
      CompleteRowsCount(xs[w..], w, k - 1);
    }
  }

  /** There are `len(xs) // w` complete rows. */
  lemma RowCount<T>(xs: seq<T>, w: nat)
    requires w >= 1
    ensures |CompleteRows(xs, w)| == |xs| / w
  {
    CompleteRowsCount(xs, w, |xs| / w);
  }

  /** Row `j` holds items `j * w` up to `j * w + w`, in order. */
  lemma {:induction false} CompleteRowsAt<T>(xs: seq<T>, w: nat, j: nat)
    requires w >= 1 && j * w + w <= |xs|
    ensures j < |CompleteRows(xs, w)|
    ensures CompleteRows(xs, w)[j] == xs[j * w .. j * w + w]
    decreases j
  {
    if j > 0 {
      var rest := xs[w..];
      var before := (j - 1) * w;
      MulSucc(j - 1, w);
      CompleteRowsAt(rest, w, j - 1);
      assert rest[before .. before + w] == xs[j * w .. j * w + w];
    }
  }

  /** Rows split at a row boundary: `xs` made of `k` whole rows followed by
      anything gives `xs`'s rows followed by the rest's rows. */
  lemma {:induction false} CompleteRowsAppend<T>(xs: seq<T>, ys: seq<T>, w: nat, k: nat)
    requires w >= 1 && |xs| == k * w
    ensures CompleteRows(xs + ys, w) == CompleteRows(xs, w) + CompleteRows(ys, w)
    decreases k
  {
    if k == 0 {
      assert xs + ys == ys;
    } else {
      MulSucc(k - 1, w);
      CompleteRowsAppend(xs[w..], ys, w, k - 1);
      assert (xs + ys)[..w] == xs[..w];
      assert (xs + ys)[w..] == xs[w..] + ys;
    }
  }

  /** `<div>{line}</div>`. */
  function DivMarkup(line: string): string
  {
    "<div>" + line + "</div>"
  }

  /** One finished row: its spans, back to back, inside a `<div>`. */
  function Div(row: seq<string>): string
  {
    DivMarkup(Concat(row))
  }

  function Divs(rows: seq<seq<string>>): string
  {
    if rows == [] then "" else Divs(rows[..|rows| - 1]) + Div(rows[|rows| - 1])
  }

  /** The whole document for a ramp, two endpoint colours, a background and
      a grid of the given width, or the IndexError an empty ramp raises as
      soon as there is a pixel. */
  function HtmlDocument(ramp: string, start: Rgb, end: Rgb, background: string,
                        pixels: seq<Brightness>, width: nat): (r: Result<string>)
    requires width >= 1
    ensures r.Failure? <==> ramp == "" && pixels != []
    ensures r.Failure? ==> r.error == IndexError
  {
    if ramp == "" && pixels != [] then Failure(IndexError)
    else Success(Header(background) + Divs(CompleteRows(PixelSpans(ramp, start, end, pixels), width)) + Footer)
  }
}
