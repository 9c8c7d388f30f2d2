/** The conversion engine: it holds the ramp table and turns a brightness
    grid (row-major samples plus the row width) into the glyph string or
    the coloured HTML document. */
module Engine {
  import opened Base
  import opened Ramps
  import opened Glyphs
  import opened Colors
  import opened Html
  import opened Rows
  import opened Lines

  class AsciiEngine {
    /** The named ramps, filled in once by the constructor. */
    const ramps: map<string, string>

    /** The Standard entry is the fallback of every lookup. */
    ghost predicate Valid()
    {
      StandardName in ramps
    }

    constructor ()
      ensures ramps == Table && Valid()
    {
      ramps := Table;
    }

    /** The glyph string for the pixels, one glyph per pixel in pixel order,
        built by appending glyph after glyph; IndexError when the selected
        ramp is empty and there is a pixel. */
    method GenerateText(pixels: seq<Brightness>, rampKey: string, customRamp: string)
      returns (r: Result<string>)
      requires Valid()
      ensures r == MapGlyphs(SelectTextRamp(ramps, rampKey, customRamp), pixels)
    {
      var ramp := SelectTextRamp(ramps, rampKey, customRamp);
      var text := "";
      for i := 0 to |pixels|
        invariant i > 0 ==> ramp != ""
        invariant |text| == i
        invariant forall k :: 0 <= k < i ==> text[k] == ramp[RampIndex(pixels[k], |ramp|)]
      {
        var glyph := CharAt(ramp, RampIndex(pixels[i], |ramp|));
        if glyph.None? {
          return Failure(IndexError);
        }
        text := text + [glyph.value];
      }
      assert pixels != [] ==> ramp != "";
      assert text == MapGlyphs(ramp, pixels).value;
      r := Success(text);
    }

    /** The HTML document for a grid `width` pixels wide: the colour strings
        are parsed first (ValueError), then the rows are appended to the
        document opening, then the closing tags. The custom ramp text plays
        no part. */
    method GenerateHtml(pixels: seq<Brightness>, width: nat, rampKey: string,
                        colorDark: string, colorLight: string, background: string)
      returns (r: Result<string>)
      requires Valid()
      requires width >= 1
      ensures HexToRgb(colorDark).None? || HexToRgb(colorLight).None? ==> r == Failure(ValueError)
      ensures HexToRgb(colorDark).Some? && HexToRgb(colorLight).Some? ==>
        r == HtmlDocument(SelectHtmlRamp(ramps, rampKey), HexToRgb(colorDark).value,
                          HexToRgb(colorLight).value, background, pixels, width)
    {
      var ramp := SelectHtmlRamp(ramps, rampKey);
      var start := HexToRgb(colorDark);
      if start.None? {
        return Failure(ValueError);
      }
      var end := HexToRgb(colorLight);
      if end.None? {
        return Failure(ValueError);
      }
      var html := Header(background);
      var rows := AppendRows(html, pixels, width, ramp, start.value, end.value);
      if rows.Failure? {
        return Failure(rows.error);
      }
      html := rows.value;
      html := html + Footer;
      r := Success(html);
    }
  }

  /** The pixel loop of the HTML conversion: one span per pixel is appended
      to the current line, and the line is appended to the document as a
      `<div>` whenever `(i + 1) % width == 0`, so a trailing partial row
      never reaches the document. IndexError on the first pixel when the
      ramp is empty. */
  method AppendRows(html0: string, pixels: seq<Brightness>, width: nat, ramp: string, start: Rgb, end: Rgb)
    returns (r: Result<string>)
    requires width >= 1
    ensures r.Failure? <==> ramp == "" && pixels != []
    ensures r.Failure? ==> r.error == IndexError
    ensures r.Success? ==> r.value == html0 + Divs(CompleteRows(PixelSpans(ramp, start, end, pixels), width))
  {
    var html := html0;
    var currentLine := "";
    for i := 0 to |pixels|
      invariant i > 0 ==> ramp != ""
      invariant Draft(html, currentLine) == Layout(html0, width, SpansUpTo(ramp, start, end, pixels, i))
    {
      var span := RenderPixel(ramp, start, end, pixels[i]);
      if span.None? {
        return Failure(IndexError);
      }
      LayoutSnoc(html0, width, SpansUpTo(ramp, start, end, pixels, i), span.value);
      currentLine := currentLine + span.value;
      if RowEnds(i + 1, width) {
        html := html + DivMarkup(currentLine);
        currentLine := "";
      }
    }
    LayoutDocument(html0, width, SpansUpTo(ramp, start, end, pixels, |pixels|));
    SpansUpToPrefix(ramp, start, end, pixels, |pixels|);
    assert pixels[..|pixels|] == pixels;
    r := Success(html);
  }

  /** One pixel's span, computed step by step as the loop body does: its
      glyph looked up in the ramp (None, for IndexError, when the ramp is
      empty), its colour interpolated from the brightness, `<` and `>`
      escaped. It is the executable twin of `Html.PixelSpan`, which the
      proofs reason about; what it adds is the failure on an empty ramp. */
  method RenderPixel(ramp: string, start: Rgb, end: Rgb, p: Brightness) returns (r: Option<string>)
    ensures r.None? <==> ramp == ""
    ensures r.Some? ==> ramp != "" && r.value == PixelSpan(ramp, start, end, p)
  {
    var glyph := CharAt(ramp, RampIndex(p, |ramp|));
    if glyph.None? {
      return None;
    }
    var color := InterpolateColor(p, start, end);
    var text := Escape(glyph.value);
    r := Some(SpanMarkup(color, text));
  }

  /** A grid of mid-grey (128) with the Minimalist ramp: every pixel takes
      glyph `floor(128 * 10 / 256) = 5`, which is `=`. */
  lemma MidGreyMinimalist(pixels: seq<Brightness>)
    requires forall i :: 0 <= i < |pixels| ==> pixels[i] == 128
    ensures MapGlyphs(Minimalist, pixels) == Success(seq(|pixels|, _ => '='))
  {
    assert Minimalist[5] == '=';
    assert RampIndex(128, |Minimalist|) == 5;
    var text := MapGlyphs(Minimalist, pixels).value;
    assert text == seq(|pixels|, _ => '=');
  }

  /** A 4x4 grid of 128 with the Minimalist ramp chosen (whatever the
      custom text) previews as four lines of `====`. */
  lemma MidGreyGrid(pixels: seq<Brightness>, custom: string)
    requires |pixels| == 16
    requires forall i :: 0 <= i < |pixels| ==> pixels[i] == 128
    ensures SelectTextRamp(Table, MinimalistName, custom) == Minimalist
    ensures FormatText(MapGlyphs(SelectTextRamp(Table, MinimalistName, custom), pixels).value, 4)
         == "====\n====\n====\n===="
  {
    MidGreyMinimalist(pixels);
    assert seq(16, _ => '=') == "================";
    MidGreyPreview();
  }

  /** The preview of those sixteen glyphs at width 4: four lines of four. */
  lemma MidGreyPreview()
    ensures FormatText("================", 4) == "====\n====\n====\n===="
  {
    var row := "====";
    MidGreyChunks();
    FourLines(row);
  }

  lemma MidGreyChunks()
    ensures Chunks("================", 4) == ["====", "====", "====", "===="]
  {
    var s := "================";
    var row := "====";
    assert s[..4] == row && s[4..] == row + row + row;
    assert (row + row + row)[..4] == row && (row + row + row)[4..] == row + row;
    assert (row + row)[..4] == row && (row + row)[4..] == row;
    assert Chunks(row, 4) == [row];
    assert Chunks(row + row, 4) == [row, row];
    assert Chunks(row + row + row, 4) == [row, row, row];
  }

  lemma FourLines(row: string)
    ensures JoinLines([row, row, row, row]) == row + "\n" + row + "\n" + row + "\n" + row
  {
    assert [row, row, row, row][..3] == [row, row, row];
    assert [row, row, row][..2] == [row, row];
    assert [row, row][..1] == [row];
    assert JoinLines([row, row]) == row + "\n" + row;
    assert JoinLines([row, row, row]) == row + "\n" + row + "\n" + row;
  }
}
