/** The glyph mapper: each brightness sample of the grid becomes one glyph
    of the selected ramp. */
module Glyphs {
  import opened Base

  /** One sample of a single-channel ("L" mode) image. */
  type Brightness = p: int | 0 <= p <= 255

  /** The ramp index of a pixel, `min(int(p / 256 * n), n - 1)`.
      `p / 256` is exact in binary floating point and `p * n` is far below
      2^53, so `int()` of the product is `floor(p * n / 256)`; for a
      non-empty ramp the clamp never changes it, and for the empty ramp it
      yields -1. */
  function RampIndex(p: Brightness, n: nat): (k: int)
    ensures n == 0 ==> k == -1
    ensures n > 0 ==> 0 <= k < n && k == p * n / 256
  {
    var raw := p * n / 256;
    assert n > 0 ==> raw < n by {
      if n > 0 {
        assert p * n <= 255 * n;
      }
    }
    if raw < n - 1 then raw else n - 1
  }

  /** `ramp[RampIndex(p, len(ramp))]`: a glyph, or IndexError (None) when
      the ramp is empty. */
  function Glyph(ramp: string, p: Brightness): (r: Option<char>)
    ensures r.Some? <==> ramp != ""
    ensures ramp != "" ==> r.value == ramp[RampIndex(p, |ramp|)]
  {
    CharAt(ramp, RampIndex(p, |ramp|))
  }

  /** The string the text conversion builds, one glyph per pixel in pixel
      order, or the IndexError it raises on the first pixel when the ramp
      is empty. */
  function MapGlyphs(ramp: string, pixels: seq<Brightness>): (r: Result<string>)
    ensures r.Success? <==> ramp != "" || pixels == []
    ensures r.Failure? ==> r.error == IndexError
    ensures r.Success? ==> |r.value| == |pixels|
    ensures r.Success? ==>
      forall i :: 0 <= i < |pixels| ==> r.value[i] == ramp[RampIndex(pixels[i], |ramp|)]
    decreases |pixels|
  {
    if pixels == [] then Success("")
    else
      match Glyph(ramp, pixels[0])
      case None => Failure(IndexError)
      case Some(c) =>
        match MapGlyphs(ramp, pixels[1..])
        case Success(rest) => Success([c] + rest)
        case Failure(e) => Failure(e)
  }

  /** Brighter pixels never select an earlier (darker) glyph. */
  lemma RampIndexMonotone(p: Brightness, q: Brightness, n: nat)
    requires p <= q
    ensures RampIndex(p, n) <= RampIndex(q, n)
  {
    if n > 0 {
      assert p * n <= q * n;
    }
  }

  /** The darkest pixel takes the first glyph; the brightest takes the last
      glyph whenever the ramp has at most 256 glyphs, despite the 256
      divisor. */
  lemma RampIndexEnds(n: nat)
    requires n > 0
    ensures RampIndex(0, n) == 0
    ensures n <= 256 ==> RampIndex(255, n) == n - 1
  {
    if n <= 256 {
      assert 255 * n == 256 * (n - 1) + (256 - n);
    }
  }
}
