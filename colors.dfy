/** The colour mapper: `#rrggbb` strings, their parser, and the linear
    interpolation from a dark to a light endpoint driven by brightness. */
module Colors {
  import opened Base
  import opened Glyphs

  type Channel = c: int | 0 <= c <= 255

  datatype Rgb = Rgb(r: Channel, g: Channel, b: Channel)

  function Min(x: int, y: int): int { if x <= y then x else y }
  function Max(x: int, y: int): int { if x <= y then y else x }

  /** One channel of the interpolation, `int(s + (e - s) * (v / 255.0))`,
      in exact arithmetic: the value is never negative, so `int()` is the
      floor of `(255 * s + (e - s) * v) / 255`. */
  function LerpChannel(v: Brightness, s: Channel, e: Channel): (c: Channel)
    ensures v == 0 ==> c == s
    ensures v == 255 ==> c == e
    ensures Min(s, e) <= c <= Max(s, e)
    ensures 255 * c <= 255 * s + (e - s) * v < 255 * c + 255
  {
    var num := 255 * s + (e - s) * v;
    LerpNumeratorBounds(v, s, e);
    assert v == 0 ==> num == 255 * s;
    assert v == 255 ==> num == 255 * e;
    num / 255
  }

  /** The channel is cut down, not rounded: a third of the way past the
      midpoint of a one-step range still gives the lower end. */
  lemma LerpTruncates()
    ensures LerpChannel(128, 0, 1) == 0
    ensures LerpChannel(254, 0, 1) == 0
    ensures LerpChannel(127, 1, 0) == 0
  {
  }

  lemma LerpNumeratorBounds(v: Brightness, s: Channel, e: Channel)
    ensures 255 * Min(s, e) <= 255 * s + (e - s) * v <= 255 * Max(s, e)
  {
    if s <= e {
      MulBounds(e - s, v);
    } else {
      MulBounds(s - e, v);
    }
  }

  lemma MulBounds(d: nat, v: Brightness)
    ensures 0 <= d * v <= d * 255
  {
  }

  /** The interpolated colour, channel by channel. */
  function Lerp(v: Brightness, start: Rgb, end: Rgb): Rgb
  {
    Rgb(LerpChannel(v, start.r, end.r), LerpChannel(v, start.g, end.g), LerpChannel(v, start.b, end.b))
  }

  /** Brightness 0 gives the dark endpoint exactly, 255 the light one, and
      every channel in between stays between the endpoints' channels. */
  lemma LerpEndpoints(v: Brightness, start: Rgb, end: Rgb)
    ensures Lerp(0, start, end) == start
    ensures Lerp(255, start, end) == end
    ensures Min(start.r, end.r) <= Lerp(v, start, end).r <= Max(start.r, end.r)
    ensures Min(start.g, end.g) <= Lerp(v, start, end).g <= Max(start.g, end.g)
    ensures Min(start.b, end.b) <= Lerp(v, start, end).b <= Max(start.b, end.b)
  {
  }

  /** A brighter pixel moves each channel further from the dark endpoint
      towards the light one. */
  lemma LerpChannelMonotone(v: Brightness, w: Brightness, s: Channel, e: Channel)
    requires v <= w
    ensures s <= e ==> LerpChannel(v, s, e) <= LerpChannel(w, s, e)
    ensures e <= s ==> LerpChannel(w, s, e) <= LerpChannel(v, s, e)
  {
    if s <= e {
      assert (e - s) * v <= (e - s) * w;
    } else {
      assert (s - e) * v <= (s - e) * w;
    }
  }

  /** A lowercase hexadecimal digit, as the `x` format writes it. */
  function HexDigit(d: int): char
    requires 0 <= d < 16
  {
    if d < 10 then (48 + d) as char else (87 + d) as char
  }

  /** The value of one digit for `int(_, 16)`, which takes either case. */
  function DigitValue(c: char): Option<int>
  {
    if '0' <= c <= '9' then Some(c as int - 48)
    else if 'a' <= c <= 'f' then Some(c as int - 87)
    else if 'A' <= c <= 'F' then Some(c as int - 55)
    else None
  }

  /** `f"{x:02x}"` for a channel: two lowercase digits. */
  function Hex2(x: Channel): (s: string)
    ensures |s| == 2 && IsLowerHexDigit(s[0]) && IsLowerHexDigit(s[1])
  {
    [HexDigit(x / 16), HexDigit(x % 16)]
  }

  /** `f"#{r:02x}{g:02x}{b:02x}"`. */
  function ToHex(c: Rgb): (s: string)
    ensures |s| == 7 && s[0] == '#'
    ensures CanonicalHex(s)
  {
    "#" + Hex2(c.r) + Hex2(c.g) + Hex2(c.b)
  }

  /** The colour string `interpolate_color` returns. */
  function InterpolateColor(v: Brightness, start: Rgb, end: Rgb): (c: string)
    ensures v == 0 ==> c == ToHex(start)
    ensures v == 255 ==> c == ToHex(end)
  {
    LerpEndpoints(v, start, end);
    ToHex(Lerp(v, start, end))
  }

  /** Python's `s[i:j]` for `0 <= i <= j`: the bounds are cut to the length. */
  function Slice(s: string, i: nat, j: nat): (t: string)
    requires i <= j
    ensures |t| <= j - i
  {
    var hi := if j <= |s| then j else |s|;
    var lo := if i <= hi then i else hi;
    s[lo..hi]
  }

  /** `int(t, 16)` for a string of at most two characters made of hex
      digits; anything else is a ValueError (None). */
  function ParseChannel(t: string): (r: Option<Channel>)
    requires |t| <= 2
    ensures r.Some? ==> 1 <= |t| && forall i :: 0 <= i < |t| ==> DigitValue(t[i]).Some?
    ensures r.Some? && |t| == 1 ==> r.value < 16
  {
    if |t| == 1 && DigitValue(t[0]).Some? then
      Some(DigitValue(t[0]).value)
    else if |t| == 2 && DigitValue(t[0]).Some? && DigitValue(t[1]).Some? then
      Some(16 * DigitValue(t[0]).value + DigitValue(t[1]).value)
    else None
  }

  /** `hex_to_rgb`: the integers written at positions 1-2, 3-4 and 5-6 of
      the string, whatever its first character and whatever follows;
      ValueError (None) when one of them is not hexadecimal or is cut off
      entirely. */
  function HexToRgb(s: string): (r: Option<Rgb>)
    ensures r.Some? ==> |s| >= 6
    ensures r.Some? ==> DigitValue(s[1]).Some? && DigitValue(s[3]).Some? && DigitValue(s[5]).Some?
  {
    var r := ParseChannel(Slice(s, 1, 3));
    var g := ParseChannel(Slice(s, 3, 5));
    var b := ParseChannel(Slice(s, 5, 7));
    if r.Some? && g.Some? && b.Some? then Some(Rgb(r.value, g.value, b.value)) else None
  }

  predicate IsLowerHexDigit(c: char)
  {
    '0' <= c <= '9' || 'a' <= c <= 'f'
  }

  /** The strings `ToHex` produces: `#` and six lowercase hex digits. */
  predicate CanonicalHex(s: string)
  {
    |s| == 7 && s[0] == '#' && forall i :: 1 <= i < 7 ==> IsLowerHexDigit(s[i])
  }

  lemma Hex2RoundTrip(x: Channel)
    ensures ParseChannel(Hex2(x)) == Some(x)
    ensures IsLowerHexDigit(Hex2(x)[0]) && IsLowerHexDigit(Hex2(x)[1])
  {
  }

  /** Parsing what `ToHex` writes gives back the colour, and what it
      writes is canonical. */
  lemma {:induction false} HexRoundTrip(c: Rgb)
    ensures HexToRgb(ToHex(c)) == Some(c)
    ensures CanonicalHex(ToHex(c))
  {
    var s := ToHex(c);
    Hex2RoundTrip(c.r);
    Hex2RoundTrip(c.g);
    Hex2RoundTrip(c.b);
    assert Slice(s, 1, 3) == Hex2(c.r);
    assert Slice(s, 3, 5) == Hex2(c.g);
    assert Slice(s, 5, 7) == Hex2(c.b);
  }

  lemma DigitRoundTrip(c: char)
    requires IsLowerHexDigit(c)
    ensures DigitValue(c).Some? && 0 <= DigitValue(c).value < 16
    ensures HexDigit(DigitValue(c).value) == c
  {
  }

  lemma {:induction false} ChannelRoundTrip(t: string)
    requires |t| == 2 && IsLowerHexDigit(t[0]) && IsLowerHexDigit(t[1])
    ensures ParseChannel(t).Some? && Hex2(ParseChannel(t).value) == t
  {
    DigitRoundTrip(t[0]);
    DigitRoundTrip(t[1]);
    var x := ParseChannel(t).value;
    assert x / 16 == DigitValue(t[0]).value && x % 16 == DigitValue(t[1]).value;
  }

  /** Conversely, a canonical string parses, and writing the colour back
      gives the same string: on canonical strings the two are inverse. */
  lemma {:induction false} CanonicalRoundTrip(s: string)
    requires CanonicalHex(s)
    ensures HexToRgb(s).Some? && ToHex(HexToRgb(s).value) == s
  {
    assert Slice(s, 1, 3) == s[1..3];
    assert Slice(s, 3, 5) == s[3..5];
    assert Slice(s, 5, 7) == s[5..7];
    ChannelRoundTrip(s[1..3]);
    ChannelRoundTrip(s[3..5]);
    ChannelRoundTrip(s[5..7]);
    assert s == "#" + s[1..3] + s[3..5] + s[5..7];
  }

  /** A hex digit in either case, as `int(_, 16)` reads it. */
  predicate IsHexDigit(c: char)
  {
    '0' <= c <= '9' || 'a' <= c <= 'f' || 'A' <= c <= 'F'
  }

  /** The lowercase form of an uppercase hex letter; every other character
      is left as it is. */
  function Lower(c: char): (l: char)
    ensures IsHexDigit(c) ==> IsLowerHexDigit(l)
    ensures DigitValue(l) == DigitValue(c)
  {
    if 'A' <= c <= 'F' then (c as int + 32) as char else c
  }

  /** A colour string with every hex letter after the `#` in lowercase. */
  function LowerHex(s: string): (t: string)
    requires |s| == 7
    ensures |t| == 7 && t[0] == s[0]
    ensures forall i :: 1 <= i < 7 ==> t[i] == Lower(s[i])
  {
    [s[0], Lower(s[1]), Lower(s[2]), Lower(s[3]), Lower(s[4]), Lower(s[5]), Lower(s[6])]
  }

  /** `int(t, 16)` reads either case: a two-character slice parses as its
      lowercase form does. */
  lemma ChannelAnyCase(t: string)
    requires |t| == 2
    ensures ParseChannel(t) == ParseChannel([Lower(t[0]), Lower(t[1])])
  {
  }

  /** So does `hex_to_rgb`: a seven-character colour string gives the same
      colour, or the same ValueError, as its lowercase form. */
  lemma {:induction false} HexAnyCase(s: string)
    requires |s| == 7
    ensures HexToRgb(s) == HexToRgb(LowerHex(s))
  {
    var t := LowerHex(s);
    assert Slice(s, 1, 3) == s[1..3] && Slice(t, 1, 3) == [Lower(s[1]), Lower(s[2])];
    assert Slice(s, 3, 5) == s[3..5] && Slice(t, 3, 5) == [Lower(s[3]), Lower(s[4])];
    assert Slice(s, 5, 7) == s[5..7] && Slice(t, 5, 7) == [Lower(s[5]), Lower(s[6])];
    ChannelAnyCase(s[1..3]);
    ChannelAnyCase(s[3..5]);
    ChannelAnyCase(s[5..7]);
  }

  /** Every `#rrggbb` string, in either case, parses, and its colour is
      written back as the lowercase form of the string. */
  lemma {:induction false} AnyCaseRoundTrip(s: string)
    requires |s| == 7 && s[0] == '#' && forall i :: 1 <= i < 7 ==> IsHexDigit(s[i])
    ensures HexToRgb(s).Some? && ToHex(HexToRgb(s).value) == LowerHex(s)
  {
    HexAnyCase(s);
    CanonicalRoundTrip(LowerHex(s));
  }

  /** The application's default colours, written in upper case, parse to
      the intended channels. */
  lemma DefaultColors()
    ensures HexToRgb("#38005E") == Some(Rgb(0x38, 0x00, 0x5E))
    ensures HexToRgb("#CFB7FF") == Some(Rgb(0xCF, 0xB7, 0xFF))
    ensures HexToRgb("#000000") == Some(Rgb(0, 0, 0))
  {
  }

  /** The colour of a pixel, read back from the string, is the
      interpolated colour. */
  lemma InterpolateColorParses(v: Brightness, start: Rgb, end: Rgb)
    ensures HexToRgb(InterpolateColor(v, start, end)) == Some(Lerp(v, start, end))
    ensures CanonicalHex(InterpolateColor(v, start, end))
  {
    HexRoundTrip(Lerp(v, start, end));
  }
}
