/** The ramp registry: the engine's `RAMPS` table of named glyph gradients
    (darkest glyph first) and the two rules that pick the ramp a
    conversion uses. */
module Ramps {

  const StandardName: string := "Standard (Detailed)"
  const BlocksName: string := "Blocks (Solid)"
  const BinaryName: string := "Binary (Matrix)"
  const MinimalistName: string := "Minimalist"
  const CustomName: string := "Custom"

  /** The detailed ramp; the Python literal's `\|` keeps its backslash
      and its `\"` stands for a double quote. */
  const Standard: string :=
    "$@B%8&WM#*oahkbdpqwmZO0QLCJUYXzcvunxrjft/\\|()1{}[]?-_+~<>i!lI;:,\"^`'. "
  /** Full block, dark, medium and light shade, space. */
  const Blocks: string := "\U{2588}\U{2593}\U{2592}\U{2591} "
  const Binary: string := "10 "
  const Minimalist: string := "@%#*+=-:. "

  /** The table as the engine's constructor fills it in; "Custom" is a
      placeholder holding the empty string. */
  const Table: map<string, string> :=
    map[StandardName := Standard, BlocksName := Blocks, BinaryName := Binary,
        MinimalistName := Minimalist, CustomName := ""]

  /** `table.get(key, table["Standard (Detailed)"])`: the default is looked up
      eagerly, so the Standard entry has to be there. */
  function Lookup(table: map<string, string>, key: string): (r: string)
    requires StandardName in table
    ensures r in table.Values
    ensures key in table ==> r == table[key]
    ensures key !in table ==> r == table[StandardName]
  {
    if key in table then table[key] else table[StandardName]
  }

  /** The ramp the text conversion uses: the custom text when "Custom" is
      chosen and the text is non-empty, otherwise a table lookup. */
  function SelectTextRamp(table: map<string, string>, key: string, custom: string): (r: string)
    requires StandardName in table
    ensures r == custom || r in table.Values
    ensures key == CustomName && custom != "" ==> r == custom
    ensures key != CustomName ==> r == Lookup(table, key)
  {
    if key == CustomName && custom != "" then custom else Lookup(table, key)
  }

  /** The ramp the HTML conversion uses: a table lookup, the custom text
      plays no part. */
  function SelectHtmlRamp(table: map<string, string>, key: string): (r: string)
    requires StandardName in table
    ensures r in table.Values
  {
    Lookup(table, key)
  }

  lemma RampSizes()
    ensures |Standard| == 70 && |Blocks| == 5 && |Binary| == 3 && |Minimalist| == 10
    ensures Standard[41] == '\\' && Standard[42] == '|' && Standard[64] == '"'
    ensures Standard[55] == '<' && Standard[56] == '>'
    ensures Table[CustomName] == ""
  {
  }

  /** The custom text is the ramp exactly when "Custom" is chosen and the
      text is non-empty (for a text that is not itself one of the table's
      ramps, so that the two cannot be confused). Since the table holds ""
      for "Custom", such a text is never empty; the empty text is the case
      of `TextRampEmptyIff`. */
  lemma CustomTextUsedIff(key: string, custom: string)
    requires forall k :: k in Table ==> Table[k] != custom
    ensures SelectTextRamp(Table, key, custom) == custom <==> key == CustomName && custom != ""
  {
    if key in Table {
      assert Table[key] != custom;
    } else {
      assert Table[StandardName] != custom;
    }
  }

  /** Any name outside the table selects the Standard ramp, in both conversions. */
  lemma UnknownKeyIsStandard(key: string, custom: string)
    requires key !in Table
    ensures SelectTextRamp(Table, key, custom) == Standard
    ensures SelectHtmlRamp(Table, key) == Standard
  {
  }

  /** The text conversion ends up with an empty ramp exactly when "Custom"
      is chosen with an empty text: there is no fallback to Standard. */
  lemma TextRampEmptyIff(key: string, custom: string)
    ensures SelectTextRamp(Table, key, custom) == "" <==> key == CustomName && custom == ""
  {
    if key != CustomName && key in Table {
      assert key == StandardName || key == BlocksName || key == BinaryName || key == MinimalistName;
    }
  }

  /** The HTML conversion ignores the custom text: it picks the ramp the text
      conversion would pick with no custom text, and so is empty exactly
      when "Custom" is chosen. */
  lemma HtmlRampIgnoresCustom(key: string, custom: string)
    ensures SelectHtmlRamp(Table, key) == SelectTextRamp(Table, key, "")
    ensures SelectHtmlRamp(Table, key) == "" <==> key == CustomName
  {
    TextRampEmptyIff(key, "");
  }
}
