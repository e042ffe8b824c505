/** The palettes and layout identifiers the pages share. */
module Themes {
  import Hex
  import Color

  datatype ThemeType = Dark | Light

  /** The string stored in a theme's `type` field. */
  function TypeName(t: ThemeType): string {
    match t
    case Dark => "dark"
    case Light => "light"
  }

  /** A light or dark palette without an accent. */
  datatype Palette = Palette(kind: ThemeType, background: string, text: string)

  /** A full theme: a palette plus an accent colour. */
  datatype Theme = Theme(kind: ThemeType, background: string, text: string, accent: string)

  const DarkTheme: Palette := Palette(Dark, "#000000", "#fbfbfb")
  const LightTheme: Palette := Palette(Light, "#fbfbfb", "#121212")
  const DefaultAccent: string := "#6b86f9"

  /** `{ ...palette, accent }`. */
  function WithAccent(p: Palette, accent: string): (t: Theme)
    ensures t.kind == p.kind && t.background == p.background && t.text == p.text
    ensures t.accent == accent
  {
    Theme(p.kind, p.background, p.text, accent)
  }

  const DefaultTheme: Theme := WithAccent(DarkTheme, DefaultAccent)

  /** The shared-element identifiers of the animation library. */
  datatype LayoutId = Title1 | Title2 | Shapes | Line | Button

  function LayoutIdValue(id: LayoutId): string {
    match id
    case Title1 => "title1"
    case Title2 => "title2"
    case Shapes => "shapes"
    case Line => "line"
    case Button => "button"
  }

  /** '#' followed by exactly six hex digits. */
  predicate IsHexColor(s: string) {
    |s| == 7 && s[0] == '#' && Hex.AllHex(s[1..])
  }

  /** The two palettes carry their own type names and differ in both
      background and text. */
  lemma PalettesDiffer()
    ensures TypeName(DarkTheme.kind) == "dark" && TypeName(LightTheme.kind) == "light"
    ensures DarkTheme.background != LightTheme.background
    ensures DarkTheme.text != LightTheme.text
  {
  }

  /** The default theme is the dark palette with the default accent. */
  lemma DefaultIsDark()
    ensures DefaultTheme == Theme(Dark, "#000000", "#fbfbfb", "#6b86f9")
  {
  }

  /** Every palette colour and the default accent is a `#rrggbb` colour,
      so a well-formed input to `lumenColor`, whose value fits in 24 bits. */
  lemma ColorsWellFormed()
    ensures IsHexColor(DarkTheme.background) && IsHexColor(DarkTheme.text)
    ensures IsHexColor(LightTheme.background) && IsHexColor(LightTheme.text)
    ensures IsHexColor(DefaultAccent)
  {
  }

  /** A `#rrggbb` colour has a 24-bit value, so `lumenColor` adjusts its
      three bytes as they are. */
  lemma HexColorFits(s: string)
    requires IsHexColor(s)
    ensures 0 <= Color.NumericValue(s) <= Color.MaxColor
  {
    assert s == "#" + s[1..];
    Color.NumericValueOfDigits(s[1..]);
  }

  /** No two layout identifiers share a value. */
  lemma LayoutIdsDistinct(a: LayoutId, b: LayoutId)
    ensures LayoutIdValue(a) == LayoutIdValue(b) <==> a == b
  {
  }
}
