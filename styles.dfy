/** The colour presets of app.js:7-36 and the per-row style rule of `applyExcelStyle`
    (app.js:340-365). */
module Styles {
  import opened Util

  /** One entry of `tableStyles`: colours as hexadecimal strings. */
  datatype Preset = Preset(headerBg: string, headerFont: string, rowBg1: string, rowBg2: string,
                           borderColor: string)

  /** `tableStyles[styleName]`; a name outside the registry gives `undefined`. */
  function PresetNamed(name: string): Option<Preset>
  {
    if name == "modern" then
      Some(Preset("FF667EEA", "FFFFFF", "FFF8F9FF", "FFFFFFFF", "FFE2E8F0"))
    else if name == "classic" then
      Some(Preset("FF2C3E50", "FFFFFF", "FFECF0F1", "FFFFFFFF", "FFBDC3C7"))
    else if name == "minimal" then
      Some(Preset("FF000000", "FFFFFF", "FFFFFFFF", "FFFFFFFF", "FFE0E0E0"))
    else if name == "colorful" then
      Some(Preset("FFFF6B6B", "FFFFFF", "FFFFE66D", "FF4ECDC4", "FF95E1D3"))
    else
      None
  }

  predicate IsHexDigit(ch: char)
  {
    '0' <= ch <= '9' || 'A' <= ch <= 'F'
  }

  /** An opaque ARGB colour: eight hexadecimal digits, alpha first and fixed to FF. */
  predicate IsOpaqueArgb(s: string)
  {
    |s| == 8 && s[0] == 'F' && s[1] == 'F' && forall i :: 0 <= i < |s| ==> IsHexDigit(s[i])
  }

  /** A colour as the styling code reads it off the looked-up entry: a hexadecimal string,
      or `undefined` when the entry has no such property. */
  datatype Colour = Rgb(hex: string) | Undefined

  /** The five colours `applyExcelStyle` reads from `tableStyles[styleName]`. */
  datatype Palette = Palette(headerBg: Colour, headerFont: Colour, rowBg1: Colour, rowBg2: Colour,
                             borderColor: Colour)

  /** The colours of a registry entry. */
  function PaletteOf(p: Preset): Palette
  {
    Palette(Rgb(p.headerBg), Rgb(p.headerFont), Rgb(p.rowBg1), Rgb(p.rowBg2), Rgb(p.borderColor))
  }

  /** The palette with every colour `undefined`. */
  const NoColours := Palette(Undefined, Undefined, Undefined, Undefined, Undefined)

  /** The properties every plain object inherits from `Object.prototype`. */
  const InheritedNames: set<string> := {
    "constructor", "hasOwnProperty", "isPrototypeOf", "propertyIsEnumerable",
    "toLocaleString", "toString", "valueOf", "__proto__",
    "__defineGetter__", "__defineSetter__", "__lookupGetter__", "__lookupSetter__"
  }

  /** `tableStyles[styleName]` as `applyExcelStyle` (app.js:329, 342-363) reads it. A name
      of the registry gives the preset's colours. An inherited property name (`toString`,
      `__proto__`, ...) gives a function or an object without colour properties, so every
      colour read from it is `undefined` and nothing fails. Any other name gives
      `undefined` itself, and reading a colour of it throws: `None`. */
  function StyleNamed(name: string): (r: Option<Palette>)
    ensures r.None? <==> PresetNamed(name).None? && name !in InheritedNames
    ensures PresetNamed(name).Some? ==> r == Some(PaletteOf(PresetNamed(name).value))
    ensures PresetNamed(name).None? && name in InheritedNames ==> r == Some(NoColours)
  {
    match PresetNamed(name)
    case Some(p) => Some(PaletteOf(p))
    case None => if name in InheritedNames then Some(NoColours) else None
  }

  /** No preset name is shadowed by an inherited one, and every inherited name resolves. */
  lemma StyleNamedCases(name: string)
    ensures name in ["modern", "classic", "minimal", "colorful"] ==> name !in InheritedNames
    ensures StyleNamed(name) == Some(NoColours) <==> name in InheritedNames
    ensures StyleNamed(name).None? <==>
      name !in ["modern", "classic", "minimal", "colorful"] && name !in InheritedNames
  {
    RegistryNames(name);
  }

  /** The registry holds exactly the four presets of app.js:7-36. */
  lemma RegistryNames(name: string)
    ensures PresetNamed(name).Some? <==> name in ["modern", "classic", "minimal", "colorful"]
  {
  }

  /** Fills and borders of every preset are opaque ARGB colours; every header font is the
      six-digit white `FFFFFF`. */
  lemma RegistryColours(name: string)
    requires PresetNamed(name).Some?
    ensures IsOpaqueArgb(PresetNamed(name).value.headerBg)
    ensures IsOpaqueArgb(PresetNamed(name).value.rowBg1)
    ensures IsOpaqueArgb(PresetNamed(name).value.rowBg2)
    ensures IsOpaqueArgb(PresetNamed(name).value.borderColor)
    ensures PresetNamed(name).value.headerFont == "FFFFFF"
  {
    var p := PresetNamed(name).value;
    OpaqueArgbChars(p.headerBg);
    OpaqueArgbChars(p.rowBg1);
    OpaqueArgbChars(p.rowBg2);
    OpaqueArgbChars(p.borderColor);
  }

  lemma OpaqueArgbChars(s: string)
    requires |s| == 8 && s[0] == 'F' && s[1] == 'F'
    requires IsHexDigit(s[2]) && IsHexDigit(s[3]) && IsHexDigit(s[4]) && IsHexDigit(s[5])
    requires IsHexDigit(s[6]) && IsHexDigit(s[7])
    ensures IsOpaqueArgb(s)
  {
  }

  datatype BorderSide = BorderSide(style: string, color: Colour)

  datatype Border = Border(top: BorderSide, bottom: BorderSide, left: BorderSide, right: BorderSide)

  datatype Font = Font(color: Colour, bold: bool)

  datatype Alignment = Alignment(horizontal: string, vertical: string)

  /** A cell's `s` record: the fill colour (`fill.fgColor.rgb`), an optional font and
      alignment, and the four borders. */
  datatype CellStyle = CellStyle(fill: Colour, font: Option<Font>, alignment: Option<Alignment>,
                                 border: Border)

  /** Thin borders on all four sides in one colour (app.js:346-351, 358-363). */
  function ThinBorder(color: Colour): Border
  {
    var side := BorderSide("thin", color);
    Border(side, side, side, side)
  }

  /** The header style of app.js:342-352. */
  function HeaderStyle(p: Palette): CellStyle
  {
    CellStyle(p.headerBg, Some(Font(p.headerFont, true)), Some(Alignment("center", "center")),
              ThinBorder(p.borderColor))
  }

  /** The alternating body colour of app.js:355. */
  function RowFill(p: Palette, r: nat): Colour
  {
    if r % 2 == 0 then p.rowBg1 else p.rowBg2
  }

  /** The body style of app.js:356-364. */
  function BodyStyle(p: Palette, r: nat): CellStyle
  {
    CellStyle(RowFill(p, r), None, None, ThinBorder(p.borderColor))
  }

  /** The style a present cell of row `r` receives: row 0 is the header, the others
      alternate. It depends on the row index only, never on the column or the content. */
  function StyleFor(p: Palette, r: nat): CellStyle
  {
    if r == 0 then HeaderStyle(p) else BodyStyle(p, r)
  }

  /** The style rule in full: header row 0 in the header colours, bold and centred; even
      body rows in `rowBg1`, odd rows in `rowBg2`, with neither font nor alignment; thin
      borders in the border colour on every side of every row. */
  lemma StyleForRules(p: Palette, r: nat)
    ensures r == 0 ==>
      && StyleFor(p, r).fill == p.headerBg
      && StyleFor(p, r).font == Some(Font(p.headerFont, true))
      && StyleFor(p, r).alignment == Some(Alignment("center", "center"))
    ensures r > 0 && r % 2 == 0 ==> StyleFor(p, r).fill == p.rowBg1
    ensures r % 2 == 1 ==> StyleFor(p, r).fill == p.rowBg2
    ensures r > 0 ==> StyleFor(p, r).font.None? && StyleFor(p, r).alignment.None?
    ensures var b := StyleFor(p, r).border;
      forall side :: side in [b.top, b.bottom, b.left, b.right] ==>
        side == BorderSide("thin", p.borderColor)
  {
  }

  /** Rows of the same parity below the header look alike. */
  lemma StyleForPeriodic(p: Palette, r: nat)
    requires r > 0
    ensures StyleFor(p, r + 2) == StyleFor(p, r)
  {
  }
}
