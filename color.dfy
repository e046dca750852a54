/** The terminal colour value type and its codecs: the ANSI SGR (Select
    Graphic Rendition, section 8.3.117 of ECMA-48) foreground and background
    encoders, the text parser and the text formatter. */
module Colors {
  import opened Primitives
  import opened Fmt

  /** A terminal colour: sixteen named colours, the terminal default, an
      index into the 256-colour palette, or a 24-bit colour. */
  datatype Color =
    | Black | Red | Green | Yellow | Blue | Magenta | Cyan | White
    | BrightBlack | BrightRed | BrightGreen | BrightYellow
    | BrightBlue | BrightMagenta | BrightCyan | BrightWhite
    | Reset
    | Color256(n: Byte)
    | TrueColor(r: Byte, g: Byte, b: Byte)

  predicate IsNamed(c: Color) {
    !c.Reset? && !c.Color256? && !c.TrueColor?
  }

  /** The palette number of a named colour: the eight standard colours are
      0 to 7, their bright counterparts 8 to 15, in the same order. */
  function PaletteIndex(c: Color): (i: nat)
    requires IsNamed(c)
    ensures i < 16
  {
    match c
    case Black => 0
    case Red => 1
    case Green => 2
    case Yellow => 3
    case Blue => 4
    case Magenta => 5
    case Cyan => 6
    case White => 7
    case BrightBlack => 8
    case BrightRed => 9
    case BrightGreen => 10
    case BrightYellow => 11
    case BrightBlue => 12
    case BrightMagenta => 13
    case BrightCyan => 14
    case BrightWhite => 15
  }

  /** The sixteen-entry table of the 16-colour quantiser: palette number
      to named colour, with no colour for a number above 15. */
  function FromPaletteIndex(i: nat): (r: Option<Color>)
    ensures r.Some? <==> i < 16
    ensures r.Some? ==> IsNamed(r.value) && PaletteIndex(r.value) == i
  {
    match i
    case 0 => Some(Black)
    case 1 => Some(Red)
    case 2 => Some(Green)
    case 3 => Some(Yellow)
    case 4 => Some(Blue)
    case 5 => Some(Magenta)
    case 6 => Some(Cyan)
    case 7 => Some(White)
    case 8 => Some(BrightBlack)
    case 9 => Some(BrightRed)
    case 10 => Some(BrightGreen)
    case 11 => Some(BrightYellow)
    case 12 => Some(BrightBlue)
    case 13 => Some(BrightMagenta)
    case 14 => Some(BrightCyan)
    case 15 => Some(BrightWhite)
    case _ => None
  }

  /** Every named colour is found again from its palette number, so the
      numbering is one-to-one. */
  lemma PaletteRoundTrip(c: Color)
    requires IsNamed(c)
    ensures FromPaletteIndex(PaletteIndex(c)) == Some(c)
  {
    match c
    case Black => case Red => case Green => case Yellow =>
    case Blue => case Magenta => case Cyan => case White =>
    case BrightBlack => case BrightRed => case BrightGreen => case BrightYellow =>
    case BrightBlue => case BrightMagenta => case BrightCyan => case BrightWhite =>
  }

  // ---------------------------------------------------------------------
  // SGR encoding
  // ---------------------------------------------------------------------

  const ESC: char := 27 as char

  /** Control Sequence Introducer: ESC followed by `[`. */
  const CSI: string := [ESC, '[']

  /** SGR parameter strings are made of decimal digits and `;` separators. */
  predicate IsParamChar(ch: char) { '0' <= ch <= '9' || ch == ';' }

  predicate IsParamString(p: string) {
    p != [] && forall i :: 0 <= i < |p| ==> IsParamChar(p[i])
  }

  /** The parameters `fg_fmt` writes between CSI and `m`. */
  function FgParams(c: Color): (p: string)
    ensures 2 <= |p| && (p[0] == '3' || p[0] == '9')
    ensures |p| == 2 <==> IsNamed(c)
  {
    match c
    case Black => "30"
    case Red => "31"
    case Green => "32"
    case Yellow => "33"
    case Blue => "34"
    case Magenta => "35"
    case Cyan => "36"
    case White => "37"
    case BrightBlack => "90"
    case BrightRed => "91"
    case BrightGreen => "92"
    case BrightYellow => "93"
    case BrightBlue => "94"
    case BrightMagenta => "95"
    case BrightCyan => "96"
    case BrightWhite => "97"
    case Reset => "39;49"
    case Color256(n) => "38;5;" + Decimal(n)
    case TrueColor(r, g, b) => "38;2;" + Decimal(r) + ";" + Decimal(g) + ";" + Decimal(b)
  }

  /** The parameters `bg_fmt` writes between CSI and `m`. */
  function BgParams(c: Color): (p: string)
    ensures 2 <= |p| && (p[0] == '4' || p[0] == '1' || c.Reset?)
    ensures |p| <= 3 <==> IsNamed(c)
  {
    match c
    case Black => "40"
    case Red => "41"
    case Green => "42"
    case Yellow => "43"
    case Blue => "44"
    case Magenta => "45"
    case Cyan => "46"
    case White => "47"
    case BrightBlack => "100"
    case BrightRed => "101"
    case BrightGreen => "102"
    case BrightYellow => "103"
    case BrightBlue => "104"
    case BrightMagenta => "105"
    case BrightCyan => "106"
    case BrightWhite => "107"
    case Reset => "39;49"
    case Color256(n) => "48;5;" + Decimal(n)
    case TrueColor(r, g, b) => "48;2;" + Decimal(r) + ";" + Decimal(g) + ";" + Decimal(b)
  }

  /** The complete control sequence `fg_fmt` writes. */
  function FgEncoding(c: Color): (s: string)
    ensures |s| >= 3 && s[..2] == CSI && s[|s| - 1] == 'm'
  {
    CSI + FgParams(c) + "m"
  }

  /** The complete control sequence `bg_fmt` writes. */
  function BgEncoding(c: Color): (s: string)
    ensures |s| >= 3 && s[..2] == CSI && s[|s| - 1] == 'm'
  {
    CSI + BgParams(c) + "m"
  }

  /** `Color::fg_fmt`: writes CSI, the foreground parameters, then `m`. */
  method FgFmt(c: Color, f: Sink)
    modifies f
    ensures f.text == old(f.text) + FgEncoding(c)
  {
    var params := FgParams(c);
    f.WriteStr(CSI);
    f.WriteStr(params);
    f.WriteStr("m");
    assert f.text == old(f.text) + (CSI + params + "m");
  }

  /** `Color::bg_fmt`: writes CSI, the background parameters, then `m`. */
  method BgFmt(c: Color, f: Sink)
    modifies f
    ensures f.text == old(f.text) + BgEncoding(c)
  {
    var params := BgParams(c);
    f.WriteStr(CSI);
    f.WriteStr(params);
    f.WriteStr("m");
    assert f.text == old(f.text) + (CSI + params + "m");
  }

  lemma DecimalTwoDigits(n: nat)
    requires 10 <= n < 100
    ensures Decimal(n) == [DigitChar(n / 10), DigitChar(n % 10)]
  {
    assert ToBase(n / 10, 10) == [DigitChar(n / 10)];
  }

  lemma DecimalThreeDigits(n: nat)
    requires 100 <= n < 1000
    ensures Decimal(n) == [DigitChar(n / 100), DigitChar(n / 10 % 10), DigitChar(n % 10)]
  {
    DecimalTwoDigits(n / 10);
  }

  /** Named colour number `i` is foreground 30+i and background 40+i when
      standard, and foreground 90+(i-8) and background 100+(i-8) when bright. */
  lemma NamedCodes(c: Color)
    requires IsNamed(c)
    ensures var i := PaletteIndex(c);
      FgParams(c) == Decimal(if i < 8 then 30 + i else 90 + (i - 8)) &&
      BgParams(c) == Decimal(if i < 8 then 40 + i else 100 + (i - 8))
  {
    match c
    case Black => DecimalTwoDigits(30); DecimalTwoDigits(40);
    case Red => DecimalTwoDigits(31); DecimalTwoDigits(41);
    case Green => DecimalTwoDigits(32); DecimalTwoDigits(42);
    case Yellow => DecimalTwoDigits(33); DecimalTwoDigits(43);
    case Blue => DecimalTwoDigits(34); DecimalTwoDigits(44);
    case Magenta => DecimalTwoDigits(35); DecimalTwoDigits(45);
    case Cyan => DecimalTwoDigits(36); DecimalTwoDigits(46);
    case White => DecimalTwoDigits(37); DecimalTwoDigits(47);
    case BrightBlack => DecimalTwoDigits(90); DecimalThreeDigits(100);
    case BrightRed => DecimalTwoDigits(91); DecimalThreeDigits(101);
    case BrightGreen => DecimalTwoDigits(92); DecimalThreeDigits(102);
    case BrightYellow => DecimalTwoDigits(93); DecimalThreeDigits(103);
    case BrightBlue => DecimalTwoDigits(94); DecimalThreeDigits(104);
    case BrightMagenta => DecimalTwoDigits(95); DecimalThreeDigits(105);
    case BrightCyan => DecimalTwoDigits(96); DecimalThreeDigits(106);
    case BrightWhite => DecimalTwoDigits(97); DecimalThreeDigits(107);
  }

  /** The extended forms differ between foreground and background only in
      their leading selector (38 against 48), and Reset restores both
      defaults whichever encoder writes it. */
  lemma ExtendedCodes(c: Color)
    requires !IsNamed(c)
    ensures c.Reset? ==> FgParams(c) == BgParams(c) == "39;49"
    ensures c.Color256? ==>
      FgParams(c) == "38;5;" + Decimal(c.n) && BgParams(c) == "48;5;" + Decimal(c.n)
    ensures c.TrueColor? ==>
      var rest := Decimal(c.r) + ";" + Decimal(c.g) + ";" + Decimal(c.b);
      FgParams(c) == "38;2;" + rest && BgParams(c) == "48;2;" + rest
  {
    match c
    case Reset =>
    case Color256(n) => PaletteParams(n);
    case TrueColor(r, g, b) => TrueColorParams(r, g, b);
  }

  // The lemmas below each unfold one arm of `FgParams`/`BgParams`; they
  // are split out of `ExtendedCodes` only to keep its proof small for the
  // solver, and state nothing beyond it.

  lemma PaletteParams(n: Byte)
    ensures FgParams(Color256(n)) == "38;5;" + Decimal(n)
    ensures BgParams(Color256(n)) == "48;5;" + Decimal(n)
  {
  }

  lemma TrueColorParams(r: Byte, g: Byte, b: Byte)
    ensures var rest := Decimal(r) + ";" + Decimal(g) + ";" + Decimal(b);
      FgParams(TrueColor(r, g, b)) == "38;2;" + rest && BgParams(TrueColor(r, g, b)) == "48;2;" + rest
  {
    var rest := Decimal(r) + ";" + Decimal(g) + ";" + Decimal(b);
    TrueColorFg(r, g, b, rest);
    TrueColorBg(r, g, b, rest);
  }

  lemma TrueColorFg(r: Byte, g: Byte, b: Byte, rest: string)
    requires rest == Decimal(r) + ";" + Decimal(g) + ";" + Decimal(b)
    ensures FgParams(TrueColor(r, g, b)) == "38;2;" + rest
  {
  }

  lemma TrueColorBg(r: Byte, g: Byte, b: Byte, rest: string)
    requires rest == Decimal(r) + ";" + Decimal(g) + ";" + Decimal(b)
    ensures BgParams(TrueColor(r, g, b)) == "48;2;" + rest
  {
  }

  // ---------------------------------------------------------------------
  // Text formatting (`Display`)
  // ---------------------------------------------------------------------

  /** The text `Display` writes: canonical lower-case names (underscore for
      the bright ones), the palette index in decimal, and a 24-bit colour
      as `#` followed by its unpadded lower-case hex value. */
  function DisplayText(c: Color): (s: string)
    ensures s != []
    ensures forall i :: 0 <= i < |s| ==> !IsAsciiUpper(s[i])
    ensures c.Color256? <==> '0' <= s[0] <= '9'
    ensures c.TrueColor? <==> s[0] == '#'
  {
    match c
    case Black => "black"
    case Red => "red"
    case Green => "green"
    case Yellow => "yellow"
    case Blue => "blue"
    case Magenta => "magenta"
    case Cyan => "cyan"
    case White => "white"
    case BrightBlack => "bright_black"
    case BrightRed => "bright_red"
    case BrightGreen => "bright_green"
    case BrightYellow => "bright_yellow"
    case BrightBlue => "bright_blue"
    case BrightMagenta => "bright_magenta"
    case BrightCyan => "bright_cyan"
    case BrightWhite => "bright_white"
    case Reset => "reset"
    case Color256(n) => Decimal(n)
    case TrueColor(r, g, b) => "#" + LowerHex(FromBeBytes([0, r, g, b]))
  }

  /** `Display::fmt`: writes the text form to the formatter. */
  method DisplayFmt(c: Color, f: Sink)
    modifies f
    ensures f.text == old(f.text) + DisplayText(c)
  {
    f.WriteStr(DisplayText(c));
  }

  // ---------------------------------------------------------------------
  // Text parsing (`FromStr`)
  // ---------------------------------------------------------------------

  /** The outcome of `from_str`. The error text is the hexadecimal parser's
      debug output and is not modelled. */
  datatype ParseResult = Ok(color: Color) | Err

  /** The first stage of `from_str`: names and aliases, already lower-cased. */
  function NameLookup(src: string): (r: Option<Color>)
    ensures r.Some? ==> |src| >= 3 && IsAsciiLower(src[0])
    ensures r.Some? ==> !r.value.Color256? && !r.value.TrueColor?
  {
    if src == "black" then Some(Black)
    else if src == "red" then Some(Red)
    else if src == "green" then Some(Green)
    else if src == "yellow" then Some(Yellow)
    else if src == "blue" then Some(Blue)
    else if src == "magenta" || src == "purple" then Some(Magenta)
    else if src == "cyan" then Some(Cyan)
    else if src == "gray" || src == "grey" || src == "white" then Some(White)
    else if src == "bright_black" || src == "bright black" then Some(BrightBlack)
    else if src == "bright_red" || src == "bright red" then Some(BrightRed)
    else if src == "bright_green" || src == "bright green" then Some(BrightGreen)
    else if src == "bright_yellow" || src == "bright yellow" then Some(BrightYellow)
    else if src == "bright_blue" || src == "bright blue" then Some(BrightBlue)
    else if src == "bright_magenta" || src == "bright magenta" then Some(BrightMagenta)
    else if src == "bright_cyan" || src == "bright cyan" then Some(BrightCyan)
    else if src == "bright_white" || src == "bright white" then Some(BrightWhite)
    else if src == "reset" then Some(Reset)
    else None
  }

  /** The third stage's split of the parsed value: the top byte is dropped,
      then red, green and blue from the high byte down. */
  function HexColor(v: nat): (c: Color)
    requires v <= U32_MAX
    ensures c.TrueColor?
    ensures FromBeBytes([0, c.r, c.g, c.b]) == v % 0x100_0000
  {
    var bytes := ToBeBytes(v);
    DropTopByte(v);
    TrueColor(bytes[1], bytes[2], bytes[3])
  }

  /** The colour the third stage builds depends only on the low 24 bits. */
  lemma HexColorLowBits(v: nat)
    requires v <= U32_MAX
    ensures HexColor(v) == HexColor(v % 0x100_0000)
  {
    var bs := ToBeBytes(v);
    var low := [0, bs[1], bs[2], bs[3]];
    DropTopByte(v);
    BeBytesRoundTrip(v, low);
    assert ToBeBytes(v % 0x100_0000) == low;
  }

  /** `FromStr::from_str`: lower-case the input, then try a name, then a
      `u8` decimal, then a `u32` hexadecimal value after every leading `#`
      is removed; the first stage that succeeds decides. */
  function FromStr(s: string): (r: ParseResult)
    ensures r.Ok? && r.color.Color256? ==> ParseUnsigned(Lowercase(s), 10, U8_MAX) == Some(r.color.n)
    ensures r.Err? ==> NameLookup(Lowercase(s)).None?
  {
    var src := Lowercase(s);
    match NameLookup(src)
    case Some(c) => Ok(c)
    case None =>
      match ParseUnsigned(src, 10, U8_MAX)
      case Some(n) => Ok(Color256(n))
      case None =>
        match ParseUnsigned(TrimStartMatches(src, '#'), 16, U32_MAX)
        case Some(v) => Ok(HexColor(v))
        case None => Err
  }
}
