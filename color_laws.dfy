/** Properties of the colour codecs: the shape and uniqueness of the SGR
    encodings, and how parsing and formatting fit together. */
module ColorLaws {
  import opened Primitives
  import opened Colors

  // ---------------------------------------------------------------------
  // SGR encodings
  // ---------------------------------------------------------------------

  lemma DecimalIsParams(n: nat)
    ensures IsParamString(Decimal(n))
    ensures ';' !in Decimal(n)
  {
  }

  lemma JoinParams(p: string, q: string)
    requires IsParamString(p) && IsParamString(q)
    ensures IsParamString(p + q)
  {
    var s := p + q;
    forall i | 0 <= i < |s| ensures IsParamChar(s[i]) {
      if i < |p| { assert s[i] == p[i]; } else { assert s[i] == q[i - |p|]; }
    }
  }

  /** The parameters of a 24-bit colour after its selector: three decimal
      fields joined by `;`. */
  lemma ChannelsAreParams(r: Byte, g: Byte, b: Byte)
    ensures IsParamString(Decimal(r) + ";" + Decimal(g) + ";" + Decimal(b))
  {
    DecimalIsParams(r);
    DecimalIsParams(g);
    DecimalIsParams(b);
    JoinParams(Decimal(r), ";");
    JoinParams(Decimal(r) + ";", Decimal(g));
    JoinParams(Decimal(r) + ";" + Decimal(g), ";");
    JoinParams(Decimal(r) + ";" + Decimal(g) + ";", Decimal(b));
  }

  lemma SelectorParams(selector: string, rest: string)
    requires |selector| == 5 && selector[2] == ';' && IsParamString(selector)
    requires IsParamString(rest)
    ensures IsParamString(selector + rest) && ';' in selector + rest
  {
    JoinParams(selector, rest);
    assert (selector + rest)[2] == ';';
  }

  lemma ExtendedShape(c: Color)
    requires !IsNamed(c)
    ensures IsParamString(FgParams(c)) && IsParamString(BgParams(c))
    ensures ';' in FgParams(c) && ';' in BgParams(c)
  {
    match c
    case Reset =>
      assert "39;49"[2] == ';';
    case Color256(n) =>
      PaletteShape(n);
    case TrueColor(r, g, b) =>
      TrueColorShape(r, g, b);
  }

  lemma PaletteShape(n: Byte)
    ensures IsParamString(FgParams(Color256(n))) && IsParamString(BgParams(Color256(n)))
    ensures ';' in FgParams(Color256(n)) && ';' in BgParams(Color256(n))
  {
    DecimalIsParams(n);
    SelectorParams("38;5;", Decimal(n));
    SelectorParams("48;5;", Decimal(n));
  }

  lemma TrueColorShape(r: Byte, g: Byte, b: Byte)
    ensures IsParamString(FgParams(TrueColor(r, g, b))) && IsParamString(BgParams(TrueColor(r, g, b)))
    ensures ';' in FgParams(TrueColor(r, g, b)) && ';' in BgParams(TrueColor(r, g, b))
  {
    ChannelsAreParams(r, g, b);
    ExtendedCodes(TrueColor(r, g, b));
    var rest := Decimal(r) + ";" + Decimal(g) + ";" + Decimal(b);
    SelectorParams("38;2;", rest);
    SelectorParams("48;2;", rest);
  }

  /** For the palette and 24-bit colours the background parameters are the
      foreground ones with the leading `3` of the selector replaced by `4`. */
  lemma ExtendedSelectors(c: Color)
    requires c.Color256? || c.TrueColor?
    ensures |FgParams(c)| > 1 && FgParams(c)[0] == '3'
    ensures BgParams(c) == ['4'] + FgParams(c)[1..]
  {
    match c
    case Color256(n) =>
      SwapLead("38;5;", "48;5;", Decimal(n));
    case TrueColor(r, g, b) =>
      var rest := Decimal(r) + ";" + Decimal(g) + ";" + Decimal(b);
      ExtendedCodes(c);
      SwapLead("38;2;", "48;2;", rest);
  }

  lemma SwapLead(a: string, b: string, rest: string)
    requires |a| == |b| > 1 && a[1..] == b[1..]
    ensures (a + rest)[0] == a[0]
    ensures [b[0]] + (a + rest)[1..] == b + rest
  {
    assert (a + rest)[1..] == a[1..] + rest;
    assert b == [b[0]] + b[1..];
  }

  /** Both encoders write only digits and `;` between CSI and `m`, and a
      `;` appears exactly for the colours that are not one of the sixteen
      named ones. */
  lemma ParamsShape(c: Color)
    ensures IsParamString(FgParams(c)) && IsParamString(BgParams(c))
    ensures (';' in FgParams(c)) == !IsNamed(c)
    ensures (';' in BgParams(c)) == !IsNamed(c)
  {
    if IsNamed(c) {
      NamedCodes(c);
      var i := PaletteIndex(c);
      DecimalIsParams(if i < 8 then 30 + i else 90 + (i - 8));
      DecimalIsParams(if i < 8 then 40 + i else 100 + (i - 8));
    } else {
      ExtendedShape(c);
    }
  }

  /** The three decimal fields of a 24-bit colour's parameters determine
      the three channels. */
  lemma ChannelsInjective(r: Byte, g: Byte, b: Byte, r2: Byte, g2: Byte, b2: Byte)
    requires Decimal(r) + ";" + Decimal(g) + ";" + Decimal(b)
          == Decimal(r2) + ";" + Decimal(g2) + ";" + Decimal(b2)
    ensures r == r2 && g == g2 && b == b2
  {
    DecimalIsParams(r);
    DecimalIsParams(g);
    DecimalIsParams(r2);
    DecimalIsParams(g2);
    var tail, tail2 := Decimal(g) + ";" + Decimal(b), Decimal(g2) + ";" + Decimal(b2);
    assert Decimal(r) + ";" + Decimal(g) + ";" + Decimal(b) == Decimal(r) + [';'] + tail;
    assert Decimal(r2) + ";" + Decimal(g2) + ";" + Decimal(b2) == Decimal(r2) + [';'] + tail2;
    SplitAtSeparator(Decimal(r), tail, Decimal(r2), tail2, ';');
    assert tail == Decimal(g) + [';'] + Decimal(b);
    assert tail2 == Decimal(g2) + [';'] + Decimal(b2);
    SplitAtSeparator(Decimal(g), Decimal(b), Decimal(g2), Decimal(b2), ';');
    ToBaseInjective(r, r2, 10);
    ToBaseInjective(g, g2, 10);
    ToBaseInjective(b, b2, 10);
  }

  /** Dropping a common prefix from two equal strings leaves equal strings. */
  lemma DropPrefix(pre: string, x: string, y: string)
    requires pre + x == pre + y
    ensures x == y
  {
    assert x == (pre + x)[|pre|..];
    assert y == (pre + y)[|pre|..];
  }

  /** The extended parameter strings (Reset, palette index, 24-bit) tell
      their colour apart; `sel` is the selector digit, 3 for foreground and
      4 for background. */
  lemma ExtendedInjective(a: Color, b: Color, sel: char, pa: string, pb: string)
    requires !IsNamed(a) && !IsNamed(b)
    requires sel == '3' || sel == '4'
    requires pa == (match a
      case Reset => "39;49"
      case Color256(n) => [sel, '8', ';', '5', ';'] + Decimal(n)
      case TrueColor(r, g, b) => [sel, '8', ';', '2', ';'] + (Decimal(r) + ";" + Decimal(g) + ";" + Decimal(b))
      case _ => "")
    requires pb == (match b
      case Reset => "39;49"
      case Color256(n) => [sel, '8', ';', '5', ';'] + Decimal(n)
      case TrueColor(r, g, b) => [sel, '8', ';', '2', ';'] + (Decimal(r) + ";" + Decimal(g) + ";" + Decimal(b))
      case _ => "")
    requires pa == pb
    ensures a == b
  {
    assert a.Reset? == (pa[1] == '9');
    assert b.Reset? == (pb[1] == '9');
    assert !a.Reset? ==> (a.Color256? == (pa[3] == '5'));
    assert !b.Reset? ==> (b.Color256? == (pb[3] == '5'));
    var prefix := pa[..5];
    if a.Color256? {
      assert b.Color256?;
      assert pa == prefix + Decimal(a.n) && pb == prefix + Decimal(b.n);
      DropPrefix(prefix, Decimal(a.n), Decimal(b.n));
      ToBaseInjective(a.n, b.n, 10);
    } else if a.TrueColor? {
      assert b.TrueColor?;
      var ra := Decimal(a.r) + ";" + Decimal(a.g) + ";" + Decimal(a.b);
      var rb := Decimal(b.r) + ";" + Decimal(b.g) + ";" + Decimal(b.b);
      assert pa == prefix + ra && pb == prefix + rb;
      DropPrefix(prefix, ra, rb);
      ChannelsInjective(a.r, a.g, a.b, b.r, b.g, b.b);
    }
  }

  /** Different colours have different foreground encodings. */
  lemma FgParamsInjective(a: Color, b: Color)
    requires FgParams(a) == FgParams(b)
    ensures a == b
  {
    ParamsShape(a);
    ParamsShape(b);
    if IsNamed(a) {
      NamedCodes(a);
      NamedCodes(b);
      var i, j := PaletteIndex(a), PaletteIndex(b);
      ToBaseInjective(if i < 8 then 30 + i else 90 + (i - 8), if j < 8 then 30 + j else 90 + (j - 8), 10);
      PaletteRoundTrip(a);
      PaletteRoundTrip(b);
    } else {
      ExtendedCodes(a);
      ExtendedCodes(b);
      ExtendedInjective(a, b, '3', FgParams(a), FgParams(b));
    }
  }

  /** Different colours have different background encodings. */
  lemma BgParamsInjective(a: Color, b: Color)
    requires BgParams(a) == BgParams(b)
    ensures a == b
  {
    ParamsShape(a);
    ParamsShape(b);
    if IsNamed(a) {
      NamedCodes(a);
      NamedCodes(b);
      var i, j := PaletteIndex(a), PaletteIndex(b);
      ToBaseInjective(if i < 8 then 40 + i else 100 + (i - 8), if j < 8 then 40 + j else 100 + (j - 8), 10);
      PaletteRoundTrip(a);
      PaletteRoundTrip(b);
    } else {
      ExtendedCodes(a);
      ExtendedCodes(b);
      ExtendedInjective(a, b, '4', BgParams(a), BgParams(b));
    }
  }

  /** Each complete escape sequence is CSI, the parameters and `m`, so it
      identifies its colour too. */
  lemma EncodingInjective(a: Color, b: Color)
    ensures FgEncoding(a) == FgEncoding(b) ==> a == b
    ensures BgEncoding(a) == BgEncoding(b) ==> a == b
  {
    if FgEncoding(a) == FgEncoding(b) {
      assert FgParams(a) == FgEncoding(a)[2..|FgEncoding(a)| - 1];
      assert FgParams(b) == FgEncoding(b)[2..|FgEncoding(b)| - 1];
      FgParamsInjective(a, b);
    }
    if BgEncoding(a) == BgEncoding(b) {
      assert BgParams(a) == BgEncoding(a)[2..|BgEncoding(a)| - 1];
      assert BgParams(b) == BgEncoding(b)[2..|BgEncoding(b)| - 1];
      BgParamsInjective(a, b);
    }
  }

  // ---------------------------------------------------------------------
  // Parsing and formatting
  // ---------------------------------------------------------------------

  /** Lowercasing, character by character, maps `s` to `t`. */
  lemma LowercaseIs(s: string, t: string)
    requires |s| == |t| && forall i :: 0 <= i < |s| ==> LowerChar(s[i]) == t[i]
    ensures Lowercase(s) == t
  {
  }

  /** The first stage decides whenever the lower-cased text is a name. */
  lemma NameStage(s: string, c: Color)
    requires NameLookup(Lowercase(s)) == Some(c)
    ensures FromStr(s) == Ok(c)
  {
  }

  /** The third stage decides when neither a name nor a `u8` decimal matched. */
  lemma HexStage(s: string, v: nat)
    requires NameLookup(Lowercase(s)).None?
    requires ParseUnsigned(Lowercase(s), 10, U8_MAX).None?
    requires ParseUnsigned(TrimStartMatches(Lowercase(s), '#'), 16, U32_MAX) == Some(v)
    ensures FromStr(s) == Ok(HexColor(v))
  {
  }

  /** The formatter only writes lower-case text, so lowercasing it first,
      as the parser does, changes nothing. */
  lemma DisplayIsLowercase(c: Color)
    ensures Lowercase(DisplayText(c)) == DisplayText(c)
  {
    LowercaseFixed(DisplayText(c));
  }

  /** Every name the formatter writes is found again by the name stage. */
  lemma NamedRoundTrip(c: Color)
    requires !c.Color256? && !c.TrueColor?
    ensures NameLookup(DisplayText(c)) == Some(c)
  {
    if c.Reset? {
    } else if PaletteIndex(c) < 8 {
      BaseNameLookup(c);
    } else {
      BrightNames(c);
    }
  }

  lemma BaseNameLookup(c: Color)
    requires IsNamed(c) && PaletteIndex(c) < 8
    ensures NameLookup(DisplayText(c)) == Some(c)
  {
    match c
    case Black =>
    case Red =>
    case Green =>
    case Yellow =>
    case Blue =>
    case Magenta =>
    case Cyan =>
    case White =>
  }

  /** Both spellings of every bright name are recognised: the underscore
      one the formatter writes and the one with a space. */
  lemma BrightNames(c: Color)
    requires IsNamed(c) && PaletteIndex(c) >= 8
    ensures NameLookup(DisplayText(c)) == Some(c)
    ensures NameLookup("bright " + DisplayText(c)[7..]) == Some(c)
  {
    match c
    case BrightBlack => BrightNameBlack();
    case BrightRed => BrightNameRed();
    case BrightGreen => BrightNameGreen();
    case BrightYellow => BrightNameYellow();
    case BrightBlue => BrightNameBlue();
    case BrightMagenta => BrightNameMagenta();
    case BrightCyan => BrightNameCyan();
    case BrightWhite => BrightNameWhite();
  }

  /** Both spellings of each bright name, one colour at a time. One lemma
      per colour is the same fact eight times over; it is split this way
      only to keep each proof small for the solver. */
  lemma BrightNameBlack()
    ensures NameLookup("bright_black") == Some(BrightBlack)
    ensures NameLookup("bright " + DisplayText(BrightBlack)[7..]) == Some(BrightBlack)
  {
    assert "bright " + DisplayText(BrightBlack)[7..] == "bright black";
  }

  lemma BrightNameRed()
    ensures NameLookup("bright_red") == Some(BrightRed)
    ensures NameLookup("bright " + DisplayText(BrightRed)[7..]) == Some(BrightRed)
  {
    assert "bright " + DisplayText(BrightRed)[7..] == "bright red";
  }

  lemma BrightNameGreen()
    ensures NameLookup("bright_green") == Some(BrightGreen)
    ensures NameLookup("bright " + DisplayText(BrightGreen)[7..]) == Some(BrightGreen)
  {
    assert "bright " + DisplayText(BrightGreen)[7..] == "bright green";
  }

  lemma BrightNameYellow()
    ensures NameLookup("bright_yellow") == Some(BrightYellow)
    ensures NameLookup("bright " + DisplayText(BrightYellow)[7..]) == Some(BrightYellow)
  {
    assert "bright " + DisplayText(BrightYellow)[7..] == "bright yellow";
  }

  lemma BrightNameBlue()
    ensures NameLookup("bright_blue") == Some(BrightBlue)
    ensures NameLookup("bright " + DisplayText(BrightBlue)[7..]) == Some(BrightBlue)
  {
    assert "bright " + DisplayText(BrightBlue)[7..] == "bright blue";
  }

  lemma BrightNameMagenta()
    ensures NameLookup("bright_magenta") == Some(BrightMagenta)
    ensures NameLookup("bright " + DisplayText(BrightMagenta)[7..]) == Some(BrightMagenta)
  {
    assert "bright " + DisplayText(BrightMagenta)[7..] == "bright magenta";
  }

  lemma BrightNameCyan()
    ensures NameLookup("bright_cyan") == Some(BrightCyan)
    ensures NameLookup("bright " + DisplayText(BrightCyan)[7..]) == Some(BrightCyan)
  {
    assert "bright " + DisplayText(BrightCyan)[7..] == "bright cyan";
  }

  lemma BrightNameWhite()
    ensures NameLookup("bright_white") == Some(BrightWhite)
    ensures NameLookup("bright " + DisplayText(BrightWhite)[7..]) == Some(BrightWhite)
  {
    assert "bright " + DisplayText(BrightWhite)[7..] == "bright white";
  }

  /** A `#` followed by the unpadded lower-case hex form of `v` parses
      through the third stage to the colour of `v`'s low 24 bits. */
  lemma HexText(v: nat)
    requires v <= U32_MAX
    ensures FromStr("#" + LowerHex(v)) == Ok(HexColor(v))
  {
    var h := LowerHex(v);
    var src := "#" + h;
    assert forall i :: 0 <= i < |src| ==> LowerChar(src[i]) == src[i];
    LowercaseIs(src, src);
    assert NameLookup(src).None?;
    assert ParseUnsigned(src, 10, U8_MAX).None?;
    TrimRun("#", '#', h);
    ParseToBase(v, 16, U32_MAX);
    HexStage(src, v);
  }

  /** Parsing what the formatter wrote gives the colour back, for every
      colour: names through the name stage, palette indices through the
      decimal stage, and 24-bit colours through the hexadecimal stage,
      which they reach because the leading `#` fails the decimal stage. */
  lemma DisplayRoundTrip(c: Color)
    ensures FromStr(DisplayText(c)) == Ok(c)
  {
    DisplayIsLowercase(c);
    match c
    case Color256(n) =>
      ParseToBase(n, 10, U8_MAX);
      DecimalBeforeHex(DisplayText(c), n);
    case TrueColor(r, g, b) =>
      var v := FromBeBytes([0, r, g, b]);
      HexText(v);
      BeBytesRoundTrip(v, [0, r, g, b]);
    case _ =>
      NamedRoundTrip(c);
      NameStage(DisplayText(c), c);
  }

  /** Formatting is one-to-one: two colours with the same text are equal. */
  lemma DisplayInjective(a: Color, b: Color)
    requires DisplayText(a) == DisplayText(b)
    ensures a == b
  {
    DisplayRoundTrip(a);
    DisplayRoundTrip(b);
  }

  /** Parsing ignores case: any spelling whose lower-case form is what the
      formatter writes for `c` parses to `c`. */
  lemma ParseIgnoresCase(s: string, c: Color)
    requires Lowercase(s) == DisplayText(c)
    ensures FromStr(s) == Ok(c)
  {
    DisplayRoundTrip(c);
    DisplayIsLowercase(c);
  }

  /** The parser sees only the lower-case form of its input: two texts that
      lowercase alike give the same result, colour or error. */
  lemma CaseInsensitive(s: string, t: string)
    requires Lowercase(s) == Lowercase(t)
    ensures FromStr(s) == FromStr(t)
  {
  }

  /** Every bright colour is also accepted with a space in place of the
      underscore of its canonical name. */
  lemma BrightSpacedName(c: Color)
    requires IsNamed(c) && PaletteIndex(c) >= 8
    ensures |DisplayText(c)| > 7 && DisplayText(c)[..7] == "bright_"
    ensures FromStr("bright " + DisplayText(c)[7..]) == Ok(c)
  {
    var spaced := "bright " + DisplayText(c)[7..];
    assert forall i :: 0 <= i < |spaced| ==> LowerChar(spaced[i]) == spaced[i];
    LowercaseIs(spaced, spaced);
    BrightNames(c);
    NameStage(spaced, c);
  }

  /** `purple` is an alias of Magenta, in any case. */
  lemma PurpleAlias()
    ensures FromStr("Purple") == Ok(Magenta)
  {
    SpellingOf("Purple", "purple", Magenta);
  }

  /** `gray` is an alias of White. */
  lemma GrayAlias()
    ensures FromStr("gray") == Ok(White)
  {
    SpellingOf("gray", "gray", White);
  }

  /** `grey` is an alias of White, in any case. */
  lemma GreyAlias()
    ensures FromStr("GREY") == Ok(White)
  {
    SpellingOf("GREY", "grey", White);
  }

  /** A bright name matches in mixed case with a space separator. */
  lemma SpacedSpelling()
    ensures FromStr("Bright Red") == Ok(BrightRed)
  {
    SpellingOf("Bright Red", "bright red", BrightRed);
  }

  /** A bright name matches in upper case with an underscore separator. */
  lemma UpperSpelling()
    ensures FromStr("BRIGHT_CYAN") == Ok(BrightCyan)
  {
    SpellingOf("BRIGHT_CYAN", "bright_cyan", BrightCyan);
  }

  lemma SpellingOf(s: string, name: string, c: Color)
    requires |s| == |name| && forall i :: 0 <= i < |s| ==> LowerChar(s[i]) == name[i]
    requires NameLookup(name) == Some(c)
    ensures FromStr(s) == Ok(c)
  {
    LowercaseIs(s, name);
    NameStage(s, c);
  }

  /** Any text that reads as a `u8` decimal becomes that palette index; it
      never reaches the hexadecimal stage, because no name starts with a
      digit or `+`. */
  lemma DecimalBeforeHex(s: string, n: nat)
    requires ParseUnsigned(Lowercase(s), 10, U8_MAX) == Some(n)
    ensures n <= U8_MAX && FromStr(s) == Ok(Color256(n))
  {
    var src := Lowercase(s);
    assert src[0] == '+' || '0' <= src[0] <= '9';
    assert NameLookup(src).None?;
  }

  /** Text whose lower-case form starts with `#` skips the first two
      stages and is decided by the hexadecimal one. */
  lemma HashGoesToHex(s: string)
    requires |s| >= 1 && Lowercase(s)[0] == '#'
    ensures FromStr(s) ==
      match ParseUnsigned(TrimStartMatches(Lowercase(s), '#'), 16, U32_MAX)
      case Some(v) => Ok(HexColor(v))
      case None => Err
  {
    var src := Lowercase(s);
    assert !IsAsciiLower(src[0]) && DigitValue(src[0], 10).None?;
    assert NameLookup(src).None?;
    assert ParseUnsigned(src, 10, U8_MAX).None?;
  }

  /** Text made of `#` and then lower-case text not starting with `#` is
      read as a hexadecimal value, or rejected. */
  lemma HexAfterHash(h: string)
    requires forall i :: 0 <= i < |h| ==> !IsAsciiUpper(h[i])
    requires h == [] || h[0] != '#'
    ensures FromStr("#" + h) ==
      match ParseUnsigned(h, 16, U32_MAX)
      case Some(v) => Ok(HexColor(v))
      case None => Err
  {
    LowercaseAppend("#", h);
    LowercaseFixed(h);
    assert Lowercase("#") == "#";
    TrimRun("#", '#', h);
    HashGoesToHex("#" + h);
  }

  /** A hexadecimal value above 0xFFFFFFFF overflows `u32`, so every stage
      rejects it. */
  lemma HexOverflowRejected(n: nat)
    requires n > U32_MAX
    ensures FromStr("#" + LowerHex(n)) == Err
  {
    var h := LowerHex(n);
    ParseToBase(n, 16, U32_MAX);
    assert forall i :: 0 <= i < |h| ==> !IsAsciiUpper(h[i]);
    HexAfterHash(h);
  }

  /** The hexadecimal stage removes every leading `#`, so any non-empty
      run of them parses like a single one. */
  lemma LeadingHashes(run: string, t: string)
    requires |run| >= 1 && forall i :: 0 <= i < |run| ==> run[i] == '#'
    requires t == [] || t[0] != '#'
    ensures FromStr(run + t) == FromStr("#" + t)
  {
    var lt := Lowercase(t);
    LowercaseAppend(run, t);
    LowercaseAppend("#", t);
    LowercaseFixed(run);
    assert Lowercase("#") == "#";
    assert lt == [] || lt[0] != '#';
    TrimRun(run, '#', lt);
    TrimRun("#", '#', lt);
    assert Lowercase(run + t)[0] == '#';
    assert Lowercase("#" + t)[0] == '#';
    HashGoesToHex(run + t);
    HashGoesToHex("#" + t);
  }

  /** The hexadecimal stage accepts any value up to 0xFFFFFFFF and keeps
      only its low 24 bits: red from bits 16-23, green 8-15, blue 0-7. */
  lemma HexDropsTopByte(v: nat)
    requires v <= U32_MAX
    ensures FromStr("#" + LowerHex(v)) == Ok(HexColor(v))
    ensures FromStr("#" + LowerHex(v)) == FromStr("#" + LowerHex(v % 0x100_0000))
  {
    HexText(v);
    HexText(v % 0x100_0000);
    HexColorLowBits(v);
  }
}
