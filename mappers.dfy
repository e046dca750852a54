/** The pixel-to-escape strategies of `ColorMapper`: each turns an RGBA
    pixel into the foreground control sequence that paints it, or into
    nothing at all. */
module Mappers {
  import opened Primitives
  import opened Fmt
  import opened Colors
  import opened ColorLaws

  /** An RGBA pixel, the `[u8; 4]` array the mappers receive. */
  datatype Pixel = Pixel(r: Byte, g: Byte, b: Byte, a: Byte)

  /** The four implementations of `ColorMapper`. */
  datatype Mapper = NoColorMapper | TrueColorMapper | Color256Mapper | Color16Mapper

  /** The grey level both quantisers start from: each channel is divided by
      three and floored on its own before the three thirds are added, so the
      `u8` sum never overflows and is at most two below the floored mean. */
  function Luma(p: Pixel): (l: Byte)
    ensures 3 * l <= p.r + p.g + p.b <= 3 * l + 6
    ensures l <= (p.r + p.g + p.b) / 3 <= l + 2
  {
    p.r / 3 + p.g / 3 + p.b / 3
  }

  /** The sixteen-colour quantiser: the grey level's sixteenth picks a
      named colour by palette number; the bucket is always in range. */
  function Quantize16(p: Pixel): (c: Color)
    ensures IsNamed(c) && PaletteIndex(c) == Luma(p) / 16
  {
    FromPaletteIndex(Luma(p) / 16).value
  }

  /** The colour a mapper paints a pixel with; the no-colour mapper
      chooses none. */
  function MappedColor(m: Mapper, p: Pixel): (r: Option<Color>)
    ensures r.None? <==> m.NoColorMapper?
    ensures m.TrueColorMapper? ==> r == Some(TrueColor(p.r, p.g, p.b))
    ensures m.Color256Mapper? ==> r.Some? && r.value.Color256?
    ensures m.Color16Mapper? ==> r.Some? && IsNamed(r.value)
  {
    match m
    case NoColorMapper => None
    case TrueColorMapper => Some(TrueColor(p.r, p.g, p.b))
    case Color256Mapper => Some(Color256(Luma(p)))
    case Color16Mapper => Some(Quantize16(p))
  }

  /** What `map_fmt` writes: nothing for the no-colour mapper, otherwise the
      foreground encoding of the chosen colour. */
  function MapEncoding(m: Mapper, p: Pixel): (s: string)
    ensures s == [] <==> m.NoColorMapper?
    ensures s != [] ==> |s| >= 3 && s[..2] == CSI && s[|s| - 1] == 'm'
  {
    match MappedColor(m, p)
    case None => []
    case Some(c) => FgEncoding(c)
  }

  /** `ColorMapper::map_fmt` for each mapper. The sixteen-colour mapper
      returns an error when the bucket is outside the palette; that never
      happens, so every call succeeds and writes exactly the encoding. */
  method MapFmt(m: Mapper, p: Pixel, f: Sink) returns (ok: bool)
    modifies f
    ensures ok
    ensures f.text == old(f.text) + MapEncoding(m, p)
  {
    match m
    case NoColorMapper =>
      ok := true;
    case TrueColorMapper =>
      FgFmt(TrueColor(p.r, p.g, p.b), f);
      ok := true;
    case Color256Mapper =>
      FgFmt(Color256(p.r / 3 + p.g / 3 + p.b / 3), f);
      ok := true;
    case Color16Mapper =>
      var bucket := (p.r / 3 + p.g / 3 + p.b / 3) / 16;
      BucketInPalette(p);
      match FromPaletteIndex(bucket)
      case None =>
        assert false;
        ok := false;
      case Some(c) =>
        FgFmt(c, f);
        ok := true;
  }

  /** `ColorMapper::map`: fills a fresh buffer with `map_fmt` and unwraps
      the result, which cannot fail. */
  method Map(m: Mapper, p: Pixel) returns (s: string)
    ensures s == MapEncoding(m, p)
    ensures s == [] <==> m.NoColorMapper?
  {
    var buf := new Sink();
    var ok := MapFmt(m, p, buf);
    assert ok;
    s := buf.text;
  }

  // ---------------------------------------------------------------------
  // Properties of the quantisers
  // ---------------------------------------------------------------------

  /** The grey level never exceeds 255, so the sixteen-colour bucket is
      always one of the sixteen palette entries. */
  lemma BucketInPalette(p: Pixel)
    ensures (p.r / 3 + p.g / 3 + p.b / 3) / 16 < 16
    ensures FromPaletteIndex((p.r / 3 + p.g / 3 + p.b / 3) / 16).Some?
  {
  }

  /** Brighter pixels never get a lower grey level or a lower bucket. */
  lemma LumaMonotone(p: Pixel, q: Pixel)
    requires p.r <= q.r && p.g <= q.g && p.b <= q.b
    ensures Luma(p) <= Luma(q)
    ensures PaletteIndex(Quantize16(p)) <= PaletteIndex(Quantize16(q))
  {
  }

  /** Each third is floored separately: a dark grey of 1 in every channel
      gets grey level 0 although the floored mean is 1. */
  lemma ThirdsFlooredSeparately()
    ensures Luma(Pixel(1, 1, 1, 255)) == 0
    ensures (1 + 1 + 1) / 3 == 1
  {
  }

  /** The extremes: black maps to palette entry 0 and Black, white to
      palette entry 255 and BrightWhite. */
  lemma Extremes(a: Byte)
    ensures MappedColor(Color256Mapper, Pixel(0, 0, 0, a)) == Some(Color256(0))
    ensures MappedColor(Color16Mapper, Pixel(0, 0, 0, a)) == Some(Black)
    ensures MappedColor(Color256Mapper, Pixel(255, 255, 255, a)) == Some(Color256(255))
    ensures MappedColor(Color16Mapper, Pixel(255, 255, 255, a)) == Some(BrightWhite)
  {
    PaletteRoundTrip(Black);
    PaletteRoundTrip(BrightWhite);
  }

  /** Bucket `i` of the sixteen-colour mapper is written as foreground code
      30+i for the standard colours and 90+(i-8) for the bright ones. */
  lemma Color16Codes(p: Pixel)
    ensures var i := Luma(p) / 16;
      MapEncoding(Color16Mapper, p) == CSI + Decimal(if i < 8 then 30 + i else 90 + (i - 8)) + "m"
  {
    NamedCodes(Quantize16(p));
  }

  /** The 256-colour mapper writes the extended `38;5;n` form of the grey
      level. */
  lemma Color256Codes(p: Pixel)
    ensures MapEncoding(Color256Mapper, p) == CSI + "38;5;" + Decimal(Luma(p)) + "m"
  {
    ExtendedCodes(Color256(Luma(p)));
  }

  /** The true-colour mapper writes the extended `38;2;r;g;b` form of the
      pixel's own channels. */
  lemma TrueColorCodes(p: Pixel)
    ensures MapEncoding(TrueColorMapper, p)
         == CSI + "38;2;" + Decimal(p.r) + ";" + Decimal(p.g) + ";" + Decimal(p.b) + "m"
  {
    ExtendedCodes(TrueColor(p.r, p.g, p.b));
  }

  /** No mapper looks at the alpha channel. */
  lemma AlphaIgnored(m: Mapper, p: Pixel, a: Byte)
    ensures MapEncoding(m, p.(a := a)) == MapEncoding(m, p)
  {
    assert Luma(p.(a := a)) == Luma(p);
  }

  /** The escape sequence a mapper writes determines the colour it chose:
      two pixels get the same text exactly when they get the same colour. */
  lemma EncodingDeterminesColor(m: Mapper, p: Pixel, q: Pixel)
    ensures MapEncoding(m, p) == MapEncoding(m, q) <==> MappedColor(m, p) == MappedColor(m, q)
  {
    match m
    case NoColorMapper =>
    case _ =>
      EncodingInjective(MappedColor(m, p).value, MappedColor(m, q).value);
  }

  /** The true-colour mapper loses nothing but alpha: two pixels get the
      same text exactly when their red, green and blue agree. */
  lemma TrueColorLossless(p: Pixel, q: Pixel)
    ensures MapEncoding(TrueColorMapper, p) == MapEncoding(TrueColorMapper, q)
        <==> (p.r == q.r && p.g == q.g && p.b == q.b)
  {
    EncodingDeterminesColor(TrueColorMapper, p, q);
  }

  /** The quantisers keep exactly the grey level (256 colours) or its
      sixteenth (16 colours). */
  lemma QuantisersKeepGrey(p: Pixel, q: Pixel)
    ensures MapEncoding(Color256Mapper, p) == MapEncoding(Color256Mapper, q) <==> Luma(p) == Luma(q)
    ensures MapEncoding(Color16Mapper, p) == MapEncoding(Color16Mapper, q)
        <==> Luma(p) / 16 == Luma(q) / 16
  {
    EncodingDeterminesColor(Color256Mapper, p, q);
    EncodingDeterminesColor(Color16Mapper, p, q);
    if Luma(p) / 16 == Luma(q) / 16 {
      PaletteRoundTrip(Quantize16(p));
      PaletteRoundTrip(Quantize16(q));
    }
  }
}
