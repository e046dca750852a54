# Terminal colours of img-2-anscii

This is a Dafny model of the colour component of the `img-2-anscii` image-to-text
renderer (`img-2-anscii-core/src/color.rs`). It covers five parts:

- the `Color` value type, which holds sixteen named colours, the terminal default
  `Reset`, a 256-colour palette index and a 24-bit colour;
- the ANSI SGR encoders `fg_fmt` and `bg_fmt`. Each writes `ESC [ params m`, the
  Select Graphic Rendition control sequence of section 8.3.117 of ECMA-48;
- the text parser `FromStr`, which has three stages tried in order:
  1. a case-insensitive name or alias;
  2. a `u8` decimal;
  3. a `u32` hexadecimal value after every leading `#` is removed;
- the text formatter `Display`;
- the four pixel-to-escape strategies behind the `ColorMapper` trait: no colour,
  true colour, a 256-colour grey level, and a 16-colour bucket of that grey level.

The project has six modules:

- `Primitives` (`primitives.dfy`) stands in for the Rust standard-library pieces
  the component relies on:
  - ASCII lowercasing and `trim_start_matches`;
  - `{}` / `{:x}` formatting of integers;
  - `u8::from_str` and `u32::from_str_radix`, as a checked digit fold;
  - `to_be_bytes` / `from_be_bytes`.
- `Fmt` (`fmt.dfy`) models the `fmt::Write` destination as a `Sink` class. Its
  text only grows.
- `Colors` (`color.dfy`) holds the colour type, the encoders, the formatter and
  the parser.
- `ColorLaws` (`color_laws.dfy`) proves the codec laws:
  - both encodings are one-to-one, and they differ only in the leading number;
  - parsing inverts formatting for every colour;
  - parsing ignores case for every input, and accepts the aliases;
  - the stages take precedence in the stated order.
- `Mappers` (`mappers.dfy`) models the mappers and proves their properties:
  - the quantisers never overflow;
  - the defensive error branch of the 16-colour mapper is unreachable;
  - no mapper looks at alpha;
  - each mapper writes a specific code.
- `ParseExamples` (`parse_examples.dfy`) works through specific inputs that show
  the stage order, such as `"10"`, `"256"`, `"bad"`, `"#123456789"`.

The types of the source map to these Dafny types:

- `Colors.Color` is the `Color` enum (`img-2-anscii-core/src/color.rs:4-25`).
- `Mappers.Pixel` is the `[u8; 4]` RGBA array the mappers receive (line 166).
- `Mappers.Mapper` has one case per `ColorMapper` implementation: `NoColorMapper`, `TrueColorMapper`, `Color256Mapper` and `Color16Mapper` (lines 174-198).
- `Fmt.Sink` is the `fmt::Write` destination, such as the `String` buffer of `map` (line 168).
- `Colors.ParseResult` is the `Result<Color, String>` of `from_str`, without the error text.

The encoders, `Display::fmt` and `map_fmt` write to a caller's sink one piece at a
time. They are methods on a `Sink` whose contract is
`f.text == old(f.text) + <encoding>`. The encoding is a function of the colour,
and the laws are proved about that function. `map` fills a fresh sink and unwraps
the result; the model proves the unwrap cannot fail.

## Model

| member | source | states |
|---|---|---|
| Primitives.LowerChar | img-2-anscii-core/src/color.rs:89 | an ASCII capital becomes its own small letter (code point plus 32); every other character is unchanged; the result is never a capital |
| Primitives.Lowercase | img-2-anscii-core/src/color.rs:89 | lowercasing keeps the length and lowercases each character in place |
| Primitives.LowercaseFixed | img-2-anscii-core/src/color.rs:89 | text without capitals is its own lower-case form, and lowercasing is idempotent |
| Primitives.LowercaseAppend | img-2-anscii-core/src/color.rs:89 | lowercasing distributes over concatenation |
| Primitives.TrimStartMatches | img-2-anscii-core/src/color.rs:126 | the result is a suffix of the input, everything removed was `#`, and the result does not start with `#` |
| Primitives.TrimRun | img-2-anscii-core/src/color.rs:126 | a run of `#` of any length in front of text not starting with `#` is removed entirely |
| Primitives.SplitAtSeparator | img-2-anscii-core/src/color.rs:50 | helper: a separator absent from both heads splits a joined text in one way only |
| Primitives.DigitValue | img-2-anscii-core/src/color.rs:117 | a character's digit value is below the radix and comes only from a digit or an ASCII letter |
| Primitives.DigitChar | img-2-anscii-core/src/color.rs:160 | the digit character the formatters emit is `0`-`9` or lower-case `a`-`f` and reads back as the same digit |
| Primitives.ToBase | img-2-anscii-core/src/color.rs:159-160 | unpadded formatting gives at least one valid digit, starts with `0` only for zero, and is one digit long exactly below the radix |
| Primitives.Decimal | img-2-anscii-core/src/color.rs:49-50 | the decimal form is a non-empty run of decimal digits |
| Primitives.LowerHex | img-2-anscii-core/src/color.rs:160 | the hex form is a non-empty run of lower-case hex digits |
| Primitives.CheckedFold | img-2-anscii-core/src/color.rs:117 | the digit loop with overflow checks never returns a value above the bound or below its starting value |
| Primitives.Fold | img-2-anscii-core/src/color.rs:117 | reference definition: the value of a digit string with no bound, against which the checked digit loop is proved |
| Primitives.FoldGrows | img-2-anscii-core/src/color.rs:117 | the unchecked fold never decreases its accumulator |
| Primitives.CheckedFoldSpec | img-2-anscii-core/src/color.rs:117 | the checked loop succeeds exactly when the unchecked value exists and fits the bound, and then returns that value |
| Primitives.FoldSnoc | img-2-anscii-core/src/color.rs:117 | appending a digit multiplies the value by the radix and adds the digit |
| Primitives.FoldToBase | img-2-anscii-core/src/color.rs:159-160 | folding the unpadded digits of `n` gives `n` back |
| Primitives.ParseUnsigned | img-2-anscii-core/src/color.rs:117 | a successful parse is within the bound and the text starts with `+` followed by more text, or with a digit |
| Primitives.PlusPrefix | img-2-anscii-core/src/color.rs:117 | one leading `+` before the digits is accepted and gives the same result as the digits alone |
| Primitives.ZeroPrefix | img-2-anscii-core/src/color.rs:117 | a leading `0` is accepted and gives the same result, value or failure, as the digits after it |
| Primitives.ParseToBase | img-2-anscii-core/src/color.rs:126 | parsing the formatted form of `n` gives `n` when it fits the bound and an overflow failure otherwise |
| Primitives.ToBaseInjective | img-2-anscii-core/src/color.rs:159-160 | different numbers have different unpadded forms |
| Primitives.ToBeBytes | img-2-anscii-core/src/color.rs:128 | a 32-bit value splits into four bytes |
| Primitives.FromBeBytes | img-2-anscii-core/src/color.rs:160 | four bytes join into a value of at most 0xFFFFFFFF |
| Primitives.BeBytesRoundTrip | img-2-anscii-core/src/color.rs:128 | splitting and joining big-endian bytes are inverse in both directions |
| Primitives.JoinSplit | img-2-anscii-core/src/color.rs:128 | helper: joining the bytes of a split value gives the value |
| Primitives.SplitJoin | img-2-anscii-core/src/color.rs:128 | helper: splitting a joined value gives the bytes |
| Primitives.DropTopByte | img-2-anscii-core/src/color.rs:128 | zeroing the top byte leaves the value modulo 2^24 |
| Fmt.Sink.constructor | img-2-anscii-core/src/color.rs:168 | a new buffer is empty |
| Fmt.Sink.WriteStr | img-2-anscii-core/src/color.rs:29 | a write appends its text and keeps what was already written |
| Colors.PaletteIndex | img-2-anscii-core/src/color.rs:202-218 | every named colour has a palette number below 16 |
| Colors.FromPaletteIndex | img-2-anscii-core/src/color.rs:202-219 | a number has a colour exactly when it is below 16, and that colour is named with this palette number |
| Colors.PaletteRoundTrip | img-2-anscii-core/src/color.rs:202-218 | every named colour is found again from its palette number |
| Colors.FgEncoding | img-2-anscii-core/src/color.rs:28-54 | the foreground sequence starts with ESC `[` and ends with `m` |
| Colors.BgEncoding | img-2-anscii-core/src/color.rs:56-82 | the background sequence starts with ESC `[` and ends with `m` |
| Colors.FgParams | img-2-anscii-core/src/color.rs:31-51 | the parameters `fg_fmt` writes between CSI and `m` start with `3` or `9` and are two characters long exactly for the sixteen named colours; `NamedCodes`, `ExtendedCodes`, `ExtendedSelectors` and `ParamsShape` state the rest |
| Colors.BgParams | img-2-anscii-core/src/color.rs:59-79 | the parameters `bg_fmt` writes start with `4` or `1` except for `Reset`, and are at most three characters long exactly for the sixteen named colours; the same lemmas state the rest |
| Colors.FgFmt | img-2-anscii-core/src/color.rs:28-54 | `fg_fmt` appends exactly the foreground sequence and keeps what the sink held |
| Colors.BgFmt | img-2-anscii-core/src/color.rs:56-82 | `bg_fmt` appends exactly the background sequence and keeps what the sink held |
| Colors.DecimalTwoDigits | img-2-anscii-core/src/color.rs:32-47 | a two-digit number is written as its tens digit then its units digit |
| Colors.DecimalThreeDigits | img-2-anscii-core/src/color.rs:68-75 | a three-digit number is written as its hundreds, tens and units digits |
| Colors.NamedCodes | img-2-anscii-core/src/color.rs:28-82 | named colour `i` is foreground 30+i and background 40+i when standard, and 90+(i-8) and 100+(i-8) when bright, in unpadded decimal |
| Colors.ExtendedCodes | img-2-anscii-core/src/color.rs:48-78 | `Reset` is `39;49` from both encoders; palette and 24-bit colours are `38;5;n`/`48;5;n` and `38;2;r;g;b`/`48;2;r;g;b` |
| Colors.PaletteParams | img-2-anscii-core/src/color.rs:49-77 | helper: the palette forms `38;5;n` and `48;5;n` |
| Colors.TrueColorParams | img-2-anscii-core/src/color.rs:50-78 | helper: the 24-bit forms `38;2;r;g;b` and `48;2;r;g;b` share their channel text |
| Colors.TrueColorFg | img-2-anscii-core/src/color.rs:50 | helper: the 24-bit foreground form |
| Colors.TrueColorBg | img-2-anscii-core/src/color.rs:78 | helper: the 24-bit background form |
| Colors.DisplayText | img-2-anscii-core/src/color.rs:139-163 | formatted text is non-empty and has no capitals; it starts with a digit exactly for palette colours and with `#` exactly for 24-bit colours |
| Colors.DisplayFmt | img-2-anscii-core/src/color.rs:139-163 | `Display::fmt` appends exactly the text form |
| Colors.NameLookup | img-2-anscii-core/src/color.rs:92-111 | a recognised name starts with a small letter, is at least three characters long, and never gives a palette or 24-bit colour |
| Colors.HexColor | img-2-anscii-core/src/color.rs:126-131 | the third stage builds a 24-bit colour whose bytes join back into the value's low 24 bits |
| Colors.HexColorLowBits | img-2-anscii-core/src/color.rs:128-130 | the top byte of the parsed value never affects the colour |
| Colors.FromStr | img-2-anscii-core/src/color.rs:88-136 | a palette result is exactly what the `u8` parser gave, and an error means no name matched |
| ColorLaws.DecimalIsParams | img-2-anscii-core/src/color.rs:49-50 | an unpadded decimal is a valid SGR parameter with no separator |
| ColorLaws.JoinParams | img-2-anscii-core/src/color.rs:49-50 | helper: joined parameter strings are parameter strings |
| ColorLaws.ChannelsAreParams | img-2-anscii-core/src/color.rs:50 | `r;g;b` is a valid SGR parameter string |
| ColorLaws.SelectorParams | img-2-anscii-core/src/color.rs:49-50 | helper: an extended selector followed by parameters is a parameter string containing `;` |
| ColorLaws.ExtendedShape | img-2-anscii-core/src/color.rs:48-78 | reset, palette and 24-bit parameters are digits and `;` and contain a `;` |
| ColorLaws.ExtendedSelectors | img-2-anscii-core/src/color.rs:49-78 | for palette and 24-bit colours the background parameters are the foreground ones with the selector's leading `3` replaced by `4` |
| ColorLaws.SwapLead | img-2-anscii-core/src/color.rs:49-78 | helper: replacing the first character of a prefix replaces the first character of the whole text |
| ColorLaws.PaletteShape | img-2-anscii-core/src/color.rs:49-77 | `38;5;n` and `48;5;n` are parameter strings containing `;` |
| ColorLaws.TrueColorShape | img-2-anscii-core/src/color.rs:50-78 | `38;2;r;g;b` and `48;2;r;g;b` are parameter strings containing `;` |
| ColorLaws.ParamsShape | img-2-anscii-core/src/color.rs:28-82 | all parameters are digits and `;`, and contain `;` exactly when the colour is not named |
| ColorLaws.ChannelsInjective | img-2-anscii-core/src/color.rs:50 | `r;g;b` determines r, g and b |
| ColorLaws.DropPrefix | img-2-anscii-core/src/color.rs:49-50 | helper: texts that agree after a common prefix are equal |
| ColorLaws.ExtendedInjective | img-2-anscii-core/src/color.rs:48-78 | reset, palette and 24-bit colours with the same extended parameters are equal |
| ColorLaws.FgParamsInjective | img-2-anscii-core/src/color.rs:31-51 | different colours get different foreground parameters |
| ColorLaws.BgParamsInjective | img-2-anscii-core/src/color.rs:59-79 | different colours get different background parameters |
| ColorLaws.EncodingInjective | img-2-anscii-core/src/color.rs:28-82 | each encoder's control sequence determines the colour |
| ColorLaws.LowercaseIs | img-2-anscii-core/src/color.rs:89 | a character-by-character lowercase match gives the lower-case form |
| ColorLaws.NameStage | img-2-anscii-core/src/color.rs:92-115 | a recognised name decides the parse |
| ColorLaws.HexStage | img-2-anscii-core/src/color.rs:126-135 | when no name and no `u8` matched, a hex value decides the parse |
| ColorLaws.DisplayIsLowercase | img-2-anscii-core/src/color.rs:139-161 | formatted text is unchanged by lowercasing |
| ColorLaws.NamedRoundTrip | img-2-anscii-core/src/color.rs:92-109 | every name the formatter writes is recognised as the same colour |
| ColorLaws.BaseNameLookup | img-2-anscii-core/src/color.rs:93-100 | the eight standard names are recognised |
| ColorLaws.BrightNames | img-2-anscii-core/src/color.rs:101-108 | every bright colour is recognised both under the underscore name the formatter writes and with a space in its place |
| ColorLaws.BrightNameBlack | img-2-anscii-core/src/color.rs:101 | `bright_black` and `bright black` are both recognised as BrightBlack |
| ColorLaws.BrightNameRed | img-2-anscii-core/src/color.rs:102 | `bright_red` and `bright red` are both recognised as BrightRed |
| ColorLaws.BrightNameGreen | img-2-anscii-core/src/color.rs:103 | `bright_green` and `bright green` are both recognised as BrightGreen |
| ColorLaws.BrightNameYellow | img-2-anscii-core/src/color.rs:104 | `bright_yellow` and `bright yellow` are both recognised as BrightYellow |
| ColorLaws.BrightNameBlue | img-2-anscii-core/src/color.rs:105 | `bright_blue` and `bright blue` are both recognised as BrightBlue |
| ColorLaws.BrightNameMagenta | img-2-anscii-core/src/color.rs:106 | `bright_magenta` and `bright magenta` are both recognised as BrightMagenta |
| ColorLaws.BrightNameCyan | img-2-anscii-core/src/color.rs:107 | `bright_cyan` and `bright cyan` are both recognised as BrightCyan |
| ColorLaws.BrightNameWhite | img-2-anscii-core/src/color.rs:108 | `bright_white` and `bright white` are both recognised as BrightWhite |
| ColorLaws.HexText | img-2-anscii-core/src/color.rs:126-133 | `#` plus unpadded hex of any `u32` parses to that value's colour |
| ColorLaws.DisplayRoundTrip | img-2-anscii-core/src/color.rs:88-163 | parsing the formatted text of any colour gives that colour back |
| ColorLaws.DisplayInjective | img-2-anscii-core/src/color.rs:139-163 | different colours are formatted differently |
| ColorLaws.ParseIgnoresCase | img-2-anscii-core/src/color.rs:89 | any spelling whose lower-case form is a colour's text parses to that colour |
| ColorLaws.CaseInsensitive | img-2-anscii-core/src/color.rs:88-136 | any two inputs with the same lower-case form parse to the same result, colour or error |
| ColorLaws.BrightSpacedName | img-2-anscii-core/src/color.rs:101-108 | every bright colour is also accepted as `bright` + space + base name |
| ColorLaws.PurpleAlias | img-2-anscii-core/src/color.rs:98 | `Purple` parses to Magenta |
| ColorLaws.GrayAlias | img-2-anscii-core/src/color.rs:100 | `gray` parses to White |
| ColorLaws.GreyAlias | img-2-anscii-core/src/color.rs:100 | `GREY` parses to White |
| ColorLaws.SpacedSpelling | img-2-anscii-core/src/color.rs:102 | `Bright Red` parses to BrightRed |
| ColorLaws.UpperSpelling | img-2-anscii-core/src/color.rs:107 | `BRIGHT_CYAN` parses to BrightCyan |
| ColorLaws.SpellingOf | img-2-anscii-core/src/color.rs:89-111 | text lowercasing to a name parses to that name's colour |
| ColorLaws.DecimalBeforeHex | img-2-anscii-core/src/color.rs:117-124 | text that reads as a `u8` decimal is always that palette index and never reaches the hex stage |
| ColorLaws.HashGoesToHex | img-2-anscii-core/src/color.rs:126-135 | text starting with `#` is decided by the hex stage alone, as a colour or an error |
| ColorLaws.HexAfterHash | img-2-anscii-core/src/color.rs:126-135 | `#` followed by lower-case text is decided by that text's hex value alone |
| ColorLaws.HexOverflowRejected | img-2-anscii-core/src/color.rs:126-135 | `#` followed by the hex form of a value above 0xFFFFFFFF is rejected |
| ColorLaws.LeadingHashes | img-2-anscii-core/src/color.rs:126 | any number of leading `#` parses like one |
| ColorLaws.HexDropsTopByte | img-2-anscii-core/src/color.rs:126-131 | every `u32` hex value is accepted, and it parses the same as its low 24 bits |
| Mappers.Luma | img-2-anscii-core/src/color.rs:194 | the grey level fits a `u8` and is at most two below the floored mean of the channels |
| Mappers.Quantize16 | img-2-anscii-core/src/color.rs:202-220 | the 16-colour quantiser always picks a named colour whose palette number is the grey level divided by 16 |
| Mappers.MappedColor | img-2-anscii-core/src/color.rs:177-222 | the no-colour mapper picks no colour; true colour keeps r, g and b; the 256-colour mapper picks a palette index; the 16-colour mapper picks a named colour |
| Mappers.MapEncoding | img-2-anscii-core/src/color.rs:176-222 | only the no-colour mapper writes nothing; every other mapper writes one SGR sequence |
| Mappers.MapFmt | img-2-anscii-core/src/color.rs:166-224 | every `map_fmt` succeeds and appends exactly the mapper's sequence, so the error at line 219 is never returned |
| Mappers.Map | img-2-anscii-core/src/color.rs:167-171 | `map` returns exactly what `map_fmt` writes into an empty buffer; the unwrap cannot fail |
| Mappers.BucketInPalette | img-2-anscii-core/src/color.rs:202-219 | the 16-colour bucket is always below 16 and always has a colour |
| Mappers.LumaMonotone | img-2-anscii-core/src/color.rs:194-202 | brightening any channel never lowers the grey level or the bucket |
| Mappers.ThirdsFlooredSeparately | img-2-anscii-core/src/color.rs:194 | (1,1,1) gets grey level 0 although its floored mean is 1 |
| Mappers.Extremes | img-2-anscii-core/src/color.rs:194-218 | black maps to palette 0 and Black; white maps to palette 255 and BrightWhite |
| Mappers.Color16Codes | img-2-anscii-core/src/color.rs:200-222 | bucket `i` is written as foreground code 30+i for i<8 and 90+(i-8) otherwise |
| Mappers.Color256Codes | img-2-anscii-core/src/color.rs:192-195 | the 256-colour mapper writes `38;5;` followed by the grey level |
| Mappers.TrueColorCodes | img-2-anscii-core/src/color.rs:184-187 | the true-colour mapper writes `38;2;r;g;b` from the pixel's channels |
| Mappers.AlphaIgnored | img-2-anscii-core/src/color.rs:185-201 | no mapper's output depends on alpha |
| Mappers.EncodingDeterminesColor | img-2-anscii-core/src/color.rs:176-222 | two pixels get the same text from a mapper exactly when they get the same colour |
| Mappers.TrueColorLossless | img-2-anscii-core/src/color.rs:184-187 | the true-colour text is equal exactly when red, green and blue are equal |
| Mappers.QuantisersKeepGrey | img-2-anscii-core/src/color.rs:192-222 | 256-colour text is equal exactly when the grey levels are equal, 16-colour text exactly when the buckets are equal |
| ParseExamples.SmallDecimal | img-2-anscii-core/src/color.rs:117-118 | `"10"` parses to palette index 10 |
| ParseExamples.PlusDecimal | img-2-anscii-core/src/color.rs:117-118 | `"+10"` parses to palette index 10, since the `u8` parser accepts a leading `+` |
| ParseExamples.OverflowingDecimal | img-2-anscii-core/src/color.rs:117-130 | `"256"` overflows `u8` and parses as hex to TrueColor(0, 0x02, 0x56) |
| ParseExamples.HexWord | img-2-anscii-core/src/color.rs:126-130 | `"bad"` is no name and no decimal, and parses as hex to TrueColor(0, 0x0b, 0xad) |
| ParseExamples.OverflowReachesHex | img-2-anscii-core/src/color.rs:117-130 | `"256"` fails the `u8` stage and reaches the hex stage as 0x256 |
| ParseExamples.BadReachesHex | img-2-anscii-core/src/color.rs:92-130 | `"bad"` reaches the hex stage |
| ParseExamples.BadIsNoName | img-2-anscii-core/src/color.rs:92-111 | `"bad"` is not a name |
| ParseExamples.HexThreeDigits | img-2-anscii-core/src/color.rs:160 | a three-digit hex number is written as its three hex digits |
| ParseExamples.RejectEmpty | img-2-anscii-core/src/color.rs:117-135 | `""` fails every stage |
| ParseExamples.RejectHash | img-2-anscii-core/src/color.rs:126-135 | `"#"` leaves nothing for the hex stage and fails |
| ParseExamples.RejectWord | img-2-anscii-core/src/color.rs:92-135 | `"xyz"` is no name, no decimal and no hex, and fails |
| ParseExamples.XyzIsNoName | img-2-anscii-core/src/color.rs:92-111 | `"xyz"` is not a name |
| ParseExamples.TooLong | img-2-anscii-core/src/color.rs:126-132 | `"#123456789"` overflows `u32` and fails |
| ParseExamples.NineDigitsOverflow | img-2-anscii-core/src/color.rs:126 | `123456789` overflows the `u32` hex parser |
| ParseExamples.NineDigits | img-2-anscii-core/src/color.rs:160 | 0x123456789 is written as `123456789` |

## Left out

- Failures of the `fmt::Write` sink. Sinks are modelled as infallible buffers that only grow. So the `?` propagation in `fg_fmt` and `bg_fmt` has nothing to propagate, and `Display::fmt` returns the writer's result, which is always success. The only failure modelled is the defensive `Err` of the 16-colour mapper, which is proved unreachable.
- Colors.FromStr: the error carries no text. The code sets a "not a valid color" message naming the input (line 90), but every path that reaches the error overwrites it with the debug text of the integer parser's error (lines 119 and 132). So a failed parse reports that debug text, not the `'<input>' is not a valid color` message built at line 90. The model follows the code in which inputs fail. It does not model the text of `ParseIntError`, which belongs to the standard library.
- Primitives.Lowercase: lowercases ASCII letters only. Rust's `to_lowercase` is full Unicode lowercasing, so a non-ASCII capital is left unchanged here. This can change parse results: Unicode maps U+212A KELVIN SIGN to ASCII `k`, so `"blac\u{212A}"` parses to Black in the source but to an error in the model.
- `String::with_capacity(10)` in `map`: capacity is an allocation hint and does not affect the result.
- The `ColorMapper` trait and its generic writer are modelled as a `Mapper` datatype with one case per implementing struct, plus methods that dispatch on it.
- The writer `W` of `fg_fmt`, `bg_fmt` and `map_fmt` (lines 28, 56 and 166) is taken by value. The model's `Sink` is a shared object, which matches a `&mut` writer such as the `&mut buf` of line 169. An owned writer passed by value would drop what was written, and the model does not capture that case.
- The derived `Debug`, `Copy`, `Clone`, `Eq` and `PartialEq` of `Color` are not modelled separately; Dafny datatype equality stands for `PartialEq`.
- `img-2-anscii-core/src/image.rs`, `img-2-anscii-core/src/lib.rs` and `img-2-anscii/src/main.rs` are not part of this model. They load images through an external crate and print to standard output, which is I/O.
