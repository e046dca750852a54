/** Worked inputs of the text parser that show the order of its stages. */
module ParseExamples {
  import opened Primitives
  import opened Colors
  import opened ColorLaws

  lemma HexThreeDigits(n: nat)
    requires 0x100 <= n < 0x1000
    ensures LowerHex(n) == [DigitChar(n / 0x100), DigitChar(n / 0x10 % 0x10), DigitChar(n % 0x10)]
  {
    assert ToBase(n / 0x100, 16) == [DigitChar(n / 0x100)];
    assert ToBase(n / 0x10, 16) == ToBase(n / 0x100, 16) + [DigitChar(n / 0x10 % 0x10)];
  }

  /** A small decimal is a palette index. */
  lemma SmallDecimal()
    ensures FromStr("10") == Ok(Color256(10))
  {
    DecimalTwoDigits(10);
    assert Decimal(10) == "10";
    ParseToBase(10, 10, U8_MAX);
    LowercaseIs("10", "10");
    DecimalBeforeHex("10", 10);
  }

  /** A leading `+` is accepted by the `u8` parser. */
  lemma PlusDecimal()
    ensures FromStr("+10") == Ok(Color256(10))
  {
    DecimalTwoDigits(10);
    assert Decimal(10) == "10";
    ParseToBase(10, 10, U8_MAX);
    PlusPrefix("10", 10, U8_MAX);
    assert "+" + "10" == "+10";
    LowercaseIs("+10", "+10");
    DecimalBeforeHex("+10", 10);
  }

  /** A decimal too large for `u8` falls through to the hexadecimal stage,
      where the same digits read as 0x256. */
  lemma OverflowingDecimal()
    ensures FromStr("256") == Ok(TrueColor(0, 0x02, 0x56))
  {
    OverflowReachesHex();
    assert HexColor(0x256) == TrueColor(0, 0x02, 0x56);
  }

  lemma OverflowReachesHex()
    ensures FromStr("256") == Ok(HexColor(0x256))
  {
    DecimalThreeDigits(256);
    assert Decimal(256) == "256";
    ParseToBase(256, 10, U8_MAX);
    HexThreeDigits(0x256);
    assert LowerHex(0x256) == "256";
    ParseToBase(0x256, 16, U32_MAX);
    LowercaseIs("256", "256");
    assert NameLookup("256").None?;
    assert TrimStartMatches("256", '#') == "256";
    HexStage("256", 0x256);
  }

  /** A word made of hexadecimal letters that is not a name is a colour. */
  lemma HexWord()
    ensures FromStr("bad") == Ok(TrueColor(0, 0x0b, 0xad))
  {
    BadReachesHex();
    assert HexColor(0xbad) == TrueColor(0, 0x0b, 0xad);
  }

  lemma BadReachesHex()
    ensures FromStr("bad") == Ok(HexColor(0xbad))
  {
    HexThreeDigits(0xbad);
    assert LowerHex(0xbad) == "bad";
    ParseToBase(0xbad, 16, U32_MAX);
    LowercaseIs("bad", "bad");
    BadIsNoName();
    assert DigitValue('b', 10).None?;
    assert TrimStartMatches("bad", '#') == "bad";
    HexStage("bad", 0xbad);
  }

  lemma BadIsNoName()
    ensures NameLookup("bad").None?
  {
    assert "bad" != "black" && "bad" != "blue";
  }

  /** Empty text fails every stage. */
  lemma RejectEmpty()
    ensures FromStr("") == Err
  {
    assert Lowercase("") == "";
    assert TrimStartMatches("", '#') == "";
  }

  /** A lone `#` leaves nothing for the hexadecimal stage. */
  lemma RejectHash()
    ensures FromStr("#") == Err
  {
    LowercaseIs("#", "#");
    TrimRun("#", '#', "");
    assert "#" + "" == "#";
    HashGoesToHex("#");
  }

  /** A word that is no name and not hexadecimal fails every stage. */
  lemma RejectWord()
    ensures FromStr("xyz") == Err
  {
    LowercaseIs("xyz", "xyz");
    XyzIsNoName();
    assert DigitValue('x', 10).None? && DigitValue('x', 16).None?;
    assert TrimStartMatches("xyz", '#') == "xyz";
  }

  lemma XyzIsNoName()
    ensures NameLookup("xyz").None?
  {
  }

  /** Nine hexadecimal digits overflow `u32`, so the third stage fails too. */
  lemma TooLong()
    ensures FromStr("#123456789") == Err
  {
    HexOverflowRejected(0x123456789);
    NineDigits();
  }

  /** The nine digits on their own are rejected by the `u32` hex parser. */
  lemma NineDigitsOverflow()
    ensures ParseUnsigned("123456789", 16, U32_MAX).None?
  {
    NineDigits();
    ParseToBase(0x123456789, 16, U32_MAX);
  }

  lemma NineDigits()
    ensures LowerHex(0x123456789) == "123456789"
  {
    assert LowerHex(0x1) == "1";
    assert LowerHex(0x12) == "12";
    assert LowerHex(0x123) == "123";
    assert LowerHex(0x1234) == "1234";
    assert LowerHex(0x12345) == "12345";
    assert LowerHex(0x123456) == "123456";
    assert LowerHex(0x1234567) == "1234567";
    assert LowerHex(0x12345678) == "12345678";
  }
}
