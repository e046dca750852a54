/** Models of the pieces of Rust's standard library that the colour codec
    relies on: the `u8`/`u32` value ranges, ASCII lowercasing, `trim_start_matches`,
    unpadded decimal (`{}`) and lowercase hexadecimal (`{:x}`) formatting,
    the integer parsers `u8::from_str` and `u32::from_str_radix`, and the
    big-endian byte split `to_be_bytes` / `from_be_bytes`. */
module Primitives {

  /** An unsigned 8-bit integer (`u8`). */
  type Byte = x: int | 0 <= x < 0x100

  const U8_MAX: nat := 0xFF
  const U32_MAX: nat := 0xFFFF_FFFF

  datatype Option<+T> = None | Some(value: T)

  // ---------------------------------------------------------------------
  // Characters and strings
  // ---------------------------------------------------------------------

  predicate IsAsciiUpper(c: char) { 'A' <= c <= 'Z' }

  predicate IsAsciiLower(c: char) { 'a' <= c <= 'z' }

  /** `char::to_ascii_lowercase`. */
  function LowerChar(c: char): (l: char)
    ensures !IsAsciiUpper(l)
    ensures IsAsciiUpper(c) ==> IsAsciiLower(l) && l as int == c as int + 32
    ensures !IsAsciiUpper(c) ==> l == c
  {
    if IsAsciiUpper(c) then (c as int + 32) as char else c
  }

  /** `str::to_lowercase`, restricted to ASCII letters. */
  function Lowercase(s: string): (r: string)
    ensures |r| == |s|
    ensures forall i :: 0 <= i < |s| ==> r[i] == LowerChar(s[i])
    decreases |s|
  {
    if s == [] then [] else [LowerChar(s[0])] + Lowercase(s[1..])
  }

  /** A string with no upper-case ASCII letter is its own lower-case form,
      and lowercasing twice is lowercasing once. */
  lemma LowercaseFixed(s: string)
    ensures (forall i :: 0 <= i < |s| ==> !IsAsciiUpper(s[i])) ==> Lowercase(s) == s
    ensures Lowercase(Lowercase(s)) == Lowercase(s)
  {
  }

  /** Lowercasing works character by character, so it distributes over concatenation. */
  lemma LowercaseAppend(a: string, b: string)
    ensures Lowercase(a + b) == Lowercase(a) + Lowercase(b)
  {
    var l, r := Lowercase(a + b), Lowercase(a) + Lowercase(b);
    assert |l| == |r|;
    forall i | 0 <= i < |l| ensures l[i] == r[i] {
      if i < |a| {
        assert (a + b)[i] == a[i];
      } else {
        assert (a + b)[i] == b[i - |a|];
      }
    }
  }

  /** `str::trim_start_matches(c)`: drops every leading `c`, not just one. */
  function TrimStartMatches(s: string, c: char): (r: string)
    ensures |r| <= |s| && r == s[|s| - |r|..]
    ensures forall i :: 0 <= i < |s| - |r| ==> s[i] == c
    ensures r == [] || r[0] != c
    decreases |s|
  {
    if s != [] && s[0] == c then TrimStartMatches(s[1..], c) else s
  }

  /** Trimming a run of `c` in front of a string that does not itself start
      with `c` gives back that string, however long the run is. */
  lemma {:induction false} TrimRun(run: string, c: char, t: string)
    requires forall i :: 0 <= i < |run| ==> run[i] == c
    requires t == [] || t[0] != c
    ensures TrimStartMatches(run + t, c) == t
    decreases |run|
  {
    if run == [] {
      assert run + t == t;
    } else {
      assert (run + t)[0] == c;
      assert (run + t)[1..] == run[1..] + t;
      TrimRun(run[1..], c, t);
    }
  }

  /** A separator that occurs in neither head splits a joined string
      uniquely. */
  lemma SplitAtSeparator(a: string, x: string, b: string, y: string, sep: char)
    requires sep !in a && sep !in b
    requires a + [sep] + x == b + [sep] + y
    ensures a == b && x == y
  {
    var s := a + [sep] + x;
    var k := if |a| < |b| then |a| else |b|;
    assert s[k] == (a + [sep] + x)[k] == (b + [sep] + y)[k];
    assert (s[k] == sep) == (k == |a|);
    assert (s[k] == sep) == (k == |b|);
    assert a == s[..|a|] == b;
    assert x == s[|a| + 1..] == y;
  }

  // ---------------------------------------------------------------------
  // Digits
  // ---------------------------------------------------------------------

  /** `char::to_digit(radix)`: decimal digits, then letters of either case
      standing for 10 and up, accepted only below the radix. */
  function DigitValue(c: char, radix: nat): (d: Option<nat>)
    requires 2 <= radix <= 36
    ensures d.Some? ==> d.value < radix
    ensures d.Some? ==> '0' <= c <= '9' || IsAsciiLower(c) || IsAsciiUpper(c)
  {
    var v :=
      if '0' <= c <= '9' then c as int - '0' as int
      else if IsAsciiLower(c) then c as int - 'a' as int + 10
      else if IsAsciiUpper(c) then c as int - 'A' as int + 10
      else radix;
    if v < radix then Some(v) else None
  }

  /** The digit character the integer formatters emit: lower-case for hex. */
  function DigitChar(d: nat): (c: char)
    requires d < 16
    ensures '0' <= c <= '9' || 'a' <= c <= 'f'
    ensures DigitValue(c, 16) == Some(d)
    ensures d < 10 ==> DigitValue(c, 10) == Some(d)
  {
    if d < 10 then ('0' as int + d) as char else ('a' as int + d - 10) as char
  }

  predicate IsFormatDigit(c: char) { '0' <= c <= '9' || 'a' <= c <= 'f' }

  /** Unpadded formatting of `n` in `radix` (2..16), as `{}` does for
      radix 10 and `{:x}` for radix 16. */
  function ToBase(n: nat, radix: nat): (s: string)
    requires 2 <= radix <= 16
    ensures 1 <= |s|
    ensures forall i :: 0 <= i < |s| ==> IsFormatDigit(s[i]) && DigitValue(s[i], radix).Some?
    ensures (s[0] == '0') <==> (n == 0)
    ensures (|s| == 1) <==> (n < radix)
    decreases n
  {
    if n < radix then [DigitChar(n)]
    else
      DivStep(n, radix);
      ToBase(n / radix, radix) + [DigitChar(n % radix)]
  }

  lemma DivStep(n: nat, radix: nat)
    requires 2 <= radix <= n
    ensures 1 <= n / radix < n
    ensures n % radix < radix
    ensures n == n / radix * radix + n % radix
  {
  }

  /** `{}` on an unsigned integer. */
  function Decimal(n: nat): (s: string)
    ensures 1 <= |s|
    ensures forall i :: 0 <= i < |s| ==> '0' <= s[i] <= '9'
  {
    ToBase(n, 10)
  }

  /** `{:x}` on an unsigned integer. */
  function LowerHex(n: nat): (s: string)
    ensures 1 <= |s|
    ensures forall i :: 0 <= i < |s| ==> IsFormatDigit(s[i])
  {
    ToBase(n, 16)
  }

  // ---------------------------------------------------------------------
  // Integer parsing
  // ---------------------------------------------------------------------

  /** The digit loop of `from_str_radix`: left to right, each step either
      rejects an invalid digit or multiplies and adds with overflow checks
      against `max`. */
  function CheckedFold(acc: nat, digits: string, radix: nat, max: nat): (r: Option<nat>)
    requires 2 <= radix <= 36
    requires acc <= max
    ensures r.Some? ==> acc <= r.value <= max
    decreases |digits|
  {
    if digits == [] then Some(acc)
    else match DigitValue(digits[0], radix)
      case None => None
      case Some(d) =>
        var next := acc * radix + d;
        MulGrows(acc, radix);
        if next > max then None
        else CheckedFold(next, digits[1..], radix, max)
  }

  /** The value of a digit string with no bound: the reference meaning of
      the checked loop above. */
  function Fold(acc: nat, digits: string, radix: nat): (r: Option<nat>)
    requires 2 <= radix <= 36
    decreases |digits|
  {
    if digits == [] then Some(acc)
    else match DigitValue(digits[0], radix)
      case None => None
      case Some(d) => Fold(acc * radix + d, digits[1..], radix)
  }

  lemma MulGrows(a: nat, b: nat)
    requires 1 <= b
    ensures a <= a * b
  {
  }

  lemma {:induction false} FoldGrows(acc: nat, digits: string, radix: nat)
    requires 2 <= radix <= 36
    ensures Fold(acc, digits, radix).Some? ==> Fold(acc, digits, radix).value >= acc
    decreases |digits|
  {
    if digits != [] {
      var d := DigitValue(digits[0], radix);
      if d.Some? {
        var next := acc * radix + d.value;
        MulGrows(acc, radix);
        FoldGrows(next, digits[1..], radix);
      }
    }
  }

  /** Checking for overflow at every step fails exactly when some digit is
      invalid or the full value exceeds `max`. */
  lemma {:induction false} CheckedFoldSpec(acc: nat, digits: string, radix: nat, max: nat)
    requires 2 <= radix <= 36
    requires acc <= max
    ensures CheckedFold(acc, digits, radix, max) ==
      match Fold(acc, digits, radix)
      case Some(v) => if v <= max then Some(v) else None
      case None => None
    decreases |digits|
  {
    if digits != [] {
      var d := DigitValue(digits[0], radix);
      if d.Some? {
        var next := acc * radix + d.value;
        if next > max {
          FoldGrows(next, digits[1..], radix);
        } else {
          CheckedFoldSpec(next, digits[1..], radix, max);
        }
      }
    }
  }

  /** Appending one digit multiplies by the radix and adds it. */
  lemma {:induction false} FoldSnoc(acc: nat, digits: string, c: char, radix: nat)
    requires 2 <= radix <= 36
    ensures Fold(acc, digits + [c], radix) ==
      match (Fold(acc, digits, radix), DigitValue(c, radix))
      case (Some(v), Some(d)) => Some(v * radix + d)
      case _ => None
    decreases |digits|
  {
    if digits == [] {
      assert digits + [c] == [c];
      assert [c][1..] == [];
    } else {
      assert (digits + [c])[0] == digits[0];
      assert (digits + [c])[1..] == digits[1..] + [c];
      var d := DigitValue(digits[0], radix);
      if d.Some? {
        FoldSnoc(acc * radix + d.value, digits[1..], c, radix);
      }
    }
  }

  /** Reading back what `ToBase` wrote gives the number. */
  lemma {:induction false} FoldToBase(n: nat, radix: nat)
    requires 2 <= radix <= 16
    ensures Fold(0, ToBase(n, radix), radix) == Some(n)
    decreases n
  {
    if n < radix {
      assert ToBase(n, radix)[1..] == [];
    } else {
      var q, d := n / radix, n % radix;
      DivStep(n, radix);
      FoldToBase(q, radix);
      FoldSnoc(0, ToBase(q, radix), DigitChar(d), radix);
      assert DigitValue(DigitChar(d), radix) == Some(d);
      assert ToBase(n, radix) == ToBase(q, radix) + [DigitChar(d)];
      assert q * radix + d == n;
    }
  }

  /** `u8::from_str` (radix 10, max 255) and `u32::from_str_radix` (max
      0xFFFFFFFF): rejects the empty string and a lone `+`, accepts one
      optional leading `+` and leading zeros, rejects any other character
      and any value above `max`. */
  function ParseUnsigned(s: string, radix: nat, max: nat): (r: Option<nat>)
    requires 2 <= radix <= 36
    ensures r.Some? ==> r.value <= max
    ensures r.Some? ==> (2 <= |s| && s[0] == '+') || (1 <= |s| && DigitValue(s[0], radix).Some?)
  {
    if s == [] then None
    else
      var digits := if s[0] == '+' then s[1..] else s;
      if digits == [] then None
      else CheckedFold(0, digits, radix, max)
  }

  /** One leading `+` is accepted and changes nothing, as long as digits
      follow it (a second sign is not). */
  lemma PlusPrefix(t: string, radix: nat, max: nat)
    requires 2 <= radix <= 36
    requires t != [] && t[0] != '+'
    ensures ParseUnsigned("+" + t, radix, max) == ParseUnsigned(t, radix, max)
  {
    assert ("+" + t)[1..] == t;
  }

  /** Leading zeros are accepted and do not change the value. */
  lemma ZeroPrefix(t: string, radix: nat, max: nat)
    requires 2 <= radix <= 36
    requires t != [] && t[0] != '+'
    ensures ParseUnsigned("0" + t, radix, max) == ParseUnsigned(t, radix, max)
  {
    assert ("0" + t)[1..] == t;
    assert DigitValue('0', radix) == Some(0);
  }

  /** Formatting then parsing gives the number back when it fits the
      parser's bound, and an overflow failure when it does not. */
  lemma ParseToBase(n: nat, radix: nat, max: nat)
    requires 2 <= radix <= 16
    ensures ParseUnsigned(ToBase(n, radix), radix, max) == if n <= max then Some(n) else None
  {
    var s := ToBase(n, radix);
    assert s[0] != '+';
    FoldToBase(n, radix);
    CheckedFoldSpec(0, s, radix, max);
  }

  /** Unpadded formatting is one-to-one. */
  lemma ToBaseInjective(m: nat, n: nat, radix: nat)
    requires 2 <= radix <= 16
    ensures ToBase(m, radix) == ToBase(n, radix) ==> m == n
  {
    FoldToBase(m, radix);
    FoldToBase(n, radix);
  }

  // ---------------------------------------------------------------------
  // Big-endian bytes
  // ---------------------------------------------------------------------

  /** `u32::to_be_bytes`. */
  function ToBeBytes(v: nat): (bs: seq<Byte>)
    requires v <= U32_MAX
    ensures |bs| == 4
  {
    [v / 0x100_0000, (v / 0x1_0000) % 0x100, (v / 0x100) % 0x100, v % 0x100]
  }

  /** `u32::from_be_bytes`. */
  function FromBeBytes(bs: seq<Byte>): (v: nat)
    requires |bs| == 4
    ensures v <= U32_MAX
  {
    bs[0] as int * 0x100_0000 + bs[1] as int * 0x1_0000 + bs[2] as int * 0x100 + bs[3]
  }

  /** Splitting a 32-bit value into bytes and joining them back are inverse. */
  lemma BeBytesRoundTrip(v: nat, bs: seq<Byte>)
    requires v <= U32_MAX && |bs| == 4
    ensures FromBeBytes(ToBeBytes(v)) == v
    ensures ToBeBytes(FromBeBytes(bs)) == bs
  {
    JoinSplit(v);
    SplitJoin(bs);
  }

  lemma JoinSplit(v: nat)
    requires v <= U32_MAX
    ensures FromBeBytes(ToBeBytes(v)) == v
  {
    var a := v / 0x100;
    var b := a / 0x100;
    assert v == a * 0x100 + v % 0x100;
    assert a == b * 0x100 + a % 0x100;
    assert b == b / 0x100 * 0x100 + b % 0x100;
    assert v / 0x1_0000 == b;
    assert v / 0x100_0000 == b / 0x100;
    assert (v / 0x1_0000) % 0x100 == b % 0x100;
  }

  lemma SplitJoin(bs: seq<Byte>)
    requires |bs| == 4
    ensures ToBeBytes(FromBeBytes(bs)) == bs
  {
    var w := FromBeBytes(bs);
    assert w / 0x100 == bs[0] as int * 0x1_0000 + bs[1] as int * 0x100 + bs[2];
    assert w / 0x1_0000 == bs[0] as int * 0x100 + bs[1];
    assert w / 0x100_0000 == bs[0];
  }

  /** Clearing the top byte of a 32-bit value keeps its low 24 bits. */
  lemma DropTopByte(v: nat)
    requires v <= U32_MAX
    ensures var bs := ToBeBytes(v); FromBeBytes([0, bs[1], bs[2], bs[3]]) == v % 0x100_0000
  {
    var bs := ToBeBytes(v);
    BeBytesRoundTrip(v, bs);
    var low := FromBeBytes([0, bs[1], bs[2], bs[3]]);
    assert low < 0x100_0000;
    assert v == bs[0] as int * 0x100_0000 + low;
  }
}
