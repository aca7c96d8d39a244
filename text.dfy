/**
 * The text forms the signer reads and writes: decimal integers (Python's
 * `int(s)` and `str(n)`), hexadecimal byte strings (parsed in either case,
 * rendered lower-case as by `bytes.hex()`), and ASCII lower-casing.
 */
module Text {
  import opened Results
  import opened Bytes

  // ---------------------------------------------------------------- decimal

  predicate IsDigit(c: char) { '0' <= c <= '9' }

  /** One or more decimal digits and nothing else. */
  predicate IsNumeral(s: string) {
    |s| > 0 && forall i :: 0 <= i < |s| ==> IsDigit(s[i])
  }

  function DigitChar(d: nat): (c: char)
    requires d < 10
    ensures IsDigit(c)
  {
    ('0' as int + d) as char
  }

  function DigitValue(c: char): (d: nat)
    requires IsDigit(c)
    ensures d < 10
  {
    c as int - '0' as int
  }

  /** The base-10 value of a digit string (leading zeros allowed). */
  function DigitsValue(s: string): nat
    requires forall i :: 0 <= i < |s| ==> IsDigit(s[i])
  {
    if s == [] then 0 else DigitsValue(s[..|s| - 1]) * 10 + DigitValue(s[|s| - 1])
  }

  /**
   * Python's limit on the digits `int()` converts from a decimal string
   * (`sys.int_info.default_max_str_digits`); longer numerals raise `ValueError`.
   */
  const INT_MAX_STR_DIGITS: nat := 4300

  /**
   * Python's `int(s)` on a decimal literal: an optional leading '-' and
   * one to `INT_MAX_STR_DIGITS` digits; anything else has no value
   * (`ValueError`).
   */
  function ParseInt(s: string): (r: Option<int>)
    ensures r.Some? ==> 0 < |s| && (r.value < 0 ==> s[0] == '-') && (s[0] != '-' ==> r.value >= 0)
    ensures r.Some? ==> |s| <= INT_MAX_STR_DIGITS + (if s[0] == '-' then 1 else 0)
  {
    var negative := |s| > 0 && s[0] == '-';
    var digits := if negative then s[1..] else s;
    if !IsNumeral(digits) || |digits| > INT_MAX_STR_DIGITS then None
    else
      var v: int := DigitsValue(digits);
      Some(if negative then -v else v)
  }

  /** A numeral longer than the digit limit is rejected, with or without a sign. */
  lemma ParseIntDigitLimit(s: string)
    requires IsNumeral(s) && |s| > INT_MAX_STR_DIGITS
    ensures ParseInt(s) == None && ParseInt("-" + s) == None
  {
    assert ("-" + s)[1..] == s;
  }

  /** Python's `str(n)` for n >= 0: the shortest decimal numeral of n. */
  function DecimalString(n: nat): (r: string)
    ensures IsNumeral(r)
    ensures r[0] == '0' ==> r == "0"
    decreases n
  {
    if n < 10 then [DigitChar(n)] else DecimalString(n / 10) + [DigitChar(n % 10)]
  }

  /** Reading the digits of `str(n)` gives back n. */
  lemma {:induction false} DigitsOfDecimalString(n: nat)
    ensures DigitsValue(DecimalString(n)) == n
    decreases n
  {
    if n >= 10 {
      var s := DecimalString(n);
      assert s[..|s| - 1] == DecimalString(n / 10);
      DigitsOfDecimalString(n / 10);
    }
  }

  /** The absolute value of v. */
  function Magnitude(v: int): nat {
    if v < 0 then -v else v
  }

  /** z zero digits. */
  function ZeroText(z: nat): (r: string)
    ensures |r| == z && forall i :: 0 <= i < z ==> r[i] == '0'
  {
    seq(z, _ => '0')
  }

  /** Zero digits in front of a digit string do not change its value. */
  lemma {:induction false} LeadingZeroValue(z: nat, t: string)
    requires forall i :: 0 <= i < |t| ==> IsDigit(t[i])
    ensures DigitsValue(ZeroText(z) + t) == DigitsValue(t)
    decreases |t| + z
  {
    var s := ZeroText(z) + t;
    if t == [] {
      if z > 0 {
        assert s[..|s| - 1] == ZeroText(z - 1) + [];
        LeadingZeroValue(z - 1, []);
      }
    } else {
      assert s[..|s| - 1] == ZeroText(z) + t[..|t| - 1];
      LeadingZeroValue(z, t[..|t| - 1]);
    }
  }

  /** A numeral that does not start with '0' has a positive value. */
  lemma {:induction false} PositiveValue(s: string)
    requires IsNumeral(s) && s[0] != '0'
    ensures DigitsValue(s) > 0
    decreases |s|
  {
    if |s| > 1 {
      PositiveValue(s[..|s| - 1]);
    }
  }

  /** A numeral with no leading zero (other than "0" itself) is `str` of its value. */
  lemma {:induction false} CanonicalNumeral(s: string)
    requires IsNumeral(s) && (s[0] == '0' ==> s == "0")
    ensures DecimalString(DigitsValue(s)) == s
    decreases |s|
  {
    if |s| > 1 {
      var p := s[..|s| - 1];
      PositiveValue(p);
      CanonicalNumeral(p);
      assert DigitChar(DigitValue(s[|s| - 1])) == s[|s| - 1];
      assert s == p + [s[|s| - 1]];
    }
  }

  /** Every numeral is some number of zeros followed by `str` of its value. */
  lemma {:induction false} NumeralRendering(s: string) returns (z: nat)
    requires IsNumeral(s)
    ensures s == ZeroText(z) + DecimalString(DigitsValue(s))
    decreases |s|
  {
    if s[0] == '0' && |s| > 1 {
      var rest := s[1..];
      var z' := NumeralRendering(rest);
      assert s == ZeroText(1) + rest;
      LeadingZeroValue(1, rest);
      z := z' + 1;
      assert ZeroText(z) == ZeroText(1) + ZeroText(z');
    } else {
      CanonicalNumeral(s);
      z := 0;
    }
  }

  /**
   * The converse of `ParsePaddedDecimal`: a string `int()` accepts is an
   * optional '-', some zeros and `str` of the magnitude of its value.
   */
  lemma ParseIntRendering(s: string)
    requires ParseInt(s).Some?
    ensures var v := ParseInt(s).value;
      exists z: nat :: s == (if s[0] == '-' then "-" else "") + ZeroText(z) + DecimalString(Magnitude(v))
  {
    var v := ParseInt(s).value;
    if s[0] == '-' {
      var digits := s[1..];
      var z := NumeralRendering(digits);
      assert Magnitude(v) == DigitsValue(digits);
      assert s == "-" + digits;
      assert s == (if s[0] == '-' then "-" else "") + ZeroText(z) + DecimalString(Magnitude(v));
    } else {
      var z := NumeralRendering(s);
      assert Magnitude(v) == DigitsValue(s);
      assert s == (if s[0] == '-' then "-" else "") + ZeroText(z) + DecimalString(Magnitude(v));
    }
  }

  /**
   * `int()` of some zeros followed by `str(n)`, with or without '-', is n or
   * -n, within the digit limit.
   */
  lemma ParsePaddedDecimal(z: nat, n: nat)
    requires z + |DecimalString(n)| <= INT_MAX_STR_DIGITS
    ensures ParseInt(ZeroText(z) + DecimalString(n)) == Some(n)
    ensures ParseInt("-" + ZeroText(z) + DecimalString(n)) == Some(-(n as int))
  {
    var t := ZeroText(z) + DecimalString(n);
    DigitsOfDecimalString(n);
    LeadingZeroValue(z, DecimalString(n));
    assert IsNumeral(t);
    assert ("-" + t)[1..] == t;
    assert "-" + ZeroText(z) + DecimalString(n) == "-" + t;
  }

  /** `int(str(n)) == n` and `int("-" + str(n)) == -n`, within the digit limit. */
  lemma ParseDecimalString(n: nat)
    requires |DecimalString(n)| <= INT_MAX_STR_DIGITS
    ensures ParseInt(DecimalString(n)) == Some(n)
    ensures ParseInt("-" + DecimalString(n)) == Some(-(n as int))
  {
    DigitsOfDecimalString(n);
    assert ("-" + DecimalString(n))[1..] == DecimalString(n);
  }

  // ------------------------------------------------------------ hexadecimal

  predicate IsHexDigit(c: char) {
    '0' <= c <= '9' || 'a' <= c <= 'f' || 'A' <= c <= 'F'
  }

  function HexValue(c: char): (d: nat)
    requires IsHexDigit(c)
    ensures d < 16
  {
    if c <= '9' then c as int - '0' as int
    else if c <= 'F' then c as int - 'A' as int + 10
    else c as int - 'a' as int + 10
  }

  /** The lower-case hex digit of d. */
  function HexChar(d: nat): (c: char)
    requires d < 16
    ensures IsHexDigit(c) && HexValue(c) == d
    ensures !('A' <= c <= 'Z')
  {
    if d < 10 then ('0' as int + d) as char else ('a' as int + d - 10) as char
  }

  /** The bytes spelled by pairs of hex digits of either case; None if s is not such a string. */
  function ParseHex(s: string): (r: Option<seq<Byte>>)
    ensures r.Some? ==> |s| == 2 * |r.value|
  {
    if s == [] then Some([])
    else if |s| < 2 || !IsHexDigit(s[0]) || !IsHexDigit(s[1]) then None
    else
      match ParseHex(s[2..])
      case None => None
      case Some(rest) => Some([HexValue(s[0]) * 16 + HexValue(s[1])] + rest)
  }

  /** `bytes.hex()`: two lower-case hex digits per byte, no prefix. */
  function ToHex(b: seq<Byte>): (r: string)
    ensures |r| == 2 * |b|
    ensures forall i :: 0 <= i < |r| ==> IsHexDigit(r[i]) && !('A' <= r[i] <= 'Z')
  {
    if b == [] then "" else [HexChar(b[0] / 16), HexChar(b[0] % 16)] + ToHex(b[1..])
  }

  /** Parsing the rendering of a byte string gives back that byte string. */
  lemma {:induction false} ParseToHex(b: seq<Byte>)
    ensures ParseHex(ToHex(b)) == Some(b)
  {
    if b != [] {
      var s := ToHex(b);
      assert s[2..] == ToHex(b[1..]);
      ParseToHex(b[1..]);
      assert [b[0]] + b[1..] == b;
    }
  }

  // ------------------------------------------------------------ letter case

  /** ASCII lower-casing of one character. */
  function LowerChar(c: char): char {
    if 'A' <= c <= 'Z' then (c as int - 'A' as int + 'a' as int) as char else c
  }

  function Lower(s: string): string {
    seq(|s|, i requires 0 <= i < |s| => LowerChar(s[i]))
  }

  /** Hex parsing reads `A`-`F` exactly as `a`-`f`. */
  lemma {:induction false} ParseHexLower(s: string)
    ensures ParseHex(Lower(s)) == ParseHex(s)
  {
    if |s| >= 2 {
      assert Lower(s)[2..] == Lower(s[2..]);
      ParseHexLower(s[2..]);
    }
  }

  /** Two strings that differ only in letter case spell the same bytes. */
  lemma ParseHexCaseInsensitive(s: string, t: string)
    requires Lower(s) == Lower(t)
    ensures ParseHex(s) == ParseHex(t)
  {
    ParseHexLower(s);
    ParseHexLower(t);
  }

  /** The lower-case digit of a hex digit's value is that digit lower-cased. */
  lemma HexCharOfValue(c: char)
    requires IsHexDigit(c)
    ensures HexChar(HexValue(c)) == LowerChar(c)
  {
  }

  /**
   * The converse of `ParseToHex`: a string that parses is, up to letter
   * case, the rendering of its bytes. So every string that is not an even
   * number of hex digits is rejected.
   */
  lemma {:induction false} ParseHexRendering(s: string)
    requires ParseHex(s).Some?
    ensures Lower(s) == ToHex(ParseHex(s).value)
  {
    if s != [] {
      var b := ParseHex(s).value;
      var hi, lo := HexValue(s[0]), HexValue(s[1]);
      assert b[0] == hi * 16 + lo && b[1..] == ParseHex(s[2..]).value;
      assert b[0] / 16 == hi && b[0] % 16 == lo;
      HexCharOfValue(s[0]);
      HexCharOfValue(s[1]);
      ParseHexRendering(s[2..]);
      assert Lower(s) == [LowerChar(s[0]), LowerChar(s[1])] + Lower(s[2..]);
    }
  }
}
