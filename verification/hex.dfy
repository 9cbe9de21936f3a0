/**
 * `int.TryParse(s, NumberStyles.HexNumber, CultureInfo.InvariantCulture, out v)`:
 * optional leading and trailing white space, at least one hex digit of either
 * case, no sign and no `0x` prefix, trailing NUL characters tolerated; at most
 * eight significant digits, read as a 32-bit two's-complement value.
 */
module HexNumber {
  import opened Wrappers

  const TwoTo31: int := 0x8000_0000
  const TwoTo32: int := 0x1_0000_0000

  /** The white space number parsing skips: U+0009..U+000D and U+0020. */
  predicate IsNumberWhite(c: char) {
    c == ' ' || '\t' <= c <= '\r'
  }

  predicate IsHexDigit(c: char) {
    '0' <= c <= '9' || 'a' <= c <= 'f' || 'A' <= c <= 'F'
  }

  function DigitValue(c: char): (d: nat)
    requires IsHexDigit(c)
    ensures d < 16
  {
    if '0' <= c <= '9' then c as int - '0' as int
    else if 'a' <= c <= 'f' then c as int - 'a' as int + 10
    else c as int - 'A' as int + 10
  }

  /** Length of the longest prefix of number white space. */
  function WhiteSpan(s: string): (n: nat)
    ensures n <= |s|
    ensures forall i :: 0 <= i < n ==> IsNumberWhite(s[i])
    ensures n < |s| ==> !IsNumberWhite(s[n])
  {
    if s != "" && IsNumberWhite(s[0]) then 1 + WhiteSpan(s[1..]) else 0
  }

  /** Length of the longest prefix of hex digits. */
  function HexSpan(s: string): (n: nat)
    ensures n <= |s|
    ensures forall i :: 0 <= i < n ==> IsHexDigit(s[i])
    ensures n < |s| ==> !IsHexDigit(s[n])
  {
    if s != "" && IsHexDigit(s[0]) then 1 + HexSpan(s[1..]) else 0
  }

  /** The big-endian value of a run of hex digits. */
  function HexValue(digits: string): nat
    requires forall i :: 0 <= i < |digits| ==> IsHexDigit(digits[i])
  {
    if digits == "" then 0
    else HexValue(digits[..|digits| - 1]) * 16 + DigitValue(digits[|digits| - 1])
  }

  predicate AllNul(s: string) {
    forall i :: 0 <= i < |s| ==> s[i] == '\0'
  }

  /** Reinterprets a 32-bit unsigned value as a signed one. */
  function ToInt32(v: nat): (r: int)
    requires v < TwoTo32
    ensures -TwoTo31 <= r < TwoTo31
    ensures r % TwoTo32 == v
  {
    if v >= TwoTo31 then v - TwoTo32 else v
  }

  /** The value `int.TryParse` with `HexNumber` reports, or None where it returns false. */
  function ParseHexInt32(s: string): (r: Option<int>)
    ensures r.Some? ==> -TwoTo31 <= r.value < TwoTo31
  {
    var body := s[WhiteSpan(s)..];
    var d := HexSpan(body);
    var rest := body[d..];
    if d == 0 || !AllNul(rest[WhiteSpan(rest)..]) then None
    else
      var v := HexValue(body[..d]);
      if v >= TwoTo32 then None else Some(ToInt32(v))
  }

  /** The value `TryParse` leaves in its `out` argument: zero when it fails. */
  function ParsedOrZero(s: string): int {
    ParseHexInt32(s).GetOr(0)
  }

  function HexChar(d: nat, upper: bool): (c: char)
    requires d < 16
    ensures IsHexDigit(c) && DigitValue(c) == d
  {
    if d < 10 then ('0' as int + d) as char
    else if upper then ('A' as int + d - 10) as char
    else ('a' as int + d - 10) as char
  }

  /** The two-digit rendering of a byte, as a `traceparent` version or flags field is written. */
  function Hex2(b: nat, upper: bool): (s: string)
    requires b < 256
    ensures |s| == 2
  {
    [HexChar(b / 16, upper), HexChar(b % 16, upper)]
  }

  lemma Hex2Value(b: nat, upper: bool)
    requires b < 256
    ensures HexValue(Hex2(b, upper)) == b
  {
    var h := Hex2(b, upper);
    assert h[..1] == [h[0]];
    assert HexValue(h[..1]) == b / 16;
  }

  lemma {:induction false} WhiteSpanPrefix(pre: string, s: string)
    requires forall i :: 0 <= i < |pre| ==> IsNumberWhite(pre[i])
    ensures WhiteSpan(pre + s) == |pre| + WhiteSpan(s)
  {
    if pre != "" {
      assert (pre + s)[1..] == pre[1..] + s;
      WhiteSpanPrefix(pre[1..], s);
    } else {
      assert pre + s == s;
    }
  }

  lemma {:induction false} HexSpanPrefix(digits: string, s: string)
    requires forall i :: 0 <= i < |digits| ==> IsHexDigit(digits[i])
    ensures HexSpan(digits + s) == |digits| + HexSpan(s)
  {
    if digits != "" {
      assert (digits + s)[1..] == digits[1..] + s;
      HexSpanPrefix(digits[1..], s);
    } else {
      assert digits + s == s;
    }
  }

  /** Leading white space is skipped: it never changes what a field parses to. */
  lemma LeadingWhiteIgnored(pre: string, s: string)
    requires forall i :: 0 <= i < |pre| ==> IsNumberWhite(pre[i])
    ensures ParseHexInt32(pre + s) == ParseHexInt32(s)
  {
    WhiteSpanPrefix(pre, s);
    assert (pre + s)[WhiteSpan(pre + s)..] == s[WhiteSpan(s)..];
  }

  /** Digits followed only by white space parse to their value, read as an `int`. */
  lemma DigitsThenWhite(digits: string, post: string)
    requires digits != "" && forall i :: 0 <= i < |digits| ==> IsHexDigit(digits[i])
    requires forall i :: 0 <= i < |post| ==> IsNumberWhite(post[i])
    requires HexValue(digits) < TwoTo32
    ensures ParseHexInt32(digits + post) == Some(ToInt32(HexValue(digits)))
  {
    var s := digits + post;
    assert WhiteSpan(s) == 0 && s[0..] == s;
    HexSpanPrefix(digits, post);
    assert post != "" ==> !IsHexDigit(post[0]);
    assert HexSpan(s) == |digits|;
    assert s[..|digits|] == digits;
    assert s[|digits|..] == post;
    assert WhiteSpan(post) == |post|;
    assert post[|post|..] == "";
  }

  /** Digits worth 2^32 or more are refused: the value does not fit in 32 bits. */
  lemma OverflowRejected(digits: string, post: string)
    requires digits != "" && forall i :: 0 <= i < |digits| ==> IsHexDigit(digits[i])
    requires forall i :: 0 <= i < |post| ==> IsNumberWhite(post[i])
    requires HexValue(digits) >= TwoTo32
    ensures ParseHexInt32(digits + post) == None
  {
    HexSpanPrefix(digits, post);
    assert (digits + post)[..|digits|] == digits;
  }

  /** A character after the digits that is neither a digit, white space nor NUL is refused. */
  lemma TrailingJunkRejected(digits: string, c: char, rest: string)
    requires digits != "" && forall i :: 0 <= i < |digits| ==> IsHexDigit(digits[i])
    requires !IsHexDigit(c) && !IsNumberWhite(c) && c != '\0'
    ensures ParseHexInt32(digits + [c] + rest) == None
  {
    HexSpanPrefix(digits, [c] + rest);
    assert digits + [c] + rest == digits + ([c] + rest);
    assert (digits + ([c] + rest))[|digits|..] == [c] + rest;
  }

  /** An empty or all-white field holds no digit and is refused. */
  lemma BlankRejected(s: string)
    requires forall i :: 0 <= i < |s| ==> IsNumberWhite(s[i])
    ensures ParseHexInt32(s) == None
  {
    WhiteSpanPrefix(s, "");
    assert s + "" == s;
  }

  /** Where the parse splits digits, white space and a tail that starts with neither. */
  lemma DigitsWhiteTail(digits: string, post: string, tail: string)
    requires digits != "" && forall i :: 0 <= i < |digits| ==> IsHexDigit(digits[i])
    requires forall i :: 0 <= i < |post| ==> IsNumberWhite(post[i])
    requires tail != "" ==> !IsNumberWhite(tail[0])
    requires post == "" && tail != "" ==> !IsHexDigit(tail[0])
    ensures var s := digits + post + tail;
      && s[WhiteSpan(s)..] == s
      && HexSpan(s) == |digits|
      && s[..|digits|] == digits
      && s[|digits|..][WhiteSpan(s[|digits|..])..] == tail
  {
    var s := digits + post + tail;
    assert s == digits + (post + tail);
    assert WhiteSpan(s) == 0 && s[0..] == s;
    HexSpanPrefix(digits, post + tail);
    assert HexSpan(post + tail) == 0 by {
      if post != "" {
        assert (post + tail)[0] == post[0];
      } else {
        assert post + tail == tail;
      }
    }
    assert s[..|digits|] == digits;
    assert s[|digits|..] == post + tail;
    WhiteSpanPrefix(post, tail);
    assert (post + tail)[|post|..] == tail;
  }

  /** Trailing NULs after the digits and their white space are tolerated. */
  lemma NulTail(digits: string, post: string, nuls: string)
    requires digits != "" && forall i :: 0 <= i < |digits| ==> IsHexDigit(digits[i])
    requires forall i :: 0 <= i < |post| ==> IsNumberWhite(post[i])
    requires AllNul(nuls)
    ensures ParseHexInt32(digits + post + nuls)
         == if HexValue(digits) < TwoTo32 then Some(ToInt32(HexValue(digits))) else None
  {
    if nuls != "" {
      assert nuls[0] == '\0';
    }
    DigitsWhiteTail(digits, post, nuls);
  }

  /**
   * Anything but NULs after the white space that follows the digits is
   * refused, as is a non-digit directly after the digits.
   */
  lemma TailRejected(digits: string, post: string, tail: string)
    requires digits != "" && forall i :: 0 <= i < |digits| ==> IsHexDigit(digits[i])
    requires forall i :: 0 <= i < |post| ==> IsNumberWhite(post[i])
    requires tail != "" && !IsNumberWhite(tail[0]) && !AllNul(tail)
    requires post != "" || !IsHexDigit(tail[0])
    ensures ParseHexInt32(digits + post + tail) == None
  {
    DigitsWhiteTail(digits, post, tail);
  }

  /** A two-digit byte parses back to the byte, in either case. */
  lemma Hex2RoundTrip(b: nat, upper: bool)
    requires b < 256
    ensures ParseHexInt32(Hex2(b, upper)) == Some(b)
  {
    Hex2Value(b, upper);
    DigitsThenWhite(Hex2(b, upper), "");
    assert Hex2(b, upper) + "" == Hex2(b, upper);
  }

  /**
   * Surrounding white space is accepted: unlike section 3.2.2 of the W3C Trace
   * Context recommendation, the field is not required to be exactly two digits.
   */
  lemma PaddedByteAccepted(b: nat, upper: bool, pre: string, post: string)
    requires b < 256
    requires forall i :: 0 <= i < |pre| ==> IsNumberWhite(pre[i])
    requires forall i :: 0 <= i < |post| ==> IsNumberWhite(post[i])
    ensures ParseHexInt32(pre + Hex2(b, upper) + post) == Some(b)
  {
    var h := Hex2(b, upper);
    Hex2Value(b, upper);
    DigitsThenWhite(h, post);
    assert pre + h + post == pre + (h + post);
    LeadingWhiteIgnored(pre, h + post);
  }

  /** A field that starts with neither white space nor a hex digit is rejected. */
  lemma NonHexRejected(s: string)
    requires s != "" && !IsNumberWhite(s[0]) && !IsHexDigit(s[0])
    ensures ParseHexInt32(s) == None
  {
  }

  function Pow16(n: nat): nat {
    if n == 0 then 1 else 16 * Pow16(n - 1)
  }

  /** A run of `f` digits is one less than the next power of 16. */
  lemma {:induction false} AllFValue(s: string)
    requires forall i :: 0 <= i < |s| ==> s[i] == 'f'
    ensures HexValue(s) == Pow16(|s|) - 1
  {
    if s != "" {
      AllFValue(s[..|s| - 1]);
    }
  }

  /** Eight digits are read as two's complement: all ones is -1. */
  lemma AllOnesIsMinusOne()
    ensures ParseHexInt32("ffffffff") == Some(-1)
  {
    AllFValue("ffffffff");
    assert Pow16(8) == TwoTo32;
    DigitsThenWhite("ffffffff", "");
    assert "ffffffff" + "" == "ffffffff";
  }

}
