/** Hexadecimal text: Rust's `{:x}` (compact lowercase) and `{:0Nx}`
    (lowercase, zero-padded to a minimum width) renderings of an unsigned
    value, the `is_ascii_hexdigit` character class, and a base-16 parse in
    the manner of `from_str_radix(_, 16)`. */
module Hex {

  datatype Option<T> = None | Some(value: T)

  /** `char::is_ascii_hexdigit`: `0-9`, `a-f` and `A-F`. */
  predicate IsAsciiHexDigit(c: char)
  {
    '0' <= c <= '9' || 'a' <= c <= 'f' || 'A' <= c <= 'F'
  }

  /** The digits `{:x}` emits. */
  predicate IsLowerHexDigit(c: char)
  {
    '0' <= c <= '9' || 'a' <= c <= 'f'
  }

  predicate AllHexDigits(s: string)
  {
    forall i :: 0 <= i < |s| ==> IsAsciiHexDigit(s[i])
  }

  predicate IsLowerHex(s: string)
  {
    forall i :: 0 <= i < |s| ==> IsLowerHexDigit(s[i])
  }

  function Pow16(k: nat): (p: nat)
    ensures p > 0
  {
    if k == 0 then 1 else 16 * Pow16(k - 1)
  }

  function DigitValue(c: char): (d: nat)
    requires IsAsciiHexDigit(c)
    ensures d < 16
    ensures c == '0' <==> d == 0
  {
    if '0' <= c <= '9' then c as int - '0' as int
    else if 'a' <= c <= 'f' then c as int - 'a' as int + 10
    else c as int - 'A' as int + 10
  }

  /** The lowercase digit for `d`; the inverse of `DigitValue` on lowercase digits. */
  function DigitChar(d: nat): (c: char)
    requires d < 16
    ensures IsLowerHexDigit(c) && DigitValue(c) == d
  {
    if d < 10 then ('0' as int + d) as char else ('a' as int + d - 10) as char
  }

  lemma DigitCharOfValue(c: char)
    requires IsLowerHexDigit(c)
    ensures DigitChar(DigitValue(c)) == c
  {
  }

  /** Value of a string of hex digits, most significant digit first. */
  function Value(s: string): nat
    requires AllHexDigits(s)
  {
    if |s| == 0 then 0 else Value(s[..|s| - 1]) * 16 + DigitValue(s[|s| - 1])
  }

  /** The base-16 parse: fails on the empty string and on any character
      outside `is_ascii_hexdigit`, accepts both letter cases. */
  function ParseHex(s: string): Option<nat>
  {
    if |s| > 0 && AllHexDigits(s) then Some(Value(s)) else None
  }

  /** A parsed value fits in as many hex digits as the text has. */
  lemma {:induction false} ValueBound(s: string)
    requires AllHexDigits(s)
    ensures Value(s) < Pow16(|s|)
  {
    if |s| > 0 {
      ValueBound(s[..|s| - 1]);
    }
  }

  lemma LowerIsHex(s: string)
    requires IsLowerHex(s)
    ensures AllHexDigits(s)
  {
  }

  /** `format!("{:x}", n)`: lowercase hex with no leading zeros. */
  function ToHex(n: nat): (s: string)
    ensures |s| > 0 && IsLowerHex(s)
  {
    if n < 16 then [DigitChar(n)] else ToHex(n / 16) + [DigitChar(n % 16)]
  }

  /** The compact rendering parses back to the value it renders. */
  lemma {:induction false} ToHexRoundTrip(n: nat)
    ensures ParseHex(ToHex(n)) == Some(n)
  {
    var s := ToHex(n);
    LowerIsHex(s);
    if n < 16 {
      assert Value(s) == Value(s[..0]) * 16 + DigitValue(s[0]);
    } else {
      ToHexRoundTrip(n / 16);
      assert s[..|s| - 1] == ToHex(n / 16);
    }
  }

  /** The compact rendering has no leading zero; zero renders as `"0"`. */
  lemma {:induction false} ToHexNoLeadingZero(n: nat)
    ensures ToHex(n)[0] == '0' <==> n == 0
    ensures n == 0 ==> ToHex(n) == "0"
  {
    if n >= 16 {
      ToHexNoLeadingZero(n / 16);
      assert ToHex(n)[0] == ToHex(n / 16)[0];
    } else {
      assert DigitValue(ToHex(n)[0]) == n;
    }
  }

  /** `|ToHex(n)|` is the least digit count that holds `n`. */
  lemma {:induction false} ToHexLength(n: nat, k: nat)
    requires k > 0
    ensures n < Pow16(k) <==> |ToHex(n)| <= k
  {
    if n >= 16 {
      if k == 1 {
        ToHexLength(n / 16, 1);
      } else {
        ToHexLength(n / 16, k - 1);
      }
    }
  }

  /** `ToHex` is the only rendering with no leading zero: a lowercase digit
      string that does not start with `0` (or is just `"0"`) is what `ToHex`
      gives for its value. */
  lemma {:induction false} ToHexCanonical(s: string)
    requires |s| > 0 && IsLowerHex(s)
    requires s[0] != '0' || s == "0"
    ensures ToHex(Value(s)) == s
  {
    if |s| == 1 {
      DigitCharOfValue(s[0]);
      assert Value(s) == DigitValue(s[0]);
    } else {
      var init := s[..|s| - 1];
      var d := DigitValue(s[|s| - 1]);
      ValuePositive(init);
      ToHexCanonical(init);
      DigitCharOfValue(s[|s| - 1]);
      assert Value(s) / 16 == Value(init) && Value(s) % 16 == d;
      assert s == init + [s[|s| - 1]];
    }
  }

  lemma {:induction false} ValuePositive(s: string)
    requires |s| > 0 && AllHexDigits(s) && s[0] != '0'
    ensures Value(s) > 0
  {
    if |s| > 1 {
      ValuePositive(s[..|s| - 1]);
    }
  }

  function Zeros(k: nat): (z: string)
    ensures |z| == k
    ensures forall i :: 0 <= i < k ==> z[i] == '0'
  {
    if k == 0 then [] else Zeros(k - 1) + ['0']
  }

  /** Leading zeros do not change the value of a hex string. */
  lemma {:induction false} ValueLeadingZeros(k: nat, s: string)
    requires AllHexDigits(s)
    ensures AllHexDigits(Zeros(k) + s) && Value(Zeros(k) + s) == Value(s)
    decreases k, |s|
  {
    var z := Zeros(k) + s;
    if |s| == 0 {
      assert z == Zeros(k);
      if k > 0 {
        assert z[..|z| - 1] == Zeros(k - 1) + s;
        ValueLeadingZeros(k - 1, s);
      }
    } else {
      var init := s[..|s| - 1];
      assert z[..|z| - 1] == Zeros(k) + init;
      ValueLeadingZeros(k, init);
    }
  }

  /** Left-pads a digit string with `0` to at least `width` characters. */
  function Pad(h: string, width: nat): (s: string)
    ensures |s| == if |h| < width then width else |h|
    ensures IsLowerHex(h) ==> IsLowerHex(s)
  {
    if |h| < width then Zeros(width - |h|) + h else h
  }

  /** `format!("{:0w$x}", n)`: `ToHex(n)` left-padded with `0` to at least
      `width` characters. */
  function PadHex(n: nat, width: nat): (s: string)
    ensures |s| > 0 && |s| >= width && IsLowerHex(s)
  {
    Pad(ToHex(n), width)
  }

  /** The padded rendering parses back to its value, and is exactly `width`
      long whenever the value fits in `width` digits. */
  lemma PadHexRoundTrip(n: nat, width: nat)
    ensures ParseHex(PadHex(n, width)) == Some(n)
    ensures width > 0 && n < Pow16(width) ==> |PadHex(n, width)| == width
  {
    var h := ToHex(n);
    ToHexRoundTrip(n);
    LowerIsHex(h);
    if |h| < width {
      ValueLeadingZeros(width - |h|, h);
    }
    if width > 0 {
      ToHexLength(n, width);
    }
  }
}
