/**
 * The parts of Rust's standard library that the pastebin's decisions rest on:
 * `str::len` (a length in UTF-8 bytes, not in characters), `str::parse::<i64>()`
 * and the decimal `Display` of an `i64`.
 */
module Text {
  import opened Wrappers

  const I64Min: int := -0x8000_0000_0000_0000
  const I64Max: int := 0x7FFF_FFFF_FFFF_FFFF

  /** The number of bytes UTF-8 spends on `c`. */
  function Utf8Width(c: char): nat {
    if c as int < 0x80 then 1
    else if c as int < 0x800 then 2
    else if c as int < 0x1_0000 then 3
    else 4
  }

  predicate IsAscii(c: char) {
    c as int < 0x80
  }

  /**
   * Rust's `str::len`: the length of `s` in UTF-8 bytes. It is never below the
   * number of characters, and equals it exactly when every character is ASCII.
   */
  function Utf8Len(s: string): (n: nat)
    ensures n >= |s|
    ensures n == |s| <==> forall i :: 0 <= i < |s| ==> IsAscii(s[i])
  {
    if s == [] then 0
    else
      var rest := Utf8Len(s[1..]);
      assert forall i :: 1 <= i < |s| ==> s[i] == s[1..][i - 1];
      Utf8Width(s[0]) + rest
  }

  predicate IsDigit(c: char) {
    '0' <= c <= '9'
  }

  predicate AllDigits(s: string) {
    forall i :: 0 <= i < |s| ==> IsDigit(s[i])
  }

  /** The value of a string of decimal digits, read most significant digit first. */
  function DigitsValue(s: string): nat
    requires AllDigits(s)
  {
    if s == [] then 0
    else 10 * DigitsValue(s[..|s| - 1]) + (s[|s| - 1] as int - '0' as int)
  }

  /**
   * Rust's `str::parse::<i64>()`: an optional `+` or `-`, then at least one ASCII
   * digit and nothing else, with a value inside the range of `i64`. Anything
   * else is an error, modelled as `None`.
   */
  function ParseI64(s: string): (r: Option<int>)
    ensures r.Some? ==> I64Min <= r.value <= I64Max
    ensures r.Some? ==> |s| > 0
  {
    if |s| == 0 then None
    else if (s[0] == '+' || s[0] == '-') && |s| == 1 then None
    else
      var digits := if s[0] == '+' || s[0] == '-' then s[1..] else s;
      if !AllDigits(digits) then None
      else
        var v: int := if s[0] == '-' then 0 - DigitsValue(digits) as int else DigitsValue(digits);
        if I64Min <= v <= I64Max then Some(v) else None
  }

  function DigitChar(d: nat): char
    requires d < 10
  {
    ('0' as int + d) as char
  }

  /** The decimal digits of `n`, without sign or leading zeros. */
  function FormatNat(n: nat): (s: string)
    ensures |s| > 0
  {
    if n < 10 then [DigitChar(n)] else FormatNat(n / 10) + [DigitChar(n % 10)]
  }

  /** Rust's `i64::to_string`: a `-` for negative values, then the digits. */
  function FormatInt(n: int): (s: string)
    ensures |s| > 0 && (s[0] == '-' <==> n < 0)
    ensures AllDigits(if n < 0 then s[1..] else s)
  {
    if n < 0 then
      FormatNatDigits(-n);
      var s := "-" + FormatNat(-n);
      assert s[1..] == FormatNat(-n);
      s
    else
      FormatNatDigits(n);
      FormatNat(n)
  }

  /** The digits `FormatNat` writes read back as the number they were written from. */
  lemma {:induction false} FormatNatDigits(n: nat)
    ensures AllDigits(FormatNat(n)) && DigitsValue(FormatNat(n)) == n
  {
    if n >= 10 {
      FormatNatDigits(n / 10);
      var s := FormatNat(n);
      assert s[..|s| - 1] == FormatNat(n / 10);
    }
  }

  /** Every `i64` written out by `to_string` parses back to itself. */
  lemma ParseFormatRoundTrip(n: int)
    requires I64Min <= n <= I64Max
    ensures ParseI64(FormatInt(n)) == Some(n)
  {
    var m: nat := if n < 0 then -n else n;
    var digits := FormatNat(m);
    FormatNatDigits(m);
    assert IsDigit(digits[0]);
    if n < 0 {
      var s := "-" + digits;
      assert s == FormatInt(n);
      assert s[1..] == digits;
      assert ParseI64(s) == Some(n);
    } else {
      assert digits == FormatInt(n);
      assert ParseI64(digits) == Some(n);
    }
  }

  /** Only strings that are all ASCII digits after an optional sign parse. */
  lemma ParseNeedsDigits(s: string)
    requires ParseI64(s).Some?
    ensures forall i :: 0 < i < |s| ==> IsDigit(s[i])
    ensures IsDigit(s[0]) || ((s[0] == '+' || s[0] == '-') && |s| > 1)
  {
  }
}
