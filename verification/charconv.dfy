/** The two standard-library conversions the program relies on for hex text:
    `std::from_chars(first, last, value, 16)` on an unsigned integer, and
    `std::format` with the `{:X}` / `{:02X}` specifiers. */
module CharConv {
  import opened Prelude

  predicate IsHexDigit(c: char) {
    '0' <= c <= '9' || 'a' <= c <= 'f' || 'A' <= c <= 'F'
  }

  /** The digits `std::format` emits for `{:X}`. */
  predicate IsUpperHexDigit(c: char) {
    '0' <= c <= '9' || 'A' <= c <= 'F'
  }

  function DigitValue(c: char): (v: nat)
    requires IsHexDigit(c)
    ensures v < 16
  {
    if '0' <= c <= '9' then c as int - '0' as int
    else if 'a' <= c <= 'f' then c as int - 'a' as int + 10
    else c as int - 'A' as int + 10
  }

  predicate AllHexDigits(s: string) {
    forall i :: 0 <= i < |s| ==> IsHexDigit(s[i])
  }

  /** Value of a run of hex digits, most significant digit first. */
  function HexValue(s: string): nat
    requires AllHexDigits(s)
  {
    if |s| == 0 then 0 else HexValue(s[..|s| - 1]) * 16 + DigitValue(s[|s| - 1])
  }

  function Pow16(n: nat): (p: nat)
    ensures p >= 1
  {
    if n == 0 then 1 else 16 * Pow16(n - 1)
  }

  /** A run of n digits is worth less than 16^n. */
  lemma {:induction false} HexValueBound(s: string)
    requires AllHexDigits(s)
    ensures HexValue(s) < Pow16(|s|)
  {
    if |s| > 0 {
      HexValueBound(s[..|s| - 1]);
    }
  }

  /** Appending one digit shifts the value one place. */
  lemma HexValueSnoc(s: string, c: char)
    requires AllHexDigits(s) && IsHexDigit(c)
    ensures AllHexDigits(s + [c])
    ensures HexValue(s + [c]) == HexValue(s) * 16 + DigitValue(c)
  {
    assert (s + [c])[..|s|] == s;
  }

  /** Length of the longest prefix of `s` made of hex digits: how far
      `from_chars` reads before it stops. */
  function HexRun(s: string): (n: nat)
    ensures n <= |s|
    ensures AllHexDigits(s[..n])
    ensures n < |s| ==> !IsHexDigit(s[n])
  {
    if |s| == 0 || !IsHexDigit(s[0]) then 0
    else
      var m := HexRun(s[1..]);
      assert s[..1 + m] == [s[0]] + s[1..][..m];
      1 + m
  }

  lemma HexRunAll(s: string)
    ensures HexRun(s) == |s| <==> AllHexDigits(s)
  {
    var n := HexRun(s);
    if n < |s| {
      assert !IsHexDigit(s[n]);
    } else {
      assert s[..n] == s;
    }
  }

  /** `std::errc` as far as `from_chars` reports it. */
  datatype Errc = NoError | InvalidArgument | ResultOutOfRange

  /** Outcome of `from_chars`: `ptr` counts the characters consumed; `value`
      is what was stored into the output, meaningful only without error. */
  datatype FromCharsResult = FromCharsResult(ptr: nat, ec: Errc, value: nat)

  /** `std::from_chars(s.begin, s.end, v, 16)` for an unsigned integer type
      holding values below `limit`: no sign, no `0x` prefix, as many digits
      as are there; a value that does not fit is `result_out_of_range`. */
  function FromCharsHex(s: string, limit: nat): (r: FromCharsResult)
    ensures r.ptr <= |s|
    ensures r.ec == InvalidArgument <==> |s| == 0 || !IsHexDigit(s[0])
    ensures r.ec == InvalidArgument ==> r.ptr == 0
    ensures r.ec == NoError ==> r.ptr == HexRun(s) && r.value == HexValue(s[..HexRun(s)]) && r.value < limit
    ensures r.ec == ResultOutOfRange ==> r.ptr == HexRun(s)
    ensures r.ec != InvalidArgument ==> (r.ec == NoError <==> HexValue(s[..HexRun(s)]) < limit)
  {
    var n := HexRun(s);
    if n == 0 then FromCharsResult(0, InvalidArgument, 0)
    else
      var v := HexValue(s[..n]);
      if v < limit then FromCharsResult(n, NoError, v)
      else FromCharsResult(n, ResultOutOfRange, 0)
  }

  function UpperDigit(d: nat): (c: char)
    requires d < 16
    ensures IsUpperHexDigit(c) && IsHexDigit(c) && DigitValue(c) == d
  {
    if d < 10 then ('0' as int + d) as char else ('A' as int + d - 10) as char
  }

  /** `std::format("{:X}", n)`: upper-case hex digits, no prefix, no leading
      zeros. Reading the digits back gives `n`. */
  function FormatUpperHex(n: nat): (s: string)
    ensures |s| >= 1
    ensures forall i :: 0 <= i < |s| ==> IsUpperHexDigit(s[i])
    ensures AllHexDigits(s) && HexValue(s) == n
    ensures |s| > 1 ==> s[0] != '0'
    decreases n
  {
    if n < 16 then [UpperDigit(n)]
    else
      var hi := FormatUpperHex(n / 16);
      var c := UpperDigit(n % 16);
      HexValueSnoc(hi, c);
      hi + [c]
  }

  /** `std::format("{:02X}", b)`: always exactly two upper-case digits. */
  function FormatByte(b: byte): (s: string)
    ensures |s| == 2 && IsUpperHexDigit(s[0]) && IsUpperHexDigit(s[1])
    ensures IsHexDigit(s[0]) && IsHexDigit(s[1])
    ensures DigitValue(s[0]) * 16 + DigitValue(s[1]) == b
  {
    [UpperDigit(b / 16), UpperDigit(b % 16)]
  }
}
