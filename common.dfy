/** Basic types shared by the BLE core and the menu: bytes, optional values,
    bounded C-string copies and the decimal rendering of `%d`. */
module Common {

  /** An unsigned 8-bit value (`uint8_t`). */
  type Byte = x: int | 0 <= x < 256

  /** A signed 8-bit value (`int8_t`), used for RSSI readings in dBm. */
  type Int8 = x: int | -128 <= x < 128

  /** A value that may be absent, standing for a pointer that may be NULL. */
  datatype Option<+T> = None | Some(value: T)

  /** The first `n` elements of `s`, or all of `s` when it is shorter:
      what `strlcpy` keeps of a string copied into a buffer of `n + 1`
      bytes, and what `strncmp` with limit `n` compares. */
  function Prefix<T>(s: seq<T>, n: nat): (r: seq<T>)
    ensures |r| == if |s| <= n then |s| else n
    ensures r <= s
  {
    if |s| <= n then s else s[..n]
  }

  /** The prefix of a concatenation whose first part fits entirely. */
  lemma PrefixConcat<T>(a: seq<T>, b: seq<T>, n: nat)
    requires |a| <= n
    ensures Prefix(a + b, n) == a + Prefix(b, n - |a|)
  {
    if |a + b| > n {
      assert (a + b)[..n] == a + b[..n - |a|];
    }
  }

  /** Once a string reaches the limit, extending it does not change its prefix. */
  lemma PrefixOfExtension<T>(a: seq<T>, b: seq<T>, n: nat)
    requires n <= |a|
    ensures Prefix(a + b, n) == Prefix(a, n)
  {
    assert (a + b)[..n] == a[..n];
  }

  /** The character of a decimal digit. */
  function DigitChar(d: int): (c: char)
    requires 0 <= d < 10
    ensures '0' <= c <= '9' && c as int - '0' as int == d
  {
    ('0' as int + d) as char
  }

  /** The digits of `n` in base 10, most significant first, as `%d` prints a
      non-negative value. */
  function NatToDecimal(n: nat): (r: string)
    ensures |r| > 0 && forall i :: 0 <= i < |r| ==> IsDigit(r[i])
    decreases n
  {
    if n < 10 then [DigitChar(n)] else NatToDecimal(n / 10) + [DigitChar(n % 10)]
  }

  /** `%d` of an `int`: a leading minus sign for negative values. */
  function IntToDecimal(n: int): (r: string)
    ensures |r| > 0
    ensures (r[0] == '-') == (n < 0)
  {
    assert n >= 0 ==> IsDigit(NatToDecimal(n)[0]);
    if n < 0 then "-" + NatToDecimal(-n) else NatToDecimal(n)
  }

  predicate IsDigit(c: char) { '0' as int <= c as int <= '9' as int }

  /** The value of a non-empty string of decimal digits. */
  function DecimalValue(s: string): (v: nat)
    requires |s| > 0 && forall i :: 0 <= i < |s| ==> IsDigit(s[i])
    decreases |s|
  {
    var last := s[|s| - 1];
    assert IsDigit(last);
    if |s| == 1 then last as int - '0' as int
    else DecimalValue(s[..|s| - 1]) * 10 + (last as int - '0' as int)
  }

  /** The decimal rendering is made of digits only and reads back as the number. */
  lemma {:induction false} NatToDecimalRoundTrip(n: nat)
    ensures NatToDecimal(n)[0] != '0' || n == 0
    ensures DecimalValue(NatToDecimal(n)) == n
    decreases n
  {
    if n >= 10 {
      NatToDecimalRoundTrip(n / 10);
      var p := NatToDecimal(n / 10);
      var r := NatToDecimal(n);
      assert r == p + [DigitChar(n % 10)];
      assert r[..|r| - 1] == p;
    }
  }

  /** `%d` of an `int` reads back: a non-negative value is its digits, and a
      negative one is a minus sign followed by the digits of its magnitude. */
  lemma IntToDecimalRoundTrip(n: int)
    ensures n >= 0 ==> DecimalValue(IntToDecimal(n)) == n
    ensures n < 0 ==> IntToDecimal(n)[0] == '-' && DecimalValue(IntToDecimal(n)[1..]) == -n
  {
    if n >= 0 {
      NatToDecimalRoundTrip(n);
    } else {
      NatToDecimalRoundTrip(-n);
      assert IntToDecimal(n)[1..] == NatToDecimal(-n);
    }
  }
}
