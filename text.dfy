/**
 * Character-level helpers the two programs rely on: the ASCII encoder
 * (System.Text.ASCIIEncoding), ASCII lower-casing, decimal formatting of
 * integers and the integer parser used on port numbers (int.TryParse).
 */
module Text {
  import opened Wrappers
  import opened Wire

  /** The byte ASCIIEncoding substitutes for a character it cannot encode ('?'). */
  const REPLACEMENT: byte := 63

  predicate IsAscii(s: string) {
    forall i :: 0 <= i < |s| ==> s[i] as int < 128
  }

  /** ASCIIEncoding.GetBytes: one byte per character, '?' for anything beyond 7 bits. */
  function EncodeAscii(s: string): (b: seq<byte>)
    ensures |b| == |s|
    ensures forall i :: 0 <= i < |s| ==> b[i] < 128
  {
    seq(|s|, i requires 0 <= i < |s| => if s[i] as int < 128 then s[i] as int as byte else REPLACEMENT)
  }

  /** ASCIIEncoding.GetString: one character per byte, '?' for bytes above 0x7F. */
  function DecodeAscii(b: seq<byte>): (s: string)
    ensures |s| == |b|
    ensures IsAscii(s)
  {
    seq(|b|, i requires 0 <= i < |b| => if b[i] < 128 then b[i] as int as char else '?')
  }

  /** An ASCII string survives encoding and decoding unchanged. */
  lemma AsciiRoundTrip(s: string)
    requires IsAscii(s)
    ensures DecodeAscii(EncodeAscii(s)) == s
  {
  }

  /** String.ToLower restricted to ASCII letters. */
  function ToLowerAscii(s: string): (r: string)
    ensures |r| == |s|
  {
    seq(|s|, i requires 0 <= i < |s| => if 'A' <= s[i] <= 'Z' then (s[i] as int + 32) as char else s[i])
  }

  /** Lower-casing twice is lower-casing once. */
  lemma ToLowerIdempotent(s: string)
    ensures ToLowerAscii(ToLowerAscii(s)) == ToLowerAscii(s)
  {
  }

  function DigitChar(d: nat): (c: char)
    requires d < 10
    ensures '0' <= c <= '9'
  {
    (d + '0' as int) as char
  }

  predicate AllDigits(s: string) {
    forall i :: 0 <= i < |s| ==> '0' <= s[i] <= '9'
  }

  /** Decimal digits of `n`, most significant first, as Int32.ToString writes them. */
  function NatToString(n: nat): (s: string)
    ensures |s| > 0 && AllDigits(s)
    decreases n
  {
    if n < 10 then [DigitChar(n)] else NatToString(n / 10) + [DigitChar(n % 10)]
  }

  function IntToString(x: int): string {
    if x < 0 then "-" + NatToString(-x) else NatToString(x)
  }

  /** The value of a string of decimal digits. */
  function DigitsValue(s: string): nat
    requires AllDigits(s)
  {
    if |s| == 0 then 0 else 10 * DigitsValue(s[..|s| - 1]) + (s[|s| - 1] as int - '0' as int)
  }

  /** The characters int.TryParse skips before and after the number. */
  predicate IsWhite(c: char) {
    c == ' ' || '\t' <= c <= '\r'
  }

  function TrimStart(s: string): string {
    if |s| > 0 && IsWhite(s[0]) then TrimStart(s[1..]) else s
  }

  function TrimEnd(s: string): string {
    if |s| > 0 && IsWhite(s[|s| - 1]) then TrimEnd(s[..|s| - 1]) else s
  }

  /**
   * int.TryParse with the default integer style: optional surrounding
   * white space, an optional leading sign, at least one decimal digit,
   * and a value that fits in 32 bits; `None` when it returns false.
   */
  function ParseInt(s: string): (r: Option<int>)
    ensures r.Some? ==> IsInt32(r.value)
  {
    var t := TrimEnd(TrimStart(s));
    var signed := |t| > 0 && (t[0] == '-' || t[0] == '+');
    var digits := if signed then t[1..] else t;
    if |digits| == 0 || !AllDigits(digits) then None
    else
      var v: int := if signed && t[0] == '-' then -(DigitsValue(digits) as int) else DigitsValue(digits);
      if IsInt32(v) then Some(v) else None
  }

  lemma {:induction false} DigitsOfNat(n: nat)
    ensures DigitsValue(NatToString(n)) == n
    decreases n
  {
    var s := NatToString(n);
    if n >= 10 {
      DigitsOfNat(n / 10);
      assert s[..|s| - 1] == NatToString(n / 10);
    }
  }

  /** What Int32.ToString writes for a non-negative value, int.TryParse reads back. */
  lemma {:induction false} ParseIntRoundTrip(n: nat)
    requires n <= INT32_MAX
    ensures ParseInt(NatToString(n)) == Some(n)
  {
    var s := NatToString(n);
    assert !IsWhite(s[0]) && !IsWhite(s[|s| - 1]);
    assert TrimStart(s) == s;
    assert TrimEnd(s) == s;
    assert !(s[0] == '-' || s[0] == '+');
    DigitsOfNat(n);
  }
}
