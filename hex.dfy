/** Hexadecimal text, as Python's `bytes.fromhex` reads it and as
    `bytes.hex()` / `hashlib` `hexdigest()` write it. */
module Hex {

  import opened Wrappers
  import opened Bytes

  /** The sixteen lower-case digits, in order of value. */
  const DIGITS: string := "0123456789abcdef"

  /** A lower-case hexadecimal digit, as `hex()` writes them. */
  predicate IsLowerDigit(c: char) {
    '0' <= c <= '9' || 'a' <= c <= 'f'
  }

  /** The lower-case digit of value v. */
  function DigitChar(v: nat): (c: char)
    requires v < 16
    ensures IsLowerDigit(c)
  {
    if v < 10 then ('0' as int + v) as char else ('a' as int + v - 10) as char
  }

  /** The value of a hexadecimal digit; `fromhex` accepts both cases. */
  function DigitValue(c: char): (r: Option<nat>)
    ensures r.Some? ==> r.value < 16
    ensures r.Some? <==> IsLowerDigit(c) || 'A' <= c <= 'F'
  {
    if '0' <= c <= '9' then Some(c as nat - '0' as nat)
    else if 'a' <= c <= 'f' then Some(c as nat - 'a' as nat + 10)
    else if 'A' <= c <= 'F' then Some(c as nat - 'A' as nat + 10)
    else None
  }

  /** DIGITS lists exactly the lower-case digits, each at its value. */
  lemma DigitsTable(v: nat, c: char)
    requires v < 16
    ensures DIGITS[v] == DigitChar(v) && DigitValue(DIGITS[v]) == Some(v)
    ensures c in DIGITS <==> IsLowerDigit(c)
  {
  }

  /** The ASCII white space that `fromhex` skips between byte pairs:
      space, and tab, line feed, vertical tab, form feed, carriage return. */
  predicate IsSpace(c: char) {
    c == ' ' || '\t' <= c <= '\r'
  }

  /** `bytes.fromhex(s)`: white space may stand before each pair of digits;
      anything else that is not a pair of digits (an odd digit count, a
      space inside a pair, a non-hex character) is the ValueError, None. */
  function FromHex(s: string): (r: Option<Bytes>)
    ensures r.Some? ==> 2 * |r.value| <= |s|
  {
    if |s| == 0 then Some([])
    else if IsSpace(s[0]) then FromHex(s[1..])
    else if |s| < 2 then None
    else match (DigitValue(s[0]), DigitValue(s[1]), FromHex(s[2..]))
      case (Some(hi), Some(lo), Some(rest)) => Some([(16 * hi + lo) as byte] + rest)
      case _ => None
  }

  /** `b.hex()`: two lower-case digits per byte, high digit first. */
  function ToHex(b: Bytes): (s: string)
    ensures |s| == 2 * |b|
    ensures forall i :: 0 <= i < |s| ==> IsLowerDigit(s[i])
  {
    if |b| == 0 then ""
    else [DigitChar(b[0] / 16), DigitChar(b[0] % 16)] + ToHex(b[1..])
  }

  /** Each digit `hex()` writes reads back as its value and is not white
      space. */
  lemma DigitRoundTrip(v: nat)
    requires v < 16
    ensures DigitValue(DigitChar(v)) == Some(v) && !IsSpace(DigitChar(v))
  {
  }

  /** Reading back what `hex()` wrote gives the same bytes: every hex
      digest is valid input to `fromhex`. */
  lemma {:induction false} FromToHex(b: Bytes)
    ensures FromHex(ToHex(b)) == Some(b)
  {
    if |b| > 0 {
      var hi, lo := b[0] / 16, b[0] % 16;
      var s := ToHex(b);
      FromToHex(b[1..]);
      DigitRoundTrip(hi);
      DigitRoundTrip(lo);
      assert s[0] == DigitChar(hi) && s[1] == DigitChar(lo) && s[2..] == ToHex(b[1..]);
      assert (16 * hi + lo) as byte == b[0];
      assert b == [b[0]] + b[1..];
    }
  }

  /** A string of an odd number of digits (and no white space) is rejected. */
  lemma {:induction false} OddDigitCountRejected(s: string)
    requires |s| % 2 == 1
    requires forall i :: 0 <= i < |s| ==> IsLowerDigit(s[i])
    ensures FromHex(s) == None
  {
    assert !IsSpace(s[0]);
    if |s| > 1 {
      OddDigitCountRejected(s[2..]);
    }
  }

  /** A string of an even number of lower-case digits (a hex digest, a
      64-digit block hash) is read as half as many bytes. */
  lemma {:induction false} FromHexOfDigits(s: string)
    requires |s| % 2 == 0
    requires forall i :: 0 <= i < |s| ==> IsLowerDigit(s[i])
    ensures FromHex(s).Some? && 2 * |FromHex(s).value| == |s|
  {
    if |s| > 0 {
      assert !IsSpace(s[0]);
      FromHexOfDigits(s[2..]);
    }
  }
}
