/**
 The hexadecimal text form in which a claim's salt is stored: `bytes.hex()`
 writes it when a project is claimed and `bytes.fromhex()` reads it back when
 a token is checked.
 */
module Hex {
  import opened Prelude

  /** The characters `bytes.fromhex` skips between byte pairs (ASCII whitespace). */
  predicate IsSpace(c: char) {
    c == ' ' || c == '\t' || c == '\n' || c == '\r' || c as int == 0x0B || c as int == 0x0C
  }

  /** A digit `bytes.fromhex` accepts, in either case. */
  predicate IsHexDigit(c: char) {
    '0' <= c <= '9' || 'a' <= c <= 'f' || 'A' <= c <= 'F'
  }

  /** A digit `bytes.hex` may write: only lower case. */
  predicate IsLowerHexDigit(c: char) {
    '0' <= c <= '9' || 'a' <= c <= 'f'
  }

  /** Text made only of lower-case digit pairs, exactly the shape `bytes.hex` produces. */
  predicate IsLowerHex(s: string) {
    |s| % 2 == 0 && forall i :: 0 <= i < |s| ==> IsLowerHexDigit(s[i])
  }

  function DigitValue(c: char): (d: nat)
    requires IsHexDigit(c)
    ensures d < 16
  {
    if '0' <= c <= '9' then c as int - '0' as int
    else if 'a' <= c <= 'f' then c as int - 'a' as int + 10
    else c as int - 'A' as int + 10
  }

  /** The lower-case digit for a nibble; `DigitValue` undoes it. */
  function HexChar(d: nat): (c: char)
    requires d < 16
    ensures IsLowerHexDigit(c) && DigitValue(c) == d
  {
    if d < 10 then ('0' as int + d) as char else ('a' as int + d - 10) as char
  }

  /** `bytes.hex()`: two lower-case digits per byte, high nibble first. */
  function ToHex(b: seq<byte>): (s: string)
    ensures |s| == 2 * |b|
    ensures IsLowerHex(s)
  {
    if |b| == 0 then ""
    else [HexChar(b[0] / 16), HexChar(b[0] % 16)] + ToHex(b[1..])
  }

  /** How many hex digits (of either case) the text holds. */
  function HexDigitCount(s: string): (n: nat)
    ensures n <= |s|
  {
    if |s| == 0 then 0 else (if IsHexDigit(s[0]) then 1 else 0) + HexDigitCount(s[1..])
  }

  /**
   `bytes.fromhex()`: ASCII whitespace before a byte pair is skipped; every
   other character must start a pair of hex digits in either case, otherwise
   the text is rejected (Python raises ValueError, here None).
   */
  function FromHex(s: string): (r: Option<seq<byte>>)
    ensures r.Some? ==> 2 * |r.value| == HexDigitCount(s)
    ensures HexDigitCount(s) % 2 == 1 ==> r.None?
    ensures (exists i :: 0 <= i < |s| && !IsSpace(s[i]) && !IsHexDigit(s[i])) ==> r.None?
    decreases |s|
  {
    if |s| == 0 then Some([])
    else if IsSpace(s[0]) then
      assert forall i :: 1 <= i < |s| ==> s[i] == s[1..][i - 1];
      FromHex(s[1..])
    else if |s| >= 2 && IsHexDigit(s[0]) && IsHexDigit(s[1]) then
      assert s[1..][1..] == s[2..];
      assert forall i :: 2 <= i < |s| ==> s[i] == s[2..][i - 2];
      match FromHex(s[2..])
      case None => None
      case Some(rest) => Some([DigitValue(s[0]) * 16 + DigitValue(s[1])] + rest)
    else None
  }

  /** Reading back what `bytes.hex` wrote yields the original bytes. */
  lemma {:induction false} FromHexToHex(b: seq<byte>)
    ensures FromHex(ToHex(b)) == Some(b)
  {
    if |b| > 0 {
      var s := ToHex(b);
      assert s[2..] == ToHex(b[1..]);
      FromHexToHex(b[1..]);
      assert DigitValue(s[0]) * 16 + DigitValue(s[1]) == b[0];
      assert b == [b[0]] + b[1..];
    }
  }

  lemma LowerDigitRoundTrip(c: char)
    requires IsLowerHexDigit(c)
    ensures HexChar(DigitValue(c)) == c
  {
  }

  /** Every text in the shape `bytes.hex` produces is the encoding of what `bytes.fromhex` reads from it. */
  lemma {:induction false} ToHexFromHex(s: string)
    requires IsLowerHex(s)
    ensures FromHex(s).Some? && ToHex(FromHex(s).value) == s
  {
    if |s| > 0 {
      assert IsLowerHexDigit(s[0]) && IsLowerHexDigit(s[1]);
      var tail := s[2..];
      assert IsLowerHex(tail) by {
        forall i | 0 <= i < |tail| ensures IsLowerHexDigit(tail[i]) {
          assert tail[i] == s[i + 2];
        }
      }
      ToHexFromHex(tail);
      var hi, lo := DigitValue(s[0]), DigitValue(s[1]);
      var v: byte := hi * 16 + lo;
      assert v / 16 == hi && v % 16 == lo;
      LowerDigitRoundTrip(s[0]);
      LowerDigitRoundTrip(s[1]);
      var rest := FromHex(tail).value;
      assert FromHex(s) == Some([v] + rest);
      assert ([v] + rest)[1..] == rest;
      assert s == [s[0], s[1]] + tail;
    }
  }
}
