/**
 * Bytes and their hexadecimal text form: `bytes.hex()` (lower case),
 * `bytes.hex().upper()` and `bytes.fromhex(...)`.
 */
module Hex {
  import opened Optional

  type byte = x: int | 0 <= x < 256

  predicate IsHexDigit(c: char) {
    '0' <= c <= '9' || 'a' <= c <= 'f' || 'A' <= c <= 'F'
  }

  predicate IsUpperHexDigit(c: char) {
    '0' <= c <= '9' || 'A' <= c <= 'F'
  }

  predicate AllHexDigits(s: string) {
    forall i :: 0 <= i < |s| ==> IsHexDigit(s[i])
  }

  function DigitValue(c: char): (d: int)
    requires IsHexDigit(c)
    ensures 0 <= d < 16
  {
    if '0' <= c <= '9' then c as int - '0' as int
    else if 'a' <= c <= 'f' then c as int - 'a' as int + 10
    else c as int - 'A' as int + 10
  }

  /** The digit that renders `d`; `upper` selects `A`-`F` over `a`-`f`. */
  function DigitChar(d: int, upper: bool): (c: char)
    requires 0 <= d < 16
    ensures IsHexDigit(c) && DigitValue(c) == d
    ensures upper ==> IsUpperHexDigit(c)
  {
    if d < 10 then ('0' as int + d) as char
    else ((if upper then 'A' else 'a') as int + d - 10) as char
  }

  /** Two digits per byte, high nibble first. */
  function Encode(b: seq<byte>, upper: bool): (s: string)
    ensures |s| == 2 * |b|
    ensures forall i :: 0 <= i < |s| ==> IsHexDigit(s[i]) && (upper ==> IsUpperHexDigit(s[i]))
  {
    if b == [] then []
    else [DigitChar(b[0] / 16, upper), DigitChar(b[0] % 16, upper)] + Encode(b[1..], upper)
  }

  /**
   * `bytes.fromhex`: succeeds exactly on an even number of hex digits of
   * either case.
   */
  function Decode(s: string): (r: Option<seq<byte>>)
    ensures r.Some? <==> |s| % 2 == 0 && AllHexDigits(s)
    ensures r.Some? ==> 2 * |r.value| == |s|
    decreases |s|
  {
    if s == [] then Some([])
    else if |s| < 2 || !IsHexDigit(s[0]) || !IsHexDigit(s[1]) then None
    else
      match Decode(s[2..])
      case None =>
        assert forall i :: 0 <= i < |s| - 2 ==> s[2..][i] == s[i + 2];
        None
      case Some(rest) =>
        Some([(DigitValue(s[0]) * 16 + DigitValue(s[1])) as byte] + rest)
  }

  /** Decoding undoes encoding, in either case. */
  lemma {:induction false} DecodeEncode(b: seq<byte>, upper: bool)
    ensures Decode(Encode(b, upper)) == Some(b)
  {
    if b != [] {
      var s := Encode(b, upper);
      assert s[2..] == Encode(b[1..], upper);
      DecodeEncode(b[1..], upper);
      assert b == [b[0]] + b[1..];
    }
  }

  /** Decoding two hex strings one after the other decodes their concatenation. */
  lemma {:induction false} DecodeAppend(a: string, c: string)
    requires Decode(a).Some? && Decode(c).Some?
    ensures Decode(a + c) == Some(Decode(a).value + Decode(c).value)
    decreases |a|
  {
    if a != [] {
      assert (a + c)[2..] == a[2..] + c;
      assert (a + c)[0] == a[0] && (a + c)[1] == a[1];
      DecodeAppend(a[2..], c);
      var x := (DigitValue(a[0]) * 16 + DigitValue(a[1])) as byte;
      assert Decode(a).value == [x] + Decode(a[2..]).value;
      assert Decode(a + c).value == [x] + Decode(a[2..] + c).value;
      assert [x] + (Decode(a[2..]).value + Decode(c).value)
          == ([x] + Decode(a[2..]).value) + Decode(c).value;
    } else {
      assert a + c == c;
      assert Decode(a).value + Decode(c).value == Decode(c).value;
    }
  }

  /** `n` copies of `x`. */
  function Repeat<T>(x: T, n: nat): (r: seq<T>)
    ensures |r| == n && forall i :: 0 <= i < n ==> r[i] == x
  {
    if n == 0 then [] else [x] + Repeat(x, n - 1)
  }

  /** A run of `0` characters decodes to zero bytes. */
  lemma {:induction false} DecodeZeros(n: nat)
    ensures Decode(Repeat('0', 2 * n)) == Some(Repeat(0 as byte, n))
  {
    if n > 0 {
      var s := Repeat('0', 2 * n);
      assert s == ['0', '0'] + Repeat('0', 2 * (n - 1)) by {
        assert Repeat('0', 2 * n - 1) == ['0'] + Repeat('0', 2 * (n - 1));
      }
      assert s[2..] == Repeat('0', 2 * (n - 1));
      DecodeZeros(n - 1);
    }
  }

}
