/**
 * Lower-case hexadecimal encoding of a byte string, as `hex::encode`
 * produces it: two characters per byte, high nibble first, digits
 * drawn from "0123456789abcdef".
 */
module Hex {

  type byte = x: nat | x < 256

  const Digits: string := "0123456789abcdef"

  predicate IsLowerHexDigit(c: char) {
    '0' <= c <= '9' || 'a' <= c <= 'f'
  }

  /** The character for one nibble. */
  function Digit(n: nat): (c: char)
    requires n < 16
    ensures IsLowerHexDigit(c)
    ensures n < 10 ==> c as int == '0' as int + n
    ensures 10 <= n ==> c as int == 'a' as int + (n - 10)
  {
    Digits[n]
  }

  /** Distinct nibbles give distinct characters. */
  lemma DigitInjective(m: nat, n: nat)
    requires m < 16 && n < 16
    requires Digit(m) == Digit(n)
    ensures m == n
  {
  }

  /** The encoding of a byte string. */
  function Encode(bytes: seq<byte>): (s: string)
    ensures |s| == 2 * |bytes|
    ensures forall i :: 0 <= i < |s| ==> IsLowerHexDigit(s[i])
  {
    if bytes == [] then ""
    else [Digit(bytes[0] / 16), Digit(bytes[0] % 16)] + Encode(bytes[1..])
  }

  /** Each byte occupies characters 2i and 2i+1 of the encoding. */
  lemma {:induction false} EncodeAt(bytes: seq<byte>, i: nat)
    requires i < |bytes|
    ensures Encode(bytes)[2 * i] == Digit(bytes[i] / 16)
    ensures Encode(bytes)[2 * i + 1] == Digit(bytes[i] % 16)
  {
    if i > 0 {
      EncodeAt(bytes[1..], i - 1);
    }
  }

  /** Encoding is injective: equal encodings come from equal byte strings. */
  lemma {:induction false} EncodeInjective(a: seq<byte>, b: seq<byte>)
    requires Encode(a) == Encode(b)
    ensures a == b
  {
    if a != [] {
      assert |b| == |a|;
      EncodeAt(a, 0);
      EncodeAt(b, 0);
      DigitInjective(a[0] / 16, b[0] / 16);
      DigitInjective(a[0] % 16, b[0] % 16);
      assert a[0] == b[0];
      var ea, eb := Encode(a), Encode(b);
      assert Encode(a[1..]) == ea[2..];
      assert Encode(b[1..]) == eb[2..];
      EncodeInjective(a[1..], b[1..]);
      assert a == [a[0]] + a[1..];
      assert b == [b[0]] + b[1..];
    }
  }
}
