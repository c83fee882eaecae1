/**
 * Bytes and the lowercase hexadecimal encoding used for session
 * identifiers (Go's `hex.EncodeToString`), with its inverse.
 */
module Hex {
  import opened Wrappers

  newtype byte = b: int | 0 <= b < 256

  const Digits: string := "0123456789abcdef"

  /** A character `hex.EncodeToString` can produce. */
  predicate IsLowerHexChar(c: char) {
    '0' <= c <= '9' || 'a' <= c <= 'f'
  }

  predicate IsLowerHex(s: string) {
    forall i :: 0 <= i < |s| ==> IsLowerHexChar(s[i])
  }

  /** The digit for a nibble. */
  function Digit(n: int): (c: char)
    requires 0 <= n < 16
    ensures IsLowerHexChar(c)
    ensures DigitValue(c) == Some(n)
  {
    Digits[n]
  }

  /** The nibble a lowercase digit stands for; `None` for any other character. */
  function DigitValue(c: char): (r: Option<int>)
    ensures r.Some? <==> IsLowerHexChar(c)
    ensures r.Some? ==> 0 <= r.value < 16 && Digits[r.value] == c
  {
    if '0' <= c <= '9' then Some(c as int - '0' as int)
    else if 'a' <= c <= 'f' then Some(c as int - 'a' as int + 10)
    else None
  }

  /** Two digits per byte, high nibble first. */
  function Encode(b: seq<byte>): (s: string)
    ensures |s| == 2 * |b|
    ensures IsLowerHex(s)
    ensures forall i :: 0 <= i < |b| ==>
      s[2 * i] == Digit(b[i] as int / 16) && s[2 * i + 1] == Digit(b[i] as int % 16)
  {
    if b == [] then []
    else
      var rest := Encode(b[1..]);
      var s := [Digit(b[0] as int / 16), Digit(b[0] as int % 16)] + rest;
      assert forall i :: 1 <= i < |b| ==> s[2 * i] == rest[2 * (i - 1)] && b[i] == b[1..][i - 1];
      s
  }

  /** The inverse of `Encode`: `None` on odd length or a non-digit character. */
  function Decode(s: string): (r: Option<seq<byte>>)
    ensures r.Some? ==> |s| == 2 * |r.value|
    decreases |s|
  {
    if s == [] then Some([])
    else if |s| == 1 then None
    else
      match (DigitValue(s[0]), DigitValue(s[1]), Decode(s[2..]))
      case (Some(hi), Some(lo), Some(rest)) => Some([(hi * 16 + lo) as byte] + rest)
      case _ => None
  }

  /** Decoding an encoding gives the bytes back. */
  lemma {:induction false} DecodeEncode(b: seq<byte>)
    ensures Decode(Encode(b)) == Some(b)
  {
    if b != [] {
      var s := Encode(b);
      assert s[2..] == Encode(b[1..]);
      DecodeEncode(b[1..]);
      var hi, lo := b[0] as int / 16, b[0] as int % 16;
      assert DigitValue(s[0]) == Some(hi) && DigitValue(s[1]) == Some(lo);
      assert hi * 16 + lo == b[0] as int;
      assert [(hi * 16 + lo) as byte] + b[1..] == b;
    }
  }

  /** Encoding a successful decoding gives the text back: the two are inverse. */
  lemma {:induction false} EncodeDecode(s: string)
    requires Decode(s).Some?
    ensures Encode(Decode(s).value) == s
    decreases |s|
  {
    if s != [] {
      EncodeDecode(s[2..]);
      var hi, lo := DigitValue(s[0]).value, DigitValue(s[1]).value;
      var v := (hi * 16 + lo) as byte;
      assert v as int / 16 == hi && v as int % 16 == lo;
      assert Decode(s).value == [v] + Decode(s[2..]).value;
      assert Encode(Decode(s).value) == [Digit(hi), Digit(lo)] + Encode(Decode(s[2..]).value);
    }
  }

  /** Distinct byte strings have distinct encodings. */
  lemma EncodeInjective(a: seq<byte>, b: seq<byte>)
    requires Encode(a) == Encode(b)
    ensures a == b
  {
  }
}
