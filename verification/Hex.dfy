/** Lower-case hexadecimal text. */
module Hex {
  import opened Bytes
  import opened Wrappers

  const DIGITS: string := "0123456789abcdef"

  function Encode(bs: seq<byte>): (s: string)
    ensures |s| == 2 * |bs|
  {
    if bs == [] then "" else [DIGITS[bs[0] / 16], DIGITS[bs[0] % 16]] + Encode(bs[1..])
  }

  function DigitOf(c: char): Option<nat> {
    if '0' <= c <= '9' then Some(c as int - '0' as int)
    else if 'a' <= c <= 'f' then Some(c as int - 'a' as int + 10)
    else if 'A' <= c <= 'F' then Some(c as int - 'A' as int + 10)
    else None
  }

  /** Fails on an odd length or a character that is no digit. */
  function Decode(s: string): Option<seq<byte>> {
    if s == "" then Some([])
    else if |s| == 1 then None
    else
      match (DigitOf(s[0]), DigitOf(s[1]), Decode(s[2..]))
      case (Some(hi), Some(lo), Some(rest)) => if hi < 16 && lo < 16 then Some([hi * 16 + lo] + rest) else None
      case _ => None
  }

  lemma {:induction false} EncodeConcat(a: seq<byte>, b: seq<byte>)
    ensures Encode(a + b) == Encode(a) + Encode(b)
  {
    if a == [] {
      assert a + b == b;
    } else {
      assert (a + b)[1..] == a[1..] + b;
      EncodeConcat(a[1..], b);
    }
  }

  lemma DigitRoundTrip(n: nat)
    requires n < 16
    ensures DigitOf(DIGITS[n]) == Some(n)
  {
  }

  lemma DecodeByte(hi: char, lo: char, rest: string, b: byte)
    requires DigitOf(hi) == Some(b / 16) && DigitOf(lo) == Some(b % 16)
    ensures Decode([hi, lo] + rest) ==
            match Decode(rest) { case Some(bs) => Some([b] + bs) case None => None }
  {
    assert ([hi, lo] + rest)[2..] == rest;
  }

  lemma {:induction false} DecodeEncode(bs: seq<byte>)
    ensures Decode(Encode(bs)) == Some(bs)
  {
    if bs == [] {
    } else {
      DecodeEncode(bs[1..]);
      DigitRoundTrip(bs[0] / 16);
      DigitRoundTrip(bs[0] % 16);
      DecodeByte(DIGITS[bs[0] / 16], DIGITS[bs[0] % 16], Encode(bs[1..]), bs[0]);
      assert bs == [bs[0]] + bs[1..];
    }
  }
}
