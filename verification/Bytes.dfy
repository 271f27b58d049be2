/** Big-endian integers as byte strings, and the truncated form the calldata uses. */
module Bytes {
  import opened Arithmetic

  type byte = x: int | 0 <= x < 256

  const TWO_32: nat := 0x1_0000_0000
  const TWO_64: nat := 0x1_0000_0000_0000_0000
  const TWO_192: nat := 0x1_0000_0000_0000_0000_0000_0000_0000_0000_0000_0000_0000_0000
  const TWO_256: nat := 0x1_0000_0000_0000_0000_0000_0000_0000_0000_0000_0000_0000_0000_0000_0000_0000_0000

  /** The integer a big-endian byte string denotes. */
  function FromBE(bs: seq<byte>): nat {
    if bs == [] then 0 else FromBE(bs[..|bs| - 1]) * 256 + bs[|bs| - 1]
  }

  /** `to_be_bytes` of an integer type of `width` bytes: keeps the low `width` bytes. */
  function ToBE(n: nat, width: nat): (bs: seq<byte>)
    ensures |bs| == width
  {
    if width == 0 then [] else ToBE(n / 256, width - 1) + [n % 256]
  }

  function SkipZeros(bs: seq<byte>): (rest: seq<byte>)
    ensures |rest| <= |bs|
    ensures rest != [] ==> rest[0] != 0
  {
    if bs == [] || bs[0] != 0 then bs else SkipZeros(bs[1..])
  }

  /** Drops the leading zero bytes, but leaves one byte for zero itself. */
  function TruncateLeadingZeroBytes(bs: seq<byte>): (r: seq<byte>)
    ensures 1 <= |r| && (bs != [] ==> |r| <= |bs|)
  {
    var rest := SkipZeros(bs);
    if rest == [] then [0] else rest
  }

  lemma {:induction false} FromToBE(n: nat, width: nat)
    ensures Pow(256, width) > 0
    ensures FromBE(ToBE(n, width)) == n % Pow(256, width)
  {
    PowPositive(256, width);
    if width == 0 {
    } else {
      PowPositive(256, width - 1);
      FromToBE(n / 256, width - 1);
      assert ToBE(n, width)[..width - 1] == ToBE(n / 256, width - 1);
      ModTwice(n, 256, Pow(256, width - 1));
    }
  }

  lemma FromToBESmall(n: nat, width: nat)
    requires n < Pow(256, width)
    ensures FromBE(ToBE(n, width)) == n
  {
    FromToBE(n, width);
  }

  lemma {:induction false} FromBEBound(bs: seq<byte>)
    ensures FromBE(bs) < Pow(256, |bs|)
  {
    if bs == [] {
    } else {
      FromBEBound(bs[..|bs| - 1]);
    }
  }

  lemma {:induction false} FromBEConcat(a: seq<byte>, b: seq<byte>)
    ensures FromBE(a + b) == FromBE(a) * Pow(256, |b|) + FromBE(b)
  {
    if b == [] {
      assert a + b == a;
    } else {
      var b' := b[..|b| - 1];
      assert (a + b)[..|a + b| - 1] == a + b';
      FromBEConcat(a, b');
      assert FromBE(a) * Pow(256, |b|) == FromBE(a) * Pow(256, |b'|) * 256 by {
        MulAssoc(FromBE(a), Pow(256, |b'|), 256);
      }
    }
  }

  /** Equal-length byte strings that denote the same integer are the same string. */
  lemma {:induction false} FromBEInjective(a: seq<byte>, b: seq<byte>)
    requires |a| == |b| && FromBE(a) == FromBE(b)
    ensures a == b
  {
    if a == [] {
    } else {
      FromBEInjective(a[..|a| - 1], b[..|b| - 1]);
      assert a == a[..|a| - 1] + [a[|a| - 1]];
      assert b == b[..|b| - 1] + [b[|b| - 1]];
    }
  }

  lemma {:induction false} SkipZerosKeepsValue(bs: seq<byte>)
    ensures FromBE(SkipZeros(bs)) == FromBE(bs)
  {
    if bs == [] || bs[0] != 0 {
    } else {
      SkipZerosKeepsValue(bs[1..]);
      FromBEConcat([0], bs[1..]);
      assert bs == [0] + bs[1..];
      assert FromBE([0]) == 0;
    }
  }

  lemma TruncateKeepsValue(bs: seq<byte>)
    ensures FromBE(TruncateLeadingZeroBytes(bs)) == FromBE(bs)
  {
    SkipZerosKeepsValue(bs);
    assert FromBE([0]) == 0;
  }

  /** The truncated big-endian form is inverted by reading it back. */
  lemma TruncatedRoundTrip(n: nat, width: nat)
    requires width > 0 && n < Pow(256, width)
    ensures var bs := TruncateLeadingZeroBytes(ToBE(n, width));
            FromBE(bs) == n && 1 <= |bs| <= width
  {
    TruncateKeepsValue(ToBE(n, width));
    FromToBESmall(n, width);
  }

  /** A number below 256^k needs at most k bytes once truncated. */
  lemma {:induction false} SkipZerosShort(bs: seq<byte>, k: nat)
    requires FromBE(bs) < Pow(256, k)
    ensures |SkipZeros(bs)| <= k
  {
    if bs != [] && bs[0] == 0 {
      SkipZerosKeepsValue(bs);
      SkipZerosKeepsValue(bs[1..]);
      SkipZerosShort(bs[1..], k);
    } else if |bs| > k {
      assert bs == [bs[0]] + bs[1..];
      FromBEConcat([bs[0]], bs[1..]);
      assert [bs[0]][..0] == [];
      assert FromBE([bs[0]]) == bs[0] >= 1;
      PowMono(256, k, |bs| - 1);
      MulLeMul(1, Pow(256, |bs| - 1), bs[0], Pow(256, |bs| - 1));
    }
  }

  lemma Pow256Values()
    ensures Pow(256, 8) == TWO_64 && Pow(256, 24) == TWO_192 && Pow(256, 32) == TWO_256
  {
    assert Pow(256, 8) == TWO_64;
    PowAdd(256, 8, 8);
    PowAdd(256, 16, 8);
    PowAdd(256, 24, 8);
  }
}
