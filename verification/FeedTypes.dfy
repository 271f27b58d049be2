/** Feed values and their on-chain encoding: a decimal scaled to an integer in a 24-byte field,
    followed by an 8-byte timestamp. */
module FeedTypes {
  import opened Arithmetic
  import opened Bytes
  import opened Wrappers
  import opened Decimal

  /** A float is modelled by its real value and the decimal text it prints as;
      the printing itself is not modelled. */
  datatype FeedType =
    | Numerical(val: real, shown: string)
    | Text(utf8: seq<byte>)
    | Binary(bytes: seq<byte>)

  datatype CodecError = ParseFailure | TooShort | Panic

  //
  // Decimal text
  //

  /** Splits at every point, like `split('.')`. */
  function SplitAtPoints(s: string): (parts: seq<string>)
    ensures |parts| >= 1
  {
    if s == "" then [""]
    else
      var rest := SplitAtPoints(s[1..]);
      if s[0] == '.' then [""] + rest else [[s[0]] + rest[0]] + rest[1..]
  }

  function ParseNat(s: string): Option<nat> {
    if s != "" && AllDigits(s) then Some(Value(s)) else None
  }

  function TakeAtMost(s: string, n: nat): string {
    if |s| <= n then s else s[..n]
  }

  //
  // The codec
  //

  function ScaledValue(shown: string, digitsInFraction: nat): Result<nat, CodecError> {
    var parts := SplitAtPoints(shown);
    match ParseNat(parts[0])
    case None => Err(ParseFailure)
    case Some(integer) =>
      if |parts| == 1 then Ok(integer * Pow(10, digitsInFraction))
      else
        var kept := TakeAtMost(parts[1], digitsInFraction);
        match ParseNat(kept)
        case None => Err(ParseFailure)
        case Some(fraction) =>
          Ok(integer * Pow(10, digitsInFraction) + fraction * Pow(10, digitsInFraction - |kept|))
  }

  function AsBytes(value: FeedType, digitsInFraction: nat, timestamp: nat): Result<seq<byte>, CodecError> {
    match value
    case Numerical(_, shown) =>
      (match ScaledValue(shown, digitsInFraction)
       case Err(e) => Err(e)
       case Ok(scaled) =>
         if scaled >= TWO_256 then Err(Panic)
         else
           var valueBytes := TruncateLeadingZeroBytes(ToBE(scaled, 32));
           var padded := seq(32 - |valueBytes|, _ => 0) + valueBytes;
           Ok(padded[8..] + ToBE(timestamp, 8)))
    case Text(utf8) => Ok(utf8)
    case Binary(bytes) => Ok(bytes)
  }

  /** The decimal text `from_bytes` hands to the float parser. */
  function DecimalFromBytes(bytes: seq<byte>, digitsInFraction: nat): Result<string, CodecError> {
    if |bytes| < 32 then Err(TooShort)
    else
      PowPositive(10, digitsInFraction);
      var combined := FromBE([0, 0, 0, 0, 0, 0, 0, 0] + bytes[..24]);
      var fraction := combined % Pow(10, digitsInFraction);
      var integer := combined / Pow(10, digitsInFraction);
      Ok(Show(integer) + "." + PadLeft(Show(fraction), digitsInFraction))
  }

  //
  // Properties
  //

  lemma {:induction false} SplitDigits(s: string)
    requires AllDigits(s)
    ensures SplitAtPoints(s) == [s]
  {
    if s == "" {
    } else {
      SplitDigits(s[1..]);
      assert s == [s[0]] + s[1..];
    }
  }

  lemma {:induction false} SplitAtOnePoint(i: string, f: string)
    requires AllDigits(i) && AllDigits(f)
    ensures SplitAtPoints(i + "." + f) == [i, f]
  {
    var s := i + "." + f;
    if i == "" {
      assert s[1..] == f;
      SplitDigits(f);
    } else {
      assert s[1..] == i[1..] + "." + f;
      SplitAtOnePoint(i[1..], f);
      assert i == [i[0]] + i[1..];
    }
  }

  /** The text of a non-negative float: an integer part, and a fraction unless it is whole. */
  function DecimalText(integer: string, fraction: Option<string>): string {
    match fraction
    case None => integer
    case Some(f) => integer + "." + f
  }

  ghost predicate IsDecimal(integer: string, fraction: Option<string>) {
    Canonical(integer) && (fraction.Some? ==> fraction.value != "" && AllDigits(fraction.value))
  }

  /** The fraction cut or filled up with zeros to exactly `d` digits. */
  function FitFraction(fraction: Option<string>, d: nat): (s: string)
    requires fraction.Some? ==> AllDigits(fraction.value)
    ensures |s| == d && AllDigits(s)
  {
    match fraction
    case None => Zeros(d)
    case Some(f) => var kept := TakeAtMost(f, d); kept + Zeros(d - |kept|)
  }

  lemma FitFractionValue(fraction: Option<string>, d: nat)
    requires fraction.Some? ==> AllDigits(fraction.value)
    ensures Value(FitFraction(fraction, d)) ==
            match fraction
            case None => 0
            case Some(f) => Value(TakeAtMost(f, d)) * Pow(10, d - |TakeAtMost(f, d)|)
  {
    match fraction
    case None =>
      ValueOfZeros(d);
    case Some(f) =>
      var kept := TakeAtMost(f, d);
      ValueConcat(kept, Zeros(d - |kept|));
      ValueOfZeros(d - |kept|);
  }

  /** Reading the text as one digit string with the point removed is what gets encoded. */
  lemma ScaledValueIsDigitString(integer: string, fraction: Option<string>, d: nat)
    requires IsDecimal(integer, fraction)
    ensures AllDigits(integer + FitFraction(fraction, d))
    ensures ScaledValue(DecimalText(integer, fraction), d) ==
            if fraction.Some? && d == 0 then Err(ParseFailure)
            else Ok(Value(integer + FitFraction(fraction, d)))
  {
    ValueConcat(integer, FitFraction(fraction, d));
    FitFractionValue(fraction, d);
    match fraction
    case None => ScaledWhole(integer, d);
    case Some(f) => ScaledWithFraction(integer, f, d);
  }

  lemma ScaledWhole(integer: string, d: nat)
    requires Canonical(integer)
    ensures ScaledValue(integer, d) == Ok(Value(integer) * Pow(10, d))
  {
    SplitDigits(integer);
  }

  lemma ScaledWithFraction(integer: string, f: string, d: nat)
    requires Canonical(integer) && f != "" && AllDigits(f)
    ensures ScaledValue(integer + "." + f, d) ==
            if d == 0 then Err(ParseFailure)
            else Ok(Value(integer) * Pow(10, d) + Value(TakeAtMost(f, d)) * Pow(10, d - |TakeAtMost(f, d)|))
  {
    SplitAtOnePoint(integer, f);
  }

  lemma PaddedBytes(scaled: nat)
    requires scaled < TWO_256
    ensures var valueBytes := TruncateLeadingZeroBytes(ToBE(scaled, 32));
            FromBE(seq(32 - |valueBytes|, _ => 0) + valueBytes) == scaled
  {
    Pow256Values();
    TruncatedRoundTrip(scaled, 32);
    var valueBytes := TruncateLeadingZeroBytes(ToBE(scaled, 32));
    var zeros: seq<byte> := seq(32 - |valueBytes|, _ => 0);
    FromBEConcat(zeros, valueBytes);
    ZeroBytes(zeros);
  }

  /** Thirty-two bytes of the scaled value, padded on the left; dropping eight keeps the residue. */
  lemma DrainedBytes(scaled: nat)
    requires scaled < TWO_256
    ensures var valueBytes := TruncateLeadingZeroBytes(ToBE(scaled, 32));
            (seq(32 - |valueBytes|, _ => 0) + valueBytes)[8..] == ToBE(scaled % TWO_192, 24)
  {
    var valueBytes := TruncateLeadingZeroBytes(ToBE(scaled, 32));
    var padded: seq<byte> := seq(32 - |valueBytes|, _ => 0) + valueBytes;
    PaddedBytes(scaled);
    LowBytes(padded);
    Pow256Values();
    FromToBESmall(FromBE(padded[8..]), 24);
    FromBEInjective(padded[8..], ToBE(FromBE(padded[8..]), 24));
  }

  lemma LowBytes(bs: seq<byte>)
    requires |bs| == 32
    ensures FromBE(bs[8..]) == FromBE(bs) % TWO_192 < TWO_192
  {
    assert bs == bs[..8] + bs[8..];
    FromBEConcat(bs[..8], bs[8..]);
    FromBEBound(bs[8..]);
    Pow256Values();
    DivModUnique(FromBE(bs), TWO_192, FromBE(bs[..8]), FromBE(bs[8..]));
  }

  /** Encoding a scaled value keeps exactly its residue modulo 2^192, then the timestamp. */
  lemma EncodedLayout(value: FeedType, d: nat, timestamp: nat)
    requires value.Numerical? && ScaledValue(value.shown, d).Ok?
    ensures var scaled := ScaledValue(value.shown, d).value;
            if scaled >= TWO_256 then AsBytes(value, d, timestamp) == Err(Panic)
            else AsBytes(value, d, timestamp) == Ok(ToBE(scaled % TWO_192, 24) + ToBE(timestamp, 8))
  {
    var scaled := ScaledValue(value.shown, d).value;
    if scaled < TWO_256 {
      DrainedBytes(scaled);
    }
  }

  lemma {:induction false} ZeroBytes(bs: seq<byte>)
    requires forall i :: 0 <= i < |bs| ==> bs[i] == 0
    ensures FromBE(bs) == 0
  {
    if bs == [] {
    } else {
      ZeroBytes(bs[..|bs| - 1]);
    }
  }

  lemma FieldValue(n: nat, timestamp: nat)
    requires n < TWO_192
    ensures var bytes := ToBE(n, 24) + ToBE(timestamp, 8);
            && bytes[24..] == ToBE(timestamp, 8)
            && FromBE(bytes[..24]) == n
            && FromBE([0, 0, 0, 0, 0, 0, 0, 0] + bytes[..24]) == n
  {
    var bytes := ToBE(n, 24) + ToBE(timestamp, 8);
    var zeros: seq<byte> := [0, 0, 0, 0, 0, 0, 0, 0];
    assert bytes[..24] == ToBE(n, 24) && bytes[24..] == ToBE(timestamp, 8);
    Pow256Values();
    ZeroBytes(zeros);
    FromBEConcat(zeros, ToBE(n, 24));
    FromToBESmall(n, 24);
  }

  /** Decoding a 24-byte field shows the integer it holds with the point put back. */
  lemma DecodedField(n: nat, q: nat, r: nat, d: nat, timestamp: nat)
    requires r < Pow(10, d) && n == q * Pow(10, d) + r < TWO_192
    ensures DecimalFromBytes(ToBE(n, 24) + ToBE(timestamp, 8), d) == Ok(Show(q) + "." + PadLeft(Show(r), d))
  {
    FieldValue(n, timestamp);
    DivModUnique(n, Pow(10, d), q, r);
  }

  /** Which decimals can be encoded at all: with a fraction there must be digits to keep,
      and the scaled value must be below 2^256. */
  lemma EncodableExactly(val: real, integer: string, fraction: Option<string>, d: nat, timestamp: nat)
    requires IsDecimal(integer, fraction)
    ensures AllDigits(integer + FitFraction(fraction, d))
    ensures AsBytes(Numerical(val, DecimalText(integer, fraction)), d, timestamp) ==
            if fraction.Some? && d == 0 then Err(ParseFailure)
            else if Value(integer + FitFraction(fraction, d)) >= TWO_256 then Err(Panic)
            else Ok(ToBE(Value(integer + FitFraction(fraction, d)) % TWO_192, 24) + ToBE(timestamp, 8))
  {
    ScaledValueIsDigitString(integer, fraction, d);
    if fraction.None? || d > 0 {
      EncodedLayout(Numerical(val, DecimalText(integer, fraction)), d, timestamp);
    }
  }

  /** Fewer than 32 bytes are no decimal. */
  lemma ShortBytesRejected(bytes: seq<byte>, d: nat)
    ensures DecimalFromBytes(bytes, d) == Err(TooShort) <==> |bytes| < 32
  {
  }

  /** Text and bytes are written as they are. */
  lemma RawValues(bytes: seq<byte>, d: nat, timestamp: nat)
    ensures AsBytes(Text(bytes), d, timestamp) == Ok(bytes) == AsBytes(Binary(bytes), d, timestamp)
  {
  }

  /** A negative decimal cannot be encoded: its sign does not parse as a digit. */
  lemma NegativeIsRejected(val: real, shown: string, d: nat, timestamp: nat)
    requires shown != "" && shown[0] == '-'
    ensures AsBytes(Numerical(val, shown), d, timestamp) == Err(ParseFailure)
  {
    assert SplitAtPoints(shown)[0][0] == '-' && !IsDigit('-');
  }

  /** 24 bytes hold the scaled value modulo 2^192, the last 8 bytes the timestamp. */
  lemma EncodedFields(val: real, integer: string, fraction: Option<string>, d: nat, timestamp: nat, encoded: seq<byte>)
    requires IsDecimal(integer, fraction) && d >= 1
    requires AsBytes(Numerical(val, DecimalText(integer, fraction)), d, timestamp) == Ok(encoded)
    ensures AllDigits(integer + FitFraction(fraction, d))
    ensures |encoded| == 32 && encoded[24..] == ToBE(timestamp, 8)
    ensures FromBE(encoded[..24]) == Value(integer + FitFraction(fraction, d)) % TWO_192
  {
    EncodableExactly(val, integer, fraction, d, timestamp);
    FieldValue(Value(integer + FitFraction(fraction, d)) % TWO_192, timestamp);
  }

  /** The codec round trip: decoding gives the text cut (or filled up) to `d` fractional digits
      back exactly when the scaled value fits its field. */
  lemma CodecRoundTrip(val: real, integer: string, fraction: Option<string>, d: nat, timestamp: nat, encoded: seq<byte>)
    requires IsDecimal(integer, fraction) && d >= 1
    requires AsBytes(Numerical(val, DecimalText(integer, fraction)), d, timestamp) == Ok(encoded)
    ensures AllDigits(integer + FitFraction(fraction, d))
    ensures DecimalFromBytes(encoded, d) == Ok(integer + "." + FitFraction(fraction, d))
            <==> Value(integer + FitFraction(fraction, d)) < TWO_192
  {
    EncodableExactly(val, integer, fraction, d, timestamp);
    var g := FitFraction(fraction, d);
    ModKeepsSmall(Value(integer + g), TWO_192);
    ResidueRoundTrip(integer, g, Value(integer + g) % TWO_192, timestamp);
  }

  lemma ResidueRoundTrip(integer: string, g: string, n: nat, timestamp: nat)
    requires Canonical(integer) && AllDigits(g) && |g| >= 1 && n < TWO_192
    ensures AllDigits(integer + g)
    ensures DecimalFromBytes(ToBE(n, 24) + ToBE(timestamp, 8), |g|) == Ok(integer + "." + g)
            <==> Value(integer + g) == n
  {
    PowPositive(10, |g|);
    var q, r := DivModParts(n, Pow(10, |g|));
    FieldRoundTrip(integer, g, n, q, r, timestamp);
  }

  lemma SameTextSameParts(a: string, b: string, a': string, b': string)
    requires |b| == |b'| && a + "." + b == a' + "." + b'
    ensures a == a' && b == b'
  {
    var s, s' := a + "." + b, a' + "." + b';
    assert |a| == |a'|;
    assert a == s[..|a|] && a' == s'[..|a'|];
    assert b == s[|a| + 1..] && b' == s'[|a'| + 1..];
  }

  lemma DecodedTextDetermines(integer: string, g: string, q: nat, r: nat)
    requires Canonical(integer) && AllDigits(g) && |g| >= 1 && r < Pow(10, |g|)
    requires Show(q) + "." + PadLeft(Show(r), |g|) == integer + "." + g
    ensures AllDigits(integer + g) && Value(integer + g) == q * Pow(10, |g|) + r
  {
    PaddedValue(r, |g|);
    SameTextSameParts(Show(q), PadLeft(Show(r), |g|), integer, g);
    ValueShow(q);
    ValueConcat(integer, g);
  }

  lemma FieldRoundTrip(integer: string, g: string, n: nat, q: nat, r: nat, timestamp: nat)
    requires Canonical(integer) && AllDigits(g) && |g| >= 1
    requires r < Pow(10, |g|) && n == q * Pow(10, |g|) + r < TWO_192
    ensures AllDigits(integer + g)
    ensures DecimalFromBytes(ToBE(n, 24) + ToBE(timestamp, 8), |g|) == Ok(integer + "." + g)
            <==> Value(integer + g) == n
  {
    DecodedField(n, q, r, |g|, timestamp);
    ValueConcat(integer, g);
    if Show(q) + "." + PadLeft(Show(r), |g|) == integer + "." + g {
      DecodedTextDetermines(integer, g, q, r);
    }
    if Value(integer + g) == n {
      ValueBound(g);
      EuclidUnique(Pow(10, |g|), q, r, Value(integer), Value(g));
      ShowValue(integer);
      PadShowValue(g);
    }
  }
}
