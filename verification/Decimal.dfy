/** Decimal text of natural numbers. */
module Decimal {
  import opened Arithmetic

  predicate IsDigit(c: char) { '0' <= c <= '9' }

  predicate AllDigits(s: string) {
    forall i :: 0 <= i < |s| ==> IsDigit(s[i])
  }

  function DigitValue(c: char): nat
    requires IsDigit(c)
  {
    c as int - '0' as int
  }

  function DigitChar(n: nat): char
    requires n < 10
  {
    ('0' as int + n) as char
  }

  function Value(s: string): nat
    requires AllDigits(s)
  {
    if s == "" then 0 else Value(s[..|s| - 1]) * 10 + DigitValue(s[|s| - 1])
  }

  function Show(n: nat): string {
    if n < 10 then [DigitChar(n)] else Show(n / 10) + [DigitChar(n % 10)]
  }

  function Zeros(n: nat): (s: string)
    ensures |s| == n && AllDigits(s)
  {
    seq(n, _ => '0')
  }

  function PadLeft(s: string, width: nat): string {
    if |s| >= width then s else Zeros(width - |s|) + s
  }

  lemma {:induction false} ValueConcat(a: string, b: string)
    requires AllDigits(a) && AllDigits(b)
    ensures AllDigits(a + b)
    ensures Value(a + b) == Value(a) * Pow(10, |b|) + Value(b)
  {
    if b == "" {
      assert a + b == a;
    } else {
      var b' := b[..|b| - 1];
      ValueConcat(a, b');
      assert (a + b)[..|a + b| - 1] == a + b';
      MulAssoc(Value(a), Pow(10, |b'|), 10);
    }
  }

  lemma {:induction false} ValueOfZeros(n: nat)
    ensures Value(Zeros(n)) == 0
  {
    if n == 0 {
    } else {
      assert Zeros(n)[..n - 1] == Zeros(n - 1);
      ValueOfZeros(n - 1);
    }
  }

  lemma {:induction false} ValueBound(s: string)
    requires AllDigits(s)
    ensures Value(s) < Pow(10, |s|)
  {
    if s == "" {
    } else {
      ValueBound(s[..|s| - 1]);
    }
  }

  predicate Canonical(s: string) {
    s != "" && AllDigits(s) && (s[0] == '0' ==> |s| == 1)
  }

  lemma ShowDigit(c: char)
    requires IsDigit(c)
    ensures Show(DigitValue(c)) == [c]
  {
  }

  lemma ValueSnoc(s: string, c: char)
    requires AllDigits(s) && IsDigit(c)
    ensures AllDigits(s + [c]) && Value(s + [c]) == Value(s) * 10 + DigitValue(c)
  {
    assert (s + [c])[..|s|] == s;
  }

  lemma ShowAppend(v: nat, c: char)
    requires v >= 1 && IsDigit(c)
    ensures Show(v * 10 + DigitValue(c)) == Show(v) + [c]
  {
    DivModUnique(v * 10 + DigitValue(c), 10, v, DigitValue(c));
  }

  lemma ShowSnoc(s: string, c: char)
    requires AllDigits(s) && IsDigit(c) && Value(s) >= 1 && Show(Value(s)) == s
    ensures AllDigits(s + [c]) && Show(Value(s + [c])) == s + [c] && Value(s + [c]) >= 1
  {
    ValueSnoc(s, c);
    ShowAppend(Value(s), c);
  }

  lemma ShowOneDigit(c: char)
    requires IsDigit(c)
    ensures AllDigits([c]) && Value([c]) == DigitValue(c) && Show(Value([c])) == [c]
  {
    assert [c][..0] == "";
    ShowDigit(c);
  }

  lemma {:induction false} ShowValue(s: string)
    requires Canonical(s)
    ensures Show(Value(s)) == s
    ensures s[0] != '0' ==> Value(s) >= 1
  {
    if |s| == 1 {
      assert s == [s[0]];
      ShowOneDigit(s[0]);
    } else {
      var s', c := s[..|s| - 1], s[|s| - 1];
      assert s == s' + [c];
      ShowValue(s');
      ShowSnoc(s', c);
    }
  }

  /** The text of 0, filled up, is all zeros, and a digit after zeros is that digit, filled up. */
  lemma PadAfterZeros(s: string, c: char)
    requires s != "" && IsDigit(c) && PadLeft(Show(0), |s|) == s
    ensures PadLeft(Show(DigitValue(c)), |s| + 1) == s + [c]
  {
    ShowDigit(c);
    assert Zeros(|s| - 1) + "0" == Zeros(|s|);
  }

  /** One more digit after a number other than 0. */
  lemma PadAfterNumber(s: string, v: nat, c: char)
    requires s != "" && IsDigit(c) && 1 <= v < Pow(10, |s|) && PadLeft(Show(v), |s|) == s
    ensures PadLeft(Show(v * 10 + DigitValue(c)), |s| + 1) == s + [c]
  {
    ShowAppend(v, c);
    ShowLength(v, |s|);
  }

  lemma PadZeroSnoc(s: string, c: char)
    requires s != "" && AllDigits(s) && IsDigit(c) && Value(s) == 0 && PadLeft(Show(0), |s|) == s
    ensures AllDigits(s + [c]) && PadLeft(Show(Value(s + [c])), |s| + 1) == s + [c]
  {
    ValueSnoc(s, c);
    PadAfterZeros(s, c);
  }

  lemma PadNumberSnoc(s: string, c: char, v: nat)
    requires s != "" && AllDigits(s) && IsDigit(c) && 1 <= Value(s) == v && PadLeft(Show(v), |s|) == s
    ensures AllDigits(s + [c]) && PadLeft(Show(Value(s + [c])), |s| + 1) == s + [c]
  {
    ValueSnoc(s, c);
    ValueBound(s);
    PadAfterNumber(s, v, c);
  }

  lemma {:induction false} PadShowValue(s: string)
    requires s != "" && AllDigits(s)
    ensures PadLeft(Show(Value(s)), |s|) == s
  {
    if |s| == 1 {
      assert s == [s[0]];
      ShowOneDigit(s[0]);
    } else {
      var s', c := s[..|s| - 1], s[|s| - 1];
      assert s == s' + [c];
      PadShowValue(s');
      if Value(s') == 0 {
        PadZeroSnoc(s', c);
      } else {
        PadNumberSnoc(s', c, Value(s'));
      }
    }
  }

  lemma {:induction false} ShowLength(n: nat, width: nat)
    requires n < Pow(10, width) && width >= 1
    ensures 1 <= |Show(n)| <= width
  {
    if n < 10 {
    } else {
      assert width > 1 by {
        assert Pow(10, 1) == 10;
      }
      ShowLength(n / 10, width - 1);
    }
  }

  lemma {:induction false} ValueShow(n: nat)
    ensures AllDigits(Show(n)) && Value(Show(n)) == n
  {
    if n >= 10 {
      ValueShow(n / 10);
      assert Show(n)[..|Show(n)| - 1] == Show(n / 10);
    } else {
      assert Value(Show(n)[..0]) == 0;
    }
  }

  lemma PaddedValue(n: nat, width: nat)
    requires width >= 1 && n < Pow(10, width)
    ensures var s := PadLeft(Show(n), width); |s| == width && AllDigits(s) && Value(s) == n
  {
    ShowLength(n, width);
    ValueShow(n);
    ValueOfZeros(width - |Show(n)|);
    ValueConcat(Zeros(width - |Show(n)|), Show(n));
  }
}
