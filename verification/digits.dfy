/** Python's decimal formatting of naturals, `f"{n}"` and `f"{n:0<w>d}"`, and reading
    digit strings back. */
module Digits {
  import opened Text

  predicate IsDigit(c: char) {
    '0' <= c <= '9'
  }

  function DigitChar(d: nat): (c: char)
    requires d < 10
    ensures IsDigit(c)
  {
    ('0' as int + d) as char
  }

  function Pow10(w: nat): (p: nat)
    ensures p >= 1
  {
    if w == 0 then 1 else 10 * Pow10(w - 1)
  }

  /** `str(n)`: the decimal digits of `n`, without leading zeros. */
  function Decimal(n: nat): (r: string)
    ensures |r| >= 1
    ensures forall i :: 0 <= i < |r| ==> IsDigit(r[i])
  {
    if n < 10 then [DigitChar(n)] else Decimal(n / 10) + [DigitChar(n % 10)]
  }

  /** `k` copies of '0'. */
  function Zeros(k: nat): (r: string)
    ensures |r| == k
    ensures forall i :: 0 <= i < k ==> r[i] == '0'
  {
    seq(k, _ => '0')
  }

  /** The `0<w>` format specification: left-padded with zeros to at least `width`
      characters, never truncated. */
  function ZeroPad(s: string, width: nat): (r: string)
    ensures |r| == if |s| < width then width else |s|
  {
    (if |s| < width then Zeros(width - |s|) else []) + s
  }

  /** The number a string of digits denotes (leading zeros allowed). */
  function DigitsValue(s: string): nat
    requires forall i :: 0 <= i < |s| ==> IsDigit(s[i])
  {
    if |s| == 0 then 0
    else
      assert IsDigit(s[|s| - 1]);
      DigitsValue(s[..|s| - 1]) * 10 + (s[|s| - 1] as int - '0' as int)
  }

  /** Reading the decimal digits of `n` gives `n` back. */
  lemma {:induction false} DecimalRoundTrip(n: nat)
    ensures DigitsValue(Decimal(n)) == n
  {
    if n >= 10 {
      DecimalRoundTrip(n / 10);
      var d := Decimal(n);
      assert d[..|d| - 1] == Decimal(n / 10);
    }
  }

  /** Leading zeros do not change the value. */
  lemma {:induction false} LeadingZerosIgnored(k: nat, s: string)
    requires forall i :: 0 <= i < |s| ==> IsDigit(s[i])
    ensures DigitsValue(Zeros(k) + s) == DigitsValue(s)
  {
    var z := Zeros(k) + s;
    if |s| == 0 {
      assert z == Zeros(k);
      AllZerosValue(k);
    } else {
      assert z[..|z| - 1] == Zeros(k) + s[..|s| - 1];
      LeadingZerosIgnored(k, s[..|s| - 1]);
    }
  }

  /** A string of zeros denotes zero. */
  lemma {:induction false} AllZerosValue(k: nat)
    ensures DigitsValue(Zeros(k)) == 0
  {
    if k > 0 {
      assert Zeros(k)[..k - 1] == Zeros(k - 1);
      AllZerosValue(k - 1);
    }
  }

  /** Zero-padding keeps the value. */
  lemma ZeroPadRoundTrip(n: nat, width: nat)
    ensures forall i :: 0 <= i < |ZeroPad(Decimal(n), width)| ==> IsDigit(ZeroPad(Decimal(n), width)[i])
    ensures DigitsValue(ZeroPad(Decimal(n), width)) == n
  {
    var d := Decimal(n);
    DecimalRoundTrip(n);
    if |d| < width {
      LeadingZerosIgnored(width - |d|, d);
    } else {
      assert ZeroPad(d, width) == d;
    }
  }

  /** The last `w` decimal digits of `n`, zeros in front. */
  function FixedDigits(n: nat, w: nat): (r: string)
    ensures |r| == w
  {
    if w == 0 then [] else FixedDigits(n / 10, w - 1) + [DigitChar(n % 10)]
  }

  /** A number below 10^w has at most w digits. */
  lemma {:induction false} DecimalLength(n: nat, w: nat)
    requires 1 <= w && n < Pow10(w)
    ensures |Decimal(n)| <= w
  {
    if n >= 10 {
      assert w >= 2;
      DecimalLength(n / 10, w - 1);
    }
  }

  lemma {:induction false} FixedDigitsOfZero(w: nat)
    ensures FixedDigits(0, w) == Zeros(w)
  {
    if w > 0 {
      FixedDigitsOfZero(w - 1);
    }
  }

  /** Below 10^w, padding the decimal digits to width w gives exactly w digits. */
  lemma {:induction false} PaddedIsFixed(n: nat, w: nat)
    requires 1 <= w && n < Pow10(w)
    ensures ZeroPad(Decimal(n), w) == FixedDigits(n, w)
  {
    if n < 10 {
      FixedDigitsOfZero(w - 1);
    } else {
      assert w >= 2;
      PaddedIsFixed(n / 10, w - 1);
      DecimalLength(n / 10, w - 1);
      var d := Decimal(n / 10);
      assert ZeroPad(Decimal(n), w) == ZeroPad(d, w - 1) + [DigitChar(n % 10)];
    }
  }

  /** Fixed-width digit strings sort as the numbers they denote. */
  lemma {:induction false} FixedDigitsOrdered(j: nat, k: nat, w: nat)
    requires j < k < Pow10(w)
    ensures LexLess(FixedDigits(j, w), FixedDigits(k, w))
  {
    assert w >= 1;
    if j / 10 < k / 10 {
      FixedDigitsOrdered(j / 10, k / 10, w - 1);
      LexLessSnoc(FixedDigits(j / 10, w - 1), FixedDigits(k / 10, w - 1), DigitChar(j % 10), DigitChar(k % 10));
    } else {
      LexLessSnoc(FixedDigits(j / 10, w - 1), FixedDigits(k / 10, w - 1), DigitChar(j % 10), DigitChar(k % 10));
    }
  }
}
