/**
 * Decimal numerals as Python's string formatting writes them for
 * non-negative integers: `str(n)` (and `f"{n}"`) gives the shortest numeral,
 * and the format spec `{:0wd}` pads that numeral on the left with zeros up to
 * width `w` (a numeral that is already wider is left as it is).
 */
module Decimal {

  predicate IsDigit(c: char) {
    '0' <= c <= '9'
  }

  predicate AllDigits(s: string) {
    forall k :: 0 <= k < |s| ==> IsDigit(s[k])
  }

  function DigitValue(c: char): (d: nat)
    requires IsDigit(c)
    ensures d < 10
  {
    c as int - '0' as int
  }

  function DigitChar(d: nat): (c: char)
    requires d < 10
    ensures IsDigit(c) && DigitValue(c) == d
  {
    ('0' as int + d) as char
  }

  lemma DigitCharOfValue(c: char)
    requires IsDigit(c)
    ensures DigitChar(DigitValue(c)) == c
  {
  }

  function Pow10(w: nat): (p: nat)
    ensures p >= 1
  {
    if w == 0 then 1 else 10 * Pow10(w - 1)
  }

  /** The value of a numeral, most significant digit first. */
  function DecimalValue(s: string): nat
    requires AllDigits(s)
  {
    if s == [] then 0 else 10 * DecimalValue(s[..|s| - 1]) + DigitValue(s[|s| - 1])
  }

  /** `str(n)` for `n >= 0`: a non-empty numeral with no leading zero (except "0" itself). */
  function NatToString(n: nat): (s: string)
    ensures |s| >= 1 && AllDigits(s)
    ensures (s[0] == '0') <==> n == 0
    decreases n
  {
    if n < 10 then [DigitChar(n)] else NatToString(n / 10) + [DigitChar(n % 10)]
  }

  function Zeros(k: nat): (z: string)
    ensures |z| == k && AllDigits(z)
    ensures forall i :: 0 <= i < k ==> z[i] == '0'
  {
    seq(k, _ => '0')
  }

  /** `'{:0wd}'.format(n)` for `n >= 0`. */
  function ZeroPad(n: nat, w: nat): (s: string)
    ensures AllDigits(s)
    ensures |s| == if w <= |NatToString(n)| then |NatToString(n)| else w
  {
    var digits := NatToString(n);
    if w <= |digits| then digits else Zeros(w - |digits|) + digits
  }

  /** `str` is a right inverse of the numeral's value. */
  lemma {:induction false} NatToStringValue(n: nat)
    ensures DecimalValue(NatToString(n)) == n
    decreases n
  {
    var s := NatToString(n);
    if n >= 10 {
      NatToStringValue(n / 10);
      assert s[..|s| - 1] == NatToString(n / 10);
    }
  }

  /** `str(n)` has at most `w` digits exactly when `n < 10^w` (for `w >= 1`). */
  lemma {:induction false} NatToStringLength(n: nat, w: nat)
    requires w >= 1
    ensures |NatToString(n)| <= w <==> n < Pow10(w)
    decreases n
  {
    if n >= 10 {
      if w == 1 {
        assert |NatToString(n)| == |NatToString(n / 10)| + 1;
      } else {
        NatToStringLength(n / 10, w - 1);
      }
    }
  }

  lemma {:induction false} ZerosValue(k: nat, s: string)
    requires AllDigits(s)
    ensures AllDigits(Zeros(k) + s) && DecimalValue(Zeros(k) + s) == DecimalValue(s)
    decreases |s|, k
  {
    var t := Zeros(k) + s;
    if s == [] {
      assert t == Zeros(k);
      if k > 0 {
        assert t[..|t| - 1] == Zeros(k - 1) + [];
        ZerosValue(k - 1, []);
      }
    } else {
      assert t[..|t| - 1] == Zeros(k) + s[..|s| - 1];
      ZerosValue(k, s[..|s| - 1]);
    }
  }

  /** Zero padding does not change the value. */
  lemma ZeroPadValue(n: nat, w: nat)
    ensures DecimalValue(ZeroPad(n, w)) == n
  {
    NatToStringValue(n);
    ZeroPadShape(n, w);
    PaddedValue(ZeroPad(n, w), PadCount(n, w), NatToString(n));
  }

  /** How many zeros `{:0wd}` puts in front of `str(n)`. */
  function PadCount(n: nat, w: nat): nat {
    if w <= |NatToString(n)| then 0 else w - |NatToString(n)|
  }

  lemma ZeroPadShape(n: nat, w: nat)
    ensures ZeroPad(n, w) == Zeros(PadCount(n, w)) + NatToString(n)
  {
    if w <= |NatToString(n)| {
      assert Zeros(0) + NatToString(n) == NatToString(n);
    }
  }

  lemma PaddedValue(p: string, k: nat, s: string)
    requires AllDigits(s) && p == Zeros(k) + s
    ensures AllDigits(p) && DecimalValue(p) == DecimalValue(s)
  {
    ZerosValue(k, s);
  }

  /** Padding to a width the value fits in gives exactly that many digits. */
  lemma ZeroPadWidth(n: nat, w: nat)
    requires w >= 1 && n < Pow10(w)
    ensures |ZeroPad(n, w)| == w
  {
    NatToStringLength(n, w);
  }

  /** Every `w`-digit numeral is the zero-padded form of its own value. */
  lemma {:induction false} ZeroPadOfValue(s: string)
    requires |s| >= 1 && AllDigits(s)
    ensures ZeroPad(DecimalValue(s), |s|) == s
    decreases |s|
  {
    var init, c := s[..|s| - 1], s[|s| - 1];
    SnocValue(s);
    if |s| == 1 {
      PadDigit(c);
    } else {
      ZeroPadOfValue(init);
      if DecimalValue(init) == 0 {
        PadSnocZero(init, c);
      } else {
        PadSnoc(init, DecimalValue(init), c);
      }
    }
  }

  /** A numeral's value is ten times the value of its leading digits plus its last digit. */
  lemma SnocValue(s: string)
    requires |s| >= 1 && AllDigits(s)
    ensures s == s[..|s| - 1] + [s[|s| - 1]]
    ensures DecimalValue(s) == 10 * DecimalValue(s[..|s| - 1]) + DigitValue(s[|s| - 1])
    ensures |s| == 1 ==> DecimalValue(s[..|s| - 1]) == 0
  {
    SnocSplit(s);
    if |s| == 1 {
      EmptyValue(s[..0]);
    }
  }

  lemma SnocSplit(s: string)
    requires |s| >= 1
    ensures s == s[..|s| - 1] + [s[|s| - 1]]
  {
  }

  lemma EmptyValue(s: string)
    requires s == []
    ensures DecimalValue(s) == 0
  {
  }

  lemma PadDigit(c: char)
    requires IsDigit(c)
    ensures ZeroPad(DigitValue(c), 1) == [c]
  {
    DigitCharOfValue(c);
  }

  /** A digit after a run of zeros is the padded form of that digit. */
  lemma PadSnocZero(init: string, c: char)
    requires IsDigit(c) && |init| >= 1 && init == ZeroPad(0, |init|)
    ensures ZeroPad(DigitValue(c), |init| + 1) == init + [c]
  {
    var d := DigitValue(c);
    DigitCharOfValue(c);
    ZeroPadShape(0, |init|);
    ZerosSnoc(PadCount(0, |init|));
    ZeroPadShape(d, |init| + 1);
    assert NatToString(d) == [c];
  }

  /** A digit after the padded form of a positive `a` is the padded form of `10 * a` plus that digit. */
  lemma PadSnoc(init: string, a: nat, c: char)
    requires IsDigit(c) && a > 0 && init == ZeroPad(a, |init|)
    ensures ZeroPad(10 * a + DigitValue(c), |init| + 1) == init + [c]
  {
    var d := DigitValue(c);
    var v := 10 * a + d;
    DigitCharOfValue(c);
    assert v / 10 == a && v % 10 == d;
    assert NatToString(v) == NatToString(a) + [c];
    ZeroPadShape(a, |init|);
    ZeroPadShape(v, |init| + 1);
  }

  lemma ZerosSnoc(k: nat)
    ensures Zeros(k) + "0" == Zeros(k + 1)
  {
  }

  /** `'{:02d}'.format(n)` for `n < 100`, digit by digit. */
  lemma ZeroPadTwo(n: nat)
    requires n < 100
    ensures ZeroPad(n, 2) == [DigitChar(n / 10), DigitChar(n % 10)]
  {
    var s := [DigitChar(n / 10), DigitChar(n % 10)];
    assert s[..1] == [DigitChar(n / 10)];
    assert [DigitChar(n / 10)][..0] == [];
    assert DecimalValue(s[..1]) == n / 10;
    assert DecimalValue(s) == 10 * (n / 10) + n % 10 == n;
    ZeroPadOfValue(s);
  }

  /** `'{:03d}'.format(n)` for `n < 1000`, digit by digit. */
  lemma ZeroPadThree(n: nat)
    requires n < 1000
    ensures ZeroPad(n, 3) == [DigitChar(n / 100), DigitChar(n / 10 % 10), DigitChar(n % 10)]
  {
    var s := [DigitChar(n / 100), DigitChar(n / 10 % 10), DigitChar(n % 10)];
    assert s[..2][..1] == [DigitChar(n / 100)];
    assert s[..2] == [DigitChar(n / 100), DigitChar(n / 10 % 10)];
    assert [DigitChar(n / 100)][..0] == [];
    assert DecimalValue(s[..2][..1]) == n / 100;
    assert DecimalValue(s[..2]) == 10 * (n / 100) + n / 10 % 10 == n / 10;
    assert DecimalValue(s) == 10 * (n / 10) + n % 10 == n;
    ZeroPadOfValue(s);
  }
}
