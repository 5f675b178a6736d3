/** Decimal text: the digits `printf` emits, and the value the digit loop reads back. */
module Decimal {
  predicate IsDigit(c: char) { '0' <= c <= '9' }

  predicate AllDigits(s: string) { forall i :: 0 <= i < |s| ==> IsDigit(s[i]) }

  function DigitChar(n: nat): (c: char)
    requires n < 10
  {
    '0' + n as char
  }

  /** The number a string of digits denotes, most significant digit first. */
  function Value(s: string): nat
    requires AllDigits(s)
  {
    if s == "" then 0 else 10 * Value(s[..|s| - 1]) + (s[|s| - 1] as int - '0' as int)
  }

  /** `%u`: no leading zeros, and "0" for zero. */
  function Digits(n: nat): string {
    if n < 10 then [DigitChar(n)] else Digits(n / 10) + [DigitChar(n % 10)]
  }

  function Zeros(k: nat): string {
    if k == 0 then "" else "0" + Zeros(k - 1)
  }

  /** `%0<width>u`. */
  function PadNat(n: nat, width: nat): string {
    var digits := Digits(n);
    if |digits| >= width then digits else Zeros(width - |digits|) + digits
  }

  /** `%0<width>lld`: the sign takes one place of the width. */
  function PadInt(n: int, width: nat): string {
    if n >= 0 then PadNat(n, width) else "-" + PadNat(-n, if width == 0 then 0 else width - 1)
  }

  /** The last `width` digits of `n`, exactly `width` of them. */
  function FixedWidth(n: nat, width: nat): (s: string)
    ensures |s| == width && AllDigits(s)
  {
    if width == 0 then "" else FixedWidth(n / 10, width - 1) + [DigitChar(n % 10)]
  }

  function Pow10(k: nat): nat {
    if k == 0 then 1 else 10 * Pow10(k - 1)
  }

  lemma {:induction false} DigitsAreDigits(n: nat)
    ensures AllDigits(Digits(n)) && |Digits(n)| >= 1
  {
    if n < 10 {
    } else {
      DigitsAreDigits(n / 10);
    }
  }

  lemma {:induction false} Pow10IsPositive(k: nat)
    ensures Pow10(k) >= 1
  {
    if k == 0 {
    } else {
      Pow10IsPositive(k - 1);
    }
  }

  /** `n` has at most `k` digits iff it is below ten to the `k`. */
  lemma {:induction false} DigitCount(n: nat, k: nat)
    requires k >= 1
    ensures |Digits(n)| <= k <==> n < Pow10(k)
    decreases k
  {
    if k == 1 {
      if n >= 10 {
        DigitsAreDigits(n / 10);
      }
    } else if n >= 10 {
      DigitCount(n / 10, k - 1);
    } else {
      Pow10IsPositive(k - 1);
    }
  }

  lemma {:induction false} ZerosAppend(k: nat)
    ensures |Zeros(k)| == k && AllDigits(Zeros(k))
    ensures Zeros(k) + "0" == Zeros(k + 1)
  {
    if k == 0 {
    } else {
      ZerosAppend(k - 1);
    }
  }

  lemma {:induction false} FixedWidthOfZero(w: nat)
    ensures FixedWidth(0, w) == Zeros(w)
  {
    if w == 0 {
    } else {
      FixedWidthOfZero(w - 1);
      ZerosAppend(w - 1);
    }
  }

  lemma PadStep(n: nat, w: nat)
    requires n >= 10 && w >= 1 && |Digits(n)| <= w
    ensures PadNat(n, w) == PadNat(n / 10, w - 1) + [DigitChar(n % 10)]
  {
  }

  /** Zero padding to a width that fits is the fixed-width form. */
  lemma {:induction false} PadIsFixedWidth(n: nat, w: nat)
    requires w >= 1 && n < Pow10(w)
    ensures PadNat(n, w) == FixedWidth(n, w)
    decreases w
  {
    DigitCount(n, w);
    if n < 10 {
      FixedWidthOfZero(w - 1);
      ZerosAppend(w - 1);
      assert n / 10 == 0;
    } else {
      DigitCount(n / 10, w - 1);
      PadIsFixedWidth(n / 10, w - 1);
      PadStep(n, w);
    }
  }

  /** Reading back a fixed-width number. */
  lemma {:induction false} ValueOfFixedWidth(n: nat, w: nat)
    requires n < Pow10(w)
    ensures Value(FixedWidth(n, w)) == n
  {
    if w == 0 {
    } else {
      ValueOfFixedWidth(n / 10, w - 1);
      var s := FixedWidth(n, w);
      assert s[..|s| - 1] == FixedWidth(n / 10, w - 1);
    }
  }

  lemma FixedWidthStep(v: nat, d: nat, w: nat)
    requires d < 10
    ensures FixedWidth(10 * v + d, w + 1) == FixedWidth(v, w) + [DigitChar(d)]
  {
  }

  /** Printing back a digit string. */
  lemma {:induction false} FixedWidthOfValue(s: string)
    requires AllDigits(s)
    ensures FixedWidth(Value(s), |s|) == s && Value(s) < Pow10(|s|)
  {
    if s == "" {
    } else {
      var front, last := s[..|s| - 1], s[|s| - 1] as int - '0' as int;
      FixedWidthOfValue(front);
      FixedWidthStep(Value(front), last, |front|);
      assert s == front + [s[|s| - 1]];
    }
  }

  // ---- Against the digits themselves --------------------------------------------------------

  lemma DigitsAreTheseTen(c: char, k: nat)
    requires k < 10
    ensures DigitChar(k) == "0123456789"[k]
    ensures IsDigit(c) <==> c in "0123456789"
  {
    if IsDigit(c) {
      assert c == "0123456789"[c as int - '0' as int];
    }
  }

  /** A digit appended is a place gained. */
  lemma ValueByPlace(s: string, k: nat)
    requires AllDigits(s) && k < 10
    ensures Value("") == 0
    ensures AllDigits(s + ["0123456789"[k]]) && Value(s + ["0123456789"[k]]) == 10 * Value(s) + k
  {
    var t := s + ["0123456789"[k]];
    assert t[..|t| - 1] == s;
    DigitsAreTheseTen(t[|s|], k);
  }

  lemma TwoDigits(n: nat)
    requires n < 100
    ensures FixedWidth(n, 2) == ["0123456789"[n / 10], "0123456789"[n % 10]]
  {
    assert FixedWidth(n / 10, 1) == FixedWidth(n / 10 / 10, 0) + [DigitChar(n / 10 % 10)];
  }

  lemma PlaceByPlace(n: nat)
    ensures n / 10 / 10 == n / 100 && n / 100 / 10 == n / 1000
  {
  }

  lemma LastPlace(n: nat, w: nat)
    ensures FixedWidth(n, w + 1) == FixedWidth(n / 10, w) + ["0123456789"[n % 10]]
  {
    DigitsAreTheseTen('0', n % 10);
  }

  lemma FourDigits(n: nat)
    requires n < 10000
    ensures FixedWidth(n, 4) == ["0123456789"[n / 1000], "0123456789"[n / 100 % 10], "0123456789"[n / 10 % 10], "0123456789"[n % 10]]
  {
    PlaceByPlace(n);
    LastPlace(n, 3);
    LastPlace(n / 10, 2);
    TwoDigits(n / 100);
  }

  /** Digits that denote `n`, at least `width` of them, and more only if no zero leads. */
  ghost predicate IsNumeral(s: string, n: nat, width: nat) {
    AllDigits(s) && Value(s) == n && |s| >= width && (|s| > width ==> s[0] != '0')
  }

  lemma {:induction false} DigitsAreNumeral(n: nat)
    ensures IsNumeral(Digits(n), n, 1)
    ensures n >= 1 ==> Digits(n)[0] != '0'
  {
    if n < 10 {
      assert [DigitChar(n)][..0] == "";
    } else {
      DigitsAreNumeral(n / 10);
      assert Digits(n)[..|Digits(n)| - 1] == Digits(n / 10);
    }
  }

  lemma {:induction false} ValueOfZeros(k: nat, s: string)
    requires AllDigits(s)
    ensures AllDigits(Zeros(k) + s) && Value(Zeros(k) + s) == Value(s)
    decreases k, |s|
  {
    ZerosAppend(k);
    if s == "" {
      assert Zeros(k) + s == Zeros(k);
      if k == 0 {
      } else {
        ZerosAppend(k - 1);
        ValueOfZeros(k - 1, "");
        assert Zeros(k - 1) + "" == Zeros(k - 1);
        assert Zeros(k)[..k - 1] == Zeros(k - 1);
      }
    } else {
      var front := s[..|s| - 1];
      ValueOfZeros(k, front);
      assert (Zeros(k) + s)[..k + |s| - 1] == Zeros(k) + front;
    }
  }

  lemma ZerosThenNumeral(k: nat, s: string, n: nat)
    requires IsNumeral(s, n, 1)
    ensures IsNumeral(Zeros(k) + s, n, k + |s|)
  {
    ZerosAppend(k);
    ValueOfZeros(k, s);
  }

  /** `%0<width>u` prints the numeral of that width. */
  lemma PadNatIsNumeral(n: nat, width: nat)
    requires width >= 1
    ensures IsNumeral(PadNat(n, width), n, width)
  {
    DigitsAreNumeral(n);
    if |Digits(n)| < width {
      ZerosThenNumeral(width - |Digits(n)|, Digits(n), n);
    }
  }
}
