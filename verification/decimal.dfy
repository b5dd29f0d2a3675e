/** Decimal digit strings: reading them (`strconv.ParseInt` in base 10,
    before its range check) and writing them (`fmt`'s `%d` and `%0Nd`). */
module Decimal {
  import opened Text

  predicate IsDigit(c: char) {
    '0' <= c <= '9'
  }

  predicate AllDigits(s: string) {
    forall i :: 0 <= i < |s| ==> IsDigit(s[i])
  }

  function DigitValue(c: char): nat
    requires IsDigit(c)
  {
    c as int - '0' as int
  }

  function DigitChar(d: nat): (c: char)
    requires d < 10
    ensures IsDigit(c) && DigitValue(c) == d
  {
    (d + '0' as int) as char
  }

  function Pow10(n: nat): (p: nat)
    ensures p >= 1
  {
    if n == 0 then 1 else 10 * Pow10(n - 1)
  }

  /** The number a digit string denotes, most significant digit first. */
  function Value(s: string): nat
    requires AllDigits(s)
  {
    if s == [] then 0 else Value(s[..|s| - 1]) * 10 + DigitValue(s[|s| - 1])
  }

  /** `%d` of a non-negative number: the shortest digit string, so no
      leading zero except for zero itself. It reads back as `n`. */
  function NatToString(n: nat): (r: string)
    ensures |r| >= 1 && AllDigits(r)
    ensures Value(r) == n
    ensures |r| == 1 || r[0] != '0'
  {
    if n < 10 then [DigitChar(n)]
    else
      var r := NatToString(n / 10) + [DigitChar(n % 10)];
      assert r[..|r| - 1] == NatToString(n / 10);
      r
  }

  function Zeros(k: nat): (r: string)
    ensures |r| == k && AllDigits(r)
    ensures forall i :: 0 <= i < k ==> r[i] == '0'
  {
    seq(k, _ => '0')
  }

  /** `%0wd` of a non-negative number: left-padded with zeros to at least
      `w` digits; for `w >= 1`, numbers below 10^w come out exactly `w`
      digits long. */
  function ZeroPad(n: nat, w: nat): (r: string)
    ensures AllDigits(r) && Value(r) == n
    ensures |r| >= w
    ensures w >= 1 && n < Pow10(w) ==> |r| == w
  {
    var d := NatToString(n);
    NatToStringLength(n, w);
    if |d| >= w then d
    else
      ValueConcat(Zeros(w - |d|), d);
      ZerosValue(w - |d|);
      Zeros(w - |d|) + d
  }

  lemma {:induction false} ZerosValue(k: nat)
    ensures Value(Zeros(k)) == 0
  {
    if k > 0 {
      assert Zeros(k)[..k - 1] == Zeros(k - 1);
      ZerosValue(k - 1);
    }
  }

  /** A number below 10^w needs at most `w` digits (one digit for zero). */
  lemma {:induction false} NatToStringLength(n: nat, w: nat)
    ensures w >= 1 && n < Pow10(w) ==> |NatToString(n)| <= w
  {
    if n >= 10 && w >= 1 && n < Pow10(w) {
      assert n / 10 < Pow10(w - 1);
      NatToStringLength(n / 10, w - 1);
    }
  }

  /** Reading a concatenation: the head is shifted by the tail's width. */
  lemma {:induction false} ValueConcat(a: string, b: string)
    requires AllDigits(a) && AllDigits(b)
    ensures AllDigits(a + b)
    ensures Value(a + b) == Value(a) * Pow10(|b|) + Value(b)
    decreases |b|
  {
    if b != [] {
      var b' := b[..|b| - 1];
      var d := DigitValue(b[|b| - 1]);
      assert (a + b)[..|a + b| - 1] == a + b';
      assert (a + b)[|a + b| - 1] == b[|b| - 1];
      ValueConcat(a, b');
      assert Value(a + b) == Value(a + b') * 10 + d;
      assert Value(a + b') == Value(a) * Pow10(|b'|) + Value(b');
      assert Value(b) == Value(b') * 10 + d;
      assert Pow10(|b|) == Pow10(|b'|) * 10;
      ShiftedDigit(Value(a), Pow10(|b'|), Value(b'), d);
    } else {
      assert a + b == a;
    }
  }

  /** Appending one digit to `x` followed by `k` digits worth `y`. */
  lemma ShiftedDigit(x: int, p: int, y: int, d: int)
    ensures (x * p + y) * 10 + d == x * (p * 10) + (y * 10 + d)
  {
  }

  /** For digit strings of equal width, Go's textual order is numeric order,
      and equal text means equal value. */
  lemma {:induction false} DigitsOrder(a: string, b: string)
    requires AllDigits(a) && AllDigits(b) && |a| == |b|
    ensures LexLess(a, b) <==> Value(a) < Value(b)
    ensures a == b <==> Value(a) == Value(b)
    decreases |a|
  {
    if a != [] {
      var a', b' := a[..|a| - 1], b[..|b| - 1];
      var x, y := a[|a| - 1], b[|b| - 1];
      assert a == a' + [x] && b == b' + [y];
      DigitsOrder(a', b');
      LexLessConcat(a', [x], b', [y]);
      assert LexLess([x], [y]) <==> x < y by {
        assert [x][1..] == [] && [y][1..] == [];
      }
      var va, vb := Value(a'), Value(b');
      var dx, dy := DigitValue(x), DigitValue(y);
      assert Value(a) == va * 10 + dx && Value(b) == vb * 10 + dy;
      if va < vb {
        assert va * 10 + dx < vb * 10 + dy;
      } else if va > vb {
        assert va * 10 + dx > vb * 10 + dy;
      }
      if a' != b' {
        LexLessTotal(a', b');
      }
    }
  }
}
