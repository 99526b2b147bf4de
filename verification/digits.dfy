/**
 Runs of ASCII decimal digits and the numbers they denote, as the robot
 reads them out of amounts and dates.
 */
module Digits {

  predicate IsDigit(c: char)
  {
    '0' <= c <= '9'
  }

  predicate AllDigits(s: string)
  {
    forall i :: 0 <= i < |s| ==> IsDigit(s[i])
  }

  function Pow10(n: nat): nat
    ensures Pow10(n) >= 1
  {
    if n == 0 then 1 else 10 * Pow10(n - 1)
  }

  /** The number a run of decimal digits denotes. */
  function DigitsValue(s: string): nat
    requires AllDigits(s)
  {
    if s == [] then 0 else DigitsValue(s[..|s| - 1]) * 10 + ((s[|s| - 1] as int) - ('0' as int))
  }

  function DigitChar(d: nat): char
    requires d < 10
  {
    (('0' as int) + d) as char
  }

  /** `n` in decimal with exactly `width` digits, leading zeros kept. */
  function Padded(n: nat, width: nat): (s: string)
    ensures |s| == width && AllDigits(s)
  {
    if width == 0 then [] else Padded(n / 10, width - 1) + [DigitChar(n % 10)]
  }

  lemma {:induction false} DigitsValueAppend(a: string, b: string)
    requires AllDigits(a) && AllDigits(b)
    ensures AllDigits(a + b)
    ensures DigitsValue(a + b) == DigitsValue(a) * Pow10(|b|) + DigitsValue(b)
    decreases |b|
  {
    if b == [] {
      assert a + b == a;
    } else {
      var b' := b[..|b| - 1];
      var ab := a + b;
      assert AllDigits(b') by {
        forall i | 0 <= i < |b'| ensures IsDigit(b'[i]) {
          assert b'[i] == b[i];
        }
      }
      assert AllDigits(ab) by {
        forall i | 0 <= i < |ab| ensures IsDigit(ab[i]) {
          if i < |a| {
            assert ab[i] == a[i];
          } else {
            assert ab[i] == b[i - |a|];
          }
        }
      }
      assert ab[..|ab| - 1] == a + b';
      assert ab[|ab| - 1] == b[|b| - 1];
      DigitsValueAppend(a, b');
      var d := (b[|b| - 1] as int) - ('0' as int);
      var x, p, y := DigitsValue(a), Pow10(|b'|), DigitsValue(b');
      assert Pow10(|b|) == p * 10;
      assert DigitsValue(ab) == (x * p + y) * 10 + d;
      assert DigitsValue(b) == y * 10 + d;
      ShiftDigit(x, p, y, d);
    }
  }

  /** One more digit multiplies the value of what precedes it by ten. */
  lemma ShiftDigit(x: int, p: int, y: int, d: int)
    ensures (x * p + y) * 10 + d == x * (p * 10) + (y * 10 + d)
  {
  }

  lemma {:induction false} PaddedValue(n: nat, width: nat)
    requires n < Pow10(width)
    ensures DigitsValue(Padded(n, width)) == n
    decreases width
  {
    if width > 0 {
      PaddedValue(n / 10, width - 1);
      var s := Padded(n, width);
      assert s[..|s| - 1] == Padded(n / 10, width - 1);
    }
  }

  /** Writing the value of a run of digits back at its own width gives the
      run back. */
  lemma {:induction false} PaddedDigits(s: string)
    requires AllDigits(s)
    ensures Padded(DigitsValue(s), |s|) == s
    decreases |s|
  {
    if s != [] {
      var init := s[..|s| - 1];
      assert AllDigits(init) by {
        forall i | 0 <= i < |init| ensures IsDigit(init[i]) {
          assert init[i] == s[i];
        }
      }
      PaddedDigits(init);
      var d := (s[|s| - 1] as int) - ('0' as int);
      var n := DigitsValue(s);
      assert n / 10 == DigitsValue(init) && n % 10 == d;
      assert DigitChar(d) == s[|s| - 1];
      assert s == init + [s[|s| - 1]];
    }
  }
}
