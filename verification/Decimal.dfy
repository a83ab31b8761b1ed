/** Decimal numerals: how long they are, and when they grow. */
module Decimal {
  import opened Json

  /** The digits `n` takes in a header. */
  function Digits(n: nat): (d: nat)
    ensures d >= 1
  {
    |PrintNat(n)|
  }

  method DecimalDigits(n: nat) returns (d: nat)
    ensures d == Digits(n)
  {
    if n == 0 {
      return 1;
    }
    d := 0;
    var m := n;
    while m > 0
      invariant d + (if m == 0 then 0 else Digits(m)) == Digits(n)
    {
      d := d + 1;
      m := m / 10;
    }
  }

  function Pow10(k: nat): (p: nat)
    ensures p >= 1
  {
    if k == 0 then 1 else 10 * Pow10(k - 1)
  }

  /** Counting up, a digit is gained exactly on reaching a power of ten. */
  lemma {:induction false} DigitsNext(n: nat)
    ensures Digits(n + 1) == if n + 1 == Pow10(Digits(n)) then Digits(n) + 1 else Digits(n)
    ensures n < Pow10(Digits(n))
  {
    if n >= 10 {
      var q := n / 10;
      DigitsNext(q);
      assert Digits(n) == Digits(q) + 1;
      assert Pow10(Digits(n)) == 10 * Pow10(Digits(q));
    } else if n == 9 {
      assert Pow10(1) == 10;
      assert Digits(10) == Digits(1) + 1;
    } else {
      assert Pow10(1) == 10;
    }
  }

  lemma {:induction false} DigitsMonotone(m: nat, n: nat)
    requires m <= n
    ensures Digits(m) <= Digits(n)
    decreases n - m
  {
    if m < n {
      DigitsMonotone(m, n - 1);
      DigitsNext(n - 1);
    }
  }

  lemma {:induction false} DigitsOfPow10(k: nat)
    ensures Digits(Pow10(k)) == k + 1
    ensures k > 0 ==> Digits(Pow10(k) - 1) == k
  {
    if k > 0 {
      DigitsOfPow10(k - 1);
      assert Pow10(k) / 10 == Pow10(k - 1);
      DigitsNext(Pow10(k) - 1);
      DigitsMonotone(Pow10(k - 1), Pow10(k) - 1);
    }
  }

  lemma {:induction false} DigitsAtMost(n: nat)
    requires n >= 1
    ensures Digits(n) <= n
  {
    if n > 1 {
      DigitsAtMost(n - 1);
      DigitsNext(n - 1);
    }
  }

  lemma {:induction false} Pow10Monotone(i: nat, j: nat)
    requires i <= j
    ensures Pow10(i) <= Pow10(j)
    decreases j
  {
    if i < j {
      Pow10Monotone(i, j - 1);
    }
  }

  /** Below `10^w` a numeral has at most `w` digits. */
  lemma {:induction false} DigitsBelow(n: nat, w: nat)
    requires w >= 1 && n < Pow10(w)
    ensures Digits(n) <= w
  {
    DigitsOfPow10(w);
    DigitsMonotone(n, Pow10(w) - 1);
  }

  // ----- zero padding

  function Zeros(n: nat): (s: string)
    ensures |s| == n
  {
    seq(n, _ => '0')
  }

  /** `format!("{n:0w}")`. */
  function Padded(n: nat, w: nat): string {
    if Digits(n) >= w then PrintNat(n) else Zeros(w - Digits(n)) + PrintNat(n)
  }

  lemma {:induction false} PaddedStep(n: nat, w: nat)
    requires w >= 2 && Digits(n) <= w
    ensures Padded(n, w) == Padded(n / 10, w - 1) + [DigitChar(n % 10)]
  {
    if n >= 10 {
      assert PrintNat(n) == PrintNat(n / 10) + [DigitChar(n % 10)];
    } else {
      assert PrintNat(n) == [DigitChar(n)] && PrintNat(0) == "0";
    }
  }

  /** Code-point order on text: what sorting file names compares. */
  predicate LexLess(a: string, b: string) {
    if b == "" then false
    else if a == "" then true
    else a[0] < b[0] || (a[0] == b[0] && LexLess(a[1..], b[1..]))
  }

  lemma {:induction false} LexPrefix(p: string, a: string, b: string)
    ensures LexLess(p + a, p + b) <==> LexLess(a, b)
  {
    if p == "" {
      assert p + a == a && p + b == b;
    } else {
      assert (p + a)[1..] == p[1..] + a && (p + b)[1..] == p[1..] + b;
      LexPrefix(p[1..], a, b);
    }
  }

  /** Texts of one length are compared before anything that follows them. */
  lemma {:induction false} LexThen(a: string, b: string, x: string, y: string)
    requires |a| == |b|
    ensures LexLess(a + x, b + y) <==> LexLess(a, b) || (a == b && LexLess(x, y))
  {
    if a == "" {
      assert a + x == x && b + y == y;
    } else {
      assert (a + x)[1..] == a[1..] + x && (b + y)[1..] == b[1..] + y;
      assert a == [a[0]] + a[1..] && b == [b[0]] + b[1..];
      LexThen(a[1..], b[1..], x, y);
    }
  }

  lemma {:induction false} LexIrreflexive(a: string)
    ensures !LexLess(a, a)
  {
    if a != "" {
      LexIrreflexive(a[1..]);
    }
  }

  lemma {:induction false} LexTransitive(a: string, b: string, c: string)
    requires LexLess(a, b) && LexLess(b, c)
    ensures LexLess(a, c)
  {
    if a != "" && a[0] == b[0] == c[0] {
      LexTransitive(a[1..], b[1..], c[1..]);
    }
  }

  lemma {:induction false} LexTotal(a: string, b: string)
    ensures a == b || LexLess(a, b) || LexLess(b, a)
  {
    if a != "" && b != "" && a[0] == b[0] {
      LexTotal(a[1..], b[1..]);
      assert a == [a[0]] + a[1..] && b == [b[0]] + b[1..];
    }
  }

  /** Zero-padded numerals of one width sort as the numbers they spell. */
  lemma {:induction false} PaddedOrder(m: nat, n: nat, w: nat)
    requires w >= 1 && m < Pow10(w) && n < Pow10(w)
    ensures |Padded(m, w)| == |Padded(n, w)| == w
    ensures LexLess(Padded(m, w), Padded(n, w)) <==> m < n
    decreases w
  {
    hide Digits, Padded, DigitChar;
    DigitsBelow(m, w);
    DigitsBelow(n, w);
    if w == 1 {
      OneDigit(m);
      OneDigit(n);
      LexOne(DigitChar(m), DigitChar(n));
      DigitOrder(m, n);
    } else {
      QuotientOrder(m, n);
      PaddedOrder(m / 10, n / 10, w - 1);
      PaddedOrder(n / 10, m / 10, w - 1);
      PaddedCompare(m, n, w);
    }
  }

  lemma {:induction false} OneDigit(n: nat)
    requires n < Pow10(1)
    ensures Padded(n, 1) == [DigitChar(n)] && n < 10
  {
    assert Pow10(0) == 1;
  }

  lemma {:induction false} QuotientOrder(m: nat, n: nat)
    ensures m < n <==> m / 10 < n / 10 || (m / 10 == n / 10 && m % 10 < n % 10)
    ensures m == 10 * (m / 10) + m % 10
  {
  }

  lemma {:induction false} PaddedCompare(m: nat, n: nat, w: nat)
    requires w >= 2 && Digits(m) <= w && Digits(n) <= w
    requires |Padded(m / 10, w - 1)| == |Padded(n / 10, w - 1)| == w - 1
    requires LexLess(Padded(m / 10, w - 1), Padded(n / 10, w - 1)) <==> m / 10 < n / 10
    requires LexLess(Padded(n / 10, w - 1), Padded(m / 10, w - 1)) <==> n / 10 < m / 10
    ensures |Padded(m, w)| == |Padded(n, w)| == w
    ensures LexLess(Padded(m, w), Padded(n, w))
            <==> m / 10 < n / 10 || (m / 10 == n / 10 && m % 10 < n % 10)
  {
    hide Digits, Padded, DigitChar;
    PaddedStep(m, w);
    PaddedStep(n, w);
    var x, y := DigitChar(m % 10), DigitChar(n % 10);
    PaddedInjective(m / 10, n / 10, w - 1);
    LexThen(Padded(m / 10, w - 1), Padded(n / 10, w - 1), [x], [y]);
    LexOne(x, y);
    DigitOrder(m % 10, n % 10);
  }

  lemma {:induction false} PaddedInjective(m: nat, n: nat, w: nat)
    requires LexLess(Padded(m, w), Padded(n, w)) <==> m < n
    requires LexLess(Padded(n, w), Padded(m, w)) <==> n < m
    ensures Padded(m, w) == Padded(n, w) <==> m == n
  {
    hide Padded;
    LexIrreflexive(Padded(m, w));
  }

  lemma {:induction false} LexOne(x: char, y: char)
    ensures LexLess([x], [y]) <==> x < y
  {
    assert [x][1..] == "" && [y][1..] == "";
  }

  lemma {:induction false} DigitOrder(x: nat, y: nat)
    requires x < 10 && y < 10
    ensures DigitChar(x) < DigitChar(y) <==> x < y
  {
  }
}
