/** The simplest fraction in an interval, found like a greatest common divisor. It decides whether a
timer whose period is a little too long ever shows it (Timer.NeverAheadAtLastScale). */
module Fractions {
  datatype Fraction = Fraction(num: nat, den: nat)

  /** t / n lies between a / b and c / d; closed says that the lower end belongs to the interval, and
  otherwise the upper one does. For d == 0 there is no upper end. */
  predicate Between(t: nat, n: nat, a: nat, b: nat, c: nat, d: nat, closed: bool) {
    && n > 0
    && (if closed then a * n <= t * b && t * d < c * n else a * n < t * b && t * d <= c * n)
  }

  /** The ends are ends of an interval. */
  predicate Ends(a: nat, b: nat, c: nat, d: nat) {
    b > 0 && a * d < c * b
  }

  /** The least whole number that is large enough. */
  function Ceiling(a: nat, b: nat, closed: bool): nat
    requires b > 0
  {
    if closed && a % b == 0 then a / b else a / b + 1
  }

  /** What is left of c when f times d is taken off. */
  function Rest(f: nat, c: nat, d: nat): nat {
    if f * d <= c then c - f * d else 0
  }

  /** f added to the reciprocal of r. */
  function Join(f: nat, r: Fraction): Fraction {
    Fraction(f * r.num + r.den, r.num)
  }

  lemma FloorBounds(a: nat, b: nat)
    requires b > 0
    ensures a / b * b <= a < (a / b + 1) * b && (a % b == 0 <==> a == a / b * b)
  {
  }

  lemma MulOrder(a: int, b: int, c: int)
    requires c > 0
    ensures a < b <==> a * c < b * c
    ensures a <= b <==> a * c <= b * c
  {
    if a < b {
      assert (b - a) * c > 0;
      assert b * c == a * c + (b - a) * c;
    } else {
      assert (a - b) * c >= 0;
      assert a * c == b * c + (a - b) * c;
    }
  }

  lemma PartsTimes(f: nat, n: nat, v: int, b: nat)
    ensures (f * n + v) * b == f * b * n + v * b
  {
  }

  lemma Spread(a: int, fb: int, n: int)
    ensures (a - fb) * n == a * n - fb * n
  {
  }

  lemma SwapFactors(a: int, b: int, c: int)
    ensures a * b * c == a * c * b
  {
  }

  /** Whole parts come off: between a / b and c / d lies t / n exactly when n / (t - f * n) lies between
  the reciprocals of what is left. */
  lemma Reciprocal(t: nat, n: nat, a: nat, b: nat, c: nat, d: nat, f: nat, closed: bool)
    requires f * b <= a && f * d <= c && f * n < t && n > 0
    ensures Between(t, n, a, b, c, d, closed) <==>
      Between(n, Rest(f, t, n), d, Rest(f, c, d), b, Rest(f, a, b), !closed)
  {
    var v := t - f * n;
    PartsTimes(f, n, v, b);
    PartsTimes(f, n, v, d);
    Spread(a, f * b, n);
    Spread(c, f * d, n);
  }

  lemma FrontBelow(a: nat, b: nat, c: nat, d: nat, f: nat)
    requires Ends(a, b, c, d) && f * b <= a
    ensures f * d < c && d * (a - f * b) < b * (c - f * d)
  {
    if d > 0 {
      MulOrder(f * b, a, d);
    }
    SwapFactors(f, b, d);
    MulOrder(f * d, c, b);
    Spread(a, f * b, d);
    Spread(c, f * d, b);
  }

  /** The upper end is not above the first whole number that does not fit. */
  lemma UpperBelow(a: nat, b: nat, c: nat, d: nat, closed: bool)
    requires Ends(a, b, c, d) && !Between(Ceiling(a, b, closed), 1, a, b, c, d, closed)
    ensures c <= (a / b + 1) * d && (closed ==> a % b != 0)
  {
    FloorBounds(a, b);
    if closed && a % b == 0 {
      SwapFactors(a / b, b, d);
      MulOrder(a / b * d, c, b);
    }
  }

  /** No whole number fits, so the whole part comes off and the rest is turned over. */
  lemma TurnedOver(a: nat, b: nat, c: nat, d: nat, closed: bool)
    requires Ends(a, b, c, d) && !Between(Ceiling(a, b, closed), 1, a, b, c, d, closed)
    ensures var f := a / b;
      && f * b <= a && f * d <= c && Rest(f, a, b) < b && Rest(f, c, d) <= d
      && Ends(d, Rest(f, c, d), b, Rest(f, a, b)) && d > 0
  {
    var f := a / b;
    FloorBounds(a, b);
    FrontBelow(a, b, c, d, f);
    UpperBelow(a, b, c, d, closed);
    assert (f + 1) * b == f * b + b && (f + 1) * d == f * d + d;
  }

  /** The fraction between a / b and c / d with the least numerator and the least denominator. */
  function Simplest(a: nat, b: nat, c: nat, d: nat, closed: bool): Fraction
    requires Ends(a, b, c, d)
    decreases b + d
  {
    var q := Ceiling(a, b, closed);
    if Between(q, 1, a, b, c, d, closed) then
      Fraction(q, 1)
    else
      TurnedOver(a, b, c, d, closed);
      Join(a / b, Simplest(d, Rest(a / b, c, d), b, Rest(a / b, a, b), !closed))
  }

  lemma LeftOf(f: nat, a: nat, b: nat, t: nat, n: nat)
    requires b > 0 && n > 0 && f * b <= a && a * n <= t * b
    ensures f * n <= t && (f * b < a || a * n < t * b ==> f * n < t)
  {
    MulOrder(f * b, a, n);
    SwapFactors(f, b, n);
    MulOrder(f * n, t, b);
  }

  lemma TimesPositive(f: nat, n: nat)
    requires n > 0
    ensures f <= f * n
  {
    assert f * n - f == f * (n - 1);
  }

  /** A fraction in the interval is at least as large as the whole numbers below it. */
  lemma WholeBelow(t: nat, n: nat, a: nat, b: nat, c: nat, d: nat, closed: bool)
    requires b > 0 && Between(t, n, a, b, c, d, closed)
    ensures n > 0 && Ceiling(a, b, closed) <= t
    ensures !closed || a % b != 0 ==> a / b * n < t
  {
    FloorBounds(a, b);
    LeftOf(a / b, a, b, t, n);
    TimesPositive(a / b, n);
  }

  lemma NumeratorPositive(t: nat, n: nat, a: nat, b: nat, c: nat, d: nat, closed: bool)
    requires Between(t, n, a, b, c, d, closed) && a > 0
    ensures t > 0
  {
    MulOrder(0, a, n);
  }

  /** The joined fraction is in the interval if the reciprocal is in the one that is left. */
  lemma JoinedBetween(r: Fraction, a: nat, b: nat, c: nat, d: nat, f: nat, closed: bool)
    requires f * b <= a && f * d <= c && d > 0
    requires Between(r.num, r.den, d, Rest(f, c, d), b, Rest(f, a, b), !closed)
    ensures Between(Join(f, r).num, Join(f, r).den, a, b, c, d, closed)
  {
    NumeratorPositive(r.num, r.den, d, Rest(f, c, d), b, Rest(f, a, b), !closed);
    Reciprocal(f * r.num + r.den, r.num, a, b, c, d, f, closed);
  }

  lemma {:induction false} SimplestIsBetween(a: nat, b: nat, c: nat, d: nat, closed: bool)
    requires Ends(a, b, c, d)
    ensures var r := Simplest(a, b, c, d, closed); Between(r.num, r.den, a, b, c, d, closed)
    decreases b + d
  {
    if !Between(Ceiling(a, b, closed), 1, a, b, c, d, closed) {
      TurnedOver(a, b, c, d, closed);
      var f := a / b;
      SimplestIsBetween(d, Rest(f, c, d), b, Rest(f, a, b), !closed);
      JoinedBetween(Simplest(d, Rest(f, c, d), b, Rest(f, a, b), !closed), a, b, c, d, f, closed);
    }
  }

  /** A joined fraction grows with both of its parts. */
  lemma JoinedLeast(r: Fraction, f: nat, t: nat, n: nat)
    requires r.num <= n && f * n < t && r.den <= Rest(f, t, n)
    ensures Join(f, r).num <= t && Join(f, r).den <= n
  {
    assert f * n - f * r.num == f * (n - r.num);
  }

  /** No other fraction in the interval has a smaller numerator or a smaller denominator. */
  lemma {:induction false} SimplestIsLeast(a: nat, b: nat, c: nat, d: nat, closed: bool, t: nat, n: nat)
    requires Ends(a, b, c, d) && Between(t, n, a, b, c, d, closed)
    ensures var r := Simplest(a, b, c, d, closed); r.num <= t && r.den <= n
    decreases b + d
  {
    WholeBelow(t, n, a, b, c, d, closed);
    if !Between(Ceiling(a, b, closed), 1, a, b, c, d, closed) {
      TurnedOver(a, b, c, d, closed);
      UpperBelow(a, b, c, d, closed);
      var f := a / b;
      Reciprocal(t, n, a, b, c, d, f, closed);
      SimplestIsLeast(d, Rest(f, c, d), b, Rest(f, a, b), !closed, n, Rest(f, t, n));
      JoinedLeast(Simplest(d, Rest(f, c, d), b, Rest(f, a, b), !closed), f, t, n);
    }
  }
}
