/** From a timer frequency to a period and scale (lib/invert_timer_freq.c:34-66), and from ticks to
nanoseconds with them (lib/timer_tick2ns.c:28-55). Registers are 32 and 64 bits wide. */
module Timer {
  import opened Align
  import opened Fractions

  const UINT_MAX: nat := 0xffff_ffff

  function Pow10(n: nat): (r: nat)
    ensures r > 0
  {
    if n == 0 then 1 else 10 * Pow10(n - 1)
  }

  lemma MulAssoc(a: int, b: int, c: int)
    ensures a * (b * c) == a * b * c
  {
  }

  lemma {:induction false} Pow10Add(m: nat, n: nat)
    ensures Pow10(m + n) == Pow10(m) * Pow10(n)
  {
    if m > 0 {
      Pow10Add(m - 1, n);
      assert Pow10(m + n) == 10 * Pow10(m - 1 + n);
      MulAssoc(10, Pow10(m - 1), Pow10(n));
    }
  }

  lemma MulNonNegative(a: nat, b: nat)
    ensures a * b >= 0
  {
  }

  lemma MulLess(a: nat, b: nat, c: nat)
    requires a <= b
    ensures a * c <= b * c
  {
  }

  lemma QuotRem(x: nat, y: nat)
    requires y > 0
    ensures x / y * y <= x < (x / y + 1) * y
  {
  }

  lemma TenTimes(n: nat, p: nat)
    ensures n * (10 * p) == 10 * (n * p)
  {
  }

  lemma Commute(a: int, b: int)
    ensures a * b == b * a
  {
  }

  lemma Distribute(a: int, b: int, c: int)
    ensures a * (b + c) == a * b + a * c
  {
  }

  lemma Pow10Nine()
    ensures Pow10(9) == 1_000_000_000 && Pow10(8) == 100_000_000
  {
    assert Pow10(4) == 10_000;
    assert Pow10(8) == 10 * (10 * (10 * (10 * Pow10(4))));
  }

  /** A long division of a power of ten that cannot go on for more than eighteen digits. */
  lemma DigitsBounded(k: nat, period: nat, freq: nat, rem: nat)
    requires Pow10(k) == period * freq + rem && rem < freq <= UINT_MAX / 10 && period < UINT_MAX / 10 - 10
    ensures k < 18
  {
    if k >= 18 {
      Pow10Add(18, k - 18);
      Pow10Add(9, 9);
      Pow10Nine();
      MulMono(Pow10(18), 1, Pow10(k - 18));
      assert (period + 1) * freq == period * freq + freq;
      MulMono(freq, period + 1, 429_496_719);
      MulMono(429_496_719, freq, 429_496_729);
      assert false;
    }
  }

  /** What one turn of the loop leaves: the quotient so far and its remainder. */
  ghost predicate Divided(k: nat, freq: nat, period: nat, rem: nat) {
    Pow10(k) == period * freq + rem && rem < freq
  }

  /** The frequency that is divided by: too large ones lose their last digit first. */
  function Divisor(freq: nat): nat {
    if freq > UINT_MAX / 10 then freq / 10 else freq
  }

  function Lost(freq: nat): nat {
    if freq > UINT_MAX / 10 then 1 else 0
  }

  /** The division so far: k digits are done, quot is the next number to divide. */
  ghost predicate Dividing(k: nat, freq: nat, period: nat, quot: nat) {
    Pow10(k) == 10 * period * freq + quot && quot < 10 * freq
  }

  /** One digit d of the long division, with remainder m. */
  lemma NextDigit(k: nat, freq: nat, period: nat, quot: nat, d: nat, m: nat)
    requires Dividing(k, freq, period, quot) && quot == d * freq + m && m < freq
    ensures d < 10 && (period * 10 + d) / 10 == period
    ensures Divided(k, freq, period * 10 + d, m) && Dividing(k + 1, freq, period * 10 + d, m * 10)
  {
    if d >= 10 {
      MulMono(freq, 10, d);
    }
    assert (period * 10 + d) * freq == 10 * period * freq + d * freq;
    MulAssoc(10, period * 10 + d, freq);
  }

  lemma FirstDigit(freq: nat)
    requires freq > 0
    ensures Dividing(0, freq, 0, 1)
  {
  }

  lemma DivisorFits(freq: nat)
    requires 0 < freq <= UINT_MAX
    ensures 0 < Divisor(freq) <= UINT_MAX / 10
  {
  }

  /** The operators / and %. */
  method DivMod(x: nat, y: nat) returns (q: nat, r: nat)
    requires y > 0
    ensures x == q * y + r && r < y
  {
    q, r := x / y, x % y;
  }

  lemma SoFar(k: nat, freq: nat, period: nat, rem: nat)
    requires Divided(k, freq, period, rem) && freq <= UINT_MAX / 10
    ensures period < UINT_MAX / 10 - 10 ==> k < 18
  {
    if period < UINT_MAX / 10 - 10 {
      DigitsBounded(k, period, freq, rem);
    }
  }

  /** One turn of the long division. */
  method Divide(ghost k: nat, freq: nat, period0: nat, quot: nat) returns (period: nat, rem: nat)
    requires 0 < freq <= UINT_MAX / 10 && Dividing(k, freq, period0, quot)
    requires period0 < UINT_MAX / 10 - 10
    ensures Divided(k, freq, period, rem) && period <= UINT_MAX && period / 10 == period0
    ensures rem < freq && Dividing(k + 1, freq, period, rem * 10)
    ensures period < UINT_MAX / 10 - 10 ==> k < 18
  {
    var div;
    div, rem := DivMod(quot, freq);
    NextDigit(k, freq, period0, quot, div, rem);
    period := period0 * 10 + div;
    SoFar(k, freq, period, rem);
  }

  lemma NotYetExact(k: nat, freq: nat, period: nat, rem: nat)
    requires Divided(k, freq, period, rem) && rem > 0
    ensures Pow10(k) % freq != 0
  {
    DivModUnique(Pow10(k), freq, period, rem);
  }

  /** What invert_timer_freq makes of a frequency: period is 10^k divided by it, where the scale is -k
  (one less if a digit of the frequency was lost), with the first k that makes the division exact or
  the period nine or ten digits long. */
  ghost predicate Inverts(freq: nat, period: nat, scale: int, k: nat, rest: nat) {
    && 0 < freq <= UINT_MAX && period <= UINT_MAX && scale == -(k + Lost(freq)) && k <= 18
    && Divided(k, Divisor(freq), period, rest)
    && (period >= UINT_MAX / 10 - 10 || rest == 0)
    && period / 10 < UINT_MAX / 10 - 10
    && (k > 0 ==> Pow10(k - 1) % Divisor(freq) != 0)
  }

  /** invert_timer_freq, in which nothing overflows 32 bits. */
  method InvertTimerFreq(freq: nat) returns (ok: bool, period: nat, scale: int, ghost k: nat, ghost rest: nat)
    requires freq <= UINT_MAX
    ensures ok <==> freq > 0
    ensures ok ==> Inverts(freq, period, scale, k, rest)
  {
    ok, period, scale, k, rest := false, 0, 0, 0, 0;
    if freq == 0 {
      return;
    }
    var f: nat, quot: nat, rem: nat := freq, 1, 0;
    DivisorFits(freq);
    if f > UINT_MAX / 10 {
      scale := scale - 1;
      f := f / 10;
    }
    ghost var lost := Lost(freq);
    FirstDigit(f);
    while true
      invariant f == Divisor(freq) && 0 < f <= UINT_MAX / 10
      invariant scale == -(k + lost) && k <= 18
      invariant Dividing(k, f, period, quot)
      invariant period < UINT_MAX / 10 - 10
      invariant k > 0 ==> Pow10(k - 1) % f != 0
      decreases 18 - k
    {
      period, rem := Divide(k, f, period, quot);
      rest := rem;
      if period >= UINT_MAX / 10 - 10 {
        break;
      }
      if rem == 0 {
        break;
      }
      NotYetExact(k, f, period, rem);
      scale := scale - 1;
      quot := rem * 10;
      k := k + 1;
    }
    ok := true;
  }

  lemma Distributed(a: int, b: nat, c: nat)
    ensures (a + b) * c >= a * c && (b == 0 ==> (a + b) * c == a * c)
  {
    MulNonNegative(b, c);
    Commute(a + b, c);
    Distribute(c, a, b);
  }

  /** A quotient in terms of the product it stands for. */
  lemma QuotientAtLeast(k: nat, freq: nat, period: nat, rest: nat, q: nat)
    requires Divided(k, freq, period, rest)
    ensures q <= period <==> q * freq <= Pow10(k)
  {
    if q <= period {
      MulLess(q, period, freq);
    } else {
      MulLess(period + 1, q, freq);
      assert (period + 1) * freq == period * freq + freq;
    }
  }

  /** The quotient of a division that is one digit shorter. */
  lemma {:induction false} ShorterQuotient(j: nat, k: nat, freq: nat, p: nat, q: nat, rest: nat, r: nat)
    requires j <= k && Divided(j, freq, p, rest) && Divided(k, freq, q, r)
    ensures j == k ==> p == q && rest == r
    ensures j < k ==> p <= q / 10
    ensures j < k && rest == 0 ==> Pow10(k - 1) % freq == 0
  {
    Pow10Add(j, k - j);
    if j == k {
      DivModUnique(Pow10(k), freq, p, rest);
      DivModUnique(Pow10(k), freq, q, r);
    } else {
      var t := Pow10(k - 1 - j);
      Pow10Add(j, k - 1 - j);
      MulLess(1, t, p);
      Commute(t, p);
      Distributed(p * freq, rest, t);
      SwapFactors(p, freq, t);
      QuotientAtLeast(k, freq, q, r, 10 * (p * t));
      MulAssoc(10, p * t, freq);
      if rest == 0 {
        DivModUnique(Pow10(k - 1), freq, p * t, 0);
      }
    }
  }

  /** The inversion leaves no choice. */
  lemma InvertsUnique(freq: nat, period1: nat, scale1: int, k1: nat, rest1: nat,
                      period2: nat, scale2: int, k2: nat, rest2: nat)
    requires Inverts(freq, period1, scale1, k1, rest1) && Inverts(freq, period2, scale2, k2, rest2)
    ensures period1 == period2 && scale1 == scale2 && k1 == k2 && rest1 == rest2
  {
    if k1 <= k2 {
      ShorterQuotient(k1, k2, Divisor(freq), period1, period2, rest1, rest2);
    } else {
      ShorterQuotient(k2, k1, Divisor(freq), period2, period1, rest2, rest1);
    }
  }

  /** Nanoseconds for ticks as far as 64 bits go: divide late, and start dividing the period only
  when the product does not fit. */
  function Ns(period: nat, ticks: nat, power: nat): nat {
    if period * ticks < TWO_64 then period * ticks / Pow10(power)
    else if power == 0 then 0
    else Ns(period / 10, ticks, power - 1)
  }

  /** Never more than the exact value, whatever does not fit. */
  lemma {:induction false} NsBelow(period: nat, ticks: nat, power: nat)
    ensures Ns(period, ticks, power) * Pow10(power) <= period * ticks
  {
    var product := period * ticks;
    MulNonNegative(period, ticks);
    if product < TWO_64 {
      QuotRem(product, Pow10(power));
    } else if power > 0 {
      NsBelow(period / 10, ticks, power - 1);
      MulAssoc(10, Ns(period / 10, ticks, power - 1), Pow10(power - 1));
      MulAssoc(10, period / 10, ticks);
      MulMono(ticks + 1, period / 10 * 10, period);
      TenTimes(Ns(period, ticks, power), Pow10(power - 1));
      MulLess(period / 10 * 10, period, ticks);
    }
  }

  /** The overflow test: dividing the wrapped product by a factor gives the other one only when
  nothing wrapped. */
  lemma WrapShows(period: nat, ticks: nat)
    requires period > 0 && ticks < TWO_64
    ensures period * ticks % TWO_64 / period == ticks <==> period * ticks < TWO_64
  {
    var product := period * ticks;
    MulNonNegative(period, ticks);
    var wrapped := product % TWO_64;
    QuotRem(wrapped, period);
    if product < TWO_64 {
      DivModUnique(product, period, ticks, 0);
    } else {
      assert wrapped / period * period <= wrapped < TWO_64 <= period * ticks;
    }
  }

  /** period * ticks, or 0 if that overflows. */
  method Product(period: nat, ticks: nat) returns (ns: nat)
    requires period > 0 && ticks < TWO_64
    ensures ns == if period * ticks < TWO_64 then period * ticks else 0
  {
    MulNonNegative(period, ticks);
    ns := period * ticks % TWO_64;
    WrapShows(period, ticks);
    if ns / period != ticks {
      ns := 0;
    }
  }

  lemma DivDiv(x: nat, p: nat)
    requires p > 0
    ensures x / 10 / p == x / (10 * p)
  {
    var q := x / (10 * p);
    QuotRem(x, 10 * p);
    var r := x - q * (10 * p);
    assert x == 10 * (q * p) + r;
    DivModUnique(x, 10, q * p + r / 10, r % 10);
    assert r / 10 < p;
    DivModUnique(x / 10, p, q, r / 10);
  }

  /** The loop so far: what the rest of it will turn ns, period and power into. */
  ghost predicate Scaling(ns: nat, period: nat, ticks: nat, power: nat, result: nat) {
    if ns == 0 then Ns(period, ticks, power) == result else ns >= period && ns / Pow10(power) == result
  }

  /** The rest of the loop never divides by zero. */
  ghost predicate Usable(period: nat, power: nat, result: nat) {
    period >= Pow10(power) || result != 0
  }

  lemma TicksCount(period: nat, ticks: nat)
    requires period > 0
    ensures period * ticks == 0 <==> ticks == 0
  {
    if ticks > 0 {
      MulMono(period, 1, ticks);
    }
  }

  lemma NsOfNothing(period: nat, ticks: nat, power: nat)
    requires period == 0 || ticks == 0
    ensures Ns(period, ticks, power) == 0
  {
    assert period * ticks == 0;
    DivModUnique(0, Pow10(power), 0, 0);
  }

  /** The first half of a turn: try the product again if nothing came of it so far. It divides by the
  period, which may have become zero. */
  method Retry(ns0: nat, period: nat, ticks: nat, ghost power: nat, ghost result: nat) returns (ok: bool, ns: nat)
    requires Scaling(ns0, period, ticks, power, result) && ticks < TWO_64
    ensures !ok ==> !Usable(period, power, result)
    ensures ok ==> Scaling(ns, period, ticks, power, result)
    ensures ok && ns == 0 ==> period > 0 && (ticks == 0 || period * ticks >= TWO_64)
  {
    ok, ns := true, ns0;
    if ns == 0 {
      if period == 0 {
        ok := false;
        NsOfNothing(period, ticks, power);
        return;
      }
      ns := Product(period, ticks);
      TicksCount(period, ticks);
      if ns != 0 {
        MulMono(period, 1, ticks);
      }
    }
  }

  /** The second half: one decimal digit less. */
  lemma DropDigit(ns: nat, period: nat, ticks: nat, power: nat, result: nat)
    requires power > 0 && Scaling(ns, period, ticks, power, result)
    requires ns == 0 ==> ticks == 0 || period * ticks >= TWO_64
    ensures Scaling(ns / 10, period / 10, ticks, power - 1, result)
    ensures Usable(period / 10, power - 1, result) <==> Usable(period, power, result)
  {
    var p := Pow10(power - 1);
    assert period / 10 >= p <==> period >= 10 * p;
    if ns == 0 {
      if ticks == 0 {
        NsOfNothing(period, ticks, power);
        NsOfNothing(period / 10, ticks, power - 1);
      }
    } else {
      DivDiv(ns, p);
      if ns < 10 {
        NsOfNothing(period / 10, ticks, power - 1);
        DivModUnique(ns / 10, p, 0, 0);
      }
    }
  }

  lemma FinalValue(ns: nat, period: nat, ticks: nat, result: nat)
    requires Scaling(ns, period, ticks, 0, result)
    requires ns == 0 ==> period > 0 && (ticks == 0 || period * ticks >= TWO_64)
    ensures ns == result && Usable(period, 0, result)
  {
    if ns == 0 && ticks == 0 {
      NsOfNothing(period, ticks, 0);
    }
  }

  lemma {:induction false} NsFits(period: nat, ticks: nat, power: nat)
    ensures Ns(period, ticks, power) < TWO_64
  {
    MulNonNegative(period, ticks);
    if period * ticks < TWO_64 {
      QuotRem(period * ticks, Pow10(power));
      MulMono(Ns(period, ticks, power) + 1, 1, Pow10(power));
    } else if power > 0 {
      NsFits(period / 10, ticks, power - 1);
    }
  }

  function Power(scale: int): nat {
    if scale < -9 then -9 - scale else 0
  }

  /** The first loop, which ends with a power of at most zero. */
  method ScaleDown(ticks: nat, period0: nat, power0: int) returns (ok: bool, ns: nat)
    requires ticks < TWO_64
    ensures var n := if power0 > 0 then power0 else 0; ok <==> Usable(period0, n, Ns(period0, ticks, n))
    ensures ok ==> ns == Ns(period0, ticks, if power0 > 0 then power0 else 0)
  {
    var power, period: nat := power0, period0;
    ns := 0;
    ghost var result := Ns(period0, ticks, if power0 > 0 then power0 else 0);
    ghost var usable := Usable(period0, if power0 > 0 then power0 else 0, result);
    while true
      invariant Scaling(ns, period, ticks, if power > 0 then power else 0, result)
      invariant Usable(period, if power > 0 then power else 0, result) == usable
      decreases power
    {
      ok, ns := Retry(ns, period, ticks, if power > 0 then power else 0, result);
      if !ok {
        return;
      }
      if power <= 0 {
        break;
      }
      DropDigit(ns, period, ticks, power, result);
      ns, period := ns / 10, period / 10;
      power := power - 1;
    }
    FinalValue(ns, period, ticks, result);
  }

  /** n * 10^power in 64 bits */
  function Wrapped(n: nat, power: nat): (r: nat)
    ensures r < TWO_64
  {
    n * Pow10(power) % TWO_64
  }

  lemma TimesTenMod(x: nat)
    ensures x % TWO_64 * 10 % TWO_64 == 10 * x % TWO_64
  {
    var q, r := x / TWO_64, x % TWO_64;
    assert x == q * TWO_64 + r;
    DivModUnique(10 * x, TWO_64, 10 * q + 10 * r / TWO_64, 10 * r % TWO_64);
  }

  lemma TimesTen(n: nat, power: nat)
    ensures Wrapped(n, power) * 10 % TWO_64 == Wrapped(n, power + 1)
  {
    MulNonNegative(n, Pow10(power));
    TimesTenMod(n * Pow10(power));
    TenTimes(n, Pow10(power));
  }

  /** The last loop. */
  method Multiply(ns0: nat, power0: nat) returns (ns: nat)
    requires ns0 < TWO_64
    ensures ns == Wrapped(ns0, power0)
  {
    ns := ns0;
    var power := power0;
    assert ns0 * Pow10(0) == ns0;
    while power > 0
      invariant 0 <= power <= power0 && ns == Wrapped(ns0, power0 - power)
    {
      TimesTen(ns0, power0 - power);
      ns := ns * 10 % TWO_64;
      power := power - 1;
    }
  }

  /** The conversion of ticks divides zero by zero. */
  ghost predicate DividesByZero(ticks: nat, period: nat, scale: int) {
    period < Pow10(Power(scale)) && Ns(period, ticks, Power(scale)) == 0
  }

  /** Nanoseconds for ticks. A scale above -9 multiplies, modulo 64 bits. */
  function TicksToNs(ticks: nat, period: nat, scale: int): nat {
    if scale <= -9 then Ns(period, ticks, -9 - scale) else Wrapped(Ns(period, ticks, 0), scale + 9)
  }

  /** timer_tick2ns */
  method TimerTick2ns(ticks: nat, timerPeriod: nat, timerScale: int) returns (ok: bool, ns: nat)
    requires ticks < TWO_64 && timerPeriod <= UINT_MAX
    ensures ok <==> !DividesByZero(ticks, timerPeriod, timerScale)
    ensures ok ==> ns == TicksToNs(ticks, timerPeriod, timerScale)
  {
    var power := -9 - timerScale;
    ok, ns := ScaleDown(ticks, timerPeriod, power);
    if ok && power < 0 {
      NsFits(timerPeriod, ticks, 0);
      ns := Multiply(ns, -power);
    }
  }

  lemma SmallPower(k: nat)
    requires k <= 8
    ensures Pow10(k) <= 100_000_000
  {
    Pow10Nine();
    Pow10Add(k, 8 - k);
    MulMono(Pow10(k), 1, Pow10(8 - k));
  }

  lemma Cancel(a: nat, b: nat, c: nat)
    requires a > 0
    ensures a * b <= a * c <==> b <= c
  {
    if b <= c {
      MulMono(a, b, c);
    } else {
      MulMono(a, c + 1, b);
    }
  }

  /** An inverted frequency converts every number of ticks without dividing by zero exactly when the
  frequency is below 1000000010 Hz. */
  lemma UsableIff(freq: nat, period: nat, scale: int, k: nat, rest: nat)
    requires Inverts(freq, period, scale, k, rest)
    ensures (forall ticks: nat | ticks < TWO_64 :: !DividesByZero(ticks, period, scale)) <==> freq < 1_000_000_010
  {
    NsOfNothing(period, 0, Power(scale));
    assert DividesByZero(0, period, scale) <==> period < Pow10(Power(scale));
    var f := Divisor(freq);
    Pow10Nine();
    if Power(scale) == 0 {
      QuotientAtLeast(k, f, period, rest, 1);
      if freq > UINT_MAX / 10 {
        SmallPower(k);
      }
    } else {
      var digits := k - Power(scale);
      Pow10Add(Power(scale), digits);
      QuotientAtLeast(k, f, period, rest, Pow10(Power(scale)));
      Cancel(Pow10(Power(scale)), f, Pow10(digits));
    }
  }

  lemma AheadArithmetic(ns: nat, p: nat, freq: nat, product: nat, period: nat, ticks: nat, ten: nat)
    requires ns * p <= product == period * ticks && period * freq <= ten == p * 1_000_000_000 && p > 0
    ensures ns * freq <= ticks * 1_000_000_000
  {
    MulLess(ns * p, product, freq);
    MulLess(period * freq, ten, ticks);
    SwapFactors(ns, p, freq);
    SwapFactors(period, ticks, freq);
    SwapFactors(p, 1_000_000_000, ticks);
    SwapFactors(ticks, p, 1_000_000_000);
    Commute(p, ticks);
    Commute(p, ns * freq);
    Commute(p, ticks * 1_000_000_000);
    Cancel(p, ns * freq, ticks * 1_000_000_000);
  }

  lemma ScaledDownBelow(power: nat, freq: nat, period: nat, ticks: nat)
    requires period * freq <= Pow10(power + 9)
    ensures Ns(period, ticks, power) * freq <= ticks * 1_000_000_000
  {
    Pow10Nine();
    MulNonNegative(period, ticks);
    NsBelow(period, ticks, power);
    Pow10Add(power, 9);
    AheadArithmetic(Ns(period, ticks, power), Pow10(power), freq, period * ticks, period, ticks, Pow10(power + 9));
  }

  lemma WrappedBelow(n: nat, power: nat, bound: nat)
    requires n <= bound
    ensures Wrapped(n, power) <= bound * Pow10(power)
  {
    MulNonNegative(n, Pow10(power));
    MulLess(n, bound, Pow10(power));
  }

  lemma Scaled(period: nat, ticks: nat, freq: nat, up: nat, ten: nat)
    requires period * freq <= ten && ten * up == 1_000_000_000
    ensures period * ticks * up * freq <= ticks * 1_000_000_000
  {
    MulLess(period * freq, ten, up);
    MulLess(period * freq * up, ten * up, ticks);
    SwapFactors(period * ticks, up, freq);
    SwapFactors(period, ticks, freq);
    SwapFactors(period * freq, ticks, up);
    Commute(ticks, 1_000_000_000);
  }

  lemma ScaledUpBelow(digits: nat, freq: nat, period: nat, ticks: nat)
    requires digits <= 9 && period * freq <= Pow10(digits)
    ensures Wrapped(Ns(period, ticks, 0), 9 - digits) * freq <= ticks * 1_000_000_000
  {
    var up := Pow10(9 - digits);
    Pow10Nine();
    MulNonNegative(period, ticks);
    NsBelow(period, ticks, 0);
    Pow10Add(digits, 9 - digits);
    WrappedBelow(Ns(period, ticks, 0), 9 - digits, period * ticks);
    MulLess(Wrapped(Ns(period, ticks, 0), 9 - digits), period * ticks * up, freq);
    Scaled(period, ticks, freq, up, Pow10(digits));
  }

  /** A period that is not too long for the frequency never makes the converted clock run ahead: the
  nanoseconds of ticks are at most ticks * 10^9 / freq. */
  lemma NeverAhead(scale: int, freq: nat, period: nat, ticks: nat)
    requires scale <= 0 && period * freq <= Pow10(-scale)
    ensures TicksToNs(ticks, period, scale) * freq <= ticks * 1_000_000_000
  {
    if scale <= -9 {
      ScaledDownBelow(-9 - scale, freq, period, ticks);
    } else {
      ScaledUpBelow(-scale, freq, period, ticks);
    }
  }

  /** The digit a frequency above UINT_MAX / 10 loses makes its period too long unless the remainder of
  the division makes up for it. */
  lemma LostDigit(freq: nat, period: nat, scale: int, k: nat, rest: nat)
    requires Inverts(freq, period, scale, k, rest)
    ensures Lost(freq) == 0 ==> period * freq <= Pow10(-scale)
    ensures Lost(freq) == 1 ==> (period * freq <= Pow10(-scale) <==> period * (freq % 10) <= 10 * rest)
  {
    if Lost(freq) == 1 {
      var f := freq / 10;
      Distribute(period, 10 * f, freq % 10);
      TenTimes(period, f);
    }
  }

  /** Inverting a frequency and converting with the result never runs ahead of the clock if no digit of
  the frequency is lost. */
  lemma ClockNeverAhead(freq: nat, period: nat, scale: int, k: nat, rest: nat, ticks: nat)
    requires Inverts(freq, period, scale, k, rest)
    requires freq <= UINT_MAX / 10 || freq % 10 == 0
    ensures TicksToNs(ticks, period, scale) * freq <= ticks * 1_000_000_000
  {
    LostDigit(freq, period, scale, k, rest);
    NeverAhead(scale, freq, period, ticks);
  }

  lemma EnoughDigits(freq: nat, period: nat, rest: nat, ten: nat)
    requires ten == period * freq + rest && rest < freq <= 232_830_649 && ten == 1_000_000_000 * 1_000_000_000
    ensures period >= 4_294_967_190
  {
    assert (period + 1) * freq == ten - rest + freq > ten;
    MulLess(freq, 232_830_649, period + 1);
    Commute(freq, period + 1);
  }

  lemma DigitsBelow(freq: nat, period: nat, scale: int, k: nat, rest: nat)
    requires Inverts(freq, period, scale, k, rest) && UINT_MAX / 10 < freq < 2_328_306_500
    ensures k <= 17
  {
    if k == 18 {
      Pow10Add(9, 9);
      Pow10Nine();
      EnoughDigits(Divisor(freq), period, rest, Pow10(18));
    }
  }

  lemma LostHasDigits(freq: nat, period: nat, k: nat, rest: nat)
    requires Divided(k, Divisor(freq), period, rest) && freq > UINT_MAX / 10
    requires period >= UINT_MAX / 10 - 10 || rest == 0
    ensures k >= 8
  {
    var f := Divisor(freq);
    if k < 8 {
      Pow10Nine();
      Pow10Add(k, 8 - k);
      Pow10Add(7 - k, 1);
      MulMono(Pow10(k), 10, Pow10(8 - k));
      QuotientAtLeast(k, f, period, rest, 1);
    }
  }

  /** 10^power ticks are as many nanoseconds as the period says. */
  lemma PowerTicks(period: nat, power: nat)
    requires period <= UINT_MAX && power <= 9
    ensures Ns(period, Pow10(power), power) == period && Pow10(power) < TWO_64
  {
    var p := Pow10(power);
    Pow10Nine();
    Pow10Add(power, 9 - power);
    MulMono(p, 1, Pow10(9 - power));
    MulLess(p, 1_000_000_000, period);
    Commute(period, p);
    MulNonNegative(period, p);
    DivModUnique(period * p, p, period, 0);
  }

  /** Below 2328306500 Hz the scale is at least -18. */
  lemma SlowScale(freq: nat, period: nat, scale: int, k: nat, rest: nat)
    requires Inverts(freq, period, scale, k, rest) && freq < 2_328_306_500
    ensures scale >= -18
  {
    if Lost(freq) == 1 {
      DigitsBelow(freq, period, scale, k, rest);
    }
  }

  /** With a scale of at least -18 the clock never runs ahead exactly when the period is not too long. */
  lemma NeverAheadIff(freq: nat, period: nat, scale: int, k: nat, rest: nat)
    requires Inverts(freq, period, scale, k, rest) && scale >= -18
    ensures (forall ticks: nat | ticks < TWO_64 :: TicksToNs(ticks, period, scale) * freq <= ticks * 1_000_000_000)
       <==> period * freq <= Pow10(-scale)
  {
    if period * freq <= Pow10(-scale) {
      forall ticks: nat | ticks < TWO_64
        ensures TicksToNs(ticks, period, scale) * freq <= ticks * 1_000_000_000
      {
        NeverAhead(scale, freq, period, ticks);
      }
    } else {
      LostDigit(freq, period, scale, k, rest);
      LostHasDigits(freq, period, k, rest);
      var power := -scale - 9;
      PowerTicks(period, power);
      Pow10Add(power, 9);
      Pow10Nine();
      assert TicksToNs(Pow10(power), period, scale) == period;
      assert Pow10(power) < TWO_64;
    }
  }

  /** Nanoseconds at scale -19 for ticks whose product with the period fits. */
  function Fitting(period: nat, ticks: nat): nat {
    period * ticks / Pow10(10)
  }

  /** For 10^10 ticks the product with a long period does not fit, and one digit of it is dropped. */
  lemma TenDigitTicks(period: nat)
    requires 1_844_674_408 <= period <= UINT_MAX
    ensures Ns(period, 10_000_000_000, 10) == 10 * (period / 10)
  {
    Pow10Nine();
    var q := period / 10;
    assert q * 10_000_000_000 < TWO_64 <= period * 10_000_000_000;
    assert q * 10_000_000_000 == 10 * q * 1_000_000_000;
    DivModUnique(q * 10_000_000_000, 1_000_000_000, 10 * q, 0);
  }

  /** At scale -19 no number of ticks runs ahead exactly when the period without its last digit is not too
  long and no number of ticks runs ahead whose product with the period fits. */
  lemma LastScaleTicks(freq: nat, period: nat)
    requires period > 0 && (period / 10 * freq > Pow10(18) ==> Ns(period, 10_000_000_000, 10) * freq > 10_000_000_000 * 1_000_000_000)
    ensures (forall ticks: nat | ticks < TWO_64 :: TicksToNs(ticks, period, -19) * freq <= ticks * 1_000_000_000)
       <==> period / 10 * freq <= Pow10(18) && forall ticks: nat | period * ticks < TWO_64 :: Fitting(period, ticks) * freq <= ticks * 1_000_000_000
  {
    assert TicksToNs(10_000_000_000, period, -19) == Ns(period, 10_000_000_000, 10);
    if period / 10 * freq <= Pow10(18) {
      forall ticks: nat | ticks < TWO_64
        ensures period * ticks < TWO_64 || TicksToNs(ticks, period, -19) * freq <= ticks * 1_000_000_000
      {
        ScaledDownBelow(9, freq, period / 10, ticks);
      }
      forall ticks: nat | period * ticks < TWO_64
        ensures ticks < TWO_64 && TicksToNs(ticks, period, -19) == Fitting(period, ticks)
      {
        MulLess(1, period, ticks);
      }
    }
  }

  /** The ends between which ticks per nanosecond are too few for the frequency and enough for a period
  that is too long at scale -19. */
  predicate TooLong(freq: nat, period: nat) {
    Ends(10_000_000_000, period, freq, 1_000_000_000)
  }

  /** The least number of ticks that the period makes too many nanoseconds, if the product fits. */
  function FirstAhead(freq: nat, period: nat): nat
    requires TooLong(freq, period)
  {
    Simplest(10_000_000_000, period, freq, 1_000_000_000, true).num
  }

  /** Ticks run ahead when some number of nanoseconds is within the product but beyond the time. */
  lemma AheadIsBetween(freq: nat, period: nat, ticks: nat, ns: nat)
    requires ns == Fitting(period, ticks) && ns * freq > ticks * 1_000_000_000
    ensures Between(ticks, ns, 10_000_000_000, period, freq, 1_000_000_000, true)
  {
    Pow10Nine();
    MulNonNegative(period, ticks);
    QuotRem(period * ticks, Pow10(10));
    Commute(10_000_000_000, ns);
    Commute(freq, ns);
    Commute(period, ticks);
  }

  lemma BetweenIsAhead(freq: nat, period: nat, ticks: nat, ns: nat)
    requires Between(ticks, ns, 10_000_000_000, period, freq, 1_000_000_000, true)
    ensures Fitting(period, ticks) * freq > ticks * 1_000_000_000
  {
    Pow10Nine();
    Commute(10_000_000_000, ns);
    Commute(freq, ns);
    Commute(period, ticks);
    MulNonNegative(period, ticks);
    QuotRem(period * ticks, Pow10(10));
    var most := Fitting(period, ticks);
    MulOrder(ns, most + 1, Pow10(10));
    MulLess(ns, most, freq);
  }

  lemma NoneBefore(freq: nat, period: nat, ticks: nat)
    requires TooLong(freq, period) && period * ticks < TWO_64 <= period * FirstAhead(freq, period)
    ensures Fitting(period, ticks) * freq <= ticks * 1_000_000_000
  {
    if Fitting(period, ticks) * freq > ticks * 1_000_000_000 {
      AheadIsBetween(freq, period, ticks, Fitting(period, ticks));
      SimplestIsLeast(10_000_000_000, period, freq, 1_000_000_000, true, ticks, Fitting(period, ticks));
      MulLess(FirstAhead(freq, period), ticks, period);
      Commute(period, ticks);
      Commute(period, FirstAhead(freq, period));
    }
  }

  lemma NotTooLong(freq: nat, period: nat, ticks: nat)
    requires !TooLong(freq, period) && period > 0 && period * ticks < TWO_64
    ensures Fitting(period, ticks) * freq <= ticks * 1_000_000_000
  {
    Pow10Nine();
    Pow10Add(10, 9);
    Commute(period, freq);
    ScaledDownBelow(10, freq, period, ticks);
  }

  /** Among the ticks whose product with the period fits, none runs ahead exactly when the period is not
  too long or the first that would does not fit. */
  lemma FittingTicks(freq: nat, period: nat)
    requires period > 0
    ensures (forall ticks: nat | period * ticks < TWO_64 :: Fitting(period, ticks) * freq <= ticks * 1_000_000_000)
       <==> !TooLong(freq, period) || period * FirstAhead(freq, period) >= TWO_64
  {
    if TooLong(freq, period) {
      var r := Simplest(10_000_000_000, period, freq, 1_000_000_000, true);
      SimplestIsBetween(10_000_000_000, period, freq, 1_000_000_000, true);
      BetweenIsAhead(freq, period, r.num, r.den);
      forall ticks: nat | period * ticks < TWO_64 <= period * r.num
        ensures Fitting(period, ticks) * freq <= ticks * 1_000_000_000
      {
        NoneBefore(freq, period, ticks);
      }
    } else {
      forall ticks: nat | period * ticks < TWO_64
        ensures Fitting(period, ticks) * freq <= ticks * 1_000_000_000
      {
        NotTooLong(freq, period, ticks);
      }
    }
  }

  /** With the scale -19 the last digit of the period is dropped when the product does not fit. The
  clock never runs ahead exactly when the rest of the period is not too long, and the period itself is
  not or shows it too late; 10^10 ticks show the first of these. */
  lemma NeverAheadAtLastScale(freq: nat, period: nat, scale: int, k: nat, rest: nat)
    requires Inverts(freq, period, scale, k, rest) && scale == -19
    ensures period / 10 * freq > Pow10(18) <==> TicksToNs(10_000_000_000, period, scale) * freq > 10_000_000_000 * 1_000_000_000
    ensures (forall ticks: nat | ticks < TWO_64 :: TicksToNs(ticks, period, scale) * freq <= ticks * 1_000_000_000)
       <==> period / 10 * freq <= Pow10(18) && (!TooLong(freq, period) || period * FirstAhead(freq, period) >= TWO_64)
  {
    Pow10Add(9, 9);
    Pow10Nine();
    QuotientAtLeast(18, Divisor(freq), period, rest, 1_844_674_408);
    TenDigitTicks(period);
    MulAssoc(10, period / 10, freq);
    assert TicksToNs(10_000_000_000, period, scale) == 10 * (period / 10);
    LastScaleTicks(freq, period);
    FittingTicks(freq, period);
  }

  /** 429496739 Hz loses its last digit, and one second of it becomes twenty nanoseconds too long. */
  lemma FastClockRunsAhead()
    ensures Inverts(429_496_739, 2_328_306_434, -18, 17, 15_903_918)
    ensures TicksToNs(429_496_739, 2_328_306_434, -18) == 1_000_000_020
  {
    Pow10Nine();
    Pow10Add(8, 8);
    Pow10Add(8, 9);
    DivModUnique(Pow10(16), 42_949_673, 232_830_643, 18_770_261);
    DivModUnique(2_328_306_434 * 429_496_739, 1_000_000_000, 1_000_000_020, 2_328_306_434 * 429_496_739 - 1_000_000_020_000_000_000);
  }

  lemma WrapsNot(n: nat)
    requires n < TWO_64
    ensures n % TWO_64 == n
  {
  }

  lemma ExactArithmetic(period: nat, ticks: nat, freq: nat, rest: nat, up: nat, ten: nat)
    requires ten == period * freq + rest && ten * up == 1_000_000_000
    ensures period * ticks * up * freq + ticks * rest * up == ticks * 1_000_000_000
  {
    SwapFactors(period * ticks, up, freq);
    SwapFactors(period, ticks, freq);
    Commute(period * freq, ticks);
    Distribute(ticks, period * freq, rest);
    Commute(ticks * (period * freq) + ticks * rest, up);
    Distribute(up, ticks * (period * freq), ticks * rest);
    Commute(up, ticks * (period * freq));
    Commute(up, ticks * rest);
    MulAssoc(ticks, ten, up);
  }

  lemma BehindArithmetic(n: nat, freq: nat, period: nat, rest: nat, ticks: nat)
    requires n > period * ticks && rest < freq
    ensures n * freq + ticks * rest > ticks * (period * freq + rest)
  {
    var b := period * ticks;
    MulMono(freq, b + 1, n);
    SwapFactors(period, ticks, freq);
    Commute(period * freq, ticks);
    Distribute(ticks, period * freq, rest);
  }

  /** While the product fits 64 bits the clock lags behind by less than one nanosecond, besides
  what the inexact period costs. With fewer than nine digits it does not even lag by that. */
  lemma NotFarBehind(scale: int, freq: nat, period: nat, rest: nat, ticks: nat)
    requires scale <= 0 && Divided(-scale, freq, period, rest)
    requires period * ticks * Pow10(if scale > -9 then scale + 9 else 0) < TWO_64
    ensures scale <= -9 ==>
      (TicksToNs(ticks, period, scale) + 1) * Pow10(-9 - scale) * freq + ticks * rest > ticks * Pow10(-scale)
    ensures scale > -9 ==>
      TicksToNs(ticks, period, scale) * freq + ticks * rest * Pow10(scale + 9) == ticks * 1_000_000_000
  {
    MulNonNegative(period, ticks);
    if scale <= -9 {
      QuotRem(period * ticks, Pow10(-9 - scale));
      BehindArithmetic((Ns(period, ticks, -9 - scale) + 1) * Pow10(-9 - scale), freq, period, rest, ticks);
    } else {
      var up := Pow10(scale + 9);
      Pow10Nine();
      Pow10Add(-scale, scale + 9);
      MulLess(1, up, period * ticks);
      Commute(up, period * ticks);
      DivModUnique(period * ticks, 1, period * ticks, 0);
      WrapsNot(period * ticks * up);
      ExactArithmetic(period, ticks, freq, rest, up, Pow10(-scale));
    }
  }
}
