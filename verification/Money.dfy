/** Fixed-point money arithmetic.

    An amount of money is an integer that counts units of 0.0001, the precision of every stored
    and returned price. A rate is a positive integer that counts units of 0.00000001 hryvnia, the
    scale of the rate column. A quotient is kept exact and rounded once, half to even
    (roundTiesToEven, section 4.3.1 of IEEE 754-2008). */
module Money {

  type Rate = r: int | 0 < r witness 1

  // The number of amounts an average is taken over; 1 for a plain amount.
  type Divisor = d: int | 0 < d witness 1

  // One hryvnia per hryvnia, at the scale of a rate.
  const UAH_RATE: Rate := 1_0000_0000

  datatype Currency = USD | UAH | EUR | GBP

  /***** Rounding *****/

  // quantize: n/d rounded to a whole number of units, ties to the even neighbour.
  function Round(n: int, d: int): (r: int)
    requires 0 < d
  {
    var q, rem := n / d, n % d;
    if 2 * rem < d || (2 * rem == d && q % 2 == 0) then q else q + 1
  }

  // The defining property of the rounding mode: r is a nearest integer, and the even one of two.
  ghost predicate IsNearestEven(n: int, d: int, r: int) {
    ErrorFits(n - r * d, d, r)
  }

  // The error is at most half of the divisor, and exactly half only if the result is even.
  ghost predicate ErrorFits(e: int, d: int, r: int) {
    -d <= 2 * e <= d && (2 * e == d || 2 * e == -d ==> r % 2 == 0)
  }

  lemma RoundIsNearestEven(n: int, d: int)
    requires 0 < d
    ensures IsNearestEven(n, d, Round(n, d))
  {
    var q := n / d;
    assert n - (q + 1) * d == n % d - d;
  }

  lemma MulMono(x: int, y: int, k: int)
    requires x <= y && 0 <= k
    ensures x * k <= y * k
  {}

  lemma ZeroFactor(x: int, k: int)
    requires 0 <= x && 0 < k && x * k <= 0
    ensures x == 0
  {}

  // Nearest integers of fractions in order are in order, unless both fractions are the same tie.
  lemma NearestGap(n1: int, d1: int, r1: int, n2: int, d2: int, r2: int)
    requires 0 < d1 && 0 < d2 && n1 * d2 <= n2 * d1
    requires 2 * (r1 * d1 - n1) <= d1 && 2 * (n2 - r2 * d2) <= d2
    requires r2 < r1
    ensures r1 == r2 + 1 && 2 * (r1 * d1 - n1) == d1 && 2 * (n2 - r2 * d2) == d2
  {
    var D := d1 * d2;
    var x, a, b := r1 - r2 - 1, d1 - 2 * (r1 * d1 - n1), d2 - 2 * (n2 - r2 * d2);
    MulMono(0, a, d2);
    MulMono(0, b, d1);
    MulMono(0, x, D);
    assert a * d2 + b * d1 == 2 * (n1 * d2 - n2 * d1) - 2 * (x * D) by {
      assert r1 * d1 * d2 == r1 * D && r2 * d2 * d1 == r2 * D;
      assert x * D == r1 * D - r2 * D - D;
    }
    ZeroFactor(a, d2);
    ZeroFactor(b, d1);
    ZeroFactor(x, D);
  }

  lemma NearestEvenIsMonotone(n1: int, d1: int, r1: int, n2: int, d2: int, r2: int)
    requires 0 < d1 && 0 < d2
    requires IsNearestEven(n1, d1, r1) && IsNearestEven(n2, d2, r2)
    requires n1 * d2 <= n2 * d1
    ensures r1 <= r2
  {
    if r2 < r1 {
      NearestGap(n1, d1, r1, n2, d2, r2);
      assert false;  // r1 and r2 would both be even, one apart
    }
  }

  // The mode determines the result, so Round computes it and nothing else does.
  lemma RoundIff(n: int, d: int, r: int)
    requires 0 < d
    ensures Round(n, d) == r <==> IsNearestEven(n, d, r)
  {
    RoundIsNearestEven(n, d);
    if IsNearestEven(n, d, r) {
      NearestEvenIsMonotone(n, d, r, n, d, Round(n, d));
      NearestEvenIsMonotone(n, d, Round(n, d), n, d, r);
    }
  }

  // Rounding never reverses the order of two fractions.
  lemma RoundMonotone(n1: int, d1: int, n2: int, d2: int)
    requires 0 < d1 && 0 < d2
    requires n1 * d2 <= n2 * d1
    ensures Round(n1, d1) <= Round(n2, d2)
  {
    RoundIsNearestEven(n1, d1);
    RoundIsNearestEven(n2, d2);
    NearestEvenIsMonotone(n1, d1, Round(n1, d1), n2, d2, Round(n2, d2));
  }

  lemma RoundExact(k: int, d: int)
    requires 0 < d
    ensures Round(k * d, d) == k
  {
    RoundIff(k * d, d, k);
  }

  // Rounding is odd, and commutes with a shift by an even number of units.
  lemma RoundReflect(n: int, d: int, k: int)
    requires 0 < d
    ensures Round(2 * k * d - n, d) == 2 * k - Round(n, d)
  {
    var r := Round(n, d);
    RoundIsNearestEven(n, d);
    assert ErrorFits(-(n - r * d), d, 2 * k - r);
    assert 2 * k * d - n - (2 * k - r) * d == -(n - r * d);
    RoundIff(2 * k * d - n, d, 2 * k - r);
  }

  /***** Conversion *****/

  // CurrencyService.convert, for an amount of num/den units of USD.
  function Convert(num: int, den: int, currency: Currency, rateUsd: Rate, rateTarget: Rate): int
    requires 0 < den
  {
    match currency
    case USD => Round(num, den)
    case UAH => Round(num * rateUsd, den * UAH_RATE)
    case _ => Round(num * rateUsd, den * rateTarget)
  }

  // AlertService._to_usd; get_rate answers UAH_RATE for the hryvnia.
  function ToUsd(amount: int, currency: Currency, rateUsd: Rate, rateOther: Rate): int {
    if currency == USD then amount else Round(amount * rateOther, rateUsd)
  }

  // Every conversion gives a nearest whole number of units to the exact amount, the even one of two.
  lemma ConvertIsNearest(num: int, den: int, c: Currency, rateUsd: Rate, rateTarget: Rate)
    requires 0 < den
    ensures IsNearestEven(num, den, Convert(num, den, USD, rateUsd, rateTarget))
    ensures IsNearestEven(num * rateUsd, den * 1_0000_0000, Convert(num, den, UAH, rateUsd, rateTarget))
    ensures c == EUR || c == GBP ==>
              IsNearestEven(num * rateUsd, den * rateTarget, Convert(num, den, c, rateUsd, rateTarget))
  {
    RoundIsNearestEven(num, den);
    RoundIsNearestEven(num * rateUsd, den * UAH_RATE);
    RoundIsNearestEven(num * rateUsd, den * rateTarget);
  }

  lemma ToUsdIsNearest(amount: int, currency: Currency, rateUsd: Rate, rateOther: Rate)
    ensures currency == USD ==> ToUsd(amount, currency, rateUsd, rateOther) == amount
    ensures currency != USD ==>
              IsNearestEven(amount * rateOther, rateUsd, ToUsd(amount, currency, rateUsd, rateOther))
  {
    RoundIsNearestEven(amount * rateOther, rateUsd);
  }

  // A USD price as the service shows it in the currency.
  function Shown(priceUsd: int, currency: Currency, rateUsd: Rate, rateOther: Rate): int {
    Convert(priceUsd, 1, currency, rateUsd, rateOther)
  }

  // The rates get_rate can answer for a currency: the hryvnia is the base.
  predicate RatesFor(currency: Currency, rateUsd: Rate, rateOther: Rate) {
    && (currency == UAH ==> rateOther == UAH_RATE)
    && (currency == USD ==> rateOther == rateUsd)
  }

  // Conversion keeps the order of prices, so it commutes with min and max.
  lemma ConvertMonotone(n1: int, d1: int, n2: int, d2: int, c: Currency, rateUsd: Rate, rateTarget: Rate)
    requires 0 < d1 && 0 < d2 && n1 * d2 <= n2 * d1
    ensures Convert(n1, d1, c, rateUsd, rateTarget) <= Convert(n2, d2, c, rateUsd, rateTarget)
  {
    var t := if c == UAH then UAH_RATE else rateTarget;
    if c == USD {
      RoundMonotone(n1, d1, n2, d2);
    } else {
      assert (n1 * rateUsd) * (d2 * t) == (n1 * d2) * (rateUsd * t);
      assert (n2 * rateUsd) * (d1 * t) == (n2 * d1) * (rateUsd * t);
      assert 0 < d1 * t && 0 < d2 * t && 0 < rateUsd * t;
      MulMono(n1 * d2, n2 * d1, rateUsd * t);
      RoundMonotone(n1 * rateUsd, d1 * t, n2 * rateUsd, d2 * t);
    }
  }

  lemma ShownMonotone(p1: int, p2: int, c: Currency, rateUsd: Rate, rateOther: Rate)
    requires p1 <= p2
    ensures Shown(p1, c, rateUsd, rateOther) <= Shown(p2, c, rateUsd, rateOther)
  {
    ConvertMonotone(p1, 1, p2, 1, c, rateUsd, rateOther);
  }

  /***** Threshold round trip *****/

  function RoundTrip(t: int, c: Currency, rateUsd: Rate, rateOther: Rate): int {
    Shown(ToUsd(t, c, rateUsd, rateOther), c, rateUsd, rateOther)
  }

  // With rates a and b, t goes to Round(t * b, a) and u comes back as Round(u * a, b).
  lemma ThereAndBack(t: int, a: Rate, b: Rate)
    ensures var e := Round(Round(t * b, a) * a, b) - t; -(a + b) <= 2 * b * e <= a + b
  {
    var u := Round(t * b, a);
    var back := Round(u * a, b);
    RoundIsNearestEven(t * b, a);
    RoundIsNearestEven(u * a, b);
    assert 2 * b * (back - t) == 2 * (back * b - u * a) + 2 * (u * a - t * b);
  }

  lemma ThereAndBackExact(t: int, a: Rate, b: Rate)
    requires a <= b
    ensures Round(Round(t * b, a) * a, b) == t
  {
    if a == b {
      RoundExact(t, a);
    } else {
      RoundIsNearestEven(t * b, a);
      var e := Round(t * b, a) * a - t * b;
      assert ErrorFits(e, b, t);
      RoundIff(Round(t * b, a) * a, b, t);
    }
  }

  // What lies above the image of t comes back as at least t.
  lemma AboveImage(m: int, t: int, a: Rate, b: Rate)
    requires Round(t * b, a) < m
    ensures t <= Round(m * a, b)
  {
    var u := Round(t * b, a);
    RoundIsNearestEven(t * b, a);
    MulMono(u + 1, m, a);
    assert (u + 1) * a == u * a + a;
    assert t * b <= m * a;
    MulMono(t * b, m * a, b);
    RoundMonotone(t * b, b, m * a, b);
    RoundExact(t, b);
  }

  lemma ShownIs(p: int, c: Currency, rateUsd: Rate, rateOther: Rate)
    requires RatesFor(c, rateUsd, rateOther)
    ensures Shown(p, c, rateUsd, rateOther) == if c == USD then p else Round(p * rateUsd, rateOther)
  {
    RoundExact(p, 1);
  }

  lemma RoundTripError(t: int, c: Currency, rateUsd: Rate, rateOther: Rate)
    requires RatesFor(c, rateUsd, rateOther)
    ensures var e := RoundTrip(t, c, rateUsd, rateOther) - t;
            -(rateOther + rateUsd) <= 2 * rateOther * e <= rateOther + rateUsd
  {
    ShownIs(ToUsd(t, c, rateUsd, rateOther), c, rateUsd, rateOther);
    ThereAndBack(t, rateUsd, rateOther);
  }

  lemma RoundTripExact(t: int, c: Currency, rateUsd: Rate, rateOther: Rate)
    requires RatesFor(c, rateUsd, rateOther) && rateUsd <= rateOther
    ensures RoundTrip(t, c, rateUsd, rateOther) == t
  {
    ShownIs(ToUsd(t, c, rateUsd, rateOther), c, rateUsd, rateOther);
    ThereAndBackExact(t, rateUsd, rateOther);
  }

  lemma ToUsdMonotone(t1: int, t2: int, c: Currency, rateUsd: Rate, rateOther: Rate)
    requires t1 <= t2
    ensures ToUsd(t1, c, rateUsd, rateOther) <= ToUsd(t2, c, rateUsd, rateOther)
  {
    if c != USD {
      MulMono(t1, t2, rateOther);
      MulMono(t1 * rateOther, t2 * rateOther, rateUsd);
      RoundMonotone(t1 * rateOther, rateUsd, t2 * rateOther, rateUsd);
    }
  }

  lemma RoundTripZero(c: Currency, rateUsd: Rate, rateOther: Rate)
    ensures ToUsd(0, c, rateUsd, rateOther) == 0 == RoundTrip(0, c, rateUsd, rateOther)
  {
    RoundExact(0, rateUsd);
    RoundExact(0, rateOther);
    RoundExact(0, UAH_RATE);
    RoundExact(0, 1);
  }

  // Exact round trips never merge two thresholds, so they need as many USD units as thresholds.
  lemma {:induction false} ExactNeedsRoom(n: nat, c: Currency, rateUsd: Rate, rateOther: Rate)
    requires forall t | 0 < t <= n :: RoundTrip(t, c, rateUsd, rateOther) == t
    ensures n <= ToUsd(n, c, rateUsd, rateOther)
  {
    RoundTripZero(c, rateUsd, rateOther);
    if n > 0 {
      ExactNeedsRoom(n - 1, c, rateUsd, rateOther);
      ToUsdMonotone(n - 1, n, c, rateUsd, rateOther);
      assert RoundTrip(n, c, rateUsd, rateOther) != RoundTrip(n - 1, c, rateUsd, rateOther);
    }
  }

  // Every positive threshold survives the trip to USD and back iff a unit of its currency is worth
  // at least a dollar.
  lemma RoundTripExactIff(c: Currency, rateUsd: Rate, rateOther: Rate)
    requires RatesFor(c, rateUsd, rateOther)
    ensures (forall t | 0 < t :: RoundTrip(t, c, rateUsd, rateOther) == t) <==> rateUsd <= rateOther
  {
    if rateUsd <= rateOther {
      forall t | 0 < t ensures RoundTrip(t, c, rateUsd, rateOther) == t {
        RoundTripExact(t, c, rateUsd, rateOther);
      }
    }
    if forall t | 0 < t :: RoundTrip(t, c, rateUsd, rateOther) == t {
      ExactNeedsRoom(rateUsd, c, rateUsd, rateOther);
      assert rateUsd * rateOther == rateOther * rateUsd;
      RoundExact(rateOther, rateUsd);
    }
  }

  /***** The alert decision against the displayed price *****/

  // list_triggered compares in USD; the user typed t in the currency and sees Shown prices.
  predicate Fires(minUsd: int, t: int, c: Currency, rateUsd: Rate, rateOther: Rate) {
    minUsd <= ToUsd(t, c, rateUsd, rateOther)
  }

  // Whatever the rates, a displayed minimum strictly below the typed threshold fires the alert.
  lemma BelowThresholdFires(minUsd: int, t: int, c: Currency, rateUsd: Rate, rateOther: Rate)
    requires RatesFor(c, rateUsd, rateOther)
    requires Shown(minUsd, c, rateUsd, rateOther) < t
    ensures Fires(minUsd, t, c, rateUsd, rateOther)
  {
    ShownIs(minUsd, c, rateUsd, rateOther);
    if c != USD && ToUsd(t, c, rateUsd, rateOther) < minUsd {
      AboveImage(minUsd, t, rateUsd, rateOther);
      assert false;
    }
  }

  lemma FiredShowsAtMostThreshold(minUsd: int, t: int, c: Currency, rateUsd: Rate, rateOther: Rate)
    requires RatesFor(c, rateUsd, rateOther) && rateUsd <= rateOther
    requires Fires(minUsd, t, c, rateUsd, rateOther)
    ensures Shown(minUsd, c, rateUsd, rateOther) <= t
  {
    ShownMonotone(minUsd, ToUsd(t, c, rateUsd, rateOther), c, rateUsd, rateOther);
    RoundTripExact(t, c, rateUsd, rateOther);
  }

  // Both directions of the agreement between the decision and the display.
  lemma DisplayDecision(minUsd: int, t: int, c: Currency, rateUsd: Rate, rateOther: Rate)
    requires RatesFor(c, rateUsd, rateOther)
    ensures Shown(minUsd, c, rateUsd, rateOther) < t ==> Fires(minUsd, t, c, rateUsd, rateOther)
    ensures rateUsd <= rateOther && Fires(minUsd, t, c, rateUsd, rateOther)
            ==> Shown(minUsd, c, rateUsd, rateOther) <= t
  {
    if Shown(minUsd, c, rateUsd, rateOther) < t { BelowThresholdFires(minUsd, t, c, rateUsd, rateOther); }
    if rateUsd <= rateOther && Fires(minUsd, t, c, rateUsd, rateOther) {
      FiredShowsAtMostThreshold(minUsd, t, c, rateUsd, rateOther);
    }
  }

  // A fired alert exceeds the typed threshold by at most the round trip's error.
  lemma FiredIsNearThreshold(minUsd: int, t: int, c: Currency, rateUsd: Rate, rateOther: Rate)
    requires RatesFor(c, rateUsd, rateOther)
    requires Fires(minUsd, t, c, rateUsd, rateOther)
    ensures 2 * rateOther * (Shown(minUsd, c, rateUsd, rateOther) - t) <= rateOther + rateUsd
  {
    ShownMonotone(minUsd, ToUsd(t, c, rateUsd, rateOther), c, rateUsd, rateOther);
    RoundTripError(t, c, rateUsd, rateOther);
    MulMono(Shown(minUsd, c, rateUsd, rateOther) - t, RoundTrip(t, c, rateUsd, rateOther) - t, 2 * rateOther);
  }

  lemma ReflectScaled(t: int, a: Rate, b: int)
    ensures Round((2 * a - t) * b, a) == 2 * b - Round(t * b, a)
  {
    assert (2 * a - t) * b == 2 * b * a - t * b;
    RoundReflect(t * b, a, b);
  }

  // The round trip is symmetric about rateUsd thresholds, so an error below has its error above.
  lemma RoundTripReflect(t: int, c: Currency, rateUsd: Rate, rateOther: Rate)
    requires RatesFor(c, rateUsd, rateOther) && c != USD
    ensures RoundTrip(2 * rateUsd - t, c, rateUsd, rateOther) == 2 * rateUsd - RoundTrip(t, c, rateUsd, rateOther)
  {
    ReflectScaled(t, rateUsd, rateOther);
    ReflectScaled(ToUsd(t, c, rateUsd, rateOther), rateOther, rateUsd);
  }

  lemma RoundTripNotAboveIsExact(t: int, c: Currency, rateUsd: Rate, rateOther: Rate)
    requires RatesFor(c, rateUsd, rateOther) && 0 < t < 2 * rateUsd
    requires forall s | 0 < s :: RoundTrip(s, c, rateUsd, rateOther) <= s
    ensures RoundTrip(t, c, rateUsd, rateOther) == t
  {
    if c == USD {
      RoundExact(t, 1);
    } else {
      RoundTripReflect(t, c, rateUsd, rateOther);
    }
  }

  // A fired alert never shows a price above the typed threshold, for all prices and thresholds,
  // iff a unit of the currency is worth at least a dollar. For hryvnia thresholds it can.
  lemma FiredShowsAtMostThresholdIff(c: Currency, rateUsd: Rate, rateOther: Rate)
    requires RatesFor(c, rateUsd, rateOther)
    ensures (forall t, m | 0 < t && Fires(m, t, c, rateUsd, rateOther) :: Shown(m, c, rateUsd, rateOther) <= t)
            <==> rateUsd <= rateOther
  {
    if rateUsd <= rateOther {
      forall t, m | 0 < t && Fires(m, t, c, rateUsd, rateOther) ensures Shown(m, c, rateUsd, rateOther) <= t {
        FiredShowsAtMostThreshold(m, t, c, rateUsd, rateOther);
      }
    }
    if forall t, m | 0 < t && Fires(m, t, c, rateUsd, rateOther) :: Shown(m, c, rateUsd, rateOther) <= t {
      forall s | 0 < s ensures RoundTrip(s, c, rateUsd, rateOther) <= s {
        assert Fires(ToUsd(s, c, rateUsd, rateOther), s, c, rateUsd, rateOther);
      }
      forall t | 0 < t <= rateUsd ensures RoundTrip(t, c, rateUsd, rateOther) == t {
        RoundTripNotAboveIsExact(t, c, rateUsd, rateOther);
      }
      ExactNeedsRoom(rateUsd, c, rateUsd, rateOther);
      assert rateUsd * rateOther == rateOther * rateUsd;
      RoundExact(rateOther, rateUsd);
    }
  }

  // At 44.8685 hryvnias to the dollar a threshold of 5000 hryvnias is stored as 111.4368 dollars, and
  // the alert it fires at that price shows 5000.0021 hryvnias.
  lemma HryvniaExample()
    ensures var rateUsd: Rate := 44_8685_0000;
            && ToUsd(5000_0000, UAH, rateUsd, UAH_RATE) == 111_4368
            && Fires(111_4368, 5000_0000, UAH, rateUsd, UAH_RATE)
            && Shown(111_4368, UAH, rateUsd, UAH_RATE) == 5000_0021
  {}

  /***** Daily average *****/

  function Sum(prices: seq<int>): int {
    if prices == [] then 0 else prices[0] + Sum(prices[1..])
  }

  lemma {:induction false} SumConcat(a: seq<int>, b: seq<int>)
    ensures Sum(a + b) == Sum(a) + Sum(b)
    ensures forall x: int :: Sum([x]) == x
  {
    assert forall x: int :: [x][1..] == [];
    if a == [] {
      assert a + b == b;
    } else {
      SumConcat(a[1..], b);
      assert (a + b)[1..] == a[1..] + b;
    }
  }

  lemma OneMore(n: nat, x: int)
    ensures (n + 1) * x == x + n * x
  {}

  lemma {:induction false} SumBetween(prices: seq<int>, lo: int, hi: int)
    requires forall p | p in prices :: lo <= p <= hi
    ensures |prices| * lo <= Sum(prices) <= |prices| * hi
  {
    if prices != [] {
      assert prices == [prices[0]] + prices[1..];
      assert forall p | p in prices[1..] :: p in prices;
      assert prices[0] in prices;
      SumBetween(prices[1..], lo, hi);
      OneMore(|prices[1..]|, lo);
      OneMore(|prices[1..]|, hi);
    }
  }

  // A rounded mean of whole units stays between the smallest and the largest of them.
  lemma AverageBetween(prices: seq<int>, lo: int, hi: int)
    requires prices != [] && forall p | p in prices :: lo <= p <= hi
    ensures lo <= Round(Sum(prices), |prices|) <= hi
  {
    var n := |prices|;
    SumBetween(prices, lo, hi);
    MulMono(n * lo, Sum(prices), n);
    MulMono(Sum(prices), n * hi, n);
    RoundMonotone(lo * n, n, Sum(prices), n);
    RoundMonotone(Sum(prices), n, hi * n, n);
    RoundExact(lo, n);
    RoundExact(hi, n);
  }
}
