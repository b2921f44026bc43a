/** What `dividedBy` returns, measured against the quotient of the two numbers. */
module DecimalQuotient {
  import opened SchemaGraph
  import opened Decimals
  import opened DecimalDivision

  ghost function AbsReal(x: real): real { if x < 0.0 then -x else x }

  ghost function Signed(negative: bool, x: real): real { if negative then -x else x }

  /** `10^u` is the place of the last of the `p` leading digits of `q`. */
  ghost predicate UnitOf(q: real, p: nat, u: int)
    requires p >= 1
  {
    (Pow10(p - 1) as real) * Scale(u) <= AbsReal(q) < (Pow10(p) as real) * Scale(u)
  }

  // ---------- Real arithmetic, one step at a time ----------

  lemma Cancel(n: real, d: real, r: real)
    requires d != 0.0 && r * d == n
    ensures n / d == r
  {
  }

  lemma RatioOrder(c: real, n: real, d: real)
    requires d > 0.0
    ensures c <= n / d <==> c * d <= n
    ensures c < n / d <==> c * d < n
  {
    var r := n / d;
    assert r * d == n;
    ProductSign(r - c, d);
    ProductSign(c - r, d);
    assert (r - c) * d == r * d - c * d;
    assert (c - r) * d == c * d - r * d;
  }

  lemma ScaledRealOrder(x: real, y: real, s: real)
    requires s > 0.0
    ensures x < y <==> x * s < y * s
    ensures x <= y <==> x * s <= y * s
  {
    ProductSign(y - x, s);
    ProductSign(x - y, s);
    assert (y - x) * s == y * s - x * s;
    assert (x - y) * s == x * s - y * s;
  }

  lemma CastOrder(x: int, y: int)
    ensures x < y <==> (x as real) < (y as real)
  {
  }

  lemma Regroup(x: real, k: real, t: real, y: real, s: real, r: real)
    requires r * y == x * k
    ensures (r * t) * (y * s) == x * (s * (t * k))
  {
    assert (r * t) * (y * s) == (r * y) * (t * s) by { Interchange(r, y, t, s); Commute(r * t, y * s, r * y, t * s); }
    assert (x * k) * (t * s) == x * (s * (t * k)) by { Shuffle(x, k, t, s); }
  }

  lemma Commute(p: real, q: real, v: real, z: real)
    ensures p * q == q * p && v * z == z * v
  {
  }

  lemma Shuffle(x: real, k: real, t: real, s: real)
    ensures (x * k) * (t * s) == x * (s * (t * k))
  {
    assert (x * k) * (t * s) == x * (k * (t * s));
    assert k * (t * s) == s * (t * k);
  }

  lemma QuotientOfSigned(m: bool, n: bool, a: real, b: real, r: real)
    requires b > 0.0 && r * b == a
    ensures Signed(n, b) != 0.0 && Signed(m, a) / Signed(n, b) == Signed(m != n, r)
  {
    var sa, sb, sr := Signed(m, a), Signed(n, b), Signed(m != n, r);
    assert sr * sb == sa;
    Cancel(sa, sb, sr);
  }

  // ---------- The shape of the result ----------

  /** The ratio of the shifted coefficients. */
  ghost function Ratio(x: nat, y: nat, k: nat): real
    requires y > 0
  {
    ((x * Pow10(k)) as real) / (y as real)
  }

  lemma {:induction false} StripKeepsValue(q: nat, exp: int)
    ensures Value(Strip(q, exp)) == Value(Decimal(q, exp))
    ensures Strip(q, exp).coef % 10 != 0 || q == 0
    ensures Strip(q, exp).coef >= 0
    decreases q
  {
    if q != 0 && q % 10 == 0 {
      StripKeepsValue(q / 10, exp + 1);
      assert Pow10(1) == 10;
      Rescaled(q / 10, exp, 1);
    }
  }

  ghost function Magnitude(d: Decimal): real { (AbsInt(d.coef) as real) * Scale(d.exp) }

  lemma SignedValue(d: Decimal)
    ensures Value(d) == Signed(d.coef < 0, Magnitude(d))
  {
    hide Scale;
    var s := Scale(d.exp);
    if d.coef < 0 { assert (d.coef as real) * s == -((-d.coef) as real * s); }
  }

  /** The exponent that the last shift leaves. */
  lemma ExponentSplit(a: Decimal, b: Decimal, p: nat)
    requires a.coef != 0 && b.coef != 0 && p >= 1
    ensures var k, t := LastShift(AbsInt(a.coef), AbsInt(b.coef), p), Scale(KeptExp(a, b, p) - 1);
            Scale(a.exp) == Scale(b.exp) * (t * (Pow10(k) as real))
  {
    hide Scale, LastShift;
    var k := LastShift(AbsInt(a.coef), AbsInt(b.coef), p);
    var e := KeptExp(a, b, p) - 1;
    ScaleAdd(e, k);
    ScaleSum(b.exp, e + k);
    assert b.exp + (e + k) == a.exp;
  }

  /** The size of the quotient, from the shifted coefficients. */
  ghost function Size(a: Decimal, b: Decimal, p: nat): real
    requires a.coef != 0 && b.coef != 0 && p >= 1
  {
    var x, y := AbsInt(a.coef), AbsInt(b.coef);
    Ratio(x, y, LastShift(x, y, p)) * Scale(KeptExp(a, b, p) - 1)
  }

  lemma QuotientShape(a: Decimal, b: Decimal, p: nat)
    requires a.coef != 0 && b.coef != 0 && p >= 1
    ensures Value(b) != 0.0 && Value(a) / Value(b) == Signed((a.coef < 0) != (b.coef < 0), Size(a, b, p))
  {
    hide Value, Signed, Scale, Magnitude, Size;
    SignedValue(a);
    SignedValue(b);
    MagnitudeRatio(a, b, p);
    PositiveMagnitude(b);
    QuotientOfSigned(a.coef < 0, b.coef < 0, Magnitude(a), Magnitude(b), Size(a, b, p));
  }

  lemma PositiveMagnitude(d: Decimal)
    requires d.coef != 0
    ensures Magnitude(d) > 0.0
  {
    hide Scale;
    ProductSign(AbsInt(d.coef) as real, Scale(d.exp));
  }

  lemma MagnitudeRatio(a: Decimal, b: Decimal, p: nat)
    requires a.coef != 0 && b.coef != 0 && p >= 1
    ensures Size(a, b, p) * Magnitude(b) == Magnitude(a)
  {
    hide Scale, LastShift;
    var x, y := AbsInt(a.coef), AbsInt(b.coef);
    var k, t := LastShift(x, y, p), Scale(KeptExp(a, b, p) - 1);
    ExponentSplit(a, b, p);
    ProductCast(x, Pow10(k));
    RatioTimes((x * Pow10(k)) as real, y as real);
    Regroup(x as real, Pow10(k) as real, t, y as real, Scale(b.exp), Ratio(x, y, k));
  }

  lemma RatioTimes(n: real, d: real)
    requires d != 0.0
    ensures n / d * d == n
  {
  }

  /** The size of the result. */
  ghost function KeptSize(a: Decimal, b: Decimal, p: nat): real
    requires a.coef != 0 && b.coef != 0 && p >= 1
  {
    10.0 * (Kept(AbsInt(a.coef), AbsInt(b.coef), p) as real) * Scale(KeptExp(a, b, p) - 1)
  }

  lemma ResultShape(a: Decimal, b: Decimal, precision: Option<int>)
    requires a.coef != 0 && b.coef != 0
    ensures var p := Precision(precision);
            Divide(a, b, precision).Some? &&
            Value(Divide(a, b, precision).value) == Signed((a.coef < 0) != (b.coef < 0), KeptSize(a, b, p))
  {
    hide Scale, Value, Strip, Neg, KeptSize;
    var p := Precision(precision);
    var m, u := Kept(AbsInt(a.coef), AbsInt(b.coef), p), KeptExp(a, b, p);
    StrippedSize(a, b, p);
    SumsAreExact(Strip(m, u), Strip(m, u));
  }

  lemma StrippedSize(a: Decimal, b: Decimal, p: nat)
    requires a.coef != 0 && b.coef != 0 && p >= 1
    ensures Value(Strip(Kept(AbsInt(a.coef), AbsInt(b.coef), p), KeptExp(a, b, p))) == KeptSize(a, b, p)
  {
    hide Scale, Kept, KeptExp, Strip;
    var m, u := Kept(AbsInt(a.coef), AbsInt(b.coef), p), KeptExp(a, b, p);
    StripKeepsValue(m, u);
    ScaleStep(u - 1);
    TenMoved(m as real, Scale(u - 1));
  }

  lemma TenMoved(m: real, t: real)
    ensures m * (10.0 * t) == 10.0 * m * t
  {
  }

  // ---------- Accuracy ----------

  /** Two decades do not share a unit. */
  lemma UnitIsUnique(q: real, p: nat, u: int, v: int)
    requires p >= 1 && UnitOf(q, p, u) && UnitOf(q, p, v)
    ensures u == v
  {
    if u < v { UnitsApart(q, p, u, v); }
    if v < u { UnitsApart(q, p, v, u); }
  }

  lemma UnitsApart(q: real, p: nat, u: int, v: int)
    requires p >= 1 && u < v && UnitOf(q, p, v)
    ensures !UnitOf(q, p, u)
  {
    hide Scale, Pow10;
    ScaleAdd(u, v - u);
    Pow10Add(p - 1, v - u);
    if p < p - 1 + (v - u) { Pow10Grows(p, p - 1 + (v - u)); }
    ProductCast(Pow10(p - 1), Pow10(v - u));
    CastOrder(Pow10(p - 1 + (v - u)), Pow10(p));
    var s, low, step := Scale(u), Pow10(p - 1) as real, Pow10(v - u) as real;
    assert low * (s * step) == (low * step) * s by { Shuffle(low, step, 1.0, s); }
    ScaledRealOrder(Pow10(p) as real, low * step, s);
  }

  /** In range, the shifted quotient has its unit at the kept exponent. */
  lemma KeptUnit(a: Decimal, b: Decimal, p: nat)
    requires a.coef != 0 && b.coef != 0 && p >= 1 && Fits(AbsInt(a.coef), AbsInt(b.coef), p)
    ensures UnitOf(Value(a) / Value(b), p, KeptExp(a, b, p))
  {
    hide Scale, KeptExp, Value, Pow10, Size, Signed, AbsReal;
    QuotientShape(a, b, p);
    SizeDecade(a, b, p);
    SizePositive(a, b, p);
    AbsOfSigned((a.coef < 0) != (b.coef < 0), Size(a, b, p));
  }

  lemma AbsOfSigned(negative: bool, x: real)
    requires x >= 0.0
    ensures AbsReal(Signed(negative, x)) == x
  {
  }

  lemma SizePositive(a: Decimal, b: Decimal, p: nat)
    requires a.coef != 0 && b.coef != 0 && p >= 1
    ensures Size(a, b, p) > 0.0
  {
    hide Scale, LastShift, KeptExp;
    var x, y := AbsInt(a.coef), AbsInt(b.coef);
    var k := LastShift(x, y, p);
    Multiply(0, x, Pow10(k));
    RatioOrder(0.0, (x * Pow10(k)) as real, y as real);
    ProductSign(Ratio(x, y, k), Scale(KeptExp(a, b, p) - 1));
  }

  lemma SizeDecade(a: Decimal, b: Decimal, p: nat)
    requires a.coef != 0 && b.coef != 0 && p >= 1 && Fits(AbsInt(a.coef), AbsInt(b.coef), p)
    ensures var s := Scale(KeptExp(a, b, p));
            (Pow10(p - 1) as real) * s <= Size(a, b, p) < (Pow10(p) as real) * s
  {
    hide Scale, LastShift, KeptExp, Pow10, Fits, Ratio;
    var x, y, u := AbsInt(a.coef), AbsInt(b.coef), KeptExp(a, b, p);
    ScaleStep(u - 1);
    RatioDecade(x, y, p, Scale(u - 1));
  }

  lemma RatioDecade(x: nat, y: nat, p: nat, t: real)
    requires x > 0 && y > 0 && p >= 1 && Fits(x, y, p) && t > 0.0
    ensures (Pow10(p - 1) as real) * (10.0 * t) <= Ratio(x, y, LastShift(x, y, p)) * t < (Pow10(p) as real) * (10.0 * t)
  {
    hide LastShift, Pow10, Fits;
    Settles(x, y, p);
    TenPowers(p);
    var k := LastShift(x, y, p);
    DecadeOfRatio(x * Pow10(k), y, Pow10(p - 1), Pow10(p), t, Ratio(x, y, k));
  }

  lemma TenPowers(p: nat)
    requires p >= 1
    ensures Pow10(p) == 10 * Pow10(p - 1) && Pow10(p + 1) == 10 * Pow10(p)
  {
  }

  lemma DecadeOfRatio(n: nat, y: nat, low: nat, high: nat, t: real, r: real)
    requires y > 0 && t > 0.0 && (10 * low) * y <= n < (10 * high) * y && r == (n as real) / (y as real)
    ensures (low as real) * (10.0 * t) <= r * t < (high as real) * (10.0 * t)
  {
    ProductCast(10 * low, y);
    ProductCast(10 * high, y);
    RatioOrder((10 * low) as real, n as real, y as real);
    RatioOrder((10 * high) as real, n as real, y as real);
    RatioTimes(n as real, y as real);
    ScaledRealOrder((10 * low) as real, r, t);
    ScaledRealOrder(r, (10 * high) as real, t);
    TenMoved(low as real, t);
    TenMoved(high as real, t);
  }

  lemma NearRatio(m: nat, n: nat, y: nat, t: real, r: real, kept: real, size: real)
    requires y > 0 && t > 0.0 && -6 * y < m * (10 * y) - n < 6 * y && r == (n as real) / (y as real)
    requires kept == 10.0 * (m as real) * t && size == r * t
    ensures -6.0 * t < kept - size < 6.0 * t
  {
    var c := 10.0 * (m as real);
    ProductCast(10 * m, y);
    assert m * (10 * y) == 10 * m * y;
    assert c == (10 * m) as real;
    DistanceBelow(c, n as real, y as real);
    NearProduct(c, r, t);
  }

  lemma NearProduct(c: real, r: real, t: real)
    requires t > 0.0 && c - 6.0 < r < c + 6.0
    ensures -6.0 * t < c * t - r * t < 6.0 * t
  {
    ScaledRealOrder(c - 6.0, r, t);
    ScaledRealOrder(r, c + 6.0, t);
    assert (c - 6.0) * t == c * t - 6.0 * t && (c + 6.0) * t == c * t + 6.0 * t;
  }

  lemma AbsBound(x: real, bound: real)
    ensures AbsReal(x) < bound <==> -bound < x < bound
  {
  }

  lemma DistanceBelow(c: real, n: real, y: real)
    requires y > 0.0 && c * y - n < 6.0 * y && n - c * y < 6.0 * y
    ensures c - 6.0 < n / y < c + 6.0
  {
    RatioOrder(c - 6.0, n, y);
    RatioOrder(c + 6.0, n, y);
    assert (c - 6.0) * y == c * y - 6.0 * y && (c + 6.0) * y == c * y + 6.0 * y;
  }

  /** In range, the kept digits are within six tenths of a unit. */
  lemma NearSize(a: Decimal, b: Decimal, p: nat)
    requires a.coef != 0 && b.coef != 0 && p >= 1 && Fits(AbsInt(a.coef), AbsInt(b.coef), p)
    ensures var u := KeptExp(a, b, p);
            -0.6 * Scale(u) < KeptSize(a, b, p) - Size(a, b, p) < 0.6 * Scale(u)
  {
    hide Scale, LastShift, KeptExp, Pow10, Fits, Ratio, Kept, IsHalfEven, FalseTie;
    var x, y, u := AbsInt(a.coef), AbsInt(b.coef), KeptExp(a, b, p);
    ScaleStep(u - 1);
    var t := Scale(u - 1);
    var m, r := Kept(x, y, p) as real, Ratio(x, y, LastShift(x, y, p));
    KeptNearRatio(x, y, p, t, 10.0 * m * t, r * t);
    assert KeptSize(a, b, p) == 10.0 * m * t && Size(a, b, p) == r * t;
    SixTenths(KeptSize(a, b, p), Size(a, b, p), t, Scale(u));
  }

  lemma SixTenths(x: real, y: real, t: real, s: real)
    requires -6.0 * t < x - y < 6.0 * t && s == 10.0 * t
    ensures -0.6 * s < x - y < 0.6 * s
  {
  }

  lemma KeptNearRatio(x: nat, y: nat, p: nat, t: real, kept: real, size: real)
    requires x > 0 && y > 0 && p >= 1 && Fits(x, y, p) && t > 0.0
    requires kept == 10.0 * (Kept(x, y, p) as real) * t && size == Ratio(x, y, LastShift(x, y, p)) * t
    ensures -6.0 * t < kept - size < 6.0 * t
  {
    hide LastShift, Pow10, Fits, Kept, IsHalfEven, FalseTie;
    KeptIsNear(x, y, p);
    var k := LastShift(x, y, p);
    NearRatio(Kept(x, y, p), x * Pow10(k), y, t, Ratio(x, y, k), kept, size);
  }

  /** Out of range, the result is less than half of the quotient. */
  lemma FarSize(a: Decimal, b: Decimal, p: nat)
    requires a.coef != 0 && b.coef != 0 && p >= 1 && !Fits(AbsInt(a.coef), AbsInt(b.coef), p)
    ensures KeptSize(a, b, p) <= 0.4 * Size(a, b, p)
  {
    hide Scale, LastShift, KeptExp, Pow10, Fits, Ratio, Kept;
    KeptFarRatio(AbsInt(a.coef), AbsInt(b.coef), p, Scale(KeptExp(a, b, p) - 1));
  }

  lemma KeptFarRatio(x: nat, y: nat, p: nat, t: real)
    requires x > 0 && y > 0 && p >= 1 && !Fits(x, y, p) && t > 0.0
    ensures 10.0 * (Kept(x, y, p) as real) * t <= 0.4 * (Ratio(x, y, LastShift(x, y, p)) * t)
  {
    hide LastShift, Fits, Kept;
    KeptIsFar(x, y, p);
    assert x * Pow10(0) == x;
    hide Pow10;
    var m := Kept(x, y, p);
    ProductCast(m, y);
    RatioOrder(25.0 * (m as real), x as real, y as real);
    var r := (x as real) / (y as real);
    ScaledRealOrder(25.0 * (m as real), r, t);
  }

  /** How close a result is, whatever the signs. */
  lemma SameDistance(negative: bool, x: real, y: real)
    ensures AbsReal(Signed(negative, x) - Signed(negative, y)) == AbsReal(x - y)
  {
  }

  /** A division is within six tenths of a unit in the last place of the quotient if and only
      if the integer part of `a.coef / b.coef` has at most `precision + 1` digits. */
  lemma {:induction false} DivisionAccuracy(a: Decimal, b: Decimal, precision: Option<int>, u: int)
    requires a.coef != 0 && b.coef != 0 && Value(b) != 0.0
    requires UnitOf(Value(a) / Value(b), Precision(precision), u)
    ensures Divide(a, b, precision).Some?
    ensures AbsReal(Value(Divide(a, b, precision).value) - Value(a) / Value(b)) < 0.6 * Scale(u) <==>
            Fits(AbsInt(a.coef), AbsInt(b.coef), Precision(precision))
  {
    hide Value, Scale, KeptSize, KeptExp, Fits, Size, Signed, AbsReal, UnitOf, Divide, Pow10, Precision;
    var p := Precision(precision);
    var negative := (a.coef < 0) != (b.coef < 0);
    var r, q := KeptSize(a, b, p), Size(a, b, p);
    ResultShape(a, b, precision);
    QuotientShape(a, b, p);
    SameDistance(negative, r, q);
    if Fits(AbsInt(a.coef), AbsInt(b.coef), p) {
      KeptUnit(a, b, p);
      UnitIsUnique(Value(a) / Value(b), p, u, KeptExp(a, b, p));
      NearSize(a, b, p);
      AbsBound(r - q, 0.6 * Scale(u));
    } else {
      FarSize(a, b, p);
      SizePositive(a, b, p);
      UnitAtMost(negative, q, p, u);
      FarApart(r, q, Scale(u));
    }
  }

  lemma FarApart(r: real, q: real, s: real)
    requires r <= 0.4 * q && s <= q && q > 0.0
    ensures !(AbsReal(r - q) < 0.6 * s)
  {
  }

  lemma AtMostProduct(k: real, s: real)
    requires 1.0 <= k && 0.0 < s
    ensures s <= k * s
  {
    ScaledRealOrder(1.0, k, s);
  }

  lemma CastPositive(n: int)
    requires n > 0
    ensures 1.0 <= n as real
  {
  }

  lemma {:induction false} UnitBelow(q: real, p: nat, u: int)
    requires p >= 1 && UnitOf(q, p, u)
    ensures Pow10(p - 1) as real * Scale(u) <= AbsReal(q)
  {
    hide Pow10, Scale, AbsReal;
  }

  lemma SizeOfSigned(negative: bool, q: real)
    requires q > 0.0
    ensures AbsReal(Signed(negative, q)) == q
  {
  }

  lemma {:induction false} UnitAtMost(negative: bool, q: real, p: nat, u: int)
    requires q > 0.0 && p >= 1 && UnitOf(Signed(negative, q), p, u)
    ensures Scale(u) <= q
  {
    hide Scale, Pow10, UnitOf, AbsReal, Signed;
    SizeOfSigned(negative, q);
    UnitBelow(Signed(negative, q), p, u);
    CastPositive(Pow10(p - 1));
    AtMostProduct(Pow10(p - 1) as real, Scale(u));
  }

  // ---------- Half to even ----------

  /** `m` is the integer nearest to `q`, ties to even. */
  ghost predicate HalfEven(m: nat, q: real) {
    AbsReal((m as real) - q) <= 0.5 && (AbsReal((m as real) - q) == 0.5 ==> m % 2 == 0)
  }

  lemma HalfEvenRatio(m: nat, n: nat, d: nat, q: real)
    requires d > 0 && q * (d as real) == n as real
    ensures HalfEven(m, q) <==> IsHalfEven(m, n, d)
  {
    var off, e, y := 2 * (m * d - n), (m as real) - q, d as real;
    ProductCast(m, d);
    TwiceOff(m as real, q, y, n as real, off as real);
    HalfBounds(e, y, off as real);
    assert off <= d <==> off as real <= y;
    assert -off <= d <==> -(off as real) <= y;
  }

  lemma TwiceOff(m: real, q: real, y: real, n: real, off: real)
    requires q * y == n && off == 2.0 * (m * y - n)
    ensures 2.0 * ((m - q) * y) == off
  {
    assert (m - q) * y == m * y - q * y;
  }

  lemma HalfBounds(e: real, y: real, off: real)
    requires y > 0.0 && 2.0 * (e * y) == off
    ensures AbsReal(e) <= 0.5 <==> off <= y && -off <= y
    ensures AbsReal(e) == 0.5 <==> off == y || -off == y
  {
    ScaledRealOrder(e, 0.5, y);
    ScaledRealOrder(0.5, e, y);
    ScaledRealOrder(-0.5, e, y);
    ScaledRealOrder(e, -0.5, y);
  }

  /** The quotient counted in units of the last kept digit. */
  lemma SizeInUnits(a: Decimal, b: Decimal, p: nat)
    requires a.coef != 0 && b.coef != 0 && p >= 1
    ensures var x, y := AbsInt(a.coef), AbsInt(b.coef);
            Size(a, b, p) / Scale(KeptExp(a, b, p)) * ((10 * y) as real) == (x * Pow10(LastShift(x, y, p))) as real
  {
    hide Scale, LastShift, KeptExp, Pow10, Ratio;
    var x, y, u := AbsInt(a.coef), AbsInt(b.coef), KeptExp(a, b, p);
    var k, t := LastShift(x, y, p), Scale(u - 1);
    ScaleStep(u - 1);
    RatioUnits(x, y, k);
    var r := Ratio(x, y, k);
    Cancel(r * t, 10.0 * t, r / 10.0) by { TenMoved(r / 10.0, t); }
  }

  lemma {:induction false} RatioUnits(x: nat, y: nat, k: nat)
    requires y > 0
    ensures Ratio(x, y, k) / 10.0 * ((10 * y) as real) == (x * Pow10(k)) as real
  {
    hide Pow10;
    var r := Ratio(x, y, k);
    RatioTimes((x * Pow10(k)) as real, y as real);
    assert (10 * y) as real == 10.0 * (y as real);
    TenMoved(r / 10.0, y as real);
  }

  /** In range, the result has the quotient's leading `precision` digits, correctly rounded half
      to even if and only if there is no false tie. */
  lemma DivisionRounds(a: Decimal, b: Decimal, precision: Option<int>)
    requires a.coef != 0 && b.coef != 0 && Fits(AbsInt(a.coef), AbsInt(b.coef), Precision(precision))
    ensures var x, y, p := AbsInt(a.coef), AbsInt(b.coef), Precision(precision);
            var m, u := Kept(x, y, p), KeptExp(a, b, p);
            && Value(b) != 0.0 && Divide(a, b, precision).Some?
            && UnitOf(Value(a) / Value(b), p, u)
            && AbsReal(Value(Divide(a, b, precision).value)) == (m as real) * Scale(u)
            && (HalfEven(m, AbsReal(Value(a) / Value(b)) / Scale(u)) <==> !FalseTie(x, y, p))
  {
    hide Value, Scale, Kept, KeptExp, Fits, Size, Signed, AbsReal, UnitOf, Divide, Pow10, Precision, HalfEven,
         IsHalfEven, FalseTie, LastShift;
    var x, y, p := AbsInt(a.coef), AbsInt(b.coef), Precision(precision);
    var u := KeptExp(a, b, p);
    var negative := (a.coef < 0) != (b.coef < 0);
    ResultShape(a, b, precision);
    QuotientShape(a, b, p);
    KeptUnit(a, b, p);
    SizePositive(a, b, p);
    AbsOfSigned(negative, Size(a, b, p));
    KeptSizeIs(a, b, p);
    AbsOfSigned(negative, KeptSize(a, b, p));
    SizeInUnits(a, b, p);
    HalfEvenRatio(Kept(x, y, p), x * Pow10(LastShift(x, y, p)), 10 * y, Size(a, b, p) / Scale(u));
    KeptIsNear(x, y, p);
  }

  lemma KeptSizeIs(a: Decimal, b: Decimal, p: nat)
    requires a.coef != 0 && b.coef != 0 && p >= 1
    ensures var m := Kept(AbsInt(a.coef), AbsInt(b.coef), p);
            KeptSize(a, b, p) == (m as real) * Scale(KeptExp(a, b, p)) && KeptSize(a, b, p) >= 0.0
  {
    hide Kept, KeptExp, Scale;
    var m, u := Kept(AbsInt(a.coef), AbsInt(b.coef), p), KeptExp(a, b, p);
    ScaleStep(u - 1);
    TenMoved(m as real, Scale(u - 1));
    ScaledRealOrder(0.0, m as real, Scale(u));
  }

  // ---------- Exact quotients ----------

  /** A number of at most `p` digits is a whole number of units. */
  lemma WholeUnits(c: Decimal, p: nat, u: int)
    requires p >= 1 && AbsInt(c.coef) < Pow10(p)
    requires (Pow10(p - 1) as real) * Scale(u) <= Magnitude(c)
    ensures c.exp >= u && Magnitude(c) == ((AbsInt(c.coef) * Pow10(c.exp - u)) as real) * Scale(u)
  {
    hide Scale, Pow10;
    var x := AbsInt(c.coef);
    if c.exp < u {
      BelowUnit(x, c.exp, p, u);
    } else {
      InUnits(x, c.exp, u);
    }
  }

  lemma {:induction false} InUnits(x: nat, e: int, u: int)
    requires e >= u
    ensures (x as real) * Scale(e) == ((x * Pow10(e - u)) as real) * Scale(u)
  {
    hide Scale, Pow10;
    Rescaled(x, u, e - u);
    assert u + (e - u) == e;
  }

  lemma BelowUnit(x: nat, e: int, p: nat, u: int)
    requires p >= 1 && x < Pow10(p) && e < u
    ensures (x as real) * Scale(e) < (Pow10(p - 1) as real) * Scale(u)
  {
    hide Scale, Pow10;
    TenPowers(p);
    CastOrder(x, 10 * Pow10(p - 1));
    ScaleStep(e);
    ScaleRises(e + 1, u);
    BelowProduct(x as real, Pow10(p - 1) as real, Scale(e), Scale(u));
  }

  lemma BelowProduct(x: real, low: real, s: real, t: real)
    requires s > 0.0 && low > 0.0 && x < 10.0 * low && 10.0 * s <= t
    ensures x * s < low * t
  {
    ScaledRealOrder(x, 10.0 * low, s);
    TenMoved(low, s);
    ScaledRealOrder(10.0 * s, t, low);
  }

  lemma {:induction false} ScaleRises(e: int, f: int)
    requires e <= f
    ensures Scale(e) <= Scale(f)
    decreases f - e
  {
    hide Scale;
    if e < f {
      ScaleRises(e, f - 1);
      ScaleStep(f - 1);
    }
  }

  lemma KeptExactly(a: Decimal, b: Decimal, p: nat, w: nat)
    requires a.coef != 0 && b.coef != 0 && p >= 1 && Fits(AbsInt(a.coef), AbsInt(b.coef), p)
    requires Size(a, b, p) == (w as real) * Scale(KeptExp(a, b, p))
    ensures KeptSize(a, b, p) == Size(a, b, p)
  {
    hide Scale, Kept, KeptExp, Fits, Size, KeptSize, Pow10, LastShift, IsHalfEven, FalseTie;
    var x, y, s := AbsInt(a.coef), AbsInt(b.coef), Scale(KeptExp(a, b, p));
    var n := x * Pow10(LastShift(x, y, p));
    SizeInUnits(a, b, p);
    Cancel(Size(a, b, p), s, w as real);
    ProductCast(w, 10 * y);
    KeptIsNear(x, y, p);
    Divides(w, 10 * y, n, Kept(x, y, p));
    KeptSizeIs(a, b, p);
  }

  lemma Divides(w: nat, d: nat, n: nat, m: nat)
    requires d > 0 && w * d == n && (n % d == 0 ==> m * d == n)
    ensures m == w
  {
    RemainderOfMultiple(w, d);
    Multiply(w, m, d);
    Multiply(m, w, d);
  }

  lemma {:induction false} RemainderOfMultiple(w: nat, d: nat)
    requires d > 0
    ensures w * d % d == 0
  {
    var q, r := w * d / d, w * d % d;
    assert w * d == d * q + r;
    AtLeast(w * d, d, w);
    Multiply(w, q, d);
  }

  /** When the quotient has at most `precision` digits, the result is that quotient if and only
      if the integer part of `a.coef / b.coef` has at most `precision + 1` digits. */
  lemma QuotientThatFits(a: Decimal, b: Decimal, c: Decimal, precision: Option<int>)
    requires a.coef != 0 && b.coef != 0
    requires Value(c) * Value(b) == Value(a) && AbsInt(c.coef) < Pow10(Precision(precision))
    ensures Divide(a, b, precision).Some?
    ensures Value(Divide(a, b, precision).value) == Value(c) <==>
            Fits(AbsInt(a.coef), AbsInt(b.coef), Precision(precision))
  {
    hide Value, Scale, KeptSize, KeptExp, Fits, Size, Signed, AbsReal, UnitOf, Divide, Pow10, Precision, Magnitude;
    var p := Precision(precision);
    var negative := (a.coef < 0) != (b.coef < 0);
    ResultShape(a, b, precision);
    QuotientShape(a, b, p);
    Cancel(Value(a), Value(b), Value(c));
    SizePositive(a, b, p);
    if Fits(AbsInt(a.coef), AbsInt(b.coef), p) {
      SizeDecade(a, b, p);
      SignedValue(c);
      MagnitudeOf(c, negative, Size(a, b, p));
      WholeUnits(c, p, KeptExp(a, b, p));
      KeptExactly(a, b, p, AbsInt(c.coef) * Pow10(c.exp - KeptExp(a, b, p)));
    } else {
      FarSize(a, b, p);
      SameDistance(negative, KeptSize(a, b, p), Size(a, b, p));
      FarFrom(KeptSize(a, b, p), Size(a, b, p));
    }
  }

  lemma MagnitudeOf(c: Decimal, negative: bool, size: real)
    requires Signed(c.coef < 0, Magnitude(c)) == Signed(negative, size) && size > 0.0
    ensures Magnitude(c) == size
  {
    hide Scale;
    ScaledRealOrder(0.0, AbsInt(c.coef) as real, Scale(c.exp));
    hide Magnitude;
    assert Magnitude(c) >= 0.0;
  }

  lemma FarFrom(r: real, q: real)
    requires r <= 0.4 * q && q > 0.0
    ensures AbsReal(r - q) > 0.0 && AbsReal(0.0) == 0.0
  {
  }

  // ---------- Zeros and the default precision ----------

  lemma ZeroValue(d: Decimal)
    ensures Value(d) == 0.0 <==> d.coef == 0
  {
    hide Scale;
    if d.coef != 0 {
      ScaledRealOrder(0.0, AbsInt(d.coef) as real, Scale(d.exp));
      var size := AbsInt(d.coef) as real * Scale(d.exp);
      assert Value(d) == size || Value(d) == -size by { NegatedProduct(AbsInt(d.coef) as real, Scale(d.exp)); }
    }
  }

  lemma NegatedProduct(x: real, y: real)
    ensures (-x) * y == -(x * y)
  {
  }

  /** Division fails if and only if the divisor is zero, and zero divided by anything else is zero. */
  lemma DivisionOfZero(a: Decimal, b: Decimal, precision: Option<int>)
    ensures Divide(a, b, precision).None? <==> Value(b) == 0.0
    ensures Value(b) != 0.0 && Value(a) == 0.0 ==>
              Divide(a, b, precision) == Some(Decimal(0, 0)) && Value(Divide(a, b, precision).value) == 0.0
  {
    ZeroValue(a);
    ZeroValue(b);
    ZeroValue(Decimal(0, 0));
    hide Value;
  }

  /** A precision that is missing or 0 is 20, and a negative one is 1. */
  lemma DefaultPrecision(a: Decimal, b: Decimal, n: int)
    ensures Divide(a, b, None) == Divide(a, b, Some(20)) && Divide(a, b, Some(0)) == Divide(a, b, Some(20))
    ensures n < 0 ==> Divide(a, b, Some(n)) == Divide(a, b, Some(1))
    ensures n > 0 ==> Precision(Some(n)) == n
  {
  }

  // ---------- Two inputs at which the division is off ----------

  lemma SmallCounts()
    ensures DigitCount(1) == 1 && DigitCount(2) == 1 && DigitCount(10) == 2 && DigitCount(25) == 2
    ensures DigitCount(51) == 2 && DigitCount(1000) == 4
    ensures Pow10(0) == 1 && Pow10(1) == 10 && Pow10(2) == 100
  {
  }

  /** At one digit of precision `1000 / 1` comes out as `10`. */
  lemma LargeQuotientShrinks()
    ensures !Fits(1000, 1, 1) && Divide(Decimal(1000, 0), Decimal(1, 0), Some(1)) == Some(Decimal(1, 1))
  {
    SmallCounts();
    hide DigitCount, Pow10;
    assert Scaled(1000, 1, 0) == 1000 && FirstShift(1000, 1, 1) == 0 && LastShift(1000, 1, 1) == 0;
    assert RoundHalfEven(1000, 2) == 10 && RoundHalfEven(10, 1) == 1;
    assert Shorten(10, 2) == 10;
    assert Shorten(1000, 2) == Shorten(10, 2);
    OneDigit(Decimal(1000, 0), Decimal(1, 0), 1);
  }

  lemma OneDigit(a: Decimal, b: Decimal, m: nat)
    requires a.coef > 0 && b.coef > 0 && 0 < m < 10 && Kept(a.coef, b.coef, 1) == m
    ensures Divide(a, b, Some(1)) == Some(Decimal(m, KeptExp(a, b, 1)))
  {
    hide Kept, KeptExp;
  }

  /** At one digit of precision `51 / 2 = 25.5` comes out as `20`, not as `30`. */
  lemma FalseTieRoundsDown()
    ensures FalseTie(51, 2, 1) && Divide(Decimal(51, 0), Decimal(2, 0), Some(1)) == Some(Decimal(2, 1))
  {
    SmallCounts();
    hide DigitCount, Pow10;
    assert Scaled(51, 2, 0) == 25 && FirstShift(51, 2, 1) == 0 && LastShift(51, 2, 1) == 0;
    assert RoundHalfEven(25, 1) == 2 && Shorten(25, 2) == 25;
    OneDigit(Decimal(51, 0), Decimal(2, 0), 2);
  }
}
