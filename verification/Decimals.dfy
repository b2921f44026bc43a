/** Decimal numbers: an unbounded coefficient times a power of ten. */
module Decimals {

  datatype Decimal = Decimal(coef: int, exp: int)

  // ---------- Powers of ten ----------

  function Pow10(n: nat): (p: nat)
    ensures p > 0
  {
    if n == 0 then 1 else 10 * Pow10(n - 1)
  }

  lemma {:induction false} Pow10Add(m: nat, n: nat)
    ensures Pow10(m + n) == Pow10(m) * Pow10(n)
  {
    if m > 0 {
      Pow10Add(m - 1, n);
      assert Pow10(m) == 10 * Pow10(m - 1) && Pow10(m + n) == 10 * Pow10(m - 1 + n);
      hide Pow10;
      TenTimes(Pow10(m - 1), Pow10(n));
    }
  }

  lemma TenTimes(x: int, y: int)
    ensures 10 * (x * y) == 10 * x * y
  {
  }

  lemma {:induction false} Pow10Grows(m: nat, n: nat)
    requires m < n
    ensures 10 * Pow10(m) <= Pow10(n)
  {
    if m + 1 < n { Pow10Grows(m, n - 1); }
  }

  /** `10^e` for an exponent of either sign. */
  ghost function Scale(e: int): (s: real)
    ensures s > 0.0
    decreases if e < 0 then -e else e
  {
    if e == 0 then 1.0
    else if e > 0 then 10.0 * Scale(e - 1)
    else Scale(e + 1) / 10.0
  }

  lemma ScaleStep(e: int)
    ensures Scale(e + 1) == 10.0 * Scale(e)
  {
  }

  lemma {:induction false} ScaleNat(n: nat)
    ensures Scale(n) == Pow10(n) as real
  {
    if n > 0 { ScaleNat(n - 1); }
  }

  lemma {:induction false} ScaleAdd(e: int, n: nat)
    ensures Scale(e + n) == Scale(e) * (Pow10(n) as real)
  {
    if n > 0 {
      ScaleAdd(e, n - 1);
      ScaleStep(e + n - 1);
      var s, p := Scale(e), Pow10(n - 1) as real;
      assert 10.0 * (s * p) == s * (10.0 * p);
    }
  }

  ghost predicate AddsUp(e: int, f: int) { Scale(e + f) == Scale(e) * Scale(f) }

  lemma {:induction false} ScaleSum(e: int, f: int)
    ensures AddsUp(e, f)
    decreases if f < 0 then -f else f
  {
    hide Scale, AddsUp;
    if f > 0 {
      ScaleSum(e, f - 1);
      AddsUpStep(e, f - 1);
    } else if f < 0 {
      ScaleSum(e, f + 1);
      AddsUpStep(e, f);
    } else {
      AddsUpZero(e);
    }
  }

  lemma AddsUpZero(e: int)
    ensures AddsUp(e, 0)
  {
    assert Scale(0) == 1.0;
  }

  lemma AddsUpStep(e: int, f: int)
    ensures AddsUp(e, f) <==> AddsUp(e, f + 1)
  {
    ScaleStep(e + f);
    ScaleStep(f);
    hide Scale;
    assert e + (f + 1) == e + f + 1;
    TenAside(Scale(e), Scale(f));
  }

  lemma TenAside(s: real, t: real)
    ensures 10.0 * (s * t) == s * (10.0 * t)
  {
  }

  lemma {:induction false} ProductCast(x: int, y: int)
    ensures (x * y) as real == (x as real) * (y as real)
    decreases if x < 0 then -x else x
  {
    if x > 0 {
      ProductCast(x - 1, y);
      assert x * y == (x - 1) * y + y;
      assert (x as real) * (y as real) == ((x - 1) as real) * (y as real) + y as real;
    } else if x < 0 {
      ProductCast(x + 1, y);
      assert x * y == (x + 1) * y - y;
      assert (x as real) * (y as real) == ((x + 1) as real) * (y as real) - y as real;
    }
  }

  // ---------- Arithmetic ----------

  /** The number that a decimal stands for. */
  ghost function Value(d: Decimal): real { (d.coef as real) * Scale(d.exp) }

  datatype Aligned = Aligned(ca: int, cb: int, exp: int)

  /** Both coefficients at the smaller of the two exponents. */
  function Align(a: Decimal, b: Decimal): Aligned {
    if a.exp == b.exp then Aligned(a.coef, b.coef, a.exp)
    else if a.exp < b.exp then Aligned(a.coef, b.coef * Pow10(b.exp - a.exp), a.exp)
    else Aligned(a.coef * Pow10(a.exp - b.exp), b.coef, b.exp)
  }

  function Plus(a: Decimal, b: Decimal): Decimal {
    var al := Align(a, b);
    Decimal(al.ca + al.cb, al.exp)
  }

  function Minus(a: Decimal, b: Decimal): Decimal {
    var al := Align(a, b);
    Decimal(al.ca - al.cb, al.exp)
  }

  function Times(a: Decimal, b: Decimal): Decimal { Decimal(a.coef * b.coef, a.exp + b.exp) }

  function Neg(d: Decimal): Decimal { Decimal(-d.coef, d.exp) }

  function AbsInt(x: int): nat { if x < 0 then -x else x }

  function Abs(d: Decimal): Decimal { Decimal(AbsInt(d.coef), d.exp) }

  function CompareTo(a: Decimal, b: Decimal): int {
    var al := Align(a, b);
    if al.ca < al.cb then -1 else if al.ca > al.cb then 1 else 0
  }

  /** Moving `n` digits from the exponent into the coefficient keeps the value. */
  lemma {:induction false} Rescaled(coef: int, exp: int, n: nat)
    ensures Value(Decimal(coef * Pow10(n), exp)) == Value(Decimal(coef, exp + n))
  {
    ProductCast(coef, Pow10(n));
    ScaleAdd(exp, n);
    Reassociate(coef as real, Pow10(n) as real, Scale(exp));
  }

  lemma Reassociate(x: real, y: real, z: real)
    ensures x * y * z == x * (z * y)
  {
  }

  lemma AlignKeepsValues(a: Decimal, b: Decimal)
    ensures var al := Align(a, b);
            Value(Decimal(al.ca, al.exp)) == Value(a) && Value(Decimal(al.cb, al.exp)) == Value(b)
  {
    if a.exp < b.exp {
      Rescaled(b.coef, a.exp, b.exp - a.exp);
    } else if a.exp > b.exp {
      Rescaled(a.coef, b.exp, a.exp - b.exp);
    }
  }

  /** So is the absolute value. */
  lemma AbsIsExact(d: Decimal)
    ensures Abs(d).exp == d.exp && Value(Abs(d)) == if Value(d) < 0.0 then -Value(d) else Value(d)
  {
    hide Scale;
    PositiveValue(d);
    SumsAreExact(d, d);
  }

  lemma Distribute(x: int, y: int, s: real)
    ensures ((x + y) as real) * s == (x as real) * s + (y as real) * s
    ensures ((x - y) as real) * s == (x as real) * s - (y as real) * s
  {
  }

  /** Addition, subtraction and negation are exact; a sum has the digits of the operand that has more of
      them after the point. */
  lemma SumsAreExact(a: Decimal, b: Decimal)
    ensures Value(Plus(a, b)) == Value(a) + Value(b)
    ensures Value(Minus(a, b)) == Value(a) - Value(b)
    ensures Value(Neg(a)) == -Value(a) && Neg(a).exp == a.exp
    ensures Plus(a, b).exp == Minus(a, b).exp == if a.exp < b.exp then a.exp else b.exp
  {
    hide Scale;
    AlignKeepsValues(a, b);
    var al := Align(a, b);
    Distribute(al.ca, al.cb, Scale(al.exp));
    Distribute(0, a.coef, Scale(a.exp));
  }

  /** Multiplication is exact. */
  lemma ProductIsExact(a: Decimal, b: Decimal)
    ensures Value(Times(a, b)) == Value(a) * Value(b) && Times(a, b).exp == a.exp + b.exp
  {
    hide Scale;
    ProductCast(a.coef, b.coef);
    ScaleSum(a.exp, b.exp);
    Interchange(a.coef as real, b.coef as real, Scale(a.exp), Scale(b.exp));
  }

  lemma Interchange(x: real, y: real, s: real, t: real)
    ensures (x * y) * (s * t) == (x * s) * (y * t)
  {
    assert (x * y) * (s * t) == x * (y * (s * t)) == x * (s * (y * t));
  }

  lemma ScaledOrder(x: int, y: int, s: real)
    requires s > 0.0
    ensures x < y <==> (x as real) * s < (y as real) * s
  {
    Distribute(y, x, s);
    ProductSign((y - x) as real, s);
    ProductSign((x - y) as real, s);
  }

  lemma ProductSign(d: real, s: real)
    requires s > 0.0
    ensures d > 0.0 <==> d * s > 0.0
  {
    if d > 0.0 { assert d * s > 0.0; }
    if d < 0.0 { assert (-d) * s > 0.0; }
  }

  function SignOf(less: bool, more: bool): int { if less then -1 else if more then 1 else 0 }

  /** Comparison is the order of the numbers, so it does not depend on how they are written. */
  lemma ComparisonIsOrder(a: Decimal, b: Decimal)
    ensures CompareTo(a, b) == SignOf(Value(a) < Value(b), Value(a) > Value(b))
  {
    hide Scale;
    AlignKeepsValues(a, b);
    var al := Align(a, b);
    ScaledOrder(al.ca, al.cb, Scale(al.exp));
    ScaledOrder(al.cb, al.ca, Scale(al.exp));
  }

  /** A total order. */
  lemma ComparisonIsTotal(a: Decimal, b: Decimal, c: Decimal)
    ensures CompareTo(a, b) == -CompareTo(b, a)
    ensures CompareTo(a, b) <= 0 && CompareTo(b, c) <= 0 ==> CompareTo(a, c) <= 0
    ensures CompareTo(a, b) == 0 <==> Value(a) == Value(b)
  {
    hide Value, CompareTo;
    ComparisonIsOrder(a, b);
    ComparisonIsOrder(b, a);
    ComparisonIsOrder(b, c);
    ComparisonIsOrder(a, c);
  }

  /** Adding to both sides keeps the order, and so does subtracting. */
  lemma ComparisonRespectsSums(a: Decimal, b: Decimal, c: Decimal)
    ensures CompareTo(Plus(a, c), Plus(b, c)) == CompareTo(a, b)
    ensures CompareTo(Minus(c, a), Minus(c, b)) == -CompareTo(a, b)
  {
    hide Value, CompareTo, Plus, Minus;
    SumsAreExact(a, c);
    SumsAreExact(b, c);
    SumsAreExact(c, a);
    SumsAreExact(c, b);
    ComparisonIsOrder(a, b);
    ComparisonIsOrder(Plus(a, c), Plus(b, c));
    ComparisonIsOrder(Minus(c, a), Minus(c, b));
  }

  /** Multiplying both sides by a positive number keeps the order. */
  lemma ComparisonRespectsProducts(a: Decimal, b: Decimal, c: Decimal)
    requires c.coef > 0
    ensures CompareTo(Times(a, c), Times(b, c)) == CompareTo(a, b)
  {
    PositiveValue(c);
    hide Value, CompareTo, Times;
    ProductIsExact(a, c);
    ProductIsExact(b, c);
    ComparisonIsOrder(a, b);
    ComparisonIsOrder(Times(a, c), Times(b, c));
    var d, s := Value(b) - Value(a), Value(c);
    ProductSign(d, s);
    ProductSign(-d, s);
    assert d * s == Value(b) * s - Value(a) * s;
    assert (-d) * s == Value(a) * s - Value(b) * s;
  }

  lemma PositiveValue(d: Decimal)
    ensures d.coef > 0 <==> Value(d) > 0.0
    ensures d.coef == 0 <==> Value(d) == 0.0
  {
    ProductSign(d.coef as real, Scale(d.exp));
    ProductSign(-d.coef as real, Scale(d.exp));
  }
}
