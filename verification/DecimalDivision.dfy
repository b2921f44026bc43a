/** Division to a number of significant digits, and how far it is from the quotient. */
module DecimalDivision {
  import opened SchemaGraph
  import opened Decimals

  // ---------- The algorithm ----------

  /** The number of decimal digits; zero has one. */
  function DigitCount(n: nat): (c: nat)
    ensures c >= 1 && (n > 0 ==> Pow10(c - 1) <= n < Pow10(c))
    ensures n == 0 ==> c == 1
  {
    if n < 10 then
      assert Pow10(0) == 1 && Pow10(1) == 10;
      1
    else
      var c := DigitCount(n / 10);
      assert Pow10(c) == 10 * Pow10(c - 1) && Pow10(c + 1) == 10 * Pow10(c);
      c + 1
  }

  /** Drops `drop` digits of a non-negative coefficient. */
  function RoundHalfEven(coef: nat, drop: int): nat {
    if drop <= 0 then coef else Nearest(coef, Pow10(drop))
  }

  function Nearest(coef: nat, divisor: nat): nat
    requires divisor > 0
  {
    var q, r, half := coef / divisor, coef % divisor, divisor / 2;
    if r == 0 then q
    else if r > half || (r == half && q % 2 != 0) then q + 1
    else q
  }

  /** `Math.max(1, precision || 20)` */
  function Precision(precision: Option<int>): (p: nat)
    ensures p >= 1
  {
    if precision.None? || precision.value == 0 then 20
    else if precision.value < 1 then 1
    else precision.value
  }

  /** The quotient after shifting `a` by `k` digits. */
  function Scaled(a: nat, b: nat, k: nat): nat
    requires b > 0
  {
    a * Pow10(k) / b
  }

  function FirstShift(a: nat, b: nat, p: nat): nat {
    var k := p - (DigitCount(a) - DigitCount(b));
    if k < 0 then 0 else k
  }

  /** Shifts further until the quotient has `t` digits. */
  function Shift(a: nat, b: nat, k: nat, t: nat): nat
    requires b > 0 && Scaled(a, b, k) > 0
    decreases t - DigitCount(Scaled(a, b, k))
  {
    if DigitCount(Scaled(a, b, k)) < t then
      ShiftAddsDigit(a, b, k);
      Shift(a, b, k + 1, t)
    else k
  }

  /** Rounds until at most `t` digits are left.  The exponent is not told. */
  function Shorten(q: nat, t: nat): nat
    requires t >= 1
    decreases q
  {
    if DigitCount(q) > t then
      RoundShrinks(q, DigitCount(q) - t);
      Shorten(RoundHalfEven(q, DigitCount(q) - t), t)
    else q
  }

  /** Moves trailing zeros into the exponent. */
  function Strip(q: nat, exp: int): Decimal
    decreases q
  {
    if q != 0 && q % 10 == 0 then Strip(q / 10, exp + 1) else Decimal(q, exp)
  }

  function LastShift(a: nat, b: nat, p: nat): nat
    requires a > 0 && b > 0 && p >= 1
  {
    FirstShiftStarts(a, b, p);
    Shift(a, b, FirstShift(a, b, p), p + 1)
  }

  /** The kept digits. */
  function Kept(a: nat, b: nat, p: nat): nat
    requires a > 0 && b > 0 && p >= 1
  {
    RoundHalfEven(Shorten(Scaled(a, b, LastShift(a, b, p)), p + 1), 1)
  }

  /** The exponent of the last kept digit. */
  function KeptExp(a: Decimal, b: Decimal, p: nat): int
    requires a.coef != 0 && b.coef != 0 && p >= 1
  {
    a.exp - b.exp - (LastShift(AbsInt(a.coef), AbsInt(b.coef), p) - 1)
  }

  /** `dividedBy`; `None` is the division by zero that the source throws on. */
  function Divide(a: Decimal, b: Decimal, precision: Option<int>): Option<Decimal> {
    if b.coef == 0 then None
    else if a.coef == 0 then Some(Decimal(0, 0))
    else
      var p := Precision(precision);
      var d := Strip(Kept(AbsInt(a.coef), AbsInt(b.coef), p), KeptExp(a, b, p));
      Some(if (a.coef < 0) != (b.coef < 0) then Neg(d) else d)
  }

  // ---------- Digit counts and shifts ----------

  lemma CountIs(n: nat, c: nat)
    requires c >= 1 && Pow10(c - 1) <= n < Pow10(c)
    ensures DigitCount(n) == c
  {
    var d := DigitCount(n);
    if d < c {
      if d < c - 1 { Pow10Grows(d, c - 1); }
    } else if c < d {
      if c < d - 1 { Pow10Grows(c, d - 1); }
    }
  }

  lemma ShiftAddsDigit(a: nat, b: nat, k: nat)
    requires b > 0 && Scaled(a, b, k) > 0
    ensures Scaled(a, b, k + 1) >= 10 * Scaled(a, b, k)
    ensures DigitCount(Scaled(a, b, k + 1)) > DigitCount(Scaled(a, b, k))
  {
    var n := a * Pow10(k);
    assert a * Pow10(k + 1) == 10 * n;
    QuotientOfTenfold(n, b);
    MoreDigits(Scaled(a, b, k), Scaled(a, b, k + 1));
  }

  lemma {:induction false} MoreDigits(q: nat, q': nat)
    requires q > 0 && q' >= 10 * q
    ensures DigitCount(q') > DigitCount(q)
  {
    var c, c' := DigitCount(q), DigitCount(q');
    assert Pow10(c) == 10 * Pow10(c - 1);
    if c' < c { Pow10Grows(c', c); }
  }

  lemma QuotientOfTenfold(n: nat, b: nat)
    requires b > 0
    ensures 10 * n / b >= 10 * (n / b)
  {
    var q := n / b;
    assert n == b * q + n % b;
    AtLeast(10 * n, b, 10 * q);
  }

  lemma AtLeast(n: nat, b: nat, q: nat)
    requires b > 0 && b * q <= n
    ensures n / b >= q
  {
    assert n == b * (n / b) + n % b;
    Multiply(n / b + 1, q, b);
  }

  lemma AtMost(n: nat, b: nat, q: nat)
    requires b > 0 && n < b * q
    ensures n / b < q
  {
    assert n == b * (n / b) + n % b;
    Multiply(q, n / b, b);
  }

  lemma RoundShrinks(q: nat, drop: nat)
    requires drop >= 1 && q >= 10
    ensures RoundHalfEven(q, drop) <= q / 10 + 1 < q
  {
    assert Pow10(1) == 10;
    if drop > 1 { Pow10Grows(1, drop); }
    SmallerQuotient(q, 10, Pow10(drop));
  }

  lemma SmallerQuotient(n: nat, b: nat, c: nat)
    requires 0 < b <= c
    ensures n / c <= n / b
  {
    var q := n / c;
    assert n == c * q + n % c;
    if q > 0 { Multiply(b, c, q); }
    AtLeast(n, b, q);
  }

  /** Products of bounds, kept apart from everything else. */
  lemma Multiply(x: nat, y: nat, z: nat)
    requires z > 0
    ensures x < y ==> x * z < y * z
    ensures x <= y ==> x * z <= y * z
  {
  }

  lemma One()
    ensures Pow10(0) == 1 && Pow10(1) == 10 && Pow10(2) == 100
  {
  }

  /** At the first shift the quotient has at least `p` digits. */
  lemma ShiftedBounds(a: nat, b: nat, p: nat)
    requires a > 0 && b > 0 && p >= 1
    ensures var n := a * Pow10(FirstShift(a, b, p));
            && Pow10(p - 1) * b <= n
            && (DigitCount(a) - DigitCount(b) <= p ==> n < Pow10(p + 1) * b)
            && (DigitCount(a) - DigitCount(b) > p ==> n == a && Pow10(p) * b <= n)
  {
    var da, db, k := DigitCount(a), DigitCount(b), FirstShift(a, b, p);
    hide Pow10, DigitCount;
    if da - db <= p {
      Pow10Add(da - 1, k);
      Pow10Add(da, k);
      Pow10Add(p - 1, db);
      Pow10Add(p + 1, db - 1);
      assert da - 1 + k == p - 1 + db && da + k == p + 1 + (db - 1);
      Sandwich(a, Pow10(da - 1), Pow10(da), b, Pow10(db - 1), Pow10(db), Pow10(k), Pow10(p - 1), Pow10(p + 1));
    } else {
      One();
      Pow10Add(p, db);
      if p + db < da - 1 { Pow10Grows(p + db, da - 1); }
      Pow10Grows(p - 1, p);
      Ladder(a, b, Pow10(db), Pow10(p - 1), Pow10(p));
    }
  }

  lemma Sandwich(a: nat, a0: nat, a1: nat, b: nat, b0: nat, b1: nat, k: nat, low: nat, high: nat)
    requires a0 <= a < a1 && b0 <= b < b1 && k > 0 && low > 0 && high > 0
    requires a0 * k == low * b1 && a1 * k == high * b0
    ensures low * b <= a * k < high * b
  {
    Multiply(a0, a, k);
    Multiply(a, a1, k);
    Multiply(b, b1, low);
    Multiply(b0, b, high);
  }

  lemma Ladder(a: nat, b: nat, b1: nat, low: nat, mid: nat)
    requires b < b1 && 0 < low <= mid && mid * b1 <= a
    ensures low * b <= mid * b <= a && a * 1 == a
  {
    Multiply(b, b1, mid);
    if b > 0 { Multiply(low, mid, b); }
  }

  lemma FirstShiftStarts(a: nat, b: nat, p: nat)
    requires a > 0 && b > 0 && p >= 1
    ensures Scaled(a, b, FirstShift(a, b, p)) > 0
  {
    hide Pow10, DigitCount, FirstShift;
    ShiftedBounds(a, b, p);
    AtLeast(a * Pow10(FirstShift(a, b, p)), b, Pow10(p - 1));
  }

  // ---------- The division in integers ----------

  /** The integer part of the quotient has at most one digit more than the precision. */
  predicate Fits(a: nat, b: nat, p: nat) { a < b * Pow10(p + 1) }

  /** Then the scaling loop runs at most once, and the quotient it stops at has exactly one
      digit more than the precision. */
  lemma Settles(a: nat, b: nat, p: nat)
    requires a > 0 && b > 0 && p >= 1 && Fits(a, b, p)
    ensures var k := LastShift(a, b, p);
            && FirstShift(a, b, p) <= k <= FirstShift(a, b, p) + 1
            && Pow10(p) * b <= a * Pow10(k) < Pow10(p + 1) * b
            && DigitCount(Scaled(a, b, k)) == p + 1
  {
    hide Pow10, DigitCount, FirstShift, Scaled;
    var k := FirstShift(a, b, p);
    FirstShiftStarts(a, b, p);
    ShiftedBounds(a, b, p);
    if Pow10(p) * b <= a * Pow10(k) {
      Stops(a, b, p, k);
    } else {
      Resumes(a, b, p, k);
    }
  }

  lemma Stops(a: nat, b: nat, p: nat, k: nat)
    requires b > 0 && p >= 1 && Pow10(p) * b <= a * Pow10(k) < Pow10(p + 1) * b
    ensures DigitCount(Scaled(a, b, k)) == p + 1
    ensures Scaled(a, b, k) > 0 && Shift(a, b, k, p + 1) == k
  {
    hide Pow10, DigitCount;
    QuotientDigits(a * Pow10(k), b, p + 1);
    AtLeast(a * Pow10(k), b, Pow10(p));
  }

  lemma Resumes(a: nat, b: nat, p: nat, k: nat)
    requires b > 0 && p >= 1 && Pow10(p - 1) * b <= a * Pow10(k) < Pow10(p) * b
    ensures Scaled(a, b, k) > 0 && Shift(a, b, k, p + 1) == k + 1
    ensures Pow10(p) * b <= a * Pow10(k + 1) < Pow10(p + 1) * b
    ensures DigitCount(Scaled(a, b, k + 1)) == p + 1
  {
    ShiftOnce(a, k);
    hide Pow10, DigitCount;
    QuotientDigits(a * Pow10(k), b, p);
    AtLeast(a * Pow10(k), b, Pow10(p - 1));
    Tenfold(a * Pow10(k), b, p);
    Stops(a, b, p, k + 1);
    ShiftAddsDigit(a, b, k);
  }

  lemma ShiftOnce(a: nat, k: nat)
    ensures a * Pow10(k + 1) == 10 * (a * Pow10(k))
  {
  }

  lemma QuotientDigits(n: nat, b: nat, c: nat)
    requires b > 0 && c >= 1 && Pow10(c - 1) * b <= n < Pow10(c) * b
    ensures DigitCount(n / b) == c
  {
    AtLeast(n, b, Pow10(c - 1));
    AtMost(n, b, Pow10(c));
    CountIs(n / b, c);
  }

  lemma Tenfold(n: nat, b: nat, p: nat)
    requires p >= 1 && Pow10(p - 1) * b <= n < Pow10(p) * b
    ensures Pow10(p) * b <= 10 * n < Pow10(p + 1) * b
  {
    assert Pow10(p) * b == 10 * (Pow10(p - 1) * b);
    assert Pow10(p + 1) * b == 10 * (Pow10(p) * b);
  }

  /** `m` is `n / d` rounded to the nearest integer, ties to even. */
  predicate IsHalfEven(m: nat, n: nat, d: nat) {
    var off := 2 * (m * d - n);
    off <= d && -off <= d && (off == d || -off == d ==> m % 2 == 0)
  }

  /** `RoundHalfEven` rounds half to even. */
  lemma {:induction false} RoundingIsHalfEven(coef: nat, drop: nat)
    ensures IsHalfEven(RoundHalfEven(coef, drop), coef, Pow10(drop))
  {
    hide Nearest, IsHalfEven;
    if drop == 0 {
      Unrounded(coef);
    } else {
      EvenPower(drop);
      NearestIsHalfEven(coef, Pow10(drop));
    }
  }

  lemma Unrounded(n: nat)
    ensures IsHalfEven(n, n, Pow10(0))
  {
  }

  lemma {:induction false} EvenPower(n: nat)
    requires n > 0
    ensures Pow10(n) % 2 == 0
  {
    var p, half := Pow10(n), Pow10(n - 1) * 5;
    assert p == 2 * half;
    hide Pow10;
    TwiceIsEven(p, half);
  }

  lemma TwiceIsEven(p: nat, half: nat)
    requires p == 2 * half
    ensures p % 2 == 0
  {
  }

  lemma NearestIsHalfEven(n: nat, d: nat)
    requires d > 0 && d % 2 == 0
    ensures IsHalfEven(Nearest(n, d), n, d)
  {
    var q, r := n / d, n % d;
    assert n == q * d + r;
    assert (q + 1) * d == q * d + d;
  }

  /** The first dropped digit is a five, more digits follow it, and the last kept digit is even:
      what looks like a tie is not one. */
  predicate FalseTie(a: nat, b: nat, p: nat)
    requires a > 0 && b > 0 && p >= 1
  {
    var n := a * Pow10(LastShift(a, b, p));
    var q := n / b;
    q % 10 == 5 && n % b != 0 && (q / 10) % 2 == 0
  }

  /** The kept digits against the quotient at the kept exponent, which is `n / (10 b)`. */
  lemma KeptIsNear(a: nat, b: nat, p: nat)
    requires a > 0 && b > 0 && p >= 1 && Fits(a, b, p)
    ensures var n, m := a * Pow10(LastShift(a, b, p)), Kept(a, b, p);
            && -6 * b < m * (10 * b) - n < 6 * b
            && (IsHalfEven(m, n, 10 * b) <==> !FalseTie(a, b, p))
            && (n % (10 * b) == 0 ==> m * (10 * b) == n)
  {
    hide Pow10, DigitCount, LastShift, Shorten, RoundHalfEven, IsHalfEven;
    Settles(a, b, p);
    var n := a * Pow10(LastShift(a, b, p));
    var q := n / b;
    KeptOnce(q, p + 1);
    SplitGuard(n, b);
    GuardDigit(n, b, q / 10, q % 10, n % b, Kept(a, b, p));
  }

  /** A quotient of the right length loses just its last digit. */
  lemma {:induction false} KeptOnce(q: nat, t: nat)
    requires t >= 1 && DigitCount(q) == t
    ensures RoundHalfEven(Shorten(q, t), 1) ==
            if q % 10 > 5 || (q % 10 == 5 && q / 10 % 2 != 0) then q / 10 + 1 else q / 10
  {
    One();
    hide Pow10;
  }

  lemma SplitGuard(n: nat, b: nat)
    requires b > 0
    ensures n == (10 * (n / b / 10) + n / b % 10) * b + n % b
  {
    assert n == b * (n / b) + n % b;
  }

  /** One guard digit `g` decides; the remainder `r` is not consulted. */
  lemma GuardDigit(n: nat, b: nat, h: nat, g: nat, r: nat, m: nat)
    requires b > 0 && g < 10 && r < b && n == (10 * h + g) * b + r
    requires m == if g > 5 || (g == 5 && h % 2 != 0) then h + 1 else h
    ensures -6 * b < m * (10 * b) - n < 6 * b
    ensures IsHalfEven(m, n, 10 * b) <==> !(g == 5 && r != 0 && h % 2 == 0)
    ensures n % (10 * b) == 0 ==> m * (10 * b) == n
  {
    var d, rest := 10 * b, g * b + r;
    Expand(h, g, b);
    GuardBounds(g, b);
    assert n == h * d + rest;
    NearMultiple(h, d, rest, g > 5 || (g == 5 && h % 2 != 0), m, n);
    if n % d == 0 { NoRemainder(n, d, h, rest); }
  }

  lemma Expand(h: nat, g: nat, b: nat)
    ensures (10 * h + g) * b == h * (10 * b) + g * b
  {
  }

  /** Rounding `h d + rest` to a multiple of `d`. */
  lemma NearMultiple(h: nat, d: nat, rest: nat, up: bool, m: nat, n: nat)
    requires rest < d && n == h * d + rest && m == if up then h + 1 else h
    ensures m * d - n == if up then d - rest else 0 - rest
    ensures IsHalfEven(m, n, d) <==>
            if up then 2 * rest >= d && (2 * rest == d ==> h % 2 != 0)
            else 2 * rest <= d && (2 * rest == d ==> h % 2 == 0)
  {
    assert (h + 1) * d == h * d + d;
  }

  lemma GuardBounds(g: nat, b: nat)
    requires b > 0 && g < 10
    ensures g <= 4 ==> g * b <= 4 * b
    ensures g == 5 ==> g * b == 5 * b
    ensures g >= 6 ==> g * b >= 6 * b
    ensures g * b <= 9 * b
    ensures g != 0 ==> g * b > 0
  {
    Multiply(g, 4, b);
    Multiply(6, g, b);
    Multiply(g, 9, b);
    Multiply(0, g, b);
  }

  lemma NoRemainder(n: nat, d: nat, h: nat, rest: nat)
    requires d > 0 && n == h * d + rest && rest < d && n % d == 0
    ensures rest == 0
  {
    assert n == d * (n / d);
    Multiply(n / d + 1, h, d);
    Multiply(h + 1, n / d, d);
  }

  /** Otherwise the second loop drops digits that nothing accounts for. */
  lemma {:induction false} KeptIsFar(a: nat, b: nat, p: nat)
    requires a > 0 && b > 0 && p >= 1 && !Fits(a, b, p)
    ensures LastShift(a, b, p) == 0
    ensures 25 * (Kept(a, b, p) * b) <= a && Pow10(p + 1) * b <= a
  {
    hide Pow10, DigitCount, FirstShift, RoundHalfEven;
    FirstShiftStarts(a, b, p);
    One();
    WideQuotient(a, b, p);
    assert Scaled(a, b, 0) == a / b && LastShift(a, b, p) == 0;
    ShortenShrinks(a / b, p + 1);
    SmallRound(Shorten(a / b, p + 1));
    FarProduct(a, b, Kept(a, b, p));
  }

  lemma FarProduct(a: nat, b: nat, m: nat)
    requires b > 0 && 25 * m <= a / b
    ensures 25 * (m * b) <= a
  {
    assert a == b * (a / b) + a % b;
    assert b * (25 * m) <= b * (a / b);
    assert b * (25 * m) == 25 * (m * b);
  }

  lemma SmallRound(s: nat)
    ensures RoundHalfEven(s, 1) <= s / 10 + 1
  {
    assert Pow10(1) == 10;
  }

  lemma {:induction false} WideQuotient(a: nat, b: nat, p: nat)
    requires a > 0 && b > 0 && p >= 1 && !Fits(a, b, p)
    ensures a / b >= Pow10(p + 1) >= 100 && DigitCount(a / b) > p + 1 && FirstShift(a, b, p) == 0
  {
    hide Pow10, DigitCount, FirstShift;
    One();
    if p > 1 { Pow10Grows(2, p + 1); }
    AtLeast(a, b, Pow10(p + 1));
    var dq := DigitCount(a / b);
    if dq < p + 1 { Pow10Grows(dq, p + 1); }
    NoShift(a, b, p);
  }

  lemma NoShift(a: nat, b: nat, p: nat)
    requires a > 0 && b > 0 && !Fits(a, b, p)
    ensures FirstShift(a, b, p) == 0
  {
    hide Pow10, DigitCount;
    var da, db := DigitCount(a), DigitCount(b);
    Pow10Add(p + 1, db - 1);
    Multiply(Pow10(db - 1), b, Pow10(p + 1));
    if da < p + db { Pow10Grows(da, p + db); }
  }

  lemma {:induction false} ShortenShrinks(q: nat, t: nat)
    requires t >= 1 && DigitCount(q) > t
    ensures Shorten(q, t) <= q / 10 + 1
    decreases q
  {
    var q' := RoundHalfEven(q, DigitCount(q) - t);
    RoundShrinks(q, DigitCount(q) - t);
    if DigitCount(q') > t { ShortenShrinks(q', t); }
  }
}
