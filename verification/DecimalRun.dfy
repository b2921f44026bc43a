/** Decimal division and parsing as they run: loops over a shared, growing table of powers. */
module DecimalRun {
  import opened SchemaGraph
  import opened Decimals
  import opened DecimalDivision
  import opened DecimalText

  /** The table of powers of ten that every caller shares and extends. */
  class PowerTable {
    var powers: seq<int>

    /** Entry `i` is `10^i`. */
    ghost predicate Valid()
      reads this
    {
      |powers| >= 1 && forall i | 0 <= i < |powers| :: powers[i] == Pow10(i)
    }

    constructor ()
      ensures Valid() && powers == [1]
    {
      powers := [1];
    }

    method Power(n: nat) returns (p: nat)
      requires Valid()
      modifies this
      ensures Valid() && p == Pow10(n)
      ensures old(powers) <= powers && |powers| == if n < |old(powers)| then |old(powers)| else n + 1
    {
      while |powers| <= n
        invariant Valid() && old(powers) <= powers
        invariant |powers| <= n + 1 || powers == old(powers)
      {
        powers := powers + [powers[|powers| - 1] * 10];
      }
      p := powers[n];
    }

    method CountDigits(x: int) returns (c: nat)
      requires Valid()
      modifies this
      ensures Valid() && c == DigitCount(AbsInt(x))
    {
      if x == 0 { return 1; }
      var n := AbsInt(x);
      c := 0;
      var step := Power(16);
      while n >= step
        invariant Valid() && n > 0 && DigitCount(n) + c == DigitCount(AbsInt(x))
        decreases n
      {
        DropDigits(n, 16);
        DivisionShrinks(n, step);
        n := n / step;
        c := c + 16;
      }
      while n > 0
        invariant Valid() && (if n > 0 then DigitCount(n) else 0) + c == DigitCount(AbsInt(x))
      {
        n := n / 10;
        c := c + 1;
      }
    }

    method Round(coef: nat, drop: int) returns (r: nat)
      requires Valid()
      modifies this
      ensures Valid() && r == RoundHalfEven(coef, drop)
    {
      if drop <= 0 { return coef; }
      hide Pow10, Nearest;
      var divisor := Power(drop);
      r := RoundBy(coef, divisor);
    }

    /** `dividedBy` */
    method DividedBy(a: Decimal, b: Decimal, precision: Option<int>) returns (r: Option<Decimal>)
      requires Valid()
      modifies this
      ensures Valid() && r == Divide(a, b, precision)
    {
      hide Pow10, Precision, DigitCount, Kept, LastShift, Strip, Scaled, Shorten, RoundHalfEven, Valid;
      if b.coef == 0 { return None; }
      if a.coef == 0 { return Some(Decimal(0, 0)); }
      var p := Precision(precision);
      var x, y := AbsInt(a.coef), AbsInt(b.coef);
      var q, k := ScaleUp(x, y, p);
      q := ShortenTo(q, p + 1);
      q := Round(q, 1);
      assert q == Kept(x, y, p) by { KeptIs(x, y, p); }
      var shift: int := k;
      var exp := a.exp - b.exp - (shift - 1);
      var d := StripZeros(q, exp);
      r := Some(if (a.coef < 0) != (b.coef < 0) then Decimal(-d.coef, d.exp) else d);
    }

    /** Scales the dividend until the quotient has one digit more than the precision. */
    method ScaleUp(a: nat, b: nat, p: nat) returns (q: nat, k: nat)
      requires Valid() && a > 0 && b > 0 && p >= 1
      modifies this
      ensures Valid() && k == LastShift(a, b, p) && q == Scaled(a, b, k)
    {
      hide Pow10, DigitCount, Scaled, Valid;
      var aDigits: int := CountDigits(a);
      var bDigits: int := CountDigits(b);
      var target := p + 1;
      var first := target - (aDigits - bDigits) - 1;
      k := if first < 0 then 0 else first;
      FirstShiftStarts(a, b, p);
      var power := Power(k);
      var scaled := a * power;
      q := Quotient(scaled, a, b, k);
      var digits := CountDigits(q);
      while digits < target
        invariant Valid() && scaled == a * Pow10(k) && q == Scaled(a, b, k) > 0 && digits == DigitCount(q)
        invariant Shift(a, b, k, target) == LastShift(a, b, p)
        decreases target - digits
      {
        ShiftAddsDigit(a, b, k);
        ShiftOnce(a, k);
        k := k + 1;
        scaled := scaled * 10;
        q := Quotient(scaled, a, b, k);
        digits := CountDigits(q);
      }
    }

    method ShortenTo(q0: nat, t: nat) returns (q: nat)
      requires Valid() && t >= 1
      modifies this
      ensures Valid() && q == Shorten(q0, t)
    {
      hide Pow10, DigitCount, Valid, RoundHalfEven;
      q := q0;
      var digits := CountDigits(q);
      while digits > t
        invariant Valid() && digits == DigitCount(q) && Shorten(q, t) == Shorten(q0, t)
        decreases q
      {
        TwoDigits(q);
        RoundShrinks(q, digits - t);
        q := Round(q, digits - t);
        digits := CountDigits(q);
      }
    }

    method StripZeros(q0: nat, exp0: int) returns (d: Decimal)
      ensures d == Strip(q0, exp0)
    {
      var q, exp := q0, exp0;
      while q != 0 && q % 10 == 0
        invariant Strip(q, exp) == Strip(q0, exp0)
        decreases q
      {
        q := q / 10;
        exp := exp + 1;
      }
      d := Decimal(q, exp);
    }
  }

  method RoundBy(coef: nat, divisor: nat) returns (r: nat)
    requires divisor > 0
    ensures r == Nearest(coef, divisor)
  {
    var q := coef / divisor;
    RemainderIs(coef, divisor);
    var rest := coef - q * divisor;
    if rest == 0 { return q; }
    var half := divisor / 2;
    var roundUp: bool;
    if rest > half {
      roundUp := true;
    } else if rest < half {
      roundUp := false;
    } else {
      roundUp := q % 2 != 0;
    }
    r := if roundUp then q + 1 else q;
  }

  method Quotient(scaled: nat, a: nat, b: nat, k: nat) returns (q: nat)
    requires b > 0 && scaled == a * Pow10(k)
    ensures q == Scaled(a, b, k)
  {
    hide Pow10;
    q := scaled / b;
  }

  lemma {:induction false} KeptIs(a: nat, b: nat, p: nat)
    requires a > 0 && b > 0 && p >= 1
    ensures Kept(a, b, p) == RoundHalfEven(Shorten(Scaled(a, b, LastShift(a, b, p)), p + 1), 1)
  {
  }

  lemma {:induction false} TwoDigits(q: nat)
    requires DigitCount(q) > 1
    ensures q >= 10
  {
  }

  lemma RemainderIs(n: nat, d: nat)
    requires d > 0
    ensures n - n / d * d == n % d
  {
    assert n == d * (n / d) + n % d;
  }

  lemma DivisionShrinks(n: nat, d: nat)
    requires d >= 2 && n >= d
    ensures 0 < n / d < n
  {
    assert n == d * (n / d) + n % d;
    AtLeast(n, d, 1);
    Multiply(2, d, n / d);
  }

  lemma {:induction false} DropDigits(n: nat, k: nat)
    requires n >= Pow10(k)
    ensures n / Pow10(k) > 0 && DigitCount(n / Pow10(k)) + k == DigitCount(n)
  {
    hide Pow10, DigitCount;
    var c := DigitCount(n);
    if c < k { Pow10Grows(c, k); }
    Pow10Add(k, c - 1 - k);
    Pow10Add(k, c - k);
    DropBounds(n, Pow10(k), Pow10(c - 1 - k), Pow10(c - k));
    CountIs(n / Pow10(k), c - k);
  }

  lemma DropBounds(n: nat, d: nat, low: nat, high: nat)
    requires d > 0 && 0 < low && d * low <= n < d * high
    ensures 0 < low <= n / d < high
  {
    AtLeast(n, d, low);
    DecimalDivision.AtMost(n, d, high);
  }

  // ---------- Parsing ----------

  /** Steps over digits. */
  method SkipDigits(s: string, start: nat) returns (i: nat)
    requires start <= |s|
    ensures start <= i <= |s| && i - start == Span(s[start..])
  {
    i := start;
    while i < |s| && '0' <= s[i] <= '9'
      invariant start <= i <= |s| && (i - start) + Span(s[i..]) == Span(s[start..])
    {
      assert s[i..][0] == s[i] && s[i..][1..] == s[i + 1..];
      i := i + 1;
    }
  }

  /** Steps over a sign. */
  method SkipSign(s: string, start: nat) returns (i: nat, negative: bool)
    requires start <= |s|
    ensures start <= i <= |s| && s[start..i] == Sign(s[start..]) && negative == (Sign(s[start..]) == "-")
  {
    i, negative := start, false;
    if i < |s| && s[i] == '+' {
      i := i + 1;
    } else if i < |s| && s[i] == '-' {
      negative := true;
      i := i + 1;
    }
  }

  /** `Decimal.from` on a string. */
  method ParseText(text: string) returns (p: Parsed)
    ensures p == Parse(text)
  {
    var s := Trim(text);
    if |s| == 0 { return Malformed(EmptyString); }
    var intStart, negative := SkipSign(s, 0);
    assert s[0..] == s && s[..intStart] == Sign(s);
    p := ParseFrom(s, intStart, negative);
  }

  /** Parses what follows the sign. */
  method ParseFrom(s: string, intStart: nat, negative: bool) returns (p: Parsed)
    requires intStart <= |s| && negative == (s[..intStart] == "-") && IsSign(s[..intStart])
    ensures p == ParseNumber(s[..intStart], s[intStart..])
  {
    hide ParseFraction, Span;
    var intEnd := SkipDigits(s, intStart);
    ghost var rest := s[intStart..];
    assert rest[..Span(rest)] == s[intStart..intEnd] && rest[Span(rest)..] == s[intEnd..];
    p := ParsePoint(s, intStart, intEnd, negative);
  }

  /** Parses what follows the integer digits. */
  method ParsePoint(s: string, intStart: nat, intEnd: nat, negative: bool) returns (p: Parsed)
    requires intStart <= intEnd <= |s| && negative == (s[..intStart] == "-") && AllDigits(s[intStart..intEnd])
    ensures p == ParseFraction(s[..intStart], s[intStart..intEnd], s[intEnd..])
  {
    hide Span, Denoted, ParseExponent;
    var fracStart, fracEnd := intEnd, intEnd;
    if intEnd < |s| && s[intEnd] == '.' {
      fracStart := intEnd + 1;
      fracEnd := SkipDigits(s, fracStart);
      assert s[intEnd..][1..] == s[fracStart..];
      assert s[fracStart..][..fracEnd - fracStart] == s[fracStart..fracEnd];
      assert s[fracStart..][fracEnd - fracStart..] == s[fracEnd..];
    } else {
      assert !StartsWithPoint(s[intEnd..]);
      assert ""[..Span("")] == "";
    }
    if intStart == intEnd && fracStart == fracEnd { return Malformed(InvalidNumber); }
    p := ParseRest(s, negative, s[intStart..intEnd], s[fracStart..fracEnd], fracEnd, s[..intStart]);
  }

  /** Parses what follows the digits, and assembles the decimal. */
  method ParseRest(s: string, negative: bool, whole: string, frac: string, start: nat, ghost sign: string)
    returns (p: Parsed)
    requires start <= |s| && AllDigits(whole) && AllDigits(frac) && negative == (sign == "-")
    ensures p == ParseExponent(sign, whole, frac, s[start..])
  {
    hide Span, Numeral;
    var i, exponent: int := start, 0;
    if i < |s| && (s[i] == 'e' || s[i] == 'E') {
      ghost var tail := s[start..];
      var expStart, down := SkipSign(s, i + 1);
      assert tail[1..] == s[i + 1..];
      assert tail[1 + |Sign(tail[1..])|..] == s[expStart..];
      i := SkipDigits(s, expStart);
      assert s[expStart..][..Span(s[expStart..])] == s[expStart..i];
      if i == expStart { return Malformed(InvalidExponent); }
      exponent := Numeral(s[expStart..i]);
      if down { exponent := -exponent; }
      if i != |s| { return Malformed(TrailingGarbage); }
    }
    if i != |s| { return Malformed(TrailingGarbage); }
    var combined := (if whole == "" then "0" else whole) + frac;
    assert AllDigits(combined);
    var coef: int := Numeral(combined);
    if negative { coef := -coef; }
    p := Parsed(Decimal(coef, exponent - |frac|));
  }
}
