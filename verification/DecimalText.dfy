/** Reading and printing decimals. */
module DecimalText {
  import opened SchemaGraph
  import opened Decimals
  import opened DecimalDivision

  // ---------- Digits ----------

  predicate IsDigit(c: char) { '0' <= c <= '9' }

  predicate AllDigits(s: string) { forall i | 0 <= i < |s| :: IsDigit(s[i]) }

  function Digit(d: nat): char
    requires d < 10
  {
    "0123456789"[d]
  }

  function DigitValue(c: char): nat
    requires IsDigit(c)
  {
    c as int - '0' as int
  }

  /** The decimal digits of a number, as `BigInt.prototype.toString` writes them. */
  function DigitsOf(n: nat): (s: string)
    ensures s != "" && AllDigits(s)
  {
    if n < 10 then [Digit(n)] else DigitsOf(n / 10) + [Digit(n % 10)]
  }

  /** The number that digits spell. */
  function Numeral(s: string): nat
    requires AllDigits(s)
  {
    if s == "" then 0
    else
      var n := |s| - 1;
      Numeral(s[..n]) * 10 + DigitValue(s[n])
  }

  function Zeros(n: nat): (s: string)
    ensures |s| == n && AllDigits(s)
  {
    if n == 0 then "" else Zeros(n - 1) + "0"
  }

  lemma {:induction false} DigitsSpell(n: nat)
    ensures Numeral(DigitsOf(n)) == n && |DigitsOf(n)| == DigitCount(n)
  {
    if n < 10 {
      assert DigitValue(Digit(n)) == n;
    } else {
      DigitsSpell(n / 10);
      var s := DigitsOf(n);
      assert s[..|s| - 1] == DigitsOf(n / 10);
      assert DigitValue(Digit(n % 10)) == n % 10;
    }
  }

  lemma {:induction false} NumeralConcat(s: string, t: string)
    requires AllDigits(s) && AllDigits(t)
    ensures AllDigits(s + t) && Numeral(s + t) == Numeral(s) * Pow10(|t|) + Numeral(t)
  {
    if t == "" {
      assert s + t == s;
    } else {
      var n := |t| - 1;
      NumeralConcat(s, t[..n]);
      assert (s + t)[..|s + t| - 1] == s + t[..n];
      TenAround(Numeral(s), Pow10(n), Numeral(t[..n]));
    }
  }

  lemma TenAround(a: nat, p: nat, b: nat)
    ensures (a * p + b) * 10 == a * (10 * p) + b * 10
  {
  }

  lemma {:induction false} ZerosSpellZero(n: nat)
    ensures Numeral(Zeros(n)) == 0
  {
    if n > 0 {
      ZerosSpellZero(n - 1);
      assert Zeros(n)[..n - 1] == Zeros(n - 1);
    }
  }

  // ---------- The grammar ----------

  datatype Exponent = Exponent(mark: char, sign: string, digits: string)

  /** `[+-] digits [. digits] [e [+-] digits]` */
  datatype Literal = Literal(sign: string, whole: string, frac: Option<string>, exponent: Option<Exponent>)

  predicate IsSign(s: string) { s == "" || s == "+" || s == "-" }

  function FracOf(l: Literal): string { if l.frac.Some? then l.frac.value else "" }

  predicate WellFormed(l: Literal) {
    && IsSign(l.sign) && AllDigits(l.whole) && AllDigits(FracOf(l))
    && (l.whole != "" || FracOf(l) != "")
    && (l.exponent.Some? ==>
          var e := l.exponent.value;
          (e.mark == 'e' || e.mark == 'E') && IsSign(e.sign) && e.digits != "" && AllDigits(e.digits))
  }

  function SpellExponent(e: Option<Exponent>): string {
    if e.None? then "" else [e.value.mark] + e.value.sign + e.value.digits
  }

  function Spell(l: Literal): string {
    l.sign + (l.whole + ((if l.frac.Some? then "." + l.frac.value else "") + SpellExponent(l.exponent)))
  }

  function Negated(sign: string, n: int): int { if sign == "-" then -n else n }

  /** The decimal that a literal denotes. */
  function Meaning(l: Literal): Decimal
    requires WellFormed(l)
  {
    var exponent := if l.exponent.Some? then Negated(l.exponent.value.sign, Numeral(l.exponent.value.digits)) else 0;
    Denoted(l.sign, l.whole, FracOf(l), exponent)
  }

  function Denoted(sign: string, whole: string, frac: string, exponent: int): Decimal
    requires AllDigits(whole) && AllDigits(frac)
  {
    var digits := (if whole == "" then "0" else whole) + frac;
    assert AllDigits(digits);
    Decimal(Negated(sign, Numeral(digits)), exponent - |frac|)
  }

  /** The value of a literal, from its parts: the whole digits and the digits after the point, shifted
      by the exponent. */
  lemma LiteralValue(l: Literal)
    requires WellFormed(l)
    ensures var places: int := if l.exponent.Some? then Numeral(l.exponent.value.digits) else 0;
            var shift := if l.exponent.Some? && l.exponent.value.sign == "-" then -places else places;
            var frac := FracOf(l);
            var size := Numeral(l.whole) as real + Numeral(frac) as real / Pow10(|frac|) as real;
            Value(Meaning(l)) == (if l.sign == "-" then -size else size) * Scale(shift)
  {
    hide Scale, Pow10, Numeral;
    var frac := FracOf(l);
    var shift := Meaning(l).exp + |frac|;
    var written := if l.whole == "" then "0" else l.whole;
    WholeDigits(l.whole);
    NumeralConcat(written, frac);
    var n, whole, digits := Pow10(|frac|) as real, Numeral(l.whole), Numeral(written + frac);
    ScaleAdd(shift - |frac|, |frac|);
    ShiftedSize(digits as real, whole as real, Numeral(frac) as real, n, Scale(shift - |frac|));
    NegatedProduct(digits as real, Scale(shift - |frac|));
    NegatedProduct(whole as real + Numeral(frac) as real / n, Scale(shift));
  }

  lemma WholeDigits(whole: string)
    requires AllDigits(whole)
    ensures AllDigits(if whole == "" then "0" else whole)
    ensures Numeral(if whole == "" then "0" else whole) == Numeral(whole)
  {
    assert "0"[..0] == "";
  }

  lemma NegatedProduct(x: real, y: real)
    ensures (-x) * y == -(x * y)
  {
  }

  lemma ShiftedSize(digits: real, whole: real, frac: real, n: real, s: real)
    requires n > 0.0 && digits == whole * n + frac
    ensures digits * s == (whole + frac / n) * (s * n)
  {
    assert (frac / n) * n == frac;
    assert (whole + frac / n) * n == digits;
    Reassociate(whole + frac / n, n, s);
  }

  lemma Reassociate(x: real, n: real, s: real)
    ensures x * n * s == x * (s * n)
  {
  }

  // ---------- The parser ----------

  datatype ParseError = EmptyString | InvalidNumber | InvalidExponent | TrailingGarbage
  datatype Parsed = Parsed(d: Decimal) | Malformed(error: ParseError)

  /** The number of leading digits. */
  function Span(s: string): (n: nat)
    ensures n <= |s| && AllDigits(s[..n]) && (n < |s| ==> !IsDigit(s[n]))
  {
    if s == "" || !IsDigit(s[0]) then 0
    else
      var n := Span(s[1..]) + 1;
      assert s[..n] == [s[0]] + s[1..][..n - 1];
      n
  }

  /** A leading sign, if there is one. */
  function Sign(s: string): (sign: string)
    ensures IsSign(sign) && sign <= s
  {
    if s != "" && (s[0] == '+' || s[0] == '-') then s[..1] else ""
  }

  predicate StartsWithPoint(s: string) { s != "" && s[0] == '.' }

  function ParseTrimmed(s: string): Parsed {
    if s == "" then Malformed(EmptyString) else ParseNumber(Sign(s), s[|Sign(s)|..])
  }

  /** What follows the sign. */
  function ParseNumber(sign: string, s: string): Parsed { ParseFraction(sign, s[..Span(s)], s[Span(s)..]) }

  /** What follows the integer digits. */
  function ParseFraction(sign: string, whole: string, s: string): Parsed
    requires AllDigits(whole)
  {
    var fraction := if StartsWithPoint(s) then s[1..] else "";
    var frac := fraction[..Span(fraction)];
    if whole == "" && frac == "" then Malformed(InvalidNumber)
    else ParseExponent(sign, whole, frac, if StartsWithPoint(s) then fraction[|frac|..] else s)
  }

  function ParseExponent(sign: string, whole: string, frac: string, s: string): Parsed
    requires AllDigits(whole) && AllDigits(frac)
  {
    if s == "" then Parsed(Denoted(sign, whole, frac, 0))
    else if s[0] != 'e' && s[0] != 'E' then Malformed(TrailingGarbage)
    else
      var expSign := Sign(s[1..]);
      var rest := s[1 + |expSign|..];
      var digits := rest[..Span(rest)];
      if digits == "" then Malformed(InvalidExponent)
      else if digits != rest then Malformed(TrailingGarbage)
      else Parsed(Denoted(sign, whole, frac, Negated(expSign, Numeral(digits))))
  }

  /** White space and line terminators, as `String.prototype.trim` counts them. */
  predicate IsSpace(c: char) {
    var n := c as int;
    || 0x9 <= n <= 0xd || n == 0x20 || n == 0xa0 || n == 0x1680 || 0x2000 <= n <= 0x200a
    || n == 0x2028 || n == 0x2029 || n == 0x202f || n == 0x205f || n == 0x3000 || n == 0xfeff
  }

  const SPACES := [
    0x9, 0xa, 0xb, 0xc, 0xd, 0x20, 0xa0, 0x1680, 0x2000, 0x2001, 0x2002, 0x2003, 0x2004, 0x2005, 0x2006, 0x2007,
    0x2008, 0x2009, 0x200a, 0x2028, 0x2029, 0x202f, 0x205f, 0x3000, 0xfeff
  ]

  /** The spaces of ECMAScript, one by one. */
  lemma SpacesAre(c: char)
    ensures IsSpace(c) <==> c as int in SPACES
  {
  }

  function TrimStart(s: string): string { if s != "" && IsSpace(s[0]) then TrimStart(s[1..]) else s }

  function TrimEnd(s: string): string {
    if s != "" && IsSpace(s[|s| - 1]) then TrimEnd(s[..|s| - 1]) else s
  }

  function Trim(s: string): string { TrimEnd(TrimStart(s)) }

  /** What is trimmed is all white space, and what is left neither begins nor ends with any. */
  lemma TrimIs(text: string) returns (k: nat, n: nat)
    ensures k <= n <= |text| && Trim(text) == text[k..n]
    ensures forall i | 0 <= i < |text| && (i < k || i >= n) :: IsSpace(text[i])
    ensures k < n ==> !IsSpace(text[k]) && !IsSpace(text[n - 1])
  {
    hide IsSpace;
    k := TrimStartIs(text);
    var size := TrimEndIs(text[k..]);
    n := k + size;
    assert text[k..][..size] == text[k..n];
    assert forall i | n <= i < |text| :: text[i] == text[k..][i - k];
  }

  lemma {:induction false} TrimStartIs(s: string) returns (k: nat)
    ensures k <= |s| && TrimStart(s) == s[k..] && (k < |s| ==> !IsSpace(s[k]))
    ensures forall i | 0 <= i < k :: IsSpace(s[i])
  {
    hide IsSpace;
    k := 0;
    if s != "" && IsSpace(s[0]) {
      k := TrimStartIs(s[1..]);
      k := k + 1;
    }
  }

  lemma {:induction false} TrimEndIs(s: string) returns (n: nat)
    ensures n <= |s| && TrimEnd(s) == s[..n] && (n > 0 ==> !IsSpace(s[n - 1]))
    ensures forall i | n <= i < |s| :: IsSpace(s[i])
  {
    hide IsSpace;
    n := |s|;
    if s != "" && IsSpace(s[|s| - 1]) {
      n := TrimEndIs(s[..|s| - 1]);
    }
  }

  function Parse(text: string): Parsed { ParseTrimmed(Trim(text)) }

  // ---------- The parser accepts the grammar ----------

  predicate Stops(s: string) { s == "" || !IsDigit(s[0]) }

  lemma {:induction false} SpanStops(digits: string, rest: string)
    requires AllDigits(digits) && Stops(rest)
    ensures Span(digits + rest) == |digits|
    ensures (digits + rest)[..|digits|] == digits && (digits + rest)[|digits|..] == rest
  {
    if digits == "" {
      assert digits + rest == rest;
    } else {
      assert (digits + rest)[1..] == digits[1..] + rest;
      SpanStops(digits[1..], rest);
    }
  }

  lemma SignStops(sign: string, rest: string)
    requires IsSign(sign) && (rest == "" || (rest[0] != '+' && rest[0] != '-'))
    ensures Sign(sign + rest) == sign && (sign + rest)[|sign|..] == rest
  {
    if sign == "" {
      assert sign + rest == rest;
    } else {
      assert (sign + rest)[..1] == sign;
    }
  }

  lemma ExponentParses(sign: string, whole: string, frac: string, e: Option<Exponent>)
    requires AllDigits(whole) && AllDigits(frac)
    requires e.Some? ==>
               && (e.value.mark == 'e' || e.value.mark == 'E') && IsSign(e.value.sign)
               && e.value.digits != "" && AllDigits(e.value.digits)
    ensures ParseExponent(sign, whole, frac, SpellExponent(e)) ==
            Parsed(Denoted(sign, whole, frac, if e.Some? then Negated(e.value.sign, Numeral(e.value.digits)) else 0))
  {
    hide Denoted, Numeral;
    if e.Some? {
      var s, digits := SpellExponent(e), e.value.digits;
      assert s[1..] == e.value.sign + digits;
      SignStops(e.value.sign, digits);
      assert s[1 + |e.value.sign|..] == digits;
      SpanStops(digits, "");
      assert digits + "" == digits;
    }
  }

  function SpellFraction(l: Literal): string {
    (if l.frac.Some? then "." + l.frac.value else "") + SpellExponent(l.exponent)
  }

  lemma FractionParses(l: Literal)
    requires WellFormed(l)
    ensures ParseFraction(l.sign, l.whole, SpellFraction(l)) == Parsed(Meaning(l))
    ensures Stops(SpellFraction(l))
  {
    hide Denoted, Numeral, ParseExponent;
    var tail := SpellExponent(l.exponent);
    ExponentParses(l.sign, l.whole, FracOf(l), l.exponent);
    if l.frac.Some? {
      assert SpellFraction(l)[1..] == l.frac.value + tail;
      SpanStops(l.frac.value, tail);
    } else {
      assert SpellFraction(l) == tail;
      assert Span("") == 0;
    }
  }

  /** Every literal of the grammar is read as what it denotes. */
  lemma LiteralParses(l: Literal)
    requires WellFormed(l)
    ensures ParseTrimmed(Spell(l)) == Parsed(Meaning(l))
  {
    hide Meaning, ParseFraction;
    var rest := l.whole + SpellFraction(l);
    FractionParses(l);
    SpanStops(l.whole, SpellFraction(l));
    assert Spell(l) == l.sign + rest;
    assert rest != "" && rest[0] != '+' && rest[0] != '-' by { Unsigned(l); }
    SignStops(l.sign, rest);
  }

  lemma Unsigned(l: Literal)
    requires WellFormed(l)
    ensures var rest := l.whole + SpellFraction(l); rest != "" && rest[0] != '+' && rest[0] != '-'
  {
  }

  // ---------- The grammar covers the parser ----------

  /** Nothing else is accepted. */
  lemma ParsedIsLiteral(s: string) returns (l: Literal)
    requires ParseTrimmed(s).Parsed?
    ensures WellFormed(l) && Spell(l) == s && ParseTrimmed(s) == Parsed(Meaning(l))
  {
    hide Meaning, ParseFraction, WellFormed, Span, SpellFraction, Sign;
    var rest := s[|Sign(s)|..];
    var n := Span(rest);
    var whole, tail := rest[..n], rest[n..];
    l := FractionIsLiteral(Sign(s), whole, tail);
    assert rest == whole + tail && s == Sign(s) + rest;
    SpellSplits(l);
  }

  lemma SpellSplits(l: Literal)
    ensures Spell(l) == l.sign + (l.whole + SpellFraction(l))
  {
  }

  lemma FractionIsLiteral(sign: string, whole: string, s: string) returns (l: Literal)
    requires IsSign(sign) && AllDigits(whole) && ParseFraction(sign, whole, s).Parsed?
    ensures WellFormed(l) && l.sign == sign && l.whole == whole && SpellFraction(l) == s
    ensures ParseFraction(sign, whole, s) == Parsed(Meaning(l))
  {
    hide Denoted, Numeral, ParseExponent, SpellExponent;
    if StartsWithPoint(s) {
      var n := Span(s[1..]);
      var frac := s[1..][..n];
      var e := ExponentIsLiteral(sign, whole, frac, s[1..][n..]);
      l := Literal(sign, whole, Some(frac), e);
      assert s == "." + frac + s[1..][n..];
    } else {
      assert Span("") == 0;
      var e := ExponentIsLiteral(sign, whole, "", s);
      l := Literal(sign, whole, None, e);
      assert "" + s == s;
    }
  }

  lemma ExponentIsLiteral(sign: string, whole: string, frac: string, s: string) returns (e: Option<Exponent>)
    requires AllDigits(whole) && AllDigits(frac) && ParseExponent(sign, whole, frac, s).Parsed?
    ensures SpellExponent(e) == s
    ensures e.Some? ==>
              && (e.value.mark == 'e' || e.value.mark == 'E') && IsSign(e.value.sign)
              && e.value.digits != "" && AllDigits(e.value.digits)
    ensures ParseExponent(sign, whole, frac, s) ==
            Parsed(Denoted(sign, whole, frac, if e.Some? then Negated(e.value.sign, Numeral(e.value.digits)) else 0))
  {
    hide Denoted, Numeral;
    if s == "" {
      e := None;
    } else {
      var expSign := Sign(s[1..]);
      var digits := s[1 + |expSign|..];
      e := Some(Exponent(s[0], expSign, digits));
      assert s == [s[0]] + expSign + digits;
    }
  }

  /** The parser accepts exactly the grammar. */
  lemma ParserIsGrammar(s: string, d: Decimal)
    ensures ParseTrimmed(s) == Parsed(d) <==> exists l :: WellFormed(l) && Spell(l) == s && Meaning(l) == d
  {
    hide Meaning, ParseTrimmed, WellFormed, Spell;
    if ParseTrimmed(s) == Parsed(d) {
      var l := ParsedIsLiteral(s);
    }
    if l :| WellFormed(l) && Spell(l) == s && Meaning(l) == d {
      LiteralParses(l);
    }
  }

  // ---------- What is wrong with a string ----------

  /** A number without an exponent. */
  predicate Bare(l: Literal) { WellFormed(l) && l.exponent.None? }

  /** The number does not go on in the tail. */
  predicate Ends(l: Literal, tail: string) {
    Stops(tail) && (l.frac.None? ==> !StartsWithPoint(tail))
  }

  function Point(l: Literal): string { if l.frac.Some? then "." + l.frac.value else "" }

  lemma BareSpells(l: Literal, tail: string)
    requires Bare(l)
    ensures Spell(l) + tail == l.sign + (l.whole + (Point(l) + tail))
  {
    var point := Point(l);
    assert point + SpellExponent(None) == point;
    assert l.sign + (l.whole + point) + tail == l.sign + (l.whole + (point + tail));
  }

  lemma FractionThen(l: Literal, tail: string)
    requires Bare(l) && Ends(l, tail)
    ensures ParseFraction(l.sign, l.whole, Point(l) + tail) == ParseExponent(l.sign, l.whole, FracOf(l), tail)
    ensures Stops(Point(l) + tail)
  {
    hide Numeral, Denoted, ParseExponent;
    if l.frac.Some? {
      assert (Point(l) + tail)[1..] == l.frac.value + tail;
      SpanStops(l.frac.value, tail);
    } else {
      assert Point(l) + tail == tail && Span("") == 0;
    }
  }

  /** What follows a number is read as its exponent. */
  lemma NumberThen(l: Literal, tail: string)
    requires Bare(l) && Ends(l, tail)
    ensures ParseTrimmed(Spell(l) + tail) == ParseExponent(l.sign, l.whole, FracOf(l), tail)
  {
    FractionThen(l, tail);
    BareSpells(l, tail);
    var after := Point(l) + tail;
    assert l.whole + after != "" && (l.whole + after)[0] != '+' && (l.whole + after)[0] != '-';
    hide Bare, Ends, Numeral, Denoted, ParseExponent, ParseFraction, Point, Spell;
    SpanStops(l.whole, after);
    SignStops(l.sign, l.whole + after);
  }

  /** A number is followed by nothing, or by `e` or `E`, a sign or none, and digits: with anything else
      after it the string ends in garbage, and without a digit the exponent is invalid. */
  lemma TailErrors(l: Literal, tail: string)
    requires Bare(l) && Ends(l, tail) && tail != ""
    ensures var p := ParseTrimmed(Spell(l) + tail);
            if tail[0] != 'e' && tail[0] != 'E' then p == Malformed(TrailingGarbage)
            else
              var digits := tail[1 + |Sign(tail[1..])|..];
              && (p == Malformed(InvalidExponent) <==> Stops(digits))
              && (p == Malformed(TrailingGarbage) <==> !Stops(digits) && !AllDigits(digits))
              && (p.Parsed? <==> digits != "" && AllDigits(digits))
  {
    NumberThen(l, tail);
    hide Numeral, Denoted;
    var digits := tail[1 + |Sign(tail[1..])|..];
    assert AllDigits(digits) ==> Span(digits) == |digits|;
  }

  lemma NumberIsValid(l: Literal, tail: string)
    requires Bare(l) && Ends(l, tail)
    ensures ParseTrimmed(Spell(l) + tail) != Malformed(InvalidNumber)
  {
    NumberThen(l, tail);
    hide Numeral, Denoted, ParseTrimmed;
  }

  lemma EmptyError(s: string)
    ensures ParseTrimmed(s) == Malformed(EmptyString) <==> s == ""
  {
    hide Numeral, Denoted, Span;
  }

  /** Without a number at its front a string is empty or invalid. */
  lemma FrontErrors(s: string)
    ensures ParseTrimmed(s) == Malformed(EmptyString) <==> s == ""
    ensures ParseTrimmed(s) == Malformed(InvalidNumber) <==>
            s != "" && forall l, tail | Bare(l) && Ends(l, tail) :: s != Spell(l) + tail
  {
    EmptyError(s);
    hide ParseTrimmed, Bare, Ends, Spell;
    forall l, tail | Bare(l) && Ends(l, tail) && s == Spell(l) + tail
      ensures ParseTrimmed(s) != Malformed(InvalidNumber)
    {
      NumberIsValid(l, tail);
    }
    if s != "" && ParseTrimmed(s) != Malformed(InvalidNumber) {
      var l, tail := Front(s);
    }
  }

  /** A string is a sign or none, digits or none, and what comes after them. */
  lemma Cut(s: string) returns (sign: string, whole: string, after: string)
    requires s != ""
    ensures s == sign + (whole + after) && IsSign(sign) && AllDigits(whole) && Stops(after)
    ensures ParseTrimmed(s) == ParseFraction(sign, whole, after)
  {
    hide ParseFraction, Sign, Span, AllDigits;
    sign := Sign(s);
    var rest := s[|sign|..];
    var n := Span(rest);
    whole, after := rest[..n], rest[n..];
    Rejoined(s, |sign|, n);
    assert s[..|sign|] == sign;
  }

  lemma Rejoined(s: string, k: nat, n: nat)
    requires k + n <= |s|
    ensures s == s[..k] + (s[k..][..n] + s[k..][n..])
  {
  }

  lemma Front(s: string) returns (l: Literal, tail: string)
    requires s != "" && ParseTrimmed(s) != Malformed(InvalidNumber)
    ensures Bare(l) && Ends(l, tail) && s == Spell(l) + tail
  {
    hide ParseTrimmed, ParseFraction, Span, Spell, Point, Ends;
    var sign, whole, after := Cut(s);
    l, tail := FrontFraction(sign, whole, after);
    BareSpells(l, tail);
  }

  lemma FrontFraction(sign: string, whole: string, after: string) returns (l: Literal, tail: string)
    requires IsSign(sign) && AllDigits(whole) && Stops(after)
    requires ParseFraction(sign, whole, after) != Malformed(InvalidNumber)
    ensures Bare(l) && Ends(l, tail) && l.sign == sign && l.whole == whole && Point(l) + tail == after
  {
    hide Numeral, Denoted, ParseExponent;
    if StartsWithPoint(after) {
      var n := Span(after[1..]);
      var frac := after[1..][..n];
      l, tail := Literal(sign, whole, Some(frac), None), after[1..][n..];
      assert after == "." + frac + tail;
    } else {
      l, tail := Literal(sign, whole, None, None), after;
      assert Span("") == 0;
    }
  }

  // ---------- Printing ----------

  function ToString(d: Decimal): string {
    if d.coef == 0 then "0"
    else
      var sign := if d.coef < 0 then "-" else "";
      var digits := DigitsOf(AbsInt(d.coef));
      if d.exp == 0 then sign + digits
      else if d.exp > 0 then sign + digits + Zeros(d.exp)
      else
        var point := |digits| + d.exp;
        if point > 0 then sign + (digits[..point] + "." + digits[point..])
        else sign + ("0." + Zeros(-point) + digits)
  }

  /** The literal that `ToString` writes. */
  function Printed(d: Decimal): (l: Literal)
    ensures WellFormed(l)
  {
    if d.coef == 0 then Literal("", "0", None, None)
    else
      var sign := if d.coef < 0 then "-" else "";
      var digits := DigitsOf(AbsInt(d.coef));
      if d.exp >= 0 then Literal(sign, digits + Zeros(d.exp), None, None)
      else
        var point := |digits| + d.exp;
        if point > 0 then Literal(sign, digits[..point], Some(digits[point..]), None)
        else Literal(sign, "0", Some(Zeros(-point) + digits), None)
  }

  lemma PrintedSpells(d: Decimal)
    ensures Spell(Printed(d)) == ToString(d)
  {
    hide Zeros, DigitsOf;
    if d.coef != 0 {
      var sign, digits := Printed(d).sign, DigitsOf(AbsInt(d.coef));
      if d.exp >= 0 {
        assert d.exp == 0 ==> Zeros(0) == "";
        assert sign + digits + Zeros(d.exp) == sign + (digits + Zeros(d.exp) + ("" + ""));
      } else {
        var point := |digits| + d.exp;
        if point > 0 {
          assert digits[..point] + "." + digits[point..] == digits[..point] + ("." + digits[point..] + "");
        } else {
          assert "0." + Zeros(-point) + digits == "0" + ("." + (Zeros(-point) + digits) + "");
        }
      }
    }
  }

  lemma {:induction false} PaddedRight(digits: string, n: nat)
    requires AllDigits(digits)
    ensures AllDigits(digits + Zeros(n)) && Numeral(digits + Zeros(n)) == Numeral(digits) * Pow10(n)
  {
    NumeralConcat(digits, Zeros(n));
    ZerosSpellZero(n);
  }

  lemma {:induction false} PaddedLeft(digits: string, n: nat)
    requires AllDigits(digits)
    ensures AllDigits("0" + (Zeros(n) + digits)) && Numeral("0" + (Zeros(n) + digits)) == Numeral(digits)
  {
    NumeralConcat(Zeros(n), digits);
    ZerosSpellZero(n);
    NumeralConcat("0", Zeros(n) + digits);
    assert Numeral("0") == 0 by { assert "0"[..0] == ""; }
    hide Pow10, Zeros;
  }

  /** The digits of the literal, read as one number. */
  lemma PrintedDigits(d: Decimal)
    requires d.coef != 0
    ensures var l := Printed(d);
            && AllDigits(l.whole + FracOf(l)) && l.whole != ""
            && Numeral(l.whole + FracOf(l)) == AbsInt(d.coef) * Pow10(if d.exp > 0 then d.exp else 0)
            && |FracOf(l)| == (if d.exp < 0 then -d.exp else 0)
  {
    hide Pow10, DigitsOf, Numeral, Zeros;
    var digits, l := DigitsOf(AbsInt(d.coef)), Printed(d);
    DigitsSpell(AbsInt(d.coef));
    One();
    if d.exp >= 0 {
      PaddedRight(digits, d.exp);
      assert l.whole + FracOf(l) == digits + Zeros(d.exp);
    } else if |digits| + d.exp > 0 {
      assert l.whole + FracOf(l) == digits;
    } else {
      PaddedLeft(digits, -(|digits| + d.exp));
    }
  }

  /** The identical decimal, unless the exponent had to be written out as zeros. */
  lemma PrintedMeans(d: Decimal)
    ensures Meaning(Printed(d)) ==
            if d.coef == 0 then Decimal(0, 0)
            else if d.exp > 0 then Decimal(d.coef * Pow10(d.exp), 0)
            else d
  {
    if d.coef == 0 {
      assert "0"[..0] == "" && "0" + "" == "0";
    } else {
      One();
      hide Pow10, DigitsOf, Numeral, Zeros;
      PrintedDigits(d);
      SignedProduct(d.coef, Pow10(if d.exp > 0 then d.exp else 0));
    }
  }

  lemma SignedProduct(x: int, p: nat)
    ensures x < 0 ==> -(AbsInt(x) * p) == x * p
  {
  }

  lemma PrintedIsTrim(d: Decimal)
    ensures Trim(ToString(d)) == ToString(d)
  {
    var s := ToString(d);
    PrintedEnds(d);
    hide ToString;
    assert !IsSpace(s[0]) && !IsSpace(s[|s| - 1]);
  }

  lemma PrintedEnds(d: Decimal)
    ensures var s := ToString(d); s != "" && (s[0] == '-' || IsDigit(s[0])) && IsDigit(s[|s| - 1])
  {
    hide Zeros, DigitsOf;
  }

  /** Nothing but digits, one point at most and a sign at the front is printed: no exponent. */
  lemma PrintedPlainly(d: Decimal)
    ensures forall i | 0 <= i < |ToString(d)| ::
              var c := ToString(d)[i]; IsDigit(c) || c == '.' || (i == 0 && c == '-' && d.coef < 0)
  {
    hide Zeros, DigitsOf;
  }

  /** What is printed reads back as the same number, and as the identical pair exactly when no
      positive exponent was written out and no zero lost its exponent. */
  lemma PrintParse(d: Decimal)
    ensures var p := Parse(ToString(d));
            && p.Parsed? && Value(p.d) == Value(d)
            && (p.d == d <==> (d.coef != 0 && d.exp <= 0) || d == Decimal(0, 0))
  {
    hide Scale, ParseTrimmed, ToString, Printed, Meaning;
    PrintedIsTrim(d);
    PrintedSpells(d);
    LiteralParses(Printed(d));
    PrintedMeans(d);
    if d.coef == 0 {
      PositiveValue(d);
      PositiveValue(Decimal(0, 0));
    } else if d.exp > 0 {
      Rescaled(d.coef, 0, d.exp);
    }
  }
}
