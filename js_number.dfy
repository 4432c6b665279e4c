/** JavaScript's global `parseFloat`: skip leading white space, then read the
    longest prefix that is a StrDecimalLiteral (an optional sign, then
    `Infinity` or digits with an optional fraction and exponent), ignoring
    whatever follows. No such prefix gives NaN, written `None` here. */
module JsNumber {
  import opened Wrappers
  import opened JsText

  /** A JavaScript number other than NaN. Finite values are exact rationals. */
  datatype Num = Finite(value: real) | PosInfinity | NegInfinity

  const InfinityName: string := "Infinity"

  predicate IsDigit(c: char) {
    '0' <= c <= '9'
  }

  predicate AllDigits(s: string) {
    forall i :: 0 <= i < |s| ==> IsDigit(s[i])
  }

  /** The longest run of decimal digits at the head of `s`. */
  function DigitPrefix(s: string): (d: string)
    ensures |d| <= |s| && d == s[..|d|] && AllDigits(d)
    ensures |d| < |s| ==> !IsDigit(s[|d|])
  {
    if s != [] && IsDigit(s[0]) then [s[0]] + DigitPrefix(s[1..]) else []
  }

  function DigitValue(c: char): nat
    requires IsDigit(c)
  {
    c as int - '0' as int
  }

  /** The value of a run of decimal digits, most significant first. */
  function DigitsValue(d: string): nat
    requires AllDigits(d)
  {
    if d == [] then 0 else 10 * DigitsValue(d[..|d| - 1]) + DigitValue(d[|d| - 1])
  }

  function Pow10(n: nat): (p: nat)
    ensures p >= 1
  {
    if n == 0 then 1 else 10 * Pow10(n - 1)
  }

  /** `m * 10^e` as an exact rational. */
  function Scaled(m: nat, e: int): real {
    if e >= 0 then (m * Pow10(e)) as real else m as real / Pow10(-e) as real
  }

  /** The exponent of an ExponentPart at the head of `s` (`e` or `E`, an
      optional sign, at least one digit); 0 when there is none, because then
      `parseFloat` stops before the `e`. */
  function ExponentOf(s: string): int {
    if |s| >= 2 && (s[0] == 'e' || s[0] == 'E') then
      var unsigned := if s[1] == '+' || s[1] == '-' then s[2..] else s[1..];
      var d := DigitPrefix(unsigned);
      if d == [] then 0 else if s[1] == '-' then -(DigitsValue(d) as int) else DigitsValue(d)
    else 0
  }

  /** The value of the longest StrUnsignedDecimalLiteral at the head of `s`. */
  function ParseUnsigned(s: string): Option<Num> {
    if InfinityName <= s then Some(PosInfinity) else DecimalDigits(s)
  }

  /** The value of the longest StrUnsignedDecimalLiteral made of digits at
      the head of `s`: whole part, optional fraction, optional exponent. */
  function DecimalDigits(s: string): Option<Num> {
    var whole := DigitPrefix(s);
    AfterWhole(whole, s[|whole|..])
  }

  /** The rest of the numeral once its whole part has been read: a point
      and the fraction's digits, if there is a point. */
  function AfterWhole(whole: string, afterWhole: string): Option<Num>
    requires AllDigits(whole)
  {
    if afterWhole != [] && afterWhole[0] == '.' then
      var fraction := DigitPrefix(afterWhole[1..]);
      NumeralOf(whole, fraction, afterWhole[1 + |fraction|..])
    else NumeralOf(whole, [], afterWhole)
  }

  /** A numeral with digits on neither side of the point is NaN; otherwise
      its digits are scaled by the exponent at the head of what follows. */
  function NumeralOf(whole: string, fraction: string, afterFraction: string): Option<Num>
    requires AllDigits(whole) && AllDigits(fraction)
  {
    if whole == [] && fraction == [] then None
    else
      assert AllDigits(whole + fraction);
      Some(Finite(Scaled(DigitsValue(whole + fraction), ExponentOf(afterFraction) - |fraction|)))
  }

  function Negated(n: Option<Num>): Option<Num> {
    match n
    case None => None
    case Some(Finite(v)) => Some(Finite(-v))
    case Some(PosInfinity) => Some(NegInfinity)
    case Some(NegInfinity) => Some(PosInfinity)
  }

  /** `parseFloat(s)`; `None` is NaN. */
  function ParseFloat(s: string): Option<Num> {
    var t := TrimStart(s);
    if t != [] && t[0] == '-' then Negated(ParseUnsigned(t[1..]))
    else if t != [] && t[0] == '+' then ParseUnsigned(t[1..])
    else ParseUnsigned(t)
  }

  /** The digits of `n` in decimal, most significant first, without leading
      zeros: the text a producer prints for a whole number. */
  function Decimal(n: nat): (d: string)
    ensures d != [] && AllDigits(d)
  {
    if n < 10 then ['0' + n as char] else Decimal(n / 10) + ['0' + (n % 10) as char]
  }

  lemma {:induction false} DecimalValue(n: nat)
    ensures DigitsValue(Decimal(n)) == n
  {
    if n >= 10 {
      var d := Decimal(n);
      assert d[..|d| - 1] == Decimal(n / 10);
      DecimalValue(n / 10);
    }
  }

  lemma DigitsConcat(a: string, b: string)
    requires AllDigits(a) && AllDigits(b)
    ensures AllDigits(a + b)
  {
  }

  lemma SplitLast(a: string, b: string)
    requires b != []
    ensures (a + b)[..|a + b| - 1] == a + b[..|b| - 1]
    ensures (a + b)[|a + b| - 1] == b[|b| - 1]
  {
  }

  /** The value of two digit runs written one after the other. */
  lemma {:induction false} DigitsValueConcat(a: string, b: string)
    requires AllDigits(a) && AllDigits(b)
    ensures AllDigits(a + b)
    ensures DigitsValue(a + b) == DigitsValue(a) * Pow10(|b|) + DigitsValue(b)
  {
    DigitsConcat(a, b);
    if b == [] {
      assert a + b == a;
    } else {
      var b' := b[..|b| - 1];
      SplitLast(a, b);
      DigitsValueConcat(a, b');
      var x, y, p, c := DigitsValue(a), DigitsValue(b'), Pow10(|b'|), DigitValue(b[|b| - 1]);
      assert DigitsValue(a + b) == 10 * DigitsValue(a + b') + c;
      ShiftDigit(x, y, p, c);
    }
  }

  lemma ShiftDigit(x: int, y: int, p: int, c: int)
    ensures 10 * (x * p + y) + c == x * (10 * p) + (10 * y + c)
  {
  }

  lemma ScaledDown(m: nat, n: nat)
    ensures Scaled(m, -(n as int)) == m as real / Pow10(n) as real
  {
    if n == 0 {
      assert Scaled(m, 0) == (m * 1) as real;
    }
  }

  lemma ShiftPoint(w: nat, f: nat, p: nat)
    requires p >= 1
    ensures (w * p + f) as real / p as real == w as real + f as real / p as real
  {
    assert (w * p + f) as real == w as real * p as real + f as real;
  }

  /** `DigitPrefix` stops at the first character that is not a digit. */
  lemma {:induction false} DigitPrefixOf(d: string, rest: string)
    requires AllDigits(d)
    requires rest == [] || !IsDigit(rest[0])
    ensures DigitPrefix(d + rest) == d
  {
    if d == [] {
      assert d + rest == rest;
    } else {
      assert (d + rest)[1..] == d[1..] + rest;
      DigitPrefixOf(d[1..], rest);
      assert [d[0]] + d[1..] == d;
    }
  }

  /** `rest` cannot continue a numeral whose point has been read: it is
      empty or starts with neither a digit nor an exponent mark. */
  predicate EndsFraction(rest: string) {
    rest == [] || (!IsDigit(rest[0]) && rest[0] != 'e' && rest[0] != 'E')
  }

  /** `rest` cannot continue a run of digits either: it does not start with
      a point. */
  predicate EndsInteger(rest: string) {
    EndsFraction(rest) && (rest == [] || rest[0] != '.')
  }

  /** No exponent opens a text that ends a numeral. */
  lemma NoExponent(rest: string)
    requires EndsFraction(rest)
    ensures ExponentOf(rest) == 0
  {
  }

  lemma NotInfinity(s: string)
    requires s != [] && s[0] != 'I'
    ensures !(InfinityName <= s)
  {
    assert InfinityName[0] == 'I';
  }

  /** The unsigned part of a run of digits followed by text that cannot
      continue it. */
  lemma UnsignedIntegerThen(whole: string, rest: string)
    requires AllDigits(whole) && whole != [] && EndsInteger(rest)
    ensures ParseUnsigned(whole + rest) == Some(Finite(DigitsValue(whole) as real))
  {
    var s := whole + rest;
    assert s[0] == whole[0];
    NotInfinity(s);
    DigitPrefixOf(whole, rest);
    assert s[|whole|..] == rest;
    assert DecimalDigits(s) == NumeralOf(whole, [], rest);
    NoExponent(rest);
    assert whole + [] == whole;
    assert Scaled(DigitsValue(whole), 0) == (DigitsValue(whole) * 1) as real;
  }

  lemma Reassociate(a: string, b: string, c: string, d: string)
    ensures a + b + c + d == a + (b + c + d)
  {
  }

  /** A point, a fraction's digits and text that cannot continue them. */
  lemma {:induction false} AfterPoint(whole: string, fraction: string, rest: string)
    requires AllDigits(whole) && AllDigits(fraction) && EndsFraction(rest)
    ensures AfterWhole(whole, "." + fraction + rest) == NumeralOf(whole, fraction, rest)
  {
    var tail := "." + fraction + rest;
    assert tail[1..] == fraction + rest;
    DigitPrefixOf(fraction, rest);
    assert tail[1 + |fraction|..] == rest;
  }

  /** Digits followed by a point: not `Infinity`, and the whole part ends
      at the point. */
  lemma WholeThenPoint(whole: string, tail: string)
    requires AllDigits(whole) && tail != [] && tail[0] == '.'
    ensures !(InfinityName <= whole + tail)
    ensures DecimalDigits(whole + tail) == AfterWhole(whole, tail)
  {
    var s := whole + tail;
    assert s[0] == if whole != [] then whole[0] else '.';
    NotInfinity(s);
    DigitPrefixOf(whole, tail);
    assert s[|whole|..] == tail;
  }

  /** The unsigned part of a numeral `whole.fraction` followed by text that
      cannot continue it. */
  lemma UnsignedDecimalThen(whole: string, fraction: string, rest: string)
    requires AllDigits(whole) && AllDigits(fraction)
    requires whole != [] || fraction != []
    requires EndsFraction(rest)
    ensures AllDigits(whole + fraction)
    ensures ParseUnsigned(whole + ("." + fraction + rest))
            == Some(Finite(Scaled(DigitsValue(whole + fraction), -|fraction|)))
  {
    DigitsConcat(whole, fraction);
    var tail := "." + fraction + rest;
    WholeThenPoint(whole, tail);
    AfterPoint(whole, fraction, rest);
    NoExponent(rest);
  }

  /** `parseFloat` leaves a text that starts with no white space as it is
      before reading the sign. */
  lemma TrimStartOfNonBlank(s: string)
    requires s != [] && !IsWhiteSpace(s[0])
    ensures TrimStart(s) == s
  {
  }

  /** The value a decimal numeral `whole.fraction` denotes. */
  function NumeralValue(whole: string, fraction: string): real
    requires AllDigits(whole) && AllDigits(fraction)
  {
    DigitsValue(whole) as real + DigitsValue(fraction) as real / Pow10(|fraction|) as real
  }

  /** Reading the digits of both parts as one run and shifting the point
      back by the length of the fraction gives the numeral's value. */
  lemma DecimalScaled(whole: string, fraction: string)
    requires AllDigits(whole) && AllDigits(fraction)
    ensures AllDigits(whole + fraction)
    ensures Scaled(DigitsValue(whole + fraction), -|fraction|) == NumeralValue(whole, fraction)
  {
    DigitsValueConcat(whole, fraction);
    var w, f, p := DigitsValue(whole), DigitsValue(fraction), Pow10(|fraction|);
    ScaledDown(DigitsValue(whole + fraction), |fraction|);
    assert DigitsValue(whole + fraction) == w * p + f;
    ShiftPoint(w, f, p);
  }

  /** `parseFloat` reads the longest numeral at the head of the text and
      ignores whatever follows it: a run of digits followed by text that
      cannot continue it reads as the run's value. */
  lemma ParseFloatIgnoresRest(whole: string, rest: string)
    requires AllDigits(whole) && whole != [] && EndsInteger(rest)
    ensures ParseFloat(whole + rest) == Some(Finite(DigitsValue(whole) as real))
  {
    var s := whole + rest;
    assert s[0] == whole[0];
    TrimStartOfNonBlank(s);
    UnsignedIntegerThen(whole, rest);
  }

  /** The same for a numeral `whole.fraction` (either part may be empty,
      not both): what follows it is ignored. */
  lemma ParseFloatDecimalIgnoresRest(whole: string, fraction: string, rest: string)
    requires AllDigits(whole) && AllDigits(fraction)
    requires whole != [] || fraction != []
    requires EndsFraction(rest)
    ensures ParseFloat(whole + "." + fraction + rest) == Some(Finite(NumeralValue(whole, fraction)))
  {
    var s := whole + ("." + fraction + rest);
    Reassociate(whole, ".", fraction, rest);
    assert s[0] == (if whole != [] then whole[0] else '.');
    TrimStartOfNonBlank(s);
    UnsignedDecimalThen(whole, fraction, rest);
    DecimalScaled(whole, fraction);
  }

  /** A numeral `whole.fraction` (either part may be empty, not both) reads
      as its exact decimal value. */
  lemma ParseFloatDecimal(whole: string, fraction: string)
    requires AllDigits(whole) && AllDigits(fraction)
    requires whole != [] || fraction != []
    ensures ParseFloat(whole + "." + fraction) == Some(Finite(NumeralValue(whole, fraction)))
  {
    ParseFloatDecimalIgnoresRest(whole, fraction, []);
    assert whole + "." + fraction + [] == whole + "." + fraction;
  }

  /** A run of digits reads as its value. */
  lemma ParseFloatInteger(whole: string)
    requires AllDigits(whole) && whole != []
    ensures ParseFloat(whole) == Some(Finite(DigitsValue(whole) as real))
  {
    ParseFloatIgnoresRest(whole, []);
    assert whole + [] == whole;
  }

  /** A whole number printed in decimal reads back as itself. */
  lemma ParseFloatDecimalNat(n: nat)
    ensures ParseFloat(Decimal(n)) == Some(Finite(n as real))
  {
    ParseFloatInteger(Decimal(n));
    DecimalValue(n);
  }

  /** `parseFloat` skips leading white space. */
  lemma ParseFloatSkipsWhiteSpace(ws: string, s: string)
    requires AllWhiteSpace(ws)
    ensures ParseFloat(ws + s) == ParseFloat(s)
  {
    TrimStartSkipsWhiteSpace(ws, s);
  }

  /** A leading minus sign negates the number that follows it (a second
      sign is not allowed, so that case is excluded). */
  lemma ParseFloatMinus(s: string)
    requires s == [] || (!IsWhiteSpace(s[0]) && s[0] != '-' && s[0] != '+')
    ensures ParseFloat("-" + s) == Negated(ParseFloat(s))
  {
    assert ("-" + s)[1..] == s;
    assert TrimStart(s) == s;
  }

  /** When NaN comes out: exactly when, after the white space and the sign,
      the text starts neither with `Infinity`, nor with a digit, nor with a
      point followed by a digit. */
  lemma ParseUnsignedIsNaN(s: string)
    ensures ParseUnsigned(s) == None
            <==> !(InfinityName <= s) && (s == [] || !IsDigit(s[0]))
                 && !(|s| >= 2 && s[0] == '.' && IsDigit(s[1]))
  {
    if !(InfinityName <= s) && (s == [] || !IsDigit(s[0])) {
      assert DigitPrefix(s) == [];
      assert s[0..] == s;
      if |s| >= 2 && s[0] == '.' {
        assert DigitPrefix(s[1..]) == [] <==> !IsDigit(s[1]);
      }
    }
  }
}
