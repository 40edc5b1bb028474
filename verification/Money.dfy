/** Money on the wire, and the agent's view of it: decimal strings and minor units. */
module Money {
  import opened Wrappers
  import opened Texts

  // ----- `minorUnitExponent`

  function Upper(t: Text): Text {
    seq(|t|, i requires 0 <= i < |t| => if U('a') <= t[i] <= U('z') then t[i] - 32 else t[i])
  }

  function Exponent(currency: Text): nat {
    var code := Upper(currency);
    if code == Ascii("JPY") || code == Ascii("KRW") || code == Ascii("ISK") then 0
    else if code == Ascii("BHD") || code == Ascii("KWD") || code == Ascii("TND") then 3
    else 2
  }

  /** Three capital letters, written in either case. */
  predicate IsCurrency(t: Text, a: Unit, b: Unit, c: Unit) {
    && |t| == 3
    && (t[0] == a || t[0] == a + 32) && (t[1] == b || t[1] == b + 32) && (t[2] == c || t[2] == c + 32)
  }

  lemma InCapitals(t: Text, a: Unit, b: Unit, c: Unit)
    requires 65 <= a <= 90 && 65 <= b <= 90 && 65 <= c <= 90
    ensures Upper(t) == [a, b, c] <==> IsCurrency(t, a, b, c)
  {
    if |t| == 3 {
      assert Upper(t) == [Upper(t)[0], Upper(t)[1], Upper(t)[2]];
    }
  }

  /** The yen, the won and the Icelandic krona have no minor unit; three dinars have thousandths; all others cents. */
  lemma Exponents(t: Text)
    ensures Exponent(t) ==
      if IsCurrency(t, 74, 80, 89) || IsCurrency(t, 75, 82, 87) || IsCurrency(t, 73, 83, 75) then 0
      else if IsCurrency(t, 66, 72, 68) || IsCurrency(t, 75, 87, 68) || IsCurrency(t, 84, 78, 68) then 3
      else 2
  {
    CurrencyCodes();
    InCapitals(t, 74, 80, 89);
    InCapitals(t, 75, 82, 87);
    InCapitals(t, 73, 83, 75);
    InCapitals(t, 66, 72, 68);
    InCapitals(t, 75, 87, 68);
    InCapitals(t, 84, 78, 68);
    hide Upper, IsCurrency, Ascii;
  }

  lemma CurrencyCodes()
    ensures Ascii("JPY") == [74, 80, 89] && Ascii("KRW") == [75, 82, 87] && Ascii("ISK") == [73, 83, 75]
    ensures Ascii("BHD") == [66, 72, 68] && Ascii("KWD") == [75, 87, 68] && Ascii("TND") == [84, 78, 68]
  {
  }

  // ----- `toWire` and `fromWire`, for an amount with a number of minor digits

  function Zeros(n: nat): (r: Text)
    ensures |r| == n && AllDigits(r)
  {
    seq(n, _ => U('0'))
  }

  function PadStart(t: Text, width: nat): Text {
    if |t| >= width then t else Zeros(width - |t|) + t
  }

  function PadEnd(t: Text, width: nat): Text {
    if |t| >= width then t else t + Zeros(width - |t|)
  }

  function Magnitude(m: int): nat {
    if m < 0 then -m else m
  }

  function ToWire(minorUnits: int, exponent: nat): Text {
    var digits := Digits(Magnitude(minorUnits));
    var amount :=
      if exponent == 0 then digits
      else
        var padded := PadStart(digits, exponent + 1);
        var cut := |padded| - exponent;
        padded[..cut] + [U('.')] + padded[cut..];
    if minorUnits < 0 then [U('-')] + amount else amount
  }

  /** What `^-?\d+(\.\d+)?$` and the splitting after it make of an amount. */
  datatype Decimal = Decimal(negative: bool, whole: Text, fraction: Text)

  predicate WellFormed(d: Decimal) {
    d.whole != [] && AllDigits(d.whole) && AllDigits(d.fraction)
  }

  /** The matching of what is left after the sign. */
  function Unsigned(negative: bool, t: Text, separators: set<Unit>): (r: Option<Decimal>)
    ensures r.Some? ==> WellFormed(r.value)
  {
    var n := DigitRun(t);
    if n == 0 then None
    else if n == |t| then
      assert t[..n] == t;
      Some(Decimal(negative, t, []))
    else
      var rest := t[n + 1..];
      if t[n] in separators && rest != [] && DigitRun(rest) == |rest| then
        assert rest[..|rest|] == rest;
        Some(Decimal(negative, t[..n], rest))
      else None
  }

  /** `^-?\d+(s\d+)?$` for a separator `s` out of `separators`. */
  function Match(t: Text, separators: set<Unit>): (r: Option<Decimal>)
    ensures r.Some? ==> WellFormed(r.value)
  {
    if t != [] && t[0] == U('-') then Unsigned(true, t[1..], separators) else Unsigned(false, t, separators)
  }

  const POINT: set<Unit> := {U('.')}
  const POINT_OR_COMMA: set<Unit> := {U('.'), U(',')}

  function Signed(negative: bool, magnitude: nat): int {
    var m: int := magnitude;
    if negative then -m else m
  }

  function FromWire(amount: Text, exponent: nat): Option<int> {
    match Match(amount, POINT)
    case None => None
    case Some(d) =>
      if |d.fraction| > exponent then None
      else Some(Signed(d.negative, Value(d.whole + PadEnd(d.fraction, exponent))))
  }

  // ----- what an amount says

  function Sign(negative: bool): Text {
    if negative then [U('-')] else []
  }

  function Tail(d: Decimal, separator: Unit): Text {
    if d.fraction == [] then [] else [separator] + d.fraction
  }

  /** The grammar of amounts, written out. */
  function Spelled(d: Decimal, separator: Unit): Text {
    Sign(d.negative) + (d.whole + Tail(d, separator))
  }

  lemma UnsignedComplete(d: Decimal, separator: Unit, separators: set<Unit>)
    requires WellFormed(d) && separator in separators && !IsDigit(separator)
    ensures Unsigned(d.negative, d.whole + Tail(d, separator), separators) == Some(d)
  {
    var tail := Tail(d, separator);
    var t := d.whole + tail;
    DigitsEnd(d.whole, tail);
    DigitsEnd(d.fraction, []);
    assert d.fraction + [] == d.fraction;
    assert t[..|d.whole|] == d.whole && t[|d.whole|..] == tail;
    if tail == [] {
      assert t == d.whole;
    } else {
      assert t[|d.whole|] == separator && t[|d.whole| + 1..] == tail[1..] == d.fraction;
    }
  }

  lemma MatchComplete(d: Decimal, separator: Unit, separators: set<Unit>)
    requires WellFormed(d) && separator in separators && !IsDigit(separator)
    ensures Match(Spelled(d, separator), separators) == Some(d)
  {
    UnsignedComplete(d, separator, separators);
    hide Unsigned;
    var t, rest := Spelled(d, separator), d.whole + Tail(d, separator);
    assert d.whole[0] in d.whole && rest[0] == d.whole[0];
    if d.negative {
      assert t[0] == U('-') && t[1..] == rest;
    } else {
      assert t == rest;
    }
  }

  lemma UnsignedSound(negative: bool, t: Text, separators: set<Unit>)
    requires separators != {} && Unsigned(negative, t, separators).Some?
    ensures var d := Unsigned(negative, t, separators).value;
      d.negative == negative && exists s :: s in separators && d.whole + Tail(d, s) == t
  {
    var d, n := Unsigned(negative, t, separators).value, DigitRun(t);
    var s :| s in separators && (n < |t| ==> s == t[n]);
    if n == |t| {
      assert d.whole + Tail(d, s) == t;
    } else {
      assert t == t[..n] + ([t[n]] + t[n + 1..]);
    }
  }

  lemma {:induction false} MatchSound(t: Text, separators: set<Unit>)
    requires separators != {} && Match(t, separators).Some?
    ensures exists s :: s in separators && Spelled(Match(t, separators).value, s) == t
  {
    hide Unsigned;
    var negative := t != [] && t[0] == U('-');
    var rest := if negative then t[1..] else t;
    UnsignedSound(negative, rest, separators);
    var d := Match(t, separators).value;
    var s :| s in separators && d.whole + Tail(d, s) == rest;
    assert t == Sign(negative) + rest;
  }

  /** The pattern accepts exactly the spellings, and reads each in the only way there is. */
  lemma MatchExact(amount: Text, d: Decimal)
    ensures Match(amount, POINT) == Some(d) <==> WellFormed(d) && Spelled(d, U('.')) == amount
  {
    hide Match, Spelled;
    if Match(amount, POINT).Some? {
      MatchSound(amount, POINT);
    }
    if WellFormed(d) {
      MatchComplete(d, U('.'), POINT);
    }
  }

  function Pow10(n: nat): nat {
    if n == 0 then 1 else 10 * Pow10(n - 1)
  }

  lemma {:induction false} ValueAppend(a: Text, b: Text)
    requires AllDigits(a) && AllDigits(b)
    ensures AllDigits(a + b) && Value(a + b) == Value(a) * Pow10(|b|) + Value(b)
  {
    if b == [] {
      assert a + b == a;
    } else {
      var n := |b| - 1;
      ValueAppend(a, b[..n]);
      assert (a + b)[..|a + b| - 1] == a + b[..n];
      assert (a + b)[|a + b| - 1] == b[n];
      assert Value(a) * Pow10(|b|) == 10 * (Value(a) * Pow10(n));
    }
  }

  lemma {:induction false} ZerosAreNothing(n: nat)
    ensures Value(Zeros(n)) == 0
  {
    if n > 0 {
      assert Zeros(n)[..n - 1] == Zeros(n - 1);
      ZerosAreNothing(n - 1);
    }
  }

  /** The minor units an amount stands for, by its digits: nothing is rounded. */
  function Worth(d: Decimal, exponent: nat): int
    requires WellFormed(d) && |d.fraction| <= exponent
  {
    Signed(d.negative, Value(d.whole) * Pow10(exponent) + Value(d.fraction) * Pow10(exponent - |d.fraction|))
  }

  /** `fromWire` refuses exactly the malformed and the over-precise, and gives every other amount its worth. */
  lemma {:induction false} FromWireExact(amount: Text, exponent: nat)
    ensures FromWire(amount, exponent).None? <==>
      forall d | WellFormed(d) && Spelled(d, U('.')) == amount :: |d.fraction| > exponent
    ensures forall d | WellFormed(d) && Spelled(d, U('.')) == amount && |d.fraction| <= exponent ::
      FromWire(amount, exponent) == Some(Worth(d, exponent))
  {
    if Match(amount, POINT).Some? {
      MatchExact(amount, Match(amount, POINT).value);
    }
    forall d | WellFormed(d) && Spelled(d, U('.')) == amount
      ensures Match(amount, POINT) == Some(d)
      ensures |d.fraction| <= exponent ==> FromWire(amount, exponent) == Some(Worth(d, exponent))
    {
      MatchExact(amount, d);
      if |d.fraction| <= exponent {
        PaddedWorth(d, exponent);
      }
    }
  }

  lemma PaddedWorth(d: Decimal, exponent: nat)
    requires WellFormed(d) && |d.fraction| <= exponent
    ensures Signed(d.negative, Value(d.whole + PadEnd(d.fraction, exponent))) == Worth(d, exponent)
  {
    var zeros := Zeros(exponent - |d.fraction|);
    ValueAppend(d.fraction, zeros);
    ZerosAreNothing(|zeros|);
    ValueAppend(d.whole, d.fraction + zeros);
    assert d.fraction + [] == d.fraction;
    assert |d.fraction| == exponent ==> zeros == [];
    assert PadEnd(d.fraction, exponent) == d.fraction + zeros;
  }

  // ----- there and back

  lemma PaddedValue(n: nat, width: nat)
    requires width > 0
    ensures AllDigits(PadStart(Digits(n), width)) && Value(PadStart(Digits(n), width)) == n
    ensures |PadStart(Digits(n), width)| > width ==> PadStart(Digits(n), width)[0] != U('0')
  {
    var digits := Digits(n);
    ValueOfDigits(n);
    NoLeadingZero(n);
    if |digits| < width {
      var zeros := Zeros(width - |digits|);
      ValueAppend(zeros, digits);
      ZerosAreNothing(|zeros|);
    }
  }

  /** How an amount of money is written: every minor digit, and no more whole digits than it takes. */
  lemma WireShape(minorUnits: int, exponent: nat) returns (d: Decimal)
    ensures WellFormed(d) && Spelled(d, U('.')) == ToWire(minorUnits, exponent)
    ensures |d.fraction| == exponent && d.negative == (minorUnits < 0)
    ensures d.whole + d.fraction == PadStart(Digits(Magnitude(minorUnits)), exponent + 1)
    ensures Value(d.whole + d.fraction) == Magnitude(minorUnits)
    ensures |d.whole| > 1 ==> d.whole[0] != U('0')
  {
    var padded := PadStart(Digits(Magnitude(minorUnits)), exponent + 1);
    PaddedValue(Magnitude(minorUnits), exponent + 1);
    assert |padded| >= exponent + 1;
    hide Value, Digits, PadStart, ToWire, Spelled, Magnitude;
    var cut := |padded| - exponent;
    d := Decimal(minorUnits < 0, padded[..cut], padded[cut..]);
    CutDigits(padded, cut);
    assert d.whole + d.fraction == padded;
    WireText(minorUnits, exponent, d);
  }

  lemma CutDigits(t: Text, cut: nat)
    requires AllDigits(t) && cut <= |t|
    ensures AllDigits(t[..cut]) && AllDigits(t[cut..]) && t[..cut] + t[cut..] == t
  {
    assert forall u | u in t[..cut] || u in t[cut..] :: u in t;
  }

  lemma WireText(minorUnits: int, exponent: nat, d: Decimal)
    requires d.whole + d.fraction == PadStart(Digits(Magnitude(minorUnits)), exponent + 1)
    requires |d.fraction| == exponent && d.negative == (minorUnits < 0)
    ensures Spelled(d, U('.')) == ToWire(minorUnits, exponent)
  {
    hide Digits, Magnitude;
    var padded, amount := d.whole + d.fraction, d.whole + Tail(d, U('.'));
    assert padded[..|d.whole|] == d.whole && padded[|d.whole|..] == d.fraction;
    if exponent == 0 {
      assert amount == padded;
    } else {
      Regroup(d.whole, [U('.')], d.fraction);
    }
    assert Spelled(d, U('.')) == if d.negative then [U('-')] + amount else amount;
  }

  lemma {:induction false} NoLeadingZero(n: nat)
    ensures n > 0 ==> Digits(n)[0] != U('0')
    ensures |Digits(n)| > 1 ==> n > 0
  {
    if n >= 10 {
      NoLeadingZero(n / 10);
    }
  }

  /** Every amount of money comes back from the wire as it was. */
  lemma RoundTrip(minorUnits: int, exponent: nat)
    ensures FromWire(ToWire(minorUnits, exponent), exponent) == Some(minorUnits)
  {
    var d := WireShape(minorUnits, exponent);
    MatchExact(ToWire(minorUnits, exponent), d);
  }

  /**
   * Reading and writing back gives the one normal form of an amount's worth: two amounts have it in
   * common just when they are worth the same, and it is its own.
   */
  lemma NormalForm(a: Text, b: Text, exponent: nat)
    requires FromWire(a, exponent).Some? && FromWire(b, exponent).Some?
    ensures var m, n := FromWire(a, exponent).value, FromWire(b, exponent).value;
      && (ToWire(m, exponent) == ToWire(n, exponent) <==> m == n)
      && FromWire(ToWire(m, exponent), exponent) == Some(m)
  {
    RoundTrip(FromWire(a, exponent).value, exponent);
    RoundTrip(FromWire(b, exponent).value, exponent);
  }

  // ----- the agent's view: `money` and `minorUnitsFrom`

  predicate IsMinorUnits(raw: Text) {
    var digits := if raw != [] && raw[0] == U('-') then raw[1..] else raw;
    digits != [] && AllDigits(digits)
  }

  /** `money` of a string. */
  function MoneyOfText(minorUnits: Text): Text {
    var raw := Trim(minorUnits);
    if !IsMinorUnits(raw) then raw
    else
      var negative := raw[0] == U('-');
      var digits := PadStart(if negative then raw[1..] else raw, 3);
      var cut := |digits| - 2;
      Sign(negative) + (digits[..cut] + [U('.')] + digits[cut..])
  }

  /** `money` of a whole number. */
  function MoneyOf(minorUnits: int): Text {
    MoneyOfText(IntText(minorUnits))
  }

  function MinorUnitsFrom(decimal: Text): Option<Text> {
    match Match(Trim(decimal), POINT_OR_COMMA)
    case None => None
    case Some(d) => if |d.fraction| > 2 then None else Some(Sign(d.negative) + (d.whole + PadEnd(d.fraction, 2)))
  }

  /** `BigInt` of a signed string of digits. */
  function IntValue(t: Text): int
    requires IsMinorUnits(t)
  {
    if t[0] == U('-') then Signed(true, Value(t[1..])) else Value(t)
  }

  lemma TrimNothing(t: Text)
    requires t != [] ==> !IsSpace(t[0]) && !IsSpace(t[|t| - 1])
    ensures Trim(t) == t
  {
  }

  lemma IntTextShape(n: int)
    ensures var t, digits := IntText(n), Digits(Magnitude(n));
      && IsMinorUnits(t) && Trim(t) == t && (t[0] == U('-') <==> n < 0)
      && (if n < 0 then t[1..] else t) == digits
  {
    var t, digits := IntText(n), Digits(Magnitude(n));
    assert digits[0] in digits && digits[|digits| - 1] in digits;
    assert n < 0 ==> t[1..] == digits;
    TrimNothing(t);
  }

  lemma MoneyHasTwoDigits(minorUnits: int)
    ensures MoneyOf(minorUnits) == ToWire(minorUnits, 2)
  {
    IntTextShape(minorUnits);
    hide Digits, Trim, IsMinorUnits, IntText;
    var padded := PadStart(Digits(Magnitude(minorUnits)), 3);
    var cut := |padded| - 2;
    assert Sign(false) + (padded[..cut] + [U('.')] + padded[cut..]) == padded[..cut] + [U('.')] + padded[cut..];
  }

  /** How many digits there are behind the point is read off an amount of money. */
  lemma WireDigits(minorUnits: int, exponent: nat, other: nat)
    requires ToWire(minorUnits, exponent) == ToWire(minorUnits, other)
    ensures exponent == other
  {
    var d := WireShape(minorUnits, exponent);
    var e := WireShape(minorUnits, other);
    MatchExact(ToWire(minorUnits, exponent), d);
    MatchExact(ToWire(minorUnits, other), e);
  }

  /** What the agent is shown is what the wire carries in exactly the currencies with two minor digits. */
  lemma MoneyIsWire(minorUnits: int, currency: Text)
    ensures MoneyOf(minorUnits) == ToWire(minorUnits, Exponent(currency)) <==> Exponent(currency) == 2
  {
    MoneyHasTwoDigits(minorUnits);
    hide MoneyOf, ToWire, Exponent;
    if ToWire(minorUnits, 2) == ToWire(minorUnits, Exponent(currency)) {
      WireDigits(minorUnits, 2, Exponent(currency));
    }
  }

  /** A decimal of at most two places, with a point or a comma, is taken for its worth in minor units. */
  lemma MinorUnitsExact(d: Decimal, separator: Unit, before: Text, after: Text)
    requires WellFormed(d) && |d.fraction| <= 2 && separator in POINT_OR_COMMA
    requires Blank(before) && Blank(after)
    ensures var r := MinorUnitsFrom(before + (Spelled(d, separator) + after));
      && r == Some(Sign(d.negative) + (d.whole + PadEnd(d.fraction, 2)))
      && IsMinorUnits(r.value) && IntValue(r.value) == Worth(d, 2)
  {
    hide Trim, Match, Spelled, Value, Worth, IsMinorUnits, IntValue, Pow10;
    TrimSpelled(d, separator, before, after);
    MatchComplete(d, separator, POINT_OR_COMMA);
    PaddedWorth(d, 2);
    SignedDigits(d.negative, d.whole + PadEnd(d.fraction, 2));
  }

  lemma SignedDigits(negative: bool, digits: Text)
    requires digits != [] && AllDigits(digits)
    ensures var t := Sign(negative) + digits; IsMinorUnits(t) && IntValue(t) == Signed(negative, Value(digits))
  {
    hide Value;
    var t := Sign(negative) + digits;
    assert digits[0] in digits;
    if negative {
      assert t[0] == U('-') && t[1..] == digits;
    } else {
      assert t == digits;
    }
  }

  /** What is refused is malformed, or has more than two places. */
  lemma {:induction false} MinorUnitsRefused(decimal: Text)
    ensures MinorUnitsFrom(decimal).None? <==>
      forall d, s | WellFormed(d) && s in POINT_OR_COMMA && Spelled(d, s) == Trim(decimal) :: |d.fraction| > 2
  {
    hide Match, Spelled, Trim;
    var t := Trim(decimal);
    if Match(t, POINT_OR_COMMA).Some? {
      MatchSound(t, POINT_OR_COMMA);
    }
    forall d, s | WellFormed(d) && s in POINT_OR_COMMA && Spelled(d, s) == t
      ensures Match(t, POINT_OR_COMMA) == Some(d)
    {
      MatchComplete(d, s, POINT_OR_COMMA);
    }
  }

  lemma TrimSpelled(d: Decimal, separator: Unit, before: Text, after: Text)
    requires WellFormed(d) && separator in POINT_OR_COMMA && Blank(before) && Blank(after)
    ensures Trim(before + (Spelled(d, separator) + after)) == Spelled(d, separator)
  {
    var t := Spelled(d, separator);
    assert d.whole[0] in d.whole && d.whole[|d.whole| - 1] in d.whole;
    assert d.fraction != [] ==> d.fraction[|d.fraction| - 1] in d.fraction;
    assert t[0] == if d.negative then U('-') else d.whole[0];
    assert t[|t| - 1] == if d.fraction == [] then d.whole[|d.whole| - 1] else d.fraction[|d.fraction| - 1];
    assert (t + after)[0] == t[0];
    TrimStartBlank(before, t + after);
    TrimEndBlank(t, after);
  }

  /**
   * A proposal that quotes the decimal it was shown means the same minor units. As text it is the
   * same number only from a hundred minor units on: below that it keeps leading zeros.
   */
  lemma {:induction false} DecimalBack(minorUnits: int)
    ensures var back := MinorUnitsFrom(MoneyOf(minorUnits));
      && back.Some? && IsMinorUnits(back.value) && IntValue(back.value) == minorUnits
      && (back.value == IntText(minorUnits) <==> Magnitude(minorUnits) >= 100)
  {
    MoneyHasTwoDigits(minorUnits);
    var d := WireShape(minorUnits, 2);
    MinorUnitsExact(d, U('.'), [], []);
    PaddedWorth(d, 2);
    var text := Spelled(d, U('.'));
    assert [] + (text + []) == text;
    hide Match, Spelled, MoneyOf, ToWire, Value, Digits, Trim, IsMinorUnits;
    var digits := Digits(Magnitude(minorUnits));
    ThreeDigits(Magnitude(minorUnits));
    assert PadEnd(d.fraction, 2) == d.fraction;
    assert IntText(minorUnits) == Sign(minorUnits < 0) + digits;
    var padded := PadStart(digits, 3);
    assert |padded| != |digits| ==> |Sign(minorUnits < 0) + padded| != |Sign(minorUnits < 0) + digits|;
  }

  lemma ThreeDigits(n: nat)
    ensures |Digits(n)| >= 3 <==> n >= 100
  {
    assert n >= 10 ==> |Digits(n)| == |Digits(n / 10)| + 1;
    assert n >= 100 ==> |Digits(n / 10)| == |Digits(n / 100)| + 1 by {
      assert n / 10 / 10 == n / 100;
    }
  }
}
