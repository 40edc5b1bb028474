/** JavaScript strings: sequences of UTF-16 code units, with the digits and orders the code relies on. */
module Texts {

  type Unit = n: nat | n < 0x10000
  type Text = seq<Unit>

  function U(c: char): Unit
    requires c as int < 128
  {
    c as int
  }

  function Ascii(s: string): (r: Text)
    requires forall i | 0 <= i < |s| :: s[i] as int < 128
    ensures |r| == |s| && forall i | 0 <= i < |s| :: r[i] == s[i] as int
  {
    seq(|s|, i requires 0 <= i < |s| => U(s[i]))
  }

  predicate StartsWith(t: Text, p: Text) {
    p <= t
  }

  lemma Regroup(a: Text, b: Text, c: Text)
    ensures a + b + c == a + (b + c)
  {
  }

  /** The `<` of strings. */
  predicate Less(a: Text, b: Text) {
    b != [] && (a == [] || a[0] < b[0] || (a[0] == b[0] && Less(a[1..], b[1..])))
  }

  lemma {:induction false} LessTotal(a: Text, b: Text)
    ensures a == b || Less(a, b) || Less(b, a)
  {
    if a != [] && b != [] && a[0] == b[0] {
      LessTotal(a[1..], b[1..]);
      assert a == [a[0]] + a[1..] && b == [b[0]] + b[1..];
    }
  }

  lemma {:induction false} LessTransitive(a: Text, b: Text, c: Text)
    requires Less(a, b) && Less(b, c)
    ensures Less(a, c)
  {
    if a != [] && a[0] == b[0] == c[0] {
      LessTransitive(a[1..], b[1..], c[1..]);
    }
  }

  lemma {:induction false} LessIrreflexive(a: Text)
    ensures !Less(a, a)
  {
    if a != [] {
      LessIrreflexive(a[1..]);
    }
  }

  /** Behind a common prefix the order is that of the rest; before that, equal lengths decide. */
  lemma {:induction false} LessAppend(a: Text, b: Text, x: Text, y: Text)
    requires |a| == |b|
    ensures Less(a + x, b + y) <==> Less(a, b) || (a == b && Less(x, y))
  {
    if a == [] {
      assert a + x == x && b + y == y;
    } else {
      assert (a + x)[1..] == a[1..] + x && (b + y)[1..] == b[1..] + y;
      LessAppend(a[1..], b[1..], x, y);
      assert a == [a[0]] + a[1..] && b == [b[0]] + b[1..];
    }
  }

  // ----- searching

  /** `indexOf` one unit; the length when there is none. */
  function IndexOf(t: Text, u: Unit): (r: nat)
    ensures r <= |t| && (r < |t| ==> t[r] == u) && forall i | 0 <= i < r :: t[i] != u
  {
    if t == [] || t[0] == u then 0 else 1 + IndexOf(t[1..], u)
  }

  /** `lastIndexOf` one unit. */
  function LastIndexOf(t: Text, u: Unit): (r: int)
    ensures -1 <= r < |t| && (r >= 0 ==> t[r] == u) && forall i | r < i < |t| :: t[i] != u
  {
    if t == [] then -1 else if t[|t| - 1] == u then |t| - 1 else LastIndexOf(t[..|t| - 1], u)
  }

  // ----- decimal digits

  predicate IsDigit(u: Unit) {
    U('0') <= u <= U('9')
  }

  predicate AllDigits(t: Text) {
    forall u | u in t :: IsDigit(u)
  }

  /** `BigInt.prototype.toString`, and `String` of a whole number. */
  function Digits(n: nat): (r: Text)
    ensures r != [] && AllDigits(r)
  {
    if n < 10 then [U('0') + n] else Digits(n / 10) + [U('0') + n % 10]
  }

  /** `BigInt` of a string of digits. */
  function Value(t: Text): nat
    requires AllDigits(t)
  {
    if t == [] then 0
    else
      assert t[|t| - 1] in t;
      10 * Value(t[..|t| - 1]) + (t[|t| - 1] - U('0'))
  }

  lemma {:induction false} ValueOfDigits(n: nat)
    ensures Value(Digits(n)) == n
  {
    if n >= 10 {
      ValueOfDigits(n / 10);
      assert Digits(n)[..|Digits(n)| - 1] == Digits(n / 10);
    }
  }

  /** How many digits a text begins with. */
  function DigitRun(t: Text): (r: nat)
    ensures r <= |t| && AllDigits(t[..r])
  {
    if t == [] || !IsDigit(t[0]) then 0
    else
      assert t[..1 + DigitRun(t[1..])] == [t[0]] + t[1..][..DigitRun(t[1..])];
      1 + DigitRun(t[1..])
  }

  /** Digits end where something else begins. */
  lemma {:induction false} DigitsEnd(d: Text, x: Text)
    requires AllDigits(d) && (x != [] ==> !IsDigit(x[0]))
    ensures DigitRun(d + x) == |d|
  {
    if d == [] {
      assert d + x == x;
    } else {
      assert d[0] in d && (d + x)[1..] == d[1..] + x;
      DigitsEnd(d[1..], x);
    }
  }

  function IntText(n: int): Text {
    if n < 0 then [U('-')] + Digits(-n) else Digits(n)
  }

  // ----- hexadecimal digits

  predicate IsHex(u: Unit) {
    IsDigit(u) || U('a') <= u <= U('f')
  }

  function HexDigit(d: nat): (r: Unit)
    requires d < 16
    ensures IsHex(r)
  {
    if d < 10 then U('0') + d else U('a') + d - 10
  }

  function HexValue(u: Unit): (r: nat)
    requires IsHex(u)
    ensures r < 16 && HexDigit(r) == u
  {
    if IsDigit(u) then u - U('0') else u - U('a') + 10
  }

  /** The lower `width` hexadecimal digits of a number, most significant first. */
  function Hex(width: nat, n: nat): (r: Text)
    ensures |r| == width && forall u | u in r :: IsHex(u)
  {
    if width == 0 then [] else Hex(width - 1, n / 16) + [HexDigit(n % 16)]
  }

  /** `parseInt(_, 16)` of a string of hexadecimal digits. */
  function FromHex(t: Text): nat
    requires forall u | u in t :: IsHex(u)
  {
    if t == [] then 0 else 16 * FromHex(t[..|t| - 1]) + HexValue(t[|t| - 1])
  }

  function Pow16(n: nat): nat {
    if n == 0 then 1 else 16 * Pow16(n - 1)
  }

  lemma {:induction false} FromHexOfHex(width: nat, n: nat)
    requires n < Pow16(width)
    ensures FromHex(Hex(width, n)) == n
  {
    if width > 0 {
      FromHexOfHex(width - 1, n / 16);
      assert Hex(width, n)[..width - 1] == Hex(width - 1, n / 16);
    }
  }

  /** Of equal widths, the order of the strings is the order of the numbers. */
  lemma {:induction false} HexOrder(width: nat, m: nat, n: nat)
    requires m < Pow16(width) && n < Pow16(width)
    ensures Less(Hex(width, m), Hex(width, n)) <==> m < n
    ensures Hex(width, m) == Hex(width, n) <==> m == n
  {
    FromHexOfHex(width, m);
    FromHexOfHex(width, n);
    hide FromHex;
    if width > 0 {
      HexOrder(width - 1, m / 16, n / 16);
      LessAppend(Hex(width - 1, m / 16), Hex(width - 1, n / 16), [HexDigit(m % 16)], [HexDigit(n % 16)]);
      DigitOrder(m % 16, n % 16);
    }
  }

  lemma DigitOrder(m: nat, n: nat)
    requires m < 16 && n < 16
    ensures Less([HexDigit(m)], [HexDigit(n)]) <==> m < n
  {
  }

  // ----- `trim`

  /** The white space that `trim` removes. */
  predicate IsSpace(u: Unit) {
    || 0x09 <= u <= 0x0d || u == 0x20 || u == 0xa0 || u == 0x1680 || 0x2000 <= u <= 0x200a
    || u == 0x2028 || u == 0x2029 || u == 0x202f || u == 0x205f || u == 0x3000 || u == 0xfeff
  }

  function TrimStart(t: Text): Text {
    if t != [] && IsSpace(t[0]) then TrimStart(t[1..]) else t
  }

  function TrimEnd(t: Text): Text {
    if t != [] && IsSpace(t[|t| - 1]) then TrimEnd(t[..|t| - 1]) else t
  }

  function Trim(t: Text): Text {
    TrimEnd(TrimStart(t))
  }

  predicate Blank(t: Text) {
    forall u | u in t :: IsSpace(u)
  }

  lemma {:induction false} TrimStartBlank(b: Text, t: Text)
    requires Blank(b) && (t != [] ==> !IsSpace(t[0]))
    ensures TrimStart(b + t) == t
  {
    if b == [] {
      assert b + t == t;
    } else {
      assert b[0] in b && (b + t)[1..] == b[1..] + t;
      TrimStartBlank(b[1..], t);
    }
  }

  lemma {:induction false} TrimEndBlank(t: Text, b: Text)
    requires Blank(b) && (t != [] ==> !IsSpace(t[|t| - 1]))
    ensures TrimEnd(t + b) == t
  {
    if b == [] {
      assert t + b == t;
    } else {
      assert b[|b| - 1] in b && (t + b)[..|t + b| - 1] == t + b[..|b| - 1];
      TrimEndBlank(t, b[..|b| - 1]);
    }
  }
}
