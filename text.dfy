/** Python string operations the core relies on: str() of an int, int() and float() of a
    token, str.split() on whitespace, str.split(sep), str.join, lower() and upper() on ASCII. */
module Text {
  import opened Wrappers

  // ---------------------------------------------------------------- characters

  predicate IsDigit(c: char) { '0' <= c <= '9' }

  /** The characters Python's str.split() and int() treat as whitespace. */
  predicate IsSpace(c: char) {
    c == ' ' || ('\t' <= c <= '\r') || ('\U{1c}' <= c <= '\U{1f}') || c == '\U{85}' || c == '\U{a0}'
    || c == '\U{1680}' || ('\U{2000}' <= c <= '\U{200a}') || c == '\U{2028}' || c == '\U{2029}'
    || c == '\U{202f}' || c == '\U{205f}' || c == '\U{3000}'
  }

  predicate AllDigits(s: string) { forall i | 0 <= i < |s| :: IsDigit(s[i]) }

  predicate NoSpace(s: string) { forall i | 0 <= i < |s| :: !IsSpace(s[i]) }

  predicate AllSpace(s: string) { forall i | 0 <= i < |s| :: IsSpace(s[i]) }

  function DigitChar(d: nat): (c: char)
    requires d < 10
    ensures IsDigit(c) && DigitValue(c) == d
  {
    ('0' as int + d) as char
  }

  function DigitValue(c: char): (d: nat)
    requires IsDigit(c)
    ensures d < 10
  {
    c as int - '0' as int
  }

  // ---------------------------------------------------------------- numerals

  function Pow10(k: nat): (p: nat)
    ensures p >= 1
  {
    if k == 0 then 1 else 10 * Pow10(k - 1)
  }

  /** The decimal numeral of `n`, as Python's str() writes a non-negative int. */
  function NatToString(n: nat): (s: string)
    ensures |s| >= 1 && AllDigits(s)
    decreases n
  {
    if n < 10 then [DigitChar(n)] else NatToString(n / 10) + [DigitChar(n % 10)]
  }

  /** The value of a string of decimal digits (leading zeros allowed, as int() allows them). */
  function DigitsValue(s: string): nat
    requires AllDigits(s)
  {
    if s == [] then 0 else DigitsValue(s[..|s| - 1]) * 10 + DigitValue(s[|s| - 1])
  }

  /** Python's str() of an int: a minus sign in front of the numeral of a negative number. */
  function IntToString(i: int): (s: string)
    ensures |s| >= 1 && NoSpace(s)
    ensures forall k | 0 <= k < |s| :: IsDigit(s[k]) || s[k] == '-'
  {
    if i < 0 then "-" + NatToString(-i) else NatToString(i)
  }

  /** `xs` mapped through str(). */
  function Decimals(xs: seq<int>): (r: seq<string>)
    ensures |r| == |xs| && forall i | 0 <= i < |xs| :: r[i] == IntToString(xs[i])
  {
    if xs == [] then [] else [IntToString(xs[0])] + Decimals(xs[1..])
  }

  lemma {:induction false} NatToStringValue(n: nat)
    ensures DigitsValue(NatToString(n)) == n
    decreases n
  {
    if n >= 10 {
      NatToStringValue(n / 10);
      var s := NatToString(n / 10) + [DigitChar(n % 10)];
      assert s[..|s| - 1] == NatToString(n / 10);
    }
  }

  lemma AllDigitsConcat(a: string, b: string)
    requires AllDigits(a) && AllDigits(b)
    ensures AllDigits(a + b)
  {
    forall i | 0 <= i < |a + b| ensures IsDigit((a + b)[i]) {
      if i >= |a| { assert (a + b)[i] == b[i - |a|]; }
    }
  }

  lemma {:induction false} DigitsValueConcat(a: string, b: string)
    requires AllDigits(a) && AllDigits(b)
    ensures AllDigits(a + b)
    ensures DigitsValue(a + b) == DigitsValue(a) * Pow10(|b|) + DigitsValue(b)
    decreases |b|
  {
    AllDigitsConcat(a, b);
    if b == [] {
      assert a + b == a;
    } else {
      var b' := b[..|b| - 1];
      DigitsValueConcat(a, b');
      var ab := a + b;
      assert ab[..|ab| - 1] == a + b';
      assert ab[|ab| - 1] == b[|b| - 1];
      var x, y, d, p := DigitsValue(a), DigitsValue(b'), DigitValue(b[|b| - 1]), Pow10(|b'|);
      assert DigitsValue(ab) == DigitsValue(a + b') * 10 + d;
      assert DigitsValue(b) == y * 10 + d;
      assert Pow10(|b|) == 10 * p;
      ShiftDigit(x, p, y, d);
    }
  }

  lemma ShiftDigit(x: int, p: int, y: int, d: int)
    ensures (x * p + y) * 10 + d == x * (10 * p) + (y * 10 + d)
  {
  }

  // ---------------------------------------------------------------- strip and int()

  function StripLeft(s: string): (r: string)
    ensures |r| <= |s|
    ensures r != [] ==> !IsSpace(r[0])
  {
    if s != [] && IsSpace(s[0]) then StripLeft(s[1..]) else s
  }

  function StripRight(s: string): (r: string)
    ensures |r| <= |s|
    ensures r != [] ==> !IsSpace(r[|r| - 1])
  {
    if s != [] && IsSpace(s[|s| - 1]) then StripRight(s[..|s| - 1]) else s
  }

  /** Python's str.strip() with no argument. */
  function Strip(s: string): string {
    StripRight(StripLeft(s))
  }

  lemma {:induction false} StripLeftSpaces(pre: string, t: string)
    requires AllSpace(pre) && (t == [] || !IsSpace(t[0]))
    ensures StripLeft(pre + t) == t
    decreases |pre|
  {
    if pre != [] {
      assert (pre + t)[1..] == pre[1..] + t;
      StripLeftSpaces(pre[1..], t);
    }
  }

  lemma {:induction false} StripRightSpaces(t: string, post: string)
    requires AllSpace(post) && (t == [] || !IsSpace(t[|t| - 1]))
    ensures StripRight(t + post) == t
    decreases |post|
  {
    if post != [] {
      assert (t + post)[..|t + post| - 1] == t + post[..|post| - 1];
      StripRightSpaces(t, post[..|post| - 1]);
    }
  }

  /** Surrounding whitespace is ignored: what Python's int() and float() do first. */
  lemma StripPadded(pre: string, t: string, post: string)
    requires AllSpace(pre) && AllSpace(post) && t != [] && !IsSpace(t[0]) && !IsSpace(t[|t| - 1])
    ensures Strip(pre + t + post) == t
  {
    assert pre + t + post == pre + (t + post);
    StripLeftSpaces(pre, t + post);
    StripRightSpaces(t, post);
  }

  /** Python's int() of a plain ASCII numeral: surrounding whitespace, an optional sign, one or
      more ASCII digits. The underscores between digits and the non-ASCII digits that int() also
      accepts are rejected here. */
  function ParseInt(s: string): Option<int> {
    ParseStripped(Strip(s))
  }

  /** int() once the whitespace is gone. */
  function ParseStripped(t: string): Option<int> {
    if |t| >= 2 && (t[0] == '-' || t[0] == '+') && AllDigits(t[1..]) then
      Some(if t[0] == '-' then -(DigitsValue(t[1..]) as int) else DigitsValue(t[1..]))
    else if |t| >= 1 && AllDigits(t) then
      Some(DigitsValue(t))
    else
      None
  }

  /** int(str(i)) == i, also with whitespace around the numeral. */
  lemma ParseIntOfIntToString(pre: string, i: int, post: string)
    requires AllSpace(pre) && AllSpace(post)
    ensures ParseInt(pre + IntToString(i) + post) == Some(i)
  {
    StripPadded(pre, IntToString(i), post);
    ParseStrippedNumeral(i);
  }

  lemma ParseStrippedNumeral(i: int)
    ensures ParseStripped(IntToString(i)) == Some(i)
  {
    var s := IntToString(i);
    if i < 0 {
      assert s[1..] == NatToString(-i);
      NatToStringValue(-i);
    } else {
      NatToStringValue(i);
    }
  }

  lemma ParseNumeral(i: int)
    ensures ParseInt(IntToString(i)) == Some(i)
  {
    ParseIntOfIntToString("", i, "");
    assert "" + IntToString(i) + "" == IntToString(i);
  }

  lemma ParseNumeralPadded(i: int, pad: string)
    requires AllSpace(pad)
    ensures ParseInt(IntToString(i) + pad) == Some(i)
  {
    ParseIntOfIntToString("", i, pad);
    assert "" + IntToString(i) + pad == IntToString(i) + pad;
  }

  // ---------------------------------------------------------------- float() and round(x, 2)

  /** A decimal number `mantissa / 10^scale`, as written in the mining tool's output. */
  datatype Decimal = Decimal(mantissa: int, scale: nat)

  /** Python's float() of a plain decimal token: an optional sign, digits with at most one
      decimal point and at least one digit. */
  function ParseDecimal(s: string): Option<Decimal> {
    var t := Strip(s);
    if |t| > 0 && t[0] == '-' then
      match ParseUnsignedDecimal(t[1..])
      case None => None
      case Some(d) => Some(Decimal(-d.mantissa, d.scale))
    else if |t| > 0 && t[0] == '+' then ParseUnsignedDecimal(t[1..])
    else ParseUnsignedDecimal(t)
  }

  /** Digits with at most one decimal point and at least one digit. */
  function ParseUnsignedDecimal(u: string): (r: Option<Decimal>)
    ensures r.Some? ==> r.value.mantissa >= 0
  {
    match IndexOf(u, ".")
    case None =>
      if |u| >= 1 && AllDigits(u) then Some(Decimal(DigitsValue(u), 0)) else None
    case Some(p) =>
      var whole := u[..p];
      var fraction := u[p + 1..];
      if |whole| + |fraction| >= 1 && AllDigits(whole) && AllDigits(fraction) then
        AllDigitsConcat(whole, fraction);
        Some(Decimal(DigitsValue(whole + fraction), |fraction|))
      else
        None
  }

  function Abs(x: int): nat { if x < 0 then -x else x }

  function Pow2(k: nat): (p: nat)
    ensures p >= 1
  {
    if k == 0 then 1 else 2 * Pow2(k - 1)
  }

  lemma {:induction false} Pow2Add(a: nat, b: nat)
    ensures Pow2(a + b) == Pow2(a) * Pow2(b)
    decreases b
  {
    if b > 0 {
      Pow2Add(a, b - 1);
      assert Pow2(a + b) == 2 * Pow2(a + b - 1);
    }
  }

  lemma {:induction false} Pow2Grows(a: nat, b: nat)
    requires a < b
    ensures Pow2(a) < Pow2(b)
  {
    Pow2Add(a, b - a);
    assert Pow2(b - a) == 2 * Pow2(b - a - 1);
  }

  /** The nearest integer to n / d, ties to even: the rounding of IEEE 754 arithmetic and of
      Python's round. */
  function RoundHalfEven(n: int, d: nat): (h: int)
    requires d >= 1
    ensures 2 * Abs(h * d - n) <= d
    ensures 2 * Abs(h * d - n) == d ==> h % 2 == 0
  {
    RoundQuotient(n, d);
    var q, r := n / d, n % d;
    if 2 * r < d then q else if 2 * r > d then q + 1 else if q % 2 == 0 then q else q + 1
  }

  /** Rounding m / unit to the nearest integer, ties to even, lands within half a unit of m. */
  lemma RoundQuotient(m: int, unit: nat)
    requires unit >= 1
    ensures var q, r := m / unit, m % unit;
            var h := if 2 * r < unit then q else if 2 * r > unit then q + 1 else if q % 2 == 0 then q else q + 1;
            2 * Abs(h * unit - m) <= unit && (2 * Abs(h * unit - m) == unit ==> h % 2 == 0)
  {
    var q, r := m / unit, m % unit;
    assert m == q * unit + r && 0 <= r < unit;
    assert (q + 1) * unit - m == unit - r;
  }

  /** A quotient closer than half a unit to an integer rounds to that integer. */
  lemma {:induction false} RoundHalfEvenNear(n: int, d: nat, c: int)
    requires d >= 1 && 2 * Abs(n - c * d) < d
    ensures RoundHalfEven(n, d) == c
  {
    var h := RoundHalfEven(n, d);
    var a, b := h * d - n, n - c * d;
    assert -(d as int) <= 2 * a <= d && -(d as int) < 2 * b < d;
    Distribute(h, c, d);
    if h > c {
      MulAtLeast(h - c, d);
    } else if h < c {
      MulAtLeast(c - h, d);
    }
  }

  /** Rounding is monotone: a quotient at most (at least) c rounds to at most (at least) c. */
  lemma {:induction false} RoundHalfEvenBounds(n: int, d: nat, c: int)
    requires d >= 1
    ensures n <= c * d ==> RoundHalfEven(n, d) <= c
    ensures n >= c * d ==> RoundHalfEven(n, d) >= c
  {
    var h := RoundHalfEven(n, d);
    var a := h * d - n;
    assert -(d as int) <= 2 * a <= d;
    Distribute(h, c, d);
    if n <= c * d && h > c {
      MulAtLeast(h - c, d);
    }
    if n >= c * d && h < c {
      MulAtLeast(c - h, d);
    }
  }

  lemma Distribute(h: int, c: int, d: int)
    ensures h * d - c * d == (h - c) * d && c * d - h * d == (c - h) * d
  {
  }

  lemma MulAtLeast(t: int, d: nat)
    requires t >= 1
    ensures t * d >= d
  {
  }

  /** floor(log2(p / q)) when p / q >= 1. */
  function Log2Up(p: nat, q: nat): (e: nat)
    requires 1 <= q <= p
    ensures q * Pow2(e) <= p < 2 * q * Pow2(e)
    decreases p - q
  {
    if p < 2 * q then 0
    else
      var e := Log2Up(p, 2 * q);
      assert q * Pow2(e + 1) == 2 * q * Pow2(e);
      e + 1
  }

  /** -floor(log2(p / q)) when 0 < p / q < 1. */
  function Log2Down(p: nat, q: nat): (n: nat)
    requires 1 <= p < q
    ensures n >= 1 && q <= p * Pow2(n) < 2 * q
    decreases q - p
  {
    if 2 * p >= q then 1
    else
      var n := Log2Down(2 * p, q);
      assert p * Pow2(n + 1) == 2 * p * Pow2(n);
      n + 1
  }

  /** The fraction bits of a binary64 number: normal numbers carry FractionBits + 1 significant bits. */
  const FractionBits: nat := 52

  /** The largest binary exponent of a finite binary64 number. */
  const MaxExponent: nat := 1023

  /** A finite binary64 number: significand / 2^exponent, negated when `negative`. */
  datatype Double = Double(negative: bool, significand: nat, exponent: int)

  /** m / 2^k lies within half of 1 / 2^k of p / q (all magnitudes). */
  predicate WithinHalfUnit(p: nat, q: nat, m: nat, k: int)
    requires q >= 1
  {
    if k >= 0 then 2 * Abs(m * q - p * Pow2(k)) <= q
    else 2 * Abs(m * (q * Pow2(-k)) - p) <= q * Pow2(-k)
  }

  /** Python's float() of a decimal: the binary64 number nearest to it, ties to even. Its
      significand has 53 bits, fewer only at the smallest exponent (the subnormal numbers).
      None when the magnitude rounds to 2^1024 or more, where float() gives inf. */
  function FloatOf(d: Decimal): (x: Option<Double>)
    ensures x.Some? ==> x.value.negative == (d.mantissa < 0)
    ensures x.Some? ==> WithinHalfUnit(Abs(d.mantissa), Pow10(d.scale), x.value.significand, x.value.exponent)
    ensures x.Some? ==> x.value.exponent <= 1074 && x.value.significand <= Pow2(FractionBits + 1)
    ensures x.Some? && d.mantissa != 0 && x.value.exponent < 1074 ==> Pow2(FractionBits) <= x.value.significand
    ensures d.mantissa == 0 ==> x == Some(Double(false, 0, 0))
  {
    var p, q := Abs(d.mantissa), Pow10(d.scale);
    if p == 0 then Some(Double(false, 0, 0))
    else
      var e := FloorLog2(p, q);
      var k := if 52 - e < 1074 then 52 - e else 1074;
      var m := Significand(p, q, k);
      FloatSignificand(p, q, e, k, m);
      if e >= 1024 || (e == 1023 && m == Pow2(FractionBits + 1)) then None
      else Some(Double(d.mantissa < 0, m, k))
  }

  /** floor(log2(p / q)). */
  function FloorLog2(p: nat, q: nat): (e: int)
    requires p >= 1 && q >= 1
    ensures e >= 0 ==> q * Pow2(e) <= p < 2 * q * Pow2(e)
    ensures e < 0 ==> q <= p * Pow2(-e) < 2 * q
  {
    if p >= q then Log2Up(p, q) else -(Log2Down(p, q) as int)
  }

  /** p / q scaled by 2^k and rounded to the nearest integer, ties to even. */
  function Significand(p: nat, q: nat, k: int): (m: nat)
    requires q >= 1
    ensures WithinHalfUnit(p, q, m, k)
  {
    if k >= 0 then
      RoundHalfEvenBounds(p * Pow2(k), q, 0);
      RoundHalfEven(p * Pow2(k), q)
    else
      RoundHalfEvenBounds(p, q * Pow2(-k), 0);
      RoundHalfEven(p, q * Pow2(-k))
  }

  /** With e = floor(log2(p / q)) and k the exponent that gives p / q 53 significant bits (capped
      at 1074), the rounded significand has 53 bits, or fewer only at the cap. */
  lemma {:induction false} FloatSignificand(p: nat, q: nat, e: int, k: int, m: nat)
    requires p >= 1 && q >= 1
    requires e >= 0 ==> q * Pow2(e) <= p < 2 * q * Pow2(e)
    requires e < 0 ==> q <= p * Pow2(-e) < 2 * q
    requires k == if 52 - e < 1074 then 52 - e else 1074
    requires m == Significand(p, q, k)
    ensures m <= Pow2(FractionBits + 1) && (k < 1074 ==> Pow2(FractionBits) <= m)
  {
    if e >= 0 && k >= 0 {
      RoundedAbove(p, q, e, k);
    } else if k < 0 {
      var j := -k;
      var d := q * Pow2(j);
      SignificandBelow(p, q, e, j);
      RoundedBelow(p, d);
    } else if k < 1074 {
      RoundedTiny(p, q, -e, k);
    } else {
      RoundedSubnormal(p, q, -e, k);
    }
  }

  lemma {:induction false} RoundedAbove(p: nat, q: nat, e: nat, k: nat)
    requires q >= 1 && e + k == 52 && q * Pow2(e) <= p < 2 * q * Pow2(e)
    ensures Pow2(FractionBits) <= RoundHalfEven(p * Pow2(k), q) <= Pow2(FractionBits + 1)
  {
    var top, n := Pow2(FractionBits), p * Pow2(k);
    SignificandAbove(p, q, e, k);
    RoundIntoRange(n, q, top);
    assert Pow2(FractionBits + 1) == 2 * top;
  }

  lemma {:induction false} RoundedBelow(p: nat, d: nat)
    requires d >= 1 && Pow2(FractionBits) * d <= p <= 2 * Pow2(FractionBits) * d
    ensures Pow2(FractionBits) <= RoundHalfEven(p, d) <= Pow2(FractionBits + 1)
  {
    var top := Pow2(FractionBits);
    RoundIntoRange(p, d, top);
    assert Pow2(FractionBits + 1) == 2 * top;
  }

  lemma {:induction false} RoundedTiny(p: nat, q: nat, n: nat, k: nat)
    requires q >= 1 && k == 52 + n && q <= p * Pow2(n) < 2 * q
    ensures Pow2(FractionBits) <= RoundHalfEven(p * Pow2(k), q) <= Pow2(FractionBits + 1)
  {
    var top, m := Pow2(FractionBits), p * Pow2(k);
    SignificandTiny(p, q, n, k);
    RoundIntoRange(m, q, top);
    assert Pow2(FractionBits + 1) == 2 * top;
  }

  lemma {:induction false} RoundedSubnormal(p: nat, q: nat, n: nat, k: nat)
    requires q >= 1 && k <= 52 + n && q <= p * Pow2(n) < 2 * q
    ensures RoundHalfEven(p * Pow2(k), q) <= Pow2(FractionBits + 1)
  {
    var top, m := Pow2(FractionBits), p * Pow2(k);
    SignificandSubnormal(p, q, n, k);
    RoundHalfEvenBounds(m, q, 2 * top);
    assert Pow2(FractionBits + 1) == 2 * top;
  }

  /** A quotient between top and 2 * top rounds to a value between them. */
  lemma {:induction false} RoundIntoRange(n: int, d: nat, top: int)
    requires d >= 1 && top * d <= n <= 2 * top * d
    ensures top <= RoundHalfEven(n, d) <= 2 * top
  {
    RoundHalfEvenBounds(n, d, 2 * top);
    RoundHalfEvenBounds(n, d, top);
  }

  lemma {:induction false} SignificandAbove(p: nat, q: nat, e: nat, k: nat)
    requires e + k == 52 && q * Pow2(e) <= p < 2 * q * Pow2(e)
    ensures Pow2(FractionBits) * q <= p * Pow2(k) <= 2 * Pow2(FractionBits) * q
  {
    Pow2Add(e, k);
    ScaleUp(q, Pow2(e), Pow2(k), p, Pow2(FractionBits));
  }

  lemma {:induction false} SignificandBelow(p: nat, q: nat, e: nat, j: nat)
    requires e == 52 + j && q * Pow2(e) <= p < 2 * q * Pow2(e)
    ensures Pow2(FractionBits) * (q * Pow2(j)) <= p <= 2 * Pow2(FractionBits) * (q * Pow2(j))
  {
    Pow2Add(52, j);
    ScaleDown(q, Pow2(FractionBits), Pow2(j), Pow2(e), p);
  }

  lemma {:induction false} SignificandTiny(p: nat, q: nat, n: nat, k: nat)
    requires k == 52 + n && q <= p * Pow2(n) < 2 * q
    ensures Pow2(FractionBits) * q <= p * Pow2(k) <= 2 * Pow2(FractionBits) * q
  {
    Pow2Add(n, 52);
    ScaleTiny(p, Pow2(n), Pow2(FractionBits), Pow2(k), q);
  }

  lemma {:induction false} SignificandSubnormal(p: nat, q: nat, n: nat, k: nat)
    requires k <= 52 + n && q <= p * Pow2(n) < 2 * q
    ensures p * Pow2(k) <= 2 * Pow2(FractionBits) * q
  {
    SignificandTiny(p, q, n, 52 + n);
    if k < 52 + n {
      Pow2Grows(k, 52 + n);
      MulMono(Pow2(k), Pow2(FractionBits + n), p);
    }
  }

  lemma ScaleUp(q: int, a: int, b: nat, p: int, top: int)
    requires top == a * b && q * a <= p <= 2 * q * a
    ensures top * q <= p * b <= 2 * top * q
  {
    MulMono(q * a, p, b);
    MulMono(p, 2 * q * a, b);
    assert (q * a) * b == q * (a * b);
    assert (2 * q * a) * b == 2 * q * (a * b);
  }

  lemma ScaleDown(q: int, top: int, j: int, e: int, p: int)
    requires e == top * j && q * e <= p <= 2 * q * e
    ensures top * (q * j) <= p <= 2 * top * (q * j)
  {
    assert q * (top * j) == top * (q * j);
  }

  lemma ScaleTiny(p: int, a: int, top: nat, k: int, q: int)
    requires k == a * top && q <= p * a <= 2 * q
    ensures top * q <= p * k <= 2 * top * q
  {
    MulMono(q, p * a, top);
    MulMono(p * a, 2 * q, top);
    assert p * (a * top) == (p * a) * top;
  }

  lemma MulMono(x: int, y: int, z: nat)
    requires x <= y
    ensures x * z <= y * z
  {
  }

  /** Python's round(x, 2) of a double, in hundredths: the multiple of 1/100 nearest to the
      double's exact value, ties to even. */
  function RoundHundredths(x: Double): (h: int)
    ensures var s := if x.negative then -(x.significand as int) else x.significand as int;
      if x.exponent > 0 then
        2 * Abs(h * Pow2(x.exponent) - 100 * s) <= Pow2(x.exponent)
        && (2 * Abs(h * Pow2(x.exponent) - 100 * s) == Pow2(x.exponent) ==> h % 2 == 0)
      else h == 100 * s * Pow2(-x.exponent)
  {
    ScaledHundredths(if x.negative then -(x.significand as int) else x.significand as int, x.exponent)
  }

  /** The hundredths of s / 2^e: exact when e <= 0, rounded half to even otherwise. */
  function ScaledHundredths(s: int, e: int): (h: int)
    ensures e > 0 ==> 2 * Abs(h * Pow2(e) - 100 * s) <= Pow2(e)
    ensures e > 0 && 2 * Abs(h * Pow2(e) - 100 * s) == Pow2(e) ==> h % 2 == 0
    ensures e <= 0 ==> h == 100 * s * Pow2(-e)
  {
    if e <= 0 then 100 * s * Pow2(-e) else RoundHalfEven(100 * s, Pow2(e))
  }

  /** What Python's `round(float(token), 2)` yields for a decimal token: the hundredths, or
      None when float() gives inf. It rounds the double nearest to the decimal, not the decimal
      itself: 0.615 and 0.645 are both decimal ties, yet their doubles lie just below and just
      above the tie. */
  function RoundedFloat(d: Decimal): (r: Option<int>)
    ensures r.Some? <==> FloatOf(d).Some?
  {
    match FloatOf(d)
    case None => None
    case Some(x) => Some(RoundHundredths(x))
  }

  /** `confidence * 100` in binary64 is inf for a confidence worth `h` hundredths exactly when |h|
      reaches the midpoint between the largest double, (2^53 - 1)·2^971, and 2^1024: the product
      is rounded to nearest, and the tie itself goes to the even 2^1024. A double that large has
      no fraction bits, so round(·, 2) leaves it as it is and `h` is exactly 100 times it. */
  predicate HundredfoldOverflows(h: int) {
    Abs(h) >= Pow2(MaxExponent + 1) - Pow2(MaxExponent - FractionBits - 1)
  }

  /** Every hundredths value below 2^52 in magnitude multiplies by 100 without overflow. */
  lemma HundredfoldFinite(h: int)
    requires Abs(h) < Pow2(FractionBits)
    ensures !HundredfoldOverflows(h)
  {
    Pow2Grows(FractionBits, MaxExponent);
    Pow2Grows(MaxExponent - FractionBits - 1, MaxExponent);
    assert Pow2(MaxExponent + 1) == 2 * Pow2(MaxExponent);
  }

  /** The smallest magnitude that overflows: 2^1024 - 2^970 hundredths overflow, one fewer does
      not. */
  lemma HundredfoldBoundary()
    ensures HundredfoldOverflows(Pow2(MaxExponent + 1) - Pow2(MaxExponent - FractionBits - 1))
    ensures !HundredfoldOverflows(Pow2(MaxExponent + 1) - Pow2(MaxExponent - FractionBits - 1) - 1)
  {
    Pow2Grows(MaxExponent - FractionBits - 1, MaxExponent);
    assert Pow2(MaxExponent + 1) == 2 * Pow2(MaxExponent);
  }

  /** A hundredths value written as the mining tool writes a confidence, with two decimals. */
  function FormatHundredths(c: nat): string {
    NatToString(c / 100) + "." + [DigitChar(c % 100 / 10), DigitChar(c % 100 % 10)]
  }

  /** A two-decimal confidence reads back as itself: float() lands close enough to it for
      round(·, 2) to return it, for any value below 2^52 hundredths. */
  lemma ParseFormatHundredths(c: nat)
    requires c < Pow2(FractionBits)
    ensures ParseDecimal(FormatHundredths(c)) == Some(Decimal(c, 2))
    ensures RoundedFloat(Decimal(c, 2)) == Some(c)
  {
    var whole := NatToString(c / 100);
    var fraction := [DigitChar(c % 100 / 10), DigitChar(c % 100 % 10)];
    ParsePointed(whole, fraction);
    HundredthsValue(c, whole, fraction);
    HundredthsSurvive(c);
  }

  lemma {:induction false} HundredthsSurvive(c: nat)
    requires c < Pow2(FractionBits)
    ensures RoundedFloat(Decimal(c, 2)) == Some(c)
  {
    if c > 0 {
      var q := Pow10(2);
      assert q == 100;
      var e := FloorLog2(c, q);
      if e >= 0 {
        HundredthsExponent(c, e);
      }
      var k := if 52 - e < 1074 then 52 - e else 1074;
      var m := Significand(c, q, k);
      FloatOfFinite(Decimal(c, 2), e, k, m);
      HundredthsRound(c, m, k);
    }
  }

  /** float() of a decimal whose binary exponent is below 1023 is finite. */
  lemma FloatOfFinite(d: Decimal, e: int, k: int, m: nat)
    requires d.mantissa != 0 && e == FloorLog2(Abs(d.mantissa), Pow10(d.scale)) && e < 1023
    requires k == (if 52 - e < 1074 then 52 - e else 1074) && m == Significand(Abs(d.mantissa), Pow10(d.scale), k)
    ensures FloatOf(d) == Some(Double(d.mantissa < 0, m, k))
  {
  }

  /** float() gives inf only for magnitudes of at least 2^1023. */
  lemma {:induction false} FloatOverflowLarge(d: Decimal)
    ensures FloatOf(d).None? ==> Pow2(MaxExponent) * Pow10(d.scale) <= Abs(d.mantissa)
  {
    var p, q := Abs(d.mantissa), Pow10(d.scale);
    if p > 0 {
      var e := FloorLog2(p, q);
      var k := if 52 - e < 1074 then 52 - e else 1074;
      if e < MaxExponent {
        FloatOfFinite(d, e, k, Significand(p, q, k));
      } else {
        if e > MaxExponent {
          Pow2Grows(MaxExponent, e);
        }
        MulBelow(Pow2(MaxExponent), Pow2(e), q, p);
      }
    }
  }

  /** float() gives inf for every magnitude of 2^1024 or more. */
  lemma {:induction false} FloatOverflowBeyond(d: Decimal)
    ensures Pow2(MaxExponent + 1) * Pow10(d.scale) <= Abs(d.mantissa) ==> FloatOf(d).None?
  {
    var p, q := Abs(d.mantissa), Pow10(d.scale);
    if p > 0 {
      var e := FloorLog2(p, q);
      if e <= MaxExponent {
        ExponentBelow(p, q, e, MaxExponent + 1);
      } else {
        FloatOfInfinite(d, e);
      }
    }
  }

  lemma MulBelow(a: int, b: int, q: nat, p: int)
    requires a <= b && q * b <= p
    ensures a * q <= p
  {
    MulMono(a, b, q);
  }

  /** A quotient whose binary exponent is below f is below 2^f. */
  lemma {:induction false} ExponentBelow(p: nat, q: nat, e: int, f: nat)
    requires p >= 1 && q >= 1 && e < f && e == FloorLog2(p, q)
    ensures p < Pow2(f) * q
  {
    if e >= 0 {
      assert Pow2(e + 1) == 2 * Pow2(e);
      if e + 1 < f {
        Pow2Grows(e + 1, f);
      }
      DoubledBelow(p, q, Pow2(e), Pow2(f));
    } else {
      assert Pow2(-e) == 2 * Pow2(-e - 1);
      HalvedBelow(p, q, Pow2(-e), Pow2(f));
    }
  }

  lemma DoubledBelow(p: int, q: nat, t: int, v: int)
    requires p < 2 * q * t && 2 * t <= v
    ensures p < v * q
  {
    MulMono(2 * t, v, q);
  }

  lemma HalvedBelow(p: nat, q: int, t: int, v: int)
    requires 2 <= t && p * t < 2 * q && 1 <= v
    ensures p < v * q
  {
    MulMono(2, t, p);
    MulMono(1, v, q);
  }

  /** float() of a decimal whose binary exponent reaches 1024 is inf. */
  lemma FloatOfInfinite(d: Decimal, e: int)
    requires d.mantissa != 0 && e == FloorLog2(Abs(d.mantissa), Pow10(d.scale)) && e > MaxExponent
    ensures FloatOf(d).None?
  {
  }

  /** A double within half a unit of c / 100, with at least 7 fraction bits, rounds back to c. */
  lemma {:induction false} HundredthsRound(c: nat, m: nat, k: int)
    requires k >= 7 && WithinHalfUnit(c, 100, m, k)
    ensures RoundHundredths(Double(false, m, k)) == c
  {
    assert Pow2(7) == 128;
    if k > 7 {
      Pow2Grows(7, k);
    }
    RoundHalfEvenNear(100 * m, Pow2(k), c);
  }

  /** A value below 2^52 hundredths is below 2^46, so its binary exponent is at most 45. */
  lemma {:induction false} HundredthsExponent(c: nat, e: nat)
    requires 100 * Pow2(e) <= c < Pow2(FractionBits)
    ensures e < FractionBits - 6
  {
    var f := FractionBits - 6;
    if e >= f {
      Pow2Add(f, 6);
      assert Pow2(6) == 64;
      if e > f {
        Pow2Grows(f, e);
      }
      HundredfoldAbove(Pow2(f), Pow2(e), c);
      assert false;
    }
  }

  lemma HundredfoldAbove(a: int, b: int, c: int)
    requires 1 <= a <= b && 100 * b <= c
    ensures a * 64 < c
  {
  }

  /** float() of `whole.fraction`, both non-empty digit strings. */
  lemma ParsePointed(whole: string, fraction: string)
    requires |whole| >= 1 && AllDigits(whole) && |fraction| >= 1 && AllDigits(fraction)
    ensures AllDigits(whole + fraction)
    ensures ParseDecimal(whole + "." + fraction) == Some(Decimal(DigitsValue(whole + fraction), |fraction|))
  {
    var s := whole + "." + fraction;
    StripNumeral(whole, fraction);
    assert !(s[0] == '-' || s[0] == '+');
    ParseUnsignedPointed(whole, fraction);
  }

  lemma ParseUnsignedPointed(whole: string, fraction: string)
    requires AllDigits(whole) && |fraction| >= 1 && AllDigits(fraction)
    ensures AllDigits(whole + fraction)
    ensures ParseUnsignedDecimal(whole + "." + fraction) == Some(Decimal(DigitsValue(whole + fraction), |fraction|))
  {
    var s := whole + "." + fraction;
    assert s == whole + ("." + fraction);
    FirstOccurrence(whole, ".", fraction);
    assert s[..|whole|] == whole && s[|whole| + 1..] == fraction;
    AllDigitsConcat(whole, fraction);
  }

  lemma StripNumeral(whole: string, fraction: string)
    requires |whole| >= 1 && AllDigits(whole) && |fraction| >= 1 && AllDigits(fraction)
    ensures Strip(whole + "." + fraction) == whole + "." + fraction
  {
    var s := whole + "." + fraction;
    assert s[0] == whole[0] && s[|s| - 1] == fraction[|fraction| - 1];
    StripPadded("", s, "");
    assert "" + s + "" == s;
  }

  lemma HundredthsValue(c: nat, whole: string, fraction: string)
    requires whole == NatToString(c / 100) && fraction == [DigitChar(c % 100 / 10), DigitChar(c % 100 % 10)]
    ensures AllDigits(whole + fraction) && DigitsValue(whole + fraction) == c
  {
    DigitsValueConcat(whole, fraction);
    NatToStringValue(c / 100);
    var r := c % 100;
    assert fraction[..1] == [DigitChar(r / 10)];
    assert fraction[..1][..0] == [];
    assert DigitsValue(fraction[..1]) == r / 10;
    assert DigitsValue(fraction) == (r / 10) * 10 + r % 10;
    assert c == (c / 100) * 100 + r;
  }

  // ---------------------------------------------------------------- str.split() on whitespace

  /** The length of the run of non-whitespace characters at the front of `s`. */
  function TokenLength(s: string): (k: nat)
    ensures k <= |s| && NoSpace(s[..k]) && (k < |s| ==> IsSpace(s[k]))
  {
    if s == [] || IsSpace(s[0]) then 0 else 1 + TokenLength(s[1..])
  }

  /** Python's str.split() with no argument: the maximal runs of non-whitespace characters. */
  function Split(s: string): seq<string>
    decreases |s|
  {
    var t := StripLeft(s);
    if t == [] then [] else
      var k := TokenLength(t);
      [t[..k]] + Split(t[k..])
  }

  lemma {:induction false} TokenLengthOf(tok: string, rest: string)
    requires NoSpace(tok) && (rest == [] || IsSpace(rest[0]))
    ensures TokenLength(tok + rest) == |tok|
    decreases |tok|
  {
    if tok != [] {
      assert (tok + rest)[1..] == tok[1..] + rest;
      TokenLengthOf(tok[1..], rest);
    }
  }

  lemma SplitToken(tok: string, rest: string)
    requires tok != [] && NoSpace(tok) && (rest == [] || IsSpace(rest[0]))
    ensures Split(tok + rest) == [tok] + Split(rest)
  {
    var s := tok + rest;
    assert StripLeft(s) == s;
    TokenLengthOf(tok, rest);
    assert s[..|tok|] == tok && s[|tok|..] == rest;
  }

  lemma SplitSpace(c: char, rest: string)
    requires IsSpace(c)
    ensures Split([c] + rest) == Split(rest)
  {
    assert ([c] + rest)[1..] == rest;
    assert StripLeft([c] + rest) == StripLeft(rest);
  }

  lemma {:induction false} SplitAllSpace(s: string)
    requires AllSpace(s)
    ensures Split(s) == []
    decreases |s|
  {
    if s != [] {
      assert s == [s[0]] + s[1..];
      SplitSpace(s[0], s[1..]);
      SplitAllSpace(s[1..]);
    }
  }

  /** Tokens joined by single spaces and followed by whitespace split back into the tokens. */
  lemma {:induction false} SplitJoined(tokens: seq<string>, tail: string)
    requires forall i | 0 <= i < |tokens| :: tokens[i] != [] && NoSpace(tokens[i])
    requires AllSpace(tail) && (tokens != [] ==> tail != [])
    ensures Split(JoinWith(tokens, " ") + tail) == tokens
    decreases |tokens|
  {
    if tokens == [] {
      assert JoinWith(tokens, " ") + tail == tail;
      SplitAllSpace(tail);
    } else if |tokens| == 1 {
      SplitLastToken(tokens[0], tail);
    } else {
      SplitJoined(tokens[1..], tail);
      SplitNextToken(tokens, tail);
    }
  }

  lemma SplitLastToken(token: string, tail: string)
    requires token != [] && NoSpace(token) && AllSpace(tail) && tail != []
    ensures Split(JoinWith([token], " ") + tail) == [token]
  {
    SplitToken(token, tail);
    SplitAllSpace(tail);
  }

  lemma SplitNextToken(tokens: seq<string>, tail: string)
    requires |tokens| >= 2 && tokens[0] != [] && NoSpace(tokens[0])
    requires Split(JoinWith(tokens[1..], " ") + tail) == tokens[1..]
    ensures Split(JoinWith(tokens, " ") + tail) == tokens
  {
    var rest := JoinWith(tokens[1..], " ") + tail;
    JoinCons(tokens, " ", tail);
    SplitToken(tokens[0], [' '] + rest);
    SplitSpace(' ', rest);
  }

  lemma JoinCons(parts: seq<string>, sep: string, tail: string)
    requires |parts| >= 2
    ensures JoinWith(parts, sep) + tail == parts[0] + (sep + (JoinWith(parts[1..], sep) + tail))
  {
  }

  // ---------------------------------------------------------------- str.split(sep) and str.join

  predicate OccursAt(s: string, sep: string, j: nat) {
    j + |sep| <= |s| && s[j..j + |sep|] == sep
  }

  /** The position of the first occurrence of `sep` in `s`, as Python's str.find. */
  function IndexOf(s: string, sep: string): (r: Option<nat>)
    requires |sep| > 0
    ensures r.Some? ==> OccursAt(s, sep, r.value) && forall j | 0 <= j < r.value :: !OccursAt(s, sep, j)
    ensures r.None? ==> forall j | 0 <= j <= |s| :: !OccursAt(s, sep, j)
  {
    if |s| < |sep| then None
    else if s[..|sep|] == sep then Some(0)
    else
      match IndexOf(s[1..], sep)
      case None =>
        assert forall j | 1 <= j <= |s| :: !OccursAt(s, sep, j) by {
          forall j | 1 <= j <= |s| ensures !OccursAt(s, sep, j) { OccursShift(s, sep, j); }
        }
        None
      case Some(i) =>
        OccursShift(s, sep, i + 1);
        assert forall j | 1 <= j < i + 1 :: !OccursAt(s, sep, j) by {
          forall j | 1 <= j < i + 1 ensures !OccursAt(s, sep, j) { OccursShift(s, sep, j); }
        }
        Some(i + 1)
  }

  /** An occurrence at j >= 1 is an occurrence at j - 1 in the string without its first char. */
  lemma OccursShift(s: string, sep: string, j: nat)
    requires 1 <= j && |s| >= 1
    ensures OccursAt(s, sep, j) <==> OccursAt(s[1..], sep, j - 1)
  {
    if j + |sep| <= |s| {
      assert s[1..][j - 1..j - 1 + |sep|] == s[j..j + |sep|];
    }
  }

  /** Python's str.split(sep) for a non-empty separator. */
  function SplitOn(s: string, sep: string): (parts: seq<string>)
    requires |sep| > 0
    ensures |parts| >= 1
    decreases |s|
  {
    match IndexOf(s, sep)
    case None => [s]
    case Some(i) => [s[..i]] + SplitOn(s[i + |sep|..], sep)
  }

  /** Python's sep.join(parts). */
  function JoinWith(parts: seq<string>, sep: string): string {
    if |parts| == 0 then "" else if |parts| == 1 then parts[0] else parts[0] + sep + JoinWith(parts[1..], sep)
  }

  predicate Lacks(s: string, c: char) { forall i | 0 <= i < |s| :: s[i] != c }

  lemma Absent(s: string, sep: string)
    requires |sep| > 0 && Lacks(s, sep[0])
    ensures IndexOf(s, sep) == None
  {
  }

  /** The first occurrence of `sep` in `a + sep + b` ends `a`, when `a` lacks the separator's first character. */
  lemma FirstOccurrence(a: string, sep: string, b: string)
    requires |sep| > 0 && Lacks(a, sep[0])
    ensures IndexOf(a + sep + b, sep) == Some(|a|)
  {
    var s := a + sep + b;
    assert s[|a|..|a| + |sep|] == sep;
    assert OccursAt(s, sep, |a|);
  }

  lemma {:induction false} SplitOnJoined(parts: seq<string>, sep: string, tail: string)
    requires |parts| >= 1 && |sep| > 0
    requires forall i | 0 <= i < |parts| :: Lacks(parts[i], sep[0])
    requires Lacks(tail, sep[0])
    ensures SplitOn(JoinWith(parts, sep) + tail, sep) == parts[..|parts| - 1] + [parts[|parts| - 1] + tail]
    decreases |parts|
  {
    if |parts| == 1 {
      SplitOnLast(parts[0], sep, tail);
    } else {
      SplitOnJoined(parts[1..], sep, tail);
      SplitOnNext(parts, sep, tail);
    }
  }

  lemma SplitOnLast(part: string, sep: string, tail: string)
    requires |sep| > 0 && Lacks(part, sep[0]) && Lacks(tail, sep[0])
    ensures SplitOn(JoinWith([part], sep) + tail, sep) == [part + tail]
  {
    var s := part + tail;
    assert Lacks(s, sep[0]) by {
      forall i | 0 <= i < |s| ensures s[i] != sep[0] {
        if i >= |part| { assert s[i] == tail[i - |part|]; }
      }
    }
    Absent(s, sep);
  }

  lemma SplitOnNext(parts: seq<string>, sep: string, tail: string)
    requires |parts| >= 2 && |sep| > 0 && Lacks(parts[0], sep[0])
    requires SplitOn(JoinWith(parts[1..], sep) + tail, sep) == parts[1..|parts| - 1] + [parts[|parts| - 1] + tail]
    ensures SplitOn(JoinWith(parts, sep) + tail, sep) == parts[..|parts| - 1] + [parts[|parts| - 1] + tail]
  {
    var rest := JoinWith(parts[1..], sep) + tail;
    JoinCons(parts, sep, tail);
    SplitOnAfter(parts[0], sep, rest);
    assert parts[..|parts| - 1] == [parts[0]] + parts[1..|parts| - 1];
  }

  lemma SplitOnAfter(a: string, sep: string, b: string)
    requires |sep| > 0 && Lacks(a, sep[0])
    ensures SplitOn(a + (sep + b), sep) == [a] + SplitOn(b, sep)
  {
    var s := a + (sep + b);
    assert s == a + sep + b;
    FirstOccurrence(a, sep, b);
    assert s[..|a|] == a;
    assert s[|a| + |sep|..] == b;
  }

  lemma LacksConcat(a: string, b: string, c: char)
    ensures Lacks(a + b, c) <==> Lacks(a, c) && Lacks(b, c)
  {
    if Lacks(a + b, c) {
      forall i | 0 <= i < |a| ensures a[i] != c { assert a[i] == (a + b)[i]; }
      forall i | 0 <= i < |b| ensures b[i] != c { assert b[i] == (a + b)[|a| + i]; }
    }
  }

  lemma {:induction false} LacksJoin(parts: seq<string>, sep: string, c: char)
    requires Lacks(sep, c) && forall i | 0 <= i < |parts| :: Lacks(parts[i], c)
    ensures Lacks(JoinWith(parts, sep), c)
    decreases |parts|
  {
    if |parts| >= 2 {
      LacksJoin(parts[1..], sep, c);
      LacksConcat(parts[0], sep, c);
      LacksConcat(parts[0] + sep, JoinWith(parts[1..], sep), c);
    }
  }

  /** A numeral holds only digits and the minus sign. */
  lemma DecimalsLack(xs: seq<int>, c: char)
    requires c != '-' && !IsDigit(c)
    ensures forall i | 0 <= i < |xs| :: Lacks(Decimals(xs)[i], c)
  {
  }

  // ---------------------------------------------------------------- substrings and case

  /** Python's `needle in hay` on strings. */
  predicate Contains(hay: string, needle: string) {
    exists i | 0 <= i <= |hay| :: OccursAt(hay, needle, i)
  }

  /** Lower and upper case of ASCII letters; every other character, non-ASCII letters included,
      is kept as it is. */
  function LowerChar(c: char): char {
    if 'A' <= c <= 'Z' then (c as int + 32) as char else c
  }

  function UpperChar(c: char): char {
    if 'a' <= c <= 'z' then (c as int - 32) as char else c
  }

  /** Python's str.lower() restricted to ASCII letters. */
  function Lower(s: string): (r: string)
    ensures |r| == |s| && forall i | 0 <= i < |s| :: r[i] == LowerChar(s[i])
  {
    if s == [] then [] else [LowerChar(s[0])] + Lower(s[1..])
  }
}
