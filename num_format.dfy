/** Rendering of numbers as the converters print them: a Python `int`
    through `str`, anything else through the format `.15g`
    (notebooks/search_slc_grd_raw.py:89-93). Floats are modelled as exact
    reals, so `FormatG15` rounds the exact value to 15 significant digits,
    half to even, and lays it out as `g` does: fixed notation when the
    decimal exponent is in [-4, 15), scientific otherwise, trailing zeros
    and a bare decimal point removed. */
module NumFormat {
  import opened Wrappers

  // ----- decimal digits of naturals and integers -----

  function Pow10(n: nat): (r: nat)
    ensures r >= 1
  {
    if n == 0 then 1 else 10 * Pow10(n - 1)
  }

  function DigitChar(d: nat): (c: char)
    requires d < 10
  {
    "0123456789"[d]
  }

  predicate IsDigit(c: char) {
    '0' <= c <= '9'
  }

  function DigitValue(c: char): (d: nat)
    requires IsDigit(c)
    ensures d < 10
  {
    (c as int) - ('0' as int)
  }

  /** The decimal digits of `n`, most significant first, with no leading zero. */
  function NatDigits(n: nat): (s: string)
    ensures |s| >= 1
    ensures forall i :: 0 <= i < |s| ==> IsDigit(s[i])
    decreases n
  {
    if n < 10 then [DigitChar(n)] else NatDigits(n / 10) + [DigitChar(n % 10)]
  }

  /** Python's `str` on an `int`. */
  function IntToString(i: int): string {
    if i < 0 then "-" + NatDigits(-i) else NatDigits(i)
  }

  /** Reads a non-empty run of decimal digits. */
  function ParseDigits(s: string): (r: Option<nat>)
    decreases |s|
  {
    if |s| == 0 || !IsDigit(s[|s| - 1]) then None
    else if |s| == 1 then Some(DigitValue(s[0]))
    else match ParseDigits(s[..|s| - 1])
      case None => None
      case Some(high) => Some(10 * high + DigitValue(s[|s| - 1]))
  }

  /** Python's `int` on a string made of an optional minus sign and digits. */
  function ParseInt(s: string): Option<int> {
    if |s| > 0 && s[0] == '-' then
      match ParseDigits(s[1..])
      case None => None
      case Some(n) => Some(-(n as int))
    else
      match ParseDigits(s)
      case None => None
      case Some(n) => Some(n)
  }

  lemma {:induction false} ParseNatDigits(n: nat)
    ensures ParseDigits(NatDigits(n)) == Some(n)
    decreases n
  {
    var s := NatDigits(n);
    if n >= 10 {
      ParseNatDigits(n / 10);
      assert s[..|s| - 1] == NatDigits(n / 10);
      assert DigitValue(s[|s| - 1]) == n % 10;
    } else {
      assert DigitValue(s[0]) == n;
    }
  }

  /** `str` on an `int` is undone by `int` on the text. */
  lemma IntToStringRoundTrip(i: int)
    ensures ParseInt(IntToString(i)) == Some(i)
  {
    if i < 0 {
      ParseNatDigits(-i);
      ParseNegative(NatDigits(-i), -i);
    } else {
      ParseNatDigits(i);
      ParsePositive(NatDigits(i), i);
    }
  }

  lemma ParseNegative(t: string, n: nat)
    requires ParseDigits(t) == Some(n)
    ensures ParseInt("-" + t) == Some(-(n as int))
  {
    var s := "-" + t;
    assert s[0] == '-' && s[1..] == t;
  }

  lemma ParsePositive(t: string, n: nat)
    requires |t| >= 1 && IsDigit(t[0]) && ParseDigits(t) == Some(n)
    ensures ParseInt(t) == Some(n)
  {
    assert t[0] != '-';
  }

  lemma {:induction false} NatDigitsLength(n: nat, d: nat)
    requires Pow10(d) <= n < Pow10(d + 1)
    ensures |NatDigits(n)| == d + 1
    decreases d
  {
    if d > 0 {
      assert n >= 10;
      assert Pow10(d) == 10 * Pow10(d - 1);
      NatDigitsLength(n / 10, d - 1);
    } else {
      assert n < 10;
    }
  }

  lemma {:induction false} NatDigitsBounds(n: nat)
    requires n >= 1
    ensures Pow10(|NatDigits(n)| - 1) <= n < Pow10(|NatDigits(n)|)
    decreases n
  {
    if n >= 10 {
      NatDigitsBounds(n / 10);
    }
  }

  lemma {:induction false} Pow10Add(a: nat, b: nat)
    ensures Pow10(a + b) == Pow10(a) * Pow10(b)
    decreases a
  {
    if a > 0 {
      Pow10Add(a - 1, b);
    }
  }

  function Zeros(k: nat): (s: string)
    ensures |s| == k && forall i :: 0 <= i < k ==> s[i] == '0'
  {
    seq(k, _ => '0')
  }

  lemma MulTen(n: nat, p: nat)
    ensures n * (10 * p) == (n * p) * 10
  {
  }

  lemma MulAtLeast(n: nat, p: nat)
    requires n >= 1 && p >= 1
    ensures n * p >= 1
  {
  }

  lemma NatDigitsTimes10(m: nat)
    requires m >= 1
    ensures NatDigits(m * 10) == NatDigits(m) + "0"
  {
    var t := m * 10;
    assert t / 10 == m && t % 10 == 0;
  }

  /** Appending `k` zero digits is multiplying by ten to the `k`. */
  lemma {:induction false} NatDigitsShift(n: nat, k: nat)
    requires n >= 1
    ensures NatDigits(n * Pow10(k)) == NatDigits(n) + Zeros(k)
    decreases k
  {
    if k > 0 {
      NatDigitsShift(n, k - 1);
      var p := Pow10(k - 1);
      var m := n * p;
      assert Pow10(k) == 10 * p;
      MulTen(n, p);
      MulAtLeast(n, p);
      NatDigitsTimes10(m);
      assert Zeros(k) == Zeros(k - 1) + "0";
    }
  }

  function StripTrailingZeros(s: string): (r: string)
    ensures |r| <= |s| && r == s[..|r|]
    ensures |r| > 0 ==> r[|r| - 1] != '0'
    ensures forall i :: |r| <= i < |s| ==> s[i] == '0'
    decreases |s|
  {
    if |s| > 0 && s[|s| - 1] == '0' then StripTrailingZeros(s[..|s| - 1]) else s
  }

  // ----- normalising to 15 significant digits -----

  const Low: real := 100000000000000.0     // 10^14
  const High: real := 1000000000000000.0   // 10^15

  lemma Pow10Constants()
    ensures Pow10(14) as real == Low && Pow10(15) as real == High
  {
    assert Pow10(14) == 100000000000000 by {
      assert Pow10(4) == 10000;
      assert Pow10(9) == 1000000000;
    }
  }

  /** Divides `q >= 10^14` by ten until it is below 10^15, counting the steps in `x`. */
  function NormUp(q: real, x: int): (r: (real, int))
    requires q >= Low
    ensures Low <= r.0 < High && r.1 >= x
    decreases q.Floor
  {
    if q < High then (q, x) else NormUp(q / 10.0, x + 1)
  }

  /** Multiplies `0 < q < 10^15` by ten until it is at least 10^14, counting down in `x`. */
  function NormDown(q: real, x: int): (r: (real, int))
    requires 0.0 < q < High
    ensures Low <= r.0 < High && r.1 <= x
    decreases (High / q).Floor
  {
    if q >= Low then (q, x)
    else
      NormDownDecreases(q);
      NormDown(q * 10.0, x - 1)
  }

  lemma NormDownDecreases(q: real)
    requires 0.0 < q < Low
    ensures (High / (q * 10.0)).Floor < (High / q).Floor
  {
    var t := High / q;
    assert t > 10.0;
    assert High / (q * 10.0) == t / 10.0;
  }

  /** `a > 0` scaled by a power of ten into [10^14, 10^15), and the decimal
      exponent `x` of its leading digit: `a == q * 10^(x - 14)`. */
  function Normalize(a: real): (r: (real, int))
    requires a > 0.0
    ensures Low <= r.0 < High
  {
    if a >= Low then NormUp(a, 14) else NormDown(a, 14)
  }

  // ----- rounding to 15 significant digits -----

  function RoundHalfEven(q: real): (m: int)
    ensures q - 0.5 <= m as real <= q + 0.5
  {
    var f := q.Floor;
    var frac := q - f as real;
    if frac < 0.5 then f
    else if frac > 0.5 then f + 1
    else if f % 2 == 0 then f else f + 1
  }

  /** The 15 significant digits of `a > 0`, rounded half to even, as an
      integer `m` in [10^14, 10^15), and the decimal exponent `x` of the
      leading digit after rounding. */
  function Significand(a: real): (r: (nat, int))
    requires a > 0.0
    ensures Pow10(14) <= r.0 < Pow10(15)
  {
    var (q, x) := Normalize(a);
    var m := RoundHalfEven(q);
    Pow10Constants();
    if m == Pow10(15) then (Pow10(14), x + 1) else (m, x)
  }

  /** `f` layout of the 15 digits `d` for exponent `x`, precision 14 - x. */
  function FixedNotation(d: string, x: int): string
    requires |d| == 15 && -4 <= x < 15
  {
    var intPart := if x >= 0 then d[..x + 1] else "0";
    var fracPart := StripTrailingZeros(if x >= 0 then d[x + 1..] else Zeros(-x - 1) + d);
    if fracPart == "" then intPart else intPart + "." + fracPart
  }

  /** `e` layout: one digit, the rest after a point, and a signed exponent of at least two digits. */
  function SciNotation(d: string, x: int): string
    requires |d| == 15
  {
    var fracPart := StripTrailingZeros(d[1..]);
    var mantissa := if fracPart == "" then d[..1] else d[..1] + "." + fracPart;
    var expDigits := NatDigits(if x < 0 then -x else x);
    mantissa + "e" + (if x < 0 then "-" else "+") + (if |expDigits| < 2 then "0" else "") + expDigits
  }

  /** Python's `f"{r:.15g}"` for a finite float with exact value `r`. */
  function FormatG15(r: real): string {
    if r == 0.0 then "0"
    else
      var sig := Significand(if r < 0.0 then -r else r);
      (if r < 0.0 then "-" else "") + Layout(sig.0, sig.1)
  }

  /** The 15 digits of `m` in the layout `g` picks for exponent `x`. */
  function Layout(m: nat, x: int): string
    requires Pow10(14) <= m < Pow10(15)
  {
    NatDigitsLength(m, 14);
    var d := NatDigits(m);
    if -4 <= x < 15 then FixedNotation(d, x) else SciNotation(d, x)
  }

  lemma {:induction false} Pow10Monotone(x: nat, y: nat)
    requires x <= y
    ensures Pow10(x) <= Pow10(y)
    decreases y - x
  {
    if x < y {
      Pow10Monotone(x, y - 1);
    }
  }

  lemma MulCastTen(x: int)
    ensures (x as real) * 10.0 == (x * 10) as real
  {
  }

  lemma MulLe(a: nat, b: nat, p: nat)
    requires a <= b
    ensures a * p <= b * p
  {
  }

  lemma MulLt(a: nat, b: nat, p: nat)
    requires a < b && p >= 1
    ensures a * p < b * p
  {
  }

  /** Normalising a natural number of `d <= 15` digits appends `15 - d` zeros. */
  lemma {:induction false} NormDownNat(n: nat, d: nat, j: nat, q: nat)
    requires 1 <= d <= 15 && Pow10(d - 1) <= n < Pow10(d)
    requires j <= 15 - d && q == n * Pow10(j)
    requires 1 <= q && (q as real) < High
    ensures NormDown(q as real, 14 - j) == ((n * Pow10(15 - d)) as real, d - 1)
    decreases 15 - d - j
  {
    Pow10Constants();
    if j < 15 - d {
      MulLt(n, Pow10(d), Pow10(j));
      Pow10Add(d, j);
      Pow10Monotone(d + j, 14);
      assert (q as real) < Low;
      assert Pow10(j + 1) == 10 * Pow10(j);
      MulTen(n, Pow10(j));
      MulCastTen(q);
      assert n * Pow10(j + 1) == q * 10;
      assert (q * 10) as real < High;
      NormDownNat(n, d, j + 1, q * 10);
    } else {
      MulLe(Pow10(d - 1), n, Pow10(j));
      Pow10Add(d - 1, j);
      assert (q as real) >= Low;
    }
  }

  /** A natural number of `e + 1 <= 15` digits has those digits, padded with
      zeros on the right, as its significand, and `e` as its exponent. */
  lemma SignificandOfNat(n: nat, e: nat)
    requires Pow10(e) <= n < Pow10(e + 1) && e <= 14
    ensures Significand(n as real) == (n * Pow10(14 - e), e)
  {
    Pow10Constants();
    var m := n * Pow10(14 - e);
    if e == 14 {
      assert Normalize(n as real) == (n as real, 14);
    } else {
      Pow10Monotone(e + 1, 14);
      assert n * Pow10(0) == n;
      NormDownNat(n, e + 1, 0, n);
      assert Normalize(n as real) == NormDown(n as real, 14);
    }
    assert RoundHalfEven(m as real) == m;
  }

  /** The fixed layout of a number's digits followed by zeros is the number's digits. */
  lemma FixedOfShifted(n: nat, e: nat, m: nat)
    requires n >= 1 && |NatDigits(n)| == e + 1 && e <= 14
    requires m == n * Pow10(14 - e) && |NatDigits(m)| == 15
    ensures FixedNotation(NatDigits(m), e) == NatDigits(n)
  {
    var k: nat := 14 - e;
    NatDigitsShift(n, k);
    FixedOfPadded(NatDigits(n), k, NatDigits(m), e);
  }

  /** Digits followed by zeros, laid out with the point after the given digits. */
  lemma FixedOfPadded(a: string, k: nat, d: string, e: nat)
    requires d == a + Zeros(k) && |a| == e + 1 && |d| == 15
    ensures FixedNotation(d, e) == a
  {
    assert d[..e + 1] == a && d[e + 1..] == Zeros(k);
    StripZeros(k);
  }

  lemma StripZeros(k: nat)
    ensures StripTrailingZeros(Zeros(k)) == ""
  {
  }

  /** A whole number of at most 15 digits prints under `.15g` exactly as `str` prints the int. */
  lemma FormatG15Integral(i: int)
    requires -(Pow10(15) as int) < i < Pow10(15)
    ensures FormatG15(i as real) == IntToString(i)
  {
    if i != 0 {
      var n: nat := if i < 0 then -i else i;
      assert n as real == (if (i as real) < 0.0 then -(i as real) else i as real);
      LayoutOfNat(n);
    }
  }

  /** The digits and exponent `.15g` finds for a whole number of at most 15
      digits are laid out as the number's own digits. */
  lemma LayoutOfNat(n: nat)
    requires 1 <= n < Pow10(15)
    ensures Layout(Significand(n as real).0, Significand(n as real).1) == NatDigits(n)
  {
    NatDigitsBounds(n);
    var e := |NatDigits(n)| - 1;
    if e > 14 {
      Pow10Monotone(15, e);
    }
    SignificandOfNat(n, e);
    var m := n * Pow10(14 - e);
    NatDigitsLength(m, 14);
    FixedOfShifted(n, e, m);
  }

  // ----- the characters a rendered number is made of -----

  /** Digits, sign, decimal point and exponent marker; never a space, comma or parenthesis. */
  predicate NumberChar(c: char) {
    IsDigit(c) || c == '-' || c == '+' || c == '.' || c == 'e'
  }

  predicate NumberText(s: string) {
    |s| > 0 && forall i :: 0 <= i < |s| ==> NumberChar(s[i])
  }

  predicate AllDigits(s: string) {
    forall i :: 0 <= i < |s| ==> IsDigit(s[i])
  }

  lemma IntToStringIsNumberText(i: int)
    ensures NumberText(IntToString(i))
  {
  }

  lemma FixedIsNumberText(d: string, x: int)
    requires |d| == 15 && AllDigits(d) && -4 <= x < 15
    ensures NumberText(FixedNotation(d, x))
  {
    var intPart := if x >= 0 then d[..x + 1] else "0";
    var tail := if x >= 0 then d[x + 1..] else Zeros(-x - 1) + d;
    assert AllDigits(intPart) && |intPart| > 0;
    assert AllDigits(tail);
    var fracPart := StripTrailingZeros(tail);
    assert AllDigits(fracPart);
    DottedIsNumberText(intPart, fracPart);
  }

  lemma DottedIsNumberText(intPart: string, fracPart: string)
    requires |intPart| > 0 && AllDigits(intPart) && AllDigits(fracPart)
    ensures NumberText(if fracPart == "" then intPart else intPart + "." + fracPart)
  {
  }

  lemma SciIsNumberText(d: string, x: int)
    requires |d| == 15 && AllDigits(d)
    ensures NumberText(SciNotation(d, x))
  {
    var fracPart := StripTrailingZeros(d[1..]);
    assert AllDigits(fracPart);
    assert AllDigits(NatDigits(if x < 0 then -x else x));
  }

  lemma FormatG15IsNumberText(r: real)
    ensures NumberText(FormatG15(r))
  {
    if r != 0.0 {
      var sig := Significand(if r < 0.0 then -r else r);
      LayoutIsNumberText(sig.0, sig.1);
      SignedIsNumberText(r < 0.0, Layout(sig.0, sig.1));
    }
  }

  lemma LayoutIsNumberText(m: nat, x: int)
    requires Pow10(14) <= m < Pow10(15)
    ensures NumberText(Layout(m, x))
  {
    NatDigitsLength(m, 14);
    var d := NatDigits(m);
    if -4 <= x < 15 { FixedIsNumberText(d, x); } else { SciIsNumberText(d, x); }
  }

  lemma SignedIsNumberText(neg: bool, body: string)
    requires NumberText(body)
    ensures NumberText((if neg then "-" else "") + body)
  {
  }
}
