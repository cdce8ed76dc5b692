/// Cell values of a table, Python's `str()` on them, and the small string
/// operations the pipeline relies on (startswith, endswith, split, join,
/// capitalize), written out over `seq<char>`.
module Values {

  datatype Option<+T> = None | Some(value: T)

  /** One table cell, tagged with the pandas dtype it came from: int64, float64 or text. */
  datatype Cell = IntV(i: int) | FloatV(r: real) | TextV(s: string)

  predicate IsNumeric(c: Cell) {
    c.IntV? || c.FloatV?
  }

  /** The numeric value of an int or float cell. */
  function NumValue(c: Cell): real
    requires IsNumeric(c)
  {
    if c.IntV? then c.i as real else c.r
  }

  predicate IsDigit(ch: char) {
    '0' <= ch <= '9'
  }

  function DigitChar(d: nat): (ch: char)
    requires d < 10
    ensures IsDigit(ch) && ch as int - '0' as int == d
  {
    (d + '0' as int) as char
  }

  /** Decimal digits of a natural number, most significant first, no leading zeros. */
  function NatToString(n: nat): (s: string)
    ensures |s| >= 1
    ensures forall k :: 0 <= k < |s| ==> IsDigit(s[k])
    ensures |s| > 1 ==> s[0] != '0'
    decreases n
  {
    if n < 10 then [DigitChar(n)] else NatToString(n / 10) + [DigitChar(n % 10)]
  }

  /** The value of a string of decimal digits. */
  function DigitsValue(s: string): nat
    requires forall k :: 0 <= k < |s| ==> IsDigit(s[k])
  {
    if |s| == 0 then 0
    else
      assert IsDigit(s[|s| - 1]);
      DigitsValue(s[..|s| - 1]) * 10 + (s[|s| - 1] as int - '0' as int)
  }

  /** Reading back the digits of `NatToString(n)` gives `n`: the decimal rendering loses nothing. */
  lemma {:induction false} NatToStringRoundTrip(n: nat)
    ensures DigitsValue(NatToString(n)) == n
  {
    if n >= 10 {
      NatToStringRoundTrip(n / 10);
      var s := NatToString(n);
      assert s[..|s| - 1] == NatToString(n / 10);
    }
  }

  /** `str(n)` for a Python int. */
  function IntToString(n: int): string {
    if n < 0 then "-" + NatToString(-n) else NatToString(n)
  }

  /** Up to `k` decimal digits of a fraction in [0, 1), stopping early once the rest is zero. */
  function FracDigits(f: real, k: nat): (s: string)
    requires 0.0 <= f < 1.0
    ensures |s| <= k
    decreases k
  {
    if f == 0.0 || k == 0 then ""
    else
      var d := (f * 10.0).Floor;
      [DigitChar(d)] + FracDigits(f * 10.0 - d as real, k - 1)
  }

  /** 1e16: from this magnitude on, Python prints a float in exponent form. */
  const ExpThreshold: int := 10000000000000000

  /** `k` zero digits. */
  function Zeros(k: nat): (s: string)
    ensures |s| == k && forall j :: 0 <= j < k ==> s[j] == '0'
  {
    if k == 0 then "" else Zeros(k - 1) + "0"
  }

  /** The digits without their trailing zeros (the first digit is kept). */
  function TrimZeros(s: string): (m: string)
    requires |s| >= 1
    ensures 1 <= |m| <= |s| && m == s[..|m|]
  {
    if |s| > 1 && s[|s| - 1] == '0' then TrimZeros(s[..|s| - 1]) else s
  }

  /** Putting the trailing zeros back gives the digits again. */
  lemma {:induction false} TrimZerosRestore(s: string)
    requires |s| >= 1
    ensures TrimZeros(s) + Zeros(|s| - |TrimZeros(s)|) == s
    ensures |TrimZeros(s)| > 1 ==> TrimZeros(s)[|TrimZeros(s)| - 1] != '0'
  {
    if |s| > 1 && s[|s| - 1] == '0' {
      var p := s[..|s| - 1];
      TrimZerosRestore(p);
      assert s == p + "0";
    }
  }

  /** Python's exponent form of a positive integral float: the significant
      digits with a point after the first, then `e+` and the exponent, with
      at least two digits (`1e+16`, `1.2345e+20`). */
  function ExpForm(n: nat): string
    requires n >= 1
  {
    var s := NatToString(n);
    Mantissa(TrimZeros(s)) + Exponent(|s| - 1)
  }

  /** The significant digits with a point after the first (none for a single digit). */
  function Mantissa(m: string): string
    requires |m| >= 1
  {
    m[..1] + (if |m| > 1 then "." + m[1..] else "")
  }

  /** `e+` and the exponent, padded to two digits. */
  function Exponent(e: nat): string {
    "e+" + (if e < 10 then "0" else "") + NatToString(e)
  }

  /** `str(x)` for a Python float: an integral value below 1e16 in magnitude
      prints as `<digits>.0`, one from 1e16 on in exponent form, any other
      value as its decimal expansion (at most 17 fractional digits). */
  function FloatToString(x: real): string {
    (if x < 0.0 then "-" else "") + MagnitudeToString(Magnitude(x))
  }

  function Magnitude(x: real): (a: real)
    ensures a >= 0.0
  {
    if x < 0.0 then -x else x
  }

  /** `str(a)` for a non-negative float `a`. */
  function MagnitudeToString(a: real): string
    requires a >= 0.0
  {
    var whole := a.Floor;
    var frac := a - whole as real;
    if frac == 0.0 && whole >= ExpThreshold then ExpForm(whole)
    else NatToString(whole) + "." + (if frac == 0.0 then "0" else FracDigits(frac, 17))
  }

  /** Python's `str(value)` on a cell. */
  function Show(c: Cell): string {
    match c
    case IntV(n) => IntToString(n)
    case FloatV(x) => FloatToString(x)
    case TextV(s) => s
  }

  /** An integral float below 1e16 in magnitude prints as the int with the
      same value followed by `.0`: `str(2022.0) == str(2022) + ".0"`. */
  lemma ShowIntegralFloat(n: int)
    requires -ExpThreshold < n < ExpThreshold
    ensures Show(FloatV(n as real)) == Show(IntV(n)) + ".0"
  {
    if n < 0 {
      assert (-(n as real)).Floor == -n;
    } else {
      assert (n as real).Floor == n;
    }
  }

  /** How a non-negative integral float prints. */
  lemma IntegralFloatString(n: nat)
    ensures FloatToString(n as real) == if n >= ExpThreshold then ExpForm(n) else NatToString(n) + ".0"
  {
    assert (n as real).Floor == n;
  }

  /** From 1e16 on, an integral float prints in exponent form, never as
      `<digits>.0` (its significant digits are those `TrimZerosRestore`
      relates to the digits of the int). */
  lemma LargeIntegralFloat(n: nat)
    requires n >= ExpThreshold
    ensures Show(FloatV(n as real)) == ExpForm(n)
    ensures 'e' in Show(FloatV(n as real))
  {
    IntegralFloatString(n);
    ExpMarker(n);
  }

  /** Below -1e16 the exponent form follows a minus sign. */
  lemma NegativeLargeIntegralFloat(n: int)
    requires n <= -ExpThreshold
    ensures FloatToString(n as real) == "-" + ExpForm(-n)
  {
    LargeMagnitude(Magnitude(n as real), -n);
  }

  /** The magnitude of a float of integral value `k` from 1e16 on prints in exponent form. */
  lemma LargeMagnitude(a: real, k: nat)
    requires a == k as real && k >= ExpThreshold
    ensures MagnitudeToString(a) == ExpForm(k)
  {
    assert a.Floor == k;
  }

  /** `str(float(n))` for an int `n`, by magnitude. */
  lemma IntAsFloat(n: int)
    ensures -ExpThreshold < n < ExpThreshold ==> Show(FloatV(n as real)) == Show(IntV(n)) + ".0"
    ensures n >= ExpThreshold ==> Show(FloatV(n as real)) == ExpForm(n) && 'e' in Show(FloatV(n as real))
    ensures n <= -ExpThreshold ==> FloatToString(n as real) == "-" + ExpForm(-n)
  {
    if -ExpThreshold < n < ExpThreshold {
      ShowIntegralFloat(n);
    } else if n >= ExpThreshold {
      LargeIntegralFloat(n);
    } else {
      NegativeLargeIntegralFloat(n);
    }
  }

  /** `str(int(x))` extended by `.0` is `str(x)` for an integral float below 1e16. */
  lemma FloatAsInt(x: real)
    requires IsIntegral(x)
    ensures -ExpThreshold < x.Floor < ExpThreshold ==> Show(IntV(x.Floor)) + ".0" == Show(FloatV(x))
  {
    if -ExpThreshold < x.Floor < ExpThreshold {
      ShowIntegralFloat(x.Floor);
    }
  }

  lemma ExpMarker(n: nat)
    requires n >= 1
    ensures 'e' in ExpForm(n)
  {
    var head := Mantissa(TrimZeros(NatToString(n)));
    var tail := Exponent(|NatToString(n)| - 1);
    assert ExpForm(n) == head + tail;
    assert (head + tail)[|head|] == 'e';
  }

  /** The model prints the integral float `10**k` as `1e+k` from `k = 16` on
      (`1e+16`, `1e+100`); this is Python's `str(float(10**k))` up to
      `k = 308`, past which `float` overflows. */
  lemma PowerOfTenString(k: nat)
    requires k >= 16
    ensures Show(FloatV(Pow10(k) as real)) == "1e+" + NatToString(k)
  {
    var n := Pow10(k);
    assert n >= ExpThreshold by {
      Pow10Monotone(16, k);
      ThresholdIsPower();
    }
    IntegralFloatString(n);
    PowerDigits(k);
    TrimOnes(k);
    OneDigitExpForm(n, k);
  }

  lemma {:induction false} Pow10Monotone(i: nat, j: nat)
    requires i <= j
    ensures Pow10(i) <= Pow10(j)
  {
    if i < j {
      Pow10Monotone(i, j - 1);
    }
  }

  /** A number whose only significant digit is a one, followed by `k`
      zeros, prints as `1e+k`. */
  lemma OneDigitExpForm(n: nat, k: nat)
    requires n >= 1 && k >= 10
    requires |NatToString(n)| == k + 1 && TrimZeros(NatToString(n)) == "1"
    ensures ExpForm(n) == "1e+" + NatToString(k)
  {
    assert Mantissa("1") == "1";
    var t := Exponent(k);
    assert t == "e+" + NatToString(k);
    assert ExpForm(n) == "1" + t;
  }

  lemma ThresholdIsPower()
    ensures Pow10(16) == ExpThreshold
  {
    assert Pow10(4) == 10000;
    Pow10Add(4, 4);
    Pow10Add(8, 8);
  }

  function Pow10(k: nat): nat {
    if k == 0 then 1 else 10 * Pow10(k - 1)
  }

  lemma {:induction false} Pow10Add(a: nat, b: nat)
    ensures Pow10(a + b) == Pow10(a) * Pow10(b)
  {
    if a > 0 {
      Pow10Add(a - 1, b);
    }
  }

  /** The digits of `10^k` are a one and `k` zeros. */
  lemma {:induction false} PowerDigits(k: nat)
    ensures NatToString(Pow10(k)) == "1" + Zeros(k)
  {
    if k > 0 {
      PowerDigits(k - 1);
      assert Pow10(k) / 10 == Pow10(k - 1) && Pow10(k) % 10 == 0;
    }
  }

  lemma {:induction false} TrimOnes(k: nat)
    ensures TrimZeros("1" + Zeros(k)) == "1"
  {
    if k > 0 {
      TrimOnes(k - 1);
      assert ("1" + Zeros(k))[..k] == "1" + Zeros(k - 1);
    }
  }

  predicate IsIntegral(x: real) {
    x == x.Floor as real
  }

  /** The second spelling of a number tried by value replacement:
      `str(int(v))` for an integral float and `str(float(v))` for an int. */
  function AltForm(c: Cell): (r: Option<string>)
    ensures c.IntV? && -ExpThreshold < c.i < ExpThreshold ==> r == Some(Show(c) + ".0")
    ensures c.IntV? && c.i >= ExpThreshold ==> r == Some(ExpForm(c.i)) && 'e' in r.value
    ensures c.IntV? && c.i <= -ExpThreshold ==> r == Some("-" + ExpForm(-c.i))
    ensures c.FloatV? && IsIntegral(c.r) ==> r.Some? && r.value == Show(IntV(c.r.Floor))
    ensures c.FloatV? && IsIntegral(c.r) && -ExpThreshold < c.r.Floor < ExpThreshold ==> r.value + ".0" == Show(c)
    ensures c.TextV? || (c.FloatV? && !IsIntegral(c.r)) ==> r.None?
  {
    match c
    case IntV(_) =>
      IntAsFloat(c.i);
      Some(Show(FloatV(c.i as real)))
    case FloatV(_) =>
      if IsIntegral(c.r) then
        FloatAsInt(c.r);
        Some(Show(IntV(c.r.Floor)))
      else None
    case TextV(_) => None
  }

  predicate StartsWith(s: string, prefix: string) {
    |prefix| <= |s| && s[..|prefix|] == prefix
  }

  predicate EndsWith(s: string, suffix: string) {
    |suffix| <= |s| && s[|s| - |suffix|..] == suffix
  }

  /** `s.split(sep)` for a one-character separator: empty pieces are kept. */
  function Split(s: string, sep: char): (parts: seq<string>)
    ensures |parts| >= 1
    ensures forall k :: 0 <= k < |parts| ==> sep !in parts[k]
  {
    if |s| == 0 then [""]
    else
      var rest := Split(s[1..], sep);
      if s[0] == sep then [""] + rest else [[s[0]] + rest[0]] + rest[1..]
  }

  /** `sep.join(parts)`. */
  function Join(parts: seq<string>, sep: string): string {
    if |parts| == 0 then ""
    else if |parts| == 1 then parts[0]
    else parts[0] + sep + Join(parts[1..], sep)
  }

  /** Joining the pieces of a split with the separator gives back the original string. */
  lemma {:induction false} JoinSplit(s: string, sep: char)
    ensures Join(Split(s, sep), [sep]) == s
  {
    if |s| > 0 {
      JoinSplit(s[1..], sep);
      var rest := Split(s[1..], sep);
      if s[0] != sep {
        if |rest| == 1 {
          assert Join(Split(s, sep), [sep]) == [s[0]] + rest[0];
        } else {
          assert Join(Split(s, sep), [sep]) == [s[0]] + rest[0] + [sep] + Join(rest[1..], [sep]);
        }
      } else {
        assert s == [sep] + s[1..];
      }
    }
  }

  function Upper(ch: char): char {
    if 'a' <= ch <= 'z' then (ch as int - 32) as char else ch
  }

  function Lower(ch: char): char {
    if 'A' <= ch <= 'Z' then (ch as int + 32) as char else ch
  }

  function LowerAll(s: string): (r: string)
    ensures |r| == |s| && forall k :: 0 <= k < |s| ==> r[k] == Lower(s[k])
  {
    seq(|s|, k requires 0 <= k < |s| => Lower(s[k]))
  }

  /** `word.capitalize()` on ASCII text: first character upper case, the rest lower case. */
  function Capitalize(w: string): (r: string)
    ensures |r| == |w|
    ensures |w| > 0 ==> r[0] == Upper(w[0])
    ensures forall k :: 1 <= k < |w| ==> r[k] == Lower(w[k])
  {
    if |w| == 0 then "" else [Upper(w[0])] + LowerAll(w[1..])
  }
}
