/**
 * The JavaScript number built-ins the core relies on, over exact arithmetic:
 * `parseFloat`, `x || 0`, `Math.round`, `Math.abs`, an integer's `toString()`
 * and the remainder operator `%`.
 */
module JsNumber {
  import opened Wrappers
  import opened JsText

  predicate IsDigit(c: char) { '0' <= c <= '9' }

  function DigitValue(c: char): (d: nat)
    requires IsDigit(c)
    ensures d < 10
  {
    c as int - '0' as int
  }

  function DigitChar(d: nat): (c: char)
    requires d < 10
    ensures IsDigit(c) && DigitValue(c) == d
  {
    ('0' as int + d) as char
  }

  /** The number read so far, `acc`, followed by the digits `d`: what a left-to-right scan accumulates. */
  function Accumulate(acc: nat, d: string): nat
    requires forall i :: 0 <= i < |d| ==> IsDigit(d[i])
    decreases |d|
  {
    if d == [] then acc else Accumulate(acc * 10 + DigitValue(d[0]), d[1..])
  }

  lemma {:induction false} AccumulateSnoc(acc: nat, d: string, c: char)
    requires forall i :: 0 <= i < |d| ==> IsDigit(d[i])
    requires IsDigit(c)
    decreases |d|
    ensures Accumulate(acc, d + [c]) == Accumulate(acc, d) * 10 + DigitValue(c)
  {
    if d != [] {
      assert (d + [c])[1..] == d[1..] + [c];
      AccumulateSnoc(acc * 10 + DigitValue(d[0]), d[1..], c);
    }
  }

  /** Where the scan of `parseFloat` is: before the number, in its whole part, or after its point. */
  datatype ScanState =
    | Leading
    | Whole(negative: bool, acc: nat, seen: bool)
    | Fraction(negative: bool, whole: nat, digits: string, seen: bool)

  function StateRank(st: ScanState): nat
  {
    match st
    case Leading => 1
    case Whole(_, _, _) => 0
    case Fraction(_, _, _, _) => 0
  }

  /**
   * `parseFloat(s)`: leading white space is skipped, then the longest prefix
   * of the form [sign] digits [. digits] is read; no digit at all gives NaN,
   * here `None`. The exponent and `Infinity` forms are not modelled.
   */
  function ParseFloat(s: string): Option<real>
  {
    Scan(s, Leading)
  }

  /** The scan behind `ParseFloat`, one character at a time. */
  function Scan(s: string, st: ScanState): Option<real>
    requires st.Fraction? ==> forall i :: 0 <= i < |st.digits| ==> IsDigit(st.digits[i])
    decreases |s|, StateRank(st)
  {
    match st
    case Leading =>
      if s != [] && IsWhitespace(s[0]) then Scan(s[1..], Leading)
      else if s != [] && (s[0] == '-' || s[0] == '+') then Scan(s[1..], Whole(s[0] == '-', 0, false))
      else Scan(s, Whole(false, 0, false))
    case Whole(negative, acc, seen) =>
      if s != [] && IsDigit(s[0]) then Scan(s[1..], Whole(negative, acc * 10 + DigitValue(s[0]), true))
      else if s != [] && s[0] == '.' then Scan(s[1..], Fraction(negative, acc, [], seen))
      else if seen then Some(Signed(negative, acc as real))
      else None
    case Fraction(negative, whole, digits, seen) =>
      if s != [] && IsDigit(s[0]) then Scan(s[1..], Fraction(negative, whole, digits + [s[0]], true))
      else if seen then Some(Signed(negative, whole as real + FractionValue(digits)))
      else None
  }

  function Signed(negative: bool, magnitude: real): real
  {
    if negative then -magnitude else magnitude
  }

  /** The value of the digits after a decimal point: 0.d1d2... */
  function FractionValue(d: string): real
    requires forall i :: 0 <= i < |d| ==> IsDigit(d[i])
  {
    if d == [] then 0.0 else (DigitValue(d[0]) as real + FractionValue(d[1..])) / 10.0
  }

  /** `parseFloat(s) || 0`: NaN (and 0) become 0. */
  function NumberOr0(s: string): real
  {
    ParseFloat(s).GetOr(0.0)
  }

  function Abs(x: real): (r: real)
    ensures r >= 0.0 && (r == x || r == -x)
  {
    if x < 0.0 then -x else x
  }

  /** `Math.round(x)`: the nearest integer, halves rounded towards +infinity. */
  function Round(x: real): (n: int)
    ensures x - 0.5 < n as real <= x + 0.5
  {
    (x + 0.5).Floor
  }

  lemma RoundOfInteger(n: int)
    ensures Round(n as real) == n
  {
  }

  /** The decimal digits of a natural number, without leading zeros. */
  function NatToString(n: nat): (s: string)
    ensures s != []
    ensures forall i :: 0 <= i < |s| ==> IsDigit(s[i])
    ensures Accumulate(0, s) == n
    ensures s[0] == '0' ==> n == 0
  {
    if n < 10 then [DigitChar(n)]
    else
      var init := NatToString(n / 10);
      var c := DigitChar(n % 10);
      AccumulateSnoc(0, init, c);
      init + [c]
  }

  /** `n.toString()` for an integer value `n`. */
  function IntToString(n: int): (s: string)
    ensures s != [] && s != "-"
  {
    if n < 0 then "-" + NatToString(-n) else NatToString(n)
  }

  /** Printing an integer and parsing the text back gives the same number. */
  lemma {:induction false} ParseIntToString(n: int)
    ensures ParseFloat(IntToString(n)) == Some(n as real)
  {
    var negative := n < 0;
    var d := NatToString(if negative then -n else n);
    var s := IntToString(n);
    if negative {
      assert s == "-" + d && s[1..] == d;
      assert Scan(s, Leading) == Scan(d, Whole(true, 0, false));
    } else {
      assert s == d;
      assert !IsWhitespace(d[0]) && d[0] != '-' && d[0] != '+';
      assert Scan(s, Leading) == Scan(d, Whole(false, 0, false));
    }
    ScanDigits(d, negative, 0, false);
  }

  /** A run of digits, and nothing after it, is read as the number it spells. */
  lemma {:induction false} ScanDigits(d: string, negative: bool, acc: nat, seen: bool)
    requires forall i :: 0 <= i < |d| ==> IsDigit(d[i])
    requires d != [] || seen
    ensures Scan(d, Whole(negative, acc, seen)) == Some(Signed(negative, Accumulate(acc, d) as real))
    decreases |d|
  {
    if d != [] {
      ScanDigits(d[1..], negative, acc * 10 + DigitValue(d[0]), true);
    }
  }

  /** JavaScript's `a % b`: the remainder truncated towards zero, with the sign of `a`. */
  function JsRem(a: int, b: int): (r: int)
    requires b > 0
    ensures -b < r < b
    ensures a >= 0 ==> r >= 0
    ensures a <= 0 ==> r <= 0
    ensures a >= 0 ==> r == a % b
  {
    if a >= 0 then a % b else -((-a) % b)
  }
}
