/**
 * Numbers as the scheduler turns them into text: Python's `int()` applied
 * to a float, `str()` of an int, and `str()` of the int and float literals
 * that make up the interval configuration — each with a parser that
 * recovers the number from its text.
 */
module Numbers {
  import opened Optional
  import opened Text

  /** Python's `int(x)` on a float: drops the fraction, rounding toward zero. */
  function Trunc(x: real): (r: int)
    ensures 0.0 <= x ==> 0 <= r && r as real <= x < r as real + 1.0
    ensures x < 0.0 ==> r <= 0 && r as real - 1.0 < x <= r as real
  {
    if x >= 0.0 then x.Floor else -((-x).Floor)
  }

  lemma TruncMonotonic(x: real, y: real)
    requires x <= y
    ensures Trunc(x) <= Trunc(y)
  {
  }

  predicate IsDigit(c: char) {
    '0' <= c <= '9'
  }

  predicate AllDigits(s: string) {
    forall i :: 0 <= i < |s| ==> IsDigit(s[i])
  }

  function DigitChar(d: nat): (c: char)
    requires d < 10
    ensures IsDigit(c) && c as int - '0' as int == d
  {
    (d + '0' as int) as char
  }

  /** The number a string of decimal digits denotes. */
  function DigitsValue(s: string): nat
    requires AllDigits(s)
  {
    if s == [] then 0
    else DigitsValue(s[..|s| - 1]) * 10 + (s[|s| - 1] as int - '0' as int)
  }

  function Pow10(e: nat): (r: nat)
    ensures 1 <= r
  {
    if e == 0 then 1 else 10 * Pow10(e - 1)
  }

  /** `str(n)` for a non-negative Python int. */
  function NatText(n: nat): (s: string)
    ensures 1 <= |s| && AllDigits(s)
  {
    if n < 10 then [DigitChar(n)] else NatText(n / 10) + [DigitChar(n % 10)]
  }

  lemma {:induction false} NatTextValue(n: nat)
    ensures DigitsValue(NatText(n)) == n
  {
    if n >= 10 {
      var s := NatText(n);
      assert s[..|s| - 1] == NatText(n / 10);
      NatTextValue(n / 10);
    }
  }

  /** Reads back a non-negative decimal integer; anything else is refused. */
  function ParseNat(s: string): (r: Option<nat>)
    ensures r.Some? <==> 1 <= |s| && AllDigits(s)
  {
    if 1 <= |s| && AllDigits(s) then Some(DigitsValue(s)) else None
  }

  /** `str(n)` is read back as `n`. */
  lemma NatTextRoundTrip(n: nat)
    ensures ParseNat(NatText(n)) == Some(n)
  {
    NatTextValue(n);
  }

  /** The last `w` decimal digits of `x`, padded on the left with zeros. */
  function FixedDigits(x: nat, w: nat): (s: string)
    requires x < Pow10(w)
    ensures |s| == w && AllDigits(s)
  {
    if w == 0 then ""
    else FixedDigits(x / 10, w - 1) + [DigitChar(x % 10)]
  }

  lemma {:induction false} FixedDigitsValue(x: nat, w: nat)
    requires x < Pow10(w)
    ensures DigitsValue(FixedDigits(x, w)) == x
  {
    if w > 0 {
      var s := FixedDigits(x, w);
      assert s[..|s| - 1] == FixedDigits(x / 10, w - 1);
      FixedDigitsValue(x / 10, w - 1);
    }
  }

  function Abs(x: int): nat {
    if x < 0 then -x else x
  }

  /**
   * A number literal of the configuration: a Python int, or a Python float
   * written in decimal as `[-]whole.frac` with `e` fraction digits.
   */
  datatype Num = Int(i: int) | Float(neg: bool, whole: nat, frac: nat, e: nat) {

    /**
     * The literals whose `str()` is the form modelled here. Floats: one to
     * four decimals, at most fifteen significant digits, and no trailing
     * zero beyond the first decimal (Python prints `2.0`, `0.8`, `0.25`).
     */
    predicate WellFormed() {
      Int? || (1 <= e <= 4 && frac < Pow10(e) && whole < 100_000_000_000 && (e == 1 || frac % 10 != 0))
    }

    /** `float(v)`. */
    function Value(): real {
      match this
      case Int(i) => i as real
      case Float(neg, whole, frac, e) =>
        var x := whole as real + frac as real / Pow10(e) as real;
        if neg then -x else x
    }

    predicate Negative() {
      match this
      case Int(i) => i < 0
      case Float(neg, _, _, _) => neg
    }

    function Magnitude(): Num {
      match this
      case Int(i) => Int(Abs(i))
      case Float(_, whole, frac, e) => Float(false, whole, frac, e)
    }
  }

  /** The characters `str()` of a number can contain. */
  predicate NumChar(c: char) {
    IsDigit(c) || c == '-' || c == '.'
  }

  function UnsignedText(n: Num): (s: string)
    requires n.WellFormed()
    ensures 1 <= |s| && IsDigit(s[0])
    ensures forall i :: 0 <= i < |s| ==> IsDigit(s[i]) || s[i] == '.'
  {
    match n
    case Int(i) => NatText(Abs(i))
    case Float(_, whole, frac, e) =>
      var w, f := NatText(whole), FixedDigits(frac, e);
      assert forall i :: 0 <= i < |f| ==> IsDigit(f[i]);
      w + "." + f
  }

  /** `str(v)` of a configuration literal. */
  function NumText(n: Num): (s: string)
    requires n.WellFormed()
    ensures 1 <= |s| && forall i :: 0 <= i < |s| ==> NumChar(s[i])
  {
    (if n.Negative() then "-" else "") + UnsignedText(n)
  }

  function Negate(n: Num): Num {
    match n
    case Int(i) => Int(-i)
    case Float(neg, whole, frac, e) => Float(!neg, whole, frac, e)
  }

  /** Reads `digits` or `digits.digits`. */
  function ParseUnsigned(s: string): Option<Num> {
    match IndexOf(s, '.')
    case None =>
      if 1 <= |s| && AllDigits(s) then Some(Int(DigitsValue(s))) else None
    case Some(p) =>
      var w, f := s[..p], s[p + 1..];
      if 1 <= |w| && 1 <= |f| && AllDigits(w) && AllDigits(f)
      then Some(Float(false, DigitsValue(w), DigitsValue(f), |f|))
      else None
  }

  /** Reads a number literal, with an optional leading minus sign. */
  function ParseNum(s: string): Option<Num> {
    if 1 <= |s| && s[0] == '-' then
      match ParseUnsigned(s[1..])
      case None => None
      case Some(n) => Some(Negate(n))
    else ParseUnsigned(s)
  }

  lemma ParseDecimal(w: string, f: string)
    requires 1 <= |w| && 1 <= |f| && AllDigits(w) && AllDigits(f)
    ensures ParseUnsigned(w + "." + f) == Some(Float(false, DigitsValue(w), DigitsValue(f), |f|))
  {
    var s := w + "." + f;
    assert '.' !in w by {
      forall j | 0 <= j < |w| ensures w[j] != '.' {
        assert IsDigit(w[j]);
      }
    }
    IndexOfAfter(w, '.', f);
    assert s[..|w|] == w;
    assert s[|w| + 1..] == f;
  }

  lemma UnsignedRoundTrip(n: Num)
    requires n.WellFormed()
    ensures ParseUnsigned(UnsignedText(n)) == Some(n.Magnitude())
  {
    match n
    case Int(i) =>
      NatTextValue(Abs(i));
    case Float(_, whole, frac, e) =>
      NatTextValue(whole);
      FixedDigitsValue(frac, e);
      ParseDecimal(NatText(whole), FixedDigits(frac, e));
  }

  /** `str(v)` of a well-formed literal is read back as that literal. */
  lemma NumTextRoundTrip(n: Num)
    requires n.WellFormed()
    ensures ParseNum(NumText(n)) == Some(n)
  {
    UnsignedRoundTrip(n);
    var u := UnsignedText(n);
    if n.Negative() {
      assert NumText(n)[1..] == u;
    } else {
      assert NumText(n) == u;
    }
  }
}
