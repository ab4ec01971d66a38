/**
  The slice of JavaScript number semantics the count inputs go through:
  `parseInt(text, 10)`, `Number.isFinite` and the renderer's fallback to one
  session.
 */
module Numbers {
  import opened Text

  /** A JavaScript number as far as counts are concerned. */
  datatype Num = NaN | Finite(value: int) | Infinite(negative: bool)

  /**
    The smallest magnitude that rounds to an infinite double: halfway between
    the largest finite double, (2^53 - 1) * 2^971, and 2^1024; that is,
    2^1024 - 2^970.
   */
  const DoubleOverflow: int := 179769313486231580793728971405303415079934132710037826936173778980444968292764750946649017977587207096330286416692887910946555547851940402630657488671505820681908902000708383676273854845817711531764475730270069855571366959622842914819860834936475292719074168444365510704342711559699508093042880177904174497792

  /** The longest prefix of `s` made of decimal digits. */
  function DigitPrefix(s: string): (d: string)
    ensures |d| <= |s| && d == s[..|d|] && AllDigits(d)
    ensures |d| < |s| ==> !IsDigit(s[|d|])
  {
    if |s| > 0 && IsDigit(s[0]) then [s[0]] + DigitPrefix(s[1..]) else []
  }

  /** Whether the text, after leading whitespace, starts with a minus sign. */
  predicate Negative(s: string)
  {
    var t := TrimStart(s);
    |t| > 0 && t[0] == '-'
  }

  /** The text after leading whitespace and at most one sign. */
  function Unsigned(s: string): string
  {
    var t := TrimStart(s);
    if |t| > 0 && (t[0] == '-' || t[0] == '+') then t[1..] else t
  }

  /**
    `parseInt(s, 10)`: skip leading whitespace, take an optional sign, then the
    longest run of decimal digits; no digits is NaN, and a magnitude too large
    for a double is an infinity of the same sign.
   */
  function ParseInt(s: string): (n: Num)
    ensures var d := DigitPrefix(Unsigned(s));
            && (n.NaN? <==> |d| == 0)
            && (n.Finite? ==> DecValue(d) < DoubleOverflow
                              && n.value == (if Negative(s) then 0 - DecValue(d) as int else DecValue(d) as int))
            && (n.Infinite? ==> DecValue(d) >= DoubleOverflow && n.negative == Negative(s))
  {
    FromDigits(Negative(s), DigitPrefix(Unsigned(s)))
  }

  /** The value of a signed run of decimal digits, rounded to a double's range. */
  function FromDigits(negative: bool, digits: string): (n: Num)
    requires AllDigits(digits)
  {
    if |digits| == 0 then NaN
    else
      var v: int := DecValue(digits);
      if v >= DoubleOverflow then Infinite(negative)
      else Finite(if negative then -v else v)
  }

  /**
    `Number.isFinite(count) && count > 0 ? count : 1`: the number of sessions
    the create button asks for.
   */
  function CountOrOne(n: Num): (total: nat)
    ensures total >= 1
    ensures n.Finite? && n.value > 0 ==> total == n.value
    ensures total != 1 ==> n == Finite(total)
  {
    if n.Finite? && n.value > 0 then n.value else 1
  }

  /** The count field as the create button reads it. */
  function RequestedTotal(countText: string): (total: nat)
    ensures total >= 1
    ensures var n := ParseInt(countText); n.Finite? && n.value > 0 ==> total == n.value
    ensures total != 1 ==> ParseInt(countText) == Finite(total)
  {
    CountOrOne(ParseInt(countText))
  }

  lemma {:induction false} DigitPrefixOfDigits(d: string, tail: string)
    requires AllDigits(d)
    requires |tail| == 0 || !IsDigit(tail[0])
    ensures DigitPrefix(d + tail) == d
  {
    if |d| > 0 {
      assert (d + tail)[1..] == d[1..] + tail;
      DigitPrefixOfDigits(d[1..], tail);
      assert [d[0]] + d[1..] == d;
    } else {
      assert d + tail == tail;
    }
  }

  /**
    A decimal count, with any leading whitespace and any non-digit tail, reads
    back as itself; `parseInt` stops at the first non-digit.
   */
  lemma ParseIntDec(pad: string, n: nat, tail: string)
    requires AllSpace(pad) && n < DoubleOverflow
    requires |tail| == 0 || !IsDigit(tail[0])
    ensures ParseInt(pad + Dec(n) + tail) == Finite(n)
  {
    var s := pad + Dec(n) + tail;
    var t := Dec(n) + tail;
    assert s == pad + t;
    TrimStartPadded(pad, t);
    assert TrimStart(s) == t;
    assert t[0] == Dec(n)[0] && IsDigit(t[0]);
    DigitPrefixOfDigits(Dec(n), tail);
    assert DigitPrefix(t) == Dec(n);
    assert ParseInt(s) == FromDigits(false, Dec(n));
    DecRoundTrip(n);
  }

  /** Text with no digit after the whitespace and sign reads as NaN, so the count falls back to one. */
  lemma NoDigitsIsOne(s: string)
    requires var t := TrimStart(s);
             var rest := if |t| > 0 && (t[0] == '-' || t[0] == '+') then t[1..] else t;
             |rest| == 0 || !IsDigit(rest[0])
    ensures ParseInt(s) == NaN && RequestedTotal(s) == 1
  {
  }

  /** A typed positive count is honoured; anything else asks for one session. */
  lemma RequestedTotalOfDec(n: nat)
    requires 1 <= n < DoubleOverflow
    ensures RequestedTotal(Dec(n)) == n
  {
    ParseIntDec([], n, []);
    assert [] + Dec(n) + [] == Dec(n);
    assert ParseInt(Dec(n)) == Finite(n);
  }
}
