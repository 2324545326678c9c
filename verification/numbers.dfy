/**
  Python's `int(text)` on ASCII decimal text and the `str(n)` / `f"{n:02d}"`
  renderings back, with the round trips that tie them together.
 */
module Numbers {
  import opened Wrappers

  predicate IsDigit(c: char)
  {
    '0' <= c <= '9'
  }

  predicate AllDigits(s: string)
  {
    forall i :: 0 <= i < |s| ==> IsDigit(s[i])
  }

  /** The character for a single decimal digit. */
  function DigitChar(d: nat): (c: char)
    requires d < 10
    ensures IsDigit(c)
  {
    ('0' as int + d) as char
  }

  /** The value of a string of decimal digits (leading zeros allowed). */
  function DigitsValue(s: string): nat
    requires AllDigits(s)
  {
    if |s| == 0 then 0
    else DigitsValue(s[..|s| - 1]) * 10 + (s[|s| - 1] as int - '0' as int)
  }

  /**
    `int(s)`: an optional sign followed by one or more ASCII digits.
    Whitespace, underscores and non-ASCII digits, which Python also
    accepts, are not modelled.
   */
  function ParseInt(s: string): (r: Option<int>)
    ensures r.Some? <==>
      (|s| > 0 && AllDigits(s)) ||
      (|s| > 1 && (s[0] == '-' || s[0] == '+') && AllDigits(s[1..]))
  {
    if |s| > 0 && (s[0] == '-' || s[0] == '+') then
      if |s| > 1 && AllDigits(s[1..]) then
        var magnitude: int := DigitsValue(s[1..]);
        Some(if s[0] == '-' then -magnitude else magnitude)
      else None
    else if |s| > 0 && AllDigits(s) then Some(DigitsValue(s))
    else None
  }

  /** `str(n)` for a natural number: the shortest decimal rendering. */
  function Decimal(n: nat): (r: string)
    ensures |r| >= 1 && AllDigits(r)
    ensures DigitsValue(r) == n
    ensures |r| > 1 ==> r[0] != '0'
  {
    if n < 10 then [DigitChar(n)]
    else
      var head := Decimal(n / 10);
      var r := head + [DigitChar(n % 10)];
      assert r[..|r| - 1] == head;
      r
  }

  /** `str(n)` for any integer: a minus sign exactly for a negative `n`, then the digits of its magnitude. */
  function IntText(n: int): (r: string)
    ensures |r| >= 1
    ensures r[0] == '-' <==> n < 0
    ensures n >= 0 ==> AllDigits(r) && DigitsValue(r) == n
    ensures n < 0 ==> |r| >= 2 && AllDigits(r[1..]) && DigitsValue(r[1..]) == -n
  {
    if n < 0 then
      var r := "-" + Decimal(-n);
      assert r[1..] == Decimal(-n);
      r
    else Decimal(n)
  }

  /**
    `f"{n:02d}"`: a natural number as at least two digits, with a leading
    zero below ten; a negative number as `str(n)`, whose sign already
    fills the width.
   */
  function Pad2(n: int): (r: string)
    ensures |r| >= 2
    ensures n >= 0 ==> AllDigits(r) && DigitsValue(r) == n
    ensures n < 0 ==> r == IntText(n)
    ensures 0 <= n < 10 ==> r == ['0', DigitChar(n)]
    ensures n >= 10 ==> r == Decimal(n) && r[0] != '0'
  {
    if n < 0 then "-" + Decimal(-n)
    else if n < 10 then
      var r := ['0', DigitChar(n)];
      assert r[..1] == ['0'];
      assert DigitsValue(r) == DigitsValue(['0']) * 10 + n;
      r
    else
      assert Decimal(n) == Decimal(n / 10) + [DigitChar(n % 10)];
      Decimal(n)
  }

  /** `int(str(n)) == n`. */
  lemma ParseIntText(n: int)
    ensures ParseInt(IntText(n)) == Some(n)
  {
    if n < 0 {
      assert IntText(n)[1..] == Decimal(-n);
    }
  }

  /** `int(f"{n:02d}") == n`, and the padded text never holds a separator. */
  lemma ParsePad2(n: int)
    ensures ParseInt(Pad2(n)) == Some(n)
    ensures |Pad2(n)| >= 2
    ensures forall i :: 0 <= i < |Pad2(n)| ==> IsDigit(Pad2(n)[i]) || (i == 0 && Pad2(n)[i] == '-')
  {
    var p := Pad2(n);
    if n < 0 {
      assert p[1..] == Decimal(-n);
    } else if n < 10 {
      assert p[..1] == ['0'];
      assert DigitsValue(p) == DigitsValue(['0']) * 10 + n;
    }
  }

  /** A single digit reads as its value. */
  lemma ParseOneDigit(a: char)
    requires IsDigit(a)
    ensures ParseInt([a]) == Some(a as int - '0' as int)
  {
    assert AllDigits([a]);
    assert [a][..0] == [];
    assert DigitsValue([a]) == DigitsValue([]) * 10 + (a as int - '0' as int);
  }

  /** Two digits read as tens and units. */
  lemma ParseTwoDigits(a: char, b: char)
    requires IsDigit(a) && IsDigit(b)
    ensures ParseInt([a, b]) == Some(10 * (a as int - '0' as int) + (b as int - '0' as int))
  {
    ParseOneDigit(a);
    assert AllDigits([a, b]);
    assert [a, b][..1] == [a];
    assert DigitsValue([a, b]) == DigitsValue([a]) * 10 + (b as int - '0' as int);
  }

  /** A minus sign and one digit read as the negated digit. */
  lemma ParseNegativeDigit(a: char)
    requires IsDigit(a)
    ensures ParseInt(['-', a]) == Some('0' as int - a as int)
  {
    ParseOneDigit(a);
    assert ['-', a][1..] == [a];
  }

  /** Two-digit values pad to exactly two characters. */
  lemma Pad2Length(n: int)
    requires 0 <= n < 100
    ensures |Pad2(n)| == 2
  {
    if n >= 10 {
      assert Decimal(n) == Decimal(n / 10) + [DigitChar(n % 10)];
    }
  }
}
