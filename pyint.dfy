/** Python's `int(s)` on a string, base 10, for ASCII input: surrounding
    whitespace is stripped, one optional sign, then decimal digits in groups
    separated by single underscores. Anything else is a `ValueError`,
    modelled as `None`. The limit on the number of digits that `int` and
    `str` convert (`sys.get_int_max_str_digits()`, 4300 by default) is not
    modelled: digit runs of any length are accepted. */
module PyInt {
  import opened Wrappers

  /** The whitespace `int` trims around an ASCII number: tab, line feed,
      vertical tab, form feed, carriage return and space. */
  predicate IsSpace(c: char)
  {
    var n := c as int;
    n == 32 || 9 <= n <= 13
  }

  predicate IsDigit(c: char)
  {
    '0' <= c <= '9'
  }

  function DigitValue(c: char): (d: nat)
    requires IsDigit(c)
    ensures d < 10
  {
    c as int - '0' as int
  }

  function Digit(d: nat): (c: char)
    requires d < 10
    ensures IsDigit(c) && DigitValue(c) == d
  {
    ('0' as int + d) as char
  }

  function TrimLeft(s: string): (t: string)
    ensures |t| > 0 ==> !IsSpace(t[0])
    ensures |t| <= |s| && t == s[|s| - |t|..]
    ensures forall k :: 0 <= k < |s| - |t| ==> IsSpace(s[k])
  {
    if |s| > 0 && IsSpace(s[0]) then TrimLeft(s[1..]) else s
  }

  function TrimRight(s: string): (t: string)
    ensures |t| > 0 ==> !IsSpace(t[|t| - 1])
    ensures |t| <= |s| && t == s[..|t|]
    ensures forall k :: |t| <= k < |s| ==> IsSpace(s[k])
  {
    if |s| > 0 && IsSpace(s[|s| - 1]) then TrimRight(s[..|s| - 1]) else s
  }

  function Strip(s: string): string
  {
    TrimRight(TrimLeft(s))
  }

  /** Digits with single underscores strictly between them: `1_000`, not
      `_1`, `1_` or `1__0`. */
  predicate Grouped(s: string)
  {
    |s| > 0 && IsDigit(s[0]) && GroupedTail(s[1..])
  }

  /** What may follow a digit: more digits, each group of them introduced by
      at most one underscore. */
  predicate GroupedTail(s: string)
  {
    if |s| == 0 then true
    else if IsDigit(s[0]) then GroupedTail(s[1..])
    else s[0] == '_' && |s| >= 2 && IsDigit(s[1]) && GroupedTail(s[2..])
  }

  /** The number the digits of `s` spell; underscores are skipped. */
  function DigitsValue(s: string): nat
  {
    if |s| == 0 then 0
    else
      var last := s[|s| - 1];
      var high := DigitsValue(s[..|s| - 1]);
      if IsDigit(last) then 10 * high + DigitValue(last) else high
  }

  /** `int(s)`: `Some(n)` when Python returns `n`, `None` when it raises
      `ValueError`. */
  function ParseInt(s: string): Option<int>
  {
    ParseStripped(Strip(s))
  }

  /** What `int` accepts once the surrounding whitespace is gone. */
  function ParseStripped(t: string): Option<int>
  {
    if |t| > 0 && (t[0] == '+' || t[0] == '-') then
      if Grouped(t[1..]) then
        Some(if t[0] == '-' then -(DigitsValue(t[1..]) as int) else DigitsValue(t[1..]))
      else None
    else if Grouped(t) then Some(DigitsValue(t))
    else None
  }

  /** `str(n)` for a natural number: its decimal digits, most significant
      first, no leading zeros. */
  function NatDigits(n: nat): (s: string)
    ensures |s| > 0
    ensures forall k :: 0 <= k < |s| ==> IsDigit(s[k])
  {
    if n < 10 then [Digit(n)] else NatDigits(n / 10) + [Digit(n % 10)]
  }

  /** `str(n)`. */
  function Decimal(n: int): string
  {
    if n < 0 then "-" + NatDigits(-n) else NatDigits(n)
  }

  lemma {:induction false} NatDigitsValue(n: nat)
    ensures DigitsValue(NatDigits(n)) == n
    decreases n
  {
    var s := NatDigits(n);
    if n >= 10 {
      NatDigitsValue(n / 10);
      assert s[..|s| - 1] == NatDigits(n / 10);
    }
  }

  lemma GroupedDigits(s: string)
    requires |s| > 0
    requires forall k :: 0 <= k < |s| ==> IsDigit(s[k])
    ensures Grouped(s)
  {
    DigitsTail(s[1..]);
  }

  lemma {:induction false} DigitsTail(s: string)
    requires forall k :: 0 <= k < |s| ==> IsDigit(s[k])
    ensures GroupedTail(s)
    decreases |s|
  {
    if |s| > 0 {
      assert forall k :: 0 <= k < |s| - 1 ==> s[1..][k] == s[k + 1];
      DigitsTail(s[1..]);
    }
  }

  lemma StripNoSpace(s: string)
    requires |s| > 0 && !IsSpace(s[0]) && !IsSpace(s[|s| - 1])
    ensures Strip(s) == s
  {
  }

  /** `int` reads a plain run of digits as its decimal value. */
  lemma ParseDigits(s: string)
    requires |s| > 0
    requires forall k :: 0 <= k < |s| ==> IsDigit(s[k])
    ensures ParseInt(s) == Some(DigitsValue(s))
  {
    assert !IsSpace(s[0]) && !IsSpace(s[|s| - 1]);
    StripNoSpace(s);
    GroupedDigits(s);
  }

  /** `int` reads `-` followed by digits as the negated value. */
  lemma ParseNegated(s: string)
    requires |s| > 0
    requires forall k :: 0 <= k < |s| ==> IsDigit(s[k])
    ensures ParseInt("-" + s) == Some(-(DigitsValue(s) as int))
  {
    StripNegated(s);
    ParseStrippedNegated(s);
  }

  lemma StripNegated(s: string)
    requires |s| > 0
    requires forall k :: 0 <= k < |s| ==> IsDigit(s[k])
    ensures Strip("-" + s) == "-" + s
  {
    var t := "-" + s;
    assert t[|t| - 1] == s[|s| - 1];
    assert !IsSpace(t[0]) && !IsSpace(t[|t| - 1]);
    StripNoSpace(t);
  }

  lemma ParseStrippedNegated(s: string)
    requires |s| > 0
    requires forall k :: 0 <= k < |s| ==> IsDigit(s[k])
    ensures ParseStripped("-" + s) == Some(-(DigitsValue(s) as int))
  {
    var t := "-" + s;
    assert t[1..] == s;
    GroupedDigits(s);
  }

  /** `int(str(n)) == n`: the parser reads back every number it prints
      (with no limit on the number of digits). */
  lemma ParseDecimal(n: int)
    ensures ParseInt(Decimal(n)) == Some(n)
  {
    var m: nat := if n < 0 then -n else n;
    var d := NatDigits(m);
    NatDigitsValue(m);
    if n < 0 {
      assert Decimal(n) == "-" + d;
      ParseNegated(d);
    } else {
      assert Decimal(n) == d;
      ParseDigits(d);
    }
  }

  /** Whitespace around the number, on either side and of any amount, does
      not change what `int` returns. */
  lemma ParsePadded(left: string, s: string, right: string)
    requires forall k :: 0 <= k < |left| ==> IsSpace(left[k])
    requires forall k :: 0 <= k < |right| ==> IsSpace(right[k])
    requires |s| > 0 && !IsSpace(s[0]) && !IsSpace(s[|s| - 1])
    ensures ParseInt(left + s + right) == ParseInt(s)
  {
    StripPadded(left, s, right);
    StripNoSpace(s);
  }

  lemma {:induction false} TrimLeftPadded(pad: string, s: string)
    requires forall k :: 0 <= k < |pad| ==> IsSpace(pad[k])
    requires |s| > 0 && !IsSpace(s[0])
    ensures TrimLeft(pad + s) == s
    decreases |pad|
  {
    if |pad| > 0 {
      assert (pad + s)[1..] == pad[1..] + s;
      TrimLeftPadded(pad[1..], s);
    } else {
      assert pad + s == s;
    }
  }

  lemma {:induction false} TrimRightPadded(s: string, pad: string)
    requires forall k :: 0 <= k < |pad| ==> IsSpace(pad[k])
    requires |s| > 0 && !IsSpace(s[|s| - 1])
    ensures TrimRight(s + pad) == s
    decreases |pad|
  {
    if |pad| > 0 {
      assert (s + pad)[..|s + pad| - 1] == s + pad[..|pad| - 1];
      TrimRightPadded(s, pad[..|pad| - 1]);
    } else {
      assert s + pad == s;
    }
  }

  lemma StripPadded(left: string, s: string, right: string)
    requires forall k :: 0 <= k < |left| ==> IsSpace(left[k])
    requires forall k :: 0 <= k < |right| ==> IsSpace(right[k])
    requires |s| > 0 && !IsSpace(s[0]) && !IsSpace(s[|s| - 1])
    ensures Strip(left + s + right) == s
  {
    assert left + s + right == left + (s + right);
    TrimLeftPadded(left, s + right);
    TrimRightPadded(s, right);
  }
}
