/** PostgreSQL's input conversion for `integer` (int4) parameters: the route
    handlers pass raw path parameters such as `:book_id` and `:comment_id`
    straight into a comparison with an integer column, so the text must read
    as a 32-bit signed decimal or the query fails. */
module Decimal {
  import opened Optional

  const MinInt4: int := -0x8000_0000
  const MaxInt4: int := 0x7FFF_FFFF

  predicate IsDigit(c: char)
  {
    '0' <= c <= '9'
  }

  predicate AllDigits(s: string)
  {
    forall k | 0 <= k < |s| :: IsDigit(s[k])
  }

  /** The value of a string of decimal digits, most significant first. */
  function DigitsValue(s: string): nat
    requires AllDigits(s)
  {
    if |s| == 0 then 0
    else 10 * DigitsValue(s[..|s| - 1]) + (s[|s| - 1] as int - '0' as int)
  }

  /** int4 input: an optional sign, then one or more digits, in range. */
  function ParseInt4(s: string): (r: Option<int>)
    ensures r.Some? ==> MinInt4 <= r.value <= MaxInt4
    ensures r.Some? ==>
      || (|s| > 0 && AllDigits(s))
      || (|s| > 1 && (s[0] == '-' || s[0] == '+') && AllDigits(s[1..]))
    ensures |s| > 0 && AllDigits(s) ==>
      r == (if DigitsValue(s) <= MaxInt4 then Some(DigitsValue(s)) else None)
    ensures |s| > 1 && s[0] == '+' && AllDigits(s[1..]) ==>
      r == (if DigitsValue(s[1..]) <= MaxInt4 then Some(DigitsValue(s[1..]) as int) else None)
    ensures |s| > 1 && s[0] == '-' && AllDigits(s[1..]) ==>
      r == (if DigitsValue(s[1..]) <= -MinInt4 then Some(-(DigitsValue(s[1..]) as int)) else None)
  {
    var signed := |s| > 0 && (s[0] == '-' || s[0] == '+');
    var digits := if signed then s[1..] else s;
    if |digits| == 0 || !AllDigits(digits) then None
    else
      var v: int := if signed && s[0] == '-' then 0 - DigitsValue(digits) as int else DigitsValue(digits);
      if MinInt4 <= v <= MaxInt4 then Some(v) else None
  }

  /** The decimal spelling of `n`, without leading zeros. */
  function ShowNat(n: nat): (s: string)
    ensures |s| > 0 && AllDigits(s)
    ensures DigitsValue(s) == n
  {
    var d := (('0' as int) + n % 10) as char;
    if n < 10 then [d]
    else
      var p := ShowNat(n / 10);
      assert (p + [d])[..|p + [d]| - 1] == p;
      p + [d]
  }

  /** A local id written out as a path parameter reads back as itself. */
  lemma ParseShowNat(n: nat)
    requires n <= MaxInt4
    ensures ParseInt4(ShowNat(n)) == Some(n)
  {
  }
}
