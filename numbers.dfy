/**
 * Decimal text of integers: JavaScript's `String(year)` on the page and
 * Python's `int(year)` in the scraper, with the round trip between them.
 */
module Numbers {
  import opened Wrappers

  predicate IsDigit(c: char)
  {
    '0' <= c <= '9'
  }

  predicate AllDigits(s: string)
  {
    forall i :: 0 <= i < |s| ==> IsDigit(s[i])
  }

  function DigitChar(d: nat): (c: char)
    requires d < 10
    ensures IsDigit(c) && c as int - '0' as int == d
  {
    ('0' as int + d) as char
  }

  /** Decimal digits of `n`, most significant first, without leading zeros. */
  function ShowNat(n: nat): (r: string)
    ensures r != [] && AllDigits(r)
    ensures r[0] == '0' ==> r == "0"
  {
    if n < 10 then [DigitChar(n)] else ShowNat(n / 10) + [DigitChar(n % 10)]
  }

  /** `String(n)` for an integral JavaScript number. */
  function ShowInt(n: int): (r: string)
    ensures r != []
    ensures r[0] == '-' <==> n < 0
    ensures var d := if n < 0 then r[1..] else r;
      d != [] && AllDigits(d) && (d[0] == '0' ==> d == "0")
  {
    if n < 0 then "-" + ShowNat(-n) else ShowNat(n)
  }

  function DigitsValue(s: string): nat
    requires AllDigits(s)
  {
    if s == [] then 0 else DigitsValue(s[..|s| - 1]) * 10 + (s[|s| - 1] as int - '0' as int)
  }

  function ParseDigits(s: string): (r: Option<nat>)
    ensures r.Some? <==> s != [] && AllDigits(s)
  {
    if s != [] && AllDigits(s) then Some(DigitsValue(s)) else None
  }

  /** The text is non-empty and has at least one character after a leading sign. */
  predicate Signed(s: string)
  {
    s != [] && (s[0] == '-' || s[0] == '+' ==> |s| > 1)
  }

  /** The text without its leading sign, if it has one. */
  function Unsigned(s: string): (r: string)
    ensures |r| <= |s| && s == s[..|s| - |r|] + r
    ensures s != [] && (s[0] == '-' || s[0] == '+') ==> r == s[1..]
    ensures s == [] || (s[0] != '-' && s[0] != '+') ==> r == s
  {
    if s != [] && (s[0] == '-' || s[0] == '+') then s[1..] else s
  }

  /**
   * Python's `int(s)` on a string, restricted to an optional sign followed by
   * ASCII digits; anything else is the `ValueError` the scraper catches.
   */
  function ParseInt(s: string): (r: Option<int>)
    ensures r.Some? <==> Signed(s) && AllDigits(Unsigned(s))
    ensures r.Some? && s[0] == '-' ==> r.value == 0 - DigitsValue(s[1..])
    ensures r.Some? && s[0] != '-' ==> r.value == DigitsValue(Unsigned(s))
  {
    if s != [] && (s[0] == '-' || s[0] == '+') then
      match ParseDigits(s[1..])
      case None => None
      case Some(v) => var x: int := if s[0] == '-' then 0 - (v as int) else v as int; Some(x)
    else
      match ParseDigits(s)
      case None => None
      case Some(v) => Some(v)
  }

  lemma {:induction false} DigitsOfShowNat(n: nat)
    ensures DigitsValue(ShowNat(n)) == n
  {
    var r := ShowNat(n);
    if n >= 10 {
      DigitsOfShowNat(n / 10);
      assert r[..|r| - 1] == ShowNat(n / 10);
    }
  }

  /** Reading back the text `String(n)` writes gives `n` again. */
  lemma ParseShowInt(n: int)
    ensures ParseInt(ShowInt(n)) == Some(n)
  {
    var r := ShowInt(n);
    if n < 0 {
      var d := ShowNat(-n);
      DigitsOfShowNat(-n);
      assert r == "-" + d && r[1..] == d;
      assert ParseDigits(r[1..]) == Some(-n);
    } else {
      DigitsOfShowNat(n);
      assert r == ShowNat(n) && r[0] != '-' && r[0] != '+';
      assert ParseDigits(r) == Some(n);
    }
  }
}
