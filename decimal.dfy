/** Base-10 text for i32 user ids: the rendering `i32::to_string` that login
    stores in the identity cache, and the parser `i32::from_str_radix(_, 10)`
    that the resolver applies to it. */
module Decimal {
  import opened Common

  predicate IsDigit(c: char) {
    '0' <= c <= '9'
  }

  predicate AllDigits(s: string) {
    forall i :: 0 <= i < |s| ==> IsDigit(s[i])
  }

  function DigitChar(d: nat): (c: char)
    requires d < 10
    ensures IsDigit(c)
  {
    (('0' as int) + d) as char
  }

  function DigitValue(c: char): (d: nat)
    requires IsDigit(c)
    ensures d < 10 && DigitChar(d) == c
  {
    (c as int) - ('0' as int)
  }

  /** Decimal digits of `n`, most significant first, without leading zeros. */
  function ShowNat(n: nat): (s: string)
    decreases n
  {
    if n < 10 then [DigitChar(n)] else ShowNat(n / 10) + [DigitChar(n % 10)]
  }

  /** `i32::to_string`: a minus sign for negative values, then the digits
      of the magnitude, which are never empty. */
  function ShowInt(n: int): (s: string)
    ensures |s| > 0 && (s[0] == '-' <==> n < 0)
    ensures var digits := if n < 0 then s[1..] else s;
            |digits| > 0 && AllDigits(digits) && DigitsValue(digits) == if n < 0 then -n else n
  {
    var m: nat := if n < 0 then -n else n;
    ShowNatDigits(m);
    assert IsDigit(ShowNat(m)[0]);
    if n < 0 then
      assert ("-" + ShowNat(m))[1..] == ShowNat(m);
      "-" + ShowNat(m)
    else ShowNat(m)
  }

  /** The value of a digit string read left to right, as the parser
      accumulates it. */
  function DigitsValue(s: string): nat
    requires AllDigits(s)
  {
    if s == [] then 0 else DigitsValue(s[..|s| - 1]) * 10 + DigitValue(s[|s| - 1])
  }

  /** `i32::from_str_radix(s, 10)`: an optional `+` or `-`, then one or more
      ASCII digits whose value fits in i32. Empty text, a lone sign, any other
      character and overflow are all errors (`None`). */
  function ParseI32(s: string): (r: Option<int32>)
    ensures s == [] ==> r == None
    ensures r.Some? && r.value < 0 ==> s[0] == '-'
  {
    if |s| == 0 then None
    else if (s[0] == '+' || s[0] == '-') && |s| == 1 then None
    else
      var negative := s[0] == '-';
      var digits := if s[0] == '+' || s[0] == '-' then s[1..] else s;
      if !AllDigits(digits) then None
      else
        var v: int := DigitsValue(digits);
        if negative then (if v <= MaxInt32 + 1 then Some(-v) else None)
        else (if v <= MaxInt32 then Some(v) else None)
  }

  /** The rendering of a natural number is a non-empty digit string whose
      value is that number. */
  lemma {:induction false} ShowNatDigits(n: nat)
    ensures |ShowNat(n)| > 0 && AllDigits(ShowNat(n))
    ensures DigitsValue(ShowNat(n)) == n
    decreases n
  {
    if n >= 10 {
      ShowNatDigits(n / 10);
      var s := ShowNat(n / 10);
      var t := s + [DigitChar(n % 10)];
      assert t[..|t| - 1] == s;
      assert AllDigits(t) by {
        forall i | 0 <= i < |t| ensures IsDigit(t[i]) {
          if i < |s| { assert t[i] == s[i]; }
        }
      }
    }
  }

  /** Round trip: parsing what `to_string` renders gives back the i32. */
  lemma ParseShow(n: int32)
    ensures ParseI32(ShowInt(n)) == Some(n)
  {
    var m: nat := if n < 0 then -(n as int) else n;
    var t := ShowNat(m);
    ShowNatDigits(m);
    assert IsDigit(t[0]);
    if n < 0 {
      var s := "-" + t;
      assert s == ShowInt(n);
      assert s[1..] == t;
    } else {
      assert t == ShowInt(n);
    }
  }

  /** Distinct ids are rendered as distinct cache values. */
  lemma ShowIntInjective(a: int32, b: int32)
    requires ShowInt(a) == ShowInt(b)
    ensures a == b
  {
    ParseShow(a);
    ParseShow(b);
  }

  /** Text the parser refuses: nothing, a lone sign, a stray character. */
  lemma ParseRejects()
    ensures ParseI32("") == None
    ensures ParseI32("-") == None && ParseI32("+") == None
    ensures ParseI32("4x2") == None && ParseI32(" 42") == None
  {
    assert !IsDigit('x') && !IsDigit(' ');
  }

  /** The parser accepts exactly an optional sign followed by a non-empty run
      of digits whose signed value lies in the i32 range, and then returns
      that value. */
  lemma ParseAcceptsExactly(s: string)
    ensures ParseI32(s).Some? <==>
              && |s| > 0
              && var digits := if s[0] == '+' || s[0] == '-' then s[1..] else s;
              && |digits| > 0 && AllDigits(digits)
              && var v: int := if s[0] == '-' then -(DigitsValue(digits) as int) else DigitsValue(digits);
              && -MaxInt32 - 1 <= v <= MaxInt32
    ensures ParseI32(s).Some? ==>
              var digits := if s[0] == '+' || s[0] == '-' then s[1..] else s;
              ParseI32(s).value == if s[0] == '-' then -(DigitsValue(digits) as int) else DigitsValue(digits)
  {
  }

  /** Numbers outside the i32 range are refused in either direction. */
  lemma ParseRejectsOverflow(n: int)
    requires n > MaxInt32 || n < -MaxInt32 - 1
    ensures ParseI32(ShowInt(n)) == None
  {
    if n < 0 {
      ShowNatDigits(-n);
      assert ShowInt(n)[1..] == ShowNat(-n);
    } else {
      ShowNatDigits(n);
    }
  }

  /** Text the parser accepts beyond what `to_string` produces: a leading plus
      sign and leading zeros. */
  lemma {:induction false} ParseAcceptsPlusAndZeros(n: nat)
    requires n <= MaxInt32
    ensures ParseI32("+" + ShowNat(n)) == Some(n)
    ensures ParseI32("0" + ShowNat(n)) == Some(n)
  {
    ShowNatDigits(n);
    var s := ShowNat(n);
    assert ("+" + s)[1..] == s;
    LeadingZero(s);
  }

  lemma {:induction false} LeadingZero(s: string)
    requires AllDigits(s)
    ensures AllDigits("0" + s) && DigitsValue("0" + s) == DigitsValue(s)
    decreases |s|
  {
    var t := "0" + s;
    assert AllDigits(t) by {
      forall i | 0 <= i < |t| ensures IsDigit(t[i]) {
        if i > 0 { assert t[i] == s[i - 1]; }
      }
    }
    if s != [] {
      var p := s[..|s| - 1];
      assert AllDigits(p) by {
        forall i | 0 <= i < |p| ensures IsDigit(p[i]) { assert p[i] == s[i]; }
      }
      LeadingZero(p);
      assert t[..|t| - 1] == "0" + p;
      assert t[|t| - 1] == s[|s| - 1];
    }
  }
}
