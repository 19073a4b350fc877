/** Decimal text of a 64-bit signed integer: `to_string` and `parse::<i64>`. */
module Decimal {
  import opened Wrappers

  const I64_MIN: int := -0x8000_0000_0000_0000
  const I64_MAX: int := 0x7fff_ffff_ffff_ffff

  predicate InI64(n: int) { I64_MIN <= n <= I64_MAX }

  predicate IsDigit(c: char) { '0' <= c <= '9' }

  function DigitOf(d: nat): (c: char)
    requires d < 10
    ensures IsDigit(c) && (c as int) - ('0' as int) == d
  {
    ('0' as int + d) as char
  }

  function Digits(n: nat): (s: string)
    ensures s != [] && forall c | c in s :: IsDigit(c)
  {
    if n < 10 then [DigitOf(n)] else Digits(n / 10) + [DigitOf(n % 10)]
  }

  function ToText(n: int): (s: string)
    ensures s != [] && (s[0] == '-' <==> n < 0) && IsDigit(s[|s| - 1])
    ensures forall c | c in s :: IsDigit(c) || c == '-'
    ensures n >= 0 ==> forall c | c in s :: IsDigit(c)
  {
    if n < 0 then
      var d := Digits(-n);
      assert d[|d| - 1] in d;
      "-" + d
    else
      var d := Digits(n);
      assert d[|d| - 1] in d && d[0] in d;
      d
  }

  /** The value of a run of digits, leading zeros included; none when something else occurs. */
  function Value(s: string): Option<nat> {
    if s == [] then Some(0)
    else
      var v, c := Value(s[..|s| - 1]), s[|s| - 1];
      if v.Some? && IsDigit(c) then Some(10 * v.value + (c as int - '0' as int)) else None
  }

  /** An optional sign, at least one digit, nothing else, and no overflow. */
  function ParseI64(s: string): (r: Option<int>)
    ensures r.Some? ==> InI64(r.value)
  {
    var signed := s != [] && (s[0] == '-' || s[0] == '+');
    var digits := if signed then s[1..] else s;
    var v := Value(digits);
    if digits == [] || v.None? then None
    else
      var n: int := if s[0] == '-' then 0 - v.value else v.value;
      if InI64(n) then Some(n) else None
  }

  lemma {:induction false} ValueOfDigits(n: nat)
    ensures Value(Digits(n)) == Some(n)
  {
    if n >= 10 {
      var front, last := Digits(n / 10), DigitOf(n % 10);
      ValueOfDigits(n / 10);
      assert (front + [last])[..|front|] == front;
    } else {
      assert Digits(n)[..0] == [];
    }
  }

  /** Parsing the printed form of any 64-bit integer gives it back. */
  lemma ParseToText(n: int)
    requires InI64(n)
    ensures ParseI64(ToText(n)) == Some(n)
  {
    if n < 0 {
      ValueOfDigits(-n);
      assert ToText(n)[1..] == Digits(-n);
    } else {
      ValueOfDigits(n);
      assert ToText(n)[0] in ToText(n);
    }
  }

  /** What a run of digits is worth, from the left: nothing else has a value, and each digit counts ten times
      what the rest of its right does. */
  lemma ValueOfMore(s: string, c: char)
    ensures Value(s + [c]) ==
            if Value(s).Some? && '0' <= c <= '9' then Some(10 * Value(s).value + (c as int - 48)) else None
  {
    assert (s + [c])[..|s|] == s;
  }

  /** The parser accepts exactly an optional sign before at least one digit and nothing else, leading zeros
      included, when the value fits. */
  lemma ParsesExactly(sign: string, digits: string)
    requires sign == "" || sign == "-" || sign == "+"
    requires sign == "" ==> digits == "" || (digits[0] != '-' && digits[0] != '+')
    ensures ParseI64(sign + digits) ==
            if digits == "" || Value(digits).None? then None
            else
              var n: int := if sign == "-" then 0 - Value(digits).value else Value(digits).value;
              if I64_MIN <= n <= I64_MAX then Some(n) else None
  {
    var text := sign + digits;
    hide Value;
    if sign == "" {
      assert text == digits;
    } else {
      assert text[1..] == digits && text[0] == sign[0];
    }
  }

  lemma ToTextInjective(m: int, n: int)
    requires InI64(m) && InI64(n) && ToText(m) == ToText(n)
    ensures m == n
  {
    ParseToText(m);
    ParseToText(n);
  }
}
