/** Natural numbers in decimal. */
module Decimal {
  import opened Text

  function DigitValue(c: char): Option<nat> {
    if '0' <= c <= '9' then Some((c - '0') as int) else None
  }

  function Digits(s: string): Option<nat> {
    if s == "" then Some(0)
    else match (Digits(s[..|s| - 1]), DigitValue(s[|s| - 1]))
      case (Some(n), Some(d)) => Some(10 * n + d)
      case _ => None
  }

  /** A number as its readers in C++ and Java take it: an optional sign and digits, within -limit, ..., limit - 1. */
  function SignedDigits(s: string, limit: int): Option<int> {
    if s == "" then None
    else
      var signed := s[0] == '-' || s[0] == '+';
      var body := if signed then s[1..] else s;
      if body == "" then None
      else match Digits(body)
        case None => None
        case Some(n) =>
          var v: int := if s[0] == '-' then 0 - n else n;
          if -limit <= v < limit then Some(v) else None
  }

  function NumText(n: nat): (s: string)
    ensures s != "" && forall k :: 0 <= k < |s| ==> '0' <= s[k] <= '9'
  {
    var d := ['0' + (n % 10) as char];
    if n < 10 then d else NumText(n / 10) + d
  }

  lemma {:induction false} DigitsOf(n: nat)
    ensures Digits(NumText(n)) == Some(n)
  {
    var s, c := NumText(n), '0' + (n % 10) as char;
    assert (c - '0') as int == n % 10;
    if n < 10 {
      assert s[..0] == "";
    } else {
      DigitsOf(n / 10);
      assert s[..|s| - 1] == NumText(n / 10);
    }
  }
}
