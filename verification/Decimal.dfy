/** Decimal notation, as printed and parsed by the Go standard library. */
module Decimal {
  import opened Prelude

  const TWO_TO_THE_64: nat := 0x1_0000_0000_0000_0000

  predicate IsDigit(c: char) {
    '0' <= c <= '9'
  }

  function Digit(n: nat): (c: char)
    requires n < 10
    ensures IsDigit(c)
  {
    (n + '0' as int) as char
  }

  /** The usual notation: no leading zeros, "0" for zero. */
  function Print(n: nat): string {
    if n < 10 then [Digit(n)] else Print(n / 10) + [Digit(n % 10)]
  }

  predicate AllDigits(s: string) {
    forall i | 0 <= i < |s| :: IsDigit(s[i])
  }

  function Value(s: string): nat
    requires AllDigits(s)
  {
    if s == "" then 0 else 10 * Value(s[..|s| - 1]) + (s[|s| - 1] as int - '0' as int)
  }

  /** strconv.ParseUint with base 10 and 64 bits. */
  function ParseUint64(s: string): Option<nat> {
    if s != "" && AllDigits(s) && Value(s) < TWO_TO_THE_64 then Some(Value(s)) else None
  }

  /** big.Int.SetString with base 10. */
  function ParseBig(s: string): Option<int> {
    var digits := if s != "" && (s[0] == '-' || s[0] == '+') then s[1..] else s;
    if digits == "" || !AllDigits(digits) then None
    else
      var value: int := Value(digits);
      Some(if s[0] == '-' then -value else value)
  }

  /** big.Int.String. */
  function PrintBig(i: int): string {
    if i < 0 then "-" + Print(-i) else Print(i)
  }

  /** What reads as a big integer: digits, leading zeros included, after at most one sign. */
  lemma BigIntegers(s: string, digits: string)
    requires digits != "" && AllDigits(digits)
    ensures ParseBig(digits) == ParseBig("+" + digits) == Some(Value(digits))
    ensures ParseBig("-" + digits).Some? && ParseBig("-" + digits).value + Value(digits) == 0
    ensures ParseBig(s).Some? ==> exists d :: d != "" && AllDigits(d) && s in {d, "+" + d, "-" + d}
  {
    assert IsDigit(digits[0]);
    assert ("+" + digits)[1..] == digits && ("-" + digits)[1..] == digits;
    if ParseBig(s).Some? {
      var d := if s[0] == '-' || s[0] == '+' then s[1..] else s;
      assert s == [s[0]] + s[1..];
      assert s in {d, "+" + d, "-" + d};
    }
  }

  lemma ParseUndoesPrintBig(i: int)
    ensures ParseBig(PrintBig(i)) == Some(i)
  {
    if i < 0 {
      PrintIsDigits(-i);
      assert PrintBig(i)[1..] == Print(-i);
    } else {
      ParseUndoesPrint(i);
    }
  }

  lemma {:induction false} PrintIsDigits(n: nat)
    ensures Print(n) != "" && AllDigits(Print(n)) && Value(Print(n)) == n
  {
    if n < 10 {
      assert Print(n)[..0] == "";
    } else {
      PrintIsDigits(n / 10);
      assert Print(n)[..|Print(n)| - 1] == Print(n / 10);
    }
  }

  lemma ParseUndoesPrint(n: nat)
    ensures ParseBig(Print(n)) == Some(n)
    ensures ParseUint64(Print(n)) == if n < TWO_TO_THE_64 then Some(n) else None
  {
    PrintIsDigits(n);
    assert IsDigit(Print(n)[0]);
  }
}
