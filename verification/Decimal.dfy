/** Decimal numbers: what `std::from_chars` reads into a size_t and what `operator<<` prints. */
module Decimal {
  import opened Text

  const MAX_SIZE: nat := 0xFFFF_FFFF_FFFF_FFFF

  predicate IsDigit(c: char) {
    '0' <= c <= '9'
  }

  predicate AllDigits(s: string) {
    forall i :: 0 <= i < |s| ==> IsDigit(s[i])
  }

  function DigitValue(c: char): nat
    requires IsDigit(c)
  {
    c as int - '0' as int
  }

  function DigitChar(d: nat): (c: char)
    requires d < 10
    ensures IsDigit(c) && DigitValue(c) == d
  {
    ('0' as int + d) as char
  }

  function Value(s: string): nat
    requires AllDigits(s)
  {
    if s == "" then 0 else Value(s[..|s| - 1]) * 10 + DigitValue(s[|s| - 1])
  }

  /** A whole-string read of an unsigned 64-bit number: no sign, no blanks, no overflow. */
  function ParseSize(s: string): Option<nat> {
    if s == "" || !AllDigits(s) || Value(s) > MAX_SIZE then None else Some(Value(s))
  }

  function Print(n: nat): (s: string)
    ensures s != "" && AllDigits(s)
  {
    if n < 10 then [DigitChar(n)] else Print(n / 10) + [DigitChar(n % 10)]
  }

  /** Reading a printed number gives the number back. */
  lemma {:induction false} ValueOfPrint(n: nat)
    ensures Value(Print(n)) == n
  {
    if n < 10 {
    } else {
      var s := Print(n);
      assert s[..|s| - 1] == Print(n / 10);
      ValueOfPrint(n / 10);
    }
  }

  lemma {:induction false} PrintInjective(m: nat, n: nat)
    ensures Print(m) == Print(n) ==> m == n
  {
    ValueOfPrint(m);
    ValueOfPrint(n);
  }
}
