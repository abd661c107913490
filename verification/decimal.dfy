// Decimal text of unsigned integers, as printf's PRIu64 writes it and atol and Rust read it.

module Decimal {
  import opened Base

  predicate IsDigit(c: char) {
    '0' <= c <= '9'
  }

  predicate AllDigits(s: string) {
    forall i :: 0 <= i < |s| ==> IsDigit(s[i])
  }

  function Digit(d: nat): (c: char)
    requires d < 10
    ensures IsDigit(c)
  {
    ('0' as int + d) as char
  }

  function DigitValue(c: char): (d: nat)
    requires IsDigit(c)
    ensures d < 10
  {
    c as int - '0' as int
  }

  /** The decimal text of n, without leading zeros. */
  function Print(n: nat): (s: string)
    ensures s != [] && AllDigits(s)
  {
    if n < 10 then [Digit(n)] else Print(n / 10) + [Digit(n % 10)]
  }

  /** The number that a string of digits denotes. */
  function Value(s: string): nat
    requires AllDigits(s)
  {
    if s == [] then 0 else 10 * Value(s[..|s| - 1]) + DigitValue(s[|s| - 1])
  }

  lemma {:induction false} ValueOfPrint(n: nat)
    ensures Value(Print(n)) == n
  {
    if n < 10 {
      assert [Digit(n)][..0] == [];
    } else {
      ValueOfPrint(n / 10);
      assert (Print(n / 10) + [Digit(n % 10)])[..|Print(n / 10)|] == Print(n / 10);
    }
  }

  /** Which character stands for which digit, and where the last digit goes. */
  lemma PrintDigits(n: nat)
    ensures n < 10 ==> Print(n) == ["0123456789"[n]]
    ensures n >= 10 ==> Print(n) == Print(n / 10) + ["0123456789"[n % 10]]
  {
  }

  lemma ValueDigits(s: string, d: nat)
    requires AllDigits(s) && d < 10
    ensures AllDigits(s + ["0123456789"[d]]) && Value(s + ["0123456789"[d]]) == 10 * Value(s) + d
    ensures Value("") == 0
  {
    assert (s + ["0123456789"[d]])[..|s|] == s;
  }

  lemma PrintOfExample()
    ensures Print(0) == "0" && Print(4096) == "4096" && Print(98765) == "98765"
  {
    hide Print;
    PrintDigits(0);
    PrintDigits(4);
    PrintDigits(40);
    PrintDigits(409);
    PrintDigits(4096);
    PrintDigits(9);
    PrintDigits(98);
    PrintDigits(987);
    PrintDigits(9876);
    PrintDigits(98765);
  }

  function Power(k: nat): nat {
    if k == 0 then 1 else 10 * Power(k - 1)
  }

  lemma {:induction false} PrintLength(n: nat, k: nat)
    requires 1 <= k && n < Power(k)
    ensures |Print(n)| <= k
    decreases k
  {
    if n >= 10 {
      PrintLength(n / 10, k - 1);
    }
  }

  lemma PrintFits(n: uint64)
    ensures |Print(n)| <= 20
  {
    assert Power(4) == 10_000;
    assert Power(8) == 100_000_000;
    assert Power(12) == 1_000_000_000_000;
    assert Power(16) == 10_000_000_000_000_000;
    assert Power(20) == 100_000_000_000_000_000_000;
    PrintLength(n, 20);
  }

  /** u64::from_str_radix with radix 10: None stands for its error. */
  function ParseU64(s: string): Option<uint64> {
    var digits := if |s| > 0 && s[0] == '+' then s[1..] else s;
    if digits == [] || !AllDigits(digits) then None
    else
      var v := Value(digits);
      if v < UINT64_LIMIT then Some(v) else None
  }

  /** What the parser accepts: digits, after a plus sign or not, of a number below 2^64. */
  lemma ParseAccepts(s: string)
    ensures s != "" && AllDigits(s) ==>
              ParseU64(s) == ParseU64("+" + s)
                == if Value(s) <= 18446744073709551615 then Some(Value(s)) else None
    ensures ParseU64("") == None && ParseU64("+") == None
    ensures s != "" && s[0] != '+' && (exists i :: 0 <= i < |s| && !('0' <= s[i] <= '9')) ==> ParseU64(s) == None
  {
    assert ("+" + s)[1..] == s;
    assert "+"[1..] == "";
  }

  lemma ParseOfPrint(n: uint64)
    ensures ParseU64(Print(n)) == Some(n)
  {
    ValueOfPrint(n);
    assert IsDigit(Print(n)[0]);
  }
}
