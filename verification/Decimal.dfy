/** Decimal text of natural numbers, as Rust prints and parses it. */
module Decimal {
  import opened Wrappers

  predicate IsDigit(c: char) { '0' <= c <= '9' }

  function DigitChar(d: nat): (c: char)
    requires d < 10
    ensures IsDigit(c)
  {
    '0' + d as char
  }

  function DigitValue(c: char): (d: nat)
    requires IsDigit(c)
    ensures d < 10
  {
    (c - '0') as nat
  }

  predicate AllDigits(s: string) { forall i | 0 <= i < |s| :: IsDigit(s[i]) }

  /** `n.to_string()`. */
  function Render(n: nat): string {
    if n < 10 then [DigitChar(n)] else Render(n / 10) + [DigitChar(n % 10)]
  }

  /** The number a string of digits denotes. */
  function Value(s: string): nat
    requires AllDigits(s)
  {
    if s == [] then 0 else 10 * Value(s[..|s| - 1]) + DigitValue(s[|s| - 1])
  }

  lemma {:induction false} ValueOfRender(n: nat)
    ensures Render(n) != [] && AllDigits(Render(n)) && Value(Render(n)) == n
  {
    if n < 10 {
      assert [DigitChar(n)][..0] == [];
    } else {
      ValueOfRender(n / 10);
      assert Render(n)[..|Render(n)| - 1] == Render(n / 10);
    }
  }

  /** The digits are those of ASCII, and no number but zero starts with one that is zero. */
  lemma {:induction false} RenderLeads(n: nat)
    ensures DigitChar(n % 10) as int == 48 + n % 10
    ensures n > 0 ==> Render(n)[0] != '0'
    ensures n == 0 ==> Render(n) == "0"
  {
    if n >= 10 { RenderLeads(n / 10); }
  }

  /** Distinct numbers print differently. */
  lemma RenderInjective(m: nat, n: nat)
    requires Render(m) == Render(n)
    ensures m == n
  {
    ValueOfRender(m);
    ValueOfRender(n);
  }

  const USIZE_LIMIT: nat := 0x1_0000_0000_0000_0000

  /** `s.parse::<usize>()` on a 64-bit target: an optional plus sign, then at
      least one digit, and no overflow. */
  function ParseUsize(s: string): Option<nat> {
    var digits := if s != [] && s[0] == '+' then s[1..] else s;
    if digits == [] || !AllDigits(digits) || Value(digits) >= USIZE_LIMIT then None
    else Some(Value(digits))
  }

  /** What parses is one or more digits after at most one plus sign, worth less than two to
      the sixty-fourth. */
  lemma ParseExactly(s: string, n: nat)
    ensures ParseUsize(s) == Some(n) <==>
            exists digits: string :: (s == digits || s == "+" + digits) && digits != "" && AllDigits(digits) &&
              Value(digits) == n < 18_446_744_073_709_551_616
  {
    var rest := if s != [] && s[0] == '+' then s[1..] else s;
    if ParseUsize(s) == Some(n) {
      assert s == rest || s == "+" + rest;
    }
    if digits: string :| (s == digits || s == "+" + digits) && digits != "" && AllDigits(digits) &&
                         Value(digits) == n < 18_446_744_073_709_551_616 {
      assert IsDigit(digits[0]);
      assert rest == digits;
    }
  }

  lemma ParseOfRender(n: nat)
    requires n < USIZE_LIMIT
    ensures ParseUsize(Render(n)) == Some(n)
  {
    ValueOfRender(n);
    assert IsDigit(Render(n)[0]);
  }
}
