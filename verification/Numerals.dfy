/** Numerals as they are written: which text stands for a number in a radix. */
module Numerals {
  import opened Arith

  const LOWER := "0123456789abcdef"
  const UPPER := "0123456789ABCDEF"

  /** The characters of s, the most significant first, stand for n. Letters may be of
      either case and leading zeros are allowed. */
  predicate Spells(s: string, n: nat, radix: nat)
    requires 2 <= radix <= 16
    decreases |s|
  {
    if s == [] then n == 0
    else
      var k := |s| - 1;
      s[k] in [LOWER[n % radix], UPPER[n % radix]] && Spells(s[..k], n / radix, radix)
  }

  /** Every number has a numeral. */
  lemma {:induction false} EveryNumber(n: nat, radix: nat) returns (s: string)
    requires 2 <= radix <= 16
    ensures s != [] && Spells(s, n, radix)
    decreases n
  {
    if n < radix {
      SmallQuotient(n, radix);
      s := [LOWER[n % radix]];
      OneDigit([], LOWER[n % radix], n, radix);
    } else {
      AbsQuotient(n, radix);
      var front := EveryNumber(n / radix, radix);
      s := front + [LOWER[n % radix]];
      OneDigit(front, LOWER[n % radix], n, radix);
    }
  }

  lemma OneDigit(front: string, c: char, n: nat, radix: nat)
    requires 2 <= radix <= 16 && Spells(front, n / radix, radix) && c == LOWER[n % radix]
    ensures Spells(front + [c], n, radix)
  {
    assert (front + [c])[..|front|] == front;
  }

  lemma SmallQuotient(n: nat, m: nat)
    requires n < m
    ensures n / m == 0
  {
  }

  lemma DigitOfNumeral(s: string, n: nat, radix: nat)
    requires 2 <= radix <= 16 && s != [] && Spells(s, n, radix)
    ensures var k := |s| - 1;
            && s[k] in [LOWER[n % radix], UPPER[n % radix]] && Spells(s[..k], n / radix, radix)
            && n == n / radix * radix + n % radix
  {
    QuotientRemainder(n, radix);
  }

  lemma QuotientRemainder(n: nat, m: nat)
    requires m >= 1
    ensures n == n / m * m + n % m && 0 <= n % m < m
  {
  }
}
