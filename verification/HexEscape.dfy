/** The hexadecimal escape sequence in character and string constants. */
module HexEscape {
  import opened Arith
  import opened IntTypes
  import opened Numerals

  predicate IsHex(c: char) { '0' <= c <= '9' || 'a' <= c <= 'f' || 'A' <= c <= 'F' }

  function HexDigit(c: char): (d: nat)
    requires IsHex(c)
    ensures d < 16
  {
    if 'a' <= c <= 'f' then c as int - 'a' as int + 10
    else if 'A' <= c <= 'F' then c as int - 'A' as int + 10
    else c as int - '0' as int
  }

  function Pow16(n: nat): (p: nat)
    ensures p >= 1
  {
    if n == 0 then 1 else 16 * Pow16(n - 1)
  }

  predicate Hex(s: string) {
    forall i :: 0 <= i < |s| ==> IsHex(s[i])
  }

  /** The true value of a run of hex digits. */
  function HexValue(s: string): nat
    requires Hex(s)
  {
    if s == [] then 0 else 16 * HexValue(s[..|s| - 1]) + HexDigit(s[|s| - 1])
  }

  /** An int of `bits` bits, after wrap-around. */
  function Wrap(v: int, bits: nat): int
    requires bits >= 1
  {
    (v + Pow2(bits - 1)) % Pow2(bits) - Pow2(bits - 1)
  }

  /** Where the hex digits from i end. */
  function HexEnd(text: string, i: nat): (e: nat)
    requires i <= |text|
    ensures i <= e <= |text| && (forall k :: i <= k < e ==> IsHex(text[k])) && (e < |text| ==> !IsHex(text[e]))
    decreases |text| - i
  {
    if i < |text| && IsHex(text[i]) then HexEnd(text, i + 1) else i
  }

  datatype Escape = Escape(code: int, noDigits: bool, outOfRange: bool, next: nat)

  /** count counts the digits from the first nonzero one, firstdig is that digit. */
  predicate Leads(v: nat, count: nat, firstdig: int) {
    if count == 0 then v == 0
    else 1 <= firstdig < 16 && firstdig * Pow16(count - 1) <= v < (firstdig + 1) * Pow16(count - 1)
  }

  lemma LeadsNothing()
    ensures Leads(0, 0, 0)
  {
  }

  lemma LeadsNext(v: nat, count: nat, firstdig: int, d: nat)
    requires Leads(v, count, firstdig) && d < 16
    ensures count == 0 ==> v == 0
    ensures count > 0 ==> Leads(16 * v + d, count + 1, firstdig)
    ensures count == 0 && d > 0 ==> Leads(d, 1, d)
    ensures count == 0 && d == 0 ==> Leads(0, 0, firstdig)
  {
    if count > 0 {
      Times16(firstdig, Pow16(count - 1));
      Times16(firstdig + 1, Pow16(count - 1));
    }
  }

  lemma Times16(a: int, p: nat)
    ensures a * (16 * p) == 16 * (a * p)
  {
  }

  lemma WrapNext(v: int, d: int, bits: nat)
    requires bits >= 1
    ensures Wrap(Wrap(v, bits) * 16 + d, bits) == Wrap(v * 16 + d, bits)
  {
    var m, h := Pow2(bits), Pow2(bits - 1);
    var q, r := (v + h) / m, (v + h) % m;
    assert v + h == q * m + r;
    Reduced(v * 16 + d + h, 16 * q, m);
    assert v * 16 + d + h - 16 * q * m == (r - h) * 16 + d + h;
  }

  lemma Reduced(a: int, q: int, m: nat)
    requires m >= 1
    ensures (a - q * m) % m == a % m
  {
    var k, r := a / m, a % m;
    assert a == k * m + r;
    assert a - q * m == (k - q) * m + r;
    UniqueQuotient(a - q * m, m, k - q, r);
    assert a - q * m == (a - q * m) / m * m + (a - q * m) % m;
  }

  lemma WrapSmall(v: nat, bits: nat)
    requires bits >= 5 && v < 16
    ensures Wrap(v, bits) == v
  {
    PowGrows(4, bits - 1);
    assert Pow2(4) == 16;
    SmallRemainder(v + Pow2(bits - 1), 2 * Pow2(bits - 1));
  }

  lemma {:induction false} Pow16Is(n: nat)
    ensures Pow16(n) == Pow2(4 * n)
  {
    if n > 0 {
      Pow16Is(n - 1);
      assert Pow2(4 * n - 2) == 4 * Pow2(4 * n - 4);
      assert Pow2(4 * n) == 4 * Pow2(4 * n - 2);
    }
  }

  /** The test the code makes: the number of significant digits and the first
      of them tell whether the true value fits. */
  predicate RangeTest(count: nat, firstdig: int, prec: nat) {
    count != 0
    && ((count - 1) * 4 >= prec || (count > 1 && Pow2(prec - (count - 1) * 4) <= firstdig))
  }

  lemma RangeTestOk(v: nat, count: nat, firstdig: int, prec: nat)
    requires Leads(v, count, firstdig) && prec >= 4
    ensures RangeTest(count, firstdig, prec) <==> v >= Pow2(prec)
  {
    if count <= 1 {
      Pow16Is(1);
      PowGrows(4, prec);
    } else {
      Pow16Is(count - 1);
      ManyDigits(v, firstdig, 4 * (count - 1), prec);
    }
  }

  lemma ManyDigits(v: nat, f: int, n: nat, prec: nat)
    requires 1 <= f && f * Pow2(n) <= v < (f + 1) * Pow2(n)
    ensures n >= prec || Pow2(prec - n) <= f <==> v >= Pow2(prec)
  {
    hide Pow2;
    if n >= prec {
      PowGrows(prec, n);
      AtLeast(v, f, Pow2(n), Pow2(prec));
    } else {
      PowSum(prec - n, n);
      Ratio(v, f, Pow2(prec - n), Pow2(n));
    }
  }

  lemma AtLeast(v: nat, f: int, p: nat, bound: nat)
    requires f >= 1 && p >= bound && p >= 1 && f * p <= v
    ensures v >= bound
  {
  }

  lemma Ratio(v: nat, f: int, a: nat, p: nat)
    requires p >= 1 && f * p <= v < (f + 1) * p
    ensures a <= f <==> v >= a * p
  {
    if a <= f {
      TimesMonotone(a, f, p);
    } else {
      TimesMonotone(f + 1, a, p);
    }
  }

  /** Wrapping is conversion to a signed int. */
  lemma WrapConverts(v: int, bits: nat)
    requires bits >= 1
    ensures Wrap(v, bits) == Convert(Width(bits, false), v)
  {
    var m, h := Pow2(bits), Pow2(bits - 1);
    var q := (v + h) / m;
    assert v + h == q * m + (v + h) % m;
    assert v == Wrap(v, bits) + Multiple(q, m);
    ConvertUnique(Width(bits, false), v, Wrap(v, bits), q);
  }

  /** From `at` to e the text is a hexadecimal numeral for n, and no more. */
  predicate IsHexNumeral(text: string, at: nat, e: nat, n: nat) {
    && at < e <= |text| && Spells(text[at..e], n, 16)
    && (e < |text| ==> text[e] !in "0123456789abcdefABCDEF")
  }

  lemma {:induction false} HexNumeral(s: string, n: nat)
    requires Spells(s, n, 16)
    ensures Hex(s)
    ensures HexValue(s) == n
    decreases |s|
  {
    if s != [] {
      var k := |s| - 1;
      DigitOfNumeral(s, n, 16);
      HexDigitValue(s[k], n % 16);
      HexNumeral(s[..k], n / 16);
      assert s == s[..k] + [s[k]];
    }
  }

  lemma HexDigitValue(c: char, d: nat)
    requires d < 16 && c in [LOWER[d], UPPER[d]]
    ensures IsHex(c) && HexDigit(c) == d
  {
    if d < 10 {
      assert c == '0' + d as char;
    } else {
      assert c == 'a' + (d - 10) as char || c == 'A' + (d - 10) as char;
    }
  }

  /** A hexadecimal numeral is read to its end and for its number. */
  lemma HexNumeralRead(text: string, at: nat, e: nat, n: nat)
    requires IsHexNumeral(text, at, e, n)
    ensures at <= |text| && HexEnd(text, at) == e && Hex(text[at..e])
    ensures HexValue(text[at..e]) == n
  {
    hide HexDigit, Spells, HexValue;
    HexNumeral(text[at..e], n);
    assert forall k :: at <= k < e ==> text[k] == text[at..e][k - at];
    assert e < |text| ==> !IsHex(text[e]);
  }

  lemma HexNothing(text: string, at: nat)
    requires at <= |text|
    ensures Hex(text[at..at]) && HexValue(text[at..at]) == 0
  {
  }

  lemma HexNext(text: string, at: nat, i: nat)
    requires at <= i < |text| && Hex(text[at..i]) && IsHex(text[i])
    ensures Hex(text[at..i + 1]) && HexValue(text[at..i + 1]) == 16 * HexValue(text[at..i]) + HexDigit(text[i])
    ensures HexEnd(text, i) == HexEnd(text, i + 1)
  {
    assert text[at..i + 1] == text[at..i] + [text[i]];
    assert text[at..i + 1][..i - at] == text[at..i];
  }

  lemma HexStop(text: string, i: nat)
    requires i <= |text| && (i < |text| ==> !IsHex(text[i]))
    ensures HexEnd(text, i) == i
  {
  }

  lemma HexNumeralSome(text: string, at: nat, e: nat, n: nat)
    requires IsHexNumeral(text, at, e, n)
    ensures at < e
  {
  }

  /** readescape after a backslash and x: the digits from `at`, in an int of `bits` bits here and of
      `prec` bits on the target. */
  method ReadHexEscape(text: string, at: nat, bits: nat, prec: nat) returns (e: Escape)
    requires at <= |text| && bits >= 5 && prec >= 4
    ensures e.next == HexEnd(text, at)
    ensures e.code == Wrap(HexValue(text[at..e.next]), bits)
    ensures e.noDigits <==> e.next == at
    ensures e.outOfRange <==> HexValue(text[at..e.next]) >= Pow2(prec)
    ensures forall end: nat, n: nat :: IsHexNumeral(text, at, end, n) ==>
              e == Escape(Convert(Width(bits, false), n), false, n >= Pow2(prec), end)
  {
    hide Wrap, Leads, RangeTest, Pow2, HexValue, HexEnd, HexDigit, IsHexNumeral, Fits;
    var code, firstdig := 0, 0;
    var count, nonnull, i := 0, false, at;
    WrapSmall(0, bits);
    HexNothing(text, at);
    LeadsNothing();
    while i < |text| && IsHex(text[i])
      invariant at <= i <= |text| && HexEnd(text, i) == HexEnd(text, at) && Hex(text[at..i])
      invariant code == Wrap(HexValue(text[at..i]), bits)
      invariant Leads(HexValue(text[at..i]), count, firstdig)
      invariant nonnull <==> i > at
    {
      var d := HexDigit(text[i]);
      ghost var v := HexValue(text[at..i]);
      HexNext(text, at, i);
      WrapNext(v, d, bits);
      LeadsNext(v, count, firstdig, d);
      WrapSmall(d, bits);
      code := Wrap(code * 16 + d, bits);
      if code != 0 || count != 0 {
        if count == 0 {
          firstdig := code;
        }
        count := count + 1;
      }
      nonnull := true;
      i := i + 1;
    }
    HexStop(text, i);
    RangeTestOk(HexValue(text[at..i]), count, firstdig, prec);
    PowGrows(0, prec);
    e := Escape(code, !nonnull, nonnull && RangeTest(count, firstdig, prec), i);
    forall end: nat, n: nat | IsHexNumeral(text, at, end, n)
      ensures at < end && e == Escape(Convert(Width(bits, false), n), false, n >= Pow2(prec), end) {
      HexNumeralSome(text, at, end, n);
      HexNumeralRead(text, at, end, n);
      WrapConverts(n, bits);
    }
  }
}
