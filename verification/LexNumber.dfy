/** Integer constants: multi-precision accumulation, range check and choice of type. */
module LexNumber {
  import opened IntTypes
  import opened Arith
  import opened Numerals
  import NarrowOps

  function Pow256(k: nat): (p: nat)
    ensures p >= 1
  {
    if k == 0 then 1 else 256 * Pow256(k - 1)
  }

  /** The number whose base-256 digits are s, least significant first. */
  function ValueOf(s: seq<int>): int {
    if s == [] then 0 else s[0] + 256 * ValueOf(s[1..])
  }

  predicate Bytes(s: seq<int>) {
    forall i :: 0 <= i < |s| ==> 0 <= s[i] < 256
  }

  /** All parts but the highest are bytes; the highest takes whatever is carried out. */
  predicate Normal(s: seq<int>) {
    s != [] && Bytes(s[..|s| - 1]) && s[|s| - 1] >= 0
  }

  // Reading digits.

  predicate IsDigit(c: char) { '0' <= c <= '9' }

  predicate IsAlnum(c: char) { IsDigit(c) || 'a' <= c <= 'z' || 'A' <= c <= 'Z' }

  /** The characters that end the digits of a number without a point. */
  predicate IsSuffix(c: char) { c in "lLuUiIjJ" }

  predicate InNumber(c: char) { IsAlnum(c) && !IsSuffix(c) }

  /** What a character of the number adds: in radix 16 every letter counts, below that
      none does (an error is given). */
  function DigitOf(c: char, base: nat): (d: nat)
    requires IsAlnum(c)
    ensures d < 36
  {
    if IsDigit(c) then c as int - '0' as int
    else if base <= 10 then 0
    else if c >= 'a' then c as int - 'a' as int + 10
    else c as int - 'A' as int + 10
  }

  /** The value of a run of digits. */
  function Number(digits: seq<char>, base: nat): nat
    requires forall i :: 0 <= i < |digits| ==> IsAlnum(digits[i])
  {
    if digits == [] then 0
    else
      var k := |digits| - 1;
      Number(digits[..k], base) * base + DigitOf(digits[k], base)
  }

  function CharAt(text: string, i: nat): char {
    if i < |text| then text[i] else '\n'
  }

  /** Where the characters of the number starting at i end. */
  function RunEnd(text: string, i: nat): (e: nat)
    ensures i <= e && forall k :: i <= k < e ==> InNumber(CharAt(text, k))
    ensures !InNumber(CharAt(text, e))
    ensures i <= |text| ==> e <= |text|
    decreases |text| - i
  {
    if InNumber(CharAt(text, i)) then RunEnd(text, i + 1) else i
  }

  lemma RunStep(text: string, i: nat)
    ensures RunEnd(text, i) == if InNumber(CharAt(text, i)) then RunEnd(text, i + 1) else i
  {
  }

  /** The base, where its digits start, and how many digits were passed. */
  function Radix(text: string): (nat, nat, nat) {
    if CharAt(text, 0) != '0' then (10, 0, 0)
    else if CharAt(text, 1) == 'x' || CharAt(text, 1) == 'X' then (16, 2, 0)
    else if IsDigit(CharAt(text, 1)) then (8, 1, 1)
    else (10, 1, 1)
  }

  /** An exponent: the number is a floating constant. */
  predicate Exponent(c: char, base: nat) {
    base <= 10 && (c == 'e' || c == 'E')
  }

  ghost predicate FloatAt(text: string, start: nat, base: nat, i: nat) {
    && start <= i && (CharAt(text, i) == '.' || Exponent(CharAt(text, i), base))
    && forall k :: start <= k < i ==> InNumber(CharAt(text, k)) && !Exponent(CharAt(text, k), base)
  }

  /** The parts from one whose new value, before its excess is carried, is y. */
  function Carried(y: int, s: seq<int>, base: nat): seq<int>
    decreases s
  {
    if s == [] then [y] else [y % 256] + Carried(Multiple(s[0], base) + y / 256, s[1..], base)
  }

  lemma ScaleParts(first: int, rest: int, base: nat, q: int)
    ensures 256 * (first * base + q + 256 * rest * base) == 256 * q + 256 * (first + 256 * rest) * base
  {
  }

  lemma NonnegativeProduct(a: int, b: nat)
    requires a >= 0
    ensures a * b >= 0
  {
  }

  /** Carrying keeps the number. */
  lemma {:induction false} CarriedValue(y: int, s: seq<int>, base: nat)
    ensures ValueOf(Carried(y, s, base)) == y + 256 * ValueOf(s) * base
    decreases s
  {
    if s != [] {
      var next := Multiple(s[0], base) + y / 256;
      CarriedValue(next, s[1..], base);
      assert Carried(y, s, base)[1..] == Carried(next, s[1..], base);
      ScaleParts(s[0], ValueOf(s[1..]), base, y / 256);
    } else {
      assert [y][1..] == [];
    }
  }

  lemma {:induction false} CarriedNormal(y: int, s: seq<int>, base: nat)
    requires y >= 0 && forall i :: 0 <= i < |s| ==> s[i] >= 0
    ensures Normal(Carried(y, s, base)) && |Carried(y, s, base)| == |s| + 1
    decreases s
  {
    if s != [] {
      NonnegativeProduct(s[0], base);
      var next := Multiple(s[0], base) + y / 256;
      CarriedNormal(next, s[1..], base);
      var tail := Carried(next, s[1..], base);
      assert ([y % 256] + tail)[..|tail|] == [y % 256] + tail[..|tail| - 1];
    }
  }

  /** Multiplying by the base and adding a digit. */
  function Scaled(s: seq<int>, base: nat, c: nat): seq<int>
    requires s != []
  {
    Carried(Multiple(s[0], base) + c, s[1..], base)
  }

  lemma ScaledOk(s: seq<int>, base: nat, c: nat)
    requires Normal(s)
    ensures ValueOf(Scaled(s, base, c)) == ValueOf(s) * base + c
    ensures Normal(Scaled(s, base, c)) && |Scaled(s, base, c)| == |s|
  {
    hide Carried, Multiple;
    AllPartsNonnegative(s);
    NonnegativeProduct(s[0], base);
    var y := Multiple(s[0], base) + c;
    assert y >= 0 by { MultipleIs(s[0], base); }
    CarriedValue(y, s[1..], base);
    CarriedNormal(y, s[1..], base);
    MultipleIs(s[0], base);
    ScaleFirst(s[0], ValueOf(s[1..]), base);
  }

  lemma MultipleIs(a: int, base: nat)
    ensures Multiple(a, base) == a * base
  {
  }

  lemma ScaleFirst(first: int, rest: int, base: nat)
    ensures (first + 256 * rest) * base == first * base + 256 * rest * base
  {
  }

  lemma AllPartsNonnegative(s: seq<int>)
    requires Normal(s)
    ensures forall i :: 0 <= i < |s| ==> s[i] >= 0
  {
  }

  lemma CarriedShift(front: seq<int>, y: int, s: seq<int>, base: nat)
    ensures s == [] ==> front + Carried(y, s, base) == front + [y]
    ensures s != [] ==> front + Carried(y, s, base)
                        == (front + [y % 256]) + Carried(Multiple(s[0], base) + y / 256, s[1..], base)
  {
  }

  /** A host int of 32 bits: what does not fit wraps. */
  function HostInt(v: int): (h: int)
    ensures -0x8000_0000 <= h < 0x8000_0000
    ensures -0x8000_0000 <= v < 0x8000_0000 ==> h == v
    ensures (v - h) % 0x1_0000_0000 == 0
  {
    (v + 0x8000_0000) % 0x1_0000_0000 - 0x8000_0000
  }

  /** The parts in their ints: only the highest can be too large. */
  function Stored(s: seq<int>): seq<int>
    requires s != []
  {
    s[..|s| - 1] + [HostInt(s[|s| - 1])]
  }

  lemma SmallProduct(a: int, base: nat)
    requires 0 <= a < 256 && base <= 16
    ensures 0 <= Multiple(a, base) <= 255 * 16
  {
  }

  /** The inner loop: parts := parts * base + c, carrying from each part to the next. */
  method AddDigit(parts: array<int>, base: nat, c: nat)
    requires parts.Length > 1 && Bytes(parts[..parts.Length - 1]) && base <= 16 && c < 36
    modifies parts
    ensures parts[..] == Stored(Scaled(old(parts[..]), base, c))
  {
    hide Multiple, Carried, HostInt;
    ghost var was, front, y := parts[..], [], Multiple(parts[0], base) + c;
    SmallProduct(was[..|was| - 1][0], base);
    CarriedShift([], y, was[1..], base);
    parts[0] := HostInt(Multiple(parts[0], base) + c);
    var count := 1;
    while count < parts.Length
      invariant 1 <= count <= parts.Length && |front| == count - 1
      invariant forall i :: count <= i < parts.Length ==> parts[i] == was[i]
      invariant forall i :: 0 <= i < count - 1 ==> parts[i] == front[i]
      invariant parts[count - 1] == HostInt(y) && (count < parts.Length ==> 0 <= y < 0x8000)
      invariant Scaled(was, base, c) == front + Carried(y, was[count..], base)
    {
      CarriedShift(front, y, was[count..], base);
      assert was[count..][1..] == was[count + 1..];
      if count + 1 < parts.Length {
        SmallProduct(was[..|was| - 1][count], base);
      }
      front, y := front + [y % 256], Multiple(was[count], base) + y / 256;
      parts[count] := HostInt(Multiple(parts[count], base) + parts[count - 1] / 256);
      parts[count - 1] := parts[count - 1] % 256;
      count := count + 1;
    }
    assert was[count..] == [];
    CarriedShift(front, y, [], base);
    assert parts[..] == front + [HostInt(y)];
  }

  /** What the digits of an integer constant leave. */
  datatype Scan =
    | Integer(base: nat, numDigits: nat, largestDigit: nat, nonDigits: bool, parts: seq<int>, overflow: bool, end: nat)
    | Floating(at: nat)

  lemma {:induction false} BytesBound(s: seq<int>)
    requires Bytes(s)
    ensures 0 <= ValueOf(s) < Pow256(|s|)
  {
    if s != [] {
      BytesBound(s[1..]);
    }
  }

  /** The highest part is used exactly when the number does not fit the bytes below it. */
  lemma {:induction false} HighPart(s: seq<int>)
    requires Normal(s)
    ensures ValueOf(s) >= 0
    ensures s[|s| - 1] != 0 <==> ValueOf(s) >= Pow256(|s| - 1)
  {
    AllPartsNonnegative(s);
    if |s| == 1 {
      assert s[1..] == [];
    } else {
      assert s[1..][..|s| - 2] == s[..|s| - 1][1..];
      assert 0 <= s[..|s| - 1][0] < 256;
      HighPart(s[1..]);
    }
  }

  lemma NumberGrows(v: nat, base: nat, c: nat)
    requires base >= 1
    ensures v * base + c >= v
  {
  }

  lemma {:induction false} ZeroValue(n: nat)
    ensures ValueOf(seq(n, _ => 0)) == 0
  {
    if n > 0 {
      ZeroValue(n - 1);
      assert seq(n, _ => 0)[1..] == seq(n - 1, _ => 0);
    }
  }

  /** The characters from start to i are digits of an integer so far. */
  ghost predicate DigitsTo(text: string, start: nat, i: nat, base: nat) {
    start <= i <= |text| && forall k :: start <= k < i ==> InNumber(text[k]) && !Exponent(text[k], base)
  }

  lemma DigitsAlnum(text: string, start: nat, i: nat, base: nat)
    requires DigitsTo(text, start, i, base)
    ensures forall k :: 0 <= k < i - start ==> IsAlnum(text[start..i][k])
  {
  }

  /** The value of those digits. */
  ghost function NumberTo(text: string, start: nat, i: nat, base: nat): nat
    requires DigitsTo(text, start, i, base)
  {
    DigitsAlnum(text, start, i, base);
    Number(text[start..i], base)
  }

  /** The parts below the highest hold the low bytes of the value read, and overflow tells
      whether the highest ever got anything; after that it holds nothing of use. */
  ghost predicate Holds(parts: seq<int>, overflow: bool, wide: nat, value: nat) {
    var n := 2 * wide + 1;
    && |parts| == n + 1 && Bytes(parts[..n]) && ValueOf(parts[..n]) == value % Pow256(n)
    && (overflow <==> value >= Pow256(n)) && (!overflow ==> parts[n] == 0)
  }

  lemma HoldsSome(parts: seq<int>, overflow: bool, wide: nat, value: nat)
    requires Holds(parts, overflow, wide, value)
    ensures |parts| > 1 && Bytes(parts[..|parts| - 1])
  {
  }

  /** The parts with nothing in the highest. */
  function Below(s: seq<int>): seq<int>
    requires s != []
  {
    s[..|s| - 1] + [0]
  }

  lemma BelowNormal(s: seq<int>)
    requires s != [] && Bytes(s[..|s| - 1])
    ensures Normal(Below(s)) && ValueOf(Below(s)) == ValueOf(s[..|s| - 1])
  {
    var low := s[..|s| - 1];
    assert Below(s)[..|s| - 1] == low;
    ValueSplits(low, [0]);
    assert ValueOf([0]) == 0 + 256 * ValueOf([0][1..]) == 0;
  }

  /** What is in the highest part makes no difference below, and is only multiplied. */
  lemma {:induction false} CarriedTop(y: int, s: seq<int>, t: int, base: nat)
    ensures var c, c0 := Carried(y, s + [t], base), Carried(y, s + [0], base);
            && |c| == |c0| == |s| + 2 && c[..|s| + 1] == c0[..|s| + 1]
            && c[|s| + 1] == Multiple(t, base) + c0[|s| + 1]
    decreases s
  {
    if s == [] {
      assert ([] + [t])[1..] == [] && ([] + [0])[1..] == [];
      assert Multiple(0, base) == 0;
      assert Carried(y, [t], base) == [y % 256] + [Multiple(t, base) + y / 256];
      assert Carried(y, [0], base) == [y % 256] + [Multiple(0, base) + y / 256];
    } else {
      assert (s + [t])[1..] == s[1..] + [t] && (s + [0])[1..] == s[1..] + [0];
      var next := Multiple(s[0], base) + y / 256;
      CarriedTop(next, s[1..], t, base);
      var c, c0 := Carried(next, s[1..] + [t], base), Carried(next, s[1..] + [0], base);
      assert ([y % 256] + c)[..|s| + 1] == [y % 256] + c[..|s|];
      assert ([y % 256] + c0)[..|s| + 1] == [y % 256] + c0[..|s|];
    }
  }

  lemma ScaledTop(s: seq<int>, base: nat, c: nat)
    requires |s| > 1
    ensures var n, r, r0 := |s| - 1, Scaled(s, base, c), Scaled(Below(s), base, c);
            |r| == |r0| == |s| && r[..n] == r0[..n] && r[n] == Multiple(s[n], base) + r0[n]
  {
    var low := s[1..|s| - 1];
    assert s[1..] == low + [s[|s| - 1]] && Below(s)[1..] == low + [0] && Below(s)[0] == s[0];
    CarriedTop(Multiple(s[0], base) + c, low, s[|s| - 1], base);
  }

  lemma ValueOfOne(x: int)
    ensures ValueOf([x]) == x
  {
    assert ValueOf([x]) == x + 256 * ValueOf([x][1..]);
  }

  /** A number split at the highest part: bytes below, the rest in it. */
  lemma TopSplits(s: seq<int>)
    requires Normal(s)
    ensures var n := |s| - 1;
            && 0 <= ValueOf(s[..n]) < Pow256(n) && ValueOf(s) == ValueOf(s[..n]) + s[n] * Pow256(n)
            && ValueOf(s[..n]) == ValueOf(s) % Pow256(n) && s[n] == ValueOf(s) / Pow256(n)
  {
    hide ValueOf, Pow256;
    var n := |s| - 1;
    assert s == s[..n] + [s[n]];
    BytesBound(s[..n]);
    ValueSplits(s[..n], [s[n]]);
    ValueOfOne(s[n]);
    Digit(ValueOf(s), s[n], ValueOf(s[..n]), Pow256(n));
  }

  /** Taking a digit in: on the low bytes alone, and of what they carry out. */
  lemma LowNext(value: nat, p: nat, base: nat, c: nat)
    requires p >= 1
    ensures (value * base + c) % p == (value % p * base + c) % p
    ensures value < p ==> value % p == value
    ensures value >= p && base >= 1 ==> value * base + c >= p
  {
    LowDigit(value, value / p, value % p, p, base, c);
    if base >= 1 {
      NumberGrows(value, base, c);
    }
    SmallIsLow(value, p);
  }

  lemma LowDigit(value: nat, q: nat, r: nat, p: nat, base: nat, c: nat)
    requires p >= 1 && value == q * p + r
    ensures (value * base + c) % p == (r * base + c) % p
  {
    Regroup(r, q, p, base, c);
    LiftedRemainder(r * base + c, q * base, p);
  }

  lemma Regroup(r: int, q: int, p: nat, base: nat, c: int)
    ensures (r + q * p) * base + c == (r * base + c) + (q * base) * p
  {
  }

  lemma SmallIsLow(value: nat, p: nat)
    requires p >= 1
    ensures value < p ==> value % p == value
  {
  }

  /** The bytes carry less than the base, plus one, into the highest part. */
  lemma CarryBound(v: nat, p: nat, base: nat, c: nat)
    requires p >= 256 && v < p && base <= 16 && c < 36
    ensures 0 <= (v * base + c) / p <= 16
  {
    TimesBelow(v, p, base);
    assert v * base + c < 17 * p;
    QuotientBelow(v * base + c, p, 17);
  }

  lemma TimesBelow(v: nat, p: nat, base: nat)
    requires v < p && base <= 16
    ensures v * base <= 16 * p - base && v * base <= v * 16
  {
  }

  lemma QuotientBelow(v: nat, p: nat, k: nat)
    requires p >= 1 && v < k * p
    ensures v / p < k
  {
    var q := v / p;
    assert v == q * p + v % p;
    if q >= k {
      TimesMonotone(k, q, p);
    }
  }

  lemma HoldsNext(parts: seq<int>, overflow: bool, wide: nat, text: string, start: nat, i: nat, base: nat)
    requires DigitsTo(text, start, i + 1, base) && start <= i && 1 <= base <= 16
    requires Holds(parts, overflow, wide, NumberTo(text, start, i, base))
    ensures parts != [] && Scaled(parts, base, DigitOf(text[i], base)) != []
    ensures var next := Stored(Scaled(parts, base, DigitOf(text[i], base)));
            next != [] && Holds(next, overflow || next[|next| - 1] != 0, wide, NumberTo(text, start, i + 1, base))
  {
    assert text[start..i + 1][..i - start] == text[start..i];
    HoldsScaled(parts, overflow, wide, NumberTo(text, start, i, base), base, DigitOf(text[i], base));
  }

  lemma HoldsScaled(parts: seq<int>, overflow: bool, wide: nat, value: nat, base: nat, c: nat)
    requires Holds(parts, overflow, wide, value) && 1 <= base <= 16 && c < 36
    ensures parts != [] && Scaled(parts, base, c) != []
    ensures var next := Stored(Scaled(parts, base, c));
            next != [] && Holds(next, overflow || next[|next| - 1] != 0, wide, value * base + c)
  {
    hide Scaled, HostInt, Pow256, ValueOf;
    var n, p := 2 * wide + 1, Pow256(2 * wide + 1);
    var r, r0 := Scaled(parts, base, c), Scaled(Below(parts), base, c);
    BelowNormal(parts);
    ScaledOk(Below(parts), base, c);
    ScaledTop(parts, base, c);
    TopSplits(r0);
    LowNext(value, p, base, c);
    Pow256Large(n);
    CarryBound(value % p, p, base, c);
    assert Stored(r)[..n] == r0[..n] && Stored(r)[n] == HostInt(r[n]);
    if !overflow {
      assert Multiple(0, base) == 0;
      QuotientZero(value * base + c, p);
    }
  }

  lemma Pow256Large(n: nat)
    requires n >= 1
    ensures Pow256(n) >= 256
  {
  }

  lemma QuotientZero(v: nat, p: nat)
    requires p >= 1
    ensures v / p == 0 <==> v < p
  {
    if v < p {
      SmallRemainder(v, p);
      UniqueQuotient(v, p, 0, v);
    } else {
      assert v == v / p * p + v % p;
    }
  }

  /** What the errors about digits are judged by. */
  ghost predicate Judged(text: string, start: nat, i: nat, base: nat, largest: nat, nonDigits: bool)
    requires DigitsTo(text, start, i, base)
  {
    && (forall k :: start <= k < i ==> DigitOf(text[k], base) <= largest)
    && (largest == 0 || exists k :: start <= k < i && DigitOf(text[k], base) == largest)
    && (nonDigits <==> base <= 10 && exists k :: start <= k < i && !IsDigit(text[k]))
  }

  lemma JudgedNext(text: string, start: nat, i: nat, base: nat, largest: nat, nonDigits: bool)
    requires start <= i && DigitsTo(text, start, i + 1, base) && Judged(text, start, i, base, largest, nonDigits)
    ensures var d := DigitOf(text[i], base);
            Judged(text, start, i + 1, base, if d >= largest then d else largest,
                   nonDigits || (!IsDigit(text[i]) && base <= 10))
  {
  }

  lemma ReadingStart(text: string, start: nat, base: nat, wide: nat)
    requires start <= |text|
    ensures var zero := seq(2 * wide + 2, _ => 0);
            Holds(zero, false, wide, NumberTo(text, start, start, base))
    ensures Judged(text, start, start, base, 0, false)
  {
    ZeroValue(2 * wide + 1);
    assert seq(2 * wide + 2, _ => 0)[..2 * wide + 1] == seq(2 * wide + 1, _ => 0);
    SmallRemainder(0, Pow256(2 * wide + 1));
  }

  /** Everything the digits read so far have left. */
  ghost predicate Reading(text: string, start: nat, i: nat, base: nat, wide: nat, largest: nat, nonDigits: bool,
                          parts: seq<int>, overflow: bool)
  {
    && DigitsTo(text, start, i, base)
    && Judged(text, start, i, base, largest, nonDigits)
    && Holds(parts, overflow, wide, NumberTo(text, start, i, base))
  }

  /** Taking the digit at i: the error flags, the parts, and whether the extra highest
      part got anything. */
  method TakeDigit(text: string, ghost start: nat, i: nat, base: nat, ghost wide: nat,
                   largest: nat, nonDigits: bool, parts: array<int>, overflow: bool)
    returns (largest': nat, nonDigits': bool, overflow': bool)
    requires Reading(text, start, i, base, wide, largest, nonDigits, parts[..], overflow)
    requires i < |text| && InNumber(text[i]) && !Exponent(text[i], base) && 1 <= base <= 16
    modifies parts
    ensures Reading(text, start, i + 1, base, wide, largest', nonDigits', parts[..], overflow')
  {
    hide Holds, Judged, NumberTo;
    JudgedNext(text, start, i, base, largest, nonDigits);
    HoldsNext(parts[..], overflow, wide, text, start, i, base);
    HoldsSome(parts[..], overflow, wide, NumberTo(text, start, i, base));
    var d := DigitOf(text[i], base);
    nonDigits' := nonDigits || (!IsDigit(text[i]) && base <= 10);
    largest' := if d >= largest then d else largest;
    AddDigit(parts, base, d);
    overflow' := overflow || parts[parts.Length - 1] != 0;
  }

  /** A scan stops at what makes a floating constant, or with every digit counted in. */
  ghost predicate ScanOk(text: string, wide: nat, base: nat, start: nat, passed: nat, s: Scan) {
    match s
    case Floating(at) => FloatAt(text, start, base, at)
    case Integer(b, digits, largest, nonDigits, parts, overflow, end) =>
      && b == base && end == RunEnd(text, start) && CharAt(text, end) != '.'
      && DigitsTo(text, start, end, base)
      && Holds(parts, overflow, wide, NumberTo(text, start, end, base))
      && Judged(text, start, end, base, largest, nonDigits) && digits == passed + (end - start)
  }

  /** A character that cannot go on a number: no point, and a letter only if a suffix. */
  predicate Stops(c: char) {
    c != '.' && (c in "uUlLiIjJ" || !('0' <= c <= '9' || 'a' <= c <= 'z' || 'A' <= c <= 'Z'))
  }

  /** Up to e the text is an integer constant for n written in a radix, and no more. */
  predicate IsConstant(text: string, e: nat, radix: nat, n: nat) {
    && e <= |text| && (e < |text| ==> Stops(text[e]))
    && match radix
       case 8 => e > 1 && text[0] == '0' && Spells(text[1..e], n, 8)
       case 10 => e > 0 && (text[0] == '0' ==> e == 1) && Spells(text[..e], n, 10)
       case 16 => e > 2 && text[0] == '0' && text[1] in "xX" && Spells(text[2..e], n, 16)
       case _ => false
  }

  /** The characters of a numeral are digits below the radix. */
  lemma {:induction false} NumeralDigits(s: string, n: nat, radix: nat)
    requires radix in {8, 10, 16} && Spells(s, n, radix)
    ensures forall i :: 0 <= i < |s| ==> IsAlnum(s[i]) && GoodDigit(s[i], radix)
    decreases |s|
  {
    hide GoodDigit, DigitOf, IsAlnum, Spells;
    if s != [] {
      var k := |s| - 1;
      DigitOfNumeral(s, n, radix);
      QuotientRemainder(n, radix);
      DigitValue(s[k], n % radix, radix);
      NumeralDigits(s[..k], n / radix, radix);
      assert forall i :: 0 <= i < k ==> s[i] == s[..k][i];
    }
  }

  /** They add up to its number. */
  lemma {:induction false} NumeralValue(s: string, n: nat, radix: nat)
    requires radix in {8, 10, 16} && Spells(s, n, radix)
    requires forall i :: 0 <= i < |s| ==> IsAlnum(s[i])
    ensures Number(s, radix) == n
    decreases |s|
  {
    hide GoodDigit, DigitOf, IsAlnum, Spells;
    if s == [] {
      EmptyNumeral(n, radix);
    } else {
      var k := |s| - 1;
      DigitOfNumeral(s, n, radix);
      QuotientRemainder(n, radix);
      DigitValue(s[k], n % radix, radix);
      NumeralValue(s[..k], n / radix, radix);
      NextDigit(Number(s[..k], radix), n / radix, radix, n % radix, n);
    }
  }

  lemma EmptyNumeral(n: nat, radix: nat)
    requires 2 <= radix <= 16 && Spells([], n, radix)
    ensures n == 0
  {
  }

  lemma NextDigit(v: nat, q: nat, radix: nat, d: nat, n: nat)
    requires v == q && n == q * radix + d
    ensures v * radix + d == n
  {
  }

  predicate GoodDigit(c: char, radix: nat)
    requires IsAlnum(c)
  {
    InNumber(c) && DigitOf(c, radix) < radix && (radix <= 10 ==> IsDigit(c)) && c != '.'
  }

  lemma DigitValue(c: char, d: nat, radix: nat)
    requires radix in {8, 10, 16} && d < radix && c in [LOWER[d], UPPER[d]]
    ensures IsAlnum(c) && DigitOf(c, radix) == d && GoodDigit(c, radix)
  {
    if d < 10 {
      assert c == '0' + d as char;
    } else {
      assert c == 'a' + (d - 10) as char || c == 'A' + (d - 10) as char;
    }
  }

  /** Where the digits of a constant start, and that the scan finds its radix. */
  lemma ConstantStarts(text: string, e: nat, radix: nat, n: nat) returns (start: nat)
    requires IsConstant(text, e, radix, n)
    ensures start <= e && Radix(text).0 == radix && Radix(text).1 == start && Spells(text[start..e], n, radix)
    ensures Radix(text).2 + (e - start) > 0
  {
    if radix == 16 {
      start := 2;
    } else if radix == 8 {
      start := 1;
      NumeralDigits(text[1..e], n, 8);
      assert text[1..e][0] == text[1];
    } else {
      start := if text[0] == '0' then 1 else 0;
      if e == 1 && text[0] == '0' {
        ZeroAlone(text[..1], n);
      } else {
        assert text[0..e] == text[..e];
      }
    }
  }

  lemma ZeroAlone(s: string, n: nat)
    requires s == "0" && Spells(s, n, 10)
    ensures n == 0
  {
    assert s[..0] == [];
    DigitOfNumeral(s, n, 10);
    assert LOWER[0] == '0';
  }

  /** A constant's digits, as the scan looks at them. */
  lemma ConstantDigits(text: string, e: nat, radix: nat, n: nat, start: nat)
    requires IsConstant(text, e, radix, n) && start <= e && Spells(text[start..e], n, radix)
    ensures radix in {8, 10, 16} && DigitsTo(text, start, e, radix) && NumberTo(text, start, e, radix) == n
    ensures forall k :: start <= k < e ==> text[k] != '.' && IsAlnum(text[k]) && GoodDigit(text[k], radix)
    ensures !InNumber(CharAt(text, e)) && CharAt(text, e) != '.'
  {
    hide Number, DigitOf, Spells;
    NumeralDigits(text[start..e], n, radix);
    NumeralValue(text[start..e], n, radix);
    forall k | start <= k < e ensures text[k] == text[start..e][k - start] {
    }
  }

  /** Whatever is scanned from an integer constant is that constant: its radix, its
      number and its end, with nothing to complain of. */
  lemma ConstantScanned(text: string, e: nat, radix: nat, n: nat, wide: nat, s: Scan)
    requires IsConstant(text, e, radix, n)
    requires var (base, start, passed) := Radix(text);
             ScanOk(text, wide, base, start, passed, s)
    ensures ScanIs(s, e, radix, n, wide)
  {
    hide Holds, Number, DigitOf, Spells, IsConstant, IsAlnum, IsSuffix, NumberTo, Radix;
    ConstantLength(text, e, radix, n);
    var start := ConstantStarts(text, e, radix, n);
    ConstantDigits(text, e, radix, n, start);
    if s.Floating? {
      NotFloating(text, start, radix, e, s.at);
    } else {
      assert s.end == e;
      JudgedBelow(text, start, e, radix, s.largestDigit);
    }
  }

  lemma ConstantLength(text: string, e: nat, radix: nat, n: nat)
    requires IsConstant(text, e, radix, n)
    ensures e <= |text|
  {
  }

  lemma NotFloating(text: string, start: nat, base: nat, e: nat, at: nat)
    requires e <= |text| && DigitsTo(text, start, e, base) && !InNumber(CharAt(text, e)) && CharAt(text, e) != '.'
    requires forall k :: start <= k < e ==> text[k] != '.'
    ensures !FloatAt(text, start, base, at)
  {
  }

  lemma JudgedBelow(text: string, start: nat, e: nat, radix: nat, largest: nat)
    requires DigitsTo(text, start, e, radix) && radix > 0
    requires largest == 0 || exists k :: start <= k < e && DigitOf(text[k], radix) == largest
    requires forall k :: start <= k < e ==> IsAlnum(text[k]) && GoodDigit(text[k], radix)
    ensures largest < radix
  {
  }

  /** Decimal digits up to a point or an exponent. */
  predicate IsFloating(text: string, at: nat) {
    0 < at < |text| && (forall k :: 0 <= k < at ==> '0' <= text[k] <= '9') && text[at] in ".eE"
  }

  /** They start a floating constant, octal or not. */
  lemma FloatingScanned(text: string, at: nat, wide: nat, s: Scan)
    requires IsFloating(text, at)
    requires var (base, start, passed) := Radix(text);
             ScanOk(text, wide, base, start, passed, s)
    ensures s == Floating(at)
  {
    hide Holds, Number, DigitOf, NumberTo, Judged;
    var (base, start, _) := Radix(text);
    assert base <= 10 && start <= 1;
    assert forall k :: start <= k < at ==> CharAt(text, k) == text[k] && InNumber(text[k]) && !Exponent(text[k], base);
    assert CharAt(text, at) == text[at];
  }

  ghost predicate ScanIs(s: Scan, e: nat, radix: nat, n: nat, wide: nat) {
    && s.Integer? && s.base == radix && s.end == e && Holds(s.parts, s.overflow, wide, n)
    && s.numDigits > 0 && s.largestDigit < radix && !s.nonDigits
  }

  /** The digits of a numeric constant. TOTAL_PARTS is 2 * wide + 2, for a HOST_WIDE_INT
      of `wide` bytes. */
  method ReadDigits(text: string, wide: nat) returns (s: Scan)
    requires text != [] && IsDigit(text[0])
    ensures var (base, start, passed) := Radix(text);
            ScanOk(text, wide, base, start, passed, s)
    ensures forall e: nat, radix: nat, n: nat :: IsConstant(text, e, radix, n) ==> ScanIs(s, e, radix, n, wide)
    ensures forall at: nat :: IsFloating(text, at) ==> s == Floating(at)
  {
    hide IsConstant, ScanIs, ScanOk, IsFloating;
    var (base, start, passed) := Radix(text);
    s := ReadRun(text, wide, base, start, passed);
    forall e: nat, radix: nat, n: nat | IsConstant(text, e, radix, n) ensures ScanIs(s, e, radix, n, wide) {
      ConstantScanned(text, e, radix, n, wide, s);
    }
    forall at: nat | IsFloating(text, at) ensures s == Floating(at) {
      FloatingScanned(text, at, wide, s);
    }
  }

  method ReadRun(text: string, wide: nat, base: nat, start: nat, passed: nat) returns (s: Scan)
    requires start <= |text| && 1 <= base <= 16
    ensures ScanOk(text, wide, base, start, passed, s)
  {
    hide Holds, Judged, NumberTo, RunEnd;
    var numDigits := passed;
    var i, largest, nonDigits, overflow := start, 0, false, false;
    var parts := new int[2 * wide + 2](_ => 0);
    assert parts[..] == seq(2 * wide + 2, _ => 0);
    ReadingStart(text, start, base, wide);
    while InNumber(CharAt(text, i))
      invariant Reading(text, start, i, base, wide, largest, nonDigits, parts[..], overflow)
      invariant RunEnd(text, start) == RunEnd(text, i) && numDigits == passed + (i - start)
      decreases |text| - i
    {
      RunStep(text, i);
      if Exponent(text[i], base) {
        return Floating(i);
      }
      numDigits := numDigits + 1;
      largest, nonDigits, overflow :=
        TakeDigit(text, start, i, base, wide, largest, nonDigits, parts, overflow);
      i := i + 1;
    }
    RunStep(text, i);
    if CharAt(text, i) == '.' {
      return Floating(i);
    }
    s := Integer(base, numDigits, largest, nonDigits, parts[..], overflow, i);
  }

  // From the parts to a constant.

  lemma {:induction false} PowBytes(k: nat)
    ensures Pow256(k) == Pow2(8 * k)
  {
    if k > 0 {
      PowBytes(k - 1);
      Pow2Plus8(8 * (k - 1));
    }
  }

  lemma Pow2Plus8(n: nat)
    ensures Pow2(n + 8) == 256 * Pow2(n)
  {
    assert Pow2(n + 2) == 4 * Pow2(n);
    assert Pow2(n + 4) == 4 * Pow2(n + 2);
    assert Pow2(n + 6) == 4 * Pow2(n + 4);
    assert Pow2(n + 8) == 4 * Pow2(n + 6);
  }

  lemma {:induction false} ValueSplits(a: seq<int>, b: seq<int>)
    ensures ValueOf(a + b) == ValueOf(a) + ValueOf(b) * Pow256(|a|)
  {
    if a == [] {
      assert a + b == b;
    } else {
      ValueSplits(a[1..], b);
      assert (a + b)[1..] == a[1..] + b;
      Shifted(ValueOf(b), Pow256(|a| - 1));
    }
  }

  lemma Shifted(v: int, p: nat)
    ensures 256 * (v * p) == v * (256 * p)
  {
  }

  /** The parts from k on are all zero exactly when the number fits the k bytes below. */
  lemma {:induction false} TopZero(s: seq<int>, k: nat)
    requires Normal(s) && k < |s|
    ensures ValueOf(s) < Pow256(k) <==> forall i :: k <= i < |s| ==> s[i] == 0
    decreases s
  {
    AllPartsNonnegative(s);
    if |s| == 1 {
      assert s[1..] == [];
    } else {
      assert s[1..][..|s| - 2] == s[..|s| - 1][1..];
      assert 0 <= s[..|s| - 1][0] < 256;
      TopZero(s[1..], if k == 0 then 0 else k - 1);
      HighPart(s[1..]);
      assert forall i :: 1 <= i < |s| ==> s[i] == s[1..][i - 1];
    }
  }

  lemma {:induction false} OrAbove(a: int, b: int, n: nat)
    requires 0 <= a < Pow2(n) && b >= 0
    ensures NarrowOps.Bitwise(NarrowOps.BitOr, a, Multiple(b, Pow2(n))) == a + Multiple(b, Pow2(n))
    decreases n
  {
    hide NarrowOps.Bitwise;
    if n == 0 {
      OrZeroLeft(b);
    } else {
      var m := Pow2(n - 1);
      OrAbove(a / 2, b, n - 1);
      NarrowOps.HalfShift(0, b, m);
      NarrowOps.BitwiseStep(NarrowOps.BitOr, a, Multiple(b, 2 * m));
      Doubled(a, Multiple(b, m), Multiple(b, 2 * m), b, m);
    }
  }

  lemma Doubled(a: int, x: int, y: int, b: int, m: nat)
    requires x == Multiple(b, m) && y == Multiple(b, 2 * m)
    ensures a % 2 + 2 * (a / 2 + x) == a + y
  {
  }

  lemma {:induction false} OrZeroLeft(b: int)
    requires b >= 0
    ensures NarrowOps.Bitwise(NarrowOps.BitOr, 0, b) == b
    decreases b
  {
    if b > 0 {
      OrZeroLeft(b / 2);
      NarrowOps.BitwiseStep(NarrowOps.BitOr, 0, b);
    }
  }

  /** One turn of the gathering loop: or-ing in a part shifted left by i bytes. */
  function OrPart(word: int, part: int, i: nat): int {
    NarrowOps.Bitwise(NarrowOps.BitOr, word, Multiple(part, Pow256(i)))
  }

  /** One byte put above those gathered so far. */
  lemma OrByte(s: seq<int>, i: nat)
    requires i < |s| && Bytes(s[..i + 1])
    ensures OrPart(ValueOf(s[..i]), s[i], i) == ValueOf(s[..i + 1])
  {
    assert s[..i + 1] == s[..i] + [s[i]];
    assert s[i] == s[..i + 1][i];
    assert forall k :: 0 <= k < i ==> s[..i][k] == s[..i + 1][k];
    BytesBound(s[..i]);
    PowBytes(i);
    OrAbove(ValueOf(s[..i]), s[i], 8 * i);
    ValueSplits(s[..i], [s[i]]);
    assert ValueOf([s[i]]) == s[i] + 256 * ValueOf([s[i]][1..]) == s[i];
  }

  /** A constant's two words: the high one signed, the low one as its bits. */
  datatype DoubleInt = DoubleInt(high: int, low: int)

  /** A word's bits read as a HOST_WIDE_INT. */
  function AsWord(bits: int, word: nat): int {
    if 2 * bits >= word then bits - word else bits
  }

  function Words(v: int, word: nat): DoubleInt
    requires word > 0
  {
    DoubleInt(AsWord(v / word % word, word), v % word)
  }

  /** "integer constant out of range": exactly when the value needs more than `bytes` bytes. */
  method OutOfRange(parts: seq<int>, overflow: bool, wide: nat, bytes: nat, ghost value: nat) returns (warn: bool)
    requires Holds(parts, overflow, wide, value) && bytes <= 2 * wide
    ensures warn <==> value >= Pow256(bytes)
  {
    warn := overflow;
    var i := bytes;
    while i < 2 * wide + 2
      invariant bytes <= i <= 2 * wide + 2
      invariant warn <==> overflow || exists k :: bytes <= k < i && parts[k] != 0
    {
      if parts[i] != 0 {
        warn := true;
      }
      i := i + 1;
    }
    WarnOk(parts, overflow, wide, bytes, value);
  }

  /** The two words, gathered byte by byte: the low bits of the value, in range or not. */
  method Gather(parts: seq<int>, ghost overflow: bool, wide: nat, ghost value: nat) returns (c: DoubleInt)
    requires Holds(parts, overflow, wide, value)
    ensures c == Words(value, Pow256(wide))
  {
    hide OrPart, ValueOf, Pow256;
    var high, low := 0, 0;
    ghost var top, bottom := parts[wide..2 * wide], parts[..wide];
    GatheredWords(parts, overflow, wide, value);
    assert top[..0] == [] == bottom[..0];
    ValueOfNone();
    var i := 0;
    while i < wide
      invariant 0 <= i <= wide
      invariant high == ValueOf(top[..i]) && low == ValueOf(bottom[..i])
    {
      OrByte(top, i);
      OrByte(bottom, i);
      high := OrPart(high, parts[i + wide], i);
      low := OrPart(low, parts[i], i);
      i := i + 1;
    }
    assert top[..wide] == top && bottom[..wide] == bottom;
    c := DoubleInt(AsWord(high, Pow256(wide)), low);
  }

  lemma ValueOfNone()
    ensures ValueOf([]) == 0
  {
  }

  lemma WarnOk(parts: seq<int>, overflow: bool, wide: nat, bytes: nat, value: nat)
    requires Holds(parts, overflow, wide, value) && bytes <= 2 * wide
    ensures (overflow || exists k :: bytes <= k < 2 * wide + 2 && parts[k] != 0) <==> value >= Pow256(bytes)
  {
    Pow256Grows(bytes, 2 * wide + 1);
    if !overflow {
      BelowNormal(parts);
      assert Below(parts) == parts;
      SmallIsLow(value, Pow256(2 * wide + 1));
      TopZero(parts, bytes);
    }
  }

  lemma {:induction false} Pow256Grows(a: nat, b: nat)
    requires a <= b
    ensures Pow256(a) <= Pow256(b)
    decreases b - a
  {
    if a < b {
      Pow256Grows(a + 1, b);
    }
  }

  /** The two words hold the low bits of the number. */
  lemma GatheredWords(parts: seq<int>, overflow: bool, wide: nat, value: nat)
    requires Holds(parts, overflow, wide, value)
    ensures var word := Pow256(wide);
            && value % word == ValueOf(parts[..wide])
            && value / word % word == ValueOf(parts[wide..2 * wide])
    ensures Bytes(parts[..wide]) && Bytes(parts[wide..2 * wide])
  {
    hide Pow256, ValueOf;
    var n, word := 2 * wide + 1, Pow256(wide);
    var rest := ValueOf(parts[..n][2 * wide..]);
    LowParts(parts[..n], wide);
    assert parts[..n][..wide] == parts[..wide] && parts[..n][wide..2 * wide] == parts[wide..2 * wide];
    AllTogether(value, Pow256(n), word, ValueOf(parts[..wide]), ValueOf(parts[wide..2 * wide]), rest);
  }

  /** The low bytes as two words and one byte more. */
  lemma LowParts(low: seq<int>, wide: nat)
    requires |low| == 2 * wide + 1 && Bytes(low)
    ensures var a, b, word := ValueOf(low[..wide]), ValueOf(low[wide..2 * wide]), Pow256(wide);
            && 0 <= a < word && 0 <= b < word && Pow256(|low|) == word * word * Pow256(1)
            && ValueOf(low) == a + (b + ValueOf(low[2 * wide..]) * word) * word
    ensures Bytes(low[..wide]) && Bytes(low[wide..2 * wide]) && ValueOf(low[2 * wide..]) >= 0
  {
    hide Pow256, ValueOf;
    assert low == low[..wide] + low[wide..] && low[wide..] == low[wide..2 * wide] + low[2 * wide..];
    ValueSplits(low[..wide], low[wide..]);
    ValueSplits(low[wide..2 * wide], low[2 * wide..]);
    BytesBound(low[..wide]);
    BytesBound(low[wide..2 * wide]);
    BytesBound(low[2 * wide..]);
    PowersAdd(wide, wide);
    PowersAdd(2 * wide, 1);
  }

  lemma AllTogether(value: nat, p: nat, word: nat, a: int, b: int, c: nat)
    requires 0 <= a < word && 0 <= b < word && p == word * word * Pow256(1) && p >= 1
    requires value % p == a + (b + c * word) * word
    ensures value % word == a && value / word % word == b
  {
    var q := value / p;
    assert value == value % p + q * p;
    Regrouped(a, b, c, q, word, Pow256(1));
    TwoWords(value, word, a, b, c + q * Pow256(1));
  }

  lemma Regrouped(a: int, b: int, c: int, q: int, w: nat, k: nat)
    ensures a + (b + c * w) * w + q * (w * w * k) == a + (b + (c + q * k) * w) * w
  {
    SumTimes(c, q * k, w);
    SumTimes(b + c * w, q * k * w, w);
    assert q * (w * w * k) == q * k * w * w;
  }

  lemma TwoWords(v: nat, w: nat, a: int, b: int, x: int)
    requires 0 <= a < w && 0 <= b < w && v == a + (b + x * w) * w
    ensures v % w == a && v / w % w == b
  {
    Digit(v, b + x * w, a, w);
    Digit(b + x * w, x, b, w);
  }

  lemma {:induction false} PowersAdd(a: nat, b: nat)
    ensures Pow256(a + b) == Pow256(a) * Pow256(b)
    decreases a
  {
    if a > 0 {
      PowersAdd(a - 1, b);
      Shifted(Pow256(b), Pow256(a - 1));
    }
  }

  lemma LowWord(a: seq<int>, b: seq<int>)
    requires Bytes(a)
    ensures ValueOf(a + b) % Pow256(|a|) == ValueOf(a) && ValueOf(a + b) / Pow256(|a|) == ValueOf(b)
  {
    BytesBound(a);
    ValueSplits(a, b);
    Digit(ValueOf(a + b), ValueOf(b), ValueOf(a), Pow256(|a|));
  }

  lemma Digit(v: int, q: int, r: int, p: nat)
    requires 0 <= r < p && v == r + q * p
    ensures v % p == r && v / p == q
  {
    UniqueQuotient(v, p, q, r);
    assert v == v / p * p + v % p;
  }

  // The type of the constant.

  datatype CType = Int | UnsignedInt | Long | UnsignedLong | LongLong | UnsignedLongLong

  datatype Precisions = Precisions(int_: nat, long: nat, longLong: nat)

  predicate Sensible(ps: Precisions, wide: nat) {
    1 <= ps.int_ && 1 <= ps.long && 1 <= ps.longLong
    && ps.int_ <= 16 * wide && ps.long <= 16 * wide && ps.longLong <= 16 * wide
  }

  function WidthOf(t: CType, ps: Precisions): (w: IntType)
    requires ps.int_ >= 1 && ps.long >= 1 && ps.longLong >= 1
  {
    match t
    case Int => Width(ps.int_, false)
    case UnsignedInt => Width(ps.int_, true)
    case Long => Width(ps.long, false)
    case UnsignedLong => Width(ps.long, true)
    case LongLong => Width(ps.longLong, false)
    case UnsignedLongLong => Width(ps.longLong, true)
  }

  /** INT_CST_LT: signed comparison of two-word integers. */
  predicate Less(a: DoubleInt, b: DoubleInt) {
    a.high < b.high || (a.high == b.high && a.low < b.low)
  }

  /** INT_CST_LT_UNSIGNED. */
  predicate LessUnsigned(a: DoubleInt, b: DoubleInt, word: nat) {
    Less(DoubleInt(Bits(a.high, word), a.low), DoubleInt(Bits(b.high, word), b.low))
  }

  function Bits(high: int, word: nat): int { if high < 0 then high + word else high }

  /** int_fits_type_p of a constant of unsigned type. */
  predicate IntFits(c: DoubleInt, t: IntType, word: nat)
    requires word > 0
  {
    var min, max := Words(MinOf(t), word), Words(MaxOf(t), word);
    if t.uns then !LessUnsigned(max, c, word) && !LessUnsigned(c, min, word)
    else !Less(max, c) && !Less(c, min) && !(c.high < 0)
  }

  /** On two words it decides what it is meant to. */
  lemma IntFitsOk(v: int, t: IntType, wide: nat)
    requires 0 <= v < Pow256(2 * wide) && t.prec <= 16 * wide
    ensures IntFits(Words(v, Pow256(wide)), t, Pow256(wide)) <==> Fits(t, v)
  {
    var word := Pow256(wide);
    Squared(wide);
    BoundsInWords(t, wide);
    if t.uns {
      WordsOrder(MaxOf(t), v, word);
      WordsOrder(v, 0, word);
    } else {
      SignedFits(v, MaxOf(t), MinOf(t), word);
    }
  }

  lemma BoundsInWords(t: IntType, wide: nat)
    requires t.prec <= 16 * wide
    ensures var word := Pow256(wide);
            && word >= 2 && word % 2 == 0 && 0 <= MaxOf(t) < word * word
            && (!t.uns ==> 2 * MaxOf(t) < word * word && MinOf(t) < 0 && -(word * word) <= 2 * MinOf(t))
  {
    hide MaxOf, MinOf, Pow2, Pow256;
    Squared(wide);
    PowBytes(2 * wide);
    BoundsBelow(t, 16 * wide);
    EvenWord(wide);
  }

  lemma EvenWord(wide: nat)
    requires wide >= 1
    ensures Pow256(wide) >= 2 && Pow256(wide) % 2 == 0
  {
  }

  lemma BoundsBelow(t: IntType, n: nat)
    requires t.prec <= n
    ensures 0 <= MaxOf(t) < Pow2(n)
    ensures !t.uns ==> 2 * MaxOf(t) < Pow2(n) && MinOf(t) < 0 && 0 - Pow2(n) <= 2 * MinOf(t)
  {
  }

  /** Words below word * word compare as their numbers do. */
  lemma WordsOrder(a: int, b: int, word: nat)
    requires word >= 1 && 0 <= a < word * word && 0 <= b < word * word
    ensures LessUnsigned(Words(a, word), Words(b, word), word) <==> a < b
    ensures Words(a, word).high < 0 <==> 2 * (a / word) >= word
    ensures Words(a, word).high == a / word || Words(a, word).high == a / word - word
  {
    Quotients(a, word);
    Quotients(b, word);
    Lexicographic(a, b, word, a / word, a % word, b / word, b % word);
  }

  lemma Quotients(a: int, word: nat)
    requires word >= 1 && 0 <= a < word * word
    ensures 0 <= a / word < word && a / word % word == a / word && a == a / word * word + a % word
  {
    QuotientRange(a / word, a % word, word);
    SmallRemainder(a / word, word);
  }

  lemma QuotientRange(q: int, r: int, word: nat)
    requires 0 <= r < word && 0 <= q * word + r < word * word
    ensures 0 <= q < word
  {
  }

  lemma Lexicographic(a: int, b: int, word: nat, qa: int, ra: int, qb: int, rb: int)
    requires 0 <= ra < word && 0 <= rb < word && a == qa * word + ra && b == qb * word + rb
    ensures (qa < qb || (qa == qb && ra < rb)) <==> a < b
  {
    if qa < qb {
      ProductSign(qb - qa - 1, word);
      SumTimes(qb - qa - 1, qa + 1, word);
      SumTimes(qa, 1, word);
    } else if qb < qa {
      ProductSign(qa - qb - 1, word);
      SumTimes(qa - qb - 1, qb + 1, word);
      SumTimes(qb, 1, word);
    }
  }

  /** Against the bounds of a signed type no wider than two words. */
  lemma SignedFits(v: int, max: int, min: int, word: nat)
    requires word >= 2 && word % 2 == 0 && 0 <= v < word * word
    requires 0 <= max && 2 * max < word * word && min < 0 && -(word * word) <= 2 * min
    ensures var c := Words(v, word);
            !Less(Words(max, word), c) && !Less(c, Words(min, word)) && !(c.high < 0) <==> v <= max
  {
    WordsOrder(max, v, word);
    WordsOrder(v, max, word);
    TopHalf(v, word);
    TopHalf(max, word);
    NegativeWords(min, word);
  }

  lemma TopHalf(v: int, word: nat)
    requires word >= 2 && word % 2 == 0 && 0 <= v < word * word
    ensures 2 * (v / word) >= word <==> 2 * v >= word * word
  {
    Quotients(v, word);
    var q, h := v / word, word / 2;
    assert word == 2 * h;
    Lexicographic(v, h * word, word, q, v % word, h, 0);
    assert 2 * (h * word) == word * word;
  }

  lemma NegativeWords(min: int, word: nat)
    requires word >= 2 && word % 2 == 0 && min < 0 && -(word * word) <= 2 * min
    ensures Words(min, word).high < 0
  {
    var q, h := min / word, word / 2;
    assert word == 2 * h;
    assert word * word == 2 * (h * word);
    FloorRange(q, min % word, h, word);
    UniqueQuotient(q, word, -1, q + word);
    assert q == q / word * word + q % word;
  }

  lemma FloorRange(q: int, r: int, h: nat, word: nat)
    requires word >= 1 && 0 <= r < word && q * word + r < 0 && q * word + r >= -(h * word)
    ensures 0 - h <= q < 0
  {
    ProductSign(q, word);
    ProductSign(q + (h + 1), word);
    SumTimes(q, h + 1, word);
    SumTimes(h, 1, word);
  }

  lemma {:induction false} Squared(wide: nat)
    ensures Pow256(2 * wide) == Pow256(wide) * Pow256(wide)
    decreases wide
  {
    if wide > 0 {
      Squared(wide - 1);
      var p := Pow256(wide - 1);
      assert Pow256(2 * wide) == 256 * Pow256(2 * wide - 1) == 256 * (256 * Pow256(2 * wide - 2));
      Spread(p);
    }
  }

  lemma Spread(p: nat)
    ensures (256 * p) * (256 * p) == 256 * (256 * (p * p))
  {
  }

  /** The type of a constant that is not traditional C's. */
  function AnsiType(c: DoubleInt, base: nat, u: bool, l: bool, ll: bool, ps: Precisions, word: nat): CType
    requires word > 0 && ps.int_ >= 1 && ps.long >= 1 && ps.longLong >= 1
  {
    if !l && !u && IntFits(c, WidthOf(Int, ps), word) then Int
    else if !l && (base != 10 || u) && IntFits(c, WidthOf(UnsignedInt, ps), word) then UnsignedInt
    else if !u && !ll && IntFits(c, WidthOf(Long, ps), word) then Long
    else if !ll && IntFits(c, WidthOf(UnsignedLong, ps), word) then UnsignedLong
    else if !u && IntFits(c, WidthOf(LongLong, ps), word) then LongLong
    else UnsignedLongLong
  }

  /** The types a constant may have, in order: section 3.1.3.2 of ANSI X3.159-1989, with
      the two long long types after the others. */
  function Candidates(base: nat, u: bool, l: bool, ll: bool): seq<CType> {
    if ll then if u then [UnsignedLongLong] else [LongLong, UnsignedLongLong]
    else if l then if u then [UnsignedLong, UnsignedLongLong] else [Long, UnsignedLong, LongLong, UnsignedLongLong]
    else if u then [UnsignedInt, UnsignedLong, UnsignedLongLong]
    else if base == 10 then [Int, Long, UnsignedLong, LongLong, UnsignedLongLong]
    else [Int, UnsignedInt, Long, UnsignedLong, LongLong, UnsignedLongLong]
  }

  /** Which types a constant may have at all: `u` asks for an unsigned one, `l` for long at
      least and `ll` for long long; a decimal one is never unsigned int unasked. */
  predicate Allowed(t: CType, base: nat, u: bool, l: bool, ll: bool) {
    && (u ==> t.UnsignedInt? || t.UnsignedLong? || t.UnsignedLongLong?)
    && (l ==> !t.Int? && !t.UnsignedInt?)
    && (ll ==> t.LongLong? || t.UnsignedLongLong?)
    && (t.UnsignedInt? ==> u || base != 10)
  }

  function Rank(t: CType): nat {
    match t
    case Int => 0
    case UnsignedInt => 1
    case Long => 2
    case UnsignedLong => 3
    case LongLong => 4
    case UnsignedLongLong => 5
  }

  /** The list has just the types allowed, the shorter first and of each the signed first. */
  lemma CandidatesAre(base: nat, u: bool, l: bool, ll: bool)
    requires ll ==> l
    ensures var types := Candidates(base, u, l, ll);
            && (forall t :: t in types <==> Allowed(t, base, u, l, ll))
            && (forall i, j :: 0 <= i < j < |types| ==> Rank(types[i]) < Rank(types[j]))
  {
    var types := Candidates(base, u, l, ll);
    forall t ensures t in types <==> Allowed(t, base, u, l, ll) {
      match t
      case Int =>
      case UnsignedInt =>
      case Long =>
      case UnsignedLong =>
      case LongLong =>
      case UnsignedLongLong =>
    }
  }

  /** The first of the types that holds the value. */
  predicate FirstThatHolds(types: seq<CType>, v: int, ps: Precisions, t: CType)
    requires ps.int_ >= 1 && ps.long >= 1 && ps.longLong >= 1
  {
    && t in types && Fits(WidthOf(t, ps), v)
    && forall i, j :: 0 <= i < j < |types| && types[j] == t ==> !Fits(WidthOf(types[i], ps), v)
  }

  /** A constant in range gets the first type of its list that holds it. */
  lemma AnsiTypeIsFirst(v: nat, base: nat, u: bool, l: bool, ll: bool, ps: Precisions, wide: nat)
    requires Sensible(ps, wide) && v < Pow2(ps.longLong) && (ll ==> l)
    ensures FirstThatHolds(Candidates(base, u, l, ll), v, ps,
                           AnsiType(Words(v, Pow256(wide)), base, u, l, ll, ps, Pow256(wide)))
  {
    hide IntFits, Words, Fits;
    PowBytes(2 * wide);
    PowGrows(ps.longLong, 16 * wide);
    AllFit(v, ps, wide);
    ChainIsFirst(Words(v, Pow256(wide)), v, base, u, l, ll, ps, Pow256(wide));
  }

  lemma AllFit(v: nat, ps: Precisions, wide: nat)
    requires Sensible(ps, wide) && v < Pow256(2 * wide)
    ensures forall t :: IntFits(Words(v, Pow256(wide)), WidthOf(t, ps), Pow256(wide)) <==> Fits(WidthOf(t, ps), v)
  {
    forall t ensures IntFits(Words(v, Pow256(wide)), WidthOf(t, ps), Pow256(wide)) <==> Fits(WidthOf(t, ps), v) {
      IntFitsOk(v, WidthOf(t, ps), wide);
    }
  }

  lemma LongestHolds(v: nat, ps: Precisions)
    requires ps.int_ >= 1 && ps.long >= 1 && ps.longLong >= 1 && v < Pow2(ps.longLong)
    ensures Fits(WidthOf(UnsignedLongLong, ps), v)
  {
  }

  lemma ChainIsFirst(c: DoubleInt, v: nat, base: nat, u: bool, l: bool, ll: bool, ps: Precisions, word: nat)
    requires word > 0 && ps.int_ >= 1 && ps.long >= 1 && ps.longLong >= 1 && (ll ==> l)
    requires forall t :: IntFits(c, WidthOf(t, ps), word) <==> Fits(WidthOf(t, ps), v)
    requires v < Pow2(ps.longLong)
    ensures FirstThatHolds(Candidates(base, u, l, ll), v, ps, AnsiType(c, base, u, l, ll, ps, word))
  {
    hide IntFits, Fits, Pow2, WidthOf;
    LongestHolds(v, ps);
  }

  /** The two words are the exact value of a number that fits them. */
  lemma WordsExact(v: int, word: nat)
    requires word >= 1 && 0 <= v < word * word
    ensures Bits(Words(v, word).high, word) * word + Words(v, word).low == v
  {
    Quotients(v, word);
  }

  /** What an integer constant becomes. */
  datatype Constant = Constant(warn: bool, words: DoubleInt, type_: CType)

  /** From the digits to the constant: out of range exactly when no unsigned long long
      holds the value, else the exact value in the first type that does. */
  method MakeConstant(s: Scan, wide: nat, u: bool, l: bool, ll: bool, ps: Precisions, ghost value: nat)
    returns (k: Constant)
    requires s.Integer? && Holds(s.parts, s.overflow, wide, value)
    requires Sensible(ps, wide) && ps.longLong % 8 == 0 && (ll ==> l)
    ensures k.warn <==> value >= Pow2(ps.longLong)
    ensures k.words == Words(value, Pow256(wide))
    ensures !k.warn ==> Bits(k.words.high, Pow256(wide)) * Pow256(wide) + k.words.low == value
    ensures !k.warn ==> FirstThatHolds(Candidates(s.base, u, l, ll), value, ps, k.type_)
  {
    var bytes := ps.longLong / 8;
    PowBytes(bytes);
    var warn := OutOfRange(s.parts, s.overflow, wide, bytes, value);
    var c := Gather(s.parts, s.overflow, wide, value);
    var t := AnsiType(c, s.base, u, l, ll, ps, Pow256(wide));
    if !warn {
      AnsiTypeIsFirst(value, s.base, u, l, ll, ps, wide);
      Squared(wide);
      Pow256Grows(bytes, 2 * wide);
      WordsExact(value, Pow256(wide));
    }
    k := Constant(warn, c, t);
  }
}
