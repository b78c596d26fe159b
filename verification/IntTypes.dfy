/** Integer types of any precision, and conversion between them modulo 2^precision. */
module IntTypes {
  import opened Arith

  datatype Width = Width(prec: nat, uns: bool)

  type IntType = t: Width | t.prec >= 1 witness Width(1, true)

  function Pow2(n: nat): (p: nat)
    ensures p >= 1
  {
    if n == 0 then 1 else 2 * Pow2(n - 1)
  }

  function MinOf(t: IntType): int {
    if t.uns then 0 else 0 - Pow2(t.prec - 1)
  }

  function MaxOf(t: IntType): int {
    if t.uns then Pow2(t.prec) - 1 else Pow2(t.prec - 1) - 1
  }

  predicate Fits(t: IntType, v: int) {
    MinOf(t) <= v <= MaxOf(t)
  }

  function Signed(t: IntType): IntType { Width(t.prec, false) }

  function Unsigned(t: IntType): IntType { Width(t.prec, true) }

  /** signed_or_unsigned_type. */
  function WithSign(uns: bool, t: IntType): IntType { Width(t.prec, uns) }

  function Multiple(q: int, m: nat): int { q * m }

  ghost predicate Congruent(a: int, b: int, m: nat) {
    exists q: int :: a == b + Multiple(q, m)
  }

  /** The value of type t that is congruent to v modulo 2^prec. */
  ghost function Convert(t: IntType, v: int): (w: int)
    ensures Fits(t, w) && Congruent(v, w, Pow2(t.prec))
  {
    ConvertExists(t, v);
    var w :| Fits(t, w) && Congruent(v, w, Pow2(t.prec));
    w
  }

  lemma ConvertExists(t: IntType, v: int)
    ensures exists w :: Fits(t, w) && Congruent(v, w, Pow2(t.prec))
  {
    var m := Pow2(t.prec);
    var q, u := v / m, v % m;
    if !t.uns && u >= Pow2(t.prec - 1) {
      assert v == (u - m) + Multiple(q + 1, m);
      assert Fits(t, u - m) && Congruent(v, u - m, m);
    } else {
      assert v == u + Multiple(q, m);
      assert Fits(t, u) && Congruent(v, u, m);
    }
  }

  lemma {:induction false} PowGrows(a: nat, b: nat)
    requires a <= b
    ensures Pow2(a) <= Pow2(b)
    ensures a < b ==> 2 * Pow2(a) <= Pow2(b)
    decreases b - a
  {
    if a < b {
      PowGrows(a + 1, b);
    }
  }

  /** Every value of the narrower type is one of the wider type. */
  lemma FitsWider(t: IntType, wide: IntType, v: int)
    requires Fits(t, v) && t.prec < wide.prec && (t.uns || !wide.uns)
    ensures Fits(wide, v)
  {
    PowGrows(t.prec, wide.prec);
    PowGrows(t.prec, wide.prec - 1);
  }

  lemma MultipleDifference(p: int, q: int, m: nat)
    ensures Multiple(p, m) - Multiple(q, m) == Multiple(p - q, m)
  {
  }

  /** Values of one type are never a nonzero multiple of 2^prec apart. */
  lemma TypeSpan(t: IntType, a: int, b: int)
    requires Fits(t, a) && Fits(t, b)
    ensures 0 - Pow2(t.prec) < a - b < Pow2(t.prec)
  {
  }

  /** Two values a multiple of 2^prec apart convert alike, and one that fits is unchanged. */
  lemma ConvertUnique(t: IntType, v: int, w: int, q: int)
    requires Fits(t, w) && v == w + Multiple(q, Pow2(t.prec))
    ensures Convert(t, v) == w
  {
    var m := Pow2(t.prec);
    var q' :| v == Convert(t, v) + Multiple(q', m);
    MultipleDifference(q', q, m);
    TypeSpan(t, w, Convert(t, v));
    SmallMultiple(q' - q, m);
  }

  lemma ConvertFits(t: IntType, v: int)
    requires Fits(t, v)
    ensures Convert(t, v) == v
  {
    ConvertUnique(t, v, v, 0);
  }

  /** What conversion takes off is a multiple of 2^prec. */
  lemma ConvertMultiple(t: IntType, v: int) returns (q: int)
    ensures v == Convert(t, v) + Multiple(q, Pow2(t.prec))
  {
    q :| v == Convert(t, v) + Multiple(q, Pow2(t.prec));
  }

  lemma PowersUsed()
    ensures Pow2(7) == 128 && Pow2(8) == 256 && Pow2(31) == 0x8000_0000 && Pow2(32) == 0x1_0000_0000
    ensures Pow2(63) == 0x8000_0000_0000_0000 && Pow2(64) == 0x1_0000_0000_0000_0000
  {
    assert Pow2(8) == 256;
    assert Pow2(16) == 0x1_0000;
    assert Pow2(24) == 0x100_0000;
    assert Pow2(31) == 0x8000_0000;
    assert Pow2(40) == 0x100_0000_0000;
    assert Pow2(48) == 0x1_0000_0000_0000;
    assert Pow2(56) == 0x100_0000_0000_0000;
  }

  lemma {:induction false} PowSum(a: nat, b: nat)
    ensures Pow2(a + b) == Pow2(a) * Pow2(b)
    decreases a
  {
    if a > 0 {
      PowSum(a - 1, b);
      DoubleProduct(Pow2(a - 1), Pow2(b));
    }
  }

  lemma {:induction false} PowSplits(a: nat, b: nat) returns (k: nat)
    requires a <= b
    ensures Pow2(b) == k * Pow2(a) && k >= 1
    decreases b
  {
    if a == b {
      k := 1;
    } else {
      k := PowSplits(a, b - 1);
      k := 2 * k;
    }
  }

  /** Going through a type at least as wide makes no difference. */
  lemma ConvertThrough(t: IntType, via: IntType, v: int)
    requires t.prec <= via.prec
    ensures Convert(t, Convert(via, v)) == Convert(t, v)
  {
    var q := ConvertMultiple(via, v);
    var k := PowSplits(t.prec, via.prec);
    var q' := ConvertMultiple(t, v);
    var m := Pow2(t.prec);
    MultipleOfMultiple(q, k, m);
    MultipleDifference(q', q * k, m);
    ConvertUnique(t, Convert(via, v), Convert(t, v), q' - q * k);
  }

  lemma MultipleOfMultiple(q: int, k: int, m: nat)
    requires k * m >= 0
    ensures Multiple(q, k * m) == Multiple(q * k, m)
  {
  }

  /** A value read as unsigned: negative ones move up by 2^prec. */
  lemma AsUnsigned(t: IntType, v: int)
    requires t.uns && 0 - Pow2(t.prec) <= v < Pow2(t.prec)
    ensures Convert(t, v) == if v < 0 then v + Pow2(t.prec) else v
  {
    if v < 0 {
      ConvertUnique(t, v, v + Pow2(t.prec), -1);
    } else {
      ConvertFits(t, v);
    }
  }

  lemma AsSigned(t: IntType, v: int)
    requires !t.uns && 0 <= v < Pow2(t.prec)
    ensures Convert(t, v) == if v >= Pow2(t.prec - 1) then v - Pow2(t.prec) else v
  {
    if v >= Pow2(t.prec - 1) {
      ConvertUnique(t, v, v - Pow2(t.prec), 1);
    } else {
      ConvertFits(t, v);
    }
  }
}
