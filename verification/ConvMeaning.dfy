/** What a reasonable chain of conversions does to a value. */
module ConvMeaning {
  import opened IntTypes
  import opened ConvChain

  predicate IsFloating(c: TypeCode) { c.SF? || c.DF? || c.XF? }

  predicate IsIntegral(c: TypeCode) { !IsFloating(c) && !c.P? && !c.T? }

  /** The integer type an integral code stands for. */
  function WidthOf(c: TypeCode): IntType {
    Width(if c.QI? || c.QU? then 8 else if c.HI? || c.HU? then 16 else if c.DI? || c.DU? then 64 else 32,
          c.QU? || c.HU? || c.SU? || c.DU?)
  }

  function CodeFor(t: IntType): TypeCode {
    match t.prec
    case 8 => if t.uns then QU else QI
    case 16 => if t.uns then HU else HI
    case 32 => if t.uns then SU else SI
    case _ => if t.uns then DU else DI
  }

  /** The tests on codes, told by the types. */
  lemma CodeIs(c: TypeCode)
    ensures (IsInteger(c) <==> IsIntegral(c)) && (IsFloat(c) <==> IsFloating(c))
    ensures IsUnsigned(c) <==> IsIntegral(c) && WidthOf(c).uns
    ensures IsSigned(c) <==> IsIntegral(c) && !WidthOf(c).uns
    ensures IsIntegral(c) ==> WidthOf(c).prec == 8 * Size(c) && CodeFor(WidthOf(c)) == c
  {
  }

  /** The kinds of step, told by the types. */
  lemma FloatSteps(a: TypeCode, b: TypeCode)
    ensures IntToFloat(a, b) <==> IsIntegral(a) && IsFloating(b)
    ensures FloatToInt(a, b) <==> IsFloating(a) && IsIntegral(b)
  {
    hide IsInteger, IsFloat, IsUnsigned, IsSigned, IsIntegral, IsFloating, WidthOf, CodeFor, Size;
    CodeIs(a);
    CodeIs(b);
  }

  lemma IntegerSteps(a: TypeCode, b: TypeCode)
    requires IsIntegral(a) && IsIntegral(b)
    ensures ChangesSign(a, b) <==> WidthOf(a).uns != WidthOf(b).uns
    ensures Widens(a, b) <==> WidthOf(a).prec < WidthOf(b).prec
    ensures Size(a) <= Size(b) <==> WidthOf(a).prec <= WidthOf(b).prec
    ensures WidthOf(a) == WidthOf(b) ==> a == b
  {
    hide IsInteger, IsFloat, IsUnsigned, IsSigned, IsIntegral, IsFloating, WidthOf, CodeFor, Size;
    CodeIs(a);
    CodeIs(b);
  }

  lemma Extensions(a: TypeCode, b: TypeCode)
    ensures SignExtends(a, b) <==>
              IsIntegral(a) && IsIntegral(b) && !WidthOf(a).uns && !WidthOf(b).uns && WidthOf(a).prec < WidthOf(b).prec
    ensures ZeroExtends(a, b) <==>
              IsIntegral(a) && IsIntegral(b) && WidthOf(a).uns && WidthOf(b).uns && WidthOf(a).prec < WidthOf(b).prec
  {
    hide IsInteger, IsFloat, IsUnsigned, IsSigned, IsIntegral, IsFloating, WidthOf, CodeFor, Size;
    CodeIs(a);
    CodeIs(b);
  }

  lemma OnlyIntegers(a: TypeCode, b: TypeCode)
    requires !(IsIntegral(a) && IsIntegral(b))
    ensures !ChangesSign(a, b) && !Widens(a, b)
  {
    hide IsInteger, IsFloat, IsUnsigned, IsSigned, IsIntegral, IsFloating, WidthOf, CodeFor, Size;
    CodeIs(a);
    CodeIs(b);
  }

  predicate AllIntegers(codes: seq<TypeCode>) {
    forall i :: 0 <= i < |codes| ==> IsIntegral(codes[i])
  }

  /** A value taken through the types one after the other. */
  ghost function Through(codes: seq<TypeCode>, x: int): int {
    if codes == [] then x
    else Convert(WidthOf(codes[|codes| - 1]), Through(codes[..|codes| - 1], x))
  }

  lemma FirstKeeps(codes: seq<TypeCode>, x: int)
    requires |codes| == 1 && AllIntegers(codes) && Fits(WidthOf(codes[0]), x)
    ensures Through(codes, x) == x
  {
    assert codes[..0] == [];
    ConvertFits(WidthOf(codes[0]), x);
  }

  lemma LastStep(codes: seq<TypeCode>, x: int)
    requires |codes| > 1 && AllIntegers(codes) && Reasonable(codes)
    ensures var k := |codes| - 1;
            var before := codes[..k];
            && AllIntegers(before) && Reasonable(before) && codes == before + [codes[k]]
            && (Rising(codes) ==> Rising(before)) && (Falling(codes) ==> Falling(before))
            && (Rising(codes) ==> WidthOf(codes[k - 1]).prec <= WidthOf(codes[k]).prec)
            && (Falling(codes) ==> WidthOf(codes[k - 1]).prec >= WidthOf(codes[k]).prec)
            && WidthOf(codes[k - 1]) != WidthOf(codes[k])
            && (Has(codes, ChangesSign) <==>
                  Has(before, ChangesSign) || WidthOf(codes[k - 1]).uns != WidthOf(codes[k]).uns)
            && (Has(before, ChangesSign) ==> WidthOf(codes[k - 1]).prec >= WidthOf(codes[k]).prec)
            && Through(codes, x) == Convert(WidthOf(codes[k]), Through(before, x))
  {
    hide Reasonable, Has, Rising, Falling, Size, ChangesSign, Widens, WidthOf, IsIntegral;
    var k := |codes| - 1;
    var before := codes[..k];
    assert codes == before + [codes[k]] && before[k - 1] == codes[k - 1];
    ReasonablePrefix(before, codes[k]);
    ReasonableLast(before, codes[k]);
    MonotoneLast(before, codes[k]);
    HasLast(before, codes[k], ChangesSign);
    IntegerSteps(codes[k - 1], codes[k]);
    IntegerSteps(codes[k], codes[k - 1]);
    StepDiffers(codes, k);
  }

  lemma StepDiffers(codes: seq<TypeCode>, k: nat)
    requires Reasonable(codes) && 0 < k < |codes|
    ensures codes[k - 1] != codes[k]
  {
  }

  /** While sizes rise and no sign has changed the value itself is kept; after that the
      size stays and only the reading of the bits changes. */
  lemma {:induction false} RisingDirect(codes: seq<TypeCode>, x: int)
    requires codes != [] && AllIntegers(codes) && Reasonable(codes) && Rising(codes) && Fits(WidthOf(codes[0]), x)
    ensures var t := WidthOf(codes[|codes| - 1]);
            Through(codes, x) == Convert(t, x) && (!Has(codes, ChangesSign) ==> Fits(t, x))
    decreases |codes|
  {
    hide Reasonable, Has, Rising, Falling, WidthOf, Through;
    if |codes| == 1 {
      FirstKeeps(codes, x);
      ConvertFits(WidthOf(codes[0]), x);
    } else {
      var k := |codes| - 1;
      var s, t := WidthOf(codes[k - 1]), WidthOf(codes[k]);
      LastStep(codes, x);
      RisingDirect(codes[..k], x);
      if Has(codes[..k], ChangesSign) {
        ConvertThrough(t, s, x);
      } else {
        ConvertFits(s, x);
        if s.uns == t.uns {
          FitsWider(s, t, x);
        }
      }
    }
  }

  lemma {:induction false} FallingDirect(codes: seq<TypeCode>, x: int)
    requires codes != [] && AllIntegers(codes) && Reasonable(codes) && Falling(codes) && Fits(WidthOf(codes[0]), x)
    ensures Through(codes, x) == Convert(WidthOf(codes[|codes| - 1]), x)
    decreases |codes|
  {
    hide Reasonable, Has, Rising, Falling, WidthOf, Through;
    if |codes| == 1 {
      FirstKeeps(codes, x);
      ConvertFits(WidthOf(codes[0]), x);
    } else {
      var k := |codes| - 1;
      LastStep(codes, x);
      FallingDirect(codes[..k], x);
      ConvertThrough(WidthOf(codes[k]), WidthOf(codes[k - 1]), x);
    }
  }

  /** A reasonable chain through integer types converts every value of the first type as
      the one direct conversion to the last type does. */
  lemma ReasonableIsDirect(codes: seq<TypeCode>, x: int)
    requires codes != [] && AllIntegers(codes) && Reasonable(codes) && Fits(WidthOf(codes[0]), x)
    ensures Through(codes, x) == Convert(WidthOf(codes[|codes| - 1]), x)
  {
    if Rising(codes) {
      RisingDirect(codes, x);
    } else {
      FallingDirect(codes, x);
    }
  }

  // Floating point.

  lemma {:induction false} TurnsFloat(codes: seq<TypeCode>, i: nat, j: nat)
    requires i < j < |codes| && IsIntegral(codes[i]) && IsFloating(codes[j])
    requires forall k :: i <= k <= j ==> IsIntegral(codes[k]) || IsFloating(codes[k])
    ensures Has(codes, IntToFloat)
    decreases j - i
  {
    if IsFloating(codes[i + 1]) {
      FloatSteps(codes[i], codes[i + 1]);
    } else {
      TurnsFloat(codes, i + 1, j);
    }
  }

  lemma {:induction false} TurnsInteger(codes: seq<TypeCode>, i: nat, j: nat)
    requires i < j < |codes| && IsFloating(codes[i]) && IsIntegral(codes[j])
    requires forall k :: i <= k <= j ==> IsIntegral(codes[k]) || IsFloating(codes[k])
    ensures Has(codes, FloatToInt)
    decreases j - i
  {
    if IsIntegral(codes[i + 1]) {
      FloatSteps(codes[i], codes[i + 1]);
    } else {
      TurnsInteger(codes, i + 1, j);
    }
  }

  /** Between two integers of a reasonable chain there is no floating point type, unless
      it goes through a pointer or something without a type, and the other way round. */
  lemma NoThereAndBack(codes: seq<TypeCode>, i: nat, j: nat, k: nat)
    requires Reasonable(codes) && i < j < k < |codes|
    requires forall m :: i <= m <= k ==> IsIntegral(codes[m]) || IsFloating(codes[m])
    ensures IsIntegral(codes[i]) && IsIntegral(codes[k]) ==> IsIntegral(codes[j])
    ensures IsFloating(codes[i]) && IsFloating(codes[k]) ==> IsFloating(codes[j])
  {
    hide IsIntegral, IsFloating, Has, Distinct, WidensFirst, Rising, Falling;
    if IsIntegral(codes[i]) && IsIntegral(codes[k]) && IsFloating(codes[j]) {
      TurnsFloat(codes, i, j);
      TurnsInteger(codes, j, k);
    }
    if IsFloating(codes[i]) && IsFloating(codes[k]) && IsIntegral(codes[j]) {
      TurnsInteger(codes, i, j);
      TurnsFloat(codes, j, k);
    }
  }

  /** Widening after a change of sign is no use: -1 as a signed int, then unsigned, then
      long long is not -1. */
  lemma WidenedTooLate()
    ensures !Reasonable([SI, SU, DI])
    ensures Through([SI, SU, DI], -1) == 0xFFFF_FFFF && Convert(WidthOf(DI), -1) == -1
  {
    LateUnreasonable();
    LateValue();
  }

  lemma LateUnreasonable()
    ensures !Reasonable([SI, SU, DI])
  {
    hide Distinct, Rising, Falling, Has;
    var codes := [SI, SU, DI];
    assert ChangesSign(codes[0], codes[1]) && Widens(codes[1], codes[2]);
    assert !WidensFirst(codes);
  }

  lemma LateValue()
    ensures Through([SI, SU, DI], -1) == 0xFFFF_FFFF && Convert(WidthOf(DI), -1) == -1
  {
    hide Pow2;
    assert [SI, SU, DI][..2] == [SI, SU] && [SI, SU][..1] == [SI] && [SI][..0] == [];
    PowersUsed();
    ConvertFits(WidthOf(SI), -1);
    AsUnsigned(WidthOf(SU), -1);
    ConvertFits(WidthOf(DI), 0xFFFF_FFFF);
    ConvertFits(WidthOf(DI), -1);
  }
}
