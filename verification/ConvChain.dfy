/** Which chains of scalar conversions are reasonable. */
module ConvChain {
  /** The typecodes in their order; the integer ones alternate signed and unsigned. */
  datatype TypeCode = QI | QU | HI | HU | SI | SU | DI | DU | SF | DF | XF | P | T

  function Number(c: TypeCode): (n: nat)
    ensures n < 13
  {
    match c
    case QI => 0 case QU => 1 case HI => 2 case HU => 3 case SI => 4 case SU => 5 case DI => 6
    case DU => 7 case SF => 8 case DF => 9 case XF => 10 case P => 11 case T => 12
  }

  /** The size of each code's machine mode. */
  function Size(c: TypeCode): nat {
    match c
    case QI | QU => 1
    case HI | HU => 2
    case SI | SU | SF | P | T => 4
    case DI | DU | DF => 8
    case XF => 12
  }

  predicate IsInteger(c: TypeCode) { Number(c) < Number(SF) }

  predicate IsUnsigned(c: TypeCode) { IsInteger(c) && Number(c) % 2 == 1 }

  predicate IsSigned(c: TypeCode) { IsInteger(c) && Number(c) % 2 == 0 }

  predicate IsFloat(c: TypeCode) { Number(c) < Number(P) && !IsInteger(c) }

  // What one step of a chain is.

  predicate IntToFloat(a: TypeCode, b: TypeCode) { IsInteger(a) && IsFloat(b) }

  predicate FloatToInt(a: TypeCode, b: TypeCode) { IsFloat(a) && IsInteger(b) }

  predicate SignExtends(a: TypeCode, b: TypeCode) { IsSigned(a) && IsSigned(b) && Size(a) < Size(b) }

  predicate ZeroExtends(a: TypeCode, b: TypeCode) { IsUnsigned(a) && IsUnsigned(b) && Size(a) < Size(b) }

  predicate ChangesSign(a: TypeCode, b: TypeCode) {
    (IsSigned(a) && IsUnsigned(b)) || (IsUnsigned(a) && IsSigned(b))
  }

  predicate Widens(a: TypeCode, b: TypeCode) { IsInteger(a) && IsInteger(b) && Size(b) > Size(a) }

  /** Some step of the chain is of a kind. */
  predicate Has(codes: seq<TypeCode>, kind: (TypeCode, TypeCode) -> bool) {
    exists i :: 0 <= i < |codes| - 1 && kind(codes[i], codes[i + 1])
  }

  predicate Distinct(codes: seq<TypeCode>) {
    forall i, j :: 0 <= i < j < |codes| ==> codes[i] != codes[j]
  }

  predicate Rising(codes: seq<TypeCode>) {
    forall i, j :: 0 <= i < j < |codes| ==> Size(codes[i]) <= Size(codes[j])
  }

  predicate Falling(codes: seq<TypeCode>) {
    forall i, j :: 0 <= i < j < |codes| ==> Size(codes[i]) >= Size(codes[j])
  }

  /** No integer is widened after a change of signedness. */
  predicate WidensFirst(codes: seq<TypeCode>) {
    forall i, j :: 0 <= i < j < |codes| - 1 && ChangesSign(codes[i], codes[i + 1]) ==> !Widens(codes[j], codes[j + 1])
  }

  /** The five rules, on a whole chain. */
  predicate Reasonable(codes: seq<TypeCode>) {
    && Distinct(codes)
    && !(Has(codes, IntToFloat) && Has(codes, FloatToInt))
    && !(Has(codes, SignExtends) && Has(codes, ZeroExtends))
    && WidensFirst(codes)
    && (Rising(codes) || Falling(codes))
  }

  lemma HasLast(codes: seq<TypeCode>, c: TypeCode, kind: (TypeCode, TypeCode) -> bool)
    requires codes != []
    ensures Has(codes + [c], kind) <==> Has(codes, kind) || kind(codes[|codes| - 1], c)
  {
    var longer, k := codes + [c], |codes| - 1;
    if kind(codes[k], c) {
      assert kind(longer[k], longer[k + 1]);
    }
    if Has(codes, kind) {
      var i :| 0 <= i < k && kind(codes[i], codes[i + 1]);
      assert kind(longer[i], longer[i + 1]);
    }
    if Has(longer, kind) {
      var i :| 0 <= i < |longer| - 1 && kind(longer[i], longer[i + 1]);
      assert i < k ==> kind(codes[i], codes[i + 1]);
    }
  }

  lemma WidensFirstLonger(codes: seq<TypeCode>, c: TypeCode)
    requires codes != [] && WidensFirst(codes + [c])
    ensures WidensFirst(codes)
  {
    hide Widens, ChangesSign;
    var longer := codes + [c];
    assert forall i :: 0 <= i < |codes| ==> codes[i] == longer[i];
    forall i, j | 0 <= i < j < |codes| - 1 && ChangesSign(codes[i], codes[i + 1]) ensures !Widens(codes[j], codes[j + 1]) {
      assert ChangesSign(longer[i], longer[i + 1]);
    }
  }

  lemma WidensFirstNew(codes: seq<TypeCode>, c: TypeCode)
    requires codes != [] && WidensFirst(codes + [c]) && Has(codes, ChangesSign)
    ensures !Widens(codes[|codes| - 1], c)
  {
    hide Widens, ChangesSign;
    var longer, k := codes + [c], |codes| - 1;
    var i :| 0 <= i < k && ChangesSign(codes[i], codes[i + 1]);
    assert longer[i] == codes[i] && longer[i + 1] == codes[i + 1];
    assert longer[k] == codes[k] && longer[k + 1] == c;
    assert !Widens(longer[k], longer[k + 1]);
  }

  lemma WidensFirstExtended(codes: seq<TypeCode>, c: TypeCode)
    requires codes != [] && WidensFirst(codes) && !(Has(codes, ChangesSign) && Widens(codes[|codes| - 1], c))
    ensures WidensFirst(codes + [c])
  {
    hide Widens, ChangesSign;
    var longer := codes + [c];
    assert forall i :: 0 <= i < |codes| ==> codes[i] == longer[i];
    forall i, j | 0 <= i < j < |longer| - 1 && ChangesSign(longer[i], longer[i + 1])
      ensures !Widens(longer[j], longer[j + 1]) {
      assert ChangesSign(codes[i], codes[i + 1]);
      assert j < |codes| - 1 ==> longer[j + 1] == codes[j + 1];
    }
  }

  lemma WidensFirstLast(codes: seq<TypeCode>, c: TypeCode)
    requires codes != []
    ensures WidensFirst(codes + [c]) <==>
            WidensFirst(codes) && !(Has(codes, ChangesSign) && Widens(codes[|codes| - 1], c))
  {
    if WidensFirst(codes + [c]) {
      WidensFirstLonger(codes, c);
      if Has(codes, ChangesSign) {
        WidensFirstNew(codes, c);
      }
    } else if WidensFirst(codes) && !(Has(codes, ChangesSign) && Widens(codes[|codes| - 1], c)) {
      WidensFirstExtended(codes, c);
    }
  }

  lemma DistinctLast(codes: seq<TypeCode>, c: TypeCode)
    ensures Distinct(codes + [c]) <==> Distinct(codes) && c !in codes
  {
    var longer := codes + [c];
    assert forall i :: 0 <= i < |codes| ==> codes[i] == longer[i];
    if Distinct(longer) {
      forall i | 0 <= i < |codes| ensures codes[i] != c {
        assert longer[i] != longer[|codes|];
      }
    }
  }

  lemma MonotoneLast(codes: seq<TypeCode>, c: TypeCode)
    ensures Rising(codes + [c]) <==> Rising(codes) && forall i :: 0 <= i < |codes| ==> Size(codes[i]) <= Size(c)
    ensures Falling(codes + [c]) <==> Falling(codes) && forall i :: 0 <= i < |codes| ==> Size(codes[i]) >= Size(c)
  {
    hide Size;
    var longer := codes + [c];
    assert forall i :: 0 <= i < |codes| ==> codes[i] == longer[i];
    if Rising(longer) {
      forall i | 0 <= i < |codes| ensures Size(codes[i]) <= Size(c) {
        assert Size(longer[i]) <= Size(longer[|codes|]);
      }
    }
    if Falling(longer) {
      forall i | 0 <= i < |codes| ensures Size(codes[i]) >= Size(c) {
        assert Size(longer[i]) >= Size(longer[|codes|]);
      }
    }
  }

  /** What one more step must satisfy. */
  lemma ReasonableLast(codes: seq<TypeCode>, c: TypeCode)
    requires codes != []
    ensures var last := codes[|codes| - 1];
            Reasonable(codes + [c]) <==>
            && Distinct(codes) && c !in codes
            && !((Has(codes, IntToFloat) || IntToFloat(last, c)) && (Has(codes, FloatToInt) || FloatToInt(last, c)))
            && !((Has(codes, SignExtends) || SignExtends(last, c)) && (Has(codes, ZeroExtends) || ZeroExtends(last, c)))
            && WidensFirst(codes) && !(Has(codes, ChangesSign) && Widens(last, c))
            && (Rising(codes + [c]) || Falling(codes + [c]))
  {
    DistinctLast(codes, c);
    HasLast(codes, c, IntToFloat);
    HasLast(codes, c, FloatToInt);
    HasLast(codes, c, SignExtends);
    HasLast(codes, c, ZeroExtends);
    WidensFirstLast(codes, c);
  }

  /** A chain is only reasonable if all of it up to any point is. */
  lemma ReasonablePrefix(codes: seq<TypeCode>, c: TypeCode)
    requires codes != [] && Reasonable(codes + [c])
    ensures Reasonable(codes)
  {
    ReasonableLast(codes, c);
    MonotoneLast(codes, c);
  }

  predicate RisingFrom(list: seq<TypeCode>, k: nat) {
    forall i, j :: k <= i < j < |list| ==> Size(list[i]) <= Size(list[j])
  }

  predicate FallingFrom(list: seq<TypeCode>, k: nat) {
    forall i, j :: k <= i < j < |list| ==> Size(list[i]) >= Size(list[j])
  }

  /** The sizes test: whether the sizes go on in one direction. */
  method SizesInOrder(to: TypeCode, list: seq<TypeCode>) returns (ok: bool)
    ensures ok <==> Rising(list + [to]) || Falling(list + [to])
  {
    hide Size;
    MonotoneLast(list, to);
    var k := |list|;
    while k > 0 && Size(list[k - 1]) == Size(to)
      invariant 0 <= k <= |list|
      invariant forall i :: k <= i < |list| ==> Size(list[i]) == Size(to)
    {
      k := k - 1;
    }
    if k == 0 {
      return true;
    }
    if Size(list[k - 1]) < Size(to) {
      ok := RisesTo(list, k, to);
    } else {
      ok := FallsTo(list, k, to);
    }
  }

  method RisesTo(list: seq<TypeCode>, from: nat, to: TypeCode) returns (ok: bool)
    requires 0 < from <= |list| && Size(list[from - 1]) < Size(to)
    requires forall i :: from <= i < |list| ==> Size(list[i]) == Size(to)
    ensures ok <==> Rising(list + [to]) || Falling(list + [to])
  {
    hide Size;
    MonotoneLast(list, to);
    var k, prevSize := from, Size(list[from - 1]);
    while k > 0
      invariant 0 <= k <= from && RisingFrom(list, k)
      invariant prevSize == Size(list[if k < from then k else from - 1])
    {
      if Size(list[k - 1]) > prevSize {
        return false;
      }
      prevSize := Size(list[k - 1]);
      k := k - 1;
    }
    ok := true;
  }

  method FallsTo(list: seq<TypeCode>, from: nat, to: TypeCode) returns (ok: bool)
    requires 0 < from <= |list| && Size(list[from - 1]) > Size(to)
    requires forall i :: from <= i < |list| ==> Size(list[i]) == Size(to)
    ensures ok <==> Rising(list + [to]) || Falling(list + [to])
  {
    hide Size;
    MonotoneLast(list, to);
    var k, prevSize := from, Size(list[from - 1]);
    while k > 0
      invariant 0 <= k <= from && FallingFrom(list, k)
      invariant prevSize == Size(list[if k < from then k else from - 1])
    {
      if Size(list[k - 1]) < prevSize {
        return false;
      }
      prevSize := Size(list[k - 1]);
      k := k - 1;
    }
    ok := true;
  }

  predicate HasFrom(codes: seq<TypeCode>, k: int, kind: (TypeCode, TypeCode) -> bool) {
    exists i :: 0 <= k <= i < |codes| - 1 && kind(codes[i], codes[i + 1])
  }

  /** Whether a step of a kind occurs, as the loop over the list finds it. */
  method Occurs(list: seq<TypeCode>, kind: (TypeCode, TypeCode) -> bool) returns (found: bool)
    requires list != []
    ensures found <==> Has(list, kind)
  {
    found := false;
    var k := |list| - 1;
    while k > 0
      invariant 0 <= k <= |list| - 1
      invariant found <==> HasFrom(list, k, kind)
    {
      k := k - 1;
      if kind(list[k], list[k + 1]) {
        found := true;
      }
    }
  }

  datatype Conversion = Conversion(opcode: int, from: TypeCode, to: TypeCode, cost: int)

  lemma ReasonableParts(codes: seq<TypeCode>)
    requires Reasonable(codes)
    ensures Distinct(codes) && WidensFirst(codes)
  {
  }

  /** conversion_reasonable_p, for a chain that was reasonable so far. */
  method ConversionReasonable(conversion: Conversion, list: seq<TypeCode>) returns (ok: bool)
    requires list != [] && list[|list| - 1] == conversion.from && Reasonable(list)
    ensures ok <==> Reasonable(list + [conversion.to])
  {
    hide Reasonable, Has, IntToFloat, FloatToInt, SignExtends, ZeroExtends, ChangesSign, Widens, Distinct,
         WidensFirst, Rising, Falling;
    var from, to := conversion.from, conversion.to;
    ReasonableParts(list);
    ReasonableLast(list, to);
    if to in list {
      return false;
    }
    var intFloat := Occurs(list, IntToFloat);
    var floatInt := Occurs(list, FloatToInt);
    var signExtend := Occurs(list, SignExtends);
    var zeroExtend := Occurs(list, ZeroExtends);
    var signChange := Occurs(list, ChangesSign);
    if Widens(from, to) && signChange {
      return false;
    }
    if (intFloat || IntToFloat(from, to)) && (floatInt || FloatToInt(from, to)) {
      return false;
    }
    if (signExtend || SignExtends(from, to)) && (zeroExtend || ZeroExtends(from, to)) {
      return false;
    }
    ok := SizesInOrder(to, list);
  }
}
