/** Exactly when a shortened binary operation is right: against a constant on either side,
    and for two variables. */
module NarrowExact {
  import opened Arith
  import opened IntTypes
  import opened Exprs
  import opened NarrowOps
  import SC = ShortenCompare

  /** The operation as it is narrowed, and extended again. */
  ghost function InChosen(code: BinOp, op0: Expr, op1: Expr, origUnsigned: bool, final: IntType, env: Env): int {
    Convert(final, InType(code, op0, op1, ResultType(code, op0, op1, origUnsigned, final), env))
  }

  /** -1 for and, 0 for the other operations, is the constant that changes nothing. */
  lemma {:induction false} UnitOf(code: BinOp, a: int)
    requires IsBitwise(code)
    ensures Bitwise(code, a, if code.BitAnd? then -1 else 0) == a
    decreases Abs(a) + Bit(a < -1)
  {
    if !(-1 <= a <= 0) {
      UnitOf(code, a / 2);
      BitwiseStep(code, a, if code.BitAnd? then -1 else 0);
    }
  }

  lemma {:induction false} AndBounded(a: int, c: int, n: nat)
    requires 0 <= c < Pow2(n)
    ensures 0 <= Bitwise(BitAnd, a, c) < Pow2(n)
    decreases n
  {
    BitwiseStep(BitAnd, a, c);
    if n > 0 {
      AndBounded(a / 2, c / 2, n - 1);
    } else {
      AndNothing(a);
    }
  }

  lemma {:induction false} AndNothing(a: int)
    ensures Bitwise(BitAnd, a, 0) == 0
    decreases Abs(a) + Bit(a < -1)
  {
    if !(-1 <= a <= 0) {
      AndNothing(a / 2);
      BitwiseStep(BitAnd, a, 0);
    }
  }

  /** An operand whose type does not keep its extension is a sign extension inside an
      unsigned type. */
  lemma FailsSigned(op: Expr, final: IntType)
    requires Covers(final, TypeOf(op)) && !SC.KeepsExtension(Narrow(op, final), final)
    ensures var n, t := Narrow(op, final), TypeOf(op);
            t.uns && !n.uns && TypeOf(n.prim).prec < t.prec < final.prec
  {
    NarrowOk(op, final, _ => 0);
  }

  lemma MinusOneFits(t: IntType)
    requires !t.uns
    ensures Fits(t, -1)
  {
  }

  lemma NarrowOf(op: Expr, final: IntType)
    ensures Narrow(op, final).op == op
  {
  }

  /** With all bits set it is then 2^prec - 1 and its narrow form -1. */
  lemma SignExtended(op: Expr, final: IntType, env: Env)
    requires Covers(final, TypeOf(op)) && Free(Narrow(op, final).prim) && env(VarOf(Narrow(op, final).prim)) == -1
    requires !SC.KeepsExtension(Narrow(op, final), final)
    ensures var n, t := Narrow(op, final), TypeOf(op);
            && !n.uns && TypeOf(n.prim).prec < t.prec < final.prec
            && Eval(op, env) == Pow2(t.prec) - 1
            && 3 <= Eval(op, env) < Pow2(final.prec - 1) && Eval(op, env) % 2 == 1
            && Convert(final, Eval(op, env)) == Eval(op, env)
            && Convert(Signed(TypeOf(n.prim)), Eval(op, env)) == -1
  {
    hide Narrow, SC.KeepsExtension, Free, Pow2;
    var n, t := Narrow(op, final), TypeOf(op);
    var r := Signed(TypeOf(n.prim));
    FailsSigned(op, final);
    MinusOneFits(r);
    NarrowOk(op, final, env);
    NarrowOf(op, final);
    FreeExtended(n.prim, n.uns, env);
    PowTwoAtLeast(t.prec);
    AsUnsigned(t, -1);
    ConvertThrough(r, t, -1);
    ConvertFits(r, -1);
    AllOnes(t.prec, final.prec);
    ConvertFits(final, Eval(op, env));
  }

  lemma PowDoubles(k: nat)
    ensures Pow2(k + 1) == 2 * Pow2(k)
  {
  }

  lemma AllOnes(t: nat, final: nat)
    requires 2 <= t < final
    ensures 3 <= Pow2(t) - 1 < Pow2(final - 1) <= Pow2(final) - 1 && (Pow2(t) - 1) % 2 == 1
  {
    hide Pow2;
    PowTwoAtLeast(t - 1);
    PowDoubles(t - 1);
    PowDoubles(final - 1);
    PowGrows(t, final - 1);
  }

  // A constant on the right.

  /** When doing `code` in the narrow type is right for every value and constant: the
      operand's own type keeps the extension, or the operation is never narrowed on the
      sign-extended operand left, or what it looks at is not changed by the extension. */
  predicate NeverWrong(code: BinOp, n: Operand, final: IntType, origUnsigned: bool) {
    || SC.KeepsExtension(n, final)
    || match code
       case BitAnd | Min | Max => final.uns
       case TruncDiv => final.uns || (TypeOf(n.prim).prec == 1 && !origUnsigned)
       case TruncMod => final.uns || TypeOf(n.prim).prec == 1
       case _ => false
  }

  /** Masking by a constant that is not negative in the narrow type sees no sign bits. */
  lemma MaskRight(op: Expr, c: int, narrow: IntType, final: IntType, env: Env)
    requires 0 <= c && Fits(narrow, c) && !narrow.uns && narrow.prec < final.prec && final.uns
    ensures Convert(final, InType(BitAnd, op, Cst(c, final), narrow, env)) == InType(BitAnd, op, Cst(c, final), final, env)
  {
    var v := Eval(op, env);
    FitsUnsigned(narrow, final, c);
    ConvertFits(final, c);
    ConvertFits(narrow, c);
    AndBounded(v, c, narrow.prec - 1);
    BitwiseConverts(BitAnd, narrow, v, c);
    BitwiseConverts(BitAnd, final, v, c);
    ConvertFits(narrow, Bitwise(BitAnd, v, c));
  }

  lemma FitsUnsigned(narrow: IntType, final: IntType, c: int)
    requires 0 <= c && Fits(narrow, c) && narrow.prec < final.prec && final.uns
    ensures Fits(final, c)
  {
    PowGrows(narrow.prec, final.prec);
    PowGrows(narrow.prec - 1, final.prec);
  }

  /** The constant that shows the fault. */
  function Witness(code: BinOp, n: Operand): int {
    match code
    case BitAnd => -1
    case TruncDiv => if TypeOf(n.prim).prec == 1 then -1 else 1
    case TruncMod => -2
    case _ => 0
  }

  lemma WitnessFits(code: BinOp, n: Operand, final: IntType, origUnsigned: bool)
    requires TypeOf(n.prim).prec < final.prec && !n.uns && !NeverWrong(code, n, final, origUnsigned)
    ensures Fits(final, Witness(code, n)) && Fits(Signed(TypeOf(n.prim)), Witness(code, n))
    ensures code.TruncMod? || (code.TruncDiv? && Witness(code, n) == 1) ==> TypeOf(n.prim).prec >= 2
    ensures IsDivision(code) ==> origUnsigned || Witness(code, n) != -1
  {
    var p := TypeOf(n.prim).prec;
    PowGrows(p - 1, final.prec - 1);
    PowGrows(0, p - 1);
    if p >= 2 {
      PowGrows(1, p - 1);
    }
  }

  /** What each operation gives at this constant for -1 and for an odd e. */
  lemma WitnessValues(code: BinOp, n: Operand, e: nat)
    requires e >= 3 && e % 2 == 1
    ensures var w := Witness(code, n);
            && OpValue(code, -1, w) == (if code.Max? then 0 else if code.TruncDiv? then 0 - w else -1)
            && OpValue(code, e, w) == (match code
                                       case Min => 0
                                       case TruncDiv => e * w
                                       case TruncMod => 1
                                       case _ => e)
  {
    if IsBitwise(code) {
      UnitOf(code, -1);
      UnitOf(code, e);
    } else if code.TruncMod? {
      RemainderOf(-1, -2);
      RemainderOf(e, -2);
    }
  }

  /** They stay apart: -1 in the narrow type is not e, at least 3 and no more than half
      the final type. */
  lemma WitnessTells(code: BinOp, n: Operand, narrow: IntType, final: IntType, e: nat)
    requires 3 <= e < Pow2(final.prec - 1) && e % 2 == 1 && narrow == Signed(TypeOf(n.prim)) && narrow.prec < final.prec
    requires IsBitwise(code) || !final.uns
    ensures Convert(final, Convert(narrow, OpValue(code, -1, Witness(code, n)))) != Convert(final, OpValue(code, e, Witness(code, n)))
  {
    hide OpValue;
    WitnessValues(code, n, e);
    if code.TruncDiv? && narrow.prec == 1 {
      OneBit(narrow, final, e);
    } else if code.TruncMod? {
      MinusOneTells(narrow, final, 1);
    } else if code.Min? {
      MinusOneTells(narrow, final, 0);
    } else if code.Max? {
      ConvertFits(narrow, 0);
      ConvertFits(final, 0);
      ConvertFits(final, e);
    } else {
      MinusOneTells(narrow, final, e);
    }
  }

  lemma OneBit(narrow: IntType, final: IntType, e: nat)
    requires !final.uns && !narrow.uns && narrow.prec == 1 && 3 <= e < Pow2(final.prec - 1)
    ensures Convert(final, Convert(narrow, 1)) != Convert(final, 0 - e)
  {
    assert Pow2(1) == 2 * Pow2(0);
    ConvertUnique(narrow, 1, -1, 1);
    ConvertFits(final, -1);
    ConvertFits(final, 0 - e);
  }

  lemma MinusOneTells(narrow: IntType, final: IntType, e: nat)
    requires !narrow.uns && final.prec > 1 && e < Pow2(final.prec - 1)
    ensures Convert(final, Convert(narrow, -1)) != Convert(final, e)
  {
    ConvertFits(narrow, -1);
    ConvertFits(final, e);
    if final.uns {
      AsUnsigned(final, -1);
    } else {
      ConvertFits(final, -1);
    }
  }

  /** An operand not safe for an operation: at -1 and this constant the result is wrong. */
  lemma WitnessWrong(code: BinOp, op: Expr, final: IntType, origUnsigned: bool, env: Env)
    requires Folded(op) && Covers(final, TypeOf(op)) && Free(Narrow(op, final).prim) && env(VarOf(Narrow(op, final).prim)) == -1
    requires !NeverWrong(code, Narrow(op, final), final, origUnsigned)
    ensures var k := Cst(Witness(code, Narrow(op, final)), final);
            && Fits(final, k.value) && (IsDivision(code) ==> k.value != 0)
            && InChosen(code, op, k, origUnsigned, final, env)
               != InType(code, op, k, final, env)
  {
    hide OpValue, Pow2;
    var n := Narrow(op, final);
    var k, r := Cst(Witness(code, n), final), Signed(TypeOf(n.prim));
    SignExtended(op, final, env);
    WitnessFits(code, n, final, origUnsigned);
    assert ResultType(code, op, k, origUnsigned, final) == r;
    ConvertFits(final, k.value);
    ConvertFits(r, k.value);
    WitnessTells(code, n, r, final, Eval(op, env));
  }

  /** An operand that is safe for an operation although its type does not keep its
      extension: the operation is not narrowed, or it masks. */
  lemma SafeAnyway(code: BinOp, op: Expr, c: int, final: IntType, origUnsigned: bool, env: Env)
    requires Folded(op) && Covers(final, TypeOf(op)) && Free(Narrow(op, final).prim) && Fits(final, c)
    requires !SC.KeepsExtension(Narrow(op, final), final) && NeverWrong(code, Narrow(op, final), final, origUnsigned)
    requires IsDivision(code) ==> c != 0
    ensures var k := Cst(c, final);
            InChosen(code, op, k, origUnsigned, final, env)
            == InType(code, op, k, final, env)
  {
    var n, k := Narrow(op, final), Cst(c, final);
    var r := ResultType(code, op, k, origUnsigned, final);
    SignExtended(op, final, _ => -1);
    if r == final {
      ConvertFits(final, InType(code, op, k, final, env));
    } else if code.BitAnd? {
      MaskRight(op, c, r, final, env);
    } else {
      assert TypeOf(n.prim).prec == 1 && c == -1 && code.TruncMod?;
      ByMinusOne(op, r, final, env);
    }
  }

  lemma RemainderByMinusOne(a: int)
    ensures Remainder(a, -1) == 0
  {
    RemainderOf(a, -1);
  }

  /** A remainder by -1 is zero in any type. */
  lemma ByMinusOne(op: Expr, narrow: IntType, final: IntType, env: Env)
    requires Fits(narrow, -1) && Fits(final, -1)
    ensures Convert(final, InType(TruncMod, op, Cst(-1, final), narrow, env)) == InType(TruncMod, op, Cst(-1, final), final, env)
  {
    hide Remainder;
    ConvertFits(narrow, -1);
    ConvertFits(final, -1);
    ConvertFits(narrow, 0);
    RemainderByMinusOne(Convert(narrow, Eval(op, env)));
    RemainderByMinusOne(Convert(final, Eval(op, env)));
  }

  lemma KeptRight(code: BinOp, op: Expr, c: int, final: IntType, origUnsigned: bool, env: Env)
    requires Folded(op) && Covers(final, TypeOf(op)) && Fits(final, c) && SC.KeepsExtension(Narrow(op, final), final)
    requires origUnsigned ==> Eval(op, env) >= 0
    ensures InChosen(code, op, Cst(c, final), origUnsigned, final, env)
            == InType(code, op, Cst(c, final), final, env)
  {
    OpPreserved(code, op, Cst(c, final), origUnsigned, final, env);
  }

  /** Shortening `op code c` is shortening with what is left of op. */
  lemma ShortenedLeft(code: BinOp, op: Expr, c: int, final: IntType, origUnsigned: bool, env: Env)
    requires Folded(op) && final == SC.CommonType(TypeOf(op), final)
    ensures var e, k := Unextended(code, op, Cst(0, final)), Cst(c, final);
            && Folded(e) && Covers(final, TypeOf(e)) && Eval(e, env) == Eval(op, env)
            && InType(code, e, k, final, env) == InType(code, op, k, final, env)
            && Shortened(code, op, k, origUnsigned, env)
               == InChosen(code, e, k, origUnsigned, final, env)
  {
    UnextendedOk(code, op, Cst(c, final), env);
    CommonTypeCovers(TypeOf(op), final);
  }

  /** Exactly when an operand is safe for an operation with a constant, a zero extension
      already removed. */
  lemma StepExactly(code: BinOp, op: Expr, final: IntType, origUnsigned: bool)
    requires Folded(op) && Covers(final, TypeOf(op)) && Free(Narrow(op, final).prim)
    requires origUnsigned ==> forall env: Env :: Eval(op, env) >= 0
    ensures NeverWrong(code, Narrow(op, final), final, origUnsigned) <==>
            forall c: int, env: Env :: Fits(final, c) && (IsDivision(code) ==> c != 0) ==>
              InChosen(code, op, Cst(c, final), origUnsigned, final, env) == InType(code, op, Cst(c, final), final, env)
  {
    hide InType, ResultType, NeverWrong, Eval, Narrow;
    var n := Narrow(op, final);
    if NeverWrong(code, n, final, origUnsigned) {
      forall c: int, env: Env | Fits(final, c) && (IsDivision(code) ==> c != 0)
        ensures InChosen(code, op, Cst(c, final), origUnsigned, final, env) == InType(code, op, Cst(c, final), final, env) {
        if SC.KeepsExtension(n, final) {
          KeptRight(code, op, c, final, origUnsigned, env);
        } else {
          SafeAnyway(code, op, c, final, origUnsigned, env);
        }
      }
    } else {
      WitnessWrong(code, op, final, origUnsigned, _ => -1);
      assert InChosen(code, op, Cst(Witness(code, n), final), origUnsigned, final, _ => -1)
             != InType(code, op, Cst(Witness(code, n), final), final, _ => -1);
    }
  }

  /** Exactly when the shortening of `op code c` is right for all values of op and all
      constants c, from the operand as it comes and operation by operation: when what is
      left of it without a zero extension is safe for that operation. */
  lemma ShortenedExactly(code: BinOp, op: Expr, final: IntType, origUnsigned: bool)
    requires Folded(op) && final == SC.CommonType(TypeOf(op), final)
    requires Free(Narrow(Unextended(code, op, Cst(0, final)), final).prim)
    requires origUnsigned ==> forall env: Env :: Eval(op, env) >= 0
    ensures NeverWrong(code, Narrow(Unextended(code, op, Cst(0, final)), final), final, origUnsigned) <==>
            forall c: int, env: Env :: Fits(final, c) && (IsDivision(code) ==> c != 0) ==>
              Shortened(code, op, Cst(c, final), origUnsigned, env) == InType(code, op, Cst(c, final), final, env)
  {
    hide InType, Shortened, InChosen, NeverWrong, Eval, Unextended, Narrow;
    var e := Unextended(code, op, Cst(0, final));
    ShortenedLeft(code, op, 0, final, origUnsigned, _ => 0);
    forall env: Env ensures Eval(e, env) == Eval(op, env) {
      ShortenedLeft(code, op, 0, final, origUnsigned, env);
    }
    StepExactly(code, e, final, origUnsigned);
    forall c: int, env: Env
      ensures InType(code, e, Cst(c, final), final, env) == InType(code, op, Cst(c, final), final, env)
      ensures Shortened(code, op, Cst(c, final), origUnsigned, env) == InChosen(code, e, Cst(c, final), origUnsigned, final, env) {
      ShortenedLeft(code, op, c, final, origUnsigned, env);
    }
  }

  // A constant on the left.

  /** The same for `c code op`: and-not then masks with the constant; the dividend of a
      shortened division was unsigned, so the constant is not negative. */
  predicate NeverWrongLeft(code: BinOp, n: Operand, final: IntType, origUnsigned: bool) {
    || SC.KeepsExtension(n, final)
    || match code
       case BitAnd | BitAndNot | Min | Max => final.uns
       case TruncDiv | TruncMod => final.uns || !origUnsigned || TypeOf(n.prim).prec == 1
       case _ => false
  }

  /** Whether the constant may stand there: no division by zero, and no dividend below zero
      of an unsigned type. */
  ghost predicate LeftAllowed(code: BinOp, c: int, op: Expr, final: IntType, origUnsigned: bool, env: Env) {
    Fits(final, c) && (IsDivision(code) ==> (origUnsigned ==> c >= 0) && Eval(op, env) != 0)
  }

  lemma {:induction false} UnitLeft(code: BinOp, a: int)
    requires IsBitwise(code)
    ensures Bitwise(code, if code.BitAnd? || code.BitAndNot? then -1 else 0, a) == if code.BitAndNot? then -1 - a else a
    decreases Abs(a) + Bit(a < -1)
  {
    if !(-1 <= a <= 0) {
      UnitLeft(code, a / 2);
      BitwiseStep(code, if code.BitAnd? || code.BitAndNot? then -1 else 0, a);
    }
  }

  lemma {:induction false} MaskBounded(code: BinOp, c: int, a: int, n: nat)
    requires (code.BitAnd? || code.BitAndNot?) && 0 <= c < Pow2(n)
    ensures 0 <= Bitwise(code, c, a) < Pow2(n)
    decreases n
  {
    BitwiseStep(code, c, a);
    if n > 0 {
      MaskBounded(code, c / 2, a / 2, n - 1);
    } else {
      NothingMasked(code, a);
    }
  }

  lemma {:induction false} NothingMasked(code: BinOp, a: int)
    requires code.BitAnd? || code.BitAndNot?
    ensures Bitwise(code, 0, a) == 0
    decreases Abs(a) + Bit(a < -1)
  {
    if !(-1 <= a <= 0) {
      NothingMasked(code, a / 2);
      BitwiseStep(code, 0, a);
    }
  }

  lemma MaskLeft(code: BinOp, c: int, op: Expr, narrow: IntType, final: IntType, env: Env)
    requires (code.BitAnd? || code.BitAndNot?) && 0 <= c && Fits(narrow, c)
    requires !narrow.uns && narrow.prec < final.prec && final.uns
    ensures Convert(final, InType(code, Cst(c, final), op, narrow, env)) == InType(code, Cst(c, final), op, final, env)
  {
    var v := Eval(op, env);
    FitsUnsigned(narrow, final, c);
    ConvertFits(final, c);
    ConvertFits(narrow, c);
    MaskBounded(code, c, v, narrow.prec - 1);
    BitwiseConverts(code, narrow, c, v);
    BitwiseConverts(code, final, c, v);
    ConvertFits(narrow, Bitwise(code, c, v));
  }

  function WitnessLeft(code: BinOp): int {
    match code
    case BitAnd | BitAndNot => -1
    case TruncDiv | TruncMod => 1
    case _ => 0
  }

  lemma WitnessLeftFits(code: BinOp, n: Operand, final: IntType, origUnsigned: bool)
    requires TypeOf(n.prim).prec < final.prec && !n.uns && !NeverWrongLeft(code, n, final, origUnsigned)
    ensures Fits(final, WitnessLeft(code)) && Fits(Signed(TypeOf(n.prim)), WitnessLeft(code))
    ensures IsDivision(code) ==> origUnsigned && !final.uns && WitnessLeft(code) == 1
    ensures code.BitAnd? || code.BitAndNot? || code.Min? || code.Max? ==> !final.uns
  {
    var p := TypeOf(n.prim).prec;
    PowGrows(p - 1, final.prec - 1);
    PowGrows(0, p - 1);
    if p >= 2 {
      PowGrows(1, p - 1);
    }
  }

  lemma WitnessLeftValues(code: BinOp, e: nat)
    requires e >= 3
    ensures var w := WitnessLeft(code);
            && OpValue(code, w, -1) == (match code
                                        case BitAndNot => 0
                                        case Max => 0
                                        case TruncMod => 0
                                        case _ => -1)
            && OpValue(code, w, e) == (match code
                                       case BitAndNot => -1 - e
                                       case Min => 0
                                       case TruncDiv => 0
                                       case TruncMod => 1
                                       case _ => e)
  {
    if IsBitwise(code) {
      UnitLeft(code, -1);
      UnitLeft(code, e);
    } else if code.TruncDiv? || code.TruncMod? {
      RemainderOf(1, e);
      RemainderOf(1, -1);
    }
  }

  lemma WitnessLeftTells(code: BinOp, narrow: IntType, final: IntType, e: nat)
    requires 3 <= e < Pow2(final.prec - 1) && !narrow.uns && narrow.prec < final.prec
    requires code.BitAnd? || code.BitAndNot? || code.Min? || code.Max? || IsDivision(code) ==> !final.uns
    ensures Convert(final, Convert(narrow, OpValue(code, WitnessLeft(code), -1))) != Convert(final, OpValue(code, WitnessLeft(code), e))
  {
    hide OpValue;
    WitnessLeftValues(code, e);
    if code.BitAndNot? || code.Max? || code.TruncMod? {
      ConvertFits(narrow, 0);
      ConvertFits(final, 0);
      ConvertFits(final, OpValue(code, WitnessLeft(code), e));
    } else if code.Min? || code.TruncDiv? {
      MinusOneTells(narrow, final, 0);
    } else {
      MinusOneTells(narrow, final, e);
    }
  }

  lemma WitnessLeftWrong(code: BinOp, op: Expr, final: IntType, origUnsigned: bool, env: Env)
    requires Folded(op) && Covers(final, TypeOf(op)) && Free(Narrow(op, final).prim) && env(VarOf(Narrow(op, final).prim)) == -1
    requires !NeverWrongLeft(code, Narrow(op, final), final, origUnsigned)
    ensures var k := Cst(WitnessLeft(code), final);
            && LeftAllowed(code, k.value, op, final, origUnsigned, env)
            && InChosen(code, k, op, origUnsigned, final, env) != InType(code, k, op, final, env)
  {
    hide OpValue, Pow2;
    var n := Narrow(op, final);
    var k, r := Cst(WitnessLeft(code), final), Signed(TypeOf(n.prim));
    SignExtended(op, final, env);
    WitnessLeftFits(code, n, final, origUnsigned);
    assert ResultType(code, k, op, origUnsigned, final) == r;
    ConvertFits(final, k.value);
    ConvertFits(r, k.value);
    WitnessLeftTells(code, r, final, Eval(op, env));
  }

  lemma SafeAnywayLeft(code: BinOp, op: Expr, c: int, final: IntType, origUnsigned: bool, env: Env)
    requires Folded(op) && Covers(final, TypeOf(op)) && Free(Narrow(op, final).prim)
    requires LeftAllowed(code, c, op, final, origUnsigned, env)
    requires !SC.KeepsExtension(Narrow(op, final), final) && NeverWrongLeft(code, Narrow(op, final), final, origUnsigned)
    ensures var k := Cst(c, final);
            InChosen(code, k, op, origUnsigned, final, env) == InType(code, k, op, final, env)
  {
    var n, k := Narrow(op, final), Cst(c, final);
    var r := ResultType(code, k, op, origUnsigned, final);
    FailsSigned(op, final);
    if r == final {
      ConvertFits(final, InType(code, k, op, final, env));
    } else if code.BitAnd? || code.BitAndNot? {
      MaskLeft(code, c, op, r, final, env);
    } else {
      assert c == 0 && IsDivision(code);
      ZeroDividend(code, op, r, final, env);
    }
  }

  lemma ZeroDividend(code: BinOp, op: Expr, narrow: IntType, final: IntType, env: Env)
    requires IsDivision(code)
    ensures Convert(final, InType(code, Cst(0, final), op, narrow, env)) == InType(code, Cst(0, final), op, final, env)
  {
    ConvertFits(final, 0);
    ConvertFits(narrow, 0);
    ZeroDivided(code, Convert(narrow, Eval(op, env)));
    ZeroDivided(code, Convert(final, Eval(op, env)));
  }

  lemma ZeroDivided(code: BinOp, b: int)
    requires IsDivision(code)
    ensures OpValue(code, 0, b) == 0
  {
    if b != 0 {
      RemainderOf(0, b);
      AbsQuotient(0, Abs(b));
    }
  }

  lemma KeptLeft(code: BinOp, op: Expr, c: int, final: IntType, origUnsigned: bool, env: Env)
    requires Folded(op) && Covers(final, TypeOf(op)) && Fits(final, c) && SC.KeepsExtension(Narrow(op, final), final)
    requires IsDivision(code) && origUnsigned ==> c >= 0
    ensures InChosen(code, Cst(c, final), op, origUnsigned, final, env) == InType(code, Cst(c, final), op, final, env)
  {
    ConvertFits(final, c);
    OpPreserved(code, Cst(c, final), op, IsDivision(code) && origUnsigned, final, env);
  }

  lemma ShortenedFromLeft(code: BinOp, op: Expr, c: int, final: IntType, origUnsigned: bool, env: Env)
    requires Folded(op) && final == SC.CommonType(final, TypeOf(op))
    ensures var e, k := Unextended(code, op, Cst(0, final)), Cst(c, final);
            && Folded(e) && Covers(final, TypeOf(e)) && Eval(e, env) == Eval(op, env)
            && InType(code, k, e, final, env) == InType(code, k, op, final, env)
            && Shortened(code, k, op, origUnsigned, env) == InChosen(code, k, e, origUnsigned, final, env)
  {
    UnextendedOk(code, op, Cst(c, final), env);
    CommonTypeCovers(final, TypeOf(op));
  }

  /** Exactly when the shortening of `c code op` is right for all values of op and all
      constants that may stand there. */
  lemma ShortenedLeftExactly(code: BinOp, op: Expr, final: IntType, origUnsigned: bool)
    requires Folded(op) && final == SC.CommonType(final, TypeOf(op))
    requires Free(Narrow(Unextended(code, op, Cst(0, final)), final).prim)
    ensures NeverWrongLeft(code, Narrow(Unextended(code, op, Cst(0, final)), final), final, origUnsigned) <==>
            forall c: int, env: Env :: LeftAllowed(code, c, op, final, origUnsigned, env) ==>
              Shortened(code, Cst(c, final), op, origUnsigned, env) == InType(code, Cst(c, final), op, final, env)
  {
    hide InType, Shortened, InChosen, NeverWrongLeft, Eval, Unextended, Narrow, SC.KeepsExtension;
    var e := Unextended(code, op, Cst(0, final));
    var n := Narrow(e, final);
    if NeverWrongLeft(code, n, final, origUnsigned) {
      forall c: int, env: Env | LeftAllowed(code, c, op, final, origUnsigned, env)
        ensures Shortened(code, Cst(c, final), op, origUnsigned, env) == InType(code, Cst(c, final), op, final, env) {
        ShortenedFromLeft(code, op, c, final, origUnsigned, env);
        if SC.KeepsExtension(n, final) {
          KeptLeft(code, e, c, final, origUnsigned, env);
        } else {
          SafeAnywayLeft(code, e, c, final, origUnsigned, env);
        }
      }
    } else {
      var env: Env := _ => -1;
      ShortenedFromLeft(code, op, WitnessLeft(code), final, origUnsigned, env);
      WitnessLeftWrong(code, e, final, origUnsigned, env);
    }
  }

  /** `(unsigned short) sc` as int: its zero extension keeps its value, but the operand
      left when that is removed has a sign extension inside. */
  lemma UnextendingExposes()
    ensures var op := Conv(Width(32, false), Conv(Width(16, true), Var(0, Width(8, false), false)));
            var zero := Cst(0, Width(32, false));
            && SC.KeepsExtension(Narrow(op, Width(32, false)), Width(32, false))
            && !KeepsShortened(BitOr, op, zero)
            && Unextended(BitOr, op, zero) == op.arg && Unextended(BitOr, zero, op) == zero
            && ResultType(BitOr, op.arg, zero, false, Width(32, false)) == Width(8, false)
  {
  }

  /** Removing a zero extension can expose a sign extension: `(unsigned short) sc | 0`
      with sc -1 is 65535 in type int but is computed as -1. */
  lemma WrongAfterUnextending()
    ensures var op := Conv(Width(32, false), Conv(Width(16, true), Var(0, Width(8, false), false)));
            var zero := Cst(0, Width(32, false));
            && Shortened(BitOr, op, zero, false, (_ => -1)) == -1
            && InType(BitOr, op, zero, Width(32, false), (_ => -1)) == 0xFFFF
  {
    UnextendingExposes();
    UnextendedValues();
    var int32: IntType := Width(32, false);
    ConvertFits(int32, 0xFFFF);
    ConvertFits(int32, 0);
    ConvertFits(int32, -1);
    ConvertFits(Width(8, false), 0);
    ConvertFits(Width(8, false), -1);
    UnitOf(BitOr, -1);
    UnitOf(BitOr, 0xFFFF);
  }

  lemma UnextendedValues()
    ensures var e := Conv(Width(16, true), Var(0, Width(8, false), false));
            Eval(e, (_ => -1)) == 0xFFFF && Convert(Width(8, false), 0xFFFF) == -1
    ensures Fits(Width(32, false), 0xFFFF) && Fits(Width(32, false), -1) && Fits(Width(8, false), -1)
  {
    PowersUsed();
    assert Pow2(15) == 0x8000 && Pow2(16) == 0x1_0000;
    ConvertFits(Width(8, false), -1);
    AsUnsigned(Width(16, true), -1);
    ConvertThrough(Width(8, false), Width(16, true), -1);
  }
}
