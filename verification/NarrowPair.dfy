/** Exactly when a shortened binary operation is right for two variables. */
module NarrowPair {
  import opened Arith
  import opened IntTypes
  import opened Exprs
  import opened NarrowOps
  import opened NarrowExact
  import SC = ShortenCompare

  predicate PairNarrowed(code: BinOp, n0: Operand, n1: Operand, final: IntType, origUnsigned: bool) {
    BothVariable(code, n0, n1, final) && (IsDivision(code) ==> origUnsigned)
  }

  /** When doing `code` on two variables is right for all their values: it is not narrowed,
      or both operands' types keep the extension, or it is a remainder of sign bits alone,
      by one that keeps its extension or whose width divides the dividend's. */
  predicate PairNeverWrong(code: BinOp, n0: Operand, n1: Operand, final: IntType, origUnsigned: bool) {
    || !PairNarrowed(code, n0, n1, final, origUnsigned)
    || (SC.KeepsExtension(n0, final) && SC.KeepsExtension(n1, final))
    || (code.TruncMod? && TypeOf(n0.prim).prec == 1
        && (SC.KeepsExtension(n1, final) || TypeOf(n0.op).prec % TypeOf(n1.op).prec == 0))
  }

  /** Variables are no constants: nothing is taken off them, and only both together narrow. */
  lemma VariablesOnly(code: BinOp, op0: Expr, op1: Expr, origUnsigned: bool, env: Env)
    requires Folded(op0) && Folded(op1)
    requires var final := SC.CommonType(TypeOf(op0), TypeOf(op1)); Free(Narrow(op0, final).prim) && Free(Narrow(op1, final).prim)
    ensures var final := SC.CommonType(TypeOf(op0), TypeOf(op1));
            var n0, n1 := Narrow(op0, final), Narrow(op1, final);
            && Covers(final, TypeOf(op0)) && Covers(final, TypeOf(op1))
            && Shortened(code, op0, op1, origUnsigned, env) == InChosen(code, op0, op1, origUnsigned, final, env)
            && ResultType(code, op0, op1, origUnsigned, final)
               == if PairNarrowed(code, n0, n1, final, origUnsigned) then WithSign(n0.uns, TypeOf(n0.prim)) else final
  {
    hide InType, Narrow, Folded, ResultType, PairNarrowed, SC.CommonType;
    var final := SC.CommonType(TypeOf(op0), TypeOf(op1));
    CommonTypeCovers(TypeOf(op0), TypeOf(op1));
    NotConstant(op0, final);
    NotConstant(op1, final);
    VariablesChosen(code, op0, op1, final, origUnsigned);
  }

  lemma VariablesChosen(code: BinOp, op0: Expr, op1: Expr, final: IntType, origUnsigned: bool)
    requires Free(Narrow(op0, final).prim) && Free(Narrow(op1, final).prim)
    ensures var n0, n1 := Narrow(op0, final), Narrow(op1, final);
            ResultType(code, op0, op1, origUnsigned, final)
            == if PairNarrowed(code, n0, n1, final, origUnsigned) then WithSign(n0.uns, TypeOf(n0.prim)) else final
  {
    hide Narrow;
    NotConstant(op0, final);
    NotConstant(op1, final);
  }

  lemma NotConstant(op: Expr, final: IntType)
    requires Free(Narrow(op, final).prim)
    ensures !op.Cst? && !Narrow(op, final).prim.Cst?
  {
  }

  // The values.

  /** A sign-extended operand with its variable at y. */
  lemma AtValue(op: Expr, final: IntType, y: int, env: Env)
    requires Covers(final, TypeOf(op)) && Free(Narrow(op, final).prim) && env(VarOf(Narrow(op, final).prim)) == y
    requires !Narrow(op, final).uns && Fits(Signed(TypeOf(Narrow(op, final).prim)), y)
    ensures Convert(Signed(TypeOf(Narrow(op, final).prim)), Eval(op, env)) == y
    ensures SC.KeepsExtension(Narrow(op, final), final) || y >= 0 ==> Convert(final, Eval(op, env)) == Convert(final, y)
    ensures !SC.KeepsExtension(Narrow(op, final), final) ==>
              Eval(op, env) == (if y < 0 then y + Pow2(TypeOf(op).prec) else y)
              && Convert(final, Eval(op, env)) == Eval(op, env)
  {
    hide SC.KeepsExtension, Narrow, Free;
    var n, t := Narrow(op, final), TypeOf(op);
    var r := Signed(TypeOf(n.prim));
    NarrowOf(op, final);
    NarrowOk(op, final, env);
    FreeExtended(n.prim, n.uns, env);
    ConvertThrough(r, t, y);
    ConvertFits(r, y);
    if SC.KeepsExtension(n, final) {
      SC.KeepsExtensionIsEnough(n, final, env);
    } else {
      FailsSigned(op, final);
      ReadUnsigned(t, r, final, y);
    }
  }

  lemma ReadUnsigned(t: IntType, r: IntType, final: IntType, y: int)
    requires t.uns && !r.uns && r.prec < t.prec < final.prec && Fits(r, y)
    ensures Convert(t, y) == (if y < 0 then y + Pow2(t.prec) else y) && Convert(final, Convert(t, y)) == Convert(t, y)
  {
    PowGrows(r.prec - 1, t.prec);
    AsUnsigned(t, y);
    FitsWider(t, final, Convert(t, y));
    ConvertFits(final, Convert(t, y));
  }

  /** The wide operation on operands with these low bits. */
  lemma WideBitwise(code: BinOp, op0: Expr, op1: Expr, final: IntType, a: int, b: int, env: Env)
    requires IsBitwise(code)
    requires Convert(final, Eval(op0, env)) == Convert(final, a) && Convert(final, Eval(op1, env)) == Convert(final, b)
    ensures InType(code, op0, op1, final, env) == Convert(final, Bitwise(code, a, b))
  {
    BitwiseConverts(code, final, a, b);
  }

  lemma {:induction false} BitwiseCommutes(code: BinOp, a: int, b: int)
    requires IsBitwise(code) && !code.BitAndNot?
    ensures Bitwise(code, a, b) == Bitwise(code, b, a)
    decreases Abs(a) + Abs(b) + Bit(a < -1) + Bit(b < -1)
  {
    if !(-1 <= a <= 0 && -1 <= b <= 0) {
      BitwiseCommutes(code, a / 2, b / 2);
    }
  }

  lemma OpCommutes(code: BinOp, op0: Expr, op1: Expr, t: IntType, env: Env)
    requires !code.BitAndNot? && !IsDivision(code)
    ensures InType(code, op0, op1, t, env) == InType(code, op1, op0, t, env)
  {
    if IsBitwise(code) {
      BitwiseCommutes(code, Convert(t, Eval(op0, env)), Convert(t, Eval(op1, env)));
    }
  }

  /** What is left of 2^a - 1 when 2^b - 1 is taken off as often as possible. */
  lemma {:induction false} PowRemainder(a: nat, b: nat)
    requires b >= 2
    ensures Pow2(b) - 1 > 0 && (Pow2(a) - 1) % (Pow2(b) - 1) == Pow2(a % b) - 1
    decreases a
  {
    hide Pow2;
    PowTwoAtLeast(b);
    PowTwoAtLeast(b - 1);
    PowDoubles(b - 1);
    if a < b {
      PowGrows(a, b - 1);
      SmallRemainder(a, b);
      SmallRemainder(Pow2(a) - 1, Pow2(b) - 1);
    } else {
      PowRemainder(a - b, b);
      PowSum(a - b, b);
      OneTakenOff(Pow2(a - b), Pow2(b));
      LiftedRemainder(a - b, 1, b);
    }
  }

  lemma OneTakenOff(x: nat, y: nat)
    requires y >= 2
    ensures (x * y - 1) % (y - 1) == (x - 1) % (y - 1)
  {
    SumTimes(y - 1, 1, x);
    LiftedRemainder(x - 1, x, y - 1);
  }

  // Wrong whenever an operand's type fails to keep its extension.

  /** The other variable's value when the first operand, at -1, does not keep its extension. */
  function Partner(code: BinOp, n0: Operand): int {
    if code.TruncMod? && TypeOf(n0.prim).prec == 1 then -1 else Witness(code, n0)
  }

  lemma PartnerFits(code: BinOp, n0: Operand)
    ensures Fits(Signed(TypeOf(n0.prim)), Partner(code, n0)) && Fits(Signed(TypeOf(n0.prim)), -1)
    ensures IsDivision(code) ==> Partner(code, n0) != 0
  {
    var p := TypeOf(n0.prim).prec;
    PowGrows(0, p - 1);
    if p >= 2 {
      PowGrows(1, p - 1);
    }
  }

  lemma SmallConverts(t: IntType, y: int)
    requires !t.uns && t.prec >= 2 && -2 <= y <= 1
    ensures Convert(t, y) == y
  {
    PowGrows(1, t.prec - 1);
    ConvertFits(t, y);
  }

  /** The first operand fails, the other stands for its value: as against that constant. */
  lemma FirstTells(code: BinOp, n0: Operand, op0: Expr, op1: Expr, final: IntType, env: Env)
    requires n0 == Narrow(op0, final) && TypeOf(n0.prim).prec < final.prec
    requires 3 <= Eval(op0, env) < Pow2(final.prec - 1) && Eval(op0, env) % 2 == 1
    requires Convert(final, Eval(op0, env)) == Eval(op0, env)
    requires Convert(final, Eval(op1, env)) == Convert(final, Witness(code, n0))
    requires IsBitwise(code) || !final.uns
    requires Convert(Signed(TypeOf(n0.prim)), Eval(op0, env)) == -1
    requires Convert(Signed(TypeOf(n0.prim)), Eval(op1, env)) == Witness(code, n0)
    ensures Convert(final, InType(code, op0, op1, Signed(TypeOf(n0.prim)), env)) != InType(code, op0, op1, final, env)
  {
    hide Bitwise;
    WitnessTells(code, n0, Signed(TypeOf(n0.prim)), final, Eval(op0, env));
    if IsBitwise(code) {
      WideBitwise(code, op0, op1, final, Eval(op0, env), Witness(code, n0), env);
    } else {
      SmallConverts(final, Witness(code, n0));
    }
  }

  /** Both fail: what the operations with a negative partner then give. */
  lemma BothTell(code: BinOp, narrow: IntType, final: IntType, t0: nat, t1: nat, y: int)
    requires !narrow.uns && narrow.prec < t0 < final.prec && narrow.prec < t1 < final.prec
    requires y < 0 && (code.BitAnd? || (IsDivision(code) && !final.uns))
    requires if narrow.prec == 1 || !code.TruncMod? then y == -1 else y == -2
    requires code.TruncDiv? ==> narrow.prec == 1
    requires code.TruncMod? && narrow.prec == 1 ==> t0 % t1 != 0
    ensures Convert(final, Convert(narrow, OpValue(code, -1, y))) != Convert(final, OpValue(code, Pow2(t0) - 1, y + Pow2(t1)))
  {
    hide Pow2, Quotient, Remainder, Bitwise;
    AllOnes(t0, final.prec);
    AllOnes(t1, final.prec);
    var e0, e1 := Pow2(t0) - 1, y + Pow2(t1);
    if code.BitAnd? {
      UnitOf(BitAnd, -1);
      AndBounded(e0, e1, final.prec - 1);
      MinusOneTells(narrow, final, Bitwise(BitAnd, e0, e1));
    } else if code.TruncDiv? {
      QuotientOf(e0, e1);
      OneBitDivided(narrow, final, e0 / e1);
    } else {
      RemainderTells(narrow, final, t0, t1, y);
    }
  }

  lemma QuotientOf(a: nat, b: nat)
    requires b > 0
    ensures Quotient(-1, -1) == 1 && Quotient(a, b) == a / b && 0 <= a / b <= a
  {
    AbsQuotient(a, b);
  }

  lemma RemainderTells(narrow: IntType, final: IntType, t0: nat, t1: nat, y: int)
    requires !narrow.uns && !final.uns && narrow.prec < t0 < final.prec && narrow.prec < t1 < final.prec
    requires y == if narrow.prec == 1 then -1 else -2
    requires narrow.prec == 1 ==> t0 % t1 != 0
    ensures Convert(final, Convert(narrow, Remainder(-1, y))) != Convert(final, Remainder(Pow2(t0) - 1, y + Pow2(t1)))
  {
    hide Pow2, Remainder;
    AllOnes(t0, final.prec);
    AllOnes(t1, final.prec);
    var e0, e1 := Pow2(t0) - 1, y + Pow2(t1);
    RemainderOf(e0, e1);
    RemainderOf(-1, y);
    RemainderBelow(e0, e1);
    if narrow.prec > 1 {
      MinusOneTells(narrow, final, e0 % e1);
    } else {
      PowRemainder(t0, t1);
      PowTwoAtLeast(t0 % t1);
      ConvertFits(narrow, 0);
      ConvertFits(final, 0);
      ConvertFits(final, e0 % e1);
    }
  }

  lemma RemainderBelow(a: nat, b: nat)
    requires b > 0
    ensures 0 <= a % b <= a
  {
    if a < b {
      SmallRemainder(a, b);
    }
  }

  lemma OneBitDivided(narrow: IntType, final: IntType, q: nat)
    requires !final.uns && !narrow.uns && narrow.prec == 1 && q < Pow2(final.prec - 1)
    ensures Convert(final, Convert(narrow, 1)) != Convert(final, q)
  {
    assert Pow2(1) == 2 * Pow2(0);
    ConvertUnique(narrow, 1, -1, 1);
    ConvertFits(final, -1);
    ConvertFits(final, q);
  }

  /** A pair narrowed although an operand fails: both are taken as sign-extended, from one
      width, and a division is signed. */
  lemma NarrowedSigned(code: BinOp, op0: Expr, op1: Expr, final: IntType, origUnsigned: bool)
    requires Covers(final, TypeOf(op0)) && Covers(final, TypeOf(op1))
    requires var n0, n1 := Narrow(op0, final), Narrow(op1, final);
             && PairNarrowed(code, n0, n1, final, origUnsigned)
             && !(SC.KeepsExtension(n0, final) && SC.KeepsExtension(n1, final))
    ensures var n0, n1 := Narrow(op0, final), Narrow(op1, final);
            && !n0.uns && !n1.uns && TypeOf(n0.prim).prec == TypeOf(n1.prim).prec < final.prec
            && (IsBitwise(code) || !final.uns)
  {
    if !SC.KeepsExtension(Narrow(op0, final), final) {
      FailsSigned(op0, final);
    } else {
      FailsSigned(op1, final);
    }
  }

  ghost predicate Wrong(code: BinOp, op0: Expr, op1: Expr, final: IntType, env: Env) {
    Convert(final, InType(code, op0, op1, Signed(TypeOf(Narrow(op0, final).prim)), env)) != InType(code, op0, op1, final, env)
  }

  ghost predicate Taken(op0: Expr, op1: Expr, final: IntType) {
    && Folded(op0) && Folded(op1) && Covers(final, TypeOf(op0)) && Covers(final, TypeOf(op1))
    && Free(Narrow(op0, final).prim) && Free(Narrow(op1, final).prim)
    && !Narrow(op0, final).uns && !Narrow(op1, final).uns
    && TypeOf(Narrow(op0, final).prim).prec == TypeOf(Narrow(op1, final).prim).prec < final.prec
  }

  lemma FirstWrong(code: BinOp, op0: Expr, op1: Expr, final: IntType, env: Env)
    requires Taken(op0, op1, final) && (IsBitwise(code) || !final.uns)
    requires !SC.KeepsExtension(Narrow(op0, final), final)
    requires code.TruncMod? && TypeOf(Narrow(op0, final).prim).prec == 1 ==>
               !SC.KeepsExtension(Narrow(op1, final), final) && TypeOf(op0).prec % TypeOf(op1).prec != 0
    requires env(VarOf(Narrow(op0, final).prim)) == -1
    requires env(VarOf(Narrow(op1, final).prim)) == Partner(code, Narrow(op0, final))
    ensures Wrong(code, op0, op1, final, env) && (IsDivision(code) ==> Eval(op1, env) != 0)
  {
    hide Pow2, OpValue, Narrow, SC.KeepsExtension, Free;
    var n0, n1 := Narrow(op0, final), Narrow(op1, final);
    var y := Partner(code, n0);
    PartnerFits(code, n0);
    SignExtended(op0, final, env);
    AtValue(op1, final, y, env);
    NarrowOf(op0, final);
    NarrowOf(op1, final);
    ConvertZero(Signed(TypeOf(n1.prim)));
    if SC.KeepsExtension(n1, final) || y >= 0 {
      FirstTells(code, n0, op0, op1, final, env);
    } else {
      FailsSigned(op1, final);
      BothTell(code, Signed(TypeOf(n0.prim)), final, TypeOf(op0).prec, TypeOf(op1).prec, y);
    }
  }

  lemma ConvertZero(t: IntType)
    ensures Convert(t, 0) == 0
  {
    ConvertFits(t, 0);
  }

  /** Only the second operand of an and-not fails. */
  lemma AndNotWrong(op0: Expr, op1: Expr, final: IntType, env: Env)
    requires Taken(op0, op1, final)
    requires SC.KeepsExtension(Narrow(op0, final), final) && !SC.KeepsExtension(Narrow(op1, final), final)
    requires env(VarOf(Narrow(op0, final).prim)) == -1 && env(VarOf(Narrow(op1, final).prim)) == -1
    ensures Wrong(BitAndNot, op0, op1, final, env)
  {
    hide Pow2, Bitwise, Narrow, SC.KeepsExtension, Free;
    var r := Signed(TypeOf(Narrow(op0, final).prim));
    PartnerFits(BitAnd, Narrow(op0, final));
    AtValue(op0, final, -1, env);
    SignExtended(op1, final, env);
    UnitLeft(BitAndNot, -1);
    UnitLeft(BitAndNot, Eval(op1, env));
    WideBitwise(BitAndNot, op0, op1, final, -1, Eval(op1, env), env);
    ConvertFits(r, 0);
    ConvertFits(final, 0);
    NegativeStays(final, -1 - Eval(op1, env));
  }

  lemma NegativeStays(t: IntType, v: int)
    requires 0 - Pow2(t.prec - 1) <= v < 0
    ensures Convert(t, v) != 0
  {
    PowDoubles(t.prec - 1);
    if t.uns {
      AsUnsigned(t, v);
    } else {
      ConvertFits(t, v);
    }
  }

  /** A dividend that is never negative does not keep the sign extension it is taken to have. */
  lemma DividendFails(op0: Expr, final: IntType, env: Env)
    requires Covers(final, TypeOf(op0)) && !final.uns && Free(Narrow(op0, final).prim) && !Narrow(op0, final).uns
    requires TypeOf(Narrow(op0, final).prim).prec < final.prec
    requires env(VarOf(Narrow(op0, final).prim)) == -1 && Eval(op0, env) >= 0
    ensures !SC.KeepsExtension(Narrow(op0, final), final)
  {
    if SC.KeepsExtension(Narrow(op0, final), final) {
      PartnerFits(BitAnd, Narrow(op0, final));
      NarrowOk(op0, final, env);
      FreeExtended(Narrow(op0, final).prim, false, env);
      PowGrows(0, TypeOf(op0).prec - 1);
      ConvertFits(TypeOf(op0), -1);
      assert false;
    }
  }

  // Right.

  /** A remainder of sign bits: both sides are zero. */
  lemma SignBitRemainder(op0: Expr, op1: Expr, final: IntType, env: Env)
    requires Taken(op0, op1, final) && !final.uns && TypeOf(Narrow(op0, final).prim).prec == 1
    requires !SC.KeepsExtension(Narrow(op0, final), final)
    requires SC.KeepsExtension(Narrow(op1, final), final) || TypeOf(op0).prec % TypeOf(op1).prec == 0
    requires Eval(op1, env) != 0
    ensures Convert(final, InType(TruncMod, op0, op1, Signed(TypeOf(Narrow(op0, final).prim)), env)) == InType(TruncMod, op0, op1, final, env)
  {
    hide Pow2, Remainder, Narrow, SC.KeepsExtension, Free, InType, Folded;
    var r := Signed(TypeOf(Narrow(op0, final).prim));
    SignBit(op0, final, env);
    SignBit(op1, final, env);
    RemainderByMinusOne(Convert(r, Eval(op0, env)));
    if SC.KeepsExtension(Narrow(op1, final), final) {
      SmallConverts(final, -1);
      RemainderByMinusOne(Convert(final, Eval(op0, env)));
    } else {
      FailsSigned(op0, final);
      FailsSigned(op1, final);
      NarrowOf(op0, final);
      NarrowOf(op1, final);
      SignBitsDivide(op0, op1, final, env);
    }
    BothZero(op0, op1, r, final, env);
  }

  lemma BothZero(op0: Expr, op1: Expr, r: IntType, final: IntType, env: Env)
    requires Remainder(Convert(r, Eval(op0, env)), Convert(r, Eval(op1, env))) == 0
    requires Remainder(Convert(final, Eval(op0, env)), Convert(final, Eval(op1, env))) == 0
    ensures Convert(final, InType(TruncMod, op0, op1, r, env)) == InType(TruncMod, op0, op1, final, env)
  {
    hide Remainder;
    ConvertZero(r);
    ConvertZero(final);
  }

  /** An operand whose narrow form is one sign bit: zero, or all bits set. */
  lemma SignBit(op: Expr, final: IntType, env: Env)
    requires Folded(op) && Covers(final, TypeOf(op)) && !Narrow(op, final).uns && TypeOf(Narrow(op, final).prim).prec == 1 < final.prec
    ensures Eval(op, env) == 0 || Convert(Signed(TypeOf(Narrow(op, final).prim)), Eval(op, env)) == -1
    ensures SC.KeepsExtension(Narrow(op, final), final) && Eval(op, env) != 0 ==> Convert(final, Eval(op, env)) == Convert(final, -1)
    ensures !SC.KeepsExtension(Narrow(op, final), final) ==>
              Convert(final, Eval(op, env)) == Eval(op, env) && (Eval(op, env) == 0 || Eval(op, env) == Pow2(TypeOf(op).prec) - 1)
  {
    var n, t := Narrow(op, final), TypeOf(op);
    var x := Extended(n.prim, false, env);
    NarrowOk(op, final, env);
    assert Pow2(0) == 1 && -1 <= x <= 0;
    ConvertZero(t);
    ConvertThrough(Signed(TypeOf(n.prim)), t, x);
    ConvertFits(Signed(TypeOf(n.prim)), x);
    if SC.KeepsExtension(n, final) {
      SC.KeepsExtensionIsEnough(n, final, env);
    } else {
      FailsSigned(op, final);
      PowTwoAtLeast(t.prec);
      AsUnsigned(t, x);
      FitsWider(t, final, Eval(op, env));
      ConvertFits(final, Eval(op, env));
    }
  }

  lemma SignBitsDivide(op0: Expr, op1: Expr, final: IntType, env: Env)
    requires TypeOf(op1).prec >= 2 && TypeOf(op0).prec % TypeOf(op1).prec == 0
    requires Eval(op1, env) == Pow2(TypeOf(op1).prec) - 1
    requires Eval(op0, env) == 0 || Eval(op0, env) == Pow2(TypeOf(op0).prec) - 1
    ensures Remainder(Eval(op0, env), Eval(op1, env)) == 0
  {
    var e1 := Eval(op1, env);
    PowTwoAtLeast(TypeOf(op1).prec);
    RemainderOf(Eval(op0, env), e1);
    if Eval(op0, env) == 0 {
      SmallRemainder(0, e1);
    } else {
      PowRemainder(TypeOf(op0).prec, TypeOf(op1).prec);
    }
  }

  // Main result.

  lemma PairRight(code: BinOp, op0: Expr, op1: Expr, final: IntType, origUnsigned: bool, env: Env)
    requires Folded(op0) && Folded(op1) && Covers(final, TypeOf(op0)) && Covers(final, TypeOf(op1))
    requires Free(Narrow(op0, final).prim) && Free(Narrow(op1, final).prim)
    requires PairNeverWrong(code, Narrow(op0, final), Narrow(op1, final), final, origUnsigned)
    requires ResultType(code, op0, op1, origUnsigned, final)
             == if PairNarrowed(code, Narrow(op0, final), Narrow(op1, final), final, origUnsigned)
                then WithSign(Narrow(op0, final).uns, TypeOf(Narrow(op0, final).prim)) else final
    requires (origUnsigned ==> Eval(op0, env) >= 0) && (IsDivision(code) ==> Eval(op1, env) != 0)
    requires code.TruncMod? && !SC.KeepsExtension(Narrow(op1, final), final) ==>
               SC.KeepsExtension(Narrow(op0, final), final) ==> !PairNarrowed(code, Narrow(op0, final), Narrow(op1, final), final, origUnsigned)
    ensures InChosen(code, op0, op1, origUnsigned, final, env) == InType(code, op0, op1, final, env)
  {
    hide InType, Narrow, SC.KeepsExtension, Free, BothVariable, ResultType;
    var n0, n1 := Narrow(op0, final), Narrow(op1, final);
    NarrowOf(op0, final);
    NarrowOf(op1, final);
    if !PairNarrowed(code, n0, n1, final, origUnsigned) {
      ChosenFinal(code, op0, op1, origUnsigned, final, env);
    } else if SC.KeepsExtension(n0, final) && SC.KeepsExtension(n1, final) {
      OpPreserved(code, op0, op1, origUnsigned, final, env);
    } else {
      NarrowedSigned(code, op0, op1, final, origUnsigned);
      SignBitRemainder(op0, op1, final, env);
    }
  }

  lemma ChosenFinal(code: BinOp, op0: Expr, op1: Expr, origUnsigned: bool, final: IntType, env: Env)
    requires ResultType(code, op0, op1, origUnsigned, final) == final
    ensures InChosen(code, op0, op1, origUnsigned, final, env) == InType(code, op0, op1, final, env)
  {
    ConvertFits(final, InType(code, op0, op1, final, env));
  }

  /** Values of the two variables that show the fault. */
  lemma PairWrong(code: BinOp, op0: Expr, op1: Expr, final: IntType, origUnsigned: bool) returns (env: Env)
    requires Folded(op0) && Folded(op1) && Covers(final, TypeOf(op0)) && Covers(final, TypeOf(op1))
    requires Free(Narrow(op0, final).prim) && Free(Narrow(op1, final).prim)
    requires VarOf(Narrow(op0, final).prim) != VarOf(Narrow(op1, final).prim)
    requires !PairNeverWrong(code, Narrow(op0, final), Narrow(op1, final), final, origUnsigned)
    requires origUnsigned ==> forall env: Env :: Eval(op0, env) >= 0
    ensures Wrong(code, op0, op1, final, env) && (IsDivision(code) ==> Eval(op1, env) != 0)
  {
    hide InType, Narrow, SC.KeepsExtension, Free, BothVariable, Wrong, Eval;
    var n0, n1 := Narrow(op0, final), Narrow(op1, final);
    NarrowOf(op0, final);
    NarrowOf(op1, final);
    NarrowedSigned(code, op0, op1, final, origUnsigned);
    env := id => -1;
    if IsDivision(code) {
      DividendFails(op0, final, env);
    }
    if !SC.KeepsExtension(n0, final) {
      env := id => if id == VarOf(n0.prim) then -1 else Partner(code, n0);
      FirstWrong(code, op0, op1, final, env);
    } else if code.BitAndNot? {
      AndNotWrong(op0, op1, final, env);
    } else {
      env := id => if id == VarOf(n1.prim) then -1 else Partner(code, n1);
      FirstWrong(code, op1, op0, final, env);
      WrongCommutes(code, op0, op1, final, env);
    }
  }

  lemma WrongCommutes(code: BinOp, op0: Expr, op1: Expr, final: IntType, env: Env)
    requires !code.BitAndNot? && !IsDivision(code) && TypeOf(Narrow(op0, final).prim).prec == TypeOf(Narrow(op1, final).prim).prec
    ensures Wrong(code, op0, op1, final, env) <==> Wrong(code, op1, op0, final, env)
  {
    hide InType;
    OpCommutes(code, op0, op1, final, env);
    OpCommutes(code, op0, op1, Signed(TypeOf(Narrow(op0, final).prim)), env);
  }

  /** Exactly when the shortening of `op0 code op1` is right for all values of two distinct
      variables, no divisor being zero. */
  lemma PairExactly(code: BinOp, op0: Expr, op1: Expr, origUnsigned: bool)
    requires Folded(op0) && Folded(op1)
    requires var final := SC.CommonType(TypeOf(op0), TypeOf(op1));
             var p0, p1 := Narrow(op0, final).prim, Narrow(op1, final).prim;
             Free(p0) && Free(p1) && VarOf(p0) != VarOf(p1)
    requires origUnsigned ==> forall env: Env :: Eval(op0, env) >= 0
    ensures var final := SC.CommonType(TypeOf(op0), TypeOf(op1));
            PairNeverWrong(code, Narrow(op0, final), Narrow(op1, final), final, origUnsigned) <==>
            forall env: Env :: (IsDivision(code) ==> Eval(op1, env) != 0) ==>
              Shortened(code, op0, op1, origUnsigned, env) == InType(code, op0, op1, final, env)
  {
    hide InType, Shortened, InChosen, Narrow, SC.KeepsExtension, SC.CommonType, Free, PairNarrowed, PairNeverWrong, ResultType, Eval, Wrong;
    var final := SC.CommonType(TypeOf(op0), TypeOf(op1));
    if PairNeverWrong(code, Narrow(op0, final), Narrow(op1, final), final, origUnsigned) {
      forall env: Env | IsDivision(code) ==> Eval(op1, env) != 0
        ensures Shortened(code, op0, op1, origUnsigned, env) == InType(code, op0, op1, final, env) {
        VariablesOnly(code, op0, op1, origUnsigned, env);
        DividendKept(code, op0, op1, final, origUnsigned);
        PairRight(code, op0, op1, final, origUnsigned, env);
      }
    } else {
      VariablesOnly(code, op0, op1, origUnsigned, _ => 0);
      var env := PairWrong(code, op0, op1, final, origUnsigned);
      VariablesOnly(code, op0, op1, origUnsigned, env);
      WrongChosen(code, op0, op1, final, origUnsigned, env);
    }
  }

  lemma DividendKept(code: BinOp, op0: Expr, op1: Expr, final: IntType, origUnsigned: bool)
    requires Covers(final, TypeOf(op0)) && Covers(final, TypeOf(op1)) && Free(Narrow(op0, final).prim)
    requires origUnsigned ==> forall env: Env :: Eval(op0, env) >= 0
    ensures code.TruncMod? && !SC.KeepsExtension(Narrow(op1, final), final) ==>
              SC.KeepsExtension(Narrow(op0, final), final) ==>
              !PairNarrowed(code, Narrow(op0, final), Narrow(op1, final), final, origUnsigned)
  {
    hide SC.KeepsExtension, Free, Eval;
    if code.TruncMod? && !SC.KeepsExtension(Narrow(op1, final), final)
       && PairNarrowed(code, Narrow(op0, final), Narrow(op1, final), final, origUnsigned) {
      NarrowedSigned(code, op0, op1, final, origUnsigned);
      DividendFails(op0, final, _ => -1);
    }
  }

  lemma WrongChosen(code: BinOp, op0: Expr, op1: Expr, final: IntType, origUnsigned: bool, env: Env)
    requires Wrong(code, op0, op1, final, env) && Covers(final, TypeOf(op0)) && Covers(final, TypeOf(op1))
    requires !PairNeverWrong(code, Narrow(op0, final), Narrow(op1, final), final, origUnsigned)
    requires ResultType(code, op0, op1, origUnsigned, final)
             == if PairNarrowed(code, Narrow(op0, final), Narrow(op1, final), final, origUnsigned)
                then WithSign(Narrow(op0, final).uns, TypeOf(Narrow(op0, final).prim)) else final
    ensures InChosen(code, op0, op1, origUnsigned, final, env) != InType(code, op0, op1, final, env)
  {
    hide InType, ResultType, BothVariable, SC.KeepsExtension;
    NarrowedSigned(code, op0, op1, final, origUnsigned);
  }

  /** `(unsigned) sc & (unsigned long long) sd` with both -1: 0xFFFFFFFF, but computed as
      all ones, since both are taken as sign-extended from char. */
  lemma WrongAnd()
    ensures var op0 := Conv(Width(32, true), Var(0, Width(8, false), false));
            var op1 := Conv(Width(64, true), Var(1, Width(8, false), false));
            && Shortened(BitAnd, op0, op1, false, (_ => -1)) == 0xFFFF_FFFF_FFFF_FFFF
            && InType(BitAnd, op0, op1, Width(64, true), (_ => -1)) == 0xFFFF_FFFF
  {
    hide Pow2, Bitwise;
    var u64: IntType, s8: IntType := Width(64, true), Width(8, false);
    var op0 := Conv(Width(32, true), Var(0, s8, false));
    var op1 := Conv(u64, Var(1, s8, false));
    PowersUsed();
    ConvertFits(s8, -1);
    AsUnsigned(Width(32, true), -1);
    AsUnsigned(u64, -1);
    ConvertThrough(s8, Width(32, true), -1);
    ConvertThrough(s8, u64, -1);
    ConvertFits(u64, 0xFFFF_FFFF);
    UnitOf(BitAnd, -1);
    UnitOf(BitAnd, 0xFFFF_FFFF);
    WideBitwise(BitAnd, op0, op1, u64, 0xFFFF_FFFF, -1, _ => -1);
    VariablesOnly(BitAnd, op0, op1, false, _ => -1);
  }
}
