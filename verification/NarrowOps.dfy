/** Doing a binary integer operation in a narrower type and extending the result. */
module NarrowOps {
  import opened IntTypes
  import opened Exprs
  import opened Arith
  import SC = ShortenCompare

  type Operand = SC.Operand

  datatype BinOp = BitAnd | BitAndNot | BitOr | BitXor | Min | Max | TruncDiv | TruncMod

  predicate IsBitwise(op: BinOp) {
    op.BitAnd? || op.BitAndNot? || op.BitOr? || op.BitXor?
  }

  predicate IsDivision(op: BinOp) {
    op.TruncDiv? || op.TruncMod?
  }

  // Exact values of the operations, on integers.

  predicate OnBits(op: BinOp, a: bool, b: bool)
    requires IsBitwise(op)
  {
    match op
    case BitAnd => a && b
    case BitAndNot => a && !b
    case BitOr => a || b
    case BitXor => a != b
    case _ => false
  }

  function Bit(b: bool): int { if b then 1 else 0 }

  function Abs(a: int): nat { if a < 0 then -a else a }

  /** Two's complement with unlimited sign bits. */
  function Bitwise(op: BinOp, a: int, b: int): int
    requires IsBitwise(op)
    decreases Abs(a) + Abs(b) + Bit(a < -1) + Bit(b < -1)
  {
    if -1 <= a <= 0 && -1 <= b <= 0 then -Bit(OnBits(op, a < 0, b < 0))
    else Bit(OnBits(op, a % 2 == 1, b % 2 == 1)) + 2 * Bitwise(op, a / 2, b / 2)
  }

  /** Division truncating toward zero; x / 0 is not used. */
  function Quotient(a: int, b: int): int {
    if b == 0 then 0
    else if (a < 0) == (b < 0) then Abs(a) / Abs(b)
    else -(Abs(a) / Abs(b))
  }

  function Remainder(a: int, b: int): int {
    a - Quotient(a, b) * b
  }

  function OpValue(op: BinOp, a: int, b: int): int {
    match op
    case Min => if a < b then a else b
    case Max => if a > b then a else b
    case TruncDiv => Quotient(a, b)
    case TruncMod => Remainder(a, b)
    case _ => Bitwise(op, a, b)
  }

  // The choice of type.

  /** For a bitwise operation with a constant, an operand zero-extended by its outermost
      conversion is taken without it. */
  function Unextended(op: BinOp, e: Expr, other: Expr): Expr {
    if IsBitwise(op) && other.Cst? && e.Conv? && e.to.prec > TypeOf(e.arg).prec && TypeOf(e.arg).uns then e.arg
    else e
  }

  /** The narrow form and how it extends; a flag that does not come from a widening is the
      operand's own unless the operand has the final type. */
  function Narrow(op: Expr, final: IntType): Operand {
    var n := GetNarrower(op);
    var same := TypeOf(op).prec == TypeOf(n.win).prec && TypeOf(op) != final;
    SC.Operand(op, n.win, if same then TypeOf(op).uns else n.uns)
  }

  /** Whether the operation may be shortened: division not if it might divide by -1,
      unless the dividend was unsigned before promotion. */
  predicate MayShorten(op: BinOp, op1: Expr, origUnsigned: bool) {
    !IsDivision(op) || origUnsigned || (op1.Cst? && op1.value != -1)
  }

  /** result_type after the narrowing step. */
  function ChosenType(op: BinOp, n0: Operand, n1: Operand, final: IntType): IntType {
    var uns := if IsBitwise(op) then n0.uns else final.uns;
    var t0, t1 := TypeOf(n0.prim), TypeOf(n1.prim);
    if t0.prec < final.prec && t1.prec == t0.prec && n0.uns == n1.uns && (n0.uns || !uns) then
      WithSign(n0.uns, SC.CommonType(t0, t1))
    else if n0.prim.Cst? && (n1.uns || !uns) && t1.prec < final.prec && Fits(WithSign(n1.uns, t1), n0.prim.value) then
      WithSign(n1.uns, t1)
    else if n1.prim.Cst? && (n0.uns || !uns) && t0.prec < final.prec && Fits(WithSign(n0.uns, t0), n1.prim.value) then
      WithSign(n0.uns, t0)
    else final
  }

  function ResultType(op: BinOp, op0: Expr, op1: Expr, origUnsigned: bool, final: IntType): IntType {
    if MayShorten(op, op1, origUnsigned) then ChosenType(op, Narrow(op0, final), Narrow(op1, final), final)
    else final
  }

  /** The operation in type t on operands converted to t. */
  ghost function InType(op: BinOp, op0: Expr, op1: Expr, t: IntType, env: Env): int {
    Convert(t, OpValue(op, Convert(t, Eval(op0, env)), Convert(t, Eval(op1, env))))
  }

  // Bitwise operations.

  lemma BitwiseStep(op: BinOp, a: int, b: int)
    requires IsBitwise(op)
    ensures Bitwise(op, a, b) == Bit(OnBits(op, a % 2 == 1, b % 2 == 1)) + 2 * Bitwise(op, a / 2, b / 2)
  {
  }

  lemma HalfShift(a: int, q: int, m: nat)
    ensures (a + Multiple(q, 2 * m)) / 2 == a / 2 + Multiple(q, m)
    ensures (a + Multiple(q, 2 * m)) % 2 == a % 2
  {
  }

  lemma DoubledDifference(bit: int, h: int, h': int, r: int, m: nat)
    requires h' == h + Multiple(r, m)
    ensures bit + 2 * h' == (bit + 2 * h) + Multiple(r, 2 * m)
  {
  }

  lemma LocalStep(op: BinOp, a: int, b: int, a': int, b': int, r: int, m: nat)
    requires IsBitwise(op) && a % 2 == a' % 2 && b % 2 == b' % 2
    requires Bitwise(op, a' / 2, b' / 2) == Bitwise(op, a / 2, b / 2) + Multiple(r, m)
    ensures Bitwise(op, a', b') == Bitwise(op, a, b) + Multiple(r, 2 * m)
  {
    BitwiseStep(op, a, b);
    BitwiseStep(op, a', b');
    DoubledDifference(Bit(OnBits(op, a % 2 == 1, b % 2 == 1)), Bitwise(op, a / 2, b / 2), Bitwise(op, a' / 2, b' / 2), r, m);
  }

  /** The low n bits of the result depend on the low n bits of the operands only. */
  lemma {:induction false} BitwiseLocal(op: BinOp, a: int, b: int, p: int, q: int, n: nat, m2: nat) returns (r: int)
    requires IsBitwise(op) && m2 == Pow2(n)
    ensures Bitwise(op, a + Multiple(p, m2), b + Multiple(q, m2)) == Bitwise(op, a, b) + Multiple(r, m2)
    decreases n
  {
    hide Bitwise;
    if n == 0 {
      r := BitwiseDifference(op, a, b, a + Multiple(p, 1), b + Multiple(q, 1));
    } else {
      var m := Pow2(n - 1);
      HalfShift(a, p, m);
      HalfShift(b, q, m);
      r := BitwiseLocal(op, a / 2, b / 2, p, q, n - 1, m);
      LocalStep(op, a, b, a + Multiple(p, 2 * m), b + Multiple(q, 2 * m), r, m);
    }
  }

  lemma BitwiseDifference(op: BinOp, a: int, b: int, a': int, b': int) returns (r: int)
    requires IsBitwise(op)
    ensures Bitwise(op, a', b') == Bitwise(op, a, b) + Multiple(r, 1)
  {
    r := Bitwise(op, a', b') - Bitwise(op, a, b);
  }

  /** Signed operands of n + 1 bits give a signed result of n + 1 bits. */
  lemma {:induction false} BitwiseSigned(op: BinOp, a: int, b: int, n: nat)
    requires IsBitwise(op) && 0 - Pow2(n) <= a < Pow2(n) && 0 - Pow2(n) <= b < Pow2(n)
    ensures 0 - Pow2(n) <= Bitwise(op, a, b) < Pow2(n)
    decreases n
  {
    if n > 0 {
      BitwiseSigned(op, a / 2, b / 2, n - 1);
      BitwiseStep(op, a, b);
    }
  }

  lemma {:induction false} BitwiseUnsigned(op: BinOp, a: int, b: int, n: nat)
    requires IsBitwise(op) && 0 <= a < Pow2(n) && 0 <= b < Pow2(n)
    ensures 0 <= Bitwise(op, a, b) < Pow2(n)
    decreases n
  {
    if n > 0 {
      BitwiseUnsigned(op, a / 2, b / 2, n - 1);
      BitwiseStep(op, a, b);
    }
  }

  lemma BitwiseFits(op: BinOp, t: IntType, a: int, b: int)
    requires IsBitwise(op) && Fits(t, a) && Fits(t, b)
    ensures Fits(t, Bitwise(op, a, b))
  {
    if t.uns {
      BitwiseUnsigned(op, a, b, t.prec);
    } else {
      BitwiseSigned(op, a, b, t.prec - 1);
    }
  }

  /** Converting the operands first does not change the converted result. */
  lemma BitwiseConverts(op: BinOp, t: IntType, a: int, b: int)
    requires IsBitwise(op)
    ensures Convert(t, Bitwise(op, Convert(t, a), Convert(t, b))) == Convert(t, Bitwise(op, a, b))
  {
    var p := ConvertMultiple(t, a);
    var q := ConvertMultiple(t, b);
    var r := BitwiseLocal(op, Convert(t, a), Convert(t, b), p, q, t.prec, Pow2(t.prec));
    CongruentConvert(t, Bitwise(op, a, b), Bitwise(op, Convert(t, a), Convert(t, b)), r);
  }

  lemma CongruentConvert(t: IntType, v: int, w: int, r: int)
    requires v == w + Multiple(r, Pow2(t.prec))
    ensures Convert(t, v) == Convert(t, w)
  {
    var q := ConvertMultiple(t, w);
    MultipleDifference(r, -q, Pow2(t.prec));
    assert Multiple(-q, Pow2(t.prec)) == -Multiple(q, Pow2(t.prec));
    ConvertUnique(t, v, Convert(t, w), r + q);
  }

  // What the operations mean.

  /** Bit i of a number in two's complement with unlimited sign bits. */
  predicate BitOf(v: int, i: nat) { v / Pow2(i) % 2 == 1 }

  lemma BitAbove(v: int, i: nat)
    requires i > 0
    ensures BitOf(v, i) == BitOf(v / 2, i - 1)
  {
    QuotientTwice(v, 2, Pow2(i - 1));
  }

  lemma BitBelow(v: int)
    ensures BitOf(v, 0) <==> v % 2 == 1
  {
    assert Pow2(0) == 1;
  }

  lemma {:induction false} BitwiseAt(op: BinOp, a: int, b: int, i: nat)
    requires IsBitwise(op)
    ensures BitOf(Bitwise(op, a, b), i) <==> OnBits(op, BitOf(a, i), BitOf(b, i))
    decreases i
  {
    hide BitOf;
    BitwiseStep(op, a, b);
    if i == 0 {
      BitBelow(a);
      BitBelow(b);
      BitBelow(Bitwise(op, a, b));
    } else {
      BitAbove(a, i);
      BitAbove(b, i);
      BitAbove(Bitwise(op, a, b), i);
      BitwiseAt(op, a / 2, b / 2, i - 1);
    }
  }

  /** Every bit of a result, sign bits included, is what the operator says of the bits. */
  lemma BitwiseBits(a: int, b: int, i: nat)
    ensures BitOf(OpValue(BitAnd, a, b), i) <==> BitOf(a, i) && BitOf(b, i)
    ensures BitOf(OpValue(BitAndNot, a, b), i) <==> BitOf(a, i) && !BitOf(b, i)
    ensures BitOf(OpValue(BitOr, a, b), i) <==> BitOf(a, i) || BitOf(b, i)
    ensures BitOf(OpValue(BitXor, a, b), i) <==> (BitOf(a, i) <==> !BitOf(b, i))
  {
    hide BitOf;
    BitwiseAt(BitAnd, a, b, i);
    BitwiseAt(BitAndNot, a, b, i);
    BitwiseAt(BitOr, a, b, i);
    BitwiseAt(BitXor, a, b, i);
  }

  /** So the four add up. */
  lemma {:induction false} BitwiseSums(a: int, b: int)
    ensures OpValue(BitOr, a, b) + OpValue(BitAnd, a, b) == a + b
    ensures OpValue(BitXor, a, b) + 2 * OpValue(BitAnd, a, b) == a + b
    ensures OpValue(BitAndNot, a, b) + OpValue(BitAnd, a, b) == a
    decreases Abs(a) + Abs(b) + Bit(a < -1) + Bit(b < -1)
  {
    if -1 <= a <= 0 && -1 <= b <= 0 {
      SumsOfSigns(a, b);
    } else {
      BitwiseSums(a / 2, b / 2);
      SumsStep(a, b);
    }
  }

  lemma SumsOfSigns(a: int, b: int)
    requires -1 <= a <= 0 && -1 <= b <= 0
    ensures Bitwise(BitOr, a, b) + Bitwise(BitAnd, a, b) == a + b
    ensures Bitwise(BitXor, a, b) + 2 * Bitwise(BitAnd, a, b) == a + b
    ensures Bitwise(BitAndNot, a, b) + Bitwise(BitAnd, a, b) == a
  {
  }

  lemma SumsStep(a: int, b: int)
    requires Bitwise(BitOr, a / 2, b / 2) + Bitwise(BitAnd, a / 2, b / 2) == a / 2 + b / 2
    requires Bitwise(BitXor, a / 2, b / 2) + 2 * Bitwise(BitAnd, a / 2, b / 2) == a / 2 + b / 2
    requires Bitwise(BitAndNot, a / 2, b / 2) + Bitwise(BitAnd, a / 2, b / 2) == a / 2
    ensures Bitwise(BitOr, a, b) + Bitwise(BitAnd, a, b) == a + b
    ensures Bitwise(BitXor, a, b) + 2 * Bitwise(BitAnd, a, b) == a + b
    ensures Bitwise(BitAndNot, a, b) + Bitwise(BitAnd, a, b) == a
  {
    hide Bitwise;
    BitwiseStep(BitAnd, a, b);
    BitwiseStep(BitAndNot, a, b);
    BitwiseStep(BitOr, a, b);
    BitwiseStep(BitXor, a, b);
  }

  /** Quotients are truncated toward zero, and remainders have the dividend's sign. */
  lemma QuotientTruncates(a: int, b: int)
    requires b != 0
    ensures var q, r := OpValue(TruncDiv, a, b), OpValue(TruncMod, a, b);
            && a == q * b + r && Abs(r) < Abs(b) && (r > 0 ==> a > 0) && (r < 0 ==> a < 0)
  {
    RemainderOf(a, b);
  }

  lemma LeastAndGreatest(a: int, b: int)
    ensures OpValue(Min, a, b) <= a <= OpValue(Max, a, b) && OpValue(Min, a, b) <= b <= OpValue(Max, a, b)
    ensures OpValue(Min, a, b) in [a, b] && OpValue(Max, a, b) in [a, b]
  {
  }

  /** A shifted value's bits are those of the value from k up. */
  lemma ShiftRightBits(v: int, k: nat, i: nat)
    ensures BitOf(ShiftRight(v, k), i) <==> BitOf(v, i + k)
  {
    QuotientTwice(v, Pow2(k), Pow2(i));
    PowSum(k, i);
  }

  // The narrow operation and the wide one.

  lemma NarrowOk(op: Expr, final: IntType, env: Env)
    ensures var n := Narrow(op, final);
            && SC.Strips(n, env) && (Folded(op) ==> Folded(n.prim))
            && (Folded(op) && n.prim.Cst? ==> n.prim == op)
  {
    GetNarrowerOk(op, env);
    var n, g, t := Narrow(op, final), GetNarrower(op), TypeOf(op);
    if n.uns != g.uns {
      ConvertThrough(t, WithSign(g.uns, TypeOf(g.win)), Eval(g.win, env));
      ConvertFits(t, Extended(n.prim, n.uns, env));
    }
  }

  /** x is what an operand of value v stands for in the narrow type: it has v's low bits
      and extends to v. */
  ghost predicate Represents(x: int, narrow: IntType, v: int, final: IntType) {
    Fits(narrow, x) && Convert(narrow, v) == x && Convert(final, v) == Convert(final, x)
  }

  lemma VariableRepresented(n: Operand, final: IntType, env: Env)
    requires SC.Strips(n, env) && SC.Faithful(n, final, env)
    ensures Represents(Extended(n.prim, n.uns, env), WithSign(n.uns, TypeOf(n.prim)), Eval(n.op, env), final)
  {
    var r, x := WithSign(n.uns, TypeOf(n.prim)), Extended(n.prim, n.uns, env);
    ConvertThrough(r, TypeOf(n.op), x);
    ConvertFits(r, x);
  }

  lemma ConstantRepresented(k: Expr, narrow: IntType, final: IntType, env: Env)
    requires k.Cst? && Folded(k) && Fits(narrow, k.value)
    ensures Represents(k.value, narrow, Eval(k, env), final)
  {
    ConvertFits(k.cty, k.value);
    ConvertFits(narrow, k.value);
  }

  lemma QuotientFits(t: IntType, a: int, b: int)
    requires Fits(t, a) && Fits(t, b) && (t.uns || b != -1 || a != MinOf(t))
    ensures Fits(t, Quotient(a, b))
  {
    if b != 0 {
      AbsQuotient(Abs(a), Abs(b));
    }
  }

  lemma RemainderFits(t: IntType, a: int, b: int)
    requires Fits(t, a) && Fits(t, b)
    ensures Fits(t, Remainder(a, b))
  {
    if b != 0 {
      RemainderOf(a, b);
    }
  }

  lemma RemainderOf(a: int, b: int)
    requires b != 0
    ensures Remainder(a, b) == if a < 0 then -(Abs(a) % Abs(b)) else Abs(a) % Abs(b)
  {
  }

  /** Only the least value divided by -1 leaves a type. */
  lemma OpFits(op: BinOp, t: IntType, a: int, b: int)
    requires Fits(t, a) && Fits(t, b)
    requires op == TruncDiv ==> t.uns || b != -1 || a != MinOf(t)
    ensures Fits(t, OpValue(op, a, b))
  {
    match op
    case TruncDiv => QuotientFits(t, a, b);
    case TruncMod => RemainderFits(t, a, b);
    case Min =>
    case Max =>
    case _ => BitwiseFits(op, t, a, b);
  }

  /** From representations of the operands, the narrow operation extends to the wide one. */
  lemma OpExtends(op: BinOp, narrow: IntType, final: IntType, v: int, w: int, x: int, y: int)
    requires Represents(x, narrow, v, final) && Represents(y, narrow, w, final)
    requires narrow.prec < final.prec && (IsBitwise(op) || narrow.uns || !final.uns)
    requires op == TruncDiv ==> narrow.uns || y != -1 || x != MinOf(narrow)
    ensures Convert(final, Convert(narrow, OpValue(op, Convert(narrow, v), Convert(narrow, w))))
            == Convert(final, OpValue(op, Convert(final, v), Convert(final, w)))
  {
    OpFits(op, narrow, x, y);
    ConvertFits(narrow, OpValue(op, x, y));
    if IsBitwise(op) {
      BitwiseConverts(op, final, x, y);
    } else {
      FitsWider(narrow, final, x);
      FitsWider(narrow, final, y);
      ConvertFits(final, x);
      ConvertFits(final, y);
    }
  }

  // The three ways ChosenType narrows.

  predicate BothVariable(op: BinOp, n0: Operand, n1: Operand, final: IntType) {
    var uns := if IsBitwise(op) then n0.uns else final.uns;
    var t0, t1 := TypeOf(n0.prim), TypeOf(n1.prim);
    t0.prec < final.prec && t1.prec == t0.prec && n0.uns == n1.uns && (n0.uns || !uns)
  }

  predicate ConstantWith(op: BinOp, k: Expr, n: Operand, final: IntType) {
    && k.Cst? && TypeOf(n.prim).prec < final.prec && Fits(WithSign(n.uns, TypeOf(n.prim)), k.value)
    && (IsBitwise(op) || n.uns || !final.uns)
  }

  lemma WaysToNarrow(op: BinOp, n0: Operand, n1: Operand, final: IntType)
    ensures var r := ChosenType(op, n0, n1, final);
            || r == final
            || (BothVariable(op, n0, n1, final) && r == WithSign(n0.uns, TypeOf(n0.prim)) == WithSign(n1.uns, TypeOf(n1.prim)))
            || (ConstantWith(op, n0.prim, n1, final) && r == WithSign(n1.uns, TypeOf(n1.prim)))
            || (ConstantWith(op, n1.prim, n0, final) && r == WithSign(n0.uns, TypeOf(n0.prim)))
  {
  }

  /** An operand's type is no wider than the final one, and its values are not unsigned
      ones a signed final type cannot hold: what common_type guarantees. */
  predicate Covers(final: IntType, t: IntType) {
    t.prec < final.prec || (t.prec == final.prec && (t.uns ==> final.uns))
  }

  lemma CommonTypeCovers(a: IntType, b: IntType)
    ensures Covers(SC.CommonType(a, b), a) && Covers(SC.CommonType(a, b), b)
  {
  }

  ghost predicate Narrowable(n: Operand, final: IntType, env: Env) {
    && SC.Strips(n, env) && TypeOf(n.op).prec <= final.prec && SC.KeepsExtension(n, final)
    && Folded(n.prim) && (n.prim.Cst? ==> n.op == n.prim)
  }

  /** Each operand is represented in the chosen type. */
  lemma OperandRepresented(n: Operand, narrow: IntType, final: IntType, env: Env)
    requires Narrowable(n, final, env)
    requires narrow == WithSign(n.uns, TypeOf(n.prim)) || (n.prim.Cst? && Fits(narrow, n.prim.value))
    ensures Represents(Convert(narrow, Eval(n.op, env)), narrow, Eval(n.op, env), final)
  {
    if narrow == WithSign(n.uns, TypeOf(n.prim)) {
      SC.KeepsExtensionIsEnough(n, final, env);
      VariableRepresented(n, final, env);
    } else {
      ConstantRepresented(n.prim, narrow, final, env);
    }
  }

  /** A nonnegative dividend stays so in the chosen type; a constant divisor is itself. */
  lemma NoOverflow(op0: Expr, op1: Expr, narrow: IntType, final: IntType, origUnsigned: bool, env: Env)
    requires Folded(op1) && Covers(final, TypeOf(op0)) && narrow.prec < final.prec && (narrow.uns || !final.uns)
    requires MayShorten(TruncDiv, op1, origUnsigned) && (origUnsigned ==> Eval(op0, env) >= 0)
    requires Represents(Convert(narrow, Eval(op0, env)), narrow, Eval(op0, env), final)
    requires Represents(Convert(narrow, Eval(op1, env)), narrow, Eval(op1, env), final)
    requires Covers(final, TypeOf(op1))
    ensures narrow.uns || Convert(narrow, Eval(op1, env)) != -1 || Convert(narrow, Eval(op0, env)) != MinOf(narrow)
  {
    if !narrow.uns {
      if origUnsigned {
        Unrepresented(op0, narrow, final, env);
      } else {
        Unrepresented(op1, narrow, final, env);
        ConvertFits(op1.cty, op1.value);
      }
    }
  }

  /** In a signed final type, representing an operand means having its value. */
  lemma Unrepresented(op: Expr, narrow: IntType, final: IntType, env: Env)
    requires !narrow.uns && !final.uns && narrow.prec < final.prec && Covers(final, TypeOf(op))
    requires Represents(Convert(narrow, Eval(op, env)), narrow, Eval(op, env), final)
    ensures Convert(narrow, Eval(op, env)) == Eval(op, env)
  {
    var v, t := Eval(op, env), TypeOf(op);
    if t.prec < final.prec {
      PowGrows(t.prec, final.prec - 1);
      PowGrows(t.prec - 1, final.prec - 1);
    }
    ConvertFits(final, v);
    FitsWider(narrow, final, Convert(narrow, v));
    ConvertFits(final, Convert(narrow, v));
  }

  lemma BothRepresented(op: BinOp, n0: Operand, n1: Operand, final: IntType, env: Env)
    requires Narrowable(n0, final, env) && Narrowable(n1, final, env)
    requires ChosenType(op, n0, n1, final) != final
    ensures var r := ChosenType(op, n0, n1, final);
            && r.prec < final.prec && (IsBitwise(op) || r.uns || !final.uns)
            && Represents(Convert(r, Eval(n0.op, env)), r, Eval(n0.op, env), final)
            && Represents(Convert(r, Eval(n1.op, env)), r, Eval(n1.op, env), final)
  {
    WaysToNarrow(op, n0, n1, final);
    OperandRepresented(n0, ChosenType(op, n0, n1, final), final, env);
    OperandRepresented(n1, ChosenType(op, n0, n1, final), final, env);
  }

  /** Bitwise operations, minimum, maximum, quotient and remainder done in the type
      chosen and then extended give the wide result, for all widths and values, when
      each operand's own type keeps its extension. */
  lemma OpPreserved(op: BinOp, op0: Expr, op1: Expr, origUnsigned: bool, final: IntType, env: Env)
    requires Folded(op0) && Folded(op1)
    requires Covers(final, TypeOf(op0)) && Covers(final, TypeOf(op1))
    requires SC.KeepsExtension(Narrow(op0, final), final) && SC.KeepsExtension(Narrow(op1, final), final)
    requires origUnsigned ==> Eval(op0, env) >= 0
    ensures Convert(final, InType(op, op0, op1, ResultType(op, op0, op1, origUnsigned, final), env))
            == InType(op, op0, op1, final, env)
  {
    var r := ResultType(op, op0, op1, origUnsigned, final);
    if r == final {
      ConvertFits(final, InType(op, op0, op1, final, env));
    } else {
      NarrowOk(op0, final, env);
      NarrowOk(op1, final, env);
      BothRepresented(op, Narrow(op0, final), Narrow(op1, final), final, env);
      if op == TruncDiv {
        NoOverflow(op0, op1, r, final, origUnsigned, env);
      }
      OpExtends(op, r, final, Eval(op0, env), Eval(op1, env), Convert(r, Eval(op0, env)), Convert(r, Eval(op1, env)));
    }
  }

  /** Taking an operand without its zero extension leaves its value alone. */
  lemma UnextendedOk(op: BinOp, e: Expr, other: Expr, env: Env)
    requires Folded(e)
    ensures Eval(Unextended(op, e, other), env) == Eval(e, env)
    ensures Folded(Unextended(op, e, other)) && TypeOf(Unextended(op, e, other)).prec <= TypeOf(e).prec
  {
    if Unextended(op, e, other) != e {
      FitsWider(TypeOf(e.arg), e.to, Eval(e.arg, env));
      ConvertFits(e.to, Eval(e.arg, env));
    }
  }

  /** The whole of build_binary_op's shortening, from the operands as they come. */
  ghost function Shortened(op: BinOp, op0: Expr, op1: Expr, origUnsigned: bool, env: Env): int {
    var final := SC.CommonType(TypeOf(op0), TypeOf(op1));
    var e0, e1 := Unextended(op, op0, op1), Unextended(op, op1, op0);
    Convert(final, InType(op, e0, e1, ResultType(op, e0, e1, origUnsigned, final), env))
  }

  predicate KeepsShortened(op: BinOp, op0: Expr, op1: Expr) {
    var final := SC.CommonType(TypeOf(op0), TypeOf(op1));
    && SC.KeepsExtension(Narrow(Unextended(op, op0, op1), final), final)
    && SC.KeepsExtension(Narrow(Unextended(op, op1, op0), final), final)
  }

  lemma ShortenedPreserves(op: BinOp, op0: Expr, op1: Expr, origUnsigned: bool, env: Env)
    requires Folded(op0) && Folded(op1) && KeepsShortened(op, op0, op1)
    requires origUnsigned ==> Eval(op0, env) >= 0
    ensures Shortened(op, op0, op1, origUnsigned, env)
            == InType(op, op0, op1, SC.CommonType(TypeOf(op0), TypeOf(op1)), env)
  {
    CommonTypeCovers(TypeOf(op0), TypeOf(op1));
    UnextendedOk(op, op0, op1, env);
    UnextendedOk(op, op1, op0, env);
    OpPreserved(op, Unextended(op, op0, op1), Unextended(op, op1, op0), origUnsigned,
                SC.CommonType(TypeOf(op0), TypeOf(op1)), env);
  }

  // Right shifts by a constant.

  /** Floor division: arithmetic for negative values, logical for others. */
  function ShiftRight(v: int, k: nat): int { v / Pow2(k) }

  /** The type a right shift by k is done in. */
  function ShiftType(op: Expr, k: nat): IntType {
    var n, final := Narrow(op, TypeOf(op)), TypeOf(op);
    if ShiftShortened(n, final, k) then WithSign(n.uns, TypeOf(n.prim)) else final
  }

  predicate ShiftShortened(n: Operand, final: IntType, k: nat) {
    var prec := TypeOf(n.prim).prec;
    k != 0 && prec < final.prec && prec > k && (!final.uns || n.uns || 2 * prec <= final.prec)
  }

  ghost function ShiftIn(op: Expr, k: nat, t: IntType, env: Env): int {
    Convert(t, ShiftRight(Convert(t, Eval(op, env)), k))
  }

  lemma ShiftFits(t: IntType, v: int, k: nat)
    requires Fits(t, v)
    ensures Fits(t, ShiftRight(v, k)) && (v < 0 <==> ShiftRight(v, k) < 0)
    ensures v <= ShiftRight(v, k) < 0 || 0 <= ShiftRight(v, k) <= v
  {
    QuotientSign(v, Pow2(k));
  }

  /** A value of the operand's own type, moved up by 2^prec when read as unsigned. */
  lemma ShiftLifted(v: int, prec: nat, k: nat)
    requires 1 <= k <= prec && v < 0
    ensures ShiftRight(v + Pow2(prec), k) < ShiftRight(v, k) + Pow2(prec)
  {
    hide Pow2;
    var j := PowSplits(k, prec);
    PowTwoAtLeast(k);
    LiftedBelow(v, j, Pow2(k));
  }

  lemma PowTwoAtLeast(k: nat)
    requires k >= 1
    ensures Pow2(k) >= 2
  {
  }

  /** Exactly when a shortened right shift gives the wide result: the result type is
      signed, the operand was zero-extended, or its narrow form is not negative. */
  lemma ShiftPreservedExactly(op: Expr, k: nat, env: Env)
    requires Folded(op) && ShiftShortened(Narrow(op, TypeOf(op)), TypeOf(op), k)
    ensures var n, final := Narrow(op, TypeOf(op)), TypeOf(op);
            Convert(final, ShiftIn(op, k, ShiftType(op, k), env)) == ShiftIn(op, k, final, env)
            <==> !final.uns || n.uns || Extended(n.prim, n.uns, env) >= 0
  {
    var n, final := Narrow(op, TypeOf(op)), TypeOf(op);
    var r, x := WithSign(n.uns, TypeOf(n.prim)), Extended(n.prim, n.uns, env);
    NarrowOk(op, final, env);
    ConvertThrough(r, final, x);
    ConvertFits(r, x);
    ConvertFits(final, Eval(op, env));
    ShiftFits(r, x, k);
    ConvertFits(r, ShiftRight(x, k));
    ShiftedBack(r, final, x, k);
  }

  lemma ShiftedBack(r: IntType, final: IntType, x: int, k: nat)
    requires Fits(r, x) && 1 <= k < r.prec < final.prec
    ensures Convert(final, ShiftRight(x, k)) == Convert(final, ShiftRight(Convert(final, x), k))
            <==> !final.uns || r.uns || x >= 0
  {
    ShiftFits(r, x, k);
    var w := Convert(final, x);
    ShiftFits(final, w, k);
    ConvertFits(final, ShiftRight(w, k));
    if !final.uns || r.uns {
      FitsWider(r, final, x);
      ConvertFits(final, x);
    } else {
      PowGrows(r.prec, final.prec);
      AsUnsigned(final, x);
      AsUnsigned(final, ShiftRight(x, k));
      if x < 0 {
        ShiftLifted(x, final.prec, k);
      }
    }
  }

  /** For every value: a shortened right shift is right if and only if the result type is
      signed or the operand was zero-extended; being twice as wide does not help. */
  lemma ShiftSafeExactly(op: Expr, k: nat)
    requires Folded(op) && Free(Narrow(op, TypeOf(op)).prim) && ShiftShortened(Narrow(op, TypeOf(op)), TypeOf(op), k)
    ensures !TypeOf(op).uns || Narrow(op, TypeOf(op)).uns <==>
            forall env: Env ::
              Convert(TypeOf(op), ShiftIn(op, k, ShiftType(op, k), env)) == ShiftIn(op, k, TypeOf(op), env)
  {
    var n, final := Narrow(op, TypeOf(op)), TypeOf(op);
    if !final.uns || n.uns {
      forall env: Env
        ensures Convert(final, ShiftIn(op, k, ShiftType(op, k), env)) == ShiftIn(op, k, final, env) {
        ShiftPreservedExactly(op, k, env);
      }
    } else {
      var env: Env := _ => -1;
      FreeExtended(n.prim, n.uns, env);
      ShiftPreservedExactly(op, k, env);
    }
  }

  /** `(unsigned) sc >> 4` with sc -1 is 0x0FFFFFFF but is computed as 0xFFFFFFFF, though
      the result is four times as wide. */
  lemma WrongShift()
    ensures var op := Conv(Width(32, true), Var(0, Width(8, false), false));
            && ShiftType(op, 4) == Width(8, false)
            && Convert(TypeOf(op), ShiftIn(op, 4, Width(8, false), (_ => -1))) == 0xFFFF_FFFF
            && ShiftIn(op, 4, TypeOf(op), (_ => -1)) == 0x0FFF_FFFF
  {
    hide Pow2;
    var u32: IntType, s8: IntType := Width(32, true), Width(8, false);
    PowersUsed();
    SmallPowers();
    ConvertFits(s8, -1);
    AsUnsigned(u32, -1);
    ConvertFits(u32, 0xFFFF_FFFF);
    ConvertThrough(s8, u32, -1);
    ConvertFits(u32, 0x0FFF_FFFF);
  }

  lemma SmallPowers()
    ensures Pow2(4) == 16
  {
  }
}
