/** Rewriting an integer comparison to a narrower type. */
module ShortenCompare {
  import opened Options
  import opened IntTypes
  import opened Exprs
  import opened Arith

  datatype Code = LT | LE | GT | GE | EQ | NE

  predicate Holds(code: Code, a: int, b: int) {
    match code
    case LT => a < b
    case LE => a <= b
    case GT => a > b
    case GE => a >= b
    case EQ => a == b
    case NE => a != b
  }

  function Mirror(code: Code): Code {
    match code
    case LT => GT
    case GT => LT
    case LE => GE
    case GE => LE
    case EQ => EQ
    case NE => NE
  }

  /** A constant answer (with the operand that is still evaluated), or a comparison of two
      operands already converted to one type. */
  datatype Outcome = Known(value: bool, evaluated: Expr) | Compare(code: Code, left: Expr, right: Expr)

  ghost predicate Answer(o: Outcome, env: Env) {
    match o
    case Known(value, _) => value
    case Compare(code, l, r) => Holds(code, Eval(l, env), Eval(r, env))
  }

  function OutcomeEffects(o: Outcome): set<nat> {
    match o
    case Known(_, e) => Effects(e)
    case Compare(_, l, r) => Effects(l) + Effects(r)
  }

  /** An operand, its narrow form, and how the code takes that form to be extended. */
  datatype Operand = Operand(op: Expr, prim: Expr, uns: bool)

  function Narrow(op: Expr, restype: IntType): Operand {
    var n := GetNarrower(op);
    Operand(op, n.win, if op == n.win && TypeOf(op) != restype then TypeOf(op).uns else n.uns)
  }

  predicate IsZero(e: Expr) {
    e.Cst? && e.value == 0
  }

  predicate Narrower(n: Operand, restype: IntType) {
    TypeOf(n.prim).prec < restype.prec
  }

  ghost function ShortenCompare(op0: Expr, op1: Expr, restype: IntType, code: Code): Outcome {
    var n0, n1 := Narrow(op0, restype), Narrow(op1, restype);
    if n0.prim.Cst? && !IsZero(n1.prim)
    then Shorten(n1, n0, restype, Mirror(code))
    else Shorten(n0, n1, restype, code)
  }

  ghost function Shorten(n0: Operand, n1: Operand, restype: IntType, code: Code): Outcome {
    if n1.prim.Cst? && Narrower(n0, restype) then AgainstConstant(n0, n1.prim, restype, code)
    else if n0.uns == n1.uns && Narrower(n0, restype) && Narrower(n1, restype) then BothNarrow(n0, n1, restype, code)
    else Nominal(n0.op, n1.op, restype, code)
  }

  /** The fixed answer, if any, of `x code c` for every x from min to max. */
  function FixedAnswer(code: Code, c: int, min: int, max: int): Option<bool> {
    var minGt, maxGt, minLt, maxLt := c < min, c < max, min < c, max < c;
    match code
    case NE => if maxLt || minGt then Some(true) else None
    case EQ => if maxLt || minGt then Some(false) else None
    case LT => if !minLt then Some(false) else if maxLt then Some(true) else None
    case GT => if !maxGt then Some(false) else if minGt then Some(true) else None
    case LE => if minGt then Some(false) else if !maxGt then Some(true) else None
    case GE => if maxLt then Some(false) else if !minLt then Some(true) else None
  }

  /** A narrow variable operand against a constant. */
  ghost function AgainstConstant(n0: Operand, k: Expr, restype: IntType, code: Code): Outcome
    requires k.Cst?
  {
    var t := WithSign(n0.uns, TypeOf(n0.prim));
    // Sign-extended, then compared as unsigned: bounds are taken in the signed type.
    var resigned := restype.uns && !n0.uns;
    var nominal := if resigned then Signed(restype) else restype;
    var c := Convert(nominal, k.value);
    var val := FixedAnswer(code, c, Convert(nominal, MinOf(t)), Convert(nominal, MaxOf(t)));
    if resigned then DecideResigned(n0.prim, t, c, nominal, val, code)
    else Decide(n0.prim, t, c, nominal, val, code)
  }

  function Decide(prim: Expr, t: IntType, c: int, nominal: IntType, val: Option<bool>, code: Code): Outcome {
    if val.Some? then Known(val.value, prim)
    else Compare(code, Conv(t, prim), Conv(t, Cst(c, nominal)))
  }

  /** The constant the re-signed comparison is made against. */
  function ResignedConstant(t: IntType, c: int, nominal: IntType, val: Option<bool>, code: Code): Expr {
    if val.None? then Cst(c, nominal)
    else if code == LT || code == GE then Cst(MinOf(t), t)
    else Cst(MaxOf(t), t)
  }

  /** For inequalities a fixed answer is no good; the unsigned comparison then only tests
      the sign, in reverse, which one against an extreme value does too. */
  function DecideResigned(prim: Expr, t: IntType, c: int, nominal: IntType, val: Option<bool>, code: Code): Outcome {
    if val.Some? && (code == EQ || code == NE) then Known(val.value, prim)
    else Compare(code, Conv(Unsigned(t), prim), Conv(Unsigned(t), ResignedConstant(t, c, nominal, val, code)))
  }

  /** The wider of two integer types; unsigned if either of equal width is. */
  function CommonType(a: IntType, b: IntType): IntType {
    if a.prec > b.prec then a
    else if b.prec > a.prec then b
    else Width(a.prec, a.uns || b.uns)
  }

  /** One of the two types' widths; it holds what either holds, except that negative
      values do not survive when a widest of the two is unsigned. */
  lemma CommonTypeIs(a: IntType, b: IntType)
    ensures var t := CommonType(a, b);
            && (t.prec == a.prec || t.prec == b.prec) && t.prec >= a.prec && t.prec >= b.prec
            && (t.uns <==> (a.uns && a.prec == t.prec) || (b.uns && b.prec == t.prec))
    ensures forall v :: Fits(a, v) || Fits(b, v) ==> Fits(CommonType(a, b), v) || (CommonType(a, b).uns && v < 0)
  {
    var t := CommonType(a, b);
    forall v | Fits(a, v) || Fits(b, v) ensures Fits(t, v) || (t.uns && v < 0) {
      if Fits(a, v) {
        FitsOrNegative(a, t, v);
      } else {
        FitsOrNegative(b, t, v);
      }
    }
  }

  lemma FitsOrNegative(t: IntType, wide: IntType, v: int)
    requires Fits(t, v) && t.prec <= wide.prec && (t.prec == wide.prec && t.uns ==> wide.uns)
    ensures Fits(wide, v) || (wide.uns && v < 0)
  {
    hide Pow2;
    PowGrows(t.prec, wide.prec);
    PowGrows(t.prec - 1, wide.prec - 1);
    PowGrows(t.prec - 1, wide.prec);
    if t.prec < wide.prec {
      PowGrows(t.prec, wide.prec - 1);
    }
  }

  /** Both operands narrow and extended alike: compare in the wider of the two types. */
  function BothNarrow(n0: Operand, n1: Operand, restype: IntType, code: Code): Outcome {
    var t0, t1 := TypeOf(n0.prim), TypeOf(n1.prim);
    var common := WithSign(n0.uns || restype.uns, CommonType(t0, t1));
    Compare(code, Conv(common, Conv(WithSign(n0.uns, t0), n0.prim)), Conv(common, Conv(WithSign(n1.uns, t1), n1.prim)))
  }

  /** The comparison in the nominal type, with the operands as they were given. */
  function Nominal(op0: Expr, op1: Expr, restype: IntType, code: Code): Outcome {
    if IsZero(op1) && restype.uns && code == GE then Known(true, op0)
    else if IsZero(op1) && restype.uns && code == LT then Known(false, op0)
    else Compare(code, Conv(restype, op0), Conv(restype, op1))
  }

  // What the comparison means.

  /** The comparison as written: both operands converted to the common type. */
  ghost predicate Original(op0: Expr, op1: Expr, restype: IntType, code: Code, env: Env) {
    Holds(code, Convert(restype, Eval(op0, env)), Convert(restype, Eval(op1, env)))
  }

  /** The value the code takes an operand to have in the common type. */
  ghost function Assumed(n: Operand, restype: IntType, env: Env): int {
    Convert(restype, Extended(n.prim, n.uns, env))
  }

  ghost predicate Faithful(n: Operand, restype: IntType, env: Env) {
    Convert(restype, Eval(n.op, env)) == Assumed(n, restype, env)
  }

  /** Whether the rewrite uses the narrow forms instead of the operands themselves. */
  predicate UsesNarrow(n0: Operand, n1: Operand, restype: IntType) {
    || (n1.prim.Cst? && Narrower(n0, restype))
    || (n0.uns == n1.uns && Narrower(n0, restype) && Narrower(n1, restype))
  }

  /** The operand's own type can hold its narrow form extended, or nothing is left to extend. */
  predicate KeepsExtension(n: Operand, restype: IntType) {
    var t := TypeOf(n.op);
    t.prec == restype.prec || n.uns == t.uns || (n.uns && TypeOf(n.prim).prec < t.prec)
  }

  /** What get_narrower promises of an operand and its narrow form. */
  ghost predicate Strips(n: Operand, env: Env) {
    && Eval(n.op, env) == Convert(TypeOf(n.op), Extended(n.prim, n.uns, env))
    && TypeOf(n.prim).prec <= TypeOf(n.op).prec
  }

  lemma NarrowOk(op: Expr, restype: IntType, env: Env)
    ensures var n := Narrow(op, restype);
            && Strips(n, env)
            && Effects(n.prim) == Effects(op) && (Folded(op) ==> Folded(n.prim))
            && (Folded(op) && n.prim.Cst? ==> n.prim == op)
            && (op == n.prim ==> n.uns == (TypeOf(op) != restype && TypeOf(op).uns))
  {
    GetNarrowerOk(op, env);
    var t := TypeOf(op);
    if Narrow(op, restype).uns != GetNarrower(op).uns {
      ConvertFits(t, Eval(op, env));
    }
    if op == GetNarrower(op).win {
      StripShrinks(op);
    }
  }

  /** If nothing was stripped, the flag of get_narrower is 0. */
  lemma StripShrinks(op: Expr)
    requires GetNarrower(op).win == op
    ensures !GetNarrower(op).uns
  {
    if op.Conv? && op.to.prec >= TypeOf(op.arg).prec {
      StripIsPart(op.arg, TypeOf(op.arg).uns);
    }
  }

  function Size(e: Expr): nat {
    if e.Conv? then 1 + Size(e.arg) else 0
  }

  lemma {:induction false} StripIsPart(op: Expr, uns: bool)
    ensures Size(Strip(op, op, uns, false).win) <= Size(op)
    decreases op
  {
    if op.Conv? && op.to.prec >= TypeOf(op.arg).prec && (op.to.prec == TypeOf(op.arg).prec || uns == TypeOf(op.arg).uns) {
      StripIsPart(op.arg, uns);
    }
  }

  /** The narrow form stands for the operand exactly when the operand's own type holds
      the extended narrow value, or the common type is no wider. */
  lemma FaithfulExactly(n: Operand, restype: IntType, env: Env)
    requires Strips(n, env) && TypeOf(n.op).prec <= restype.prec
    ensures Faithful(n, restype, env) <==>
            TypeOf(n.op).prec == restype.prec || Fits(TypeOf(n.op), Extended(n.prim, n.uns, env))
  {
    var t, w := TypeOf(n.op), Extended(n.prim, n.uns, env);
    if t.prec == restype.prec {
      ConvertThrough(restype, t, w);
    } else if Fits(t, w) {
      ConvertFits(t, w);
    } else {
      Displaced(t, TypeOf(n.prim).prec, n.uns, w, restype);
    }
  }

  /** A value that does not fit t moves by 2^prec(t), which a wider type can tell. */
  lemma Displaced(t: IntType, prec: nat, uns: bool, w: int, wide: IntType)
    requires 1 <= prec <= t.prec < wide.prec && Fits(Width(prec, uns), w) && !Fits(t, w)
    ensures Convert(wide, Convert(t, w)) != Convert(wide, w)
  {
    var m := Pow2(t.prec);
    PowGrows(t.prec, wide.prec);
    DisplacedBy(t, prec, uns, w);
    var q := ConvertMultiple(wide, Convert(t, w));
    var q' := ConvertMultiple(wide, w);
    if Convert(wide, Convert(t, w)) == Convert(wide, w) {
      MultipleDifference(q, q', Pow2(wide.prec));
      SmallMultiple(q - q', Pow2(wide.prec));
    }
  }

  lemma DisplacedBy(t: IntType, prec: nat, uns: bool, w: int)
    requires 1 <= prec <= t.prec && Fits(Width(prec, uns), w) && !Fits(t, w)
    ensures Convert(t, w) == w + Pow2(t.prec) || Convert(t, w) == w - Pow2(t.prec)
  {
    PowGrows(prec, t.prec);
    PowGrows(prec - 1, t.prec - 1);
    if t.uns {
      AsUnsigned(t, w);
    } else {
      AsSigned(t, w);
    }
  }

  /** KeepsExtension is enough for every value. */
  lemma KeepsExtensionIsEnough(n: Operand, restype: IntType, env: Env)
    requires Strips(n, env) && TypeOf(n.op).prec <= restype.prec && KeepsExtension(n, restype)
    ensures Faithful(n, restype, env)
  {
    var t := TypeOf(n.op);
    if t.prec != restype.prec && TypeOf(n.prim).prec < t.prec {
      FitsWider(WithSign(n.uns, TypeOf(n.prim)), t, Extended(n.prim, n.uns, env));
    }
    FaithfulExactly(n, restype, env);
  }

  // The three rewrites.

  lemma ExtendedFits(n: Operand, wide: IntType, env: Env)
    requires TypeOf(n.prim).prec < wide.prec && (n.uns || !wide.uns)
    ensures Convert(wide, Extended(n.prim, n.uns, env)) == Extended(n.prim, n.uns, env)
  {
    FitsWider(WithSign(n.uns, TypeOf(n.prim)), wide, Extended(n.prim, n.uns, env));
    ConvertFits(wide, Extended(n.prim, n.uns, env));
  }

  /** Whatever extends it, the narrow form has the same low bits. */
  lemma ReExtended(n: Operand, t: IntType, env: Env)
    requires t.prec == TypeOf(n.prim).prec
    ensures Convert(t, Eval(n.prim, env)) == Convert(t, Extended(n.prim, n.uns, env))
  {
    ConvertThrough(t, WithSign(n.uns, TypeOf(n.prim)), Eval(n.prim, env));
  }

  lemma FixedAnswerOk(code: Code, c: int, min: int, max: int, x: int)
    requires min <= x <= max
    ensures var a := FixedAnswer(code, c, min, max);
            && (a.Some? ==> a.value == Holds(code, x, c))
            && (a.None? ==> min <= c <= max)
  {
  }

  lemma DecideOk(prim: Expr, t: IntType, c: int, nominal: IntType, code: Code, env: Env)
    requires Fits(nominal, c)
    ensures Answer(Decide(prim, t, c, nominal, FixedAnswer(code, c, MinOf(t), MaxOf(t)), code), env)
            == Holds(code, Convert(t, Eval(prim, env)), c)
  {
    var x, val := Eval(Conv(t, prim), env), FixedAnswer(code, c, MinOf(t), MaxOf(t));
    FixedAnswerOk(code, c, MinOf(t), MaxOf(t), x);
    if val.None? {
      ConvertFits(nominal, c);
      ConvertFits(t, c);
      assert Eval(Conv(t, Cst(c, nominal)), env) == c;
    }
    Decided(prim, t, c, nominal, val, code, env, x);
  }

  lemma Decided(prim: Expr, t: IntType, c: int, nominal: IntType, val: Option<bool>, code: Code, env: Env, x: int)
    requires x == Eval(Conv(t, prim), env)
    requires val.Some? ==> val.value == Holds(code, x, c)
    requires val.None? ==> Eval(Conv(t, Cst(c, nominal)), env) == c
    ensures Answer(Decide(prim, t, c, nominal, val, code), env) == Holds(code, x, c)
  {
  }

  lemma AgainstConstantOk(n0: Operand, k: Expr, restype: IntType, code: Code, env: Env)
    requires k.Cst? && Narrower(n0, restype)
    ensures Answer(AgainstConstant(n0, k, restype, code), env)
            == Holds(code, Assumed(n0, restype, env), Convert(restype, k.value))
  {
    var t := WithSign(n0.uns, TypeOf(n0.prim));
    if restype.uns && !n0.uns {
      BoundsFit(t, Signed(restype));
      ConvertThrough(restype, Signed(restype), k.value);
      DecideResignedOk(n0, Convert(Signed(restype), k.value), restype, code, env);
    } else {
      BoundsFit(t, restype);
      ExtendedFits(n0, restype, env);
      DecideOk(n0.prim, t, Convert(restype, k.value), restype, code, env);
    }
  }

  lemma BoundsFit(t: IntType, wide: IntType)
    requires t.prec < wide.prec && (t.uns || !wide.uns)
    ensures Convert(wide, MinOf(t)) == MinOf(t) && Convert(wide, MaxOf(t)) == MaxOf(t)
  {
    FitsWider(t, wide, MinOf(t));
    FitsWider(t, wide, MaxOf(t));
    ConvertFits(wide, MinOf(t));
    ConvertFits(wide, MaxOf(t));
  }

  /** Reading signed values as unsigned keeps the order within each sign and puts the
      negative ones above. */
  function Lifted(v: int, m: nat): int { if v < 0 then v + m else v }

  lemma LiftedCompare(code: Code, x: int, y: int, m: nat, m': nat)
    requires 0 - m <= 2 * x < m <= m' && 0 - m <= 2 * y < m
    ensures Holds(code, Lifted(x, m), Lifted(y, m)) == Holds(code, Lifted(x, m'), Lifted(y, m'))
  {
  }

  /** A fixed signed answer means c lies outside or at the edge of the bounds, so that as
      unsigned it separates the signs. */
  lemma LiftedExtreme(code: Code, x: int, c: int, min: int, max: int, m: nat, w: nat)
    requires min <= x <= max && min < 0 <= max && code != EQ && code != NE
    requires FixedAnswer(code, c, min, max).Some?
    requires 2 * max < m <= -2 * min <= m && 2 * m <= w && 0 - w <= 2 * c < w
    ensures Holds(code, Lifted(x, m), Lifted(if code == LT || code == GE then min else max, m))
            == Holds(code, Lifted(x, w), Lifted(c, w))
  {
  }

  lemma SignedBounds(t: IntType)
    requires !t.uns
    ensures 2 * MaxOf(t) < Pow2(t.prec) == -2 * MinOf(t) && MinOf(t) < 0 <= MaxOf(t)
  {
  }

  /** A value of a signed type, read in an unsigned type at least as wide. */
  lemma LiftedConvert(t: IntType, wide: IntType, v: int)
    requires !t.uns && wide.uns && t.prec <= wide.prec && Fits(t, v)
    ensures Convert(wide, v) == Lifted(v, Pow2(wide.prec))
  {
    PowGrows(t.prec, wide.prec);
    SignedBounds(t);
    AsUnsigned(wide, v);
  }

  lemma ResignedDecided(prim: Expr, t: IntType, c: int, nominal: IntType, val: Option<bool>, code: Code, env: Env, want: bool)
    requires val.Some? && (code == EQ || code == NE) ==> val.value == want
    requires !(val.Some? && (code == EQ || code == NE)) ==>
               Holds(code, Eval(Conv(Unsigned(t), prim), env),
                     Eval(Conv(Unsigned(t), ResignedConstant(t, c, nominal, val, code)), env)) == want
    ensures Answer(DecideResigned(prim, t, c, nominal, val, code), env) == want
  {
  }

  /** The re-signed comparison, where one is left, answers the unsigned one. */
  lemma ResignedCompareOk(t: IntType, x: int, c: int, restype: IntType, code: Code, env: Env)
    requires !t.uns && restype.uns && t.prec < restype.prec && Fits(t, x) && Fits(Signed(restype), c)
    requires var val := FixedAnswer(code, c, MinOf(t), MaxOf(t)); val.None? || (code != EQ && code != NE)
    ensures var k := ResignedConstant(t, c, Signed(restype), FixedAnswer(code, c, MinOf(t), MaxOf(t)), code);
            Holds(code, Lifted(x, Pow2(t.prec)), Eval(Conv(Unsigned(t), k), env))
            == Holds(code, Lifted(x, Pow2(restype.prec)), Lifted(c, Pow2(restype.prec)))
  {
    var m, w := Pow2(t.prec), Pow2(restype.prec);
    var val := FixedAnswer(code, c, MinOf(t), MaxOf(t));
    PowGrows(t.prec, restype.prec);
    SignedBounds(t);
    SignedBounds(Signed(restype));
    var k := ResignedConstant(t, c, Signed(restype), val, code);
    ConvertFits(TypeOf(k), k.value);
    if val.None? {
      FixedAnswerOk(code, c, MinOf(t), MaxOf(t), x);
      LiftedConvert(t, Unsigned(t), c);
      LiftedCompare(code, x, c, m, w);
    } else {
      LiftedConvert(t, Unsigned(t), k.value);
      LiftedExtreme(code, x, c, MinOf(t), MaxOf(t), m, w);
    }
  }

  /** A sign-extended operand compared as unsigned with a constant. */
  lemma DecideResignedOk(n0: Operand, c: int, restype: IntType, code: Code, env: Env)
    requires Narrower(n0, restype) && restype.uns && !n0.uns && Fits(Signed(restype), c)
    ensures var t := Signed(TypeOf(n0.prim));
            Answer(DecideResigned(n0.prim, t, c, Signed(restype), FixedAnswer(code, c, MinOf(t), MaxOf(t)), code), env)
            == Holds(code, Assumed(n0, restype, env), Convert(restype, c))
  {
    var t := Signed(TypeOf(n0.prim));
    var x := Extended(n0.prim, false, env);
    var val := FixedAnswer(code, c, MinOf(t), MaxOf(t));
    LiftedConvert(t, restype, x);
    LiftedConvert(Signed(restype), restype, c);
    ReExtended(n0, Unsigned(t), env);
    LiftedConvert(t, Unsigned(t), x);
    var want := Holds(code, Assumed(n0, restype, env), Convert(restype, c));
    if val.None? || (code != EQ && code != NE) {
      ResignedCompareOk(t, x, c, restype, code, env);
    } else {
      SignedBounds(Signed(restype));
      SignedBounds(t);
      PowGrows(t.prec, restype.prec);
      FixedAnswerOk(code, c, MinOf(t), MaxOf(t), x);
    }
    ResignedDecided(n0.prim, t, c, Signed(restype), val, code, env, want);
  }

  lemma SameSignWiden(n: Operand, common: IntType, env: Env)
    requires TypeOf(n.prim).prec <= common.prec && common.uns == n.uns
    ensures Convert(common, Extended(n.prim, n.uns, env)) == Extended(n.prim, n.uns, env)
  {
    if TypeOf(n.prim).prec < common.prec {
      ExtendedFits(n, common, env);
    } else {
      ConvertFits(common, Extended(n.prim, n.uns, env));
    }
  }

  lemma BothNarrowOk(n0: Operand, n1: Operand, restype: IntType, code: Code, env: Env)
    requires n0.uns == n1.uns && Narrower(n0, restype) && Narrower(n1, restype)
    ensures Answer(BothNarrow(n0, n1, restype, code), env)
            == Holds(code, Assumed(n0, restype, env), Assumed(n1, restype, env))
  {
    var t0, t1 := TypeOf(n0.prim), TypeOf(n1.prim);
    var common := WithSign(n0.uns || restype.uns, CommonType(t0, t1));
    var x, y := Extended(n0.prim, n0.uns, env), Extended(n1.prim, n1.uns, env);
    assert Eval(Conv(WithSign(n0.uns, t0), n0.prim), env) == x;
    assert Eval(Conv(WithSign(n1.uns, t1), n1.prim), env) == y;
    if common.uns == n0.uns {
      ExtendedFits(n0, restype, env);
      ExtendedFits(n1, restype, env);
      SameSignWiden(n0, common, env);
      SameSignWiden(n1, common, env);
    } else {
      LiftedBoth(Signed(t0), Signed(t1), common, restype, code, x, y);
    }
  }

  /** Sign-extended operands compared as unsigned may be compared so in the wider of
      their own types. */
  lemma LiftedBoth(t0: IntType, t1: IntType, common: IntType, restype: IntType, code: Code, x: int, y: int)
    requires !t0.uns && !t1.uns && common.uns && restype.uns
    requires t0.prec <= common.prec && t1.prec <= common.prec < restype.prec
    requires Fits(t0, x) && Fits(t1, y)
    ensures Holds(code, Convert(common, x), Convert(common, y)) == Holds(code, Convert(restype, x), Convert(restype, y))
  {
    LiftedConvert(t0, common, x);
    LiftedConvert(t1, common, y);
    LiftedConvert(t0, restype, x);
    LiftedConvert(t1, restype, y);
    SignedBounds(t0);
    SignedBounds(t1);
    PowGrows(t0.prec, common.prec);
    PowGrows(t1.prec, common.prec);
    PowGrows(common.prec, restype.prec);
    LiftedCompare(code, x, y, Pow2(common.prec), Pow2(restype.prec));
  }

  lemma NominalOk(op0: Expr, op1: Expr, restype: IntType, code: Code, env: Env)
    ensures Answer(Nominal(op0, op1, restype, code), env) == Original(op0, op1, restype, code, env)
  {
    if IsZero(op1) {
      ConvertFits(op1.cty, 0);
      ConvertFits(restype, 0);
    }
  }

  // Main results.

  /** The operands in the order the rewrite takes them. */
  predicate Swapped(n0: Operand, n1: Operand) {
    n0.prim.Cst? && !IsZero(n1.prim)
  }

  lemma HoldsMirror(code: Code, a: int, b: int)
    ensures Holds(Mirror(code), a, b) == Holds(code, b, a)
  {
  }

  lemma ShortenOk(n0: Operand, n1: Operand, restype: IntType, code: Code, env: Env)
    requires n1.prim.Cst? ==> Folded(n1.prim) && n1 == Narrow(n1.prim, restype)
    requires TypeOf(n1.prim).prec <= restype.prec
    ensures Answer(Shorten(n0, n1, restype, code), env) ==
            if UsesNarrow(n0, n1, restype) then Holds(code, Assumed(n0, restype, env), Assumed(n1, restype, env))
            else Original(n0.op, n1.op, restype, code, env)
  {
    if n1.prim.Cst? && Narrower(n0, restype) {
      AgainstConstantOk(n0, n1.prim, restype, code, env);
      NarrowOk(n1.prim, restype, env);
      KeepsExtensionIsEnough(n1, restype, env);
      ConvertFits(n1.prim.cty, n1.prim.value);
    } else if UsesNarrow(n0, n1, restype) {
      BothNarrowOk(n0, n1, restype, code, env);
    } else {
      NominalOk(n0.op, n1.op, restype, code, env);
    }
  }

  /** What the comparison left behind computes, for every width, signedness, value and
      code: the comparison as written, or, where narrow forms are used, the comparison
      of the values the code takes those to stand for. */
  lemma ShortenMeaning(op0: Expr, op1: Expr, restype: IntType, code: Code, env: Env)
    requires Folded(op0) && Folded(op1)
    requires TypeOf(op0).prec <= restype.prec && TypeOf(op1).prec <= restype.prec
    ensures var n0, n1 := Narrow(op0, restype), Narrow(op1, restype);
            var uses := if Swapped(n0, n1) then UsesNarrow(n1, n0, restype) else UsesNarrow(n0, n1, restype);
            Answer(ShortenCompare(op0, op1, restype, code), env) ==
            if uses then Holds(code, Assumed(n0, restype, env), Assumed(n1, restype, env))
            else Original(op0, op1, restype, code, env)
  {
    var n0, n1 := Narrow(op0, restype), Narrow(op1, restype);
    NarrowOk(op0, restype, env);
    NarrowOk(op1, restype, env);
    if Swapped(n0, n1) {
      ShortenOk(n1, n0, restype, Mirror(code), env);
      HoldsMirror(code, Assumed(n1, restype, env), Assumed(n0, restype, env));
      HoldsMirror(code, Convert(restype, Eval(op1, env)), Convert(restype, Eval(op0, env)));
    } else {
      ShortenOk(n0, n1, restype, code, env);
    }
  }

  /** The rewrite preserves the comparison for every value when each operand's type can
      hold its narrow form extended. */
  lemma ShortenPreserves(op0: Expr, op1: Expr, restype: IntType, code: Code, env: Env)
    requires Folded(op0) && Folded(op1)
    requires TypeOf(op0).prec <= restype.prec && TypeOf(op1).prec <= restype.prec
    requires KeepsExtension(Narrow(op0, restype), restype) && KeepsExtension(Narrow(op1, restype), restype)
    ensures Answer(ShortenCompare(op0, op1, restype, code), env) == Original(op0, op1, restype, code, env)
  {
    ShortenMeaning(op0, op1, restype, code, env);
    NarrowOk(op0, restype, env);
    KeepsExtensionIsEnough(Narrow(op0, restype), restype, env);
    NarrowOk(op1, restype, env);
    KeepsExtensionIsEnough(Narrow(op1, restype), restype, env);
  }

  /** The value of a narrow form whose extension the operand's type does not keep: all
      bits set. */
  function Extreme(n: Operand): int {
    if n.uns then MaxOf(Unsigned(TypeOf(n.prim))) else -1
  }

  lemma UnfaithfulValue(op: Expr, restype: IntType, env: Env)
    requires TypeOf(op).prec <= restype.prec && Free(Narrow(op, restype).prim)
    requires !KeepsExtension(Narrow(op, restype), restype)
    requires env(VarOf(Narrow(op, restype).prim)) == Extreme(Narrow(op, restype))
    ensures !Faithful(Narrow(op, restype), restype, env)
  {
    var n := Narrow(op, restype);
    NarrowOk(op, restype, env);
    FreeExtended(n.prim, n.uns, env);
    FaithfulExactly(n, restype, env);
  }

  /** Exactly when an operand is safe: it compares right with every constant of the
      common type, on either side and for all its values, if and only if its own type
      keeps the extension. */
  lemma SafeExactly(op: Expr, restype: IntType)
    requires Folded(op) && TypeOf(op).prec <= restype.prec && Free(Narrow(op, restype).prim)
    ensures KeepsExtension(Narrow(op, restype), restype) <==>
            forall c: int, code: Code, env: Env :: Fits(restype, c) ==>
              Answer(ShortenCompare(op, Cst(c, restype), restype, code), env)
              == Original(op, Cst(c, restype), restype, code, env)
    ensures KeepsExtension(Narrow(op, restype), restype) <==>
            forall c: int, code: Code, env: Env :: Fits(restype, c) ==>
              Answer(ShortenCompare(Cst(c, restype), op, restype, code), env)
              == Original(Cst(c, restype), op, restype, code, env)
  {
    hide KeepsExtension, ShortenCompare, Original, Answer, Narrow;
    if KeepsExtension(Narrow(op, restype), restype) {
      forall c: int, code: Code, env: Env | Fits(restype, c)
        ensures Answer(ShortenCompare(op, Cst(c, restype), restype, code), env)
                == Original(op, Cst(c, restype), restype, code, env)
        ensures Answer(ShortenCompare(Cst(c, restype), op, restype, code), env)
                == Original(Cst(c, restype), op, restype, code, env) {
        ConstantKeeps(c, restype);
        ShortenPreserves(op, Cst(c, restype), restype, code, env);
        ShortenPreserves(Cst(c, restype), op, restype, code, env);
      }
    } else {
      var env: Env := _ => Extreme(Narrow(op, restype));
      UnfaithfulValue(op, restype, env);
      WrongAgainst(op, Convert(restype, Eval(op, env)), restype, env);
    }
  }

  lemma ConstantKeeps(c: int, restype: IntType)
    requires Fits(restype, c)
    ensures Folded(Cst(c, restype)) && TypeOf(Cst(c, restype)) == restype
    ensures KeepsExtension(Narrow(Cst(c, restype), restype), restype)
  {
  }

  lemma WrongAgainst(op: Expr, c: int, restype: IntType, env: Env)
    requires Folded(op) && TypeOf(op).prec <= restype.prec && Free(Narrow(op, restype).prim)
    requires !Faithful(Narrow(op, restype), restype, env) && c == Convert(restype, Eval(op, env))
    ensures Fits(restype, c)
    ensures Answer(ShortenCompare(op, Cst(c, restype), restype, EQ), env) != Original(op, Cst(c, restype), restype, EQ, env)
    ensures Answer(ShortenCompare(Cst(c, restype), op, restype, EQ), env) != Original(Cst(c, restype), op, restype, EQ, env)
  {
    hide ShortenCompare, Answer;
    NarrowOk(op, restype, env);
    FaithfulExactly(Narrow(op, restype), restype, env);
    NarrowOk(Cst(c, restype), restype, env);
    KeepsExtensionIsEnough(Narrow(Cst(c, restype), restype), restype, env);
    ShortenMeaning(op, Cst(c, restype), restype, EQ, env);
    ShortenMeaning(Cst(c, restype), op, restype, EQ, env);
    ConvertFits(restype, c);
  }

  // Two operands that are both no constants.

  /** When using the narrow forms is right although the operand's type may not keep its
      extension: an unsigned value read as signed, if large, is above every value of a
      narrower zero-extended operand either way. */
  predicate Harmless(n: Operand, other: Operand, restype: IntType) {
    KeepsExtension(n, restype) || (n.uns && restype.uns && TypeOf(other.prim).prec < TypeOf(n.prim).prec)
  }

  predicate PairSafe(n0: Operand, n1: Operand, restype: IntType) {
    UsesNarrow(n0, n1, restype) ==> Harmless(n0, n1, restype) && Harmless(n1, n0, restype)
  }

  /** Only the operand that is narrower than the common type can fail to keep its extension. */
  lemma OneFails(op0: Expr, op1: Expr)
    ensures var r := CommonType(TypeOf(op0), TypeOf(op1));
            && TypeOf(op0).prec <= r.prec && TypeOf(op1).prec <= r.prec
            && (KeepsExtension(Narrow(op0, r), r) || KeepsExtension(Narrow(op1, r), r))
  {
  }

  /** An operand that fails to keep a zero extension is its narrow form read as signed. */
  lemma FailsZero(op: Expr, restype: IntType)
    requires !KeepsExtension(Narrow(op, restype), restype)
    ensures var n := Narrow(op, restype);
            n.uns ==> !TypeOf(op).uns && TypeOf(n.prim).prec == TypeOf(op).prec
  {
    GetNarrowerOk(op, _ => 0);
  }

  /** A value read as signed against one of a type with a bit less: the same order. */
  lemma AboveEitherWay(t: IntType, small: IntType, x: int, y: int, restype: IntType, code: Code)
    requires !t.uns && t.prec < restype.prec && restype.uns && small.uns && small.prec < t.prec
    requires Fits(Unsigned(t), x) && Fits(small, y)
    ensures Holds(code, Convert(restype, Convert(t, x)), Convert(restype, y)) == Holds(code, Convert(restype, x), Convert(restype, y))
  {
    PowGrows(small.prec, t.prec - 1);
    PowGrows(t.prec, restype.prec);
    ConvertFits(restype, x);
    ConvertFits(restype, y);
    AsSigned(t, x);
    AsUnsigned(restype, Convert(t, x));
  }

  /** A harmless operand, with the other one faithful. */
  lemma HarmlessOk(op: Expr, other: Operand, restype: IntType, code: Code, env: Env)
    requires TypeOf(op).prec <= restype.prec && Harmless(Narrow(op, restype), other, restype)
    requires other.uns == Narrow(op, restype).uns && Faithful(other, restype, env)
    ensures Holds(code, Convert(restype, Eval(op, env)), Convert(restype, Eval(other.op, env)))
            == Holds(code, Assumed(Narrow(op, restype), restype, env), Assumed(other, restype, env))
  {
    var n := Narrow(op, restype);
    NarrowOk(op, restype, env);
    if KeepsExtension(n, restype) {
      KeepsExtensionIsEnough(n, restype, env);
    } else {
      FailsZero(op, restype);
      AboveEitherWay(TypeOf(op), WithSign(true, TypeOf(other.prim)), Extended(n.prim, true, env),
                     Extended(other.prim, true, env), restype, code);
    }
  }

  /** The value the other operand is given against the extreme value of one that is not
      harmless, and the comparison that then goes wrong. */
  function Against(n: Operand, other: Operand): int {
    if n.uns && TypeOf(other.prim).prec < TypeOf(n.prim).prec then 0 else Extreme(n)
  }

  function Fault(n: Operand, other: Operand): Code {
    if Against(n, other) == 0 then GT else EQ
  }

  lemma AgainstFits(n: Operand, other: Operand)
    requires other.uns == n.uns
    ensures Fits(WithSign(other.uns, TypeOf(other.prim)), Against(n, other))
    ensures Fits(WithSign(n.uns, TypeOf(n.prim)), Extreme(n)) && Extreme(n) != 0
  {
    if TypeOf(n.prim).prec <= TypeOf(other.prim).prec {
      PowGrows(TypeOf(n.prim).prec, TypeOf(other.prim).prec);
    }
  }

  lemma HarmfulWrong(op: Expr, other: Operand, restype: IntType, env: Env)
    requires TypeOf(op).prec <= restype.prec && Narrower(other, restype) && Faithful(other, restype, env)
    requires other.uns == Narrow(op, restype).uns && !Harmless(Narrow(op, restype), other, restype)
    requires Free(Narrow(op, restype).prim) && Free(other.prim)
    requires env(VarOf(Narrow(op, restype).prim)) == Extreme(Narrow(op, restype))
    requires env(VarOf(other.prim)) == Against(Narrow(op, restype), other)
    ensures var n := Narrow(op, restype);
            Holds(Fault(n, other), Convert(restype, Eval(op, env)), Convert(restype, Eval(other.op, env)))
            != Holds(Fault(n, other), Assumed(n, restype, env), Assumed(other, restype, env))
  {
    var n := Narrow(op, restype);
    AgainstFits(n, other);
    UnfaithfulValue(op, restype, env);
    FreeExtended(n.prim, n.uns, env);
    FreeExtended(other.prim, other.uns, env);
    NarrowOk(op, restype, env);
    if Against(n, other) == 0 {
      FailsZero(op, restype);
      ReadNegative(TypeOf(op), restype);
    }
  }

  /** All bits set, read as signed, is -1. */
  lemma ReadNegative(t: IntType, restype: IntType)
    requires !t.uns && !restype.uns && t.prec < restype.prec
    ensures Convert(restype, Convert(t, MaxOf(Unsigned(t)))) == -1
    ensures Convert(restype, MaxOf(Unsigned(t))) > 0 == Convert(restype, 0)
  {
    AsSigned(t, MaxOf(Unsigned(t)));
    FitsWider(Unsigned(t), restype, MaxOf(Unsigned(t)));
    ConvertFits(restype, MaxOf(Unsigned(t)));
    ConvertFits(restype, 0);
    ConvertFits(restype, -1);
  }

  /** Exactly when two operands of distinct variables compare right, for every code and
      all values: when the narrow forms are not used, or both operands are harmless. */
  lemma PairExactly(op0: Expr, op1: Expr)
    requires Folded(op0) && Folded(op1)
    requires var r := CommonType(TypeOf(op0), TypeOf(op1));
             var p0, p1 := Narrow(op0, r).prim, Narrow(op1, r).prim;
             Free(p0) && Free(p1) && VarOf(p0) != VarOf(p1)
    ensures var r := CommonType(TypeOf(op0), TypeOf(op1));
            PairSafe(Narrow(op0, r), Narrow(op1, r), r) <==>
            forall code: Code, env: Env ::
              Answer(ShortenCompare(op0, op1, r, code), env) == Original(op0, op1, r, code, env)
  {
    hide ShortenCompare, Answer, Narrow, CommonType, UsesNarrow, KeepsExtension;
    var r := CommonType(TypeOf(op0), TypeOf(op1));
    var n0, n1 := Narrow(op0, r), Narrow(op1, r);
    OneFails(op0, op1);
    if PairSafe(n0, n1, r) {
      forall code: Code, env: Env
        ensures Answer(ShortenCompare(op0, op1, r, code), env) == Original(op0, op1, r, code, env) {
        PairRight(op0, op1, r, code, env);
      }
    } else {
      var code, env := PairWrong(op0, op1, r);
    }
  }

  lemma FreeUses(n0: Operand, n1: Operand, restype: IntType)
    requires Free(n0.prim) && Free(n1.prim)
    ensures !Swapped(n0, n1)
    ensures UsesNarrow(n0, n1, restype) <==> n0.uns == n1.uns && Narrower(n0, restype) && Narrower(n1, restype)
  {
  }

  lemma PairMeaning(op0: Expr, op1: Expr, r: IntType, code: Code, env: Env)
    requires Folded(op0) && Folded(op1) && TypeOf(op0).prec <= r.prec && TypeOf(op1).prec <= r.prec
    requires Free(Narrow(op0, r).prim) && Free(Narrow(op1, r).prim)
    ensures var n0, n1 := Narrow(op0, r), Narrow(op1, r);
            Answer(ShortenCompare(op0, op1, r, code), env) ==
            if UsesNarrow(n0, n1, r) then Holds(code, Assumed(n0, r, env), Assumed(n1, r, env))
            else Original(op0, op1, r, code, env)
  {
    hide ShortenCompare, Answer, Narrow, Original, Assumed, Holds;
    FreeUses(Narrow(op0, r), Narrow(op1, r), r);
    ShortenMeaning(op0, op1, r, code, env);
  }

  /** One side, with the other operand's extension kept. */
  lemma SideRight(op: Expr, other: Expr, r: IntType, code: Code, env: Env)
    requires TypeOf(op).prec <= r.prec && TypeOf(other).prec <= r.prec
    requires Narrow(op, r).uns == Narrow(other, r).uns && KeepsExtension(Narrow(other, r), r)
    requires Harmless(Narrow(op, r), Narrow(other, r), r)
    ensures Original(op, other, r, code, env)
            == Holds(code, Assumed(Narrow(op, r), r, env), Assumed(Narrow(other, r), r, env))
  {
    hide KeepsExtension, Harmless, Holds;
    NarrowOk(other, r, env);
    KeepsExtensionIsEnough(Narrow(other, r), r, env);
    HarmlessOk(op, Narrow(other, r), r, code, env);
  }

  lemma SideWrong(op: Expr, other: Expr, r: IntType, env: Env)
    requires TypeOf(op).prec <= r.prec && TypeOf(other).prec <= r.prec
    requires Narrow(op, r).uns == Narrow(other, r).uns && KeepsExtension(Narrow(other, r), r)
    requires Narrower(Narrow(other, r), r) && !Harmless(Narrow(op, r), Narrow(other, r), r)
    requires Free(Narrow(op, r).prim) && Free(Narrow(other, r).prim)
    requires env(VarOf(Narrow(op, r).prim)) == Extreme(Narrow(op, r))
    requires env(VarOf(Narrow(other, r).prim)) == Against(Narrow(op, r), Narrow(other, r))
    ensures var n, m := Narrow(op, r), Narrow(other, r);
            Original(op, other, r, Fault(n, m), env) != Holds(Fault(n, m), Assumed(n, r, env), Assumed(m, r, env))
  {
    hide KeepsExtension, Harmless, Holds, Fault, Against, Extreme, Free;
    NarrowOk(other, r, env);
    KeepsExtensionIsEnough(Narrow(other, r), r, env);
    HarmfulWrong(op, Narrow(other, r), r, env);
  }

  lemma OriginalMirror(op0: Expr, op1: Expr, r: IntType, code: Code, env: Env)
    ensures Original(op1, op0, r, Mirror(code), env) == Original(op0, op1, r, code, env)
  {
  }

  lemma PairRight(op0: Expr, op1: Expr, r: IntType, code: Code, env: Env)
    requires Folded(op0) && Folded(op1) && TypeOf(op0).prec <= r.prec && TypeOf(op1).prec <= r.prec
    requires Free(Narrow(op0, r).prim) && Free(Narrow(op1, r).prim) && PairSafe(Narrow(op0, r), Narrow(op1, r), r)
    requires KeepsExtension(Narrow(op0, r), r) || KeepsExtension(Narrow(op1, r), r)
    ensures Answer(ShortenCompare(op0, op1, r, code), env) == Original(op0, op1, r, code, env)
  {
    hide ShortenCompare, Answer, Narrow, UsesNarrow, KeepsExtension, Harmless, Original, Assumed, Holds, Mirror, Free;
    var n0, n1 := Narrow(op0, r), Narrow(op1, r);
    FreeUses(n0, n1, r);
    PairMeaning(op0, op1, r, code, env);
    if UsesNarrow(n0, n1, r) {
      if KeepsExtension(n1, r) {
        SideRight(op0, op1, r, code, env);
      } else {
        SideRight(op1, op0, r, Mirror(code), env);
        HoldsMirror(code, Assumed(n1, r, env), Assumed(n0, r, env));
        OriginalMirror(op0, op1, r, code, env);
      }
    }
  }

  lemma PairWrong(op0: Expr, op1: Expr, r: IntType) returns (code: Code, env: Env)
    requires Folded(op0) && Folded(op1) && TypeOf(op0).prec <= r.prec && TypeOf(op1).prec <= r.prec
    requires Free(Narrow(op0, r).prim) && Free(Narrow(op1, r).prim) && !PairSafe(Narrow(op0, r), Narrow(op1, r), r)
    requires VarOf(Narrow(op0, r).prim) != VarOf(Narrow(op1, r).prim)
    requires KeepsExtension(Narrow(op0, r), r) || KeepsExtension(Narrow(op1, r), r)
    ensures Answer(ShortenCompare(op0, op1, r, code), env) != Original(op0, op1, r, code, env)
  {
    hide ShortenCompare, Answer, Narrow, UsesNarrow, KeepsExtension, Original, Assumed, Holds, Mirror, Free, Fault, Against, Extreme;
    var n0, n1 := Narrow(op0, r), Narrow(op1, r);
    FreeUses(n0, n1, r);
    if !Harmless(n0, n1, r) {
      code, env := Fault(n0, n1), id => if id == VarOf(n0.prim) then Extreme(n0) else Against(n0, n1);
      SideWrong(op0, op1, r, env);
    } else {
      code, env := Mirror(Fault(n1, n0)), id => if id == VarOf(n1.prim) then Extreme(n1) else Against(n1, n0);
      SideWrong(op1, op0, r, env);
      HoldsMirror(Fault(n1, n0), Assumed(n0, r, env), Assumed(n1, r, env));
      OriginalMirror(op1, op0, r, Fault(n1, n0), env);
    }
    PairMeaning(op0, op1, r, code, env);
  }

  /** A sign extension re-read as unsigned: `(unsigned) sc == 0xffffffffULL` with sc -1 is
      true as written and folded to false. */
  lemma WrongForResignedExtension()
    ensures var op := Conv(Width(32, true), Var(0, Width(8, false), false));
            var k := Cst(0xFFFF_FFFF, Width(64, true));
            && ShortenCompare(op, k, Width(64, true), EQ) == Known(false, op.arg)
            && Original(op, k, Width(64, true), EQ, (_ => -1))
  {
    hide Pow2;
    var u64: IntType := Width(64, true);
    PowersUsed();
    ConvertFits(Width(8, false), -1);
    AsUnsigned(Width(32, true), -1);
    ConvertFits(u64, 0xFFFF_FFFF);
    ConvertFits(Signed(u64), 0xFFFF_FFFF);
    ConvertFits(Signed(u64), -128);
    ConvertFits(Signed(u64), 127);
  }

  /** An unsigned value re-read as signed: `(int) u == -1LL` with u 4294967295 likewise. */
  lemma WrongForResignedValue()
    ensures var op := Conv(Width(32, false), Var(0, Width(32, true), false));
            var k := Cst(-1, Width(64, false));
            && ShortenCompare(op, k, Width(64, false), EQ) == Known(false, op.arg)
            && Original(op, k, Width(64, false), EQ, (_ => 0xFFFF_FFFF))
  {
    hide Pow2;
    var s64: IntType := Width(64, false);
    PowersUsed();
    ConvertFits(Width(32, true), 0xFFFF_FFFF);
    AsSigned(Width(32, false), 0xFFFF_FFFF);
    ConvertFits(s64, -1);
    ConvertFits(s64, 0);
    ConvertFits(s64, 0xFFFF_FFFF);
  }

  lemma ShortenEffects(n0: Operand, n1: Operand, restype: IntType, code: Code)
    requires Effects(n0.prim) == Effects(n0.op) && Effects(n1.prim) == Effects(n1.op)
    ensures OutcomeEffects(Shorten(n0, n1, restype, code)) == Effects(n0.op) + Effects(n1.op)
  {
    if n1.prim.Cst? && Narrower(n0, restype) {
      assert forall t: IntType, k: Expr :: k.Cst? ==> Effects(Conv(t, k)) == {};
      assert forall t: IntType :: Effects(Conv(t, n0.prim)) == Effects(n0.op);
    } else if UsesNarrow(n0, n1, restype) {
      assert Effects(Conv(WithSign(n0.uns, TypeOf(n0.prim)), n0.prim)) == Effects(n0.op);
      assert Effects(Conv(WithSign(n1.uns, TypeOf(n1.prim)), n1.prim)) == Effects(n1.op);
    }
  }

  /** No operand with side effects is lost or evaluated where it was not before. */
  lemma EffectsKept(op0: Expr, op1: Expr, restype: IntType, code: Code)
    requires Folded(op0) && Folded(op1)
    ensures OutcomeEffects(ShortenCompare(op0, op1, restype, code)) == Effects(op0) + Effects(op1)
  {
    var env := _ => 0;
    NarrowOk(op0, restype, env);
    NarrowOk(op1, restype, env);
    var n0, n1 := Narrow(op0, restype), Narrow(op1, restype);
    if Swapped(n0, n1) {
      ShortenEffects(n1, n0, restype, Mirror(code));
    } else {
      ShortenEffects(n0, n1, restype, code);
    }
  }
}
