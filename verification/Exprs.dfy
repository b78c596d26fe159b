/** Integer expressions of the C front end, as far as narrowing looks at them. */
module Exprs {
  import opened IntTypes

  /** A variable (any other operand; `effects` if evaluating it has side effects), an
      INTEGER_CST, or a NOP_EXPR conversion. */
  datatype Expr =
    | Var(id: nat, vty: IntType, effects: bool)
    | Cst(value: int, cty: IntType)
    | Conv(to: IntType, arg: Expr)

  type Env = nat -> int

  function TypeOf(e: Expr): IntType {
    match e
    case Var(_, t, _) => t
    case Cst(_, t) => t
    case Conv(t, _) => t
  }

  /** As the front end builds them: constants fit their type and conversions of constants are folded. */
  predicate Folded(e: Expr) {
    match e
    case Var(_, _, _) => true
    case Cst(v, t) => Fits(t, v)
    case Conv(_, a) => !a.Cst? && Folded(a)
  }

  ghost function Eval(e: Expr, env: Env): (v: int)
    ensures Fits(TypeOf(e), v)
  {
    match e
    case Var(id, t, _) => Convert(t, env(id))
    case Cst(v, t) => Convert(t, v)
    case Conv(t, a) => Convert(t, Eval(a, env))
  }

  /** The variables whose evaluation has side effects. */
  function Effects(e: Expr): set<nat> {
    match e
    case Var(id, _, effects) => if effects then {id} else {}
    case Cst(_, _) => {}
    case Conv(_, a) => Effects(a)
  }

  /** The bits of e extended as `uns` says. */
  ghost function Extended(e: Expr, uns: bool, env: Env): (v: int)
    ensures Fits(WithSign(uns, TypeOf(e)), v)
  {
    Convert(WithSign(uns, TypeOf(e)), Eval(e, env))
  }

  // Expressions that take every value of their type.

  /** How many low bits of e are just those of its variable. */
  function FreeBits(e: Expr): (n: nat)
    ensures n <= TypeOf(e).prec
  {
    match e
    case Var(_, t, _) => t.prec
    case Cst(_, _) => 0
    case Conv(t, a) => if t.prec < FreeBits(a) then t.prec else FreeBits(a)
  }

  /** A variable, or one cut down to the type of e. */
  predicate Free(e: Expr) { FreeBits(e) == TypeOf(e).prec }

  function VarOf(e: Expr): nat {
    match e
    case Var(id, _, _) => id
    case Cst(_, _) => 0
    case Conv(_, a) => VarOf(a)
  }

  lemma {:induction false} FreeLow(e: Expr, t: IntType, env: Env)
    requires t.prec <= FreeBits(e)
    ensures Convert(t, Eval(e, env)) == Convert(t, env(VarOf(e)))
    decreases e
  {
    match e
    case Var(id, vty, _) => ConvertThrough(t, vty, env(id));
    case Cst(_, _) =>
    case Conv(to, a) =>
      ConvertThrough(t, to, Eval(a, env));
      FreeLow(a, t, env);
  }

  /** Whatever extends it, a value of that type is what its variable is given. */
  lemma FreeExtended(e: Expr, uns: bool, env: Env)
    requires Free(e) && Fits(WithSign(uns, TypeOf(e)), env(VarOf(e)))
    ensures Extended(e, uns, env) == env(VarOf(e))
  {
    FreeLow(e, WithSign(uns, TypeOf(e)), env);
    ConvertFits(WithSign(uns, TypeOf(e)), env(VarOf(e)));
  }

  datatype Narrowed = Narrowed(win: Expr, uns: bool)

  /** What get_narrower returns from the state its loop is in. */
  function Strip(op: Expr, win: Expr, uns: bool, first: bool): Narrowed {
    match op
    case Conv(t, a) =>
      var inner := TypeOf(a);
      if t.prec < inner.prec then Narrowed(win, uns)
      else if t.prec > inner.prec && !first && uns != inner.uns then Narrowed(win, uns)
      else Strip(a, a, if first then inner.uns else uns, false)
    case _ => Narrowed(win, uns)
  }

  function GetNarrower(op: Expr): Narrowed {
    Strip(op, op, false, true)
  }

  /** The loop of get_narrower on a chain of conversions. */
  method GetNarrowerLoop(expr: Expr) returns (n: Narrowed)
    ensures n == GetNarrower(expr)
  {
    var op, win, uns, first := expr, expr, false, true;
    while op.Conv?
      invariant Strip(op, win, uns, first) == GetNarrower(expr)
      decreases op
    {
      var bitschange := op.to.prec - TypeOf(op.arg).prec;
      if bitschange < 0 {
        break;
      }
      op := op.arg;
      if bitschange > 0 {
        if first {
          uns := TypeOf(op).uns;
        } else if uns != TypeOf(op).uns {
          return Narrowed(win, uns);
        }
      } else if first {
        uns := TypeOf(op).uns;
      }
      first := false;
      win := op;
    }
    n := Narrowed(win, uns);
  }

  /** Stripping a conversion inside keeps the value, given how the outside extends it. */
  lemma {:induction false} StripKeeps(t: IntType, op: Expr, uns: bool, env: Env)
    requires TypeOf(op).prec <= t.prec
    ensures var n := Strip(op, op, uns, false);
            && Convert(t, Extended(n.win, n.uns, env)) == Convert(t, Extended(op, uns, env))
            && TypeOf(n.win).prec <= TypeOf(op).prec && n.uns == uns
            && Effects(n.win) == Effects(op) && (Folded(op) ==> Folded(n.win))
            && (Folded(op) && n.win.Cst? ==> n.win == op)
    decreases op
  {
    if op.Conv? {
      var a, inner := op.arg, TypeOf(op.arg);
      if op.to.prec >= inner.prec && (op.to.prec == inner.prec || uns == inner.uns) {
        StripKeeps(t, a, uns, env);
        var v := Eval(a, env);
        // Extended(op) == Convert((prec of op, uns), Convert(op.to, v))
        ConvertThrough(WithSign(uns, op.to), op.to, v);
        if op.to.prec > inner.prec {
          ConvertFits(WithSign(uns, inner), v);
          FitsWider(inner, WithSign(uns, op.to), v);
          ConvertFits(WithSign(uns, op.to), v);
        }
      }
    }
  }

  /** get_narrower's promise: the operand is its narrow form extended as the flag says,
      then converted to its own type. */
  lemma GetNarrowerOk(op: Expr, env: Env)
    ensures var n := GetNarrower(op);
            && Eval(op, env) == Convert(TypeOf(op), Extended(n.win, n.uns, env))
            && TypeOf(n.win).prec <= TypeOf(op).prec
            && Effects(n.win) == Effects(op) && (Folded(op) ==> Folded(n.win))
            && (Folded(op) && n.win.Cst? ==> n.win == op)
  {
    var t := TypeOf(op);
    if op.Conv? && t.prec >= TypeOf(op.arg).prec {
      StripKeeps(t, op.arg, TypeOf(op.arg).uns, env);
      ConvertFits(TypeOf(op.arg), Eval(op.arg, env));
    } else {
      ConvertThrough(t, Signed(t), Eval(op, env));
      ConvertFits(t, Eval(op, env));
    }
  }
}
