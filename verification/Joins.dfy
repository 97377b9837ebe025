/** Joining two operands of an AND or OR into one (expr_join_or, expr_join_and in expr.c). */
module Joins {
  import opened Tristates
  import opened Exprs
  import opened ExprEqs

  /** The symbol a first operand is about; comparisons may stand below a negation. */
  function FirstSubject(e: Expr): Option<Symbol> {
    match e
    case Sym(s) => Some(s)
    case Eq(a, _) => Some(a)
    case Ne(a, _) => Some(a)
    case Not(Sym(s)) => Some(s)
    case Not(Eq(a, _)) => Some(a)
    case Not(Ne(a, _)) => Some(a)
    case _ => None
  }

  /** The symbol a second operand is about; only a plain symbol may stand below a negation. */
  function SecondSubject(e: Expr): Option<Symbol> {
    match e
    case Not(x) => if x.Sym? then Some(x.s) else None
    case _ => FirstSubject(e)
  }

  predicate SameLogicalSubject(e1: Expr, e2: Expr) {
    var s1, s2 := FirstSubject(e1), SecondSubject(e2);
    s1.Some? && s1 == s2 && s1.value.IsLogical()
  }

  /** One operand compares with `b1` and the other with `b2`, in either order. */
  predicate EitherOrder(x1: Symbol, x2: Symbol, b1: Symbol, b2: Symbol) {
    (x1 == b1 && x2 == b2) || (x1 == b2 && x2 == b1)
  }

  /** expr_join_or. */
  function JoinOr(e1: Expr, e2: Expr): Option<Expr> {
    if ExprEq(e1, e2) then Some(e1)
    else if !SameLogicalSubject(e1, e2) then None
    else
      var s := FirstSubject(e1).value;
      if s.Type() == TristateType && e1.Eq? && e2.Eq? then
        if EitherOrder(e1.b, e2.b, YesSym, ModSym) then Some(Ne(s, NoSym))
        else if EitherOrder(e1.b, e2.b, YesSym, NoSym) then Some(Ne(s, ModSym))
        else if EitherOrder(e1.b, e2.b, ModSym, NoSym) then Some(Ne(s, YesSym))
        else None
      else if s.Type() == BooleanType &&
              ((e1.Not? && e1.e.Sym? && e2.Sym?) || (e2.Not? && e2.e.Sym? && e1.Sym?)) then
        Some(Sym(YesSym))
      else None
  }

  /** A plain symbol on one side and a comparison satisfying `p` on the other. */
  predicate SymbolWith(e1: Expr, e2: Expr, p: Expr -> bool) {
    (e1.Sym? && p(e2)) || (e2.Sym? && p(e1))
  }

  /** (a = b) && (a != c) for constants b and c. */
  function JoinEqualUnequal(s: Symbol, b: Symbol, c: Symbol): Expr {
    if b != c then Eq(s, b) else Sym(NoSym)
  }

  /** expr_join_and. */
  function JoinAnd(e1: Expr, e2: Expr): Option<Expr> {
    if ExprEq(e1, e2) then Some(e1)
    else if !SameLogicalSubject(e1, e2) then None
    else
      var s := FirstSubject(e1).value;
      if SymbolWith(e1, e2, (c: Expr) => c.Eq? && c.b == YesSym) then Some(Eq(s, YesSym))
      else if SymbolWith(e1, e2, (c: Expr) => c.Ne? && c.b == NoSym) then Some(Sym(s))
      else if SymbolWith(e1, e2, (c: Expr) => c.Ne? && c.b == ModSym) then Some(Eq(s, YesSym))
      else if s.Type() != TristateType then None
      else if e1.Eq? && e2.Ne? && e1.b.IsConst() && e2.b.IsConst() then Some(JoinEqualUnequal(s, e1.b, e2.b))
      else if e1.Ne? && e2.Eq? && e1.b.IsConst() && e2.b.IsConst() then Some(JoinEqualUnequal(s, e2.b, e1.b))
      else if e1.Ne? && e2.Ne? then
        if EitherOrder(e1.b, e2.b, YesSym, NoSym) then Some(Eq(s, ModSym))
        else if EitherOrder(e1.b, e2.b, YesSym, ModSym) then Some(Eq(s, NoSym))
        else if EitherOrder(e1.b, e2.b, ModSym, NoSym) then Some(Eq(s, YesSym))
        else None
      else None
  }

  function Join(op: Op, e1: Expr, e2: Expr): (r: Option<Expr>)
    ensures r.Some? ==> Size(r.value) <= Size(e1)
    ensures r.Some? && !IsNode(op, e1) ==> !IsNode(op, r.value)
  {
    match op
    case AndOp => JoinAnd(e1, e2)
    case OrOp => JoinOr(e1, e2)
  }

  lemma {:induction false} JoinOrExact(e1: Expr, e2: Expr, env: Env)
    requires TwoValued(env) && JoinOr(e1, e2).Some?
    ensures Eval(JoinOr(e1, e2).value, env) == Max(Eval(e1, env), Eval(e2, env))
  {
    if ExprEq(e1, e2) {
      ExprEqSound(e1, e2, env);
    }
  }

  lemma {:induction false} JoinAndExact(e1: Expr, e2: Expr, env: Env)
    requires TwoValued(env) && JoinAnd(e1, e2).Some?
    ensures Eval(JoinAnd(e1, e2).value, env) == Min(Eval(e1, env), Eval(e2, env))
  {
    if ExprEq(e1, e2) {
      ExprEqSound(e1, e2, env);
    }
  }

  /** A join has the value of the pair it replaces, in every environment with two-valued booleans. */
  lemma {:induction false} JoinExact(op: Op, e1: Expr, e2: Expr, env: Env)
    requires TwoValued(env) && Join(op, e1, e2).Some?
    ensures Eval(Join(op, e1, e2).value, env) == Apply(op, Eval(e1, env), Eval(e2, env))
  {
    match op
    case AndOp => JoinAndExact(e1, e2, env);
    case OrOp => JoinOrExact(e1, e2, env);
  }
}
