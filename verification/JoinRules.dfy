/** Which pairs of operands are joined and into what, symbol by symbol (expr_join_or, expr_join_and in expr.c). */
module JoinRules {
  import opened Tristates
  import opened Exprs
  import opened ExprEqs
  import opened Joins

  /** Two tests of one symbol `a` in an AND, and the test that replaces them. */
  predicate AndRule(a: Symbol, x: Expr, y: Expr, r: Expr) {
    || (x == Sym(a) && y == Eq(a, YesSym) && r == Eq(a, YesSym))
    || (x == Sym(a) && y == Ne(a, NoSym) && r == Sym(a))
    || (x == Sym(a) && y == Ne(a, ModSym) && r == Eq(a, YesSym))
    || (a.Type() == TristateType && AndTristateRule(a, x, y, r))
  }

  predicate AndTristateRule(a: Symbol, x: Expr, y: Expr, r: Expr) {
    || (x == Ne(a, YesSym) && y == Ne(a, NoSym) && r == Eq(a, ModSym))
    || (x == Ne(a, YesSym) && y == Ne(a, ModSym) && r == Eq(a, NoSym))
    || (x == Ne(a, ModSym) && y == Ne(a, NoSym) && r == Eq(a, YesSym))
    || (x.Eq? && y.Ne? && x.a == y.a == a && x.b.IsConst() && y.b.IsConst() &&
        r == if x.b == y.b then Sym(NoSym) else x)
  }

  /** The same in an OR. */
  predicate OrRule(a: Symbol, x: Expr, y: Expr, r: Expr) {
    || (a.Type() == TristateType && x == Eq(a, YesSym) && y == Eq(a, ModSym) && r == Ne(a, NoSym))
    || (a.Type() == TristateType && x == Eq(a, YesSym) && y == Eq(a, NoSym) && r == Ne(a, ModSym))
    || (a.Type() == TristateType && x == Eq(a, ModSym) && y == Eq(a, NoSym) && r == Ne(a, YesSym))
    || (a.Type() == BooleanType && x == Sym(a) && y == Not(Sym(a)) && r == Sym(YesSym))
  }

  predicate Rule(op: Op, a: Symbol, x: Expr, y: Expr, r: Expr) {
    a.IsLogical() && if op == AndOp then AndRule(a, x, y, r) else OrRule(a, x, y, r)
  }

  /** A pair on the list, in either order. */
  ghost predicate Listed(op: Op, x: Expr, y: Expr, r: Expr) {
    exists a :: Rule(op, a, x, y, r) || Rule(op, a, y, x, r)
  }

  lemma JoinedIsListed(op: Op, x: Expr, y: Expr, r: Expr)
    requires !ExprEq(x, y) && Join(op, x, y) == Some(r)
    ensures Listed(op, x, y, r)
  {
    var a := FirstSubject(x).value;
    assert Rule(op, a, x, y, r) || Rule(op, a, y, x, r);
  }

  lemma ListedIsJoined(op: Op, a: Symbol, x: Expr, y: Expr, r: Expr)
    requires Rule(op, a, x, y, r)
    ensures !ExprEq(x, y) && !ExprEq(y, x)
    ensures Join(op, x, y) == Join(op, y, x) == Some(r)
  {}

  /** Two operands are joined into `r` exactly when they are equal to `r`, or on the list with `r`. */
  lemma JoinIff(op: Op, x: Expr, y: Expr, r: Expr)
    ensures Join(op, x, y) == Some(r) <==> if ExprEq(x, y) then r == x else Listed(op, x, y, r)
  {
    if !ExprEq(x, y) && Join(op, x, y) == Some(r) {
      JoinedIsListed(op, x, y, r);
    }
    if Listed(op, x, y, r) {
      var a :| Rule(op, a, x, y, r) || Rule(op, a, y, x, r);
      if Rule(op, a, x, y, r) {
        ListedIsJoined(op, a, x, y, r);
      } else {
        ListedIsJoined(op, a, y, x, r);
      }
    }
  }
}
