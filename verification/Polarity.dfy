/** The rewriting passes in one go down the tree, and what they keep (expr_transform, expr_trans_* in expr.c). */
module Polarity {
  import opened Tristates
  import opened Exprs
  import opened Transforms

  // ----- expr_transform -----

  /** A comparison, or its opposite; a boolean symbol needs none against y, m or n. */
  function Compared(a: Symbol, b: Symbol, same: bool): Expr {
    if a.Type() == BooleanType && b == YesSym then Negated(!same, Sym(a))
    else if a.Type() == BooleanType && b == NoSym then Negated(same, Sym(a))
    else if a.Type() == BooleanType && b == ModSym then Sym(if same then NoSym else YesSym)
    else if same then Eq(a, b)
    else Ne(a, b)
  }

  /** y and n turn into each other and m stays. */
  function NegatedSymbol(s: Symbol): Expr {
    match s
    case YesSym => Sym(NoSym)
    case NoSym => Sym(YesSym)
    case ModSym => Sym(ModSym)
    case _ => Not(Sym(s))
  }

  /** The normal form of `e`, or of its negation: an even number of negations above an operand cancels out. */
  function Push(e: Expr, negate: bool): Expr {
    match e
    case Sym(s) => if negate then NegatedSymbol(s) else e
    case Not(x) => Push(x, !negate)
    case Bin(op, l, r) => Bin(if negate then op.Dual() else op, Push(l, negate), Push(r, negate))
    case Eq(a, b) => Compared(a, b, !negate)
    case Ne(a, b) => Compared(a, b, negate)
  }

  lemma {:induction false} PushIsNormal(e: Expr, negate: bool)
    ensures Nnf(Push(e, negate))
  {
    match e
    case Not(x) => PushIsNormal(x, !negate);
    case Bin(_, l, r) =>
      PushIsNormal(l, negate);
      PushIsNormal(r, negate);
    case _ =>
  }

  lemma {:induction false} NegatedPush(e: Expr, negate: bool)
    ensures AtNegation(Push(e, negate)) == Push(e, !negate)
  {
    match e
    case Not(x) => NegatedPush(x, !negate);
    case Bin(op, l, r) =>
      var op', l', r' := if negate then op.Dual() else op, Push(l, negate), Push(r, negate);
      PushIsNormal(l, negate);
      PushIsNormal(r, negate);
      NnfIsFixed(l');
      NnfIsFixed(r');
      assert AtNegation(Bin(op', l', r')) == Transform(PushNot(op', l', r'));
      assert Transform(PushNot(op', l', r')) == Bin(op'.Dual(), AtNegation(l'), AtNegation(r'));
      NegatedPush(l, negate);
      NegatedPush(r, negate);
    case _ =>
  }

  /** Rewriting step by step, with every rewritten negation transformed again, is one pass down the tree. */
  lemma {:induction false} TransformIsPush(e: Expr)
    ensures Transform(e) == Push(e, false)
  {
    match e
    case Not(x) =>
      TransformIsPush(x);
      NegatedPush(x, false);
    case Bin(_, l, r) =>
      TransformIsPush(l);
      TransformIsPush(r);
    case _ =>
  }

  // ----- expr_trans_compare with n, transformed -----

  /** That `e` differs from n, or equals it, as a normal form. */
  function Sought(e: Expr, nonzero: bool): Expr {
    match e
    case Sym(s) => Compared(s, NoSym, !nonzero)
    case Not(x) => Sought(x, !nonzero)
    case Bin(op, l, r) => Bin(if nonzero then op else op.Dual(), Sought(l, nonzero), Sought(r, nonzero))
    case Eq(a, b) => Compared(a, b, nonzero)
    case Ne(a, b) => Compared(a, b, !nonzero)
  }

  lemma {:induction false} ComparePushed(e: Expr, same: bool, negate: bool)
    ensures Push(Compare(e, same, NoSym), negate) == Sought(e, same == negate)
  {
    match e
    case Not(x) => ComparePushed(x, !same, negate);
    case Bin(_, l, r) =>
      ComparePushed(l, true, same == negate);
      ComparePushed(r, true, same == negate);
    case _ =>
  }

  /** An AND differs from n if all its operands do, an OR if one does, and so on down the tree. */
  lemma {:induction false} NotZeroIsSought(e: Expr)
    ensures Transform(Compare(e, false, NoSym)) == Sought(e, true)
  {
    TransformIsPush(Compare(e, false, NoSym));
    ComparePushed(e, false, false);
  }

  // ----- expr_trans_compare and expr_trans_bool keep the operands in their order -----

  /** The symbols that are looked at, in order. */
  function Subjects(e: Expr): seq<Symbol> {
    match e
    case Sym(s) => [s]
    case Not(x) => Subjects(x)
    case Bin(_, l, r) => Subjects(l) + Subjects(r)
    case Eq(a, _) => [a]
    case Ne(a, _) => [a]
  }

  lemma {:induction false} CompareKeepsSubjects(e: Expr, same: bool, c: Symbol)
    requires c == YesSym || c == NoSym
    ensures Subjects(Compare(e, same, c)) == Subjects(e)
  {
    match e
    case Not(x) => CompareKeepsSubjects(x, !same, c);
    case Bin(_, l, r) =>
      CompareKeepsSubjects(l, true, c);
      CompareKeepsSubjects(r, true, c);
    case _ =>
  }

  /** A tristate symbol is compared with n somewhere. */
  predicate HasUnequalNo(e: Expr) {
    match e
    case Not(x) => HasUnequalNo(x)
    case Bin(_, l, r) => HasUnequalNo(l) || HasUnequalNo(r)
    case Ne(a, b) => a.Type() == TristateType && b == NoSym
    case _ => false
  }

  /** The bool rewrite removes all of these and nothing else. */
  lemma {:induction false} TransBoolRemovesAll(e: Expr)
    ensures !HasUnequalNo(TransBool(e)) && Subjects(TransBool(e)) == Subjects(e) && Size(TransBool(e)) == Size(e)
    ensures TransBool(e) == e <==> !HasUnequalNo(e)
  {
    match e
    case Not(x) => TransBoolRemovesAll(x);
    case Bin(_, l, r) =>
      TransBoolRemovesAll(l);
      TransBoolRemovesAll(r);
    case _ =>
  }

  /** Where no tristate symbol is m it keeps every value, negations or not. */
  lemma {:induction false} TransBoolKeepsDefinite(e: Expr, env: Env)
    requires forall s: Symbol | s.Config? && s.typ == TristateType :: env.tri(s) != MOD
    ensures Eval(TransBool(e), env) == Eval(e, env)
  {
    match e
    case Not(x) => TransBoolKeepsDefinite(x, env);
    case Bin(_, l, r) =>
      TransBoolKeepsDefinite(l, env);
      TransBoolKeepsDefinite(r, env);
    case Ne(a, b) =>
      if a.Type() == TristateType && b == NoSym {
        assert env.tri(a) != MOD;
      }
    case _ =>
  }

  // ----- expr_contains_symbol -----

  function RenamedSymbol(x: Symbol, s: Symbol, t: Symbol): Symbol {
    if x == s then t else x
  }

  /** The expression with `t` in place of `s`. */
  function Renamed(e: Expr, s: Symbol, t: Symbol): Expr {
    match e
    case Sym(x) => Sym(RenamedSymbol(x, s, t))
    case Not(x) => Not(Renamed(x, s, t))
    case Bin(op, l, r) => Bin(op, Renamed(l, s, t), Renamed(r, s, t))
    case Eq(a, b) => Eq(RenamedSymbol(a, s, t), RenamedSymbol(b, s, t))
    case Ne(a, b) => Ne(RenamedSymbol(a, s, t), RenamedSymbol(b, s, t))
  }

  /** A symbol is contained exactly when it matters what it is called. */
  lemma {:induction false} ContainsIffRenamed(e: Expr, s: Symbol, t: Symbol)
    requires s != t
    ensures ContainsSymbol(e, s) <==> Renamed(e, s, t) != e
    ensures !ContainsSymbol(Renamed(e, s, t), s)
  {
    match e
    case Not(x) => ContainsIffRenamed(x, s, t);
    case Bin(_, l, r) =>
      ContainsIffRenamed(l, s, t);
      ContainsIffRenamed(r, s, t);
    case _ =>
  }
}
