/** Negation push-down, comparison lowering and the bool rewrite (expr.c). */
module Transforms {
  import opened Tristates
  import opened Exprs

  predicate IsYesModNo(s: Symbol) {
    s.YesSym? || s.ModSym? || s.NoSym?
  }

  /** A measure that every rewriting step of expr_transform keeps or lowers. */
  function Weight(e: Expr): (n: nat)
    ensures n >= 1
  {
    match e
    case Sym(_) => 1
    case Not(x) => 2 * Weight(x) + 1
    case Bin(_, l, r) => Weight(l) + Weight(r) + 2
    case Eq(_, _) => 4
    case Ne(_, _) => 4
  }

  /** !(a op b) with the negation pushed to the operands. */
  function PushNot(op: Op, l: Expr, r: Expr): (e: Expr)
    ensures Weight(e) < Weight(Not(Bin(op, l, r)))
  {
    assert Weight(Not(l)) == 2 * Weight(l) + 1 && Weight(Not(r)) == 2 * Weight(r) + 1;
    assert Weight(Bin(op, l, r)) == Weight(l) + Weight(r) + 2;
    Bin(op.Dual(), Not(l), Not(r))
  }

  lemma PushNotValue(op: Op, l: Expr, r: Expr, env: Env)
    ensures Eval(PushNot(op, l, r), env) == Neg(Apply(op, Eval(l, env), Eval(r, env)))
  {}

  /** A boolean symbol compared with y, m or n needs no comparison. */
  function LowerEqual(a: Symbol, b: Symbol): Expr {
    if a.Type() != BooleanType then Eq(a, b)
    else if b == NoSym then Not(Sym(a))
    else if b == ModSym then Sym(NoSym)
    else if b == YesSym then Sym(a)
    else Eq(a, b)
  }

  function LowerUnequal(a: Symbol, b: Symbol): Expr {
    if a.Type() != BooleanType then Ne(a, b)
    else if b == NoSym then Sym(a)
    else if b == ModSym then Sym(YesSym)
    else if b == YesSym then Not(Sym(a))
    else Ne(a, b)
  }

  /** expr_transform: rewritten negations are transformed again, as the original calls itself on them. */
  function Transform(e: Expr): (r: Expr)
    ensures Weight(r) <= Weight(e)
    decreases Weight(e), 1
  {
    match e
    case Sym(_) => e
    case Eq(a, b) => LowerEqual(a, b)
    case Ne(a, b) => LowerUnequal(a, b)
    case Bin(op, l, r) => Bin(op, Transform(l), Transform(r))
    case Not(x) =>
      AtNegation(Transform(x))
  }

  /** The negation of an expression that has been transformed already. */
  function AtNegation(x: Expr): (r: Expr)
    ensures Weight(r) <= Weight(Not(x))
    decreases Weight(Not(x)), 0
  {
    match x
    case Not(y) =>
      assert Weight(x) == 2 * Weight(y) + 1;
      Transform(y)
    case Eq(a, b) => Ne(a, b)
    case Ne(a, b) => Eq(a, b)
    case Bin(op, l, r) => Transform(PushNot(op, l, r))
    case Sym(YesSym) => Sym(NoSym)
    case Sym(ModSym) => Sym(ModSym)
    case Sym(NoSym) => Sym(YesSym)
    case Sym(_) => Not(x)
  }

  /** De Morgan and the lowering of boolean comparisons keep every value. */
  lemma {:induction false} TransformPreservesValue(e: Expr, env: Env)
    requires TwoValued(env)
    ensures Eval(Transform(e), env) == Eval(e, env)
    decreases Weight(e)
  {
    match e
    case Sym(_) =>
    case Eq(_, _) =>
    case Ne(_, _) =>
    case Bin(_, l, r) =>
      TransformPreservesValue(l, env);
      TransformPreservesValue(r, env);
    case Not(x) =>
      TransformPreservesValue(x, env);
      match Transform(x) {
        case Not(y) => TransformPreservesValue(y, env);
        case Bin(op, l, r) =>
          TransformPreservesValue(PushNot(op, l, r), env);
          PushNotValue(op, l, r, env);
        case _ =>
      }
  }

  /** Negations only over symbols other than y, m, n; no boolean symbol compared with y, m or n. */
  predicate Nnf(e: Expr) {
    match e
    case Sym(_) => true
    case Not(x) => x.Sym? && !IsYesModNo(x.s)
    case Bin(_, l, r) => Nnf(l) && Nnf(r)
    case Eq(a, b) => !(a.Type() == BooleanType && IsYesModNo(b))
    case Ne(a, b) => !(a.Type() == BooleanType && IsYesModNo(b))
  }

  lemma {:induction false} TransformNormalises(e: Expr)
    ensures Nnf(Transform(e))
    decreases Weight(e)
  {
    match e
    case Bin(_, l, r) =>
      TransformNormalises(l);
      TransformNormalises(r);
    case Not(x) =>
      TransformNormalises(x);
      match Transform(x) {
        case Not(y) => TransformNormalises(y);
        case Bin(op, l, r) => TransformNormalises(PushNot(op, l, r));
        case _ =>
      }
    case _ =>
  }

  /** The normal forms are exactly the expressions the pass leaves alone. */
  lemma {:induction false} TransformFixpoints(e: Expr)
    ensures Nnf(e) <==> Transform(e) == e
  {
    if Nnf(e) {
      NnfIsFixed(e);
    } else {
      TransformNormalises(e);
    }
  }

  lemma {:induction false} NnfIsFixed(e: Expr)
    requires Nnf(e)
    ensures Transform(e) == e
  {
    match e
    case Bin(_, l, r) =>
      NnfIsFixed(l);
      NnfIsFixed(r);
    case _ =>
  }

  lemma TransformIdempotent(e: Expr)
    ensures Transform(Transform(e)) == Transform(e)
  {
    TransformNormalises(e);
    NnfIsFixed(Transform(e));
  }

  // ----- expr_trans_bool -----

  /** expr_trans_bool: FOO != n becomes FOO for tristate FOO. */
  function TransBool(e: Expr): Expr {
    match e
    case Bin(op, l, r) => Bin(op, TransBool(l), TransBool(r))
    case Not(x) => Not(TransBool(x))
    case Ne(a, b) => if a.Type() == TristateType && b == NoSym then Sym(a) else e
    case _ => e
  }

  /** A y may become m, but on normal forms nothing moves between n and the rest. */
  lemma {:induction false} TransBoolKeepsNonZero(e: Expr, env: Env)
    requires Nnf(e)
    ensures Eval(TransBool(e), env) != NO <==> Eval(e, env) != NO
    ensures Eval(TransBool(e), env) <= Eval(e, env)
  {
    match e
    case Bin(_, l, r) =>
      TransBoolKeepsNonZero(l, env);
      TransBoolKeepsNonZero(r, env);
    case _ =>
  }

  /** Below a negation the rewrite is wrong: !(F != n) is n at F = m, but !F is m. */
  lemma TransBoolNeedsNormalForm(f: Symbol, env: Env)
    requires f.Config? && f.typ == TristateType && env.tri(f) == MOD
    ensures var e := Not(Ne(f, NoSym)); Eval(e, env) == NO && Eval(TransBool(e), env) == MOD
  {}

  // ----- expr_trans_compare -----

  function Negated(yes: bool, e: Expr): Expr {
    if yes then Not(e) else e
  }

  /** expr_trans_compare against y or n; `same` tells E_EQUAL from E_UNEQUAL. */
  function Compare(e: Expr, same: bool, c: Symbol): Expr
    requires c == YesSym || c == NoSym
  {
    match e
    case Bin(op, l, r) =>
      var joined := Bin(if c == YesSym then op else op.Dual(), Compare(l, true, c), Compare(r, true, c));
      Negated(!same, joined)
    case Not(x) => Compare(x, !same, c)
    case Eq(_, _) => Negated(same != (c == YesSym), e)
    case Ne(_, _) => Negated(same != (c == YesSym), e)
    case Sym(s) => if same then Eq(s, c) else Ne(s, c)
  }

  function CompareOpt(e: Option<Expr>, same: bool, c: Symbol): Expr
    requires c == YesSym || c == NoSym
  {
    if e.None? then Negated(!same, Sym(c)) else Compare(e.value, same, c)
  }

  function ConstValue(c: Symbol): Tristate {
    if c == YesSym then YES else NO
  }

  /** Whether the value of `e` stands to the constant as `same` asks. */
  predicate Holds(v: Tristate, same: bool, c: Symbol) {
    (v == ConstValue(c)) == same
  }

  /** The value comparing really decides on: a negated m counts as n against n, and as y against y. */
  function SharpEval(e: Expr, c: Symbol, env: Env): Tristate {
    match e
    case Not(x) =>
      var v := SharpEval(x, c, env);
      if c == YesSym then FromBool(v != YES) else FromBool(v == NO)
    case Bin(op, l, r) => Apply(op, SharpEval(l, c, env), SharpEval(r, c, env))
    case _ => Eval(e, env)
  }

  /** Operands whose string value spells their tristate value. */
  predicate LogicalOperands(e: Expr) {
    match e
    case Sym(s) => s.IsLogical() || IsYesModNo(s)
    case Not(x) => LogicalOperands(x)
    case Bin(_, l, r) => LogicalOperands(l) && LogicalOperands(r)
    case _ => true
  }

  lemma {:induction false} CompareIsTwoValued(e: Expr, same: bool, c: Symbol, env: Env)
    requires c == YesSym || c == NoSym
    ensures Eval(Compare(e, same, c), env) != MOD
  {
    match e
    case Bin(_, l, r) =>
      CompareIsTwoValued(l, true, c, env);
      CompareIsTwoValued(r, true, c, env);
    case Not(x) => CompareIsTwoValued(x, !same, c, env);
    case _ =>
  }

  lemma {:induction false} CompareDecidesSharp(e: Expr, same: bool, c: Symbol, env: Env)
    requires c == YesSym || c == NoSym
    requires LogicalOperands(e)
    ensures Eval(Compare(e, same, c), env) == FromBool(Holds(SharpEval(e, c, env), same, c))
  {
    match e
    case Bin(_, l, r) =>
      CompareDecidesSharp(l, true, c, env);
      CompareDecidesSharp(r, true, c, env);
    case Not(x) => CompareDecidesSharp(x, !same, c, env);
    case _ =>
  }

  /** No negated subexpression evaluates to m. */
  predicate NegationsDefinite(e: Expr, env: Env) {
    match e
    case Not(x) => Eval(x, env) != MOD && NegationsDefinite(x, env)
    case Bin(_, l, r) => NegationsDefinite(l, env) && NegationsDefinite(r, env)
    case _ => true
  }

  lemma {:induction false} SharpIsExactWhenDefinite(e: Expr, c: Symbol, env: Env)
    requires c == YesSym || c == NoSym
    requires NegationsDefinite(e, env)
    ensures SharpEval(e, c, env) == Eval(e, env)
  {
    match e
    case Bin(_, l, r) =>
      SharpIsExactWhenDefinite(l, c, env);
      SharpIsExactWhenDefinite(r, c, env);
    case Not(x) => SharpIsExactWhenDefinite(x, c, env);
    case _ =>
  }

  /** The comparison means what it says when no negated subexpression is m. */
  lemma {:induction false} CompareExact(e: Expr, same: bool, c: Symbol, env: Env)
    requires c == YesSym || c == NoSym
    requires LogicalOperands(e) && NegationsDefinite(e, env)
    ensures Eval(Compare(e, same, c), env) == FromBool(Holds(Eval(e, env), same, c))
  {
    CompareDecidesSharp(e, same, c, env);
    SharpIsExactWhenDefinite(e, c, env);
  }

  /** At one negation the condition is necessary too: comparing !x is right if and only if x is not m. */
  lemma {:induction false} CompareNegationExactIff(x: Expr, same: bool, c: Symbol, env: Env)
    requires c == YesSym || c == NoSym
    requires LogicalOperands(x) && NegationsDefinite(x, env)
    ensures Eval(Compare(Not(x), same, c), env) == FromBool(Holds(Eval(Not(x), env), same, c))
            <==> Eval(x, env) != MOD
  {
    CompareDecidesSharp(Not(x), same, c, env);
    SharpIsExactWhenDefinite(x, c, env);
  }

  /** The comparison of `e` itself says what it should. */
  predicate ExactAt(e: Expr, same: bool, c: Symbol, env: Env)
    requires c == YesSym || c == NoSym
  {
    Eval(Compare(e, same, c), env) == FromBool(Holds(Eval(e, env), same, c))
  }

  /** So do the comparisons of all its subexpressions that are compared on the way. */
  predicate ExactThroughout(e: Expr, c: Symbol, env: Env)
    requires c == YesSym || c == NoSym
  {
    && ExactAt(e, true, c, env) && ExactAt(e, false, c, env)
    && match e
       case Not(x) => ExactThroughout(x, c, env)
       case Bin(_, l, r) => ExactThroughout(l, c, env) && ExactThroughout(r, c, env)
       case _ => true
  }

  /** Operands spell their value as far as the constant is concerned, and nothing negated is m. */
  predicate Comparable(e: Expr, c: Symbol, env: Env)
    requires c == YesSym || c == NoSym
  {
    match e
    case Sym(s) => StrOf(env, s) == StrOf(env, c) <==> TriOf(env, s) == ConstValue(c)
    case Not(x) => Eval(x, env) != MOD && Comparable(x, c, env)
    case Bin(_, l, r) => Comparable(l, c, env) && Comparable(r, c, env)
    case _ => true
  }

  /** When comparing is right all the way down: symbols compare by their strings, negations must not see an m. */
  lemma {:induction false} CompareExactThroughoutIff(e: Expr, c: Symbol, env: Env)
    requires c == YesSym || c == NoSym
    ensures ExactThroughout(e, c, env) <==> Comparable(e, c, env)
  {
    match e
    case Not(x) =>
      CompareExactThroughoutIff(x, c, env);
      if ExactThroughout(x, c, env) {
        assert ExactAt(x, true, c, env) && ExactAt(x, false, c, env);
      }
    case Bin(_, l, r) =>
      CompareExactThroughoutIff(l, c, env);
      CompareExactThroughoutIff(r, c, env);
      if Comparable(e, c, env) {
        CompareOperandsExact(e, c, env);
      }
    case _ =>
  }

  lemma CompareOperandsExact(e: Expr, c: Symbol, env: Env)
    requires c == YesSym || c == NoSym
    requires e.Bin? && ExactAt(e.l, true, c, env) && ExactAt(e.r, true, c, env)
    ensures ExactAt(e, true, c, env) && ExactAt(e, false, c, env)
  {
    var a, b := Compare(e.l, true, c), Compare(e.r, true, c);
    var joined := Bin(if c == YesSym then e.op else e.op.Dual(), a, b);
    assert Compare(e, true, c) == joined && Compare(e, false, c) == Not(joined);
    assert Eval(joined, env) == FromBool(Eval(e, env) == ConstValue(c));
  }

  /** On normal forms the test for "not n" errs on one side only: it never claims too much. */
  lemma {:induction false} SharpBelowOnNormalForms(e: Expr, env: Env)
    requires Nnf(e)
    ensures SharpEval(e, NoSym, env) <= Eval(e, env)
    ensures Eval(e, env) == YES ==> SharpEval(e, NoSym, env) == YES
  {
    match e
    case Bin(_, l, r) =>
      SharpBelowOnNormalForms(l, env);
      SharpBelowOnNormalForms(r, env);
    case _ =>
  }
}
