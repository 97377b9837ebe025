/** When the entry after a menu entry is taken to depend on it, and how dependencies are handed down (menu.c). */
module SubmenuTest {
  import opened Tristates
  import opened Exprs
  import opened ExprEqs
  import opened Transforms
  import opened Dups

  /** The expression for "differs from n" that the test works on. */
  function NotZero(e: Option<Expr>): Expr {
    EliminateDups(Transform(CompareOpt(e, false, NoSym)))
  }

  /** Whether an entry that depends on `dep` becomes part of the submenu of `s`, whose prompt depends on `base`. */
  predicate Captures(base: Option<Expr>, s: Symbol, dep: Option<Expr>) {
    && dep.Some?
    && ContainsSymbol(dep.value, s)
    && (DependsOnSymbol(dep.value, s) || EliminateEq(NotZero(dep), NotZero(base)).1 == Sym(YesSym))
  }

  /** Comparing, transforming and removing duplicates lose nothing, because a comparison is never m. */
  lemma NotZeroKeepsComparison(e: Option<Expr>, env: Env)
    requires TwoValued(env)
    ensures Eval(NotZero(e), env) == Eval(CompareOpt(e, false, NoSym), env)
  {
    var c := CompareOpt(e, false, NoSym);
    if e.Some? {
      CompareIsTwoValued(e.value, false, NoSym, env);
    }
    TransformPreservesValue(c, env);
    EliminateDupsRefines(Transform(c), env);
  }

  lemma NotZeroExact(e: Option<Expr>, env: Env)
    requires TwoValued(env)
    requires e.Some? ==> LogicalOperands(e.value) && NegationsDefinite(e.value, env)
    ensures Eval(NotZero(e), env) == FromBool(EvalOpt(e, env) != NO)
  {
    NotZeroKeepsComparison(e, env);
    if e.Some? {
      CompareExact(e.value, false, NoSym, env);
    }
  }

  /** On normal forms the expression is y only if the value is not n, and it is y if the value is y. */
  lemma NotZeroOnNormalForms(e: Option<Expr>, env: Env)
    requires TwoValued(env)
    requires e.Some? ==> LogicalOperands(e.value) && Nnf(e.value)
    ensures Eval(NotZero(e), env) != NO ==> EvalOpt(e, env) != NO
    ensures EvalOpt(e, env) == YES ==> Eval(NotZero(e), env) == YES
  {
    NotZeroKeepsComparison(e, env);
    if e.Some? {
      CompareDecidesSharp(e.value, false, NoSym, env);
      SharpBelowOnNormalForms(e.value, env);
    }
  }

  /** Entries are captured only below what they need: visible at all requires the symbol or its prompt. */
  lemma {:induction false} CapturedImpliesParent(base: Option<Expr>, s: Symbol, dep: Option<Expr>, env: Env)
    requires Captures(base, s, dep) && TwoValued(env) && s.IsLogical()
    requires LogicalOperands(dep.value) && NegationsDefinite(dep.value, env)
    requires base.Some? ==> LogicalOperands(base.value) && NegationsDefinite(base.value, env)
    ensures EvalOpt(dep, env) != NO ==> TriOf(env, s) != NO || EvalOpt(base, env) != NO
  {
    if EvalOpt(dep, env) != NO {
      if DependsOnSymbol(dep.value, s) {
        DependsOnSymbolSound(dep.value, s, env);
      } else {
        EliminateEqImplication(NotZero(dep), NotZero(base), env);
        NotZeroExact(dep, env);
        NotZeroExact(base, env);
      }
    }
  }

  /** Without any condition on m values, for the normal forms the program feeds in: a full y is enough. */
  lemma {:induction false} CapturedYesImpliesParent(base: Option<Expr>, s: Symbol, dep: Option<Expr>, env: Env)
    requires Captures(base, s, dep) && TwoValued(env) && s.IsLogical()
    requires LogicalOperands(dep.value) && Nnf(dep.value)
    requires base.Some? ==> LogicalOperands(base.value) && Nnf(base.value)
    ensures EvalOpt(dep, env) == YES ==> TriOf(env, s) != NO || EvalOpt(base, env) != NO
  {
    if EvalOpt(dep, env) == YES {
      if DependsOnSymbol(dep.value, s) {
        DependsOnSymbolSound(dep.value, s, env);
      } else {
        EliminateEqImplication(NotZero(dep), NotZero(base), env);
        NotZeroOnNormalForms(dep, env);
        NotZeroOnNormalForms(base, env);
      }
    }
  }

  // ----- dependency propagation -----

  /** The dependency of an entry after its parent's has been added and simplified. */
  function HandDown(parent: Option<Expr>, own: Option<Expr>): Option<Expr> {
    var own' := if own.None? then None else Some(Transform(own.value));
    var all := AllocAnd(parent, own');
    if all.None? then None else Some(EliminateDups(all.value))
  }

  /** The visibility expression of a property: like the entry's dependency, weakened for non-tristate symbols. */
  function HandDownVisible(parent: Option<Expr>, own: Option<Expr>, tristateOrNoSymbol: bool): Option<Expr> {
    var all := HandDown(parent, own);
    if all.None? || tristateOrNoSymbol then all else Some(TransBool(all.value))
  }

  /** Handing down is conjunction, up to sharpening an m. */
  lemma HandDownRefines(parent: Option<Expr>, own: Option<Expr>, env: Env)
    requires TwoValued(env)
    ensures Refines(Min(EvalOpt(parent, env), EvalOpt(own, env)), EvalOpt(HandDown(parent, own), env))
  {
    if own.Some? {
      TransformPreservesValue(own.value, env);
    }
    var own' := if own.None? then None else Some(Transform(own.value));
    var all := AllocAnd(parent, own');
    if all.Some? {
      EliminateDupsRefines(all.value, env);
    }
  }
}
