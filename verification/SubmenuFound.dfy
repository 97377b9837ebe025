/** Which entries are bound to become part of an implied submenu (menu_finalize in menu.c). */
module SubmenuFound {
  import opened Tristates
  import opened Exprs
  import opened ExprEqs
  import opened ExprEqComplete
  import opened ExprKeys
  import opened Transforms
  import opened Spines
  import opened Dups
  import opened SubmenuTest
  import opened Polarity
  import opened DupsFound

  /** An operand that is n whenever the symbol is. */
  predicate Requires(x: Expr, s: Symbol) {
    x == Sym(s) || x == Eq(s, YesSym) || x == Eq(s, ModSym) || x == Ne(s, NoSym)
  }

  predicate SomeRequires(ls: seq<Expr>, s: Symbol) {
    exists k :: 0 <= k < |ls| && Requires(ls[k], s)
  }

  lemma SomeRequiresConcat(a: seq<Expr>, b: seq<Expr>, s: Symbol)
    ensures SomeRequires(a + b, s) <==> SomeRequires(a, s) || SomeRequires(b, s)
  {
    if SomeRequires(a, s) {
      var k :| 0 <= k < |a| && Requires(a[k], s);
      assert Requires((a + b)[k], s);
    }
    if SomeRequires(b, s) {
      var k :| 0 <= k < |b| && Requires(b[k], s);
      assert Requires((a + b)[|a| + k], s);
    }
  }

  /** expr_depends_symbol looks at all operands of the outermost AND, and at nothing else. */
  lemma {:induction false} DependsIff(e: Expr, s: Symbol)
    ensures DependsOnSymbol(e, s) <==> SomeRequires(Leaves(AndOp, e), s)
  {
    if IsNode(AndOp, e) {
      DependsIff(e.l, s);
      DependsIff(e.r, s);
      SomeRequiresConcat(Leaves(AndOp, e.l), Leaves(AndOp, e.r), s);
    } else {
      assert Leaves(AndOp, e)[0] == e;
    }
  }

  /** A dependency on the symbol is enough, whatever the prompt above requires. */
  lemma DependentIsCaptured(base: Option<Expr>, s: Symbol, dep: Expr)
    requires DependsOnSymbol(dep, s)
    ensures Captures(base, s, Some(dep))
  {
    DependsImpliesContains(dep, s);
  }

  /** Below a prompt without condition, or a symbol without prompt, mentioning the symbol is enough. */
  lemma UnconditionalCaptures(s: Symbol, dep: Option<Expr>)
    ensures Captures(None, s, dep) <==> dep.Some? && ContainsSymbol(dep.value, s)
  {
    assert NotZero(None) == Sym(YesSym);
    YesNoRight(NotZero(dep), Sym(YesSym));
  }

  /** The entry above is always y, or the entry has all the operands of its condition, and at least two. */
  ghost predicate Implied(base: Option<Expr>, dep: Option<Expr>) {
    var d, b := NotZero(dep), NotZero(base);
    b == Sym(YesSym) || (IsNode(AndOp, d) && AllLive(AndOp, b) && Covers(AndOp, d, b))
  }

  /** No boolean symbol is compared with m. */
  predicate NoModTest(e: Expr) {
    match e
    case Not(x) => NoModTest(x)
    case Bin(_, l, r) => NoModTest(l) && NoModTest(r)
    case Eq(a, b) => !(a.Type() == BooleanType && b == ModSym)
    case Ne(a, b) => !(a.Type() == BooleanType && b == ModSym)
    case _ => true
  }

  lemma {:induction false} SoughtIsFolded(e: Expr, nonzero: bool)
    requires NoModTest(e)
    ensures Folded(Sought(e, nonzero)) && Nnf(Sought(e, nonzero)) && !IsYesNo(Sought(e, nonzero))
  {
    match e
    case Sym(s) =>
      assert s.Type() == BooleanType ==> s.Config?;
    case Not(x) => SoughtIsFolded(x, !nonzero);
    case Bin(_, l, r) =>
      SoughtIsFolded(l, nonzero);
      SoughtIsFolded(r, nonzero);
    case Eq(a, b) => assert a.Type() == BooleanType ==> a.Config?;
    case Ne(a, b) => assert a.Type() == BooleanType ==> a.Config?;
  }

  /** Then "differs from n" has no y or n operand. */
  lemma NotZeroFolds(e: Option<Expr>)
    requires e.Some? ==> NoModTest(e.value)
    ensures Folded(NotZero(e))
  {
    if e.Some? {
      NotZeroIsSought(e.value);
      SoughtIsFolded(e.value, true);
      EliminateDupsKeepsFolded(Sought(e.value, true));
    }
  }

  /** Exactly which entries are taken. */
  lemma CapturesIff(base: Option<Expr>, s: Symbol, dep: Expr)
    requires Folded(NotZero(Some(dep))) && Folded(NotZero(base))
    ensures Captures(base, s, Some(dep)) <==>
            ContainsSymbol(dep, s) && (DependsOnSymbol(dep, s) || Implied(base, Some(dep)))
  {
    EliminateEqIff(NotZero(Some(dep)), NotZero(base));
  }
}
