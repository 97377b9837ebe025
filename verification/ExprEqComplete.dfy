/** The other half of expr_eq and expr_extract_eq: what they are bound to find. */
module ExprEqComplete {
  import opened Tristates
  import opened Exprs
  import opened ExprEqs
  import opened Transforms

  // ----- which expressions expr_eq recognises as equal to themselves -----

  /** Constants with the yes/no flag never cancel: y, n, and every constant made by name. */
  predicate IsInert(e: Expr) {
    e.Sym? && e.s.IsYesNoConst()
  }

  /**
   * How many operands of the outermost row never cancel: every named constant counts once, and every operand that is
   * not recognised itself at least twice.
   */
  function Excess(e: Expr): nat {
    match e
    case Sym(s) => if s.Const? then 1 else 0
    case Not(x) => if Excess(x) <= 1 then 0 else 2
    case Bin(op, l, r) => Share(op, l, Excess(l)) + Share(op, r, Excess(r))
    case _ => 0
  }

  /** What an operand adds to a row of `op`: a row of the other connective adds nothing if it is recognised. */
  function Share(op: Op, t: Expr, excess: nat): nat {
    if t.Bin? && t.op != op && excess <= 1 then 0 else excess
  }

  function Residue(op: Op, t: Expr): nat {
    Share(op, t, Excess(t))
  }

  /** At every row of operands at most one is a named constant, and the others are recognised themselves. */
  predicate SelfEq(e: Expr) {
    match e
    case Not(x) => SelfEq(x)
    case Bin(op, l, r) => Residue(op, l) + Residue(op, r) <= 1
    case _ => true
  }

  lemma {:induction false} SelfEqIsSmall(e: Expr)
    ensures SelfEq(e) <==> Excess(e) <= 1
  {
    match e
    case Not(x) => SelfEqIsSmall(x);
    case _ =>
  }

  /** What is left of `t` when every operand has met an equal one. */
  function Blank(op: Op, t: Expr): Expr {
    if IsNode(op, t) then Bin(op, Blank(op, t.l), Blank(op, t.r))
    else if IsInert(t) then t
    else Neutral(op)
  }

  predicate AllInert(op: Op, t: Expr) {
    if IsNode(op, t) then AllInert(op, t.l) && AllInert(op, t.r) else IsInert(t)
  }

  /** A tree with one operand missing. */
  datatype Context = Hole | LeftOf(k: Context, r: Expr) | RightOf(l: Expr, k: Context)

  function Plug(op: Op, k: Context, t: Expr): Expr {
    match k
    case Hole => t
    case LeftOf(k', r) => Bin(op, Plug(op, k', t), r)
    case RightOf(l, k') => Bin(op, l, Plug(op, k', t))
  }

  /** Nothing to the left of the hole can cancel any more. */
  predicate LeftDone(op: Op, k: Context) {
    match k
    case Hole => true
    case LeftOf(k', _) => LeftDone(op, k')
    case RightOf(l, k') => AllInert(op, l) && LeftDone(op, k')
  }

  function Nest(k: Context, inner: Context): Context {
    match k
    case Hole => inner
    case LeftOf(k', r) => LeftOf(Nest(k', inner), r)
    case RightOf(l, k') => RightOf(l, Nest(k', inner))
  }

  lemma {:induction false} NestPlug(op: Op, k: Context, inner: Context, t: Expr)
    ensures Plug(op, Nest(k, inner), t) == Plug(op, k, Plug(op, inner, t))
    ensures LeftDone(op, k) && LeftDone(op, inner) ==> LeftDone(op, Nest(k, inner))
  {
    match k
    case Hole =>
    case LeftOf(k', _) => NestPlug(op, k', inner, t);
    case RightOf(_, k') => NestPlug(op, k', inner, t);
  }

  lemma {:induction false} BlankIsInert(op: Op, t: Expr)
    ensures AllInert(op, Blank(op, t))
    ensures Residue(op, Blank(op, t)) <= Residue(op, t)
  {
    if IsNode(op, t) {
      BlankIsInert(op, t.l);
      BlankIsInert(op, t.r);
    }
  }

  /** With at most one named constant left, a row folds to that constant, or to y or n. */
  lemma {:induction false} InertFolds(op: Op, t: Expr)
    requires AllInert(op, t) && Residue(op, t) <= 1
    ensures EliminateYn(t).Sym?
    ensures Residue(op, t) == 0 ==> IsYesNo(EliminateYn(t))
  {
    if IsNode(op, t) {
      InertFolds(op, t.l);
      InertFolds(op, t.r);
    }
  }

  /** Inert operands never cancel: not when they are walked against a tree, nor when a tree consists of them. */
  lemma {:induction false} InertNeverCancels(op: Op, x: Expr, t: Expr)
    requires !IsNode(op, x)
    requires IsInert(x) || AllInert(op, t)
    ensures CancelPairs(op, x, t) == (x, t)
  {
    if IsNode(op, t) {
      InertNeverCancels(op, x, t.l);
      InertNeverCancels(op, x, t.r);
    }
  }

  lemma {:induction false} OperandCancelsItself(op: Op, k: Context, x: Expr)
    requires !IsNode(op, x) && LeftDone(op, k)
    requires IsInert(x) || ExprEq(x, x)
    ensures CancelPairs(op, x, Plug(op, k, x)) == (Blank(op, x), Plug(op, k, Blank(op, x)))
  {
    match k
    case Hole =>
    case LeftOf(k', r) =>
      OperandCancelsItself(op, k', x);
      InertNeverCancels(op, Blank(op, x), r);
    case RightOf(l, k') =>
      InertNeverCancels(op, x, l);
      OperandCancelsItself(op, k', x);
  }

  lemma {:induction false} TreeCancelsItself(op: Op, k: Context, t: Expr)
    requires LeftDone(op, k) && Residue(op, t) <= 1
    ensures CancelPairs(op, t, Plug(op, k, t)) == (Blank(op, t), Plug(op, k, Blank(op, t)))
    decreases Size(t), 1
  {
    if IsNode(op, t) {
      var k1, k2 := LeftOf(Hole, t.r), RightOf(Blank(op, t.l), Hole);
      BlankIsInert(op, t.l);
      assert LeftDone(op, k1) && LeftDone(op, k2) by { assert LeftDone(op, Hole); }
      NestPlug(op, k, k1, t.l);
      NestPlug(op, k, k1, Blank(op, t.l));
      TreeCancelsItself(op, Nest(k, k1), t.l);
      NestPlug(op, k, k2, t.r);
      NestPlug(op, k, k2, Blank(op, t.r));
      TreeCancelsItself(op, Nest(k, k2), t.r);
    } else {
      if !IsInert(t) {
        SelfEqIsSmall(t);
        SelfEqSuffices(t);
      }
      OperandCancelsItself(op, k, t);
    }
  }

  lemma {:induction false} SelfEqSuffices(e: Expr)
    requires SelfEq(e)
    ensures ExprEq(e, e)
    decreases Size(e), 0
  {
    match e
    case Not(x) => SelfEqSuffices(x);
    case Bin(op, l, r) =>
      TreeCancelsItself(op, LeftOf(Hole, r), l);
      BlankIsInert(op, l);
      TreeCancelsItself(op, RightOf(Blank(op, l), Hole), r);
      BlankIsInert(op, e);
      InertFolds(op, Blank(op, e));
      assert CancelRoots(e, e) == (Blank(op, e), Blank(op, e));
    case _ =>
  }

  /** No y or n is an operand of any AND/OR node, not even below a negation. */
  predicate Folded(e: Expr) {
    match e
    case Not(x) => Folded(x)
    case Bin(_, l, r) => !IsYesNo(l) && !IsYesNo(r) && Folded(l) && Folded(r)
    case _ => true
  }

  /** A folded row of which some operands have been cancelled. */
  predicate PartlyCancelled(op: Op, t: Expr) {
    if IsNode(op, t) then PartlyCancelled(op, t.l) && PartlyCancelled(op, t.r)
    else t == Neutral(op) || (Folded(t) && !IsYesNo(t))
  }

  lemma {:induction false} FoldedRow(op: Op, t: Expr)
    requires Folded(t) && !IsYesNo(t)
    ensures PartlyCancelled(op, t)
  {
    if IsNode(op, t) {
      FoldedRow(op, t.l);
      FoldedRow(op, t.r);
    }
  }

  lemma {:induction false} FoldedIsFixed(e: Expr)
    requires Folded(e)
    ensures EliminateYn(e) == e
  {
    match e
    case Bin(_, l, r) =>
      FoldedIsFixed(l);
      FoldedIsFixed(r);
    case _ =>
  }

  /** Folding only removes cancelled operands, so a single symbol is left only of a small residue. */
  lemma {:induction false} CancelledFolds(op: Op, t: Expr)
    requires PartlyCancelled(op, t)
    ensures EliminateYn(t) != Absorbing(op)
    ensures EliminateYn(t) == Neutral(op) ==> Residue(op, t) == 0
    ensures EliminateYn(t).Sym? ==> Residue(op, t) <= 1
  {
    if IsNode(op, t) {
      CancelledFolds(op, t.l);
      CancelledFolds(op, t.r);
    } else if t != Neutral(op) {
      FoldedIsFixed(t);
    }
  }

  /** Named constants and operands that are not recognised stay behind, whatever the other side is. */
  lemma {:induction false} ResidueStays(op: Op, e1: Expr, e2: Expr)
    requires PartlyCancelled(op, e1)
    ensures PartlyCancelled(op, CancelPairs(op, e1, e2).0)
    ensures Residue(op, CancelPairs(op, e1, e2).0) >= Residue(op, e1)
    decreases Size(e1) + Size(e2), if IsNode(op, e1) || IsNode(op, e2) then 0 else 3
  {
    if IsNode(op, e1) {
      ResidueStays(op, e1.l, e2);
      ResidueStays(op, e1.r, CancelPairs(op, e1.l, e2).1);
    } else if IsNode(op, e2) {
      ResidueStays(op, e1, e2.l);
      ResidueStays(op, CancelPairs(op, e1, e2.l).0, e2.r);
    } else if Residue(op, e1) >= 2 {
      SelfEqIsSmall(e1);
      NotSelfEqMatchesNothing(e1, e2);
    }
  }

  /** An expression that is not recognised as itself is not recognised as anything else either. */
  lemma {:induction false} NotSelfEqMatchesNothing(e1: Expr, e2: Expr)
    requires Folded(e1) && !SelfEq(e1)
    ensures !ExprEq(e1, e2)
    decreases Size(e1) + Size(e2), 2
  {
    match (e1, e2)
    case (Not(x1), Not(x2)) => NotSelfEqMatchesNothing(x1, x2);
    case (Bin(op, _, _), Bin(op2, _, _)) =>
      if op == op2 {
        FoldedRow(op, e1);
        ResidueStays(op, e1, e2);
        assert CancelRoots(e1, e2) == CancelPairs(op, e1, e2);
        CancelledFolds(op, CancelPairs(op, e1, e2).0);
      }
    case _ =>
  }

  /** Exactly which folded expressions expr_eq recognises as equal to themselves. */
  lemma ExprEqSelfIff(e: Expr)
    requires Folded(e)
    ensures ExprEq(e, e) <==> SelfEq(e)
  {
    if SelfEq(e) {
      SelfEqSuffices(e);
    } else {
      NotSelfEqMatchesNothing(e, e);
    }
  }

  /** Folding a normal form makes it such an expression. */
  lemma {:induction false} FoldedNormalForm(e: Expr)
    requires Nnf(e) && !HasYesNo(e)
    ensures Folded(e)
  {
    match e
    case Bin(_, l, r) =>
      FoldedNormalForm(l);
      FoldedNormalForm(r);
    case _ =>
  }

  /** No operand is a constant made by name (comparisons may still mention one). */
  predicate NoNamedConst(e: Expr) {
    match e
    case Sym(s) => !s.Const?
    case Not(x) => NoNamedConst(x)
    case Bin(_, l, r) => NoNamedConst(l) && NoNamedConst(r)
    case _ => true
  }

  lemma {:induction false} NoNamedConstNoExcess(e: Expr)
    requires NoNamedConst(e)
    ensures Excess(e) == 0
  {
    match e
    case Not(x) => NoNamedConstNoExcess(x);
    case Bin(_, l, r) =>
      NoNamedConstNoExcess(l);
      NoNamedConstNoExcess(r);
    case _ =>
  }

  /** An expression without named constants as operands equals itself, folded or not. */
  lemma ExprEqReflexive(e: Expr)
    requires NoNamedConst(e)
    ensures ExprEq(e, e)
  {
    NoNamedConstNoExcess(e);
    SelfEqIsSmall(e);
    SelfEqSuffices(e);
  }

  /** The smallest failure: the constant test keeps foo and bar from cancelling, so nothing folds. */
  lemma NamedConstantsDefeatExprEq()
    ensures var e := Bin(AndOp, Sym(Const("foo")), Sym(Const("bar"))); !ExprEq(e, e)
  {
    var foo, bar := Sym(Const("foo")), Sym(Const("bar"));
    var e := Bin(AndOp, foo, bar);
    assert Residue(AndOp, foo) == 1 && Residue(AndOp, bar) == 1;
    ExprEqSelfIff(e);
  }

  // ----- expr_extract_eq leaves no common operand behind -----

  /** No operand of `a` equals an operand of `b`, other than the constant planted for a factor. */
  predicate NoCommon(op: Op, a: Expr, b: Expr)
    decreases Size(a) + Size(b)
  {
    if IsNode(op, a) then NoCommon(op, a.l, b) && NoCommon(op, a.r, b)
    else if IsNode(op, b) then NoCommon(op, a, b.l) && NoCommon(op, a, b.r)
    else ExprEq(a, b) ==> a == b == Neutral(op)
  }

  /** `b` is `a` with some operands replaced by the neutral constant. */
  predicate Planted(op: Op, a: Expr, b: Expr) {
    if IsNode(op, a) then IsNode(op, b) && Planted(op, a.l, b.l) && Planted(op, a.r, b.r)
    else b == a || b == Neutral(op)
  }

  lemma {:induction false} PlantedReflexive(op: Op, a: Expr)
    ensures Planted(op, a, a)
  {
    if IsNode(op, a) {
      PlantedReflexive(op, a.l);
      PlantedReflexive(op, a.r);
    }
  }

  lemma {:induction false} PlantedTransitive(op: Op, a: Expr, b: Expr, c: Expr)
    requires Planted(op, a, b) && Planted(op, b, c)
    ensures Planted(op, a, c)
  {
    if IsNode(op, a) {
      PlantedTransitive(op, a.l, b.l, c.l);
      PlantedTransitive(op, a.r, b.r, c.r);
    }
  }

  lemma {:induction false} NoCommonStable(op: Op, a: Expr, b: Expr, a': Expr, b': Expr)
    requires NoCommon(op, a, b) && Planted(op, a, a') && Planted(op, b, b')
    ensures NoCommon(op, a', b')
    decreases Size(a) + Size(b)
  {
    if IsNode(op, a) {
      NoCommonStable(op, a.l, b, a'.l, b');
      NoCommonStable(op, a.r, b, a'.r, b');
    } else if IsNode(op, b) {
      NoCommonStable(op, a, b.l, a', b'.l);
      NoCommonStable(op, a, b.r, a', b'.r);
    }
  }

  /** The result of one walk: nothing in common is left and only neutral constants were planted. */
  ghost predicate Separated(op: Op, e1: Expr, e2: Expr, r1: Expr, r2: Expr) {
    NoCommon(op, r1, r2) && Planted(op, e1, r1) && Planted(op, e2, r2)
  }

  lemma SeparatedLeft(op: Op, acc: Option<Expr>, e1: Expr, e2: Expr)
    requires IsNode(op, e1)
    requires var (acc1, l, m) := ExtractPairs(op, acc, e1.l, e2);
             var (_, r, m') := ExtractPairs(op, acc1, e1.r, m);
             Separated(op, e1.l, e2, l, m) && Separated(op, e1.r, m, r, m')
    ensures var r := ExtractPairs(op, acc, e1, e2); Separated(op, e1, e2, r.1, r.2)
  {
    var (acc1, l, m) := ExtractPairs(op, acc, e1.l, e2);
    var m' := ExtractPairs(op, acc1, e1.r, m).2;
    PlantedTransitive(op, e2, m, m');
    PlantedReflexive(op, l);
    NoCommonStable(op, l, m, l, m');
  }

  lemma SeparatedRight(op: Op, acc: Option<Expr>, e1: Expr, e2: Expr)
    requires !IsNode(op, e1) && IsNode(op, e2)
    requires var (acc1, m, l) := ExtractPairs(op, acc, e1, e2.l);
             var (_, m', r) := ExtractPairs(op, acc1, m, e2.r);
             Separated(op, e1, e2.l, m, l) && Separated(op, m, e2.r, m', r)
    ensures var r := ExtractPairs(op, acc, e1, e2); Separated(op, e1, e2, r.1, r.2)
  {
    var (acc1, m, l) := ExtractPairs(op, acc, e1, e2.l);
    var m' := ExtractPairs(op, acc1, m, e2.r).1;
    PlantedTransitive(op, e1, m, m');
    PlantedReflexive(op, l);
    NoCommonStable(op, m, l, m', l);
  }

  lemma {:induction false} ExtractPairsComplete(op: Op, acc: Option<Expr>, e1: Expr, e2: Expr)
    ensures var r := ExtractPairs(op, acc, e1, e2); Separated(op, e1, e2, r.1, r.2)
    decreases Size(e1) + Size(e2)
  {
    if IsNode(op, e1) {
      var (acc1, _, m) := ExtractPairs(op, acc, e1.l, e2);
      ExtractPairsComplete(op, acc, e1.l, e2);
      ExtractPairsComplete(op, acc1, e1.r, m);
      SeparatedLeft(op, acc, e1, e2);
    } else if IsNode(op, e2) {
      var (acc1, m, _) := ExtractPairs(op, acc, e1, e2.l);
      ExtractPairsComplete(op, acc, e1, e2.l);
      ExtractPairsComplete(op, acc1, m, e2.r);
      SeparatedRight(op, acc, e1, e2);
    }
  }
}
