/** Constant elimination, structural equality by cancellation, and common-factor extraction (expr.c). */
module ExprEqs {
  import opened Tristates
  import opened Exprs

  /** One folding step on operands that are already folded. */
  function FoldOne(op: Op, l: Expr, r: Expr): Expr {
    if l == Absorbing(op) then Absorbing(op)
    else if l == Neutral(op) then r
    else if r == Absorbing(op) then Absorbing(op)
    else if r == Neutral(op) then l
    else Bin(op, l, r)
  }

  /** expr_eliminate_yn: folds y and n operands of AND/OR away, without looking below a negation. */
  function EliminateYn(e: Expr): (r: Expr)
    ensures Size(r) <= Size(e)
    ensures !e.Bin? ==> r == e
  {
    match e
    case Bin(op, l, r) =>
      FoldOne(op, EliminateYn(l), EliminateYn(r))
    case _ => e
  }

  lemma FoldOnePreservesValue(op: Op, l: Expr, r: Expr, env: Env)
    ensures Eval(FoldOne(op, l, r), env) == Eval(Bin(op, l, r), env)
  {
    ApplyUnits(op, Eval(l, env));
    ApplyUnits(op, Eval(r, env));
  }

  lemma {:induction false} EliminateYnPreservesValue(e: Expr, env: Env)
    ensures Eval(EliminateYn(e), env) == Eval(e, env)
  {
    match e
    case Bin(op, l, r) =>
      EliminateYnPreservesValue(l, env);
      EliminateYnPreservesValue(r, env);
      var l', r' := EliminateYn(l), EliminateYn(r);
      assert Eval(e, env) == Eval(Bin(op, l', r'), env);
      FoldOnePreservesValue(op, l', r', env);
    case _ =>
  }

  /** Some AND/OR node has y or n as an operand. */
  predicate HasYesNo(e: Expr) {
    e.Bin? && (IsYesNo(e.l) || IsYesNo(e.r) || HasYesNo(e.l) || HasYesNo(e.r))
  }

  lemma {:induction false} EliminateYnNormalForm(e: Expr)
    ensures !HasYesNo(EliminateYn(e))
  {
    match e
    case Bin(_, l, r) =>
      EliminateYnNormalForm(l);
      EliminateYnNormalForm(r);
    case _ =>
  }

  lemma FoldOneShrinks(op: Op, l: Expr, r: Expr)
    ensures IsYesNo(l) || IsYesNo(r) ==> Size(FoldOne(op, l, r)) < 1 + Size(l) + Size(r)
    ensures !IsYesNo(l) && !IsYesNo(r) ==> FoldOne(op, l, r) == Bin(op, l, r)
  {}

  /** The fold changes the tree exactly when it finds something to fold, and then the tree gets smaller. */
  lemma {:induction false} EliminateYnShrinks(e: Expr)
    ensures HasYesNo(e) ==> Size(EliminateYn(e)) < Size(e)
    ensures !HasYesNo(e) ==> EliminateYn(e) == e
  {
    match e
    case Bin(op, l, r) =>
      EliminateYnShrinks(l);
      EliminateYnShrinks(r);
      FoldOneShrinks(op, EliminateYn(l), EliminateYn(r));
    case _ =>
  }

  // ----- expr_eq, __expr_eliminate_eq and expr_eliminate_eq -----

  /** expr_eq: AND/OR trees are compared by cancelling common operands on copies and comparing what is left. */
  function ExprEq(e1: Expr, e2: Expr): (r: bool)
    decreases Size(e1) + Size(e2), 2, 0
  {
    match (e1, e2)
    case (Sym(s1), Sym(s2)) => s1 == s2
    case (Eq(a1, b1), Eq(a2, b2)) => a1 == a2 && b1 == b2
    case (Ne(a1, b1), Ne(a2, b2)) => a1 == a2 && b1 == b2
    case (Not(x1), Not(x2)) => ExprEq(x1, x2)
    case (Bin(op1, _, _), Bin(op2, _, _)) =>
      op1 == op2 &&
      var (r1, r2) := EliminateEq(e1, e2);
      r1.Sym? && r1 == r2
    case _ => false
  }

  /** __expr_eliminate_eq: walks every pair of operands and replaces equal ones by the neutral constant. */
  function CancelPairs(op: Op, e1: Expr, e2: Expr): (r: (Expr, Expr))
    ensures Size(r.0) <= Size(e1) && Size(r.1) <= Size(e2)
    ensures IsNode(op, e1) ==> IsNode(op, r.0)
    ensures IsNode(op, e2) ==> IsNode(op, r.1)
    ensures !IsNode(op, e1) ==> r.0 == e1 || r.0 == Neutral(op)
    ensures !IsNode(op, e2) ==> r.1 == e2 || r.1 == Neutral(op)
    decreases Size(e1) + Size(e2), if IsNode(op, e1) || IsNode(op, e2) then 0 else 3, 0
  {
    if IsNode(op, e1) then
      var (l, m) := CancelPairs(op, e1.l, e2);
      var (r, m') := CancelPairs(op, e1.r, m);
      (Bin(op, l, r), m')
    else if IsNode(op, e2) then
      var (m, l) := CancelPairs(op, e1, e2.l);
      var (m', r) := CancelPairs(op, m, e2.r);
      (m', Bin(op, l, r))
    else if e1.Sym? && e1 == e2 && e1.s.IsYesNoConst() then
      (e1, e2)
    else if ExprEq(e1, e2) then
      (Neutral(op), Neutral(op))
    else
      (e1, e2)
  }

  /** expr_eliminate_eq: one walk for the connective of e1, one for that of e2 when it differs, then folding. */
  function EliminateEq(e1: Expr, e2: Expr): (r: (Expr, Expr))
    ensures Size(r.0) <= Size(e1) && Size(r.1) <= Size(e2)
    decreases Size(e1) + Size(e2), 1, 0
  {
    var (b1, b2) := CancelRoots(e1, e2);
    (EliminateYn(b1), EliminateYn(b2))
  }

  function CancelRoots(e1: Expr, e2: Expr): (r: (Expr, Expr))
    ensures Size(r.0) <= Size(e1) && Size(r.1) <= Size(e2)
    decreases Size(e1) + Size(e2), 0, 1
  {
    var (a1, a2) := if e1.Bin? then CancelPairs(e1.op, e1, e2) else (e1, e2);
    if a2.Bin? && !(a1.Bin? && a1.op == a2.op) then CancelPairs(a2.op, a1, a2) else (a1, a2)
  }

  lemma {:induction false} ExprEqSound(e1: Expr, e2: Expr, env: Env)
    requires ExprEq(e1, e2)
    ensures Eval(e1, env) == Eval(e2, env)
    decreases Size(e1) + Size(e2), 2, 0
  {
    match (e1, e2)
    case (Not(x1), Not(x2)) => ExprEqSound(x1, x2, env);
    case (Bin(op, _, _), Bin(_, _, _)) =>
      var (a1, a2) := CancelPairs(op, e1, e2);
      assert CancelRoots(e1, e2) == (a1, a2);
      var f := CancelPairsSound(op, e1, e2, env);
      EliminateYnPreservesValue(a1, env);
      EliminateYnPreservesValue(a2, env);
    case _ =>
  }

  /** Two factors taken out one after the other are one factor of both sides. */
  lemma Regroup(op: Op, f1: Tristate, f2: Tristate, l: Expr, r: Expr, m: Expr, env: Env) returns (f: Tristate)
    ensures f == Apply(op, f1, f2)
    ensures Apply(op, Apply(op, f1, Eval(l, env)), Apply(op, f2, Eval(r, env))) ==
            Apply(op, f, Eval(Bin(op, l, r), env))
    ensures Apply(op, f1, Apply(op, f2, Eval(m, env))) == Apply(op, f, Eval(m, env))
  {
    f := Apply(op, f1, f2);
    ApplyRegroup(op, f1, Eval(l, env), f2, Eval(r, env));
    ApplyAssoc(op, f1, f2, Eval(m, env));
  }

  /** What cancelling does: both sides lose the same factor `f`. */
  lemma {:induction false} CancelPairsSound(op: Op, e1: Expr, e2: Expr, env: Env) returns (f: Tristate)
    ensures Eval(e1, env) == Apply(op, f, Eval(CancelPairs(op, e1, e2).0, env))
    ensures Eval(e2, env) == Apply(op, f, Eval(CancelPairs(op, e1, e2).1, env))
    decreases Size(e1) + Size(e2), if IsNode(op, e1) || IsNode(op, e2) then 0 else 3, 0
  {
    if IsNode(op, e1) {
      var (l, m) := CancelPairs(op, e1.l, e2);
      var (r, m') := CancelPairs(op, e1.r, m);
      var f1 := CancelPairsSound(op, e1.l, e2, env);
      var f2 := CancelPairsSound(op, e1.r, m, env);
      f := Regroup(op, f1, f2, l, r, m', env);
    } else if IsNode(op, e2) {
      var (m, l) := CancelPairs(op, e1, e2.l);
      var (m', r) := CancelPairs(op, m, e2.r);
      var f1 := CancelPairsSound(op, e1, e2.l, env);
      var f2 := CancelPairsSound(op, m, e2.r, env);
      f := Regroup(op, f1, f2, l, r, m', env);
    } else if CancelPairs(op, e1, e2) == (e1, e2) {
      f := NeutralValue(op);
      ApplyUnits(op, Eval(e1, env));
      ApplyUnits(op, Eval(e2, env));
    } else {
      ExprEqSound(e1, e2, env);
      f := Eval(e1, env);
      ApplyUnits(op, f);
    }
  }

  /** Cancellation decides an implication: if everything in e2 cancels, e1 is at most e2. */
  lemma {:induction false} EliminateEqImplication(e1: Expr, e2: Expr, env: Env)
    requires EliminateEq(e1, e2).1 == Sym(YesSym)
    ensures Eval(e1, env) <= Eval(e2, env)
  {
    var (a1, a2) := if e1.Bin? then CancelPairs(e1.op, e1, e2) else (e1, e2);
    if a2.Bin? && !(a1.Bin? && a1.op == a2.op) {
      if e1.Bin? {
        LoneLeafWalkIsIdentity(e1.op, e1, e2);
      }
      OneWalkImplication(a2.op, e1, e2, env);
    } else if e1.Bin? {
      OneWalkImplication(e1.op, e1, e2, env);
    }
  }

  lemma OneWalkImplication(op: Op, e1: Expr, e2: Expr, env: Env)
    requires EliminateYn(CancelPairs(op, e1, e2).1) == Sym(YesSym)
    ensures Eval(e1, env) <= Eval(e2, env)
  {
    var f := CancelPairsSound(op, e1, e2, env);
    EliminateYnPreservesValue(CancelPairs(op, e1, e2).1, env);
  }

  /** A right side that is a single operand and survives as a tree was never matched, so nothing changed. */
  lemma {:induction false} LoneLeafWalkIsIdentity(op: Op, e1: Expr, e2: Expr)
    requires e2.Bin? && e2.op != op
    requires CancelPairs(op, e1, e2).1.Bin?
    ensures CancelPairs(op, e1, e2) == (e1, e2)
  {
    if IsNode(op, e1) {
      var (_, m) := CancelPairs(op, e1.l, e2);
      if m == e2 {
        LoneLeafWalkIsIdentity(op, e1.l, e2);
        LoneLeafWalkIsIdentity(op, e1.r, e2);
      } else {
        NeutralCancelsNothing(op, e1.r);
      }
    }
  }

  /** Against the neutral constant a walk leaves the right side as it is. */
  lemma {:induction false} NeutralCancelsNothing(op: Op, e: Expr)
    ensures CancelPairs(op, e, Neutral(op)) == (e, Neutral(op))
  {
    if IsNode(op, e) {
      NeutralCancelsNothing(op, e.l);
      NeutralCancelsNothing(op, e.r);
    }
  }

  // ----- expr_extract_eq -----

  /** expr_extract_eq: like the cancelling walk, but the equal operands are collected in `acc`. */
  function ExtractPairs(op: Op, acc: Option<Expr>, e1: Expr, e2: Expr): (r: (Option<Expr>, Expr, Expr))
    ensures Size(r.1) <= Size(e1) && Size(r.2) <= Size(e2)
    ensures acc.Some? ==> r.0.Some?
    ensures r.0.None? ==> r.1 == e1 && r.2 == e2
    ensures IsNode(op, e1) <==> IsNode(op, r.1)
    ensures IsNode(op, e2) <==> IsNode(op, r.2)
    decreases Size(e1) + Size(e2)
  {
    if IsNode(op, e1) then
      var (acc1, l, m) := ExtractPairs(op, acc, e1.l, e2);
      var (acc2, r, m') := ExtractPairs(op, acc1, e1.r, m);
      (acc2, Bin(op, l, r), m')
    else if IsNode(op, e2) then
      var (acc1, m, l) := ExtractPairs(op, acc, e1, e2.l);
      var (acc2, m', r) := ExtractPairs(op, acc1, m, e2.r);
      (acc2, m', Bin(op, l, r))
    else if ExprEq(e1, e2) then
      (Some(if acc.None? then e1 else Bin(op, acc.value, e1)), Neutral(op), Neutral(op))
    else
      (acc, e1, e2)
  }

  /** expr_extract_eq_and / expr_extract_eq_or: folding happens only when a factor was found. */
  function ExtractEq(op: Op, e1: Expr, e2: Expr): (r: (Option<Expr>, Expr, Expr)) {
    var (f, r1, r2) := ExtractPairs(op, None, e1, e2);
    if f.Some? then (f, EliminateYn(r1), EliminateYn(r2)) else (f, r1, r2)
  }

  function FactorValue(op: Op, f: Option<Expr>, env: Env): Tristate {
    if f.None? then NeutralValue(op) else Eval(f.value, env)
  }

  /** `d` is what one walk took out of both sides and added to the collected factor. */
  ghost predicate TookOut(op: Op, d: Tristate, acc: Option<Expr>, e1: Expr, e2: Expr,
                          res: (Option<Expr>, Expr, Expr), env: Env)
  {
    && FactorValue(op, res.0, env) == Apply(op, FactorValue(op, acc, env), d)
    && Eval(e1, env) == Apply(op, d, Eval(res.1, env))
    && Eval(e2, env) == Apply(op, d, Eval(res.2, env))
  }

  lemma {:induction false} ExtractPairsExact(op: Op, acc: Option<Expr>, e1: Expr, e2: Expr, env: Env)
      returns (d: Tristate)
    ensures TookOut(op, d, acc, e1, e2, ExtractPairs(op, acc, e1, e2), env)
    decreases Size(e1) + Size(e2)
  {
    if IsNode(op, e1) {
      var (acc1, l, m) := ExtractPairs(op, acc, e1.l, e2);
      var d1 := ExtractPairsExact(op, acc, e1.l, e2, env);
      var d2 := ExtractPairsExact(op, acc1, e1.r, m, env);
      d := TookOutTwice(op, d1, d2, acc, e1, e2, (acc1, l, m), ExtractPairs(op, acc1, e1.r, m), env);
    } else if IsNode(op, e2) {
      var (acc1, m, l) := ExtractPairs(op, acc, e1, e2.l);
      var d1 := ExtractPairsExact(op, acc, e1, e2.l, env);
      var d2 := ExtractPairsExact(op, acc1, m, e2.r, env);
      var (acc2, m', r) := ExtractPairs(op, acc1, m, e2.r);
      d := TookOutTwice(op, d1, d2, acc, e2, e1, (acc1, l, m), (acc2, r, m'), env);
    } else {
      d := TookOutLeaf(op, acc, e1, e2, env);
    }
  }

  lemma TookOutTwice(op: Op, d1: Tristate, d2: Tristate, acc: Option<Expr>, e1: Expr, e2: Expr,
                     res1: (Option<Expr>, Expr, Expr), res2: (Option<Expr>, Expr, Expr), env: Env)
      returns (d: Tristate)
    requires IsNode(op, e1)
    requires TookOut(op, d1, acc, e1.l, e2, res1, env)
    requires TookOut(op, d2, res1.0, e1.r, res1.2, res2, env)
    ensures TookOut(op, d, acc, e1, e2, (res2.0, Bin(op, res1.1, res2.1), res2.2), env)
  {
    d := Regroup(op, d1, d2, res1.1, res2.1, res2.2, env);
    ApplyAssoc(op, FactorValue(op, acc, env), d1, d2);
  }

  lemma TookOutLeaf(op: Op, acc: Option<Expr>, e1: Expr, e2: Expr, env: Env) returns (d: Tristate)
    requires !IsNode(op, e1) && !IsNode(op, e2)
    ensures TookOut(op, d, acc, e1, e2, ExtractPairs(op, acc, e1, e2), env)
  {
    if ExprEq(e1, e2) {
      ExprEqSound(e1, e2, env);
      d := Eval(e1, env);
      ApplyUnits(op, d);
    } else {
      d := NeutralValue(op);
      ApplyUnits(op, Eval(e1, env));
      ApplyUnits(op, Eval(e2, env));
      ApplyUnits(op, FactorValue(op, acc, env));
    }
  }

  /** The factoring law, with the returned expression as the factor. */
  lemma {:induction false} ExtractEqExact(op: Op, e1: Expr, e2: Expr, env: Env)
    ensures var (f, r1, r2) := ExtractEq(op, e1, e2);
      Eval(e1, env) == Apply(op, FactorValue(op, f, env), Eval(r1, env)) &&
      Eval(e2, env) == Apply(op, FactorValue(op, f, env), Eval(r2, env)) &&
      (f.None? ==> r1 == e1 && r2 == e2)
  {
    var (f, r1, r2) := ExtractPairs(op, None, e1, e2);
    var d := ExtractPairsExact(op, None, e1, e2, env);
    EliminateYnPreservesValue(r1, env);
    EliminateYnPreservesValue(r2, env);
  }
}
