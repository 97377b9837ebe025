/** Simplifying a condition that requires a choice keeps the choice in it, or makes it n (menu.c, expr.c). */
module ChoiceBound {
  import opened Tristates
  import opened Exprs
  import opened ExprEqs
  import opened Transforms
  import opened Joins
  import opened Spines
  import opened Dups
  import opened SubmenuTest
  import opened Symbols

  predicate IsChoiceSymbol(c: nat, s: Symbol) {
    s.Config? && s.id == c && s.IsLogical()
  }

  /** Among the operands of the outermost ANDs is the choice, a comparison of the choice, or n. */
  predicate BoundTo(c: nat, e: Expr) {
    match e
    case Sym(s) => IsChoiceSymbol(c, s) || s == NoSym
    case Eq(a, _) => IsChoiceSymbol(c, a)
    case Ne(a, _) => IsChoiceSymbol(c, a)
    case Bin(AndOp, l, r) => BoundTo(c, l) || BoundTo(c, r)
    case _ => false
  }

  lemma {:induction false} BoundMentionsChoice(c: nat, e: Expr)
    requires BoundTo(c, e)
    ensures c in Ids(e) || Never(e)
  {
    match e
    case Bin(AndOp, l, r) =>
      if BoundTo(c, l) {
        BoundMentionsChoice(c, l);
      } else {
        BoundMentionsChoice(c, r);
      }
    case _ =>
  }

  lemma {:induction false} EliminateYnKeepsBound(c: nat, e: Expr)
    requires BoundTo(c, e)
    ensures BoundTo(c, EliminateYn(e))
  {
    match e
    case Bin(AndOp, l, r) =>
      if BoundTo(c, l) {
        EliminateYnKeepsBound(c, l);
      } else {
        EliminateYnKeepsBound(c, r);
      }
    case _ =>
  }

  lemma {:induction false} TransBoolKeepsBound(c: nat, e: Expr)
    requires BoundTo(c, e)
    ensures BoundTo(c, TransBool(e))
  {
    match e
    case Bin(AndOp, l, r) =>
      if BoundTo(c, l) {
        TransBoolKeepsBound(c, l);
      } else {
        TransBoolKeepsBound(c, r);
      }
    case _ =>
  }

  // ----- the two walks of expr_eliminate_dups over a row of AND operands -----

  predicate RowBound(c: nat, ls: seq<Expr>) {
    exists k :: 0 <= k < |ls| && BoundTo(c, ls[k])
  }

  lemma {:induction false} LeavesBound(c: nat, e: Expr)
    ensures BoundTo(c, e) <==> RowBound(c, Leaves(AndOp, e))
  {
    if IsNode(AndOp, e) {
      LeavesBound(c, e.l);
      LeavesBound(c, e.r);
      RowBoundConcat(c, Leaves(AndOp, e.l), Leaves(AndOp, e.r));
    } else {
      assert Leaves(AndOp, e)[0] == e;
    }
  }

  lemma RowBoundConcat(c: nat, a: seq<Expr>, b: seq<Expr>)
    ensures RowBound(c, a + b) <==> RowBound(c, a) || RowBound(c, b)
  {
    if RowBound(c, a) {
      var k :| 0 <= k < |a| && BoundTo(c, a[k]);
      assert BoundTo(c, (a + b)[k]);
    }
    if RowBound(c, b) {
      var k :| 0 <= k < |b| && BoundTo(c, b[k]);
      assert BoundTo(c, (a + b)[|a| + k]);
    }
  }

  /** Two operands of which one is bound have a bound join. */
  lemma JoinKeepsBound(c: nat, e1: Expr, e2: Expr)
    requires !IsNode(AndOp, e1) && !IsNode(AndOp, e2) && Join(AndOp, e1, e2).Some?
    requires BoundTo(c, e1) || BoundTo(c, e2)
    ensures BoundTo(c, Join(AndOp, e1, e2).value)
  {}

  lemma Dups1StepKeepsBound(c: nat, ls: seq<Expr>, i: nat, j: nat)
    requires IsRow(AndOp, ls) && |ls| >= 2 && i < |ls| && j < |ls| && i != j && RowBound(c, ls)
    ensures RowBound(c, Dups1Step(AndOp, ls, i, j).0)
  {
    var e1 := Dups1Operand(AndOp, ls, i).0;
    var join, ls' := Join(AndOp, e1, ls[j]), Dups1Step(AndOp, ls, i, j).0;
    var k :| 0 <= k < |ls| && BoundTo(c, ls[k]);
    assert BoundTo(c, ls[i]) ==> e1 == ls[i];
    if join.Some? && (k == i || k == j) {
      JoinKeepsBound(c, e1, ls[j]);
      assert BoundTo(c, ls'[j]);
    } else {
      assert BoundTo(c, ls'[k]);
    }
  }

  lemma {:induction false} Dups1PairsKeepsBound(c: nat, ls: seq<Expr>, i: nat, j: nat)
    requires IsRow(AndOp, ls) && |ls| >= 2 && i <= |ls| && j <= |ls| && RowBound(c, ls)
    ensures RowBound(c, Dups1Pairs(AndOp, ls, i, j).0)
    decreases |ls| - i, |ls| - j
  {
    if i == |ls| {
    } else if j == |ls| {
      Dups1PairsKeepsBound(c, ls, i + 1, 0);
    } else if i == j {
      Dups1PairsKeepsBound(c, ls, i, j + 1);
    } else {
      Dups1StepKeepsBound(c, ls, i, j);
      Dups1PairsKeepsBound(c, Dups1Step(AndOp, ls, i, j).0, i, j + 1);
    }
  }

  /** Only operands of the other connective are touched, and those are not bound; a complement makes one n. */
  lemma Dups2CheckKeepsBound(c: nat, sub: Expr, lo: nat, ls: seq<Expr>, i: nat)
    requires IsRow(AndOp, ls) && |ls| >= 2 && i < |ls| && lo + LeafCount(AndOp, sub) <= |ls| && RowBound(c, ls)
    ensures RowBound(c, Dups2Check(AndOp, sub, lo, ls, i).0)
  {
    var k :| 0 <= k < |ls| && BoundTo(c, ls[k]);
    assert BoundTo(c, Dups2Check(AndOp, sub, lo, ls, i).0[k]);
  }

  lemma {:induction false} Dups2WalkKeepsBound(c: nat, sub: Expr, lo: nat, ls: seq<Expr>, i: nat)
    requires IsRow(AndOp, ls) && |ls| >= 2 && i < |ls| && lo + LeafCount(AndOp, sub) <= |ls| && RowBound(c, ls)
    ensures RowBound(c, Dups2Walk(AndOp, sub, lo, ls, i).0)
    decreases Size(sub)
  {
    if IsNode(AndOp, sub) {
      var ls1 := Dups2Walk(AndOp, sub.l, lo, ls, i).0;
      var ls2 := Dups2Walk(AndOp, sub.r, lo + LeafCount(AndOp, sub.l), ls1, i).0;
      Dups2WalkKeepsBound(c, sub.l, lo, ls, i);
      Dups2WalkKeepsBound(c, sub.r, lo + LeafCount(AndOp, sub.l), ls1, i);
      Dups2CheckKeepsBound(c, sub, lo, ls2, i);
    } else if lo != i {
      Dups2CheckKeepsBound(c, sub, lo, ls, i);
    }
  }

  lemma {:induction false} Dups2SlotsKeepsBound(c: nat, e: Expr, ls: seq<Expr>, i: nat)
    requires IsRow(AndOp, ls) && |ls| == LeafCount(AndOp, e) && |ls| >= 2 && i <= |ls| && RowBound(c, ls)
    ensures RowBound(c, Dups2Slots(AndOp, e, ls, i).0)
    decreases |ls| - i
  {
    if i < |ls| {
      Dups2WalkKeepsBound(c, e, 0, ls, i);
      Dups2SlotsKeepsBound(c, e, Dups2Walk(AndOp, e, 0, ls, i).0, i + 1);
    }
  }

  lemma OneRoundKeepsBound(c: nat, e: Expr)
    requires IsNode(AndOp, e) && BoundTo(c, e)
    ensures BoundTo(c, OneRound(e).0)
  {
    var ls, e1 := Leaves(AndOp, e), Dups1(e).0;
    LeavesBound(c, e);
    Dups1PairsKeepsBound(c, ls, 0, 0);
    LeavesRebuild(AndOp, e, Dups1Pairs(AndOp, ls, 0, 0).0);
    var ls1 := Leaves(AndOp, e1);
    Dups2SlotsKeepsBound(c, e1, ls1, 0);
    LeavesRebuild(AndOp, e1, Dups2Slots(AndOp, e1, ls1, 0).0);
    LeavesBound(c, OneRound(e).0);
  }

  lemma {:induction false} EliminateDupsKeepsBound(c: nat, e: Expr)
    requires BoundTo(c, e)
    ensures BoundTo(c, EliminateDups(e))
    decreases Size(e)
  {
    if e.Bin? {
      OneRoundProgress(e);
      OneRoundKeepsBound(c, e);
      if OneRound(e).1 > 0 {
        EliminateYnKeepsBound(c, OneRound(e).0);
        EliminateDupsKeepsBound(c, EliminateYn(OneRound(e).0));
      }
    }
  }

  predicate OptBoundTo(c: nat, e: Option<Expr>) {
    e.Some? && BoundTo(c, e.value)
  }

  /** What is handed down from a condition that requires the choice requires it too. */
  lemma HandDownKeepsBound(c: nat, parent: Option<Expr>, own: Option<Expr>, tristateOrNoSymbol: bool)
    requires OptBoundTo(c, parent)
    ensures OptBoundTo(c, HandDown(parent, own)) && OptBoundTo(c, HandDownVisible(parent, own, tristateOrNoSymbol))
  {
    var own' := if own.None? then None else Some(Transform(own.value));
    var all := AllocAnd(parent, own');
    EliminateDupsKeepsBound(c, all.value);
    TransBoolKeepsBound(c, EliminateDups(all.value));
  }
}
