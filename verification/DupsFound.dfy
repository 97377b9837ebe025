/** What duplicate removal is bound to find: the operands a result cannot have any more (expr.c). */
module DupsFound {
  import opened Tristates
  import opened Exprs
  import opened ExprEqs
  import opened ExprEqComplete
  import opened ExprKeys
  import opened Transforms
  import opened Joins
  import opened JoinRules
  import opened Spines
  import opened Dups
  import opened DupsFixpoints
  import opened DupsNormalForm

  // ----- no duplicates, and no two tests of one symbol that make one -----

  /** Recognised operands that are identical, or differ at most in the order and the grouping of their own operands. */
  ghost predicate Duplicates(x: Expr, y: Expr) {
    SelfEq(x) && SelfEq(y) && (x == y || (Folded(x) && Folded(y) && KeyOf(x) == KeyOf(y)))
  }

  ghost predicate Apart(op: Op, x: Expr, y: Expr) {
    !Duplicates(x, y) && forall r :: !Listed(op, x, y, r)
  }

  /** In every row at any depth. */
  ghost predicate Settled(e: Expr)
    decreases Size(e)
  {
    e.Bin? ==>
      var ls := Leaves(e.op, e);
      (forall i, j | 0 <= i < |ls| && 0 <= j < |ls| && i != j :: Apart(e.op, ls[i], ls[j])) &&
      (forall x | x in ls && Size(x) < Size(e) :: Settled(x)) // operands are always smaller
  }

  lemma ApartIfNoJoin(op: Op, x: Expr, y: Expr)
    requires Join(op, x, y).None?
    ensures Apart(op, x, y)
  {
    JoinIff(op, x, y, x);
    if Duplicates(x, y) {
      if x == y {
        SelfEqSuffices(x);
      } else {
        KeysDecide(x, y);
      }
    }
    forall r ensures !Listed(op, x, y, r) {
      JoinIff(op, x, y, r);
    }
  }

  lemma NoJoinIfApart(op: Op, x: Expr, y: Expr)
    requires Folded(x) && Folded(y) && Apart(op, x, y)
    ensures Join(op, x, y).None?
  {
    var r := if Join(op, x, y).Some? then Join(op, x, y).value else x;
    KeysDecide(x, y);
    JoinIff(op, x, y, r);
  }

  lemma {:induction false} JoinFreeIsSettled(e: Expr)
    requires JoinFree(e)
    ensures Settled(e)
    decreases Size(e)
  {
    if e.Bin? {
      var ls := Leaves(e.op, e);
      forall i, j | 0 <= i < |ls| && 0 <= j < |ls| && i != j ensures Apart(e.op, ls[i], ls[j]) {
        ApartIfNoJoin(e.op, ls[i], ls[j]);
      }
      forall x | x in ls && Size(x) < Size(e) ensures Settled(x) {
        JoinFreeIsSettled(x);
      }
    }
  }

  lemma {:induction false} LeavesFolded(op: Op, e: Expr)
    requires Folded(e)
    ensures forall x | x in Leaves(op, e) :: Folded(x)
    ensures IsNode(op, e) ==> forall x | x in Leaves(op, e) :: !IsYesNo(x)
  {
    if IsNode(op, e) {
      LeavesFolded(op, e.l);
      LeavesFolded(op, e.r);
    }
  }

  lemma {:induction false} SettledIsJoinFree(e: Expr)
    requires Folded(e) && Settled(e)
    ensures JoinFree(e)
    decreases Size(e)
  {
    if e.Bin? {
      var ls := Leaves(e.op, e);
      LeavesFolded(e.op, e);
      forall i, j | 0 <= i < |ls| && 0 <= j < |ls| && i != j ensures Join(e.op, ls[i], ls[j]).None? {
        NoJoinIfApart(e.op, ls[i], ls[j]);
      }
      forall x | x in ls && Size(x) < Size(e) ensures JoinFree(x) {
        SettledIsJoinFree(x);
      }
    }
  }

  /** No result has two equal operands in a row, or two tests of one symbol that are on the list. */
  lemma EliminateDupsSettles(e: Expr)
    ensures Settled(EliminateDups(e))
  {
    EliminateDupsNormalForm(e);
    JoinFreeIsSettled(EliminateDups(e));
  }

  // ----- no complements -----

  /** The operands of the negation of `x` all occur in the row `e`. */
  ghost predicate Contradicts(op: Op, x: Expr, e: Expr) {
    var t := Transform(Not(x)); Stuck(op, t) == 0 && Covers(op, e, t)
  }

  /** No operand of a row is contradicted by the row it stands in, at any depth. */
  ghost predicate Consistent(e: Expr)
    decreases Size(e)
  {
    e.Bin? ==>
      var ls := Leaves(e.op, e);
      (forall i | 0 <= i < |ls| && ls[i].Bin? :: !Contradicts(e.op, ls[i], e)) &&
      (forall x | x in ls && Size(x) < Size(e) :: Consistent(x)) // operands are always smaller
  }

  /** The negation of a folded normal form is one again. */
  lemma {:induction false} NegationFolds(e: Expr)
    requires Nnf(e) && Folded(e) && !IsYesNo(e)
    ensures Folded(Transform(Not(e))) && !IsYesNo(Transform(Not(e)))
  {
    NnfIsFixed(e);
    match e
    case Bin(op, l, r) =>
      NegationFolds(l);
      NegationFolds(r);
      assert Transform(Not(e)) == Transform(PushNot(op, l, r)) == Bin(op.Dual(), Transform(Not(l)), Transform(Not(r)));
    case _ =>
  }

  lemma ComplementaryIff(op: Op, x: Expr, e: Expr)
    requires Nnf(x) && Folded(x) && !IsYesNo(x) && Folded(e) && !IsYesNo(e)
    ensures Complementary(op, x, e) <==> Contradicts(op, x, e)
  {
    NegationFolds(x);
    ExtractEmptiesIff(op, Transform(Not(x)), e);
  }

  lemma {:induction false} NoComplementIff(op: Op, x: Expr, sub: Expr, lo: nat, i: nat)
    requires Nnf(x) && Folded(x) && !IsYesNo(x) && Folded(sub) && !IsYesNo(sub)
    ensures NoComplement(op, x, sub, lo, i) && IsNode(op, sub) ==> !Contradicts(op, x, sub)
    ensures !Contradicts(op, x, sub) ==> NoComplement(op, x, sub, lo, i)
  {
    ComplementaryIff(op, x, sub);
    if IsNode(op, sub) && !Contradicts(op, x, sub) {
      PartsContradictLess(op, x, sub);
      NoComplementIff(op, x, sub.l, lo, i);
      NoComplementIff(op, x, sub.r, lo + LeafCount(op, sub.l), i);
    }
  }

  lemma PartsContradictLess(op: Op, x: Expr, e: Expr)
    requires IsNode(op, e) && !Contradicts(op, x, e)
    ensures !Contradicts(op, x, e.l) && !Contradicts(op, x, e.r)
  {
    var t := Transform(Not(x));
    if Stuck(op, t) == 0 {
      var k :| Operands(op, t)[k] > Held(op, e, k);
      RowParts(op, e, k);
      assert Operands(op, t)[k] > Held(op, e.l, k) && Operands(op, t)[k] > Held(op, e.r, k);
    }
  }

  lemma {:induction false} ConsistentIff(e: Expr)
    requires Nnf(e) && Folded(e)
    ensures ComplementFree(e) <==> Consistent(e)
    decreases Size(e)
  {
    if e.Bin? {
      var op, ls := e.op, Leaves(e.op, e);
      LeavesNnf(op, e);
      LeavesFolded(op, e);
      forall i | 0 <= i < |ls| && ls[i].Bin? ensures NoComplement(op, ls[i], e, 0, i) <==> !Contradicts(op, ls[i], e) {
        NoComplementIff(op, ls[i], e, 0, i);
      }
      forall x | x in ls && Size(x) < Size(e) ensures ComplementFree(x) <==> Consistent(x) {
        ConsistentIff(x);
      }
    }
  }

  // ----- the results -----

  lemma {:induction false} EliminateDupsKeepsFolded(e: Expr)
    requires Nnf(e) && Folded(e)
    ensures Nnf(EliminateDups(e)) && Folded(EliminateDups(e))
    decreases Size(e)
  {
    EliminateDupsKeepsNnf(e);
    if e.Bin? {
      OneRoundProgress(e);
      if OneRound(e).1 > 0 {
        var e' := EliminateYn(OneRound(e).0);
        Dups1KeepsNnf(e);
        Dups2KeepsNnf(Dups1(e).0);
        EliminateYnKeepsNnf(OneRound(e).0);
        EliminateYnNormalForm(OneRound(e).0);
        FoldedNormalForm(e');
        EliminateDupsKeepsFolded(e');
      }
    }
  }

  /** Among the folded normal forms the results are exactly the settled and consistent expressions. */
  lemma SimplifiedIff(e: Expr)
    requires Nnf(e) && Folded(e)
    ensures EliminateDups(e) == e <==> Settled(e) && Consistent(e)
    ensures Settled(EliminateDups(e)) && Consistent(EliminateDups(e))
  {
    EliminateDupsFixpoints(e);
    ConsistentIff(e);
    if JoinFree(e) {
      JoinFreeIsSettled(e);
    } else if Settled(e) {
      SettledIsJoinFree(e);
    }
    EliminateDupsKeepsFolded(e);
    EliminateDupsNormalForm(e);
    ConsistentIff(EliminateDups(e));
    EliminateDupsSettles(e);
  }
}
