/** Duplicate removal stays within negation normal form, so the bool rewrite after it is safe (menu.c). */
module DupsNormalForm {
  import opened Tristates
  import opened Exprs
  import opened ExprEqs
  import opened Transforms
  import opened Joins
  import opened Spines
  import opened Dups
  import opened SubmenuTest

  predicate RowNnf(ls: seq<Expr>) {
    forall k | 0 <= k < |ls| :: Nnf(ls[k])
  }

  lemma {:induction false} LeavesNnf(op: Op, e: Expr)
    ensures Nnf(e) <==> RowNnf(Leaves(op, e))
  {
    if IsNode(op, e) {
      LeavesNnf(op, e.l);
      LeavesNnf(op, e.r);
      var a, b := Leaves(op, e.l), Leaves(op, e.r);
      assert forall k | 0 <= k < |a| :: (a + b)[k] == a[k];
      assert forall k | 0 <= k < |b| :: (a + b)[|a| + k] == b[k];
    } else {
      assert Leaves(op, e)[0] == e;
    }
  }

  lemma {:induction false} EliminateYnKeepsNnf(e: Expr)
    requires Nnf(e)
    ensures Nnf(EliminateYn(e))
  {
    match e
    case Bin(_, l, r) =>
      EliminateYnKeepsNnf(l);
      EliminateYnKeepsNnf(r);
    case _ =>
  }

  lemma JoinKeepsNnf(op: Op, e1: Expr, e2: Expr)
    requires Nnf(e1) && Nnf(e2) && Join(op, e1, e2).Some?
    ensures Nnf(Join(op, e1, e2).value)
  {}

  lemma {:induction false} Dups1KeepsNnf(e: Expr)
    requires e.Bin? && Nnf(e)
    ensures Nnf(Dups1(e).0)
    decreases Size(e), 3, 0, 0
  {
    var ls := Leaves(e.op, e);
    LeavesSize(e.op, e);
    LeavesNnf(e.op, e);
    Dups1PairsKeepsNnf(e.op, ls, 0, 0);
    LeavesRebuild(e.op, e, Dups1Pairs(e.op, ls, 0, 0).0);
    LeavesNnf(e.op, Dups1(e).0);
  }

  lemma {:induction false} Dups1PairsKeepsNnf(op: Op, ls: seq<Expr>, i: nat, j: nat)
    requires IsRow(op, ls) && |ls| >= 2 && i <= |ls| && j <= |ls| && RowNnf(ls)
    ensures RowNnf(Dups1Pairs(op, ls, i, j).0)
    decreases SumSize(ls), 2, |ls| - i, |ls| - j
  {
    if i == |ls| {
    } else if j == |ls| {
      Dups1PairsKeepsNnf(op, ls, i + 1, 0);
    } else if i == j {
      Dups1PairsKeepsNnf(op, ls, i, j + 1);
    } else {
      Dups1StepKeepsNnf(op, ls, i, j);
      Dups1PairsKeepsNnf(op, Dups1Step(op, ls, i, j).0, i, j + 1);
    }
  }

  lemma {:induction false} Dups1StepKeepsNnf(op: Op, ls: seq<Expr>, i: nat, j: nat)
    requires IsRow(op, ls) && |ls| >= 2 && i < |ls| && j < |ls| && i != j && RowNnf(ls)
    ensures RowNnf(Dups1Step(op, ls, i, j).0)
    decreases SumSize(ls), 1, 0, 0
  {
    SlotSmallerThanRow(ls, i);
    if ls[i].Bin? {
      Dups1KeepsNnf(ls[i]);
    }
    var e1 := Dups1Operand(op, ls, i).0;
    if Join(op, e1, ls[j]).Some? {
      JoinKeepsNnf(op, e1, ls[j]);
    }
  }

  lemma {:induction false} Dups2KeepsNnf(e: Expr)
    requires e.Bin? && Nnf(e)
    ensures Nnf(Dups2(e).0)
    decreases Size(e), 4, 0
  {
    var ls := Leaves(e.op, e);
    LeavesSize(e.op, e);
    LeavesNnf(e.op, e);
    Dups2SlotsKeepsNnf(e.op, e, ls, 0);
    LeavesRebuild(e.op, e, Dups2Slots(e.op, e, ls, 0).0);
    LeavesNnf(e.op, Dups2(e).0);
  }

  lemma {:induction false} Dups2SlotsKeepsNnf(op: Op, e: Expr, ls: seq<Expr>, i: nat)
    requires IsRow(op, ls) && |ls| == LeafCount(op, e) && |ls| >= 2 && i <= |ls| && RowNnf(ls)
    ensures RowNnf(Dups2Slots(op, e, ls, i).0)
    decreases SumSize(ls), 3, |ls| - i
  {
    if i < |ls| {
      Dups2WalkKeepsNnf(op, e, 0, ls, i);
      Dups2SlotsKeepsNnf(op, e, Dups2Walk(op, e, 0, ls, i).0, i + 1);
    }
  }

  lemma {:induction false} Dups2WalkKeepsNnf(op: Op, sub: Expr, lo: nat, ls: seq<Expr>, i: nat)
    requires IsRow(op, ls) && |ls| >= 2 && i < |ls| && lo + LeafCount(op, sub) <= |ls| && RowNnf(ls)
    ensures RowNnf(Dups2Walk(op, sub, lo, ls, i).0)
    decreases SumSize(ls), 2, Size(sub)
  {
    if IsNode(op, sub) {
      var ls1 := Dups2Walk(op, sub.l, lo, ls, i).0;
      var ls2 := Dups2Walk(op, sub.r, lo + LeafCount(op, sub.l), ls1, i).0;
      Dups2WalkKeepsNnf(op, sub.l, lo, ls, i);
      Dups2WalkKeepsNnf(op, sub.r, lo + LeafCount(op, sub.l), ls1, i);
      Dups2CheckKeepsNnf(op, sub, lo, ls2, i);
    } else if lo != i {
      Dups2CheckKeepsNnf(op, sub, lo, ls, i);
    }
  }

  lemma {:induction false} Dups2CheckKeepsNnf(op: Op, sub: Expr, lo: nat, ls: seq<Expr>, i: nat)
    requires IsRow(op, ls) && |ls| >= 2 && i < |ls| && lo + LeafCount(op, sub) <= |ls| && RowNnf(ls)
    ensures RowNnf(Dups2Check(op, sub, lo, ls, i).0)
    decreases SumSize(ls), 1, 0
  {
    if ls[i].Bin? {
      SlotSmallerThanRow(ls, i);
      Dups2KeepsNnf(ls[i]);
    }
  }

  lemma {:induction false} EliminateDupsKeepsNnf(e: Expr)
    requires Nnf(e)
    ensures Nnf(EliminateDups(e))
    decreases Size(e)
  {
    if e.Bin? {
      OneRoundProgress(e);
      Dups1KeepsNnf(e);
      Dups2KeepsNnf(Dups1(e).0);
      if OneRound(e).1 > 0 {
        EliminateYnKeepsNnf(OneRound(e).0);
        EliminateDupsKeepsNnf(EliminateYn(OneRound(e).0));
      }
    }
  }

  lemma {:induction false} TransBoolKeepsNnf(e: Expr)
    requires Nnf(e)
    ensures Nnf(TransBool(e))
  {
    match e
    case Bin(_, l, r) =>
      TransBoolKeepsNnf(l);
      TransBoolKeepsNnf(r);
    case _ =>
  }

  predicate OptNnf(e: Option<Expr>) {
    e.Some? ==> Nnf(e.value)
  }

  /** What is handed down once from a normal form is a normal form. */
  lemma HandDownKeepsNnf(parent: Option<Expr>, own: Option<Expr>, tristateOrNoSymbol: bool)
    requires OptNnf(parent)
    ensures OptNnf(HandDown(parent, own)) && OptNnf(HandDownVisible(parent, own, tristateOrNoSymbol))
  {
    if own.Some? {
      TransformNormalises(own.value);
    }
    var own' := if own.None? then None else Some(Transform(own.value));
    var all := AllocAnd(parent, own');
    if all.Some? {
      EliminateDupsKeepsNnf(all.value);
      TransBoolKeepsNnf(EliminateDups(all.value));
    }
  }

  /** The bool rewrite of a handed-down dependency moves nothing between n and the rest. */
  lemma HandDownVisibleKeepsNonZero(parent: Option<Expr>, own: Option<Expr>, env: Env)
    requires OptNnf(parent)
    ensures EvalOpt(HandDownVisible(parent, own, false), env) != NO <==> EvalOpt(HandDown(parent, own), env) != NO
  {
    HandDownKeepsNnf(parent, own, true);
    var all := HandDown(parent, own);
    if all.Some? {
      TransBoolKeepsNonZero(all.value, env);
    }
  }

  // ----- the visibility of a symbol -----

  function HighestPrompt(prompts: seq<Option<Expr>>, env: Env): Tristate {
    if prompts == [] then NO
    else Max(EvalOpt(prompts[0], env), HighestPrompt(prompts[1..], env))
  }

  /** The level of the prompts of a symbol; for symbols that are not tristate an m counts as y. */
  function PromptLevel(prompts: seq<Option<Expr>>, typ: SymbolType, env: Env): Tristate {
    var t := HighestPrompt(prompts, env);
    if t == MOD && typ != TristateType then YES else t
  }

  function RewriteAll(prompts: seq<Option<Expr>>): seq<Option<Expr>> {
    if prompts == [] then []
    else [if prompts[0].None? then None else Some(TransBool(prompts[0].value))] + RewriteAll(prompts[1..])
  }

  lemma {:induction false} RewriteAllKeepsNonZero(prompts: seq<Option<Expr>>, env: Env)
    requires forall p | p in prompts :: OptNnf(p)
    ensures HighestPrompt(RewriteAll(prompts), env) != NO <==> HighestPrompt(prompts, env) != NO
  {
    if prompts != [] {
      if prompts[0].Some? {
        assert OptNnf(prompts[0]);
        TransBoolKeepsNonZero(prompts[0].value, env);
      }
      assert RewriteAll(prompts)[1..] == RewriteAll(prompts[1..]);
      RewriteAllKeepsNonZero(prompts[1..], env);
    }
  }

  /** The visibility of a symbol that is not tristate does not notice the bool rewrite. */
  lemma TransBoolKeepsVisibility(prompts: seq<Option<Expr>>, typ: SymbolType, env: Env)
    requires typ != TristateType
    requires forall p | p in prompts :: OptNnf(p)
    ensures PromptLevel(RewriteAll(prompts), typ, env) == PromptLevel(prompts, typ, env)
  {
    RewriteAllKeepsNonZero(prompts, env);
  }
}
