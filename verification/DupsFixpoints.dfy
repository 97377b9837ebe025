/** Which expressions duplicate removal leaves alone, and one that it sharpens (expr_eliminate_dups in expr.c). */
module DupsFixpoints {
  import opened Tristates
  import opened Exprs
  import opened ExprEqs
  import opened Transforms
  import opened Joins
  import opened Spines
  import opened Dups

  // ----- the joining walk finds nothing exactly when nothing can be joined -----

  ghost predicate RowJoinFree(op: Op, ls: seq<Expr>) {
    forall p, q | 0 <= p < |ls| && 0 <= q < |ls| && p != q :: PairFree(op, ls, p, q)
  }

  lemma {:induction false} Dups1Idle(e: Expr)
    requires e.Bin? && JoinFree(e)
    ensures Dups1(e) == (e, 0)
    decreases Size(e), 1, 0, 0
  {
    var op, ls := e.op, Leaves(e.op, e);
    LeavesSize(op, e);
    forall p, q | 0 <= p < |ls| && 0 <= q < |ls| && p != q ensures PairFree(op, ls, p, q) {
      SlotSmallerThanRow(ls, p);
      assert ls[p] in ls;
    }
    Dups1PairsIdle(op, ls, 0, 0);
    RebuildLeaves(op, e);
  }

  lemma {:induction false} Dups1PairsIdle(op: Op, ls: seq<Expr>, i: nat, j: nat)
    requires IsRow(op, ls) && |ls| >= 2 && i <= |ls| && j <= |ls| && RowJoinFree(op, ls)
    ensures Dups1Pairs(op, ls, i, j) == (ls, 0)
    decreases SumSize(ls), 0, |ls| - i, |ls| - j
  {
    if i == |ls| {
    } else if j == |ls| {
      Dups1PairsIdle(op, ls, i + 1, 0);
    } else if i == j {
      Dups1PairsIdle(op, ls, i, j + 1);
    } else {
      assert PairFree(op, ls, i, j);
      SlotSmallerThanRow(ls, i);
      if ls[i].Bin? {
        Dups1Idle(ls[i]);
      }
      assert ls[i := ls[i]] == ls;
      assert Dups1Step(op, ls, i, j) == (ls, 0);
      Dups1PairsIdle(op, ls, i, j + 1);
    }
  }

  // ----- the complement walk finds nothing exactly when nothing is complementary -----

  /** The walk inside the operand itself finds nothing. */
  predicate SlotIdle(ls: seq<Expr>, i: nat)
    requires i < |ls|
  {
    ls[i].Bin? ==> Dups2(ls[i]) == (ls[i], 0)
  }

  predicate SlotClear(op: Op, e: Expr, ls: seq<Expr>, i: nat)
    requires i < |ls|
  {
    SlotIdle(ls, i) && (ls[i].Bin? ==> NoComplement(op, ls[i], e, 0, i))
  }

  lemma {:induction false} Dups2Idle(e: Expr)
    requires e.Bin? && ComplementFree(e)
    ensures Dups2(e) == (e, 0)
    decreases Size(e)
  {
    var op, ls := e.op, Leaves(e.op, e);
    LeavesSize(op, e);
    forall i | 0 <= i < |ls| ensures SlotClear(op, e, ls, i) {
      SlotSmallerThanRow(ls, i);
      assert ls[i] in ls;
      if ls[i].Bin? {
        Dups2Idle(ls[i]);
      }
    }
    Dups2SlotsIdle(op, e, ls, 0);
    RebuildLeaves(op, e);
  }

  lemma {:induction false} Dups2SlotsIdle(op: Op, e: Expr, ls: seq<Expr>, i: nat)
    requires IsNode(op, e) && ls == Leaves(op, e) && i <= |ls|
    requires forall k | 0 <= k < |ls| :: SlotClear(op, e, ls, k)
    ensures Dups2Slots(op, e, ls, i) == (ls, 0)
    decreases |ls| - i
  {
    if i < |ls| {
      assert SlotClear(op, e, ls, i);
      WholePlaced(op, e);
      Dups2WalkIdle(op, e, 0, ls, i);
      Dups2SlotsIdle(op, e, ls, i + 1);
    }
  }

  lemma {:induction false} Dups2WalkIdle(op: Op, sub: Expr, lo: nat, ls: seq<Expr>, i: nat)
    requires IsRow(op, ls) && |ls| >= 2 && i < |ls| && Placed(op, sub, lo, ls)
    requires SlotIdle(ls, i) && (ls[i].Bin? ==> NoComplement(op, ls[i], sub, lo, i))
    ensures Dups2Walk(op, sub, lo, ls, i) == (ls, 0)
    decreases sub
  {
    if IsNode(op, sub) {
      var mid := lo + LeafCount(op, sub.l);
      PartsPlaced(op, sub, lo, ls);
      Dups2WalkIdle(op, sub.l, lo, ls, i);
      Dups2WalkIdle(op, sub.r, mid, ls, i);
      Dups2CheckIdle(op, sub, lo, ls, i);
      WalkAtNode(op, sub, lo, ls, i);
    } else if lo != i {
      Dups2CheckIdle(op, sub, lo, ls, i);
    }
  }

  lemma Dups2CheckIdle(op: Op, sub: Expr, lo: nat, ls: seq<Expr>, i: nat)
    requires IsRow(op, ls) && |ls| >= 2 && i < |ls| && Placed(op, sub, lo, ls)
    requires SlotIdle(ls, i) && (ls[i].Bin? ==> !Complementary(op, ls[i], sub))
    ensures Dups2Check(op, sub, lo, ls, i) == (ls, 0)
  {
    if ls[i].Bin? {
      assert ls[i := ls[i]] == ls;
      CheckCount(op, sub, lo, ls, i);
    }
  }

  /** The expressions left alone are exactly those without joinable or complementary operands. */
  lemma EliminateDupsFixpoints(e: Expr)
    ensures EliminateDups(e) == e <==> JoinFree(e) && ComplementFree(e)
  {
    EliminateDupsNormalForm(e);
    if e.Bin? && JoinFree(e) && ComplementFree(e) {
      Dups1Idle(e);
      Dups2Idle(e);
    }
  }

  // ----- an m that becomes n -----

  /** A slot is left alone, or becomes the absorbing constant. */
  predicate Outcome(op: Op, ls: seq<Expr>, i: nat, r: (seq<Expr>, nat))
    requires i < |ls|
  {
    && (if r.1 == 0 then r.0 == ls else r.0 == ls[i := Absorbing(op)])
    && (!ls[i].Bin? ==> r.1 == 0)
  }

  lemma CheckOutcome(op: Op, sub: Expr, lo: nat, ls: seq<Expr>, i: nat)
    requires IsRow(op, ls) && |ls| >= 2 && i < |ls| && lo + LeafCount(op, sub) <= |ls|
    requires SlotIdle(ls, i)
    ensures Outcome(op, ls, i, Dups2Check(op, sub, lo, ls, i))
  {
    if ls[i].Bin? {
      assert ls[i := ls[i]] == ls;
      CheckCount(op, sub, lo, ls, i);
    }
  }

  /** That is all that happens to an operand that is itself left alone. */
  lemma {:induction false} WalkOutcome(op: Op, sub: Expr, lo: nat, ls: seq<Expr>, i: nat)
    requires IsRow(op, ls) && |ls| >= 2 && i < |ls| && lo + LeafCount(op, sub) <= |ls|
    requires SlotIdle(ls, i)
    ensures Outcome(op, ls, i, Dups2Walk(op, sub, lo, ls, i))
    decreases Size(sub)
  {
    if IsNode(op, sub) {
      var mid := lo + LeafCount(op, sub.l);
      WalkOutcome(op, sub.l, lo, ls, i);
      var ls1 := Dups2Walk(op, sub.l, lo, ls, i).0;
      WalkOutcome(op, sub.r, mid, ls1, i);
      var ls2 := Dups2Walk(op, sub.r, mid, ls1, i).0;
      CheckOutcome(op, sub, lo, ls2, i);
      WalkAtNode(op, sub, lo, ls, i);
    } else if lo != i {
      CheckOutcome(op, sub, lo, ls, i);
    }
  }

  /** The expression (F || G) && (!F && !G). */
  function Sharpened(f: Symbol, g: Symbol): Expr {
    Bin(AndOp, Bin(OrOp, Sym(f), Sym(g)), Bin(AndOp, Not(Sym(f)), Not(Sym(g))))
  }

  lemma SharpenedComplementary(f: Symbol, g: Symbol)
    requires f.Config? && g.Config? && f.typ == g.typ == TristateType && f != g
    ensures Complementary(AndOp, Sharpened(f, g).l, Sharpened(f, g).r)
  {
    var or, nf, ng := Bin(OrOp, Sym(f), Sym(g)), Not(Sym(f)), Not(Sym(g));
    var and := Bin(AndOp, nf, ng);
    var yes := Sym(YesSym);
    assert Transform(Not(or)) == and by {
      NnfIsFixed(or);
      NnfIsFixed(nf);
      NnfIsFixed(ng);
      assert Transform(PushNot(OrOp, Sym(f), Sym(g))) == and;
    }
    assert ExprEq(Sym(f), Sym(f)) && ExprEq(Sym(g), Sym(g)) && !ExprEq(Sym(f), Sym(g));
    assert ExprEq(nf, nf) && ExprEq(ng, ng) && !ExprEq(nf, ng) && !ExprEq(ng, yes) && !ExprEq(yes, ng);
    assert ExtractPairs(AndOp, None, nf, and) == (Some(nf), yes, Bin(AndOp, yes, ng)) by {
      assert ExtractPairs(AndOp, None, nf, nf) == (Some(nf), yes, yes);
      assert ExtractPairs(AndOp, Some(nf), yes, ng) == (Some(nf), yes, ng);
    }
    assert ExtractPairs(AndOp, Some(nf), ng, Bin(AndOp, yes, ng)) == (Some(and), yes, Bin(AndOp, yes, yes)) by {
      assert ExtractPairs(AndOp, Some(nf), ng, yes) == (Some(nf), ng, yes);
      assert ExtractPairs(AndOp, Some(nf), ng, ng) == (Some(and), yes, yes);
    }
    assert ExtractPairs(AndOp, None, and, and).1 == Bin(AndOp, yes, yes);
    assert EliminateYn(Bin(AndOp, yes, yes)) == yes;
  }

  lemma SharpenedRow(f: Symbol, g: Symbol)
    requires f.Config? && g.Config? && f.typ == g.typ == TristateType && f != g
    ensures var e := Sharpened(f, g); Leaves(AndOp, e) == [e.l, e.r.l, e.r.r]
  {
    var e := Sharpened(f, g);
    assert Leaves(AndOp, e.l) == [e.l];
    assert Leaves(AndOp, e.r.l) == [e.r.l] && Leaves(AndOp, e.r.r) == [e.r.r];
    assert Leaves(AndOp, e.r) == [e.r.l] + [e.r.r];
    assert Leaves(AndOp, e) == [e.l] + ([e.r.l] + [e.r.r]);
  }

  lemma DifferentSymbolsDoNotJoin(op: Op, f: Symbol, g: Symbol)
    requires f != g
    ensures Join(op, Sym(f), Sym(g)).None? && Join(op, Not(Sym(f)), Not(Sym(g))).None?
  {
    assert !ExprEq(Sym(f), Sym(g)) && !ExprEq(Not(Sym(f)), Not(Sym(g)));
  }

  lemma OrOfSymbolsIsFree(f: Symbol, g: Symbol)
    requires f != g
    ensures var or := Bin(OrOp, Sym(f), Sym(g)); JoinFree(or) && ComplementFree(or)
  {
    DifferentSymbolsDoNotJoin(OrOp, f, g);
    DifferentSymbolsDoNotJoin(OrOp, g, f);
    assert Leaves(OrOp, Sym(f)) == [Sym(f)] && Leaves(OrOp, Sym(g)) == [Sym(g)];
    assert Leaves(OrOp, Bin(OrOp, Sym(f), Sym(g))) == [Sym(f), Sym(g)];
  }

  lemma SharpenedJoinFree(f: Symbol, g: Symbol)
    requires f.Config? && g.Config? && f.typ == g.typ == TristateType && f != g
    ensures var e := Sharpened(f, g); JoinFree(e) && ComplementFree(e.l)
  {
    var e := Sharpened(f, g);
    OrOfSymbolsIsFree(f, g);
    DifferentSymbolsDoNotJoin(AndOp, f, g);
    DifferentSymbolsDoNotJoin(AndOp, g, f);
    SharpenedRow(f, g);
    assert Join(AndOp, e.l, e.r.l).None? && Join(AndOp, e.l, e.r.r).None?;
    assert Join(AndOp, e.r.l, e.l).None? && Join(AndOp, e.r.r, e.l).None?;
  }

  /** Operands that are not AND/OR trees are passed over. */
  lemma {:induction false} SlotsFrom(op: Op, e: Expr, ls: seq<Expr>, i: nat)
    requires IsRow(op, ls) && |ls| == LeafCount(op, e) && |ls| >= 2 && i <= |ls|
    requires forall k | i <= k < |ls| :: !ls[k].Bin?
    ensures Dups2Slots(op, e, ls, i) == (ls, 0)
    decreases |ls| - i
  {
    if i < |ls| {
      WalkOutcome(op, e, 0, ls, i);
      SlotsFrom(op, e, ls, i + 1);
    }
  }

  lemma ComplementAbsorbed(op: Op, e: Expr, i: nat)
    requires IsNode(op, e) && i < |Leaves(op, e)| && Leaves(op, e)[i].Bin? && ComplementFree(Leaves(op, e)[i])
    requires !NoComplement(op, Leaves(op, e)[i], e, 0, i)
    ensures var ls := Leaves(op, e);
      Dups2Walk(op, e, 0, ls, i).0 == ls[i := Absorbing(op)] && Dups2Walk(op, e, 0, ls, i).1 > 0
  {
    var ls := Leaves(op, e);
    Dups2Idle(ls[i]);
    WalkOutcome(op, e, 0, ls, i);
    if Dups2Walk(op, e, 0, ls, i).1 == 0 {
      WholePlaced(op, e);
      Dups2WalkCounts(op, e, 0, ls, i);
    }
  }

  lemma SharpenedNotFree(f: Symbol, g: Symbol)
    requires f.Config? && g.Config? && f.typ == g.typ == TristateType && f != g
    ensures var e := Sharpened(f, g); !NoComplement(AndOp, e.l, e, 0, 0)
  {
    var e := Sharpened(f, g);
    SharpenedComplementary(f, g);
    assert LeafCount(AndOp, e.l) == 1;
    assert !NoComplement(AndOp, e.l, e.r, 1, 0);
  }

  lemma SharpenedFirstSlot(f: Symbol, g: Symbol)
    requires f.Config? && g.Config? && f.typ == g.typ == TristateType && f != g
    ensures var e := Sharpened(f, g); var ls := Leaves(AndOp, e);
      ls == [e.l, e.r.l, e.r.r] && Dups2Walk(AndOp, e, 0, ls, 0).0 == [Sym(NoSym), e.r.l, e.r.r] &&
      Dups2Walk(AndOp, e, 0, ls, 0).1 > 0
  {
    var e := Sharpened(f, g);
    SharpenedRow(f, g);
    SharpenedJoinFree(f, g);
    SharpenedNotFree(f, g);
    ComplementAbsorbed(AndOp, e, 0);
    assert Leaves(AndOp, e)[0 := Sym(NoSym)] == [Sym(NoSym), e.r.l, e.r.r];
  }

  lemma RebuildThree(e: Expr, x: Expr)
    requires IsNode(AndOp, e) && !IsNode(AndOp, e.l) && IsNode(AndOp, e.r)
    requires !e.r.l.Bin? && !e.r.r.Bin?
    ensures LeafCount(AndOp, e) == 3 && Rebuild(AndOp, e, [x, e.r.l, e.r.r]) == Bin(AndOp, x, e.r)
  {
    var ls := [x, e.r.l, e.r.r];
    assert LeafCount(AndOp, e.l) == 1 && LeafCount(AndOp, e.r) == 2;
    assert ls[1..] == [e.r.l, e.r.r] && ls[..1] == [x];
    assert Rebuild(AndOp, e.r, [e.r.l, e.r.r]) == e.r;
  }

  /** The walk removes the complement: the first operand becomes n, the others stay. */
  lemma SharpenedWalk(f: Symbol, g: Symbol)
    requires f.Config? && g.Config? && f.typ == g.typ == TristateType && f != g
    ensures var e := Sharpened(f, g); Dups2(e).0 == Bin(AndOp, Sym(NoSym), e.r) && Dups2(e).1 > 0
  {
    var e := Sharpened(f, g);
    SharpenedFirstSlot(f, g);
    RebuildThree(e, Sym(NoSym));
    SlotsFrom(AndOp, e, [Sym(NoSym), e.r.l, e.r.r], 1);
  }

  /** The sharpening is real: (F || G) && (!F && !G) is m at F = m, G = n, and becomes the constant n. */
  lemma ComplementSharpensMod(f: Symbol, g: Symbol, env: Env)
    requires f.Config? && g.Config? && f.typ == g.typ == TristateType && f != g
    requires env.tri(f) == MOD && env.tri(g) == NO
    ensures Eval(Sharpened(f, g), env) == MOD && EliminateDups(Sharpened(f, g)) == Sym(NoSym)
  {
    var e := Sharpened(f, g);
    assert Eval(Sym(f), env) == MOD && Eval(Sym(g), env) == NO;
    assert Eval(e.l, env) == MOD;
    assert Eval(e.r.l, env) == MOD;
    assert Eval(e.r.r, env) == YES;
    assert Eval(e.r, env) == MOD;
    SharpenedJoinFree(f, g);
    Dups1Idle(e);
    SharpenedWalk(f, g);
    assert EliminateYn(Bin(AndOp, Sym(NoSym), e.r)) == Sym(NoSym);
    OneRoundProgress(e);
  }
}
