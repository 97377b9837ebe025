/** Removal of duplicate and complementary operands (expr_eliminate_dups in expr.c). */
module Dups {
  import opened Tristates
  import opened Exprs
  import opened ExprEqs
  import opened Transforms
  import opened Joins
  import opened Spines

  // ----- expr_eliminate_dups1: join pairs of operands -----

  /** The pair walk from both ends at the root of `e`; the second result counts the transformations. */
  function Dups1(e: Expr): (r: (Expr, nat))
    requires e.Bin?
    ensures IsNode(e.op, r.0) && Size(r.0) <= Size(e)
    decreases Size(e), 3, 0, 0
  {
    var ls := Leaves(e.op, e);
    LeavesSize(e.op, e);
    var (ls', c) := Dups1Pairs(e.op, ls, 0, 0);
    RebuildSize(e.op, e, ls');
    (Rebuild(e.op, e, ls'), c)
  }

  /** All pairs of slots from (i, j) on, in row order, skipping a slot with itself. */
  function Dups1Pairs(op: Op, ls: seq<Expr>, i: nat, j: nat): (r: (seq<Expr>, nat))
    requires IsRow(op, ls) && |ls| >= 2 && i <= |ls| && j <= |ls|
    ensures |r.0| == |ls| && IsRow(op, r.0) && SumSize(r.0) <= SumSize(ls)
    decreases SumSize(ls), 2, |ls| - i, |ls| - j
  {
    if i == |ls| then (ls, 0)
    else if j == |ls| then Dups1Pairs(op, ls, i + 1, 0)
    else if i == j then Dups1Pairs(op, ls, i, j + 1)
    else
      var (ls1, c1) := Dups1Step(op, ls, i, j);
      var (ls2, c2) := Dups1Pairs(op, ls1, i, j + 1);
      (ls2, c1 + c2)
  }

  /** An operand of the other connective has its own duplicates removed first. */
  function Dups1Operand(op: Op, ls: seq<Expr>, i: nat): (r: (Expr, nat))
    requires IsRow(op, ls) && |ls| >= 2 && i < |ls|
    ensures Size(r.0) <= Size(ls[i]) && !IsNode(op, r.0)
    decreases SumSize(ls), 0, 0, 0
  {
    SlotSmallerThanRow(ls, i);
    if ls[i].Bin? then Dups1(ls[i]) else (ls[i], 0)
  }

  /** One pair: the first slot becomes neutral and the second takes the join, if there is one. */
  function Dups1Step(op: Op, ls: seq<Expr>, i: nat, j: nat): (r: (seq<Expr>, nat))
    requires IsRow(op, ls) && |ls| >= 2 && i < |ls| && j < |ls| && i != j
    ensures |r.0| == |ls| && IsRow(op, r.0) && SumSize(r.0) <= SumSize(ls)
    decreases SumSize(ls), 1, 0, 0
  {
    var (e1, c) := Dups1Operand(op, ls, i);
    var join := Join(op, e1, ls[j]);
    SumSizeUpdate(ls, i, e1);
    if join.None? then (ls[i := e1], c)
    else
      SumSizeUpdate(ls, i, Neutral(op));
      SumSizeUpdate(ls[i := Neutral(op)], j, join.value);
      (ls[i := Neutral(op)][j := join.value], c + 1)
  }

  /** expr_eliminate_dups1 keeps the value exactly. */
  lemma {:induction false} Dups1Exact(e: Expr, env: Env)
    requires e.Bin? && TwoValued(env)
    ensures Eval(Dups1(e).0, env) == Eval(e, env)
    decreases Size(e), 3, 0, 0
  {
    var ls := Leaves(e.op, e);
    LeavesSize(e.op, e);
    Dups1PairsExact(e.op, ls, 0, 0, env);
    RebuildLeaves(e.op, e);
    RebuildValue(e.op, e, ls, env);
    RebuildValue(e.op, e, Dups1Pairs(e.op, ls, 0, 0).0, env);
  }

  lemma {:induction false} Dups1PairsExact(op: Op, ls: seq<Expr>, i: nat, j: nat, env: Env)
    requires IsRow(op, ls) && |ls| >= 2 && i <= |ls| && j <= |ls| && TwoValued(env)
    ensures FoldValue(op, Dups1Pairs(op, ls, i, j).0, env) == FoldValue(op, ls, env)
    decreases SumSize(ls), 2, |ls| - i, |ls| - j
  {
    if i == |ls| {
    } else if j == |ls| {
      Dups1PairsExact(op, ls, i + 1, 0, env);
    } else if i == j {
      Dups1PairsExact(op, ls, i, j + 1, env);
    } else {
      var ls1 := Dups1Step(op, ls, i, j).0;
      Dups1StepExact(op, ls, i, j, env);
      Dups1PairsExact(op, ls1, i, j + 1, env);
      assert Dups1Pairs(op, ls, i, j).0 == Dups1Pairs(op, ls1, i, j + 1).0;
    }
  }

  lemma {:induction false} Dups1StepExact(op: Op, ls: seq<Expr>, i: nat, j: nat, env: Env)
    requires IsRow(op, ls) && |ls| >= 2 && i < |ls| && j < |ls| && i != j && TwoValued(env)
    ensures FoldValue(op, Dups1Step(op, ls, i, j).0, env) == FoldValue(op, ls, env)
    decreases SumSize(ls), 1, 0, 0
  {
    var (e1, _) := Dups1Operand(op, ls, i);
    SlotSmallerThanRow(ls, i);
    if ls[i].Bin? {
      Dups1Exact(ls[i], env);
    }
    var join := Join(op, e1, ls[j]);
    if join.None? {
      FoldUpdate(op, ls, i, e1, env);
    } else {
      JoinExact(op, e1, ls[j], env);
      ApplyUnits(op, Eval(join.value, env));
      FoldUpdatePair(op, ls, i, j, Neutral(op), join.value, env);
    }
  }

  /** No two operands of any reachable AND/OR node can be joined. */
  ghost predicate JoinFree(e: Expr)
    decreases Size(e)
  {
    e.Bin? ==>
      var ls := Leaves(e.op, e);
      (forall i, j | 0 <= i < |ls| && 0 <= j < |ls| && i != j :: Join(e.op, ls[i], ls[j]).None?) &&
      (forall x | x in ls && Size(x) < Size(e) :: JoinFree(x)) // operands are always smaller
  }

  ghost predicate PairFree(op: Op, ls: seq<Expr>, i: nat, j: nat)
    requires i < |ls| && j < |ls|
  {
    Join(op, ls[i], ls[j]).None? && JoinFree(ls[i])
  }

  /** The pairs still to be visited from (i, j). */
  predicate Ahead(i: nat, j: nat, p: nat, q: nat) {
    p > i || (p == i && q >= j)
  }

  /** A walk that counts nothing changed nothing and met no pair to join; any other plants a constant. */
  lemma {:induction false} Dups1Counts(e: Expr)
    requires e.Bin?
    ensures Dups1(e).1 == 0 ==> Dups1(e).0 == e && JoinFree(e)
    ensures Dups1(e).1 > 0 || HasYesNo(e) ==> HasYesNo(Dups1(e).0)
    decreases Size(e), 3, 0, 0
  {
    var op, ls := e.op, Leaves(e.op, e);
    LeavesSize(op, e);
    Dups1PairsCounts(op, ls, 0, 0);
    var (ls', c) := Dups1Pairs(op, ls, 0, 0);
    RebuildLeaves(op, e);
    LeavesRebuild(op, e, ls');
    YesNoAtSlots(op, e);
    YesNoAtSlots(op, Dups1(e).0);
    if c == 0 {
      forall i, j | 0 <= i < |ls| && 0 <= j < |ls| && i != j ensures Join(op, ls[i], ls[j]).None? {
        assert Ahead(0, 0, i, j);
        assert PairFree(op, ls, i, j);
      }
      forall x | x in ls ensures JoinFree(x) {
        var i :| 0 <= i < |ls| && ls[i] == x;
        var j := if i == 0 then 1 else 0;
        assert Ahead(0, 0, i, j);
        assert PairFree(op, ls, i, j);
      }
    }
  }

  lemma {:induction false} Dups1PairsCounts(op: Op, ls: seq<Expr>, i: nat, j: nat)
    requires IsRow(op, ls) && |ls| >= 2 && i <= |ls| && j <= |ls|
    ensures Dups1Pairs(op, ls, i, j).1 == 0 ==> Dups1Pairs(op, ls, i, j).0 == ls
    ensures Dups1Pairs(op, ls, i, j).1 == 0 ==>
              forall p, q | 0 <= p < |ls| && 0 <= q < |ls| && p != q && Ahead(i, j, p, q) :: PairFree(op, ls, p, q)
    ensures Dups1Pairs(op, ls, i, j).1 > 0 || RowHasYesNo(ls) ==> RowHasYesNo(Dups1Pairs(op, ls, i, j).0)
    decreases SumSize(ls), 2, |ls| - i, |ls| - j
  {
    if i == |ls| {
    } else if j == |ls| {
      Dups1PairsCounts(op, ls, i + 1, 0);
      assert forall p: nat, q: nat | p < |ls| && q < |ls| && Ahead(i, j, p, q) :: Ahead(i + 1, 0, p, q);
    } else if i == j {
      Dups1PairsCounts(op, ls, i, j + 1);
      assert forall p: nat, q: nat | p != q && Ahead(i, j, p, q) :: Ahead(i, j + 1, p, q);
    } else {
      Dups1StepCounts(op, ls, i, j);
      Dups1PairsCounts(op, Dups1Step(op, ls, i, j).0, i, j + 1);
      assert forall p: nat, q: nat | Ahead(i, j, p, q) :: (p == i && q == j) || Ahead(i, j + 1, p, q);
    }
  }

  lemma {:induction false} Dups1StepCounts(op: Op, ls: seq<Expr>, i: nat, j: nat)
    requires IsRow(op, ls) && |ls| >= 2 && i < |ls| && j < |ls| && i != j
    ensures Dups1Step(op, ls, i, j).1 == 0 ==> Dups1Step(op, ls, i, j).0 == ls && PairFree(op, ls, i, j)
    ensures Dups1Step(op, ls, i, j).1 > 0 || RowHasYesNo(ls) ==> RowHasYesNo(Dups1Step(op, ls, i, j).0)
    decreases SumSize(ls), 1, 0, 0
  {
    var (e1, c) := Dups1Operand(op, ls, i);
    var (ls', c') := Dups1Step(op, ls, i, j);
    SlotSmallerThanRow(ls, i);
    if ls[i].Bin? {
      Dups1Counts(ls[i]);
    }
    if Join(op, e1, ls[j]).None? {
      RowUpdateYesNo(ls, i, e1, c > 0);
    } else {
      assert SlotHasYesNo(ls'[i]);
    }
  }

  /** Refilling a slot keeps constants in the row if it keeps those of the slot. */
  lemma RowUpdateYesNo(ls: seq<Expr>, i: nat, x: Expr, planted: bool)
    requires i < |ls|
    requires planted || SlotHasYesNo(ls[i]) ==> SlotHasYesNo(x)
    ensures planted || RowHasYesNo(ls) ==> RowHasYesNo(ls[i := x])
  {
    if planted {
      assert SlotHasYesNo(ls[i := x][i]);
    } else if RowHasYesNo(ls) {
      var k :| 0 <= k < |ls| && SlotHasYesNo(ls[k]);
      assert SlotHasYesNo(ls[i := x][k]);
    }
  }

  // ----- expr_eliminate_dups2: complementary operands -----

  /** The conjuncts (disjuncts) of the negated operand all occur in `e2`. */
  predicate Complementary(op: Op, e1: Expr, e2: Expr) {
    ExtractEq(op, Transform(Not(e1)), e2).1 == Neutral(op)
  }

  function Dups2(e: Expr): (r: (Expr, nat))
    requires e.Bin?
    ensures IsNode(e.op, r.0) && Size(r.0) <= Size(e)
    decreases Size(e), 4, 0
  {
    var ls := Leaves(e.op, e);
    LeavesSize(e.op, e);
    var (ls', c) := Dups2Slots(e.op, e, ls, 0);
    RebuildSize(e.op, e, ls');
    (Rebuild(e.op, e, ls'), c)
  }

  /** Each operand in turn against the whole tree. */
  function Dups2Slots(op: Op, e: Expr, ls: seq<Expr>, i: nat): (r: (seq<Expr>, nat))
    requires IsRow(op, ls) && |ls| == LeafCount(op, e) && |ls| >= 2 && i <= |ls|
    ensures |r.0| == |ls| && IsRow(op, r.0) && SumSize(r.0) <= SumSize(ls)
    decreases SumSize(ls), 3, |ls| - i
  {
    if i == |ls| then (ls, 0)
    else
      var (ls1, c1) := Dups2Walk(op, e, 0, ls, i);
      var (ls2, c2) := Dups2Slots(op, e, ls1, i + 1);
      (ls2, c1 + c2)
  }

  /**
   * Operand i against every node below `sub`, whose operands start at slot `lo`: both children first,
   * then the node itself, since the original does not return after walking them.
   */
  function Dups2Walk(op: Op, sub: Expr, lo: nat, ls: seq<Expr>, i: nat): (r: (seq<Expr>, nat))
    requires IsRow(op, ls) && |ls| >= 2 && i < |ls| && lo + LeafCount(op, sub) <= |ls|
    ensures |r.0| == |ls| && IsRow(op, r.0) && SumSize(r.0) <= SumSize(ls)
    decreases SumSize(ls), 2, Size(sub)
  {
    if IsNode(op, sub) then
      var (ls1, c1) := Dups2Walk(op, sub.l, lo, ls, i);
      var (ls2, c2) := Dups2Walk(op, sub.r, lo + LeafCount(op, sub.l), ls1, i);
      var (ls3, c3) := Dups2Check(op, sub, lo, ls2, i);
      (ls3, c1 + c2 + c3)
    else if lo == i then (ls, 0)
    else Dups2Check(op, sub, lo, ls, i)
  }

  /** The tree below `sub` as the slots stand now. */
  function Current(op: Op, sub: Expr, lo: nat, ls: seq<Expr>): Expr
    requires lo + LeafCount(op, sub) <= |ls|
  {
    Rebuild(op, sub, ls[lo..lo + LeafCount(op, sub)])
  }

  /** Operand i against the one node `sub`: a complement makes it the absorbing constant. */
  function Dups2Check(op: Op, sub: Expr, lo: nat, ls: seq<Expr>, i: nat): (r: (seq<Expr>, nat))
    requires IsRow(op, ls) && |ls| >= 2 && i < |ls| && lo + LeafCount(op, sub) <= |ls|
    ensures |r.0| == |ls| && IsRow(op, r.0) && SumSize(r.0) <= SumSize(ls)
    decreases SumSize(ls), 1, 0
  {
    if !ls[i].Bin? then (ls, 0)
    else
      SlotSmallerThanRow(ls, i);
      var (e1, c) := Dups2(ls[i]);
      SumSizeUpdate(ls, i, e1);
      var ls1 := ls[i := e1];
      if Complementary(op, e1, Current(op, sub, lo, ls1)) then
        SumSizeUpdate(ls, i, Absorbing(op));
        (ls[i := Absorbing(op)], c + 1)
      else (ls1, c)
  }

  /** A complement decides its tree up to m: in an AND it is at most, in an OR at least, the negation. */
  lemma {:induction false} ComplementaryBound(op: Op, e1: Expr, e2: Expr, env: Env)
    requires Complementary(op, e1, e2) && TwoValued(env)
    ensures Apply(op, Eval(e2, env), Neg(Eval(e1, env))) == Eval(e2, env)
  {
    var t := Transform(Not(e1));
    TransformPreservesValue(Not(e1), env);
    var (f, r1, r2) := ExtractEq(op, t, e2);
    ExtractEqExact(op, t, e2, env);
    var v := FactorValue(op, f, env);
    ApplyUnits(op, v);
    ApplyAssoc(op, Eval(r2, env), v, v);
  }

  lemma FoldAbsorbsPart(op: Op, ls: seq<Expr>, lo: nat, hi: nat, env: Env)
    requires lo <= hi <= |ls|
    ensures Apply(op, FoldValue(op, ls, env), FoldValue(op, ls[lo..hi], env)) == FoldValue(op, ls, env)
  {
    assert ls == ls[..lo] + (ls[lo..hi] + ls[hi..]);
    FoldConcat(op, ls[..lo], ls[lo..hi] + ls[hi..], env);
    FoldConcat(op, ls[lo..hi], ls[hi..], env);
    PartAbsorbed(op, FoldValue(op, ls[..lo], env), FoldValue(op, ls[lo..hi], env), FoldValue(op, ls[hi..], env));
  }

  lemma PartAbsorbed(op: Op, a: Tristate, x: Tristate, b: Tristate)
    ensures Apply(op, Apply(op, a, Apply(op, x, b)), x) == Apply(op, a, Apply(op, x, b))
  {}

  /** Both x and not-x bound the row, so it is m or already decided; deciding it refines it. */
  lemma ComplementDecides(op: Op, row: Tristate, x: Tristate, y: Tristate)
    requires Apply(op, row, x) == row && Apply(op, row, y) == row
    requires Apply(op, y, Neg(x)) == y
    ensures Refines(row, AbsorbingValue(op))
  {}

  lemma {:induction false} Dups2Refines(e: Expr, env: Env)
    requires e.Bin? && TwoValued(env)
    ensures Refines(Eval(e, env), Eval(Dups2(e).0, env))
    decreases Size(e), 4, 0
  {
    var ls := Leaves(e.op, e);
    LeavesSize(e.op, e);
    Dups2SlotsRefines(e.op, e, ls, 0, env);
    RebuildLeaves(e.op, e);
    RebuildValue(e.op, e, ls, env);
    RebuildValue(e.op, e, Dups2Slots(e.op, e, ls, 0).0, env);
  }

  lemma {:induction false} Dups2SlotsRefines(op: Op, e: Expr, ls: seq<Expr>, i: nat, env: Env)
    requires IsRow(op, ls) && |ls| == LeafCount(op, e) && |ls| >= 2 && i <= |ls| && TwoValued(env)
    ensures Refines(FoldValue(op, ls, env), FoldValue(op, Dups2Slots(op, e, ls, i).0, env))
    decreases SumSize(ls), 3, |ls| - i
  {
    if i < |ls| {
      Dups2WalkRefines(op, e, 0, ls, i, env);
      Dups2SlotsRefines(op, e, Dups2Walk(op, e, 0, ls, i).0, i + 1, env);
    }
  }

  lemma {:induction false} Dups2WalkRefines(op: Op, sub: Expr, lo: nat, ls: seq<Expr>, i: nat, env: Env)
    requires IsRow(op, ls) && |ls| >= 2 && i < |ls| && lo + LeafCount(op, sub) <= |ls| && TwoValued(env)
    ensures Refines(FoldValue(op, ls, env), FoldValue(op, Dups2Walk(op, sub, lo, ls, i).0, env))
    decreases SumSize(ls), 2, Size(sub)
  {
    if IsNode(op, sub) {
      var ls1 := Dups2Walk(op, sub.l, lo, ls, i).0;
      var ls2 := Dups2Walk(op, sub.r, lo + LeafCount(op, sub.l), ls1, i).0;
      Dups2WalkRefines(op, sub.l, lo, ls, i, env);
      Dups2WalkRefines(op, sub.r, lo + LeafCount(op, sub.l), ls1, i, env);
      Dups2CheckRefines(op, sub, lo, ls2, i, env);
    } else if lo != i {
      Dups2CheckRefines(op, sub, lo, ls, i, env);
    }
  }

  lemma {:induction false} Dups2CheckRefines(op: Op, sub: Expr, lo: nat, ls: seq<Expr>, i: nat, env: Env)
    requires IsRow(op, ls) && |ls| >= 2 && i < |ls| && lo + LeafCount(op, sub) <= |ls| && TwoValued(env)
    ensures Refines(FoldValue(op, ls, env), FoldValue(op, Dups2Check(op, sub, lo, ls, i).0, env))
    decreases SumSize(ls), 1, 0
  {
    if ls[i].Bin? {
      SlotSmallerThanRow(ls, i);
      var e1 := Dups2(ls[i]).0;
      Dups2Refines(ls[i], env);
      FoldUpdate(op, ls, i, e1, env);
      var ls1 := ls[i := e1];
      if Complementary(op, e1, Current(op, sub, lo, ls1)) {
        ComplementAtSlot(op, sub, lo, ls1, i, env);
        assert ls1[i := Absorbing(op)] == ls[i := Absorbing(op)];
      }
    }
  }

  lemma FoldAbsorbsSlot(op: Op, ls: seq<Expr>, i: nat, env: Env)
    requires i < |ls|
    ensures Apply(op, FoldValue(op, ls, env), Eval(ls[i], env)) == FoldValue(op, ls, env)
  {
    FoldAbsorbsPart(op, ls, i, i + 1, env);
    assert ls[i..i + 1] == [ls[i]];
    FoldSingle(op, ls[i], env);
  }

  lemma AbsorbingSlotDecides(op: Op, ls: seq<Expr>, i: nat, env: Env)
    requires i < |ls| && ls[i] == Absorbing(op)
    ensures FoldValue(op, ls, env) == AbsorbingValue(op)
  {
    FoldSplit(op, ls, i, env);
    ApplyUnits(op, FoldValue(op, Without(ls, i), env));
  }

  lemma ComplementAtSlot(op: Op, sub: Expr, lo: nat, ls: seq<Expr>, i: nat, env: Env)
    requires i < |ls| && lo + LeafCount(op, sub) <= |ls| && TwoValued(env)
    requires Complementary(op, ls[i], Current(op, sub, lo, ls))
    ensures Refines(FoldValue(op, ls, env), FoldValue(op, ls[i := Absorbing(op)], env))
  {
    var hi := lo + LeafCount(op, sub);
    ComplementaryBound(op, ls[i], Current(op, sub, lo, ls), env);
    RebuildValue(op, sub, ls[lo..hi], env);
    FoldAbsorbsPart(op, ls, lo, hi, env);
    FoldAbsorbsSlot(op, ls, i, env);
    ComplementDecides(op, FoldValue(op, ls, env), Eval(ls[i], env), FoldValue(op, ls[lo..hi], env));
    AbsorbingSlotDecides(op, ls[i := Absorbing(op)], i, env);
  }

  /** No node below `sub` other than operand i itself is complementary to `x`. */
  predicate NoComplement(op: Op, x: Expr, sub: Expr, lo: nat, i: nat) {
    if IsNode(op, sub) then
      && NoComplement(op, x, sub.l, lo, i)
      && NoComplement(op, x, sub.r, lo + LeafCount(op, sub.l), i)
      && !Complementary(op, x, sub)
    else
      lo == i || !Complementary(op, x, sub)
  }

  /** No operand of any reachable AND/OR node is complementary to a node of its tree. */
  ghost predicate ComplementFree(e: Expr)
    decreases Size(e)
  {
    e.Bin? ==>
      var ls := Leaves(e.op, e);
      (forall i | 0 <= i < |ls| && ls[i].Bin? :: NoComplement(e.op, ls[i], e, 0, i)) &&
      (forall x | x in ls && Size(x) < Size(e) :: ComplementFree(x)) // operands are always smaller
  }

  /** An operand whose own walk changes it only if it counts something. */
  predicate CountsChanges(e: Expr) {
    e.Bin? && Dups2(e).1 == 0 ==> Dups2(e).0 == e
  }

  /** From slot `lo` on stand the operands of `sub`. */
  predicate Placed(op: Op, sub: Expr, lo: nat, ls: seq<Expr>) {
    lo + LeafCount(op, sub) <= |ls| && Current(op, sub, lo, ls) == sub
  }

  lemma WholePlaced(op: Op, e: Expr)
    ensures Placed(op, e, 0, Leaves(op, e))
  {
    var ls := Leaves(op, e);
    assert ls[0..|ls|] == ls;
    RebuildLeaves(op, e);
  }

  lemma PartsPlaced(op: Op, sub: Expr, lo: nat, ls: seq<Expr>)
    requires IsNode(op, sub) && Placed(op, sub, lo, ls)
    ensures Placed(op, sub.l, lo, ls) && Placed(op, sub.r, lo + LeafCount(op, sub.l), ls)
  {
    var n, m := LeafCount(op, sub.l), LeafCount(op, sub);
    assert ls[lo..lo + m][..n] == ls[lo..lo + n];
    assert ls[lo..lo + m][n..] == ls[lo + n..lo + m];
  }

  /** The walk at a node: its two operands, then the node itself. */
  lemma WalkAtNode(op: Op, sub: Expr, lo: nat, ls: seq<Expr>, i: nat)
    requires IsNode(op, sub) && IsRow(op, ls) && |ls| >= 2 && i < |ls| && lo + LeafCount(op, sub) <= |ls|
    ensures var (ls1, c1) := Dups2Walk(op, sub.l, lo, ls, i);
      var (ls2, c2) := Dups2Walk(op, sub.r, lo + LeafCount(op, sub.l), ls1, i);
      var (ls3, c3) := Dups2Check(op, sub, lo, ls2, i);
      Dups2Walk(op, sub, lo, ls, i) == (ls3, c1 + c2 + c3)
  {}

  /** When the walk at a node counts nothing, neither of its parts does. */
  lemma QuietParts(op: Op, sub: Expr, lo: nat, ls: seq<Expr>, i: nat)
    requires IsNode(op, sub) && IsRow(op, ls) && |ls| >= 2 && i < |ls| && lo + LeafCount(op, sub) <= |ls|
    requires Dups2Walk(op, sub, lo, ls, i).1 == 0
    ensures var (ls1, c1) := Dups2Walk(op, sub.l, lo, ls, i);
      c1 == 0 && (ls1 == ls ==>
        var (ls2, c2) := Dups2Walk(op, sub.r, lo + LeafCount(op, sub.l), ls, i);
        c2 == 0 && (ls2 == ls ==> Dups2Walk(op, sub, lo, ls, i) == Dups2Check(op, sub, lo, ls, i)))
  {
    WalkAtNode(op, sub, lo, ls, i);
  }

  /** The count of one check: that of the operand, and one more for a complement. */
  lemma CheckCount(op: Op, sub: Expr, lo: nat, ls: seq<Expr>, i: nat)
    requires IsRow(op, ls) && |ls| >= 2 && i < |ls| && lo + LeafCount(op, sub) <= |ls| && ls[i].Bin?
    ensures var (e1, c) := Dups2(ls[i]); var found := Complementary(op, e1, Current(op, sub, lo, ls[i := e1]));
      Dups2Check(op, sub, lo, ls, i) == if found then (ls[i := Absorbing(op)], c + 1) else (ls[i := e1], c)
  {}

  lemma Dups2CheckCounts(op: Op, sub: Expr, lo: nat, ls: seq<Expr>, i: nat)
    requires IsRow(op, ls) && |ls| >= 2 && i < |ls| && Placed(op, sub, lo, ls) && CountsChanges(ls[i])
    requires Dups2Check(op, sub, lo, ls, i).1 == 0
    ensures Dups2Check(op, sub, lo, ls, i).0 == ls
    ensures ls[i].Bin? ==> Dups2(ls[i]).1 == 0 && !Complementary(op, ls[i], sub)
  {
    if ls[i].Bin? {
      CheckCount(op, sub, lo, ls, i);
      assert ls[i := Dups2(ls[i]).0] == ls;
    }
  }

  lemma {:induction false} Dups2WalkCounts(op: Op, sub: Expr, lo: nat, ls: seq<Expr>, i: nat)
    requires IsRow(op, ls) && |ls| >= 2 && i < |ls| && Placed(op, sub, lo, ls) && CountsChanges(ls[i])
    requires Dups2Walk(op, sub, lo, ls, i).1 == 0
    ensures Dups2Walk(op, sub, lo, ls, i).0 == ls
    ensures ls[i].Bin? ==> NoComplement(op, ls[i], sub, lo, i)
    ensures ls[i].Bin? && (lo != i || IsNode(op, sub)) ==> Dups2(ls[i]).1 == 0
    decreases Size(sub)
  {
    if IsNode(op, sub) {
      PartsPlaced(op, sub, lo, ls);
      QuietParts(op, sub, lo, ls, i);
      Dups2WalkCounts(op, sub.l, lo, ls, i);
      Dups2WalkCounts(op, sub.r, lo + LeafCount(op, sub.l), ls, i);
      Dups2CheckCounts(op, sub, lo, ls, i);
    } else if lo != i {
      Dups2CheckCounts(op, sub, lo, ls, i);
    }
  }

  /** A walk that counts nothing changed nothing and met no complement. */
  lemma {:induction false} Dups2Counts(e: Expr)
    requires e.Bin? && Dups2(e).1 == 0
    ensures Dups2(e).0 == e && ComplementFree(e)
    decreases Size(e), 4, 0
  {
    var op, ls := e.op, Leaves(e.op, e);
    LeavesSize(op, e);
    Dups2SlotsCounts(op, e, ls, 0);
    RebuildLeaves(op, e);
    forall i | 0 <= i < |ls| && ls[i].Bin? ensures NoComplement(op, ls[i], e, 0, i) {
      assert SlotFree(op, e, ls, i);
    }
    forall x | x in ls ensures ComplementFree(x) {
      var i :| 0 <= i < |ls| && ls[i] == x;
      assert SlotFree(op, e, ls, i);
    }
  }

  ghost predicate SlotFree(op: Op, e: Expr, ls: seq<Expr>, i: nat)
    requires i < |ls|
  {
    ls[i].Bin? ==> ComplementFree(ls[i]) && NoComplement(op, ls[i], e, 0, i)
  }

  lemma {:induction false} Dups2SlotsCounts(op: Op, e: Expr, ls: seq<Expr>, i: nat)
    requires IsNode(op, e) && ls == Leaves(op, e) && i <= |ls|
    requires Dups2Slots(op, e, ls, i).1 == 0
    ensures Dups2Slots(op, e, ls, i).0 == ls
    ensures forall k | i <= k < |ls| :: SlotFree(op, e, ls, k)
    decreases SumSize(ls), 3, |ls| - i
  {
    if i < |ls| {
      Dups2SlotCounts(op, e, ls, i);
      Dups2SlotsCounts(op, e, ls, i + 1);
    }
  }

  lemma {:induction false} Dups2SlotCounts(op: Op, e: Expr, ls: seq<Expr>, i: nat)
    requires IsNode(op, e) && ls == Leaves(op, e) && i < |ls|
    requires Dups2Walk(op, e, 0, ls, i).1 == 0
    ensures Dups2Walk(op, e, 0, ls, i).0 == ls && SlotFree(op, e, ls, i)
    decreases SumSize(ls), 2
  {
    WholePlaced(op, e);
    if ls[i].Bin? && Dups2(ls[i]).1 == 0 {
      SlotSmallerThanRow(ls, i);
      Dups2Counts(ls[i]);
    }
    Dups2WalkCounts(op, e, 0, ls, i);
  }

  /** A walk that counts something plants a constant, and constants stay. */
  lemma {:induction false} Dups2Plants(e: Expr)
    requires e.Bin?
    ensures Dups2(e).1 > 0 || HasYesNo(e) ==> HasYesNo(Dups2(e).0)
    decreases Size(e), 4, 0
  {
    var op, ls := e.op, Leaves(e.op, e);
    LeavesSize(op, e);
    Dups2SlotsPlants(op, e, ls, 0);
    LeavesRebuild(op, e, Dups2Slots(op, e, ls, 0).0);
    YesNoAtSlots(op, e);
    YesNoAtSlots(op, Dups2(e).0);
  }

  lemma {:induction false} Dups2SlotsPlants(op: Op, e: Expr, ls: seq<Expr>, i: nat)
    requires IsRow(op, ls) && |ls| == LeafCount(op, e) && |ls| >= 2 && i <= |ls|
    ensures Dups2Slots(op, e, ls, i).1 > 0 || RowHasYesNo(ls) ==> RowHasYesNo(Dups2Slots(op, e, ls, i).0)
    decreases SumSize(ls), 3, |ls| - i
  {
    if i < |ls| {
      Dups2WalkPlants(op, e, 0, ls, i);
      Dups2SlotsPlants(op, e, Dups2Walk(op, e, 0, ls, i).0, i + 1);
    }
  }

  lemma {:induction false} Dups2WalkPlants(op: Op, sub: Expr, lo: nat, ls: seq<Expr>, i: nat)
    requires IsRow(op, ls) && |ls| >= 2 && i < |ls| && lo + LeafCount(op, sub) <= |ls|
    ensures Dups2Walk(op, sub, lo, ls, i).1 > 0 || RowHasYesNo(ls) ==> RowHasYesNo(Dups2Walk(op, sub, lo, ls, i).0)
    decreases SumSize(ls), 2, Size(sub)
  {
    if IsNode(op, sub) {
      var mid := lo + LeafCount(op, sub.l);
      var ls1 := Dups2Walk(op, sub.l, lo, ls, i).0;
      var ls2 := Dups2Walk(op, sub.r, mid, ls1, i).0;
      Dups2WalkPlants(op, sub.l, lo, ls, i);
      Dups2WalkPlants(op, sub.r, mid, ls1, i);
      Dups2CheckPlants(op, sub, lo, ls2, i);
    } else if lo != i {
      Dups2CheckPlants(op, sub, lo, ls, i);
    }
  }

  lemma {:induction false} Dups2CheckPlants(op: Op, sub: Expr, lo: nat, ls: seq<Expr>, i: nat)
    requires IsRow(op, ls) && |ls| >= 2 && i < |ls| && lo + LeafCount(op, sub) <= |ls|
    ensures Dups2Check(op, sub, lo, ls, i).1 > 0 || RowHasYesNo(ls) ==>
              RowHasYesNo(Dups2Check(op, sub, lo, ls, i).0)
    decreases SumSize(ls), 1, 0
  {
    if ls[i].Bin? {
      SlotSmallerThanRow(ls, i);
      var (e1, c) := Dups2(ls[i]);
      Dups2Plants(ls[i]);
      if Complementary(op, e1, Current(op, sub, lo, ls[i := e1])) {
        assert SlotHasYesNo(ls[i := Absorbing(op)][i]);
      } else {
        RowUpdateYesNo(ls, i, e1, c > 0);
      }
    }
  }

  // ----- expr_eliminate_dups: both walks until nothing is counted -----

  function OneRound(e: Expr): (r: (Expr, nat))
    requires e.Bin?
    ensures Size(r.0) <= Size(e)
  {
    var (e1, c1) := Dups1(e);
    var (e2, c2) := Dups2(e1);
    (e2, c1 + c2)
  }

  /** A round that counts something makes the folded tree smaller; one that counts nothing is the last. */
  lemma {:induction false} OneRoundProgress(e: Expr)
    requires e.Bin?
    ensures OneRound(e).1 > 0 ==> Size(EliminateYn(OneRound(e).0)) < Size(e)
    ensures OneRound(e).1 == 0 ==> OneRound(e).0 == e && JoinFree(e) && ComplementFree(e)
  {
    var e1 := Dups1(e).0;
    Dups1Counts(e);
    Dups2Plants(e1);
    if Dups2(e1).1 == 0 {
      Dups2Counts(e1);
    }
    EliminateYnShrinks(OneRound(e).0);
  }

  /** The fixpoint of expr_eliminate_dups, as a function. */
  function EliminateDups(e: Expr): (r: Expr)
    ensures Size(r) <= Size(e)
    decreases Size(e)
  {
    if !e.Bin? then e
    else
      OneRoundProgress(e);
      var (e', c) := OneRound(e);
      if c == 0 then e' else EliminateDups(EliminateYn(e'))
  }

  /** The result agrees with the input wherever the input is y or n; only an m may be sharpened. */
  lemma {:induction false} EliminateDupsRefines(e: Expr, env: Env)
    requires TwoValued(env)
    ensures Refines(Eval(e, env), Eval(EliminateDups(e), env))
    decreases Size(e)
  {
    if e.Bin? {
      var (e1, _) := Dups1(e);
      var (e2, c) := OneRound(e);
      Dups1Exact(e, env);
      Dups2Refines(e1, env);
      OneRoundProgress(e);
      if c > 0 {
        EliminateYnPreservesValue(e2, env);
        EliminateDupsRefines(EliminateYn(e2), env);
      }
    }
  }

  /** Built from comparisons and symbols that are never m. */
  predicate Definite(e: Expr) {
    match e
    case Sym(s) => s != ModSym && s.Type() != TristateType
    case Not(x) => Definite(x)
    case Bin(_, l, r) => Definite(l) && Definite(r)
    case _ => true
  }

  lemma {:induction false} DefiniteIsNeverMod(e: Expr, env: Env)
    requires TwoValued(env) && Definite(e)
    ensures Eval(e, env) != MOD
  {
    match e
    case Not(x) => DefiniteIsNeverMod(x, env);
    case Bin(_, l, r) =>
      DefiniteIsNeverMod(l, env);
      DefiniteIsNeverMod(r, env);
    case _ =>
  }

  /** Such expressions keep their value exactly. */
  lemma EliminateDupsExact(e: Expr, env: Env)
    requires TwoValued(env) && Definite(e)
    ensures Eval(EliminateDups(e), env) == Eval(e, env)
  {
    DefiniteIsNeverMod(e, env);
    EliminateDupsRefines(e, env);
  }

  /** The result is a normal form: nothing can be joined and nothing is complementary any more. */
  lemma {:induction false} EliminateDupsNormalForm(e: Expr)
    ensures JoinFree(EliminateDups(e)) && ComplementFree(EliminateDups(e))
    ensures EliminateDups(EliminateDups(e)) == EliminateDups(e)
    decreases Size(e)
  {
    if e.Bin? {
      OneRoundProgress(e);
      if OneRound(e).1 > 0 {
        EliminateDupsNormalForm(EliminateYn(OneRound(e).0));
      }
    }
  }
}
