/** The operands of an AND/OR tree as a row of slots, and the tree put together again. */
module Spines {
  import opened Tristates
  import opened Exprs
  import opened ExprEqs

  /** The operands under the topmost nodes of connective `op`, left to right. */
  function Leaves(op: Op, e: Expr): (ls: seq<Expr>)
    ensures |ls| == LeafCount(op, e)
    ensures IsRow(op, ls)
  {
    if IsNode(op, e) then Leaves(op, e.l) + Leaves(op, e.r) else [e]
  }

  function LeafCount(op: Op, e: Expr): (n: nat)
    ensures n >= 1
    ensures IsNode(op, e) ==> n >= 2
  {
    if IsNode(op, e) then LeafCount(op, e.l) + LeafCount(op, e.r) else 1
  }

  /** No slot holds a node of the row's own connective. */
  predicate IsRow(op: Op, ls: seq<Expr>) {
    forall k :: 0 <= k < |ls| ==> !IsNode(op, ls[k])
  }

  /** The tree of the shape of `e` with the slots filled from `ls`. */
  function Rebuild(op: Op, e: Expr, ls: seq<Expr>): (r: Expr)
    requires |ls| == LeafCount(op, e)
    ensures IsNode(op, e) ==> IsNode(op, r)
  {
    if IsNode(op, e) then
      var n := LeafCount(op, e.l);
      Bin(op, Rebuild(op, e.l, ls[..n]), Rebuild(op, e.r, ls[n..]))
    else
      ls[0]
  }

  function SumSize(ls: seq<Expr>): nat {
    if ls == [] then 0 else Size(ls[0]) + SumSize(ls[1..])
  }

  /** The value of a row: the connective applied to all slots. */
  function FoldValue(op: Op, ls: seq<Expr>, env: Env): Tristate {
    if ls == [] then NeutralValue(op) else Apply(op, Eval(ls[0], env), FoldValue(op, ls[1..], env))
  }

  lemma {:induction false} LeavesRebuild(op: Op, e: Expr, ls: seq<Expr>)
    requires |ls| == LeafCount(op, e) && IsRow(op, ls)
    ensures Leaves(op, Rebuild(op, e, ls)) == ls
  {
    if IsNode(op, e) {
      var n := LeafCount(op, e.l);
      var l, r := Rebuild(op, e.l, ls[..n]), Rebuild(op, e.r, ls[n..]);
      LeavesRebuild(op, e.l, ls[..n]);
      LeavesRebuild(op, e.r, ls[n..]);
      assert Leaves(op, Bin(op, l, r)) == ls[..n] + ls[n..] == ls;
    } else {
      assert ls == [ls[0]];
    }
  }

  lemma {:induction false} RebuildLeaves(op: Op, e: Expr)
    ensures Rebuild(op, e, Leaves(op, e)) == e
  {
    if IsNode(op, e) {
      var n := LeafCount(op, e.l);
      assert Leaves(op, e)[..n] == Leaves(op, e.l) && Leaves(op, e)[n..] == Leaves(op, e.r);
      RebuildLeaves(op, e.l);
      RebuildLeaves(op, e.r);
    }
  }

  lemma {:induction false} SumSizeConcat(a: seq<Expr>, b: seq<Expr>)
    ensures SumSize(a + b) == SumSize(a) + SumSize(b)
  {
    if a == [] {
      assert a + b == b;
    } else {
      assert (a + b)[1..] == a[1..] + b;
      SumSizeConcat(a[1..], b);
    }
  }

  /** Filling one slot changes the sum by the difference. */
  lemma {:induction false} SumSizeUpdate(ls: seq<Expr>, i: nat, e: Expr)
    requires i < |ls|
    ensures SumSize(ls[i := e]) + Size(ls[i]) == SumSize(ls) + Size(e)
  {
    if i > 0 {
      assert ls[i := e][1..] == ls[1..][i - 1 := e];
      SumSizeUpdate(ls[1..], i - 1, e);
    }
  }

  lemma {:induction false} SlotSmallerThanRow(ls: seq<Expr>, i: nat)
    requires i < |ls|
    ensures Size(ls[i]) <= SumSize(ls)
    ensures |ls| >= 2 ==> Size(ls[i]) < SumSize(ls)
  {
    if i > 0 {
      SlotSmallerThanRow(ls[1..], i - 1);
    }
  }

  lemma {:induction false} RebuildSize(op: Op, e: Expr, ls: seq<Expr>)
    requires |ls| == LeafCount(op, e)
    ensures Size(Rebuild(op, e, ls)) == SumSize(ls) + |ls| - 1
  {
    if IsNode(op, e) {
      var n := LeafCount(op, e.l);
      RebuildSize(op, e.l, ls[..n]);
      RebuildSize(op, e.r, ls[n..]);
      SumSizeConcat(ls[..n], ls[n..]);
      assert ls[..n] + ls[n..] == ls;
    } else {
      assert ls == [ls[0]];
    }
  }

  lemma LeavesSize(op: Op, e: Expr)
    ensures Size(e) == SumSize(Leaves(op, e)) + LeafCount(op, e) - 1
  {
    RebuildLeaves(op, e);
    RebuildSize(op, e, Leaves(op, e));
  }

  lemma {:induction false} FoldConcat(op: Op, a: seq<Expr>, b: seq<Expr>, env: Env)
    ensures FoldValue(op, a + b, env) == Apply(op, FoldValue(op, a, env), FoldValue(op, b, env))
  {
    if a == [] {
      assert a + b == b;
      ApplyUnits(op, FoldValue(op, b, env));
    } else {
      assert (a + b)[1..] == a[1..] + b;
      FoldConcat(op, a[1..], b, env);
      ApplyAssoc(op, Eval(a[0], env), FoldValue(op, a[1..], env), FoldValue(op, b, env));
    }
  }

  lemma FoldSingle(op: Op, e: Expr, env: Env)
    ensures FoldValue(op, [e], env) == Eval(e, env)
  {
    ApplyUnits(op, Eval(e, env));
  }

  lemma {:induction false} RebuildValue(op: Op, e: Expr, ls: seq<Expr>, env: Env)
    requires |ls| == LeafCount(op, e)
    ensures Eval(Rebuild(op, e, ls), env) == FoldValue(op, ls, env)
  {
    if IsNode(op, e) {
      var n := LeafCount(op, e.l);
      RebuildValue(op, e.l, ls[..n], env);
      RebuildValue(op, e.r, ls[n..], env);
      FoldConcat(op, ls[..n], ls[n..], env);
      assert ls[..n] + ls[n..] == ls;
    } else {
      assert ls == [ls[0]];
      FoldSingle(op, ls[0], env);
    }
  }

  function Without(ls: seq<Expr>, i: nat): seq<Expr>
    requires i < |ls|
  {
    ls[..i] + ls[i + 1..]
  }

  /** A row is the slot at `i` combined with all the others. */
  lemma FoldSplit(op: Op, ls: seq<Expr>, i: nat, env: Env)
    requires i < |ls|
    ensures FoldValue(op, ls, env) == Apply(op, Eval(ls[i], env), FoldValue(op, Without(ls, i), env))
  {
    var a, b := ls[..i], ls[i + 1..];
    assert ls == a + ([ls[i]] + b);
    FoldConcat(op, a, [ls[i]] + b, env);
    FoldConcat(op, [ls[i]], b, env);
    FoldSingle(op, ls[i], env);
    FoldConcat(op, a, b, env);
    ApplySwap(op, FoldValue(op, a, env), Eval(ls[i], env), FoldValue(op, b, env));
  }

  lemma ApplySwap(op: Op, a: Tristate, x: Tristate, b: Tristate)
    ensures Apply(op, a, Apply(op, x, b)) == Apply(op, x, Apply(op, a, b))
  {}

  /** The slots other than i and j. */
  function WithoutBoth(ls: seq<Expr>, i: nat, j: nat): seq<Expr>
    requires i < |ls| && j < |ls| && i != j
  {
    Without(Without(ls, i), if j < i then j else j - 1)
  }

  lemma FoldSplitPair(op: Op, ls: seq<Expr>, i: nat, j: nat, env: Env)
    requires i < |ls| && j < |ls| && i != j
    ensures FoldValue(op, ls, env) ==
            Apply(op, Apply(op, Eval(ls[i], env), Eval(ls[j], env)), FoldValue(op, WithoutBoth(ls, i, j), env))
  {
    var j' := if j < i then j else j - 1;
    assert Without(ls, i)[j'] == ls[j];
    FoldSplit(op, ls, i, env);
    FoldSplit(op, Without(ls, i), j', env);
    ApplyAssoc(op, Eval(ls[i], env), Eval(ls[j], env), FoldValue(op, WithoutBoth(ls, i, j), env));
  }

  lemma WithoutUpdated(ls: seq<Expr>, i: nat, x: Expr)
    requires i < |ls|
    ensures Without(ls[i := x], i) == Without(ls, i)
  {}

  lemma WithoutOther(ls: seq<Expr>, i: nat, j: nat, y: Expr)
    requires i < |ls| && j < |ls| && i != j
    ensures Without(ls[j := y], i) == Without(ls, i)[(if j < i then j else j - 1) := y]
  {}

  /** Refilling one slot with the same value changes nothing; refining a slot refines the row. */
  lemma FoldUpdate(op: Op, ls: seq<Expr>, i: nat, x: Expr, env: Env)
    requires i < |ls|
    ensures Eval(x, env) == Eval(ls[i], env) ==> FoldValue(op, ls[i := x], env) == FoldValue(op, ls, env)
    ensures Refines(Eval(ls[i], env), Eval(x, env)) ==>
              Refines(FoldValue(op, ls, env), FoldValue(op, ls[i := x], env))
  {
    FoldSplit(op, ls, i, env);
    FoldSplit(op, ls[i := x], i, env);
    WithoutUpdated(ls, i, x);
  }

  /** Two slots may be refilled when the pair keeps its value. */
  lemma FoldUpdatePair(op: Op, ls: seq<Expr>, i: nat, j: nat, x: Expr, y: Expr, env: Env)
    requires i < |ls| && j < |ls| && i != j
    requires Apply(op, Eval(x, env), Eval(y, env)) == Apply(op, Eval(ls[i], env), Eval(ls[j], env))
    ensures FoldValue(op, ls[i := x][j := y], env) == FoldValue(op, ls, env)
  {
    var ls' := ls[i := x][j := y];
    FoldSplitPair(op, ls, i, j, env);
    FoldSplitPair(op, ls', i, j, env);
    var j' := if j < i then j else j - 1;
    WithoutUpdated(ls, i, x);
    WithoutOther(ls[i := x], i, j, y);
    WithoutUpdated(Without(ls, i), j', y);
  }

  /** Some slot is y or n, or contains a node with such an operand. */
  predicate RowHasYesNo(ls: seq<Expr>) {
    exists k :: 0 <= k < |ls| && SlotHasYesNo(ls[k])
  }

  predicate SlotHasYesNo(e: Expr) {
    IsYesNo(e) || HasYesNo(e)
  }

  lemma RowHasYesNoConcat(a: seq<Expr>, b: seq<Expr>)
    ensures RowHasYesNo(a + b) <==> RowHasYesNo(a) || RowHasYesNo(b)
  {
    if RowHasYesNo(a) {
      var k :| 0 <= k < |a| && SlotHasYesNo(a[k]);
      assert SlotHasYesNo((a + b)[k]);
    }
    if RowHasYesNo(b) {
      var k :| 0 <= k < |b| && SlotHasYesNo(b[k]);
      assert SlotHasYesNo((a + b)[|a| + k]);
    }
  }

  /** Constant operands of a tree show up at its slots, and only there. */
  lemma {:induction false} YesNoAtSlots(op: Op, e: Expr)
    ensures RowHasYesNo(Leaves(op, e)) <==> SlotHasYesNo(e)
  {
    if IsNode(op, e) {
      YesNoAtSlots(op, e.l);
      YesNoAtSlots(op, e.r);
      RowHasYesNoConcat(Leaves(op, e.l), Leaves(op, e.r));
    } else {
      assert Leaves(op, e)[0] == e;
    }
  }
}
