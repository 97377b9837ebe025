/** Which of several equal operands stays, and in what order (expr_eliminate_dups in expr.c). */
module DupsOrder {
  import opened Tristates
  import opened Exprs
  import opened ExprEqs
  import opened Joins
  import opened JoinRules
  import opened Spines
  import opened Dups
  import opened DupsFixpoints

  /** A symbol other than y and n, its negation, or a comparison. */
  predicate Literal(x: Expr) {
    match x
    case Sym(s) => !s.YesSym? && !s.NoSym?
    case Not(y) => y.Sym?
    case Bin(_, _, _) => false
    case _ => true
  }

  /** Literals of which no two different ones are joined. */
  ghost predicate Unrelated(op: Op, ls: seq<Expr>) {
    && (forall x | x in ls :: Literal(x))
    && (forall x, y, r | x in ls && y in ls && x != y :: !Listed(op, x, y, r))
  }

  /** Every operand where it occurs last. */
  function LastOnes(ls: seq<Expr>): seq<Expr> {
    if ls == [] then []
    else if ls[0] in ls[1..] then LastOnes(ls[1..])
    else [ls[0]] + LastOnes(ls[1..])
  }

  // ----- the joining walk over such a row -----

  function Blanked(op: Op, ls: seq<Expr>): seq<Expr> {
    seq(|ls|, k requires 0 <= k < |ls| => if ls[k] in ls[k + 1..] then Neutral(op) else ls[k])
  }

  /** The row when the walk is at slots i and j. */
  predicate WalkedTo(op: Op, ls: seq<Expr>, cur: seq<Expr>, i: nat, j: nat)
    requires i <= |ls| && j <= |ls|
  {
    && |cur| == |ls|
    && (forall k | 0 <= k < i :: cur[k] == Blanked(op, ls)[k])
    && (forall k | i < k < |ls| :: cur[k] == ls[k])
    && (i < |ls| ==> cur[i] == if j > i && ls[i] in ls[i + 1..if j > i then j else i + 1] then Neutral(op) else ls[i])
  }

  lemma LiteralEqual(x: Expr, y: Expr)
    requires Literal(x) && Literal(y)
    ensures ExprEq(x, y) <==> x == y
  {
    if x.Not? && y.Not? {
      assert ExprEq(x, y) <==> ExprEq(x.e, y.e);
    }
  }

  lemma NeutralJoinsNothing(op: Op, x: Expr)
    requires Literal(x)
    ensures Join(op, Neutral(op), x).None? && Join(op, x, Neutral(op)).None?
  {
    assert !ExprEq(Neutral(op), x) && !ExprEq(x, Neutral(op));
    assert FirstSubject(Neutral(op)).value.Type() == UnknownType;
  }

  lemma LiteralJoins(op: Op, ls: seq<Expr>, x: Expr, y: Expr)
    requires Unrelated(op, ls) && x in ls && y in ls
    ensures Join(op, x, y) == if x == y then Some(x) else None
  {
    LiteralEqual(x, y);
    JoinIff(op, x, y, if Join(op, x, y).Some? then Join(op, x, y).value else x);
  }

  lemma {:induction false} StepWalks(op: Op, ls: seq<Expr>, cur: seq<Expr>, i: nat, j: nat)
    requires Unrelated(op, ls) && |ls| >= 2 && i < |ls| && j < |ls| && i != j && WalkedTo(op, ls, cur, i, j)
    requires IsRow(op, cur)
    ensures WalkedTo(op, ls, Dups1Step(op, cur, i, j).0, i, j + 1)
  {
    LiteralJoins(op, ls, ls[i], ls[j]);
    NeutralJoinsNothing(op, ls[i]);
    NeutralJoinsNothing(op, ls[j]);
    if j < i {
      if cur[j] != Neutral(op) {
        assert ls[i] in ls[j + 1..];
      }
      assert cur[i := cur[i]] == cur;
    } else {
      assert ls[i + 1..j + 1] == ls[i + 1..j] + [ls[j]];
      assert cur[i := cur[i]] == cur;
    }
  }

  lemma NextSlot(op: Op, ls: seq<Expr>, cur: seq<Expr>, i: nat)
    requires i < |ls| && WalkedTo(op, ls, cur, i, |ls|)
    ensures WalkedTo(op, ls, cur, i + 1, 0)
  {
    assert i + 1 < |ls| ==> ls[i + 1..|ls|] == ls[i + 1..];
  }

  lemma {:induction false} PairsWalk(op: Op, ls: seq<Expr>, cur: seq<Expr>, i: nat, j: nat)
    requires Unrelated(op, ls) && |ls| >= 2 && i <= |ls| && j <= |ls| && WalkedTo(op, ls, cur, i, j)
    requires IsRow(op, cur)
    ensures Dups1Pairs(op, cur, i, j).0 == Blanked(op, ls)
    decreases |ls| - i, |ls| - j
  {
    if i == |ls| {
      assert cur == Blanked(op, ls);
    } else if j == |ls| {
      NextSlot(op, ls, cur, i);
      PairsWalk(op, ls, cur, i + 1, 0);
    } else if i == j {
      PairsWalk(op, ls, cur, i, j + 1);
    } else {
      var cur' := Dups1Step(op, cur, i, j).0;
      StepWalks(op, ls, cur, i, j);
      PairsWalk(op, ls, cur', i, j + 1);
      assert Dups1Pairs(op, cur, i, j).0 == Dups1Pairs(op, cur', i, j + 1).0;
    }
  }

  // ----- folding the walked row -----

  function Kept(op: Op, ls: seq<Expr>): seq<Expr> {
    if ls == [] then []
    else if ls[0] == Neutral(op) then Kept(op, ls[1..])
    else [ls[0]] + Kept(op, ls[1..])
  }

  lemma {:induction false} KeptConcat(op: Op, a: seq<Expr>, b: seq<Expr>)
    ensures Kept(op, a + b) == Kept(op, a) + Kept(op, b)
  {
    if a == [] {
      assert a + b == b;
    } else {
      assert (a + b)[0] == a[0] && (a + b)[1..] == a[1..] + b;
      KeptConcat(op, a[1..], b);
      assert [a[0]] + (Kept(op, a[1..]) + Kept(op, b)) == [a[0]] + Kept(op, a[1..]) + Kept(op, b);
    }
  }

  lemma BlankedTail(op: Op, ls: seq<Expr>)
    requires ls != []
    ensures Blanked(op, ls)[1..] == Blanked(op, ls[1..])
  {
    var rest := ls[1..];
    forall k | 0 <= k < |rest| ensures Blanked(op, ls)[k + 1] == Blanked(op, rest)[k] {
      assert rest[k + 1..] == ls[k + 2..];
    }
  }

  lemma {:induction false} KeptBlanked(op: Op, ls: seq<Expr>)
    requires forall x | x in ls :: Literal(x)
    ensures Kept(op, Blanked(op, ls)) == LastOnes(ls)
  {
    if ls != [] {
      assert Literal(ls[0]);
      BlankedTail(op, ls);
      KeptBlanked(op, ls[1..]);
    }
  }

  predicate LiteralOrNeutral(op: Op, x: Expr) {
    x == Neutral(op) || Literal(x)
  }

  /** A folded tree with the operands that were kept, if there are any. */
  predicate FoldsTo(op: Op, r: Expr, kept: seq<Expr>) {
    if kept == [] then r == Neutral(op) else Leaves(op, r) == kept && (Literal(r) || IsNode(op, r))
  }

  lemma FoldOneKeeps(op: Op, l: Expr, r: Expr, a: seq<Expr>, b: seq<Expr>)
    requires FoldsTo(op, l, a) && FoldsTo(op, r, b)
    ensures FoldsTo(op, FoldOne(op, l, r), a + b)
  {
    assert l != Absorbing(op) && r != Absorbing(op);
    if a == [] {
      assert a + b == b;
    } else if b == [] {
      assert l != Neutral(op) && a + b == a;
    } else {
      assert l != Neutral(op) && r != Neutral(op);
    }
  }

  /** Folding drops the blanks and keeps the order. */
  lemma {:induction false} FoldKeeps(op: Op, t: Expr)
    requires forall x | x in Leaves(op, t) :: LiteralOrNeutral(op, x)
    ensures FoldsTo(op, EliminateYn(t), Kept(op, Leaves(op, t)))
  {
    if IsNode(op, t) {
      var a, b := Leaves(op, t.l), Leaves(op, t.r);
      forall x | x in a || x in b ensures LiteralOrNeutral(op, x) {
        assert x in Leaves(op, t);
      }
      FoldKeeps(op, t.l);
      FoldKeeps(op, t.r);
      KeptConcat(op, a, b);
      FoldOneKeeps(op, EliminateYn(t.l), EliminateYn(t.r), Kept(op, a), Kept(op, b));
    } else {
      assert Leaves(op, t) == [t] && t in Leaves(op, t);
      assert LiteralOrNeutral(op, t);
      assert Kept(op, [t]) == if t == Neutral(op) then [] else [t];
    }
  }

  // ----- the result -----

  predicate AllDifferent(ls: seq<Expr>) {
    forall i, j | 0 <= i < |ls| && 0 <= j < |ls| && i != j :: ls[i] != ls[j]
  }

  lemma {:induction false} LastOnesDistinct(ls: seq<Expr>)
    ensures forall x | x in LastOnes(ls) :: x in ls
    ensures AllDifferent(LastOnes(ls))
    ensures ls != [] ==> LastOnes(ls) != []
  {
    if ls != [] {
      LastOnesDistinct(ls[1..]);
    }
  }

  /** The complement walk has nothing to do on operands without operands. */
  lemma LeavesHaveNoComplement(op: Op, e: Expr)
    requires IsNode(op, e) && forall x | x in Leaves(op, e) :: !x.Bin?
    ensures ComplementFree(e) && Dups2(e) == (e, 0)
  {
    Dups2Idle(e);
  }

  lemma DifferentIsJoinFree(op: Op, e: Expr)
    requires IsNode(op, e) && Unrelated(op, Leaves(op, e)) && AllDifferent(Leaves(op, e))
    ensures JoinFree(e)
  {
    var ls := Leaves(op, e);
    forall i, j | 0 <= i < |ls| && 0 <= j < |ls| && i != j ensures Join(op, ls[i], ls[j]).None? {
      LiteralJoins(op, ls, ls[i], ls[j]);
    }
    forall x | x in ls ensures JoinFree(x) {
      assert Literal(x);
    }
  }

  /** A row of different, unrelated literals is left alone. */
  lemma DifferentIsFixed(op: Op, e: Expr)
    requires IsNode(op, e) && Unrelated(op, Leaves(op, e)) && AllDifferent(Leaves(op, e))
    ensures EliminateDups(e) == e
  {
    DifferentIsJoinFree(op, e);
    LeavesHaveNoComplement(op, e);
    EliminateDupsFixpoints(e);
  }

  lemma BlankedElements(op: Op, ls: seq<Expr>)
    requires Unrelated(op, ls)
    ensures forall x | x in Blanked(op, ls) :: LiteralOrNeutral(op, x)
  {
    forall x | x in Blanked(op, ls) ensures LiteralOrNeutral(op, x) {
      var k :| 0 <= k < |ls| && Blanked(op, ls)[k] == x;
      assert ls[k] in ls;
    }
  }

  /** What the joining walk makes of a row, through the tree and back. */
  lemma JoinedRow(e: Expr, row: seq<Expr>)
    requires e.Bin? && Dups1Pairs(e.op, Leaves(e.op, e), 0, 0).0 == row
    ensures Leaves(e.op, Dups1(e).0) == row
  {
    LeavesRebuild(e.op, e, row);
  }

  lemma QuietRound(e: Expr, e1: Expr, c: nat)
    requires e.Bin? && Dups1(e) == (e1, c) && Dups2(e1) == (e1, 0)
    ensures OneRound(e) == (e1, c)
  {}

  lemma LiteralsHaveNoComplement(op: Op, e: Expr)
    requires IsNode(op, e) && forall x | x in Leaves(op, e) :: LiteralOrNeutral(op, x)
    ensures Dups2(e) == (e, 0)
  {
    forall x | x in Leaves(op, e) ensures !x.Bin? {
      assert LiteralOrNeutral(op, x);
    }
    LeavesHaveNoComplement(op, e);
  }

  lemma JoiningBlanks(op: Op, e: Expr)
    requires IsNode(op, e) && Unrelated(op, Leaves(op, e))
    ensures Leaves(op, Dups1(e).0) == Blanked(op, Leaves(op, e)) && OneRound(e) == Dups1(e)
  {
    var ls := Leaves(op, e);
    assert WalkedTo(op, ls, ls, 0, 0);
    PairsWalk(op, ls, ls, 0, 0);
    JoinedRow(e, Blanked(op, ls));
    BlankedElements(op, ls);
    LiteralsHaveNoComplement(op, Dups1(e).0);
    QuietRound(e, Dups1(e).0, Dups1(e).1);
  }

  lemma BlankedFolds(op: Op, ls: seq<Expr>, e1: Expr)
    requires Unrelated(op, ls) && ls != [] && Leaves(op, e1) == Blanked(op, ls)
    ensures Leaves(op, EliminateYn(e1)) == LastOnes(ls)
    ensures Literal(EliminateYn(e1)) || IsNode(op, EliminateYn(e1))
  {
    BlankedElements(op, ls);
    FoldKeeps(op, e1);
    KeptBlanked(op, ls);
    LastOnesDistinct(ls);
  }

  lemma {:induction false} NothingBlanked(op: Op, ls: seq<Expr>)
    requires Blanked(op, ls) == ls && forall x | x in ls :: Literal(x)
    ensures LastOnes(ls) == ls
  {
    if ls != [] {
      assert Blanked(op, ls)[0] == ls[0] && Literal(ls[0]);
      BlankedTail(op, ls);
      NothingBlanked(op, ls[1..]);
    }
  }

  /** Of equal operands the last one stays, and the others keep their order. */
  lemma LastOnesStay(op: Op, e: Expr)
    requires IsNode(op, e) && Unrelated(op, Leaves(op, e))
    ensures Leaves(op, EliminateDups(e)) == LastOnes(Leaves(op, e))
  {
    var ls, e1 := Leaves(op, e), Dups1(e).0;
    JoiningBlanks(op, e);
    Dups1Counts(e);
    OneRoundProgress(e);
    if Dups1(e).1 == 0 {
      NothingBlanked(op, ls);
    } else {
      var e2 := EliminateYn(e1);
      assert EliminateDups(e) == EliminateDups(e2);
      BlankedFolds(op, ls, e1);
      if IsNode(op, e2) {
        LastOnesDistinct(ls);
        DifferentIsFixed(op, e2);
      }
    }
  }
}
