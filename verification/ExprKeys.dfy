/** What expr_eq, expr_eliminate_eq and expr_extract_eq find, exactly: order and grouping of operands do not matter. */
module ExprKeys {
  import opened Tristates
  import opened Exprs
  import opened ExprEqs
  import opened ExprEqComplete

  /** An expression without the order and the grouping of its operands. */
  datatype Key = Atom(e: Expr) | NotKey(k: Key) | RowKey(op: Op, operands: multiset<Key>)

  ghost function KeyOf(e: Expr): Key
    decreases Size(e), 1
  {
    match e
    case Not(x) => NotKey(KeyOf(x))
    case Bin(op, _, _) => RowKey(op, Operands(op, e))
    case _ => Atom(e)
  }

  /** The operands below the topmost nodes of connective `op`. */
  ghost function Operands(op: Op, t: Expr): multiset<Key>
    decreases Size(t), if IsNode(op, t) then 0 else 2
  {
    if IsNode(op, t) then Operands(op, t.l) + Operands(op, t.r) else multiset{KeyOf(t)}
  }

  predicate IsNamed(k: Key) {
    k.Atom? && k.e.Sym? && k.e.s.Const?
  }

  /** How many operands with this key are recognised as themselves; the constants y and n do not count. */
  ghost function Held(op: Op, t: Expr, k: Key): nat {
    if IsNode(op, t) then Held(op, t.l, k) + Held(op, t.r, k)
    else if SelfEq(t) && !IsYesNo(t) && KeyOf(t) == k then 1
    else 0
  }

  /** In a row with a small residue all operands are. */
  lemma {:induction false} RowOperands(op: Op, t: Expr, k: Key)
    requires Folded(t) && !IsYesNo(t) && Residue(op, t) <= 1
    ensures Operands(op, t)[k] == Held(op, t, k)
    ensures Residue(op, t) == 0 && IsNamed(k) ==> Held(op, t, k) == 0
  {
    if IsNode(op, t) {
      RowOperands(op, t.l, k);
      RowOperands(op, t.r, k);
    } else {
      SelfEqIsSmall(t);
    }
  }

  /** No operand is left that would cancel against an equal one. */
  ghost predicate NothingLive(op: Op, t: Expr) {
    forall k | !IsNamed(k) :: Held(op, t, k) == 0
  }

  lemma {:induction false} NothingLiveIsInert(op: Op, t: Expr)
    requires PartlyCancelled(op, t) && Residue(op, t) <= 1 && NothingLive(op, t)
    ensures AllInert(op, t)
  {
    if IsNode(op, t) {
      assert NothingLive(op, t.l) && NothingLive(op, t.r) by {
        forall k | !IsNamed(k) ensures Held(op, t.l, k) == 0 && Held(op, t.r, k) == 0 {
          assert Held(op, t, k) == 0;
        }
      }
      NothingLiveIsInert(op, t.l);
      NothingLiveIsInert(op, t.r);
    } else {
      SelfEqIsSmall(t);
      if !IsInert(t) {
        assert Held(op, t, KeyOf(t)) == 1;
      }
    }
  }

  /** What is left of a row that folds to a single symbol. */
  lemma {:induction false} LeftOver(op: Op, t: Expr, k: Key)
    requires PartlyCancelled(op, t) && EliminateYn(t).Sym?
    ensures Held(op, t, k) == if k == Atom(EliminateYn(t)) && !IsYesNo(EliminateYn(t)) then 1 else 0
  {
    CancelledFolds(op, t);
    if IsNode(op, t) {
      CancelledFolds(op, t.l);
      CancelledFolds(op, t.r);
      LeftOver(op, t.l, k);
      LeftOver(op, t.r, k);
    } else if t != Neutral(op) {
      FoldedIsFixed(t);
    }
  }

  /** How many operands are left: named constants never cancel. */
  function LeftOf(k: Key, mine: nat, theirs: nat): nat {
    if IsNamed(k) then mine else if mine <= theirs then 0 else mine - theirs
  }

  /** Cancelling takes the operands of either side out of the other, one for one, and leaves the rest alone. */
  ghost predicate Cancels(op: Op, e1: Expr, e2: Expr, r1: Expr, r2: Expr, k: Key) {
    && PartlyCancelled(op, r1) && PartlyCancelled(op, r2)
    && Held(op, r1, k) == LeftOf(k, Held(op, e1, k), Held(op, e2, k))
    && Held(op, r2, k) == LeftOf(k, Held(op, e2, k), Held(op, e1, k))
    && Residue(op, r1) == Residue(op, e1) && Residue(op, r2) == Residue(op, e2)
  }

  lemma LeftOfTwice(k: Key, l: nat, r: nat, m: nat)
    ensures LeftOf(k, l, m) + LeftOf(k, r, LeftOf(k, m, l)) == LeftOf(k, l + r, m)
    ensures LeftOf(k, LeftOf(k, m, l), r) == LeftOf(k, m, l + r)
  {}

  lemma RowParts(op: Op, t: Expr, k: Key)
    requires IsNode(op, t)
    ensures Held(op, t, k) == Held(op, t.l, k) + Held(op, t.r, k)
    ensures Residue(op, t) == Residue(op, t.l) + Residue(op, t.r)
  {}

  /** One side in two parts. */
  lemma CancelsTwice(op: Op, e1: Expr, e2: Expr, l: Expr, m: Expr, r: Expr, m': Expr, k: Key)
    requires IsNode(op, e1) && Cancels(op, e1.l, e2, l, m, k) && Cancels(op, e1.r, m, r, m', k)
    ensures Cancels(op, e1, e2, Bin(op, l, r), m', k)
  {
    RowParts(op, e1, k);
    RowParts(op, Bin(op, l, r), k);
    LeftOfTwice(k, Held(op, e1.l, k), Held(op, e1.r, k), Held(op, e2, k));
  }

  lemma {:induction false} CancelPairsOperands(op: Op, e1: Expr, e2: Expr, k: Key)
    requires PartlyCancelled(op, e1) && PartlyCancelled(op, e2)
    ensures var r := CancelPairs(op, e1, e2); Cancels(op, e1, e2, r.0, r.1, k)
    decreases Size(e1) + Size(e2), if IsNode(op, e1) || IsNode(op, e2) then 0 else 3
  {
    if IsNode(op, e1) {
      var (l, m) := CancelPairs(op, e1.l, e2);
      var (r, m') := CancelPairs(op, e1.r, m);
      CancelPairsOperands(op, e1.l, e2, k);
      CancelPairsOperands(op, e1.r, m, k);
      CancelsTwice(op, e1, e2, l, m, r, m', k);
    } else if IsNode(op, e2) {
      var (m, l) := CancelPairs(op, e1, e2.l);
      var (m', r) := CancelPairs(op, m, e2.r);
      CancelPairsOperands(op, e1, e2.l, k);
      CancelPairsOperands(op, m, e2.r, k);
      CancelsTwice(op, e2, e1, l, m, r, m', k);
    } else {
      if e1 != Neutral(op) && e2 != Neutral(op) {
        KeysDecide(e1, e2);
      }
      CancelOperand(op, e1, e2, k);
    }
  }

  /** Two equal operands are both taken out, unless they are one and the same named constant. */
  lemma EqualOperands(op: Op, e1: Expr, e2: Expr, k: Key)
    requires !IsNode(op, e1) && !IsNode(op, e2) && Folded(e1) && Folded(e2) && !IsYesNo(e1) && !IsYesNo(e2)
    requires ExprEq(e1, e2) && SelfEq(e1) && SelfEq(e2) && KeyOf(e1) == KeyOf(e2)
    ensures var r := CancelPairs(op, e1, e2); Cancels(op, e1, e2, r.0, r.1, k)
  {
    SelfEqIsSmall(e1);
    SelfEqIsSmall(e2);
    assert IsNamed(KeyOf(e1)) <==> IsInert(e1);
  }

  lemma CancelOperand(op: Op, e1: Expr, e2: Expr, k: Key)
    requires !IsNode(op, e1) && !IsNode(op, e2) && PartlyCancelled(op, e1) && PartlyCancelled(op, e2)
    requires e1 != Neutral(op) && e2 != Neutral(op) ==>
               (ExprEq(e1, e2) <==> SelfEq(e1) && SelfEq(e2) && KeyOf(e1) == KeyOf(e2))
    ensures var r := CancelPairs(op, e1, e2); Cancels(op, e1, e2, r.0, r.1, k)
  {
    SelfEqIsSmall(e1);
    SelfEqIsSmall(e2);
    if e1 == Neutral(op) || e2 == Neutral(op) {
      InertNeverCancels(op, e1, e2);
    } else if ExprEq(e1, e2) {
      EqualOperands(op, e1, e2, k);
    }
  }

  /**
   * Exactly which folded expressions expr_eq recognises as equal: those that differ at most in the order and the
   * grouping of operands, as long as each is recognised as itself.
   */
  lemma {:induction false} KeysDecide(e1: Expr, e2: Expr)
    requires Folded(e1) && Folded(e2)
    ensures ExprEq(e1, e2) <==> SelfEq(e1) && SelfEq(e2) && KeyOf(e1) == KeyOf(e2)
    decreases Size(e1) + Size(e2), 2
  {
    match (e1, e2)
    case (Not(x1), Not(x2)) => KeysDecide(x1, x2);
    case (Bin(op, _, _), Bin(op2, _, _)) =>
      if op == op2 {
        FoldedRow(op, e1);
        FoldedRow(op, e2);
        var (r1, r2) := CancelPairs(op, e1, e2);
        forall k ensures Cancels(op, e1, e2, r1, r2, k) {
          CancelPairsOperands(op, e1, e2, k);
        }
        assert CancelRoots(e1, e2) == (r1, r2);
        RowsDecide(op, e1, e2, r1, r2);
      }
    case _ =>
  }

  lemma RowsDecide(op: Op, e1: Expr, e2: Expr, r1: Expr, r2: Expr)
    requires IsNode(op, e1) && IsNode(op, e2) && Folded(e1) && Folded(e2)
    requires forall k :: Cancels(op, e1, e2, r1, r2, k)
    ensures var s1, s2 := EliminateYn(r1), EliminateYn(r2);
      s1.Sym? && s1 == s2 <==> SelfEq(e1) && SelfEq(e2) && KeyOf(e1) == KeyOf(e2)
  {
    var s1, s2 := EliminateYn(r1), EliminateYn(r2);
    if s1.Sym? && s1 == s2 {
      RowsMatch(op, e1, e2, r1, r2);
    }
    if SelfEq(e1) && SelfEq(e2) && KeyOf(e1) == KeyOf(e2) {
      RowsCancel(op, e1, e2, r1, r2);
    }
  }

  lemma RowsMatch(op: Op, e1: Expr, e2: Expr, r1: Expr, r2: Expr)
    requires IsNode(op, e1) && IsNode(op, e2) && Folded(e1) && Folded(e2)
    requires forall k :: Cancels(op, e1, e2, r1, r2, k)
    requires EliminateYn(r1).Sym? && EliminateYn(r1) == EliminateYn(r2)
    ensures SelfEq(e1) && SelfEq(e2) && KeyOf(e1) == KeyOf(e2)
  {
    assert Cancels(op, e1, e2, r1, r2, Atom(e1));
    CancelledFolds(op, r1);
    CancelledFolds(op, r2);
    forall k ensures Operands(op, e1)[k] == Operands(op, e2)[k] {
      assert Cancels(op, e1, e2, r1, r2, k);
      SameCount(op, e1, e2, r1, r2, k);
    }
    assert Operands(op, e1) == Operands(op, e2);
  }

  lemma SameCount(op: Op, e1: Expr, e2: Expr, r1: Expr, r2: Expr, k: Key)
    requires Folded(e1) && Folded(e2) && !IsYesNo(e1) && !IsYesNo(e2) && Cancels(op, e1, e2, r1, r2, k)
    requires Residue(op, e1) <= 1 && Residue(op, e2) <= 1
    requires EliminateYn(r1).Sym? && EliminateYn(r1) == EliminateYn(r2)
    ensures Operands(op, e1)[k] == Operands(op, e2)[k]
  {
    LeftOver(op, r1, k);
    LeftOver(op, r2, k);
    RowOperands(op, e1, k);
    RowOperands(op, e2, k);
  }

  lemma RowsCancel(op: Op, e1: Expr, e2: Expr, r1: Expr, r2: Expr)
    requires IsNode(op, e1) && IsNode(op, e2) && Folded(e1) && Folded(e2)
    requires forall k :: Cancels(op, e1, e2, r1, r2, k)
    requires SelfEq(e1) && SelfEq(e2) && KeyOf(e1) == KeyOf(e2)
    ensures EliminateYn(r1).Sym? && EliminateYn(r1) == EliminateYn(r2)
  {
    assert Operands(op, e1) == Operands(op, e2);
    forall k ensures Held(op, e1, k) == Held(op, e2, k) {
      RowOperands(op, e1, k);
      RowOperands(op, e2, k);
    }
    assert Cancels(op, e1, e2, r1, r2, Atom(e1));
    SameLeftOver(op, r1, r2) by {
      forall k ensures Held(op, r1, k) == Held(op, r2, k) && (!IsNamed(k) ==> Held(op, r1, k) == 0) {
        assert Cancels(op, e1, e2, r1, r2, k);
      }
    }
  }

  lemma SameLeftOver(op: Op, r1: Expr, r2: Expr)
    requires PartlyCancelled(op, r1) && PartlyCancelled(op, r2) && Residue(op, r1) <= 1 && Residue(op, r2) <= 1
    requires forall k :: Held(op, r1, k) == Held(op, r2, k) && (!IsNamed(k) ==> Held(op, r1, k) == 0)
    ensures EliminateYn(r1).Sym? && EliminateYn(r1) == EliminateYn(r2)
  {
    NothingLiveIsInert(op, r1);
    NothingLiveIsInert(op, r2);
    InertFolds(op, r1);
    InertFolds(op, r2);
    CancelledFolds(op, r1);
    CancelledFolds(op, r2);
    var s1, s2 := EliminateYn(r1), EliminateYn(r2);
    LeftOver(op, r1, Atom(s1));
    LeftOver(op, r2, Atom(s1));
    LeftOver(op, r1, Atom(s2));
    LeftOver(op, r2, Atom(s2));
  }

  /** expr_eq is an equivalence on the folded expressions it recognises as themselves. */
  lemma ExprEqEquivalence(e1: Expr, e2: Expr, e3: Expr)
    requires Folded(e1) && Folded(e2) && Folded(e3)
    ensures ExprEq(e1, e2) ==> ExprEq(e2, e1)
    ensures ExprEq(e1, e2) && ExprEq(e2, e3) ==> ExprEq(e1, e3)
  {
    KeysDecide(e1, e2);
    KeysDecide(e2, e1);
    KeysDecide(e2, e3);
    KeysDecide(e1, e3);
  }

  /** Without named constants the operands alone decide. */
  lemma SameOperandsEqual(op: Op, e1: Expr, e2: Expr)
    requires IsNode(op, e1) && IsNode(op, e2) && Folded(e1) && Folded(e2) && NoNamedConst(e1) && NoNamedConst(e2)
    ensures ExprEq(e1, e2) <==> Operands(op, e1) == Operands(op, e2)
  {
    NoNamedConstNoExcess(e1);
    NoNamedConstNoExcess(e2);
    SelfEqIsSmall(e1);
    SelfEqIsSmall(e2);
    KeysDecide(e1, e2);
  }

  predicate PlainOperand(x: Expr) {
    Folded(x) && !IsYesNo(x) && NoNamedConst(x)
  }

  /** Equal expressions contribute the same operands to a row. */
  lemma SameShare(op: Op, x: Expr, y: Expr)
    requires Folded(x) && Folded(y) && ExprEq(x, y)
    ensures Operands(op, x) == Operands(op, y)
  {
    KeysDecide(x, y);
  }

  /** AND and OR are commutative and associative for expr_eq, at any depth. */
  lemma OperandOrderDoesNotMatter(op: Op, a: Expr, b: Expr, c: Expr, a': Expr, b': Expr, c': Expr)
    requires PlainOperand(a) && PlainOperand(b) && PlainOperand(c)
    requires PlainOperand(a') && PlainOperand(b') && PlainOperand(c')
    requires ExprEq(a, a') && ExprEq(b, b') && ExprEq(c, c')
    ensures ExprEq(Bin(op, Bin(op, a, b), c), Bin(op, c', Bin(op, b', a')))
  {
    SameShare(op, a, a');
    SameShare(op, b, b');
    SameShare(op, c, c');
    var e1, e2 := Bin(op, Bin(op, a, b), c), Bin(op, c', Bin(op, b', a'));
    assert Operands(op, e1) == Operands(op, a) + Operands(op, b) + Operands(op, c);
    assert Operands(op, e2) == Operands(op, c') + (Operands(op, b') + Operands(op, a'));
    SameOperandsEqual(op, e1, e2);
  }

  // ----- expr_eliminate_eq as an implication test -----

  /** Nothing cancels against y, n or a named constant. */
  lemma {:induction false} InertRightStays(op: Op, e: Expr, x: Expr)
    requires !IsNode(op, x) && IsInert(x)
    ensures CancelPairs(op, e, x) == (e, x)
  {
    if IsNode(op, e) {
      InertRightStays(op, e.l, x);
      InertRightStays(op, e.r, x);
    }
  }

  /** An operand that cancels against an equal one: it is recognised and is no constant. */
  predicate IsLive(x: Expr) {
    SelfEq(x) && !IsInert(x)
  }

  predicate AllLive(op: Op, t: Expr) {
    if IsNode(op, t) then AllLive(op, t.l) && AllLive(op, t.r) else IsLive(t)
  }

  lemma {:induction false} AllLiveNoResidue(op: Op, t: Expr)
    requires Folded(t) && !IsYesNo(t)
    ensures AllLive(op, t) <==> Residue(op, t) == 0
  {
    if IsNode(op, t) {
      AllLiveNoResidue(op, t.l);
      AllLiveNoResidue(op, t.r);
    } else {
      SelfEqIsSmall(t);
    }
  }

  /** The operands of `e2` are among those of `e1`, each as often. */
  ghost predicate Covers(op: Op, e1: Expr, e2: Expr) {
    forall k :: Operands(op, e2)[k] <= Held(op, e1, k)
  }

  /** One walk leaves nothing of the right side exactly when all its operands occur on the left. */
  lemma WalkEmptiesIff(op: Op, e1: Expr, e2: Expr)
    requires Folded(e1) && Folded(e2) && !IsYesNo(e1) && !IsYesNo(e2)
    ensures EliminateYn(CancelPairs(op, e1, e2).1) == Neutral(op) <==> AllLive(op, e2) && Covers(op, e1, e2)
  {
    var (r1, r2) := CancelPairs(op, e1, e2);
    FoldedRow(op, e1);
    FoldedRow(op, e2);
    forall k ensures Cancels(op, e1, e2, r1, r2, k) {
      CancelPairsOperands(op, e1, e2, k);
    }
    assert Cancels(op, e1, e2, r1, r2, Atom(e1));
    AllLiveNoResidue(op, e2);
    if EliminateYn(r2) == Neutral(op) {
      EmptiedIsCovered(op, e1, e2, r1, r2);
    }
    if AllLive(op, e2) && Covers(op, e1, e2) {
      CoveredIsEmptied(op, e1, e2, r1, r2);
    }
  }

  lemma EmptiedIsCovered(op: Op, e1: Expr, e2: Expr, r1: Expr, r2: Expr)
    requires Folded(e2) && !IsYesNo(e2) && forall k :: Cancels(op, e1, e2, r1, r2, k)
    requires PartlyCancelled(op, r2) && Residue(op, r2) == Residue(op, e2) && EliminateYn(r2) == Neutral(op)
    ensures Residue(op, e2) == 0 && Covers(op, e1, e2)
  {
    CancelledFolds(op, r2);
    forall k ensures Operands(op, e2)[k] <= Held(op, e1, k) {
      assert Cancels(op, e1, e2, r1, r2, k);
      LeftOver(op, r2, k);
      RowOperands(op, e2, k);
    }
  }

  lemma CoveredIsEmptied(op: Op, e1: Expr, e2: Expr, r1: Expr, r2: Expr)
    requires Folded(e2) && !IsYesNo(e2) && forall k :: Cancels(op, e1, e2, r1, r2, k)
    requires PartlyCancelled(op, r2) && Residue(op, r2) == Residue(op, e2) == 0 && Covers(op, e1, e2)
    ensures EliminateYn(r2) == Neutral(op)
  {
    forall k ensures Held(op, r2, k) == 0 {
      assert Cancels(op, e1, e2, r1, r2, k);
      RowOperands(op, e2, k);
    }
    StuckIsResidue(op, r2);
    NothingHeld(op, r2);
  }

  lemma YesNoRight(e1: Expr, e2: Expr)
    requires IsYesNo(e2)
    ensures EliminateEq(e1, e2).1 == e2
  {
    if e1.Bin? {
      InertRightStays(e1.op, e1, e2);
    }
  }

  lemma YesNoLeft(e1: Expr, e2: Expr)
    requires IsYesNo(e1) && Folded(e2)
    ensures EliminateEq(e1, e2).1 == e2
  {
    if e2.Bin? {
      InertNeverCancels(e2.op, e1, e2);
    }
    FoldedIsFixed(e2);
  }

  /** A walk never leaves the absorbing constant. */
  lemma WalkDoesNotAbsorb(op: Op, e1: Expr, e2: Expr)
    requires Folded(e1) && Folded(e2) && !IsYesNo(e1) && !IsYesNo(e2)
    ensures EliminateYn(CancelPairs(op, e1, e2).1) != Absorbing(op)
  {
    FoldedRow(op, e1);
    FoldedRow(op, e2);
    CancelPairsOperands(op, e1, e2, Atom(e1));
    CancelledFolds(op, CancelPairs(op, e1, e2).1);
  }

  lemma AndLeft(e1: Expr, e2: Expr)
    requires Folded(e1) && Folded(e2) && !IsYesNo(e1) && !IsYesNo(e2) && IsNode(AndOp, e1)
    ensures EliminateEq(e1, e2).1 == Sym(YesSym) <==> AllLive(AndOp, e2) && Covers(AndOp, e1, e2)
  {
    var a2 := CancelPairs(AndOp, e1, e2).1;
    WalkEmptiesIff(AndOp, e1, e2);
    if IsNode(OrOp, a2) {
      LoneLeafWalkIsIdentity(AndOp, e1, e2);
      FoldedIsFixed(e2);
      WalkDoesNotAbsorb(OrOp, e1, e2);
    }
  }

  lemma {:induction false} SomeOperand(op: Op, t: Expr) returns (k: Key)
    ensures k in Operands(op, t)
  {
    if IsNode(op, t) {
      k := SomeOperand(op, t.l);
    } else {
      k := KeyOf(t);
    }
  }

  /** A single operand does not cover a row. */
  lemma OneCoversNoRow(op: Op, e1: Expr, e2: Expr)
    requires !IsNode(op, e1) && IsNode(op, e2)
    ensures !Covers(op, e1, e2)
  {
    var k1 := SomeOperand(op, e2.l);
    var k2 := SomeOperand(op, e2.r);
    var k := if k1 != KeyOf(e1) then k1 else k2;
    assert Operands(op, e2)[k] > Held(op, e1, k);
  }

  lemma NoAndLeft(e1: Expr, e2: Expr)
    requires Folded(e1) && Folded(e2) && !IsYesNo(e1) && !IsYesNo(e2) && !IsNode(AndOp, e1)
    ensures EliminateEq(e1, e2).1 != Sym(YesSym)
  {
    if e1.Bin? {
      WalkDoesNotAbsorb(OrOp, e1, e2);
    }
    var (a1, a2) := if e1.Bin? then CancelPairs(e1.op, e1, e2) else (e1, e2);
    if a2.Bin? && !(a1.Bin? && a1.op == a2.op) {
      if e1.Bin? {
        LoneLeafWalkIsIdentity(e1.op, e1, e2);
      }
      WalkDoesNotAbsorb(OrOp, e1, e2);
      WalkEmptiesIff(AndOp, e1, e2);
      if IsNode(AndOp, e2) {
        OneCoversNoRow(AndOp, e1, e2);
      }
    }
  }

  /**
   * Exactly when expr_eliminate_eq leaves y of the right side: every AND operand of it occurs among at least two AND
   * operands on the left, or it was y from the start.
   */
  lemma EliminateEqIff(e1: Expr, e2: Expr)
    requires Folded(e1) && Folded(e2)
    ensures EliminateEq(e1, e2).1 == Sym(YesSym) <==>
            e2 == Sym(YesSym) || (IsNode(AndOp, e1) && AllLive(AndOp, e2) && Covers(AndOp, e1, e2))
  {
    if IsYesNo(e2) {
      YesNoRight(e1, e2);
    } else if IsYesNo(e1) {
      YesNoLeft(e1, e2);
    } else if IsNode(AndOp, e1) {
      AndLeft(e1, e2);
    } else {
      NoAndLeft(e1, e2);
    }
  }

  // ----- what expr_eliminate_eq leaves of both sides -----

  lemma {:induction false} FoldKeepsHeld(op: Op, t: Expr, k: Key)
    requires PartlyCancelled(op, t)
    ensures Held(op, EliminateYn(t), k) == Held(op, t, k)
  {
    if IsNode(op, t) {
      var l, r := EliminateYn(t.l), EliminateYn(t.r);
      FoldKeepsHeld(op, t.l, k);
      FoldKeepsHeld(op, t.r, k);
      CancelledFolds(op, t.l);
      CancelledFolds(op, t.r);
      RowParts(op, t, k);
      if l != Neutral(op) && r != Neutral(op) {
        RowParts(op, Bin(op, l, r), k);
      }
    } else if t != Neutral(op) {
      FoldedIsFixed(t);
    }
  }

  /** Both sides are rows of `op` or single operands; not both single. */
  predicate RowsOf(op: Op, e1: Expr, e2: Expr) {
    (e1.Bin? ==> e1.op == op) && (e2.Bin? ==> e2.op == op) && (e1.Bin? || e2.Bin?)
  }

  /** What one walk and the folding after it leave. */
  lemma WalkLeaves(op: Op, e1: Expr, e2: Expr)
    requires Folded(e1) && Folded(e2) && !IsYesNo(e1) && !IsYesNo(e2)
    ensures var (a1, a2) := CancelPairs(op, e1, e2);
      forall k ::
        && Held(op, EliminateYn(a1), k) == LeftOf(k, Held(op, e1, k), Held(op, e2, k))
        && Held(op, EliminateYn(a2), k) == LeftOf(k, Held(op, e2, k), Held(op, e1, k))
  {
    var (a1, a2) := CancelPairs(op, e1, e2);
    FoldedRow(op, e1);
    FoldedRow(op, e2);
    forall k ensures Held(op, EliminateYn(a1), k) == LeftOf(k, Held(op, e1, k), Held(op, e2, k)) &&
                     Held(op, EliminateYn(a2), k) == LeftOf(k, Held(op, e2, k), Held(op, e1, k))
    {
      CancelPairsOperands(op, e1, e2, k);
      FoldKeepsHeld(op, a1, k);
      FoldKeepsHeld(op, a2, k);
    }
  }

  /** Each side keeps its operands as often as they exceed the other side, and its named constants. */
  lemma EliminateEqOperands(op: Op, e1: Expr, e2: Expr, k: Key)
    requires Folded(e1) && Folded(e2) && !IsYesNo(e1) && !IsYesNo(e2) && RowsOf(op, e1, e2)
    ensures var (r1, r2) := EliminateEq(e1, e2);
      && Held(op, r1, k) == LeftOf(k, Held(op, e1, k), Held(op, e2, k))
      && Held(op, r2, k) == LeftOf(k, Held(op, e2, k), Held(op, e1, k))
  {
    WalkLeaves(op, e1, e2);
    assert CancelRoots(e1, e2) == CancelPairs(op, e1, e2);
  }

  lemma {:induction false} OperandCancels(op: Op, t: Expr, x: Expr)
    requires PartlyCancelled(op, t) && !IsNode(op, x) && Folded(x) && !IsYesNo(x)
    ensures CancelPairs(op, t, x).1 == if IsLive(x) && Held(op, t, KeyOf(x)) > 0 then Neutral(op) else x
    ensures CancelPairs(op, t, x).1 == x ==> CancelPairs(op, t, x).0 == t
  {
    if IsNode(op, t) {
      RowParts(op, t, KeyOf(x));
      OperandCancels(op, t.l, x);
      if CancelPairs(op, t.l, x).1 == x {
        OperandCancels(op, t.r, x);
      } else {
        InertRightStays(op, t.r, Neutral(op));
      }
    } else if t != Neutral(op) {
      KeysDecide(t, x);
    }
  }

  lemma {:induction false} OperandCancelsLeft(op: Op, x: Expr, t: Expr)
    requires PartlyCancelled(op, t) && !IsNode(op, x) && Folded(x) && !IsYesNo(x)
    ensures CancelPairs(op, x, t).0 == if IsLive(x) && Held(op, t, KeyOf(x)) > 0 then Neutral(op) else x
    ensures CancelPairs(op, x, t).0 == x ==> CancelPairs(op, x, t).1 == t
  {
    if IsNode(op, t) {
      RowParts(op, t, KeyOf(x));
      OperandCancelsLeft(op, x, t.l);
      if CancelPairs(op, x, t.l).0 == x {
        OperandCancelsLeft(op, x, t.r);
      } else {
        InertNeverCancels(op, Neutral(op), t.r);
      }
    } else if t != Neutral(op) {
      KeysDecide(x, t);
    }
  }

  /** A row of one connective against a row of the other: each counts as one operand of the other. */
  lemma EliminateEqDifferent(e1: Expr, e2: Expr)
    requires e1.Bin? && e2.Bin? && e1.op != e2.op && Folded(e1) && Folded(e2)
    ensures var (r1, r2) := EliminateEq(e1, e2);
      if IsLive(e2) && Held(e1.op, e1, KeyOf(e2)) > 0 then
        r2 == Neutral(e1.op) && forall k :: Held(e1.op, r1, k) == LeftOf(k, Held(e1.op, e1, k), Held(e1.op, e2, k))
      else if IsLive(e1) && Held(e2.op, e2, KeyOf(e1)) > 0 then
        r1 == Neutral(e2.op) && forall k :: Held(e2.op, r2, k) == LeftOf(k, Held(e2.op, e2, k), Held(e2.op, e1, k))
      else (r1, r2) == (e1, e2)
  {
    FoldedRow(e1.op, e1);
    FoldedRow(e2.op, e2);
    FoldedIsFixed(e1);
    FoldedIsFixed(e2);
    OperandCancels(e1.op, e1, e2);
    if CancelPairs(e1.op, e1, e2).1 == e2 {
      OperandCancelsLeft(e2.op, e1, e2);
      WalkLeaves(e2.op, e1, e2);
    } else {
      WalkLeaves(e1.op, e1, e2);
    }
  }

  // ----- expr_extract_eq -----

  /** How many operands are not recognised as themselves. */
  function Stuck(op: Op, t: Expr): nat {
    if IsNode(op, t) then Stuck(op, t.l) + Stuck(op, t.r) else if SelfEq(t) then 0 else 1
  }

  lemma {:induction false} StuckIsResidue(op: Op, t: Expr)
    requires Residue(op, t) == 0
    ensures Stuck(op, t) == 0
  {
    if IsNode(op, t) {
      StuckIsResidue(op, t.l);
      StuckIsResidue(op, t.r);
    } else {
      SelfEqIsSmall(t);
    }
  }

  lemma {:induction false} NoneStuck(op: Op, t: Expr, k: Key)
    requires Folded(t) && !IsYesNo(t) && Stuck(op, t) == 0
    ensures Operands(op, t)[k] == Held(op, t, k)
  {
    if IsNode(op, t) {
      NoneStuck(op, t.l, k);
      NoneStuck(op, t.r, k);
    }
  }

  function Rest(mine: nat, theirs: nat): nat {
    if mine <= theirs then 0 else mine - theirs
  }

  /** How often an operand is left on both sides. */
  predicate Differ(h1: nat, h2: nat, r1: nat, r2: nat) {
    r1 == Rest(h1, h2) && r2 == Rest(h2, h1)
  }

  lemma DifferTwice(l: nat, r: nat, m: nat, l': nat, m': nat, r': nat, m'': nat)
    requires Differ(l, m, l', m') && Differ(r, m', r', m'')
    ensures Differ(l + r, m, l' + r', m'')
  {}

  /** A row that lost operands but none that is not recognised. */
  predicate Thinned(op: Op, e: Expr, r: Expr) {
    PartlyCancelled(op, r) && Stuck(op, r) == Stuck(op, e)
  }

  lemma ThinnedParts(op: Op, e: Expr, l: Expr, r: Expr)
    requires IsNode(op, e) && Thinned(op, e.l, l) && Thinned(op, e.r, r)
    ensures Thinned(op, e, Bin(op, l, r))
  {}

  /** Each side loses the operands of the other, one for one; named constants are no exception here. */
  ghost predicate Extracts(op: Op, e1: Expr, e2: Expr, r1: Expr, r2: Expr, k: Key) {
    && Thinned(op, e1, r1) && Thinned(op, e2, r2)
    && Differ(Held(op, e1, k), Held(op, e2, k), Held(op, r1, k), Held(op, r2, k))
  }

  lemma ExtractsTwice(op: Op, e1: Expr, e2: Expr, l: Expr, m: Expr, r: Expr, m': Expr, k: Key)
    requires IsNode(op, e1) && Extracts(op, e1.l, e2, l, m, k) && Extracts(op, e1.r, m, r, m', k)
    ensures Extracts(op, e1, e2, Bin(op, l, r), m', k)
  {
    var t := Bin(op, l, r);
    RowParts(op, e1, k);
    RowParts(op, t, k);
    ThinnedParts(op, e1, l, r);
    DifferTwice(Held(op, e1.l, k), Held(op, e1.r, k), Held(op, e2, k), Held(op, l, k), Held(op, m, k),
                Held(op, r, k), Held(op, m', k));
  }

  lemma ExtractLeft(op: Op, acc: Option<Expr>, e1: Expr, e2: Expr)
      returns (acc1: Option<Expr>, l: Expr, m: Expr, r: Expr, m': Expr)
    requires IsNode(op, e1)
    ensures ExtractPairs(op, acc, e1.l, e2) == (acc1, l, m)
    ensures var res := ExtractPairs(op, acc1, e1.r, m); res.1 == r && res.2 == m'
    ensures var res := ExtractPairs(op, acc, e1, e2); res.1 == Bin(op, l, r) && res.2 == m'
  {
    var (a, x, y) := ExtractPairs(op, acc, e1.l, e2);
    acc1, l, m := a, x, y;
    var res := ExtractPairs(op, acc1, e1.r, m);
    r, m' := res.1, res.2;
  }

  lemma ExtractRight(op: Op, acc: Option<Expr>, e1: Expr, e2: Expr)
      returns (acc1: Option<Expr>, l: Expr, m: Expr, r: Expr, m': Expr)
    requires !IsNode(op, e1) && IsNode(op, e2)
    ensures ExtractPairs(op, acc, e1, e2.l) == (acc1, m, l)
    ensures var res := ExtractPairs(op, acc1, m, e2.r); res.1 == m' && res.2 == r
    ensures var res := ExtractPairs(op, acc, e1, e2); res.1 == m' && res.2 == Bin(op, l, r)
  {
    var (a, y, x) := ExtractPairs(op, acc, e1, e2.l);
    acc1, l, m := a, x, y;
    var res := ExtractPairs(op, acc1, m, e2.r);
    m', r := res.1, res.2;
  }

  /** What expr_extract_eq leaves: on each side every operand as often as it exceeds the other side. */
  lemma {:induction false} ExtractPairsOperands(op: Op, acc: Option<Expr>, e1: Expr, e2: Expr, k: Key)
    requires PartlyCancelled(op, e1) && PartlyCancelled(op, e2)
    ensures var r := ExtractPairs(op, acc, e1, e2); Extracts(op, e1, e2, r.1, r.2, k)
    decreases Size(e1) + Size(e2)
  {
    if IsNode(op, e1) {
      var acc1, l, m, r, m' := ExtractLeft(op, acc, e1, e2);
      ExtractPairsOperands(op, acc, e1.l, e2, k);
      ExtractPairsOperands(op, acc1, e1.r, m, k);
      ExtractsTwice(op, e1, e2, l, m, r, m', k);
    } else if IsNode(op, e2) {
      var acc1, l, m, r, m' := ExtractRight(op, acc, e1, e2);
      ExtractPairsOperands(op, acc, e1, e2.l, k);
      ExtractPairsOperands(op, acc1, m, e2.r, k);
      ExtractsTwice(op, e2, e1, l, m, r, m', k);
    } else if e1 == Neutral(op) || e2 == Neutral(op) {
      NeutralExtracts(op, acc, e1, e2, k);
    } else {
      KeysDecide(e1, e2);
      OperandsExtract(op, acc, e1, e2, k);
    }
  }

  lemma NeutralExtracts(op: Op, acc: Option<Expr>, e1: Expr, e2: Expr, k: Key)
    requires !IsNode(op, e1) && !IsNode(op, e2) && PartlyCancelled(op, e1) && PartlyCancelled(op, e2)
    requires e1 == Neutral(op) || e2 == Neutral(op)
    ensures var r := ExtractPairs(op, acc, e1, e2); Extracts(op, e1, e2, r.1, r.2, k)
  {
    var r := ExtractPairs(op, acc, e1, e2);
    assert ExprEq(e1, e2) <==> e1 == e2;
    assert r.1 == e1 && r.2 == e2;
  }

  lemma OperandsExtract(op: Op, acc: Option<Expr>, e1: Expr, e2: Expr, k: Key)
    requires !IsNode(op, e1) && !IsNode(op, e2) && Folded(e1) && Folded(e2) && !IsYesNo(e1) && !IsYesNo(e2)
    requires ExprEq(e1, e2) <==> SelfEq(e1) && SelfEq(e2) && KeyOf(e1) == KeyOf(e2)
    ensures var r := ExtractPairs(op, acc, e1, e2); Extracts(op, e1, e2, r.1, r.2, k)
  {
    var r := ExtractPairs(op, acc, e1, e2);
    if ExprEq(e1, e2) {
      assert r.1 == r.2 == Neutral(op);
    } else {
      assert r.1 == e1 && r.2 == e2;
    }
  }

  ghost function FactorHeld(op: Op, f: Option<Expr>, k: Key): nat {
    if f.None? then 0 else Held(op, f.value, k)
  }

  /** What the left side loses is what the factor gains. */
  lemma {:induction false} FactorGains(op: Op, acc: Option<Expr>, e1: Expr, e2: Expr, k: Key)
    ensures var r := ExtractPairs(op, acc, e1, e2);
      FactorHeld(op, r.0, k) + Held(op, r.1, k) == FactorHeld(op, acc, k) + Held(op, e1, k)
    decreases Size(e1) + Size(e2)
  {
    if IsNode(op, e1) {
      var (acc1, l, m) := ExtractPairs(op, acc, e1.l, e2);
      FactorGains(op, acc, e1.l, e2, k);
      FactorGains(op, acc1, e1.r, m, k);
      RowParts(op, e1, k);
      RowParts(op, ExtractPairs(op, acc, e1, e2).1, k);
    } else if IsNode(op, e2) {
      var (acc1, m, _) := ExtractPairs(op, acc, e1, e2.l);
      FactorGains(op, acc, e1, e2.l, k);
      FactorGains(op, acc1, m, e2.r, k);
    } else {
      FactorGainsOperand(op, acc, e1, e2, k);
    }
  }

  lemma FactorGainsOperand(op: Op, acc: Option<Expr>, e1: Expr, e2: Expr, k: Key)
    requires !IsNode(op, e1) && !IsNode(op, e2)
    ensures var r := ExtractPairs(op, acc, e1, e2);
      FactorHeld(op, r.0, k) + Held(op, r.1, k) == FactorHeld(op, acc, k) + Held(op, e1, k)
  {
    if ExprEq(e1, e2) && acc.Some? {
      RowParts(op, Bin(op, acc.value, e1), k);
    }
  }

  lemma {:induction false} NothingHeld(op: Op, t: Expr)
    requires PartlyCancelled(op, t) && Stuck(op, t) == 0 && forall k :: Held(op, t, k) == 0
    ensures EliminateYn(t) == Neutral(op)
  {
    if IsNode(op, t) {
      forall k ensures Held(op, t.l, k) == 0 && Held(op, t.r, k) == 0 {
        assert Held(op, t, k) == 0;
      }
      NothingHeld(op, t.l);
      NothingHeld(op, t.r);
    } else {
      assert Held(op, t, KeyOf(t)) == 0;
    }
  }

  /** Extraction leaves nothing of the left side exactly when all its operands occur on the right. */
  lemma ExtractEmptiesIff(op: Op, e1: Expr, e2: Expr)
    requires Folded(e1) && Folded(e2) && !IsYesNo(e1) && !IsYesNo(e2)
    ensures ExtractEq(op, e1, e2).1 == Neutral(op) <==> Stuck(op, e1) == 0 && Covers(op, e2, e1)
  {
    var (_, r1, r2) := ExtractPairs(op, None, e1, e2);
    FoldedRow(op, e1);
    FoldedRow(op, e2);
    forall k ensures Extracts(op, e1, e2, r1, r2, k) {
      ExtractPairsOperands(op, None, e1, e2, k);
    }
    FoldedIsFixed(e1);
    assert ExtractEq(op, e1, e2).1 == EliminateYn(r1);
    LeftEmptiesIff(op, e1, e2, r1, r2);
  }

  lemma LeftEmptiesIff(op: Op, e1: Expr, e2: Expr, r1: Expr, r2: Expr)
    requires Folded(e1) && !IsYesNo(e1) && forall k :: Extracts(op, e1, e2, r1, r2, k)
    ensures EliminateYn(r1) == Neutral(op) <==> Stuck(op, e1) == 0 && Covers(op, e2, e1)
  {
    assert Extracts(op, e1, e2, r1, r2, Atom(e1));
    if EliminateYn(r1) == Neutral(op) {
      CancelledFolds(op, r1);
      StuckIsResidue(op, r1);
      EmptyIsCovered(op, e1, e2, r1, r2);
    }
    if Stuck(op, e1) == 0 && Covers(op, e2, e1) {
      CoveredIsEmpty(op, e1, e2, r1, r2);
    }
  }

  lemma EmptyIsCovered(op: Op, e1: Expr, e2: Expr, r1: Expr, r2: Expr)
    requires Folded(e1) && !IsYesNo(e1) && Stuck(op, e1) == 0 && forall k :: Extracts(op, e1, e2, r1, r2, k)
    requires PartlyCancelled(op, r1) && EliminateYn(r1) == Neutral(op)
    ensures Covers(op, e2, e1)
  {
    forall k ensures Operands(op, e1)[k] <= Held(op, e2, k) {
      assert Extracts(op, e1, e2, r1, r2, k);
      LeftOver(op, r1, k);
      NoneStuck(op, e1, k);
    }
  }

  lemma CoveredIsEmpty(op: Op, e1: Expr, e2: Expr, r1: Expr, r2: Expr)
    requires Folded(e1) && !IsYesNo(e1) && Stuck(op, e1) == 0 && forall k :: Extracts(op, e1, e2, r1, r2, k)
    requires PartlyCancelled(op, r1) && Stuck(op, r1) == 0 && Covers(op, e2, e1)
    ensures EliminateYn(r1) == Neutral(op)
  {
    forall k ensures Held(op, r1, k) == 0 {
      assert Extracts(op, e1, e2, r1, r2, k);
      NoneStuck(op, e1, k);
    }
    NothingHeld(op, r1);
  }
}
