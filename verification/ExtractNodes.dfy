/** Common-factor extraction on expression nodes that are overwritten in place (expr_extract_eq in expr.c). */
module ExtractNodes {
  import opened Tristates
  import opened Exprs
  import opened ExprEqs
  import opened ExprNodes

  ghost function ReprOf(acc: Node?): set<Node>
    reads acc
  {
    if acc == null then {} else acc.repr
  }

  /** The factor collected so far, as an expression. */
  ghost function FactorOf(acc: Node?): Option<Expr>
    reads acc
  {
    if acc == null then None else Some(acc.tree)
  }

  /** The factor and the two trees share no node. */
  ghost predicate AllApart(acc: Node?, e1: Node, e2: Node)
    reads acc, ReprOf(acc), e1, e1.repr, e2, e2.repr
  {
    && Apart(e1, e2)
    && (acc != null ==> acc.Valid() && acc.repr !! e1.repr && acc.repr !! e2.repr)
  }

  /** The factor with one more operand, which it owns from now on. */
  method AddFactor(op: Op, acc: Node?, e: Node) returns (acc': Node)
    requires e.Valid() && (acc != null ==> acc.Valid() && acc.repr !! e.repr)
    ensures acc'.Valid() && fresh(acc'.repr - ReprOf(acc) - e.repr)
    ensures acc'.tree == if acc == null then e.tree else Bin(op, acc.tree, e.tree)
  {
    if acc == null {
      acc' := e;
    } else {
      acc' := new Node.OfBinary(op, acc, e);
    }
  }

  /** Two operands: if they are equal the first moves into the factor, and both give way to the neutral constant. */
  method ExtractLeaves(op: Op, acc: Node?, e1: Node, e2: Node) returns (acc': Node?, r1: Node, r2: Node)
    requires AllApart(acc, e1, e2) && e1.kind != BinKind(op) && e2.kind != BinKind(op)
    ensures AllApart(acc', r1, r2)
    ensures fresh(r1.repr - e1.repr) && fresh(r2.repr - e2.repr)
    ensures acc' != null ==> fresh(acc'.repr - ReprOf(acc) - e1.repr - e2.repr)
    ensures (FactorOf(acc'), r1.tree, r2.tree) == ExtractPairs(op, FactorOf(acc), e1.tree, e2.tree)
  {
    ghost var pairs := ExtractPairs(op, FactorOf(acc), e1.tree, e2.tree);
    var same := NodesEqual(e1, e2);
    if same {
      acc' := AddFactor(op, acc, e1);
      r1 := new Node.OfSymbol(Neutral(op).s);
      r2 := new Node.OfSymbol(Neutral(op).s);
    } else {
      acc', r1, r2 := acc, e1, e2;
    }
    assert (FactorOf(acc'), r1.tree, r2.tree) == pairs;
  }

  /** expr_extract_eq: equal operands of the two trees move into the factor, and their slots become neutral. */
  method ExtractPairsInPlace(op: Op, acc: Node?, e1: Node, e2: Node) returns (acc': Node?, r1: Node, r2: Node)
    requires AllApart(acc, e1, e2)
    modifies e1.repr, e2.repr
    ensures AllApart(acc', r1, r2)
    ensures fresh(r1.repr - old(e1.repr)) && fresh(r2.repr - old(e2.repr))
    ensures acc' != null ==> fresh(acc'.repr - old(ReprOf(acc)) - old(e1.repr) - old(e2.repr))
    ensures (FactorOf(acc'), r1.tree, r2.tree) == old(ExtractPairs(op, FactorOf(acc), e1.tree, e2.tree))
    decreases Size(e1.tree) + Size(e2.tree), 2
  {
    if e1.kind == BinKind(op) {
      acc', r1, r2 := ExtractFirst(op, acc, e1, e2);
    } else if e2.kind == BinKind(op) {
      acc', r1, r2 := ExtractSecond(op, acc, e1, e2);
    } else {
      acc', r1, r2 := ExtractLeaves(op, acc, e1, e2);
    }
  }

  /** The walk below e1, one operand after the other. */
  method ExtractFirst(op: Op, acc: Node?, e1: Node, e2: Node) returns (acc': Node?, r1: Node, r2: Node)
    requires AllApart(acc, e1, e2) && e1.kind == BinKind(op)
    modifies e1.repr, e2.repr
    ensures AllApart(acc', r1, r2)
    ensures fresh(r1.repr - old(e1.repr)) && fresh(r2.repr - old(e2.repr))
    ensures acc' != null ==> fresh(acc'.repr - old(ReprOf(acc)) - old(e1.repr) - old(e2.repr))
    ensures (FactorOf(acc'), r1.tree, r2.tree) == old(ExtractPairs(op, FactorOf(acc), e1.tree, e2.tree))
    decreases Size(e1.tree) + Size(e2.tree), 1
  {
    ghost var f, t1, t2 := FactorOf(acc), e1.tree, e2.tree;
    acc', r2 := ExtractBelow(op, acc, e1, true, e2);
    ghost var (f', l, m) := ExtractPairs(op, f, t1.l, t2);
    acc', r2 := ExtractBelow(op, acc', e1, false, r2);
    ghost var (f'', r, m') := ExtractPairs(op, f', t1.r, m);
    assert (FactorOf(acc'), e1.tree, r2.tree) == (f'', Bin(op, l, r), m');
    r1 := e1;
  }

  /** The walk below e2. */
  method ExtractSecond(op: Op, acc: Node?, e1: Node, e2: Node) returns (acc': Node?, r1: Node, r2: Node)
    requires AllApart(acc, e1, e2) && e1.kind != BinKind(op) && e2.kind == BinKind(op)
    modifies e1.repr, e2.repr
    ensures AllApart(acc', r1, r2)
    ensures fresh(r1.repr - old(e1.repr)) && fresh(r2.repr - old(e2.repr))
    ensures acc' != null ==> fresh(acc'.repr - old(ReprOf(acc)) - old(e1.repr) - old(e2.repr))
    ensures (FactorOf(acc'), r1.tree, r2.tree) == old(ExtractPairs(op, FactorOf(acc), e1.tree, e2.tree))
    decreases Size(e1.tree) + Size(e2.tree), 1
  {
    ghost var f, t1, t2 := FactorOf(acc), e1.tree, e2.tree;
    acc', r1 := ExtractAbove(op, acc, e1, e2, true);
    ghost var (f', m, l) := ExtractPairs(op, f, t1, t2.l);
    acc', r1 := ExtractAbove(op, acc', r1, e2, false);
    ghost var (f'', m', r) := ExtractPairs(op, f', m, t2.r);
    assert (FactorOf(acc'), r1.tree, e2.tree) == (f'', m', Bin(op, l, r));
    r2 := e2;
  }

  /** A rewritten operand goes back to its slot; the factor and the other tree are not touched. */
  method WriteBack(acc: Node?, other: Node, e: Node, inLeft: bool, n: Node)
    requires e.kind.BinKind? && e.left != null && e.right != null
    requires var sibling := if inLeft then e.right else e.left;
      && sibling.Valid() && n.repr !! sibling.repr && AllApart(acc, n, other)
      && e !in sibling.repr && e !in n.repr && e !in other.repr && other.repr !! sibling.repr
    requires acc != null ==>
               e !in acc.repr && acc.repr !! if inLeft then e.right.repr else e.left.repr
    modifies e
    ensures AllApart(acc, e, other) && e.kind == old(e.kind)
    ensures other.repr == old(other.repr) && other.tree == old(other.tree)
    ensures ReprOf(acc) == old(ReprOf(acc)) && FactorOf(acc) == old(FactorOf(acc))
    ensures e.repr == {e} + old(n.repr) + old((if inLeft then e.right else e.left).repr)
    ensures e.tree == old(if inLeft then Bin(e.kind.op, n.tree, e.right.tree) else Bin(e.kind.op, e.left.tree, n.tree))
  {
    PutBack(e, inLeft, n, other);
  }

  /** One operand of `e` against the whole of `other`, written back to its slot. */
  method ExtractBelow(op: Op, acc: Node?, e: Node, inLeft: bool, other: Node) returns (acc': Node?, other': Node)
    requires AllApart(acc, e, other) && e.kind == BinKind(op)
    modifies e.repr, other.repr
    ensures AllApart(acc', e, other') && e.kind == BinKind(op)
    ensures fresh(e.repr - old(e.repr)) && fresh(other'.repr - old(other.repr))
    ensures acc' != null ==> fresh(acc'.repr - old(ReprOf(acc)) - old(e.repr) - old(other.repr))
    ensures var (f, x, y) := old(ExtractPairs(op, FactorOf(acc), if inLeft then e.tree.l else e.tree.r, other.tree));
      FactorOf(acc') == f && other'.tree == y &&
      e.tree == old(if inLeft then Bin(op, x, e.tree.r) else Bin(op, e.tree.l, x))
    decreases Size(e.tree) + Size(other.tree), 0
  {
    var n;
    acc', n, other' := ExtractPairsInPlace(op, acc, if inLeft then e.left else e.right, other);
    WriteBack(acc', other', e, inLeft, n);
  }

  method ExtractAbove(op: Op, acc: Node?, other: Node, e: Node, inLeft: bool) returns (acc': Node?, other': Node)
    requires AllApart(acc, other, e) && e.kind == BinKind(op)
    modifies e.repr, other.repr
    ensures AllApart(acc', other', e) && e.kind == BinKind(op)
    ensures fresh(e.repr - old(e.repr)) && fresh(other'.repr - old(other.repr))
    ensures acc' != null ==> fresh(acc'.repr - old(ReprOf(acc)) - old(other.repr) - old(e.repr))
    ensures var (f, y, x) := old(ExtractPairs(op, FactorOf(acc), other.tree, if inLeft then e.tree.l else e.tree.r));
      FactorOf(acc') == f && other'.tree == y &&
      e.tree == old(if inLeft then Bin(op, x, e.tree.r) else Bin(op, e.tree.l, x))
    decreases Size(other.tree) + Size(e.tree), 0
  {
    var n;
    acc', other', n := ExtractPairsInPlace(op, acc, other, if inLeft then e.left else e.right);
    WriteBack(acc', other', e, inLeft, n);
  }

  /** Folding one of the two trees leaves the other tree and the factor alone. */
  method FoldSide(factor: Node?, e: Node, other: Node)
    requires AllApart(factor, e, other)
    modifies e.repr
    ensures AllApart(factor, e, other) && e.repr <= old(e.repr) && other.repr == old(other.repr)
    ensures FactorOf(factor) == old(FactorOf(factor)) && other.tree == old(other.tree)
    ensures e.tree == old(EliminateYn(e.tree))
  {
    EliminateYnInPlace(e);
  }

  /** expr_extract_eq_and and expr_extract_eq_or. */
  method ExtractEqInPlace(op: Op, e1: Node, e2: Node) returns (factor: Node?, r1: Node, r2: Node)
    requires Apart(e1, e2)
    modifies e1.repr, e2.repr
    ensures AllApart(factor, r1, r2)
    ensures (FactorOf(factor), r1.tree, r2.tree) == old(ExtractEq(op, e1.tree, e2.tree))
  {
    factor, r1, r2 := ExtractPairsInPlace(op, null, e1, e2);
    if factor != null {
      FoldSide(factor, r1, r2);
      FoldSide(factor, r2, r1);
    }
  }
}
