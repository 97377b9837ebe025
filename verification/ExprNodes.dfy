/** The rewriting passes on expression nodes that are overwritten in place (expr.c). */
module ExprNodes {
  import opened Tristates
  import opened Exprs
  import opened ExprEqs
  import opened Transforms

  datatype Kind = SymbolKind | NotKind | BinKind(op: Op) | EqualKind | UnequalKind

  /** struct expr: a type tag with symbol or expression operands, owning the nodes below it. */
  class Node {
    var kind: Kind
    var a: Symbol
    var b: Symbol
    var left: Node?
    var right: Node?
    ghost var repr: set<Node>
    ghost var tree: Expr

    ghost predicate Valid()
      reads this, repr
      ensures Valid() ==> this in repr
      decreases repr
    {
      && this in repr
      && (kind == SymbolKind ==> tree == Sym(a))
      && (kind == EqualKind ==> tree == Eq(a, b))
      && (kind == UnequalKind ==> tree == Ne(a, b))
      && (kind == NotKind || kind.BinKind? ==>
            left != null && left in repr && left.repr <= repr - {this} && left.Valid())
      && (kind == NotKind ==> tree == Not(left.tree))
      && (kind.BinKind? ==>
            && right != null && right in repr && right.repr <= repr - {this} && right.Valid()
            && left.repr !! right.repr
            && tree == Bin(kind.op, left.tree, right.tree))
    }

    /** expr_alloc_symbol. */
    constructor OfSymbol(s: Symbol)
      ensures Valid() && fresh(repr) && tree == Sym(s)
    {
      kind, a, b, left, right := SymbolKind, s, s, null, null;
      repr, tree := {this}, Sym(s);
    }

    /** expr_alloc_one(E_NOT, ...). */
    constructor OfNot(x: Node)
      requires x.Valid()
      ensures Valid() && fresh(repr - x.repr) && x.repr <= repr && tree == Not(x.tree)
      ensures this !in x.repr
    {
      kind, a, b, left, right := NotKind, NoSym, NoSym, x, null;
      repr, tree := {this} + x.repr, Not(x.tree);
    }

    /** expr_alloc_two. */
    constructor OfBinary(op: Op, l: Node, r: Node)
      requires l.Valid() && r.Valid() && l.repr !! r.repr
      ensures Valid() && fresh(repr - l.repr - r.repr) && tree == Bin(op, l.tree, r.tree)
      ensures repr == {this} + l.repr + r.repr
    {
      kind, a, b, left, right := BinKind(op), NoSym, NoSym, l, r;
      repr, tree := {this} + l.repr + r.repr, Bin(op, l.tree, r.tree);
    }

    /** The struct assignment *e = *child; the child itself is given up. */
    method Overwrite(child: Node)
      requires child != this && child.Valid() && this !in child.repr
      modifies this
      ensures Valid() && tree == child.tree && repr == {this} + (child.repr - {child})
    {
      kind, a, b, left, right := child.kind, child.a, child.b, child.left, child.right;
      repr, tree := {this} + (child.repr - {child}), child.tree;
    }

    /** An AND/OR node over valid, separate operands whose own ghost view may be out of date. */
    ghost predicate Ready()
      reads this, left, right, if left == null then {} else left.repr, if right == null then {} else right.repr
    {
      && kind.BinKind? && left != null && right != null
      && left.Valid() && right.Valid() && left.repr !! right.repr
      && this !in left.repr && this !in right.repr
    }

    ghost method Refresh()
      requires Ready()
      modifies `repr, `tree
      ensures Valid() && repr == {this} + left.repr + right.repr
      ensures tree == Bin(kind.op, left.tree, right.tree)
    {
      repr := {this} + left.repr + right.repr;
      tree := Bin(kind.op, left.tree, right.tree);
    }

    /** Store a rewritten operand in its slot. */
    method Replace(inLeft: bool, n: Node)
      requires kind.BinKind? && left != null && right != null
      requires var other := if inLeft then right else left;
        n.Valid() && other.Valid() && n.repr !! other.repr && this !in n.repr && this !in other.repr
      modifies this
      ensures Valid() && kind == old(kind)
      ensures repr == {this} + n.repr + old((if inLeft then right else left).repr)
      ensures tree == old(if inLeft then Bin(kind.op, n.tree, right.tree) else Bin(kind.op, left.tree, n.tree))
    {
      if inLeft {
        left := n;
      } else {
        right := n;
      }
      Refresh();
    }

    ghost method RefreshNot()
      requires kind == NotKind && left != null && left.Valid() && this !in left.repr
      modifies `repr, `tree
      ensures Valid() && repr == {this} + left.repr && tree == Not(left.tree)
    {
      repr := {this} + left.repr;
      tree := Not(left.tree);
    }

    /** Turn this leaf into !s. */
    method BecomeNegatedSymbol(s: Symbol)
      modifies this
      ensures Valid() && tree == Not(Sym(s)) && fresh(repr - {this})
    {
      var n := new Node.OfSymbol(s);
      kind, left, right := NotKind, n, null;
      RefreshNot();
    }

    method BecomeSymbol(s: Symbol)
      modifies this
      ensures Valid() && tree == Sym(s) && repr == {this}
    {
      kind, a, right := SymbolKind, s, null;
      repr, tree := {this}, Sym(s);
    }
  }

  /** The folding step of expr_eliminate_yn at a node whose operands are already folded. */
  method FoldNode(e: Node)
    requires e.Ready()
    modifies e
    ensures e.Valid() && e.repr <= old({e} + e.left.repr + e.right.repr)
    ensures e.tree == old(FoldOne(e.kind.op, e.left.tree, e.right.tree))
  {
    var op := e.kind.op;
    if e.left.kind == SymbolKind && Sym(e.left.a) == Absorbing(op) {
      e.BecomeSymbol(e.left.a);
    } else if e.left.kind == SymbolKind && Sym(e.left.a) == Neutral(op) {
      e.Overwrite(e.right);
    } else if e.right.kind == SymbolKind && Sym(e.right.a) == Absorbing(op) {
      e.BecomeSymbol(e.right.a);
    } else if e.right.kind == SymbolKind && Sym(e.right.a) == Neutral(op) {
      e.Overwrite(e.left);
    } else {
      e.Refresh();
    }
  }

  /** expr_eliminate_yn. */
  method EliminateYnInPlace(e: Node)
    requires e.Valid()
    modifies e.repr
    ensures e.Valid() && e.repr <= old(e.repr)
    ensures e.tree == EliminateYn(old(e.tree))
    decreases e.repr
  {
    if e.kind.BinKind? {
      EliminateYnInPlace(e.left);
      EliminateYnInPlace(e.right);
      FoldNode(e);
    }
  }

  /** expr_trans_bool. */
  method TransBoolInPlace(e: Node)
    requires e.Valid()
    modifies e.repr
    ensures e.Valid() && e.repr <= old(e.repr)
    ensures e.tree == TransBool(old(e.tree))
    decreases e.repr
  {
    match e.kind {
      case BinKind(op) =>
        TransBoolInPlace(e.left);
        TransBoolInPlace(e.right);
        e.Refresh();
      case NotKind =>
        TransBoolInPlace(e.left);
        e.repr := {e} + e.left.repr;
        e.tree := Not(e.left.tree);
      case UnequalKind =>
        if e.a.Type() == TristateType && e.b == NoSym {
          e.kind := SymbolKind;
          e.tree := Sym(e.a);
        }
      case _ =>
    }
  }

  /** The comparison cases of expr_transform. */
  method LowerInPlace(e: Node)
    requires e.Valid() && (e.kind == EqualKind || e.kind == UnequalKind)
    modifies e
    ensures e.Valid() && fresh(e.repr - old(e.repr))
    ensures e.tree == Transform(old(e.tree))
  {
    if e.a.Type() == BooleanType {
      if e.b == (if e.kind == EqualKind then NoSym else YesSym) {
        e.BecomeNegatedSymbol(e.a);
      } else if e.b == ModSym {
        e.BecomeSymbol(if e.kind == EqualKind then NoSym else YesSym);
      } else if e.b == (if e.kind == EqualKind then YesSym else NoSym) {
        e.BecomeSymbol(e.a);
      }
    }
  }

  /** expr_transform: may hand back another node, as the original does. */
  method TransformInPlace(e: Node) returns (r: Node)
    requires e.Valid()
    modifies e.repr
    ensures r.Valid() && fresh(r.repr - old(e.repr))
    ensures r.tree == Transform(old(e.tree))
    decreases Weight(e.tree), 1
  {
    r := e;
    match e.kind {
      case SymbolKind =>
      case EqualKind => LowerInPlace(e);
      case UnequalKind => LowerInPlace(e);
      case BinKind(_) =>
        TransformOperands(e);
      case NotKind =>
        r := TransformNot(e);
    }
  }

  method TransformNot(e: Node) returns (r: Node)
    requires e.Valid() && e.kind == NotKind && e.tree.Not?
    modifies e.repr
    ensures r.Valid() && fresh(r.repr - old(e.repr))
    ensures r.tree == Transform(old(e.tree))
    decreases Weight(e.tree), 0, 1
  {
    TransformBelowNot(e);
    r := TransformNegation(e);
  }

  /** Both operands of an AND/OR node. */
  method TransformOperands(e: Node)
    requires e.Valid() && e.kind.BinKind? && e.tree.Bin?
    modifies e.repr
    ensures e.Valid() && fresh(e.repr - old(e.repr))
    ensures e.tree == Transform(old(e.tree))
    decreases Weight(e.tree), 0, 1
  {
    ghost var t := e.tree;
    TransformOperand(e, true);
    assert e.tree == Bin(t.op, Transform(t.l), t.r);
    TransformOperand(e, false);
  }

  /** One operand of an AND/OR node, stored back in its slot. */
  method TransformOperand(e: Node, inLeft: bool)
    requires e.Valid() && e.kind.BinKind? && e.tree.Bin?
    modifies e.repr
    ensures e.Valid() && e.kind == old(e.kind) && fresh(e.repr - old(e.repr))
    ensures e.tree == old(if inLeft then Bin(e.tree.op, Transform(e.tree.l), e.tree.r)
                          else Bin(e.tree.op, e.tree.l, Transform(e.tree.r)))
    decreases Weight(e.tree), 0, 0
  {
    var n := TransformInPlace(if inLeft then e.left else e.right);
    e.Replace(inLeft, n);
  }

  method TransformBelowNot(e: Node)
    requires e.Valid() && e.kind == NotKind && e.tree.Not?
    modifies e.repr
    ensures e.Valid() && e.kind == NotKind && fresh(e.repr - old(e.repr)) && e.tree == Not(Transform(old(e.tree.e)))
    decreases Weight(e.tree), 0, 0
  {
    var l := TransformInPlace(e.left);
    e.left := l;
    e.RefreshNot();
  }

  /** !(a op b) becomes !a dual !b, reusing the node of the operand for the first negation. */
  method PushNegation(e: Node)
    requires e.Valid() && e.kind == NotKind && e.left.Valid() && e.left.kind.BinKind? && e.tree.e.Bin?
    modifies e, e.left
    ensures e.Valid() && fresh(e.repr - old(e.repr))
    ensures e.tree == old(PushNot(e.tree.e.op, e.tree.e.l, e.tree.e.r))
  {
    var child := e.left;
    var l, r := child.left, child.right;
    e.kind := BinKind(child.kind.op.Dual());
    e.right := new Node.OfNot(r);
    child.kind, child.right := NotKind, null;
    child.RefreshNot();
    e.Refresh();
  }

  /** What expr_transform does at a negation of a transformed expression. */
  method TransformNegation(e: Node) returns (r: Node)
    requires e.Valid() && e.kind == NotKind && e.tree.Not?
    modifies e.repr
    ensures r.Valid() && fresh(r.repr - old(e.repr))
    ensures r.tree == AtNegation(old(e.tree.e))
    decreases Weight(e.tree), 0, 0
  {
    var child := e.left;
    assert child.Valid() && child.repr <= e.repr;
    if child.kind == NotKind {
      assert Weight(e.tree) == 2 * Weight(child.tree) + 1 && Weight(child.tree) == 2 * Weight(child.left.tree) + 1;
      r := TransformInPlace(child.left);
    } else if child.kind == EqualKind {
      child.kind, child.tree := UnequalKind, Ne(child.a, child.b);
      r := child;
    } else if child.kind == UnequalKind {
      child.kind, child.tree := EqualKind, Eq(child.a, child.b);
      r := child;
    } else if child.kind.BinKind? {
      PushNegation(e);
      r := TransformInPlace(e);
    } else if IsYesModNo(child.a) {
      child.BecomeSymbol(if child.a == YesSym then NoSym else if child.a == NoSym then YesSym else ModSym);
      r := child;
    } else {
      r := e;
    }
  }

  // ----- expr_copy, expr_eq, expr_eliminate_eq -----

  /** expr_copy. */
  method Copy(e: Node) returns (c: Node)
    requires e.Valid()
    ensures c.Valid() && fresh(c.repr) && c.tree == e.tree
    decreases e.repr
  {
    if e.kind == NotKind {
      var l := Copy(e.left);
      c := new Node.OfNot(l);
    } else if e.kind.BinKind? {
      var l := Copy(e.left);
      var r := Copy(e.right);
      c := new Node.OfBinary(e.kind.op, l, r);
    } else {
      c := new Node.OfSymbol(e.a);
      c.kind, c.b, c.tree := e.kind, e.b, e.tree;
    }
  }

  /** expr_eq: works on copies and leaves its arguments alone. */
  method NodesEqual(e1: Node, e2: Node) returns (b: bool)
    requires e1.Valid() && e2.Valid()
    ensures b == ExprEq(e1.tree, e2.tree)
    decreases Size(e1.tree) + Size(e2.tree), 2, 0
  {
    if e1.kind != e2.kind {
      return false;
    }
    match e1.kind {
      case SymbolKind => b := e1.a == e2.a;
      case EqualKind => b := e1.a == e2.a && e1.b == e2.b;
      case UnequalKind => b := e1.a == e2.a && e1.b == e2.b;
      case NotKind => b := NodesEqual(e1.left, e2.left);
      case BinKind(_) =>
        var c1 := Copy(e1);
        var c2 := Copy(e2);
        c1, c2 := EliminateEqInPlace(c1, c2);
        b := c1.kind == SymbolKind && c2.kind == SymbolKind && c1.a == c2.a;
    }
  }

  /** Two trees that share no node. */
  ghost predicate Apart(e1: Node, e2: Node)
    reads e1, e1.repr, e2, e2.repr
  {
    e1.Valid() && e2.Valid() && e1.repr !! e2.repr
  }

  /** __expr_eliminate_eq: the slots of the two trees are handed back instead of being pointed to. */
  method CancelPairsInPlace(op: Op, e1: Node, e2: Node) returns (r1: Node, r2: Node)
    requires Apart(e1, e2)
    modifies e1.repr, e2.repr
    ensures Apart(r1, r2) && fresh(r1.repr - old(e1.repr)) && fresh(r2.repr - old(e2.repr))
    ensures (r1.tree, r2.tree) == CancelPairs(op, old(e1.tree), old(e2.tree))
    decreases Size(e1.tree) + Size(e2.tree), if IsNode(op, e1.tree) || IsNode(op, e2.tree) then 0 else 3, 2
  {
    if e1.kind == BinKind(op) {
      r1, r2 := CancelFirst(op, e1, e2);
    } else if e2.kind == BinKind(op) {
      r1, r2 := CancelSecond(op, e1, e2);
    } else {
      r1, r2 := e1, e2;
      if !(e1.kind == SymbolKind && e2.kind == SymbolKind && e1.a == e2.a && e1.a.IsYesNoConst()) {
        var same := NodesEqual(e1, e2);
        if same {
          r1 := new Node.OfSymbol(Neutral(op).s);
          r2 := new Node.OfSymbol(Neutral(op).s);
        }
      }
    }
  }

  /** The walk below e1, one operand after the other. */
  method CancelFirst(op: Op, e1: Node, e2: Node) returns (r1: Node, r2: Node)
    requires Apart(e1, e2) && e1.kind == BinKind(op)
    modifies e1.repr, e2.repr
    ensures Apart(r1, r2) && fresh(r1.repr - old(e1.repr)) && fresh(r2.repr - old(e2.repr))
    ensures (r1.tree, r2.tree) == CancelPairs(op, old(e1.tree), old(e2.tree))
    decreases Size(e1.tree) + Size(e2.tree), 0, 1
  {
    ghost var t1, t2 := e1.tree, e2.tree;
    r2 := CancelBelow(op, e1, true, e2);
    ghost var (l, m) := CancelPairs(op, t1.l, t2);
    r2 := CancelBelow(op, e1, false, r2);
    ghost var (r, m') := CancelPairs(op, t1.r, m);
    assert (e1.tree, r2.tree) == (Bin(op, l, r), m');
    r1 := e1;
  }

  /** The walk below e2. */
  method CancelSecond(op: Op, e1: Node, e2: Node) returns (r1: Node, r2: Node)
    requires Apart(e1, e2) && e1.kind != BinKind(op) && e2.kind == BinKind(op)
    modifies e1.repr, e2.repr
    ensures Apart(r1, r2) && fresh(r1.repr - old(e1.repr)) && fresh(r2.repr - old(e2.repr))
    ensures (r1.tree, r2.tree) == CancelPairs(op, old(e1.tree), old(e2.tree))
    decreases Size(e1.tree) + Size(e2.tree), 0, 1
  {
    ghost var t1, t2 := e1.tree, e2.tree;
    r1 := CancelAbove(op, e1, e2, true);
    ghost var (m, l) := CancelPairs(op, t1, t2.l);
    r1 := CancelAbove(op, r1, e2, false);
    ghost var (m', r) := CancelPairs(op, m, t2.r);
    assert (r1.tree, e2.tree) == (m', Bin(op, l, r));
    r2 := e2;
  }

  /** A rewritten operand goes back to its slot; the other tree is not touched. */
  method PutBack(e: Node, inLeft: bool, n: Node, other: Node)
    requires e.kind.BinKind? && e.left != null && e.right != null
    requires var sibling := if inLeft then e.right else e.left;
      && sibling.Valid() && n.repr !! sibling.repr && Apart(n, other)
      && e !in sibling.repr && e !in n.repr && e !in other.repr && other.repr !! sibling.repr
    modifies e
    ensures Apart(e, other) && e.kind == old(e.kind)
    ensures other.repr == old(other.repr) && other.tree == old(other.tree)
    ensures e.repr == {e} + old(n.repr) + old((if inLeft then e.right else e.left).repr)
    ensures e.tree == old(if inLeft then Bin(e.kind.op, n.tree, e.right.tree) else Bin(e.kind.op, e.left.tree, n.tree))
  {
    e.Replace(inLeft, n);
  }

  /** One operand of `e` against the whole of `other`, written back to its slot. */
  method CancelBelow(op: Op, e: Node, inLeft: bool, other: Node) returns (other': Node)
    requires Apart(e, other) && e.kind == BinKind(op)
    modifies e.repr, other.repr
    ensures Apart(e, other') && e.kind == BinKind(op)
    ensures fresh(e.repr - old(e.repr)) && fresh(other'.repr - old(other.repr))
    ensures var (x, y) := CancelPairs(op, old(if inLeft then e.tree.l else e.tree.r), old(other.tree));
      other'.tree == y && e.tree == old(if inLeft then Bin(op, x, e.tree.r) else Bin(op, e.tree.l, x))
    decreases Size(e.tree) + Size(other.tree), 0, 0
  {
    var n;
    n, other' := CancelPairsInPlace(op, if inLeft then e.left else e.right, other);
    PutBack(e, inLeft, n, other');
  }

  method CancelAbove(op: Op, other: Node, e: Node, inLeft: bool) returns (other': Node)
    requires Apart(other, e) && e.kind == BinKind(op)
    modifies e.repr, other.repr
    ensures Apart(other', e) && e.kind == BinKind(op)
    ensures fresh(e.repr - old(e.repr)) && fresh(other'.repr - old(other.repr))
    ensures var (y, x) := CancelPairs(op, old(other.tree), old(if inLeft then e.tree.l else e.tree.r));
      other'.tree == y && e.tree == old(if inLeft then Bin(op, x, e.tree.r) else Bin(op, e.tree.l, x))
    decreases Size(other.tree) + Size(e.tree), 0, 0
  {
    var n;
    other', n := CancelPairsInPlace(op, other, if inLeft then e.left else e.right);
    PutBack(e, inLeft, n, other');
  }

  /** expr_eliminate_eq. */
  method EliminateEqInPlace(e1: Node, e2: Node) returns (r1: Node, r2: Node)
    requires Apart(e1, e2)
    modifies e1.repr, e2.repr
    ensures Apart(r1, r2) && fresh(r1.repr - old(e1.repr)) && fresh(r2.repr - old(e2.repr))
    ensures (r1.tree, r2.tree) == EliminateEq(old(e1.tree), old(e2.tree))
    decreases Size(e1.tree) + Size(e2.tree), 1, 0
  {
    r1, r2 := CancelForRoots(e1, e2);
    EliminateYnInPlace(r1);
    EliminateYnInPlace(r2);
  }

  /** The one or two walks of expr_eliminate_eq. */
  method CancelForRoots(e1: Node, e2: Node) returns (r1: Node, r2: Node)
    requires Apart(e1, e2)
    modifies e1.repr, e2.repr
    ensures Apart(r1, r2) && fresh(r1.repr - old(e1.repr)) && fresh(r2.repr - old(e2.repr))
    ensures (r1.tree, r2.tree) == CancelRoots(old(e1.tree), old(e2.tree))
    decreases Size(e1.tree) + Size(e2.tree), 0, 3
  {
    r1, r2 := e1, e2;
    if r1.kind.BinKind? {
      r1, r2 := CancelPairsInPlace(r1.kind.op, r1, r2);
    }
    if r1.kind != r2.kind && r2.kind.BinKind? {
      r1, r2 := CancelPairsInPlace(r2.kind.op, r1, r2);
    }
  }
}
