/** The two duplicate walks as the original runs them: operand slots overwritten one pair at a time (expr.c). */
module DupSlots {
  import opened Tristates
  import opened Exprs
  import opened ExprEqs
  import opened Joins
  import opened Spines
  import opened Dups

  /** The operands of the outermost row of `e`, one to a slot. */
  method Slots(op: Op, e: Expr) returns (slots: array<Expr>)
    requires IsNode(op, e)
    ensures fresh(slots) && slots[..] == Leaves(op, e)
    ensures 2 <= slots.Length == LeafCount(op, e) && SumSize(slots[..]) < Size(e)
  {
    var ls := Leaves(op, e);
    LeavesSize(op, e);
    slots := new Expr[|ls|](i requires 0 <= i < |ls| => ls[i]);
    assert slots[..] == ls;
  }

  // ----- expr_eliminate_dups1 -----

  /** The body of expr_eliminate_dups1 for two distinct slots. */
  method JoinSlots(op: Op, slots: array<Expr>, i: nat, j: nat) returns (count: nat)
    requires IsRow(op, slots[..]) && 2 <= slots.Length && i < slots.Length && j < slots.Length && i != j
    modifies slots
    ensures (slots[..], count) == Dups1Step(op, old(slots[..]), i, j)
    decreases SumSize(slots[..]), 1
  {
    ghost var was := slots[..];
    count := 0;
    if slots[i].Bin? {
      SlotSmallerThanRow(was, i);
      var e, c := JoinTree(slots[i]);
      slots[i], count := e, c;
    }
    assert slots[..] == was[i := Dups1Operand(op, was, i).0];
    var join := Join(op, slots[i], slots[j]);
    if join.Some? {
      slots[i], slots[j], count := Neutral(op), join.value, count + 1;
    }
    assert slots[..] == Dups1Step(op, was, i, j).0;
  }

  /** Slot i against every other slot, in order. */
  method JoinSlotWithAll(op: Op, slots: array<Expr>, i: nat) returns (count: nat)
    requires IsRow(op, slots[..]) && 2 <= slots.Length && i < slots.Length
    modifies slots
    ensures IsRow(op, slots[..]) && SumSize(slots[..]) <= old(SumSize(slots[..]))
    ensures var r, rest := Dups1Pairs(op, old(slots[..]), i, 0), Dups1Pairs(op, slots[..], i + 1, 0);
            r.0 == rest.0 && r.1 == count + rest.1
    decreases SumSize(slots[..]), 2
  {
    ghost var was := slots[..];
    ghost var (result, total) := Dups1Pairs(op, slots[..], i, 0);
    count := 0;
    var j := 0;
    while j < slots.Length
      invariant j <= slots.Length && IsRow(op, slots[..]) && SumSize(slots[..]) <= SumSize(was)
      invariant Dups1Pairs(op, slots[..], i, j).0 == result
      invariant Dups1Pairs(op, slots[..], i, j).1 + count == total
    {
      if i != j {
        var c := JoinSlots(op, slots, i, j);
        count := count + c;
      }
      j := j + 1;
    }
  }

  /** Every ordered pair of slots, in order. */
  method JoinAllSlots(op: Op, slots: array<Expr>) returns (count: nat)
    requires IsRow(op, slots[..]) && 2 <= slots.Length
    modifies slots
    ensures (slots[..], count) == Dups1Pairs(op, old(slots[..]), 0, 0)
    decreases SumSize(slots[..]), 3
  {
    ghost var was := slots[..];
    ghost var (result, total) := Dups1Pairs(op, slots[..], 0, 0);
    count := 0;
    var i := 0;
    while i < slots.Length
      invariant i <= slots.Length && IsRow(op, slots[..]) && SumSize(slots[..]) <= SumSize(was)
      invariant Dups1Pairs(op, slots[..], i, 0).0 == result
      invariant Dups1Pairs(op, slots[..], i, 0).1 + count == total
    {
      var c := JoinSlotWithAll(op, slots, i);
      count := count + c;
      i := i + 1;
    }
  }

  /** expr_eliminate_dups1 at the root of a tree; an operand of the other connective has slots of its own. */
  method JoinTree(e: Expr) returns (r: Expr, count: nat)
    requires e.Bin?
    ensures (r, count) == Dups1(e)
    decreases Size(e), 0
  {
    var slots := Slots(e.op, e);
    count := JoinAllSlots(e.op, slots);
    r := Rebuild(e.op, e, slots[..]);
  }

  // ----- expr_eliminate_dups2 -----

  /** The body of expr_eliminate_dups2 for one slot and one node of the tree. */
  method CheckSlot(op: Op, sub: Expr, lo: nat, slots: array<Expr>, i: nat, ghost limit: nat) returns (count: nat)
    requires SumSize(slots[..]) <= limit
    requires IsRow(op, slots[..]) && 2 <= slots.Length && i < slots.Length && lo + LeafCount(op, sub) <= slots.Length
    modifies slots
    ensures (slots[..], count) == Dups2Check(op, sub, lo, old(slots[..]), i)
    ensures IsRow(op, slots[..]) && SumSize(slots[..]) <= limit
    decreases limit, 1, 0, 0
  {
    ghost var was := slots[..];
    count := 0;
    if slots[i].Bin? {
      SlotSmallerThanRow(was, i);
      var e, c := ComplementTree(slots[i]);
      slots[i], count := e, c;
      assert slots[..] == was[i := e];
      if Complementary(op, e, Current(op, sub, lo, slots[..])) {
        slots[i], count := Absorbing(op), count + 1;
        assert slots[..] == was[i := Absorbing(op)];
      }
    }
  }

  /** The walk at a node is made up of the walks below it and the check of the node itself. */
  lemma WalkInThree(op: Op, sub: Expr, lo: nat, ls: seq<Expr>, i: nat,
                    ls1: seq<Expr>, c1: nat, ls2: seq<Expr>, c2: nat, ls3: seq<Expr>, c3: nat)
    requires IsNode(op, sub) && IsRow(op, ls) && |ls| >= 2 && i < |ls| && lo + LeafCount(op, sub) <= |ls|
    requires (ls1, c1) == Dups2Walk(op, sub.l, lo, ls, i)
    requires (ls2, c2) == Dups2Walk(op, sub.r, lo + LeafCount(op, sub.l), ls1, i)
    requires (ls3, c3) == Dups2Check(op, sub, lo, ls2, i)
    ensures (ls3, c1 + c2 + c3) == Dups2Walk(op, sub, lo, ls, i)
  {
    WalkAtNode(op, sub, lo, ls, i);
  }

  /** One slot against the operands of a node, and then against the node itself. */
  method WalkNode(op: Op, sub: Expr, lo: nat, slots: array<Expr>, i: nat, ghost limit: nat) returns (count: nat)
    requires SumSize(slots[..]) <= limit
    requires IsRow(op, slots[..]) && 2 <= slots.Length && i < slots.Length && lo + LeafCount(op, sub) <= slots.Length
    requires IsNode(op, sub)
    modifies slots
    ensures (slots[..], count) == Dups2Walk(op, sub, lo, old(slots[..]), i)
    ensures IsRow(op, slots[..]) && SumSize(slots[..]) <= limit
    decreases limit, 2, Size(sub), 0
  {
    ghost var was := slots[..];
    ghost var whole := Dups2Walk(op, sub, lo, was, i);
    var mid := lo + LeafCount(op, sub.l);
    var c1 := WalkSlot(op, sub.l, lo, slots, i, limit);
    ghost var ls1 := slots[..];
    var c2 := WalkSlot(op, sub.r, mid, slots, i, limit);
    ghost var ls2 := slots[..];
    var c3 := CheckSlot(op, sub, lo, slots, i, limit);
    count := c1 + c2 + c3;
    WalkInThree(op, sub, lo, was, i, ls1, c1, ls2, c2, slots[..], c3);
    assert whole == (slots[..], count);
  }

  /** One slot against everything below `sub`. */
  method WalkSlot(op: Op, sub: Expr, lo: nat, slots: array<Expr>, i: nat, ghost limit: nat) returns (count: nat)
    requires SumSize(slots[..]) <= limit
    requires IsRow(op, slots[..]) && 2 <= slots.Length && i < slots.Length && lo + LeafCount(op, sub) <= slots.Length
    modifies slots
    ensures (slots[..], count) == Dups2Walk(op, sub, lo, old(slots[..]), i)
    ensures IsRow(op, slots[..]) && SumSize(slots[..]) <= limit
    decreases limit, 2, Size(sub), 1
  {
    if IsNode(op, sub) {
      count := WalkNode(op, sub, lo, slots, i, limit);
    } else if lo == i {
      count := 0;
    } else {
      count := CheckSlot(op, sub, lo, slots, i, limit);
    }
  }

  /** Every slot in turn against the whole tree. */
  method ComplementAllSlots(op: Op, e: Expr, slots: array<Expr>) returns (count: nat)
    requires IsRow(op, slots[..]) && slots.Length == LeafCount(op, e) && 2 <= slots.Length
    modifies slots
    ensures (slots[..], count) == Dups2Slots(op, e, old(slots[..]), 0)
    decreases SumSize(slots[..]), 3, 0, 0
  {
    ghost var was := slots[..];
    ghost var (result, total) := Dups2Slots(op, e, slots[..], 0);
    count := 0;
    var i := 0;
    while i < slots.Length
      invariant i <= slots.Length && IsRow(op, slots[..]) && SumSize(slots[..]) <= SumSize(was)
      invariant Dups2Slots(op, e, slots[..], i).0 == result
      invariant Dups2Slots(op, e, slots[..], i).1 + count == total
    {
      var c := WalkSlot(op, e, 0, slots, i, SumSize(was));
      count := count + c;
      i := i + 1;
    }
  }

  /** expr_eliminate_dups2 at the root of a tree. */
  method ComplementTree(e: Expr) returns (r: Expr, count: nat)
    requires e.Bin?
    ensures (r, count) == Dups2(e)
    decreases Size(e), 0, 0, 0
  {
    var slots := Slots(e.op, e);
    count := ComplementAllSlots(e.op, e, slots);
    r := Rebuild(e.op, e, slots[..]);
  }

  /** expr_eliminate_dups: both walks and the folding, until a round counts nothing. */
  method EliminateDupsLoop(e0: Expr) returns (e: Expr)
    ensures e == EliminateDups(e0)
  {
    e := e0;
    var transCount := 1;
    while transCount != 0
      invariant EliminateDups(e) == EliminateDups(e0)
      invariant transCount == 0 ==> EliminateDups(e) == e
      decreases Size(e), transCount
    {
      transCount := 0;
      if e.Bin? {
        OneRoundProgress(e);
        ghost var round := OneRound(e);
        var c1, c2;
        e, c1 := JoinTree(e);
        e, c2 := ComplementTree(e);
        transCount := c1 + c2;
        assert (e, transCount) == round;
      }
      if transCount != 0 {
        e := EliminateYn(e);
      }
    }
  }
}
