/** The search for recursive dependencies (sym_check_deps in symbol.c). */
module SymbolCheck {
  import opened Tristates
  import opened Exprs
  import opened Symbols

  // ----- the graph that is searched -----

  function Mention(s: Symbol): set<nat> {
    if s.Config? then {s.id} else {}
  }

  /** All configuration symbols of an expression, of whatever type. */
  function Mentions(e: Expr): set<nat> {
    match e
    case Sym(s) => Mention(s)
    case Not(x) => Mentions(x)
    case Bin(_, l, r) => Mentions(l) + Mentions(r)
    case Eq(a, b) => Mention(a) + Mention(b)
    case Ne(a, b) => Mention(a) + Mention(b)
  }

  function OptMentions(e: Option<Expr>): set<nat> {
    if e.None? then {} else Mentions(e.value)
  }

  /** Conditions count for every property but choice, select and deselect; values only for defaults outside choices. */
  predicate PropertyEdge(d: SymDef, p: Property, t: nat) {
    && p.kind != ChoiceProp && p.kind != SelectProp && p.kind != DeselectProp
    && (t in OptMentions(p.visible) || (p.kind == DefaultProp && !d.role.Choice? && t in OptMentions(p.expr)))
  }

  predicate DefEdge(d: SymDef, t: nat) {
    t in OptMentions(d.revDep) || exists p :: p in d.props && PropertyEdge(d, p, t)
  }

  predicate Edge(defs: seq<SymDef>, s: nat, t: nat) {
    s < |defs| && DefEdge(defs[s], t)
  }

  /** Which conditions and values are searched, kind by kind. */
  lemma SearchedKinds(d: SymDef, p: Property, t: nat)
    ensures match p.kind
            case ChoiceProp => !PropertyEdge(d, p, t)
            case SelectProp => !PropertyEdge(d, p, t)
            case DeselectProp => !PropertyEdge(d, p, t)
            case DefaultProp =>
              PropertyEdge(d, p, t) <==> t in OptMentions(p.visible) || (t in OptMentions(p.expr) && !d.role.Choice?)
            case _ => PropertyEdge(d, p, t) <==> t in OptMentions(p.visible)
  {}

  /** Every symbol that is mentioned exists. */
  ghost predicate Closed(defs: seq<SymDef>) {
    forall s: nat, t: nat | Edge(defs, s, t) :: t < |defs|
  }

  predicate IsPath(defs: seq<SymDef>, p: seq<nat>) {
    forall i | 0 < i < |p| :: Edge(defs, p[i - 1], p[i])
  }

  predicate IsCycle(defs: seq<SymDef>, p: seq<nat>) {
    |p| >= 2 && p[0] == p[|p| - 1] && IsPath(defs, p)
  }

  /** A numbering that falls along every edge. */
  predicate FallsAlong(defs: seq<SymDef>, rank: seq<nat>, s: nat, t: nat) {
    s < |rank| && t < |rank| && rank[t] < rank[s]
  }

  ghost predicate Ranking(defs: seq<SymDef>, rank: seq<nat>) {
    |rank| == |defs| && forall s: nat, t: nat | Edge(defs, s, t) :: FallsAlong(defs, rank, s, t)
  }

  lemma {:induction false} RankFallsOnPath(defs: seq<SymDef>, rank: seq<nat>, p: seq<nat>)
    requires Ranking(defs, rank) && IsPath(defs, p) && |p| >= 2
    ensures FallsAlong(defs, rank, p[0], p[|p| - 1])
  {
    var q := p[..|p| - 1];
    assert Edge(defs, p[|p| - 2], p[|p| - 1]);
    if |q| >= 2 {
      RankFallsOnPath(defs, rank, q);
    }
  }

  /** A graph with a ranking has no cycle. */
  lemma RankedIsAcyclic(defs: seq<SymDef>, rank: seq<nat>, p: seq<nat>)
    requires Ranking(defs, rank)
    ensures !IsCycle(defs, p)
  {
    if IsCycle(defs, p) {
      RankFallsOnPath(defs, rank, p);
    }
  }

  // ----- finishing order -----

  /** Every symbol comes after all symbols it depends on. */
  ghost predicate Settled(defs: seq<SymDef>, order: seq<nat>, i: nat)
    requires i < |order|
  {
    order[i] < |defs| && forall t: nat | Edge(defs, order[i], t) :: t in order[..i]
  }

  ghost predicate Sorted(defs: seq<SymDef>, order: seq<nat>) {
    forall i | 0 <= i < |order| :: Settled(defs, order, i)
  }

  lemma SortedAppend(defs: seq<SymDef>, order: seq<nat>, s: nat)
    requires Sorted(defs, order) && s < |defs| && forall t: nat | Edge(defs, s, t) :: t in order
    ensures Sorted(defs, order + [s])
  {
    var order' := order + [s];
    forall i | 0 <= i < |order'| ensures Settled(defs, order', i) {
      if i < |order| {
        assert Settled(defs, order, i);
        assert order'[..i] == order[..i];
      } else {
        assert order'[..i] == order;
      }
    }
  }

  function Position(order: seq<nat>, s: nat): (i: nat)
    requires s in order
    ensures i < |order| && order[i] == s && forall j | 0 <= j < i :: order[j] != s
  {
    if order[0] == s then 0 else 1 + Position(order[1..], s)
  }

  /** A complete finishing order is a ranking: the position of a symbol in it. */
  lemma SortedIsRanking(defs: seq<SymDef>, order: seq<nat>)
    requires Closed(defs) && Sorted(defs, order) && forall s | 0 <= s < |defs| :: s in order
    ensures Ranking(defs, seq(|defs|, s requires 0 <= s < |defs| => Position(order, s)))
  {
    var rank := seq(|defs|, s requires 0 <= s < |defs| => Position(order, s));
    forall s: nat, t: nat | Edge(defs, s, t) ensures FallsAlong(defs, rank, s, t) {
      var i := Position(order, s);
      assert Settled(defs, order, i) && t in order[..i];
      var j :| 0 <= j < i && order[j] == t;
    }
  }

  // ----- the search -----

  /** The symbol the search is inside of depends on all of `ts`. */
  ghost predicate Depends(defs: seq<SymDef>, stack: seq<nat>, ts: set<nat>) {
    stack != [] && forall t | t in ts :: Edge(defs, stack[|stack| - 1], t)
  }

  /** The search has gone down `stack`, and would close a cycle by a path that leads from its end back to `r`. */
  ghost predicate LeadsBack(defs: seq<SymDef>, stack: seq<nat>, path: seq<nat>, r: nat) {
    && IsPath(defs, path) && path != [] && path[|path| - 1] == r
    && exists i :: 0 <= i < |stack| && stack[i] == r && IsCycle(defs, stack[i..] + path)
  }

  lemma ClosesCycle(defs: seq<SymDef>, stack: seq<nat>, path: seq<nat>, r: nat)
    requires IsPath(defs, stack) && IsPath(defs, path) && stack != [] && path != []
    requires Edge(defs, stack[|stack| - 1], path[0]) && path[|path| - 1] == r && r in stack
    ensures LeadsBack(defs, stack, path, r)
  {
    var i :| 0 <= i < |stack| && stack[i] == r;
    var cycle := stack[i..] + path;
    forall k | 0 < k < |cycle| ensures Edge(defs, cycle[k - 1], cycle[k]) {
      if k < |stack| - i {
        assert cycle[k - 1] == stack[i + k - 1] && cycle[k] == stack[i + k];
      } else if k > |stack| - i {
        var j := k - (|stack| - i);
        assert cycle[k - 1] == path[j - 1] && cycle[k] == path[j];
      }
    }
  }

  lemma StepBack(defs: seq<SymDef>, stack: seq<nat>, s: nat, path: seq<nat>, r: nat)
    requires LeadsBack(defs, stack + [s], path, r) && r != s
    ensures r in stack && LeadsBack(defs, stack, [s] + path, r)
  {
    var i :| 0 <= i < |stack| + 1 && (stack + [s])[i] == r && IsCycle(defs, (stack + [s])[i..] + path);
    assert (stack + [s])[i..] + path == stack[i..] + ([s] + path);
    var cycle, at := stack[i..] + ([s] + path), |stack| - i;
    forall k | 0 < k < |path| + 1 ensures Edge(defs, ([s] + path)[k - 1], ([s] + path)[k]) {
      assert cycle[at + k - 1] == ([s] + path)[k - 1] && cycle[at + k] == ([s] + path)[k];
    }
  }

  /** The flags SYMBOL_CHECK and SYMBOL_CHECKED of all symbols, and the warnings given so far. */
  class Checker {
    const defs: seq<SymDef>
    var check: seq<bool>
    var checked: seq<bool>
    var warned: seq<nat>
    ghost var order: seq<nat>
    ghost var cycle: seq<nat>

    constructor (defs: seq<SymDef>)
      ensures this.defs == defs && warned == [] && |checked| == |defs|
      ensures Closed(defs) ==> Ok([])
      ensures forall s | 0 <= s < |defs| :: !checked[s]
    {
      this.defs := defs;
      check, checked := seq(|defs|, _ => false), seq(|defs|, _ => false);
      warned, order, cycle := [], [], [];
    }

    /**
     * SYMBOL_CHECK marks exactly the symbols the search is inside of. While nothing has been reported, the symbols
     * it has left come in an order that follows their dependencies; once something has, there is a cycle.
     */
    ghost predicate Ok(stack: seq<nat>)
      reads this
    {
      && |check| == |checked| == |defs| && Closed(defs) && IsPath(defs, stack)
      && (forall i, j | 0 <= i < j < |stack| :: stack[i] != stack[j])
      && (forall x | x in stack :: x < |defs|)
      && (forall x | 0 <= x < |defs| :: (check[x] <==> x in stack) && (check[x] ==> checked[x]))
      && (warned == [] ==> Sorted(defs, order))
      && (warned == [] ==> forall x | 0 <= x < |defs| :: checked[x] && !check[x] <==> x in order)
      && (warned != [] ==> IsCycle(defs, cycle))
    }

    function Unchecked(): set<nat>
      reads this
    {
      set s | 0 <= s < |checked| && !checked[s]
    }

    /** The part of every contract below that says how the state may change. */
    twostate predicate Searched(stack: seq<nat>)
      reads this
    {
      && Ok(stack) && check == old(check) && Unchecked() <= old(Unchecked())
      && old(warned) <= warned && (warned == [] ==> old(order) <= order)
    }

    /** sym_check_expr_deps: stops at the first dependency that leads back to a symbol on the stack. */
    method CheckExpr(e: Expr, ghost stack: seq<nat>) returns (r: Option<nat>, ghost path: seq<nat>)
      requires Ok(stack) && Depends(defs, stack, Mentions(e))
      modifies this
      ensures Searched(stack)
      ensures r.Some? ==> warned != [] && r.value in stack && LeadsBack(defs, stack, path, r.value)
      ensures warned == [] ==> forall t | t in Mentions(e) :: t in order
      decreases Unchecked(), 4, e
    {
      match e {
        case Sym(s) =>
          assert Mention(s) <= Mentions(e);
          r, path := CheckSymbol(s, stack);
        case Not(x) =>
          assert Mentions(x) <= Mentions(e);
          r, path := CheckExpr(x, stack);
        case Bin(_, x, y) =>
          assert Mentions(x) <= Mentions(e) && Mentions(y) <= Mentions(e);
          r, path := CheckExpr(x, stack);
          if r.None? {
            r, path := CheckExpr(y, stack);
          }
        case Eq(a, b) =>
          assert Mention(a) <= Mentions(e) && Mention(b) <= Mentions(e);
          r, path := CheckSides(a, b, stack);
        case Ne(a, b) =>
          assert Mention(a) <= Mentions(e) && Mention(b) <= Mentions(e);
          r, path := CheckSides(a, b, stack);
      }
    }

    method CheckSymbol(s: Symbol, ghost stack: seq<nat>) returns (r: Option<nat>, ghost path: seq<nat>)
      requires Ok(stack) && Depends(defs, stack, Mention(s))
      modifies this
      ensures Searched(stack)
      ensures r.Some? ==> warned != [] && r.value in stack && LeadsBack(defs, stack, path, r.value)
      ensures warned == [] ==> forall t | t in Mention(s) :: t in order
      decreases Unchecked(), 2
    {
      r, path := None, [];
      if s.Config? {
        assert s.id in Mention(s);
        r, path := CheckDeps(s.id, stack);
      }
    }

    method CheckSides(a: Symbol, b: Symbol, ghost stack: seq<nat>) returns (r: Option<nat>, ghost path: seq<nat>)
      requires Ok(stack) && Depends(defs, stack, Mention(a)) && Depends(defs, stack, Mention(b))
      modifies this
      ensures Searched(stack)
      ensures r.Some? ==> warned != [] && r.value in stack && LeadsBack(defs, stack, path, r.value)
      ensures warned == [] ==> forall t | t in Mention(a) + Mention(b) :: t in order
      decreases Unchecked(), 3
    {
      r, path := CheckSymbol(a, stack);
      if r.None? {
        r, path := CheckSymbol(b, stack);
      }
    }

    /** An optional expression of the symbol the search is inside of. */
    method CheckOptional(e: Option<Expr>, ghost stack: seq<nat>) returns (r: Option<nat>, ghost path: seq<nat>)
      requires Ok(stack) && Depends(defs, stack, OptMentions(e))
      modifies this
      ensures Searched(stack)
      ensures r.Some? ==> warned != [] && r.value in stack && LeadsBack(defs, stack, path, r.value)
      ensures warned == [] ==> forall t | t in OptMentions(e) :: t in order
      decreases Unchecked(), 5
    {
      r, path := None, [];
      if e.Some? {
        r, path := CheckExpr(e.value, stack);
      }
    }

    /** One turn of the loop over the properties. */
    method CheckProperty(s: nat, p: Property, ghost stack: seq<nat>) returns (r: Option<nat>, ghost path: seq<nat>)
      requires Ok(stack) && stack != [] && stack[|stack| - 1] == s && s < |defs| && p in defs[s].props
      modifies this
      ensures Searched(stack)
      ensures r.Some? ==> warned != [] && r.value in stack && LeadsBack(defs, stack, path, r.value)
      ensures warned == [] ==> forall t | PropertyEdge(defs[s], p, t) :: t in order
      decreases Unchecked(), 6
    {
      r, path := None, [];
      if p.kind == ChoiceProp || p.kind == SelectProp || p.kind == DeselectProp {
        return;
      }
      assert forall t | t in OptMentions(p.visible) :: PropertyEdge(defs[s], p, t);
      r, path := CheckOptional(p.visible, stack);
      if r.Some? || p.kind != DefaultProp || defs[s].role.Choice? {
        return;
      }
      assert forall t | t in OptMentions(p.expr) :: PropertyEdge(defs[s], p, t);
      r, path := CheckOptional(p.expr, stack);
    }

    /** Everything sym_check_deps looks at while the symbol is on the stack. */
    method CheckBody(s: nat, ghost stack: seq<nat>) returns (r: Option<nat>, ghost path: seq<nat>)
      requires Ok(stack) && stack != [] && stack[|stack| - 1] == s && s < |defs|
      modifies this
      ensures Searched(stack)
      ensures r.Some? ==> warned != [] && r.value in stack && LeadsBack(defs, stack, path, r.value)
      ensures warned == [] ==> forall t: nat | Edge(defs, s, t) :: t in order
      decreases Unchecked(), 7
    {
      r, path := CheckOptional(defs[s].revDep, stack);
      if r.Some? {
        return;
      }
      var props := defs[s].props;
      var i := 0;
      while i < |props|
        invariant i <= |props| && r.None? && Searched(stack)
        invariant warned == [] ==> forall t | t in OptMentions(defs[s].revDep) :: t in order
        invariant warned == [] ==> forall p, t | p in props[..i] && PropertyEdge(defs[s], p, t) :: t in order
      {
        assert props[..i + 1] == props[..i] + [props[i]];
        r, path := CheckProperty(s, props[i], stack);
        if r.Some? {
          return;
        }
        i := i + 1;
      }
    }

    /** A symbol that is already on the stack is reported. */
    method Report(s: nat, ghost stack: seq<nat>) returns (ghost path: seq<nat>)
      requires Ok(stack) && s in stack && Edge(defs, stack[|stack| - 1], s)
      modifies `warned, `cycle
      ensures Ok(stack) && warned == old(warned) + [s] && LeadsBack(defs, stack, path, s)
    {
      path := [s];
      ClosesCycle(defs, stack, path, s);
      if warned == [] {
        ghost var i :| 0 <= i < |stack| && IsCycle(defs, stack[i..] + path);
        cycle := stack[i..] + path;
      }
      warned := warned + [s];
    }

    method Enter(s: nat, ghost stack: seq<nat>)
      requires Ok(stack) && s < |defs| && !checked[s] && (stack != [] ==> Edge(defs, stack[|stack| - 1], s))
      modifies `check, `checked
      ensures Ok(stack + [s]) && check == old(check)[s := true] && checked[s] && Unchecked() < old(Unchecked())
    {
      check, checked := check[s := true], checked[s := true];
      assert s in old(Unchecked()) && s !in Unchecked();
    }

    method Leave(s: nat, ghost stack: seq<nat>)
      requires Ok(stack + [s]) && s < |check| == |defs|
      requires warned == [] ==> forall t: nat | Edge(defs, s, t) :: t in order
      modifies `check, `order
      ensures Ok(stack) && check == old(check)[s := false]
      ensures warned == [] ==> order == old(order) + [s]
    {
      ghost var stack' := stack + [s];
      assert forall x | x in stack :: x in stack';
      assert forall i | 0 <= i < |stack| :: stack[i] == stack'[i] != stack'[|stack|];
      check := check[s := false];
      if warned == [] {
        SortedAppend(defs, order, s);
        order := order + [s];
      }
    }

    /** sym_check_deps for a symbol met for the first time; a cycle that closes at the symbol itself ends here. */
    method Descend(s: nat, ghost stack: seq<nat>) returns (r: Option<nat>, ghost path: seq<nat>)
      requires Ok(stack) && s < |defs| && (stack != [] ==> Edge(defs, stack[|stack| - 1], s)) && !checked[s]
      modifies this
      ensures Searched(stack) && checked[s]
      ensures r.Some? ==> warned != [] && r.value in stack && LeadsBack(defs, stack, path, r.value)
      ensures warned == [] ==> s in order
      decreases Unchecked(), 0
    {
      Enter(s, stack);
      r, path := CheckBody(s, stack + [s]);
      Leave(s, stack);
      if r == Some(s) {
        r := None;
      } else if r.Some? {
        StepBack(defs, stack, s, path, r.value);
        path := [s] + path;
      }
    }

    /** sym_check_deps. */
    method CheckDeps(s: nat, ghost stack: seq<nat>) returns (r: Option<nat>, ghost path: seq<nat>)
      requires Ok(stack) && s < |defs| && (stack != [] ==> Edge(defs, stack[|stack| - 1], s))
      modifies this
      ensures Searched(stack) && checked[s]
      ensures r.Some? ==> warned != [] && r.value in stack && LeadsBack(defs, stack, path, r.value)
      ensures warned == [] ==> s in order
      decreases Unchecked(), 1
    {
      r, path := None, [];
      if check[s] {
        path := Report(s, stack);
        r := Some(s);
      } else if !checked[s] {
        r, path := Descend(s, stack);
      }
    }

    /**
     * The caller's loop: from a fresh table, sym_check_deps for every symbol. It stays quiet exactly when the graph
     * has a ranking, that is, no cycle; a top-level call never has anything left to return.
     */
    method CheckAll()
      requires Ok([]) && warned == [] && forall s | 0 <= s < |defs| :: !checked[s]
      modifies this
      ensures Ok([]) && check == old(check)
      ensures warned == [] ==> exists rank :: Ranking(defs, rank)
      ensures warned != [] ==> exists p :: IsCycle(defs, p)
    {
      var s := 0;
      while s < |defs|
        invariant s <= |defs| && Ok([]) && check == old(check)
        invariant warned == [] ==> forall x | 0 <= x < s :: x in order
      {
        var r, path := CheckDeps(s, []);
        assert r.None?;
        s := s + 1;
      }
      if warned == [] {
        SortedIsRanking(defs, order);
      }
    }
  }
}
