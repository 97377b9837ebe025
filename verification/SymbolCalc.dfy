/** Memoised calculation of symbol values over shared mutable state (symbol.c, expr_calc_value in expr.c). */
module SymbolCalc {
  import opened Tristates
  import opened Exprs
  import opened Symbols
  import opened SymbolFacts
  import opened SymbolMemo
  import opened SymbolSet

  /**
   * The symbol table during calculation. The ghost parameter `busy` of the methods is the set of symbols marked
   * valid further up the call stack, whose values are not final yet.
   */
  class Calculator {
    const defs: seq<SymDef>
    const str: Symbol -> string
    const modules: Option<nat>
    ghost const rank: seq<nat>
    var user: seq<User>
    var valid: seq<bool>
    var curr: seq<Tristate>
    var chosen: seq<Option<nat>>
    var visible: seq<Tristate>
    var revDep: seq<Tristate>

    /** A symbol table as it has been read in: nothing calculated yet. */
    constructor (defs: seq<SymDef>, user: seq<User>, str: Symbol -> string, modules: Option<nat>, ghost rank: seq<nat>)
      requires WellFormed(defs, user) && (modules.Some? ==> modules.value < |defs|)
      ensures this.defs == defs && this.user == user && this.str == str && this.modules == modules && this.rank == rank
      ensures Ok({}) && forall s | 0 <= s < |valid| :: !valid[s]
    {
      this.defs, this.user, this.str, this.modules, this.rank := defs, user, str, modules, rank;
      valid := seq(|defs|, _ => false);
      curr := seq(|defs|, _ => NO);
      chosen := seq(|defs|, _ => None);
      visible := seq(|defs|, _ => NO);
      revDep := seq(|defs|, _ => NO);
    }

    ghost function Sys(): Sys
      reads `user
    {
      Symbols.Sys(defs, user, str, rank)
    }

    function Now(): Snap
      reads this
    {
      Snap(valid, curr, chosen, visible, revDep)
    }

    ghost predicate Ok(busy: set<nat>)
      reads this
    {
      Inv(Sys(), Now(), busy)
    }

    /** An expression may be evaluated: on ranked systems its symbols rank below everything busy. */
    ghost predicate CanEval(e: Option<Expr>, bound: nat, over: Option<nat>, busy: set<nat>)
      reads this
    {
      && OptKnown(defs, e) && OverrideOk(Now(), busy, over)
      && (Ranked(Sys()) ==> Below(Sys(), e, bound, over) && Allowed(Sys(), busy, bound))
    }

    /** sym_calc_value for a symbol that occurs in an expression, giving its tristate value. */
    method EvalSymbol(s: Symbol, ghost bound: nat, ghost over: Option<nat>, ghost busy: set<nat>) returns (t: Tristate)
      requires Ok(busy) && CanEval(Some(Sym(s)), bound, over, busy)
      modifies `valid, `curr, `chosen, `visible, `revDep
      ensures Ok(busy) && Extends(Sys(), old(Now()), Now(), bound, None)
      ensures forall d | d in SymbolIds(s) :: d < |valid| && valid[d]
      ensures Ranked(Sys()) ==> t == TriAt(Sys(), s, bound, over)
      decreases Pending(Now()), 1
    {
      if s.Config? && s.IsLogical() {
        assert s.id in Ids(Sym(s));
        CalcValue(s.id, busy);
        t := curr[s.id];
      } else {
        t := if s == YesSym then YES else if s == ModSym then MOD else NO;
      }
    }

    /** sym_get_string_value after the symbol has been calculated. */
    method EvalString(s: Symbol, ghost bound: nat, ghost over: Option<nat>, ghost busy: set<nat>) returns (r: string)
      requires Ok(busy) && CanEval(Some(Sym(s)), bound, over, busy)
      modifies `valid, `curr, `chosen, `visible, `revDep
      ensures Ok(busy) && Extends(Sys(), old(Now()), Now(), bound, None)
      ensures forall d | d in SymbolIds(s) :: d < |valid| && valid[d]
      ensures Ranked(Sys()) ==> r == StrAt(Sys(), s, bound, over)
      decreases Pending(Now()), 2
    {
      var t := EvalSymbol(s, bound, over, busy);
      r := if s.Const? then s.name else if s.Config? && !s.IsLogical() then str(s) else TriString(t);
    }

    /** The strings of the two sides of a comparison; the first stays valid while the second is calculated. */
    method EvalStrings(x: Symbol, y: Symbol, ghost bound: nat, ghost over: Option<nat>, ghost busy: set<nat>)
        returns (a: string, b: string)
      requires Ok(busy) && CanEval(Some(Sym(x)), bound, over, busy) && CanEval(Some(Sym(y)), bound, over, busy)
      modifies `valid, `curr, `chosen, `visible, `revDep
      ensures Ok(busy) && Extends(Sys(), old(Now()), Now(), bound, None)
      ensures forall d | d in SymbolIds(x) + SymbolIds(y) :: d < |valid| && valid[d]
      ensures Ranked(Sys()) ==> a == StrAt(Sys(), x, bound, over) && b == StrAt(Sys(), y, bound, over)
      decreases Pending(Now()), 3
    {
      ghost var m0 := Now();
      a := EvalString(x, bound, over, busy);
      ghost var m1 := Now();
      PendingShrinks(Sys(), m0, m1, bound, None);
      OverrideKept(Sys(), m0, m1, bound, None, busy, over);
      b := EvalString(y, bound, over, busy);
      ExtendsTransitive(Sys(), m0, m1, Now(), bound, bound, None);
    }

    method EvalBoth(l: Expr, r: Expr, ghost bound: nat, ghost over: Option<nat>, ghost busy: set<nat>)
        returns (a: Tristate, b: Tristate)
      requires Ok(busy) && CanEval(Some(l), bound, over, busy) && CanEval(Some(r), bound, over, busy)
      modifies `valid, `curr, `chosen, `visible, `revDep
      ensures Ok(busy) && Extends(Sys(), old(Now()), Now(), bound, None)
      ensures forall d | d in Ids(l) + Ids(r) :: d < |valid| && valid[d]
      ensures Ranked(Sys()) ==> a == ValueOf(Sys(), l, bound, over) && b == ValueOf(Sys(), r, bound, over)
      decreases Pending(Now()), 4, Size(l) + Size(r)
    {
      ghost var m0 := Now();
      a := EvalExpr(l, bound, over, busy);
      ghost var m1 := Now();
      PendingShrinks(Sys(), m0, m1, bound, None);
      OverrideKept(Sys(), m0, m1, bound, None, busy, over);
      b := EvalExpr(r, bound, over, busy);
      ExtendsTransitive(Sys(), m0, m1, Now(), bound, bound, None);
    }

    /** expr_calc_value: both operands are always evaluated. */
    method EvalExpr(e: Expr, ghost bound: nat, ghost over: Option<nat>, ghost busy: set<nat>) returns (t: Tristate)
      requires Ok(busy) && CanEval(Some(e), bound, over, busy)
      modifies `valid, `curr, `chosen, `visible, `revDep
      ensures Ok(busy) && Extends(Sys(), old(Now()), Now(), bound, None)
      ensures forall d | d in Ids(e) :: d < |valid| && valid[d]
      ensures Ranked(Sys()) ==> t == ValueOf(Sys(), e, bound, over)
      decreases Pending(Now()), 4, Size(e)
    {
      match e {
        case Sym(s) =>
          t := EvalSymbol(s, bound, over, busy);
        case Not(x) =>
          assert OptIds(Some(x)) == OptIds(Some(e));
          t := EvalExpr(x, bound, over, busy);
          t := Neg(t);
        case Bin(op, l, r) =>
          if Ranked(Sys()) {
            BelowOperands(Sys(), e, bound, over);
          }
          var a, b := EvalBoth(l, r, bound, over, busy);
          t := Apply(op, a, b);
        case Eq(x, y) =>
          var a, b := EvalStrings(x, y, bound, over, busy);
          t := FromBool(a == b);
        case Ne(x, y) =>
          var a, b := EvalStrings(x, y, bound, over, busy);
          t := FromBool(a != b);
      }
    }

    method EvalOptional(e: Option<Expr>, ghost bound: nat, ghost over: Option<nat>, ghost busy: set<nat>)
        returns (t: Tristate)
      requires Ok(busy) && CanEval(e, bound, over, busy)
      modifies `valid, `curr, `chosen, `visible, `revDep
      ensures Ok(busy) && Extends(Sys(), old(Now()), Now(), bound, None)
      ensures forall d | d in OptIds(e) :: d < |valid| && valid[d]
      ensures Ranked(Sys()) ==> t == ValueOfOpt(Sys(), e, bound, over)
      decreases Pending(Now()), 5
    {
      if e.None? {
        t := YES;
      } else {
        t := EvalExpr(e.value, bound, over, busy);
      }
    }

    /** The visibility expressions of a symbol may be evaluated. */
    ghost predicate CanLook(s: nat, bound: nat, over: Option<nat>, busy: set<nat>)
      reads this
      requires s < |defs|
    {
      && OverrideOk(Now(), busy, over)
      && (Ranked(Sys()) ==> VisibilityBelow(Sys(), s, bound, over) && Allowed(Sys(), busy, bound))
    }

    /** The highest prompt among the first properties is known and their prompts' symbols are valid. */
    ghost predicate PromptLoop(was: Snap, s: nat, i: nat, tri: Tristate, bound: nat, over: Option<nat>, busy: set<nat>)
      reads this
      requires s < |defs| && i <= |defs[s].props|
    {
      && Ok(busy) && CanLook(s, bound, over, busy) && Extends(Sys(), was, Now(), bound, None)
      && PromptsValid(Now(), defs[s].props[..i])
      && (Ranked(Sys()) ==>
            var first := defs[s].props[..i];
            (forall p | p in first && IsPrompt(p) :: Below(Sys(), p.visible, bound, over)) &&
            tri == HighestPromptOf(Sys(), first, bound, over))
    }

    /** One turn of the first loop of sym_calc_visibility. */
    method RaiseByPrompt(s: nat, i: nat, was: Tristate,
                         ghost m0: Snap, ghost bound: nat, ghost over: Option<nat>, ghost busy: set<nat>)
        returns (tri: Tristate)
      requires s < |defs| && i < |defs[s].props| && PromptLoop(m0, s, i, was, bound, over, busy)
      modifies `valid, `curr, `chosen, `visible, `revDep
      ensures PromptLoop(m0, s, i + 1, tri, bound, over, busy)
      decreases Pending(Now()), 6
    {
      var props := defs[s].props;
      assert props[i] in props && DefWellFormed(defs, user, s);
      ghost var m1 := Now();
      tri := was;
      if IsPrompt(props[i]) {
        var t := EvalOptional(props[i].visible, bound, over, busy);
        tri := Max(was, t);
      }
      PromptTurn(Sys(), m0, m1, Now(), bound, over, busy, props, i);
    }

    /** The highest prompt of a symbol: the first loop of sym_calc_visibility. */
    method CalcPrompts(s: nat, ghost bound: nat, ghost over: Option<nat>, ghost busy: set<nat>) returns (tri: Tristate)
      requires Ok(busy) && s < |defs| && CanLook(s, bound, over, busy)
      modifies `valid, `curr, `chosen, `visible, `revDep
      ensures Ok(busy) && CanLook(s, bound, over, busy) && Extends(Sys(), old(Now()), Now(), bound, None)
      ensures PromptsValid(Now(), defs[s].props)
      ensures Ranked(Sys()) ==> tri == HighestPromptOf(Sys(), defs[s].props, bound, over)
      decreases Pending(Now()), 7
    {
      ghost var m0 := Now();
      tri := NO;
      var i := 0;
      while i < |defs[s].props|
        invariant i <= |defs[s].props| && PromptLoop(m0, s, i, tri, bound, over, busy)
      {
        PendingShrinks(Sys(), m0, Now(), bound, None);
        tri := RaiseByPrompt(s, i, tri, m0, bound, over, busy);
        i := i + 1;
      }
      assert defs[s].props[..|defs[s].props|] == defs[s].props;
    }

    /** rev_dep_inv is y. */
    method CalcDeselected(s: nat, ghost bound: nat, ghost over: Option<nat>, ghost busy: set<nat>) returns (b: bool)
      requires Ok(busy) && s < |defs| && CanLook(s, bound, over, busy)
      modifies `valid, `curr, `chosen, `visible, `revDep
      ensures Ok(busy) && CanLook(s, bound, over, busy) && Extends(Sys(), old(Now()), Now(), bound, None)
      ensures Ranked(Sys()) ==> b == DeselectedAt(Sys(), s, bound, over)
      decreases Pending(Now()), 6
    {
      assert DefWellFormed(defs, user, s);
      b := false;
      if defs[s].revDepInv.Some? {
        ghost var m0 := Now();
        var t := EvalOptional(defs[s].revDepInv, bound, over, busy);
        OverrideKept(Sys(), m0, Now(), bound, None, busy, over);
        b := t == YES;
      }
    }

    ghost function RankOf(s: nat): nat {
      if s < |rank| then rank[s] else 0
    }

    ghost function OwnBound(s: nat): nat
      reads `user
      requires s < |defs|
    {
      if Ranked(Sys()) then VisibilityBound(Sys(), s) else 0
    }

    /** Called either for a busy symbol itself, or by a choice for a member that is not finished. */
    ghost predicate LookAllowed(s: nat, over: Option<nat>, bound: nat, busy: set<nat>)
      reads this
      requires s < |defs| == |valid|
    {
      Ranked(Sys()) ==>
        if over.None? then
          s in busy && bound == VisibilityBound(Sys(), s) && Allowed(Sys(), busy, rank[s])
        else
          && defs[s].role.Member? && over == Some(defs[s].role.choice) && bound <= rank[s]
          && (s in busy || !valid[s] || !HasLivePrompt(defs[s]))
    }

    method StoreVisible(s: nat, t: Tristate, ghost was: Snap, ghost bound: nat, ghost over: Option<nat>,
                        ghost busy: set<nat>)
      requires Ok(busy) && s < |defs| && CanLook(s, bound, over, busy) && Extends(Sys(), was, Now(), bound, None)
      requires Ranked(Sys()) ==> s in busy || !valid[s] || (!HasLivePrompt(defs[s]) && t == NO)
      modifies `visible
      ensures Ok(busy) && CanLook(s, bound, over, busy) && Extends(Sys(), was, Now(), bound, Some(s))
      ensures visible == old(visible)[s := t]
    {
      WriteVisible(Sys(), Now(), busy, s, t);
      ExtendsWrite(Sys(), was, Now(), bound, None, s, t, revDep[s]);
      assert revDep[s := revDep[s]] == revDep;
      visible := visible[s := t];
    }

    /** A finished member that may be looked at has no prompt, so the look finds it invisible. */
    lemma LookStaysAllowed(a: Snap, b: Snap, s: nat, bound: nat, over: Option<nat>, busy: set<nat>, tri: Tristate)
      requires Inv(Sys(), b, busy) && s < |defs| && Extends(Sys(), a, b, bound, None)
      requires Ranked(Sys()) && over.None? ==> s in busy
      requires Ranked(Sys()) && over.Some? ==>
                 && defs[s].role.Member? && (s in busy || !a.valid[s] || !HasLivePrompt(defs[s]))
                 && over == Some(defs[s].role.choice) && bound <= rank[s]
      requires Ranked(Sys()) ==> VisibilityBelow(Sys(), s, bound, over) && tri == VisibleAt(Sys(), s, bound, over)
      ensures Ranked(Sys()) ==> s in busy || !b.valid[s] || (!HasLivePrompt(defs[s]) && tri == NO)
    {
      if Ranked(Sys()) && !HasLivePrompt(defs[s]) {
        NoPromptMeansInvisible(Sys(), defs[s].props, bound, over);
      }
    }

    /** The level of the prompts, which rev_dep_inv may override. */
    method LookLevel(s: nat, ghost bound: nat, ghost over: Option<nat>, ghost busy: set<nat>)
        returns (tri: Tristate, deselected: bool)
      requires Ok(busy) && s < |defs| && CanLook(s, bound, over, busy)
      modifies `valid, `curr, `chosen, `visible, `revDep
      ensures Ok(busy) && CanLook(s, bound, over, busy) && PromptsValid(Now(), defs[s].props)
      ensures Extends(Sys(), old(Now()), Now(), bound, None)
      ensures Ranked(Sys()) ==> tri == VisibleAt(Sys(), s, bound, over)
      ensures Ranked(Sys()) ==> deselected == DeselectedAt(Sys(), s, bound, over)
      decreases Pending(Now()), 8, 0
    {
      ghost var m0 := Now();
      tri := CalcPrompts(s, bound, over, busy);
      ghost var m1 := Now();
      PendingShrinks(Sys(), m0, m1, bound, None);
      deselected := CalcDeselected(s, bound, over, busy);
      PromptsStayValid(Sys(), m1, Now(), bound, None, defs[s].props);
      ExtendsTransitive(Sys(), m0, m1, Now(), bound, bound, None);
      if tri == MOD && defs[s].typ != TristateType {
        tri := YES;
      }
      if deselected {
        tri := NO;
      }
    }

    /** The first half of sym_calc_visibility: prompts and rev_dep_inv. */
    method LookVisible(s: nat, ghost bound: nat, ghost over: Option<nat>, ghost busy: set<nat>)
        returns (deselected: bool)
      requires Ok(busy) && s < |defs| && CanLook(s, bound, over, busy) && LookAllowed(s, over, bound, busy)
      modifies `valid, `curr, `chosen, `visible, `revDep
      ensures Ok(busy) && CanLook(s, bound, over, busy) && PromptsValid(Now(), defs[s].props)
      ensures Extends(Sys(), old(Now()), Now(), bound, Some(s))
      ensures Ranked(Sys()) ==> visible[s] == VisibleAt(Sys(), s, bound, over)
      ensures Ranked(Sys()) ==> deselected == DeselectedAt(Sys(), s, bound, over)
      ensures Ranked(Sys()) && old(valid[s]) ==> revDep[s] == old(revDep[s])
      decreases Pending(Now()), 8
    {
      ghost var m0 := Now();
      var tri;
      tri, deselected := LookLevel(s, bound, over, busy);
      LookStaysAllowed(m0, Now(), s, bound, over, busy, tri);
      StoreVisible(s, tri, m0, bound, over, busy);
    }

    /** The second half of sym_calc_visibility: how far a symbol is selected. */
    method LookSelected(s: nat, ghost busy: set<nat>)
      requires Ok(busy) && s < |defs| && !defs[s].role.Member?
      requires Ranked(Sys()) ==> s in busy && Allowed(Sys(), busy, rank[s])
      modifies `valid, `curr, `chosen, `visible, `revDep
      ensures Ok(busy) && Extends(Sys(), old(Now()), Now(), RankOf(s), Some(s))
      ensures Ranked(Sys()) ==> visible[s] == old(visible[s]) && revDep[s] == Selected(Sys(), s)
      decreases Pending(Now()), 8
    {
      ghost var m0 := Now();
      var tri: Tristate := NO;
      assert DefWellFormed(defs, user, s);
      assert Ranked(Sys()) ==> SymbolRanked(Sys(), s);
      if defs[s].revDep.Some? {
        tri := EvalOptional(defs[s].revDep, RankOf(s), None, busy);
      }
      ghost var m1 := Now();
      assert Ranked(Sys()) ==> visible[s] == old(visible[s]) by {
        assert Ranked(Sys()) ==> m1.visible[s] == m0.visible[s] || LookedAt(Sys(), m0, m1, s);
      }
      if tri == MOD && defs[s].typ == BooleanType {
        tri := YES;
      }
      WriteRevDep(Sys(), m1, busy, s, tri);
      ExtendsWrite(Sys(), m0, m1, RankOf(s), None, s, visible[s], tri);
      assert visible[s := visible[s]] == visible;
      revDep := revDep[s := tri];
    }

    /** sym_calc_visibility. */
    method CalcVisibility(s: nat, ghost bound: nat, ghost over: Option<nat>, ghost busy: set<nat>)
      requires Ok(busy) && s < |defs| && CanLook(s, bound, over, busy) && LookAllowed(s, over, bound, busy)
      modifies `valid, `curr, `chosen, `visible, `revDep
      ensures Ok(busy) && OverrideOk(Now(), busy, over) && PromptsValid(Now(), defs[s].props)
      ensures Extends(Sys(), old(Now()), Now(), if over.None? then RankOf(s) else bound, Some(s))
      ensures Ranked(Sys()) ==> visible[s] == VisibleAt(Sys(), s, bound, over)
      ensures Ranked(Sys()) && old(valid[s]) && defs[s].role.Member? ==> revDep[s] == old(revDep[s])
      ensures Ranked(Sys()) && over.None? && !Deselected(Sys(), s) ==> revDep[s] == Selected(Sys(), s)
      decreases Pending(Now()), 9
    {
      ghost var m0 := Now();
      var deselected := LookVisible(s, bound, over, busy);
      ghost var m1 := Now();
      assert Ranked(Sys()) ==> SymbolRanked(Sys(), s);
      if defs[s].role.Member? || deselected {
        return;
      }
      PendingShrinks(Sys(), m0, m1, bound, Some(s));
      LookSelected(s, busy);
      PromptsStayValid(Sys(), m1, Now(), RankOf(s), Some(s), defs[s].props);
      OverrideKept(Sys(), m1, Now(), RankOf(s), Some(s), busy, over);
      ExtendsTransitive(Sys(), m0, m1, Now(), RankOf(s), RankOf(s), Some(s));
    }

    /** An expression that ranks below the symbol being worked on. */
    method EvalAtWork(e: Option<Expr>, s: nat, ghost was: Snap, ghost busy: set<nat>) returns (t: Tristate)
      requires Working(Sys(), was, Now(), s, busy) && OptKnown(defs, e)
      requires Ranked(Sys()) ==> Below(Sys(), e, rank[s], None)
      modifies `valid, `curr, `chosen, `visible, `revDep
      ensures Working(Sys(), was, Now(), s, busy) && Pending(Now()) <= Pending(old(Now()))
      ensures curr[s] == old(curr[s]) && chosen[s] == old(chosen[s])
      ensures Ranked(Sys()) ==> t == ValueOfOpt(Sys(), e, rank[s], None)
      decreases Pending(Now()), 6
    {
      ghost var m0 := Now();
      ghost var bound := if Ranked(Sys()) then rank[s] else 0;
      t := EvalOptional(e, bound, None, busy);
      WorkGoesOn(Sys(), was, m0, Now(), s, busy);
    }

    /** The result fields of a symbol being worked on. */
    method Store(s: nat, t: Tristate, pick: Option<nat>, ghost was: Snap, ghost busy: set<nat>)
      requires Working(Sys(), was, Now(), s, busy)
      modifies `curr, `chosen
      ensures Working(Sys(), was, Now(), s, busy) && Pending(Now()) == Pending(old(Now()))
      ensures curr == old(curr)[s := t] && chosen == old(chosen)[s := pick]
    {
      ghost var m := Now();
      curr, chosen := curr[s := t], chosen[s := pick];
      WorkWrites(Sys(), was, m, Now(), s, busy);
    }

    // ----- choices -----

    /** A choice that is y and picks one of its members. */
    ghost predicate Choosing(was: Snap, c: nat, busy: set<nat>)
      reads this
    {
      Working(Sys(), was, Now(), c, busy) && defs[c].role.Choice? && curr[c] == YES
    }

    /** sym_calc_visibility for a member of the choice; true when it is visible. */
    method TryMember(c: nat, s: nat, ghost was: Snap, ghost busy: set<nat>) returns (b: bool)
      requires Choosing(was, c, busy) && s < |defs| && (Ranked(Sys()) ==> s in defs[c].role.members)
      modifies `valid, `curr, `chosen, `visible, `revDep
      ensures Choosing(was, c, busy) && Pending(Now()) <= Pending(old(Now()))
      ensures Ranked(Sys()) ==> b == Pickable(Sys(), c, s)
      decreases Pending(Now()), 10
    {
      ghost var m0 := Now();
      ghost var bound := if Ranked(Sys()) then rank[c] else 0;
      if Ranked(Sys()) {
        assert ChoiceOk(Sys(), c) by { assert SymbolRanked(Sys(), c); }
        assert MemberOk(Sys(), s) by { assert SymbolRanked(Sys(), s); }
      }
      CalcVisibility(s, bound, Some(c), busy);
      b := visible[s] != NO;
      if Ranked(Sys()) && !HasLivePrompt(defs[s]) {
        NoPromptMeansInvisible(Sys(), defs[s].props, bound, Some(c));
      }
      LookGoesOn(Sys(), was, m0, Now(), c, s, busy);
    }

    /** One turn of the second loop of sym_calc_choice. */
    method TryDefault(c: nat, p: Property, ghost was: Snap, ghost busy: set<nat>) returns (pick: Option<nat>)
      requires Choosing(was, c, busy) && p in defs[c].props && IsDefault(p)
      modifies `valid, `curr, `chosen, `visible, `revDep
      ensures Choosing(was, c, busy) && Pending(Now()) <= Pending(old(Now()))
      ensures Ranked(Sys()) ==>
                && Below(Sys(), p.visible, rank[c], None) && PicksMember(defs[c].role.members, DefaultPick(p))
                && pick == if ValueOfOpt(Sys(), p.visible, rank[c], None) != NO &&
                              Pickable(Sys(), c, DefaultPick(p).value) then DefaultPick(p) else None
      decreases Pending(Now()), 11
    {
      assert DefWellFormed(defs, user, c);
      if Ranked(Sys()) {
        assert DefaultsBelow(Sys(), c) && ChoiceOk(Sys(), c) by { assert SymbolRanked(Sys(), c); }
      }
      pick := None;
      var t := EvalAtWork(p.visible, c, was, busy);
      if t != NO {
        assert PickInRange(defs, DefaultPick(p));
        var ok := TryMember(c, DefaultPick(p).value, was, busy);
        if ok {
          pick := DefaultPick(p);
        }
      }
    }

    /** The second loop of sym_calc_choice: the first visible default whose member is visible. */
    method CalcPickDefault(c: nat, ghost was: Snap, ghost busy: set<nat>) returns (pick: Option<nat>)
      requires Choosing(was, c, busy)
      modifies `valid, `curr, `chosen, `visible, `revDep
      ensures Choosing(was, c, busy) && Pending(Now()) <= Pending(old(Now()))
      ensures Ranked(Sys()) ==> pick == PickDefault(Sys(), c, 0)
      decreases Pending(Now()), 12
    {
      ghost var m0 := Now();
      var props := defs[c].props;
      var i := 0;
      pick := None;
      while i < |props| && pick.None?
        invariant i <= |props| && Choosing(was, c, busy) && Pending(Now()) <= Pending(m0)
        invariant Ranked(Sys()) ==>
                    PickDefault(Sys(), c, 0) == if pick.Some? then pick else PickDefault(Sys(), c, i)
      {
        if IsDefault(props[i]) {
          pick := TryDefault(c, props[i], was, busy);
        }
        i := i + 1;
      }
    }

    /** The third loop of sym_calc_choice: the first visible member. */
    method CalcPickFirst(c: nat, ghost was: Snap, ghost busy: set<nat>) returns (pick: Option<nat>)
      requires Choosing(was, c, busy)
      modifies `valid, `curr, `chosen, `visible, `revDep
      ensures Choosing(was, c, busy) && Pending(Now()) <= Pending(old(Now()))
      ensures Ranked(Sys()) ==> pick == PickFirst(Sys(), c, 0)
      decreases Pending(Now()), 11
    {
      ghost var m0 := Now();
      var members := defs[c].role.members;
      var i := 0;
      while i < |members|
        invariant i <= |members| && Choosing(was, c, busy) && Pending(Now()) <= Pending(m0)
        invariant Ranked(Sys()) ==> PickFirst(Sys(), c, 0) == PickFirst(Sys(), c, i)
      {
        assert DefWellFormed(defs, user, c) && members[i] in members;
        var ok := TryMember(c, members[i], was, busy);
        if ok {
          return Some(members[i]);
        }
        i := i + 1;
      }
      pick := None;
    }

    /** The user's pick, when it is visible. */
    method TryUser(c: nat, ghost was: Snap, ghost busy: set<nat>) returns (pick: Option<nat>)
      requires Choosing(was, c, busy)
      modifies `valid, `curr, `chosen, `visible, `revDep
      ensures Choosing(was, c, busy) && Pending(Now()) <= Pending(old(Now()))
      ensures Ranked(Sys()) ==>
                && ChoiceOk(Sys(), c)
                && var sel := user[c].sel; pick == if sel.Some? && Pickable(Sys(), c, sel.value) then sel else None
      decreases Pending(Now()), 11
    {
      if Ranked(Sys()) {
        assert SymbolRanked(Sys(), c);
      }
      pick := user[c].sel;
      if pick.Some? {
        assert DefWellFormed(defs, user, c);
        var ok := TryMember(c, pick.value, was, busy);
        if !ok {
          pick := None;
        }
      }
    }

    /** sym_calc_choice: the user's pick, a default, or the first visible member; without any the choice becomes n. */
    method CalcChoice(c: nat, ghost was: Snap, ghost busy: set<nat>) returns (pick: Option<nat>)
      requires Choosing(was, c, busy)
      modifies `valid, `curr, `chosen, `visible, `revDep
      ensures Working(Sys(), was, Now(), c, busy) && defs[c].role.Choice?
      ensures Ranked(Sys()) ==> pick == Pick(Sys(), c)
      ensures curr[c] == if pick.None? then NO else YES
      decreases Pending(Now()), 13
    {
      pick := TryUser(c, was, busy);
      if pick.None? {
        pick := CalcPickDefault(c, was, busy);
      }
      if pick.None? {
        pick := CalcPickFirst(c, was, busy);
      }
      if pick.None? {
        Store(c, NO, chosen[c], was, busy);
      }
    }

    // ----- values -----

    /** A default counts when its condition is not n. */
    method CheckDefault(p: Property, s: nat, ghost was: Snap, ghost busy: set<nat>) returns (t: Option<Tristate>)
      requires Working(Sys(), was, Now(), s, busy) && !defs[s].role.Choice? && p in defs[s].props && IsDefault(p)
      modifies `valid, `curr, `chosen, `visible, `revDep
      ensures Working(Sys(), was, Now(), s, busy) && Pending(Now()) <= Pending(old(Now()))
      ensures Ranked(Sys()) ==>
                && Below(Sys(), p.visible, rank[s], None) && Below(Sys(), p.expr, rank[s], None)
                && t == if ValueOfOpt(Sys(), p.visible, rank[s], None) == NO then None
                        else Some(ValueOfOpt(Sys(), p.expr, rank[s], None))
      decreases Pending(Now()), 7
    {
      assert DefWellFormed(defs, user, s);
      if Ranked(Sys()) {
        assert DefaultsBelow(Sys(), s) by { assert SymbolRanked(Sys(), s); }
      }
      var v := EvalAtWork(p.visible, s, was, busy);
      t := None;
      if v != NO {
        v := EvalAtWork(p.expr, s, was, busy);
        t := Some(v);
      }
    }

    /** sym_get_default_prop and the value of what it finds. */
    method CalcDefault(s: nat, ghost was: Snap, ghost busy: set<nat>) returns (t: Tristate)
      requires Working(Sys(), was, Now(), s, busy) && !defs[s].role.Choice?
      modifies `valid, `curr, `chosen, `visible, `revDep
      ensures Working(Sys(), was, Now(), s, busy) && Pending(Now()) <= Pending(old(Now()))
      ensures Ranked(Sys()) ==> t == DefaultValue(Sys(), s, 0)
      decreases Pending(Now()), 8
    {
      ghost var m0 := Now();
      var props := defs[s].props;
      var i := 0;
      while i < |props|
        invariant i <= |props| && Working(Sys(), was, Now(), s, busy) && Pending(Now()) <= Pending(m0)
        invariant Ranked(Sys()) ==> DefaultValue(Sys(), s, 0) == DefaultValue(Sys(), s, i)
      {
        if IsDefault(props[i]) {
          var v := CheckDefault(props[i], s, was, busy);
          if v.Some? {
            return v.value;
          }
        }
        i := i + 1;
      }
      t := NO;
    }

    /** The branches of sym_calc_value for a symbol that no choice decides. */
    method CalcOwn(s: nat, ghost was: Snap, ghost busy: set<nat>) returns (t: Tristate)
      requires Working(Sys(), was, Now(), s, busy)
      modifies `valid, `curr, `chosen, `visible, `revDep
      ensures Working(Sys(), was, Now(), s, busy) && Pending(Now()) <= Pending(old(Now()))
      ensures Ranked(Sys()) ==> MemberOk(Sys(), s) && t == OwnValue(Sys(), s)
      decreases Pending(Now()), 10
    {
      var deselected := CalcDeselectedAgain(s, was, busy);
      if Ranked(Sys()) {
        assert SymbolRanked(Sys(), s);
      }
      t := NO;
      if deselected {
        return;
      } else if Max(visible[s], revDep[s]) != NO {
        if user[s].has {
          t := user[s].tri;
        } else if !defs[s].role.Choice? {
          t := CalcDefault(s, was, busy);
        }
        t := Max(Min(t, visible[s]), revDep[s]);
      } else if !defs[s].role.Choice? {
        t := CalcDefault(s, was, busy);
      }
      t := Promote(t, defs[s].typ);
    }

    /** sym_calc_value evaluates rev_dep_inv once more. */
    method CalcDeselectedAgain(s: nat, ghost was: Snap, ghost busy: set<nat>) returns (b: bool)
      requires Working(Sys(), was, Now(), s, busy)
      modifies `valid, `curr, `chosen, `visible, `revDep
      ensures Working(Sys(), was, Now(), s, busy) && Pending(Now()) <= Pending(old(Now()))
      ensures Ranked(Sys()) ==> b == Deselected(Sys(), s)
      decreases Pending(Now()), 9
    {
      ghost var m0 := Now();
      ghost var bound := OwnBound(s);
      if Ranked(Sys()) {
        assert SymbolRanked(Sys(), s);
      }
      b := CalcDeselected(s, bound, None, busy);
      ExtendsWeaken(Sys(), m0, Now(), bound, if Ranked(Sys()) then rank[s] else 0, None);
      WorkGoesOn(Sys(), was, m0, Now(), s, busy);
    }

    /** The first step of sym_calc_value: visibility, after which the symbol counts as n until its value is known. */
    method BeginWork(s: nat, ghost was: Snap, ghost busy: set<nat>)
      requires Ok(busy) && s in busy && s < |defs| && Around(Sys(), was, Now(), 0, s)
      requires Ranked(Sys()) ==> Allowed(Sys(), busy, rank[s]) && MembersOpen(Sys(), was, busy, s)
      modifies `valid, `curr, `chosen, `visible, `revDep
      ensures Working(Sys(), was, Now(), s, busy) && Pending(Now()) <= Pending(old(Now()))
      decreases Pending(Now()), 10
    {
      ghost var m1 := Now();
      ghost var bound := OwnBound(s);
      ghost var full := if Ranked(Sys()) then rank[s] else 0;
      if Ranked(Sys()) {
        assert SymbolRanked(Sys(), s);
      }
      CalcVisibility(s, bound, None, busy);
      ghost var m2 := Now();
      ExtendsIsAround(Sys(), m1, m2, RankOf(s), Some(s), s);
      AroundTransitive(Sys(), was, m1, m2, RankOf(s), s);
      PendingShrinks(Sys(), m1, m2, RankOf(s), Some(s));
      if Ranked(Sys()) {
        MembersStayOpen(Sys(), was, m2, rank[s], busy, s);
        PromptsMentionChoice(Sys(), m2, s);
      }
      Store(s, NO, None, was, busy);
    }

    /** The middle of sym_calc_value: the choice decides a visible choice value, everything else decides for itself. */
    method CalcLogical(s: nat, ghost was: Snap, ghost busy: set<nat>) returns (t: Tristate)
      requires Working(Sys(), was, Now(), s, busy)
      requires Ranked(Sys()) ==> Allowed(Sys(), busy - {s}, rank[s] + 1)
      modifies `valid, `curr, `chosen, `visible, `revDep
      ensures Working(Sys(), was, Now(), s, busy) && Pending(Now()) <= Pending(old(Now()))
      ensures Ranked(Sys()) ==> MemberOk(Sys(), s)
      ensures Ranked(Sys()) ==> t == ValueBeforePick(Sys(), s)
      decreases Pending(Now()), 11
    {
      if Ranked(Sys()) {
        assert SymbolRanked(Sys(), s);
      }
      assert DefWellFormed(defs, user, s);
      if defs[s].role.Member? && visible[s] == YES {
        var c := defs[s].role.choice;
        t := FromBool(chosen[c] == Some(s));
        if Ranked(Sys()) {
          VisibleHasPrompt(Sys(), s);
          assert Right(Sys(), Now(), c);
        }
      } else {
        t := CalcOwn(s, was, busy);
      }
    }

    /** SYMBOL_VALID is set before anything else, so that a symbol depending on itself does not recurse for ever. */
    method Mark(s: nat, ghost busy: set<nat>)
      requires Ok(busy) && s < |defs| && !valid[s]
      modifies `valid
      ensures Ok(busy + {s}) && Around(Sys(), old(Now()), Now(), 0, s) && Pending(Now()) < old(Pending(Now()))
      ensures Ranked(Sys()) ==> MembersOpen(Sys(), old(Now()), busy + {s}, s) && IsLogicalType(defs[s].typ)
    {
      if Ranked(Sys()) {
        assert SymbolRanked(Sys(), s);
        MembersOpenAtStart(Sys(), Now(), busy, s);
      }
      MarkValid(Sys(), Now(), busy, s);
      valid := valid[s := true];
      assert s in old(Pending(Now())) && s !in Pending(Now());
    }

    /** The end of sym_calc_value: the value is stored, and a choice that is y picks a member. */
    method FinishValue(s: nat, ghost was: Snap, ghost busy: set<nat>)
      requires Working(Sys(), was, Now(), s, busy)
      requires Ranked(Sys()) ==> Allowed(Sys(), busy - {s}, rank[s] + 1)
      modifies `valid, `curr, `chosen, `visible, `revDep
      ensures Working(Sys(), was, Now(), s, busy)
      ensures Ranked(Sys()) ==> Right(Sys(), Now(), s)
      decreases Pending(Now()), 14
    {
      var t := CalcLogical(s, was, busy);
      Store(s, t, None, was, busy);
      if defs[s].role.Choice? && t == YES {
        var pick := CalcChoice(s, was, busy);
        Store(s, curr[s], pick, was, busy);
      }
      if Ranked(Sys()) {
        RightResult(Sys(), was, Now(), s, busy);
      }
    }

    /** sym_calc_value for a symbol that is not valid yet. */
    method CalcMarked(s: nat, ghost was: Snap, ghost busy: set<nat>)
      requires Ok(busy) && s in busy && s < |defs| && Around(Sys(), was, Now(), 0, s)
      requires Ranked(Sys()) ==>
                 && Allowed(Sys(), busy, rank[s]) && Allowed(Sys(), busy - {s}, rank[s] + 1)
                 && MembersOpen(Sys(), was, busy, s) && IsLogicalType(defs[s].typ)
      modifies `valid, `curr, `chosen, `visible, `revDep
      ensures Ok(busy) && (Ranked(Sys()) ==> Right(Sys(), Now(), s))
      ensures Around(Sys(), was, Now(), RankOf(s), s)
      decreases Pending(Now()), 15
    {
      if IsLogicalType(defs[s].typ) {
        BeginWork(s, was, busy);
        FinishValue(s, was, busy);
      } else {
        curr := curr[s := NO];
      }
    }

    /** sym_calc_value. */
    method CalcValue(s: nat, ghost busy: set<nat>)
      requires Ok(busy) && s < |defs|
      requires Ranked(Sys()) ==> valid[s] || Allowed(Sys(), busy, rank[s] + 1)
      modifies `valid, `curr, `chosen, `visible, `revDep
      ensures Ok(busy) && valid[s]
      ensures old(valid[s]) ==> Now() == old(Now())
      ensures Extends(Sys(), old(Now()), Now(), if Ranked(Sys()) then rank[s] + 1 else 0, None)
      decreases Pending(Now()), 0
    {
      ghost var was := Now();
      if valid[s] {
        return;
      }
      Mark(s, busy);
      CalcMarked(s, was, busy + {s});
      WorkDone(Sys(), was, Now(), s, busy);
    }

    // ----- clearing and setting -----

    /** The state between user actions: values may be out of date, but no choice value counts as selected. */
    ghost predicate Rested()
      reads this
    {
      && Shaped(defs, user, Now()) && WellFormed(defs, user) && MembersUnselected(defs, revDep)
      && (modules.Some? ==> modules.value < |defs|)
    }

    /** sym_clear_all_valid. */
    method ClearAllValid()
      requires Rested()
      modifies `valid, `curr, `chosen, `visible, `revDep
      ensures Ok({}) && Rested()
      ensures if modules.Some? then valid[modules.value] else forall s | 0 <= s < |defs| :: !valid[s]
    {
      var s := 0;
      while s < |valid|
        invariant s <= |valid| == old(|valid|)
        invariant forall x | 0 <= x < s :: !valid[x]
        invariant curr == old(curr) && chosen == old(chosen) && visible == old(visible) && revDep == old(revDep)
      {
        valid := valid[s := false];
        s := s + 1;
      }
      if modules.Some? {
        CalcValue(modules.value, {});
      }
    }

    /** What every full pass over the symbols does: clear, then calculate, in whatever order. */
    method Recalculate(order: seq<nat>)
      requires Rested() && forall s | s in order :: s < |defs|
      modifies `valid, `curr, `chosen, `visible, `revDep
      ensures Ok({}) && Rested()
      ensures Ranked(Sys()) ==> forall s | s in order :: curr[s] == Value(Sys(), s)
    {
      ClearAllValid();
      var i := 0;
      while i < |order|
        invariant i <= |order| && Ok({}) && Rested()
        invariant forall k | 0 <= k < i :: order[k] < |valid| && valid[order[k]]
      {
        assert order[i] in order;
        CalcValue(order[i], {});
        i := i + 1;
      }
      forall s | Ranked(Sys()) && s in order ensures curr[s] == Value(Sys(), s) {
        var k :| 0 <= k < |order| && order[k] == s;
        assert Right(Sys(), Now(), s);
      }
    }

    /** The part of sym_set_tristate_value that makes a choice value the pick of its choice. */
    method MakePick(s: nat)
      requires s < |defs| == |user| == |visible| && defs[s].role.Member? && defs[s].role.choice < |defs|
      modifies `user
      ensures |user| == |defs|
      ensures var c := defs[s].role.choice;
              forall i | 0 <= i < |defs| ::
                user[i] == User(old(user[i].has) || i == c ||
                                  (defs[c].role.Choice? && i in defs[c].role.members && visible[i] != NO),
                                old(user[i].tri), if i == c then Some(s) else old(user[i].sel))
    {
      var c := defs[s].role.choice;
      user := user[c := user[c].(sel := Some(s), has := true)];
      if defs[c].role.Choice? {
        var members := defs[c].role.members;
        var k := 0;
        while k < |members|
          invariant k <= |members| && |user| == |defs|
          invariant forall i | 0 <= i < |defs| ::
                      user[i] == User(old(user[i].has) || i == c || (i in members[..k] && visible[i] != NO),
                                      old(user[i].tri), if i == c then Some(s) else old(user[i].sel))
        {
          if members[k] < |defs| && visible[members[k]] != NO {
            user := user[members[k] := user[members[k]].(has := true)];
          }
          assert members[..k + 1] == members[..k] + [members[k]];
          k := k + 1;
        }
        assert members[..|members|] == members;
      }
    }

    /** sym_set_tristate_value. */
    method SetTristate(s: nat, v: Tristate) returns (ok: bool)
      requires Ok({}) && Rested() && s < |defs| && valid[s]
      modifies this
      ensures Rested() && |visible| == |revDep| == |user| == |defs|
      ensures ok <==> old(curr[s]) == v || InRange(defs[s], old(visible[s]), old(revDep[s]), v)
      ensures !ok ==> user == old(user) && Now() == old(Now()) && Ok({})
      ensures ok ==> Sets(old(Sys()), Sys(), old(visible), s, v)
      ensures ok && old(curr[s]) != v ==> Ok({})
      ensures ok && old(Ranked(Sys())) ==> Ranked(Sys())
      ensures ok && old(Ranked(Sys()) && TakesEffect(Sys(), s, v)) ==> Value(Sys(), s) == v
      ensures ok && old(Ranked(Sys()) && !TakesEffect(Sys(), s, v)) ==>
                Value(Sys(), s) != v || (defs[s].role.Member? && !NoDefaults(defs[s]))
    {
      ghost var m0, sys0 := Now(), Sys();
      var oldval := curr[s];
      ok := false;
      if oldval != v && !InRange(defs[s], visible[s], revDep[s], v) {
        return;
      }
      assert DefWellFormed(defs, user, s);
      assert Ranked(sys0) ==> Right(sys0, m0, s);
      user := user[s := user[s].(has := true)];
      if defs[s].role.Member? && v == YES {
        MakePick(s);
      }
      user := user[s := user[s].(tri := v)];
      assert user == Settings(defs, sys0.user, m0.visible, s, v);
      SetStaysWellFormed(defs, sys0.user, m0.visible, s, v);
      if Ranked(sys0) {
        SetAccepted(sys0, Sys(), m0, s, v);
      }
      if oldval != v {
        ClearAllValid();
      }
      ok := true;
    }
  }
}
