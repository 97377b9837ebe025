/** The value of every symbol and the pick of every choice, rule by rule (symbol.c). */
module SymbolRules {
  import opened Tristates
  import opened Exprs
  import opened Symbols
  import opened SymbolMemo
  import opened SymbolFacts
  import opened DupsNormalForm

  // ----- conditions as they are seen with one symbol counting as y -----

  /** The calculated environment, with the overridden symbol at y. */
  ghost function SeenEnv(sys: Sys, over: Option<nat>): Env
    requires Ranked(sys)
  {
    var env := EnvOf(sys);
    if over.None? then env
    else Env((s: Symbol) => if s.Config? && over == Some(s.id) then YES else env.tri(s), env.str)
  }

  lemma SymbolSeen(sys: Sys, s: Symbol, e: Expr, bound: nat, over: Option<nat>)
    requires Ranked(sys) && Below(sys, Some(e), bound, over) && SymbolIds(s) <= Ids(e) && SymbolKnown(sys.defs, s)
    ensures Below(sys, Some(Sym(s)), bound, over)
    ensures TriAt(sys, s, bound, over) == TriOf(SeenEnv(sys, over), s)
    ensures StrAt(sys, s, bound, over) == StrOf(SeenEnv(sys, over), s)
  {
    assert OptIds(Some(Sym(s))) == SymbolIds(s);
    assert s.Config? && s.IsLogical() ==> s.id in Ids(e);
  }

  lemma {:induction false} ConditionSeen(sys: Sys, e: Expr, bound: nat, over: Option<nat>)
    requires Ranked(sys) && Below(sys, Some(e), bound, over)
    ensures ValueOf(sys, e, bound, over) == Eval(e, SeenEnv(sys, over))
  {
    match e
    case Sym(s) => SymbolSeen(sys, s, e, bound, over);
    case Not(x) =>
      assert OptIds(Some(x)) == OptIds(Some(e));
      ConditionSeen(sys, x, bound, over);
    case Bin(_, l, r) =>
      BelowOperands(sys, e, bound, over);
      ConditionSeen(sys, l, bound, over);
      ConditionSeen(sys, r, bound, over);
    case Eq(a, b) =>
      SymbolSeen(sys, a, e, bound, over);
      SymbolSeen(sys, b, e, bound, over);
    case Ne(a, b) =>
      SymbolSeen(sys, a, e, bound, over);
      SymbolSeen(sys, b, e, bound, over);
  }

  lemma OptionalSeen(sys: Sys, e: Option<Expr>, bound: nat, over: Option<nat>)
    requires Ranked(sys) && Below(sys, e, bound, over)
    ensures ValueOfOpt(sys, e, bound, over) == EvalOpt(e, SeenEnv(sys, over))
  {
    if e.Some? {
      ConditionSeen(sys, e.value, bound, over);
    }
  }

  // ----- visibility -----

  /** Some prompt has this level. */
  ghost predicate PromptAt(d: SymDef, env: Env, t: Tristate) {
    exists p :: p in d.props && IsPrompt(p) && EvalOpt(p.visible, env) == t
  }

  ghost predicate DeselectedIn(d: SymDef, env: Env) {
    d.revDepInv.Some? && Eval(d.revDepInv.value, env) == YES
  }

  /** The highest level of the prompts; m counts as y unless the symbol is tristate, and deselection hides all. */
  ghost predicate IsVisibility(d: SymDef, env: Env, t: Tristate) {
    if DeselectedIn(d, env) then t == NO
    else if PromptAt(d, env, YES) then t == YES
    else if PromptAt(d, env, MOD) then t == if d.typ == TristateType then MOD else YES
    else t == NO
  }

  lemma {:induction false} HighestIsAttained(sys: Sys, props: seq<Property>, bound: nat, over: Option<nat>)
    requires Ranked(sys) && forall p | p in props && IsPrompt(p) :: Below(sys, p.visible, bound, over)
    ensures var t, env := HighestPromptOf(sys, props, bound, over), SeenEnv(sys, over);
      && (forall p | p in props && IsPrompt(p) :: EvalOpt(p.visible, env) <= t)
      && (t != NO ==> exists p :: p in props && IsPrompt(p) && EvalOpt(p.visible, env) == t)
    decreases |props|
  {
    if props != [] {
      var n, env := |props| - 1, SeenEnv(sys, over);
      var first, last := props[..n], props[n];
      assert props == first + [last];
      HighestIsAttained(sys, first, bound, over);
      if IsPrompt(last) {
        OptionalSeen(sys, last.visible, bound, over);
      }
      var t := HighestPromptOf(sys, props, bound, over);
      if t != NO {
        if t == HighestPromptOf(sys, first, bound, over) {
          var p :| p in first && IsPrompt(p) && EvalOpt(p.visible, env) == t;
          assert p in props;
        } else {
          assert last in props;
        }
      }
    }
  }

  lemma VisibilitySeen(sys: Sys, s: nat, bound: nat, over: Option<nat>)
    requires Ranked(sys) && s < |sys.defs| && VisibilityBelow(sys, s, bound, over)
    ensures IsVisibility(sys.defs[s], SeenEnv(sys, over), VisibleAt(sys, s, bound, over))
    ensures DeselectedAt(sys, s, bound, over) <==> DeselectedIn(sys.defs[s], SeenEnv(sys, over))
  {
    var d, env := sys.defs[s], SeenEnv(sys, over);
    HighestIsAttained(sys, d.props, bound, over);
    OptionalSeen(sys, d.revDepInv, bound, over);
    var t := HighestPromptOf(sys, d.props, bound, over);
    if t != NO {
      assert PromptAt(d, env, t);
    }
    if PromptAt(d, env, YES) {
      assert t == YES;
    } else if PromptAt(d, env, MOD) {
      assert t == MOD;
    }
  }

  // ----- defaults -----

  /** A default whose condition is not n. */
  ghost predicate Applies(sys: Sys, p: Property)
    requires Ranked(sys)
  {
    IsDefault(p) && EvalOpt(p.visible, EnvOf(sys)) != NO
  }

  /** Property k is the first default of the symbol that applies. */
  ghost predicate IsFirstDefault(sys: Sys, s: nat, k: nat)
    requires Ranked(sys) && s < |sys.defs|
  {
    var props := sys.defs[s].props;
    k < |props| && Applies(sys, props[k]) && forall j | 0 <= j < k :: !Applies(sys, props[j])
  }

  ghost predicate NoDefaultApplies(sys: Sys, s: nat)
    requires Ranked(sys) && s < |sys.defs|
  {
    forall p | p in sys.defs[s].props :: !Applies(sys, p)
  }

  lemma OneFirstDefault(sys: Sys, s: nat, k: nat, k': nat)
    requires Ranked(sys) && s < |sys.defs| && IsFirstDefault(sys, s, k) && IsFirstDefault(sys, s, k')
    ensures k == k'
  {}

  lemma {:induction false} DefaultSeen(sys: Sys, s: nat, i: nat)
    requires Ranked(sys) && s < |sys.defs| && i <= |sys.defs[s].props| && !sys.defs[s].role.Choice?
    requires forall j | 0 <= j < i :: !Applies(sys, sys.defs[s].props[j])
    ensures forall k: nat | IsFirstDefault(sys, s, k) ::
              DefaultValue(sys, s, i) == EvalOpt(sys.defs[s].props[k].expr, EnvOf(sys))
    ensures NoDefaultApplies(sys, s) ==> DefaultValue(sys, s, i) == NO
    decreases |sys.defs[s].props| - i
  {
    var props := sys.defs[s].props;
    if i < |props| {
      var p := props[i];
      if IsDefault(p) {
        assert DefaultsBelow(sys, s) by { assert SymbolRanked(sys, s); }
        OptionalSeen(sys, p.visible, sys.rank[s], None);
        OptionalSeen(sys, p.expr, sys.rank[s], None);
      }
      if !Applies(sys, p) {
        DefaultSeen(sys, s, i + 1);
      } else {
        forall k: nat | IsFirstDefault(sys, s, k) ensures k == i {
          OneFirstDefault(sys, s, k, i);
        }
      }
    }
  }

  // ----- the value of a symbol that no choice decides -----

  /** The level a symbol is selected to: choice values are never selected. */
  ghost function Selection(d: SymDef, env: Env): Tristate {
    if d.role.Member? || d.revDep.None? then NO else Promote(Eval(d.revDep.value, env), d.typ)
  }

  lemma SelectedSeen(sys: Sys, s: nat)
    requires Ranked(sys) && s < |sys.defs|
    ensures Selected(sys, s) == Selection(sys.defs[s], EnvOf(sys))
    ensures IsVisibility(sys.defs[s], EnvOf(sys), Visible(sys, s))
    ensures Deselected(sys, s) <==> DeselectedIn(sys.defs[s], EnvOf(sys))
  {
    assert SymbolRanked(sys, s);
    OptionalSeen(sys, sys.defs[s].revDep, sys.rank[s], None);
    VisibilitySeen(sys, s, VisibilityBound(sys, s), None);
  }

  /** A symbol outside choices, or a choice value that is not fully visible. */
  ghost predicate DecidesItself(sys: Sys, s: nat)
    requires Ranked(sys) && s < |sys.defs|
  {
    match sys.defs[s].role
    case Plain => true
    case Member(_) => Visible(sys, s) != YES
    case Choice(_) => false
  }

  /** `t` within the levels of the prompts and the selection; for a boolean symbol m counts as y. */
  function Bounded(t: Tristate, vis: Tristate, rev: Tristate, typ: SymbolType): Tristate {
    Promote(Max(Min(t, vis), rev), typ)
  }

  /** All rules for such a symbol. */
  ghost predicate ValueRules(sys: Sys, s: nat, v: Tristate, vis: Tristate, rev: Tristate)
    requires Ranked(sys) && s < |sys.defs|
  {
    var d, u, env := sys.defs[s], sys.user[s], EnvOf(sys);
    // deselected: n
    && (DeselectedIn(d, env) ==> v == NO)
    // within reach of the user: the user's value, else the first default, else n
    && (!DeselectedIn(d, env) && Max(vis, rev) != NO && u.has ==> v == Bounded(u.tri, vis, rev, d.typ))
    && (!DeselectedIn(d, env) && Max(vis, rev) != NO && !u.has ==>
          && (forall k: nat | IsFirstDefault(sys, s, k) :: v == Bounded(EvalOpt(d.props[k].expr, env), vis, rev, d.typ))
          && (NoDefaultApplies(sys, s) ==> v == Bounded(NO, vis, rev, d.typ)))
    // out of reach: the first default, else n, whatever the user has set
    && (!DeselectedIn(d, env) && Max(vis, rev) == NO ==>
          && (forall k: nat | IsFirstDefault(sys, s, k) :: v == Promote(EvalOpt(d.props[k].expr, env), d.typ))
          && (NoDefaultApplies(sys, s) ==> v == NO))
  }

  lemma ValueFollowsRules(sys: Sys, s: nat)
    requires Ranked(sys) && s < |sys.defs| && DecidesItself(sys, s)
    ensures var d, vis, env := sys.defs[s], Visible(sys, s), EnvOf(sys);
            IsVisibility(d, env, vis) && ValueRules(sys, s, Value(sys, s), vis, Selection(d, env))
  {
    assert SymbolRanked(sys, s);
    SelectedSeen(sys, s);
    DefaultSeen(sys, s, 0);
    assert Value(sys, s) == OwnValue(sys, s);
  }

  /** Without a user value the first default that applies decides, at the level of the prompts. */
  lemma DefaultDecides(sys: Sys, s: nat, k: nat)
    requires Ranked(sys) && s < |sys.defs| && DecidesItself(sys, s) && !sys.user[s].has
    requires IsFirstDefault(sys, s, k) && !DeselectedIn(sys.defs[s], EnvOf(sys))
    ensures var d, env := sys.defs[s], EnvOf(sys);
            var t, vis, rev := EvalOpt(d.props[k].expr, env), Visible(sys, s), Selection(d, env);
            Value(sys, s) == if vis == NO && rev == NO then Promote(t, d.typ) else Bounded(t, vis, rev, d.typ)
  {
    ValueFollowsRules(sys, s);
  }

  // ----- choices -----

  /** A value of a choice that can be picked: not deselected, and with some prompt that is not n, the choice at y. */
  ghost predicate CanPick(sys: Sys, c: nat, m: nat)
    requires Ranked(sys)
  {
    var env := SeenEnv(sys, Some(c));
    m < |sys.defs| && !DeselectedIn(sys.defs[m], env) && ShowsPrompt(sys.defs[m], env)
  }

  ghost predicate ShowsPrompt(d: SymDef, env: Env) {
    exists p :: p in d.props && IsPrompt(p) && EvalOpt(p.visible, env) != NO
  }

  lemma SomePrompt(d: SymDef, env: Env)
    ensures ShowsPrompt(d, env) <==> PromptAt(d, env, YES) || PromptAt(d, env, MOD)
  {
    if ShowsPrompt(d, env) {
      var p :| p in d.props && IsPrompt(p) && EvalOpt(p.visible, env) != NO;
      assert PromptAt(d, env, EvalOpt(p.visible, env));
    }
  }

  lemma PickableSeen(sys: Sys, c: nat, m: nat)
    requires Ranked(sys) && c < |sys.defs| && sys.defs[c].role.Choice? && m in sys.defs[c].role.members
    ensures Pickable(sys, c, m) <==> CanPick(sys, c, m)
  {
    assert ChoiceOk(sys, c) by { assert SymbolRanked(sys, c); }
    VisibilitySeen(sys, m, sys.rank[c], Some(c));
    SomePrompt(sys.defs[m], SeenEnv(sys, Some(c)));
  }

  /** The user's pick can be picked. */
  ghost predicate UserPicks(sys: Sys, c: nat)
    requires Ranked(sys) && c < |sys.defs|
  {
    sys.user[c].sel.Some? && CanPick(sys, c, sys.user[c].sel.value)
  }

  /** Property i is a default that applies and names a value that can be picked. */
  ghost predicate DefaultPicks(sys: Sys, c: nat, i: nat)
    requires Ranked(sys) && c < |sys.defs| && i < |sys.defs[c].props|
  {
    var p := sys.defs[c].props[i];
    Applies(sys, p) && DefaultPick(p).Some? && CanPick(sys, c, DefaultPick(p).value)
  }

  ghost predicate IsFirstPicking(sys: Sys, c: nat, i: nat)
    requires Ranked(sys) && c < |sys.defs|
  {
    i < |sys.defs[c].props| && DefaultPicks(sys, c, i) && forall j: nat | j < i :: !DefaultPicks(sys, c, j)
  }

  ghost predicate NoDefaultPicks(sys: Sys, c: nat)
    requires Ranked(sys) && c < |sys.defs|
  {
    forall i: nat | i < |sys.defs[c].props| :: !DefaultPicks(sys, c, i)
  }

  /** The value at position j is the first of the choice that can be picked. */
  ghost predicate IsFirstPickable(sys: Sys, c: nat, j: nat)
    requires Ranked(sys) && c < |sys.defs| && sys.defs[c].role.Choice?
  {
    var members := sys.defs[c].role.members;
    j < |members| && CanPick(sys, c, members[j]) && forall i | 0 <= i < j :: !CanPick(sys, c, members[i])
  }

  ghost predicate NonePickable(sys: Sys, c: nat)
    requires Ranked(sys) && c < |sys.defs| && sys.defs[c].role.Choice?
  {
    forall m | m in sys.defs[c].role.members :: !CanPick(sys, c, m)
  }

  lemma {:induction false} PickDefaultSeen(sys: Sys, c: nat, i: nat)
    requires Ranked(sys) && c < |sys.defs| && sys.defs[c].role.Choice? && i <= |sys.defs[c].props|
    requires forall j: nat | j < i :: !DefaultPicks(sys, c, j)
    ensures forall k: nat | IsFirstPicking(sys, c, k) :: PickDefault(sys, c, i) == DefaultPick(sys.defs[c].props[k])
    ensures NoDefaultPicks(sys, c) <==> PickDefault(sys, c, i).None?
    decreases |sys.defs[c].props| - i
  {
    var props := sys.defs[c].props;
    if i < |props| {
      var p := props[i];
      if IsDefault(p) {
        assert DefaultsBelow(sys, c) && ChoiceOk(sys, c) by { assert SymbolRanked(sys, c); }
        OptionalSeen(sys, p.visible, sys.rank[c], None);
        PickableSeen(sys, c, DefaultPick(p).value);
      }
      if DefaultPicks(sys, c, i) {
        forall k: nat | IsFirstPicking(sys, c, k) ensures k == i {
          OneFirstPicking(sys, c, k, i);
        }
      } else {
        PickDefaultSeen(sys, c, i + 1);
      }
    }
  }

  lemma OneFirstPicking(sys: Sys, c: nat, k: nat, k': nat)
    requires Ranked(sys) && c < |sys.defs| && IsFirstPicking(sys, c, k) && IsFirstPicking(sys, c, k')
    ensures k == k'
  {}

  lemma {:induction false} PickFirstSeen(sys: Sys, c: nat, i: nat)
    requires Ranked(sys) && c < |sys.defs| && sys.defs[c].role.Choice? && i <= |sys.defs[c].role.members|
    requires forall j | 0 <= j < i :: !CanPick(sys, c, sys.defs[c].role.members[j])
    ensures forall k: nat | IsFirstPickable(sys, c, k) ::
              PickFirst(sys, c, i) == Some(sys.defs[c].role.members[k])
    ensures NonePickable(sys, c) <==> PickFirst(sys, c, i).None?
    decreases |sys.defs[c].role.members| - i
  {
    var members := sys.defs[c].role.members;
    if i < |members| {
      PickableSeen(sys, c, members[i]);
      if CanPick(sys, c, members[i]) {
        forall k: nat | IsFirstPickable(sys, c, k) ensures k == i {
          OneFirstPickable(sys, c, k, i);
        }
      } else {
        PickFirstSeen(sys, c, i + 1);
      }
    }
  }

  lemma OneFirstPickable(sys: Sys, c: nat, k: nat, k': nat)
    requires Ranked(sys) && c < |sys.defs| && sys.defs[c].role.Choice?
    requires IsFirstPickable(sys, c, k) && IsFirstPickable(sys, c, k')
    ensures k == k'
  {}

  /** The order in which a choice looks for its pick: the user's, the first default that can be, the first value. */
  lemma PickOrder(sys: Sys, c: nat)
    requires Ranked(sys) && c < |sys.defs| && sys.defs[c].role.Choice?
    ensures UserPicks(sys, c) ==> Pick(sys, c) == sys.user[c].sel
    ensures !UserPicks(sys, c) ==>
              forall i: nat | IsFirstPicking(sys, c, i) :: Pick(sys, c) == DefaultPick(sys.defs[c].props[i])
    ensures !UserPicks(sys, c) && NoDefaultPicks(sys, c) ==>
              forall j: nat | IsFirstPickable(sys, c, j) :: Pick(sys, c) == Some(sys.defs[c].role.members[j])
    ensures NonePickable(sys, c) <==> Pick(sys, c).None?
  {
    assert ChoiceOk(sys, c) by { assert SymbolRanked(sys, c); }
    PickDefaultSeen(sys, c, 0);
    PickFirstSeen(sys, c, 0);
    if sys.user[c].sel.Some? {
      PickableSeen(sys, c, sys.user[c].sel.value);
    }
    PickIsMember(sys, c);
    forall m | m in sys.defs[c].role.members ensures Pickable(sys, c, m) <==> CanPick(sys, c, m) {
      PickableSeen(sys, c, m);
    }
  }

  /** The value of a choice: what its user value comes to, but n instead of y when no value can be picked. */
  lemma ChoiceFollowsRules(sys: Sys, c: nat)
    requires Ranked(sys) && c < |sys.defs| && sys.defs[c].role.Choice?
    ensures var d, env := sys.defs[c], EnvOf(sys);
            var u, vis := if sys.user[c].has then sys.user[c].tri else NO, Visible(sys, c);
            var own := if DeselectedIn(d, env) then NO else Bounded(u, vis, Selection(d, env), d.typ);
            IsVisibility(d, env, vis) && Value(sys, c) == if own == YES && NonePickable(sys, c) then NO else own
  {
    assert SymbolRanked(sys, c);
    SelectedSeen(sys, c);
    PickOrder(sys, c);
  }

  /** A fully visible value of a choice: y if the choice is y and picks it, and n otherwise. */
  lemma FullMemberFollowsPick(sys: Sys, c: nat, m: nat)
    requires Ranked(sys) && m < |sys.defs| && sys.defs[m].role == Member(c) && Visible(sys, m) == YES
    ensures c < |sys.defs| && sys.defs[c].role.Choice?
    ensures Value(sys, m) == if Value(sys, c) == YES && Pick(sys, c) == Some(m) then YES else NO
  {
    assert MemberOk(sys, m) by { assert SymbolRanked(sys, m); }
    assert SymbolRanked(sys, c);
  }
}
