/** What the definition of symbol values promises (symbol.c). */
module SymbolFacts {
  import opened Tristates
  import opened Exprs
  import opened Symbols
  import opened SymbolMemo
  import opened Transforms
  import opened DupsNormalForm

  // ----- calculated values form an environment -----

  lemma BooleansAreTwoValued(sys: Sys, s: nat)
    requires Ranked(sys) && s < |sys.defs| && sys.defs[s].typ == BooleanType
    ensures Value(sys, s) != MOD
  {
    assert SymbolRanked(sys, s);
  }

  /** The environment in which dependency expressions are evaluated once all symbols are calculated. */
  ghost function EnvOf(sys: Sys): Env
    requires Ranked(sys)
  {
    Env((s: Symbol) =>
          if s.Config? && s.id < |sys.defs| && sys.defs[s.id].typ == s.typ && Ranked(sys) then Value(sys, s.id) else NO,
        sys.str)
  }

  lemma EnvIsTwoValued(sys: Sys)
    requires Ranked(sys)
    ensures TwoValued(EnvOf(sys))
  {
    forall s: Symbol | s.Config? && s.typ == BooleanType ensures EnvOf(sys).tri(s) != MOD {
      if s.id < |sys.defs| && sys.defs[s.id].typ == s.typ {
        BooleansAreTwoValued(sys, s.id);
      }
    }
  }

  lemma SymbolIsEval(sys: Sys, s: Symbol, e: Expr, bound: nat)
    requires Ranked(sys) && Below(sys, Some(e), bound, None) && SymbolIds(s) <= Ids(e) && SymbolKnown(sys.defs, s)
    ensures Below(sys, Some(Sym(s)), bound, None)
    ensures TriAt(sys, s, bound, None) == TriOf(EnvOf(sys), s) && StrAt(sys, s, bound, None) == StrOf(EnvOf(sys), s)
  {
    assert OptIds(Some(Sym(s))) == SymbolIds(s);
    assert s.Config? && s.IsLogical() ==> s.id in Ids(e);
  }

  /** Values worked out symbol by symbol are plain evaluation in that environment. */
  lemma {:induction false} ValueOfIsEval(sys: Sys, e: Expr, bound: nat)
    requires Ranked(sys) && Below(sys, Some(e), bound, None)
    ensures ValueOf(sys, e, bound, None) == Eval(e, EnvOf(sys))
  {
    match e
    case Sym(s) => SymbolIsEval(sys, s, e, bound);
    case Not(x) =>
      assert OptIds(Some(x)) == OptIds(Some(e));
      ValueOfIsEval(sys, x, bound);
    case Bin(_, l, r) =>
      BelowOperands(sys, e, bound, None);
      ValueOfIsEval(sys, l, bound);
      ValueOfIsEval(sys, r, bound);
    case Eq(a, b) =>
      SymbolIsEval(sys, a, e, bound);
      SymbolIsEval(sys, b, e, bound);
    case Ne(a, b) =>
      SymbolIsEval(sys, a, e, bound);
      SymbolIsEval(sys, b, e, bound);
  }

  function Prompts(props: seq<Property>): seq<Option<Expr>> {
    if props == [] then []
    else Prompts(props[..|props| - 1]) + if IsPrompt(props[|props| - 1]) then [props[|props| - 1].visible] else []
  }

  lemma {:induction false} HighestPromptAppend(prompts: seq<Option<Expr>>, p: Option<Expr>, env: Env)
    ensures HighestPrompt(prompts + [p], env) == Max(HighestPrompt(prompts, env), EvalOpt(p, env))
  {
    if prompts == [] {
      assert prompts + [p] == [p];
    } else {
      assert (prompts + [p])[1..] == prompts[1..] + [p];
      HighestPromptAppend(prompts[1..], p, env);
    }
  }

  lemma {:induction false} HighestPromptIsEval(sys: Sys, props: seq<Property>, bound: nat)
    requires Ranked(sys) && forall p | p in props && IsPrompt(p) :: Below(sys, p.visible, bound, None)
    ensures HighestPromptOf(sys, props, bound, None) == HighestPrompt(Prompts(props), EnvOf(sys))
    decreases |props|
  {
    if props != [] {
      var first, p := props[..|props| - 1], props[|props| - 1];
      HighestPromptIsEval(sys, first, bound);
      if IsPrompt(p) {
        assert Prompts(props) == Prompts(first) + [p.visible];
        HighestPromptAppend(Prompts(first), p.visible, EnvOf(sys));
        assert Below(sys, p.visible, bound, None);
        if p.visible.Some? {
          ValueOfIsEval(sys, p.visible.value, bound);
        }
      } else {
        assert Prompts(props) == Prompts(first);
      }
    }
  }

  /** The visibility of a symbol is the level of its prompts in that environment, unless it is deselected. */
  lemma VisibleIsPromptLevel(sys: Sys, s: nat)
    requires Ranked(sys) && s < |sys.defs|
    ensures Visible(sys, s) ==
            if Deselected(sys, s) then NO else PromptLevel(Prompts(sys.defs[s].props), sys.defs[s].typ, EnvOf(sys))
  {
    assert SymbolRanked(sys, s);
    HighestPromptIsEval(sys, sys.defs[s].props, VisibilityBound(sys, s));
  }

  predicate PromptsNnf(props: seq<Property>) {
    forall p | p in props && IsPrompt(p) :: OptNnf(p.visible)
  }

  lemma {:induction false} PromptsAreNnf(props: seq<Property>)
    requires PromptsNnf(props)
    ensures forall p | p in Prompts(props) :: OptNnf(p)
  {
    if props != [] {
      PromptsAreNnf(props[..|props| - 1]);
    }
  }

  /** The bool rewrite of all prompts of a symbol that is not tristate leaves its calculated visibility as it is. */
  lemma TransBoolKeepsVisible(sys: Sys, s: nat)
    requires Ranked(sys) && s < |sys.defs| && sys.defs[s].typ != TristateType && PromptsNnf(sys.defs[s].props)
    ensures Visible(sys, s) ==
            if Deselected(sys, s) then NO
            else PromptLevel(RewriteAll(Prompts(sys.defs[s].props)), sys.defs[s].typ, EnvOf(sys))
  {
    VisibleIsPromptLevel(sys, s);
    PromptsAreNnf(sys.defs[s].props);
    TransBoolKeepsVisibility(Prompts(sys.defs[s].props), sys.defs[s].typ, EnvOf(sys));
  }

  // ----- choices -----

  /** When a choice value is y: it is the pick of its choice, or it is out of reach of the choice and defaults to y. */
  lemma MemberIsYes(sys: Sys, c: nat, m: nat)
    requires Ranked(sys) && m < |sys.defs| && sys.defs[m].role == Member(c)
    ensures MemberOk(sys, m)
    ensures Value(sys, m) == YES <==>
            if Visible(sys, m) == YES then Chosen(sys, c) == Some(m)
            else Visible(sys, m) == NO && !Deselected(sys, m) &&
                 Promote(DefaultValue(sys, m, 0), sys.defs[m].typ) == YES
  {
    assert SymbolRanked(sys, m);
    var vis := Visible(sys, m);
    assert vis == VisibleAt(sys, m, VisibilityBound(sys, m), None);
    assert sys.defs[m].typ == BooleanType ==> vis != MOD;
    assert Selected(sys, m) == NO;
    if vis == MOD {
      assert !Deselected(sys, m);
      var base := if sys.user[m].has then sys.user[m].tri else DefaultValue(sys, m, 0);
      assert OwnValue(sys, m) == Promote(Max(Min(base, vis), NO), sys.defs[m].typ);
    }
  }

  lemma {:induction false} NoDefaultsMeansNo(sys: Sys, s: nat, i: nat)
    requires Ranked(sys) && s < |sys.defs| && i <= |sys.defs[s].props| && !sys.defs[s].role.Choice?
    requires forall p | p in sys.defs[s].props :: !IsDefault(p)
    ensures DefaultValue(sys, s, i) == NO
    decreases |sys.defs[s].props| - i
  {
    if i < |sys.defs[s].props| {
      NoDefaultsMeansNo(sys, s, i + 1);
    }
  }

  predicate NoDefaults(d: SymDef) {
    forall p | p in d.props :: !IsDefault(p)
  }

  /** Whatever the user has set, two different values of one choice are never both y. */
  lemma AtMostOneMember(sys: Sys, c: nat, m: nat, m': nat)
    requires Ranked(sys) && m < |sys.defs| && m' < |sys.defs|
    requires sys.defs[m].role == Member(c) && sys.defs[m'].role == Member(c)
    requires NoDefaults(sys.defs[m]) && NoDefaults(sys.defs[m'])
    requires Value(sys, m) == YES && Value(sys, m') == YES
    ensures m == m'
  {
    MemberIsYes(sys, c, m);
    MemberIsYes(sys, c, m');
    NoDefaultsMeansNo(sys, m, 0);
    NoDefaultsMeansNo(sys, m', 0);
  }

  /**
   * An optional choice the user has set to n, and two values with a prompt inside it. Each value has a second
   * definition outside the choice that gives it the default y.
   */
  ghost function TwoDefaults(): Sys {
    var prompt := Property(PromptProp, true, None, None);
    var within := Property(PromptProp, true, Some(Sym(Config(0, BooleanType))), None);
    var toYes := Property(DefaultProp, false, None, Some(Sym(YesSym)));
    var value := SymDef(BooleanType, Member(0), [within, toYes], None, None);
    Sys([SymDef(BooleanType, Choice([1, 2]), [prompt], None, None), value, value],
      [User(true, NO, None), User(false, NO, None), User(false, NO, None)], (s: Symbol) => "", [0, 1, 1])
  }

  lemma ValueRanked(sys: Sys, s: nat)
    requires sys == TwoDefaults() && (s == 1 || s == 2)
    ensures SymbolRanked(sys, s)
  {
    var within := sys.defs[s].props[0].visible;
    assert OptIds(within) == {0};
    assert Below(sys, within, sys.rank[0] + 1, None);
    assert VisibilityBelow(sys, s, VisibilityBound(sys, s), None);
  }

  lemma ChoiceRanked(sys: Sys)
    requires sys == TwoDefaults()
    ensures SymbolRanked(sys, 0)
  {
    var within := sys.defs[1].props[0].visible;
    assert OptIds(within) == {0};
    assert Below(sys, within, sys.rank[0], Some(0));
    assert VisibilityBelow(sys, 1, sys.rank[0], Some(0)) && VisibilityBelow(sys, 2, sys.rank[0], Some(0));
  }

  lemma TwoDefaultsRanked(sys: Sys)
    requires sys == TwoDefaults()
    ensures Ranked(sys)
  {
    ChoiceRanked(sys);
    ValueRanked(sys, 1);
    ValueRanked(sys, 2);
  }

  lemma ChoiceIsNo(sys: Sys)
    requires sys == TwoDefaults() && Ranked(sys)
    ensures Value(sys, 0) == NO
  {
    assert SymbolRanked(sys, 0);
    assert Selected(sys, 0) == NO;
    assert OwnValue(sys, 0) == NO;
  }

  lemma DefaultIsYes(sys: Sys, s: nat)
    requires sys == TwoDefaults() && Ranked(sys) && (s == 1 || s == 2)
    ensures DefaultValue(sys, s, 0) == YES && !Deselected(sys, s)
  {
    assert SymbolRanked(sys, s);
    var p := sys.defs[s].props[1];
    assert p in sys.defs[s].props;
    assert Below(sys, p.expr, sys.rank[s], None);
    assert TriAt(sys, YesSym, sys.rank[s], None) == YES;
    assert ValueOfOpt(sys, p.expr, sys.rank[s], None) == ValueOf(sys, Sym(YesSym), sys.rank[s], None) == YES;
    assert DefaultValue(sys, s, 1) == YES;
  }

  lemma DefaultsToYes(sys: Sys, s: nat)
    requires sys == TwoDefaults() && Ranked(sys) && (s == 1 || s == 2) && Value(sys, 0) == NO
    ensures Value(sys, s) == YES
  {
    assert SymbolRanked(sys, s);
    var props, bound := sys.defs[s].props, VisibilityBound(sys, s);
    assert props[..2] == props && props[..1] == [props[0]] && props[..1][..0] == [];
    assert ValueOfOpt(sys, props[0].visible, bound, None) == ValueOf(sys, props[0].visible.value, bound, None) == NO;
    assert HighestPromptOf(sys, props[..1], bound, None) == NO;
    assert HighestPromptOf(sys, props, bound, None) == NO;
    assert Visible(sys, s) == VisibleAt(sys, s, bound, None) == NO;
    DefaultIsYes(sys, s);
    MemberIsYes(sys, 0, s);
  }

  /** With such defaults the promise of a choice fails: the choice is n, and both values are y. */
  lemma DefaultsBreakChoice()
    ensures var sys := TwoDefaults();
            Ranked(sys) && Value(sys, 0) == NO && Value(sys, 1) == YES && Value(sys, 2) == YES
  {
    var sys := TwoDefaults();
    TwoDefaultsRanked(sys);
    ChoiceIsNo(sys);
    DefaultsToYes(sys, 1);
    DefaultsToYes(sys, 2);
  }

  /** A choice that is y has picked; a fully visible pick is y and every other fully visible value is n. */
  lemma PickDecides(sys: Sys, c: nat, m: nat)
    requires Ranked(sys) && c < |sys.defs| && sys.defs[c].role.Choice? && m in sys.defs[c].role.members
    requires Value(sys, c) == YES
    ensures Chosen(sys, c).Some? && Chosen(sys, c).value in sys.defs[c].role.members
    ensures m < |sys.defs|
    ensures Visible(sys, m) == YES ==> Value(sys, m) == if Chosen(sys, c) == Some(m) then YES else NO
  {
    assert ChoiceOk(sys, c) by { assert SymbolRanked(sys, c); }
    assert MemberOk(sys, m) by { assert SymbolRanked(sys, m); }
    PickIsMember(sys, c);
  }

  lemma {:induction false} PickDefaultIsMember(sys: Sys, c: nat, i: nat)
    requires Ranked(sys) && c < |sys.defs| && sys.defs[c].role.Choice? && i <= |sys.defs[c].props|
    requires PickDefault(sys, c, i).Some?
    ensures PickDefault(sys, c, i).value in sys.defs[c].role.members
    ensures Pickable(sys, c, PickDefault(sys, c, i).value)
    decreases |sys.defs[c].props| - i
  {
    assert ChoiceOk(sys, c) && DefaultsBelow(sys, c) by { assert SymbolRanked(sys, c); }
    var props := sys.defs[c].props;
    if IsDefault(props[i]) && ValueOfOpt(sys, props[i].visible, sys.rank[c], None) != NO &&
       Pickable(sys, c, DefaultPick(props[i]).value) {
    } else {
      PickDefaultIsMember(sys, c, i + 1);
    }
  }

  lemma {:induction false} PickFirstIsMember(sys: Sys, c: nat, i: nat)
    requires Ranked(sys) && c < |sys.defs| && sys.defs[c].role.Choice? && i <= |sys.defs[c].role.members|
    ensures match PickFirst(sys, c, i)
            case Some(m) => m in sys.defs[c].role.members && Pickable(sys, c, m)
            case None =>
              forall j | i <= j < |sys.defs[c].role.members| :: !Pickable(sys, c, sys.defs[c].role.members[j])
    decreases |sys.defs[c].role.members| - i
  {
    var members := sys.defs[c].role.members;
    if i < |members| && !Pickable(sys, c, members[i]) {
      PickFirstIsMember(sys, c, i + 1);
    }
  }

  /** The pick is a visible member; there is none exactly when no member is visible. */
  lemma PickIsMember(sys: Sys, c: nat)
    requires Ranked(sys) && c < |sys.defs| && sys.defs[c].role.Choice?
    ensures match Pick(sys, c)
            case Some(m) => m in sys.defs[c].role.members && Pickable(sys, c, m)
            case None => forall m | m in sys.defs[c].role.members :: !Pickable(sys, c, m)
  {
    assert ChoiceOk(sys, c) by { assert SymbolRanked(sys, c); }
    var sel, members := sys.user[c].sel, sys.defs[c].role.members;
    if sel.Some? && Pickable(sys, c, sel.value) {
    } else if PickDefault(sys, c, 0).Some? {
      PickDefaultIsMember(sys, c, 0);
    } else {
      PickFirstIsMember(sys, c, 0);
      forall m | m in members && PickFirst(sys, c, 0).None? ensures !Pickable(sys, c, m) {
        var j :| 0 <= j < |members| && members[j] == m;
      }
    }
  }
}
