/** Setting a symbol: whatever the program accepts comes out of the next calculation (symbol.c). */
module SymbolSet {
  import opened Tristates
  import opened Exprs
  import opened Symbols
  import opened SymbolMemo
  import opened SymbolFacts

  // ----- values depend on settings of lower rank only -----

  /** The same definitions, and the same settings for every symbol that ranks below r. */
  ghost predicate Agree(sys: Sys, sys': Sys, r: nat) {
    && Ranked(sys) && Ranked(sys')
    && sys'.defs == sys.defs && sys'.rank == sys.rank && sys'.str == sys.str
    && forall x | 0 <= x < |sys.defs| && sys.rank[x] < r :: sys'.user[x] == sys.user[x]
  }

  lemma {:induction false} SameTri(sys: Sys, sys': Sys, r: nat, s: Symbol, bound: nat, over: Option<nat>)
    requires Agree(sys, sys', r) && bound <= r && Below(sys, Some(Sym(s)), bound, over)
    ensures TriAt(sys', s, bound, over) == TriAt(sys, s, bound, over)
    ensures StrAt(sys', s, bound, over) == StrAt(sys, s, bound, over)
    decreases bound, 0, 0
  {
    if s.Config? && s.IsLogical() {
      assert s.id in Ids(Sym(s));
      if over != Some(s.id) {
        SameValue(sys, sys', r, s.id);
      }
    }
  }

  lemma {:induction false} SameOf(sys: Sys, sys': Sys, r: nat, e: Expr, bound: nat, over: Option<nat>)
    requires Agree(sys, sys', r) && bound <= r && Below(sys, Some(e), bound, over)
    ensures ValueOf(sys', e, bound, over) == ValueOf(sys, e, bound, over)
    decreases bound, 1, e
  {
    match e
    case Sym(s) => SameTri(sys, sys', r, s, bound, over);
    case Not(x) =>
      assert OptIds(Some(x)) == OptIds(Some(e));
      SameOf(sys, sys', r, x, bound, over);
    case Bin(_, x, y) =>
      BelowOperands(sys, e, bound, over);
      SameOf(sys, sys', r, x, bound, over);
      SameOf(sys, sys', r, y, bound, over);
    case Eq(a, b) => SameSides(sys, sys', r, e, a, b, bound, over);
    case Ne(a, b) => SameSides(sys, sys', r, e, a, b, bound, over);
  }

  lemma {:induction false} SameSides(sys: Sys, sys': Sys, r: nat, e: Expr, a: Symbol, b: Symbol,
                                     bound: nat, over: Option<nat>)
    requires Agree(sys, sys', r) && bound <= r && Below(sys, Some(e), bound, over) && (e == Eq(a, b) || e == Ne(a, b))
    ensures Below(sys, Some(Sym(a)), bound, over) && Below(sys, Some(Sym(b)), bound, over)
    ensures StrAt(sys', a, bound, over) == StrAt(sys, a, bound, over)
    ensures StrAt(sys', b, bound, over) == StrAt(sys, b, bound, over)
    decreases bound, 0, 1
  {
    assert OptIds(Some(Sym(a))) == SymbolIds(a) && OptIds(Some(Sym(b))) == SymbolIds(b);
    assert OptIds(Some(e)) == SymbolIds(a) + SymbolIds(b);
    SameTri(sys, sys', r, a, bound, over);
    SameTri(sys, sys', r, b, bound, over);
  }

  lemma {:induction false} SameOpt(sys: Sys, sys': Sys, r: nat, e: Option<Expr>, bound: nat, over: Option<nat>)
    requires Agree(sys, sys', r) && bound <= r && Below(sys, e, bound, over)
    ensures ValueOfOpt(sys', e, bound, over) == ValueOfOpt(sys, e, bound, over)
    decreases bound, 2
  {
    if e.Some? {
      SameOf(sys, sys', r, e.value, bound, over);
    }
  }

  lemma {:induction false} SamePrompts(sys: Sys, sys': Sys, r: nat, props: seq<Property>, bound: nat, over: Option<nat>)
    requires Agree(sys, sys', r) && bound <= r
    requires forall p | p in props && IsPrompt(p) :: Below(sys, p.visible, bound, over)
    ensures forall p | p in props && IsPrompt(p) :: Below(sys', p.visible, bound, over)
    ensures HighestPromptOf(sys', props, bound, over) == HighestPromptOf(sys, props, bound, over)
    decreases bound, 3, |props|
  {
    if props != [] {
      var n := |props| - 1;
      SamePrompts(sys, sys', r, props[..n], bound, over);
      if IsPrompt(props[n]) {
        SameOpt(sys, sys', r, props[n].visible, bound, over);
      }
    }
  }

  lemma {:induction false} SameVisibleAt(sys: Sys, sys': Sys, r: nat, s: nat, bound: nat, over: Option<nat>)
    requires Agree(sys, sys', r) && bound <= r && s < |sys.defs| && VisibilityBelow(sys, s, bound, over)
    ensures VisibleAt(sys', s, bound, over) == VisibleAt(sys, s, bound, over)
    ensures DeselectedAt(sys', s, bound, over) == DeselectedAt(sys, s, bound, over)
    decreases bound, 4
  {
    SamePrompts(sys, sys', r, sys.defs[s].props, bound, over);
    SameOpt(sys, sys', r, sys.defs[s].revDepInv, bound, over);
  }

  lemma {:induction false} SameVisible(sys: Sys, sys': Sys, r: nat, s: nat)
    requires Agree(sys, sys', r) && s < |sys.defs| && VisibilityBound(sys, s) <= r
    ensures Visible(sys', s) == Visible(sys, s) && Deselected(sys', s) == Deselected(sys, s)
    decreases VisibilityBound(sys, s), 5
  {
    assert SymbolRanked(sys, s);
    SameVisibleAt(sys, sys', r, s, VisibilityBound(sys, s), None);
  }

  lemma {:induction false} SameSelected(sys: Sys, sys': Sys, r: nat, s: nat)
    requires Agree(sys, sys', r) && s < |sys.defs| && sys.rank[s] <= r
    ensures Selected(sys', s) == Selected(sys, s)
    decreases sys.rank[s], 5
  {
    assert SymbolRanked(sys, s);
    SameOpt(sys, sys', r, sys.defs[s].revDep, sys.rank[s], None);
  }

  lemma {:induction false} SameDefault(sys: Sys, sys': Sys, r: nat, s: nat, i: nat)
    requires Agree(sys, sys', r) && s < |sys.defs| && sys.rank[s] <= r
    requires i <= |sys.defs[s].props| && !sys.defs[s].role.Choice?
    ensures DefaultValue(sys', s, i) == DefaultValue(sys, s, i)
    decreases sys.rank[s], 5, |sys.defs[s].props| - i
  {
    if i < |sys.defs[s].props| {
      SameDefault(sys, sys', r, s, i + 1);
      var p := sys.defs[s].props[i];
      if IsDefault(p) {
        assert DefaultsBelow(sys, s) by { assert SymbolRanked(sys, s); }
        SameOpt(sys, sys', r, p.visible, sys.rank[s], None);
        SameOpt(sys, sys', r, p.expr, sys.rank[s], None);
      }
    }
  }

  lemma {:induction false} SamePickable(sys: Sys, sys': Sys, r: nat, c: nat, m: nat)
    requires Agree(sys, sys', r) && c < |sys.defs| && sys.rank[c] <= r
    requires sys.defs[c].role.Choice? && m in sys.defs[c].role.members
    ensures Pickable(sys', c, m) == Pickable(sys, c, m)
    decreases sys.rank[c], 5
  {
    assert ChoiceOk(sys, c) by { assert SymbolRanked(sys, c); }
    SameVisibleAt(sys, sys', r, m, sys.rank[c], Some(c));
  }

  lemma {:induction false} SamePickDefault(sys: Sys, sys': Sys, r: nat, c: nat, i: nat)
    requires Agree(sys, sys', r) && c < |sys.defs| && sys.rank[c] <= r
    requires sys.defs[c].role.Choice? && i <= |sys.defs[c].props|
    ensures PickDefault(sys', c, i) == PickDefault(sys, c, i)
    decreases sys.rank[c], 6, |sys.defs[c].props| - i
  {
    if i < |sys.defs[c].props| {
      SamePickDefault(sys, sys', r, c, i + 1);
      var p := sys.defs[c].props[i];
      if IsDefault(p) {
        assert DefaultsBelow(sys, c) && ChoiceOk(sys, c) by { assert SymbolRanked(sys, c); }
        SameOpt(sys, sys', r, p.visible, sys.rank[c], None);
        SamePickable(sys, sys', r, c, DefaultPick(p).value);
      }
    }
  }

  lemma {:induction false} SamePickFirst(sys: Sys, sys': Sys, r: nat, c: nat, i: nat)
    requires Agree(sys, sys', r) && c < |sys.defs| && sys.rank[c] <= r
    requires sys.defs[c].role.Choice? && i <= |sys.defs[c].role.members|
    ensures PickFirst(sys', c, i) == PickFirst(sys, c, i)
    decreases sys.rank[c], 6, |sys.defs[c].role.members| - i
  {
    if i < |sys.defs[c].role.members| {
      SamePickFirst(sys, sys', r, c, i + 1);
      SamePickable(sys, sys', r, c, sys.defs[c].role.members[i]);
    }
  }

  lemma {:induction false} SamePick(sys: Sys, sys': Sys, r: nat, c: nat)
    requires Agree(sys, sys', r) && c < |sys.defs| && sys.rank[c] <= r && sys.defs[c].role.Choice?
    requires sys'.user[c].sel == sys.user[c].sel
    ensures Pick(sys', c) == Pick(sys, c)
    decreases sys.rank[c], 7
  {
    assert ChoiceOk(sys, c) by { assert SymbolRanked(sys, c); }
    if sys.user[c].sel.Some? {
      SamePickable(sys, sys', r, c, sys.user[c].sel.value);
    }
    SamePickDefault(sys, sys', r, c, 0);
    SamePickFirst(sys, sys', r, c, 0);
  }

  lemma {:induction false} SameOwn(sys: Sys, sys': Sys, r: nat, s: nat)
    requires Agree(sys, sys', r) && s < |sys.defs| && sys.rank[s] < r
    ensures MemberOk(sys, s) && OwnValue(sys', s) == OwnValue(sys, s)
    decreases sys.rank[s], 7
  {
    assert SymbolRanked(sys, s);
    SameVisible(sys, sys', r, s);
    SameSelected(sys, sys', r, s);
    if !sys.defs[s].role.Choice? {
      SameDefault(sys, sys', r, s, 0);
    }
  }

  /** A value does not change when settings of the same or a higher rank do. */
  lemma {:induction false} SameValue(sys: Sys, sys': Sys, r: nat, s: nat)
    requires Agree(sys, sys', r) && s < |sys.defs| && sys.rank[s] < r
    ensures Value(sys', s) == Value(sys, s)
    decreases sys.rank[s], 9
  {
    assert SymbolRanked(sys, s);
    SameOwn(sys, sys', r, s);
    match sys.defs[s].role
    case Member(c) =>
      SameVisible(sys, sys', r, s);
      SameOwn(sys, sys', r, c);
      SamePick(sys, sys', r, c);
    case Choice(_) => SamePick(sys, sys', r, s);
    case Plain =>
  }

  // ----- setting one symbol -----

  /** sym_tristate_within_range: a value the user may give, on calculated levels. */
  predicate InRange(d: SymDef, visible: Tristate, revDep: Tristate, v: Tristate): (b: bool)
    ensures b <==> && IsLogicalType(d.typ) && revDep < visible && revDep <= v <= visible
                   && (d.typ == BooleanType ==> v != MOD) && (d.role.Member? && visible == YES ==> v == YES)
  {
    var typ := if d.typ == TristateType && d.role.Member? && visible == YES then BooleanType else d.typ;
    if visible == NO then false
    else if typ != BooleanType && typ != TristateType then false
    else if typ == BooleanType && v == MOD then false
    else if visible <= revDep then false
    else if d.role.Member? && visible == YES then v == YES
    else revDep <= v <= visible
  }

  /** The settings after sym_set_tristate_value: a choice value that becomes y also becomes the pick of its choice. */
  function Settings(defs: seq<SymDef>, user: seq<User>, visible: seq<Tristate>, s: nat, v: Tristate): (r: seq<User>)
    requires |defs| == |user| == |visible| && s < |defs|
    requires defs[s].role.Member? ==> defs[s].role.choice < |defs|
    ensures |r| == |user|
  {
    var d := defs[s];
    seq(|user|, i requires 0 <= i < |user| =>
      var u := user[i];
      var picks := d.role.Member? && v == YES;
      var c := if picks then d.role.choice else s;
      var cleared := picks && (i == c || (defs[c].role.Choice? && i in defs[c].role.members && visible[i] != NO));
      User(u.has || cleared || i == s, if i == s then v else u.tri, if picks && i == c then Some(s) else u.sel))
  }

  /** `i` is among the values of the choice that become y's rivals: they and the choice are no longer new. */
  predicate Rival(defs: seq<SymDef>, visible: seq<Tristate>, c: nat, i: nat)
    requires |defs| == |visible| && c < |defs| && i < |defs|
  {
    i == c || (defs[c].role.Choice? && i in defs[c].role.members && visible[i] != NO)
  }

  /** What a setting changes, symbol by symbol; nothing else is touched. */
  lemma SettingsChange(defs: seq<SymDef>, user: seq<User>, visible: seq<Tristate>, s: nat, v: Tristate, i: nat)
    requires |defs| == |user| == |visible| && s < |defs| && i < |defs|
    requires defs[s].role.Member? ==> defs[s].role.choice < |defs|
    ensures var r, picks := Settings(defs, user, visible, s, v), defs[s].role.Member? && v == YES;
      var c := if picks then defs[s].role.choice else s;
      && (i == s ==> r[i].has && r[i].tri == v)
      && (i != s ==> r[i].tri == user[i].tri)
      && (picks ==> r[c].sel == Some(s) && (Rival(defs, visible, c, i) ==> r[i].has))
      && (i != s && !(picks && Rival(defs, visible, c, i)) ==> r[i] == user[i])
      && (!(picks && i == c) ==> r[i].sel == user[i].sel)
  {}

  lemma SetStaysWellFormed(defs: seq<SymDef>, user: seq<User>, visible: seq<Tristate>, s: nat, v: Tristate)
    requires WellFormed(defs, user) && |visible| == |defs| && s < |defs|
    requires defs[s].role.Member? ==> defs[s].role.choice < |defs|
    ensures WellFormed(defs, Settings(defs, user, visible, s, v))
  {
    var user' := Settings(defs, user, visible, s, v);
    forall x | 0 <= x < |defs| ensures DefWellFormed(defs, user', x) {
      assert DefWellFormed(defs, user, x);
    }
  }

  /** What an own value becomes when the user asks for `v` and nothing else changes. */
  lemma AskedValue(vis: Tristate, rev: Tristate, base: Tristate, v: Tristate, typ: SymbolType)
    requires IsLogicalType(typ) && (typ == BooleanType ==> vis != MOD && rev != MOD)
    requires Max(vis, rev) != NO
    requires v == Promote(Max(Min(base, vis), rev), typ) || (rev <= v <= vis && (typ == BooleanType ==> v != MOD))
    ensures Promote(Max(Min(v, vis), rev), typ) == v
  {}

  lemma BooleanLevels(sys: Sys, s: nat)
    requires Ranked(sys) && s < |sys.defs| && sys.defs[s].typ == BooleanType
    ensures Visible(sys, s) != MOD && Selected(sys, s) != MOD
  {
    assert SymbolRanked(sys, s);
    assert Visible(sys, s) == VisibleAt(sys, s, VisibilityBound(sys, s), None);
  }

  /** The settings of lower-ranking symbols do not change, except that a choice may get a new pick. */
  ghost predicate Sets(sys: Sys, sys': Sys, visible: seq<Tristate>, s: nat, v: Tristate) {
    && |sys.defs| == |sys.user| == |visible| && s < |sys.defs|
    && (sys.defs[s].role.Member? ==> sys.defs[s].role.choice < |sys.defs|)
    && sys' == sys.(user := Settings(sys.defs, sys.user, visible, s, v))
  }

  lemma SetStaysRanked(sys: Sys, sys': Sys, visible: seq<Tristate>, s: nat, v: Tristate)
    requires Ranked(sys) && Sets(sys, sys', visible, s, v)
    ensures Ranked(sys')
  {
    forall x | 0 <= x < |sys'.defs| ensures SymbolRanked(sys', x) {
      assert SymbolRanked(sys, x);
      assert MemberOk(sys, s) by { assert SymbolRanked(sys, s); }
    }
  }

  /** A symbol that decides for itself takes any value it already has or has the room for. */
  lemma SetOwn(sys: Sys, sys': Sys, s: nat, v: Tristate)
    requires s < |sys.defs| == |sys.rank| && Agree(sys, sys', sys.rank[s]) && !sys.defs[s].role.Choice?
    requires sys'.user[s].has && sys'.user[s].tri == v
    requires MemberOk(sys, s)
    requires v == OwnValue(sys, s) ||
             (Visible(sys, s) != NO && Selected(sys, s) <= v <= Visible(sys, s) &&
              (sys.defs[s].typ == BooleanType ==> v != MOD))
    ensures OwnValue(sys', s) == v
  {
    var r := sys.rank[s];
    assert SymbolRanked(sys, s);
    SameVisible(sys, sys', r, s);
    SameSelected(sys, sys', r, s);
    SameDefault(sys, sys', r, s, 0);
    var vis, rev, typ := Visible(sys, s), Selected(sys, s), sys.defs[s].typ;
    if !Deselected(sys, s) && Max(vis, rev) != NO {
      if typ == BooleanType {
        BooleanLevels(sys, s);
      }
      var base := if sys.user[s].has then sys.user[s].tri else DefaultValue(sys, s, 0);
      AskedValue(vis, rev, base, v, typ);
    }
  }

  /** Symbols outside choices: every accepted value comes out. */
  lemma SetPlain(sys: Sys, sys': Sys, visible: seq<Tristate>, s: nat, v: Tristate)
    requires Ranked(sys) && Sets(sys, sys', visible, s, v) && sys.defs[s].role.Plain?
    requires v == Value(sys, s) || InRange(sys.defs[s], Visible(sys, s), Selected(sys, s), v)
    ensures Ranked(sys') && Value(sys', s) == v
  {
    SetStaysRanked(sys, sys', visible, s, v);
    assert Agree(sys, sys', sys.rank[s]);
    SetOwn(sys, sys', s, v);
  }

  /** Choice values that are not set to y: no choice is touched, and every accepted value comes out. */
  lemma SetMember(sys: Sys, sys': Sys, visible: seq<Tristate>, s: nat, v: Tristate)
    requires Ranked(sys) && Sets(sys, sys', visible, s, v) && sys.defs[s].role.Member? && v != YES
    requires v == Value(sys, s) || InRange(sys.defs[s], Visible(sys, s), NO, v)
    ensures Ranked(sys') && Value(sys', s) == v
  {
    SetStaysRanked(sys, sys', visible, s, v);
    assert Agree(sys, sys', sys.rank[s]);
    assert SymbolRanked(sys, s);
    SameVisible(sys, sys', sys.rank[s], s);
    if Visible(sys, s) == YES {
      SameValueOfMember(sys, sys', s);
    } else {
      SetOwn(sys, sys', s, v);
    }
  }

  lemma SameValueOfMember(sys: Sys, sys': Sys, s: nat)
    requires s < |sys.defs| == |sys.rank| && Agree(sys, sys', sys.rank[s]) && sys.defs[s].role.Member?
    requires Visible(sys, s) == YES
    ensures Value(sys', s) == Value(sys, s) != MOD
  {
    assert SymbolRanked(sys, s);
    var c := sys.defs[s].role.choice;
    SameVisible(sys, sys', sys.rank[s], s);
    SameOwn(sys, sys', sys.rank[s], c);
    SamePick(sys, sys', sys.rank[s], c);
  }

  // ----- picking a choice value -----

  lemma {:induction false} OverrideIsValue(sys: Sys, e: Expr, c: nat)
    requires Ranked(sys) && c < |sys.defs| && Value(sys, c) == YES && Below(sys, Some(e), sys.rank[c], Some(c))
    ensures Below(sys, Some(e), sys.rank[c] + 1, None)
    ensures ValueOf(sys, e, sys.rank[c] + 1, None) == ValueOf(sys, e, sys.rank[c], Some(c))
  {
    match e
    case Sym(s) => OverrideAtSymbol(sys, s, e, c);
    case Not(x) =>
      assert OptIds(Some(x)) == OptIds(Some(e));
      OverrideIsValue(sys, x, c);
    case Bin(_, x, y) =>
      BelowOperands(sys, e, sys.rank[c], Some(c));
      OverrideIsValue(sys, x, c);
      OverrideIsValue(sys, y, c);
    case Eq(a, b) =>
      OverrideAtSymbol(sys, a, e, c);
      OverrideAtSymbol(sys, b, e, c);
    case Ne(a, b) =>
      OverrideAtSymbol(sys, a, e, c);
      OverrideAtSymbol(sys, b, e, c);
  }

  lemma OverrideAtSymbol(sys: Sys, s: Symbol, e: Expr, c: nat)
    requires Ranked(sys) && c < |sys.defs| && Value(sys, c) == YES && Below(sys, Some(e), sys.rank[c], Some(c))
    requires SymbolIds(s) <= Ids(e) && SymbolKnown(sys.defs, s)
    ensures Below(sys, Some(Sym(s)), sys.rank[c], Some(c)) && Below(sys, Some(Sym(s)), sys.rank[c] + 1, None)
    ensures TriAt(sys, s, sys.rank[c] + 1, None) == TriAt(sys, s, sys.rank[c], Some(c))
    ensures StrAt(sys, s, sys.rank[c] + 1, None) == StrAt(sys, s, sys.rank[c], Some(c))
  {
    assert OptIds(Some(Sym(s))) == SymbolIds(s);
    assert s.Config? && s.IsLogical() ==> s.id in Ids(e) && s.id in Ids(Sym(s));
  }

  lemma {:induction false} OverrideInPrompts(sys: Sys, props: seq<Property>, c: nat)
    requires Ranked(sys) && c < |sys.defs| && Value(sys, c) == YES
    requires forall p | p in props && IsPrompt(p) :: Below(sys, p.visible, sys.rank[c], Some(c))
    ensures forall p | p in props && IsPrompt(p) :: Below(sys, p.visible, sys.rank[c] + 1, None)
    ensures HighestPromptOf(sys, props, sys.rank[c] + 1, None) == HighestPromptOf(sys, props, sys.rank[c], Some(c))
    decreases |props|
  {
    forall p | p in props && IsPrompt(p) ensures Below(sys, p.visible, sys.rank[c] + 1, None) {
      if p.visible.Some? {
        OverrideIsValue(sys, p.visible.value, c);
      }
    }
    if props != [] {
      var n := |props| - 1;
      OverrideInPrompts(sys, props[..n], c);
      if IsPrompt(props[n]) && props[n].visible.Some? {
        OverrideIsValue(sys, props[n].visible.value, c);
      }
    }
  }

  lemma OverrideVisible(sys: Sys, m: nat, c: nat)
    requires Ranked(sys) && c < |sys.defs| && Value(sys, c) == YES
    requires m < |sys.defs| && VisibilityBelow(sys, m, sys.rank[c], Some(c))
    ensures VisibilityBelow(sys, m, sys.rank[c] + 1, None)
    ensures VisibleAt(sys, m, sys.rank[c] + 1, None) == VisibleAt(sys, m, sys.rank[c], Some(c))
  {
    var inv := sys.defs[m].revDepInv;
    OverrideInPrompts(sys, sys.defs[m].props, c);
    if inv.Some? {
      OverrideIsValue(sys, inv.value, c);
      assert ValueOfOpt(sys, inv, sys.rank[c] + 1, None) == ValueOfOpt(sys, inv, sys.rank[c], Some(c));
    }
    assert DeselectedAt(sys, m, sys.rank[c] + 1, None) == DeselectedAt(sys, m, sys.rank[c], Some(c));
  }

  /** A choice that is y sees its values as they finally are. */
  lemma MemberSeenByChoice(sys: Sys, c: nat, m: nat)
    requires Ranked(sys) && c < |sys.defs| && sys.defs[c].role.Choice? && m in sys.defs[c].role.members
    requires Value(sys, c) == YES
    ensures m < |sys.defs| && VisibilityBelow(sys, m, sys.rank[c], Some(c))
    ensures Visible(sys, m) == VisibleAt(sys, m, sys.rank[c], Some(c))
  {
    assert ChoiceOk(sys, c) by { assert SymbolRanked(sys, c); }
    OverrideVisible(sys, m, c);
    assert VisibilityBound(sys, m) == sys.rank[c] + 1;
  }

  /**
   * What a choice becomes once it has a setting of its own: y if its stored user value leads to y. Loading a file can
   * leave y there although the choice is marked as new again, and then the stored value does not count yet.
   */
  ghost predicate TurnsYes(sys: Sys, c: nat)
    requires Ranked(sys) && c < |sys.defs|
  {
    var vis, rev := Visible(sys, c), Selected(sys, c);
    && !Deselected(sys, c) && Max(vis, rev) != NO
    && Promote(Max(Min(sys.user[c].tri, vis), rev), sys.defs[c].typ) == YES
  }

  lemma MembersRankHigher(sys: Sys, c: nat)
    requires Ranked(sys) && c < |sys.defs| && sys.defs[c].role.Choice?
    ensures forall m | m in sys.defs[c].role.members :: m < |sys.defs| && sys.rank[c] < sys.rank[m]
  {
    assert ChoiceOk(sys, c) by { assert SymbolRanked(sys, c); }
    forall m | m in sys.defs[c].role.members ensures m < |sys.defs| && sys.rank[c] < sys.rank[m] {
      assert MemberOk(sys, m) by { assert SymbolRanked(sys, m); }
    }
  }

  lemma PickKeepsChoice(sys: Sys, sys': Sys, visible: seq<Tristate>, c: nat, m: nat)
    requires Ranked(sys) && Sets(sys, sys', visible, m, YES) && sys.defs[m].role == Member(c)
    ensures Ranked(sys') && c < |sys.defs| && Agree(sys, sys', sys.rank[c]) && MemberOk(sys, c)
    ensures OwnValue(sys', c) == YES <==> TurnsYes(sys, c)
  {
    SetStaysRanked(sys, sys', visible, m, YES);
    assert MemberOk(sys, m) by { assert SymbolRanked(sys, m); }
    assert SymbolRanked(sys, c);
    MembersRankHigher(sys, c);
    assert forall x | 0 <= x < |sys.defs| && sys.rank[x] < sys.rank[c] :: x !in sys.defs[c].role.members;
    SameVisible(sys, sys', sys.rank[c], c);
    SameSelected(sys, sys', sys.rank[c], c);
    assert sys'.user[c].has && sys'.user[c].tri == sys.user[c].tri;
  }

  /** A choice that is y already turns y. */
  lemma YesTurnsYes(sys: Sys, c: nat)
    requires Ranked(sys) && c < |sys.defs| && sys.defs[c].role.Choice? && Value(sys, c) == YES
    ensures TurnsYes(sys, c)
  {
    assert SymbolRanked(sys, c);
    if sys.defs[c].typ == BooleanType {
      BooleanLevels(sys, c);
    }
  }

  lemma PickFollowsUser(sys': Sys, c: nat, m: nat)
    requires Ranked(sys') && c < |sys'.defs| && sys'.defs[c].role.Choice? && m in sys'.defs[c].role.members
    requires sys'.user[c].sel == Some(m) && OwnValue(sys', c) == YES && Pickable(sys', c, m)
    ensures Chosen(sys', c) == Some(m) && Value(sys', c) == YES
  {
    assert SymbolRanked(sys', c);
  }

  /** A member that its choice, once y, will see as fully visible. */
  ghost predicate FullyPickable(sys: Sys, c: nat, m: nat)
    requires Ranked(sys) && m < |sys.defs| && sys.defs[m].role == Member(c)
  {
    assert MemberOk(sys, m) by { assert SymbolRanked(sys, m); }
    assert ChoiceOk(sys, c) by { assert SymbolRanked(sys, c); }
    VisibleAt(sys, m, sys.rank[c], Some(c)) == YES
  }

  /** A choice value set to y becomes the fully visible pick of its choice exactly when the choice turns y for it. */
  lemma SetPick(sys: Sys, sys': Sys, visible: seq<Tristate>, c: nat, m: nat)
    requires Ranked(sys) && Sets(sys, sys', visible, m, YES) && sys.defs[m].role == Member(c)
    ensures Ranked(sys') && c < |sys.defs| && sys.defs[c].role.Choice?
    ensures Chosen(sys', c) == Some(m) && Visible(sys', m) == YES <==> TurnsYes(sys, c) && FullyPickable(sys, c, m)
  {
    PickKeepsChoice(sys, sys', visible, c, m);
    assert MemberOk(sys, m) by { assert SymbolRanked(sys, m); }
    assert ChoiceOk(sys, c) by { assert SymbolRanked(sys, c); }
    SameVisibleAt(sys, sys', sys.rank[c], m, sys.rank[c], Some(c));
    if TurnsYes(sys, c) && FullyPickable(sys, c, m) {
      PickFollowsUser(sys', c, m);
    }
    if Chosen(sys', c) == Some(m) {
      assert Value(sys', c) == YES;
      MemberSeenByChoice(sys', c, m);
    }
  }

  /** For a choice value without defaults this decides whether setting it to y makes it y. */
  lemma SetPickIff(sys: Sys, sys': Sys, visible: seq<Tristate>, c: nat, m: nat)
    requires Ranked(sys) && Sets(sys, sys', visible, m, YES) && sys.defs[m].role == Member(c)
    ensures Ranked(sys') && c < |sys.defs|
    ensures TurnsYes(sys, c) && FullyPickable(sys, c, m) ==> Value(sys', m) == YES
    ensures NoDefaults(sys.defs[m]) ==> (Value(sys', m) == YES <==> TurnsYes(sys, c) && FullyPickable(sys, c, m))
  {
    SetPick(sys, sys', visible, c, m);
    MemberIsYes(sys', c, m);
    if NoDefaults(sys.defs[m]) {
      NoDefaultsMeansNo(sys', m, 0);
    }
  }

  /** A fully visible value of a choice that is y already becomes y. */
  lemma SetPickOfYes(sys: Sys, sys': Sys, visible: seq<Tristate>, c: nat, m: nat)
    requires Ranked(sys) && Sets(sys, sys', visible, m, YES) && sys.defs[m].role == Member(c)
    requires Visible(sys, m) == YES && c < |sys.defs| && Value(sys, c) == YES
    ensures Ranked(sys') && Value(sys', m) == YES
  {
    assert MemberOk(sys, m) by { assert SymbolRanked(sys, m); }
    YesTurnsYes(sys, c);
    MemberSeenByChoice(sys, c, m);
    SetPickIff(sys, sys', visible, c, m);
  }

  /** A tristate choice selected to m, new, with the user value y from a file; its value is a visible boolean. */
  ghost function StaleChoice(): Sys {
    var prompt := Property(PromptProp, true, None, None);
    var within := Property(PromptProp, true, Some(Sym(Config(0, TristateType))), None);
    Sys([SymDef(TristateType, Choice([1]), [prompt], Some(Sym(ModSym)), None),
         SymDef(BooleanType, Member(0), [within], None, None)],
      [User(false, YES, None), User(false, NO, None)], (s: Symbol) => "", [0, 1])
  }

  /** With a single prompt the condition of that prompt decides. */
  lemma OnePrompt(sys: Sys, props: seq<Property>, bound: nat, over: Option<nat>)
    requires Ranked(sys) && |props| == 1 && IsPrompt(props[0]) && Below(sys, props[0].visible, bound, over)
    ensures HighestPromptOf(sys, props, bound, over) == ValueOfOpt(sys, props[0].visible, bound, over)
  {
    assert props[..0] == [];
  }

  lemma StaleChoiceRanked(sys: Sys)
    requires sys == StaleChoice()
    ensures Ranked(sys)
  {
    var within := sys.defs[1].props[0].visible;
    assert OptIds(within) == {0};
    assert VisibilityBelow(sys, 1, sys.rank[0], Some(0)) && VisibilityBelow(sys, 1, sys.rank[0] + 1, None);
    assert SymbolRanked(sys, 0);
    assert SymbolRanked(sys, 1);
  }

  lemma StaleChoiceIsMod(sys: Sys)
    requires sys == StaleChoice() && Ranked(sys)
    ensures Value(sys, 0) == MOD && TurnsYes(sys, 0)
  {
    assert SymbolRanked(sys, 0);
    var choice := sys.defs[0];
    OnePrompt(sys, choice.props, sys.rank[0], None);
    assert Visible(sys, 0) == VisibleAt(sys, 0, sys.rank[0], None) == YES;
    assert ValueOf(sys, choice.revDep.value, sys.rank[0], None) == MOD;
    assert Selected(sys, 0) == MOD;
  }

  lemma StaleChoiceShowsValue(sys: Sys)
    requires sys == StaleChoice() && Ranked(sys) && Value(sys, 0) == MOD
    ensures Visible(sys, 1) == YES && FullyPickable(sys, 0, 1)
  {
    assert SymbolRanked(sys, 0) && SymbolRanked(sys, 1);
    OnePrompt(sys, sys.defs[1].props, sys.rank[0], Some(0));
    OnePrompt(sys, sys.defs[1].props, sys.rank[0] + 1, None);
  }

  /** A choice need not be y for its value to become y: the stale user value counts from then on. */
  lemma StaleChoiceTurnsYes(sys': Sys, visible: seq<Tristate>)
    requires Sets(StaleChoice(), sys', visible, 1, YES)
    ensures var sys := StaleChoice();
            && Ranked(sys) && Value(sys, 0) == MOD && Visible(sys, 1) == YES
            && InRange(sys.defs[1], Visible(sys, 1), NO, YES) && NoDefaults(sys.defs[1])
    ensures Ranked(sys') && Value(sys', 1) == YES
  {
    var sys := StaleChoice();
    StaleChoiceRanked(sys);
    StaleChoiceIsMod(sys);
    StaleChoiceShowsValue(sys);
    SetPickIff(sys, sys', visible, 0, 1);
  }

  // ----- setting a choice -----

  /** The value a choice has after it was set: no y without a member to pick, and no n while it is selected to m. */
  ghost function ChoiceAfter(sys: Sys, c: nat, v: Tristate): Tristate
    requires Ranked(sys) && c < |sys.defs| && sys.defs[c].role.Choice?
  {
    if v == YES && Pick(sys, c).None? then NO
    else if v == NO && !Deselected(sys, c) && Selected(sys, c) == MOD then MOD
    else v
  }

  lemma SetChoice(sys: Sys, sys': Sys, visible: seq<Tristate>, c: nat, v: Tristate)
    requires Ranked(sys) && Sets(sys, sys', visible, c, v) && sys.defs[c].role.Choice?
    requires v == Value(sys, c) || InRange(sys.defs[c], Visible(sys, c), Selected(sys, c), v)
    ensures Ranked(sys') && Value(sys', c) == ChoiceAfter(sys, c, v)
  {
    SetStaysRanked(sys, sys', visible, c, v);
    assert Agree(sys, sys', sys.rank[c]);
    assert SymbolRanked(sys, c);
    SameVisible(sys, sys', sys.rank[c], c);
    SameSelected(sys, sys', sys.rank[c], c);
    SamePick(sys, sys', sys.rank[c], c);
    if sys.defs[c].typ == BooleanType {
      BooleanLevels(sys, c);
    }
  }

  // ----- setting any symbol -----

  /** Whether an accepted value comes out. */
  ghost predicate TakesEffect(sys: Sys, s: nat, v: Tristate)
    requires Ranked(sys) && s < |sys.defs|
  {
    match sys.defs[s].role
    case Plain => true
    case Member(c) =>
      assert MemberOk(sys, s) by { assert SymbolRanked(sys, s); }
      v == YES ==> TurnsYes(sys, c) && FullyPickable(sys, c, s)
    case Choice(_) => ChoiceAfter(sys, s, v) == v
  }

  /** All together, starting from a calculated symbol. */
  lemma SetAccepted(sys: Sys, sys': Sys, m: Snap, s: nat, v: Tristate)
    requires Ranked(sys) && Inv(sys, m, {}) && s < |sys.defs| && m.valid[s] && Sets(sys, sys', m.visible, s, v)
    requires m.curr[s] == v || InRange(sys.defs[s], m.visible[s], m.revDep[s], v)
    ensures Ranked(sys')
    ensures TakesEffect(sys, s, v) ==> Value(sys', s) == v
    ensures Value(sys', s) == v ==> TakesEffect(sys, s, v) || (sys.defs[s].role.Member? && !NoDefaults(sys.defs[s]))
  {
    assert Right(sys, m, s);
    match sys.defs[s].role
    case Plain => SetPlain(sys, sys', m.visible, s, v);
    case Member(c) =>
      if v == YES {
        SetPickIff(sys, sys', m.visible, c, s);
      } else {
        SetMember(sys, sys', m.visible, s, v);
      }
    case Choice(_) => SetChoice(sys, sys', m.visible, s, v);
  }
}
