/** Symbol definitions and the value every symbol is meant to have (symbol.c). */
module Symbols {
  import opened Tristates
  import opened Exprs

  datatype PropKind =
    | UnknownProp | PromptProp | CommentProp | MenuProp | DefaultProp
    | ChoiceProp | DeselectProp | SelectProp | RangeProp | ResetProp

  /** struct property; `hasText` marks prompts. */
  datatype Property = Property(kind: PropKind, hasText: bool, visible: Option<Expr>, expr: Option<Expr>)

  /** Choice flags: the members of a choice in menu order, or the choice a value belongs to. */
  datatype Role = Plain | Choice(members: seq<nat>) | Member(choice: nat)

  datatype SymDef = SymDef(typ: SymbolType, role: Role, props: seq<Property>,
                           revDep: Option<Expr>, revDepInv: Option<Expr>)

  /** What the user has set: `has` is the cleared SYMBOL_NEW flag; `sel` the user's pick in a choice. */
  datatype User = User(has: bool, tri: Tristate, sel: Option<nat>)

  /**
   * The definitions, the user's settings, fixed strings for symbols that are not logical, and a rank that
   * falls along every dependency. Symbols are numbered by position.
   */
  datatype Sys = Sys(defs: seq<SymDef>, user: seq<User>, str: Symbol -> string, rank: seq<nat>)

  // ----- which symbols an expression mentions -----

  /** The symbols must be known, with the type they are used at. */
  predicate SymbolKnown(defs: seq<SymDef>, s: Symbol) {
    s.Config? && s.IsLogical() ==> s.id < |defs| && defs[s.id].typ == s.typ
  }

  predicate Known(defs: seq<SymDef>, e: Expr) {
    match e
    case Sym(s) => SymbolKnown(defs, s)
    case Not(x) => Known(defs, x)
    case Bin(_, l, r) => Known(defs, l) && Known(defs, r)
    case Eq(a, b) => SymbolKnown(defs, a) && SymbolKnown(defs, b)
    case Ne(a, b) => SymbolKnown(defs, a) && SymbolKnown(defs, b)
  }

  function SymbolIds(s: Symbol): set<nat> {
    if s.Config? && s.IsLogical() then {s.id} else {}
  }

  function Ids(e: Expr): set<nat> {
    match e
    case Sym(s) => SymbolIds(s)
    case Not(x) => Ids(x)
    case Bin(_, l, r) => Ids(l) + Ids(r)
    case Eq(a, b) => SymbolIds(a) + SymbolIds(b)
    case Ne(a, b) => SymbolIds(a) + SymbolIds(b)
  }

  function OptIds(e: Option<Expr>): set<nat> {
    if e.None? then {} else Ids(e.value)
  }

  predicate OptKnown(defs: seq<SymDef>, e: Option<Expr>) {
    e.Some? ==> Known(defs, e.value)
  }

  // ----- ranked systems -----

  /** Every symbol `e` mentions is known and ranks below the bound, or is the overridden one. */
  predicate Below(sys: Sys, e: Option<Expr>, bound: nat, over: Option<nat>) {
    && |sys.rank| == |sys.defs|
    && OptKnown(sys.defs, e)
    && forall d | d in OptIds(e) :: d < |sys.rank| && (over == Some(d) || sys.rank[d] < bound)
  }

  /** The bound for visibility expressions: those of a choice value may mention its choice and what ranks lower. */
  function VisibilityBound(sys: Sys, s: nat): nat
    requires s < |sys.defs| == |sys.rank|
  {
    match sys.defs[s].role
    case Member(c) => if c < |sys.rank| then sys.rank[c] + 1 else 0
    case _ => sys.rank[s]
  }

  predicate IsPrompt(p: Property) {
    p.hasText
  }

  /** n among the operands of the outermost ANDs: the expression is n whatever the symbols are. */
  predicate Never(e: Expr) {
    match e
    case Sym(s) => s == NoSym
    case Bin(AndOp, l, r) => Never(l) || Never(r)
    case _ => false
  }

  /** A prompt that simplification has not ruled out. */
  predicate IsLivePrompt(p: Property) {
    IsPrompt(p) && !(p.visible.Some? && Never(p.visible.value))
  }

  predicate IsDefault(p: Property) {
    p.kind == DefaultProp
  }

  predicate VisibilityBelow(sys: Sys, s: nat, bound: nat, over: Option<nat>)
    requires s < |sys.defs|
  {
    && Below(sys, sys.defs[s].revDepInv, bound, over)
    && (forall p | p in sys.defs[s].props && IsPrompt(p) :: Below(sys, p.visible, bound, over))
  }

  predicate DefaultsBelow(sys: Sys, s: nat)
    requires s < |sys.defs| == |sys.rank|
  {
    forall p | p in sys.defs[s].props && IsDefault(p) ::
      && Below(sys, p.visible, sys.rank[s], None)
      && (!sys.defs[s].role.Choice? ==> Below(sys, p.expr, sys.rank[s], None))
  }

  /** prop_get_symbol for the default of a choice. */
  function DefaultPick(p: Property): Option<nat> {
    if p.expr.Some? && p.expr.value.Sym? && p.expr.value.s.Config? then Some(p.expr.value.s.id) else None
  }

  predicate PicksMember(members: seq<nat>, pick: Option<nat>) {
    pick.Some? && pick.value in members
  }

  /** The members of a choice are its own, and can be looked at before the choice has a selection. */
  predicate ChoiceOk(sys: Sys, c: nat)
    requires c < |sys.defs| == |sys.rank| == |sys.user|
  {
    sys.defs[c].role.Choice? ==>
      var members := sys.defs[c].role.members;
      && (forall m | m in members ::
            m < |sys.defs| && sys.defs[m].role == Member(c) && VisibilityBelow(sys, m, sys.rank[c], Some(c)))
      && (sys.user[c].sel.Some? ==> sys.user[c].sel.value in members)
      && (forall p | p in sys.defs[c].props && IsDefault(p) :: PicksMember(members, DefaultPick(p)))
  }

  /**
   * A choice value ranks above its choice, and all its live prompts mention the choice; menu_finalize sees to that
   * (MenuFacts.FinalizeChoiceBinds).
   */
  predicate MemberOk(sys: Sys, s: nat)
    requires s < |sys.defs| == |sys.rank|
  {
    sys.defs[s].role.Member? ==>
      var c := sys.defs[s].role.choice;
      && c < |sys.defs| && sys.defs[c].role.Choice? && s in sys.defs[c].role.members && sys.rank[c] < sys.rank[s]
      && (forall p | p in sys.defs[s].props && IsLivePrompt(p) :: c in OptIds(p.visible))
  }

  predicate IsLogicalType(typ: SymbolType) {
    typ == BooleanType || typ == TristateType
  }

  predicate SymbolRanked(sys: Sys, s: nat)
    requires s < |sys.defs| == |sys.rank| == |sys.user|
  {
    && IsLogicalType(sys.defs[s].typ)
    && VisibilityBelow(sys, s, VisibilityBound(sys, s), None)
    && Below(sys, sys.defs[s].revDep, sys.rank[s], None)
    && DefaultsBelow(sys, s) && ChoiceOk(sys, s) && MemberOk(sys, s)
  }

  /** The dependency graph is acyclic, with `rank` as the witness. */
  predicate Ranked(sys: Sys) {
    |sys.defs| == |sys.rank| == |sys.user| && forall s | 0 <= s < |sys.defs| :: SymbolRanked(sys, s)
  }

  // ----- the definition of values, by recursion on the rank -----

  ghost function TriAt(sys: Sys, s: Symbol, bound: nat, over: Option<nat>): Tristate
    requires Ranked(sys) && Below(sys, Some(Sym(s)), bound, over)
    decreases bound, 0, 0
  {
    match s
    case YesSym => YES
    case ModSym => MOD
    case NoSym => NO
    case Const(_) => NO
    case Config(id, _) =>
      if !s.IsLogical() then NO
      else
        assert id in Ids(Sym(s));
        if over == Some(id) then YES else Value(sys, id)
  }

  ghost function StrAt(sys: Sys, s: Symbol, bound: nat, over: Option<nat>): string
    requires Ranked(sys) && Below(sys, Some(Sym(s)), bound, over)
    decreases bound, 0, 1
  {
    match s
    case Const(name) => name
    case Config(_, _) => if s.IsLogical() then TriString(TriAt(sys, s, bound, over)) else sys.str(s)
    case _ => TriString(TriAt(sys, s, bound, over))
  }

  /** The value of an expression over finished symbols; an overridden symbol counts as y. */
  ghost function ValueOf(sys: Sys, e: Expr, bound: nat, over: Option<nat>): Tristate
    requires Ranked(sys) && Below(sys, Some(e), bound, over)
    decreases bound, 1, e
  {
    match e
    case Sym(s) => TriAt(sys, s, bound, over)
    case Not(x) =>
      assert OptIds(Some(x)) == OptIds(Some(e));
      Neg(ValueOf(sys, x, bound, over))
    case Bin(op, l, r) =>
      assert OptIds(Some(e)) == OptIds(Some(l)) + OptIds(Some(r));
      Apply(op, ValueOf(sys, l, bound, over), ValueOf(sys, r, bound, over))
    case Eq(a, b) => FromBool(StrAt(sys, a, bound, over) == StrAt(sys, b, bound, over))
    case Ne(a, b) => FromBool(StrAt(sys, a, bound, over) != StrAt(sys, b, bound, over))
  }

  ghost function ValueOfOpt(sys: Sys, e: Option<Expr>, bound: nat, over: Option<nat>): Tristate
    requires Ranked(sys) && Below(sys, e, bound, over)
    decreases bound, 2, 0
  {
    if e.None? then YES else ValueOf(sys, e.value, bound, over)
  }

  /** The highest prompt among the first properties. */
  ghost function HighestPromptOf(sys: Sys, props: seq<Property>, bound: nat, over: Option<nat>): Tristate
    requires Ranked(sys) && forall p | p in props && IsPrompt(p) :: Below(sys, p.visible, bound, over)
    decreases bound, 3, |props|
  {
    if props == [] then NO
    else
      var n := |props| - 1;
      var rest := HighestPromptOf(sys, props[..n], bound, over);
      if IsPrompt(props[n]) then Max(rest, ValueOfOpt(sys, props[n].visible, bound, over)) else rest
  }

  /** A deselected symbol: rev_dep_inv is y. */
  ghost predicate DeselectedAt(sys: Sys, s: nat, bound: nat, over: Option<nat>)
    requires Ranked(sys) && s < |sys.defs| && VisibilityBelow(sys, s, bound, over)
    decreases bound, 3, 0
  {
    sys.defs[s].revDepInv.Some? && ValueOfOpt(sys, sys.defs[s].revDepInv, bound, over) == YES
  }

  ghost function VisibleAt(sys: Sys, s: nat, bound: nat, over: Option<nat>): Tristate
    requires Ranked(sys) && s < |sys.defs| && VisibilityBelow(sys, s, bound, over)
    decreases bound, 4, 0
  {
    var t := HighestPromptOf(sys, sys.defs[s].props, bound, over);
    if DeselectedAt(sys, s, bound, over) then NO
    else if t == MOD && sys.defs[s].typ != TristateType then YES
    else t
  }

  /** sym_calc_visibility: visibility of a symbol. */
  ghost function Visible(sys: Sys, s: nat): Tristate
    requires Ranked(sys) && s < |sys.defs|
    decreases VisibilityBound(sys, s), 5, 0
  {
    assert SymbolRanked(sys, s);
    VisibleAt(sys, s, VisibilityBound(sys, s), None)
  }

  ghost predicate Deselected(sys: Sys, s: nat)
    requires Ranked(sys) && s < |sys.defs|
    decreases VisibilityBound(sys, s), 5, 0
  {
    assert SymbolRanked(sys, s);
    DeselectedAt(sys, s, VisibilityBound(sys, s), None)
  }

  /** The level a symbol is selected to; choice values are never selected. */
  ghost function Selected(sys: Sys, s: nat): Tristate
    requires Ranked(sys) && s < |sys.defs|
    decreases sys.rank[s], 5, 1
  {
    assert SymbolRanked(sys, s);
    var d := sys.defs[s];
    if d.role.Member? || d.revDep.None? then NO
    else
      var t := ValueOfOpt(sys, d.revDep, sys.rank[s], None);
      if t == MOD && d.typ == BooleanType then YES else t
  }

  /** The first visible default among the properties from i on. */
  ghost function DefaultValue(sys: Sys, s: nat, i: nat): Tristate
    requires Ranked(sys) && s < |sys.defs| && i <= |sys.defs[s].props| && !sys.defs[s].role.Choice?
    decreases sys.rank[s], 5, |sys.defs[s].props| - i
  {
    assert SymbolRanked(sys, s);
    var props := sys.defs[s].props;
    if i == |props| then NO
    else if IsDefault(props[i]) && ValueOfOpt(sys, props[i].visible, sys.rank[s], None) != NO then
      ValueOfOpt(sys, props[i].expr, sys.rank[s], None)
    else DefaultValue(sys, s, i + 1)
  }

  /** Whether a member could be picked, looked at while its choice counts as y. */
  ghost predicate Pickable(sys: Sys, c: nat, m: nat)
    requires Ranked(sys) && c < |sys.defs| && sys.defs[c].role.Choice? && m in sys.defs[c].role.members
    decreases sys.rank[c], 5, 0
  {
    assert ChoiceOk(sys, c) by { assert SymbolRanked(sys, c); }
    VisibleAt(sys, m, sys.rank[c], Some(c)) != NO
  }

  ghost function PickDefault(sys: Sys, c: nat, i: nat): Option<nat>
    requires Ranked(sys) && c < |sys.defs| && sys.defs[c].role.Choice? && i <= |sys.defs[c].props|
    decreases sys.rank[c], 6, |sys.defs[c].props| - i
  {
    assert SymbolRanked(sys, c);
    var props := sys.defs[c].props;
    if i == |props| then None
    else if IsDefault(props[i]) && ValueOfOpt(sys, props[i].visible, sys.rank[c], None) != NO &&
            Pickable(sys, c, DefaultPick(props[i]).value) then
      DefaultPick(props[i])
    else PickDefault(sys, c, i + 1)
  }

  ghost function PickFirst(sys: Sys, c: nat, i: nat): Option<nat>
    requires Ranked(sys) && c < |sys.defs| && sys.defs[c].role.Choice? && i <= |sys.defs[c].role.members|
    decreases sys.rank[c], 6, |sys.defs[c].role.members| - i
  {
    var members := sys.defs[c].role.members;
    if i == |members| then None
    else if Pickable(sys, c, members[i]) then Some(members[i])
    else PickFirst(sys, c, i + 1)
  }

  /** sym_calc_choice: the user's pick, else the first visible default, else the first visible member. */
  ghost function Pick(sys: Sys, c: nat): Option<nat>
    requires Ranked(sys) && c < |sys.defs| && sys.defs[c].role.Choice?
    decreases sys.rank[c], 7, 0
  {
    assert ChoiceOk(sys, c) by { assert SymbolRanked(sys, c); }
    var sel := sys.user[c].sel;
    if sel.Some? && Pickable(sys, c, sel.value) then sel
    else if PickDefault(sys, c, 0).Some? then PickDefault(sys, c, 0)
    else PickFirst(sys, c, 0)
  }

  /** m counts as y for boolean symbols. */
  function Promote(t: Tristate, typ: SymbolType): Tristate {
    if t == MOD && typ == BooleanType then YES else t
  }

  /** The value of a symbol that is not decided by a choice. */
  ghost function OwnValue(sys: Sys, s: nat): Tristate
    requires Ranked(sys) && s < |sys.defs|
    requires MemberOk(sys, s)
    decreases sys.rank[s], 7, 0
  {
    var u, role := sys.user[s], sys.defs[s].role;
    var vis, rev := Visible(sys, s), Selected(sys, s);
    if Deselected(sys, s) then NO
    else if Max(vis, rev) != NO then
      var base := if u.has then u.tri else if role.Choice? then NO else DefaultValue(sys, s, 0);
      Promote(Max(Min(base, vis), rev), sys.defs[s].typ)
    else if role.Choice? then NO
    else Promote(DefaultValue(sys, s, 0), sys.defs[s].typ)
  }

  /** The member a choice has picked; only a choice that is y picks. */
  ghost function Chosen(sys: Sys, c: nat): Option<nat>
    requires Ranked(sys) && c < |sys.defs| && sys.defs[c].role.Choice?
    decreases sys.rank[c], 8, 0
  {
    assert SymbolRanked(sys, c);
    if OwnValue(sys, c) == YES then Pick(sys, c) else None
  }

  /** sym_calc_value: the value of a symbol. */
  ghost function Value(sys: Sys, s: nat): Tristate
    requires Ranked(sys) && s < |sys.defs|
    decreases sys.rank[s], 9, 0
  {
    assert SymbolRanked(sys, s);
    match sys.defs[s].role
    case Member(c) =>
      if Visible(sys, s) == YES then (if Chosen(sys, c) == Some(s) then YES else NO) else OwnValue(sys, s)
    case Choice(_) => if OwnValue(sys, s) == YES && Chosen(sys, s).None? then NO else OwnValue(sys, s)
    case Plain => OwnValue(sys, s)
  }
}
