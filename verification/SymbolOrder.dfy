/** When an order of calculation exists, and what a quiet search for recursive dependencies says about it (symbol.c). */
module SymbolOrder {
  import opened Tristates
  import opened Exprs
  import opened Symbols
  import opened SymbolCheck

  // ----- what parsing and menu_finalize settle -----

  /** The properties with a text are searched by sym_check_deps. */
  predicate IsSearched(p: Property) {
    p.kind != ChoiceProp && p.kind != SelectProp && p.kind != DeselectProp
  }

  predicate ExprsKnown(defs: seq<SymDef>, d: SymDef) {
    && OptKnown(defs, d.revDep) && OptKnown(defs, d.revDepInv)
    && (forall p | p in d.props && IsPrompt(p) :: OptKnown(defs, p.visible) && IsSearched(p))
    && (forall p | p in d.props && IsDefault(p) ::
          OptKnown(defs, p.visible) && (!d.role.Choice? ==> OptKnown(defs, p.expr)))
  }

  /** A choice and its values know each other, and only values are picked. */
  predicate ChoiceStatic(defs: seq<SymDef>, user: seq<User>, c: nat)
    requires c < |defs| == |user|
  {
    defs[c].role.Choice? ==>
      var members := defs[c].role.members;
      && (forall m | m in members :: m < |defs| && defs[m].role == Member(c))
      && (user[c].sel.Some? ==> user[c].sel.value in members)
      && (forall p | p in defs[c].props && IsDefault(p) :: PicksMember(members, DefaultPick(p)))
  }

  predicate MemberStatic(defs: seq<SymDef>, s: nat)
    requires s < |defs|
  {
    defs[s].role.Member? ==>
      var c := defs[s].role.choice;
      && c < |defs| && defs[c].role.Choice? && s in defs[c].role.members
      && (forall p | p in defs[s].props && IsLivePrompt(p) :: c in OptIds(p.visible))
  }

  predicate StaticAt(defs: seq<SymDef>, user: seq<User>, s: nat)
    requires s < |defs| == |user|
  {
    && IsLogicalType(defs[s].typ) && ExprsKnown(defs, defs[s])
    && ChoiceStatic(defs, user, s) && MemberStatic(defs, s)
  }

  /** Types, roles and symbols are in order; nothing is said about dependencies. */
  predicate Static(defs: seq<SymDef>, user: seq<User>) {
    |defs| == |user| && forall s | 0 <= s < |defs| :: StaticAt(defs, user, s)
  }

  // ----- what a calculation needs -----

  /** The visibility of a symbol depends on `t`. */
  predicate VisibilityEdge(d: SymDef, t: nat) {
    t in OptIds(d.revDepInv) || exists p :: p in d.props && IsPrompt(p) && t in OptIds(p.visible)
  }

  /** Its selection level or a default depends on `t`. */
  predicate ValueEdge(d: SymDef, t: nat) {
    t in OptIds(d.revDep) ||
    exists p :: p in d.props && IsDefault(p) &&
                (t in OptIds(p.visible) || (!d.role.Choice? && t in OptIds(p.expr)))
  }

  /** To pick, a choice looks at the visibility of its values while it counts as y itself. */
  predicate PickEdge(defs: seq<SymDef>, c: nat, t: nat)
    requires c < |defs|
  {
    defs[c].role.Choice? && t != c &&
    exists m :: m in defs[c].role.members && m < |defs| && VisibilityEdge(defs[m], t)
  }

  /** Calculating `s` needs the value of `t`. */
  predicate Needs(defs: seq<SymDef>, s: nat, t: nat) {
    s < |defs| &&
    (ValueEdge(defs[s], t) || PickEdge(defs, s, t) ||
     if defs[s].role.Member? then t == defs[s].role.choice else VisibilityEdge(defs[s], t))
  }

  /**
   * The needs that sym_check_deps does not follow as such: deselection, what the values of a choice depend on, and the
   * choice of a value (which the prompts of the value mention, unless they can never be shown).
   */
  predicate UnseenEdge(defs: seq<SymDef>, s: nat, t: nat) {
    s < |defs| &&
    (PickEdge(defs, s, t) ||
     if defs[s].role.Member? then t == defs[s].role.choice else t in OptIds(defs[s].revDepInv))
  }

  ghost predicate AllFall(sys: Sys) {
    |sys.rank| == |sys.defs| && forall s: nat, t: nat | Needs(sys.defs, s, t) :: FallsAlong(sys.defs, sys.rank, s, t)
  }

  // ----- ranked systems are those in which all needs fall -----

  lemma {:induction false} KnownIds(defs: seq<SymDef>, e: Expr)
    requires Known(defs, e)
    ensures forall t | t in Ids(e) :: t < |defs|
  {
    match e
    case Not(x) => KnownIds(defs, x);
    case Bin(_, l, r) =>
      KnownIds(defs, l);
      KnownIds(defs, r);
    case _ =>
  }

  lemma KnownOptIds(defs: seq<SymDef>, e: Option<Expr>)
    requires OptKnown(defs, e)
    ensures forall t | t in OptIds(e) :: t < |defs|
  {
    if e.Some? {
      KnownIds(defs, e.value);
    }
  }

  /** If the symbols of an expression that are not overridden rank below the bound, it may be evaluated. */
  lemma BelowIf(sys: Sys, e: Option<Expr>, bound: nat, over: Option<nat>)
    requires |sys.rank| == |sys.defs| && OptKnown(sys.defs, e)
    requires forall t: nat | t in OptIds(e) && t < |sys.rank| && over != Some(t) :: sys.rank[t] < bound
    ensures Below(sys, e, bound, over)
  {
    KnownOptIds(sys.defs, e);
  }

  lemma VisibilityFalls(sys: Sys, s: nat, bound: nat, over: Option<nat>)
    requires s < |sys.defs| == |sys.rank| && ExprsKnown(sys.defs, sys.defs[s])
    requires forall t: nat | VisibilityEdge(sys.defs[s], t) && t < |sys.rank| && over != Some(t) :: sys.rank[t] < bound
    ensures VisibilityBelow(sys, s, bound, over)
  {
    BelowIf(sys, sys.defs[s].revDepInv, bound, over);
    forall p | p in sys.defs[s].props && IsPrompt(p) ensures Below(sys, p.visible, bound, over) {
      BelowIf(sys, p.visible, bound, over);
    }
  }

  lemma ValuePartFalls(sys: Sys, s: nat, e: Option<Expr>)
    requires AllFall(sys) && s < |sys.defs| && OptKnown(sys.defs, e)
    requires forall t: nat | t in OptIds(e) :: ValueEdge(sys.defs[s], t)
    ensures Below(sys, e, sys.rank[s], None)
  {
    forall t: nat | t in OptIds(e) ensures FallsAlong(sys.defs, sys.rank, s, t) {
      assert Needs(sys.defs, s, t);
    }
    BelowIf(sys, e, sys.rank[s], None);
  }

  lemma ValueFalls(sys: Sys, s: nat)
    requires Static(sys.defs, sys.user) && AllFall(sys) && s < |sys.defs|
    ensures Below(sys, sys.defs[s].revDep, sys.rank[s], None) && DefaultsBelow(sys, s)
  {
    assert StaticAt(sys.defs, sys.user, s);
    ValuePartFalls(sys, s, sys.defs[s].revDep);
    forall p | p in sys.defs[s].props && IsDefault(p)
      ensures Below(sys, p.visible, sys.rank[s], None)
      ensures !sys.defs[s].role.Choice? ==> Below(sys, p.expr, sys.rank[s], None)
    {
      ValuePartFalls(sys, s, p.visible);
      if !sys.defs[s].role.Choice? {
        ValuePartFalls(sys, s, p.expr);
      }
    }
  }

  /** A choice may look at its values. */
  lemma PickFalls(sys: Sys, c: nat, m: nat)
    requires Static(sys.defs, sys.user) && AllFall(sys) && c < |sys.defs|
    requires sys.defs[c].role.Choice? && m in sys.defs[c].role.members
    ensures m < |sys.defs| && VisibilityBelow(sys, m, sys.rank[c], Some(c))
    ensures VisibilityBelow(sys, m, sys.rank[c] + 1, None)
  {
    assert StaticAt(sys.defs, sys.user, c);
    assert StaticAt(sys.defs, sys.user, m);
    forall t: nat | VisibilityEdge(sys.defs[m], t) && t != c ensures FallsAlong(sys.defs, sys.rank, c, t) {
      assert Needs(sys.defs, c, t);
    }
    VisibilityFalls(sys, m, sys.rank[c], Some(c));
    VisibilityFalls(sys, m, sys.rank[c] + 1, None);
  }

  lemma FallingIsRanked(sys: Sys)
    requires Static(sys.defs, sys.user) && AllFall(sys)
    ensures Ranked(sys)
  {
    forall s | 0 <= s < |sys.defs| ensures SymbolRanked(sys, s) {
      assert StaticAt(sys.defs, sys.user, s);
      ValueFalls(sys, s);
      match sys.defs[s].role
      case Member(c) =>
        assert Needs(sys.defs, s, c);
        PickFalls(sys, c, s);
      case Choice(members) =>
        OwnVisibilityFalls(sys, s);
        forall m | m in members ensures VisibilityBelow(sys, m, sys.rank[s], Some(s)) {
          PickFalls(sys, s, m);
        }
      case Plain => OwnVisibilityFalls(sys, s);
    }
  }

  lemma OwnVisibilityFalls(sys: Sys, s: nat)
    requires Static(sys.defs, sys.user) && AllFall(sys) && s < |sys.defs| && !sys.defs[s].role.Member?
    ensures VisibilityBelow(sys, s, sys.rank[s], None)
  {
    assert StaticAt(sys.defs, sys.user, s);
    forall t: nat | VisibilityEdge(sys.defs[s], t) ensures FallsAlong(sys.defs, sys.rank, s, t) {
      assert Needs(sys.defs, s, t);
    }
    VisibilityFalls(sys, s, sys.rank[s], None);
  }

  lemma RankedIsFalling(sys: Sys, s: nat, t: nat)
    requires Ranked(sys) && Needs(sys.defs, s, t)
    ensures FallsAlong(sys.defs, sys.rank, s, t)
  {
    assert SymbolRanked(sys, s);
    if PickEdge(sys.defs, s, t) {
      var m :| m in sys.defs[s].role.members && m < |sys.defs| && VisibilityEdge(sys.defs[m], t);
      assert VisibilityBelow(sys, m, sys.rank[s], Some(s));
    }
  }

  lemma RankedIff(sys: Sys)
    requires Static(sys.defs, sys.user)
    ensures Ranked(sys) <==> AllFall(sys)
  {
    if Ranked(sys) {
      forall s: nat, t: nat | Needs(sys.defs, s, t) ensures FallsAlong(sys.defs, sys.rank, s, t) {
        RankedIsFalling(sys, s, t);
      }
    }
    if AllFall(sys) {
      FallingIsRanked(sys);
    }
  }

  // ----- after a quiet search -----

  lemma {:induction false} IdsAreMentioned(e: Expr)
    ensures Ids(e) <= Mentions(e)
  {
    match e
    case Not(x) => IdsAreMentioned(x);
    case Bin(_, l, r) =>
      IdsAreMentioned(l);
      IdsAreMentioned(r);
    case _ =>
  }

  lemma OptIdsAreMentioned(e: Option<Expr>)
    ensures OptIds(e) <= OptMentions(e)
  {
    if e.Some? {
      IdsAreMentioned(e.value);
    }
  }

  /** The search follows every other need. */
  lemma NeedIsSeenOrUnseen(defs: seq<SymDef>, user: seq<User>, s: nat, t: nat)
    requires Static(defs, user) && Needs(defs, s, t)
    ensures Edge(defs, s, t) || UnseenEdge(defs, s, t)
  {
    assert StaticAt(defs, user, s);
    var d := defs[s];
    if !UnseenEdge(defs, s, t) {
      OptIdsAreMentioned(d.revDep);
      if t !in OptMentions(d.revDep) {
        var p :| p in d.props && (IsPrompt(p) || IsDefault(p)) &&
                 (t in OptIds(p.visible) || (IsDefault(p) && !d.role.Choice? && t in OptIds(p.expr)));
        OptIdsAreMentioned(p.visible);
        OptIdsAreMentioned(p.expr);
        assert PropertyEdge(d, p, t);
      }
    }
  }

  /** The numbering a quiet search leaves is an order of calculation exactly if it falls along what was not seen. */
  lemma QuietIsOrderIff(sys: Sys)
    requires Ranking(sys.defs, sys.rank) && Static(sys.defs, sys.user)
    ensures Ranked(sys) <==>
            forall s: nat, t: nat | UnseenEdge(sys.defs, s, t) :: FallsAlong(sys.defs, sys.rank, s, t)
  {
    RankedIff(sys);
    forall s: nat, t: nat | UnseenEdge(sys.defs, s, t) ensures Needs(sys.defs, s, t) {}
    forall s: nat, t: nat | Needs(sys.defs, s, t) ensures Edge(sys.defs, s, t) || UnseenEdge(sys.defs, s, t) {
      NeedIsSeenOrUnseen(sys.defs, sys.user, s, t);
    }
  }

  // ----- whether there is any order at all -----

  predicate IsNeedPath(defs: seq<SymDef>, p: seq<nat>) {
    forall i | 0 < i < |p| :: Needs(defs, p[i - 1], p[i])
  }

  predicate IsNeedCycle(defs: seq<SymDef>, p: seq<nat>) {
    |p| >= 2 && p[0] == p[|p| - 1] && IsNeedPath(defs, p)
  }

  lemma {:induction false} FallsOnPath(sys: Sys, p: seq<nat>)
    requires AllFall(sys) && IsNeedPath(sys.defs, p) && |p| >= 2
    ensures FallsAlong(sys.defs, sys.rank, p[0], p[|p| - 1])
  {
    var q := p[..|p| - 1];
    assert Needs(sys.defs, p[|p| - 2], p[|p| - 1]);
    if |q| >= 2 {
      FallsOnPath(sys, q);
    }
  }

  lemma NeedIsKnown(defs: seq<SymDef>, user: seq<User>, s: nat, t: nat)
    requires Static(defs, user) && Needs(defs, s, t)
    ensures t < |defs|
  {
    assert StaticAt(defs, user, s);
    var d := defs[s];
    KnownOptIds(defs, d.revDep);
    if PickEdge(defs, s, t) {
      var m :| m in d.role.members && m < |defs| && VisibilityEdge(defs[m], t);
      assert StaticAt(defs, user, m);
      VisibilityIsKnown(defs, defs[m], t);
    } else if !d.role.Member? && VisibilityEdge(d, t) {
      VisibilityIsKnown(defs, d, t);
    } else if ValueEdge(d, t) && t !in OptIds(d.revDep) {
      var p :| p in d.props && IsDefault(p) && (t in OptIds(p.visible) || (!d.role.Choice? && t in OptIds(p.expr)));
      KnownOptIds(defs, p.visible);
      if !d.role.Choice? {
        KnownOptIds(defs, p.expr);
      }
    }
  }

  lemma VisibilityIsKnown(defs: seq<SymDef>, d: SymDef, t: nat)
    requires ExprsKnown(defs, d) && VisibilityEdge(d, t)
    ensures t < |defs|
  {
    KnownOptIds(defs, d.revDepInv);
    if t !in OptIds(d.revDepInv) {
      var p :| p in d.props && IsPrompt(p) && t in OptIds(p.visible);
      KnownOptIds(defs, p.visible);
    }
  }

  /** A walk longer than the number of places comes to some place twice. */
  lemma {:induction false} Pigeonhole(p: seq<nat>, places: set<nat>)
    requires |p| > |places| && forall i | 0 <= i < |p| :: p[i] in places
    ensures exists i, j :: 0 <= i < j < |p| && p[i] == p[j]
    decreases |p|
  {
    var n := |p| - 1;
    if forall i | 0 <= i < n :: p[i] != p[n] {
      Pigeonhole(p[..n], places - {p[n]});
      var i, j :| 0 <= i < j < n && p[..n][i] == p[..n][j];
      assert p[i] == p[j];
    }
  }

  ghost predicate NeedsOneOf(defs: seq<SymDef>, places: set<nat>, s: nat) {
    exists t :: t in places && Needs(defs, s, t)
  }

  /** Every symbol of the set needs another one of it. */
  ghost predicate Endless(defs: seq<SymDef>, places: set<nat>) {
    forall s {:trigger NeedsOneOf(defs, places, s)} | s in places :: NeedsOneOf(defs, places, s)
  }

  lemma {:induction false} LongWalk(defs: seq<SymDef>, places: set<nat>, n: nat) returns (p: seq<nat>)
    requires places != {} && Endless(defs, places)
    ensures |p| == n + 1 && IsNeedPath(defs, p) && forall i | 0 <= i < |p| :: p[i] in places
  {
    if n == 0 {
      var s :| s in places;
      p := [s];
    } else {
      var q := LongWalk(defs, places, n - 1);
      assert NeedsOneOf(defs, places, q[n - 1]);
      var t :| t in places && Needs(defs, q[n - 1], t);
      p := q + [t];
    }
  }

  lemma CycleInside(defs: seq<SymDef>, places: set<nat>)
    requires places != {} && Endless(defs, places)
    ensures exists p :: IsNeedCycle(defs, p)
  {
    var p := LongWalk(defs, places, |places|);
    Pigeonhole(p, places);
    var i, j :| 0 <= i < j < |p| && p[i] == p[j];
    PartOfPath(defs, p, i, j);
  }

  lemma PartOfPath(defs: seq<SymDef>, p: seq<nat>, i: nat, j: nat)
    requires IsNeedPath(defs, p) && i < j < |p| && p[i] == p[j]
    ensures IsNeedCycle(defs, p[i..j + 1])
  {
    var q := p[i..j + 1];
    forall k | 0 < k < |q| ensures Needs(defs, q[k - 1], q[k]) {
      assert q[k - 1] == p[i + k - 1] && q[k] == p[i + k];
    }
  }

  /** Every symbol in the order comes after all it needs, and none comes twice. */
  ghost predicate InOrder(defs: seq<SymDef>, order: seq<nat>) {
    && (forall i, j | 0 <= i < j < |order| :: order[i] != order[j])
    && forall i | 0 <= i < |order| :: order[i] < |defs| && Supplied(defs, order[..i], order[i])
  }

  ghost predicate Supplied(defs: seq<SymDef>, before: seq<nat>, s: nat) {
    forall t: nat | Needs(defs, s, t) :: t in before
  }

  lemma NextInOrder(defs: seq<SymDef>, user: seq<User>, order: seq<nat>, left: set<nat>) returns (s: nat)
    requires Static(defs, user) && forall p :: !IsNeedCycle(defs, p)
    requires left != {} && forall x: nat :: x in left <==> x < |defs| && x !in order
    ensures s in left && Supplied(defs, order, s)
  {
    if forall x | x in left :: !Supplied(defs, order, x) {
      forall x | x in left ensures NeedsOneOf(defs, left, x) {
        var t: nat :| Needs(defs, x, t) && t !in order;
        NeedIsKnown(defs, user, x, t);
      }
      CycleInside(defs, left);
      assert false;
    }
    s :| s in left && Supplied(defs, order, s);
  }

  lemma {:induction false} CompleteOrder(defs: seq<SymDef>, user: seq<User>, order: seq<nat>, left: set<nat>)
      returns (all: seq<nat>)
    requires Static(defs, user) && forall p :: !IsNeedCycle(defs, p)
    requires InOrder(defs, order) && forall x: nat :: x in left <==> x < |defs| && x !in order
    ensures InOrder(defs, all) && forall x | 0 <= x < |defs| :: x in all
    decreases left
  {
    if left == {} {
      all := order;
    } else {
      var s := NextInOrder(defs, user, order, left);
      var more := order + [s];
      forall i | 0 <= i < |more| ensures more[i] < |defs| && Supplied(defs, more[..i], more[i]) {
        assert more[..i] == order[..i];
      }
      all := CompleteOrder(defs, user, more, left - {s});
    }
  }

  function UpTo(n: nat): (r: set<nat>)
    ensures forall x: nat :: x in r <==> x < n
  {
    if n == 0 then {} else UpTo(n - 1) + {n - 1}
  }

  lemma OrderIsRank(sys: Sys, order: seq<nat>) returns (rank: seq<nat>)
    requires InOrder(sys.defs, order) && forall x | 0 <= x < |sys.defs| :: x in order
    ensures AllFall(sys.(rank := rank))
  {
    var n := |sys.defs|;
    rank := seq(n, s requires 0 <= s < n => Position(order, s));
    forall s: nat, t: nat | Needs(sys.defs, s, t) ensures FallsAlong(sys.defs, rank, s, t) {
      var i := Position(order, s);
      assert Supplied(sys.defs, order[..i], order[i]);
      var j :| 0 <= j < i && order[j] == t;
    }
  }

  ghost predicate RankedBy(sys: Sys, rank: seq<nat>) {
    Ranked(sys.(rank := rank))
  }

  /** An order of calculation exists if and only if no symbol, step by step, needs itself. */
  lemma OrderExistsIff(sys: Sys)
    requires Static(sys.defs, sys.user)
    ensures (exists rank :: RankedBy(sys, rank)) <==> forall p :: !IsNeedCycle(sys.defs, p)
  {
    if rank :| RankedBy(sys, rank) {
      RankedIff(sys.(rank := rank));
      forall p ensures !IsNeedCycle(sys.defs, p) {
        if IsNeedCycle(sys.defs, p) {
          FallsOnPath(sys.(rank := rank), p);
        }
      }
    }
    if forall p :: !IsNeedCycle(sys.defs, p) {
      var order := CompleteOrder(sys.defs, sys.user, [], UpTo(|sys.defs|));
      var rank := OrderIsRank(sys, order);
      RankedIff(sys.(rank := rank));
      assert RankedBy(sys, rank);
    }
  }

  // ----- quiet, but without an order -----

  const UNSET := User(false, NO, None)

  /** A symbol that is deselected when it is itself y. */
  function DeselectsItself(): seq<SymDef> {
    [SymDef(BooleanType, Plain, [], None, Some(Sym(Config(0, BooleanType))))]
  }

  /** Cycles through deselect go unnoticed. */
  lemma DeselectCycleUnnoticed()
    ensures Ranking(DeselectsItself(), [0]) && Static(DeselectsItself(), [UNSET])
    ensures forall sys: Sys :: sys.defs == DeselectsItself() ==> !Ranked(sys)
  {
    assert 0 in OptIds(DeselectsItself()[0].revDepInv);
    forall sys: Sys | sys.defs == DeselectsItself() ensures !Ranked(sys) {
      if Ranked(sys) {
        RankedIsFalling(sys, 0, 0);
        assert false;
      }
    }
  }

  /** A boolean choice 0 with the values 1 and 2, the first of which depends on the second. */
  function ValueNeedsValue(): seq<SymDef> {
    var choice, second := Sym(Config(0, BooleanType)), Sym(Config(2, BooleanType));
    [SymDef(BooleanType, Choice([1, 2]), [Property(PromptProp, true, None, None)], None, None),
     SymDef(BooleanType, Member(0), [Property(PromptProp, true, Some(Bin(AndOp, choice, second)), None)], None, None),
     SymDef(BooleanType, Member(0), [Property(PromptProp, true, Some(choice), None)], None, None)]
  }

  /** The search is quiet, there is no deselect, and still there is no order: the choice looks at its second value. */
  lemma ChoiceCycleUnnoticed()
    ensures var defs := ValueNeedsValue();
            Ranking(defs, [0, 2, 1]) && Static(defs, [UNSET, UNSET, UNSET])
    ensures forall s | 0 <= s < 3 :: ValueNeedsValue()[s].revDepInv.None?
    ensures forall sys: Sys :: sys.defs == ValueNeedsValue() ==> !Ranked(sys)
  {
    ValueNeedsValueIsRanking();
    ValueNeedsValueIsStatic();
    forall sys: Sys | sys.defs == ValueNeedsValue() ensures !Ranked(sys) {
      if Ranked(sys) {
        ChoiceNeedsValue();
        RankedIsFalling(sys, 0, 2);
        RankedIsFalling(sys, 2, 0);
        assert false;
      }
    }
  }

  lemma ValueNeedsValueIsRanking()
    ensures Ranking(ValueNeedsValue(), [0, 2, 1])
  {
    var defs := ValueNeedsValue();
    forall s: nat, t: nat | Edge(defs, s, t) ensures FallsAlong(defs, [0, 2, 1], s, t) {
      var p :| p in defs[s].props && PropertyEdge(defs[s], p, t);
      assert p == defs[s].props[0];
    }
  }

  lemma ValueNeedsValueIsStatic()
    ensures Static(ValueNeedsValue(), [UNSET, UNSET, UNSET])
  {}

  lemma ChoiceNeedsValue()
    ensures Needs(ValueNeedsValue(), 0, 2) && Needs(ValueNeedsValue(), 2, 0)
  {
    var defs := ValueNeedsValue();
    var p := defs[1].props[0];
    assert p in defs[1].props && 2 in OptIds(p.visible);
    assert VisibilityEdge(defs[1], 2) && 1 in defs[0].role.members;
  }

  /** The pick of the choice among its values as they stand: the first one that is visible. */
  function FirstVisible(env: Env): Option<nat> {
    var defs := ValueNeedsValue();
    if EvalOpt(defs[1].props[0].visible, env) != NO then Some(1)
    else if EvalOpt(defs[2].props[0].visible, env) != NO then Some(2)
    else None
  }

  /** There cannot be one: no values at all agree with the pick that is made from them. */
  lemma NoValuesFit(env: Env)
    requires env.tri(Config(0, BooleanType)) == YES
    ensures !(env.tri(Config(1, BooleanType)) == FromBool(FirstVisible(env) == Some(1)) &&
              env.tri(Config(2, BooleanType)) == FromBool(FirstVisible(env) == Some(2)))
  {
    var defs, choice, second := ValueNeedsValue(), Config(0, BooleanType), Config(2, BooleanType);
    assert EvalOpt(defs[2].props[0].visible, env) == TriOf(env, choice) == YES;
    assert defs[1].props[0].visible == Some(Bin(AndOp, Sym(choice), Sym(second)));
    assert Eval(Bin(AndOp, Sym(choice), Sym(second)), env) == Min(Eval(Sym(choice), env), Eval(Sym(second), env));
    assert EvalOpt(defs[1].props[0].visible, env) == env.tri(second);
  }
}
