/** What the calculated fields of the symbols mean while values are being worked out (symbol.c). */
module SymbolMemo {
  import opened Tristates
  import opened Exprs
  import opened Symbols

  /** The calculated fields of all symbols: SYMBOL_VALID, curr.tri, curr.val of choices, visible, rev_dep.tri. */
  datatype Snap = Snap(valid: seq<bool>, curr: seq<Tristate>, chosen: seq<Option<nat>>,
                       visible: seq<Tristate>, revDep: seq<Tristate>)

  predicate Shaped(defs: seq<SymDef>, user: seq<User>, m: Snap) {
    |user| == |m.valid| == |m.curr| == |m.chosen| == |m.visible| == |m.revDep| == |defs|
  }

  predicate HasLivePrompt(d: SymDef) {
    exists p :: p in d.props && IsLivePrompt(p)
  }

  /** The pointers between symbols lead somewhere. */
  predicate WellFormed(defs: seq<SymDef>, user: seq<User>) {
    && |user| == |defs|
    && forall s | 0 <= s < |defs| :: DefWellFormed(defs, user, s)
  }

  predicate DefWellFormed(defs: seq<SymDef>, user: seq<User>, s: nat)
    requires s < |defs| == |user|
  {
    var d := defs[s];
    && OptKnown(defs, d.revDep) && OptKnown(defs, d.revDepInv)
    && (forall p | p in d.props :: OptKnown(defs, p.visible) && (!d.role.Choice? ==> OptKnown(defs, p.expr)))
    && (forall p | p in d.props && d.role.Choice? && IsDefault(p) :: PickInRange(defs, DefaultPick(p)))
    && (user[s].sel.Some? ==> user[s].sel.value < |defs|)
    && (d.role.Choice? ==> forall m | m in d.role.members :: m < |defs|)
    && (d.role.Member? ==> d.role.choice < |defs|)
  }

  predicate PickInRange(defs: seq<SymDef>, pick: Option<nat>) {
    pick.Some? && pick.value < |defs|
  }

  /** A finished symbol has the value, visibility, selection level and pick of its definition. */
  ghost predicate Right(sys: Sys, m: Snap, s: nat)
    requires Ranked(sys) && Shaped(sys.defs, sys.user, m) && s < |sys.defs|
  {
    var role := sys.defs[s].role;
    && m.curr[s] == Value(sys, s)
    && m.visible[s] == Visible(sys, s)
    && (!Deselected(sys, s) ==> m.revDep[s] == Selected(sys, s))
    && (role.Choice? ==> m.chosen[s] == Chosen(sys, s))
    && (role.Member? && HasLivePrompt(sys.defs[s]) ==> role.choice < |m.valid| && m.valid[role.choice])
  }

  /** Every valid symbol that is not being worked on is right. */
  ghost predicate Memo(sys: Sys, m: Snap, busy: set<nat>)
    requires Ranked(sys) && Shaped(sys.defs, sys.user, m)
  {
    forall s | 0 <= s < |sys.defs| && m.valid[s] && s !in busy :: Right(sys, m, s)
  }

  /** Choice values are never selected. */
  predicate MembersUnselected(defs: seq<SymDef>, revDep: seq<Tristate>) {
    forall s | 0 <= s < |defs| && s < |revDep| && defs[s].role.Member? :: revDep[s] == NO
  }

  ghost predicate Inv(sys: Sys, m: Snap, busy: set<nat>) {
    && Shaped(sys.defs, sys.user, m) && WellFormed(sys.defs, sys.user) && MembersUnselected(sys.defs, m.revDep)
    && (forall b | b in busy :: b < |sys.defs| && m.valid[b])
    && (Ranked(sys) ==> Memo(sys, m, busy))
  }

  /** Everything being worked on ranks at least as high as the bound. */
  predicate Allowed(sys: Sys, busy: set<nat>, bound: nat) {
    |sys.rank| == |sys.defs| && forall b | b in busy && b < |sys.rank| :: bound <= sys.rank[b]
  }

  predicate OverrideOk(m: Snap, busy: set<nat>, over: Option<nat>) {
    over.Some? ==>
      && over.value in busy && over.value < |m.curr| == |m.valid|
      && m.curr[over.value] == YES && m.valid[over.value]
  }

  /** A member whose visibility was looked at because its choice, not valid before, was picking. */
  predicate LookedAt(sys: Sys, a: Snap, b: Snap, s: nat)
    requires s < |sys.defs| && |b.visible| == |sys.defs|
  {
    var role := sys.defs[s].role;
    && role.Member? && role.choice < |a.valid| && !a.valid[role.choice]
    && (!HasLivePrompt(sys.defs[s]) ==> b.visible[s] == NO)
  }

  /** What calculating does to the fields: valid symbols stay as they are, apart from the members looked at. */
  predicate Extends(sys: Sys, a: Snap, b: Snap, bound: nat, self: Option<nat>) {
    && |a.valid| == |b.valid| && Shaped(sys.defs, sys.user, a) && Shaped(sys.defs, sys.user, b)
    && (forall s | 0 <= s < |sys.defs| && a.valid[s] ::
          b.valid[s] && b.curr[s] == a.curr[s] && b.chosen[s] == a.chosen[s])
    && (Ranked(sys) ==> forall s | 0 <= s < |sys.defs| && a.valid[s] && self != Some(s) :: b.revDep[s] == a.revDep[s])
    && (Ranked(sys) ==> forall s | 0 <= s < |sys.defs| && a.valid[s] && self != Some(s) ::
          b.visible[s] == a.visible[s] || LookedAt(sys, a, b, s))
    && (Ranked(sys) ==> forall s | 0 <= s < |sys.defs| && b.valid[s] && !a.valid[s] :: sys.rank[s] < bound)
  }

  lemma ExtendsTransitive(sys: Sys, a: Snap, b: Snap, c: Snap, bound: nat, bound': nat, self: Option<nat>)
    requires Extends(sys, a, b, bound, self) && Extends(sys, b, c, bound', self) && bound' <= bound
    ensures Extends(sys, a, c, bound, self)
  {
    if Ranked(sys) {
      forall s | 0 <= s < |sys.defs| && a.valid[s] && self != Some(s)
        ensures c.visible[s] == a.visible[s] || LookedAt(sys, a, c, s)
      {
        assert b.visible[s] == a.visible[s] || LookedAt(sys, a, b, s);
        assert c.visible[s] == b.visible[s] || LookedAt(sys, b, c, s);
      }
    }
  }

  lemma ExtendsWeaken(sys: Sys, a: Snap, b: Snap, bound: nat, bound': nat, self: Option<nat>)
    requires Extends(sys, a, b, bound, None) && (Ranked(sys) ==> bound <= bound')
    ensures Extends(sys, a, b, bound', self)
  {}

  lemma OverrideKept(sys: Sys, a: Snap, b: Snap, bound: nat, self: Option<nat>, busy: set<nat>, over: Option<nat>)
    requires Extends(sys, a, b, bound, self) && OverrideOk(a, busy, over)
    ensures OverrideOk(b, busy, over)
  {}

  /** Like Extends, seen from inside the calculation of `c`: its own fields are free, its members may be looked at. */
  predicate Around(sys: Sys, a: Snap, b: Snap, bound: nat, c: nat) {
    && Shaped(sys.defs, sys.user, a) && Shaped(sys.defs, sys.user, b)
    && (forall s | 0 <= s < |sys.defs| && a.valid[s] :: b.valid[s])
    && (forall s | 0 <= s < |sys.defs| && a.valid[s] && s != c ::
          b.curr[s] == a.curr[s] && b.chosen[s] == a.chosen[s])
    && (Ranked(sys) ==> forall s | 0 <= s < |sys.defs| && a.valid[s] && s != c :: b.revDep[s] == a.revDep[s])
    && (Ranked(sys) ==> forall s | 0 <= s < |sys.defs| && a.valid[s] && s != c ::
          b.visible[s] == a.visible[s] || LookedAt(sys, a, b, s) || LookedAtBy(sys, b, s, c))
    && (Ranked(sys) ==> forall s | 0 <= s < |sys.defs| && b.valid[s] && !a.valid[s] && s != c :: sys.rank[s] < bound)
  }

  predicate LookedAtBy(sys: Sys, b: Snap, s: nat, c: nat)
    requires s < |sys.defs| && |b.visible| == |sys.defs|
  {
    sys.defs[s].role == Member(c) && (!HasLivePrompt(sys.defs[s]) ==> b.visible[s] == NO)
  }

  lemma ExtendsIsAround(sys: Sys, a: Snap, b: Snap, bound: nat, self: Option<nat>, c: nat)
    requires Extends(sys, a, b, bound, self) && (self == None || self == Some(c))
    ensures Around(sys, a, b, bound, c)
  {}

  lemma AroundTransitive(sys: Sys, a: Snap, b: Snap, d: Snap, bound: nat, c: nat)
    requires Around(sys, a, b, bound, c) && Around(sys, b, d, bound, c)
    ensures Around(sys, a, d, bound, c)
  {
    if Ranked(sys) {
      forall s | 0 <= s < |sys.defs| && a.valid[s] && s != c
        ensures d.visible[s] == a.visible[s] || LookedAt(sys, a, d, s) || LookedAtBy(sys, d, s, c)
      {
        assert b.visible[s] == a.visible[s] || LookedAt(sys, a, b, s) || LookedAtBy(sys, b, s, c);
        assert d.visible[s] == b.visible[s] || LookedAt(sys, b, d, s) || LookedAtBy(sys, d, s, c);
      }
    }
  }

  /** Looking at a member of `c`. */
  lemma LookIsAround(sys: Sys, a: Snap, b: Snap, bound: nat, s: nat, c: nat)
    requires Extends(sys, a, b, bound, Some(s)) && s < |sys.defs|
    requires Ranked(sys) ==> sys.defs[s].role == Member(c)
    requires Ranked(sys) && a.valid[s] ==> b.revDep[s] == a.revDep[s]
    requires Ranked(sys) && !HasLivePrompt(sys.defs[s]) ==> b.visible[s] == NO
    ensures Around(sys, a, b, bound, c)
  {
    if Ranked(sys) {
      forall x | 0 <= x < |sys.defs| && a.valid[x] && x != c
        ensures b.visible[x] == a.visible[x] || LookedAt(sys, a, b, x) || LookedAtBy(sys, b, x, c)
      {
        if x == s {
          assert LookedAtBy(sys, b, x, c);
        }
      }
    }
  }

  /** From outside, the finished calculation of `c` is an extension. */
  lemma AroundDone(sys: Sys, a: Snap, b: Snap, bound: nat, c: nat)
    requires Around(sys, a, b, bound, c) && c < |sys.defs| && !a.valid[c]
    requires Ranked(sys) ==> bound <= sys.rank[c]
    ensures Extends(sys, a, b, if Ranked(sys) then sys.rank[c] + 1 else 0, None)
  {
    if Ranked(sys) {
      forall s | 0 <= s < |sys.defs| && a.valid[s]
        ensures b.visible[s] == a.visible[s] || LookedAt(sys, a, b, s)
      {
        assert b.visible[s] == a.visible[s] || LookedAt(sys, a, b, s) || LookedAtBy(sys, b, s, c);
      }
    }
  }

  /** The members of `c` are not finished, or have nothing to look at. */
  predicate MembersOpen(sys: Sys, m: Snap, busy: set<nat>, c: nat)
    requires c < |sys.defs| == |m.valid|
  {
    sys.defs[c].role.Choice? ==>
      forall s | s in sys.defs[c].role.members ::
        s < |sys.defs| && (s in busy || !m.valid[s] || !HasLivePrompt(sys.defs[s]))
  }

  /** As long as the choice itself is not valid, none of its members with a prompt can be finished. */
  lemma MembersOpenAtStart(sys: Sys, m: Snap, busy: set<nat>, c: nat)
    requires Inv(sys, m, busy) && Ranked(sys) && c < |sys.defs| && !m.valid[c]
    ensures MembersOpen(sys, m, busy, c)
  {
    if sys.defs[c].role.Choice? {
      assert ChoiceOk(sys, c) by { assert SymbolRanked(sys, c); }
    }
  }

  lemma MembersStayOpen(sys: Sys, a: Snap, b: Snap, bound: nat, busy: set<nat>, c: nat)
    requires Around(sys, a, b, bound, c) && Ranked(sys) && c < |sys.defs| && bound <= sys.rank[c]
    requires MembersOpen(sys, a, busy, c)
    ensures MembersOpen(sys, b, busy, c)
  {
    if sys.defs[c].role.Choice? {
      forall s | s in sys.defs[c].role.members
        ensures s < |sys.defs| && (s in busy || !b.valid[s] || !HasLivePrompt(sys.defs[s]))
      {
        assert ChoiceOk(sys, c) by { assert SymbolRanked(sys, c); }
        assert MemberOk(sys, s) by { assert SymbolRanked(sys, s); }
      }
    }
  }

  lemma BelowOperands(sys: Sys, e: Expr, bound: nat, over: Option<nat>)
    requires e.Bin? && Below(sys, Some(e), bound, over)
    ensures Below(sys, Some(e.l), bound, over) && Below(sys, Some(e.r), bound, over)
  {
    assert OptIds(Some(e)) == Ids(e.l) + Ids(e.r);
  }

  /** A symbol's own visibility survives calculations of others once its prompts have been evaluated. */
  lemma VisibleKept(sys: Sys, a: Snap, b: Snap, bound: nat, s: nat)
    requires Extends(sys, a, b, bound, None) && Ranked(sys) && s < |sys.defs| && a.valid[s]
    requires sys.defs[s].role.Member? && HasLivePrompt(sys.defs[s]) ==>
               sys.defs[s].role.choice < |a.valid| && a.valid[sys.defs[s].role.choice]
    requires !HasLivePrompt(sys.defs[s]) ==> a.visible[s] == NO
    ensures b.visible[s] == a.visible[s] && b.revDep[s] == a.revDep[s]
  {
    assert b.visible[s] == a.visible[s] || LookedAt(sys, a, b, s);
  }

  /** All symbols of an expression are valid. */
  predicate AllValid(m: Snap, e: Option<Expr>) {
    forall d | d in OptIds(e) :: d < |m.valid| && m.valid[d]
  }

  predicate PromptsValid(m: Snap, props: seq<Property>) {
    forall p | p in props && IsPrompt(p) :: AllValid(m, p.visible)
  }

  lemma PromptsStayValid(sys: Sys, a: Snap, b: Snap, bound: nat, self: Option<nat>, props: seq<Property>)
    requires Extends(sys, a, b, bound, self) && PromptsValid(a, props)
    ensures PromptsValid(b, props)
  {
    forall p | p in props && IsPrompt(p) ensures AllValid(b, p.visible) {
      assert AllValid(a, p.visible);
    }
  }

  lemma PromptsValidStep(m: Snap, props: seq<Property>, i: nat)
    requires i < |props| && PromptsValid(m, props[..i]) && (IsPrompt(props[i]) ==> AllValid(m, props[i].visible))
    ensures PromptsValid(m, props[..i + 1])
  {
    assert props[..i + 1] == props[..i] + [props[i]];
  }

  /** One more property raises the highest prompt. */
  lemma HighestStep(sys: Sys, props: seq<Property>, i: nat, bound: nat, over: Option<nat>)
    requires Ranked(sys) && i < |props| && forall p | p in props && IsPrompt(p) :: Below(sys, p.visible, bound, over)
    ensures HighestPromptOf(sys, props[..i + 1], bound, over) ==
            var rest := HighestPromptOf(sys, props[..i], bound, over);
            if IsPrompt(props[i]) then Max(rest, ValueOfOpt(sys, props[i].visible, bound, over)) else rest
  {
    assert props[..i + 1][..i] == props[..i];
  }

  /** What the prompt loop keeps from one turn to the next. */
  lemma PromptTurn(sys: Sys, a: Snap, b: Snap, c: Snap, bound: nat, over: Option<nat>, busy: set<nat>,
                   props: seq<Property>, i: nat)
    requires Extends(sys, a, b, bound, None) && Extends(sys, b, c, bound, None) && OverrideOk(b, busy, over)
    requires i < |props| && PromptsValid(b, props[..i]) && (IsPrompt(props[i]) ==> AllValid(c, props[i].visible))
    requires Ranked(sys) ==> forall p | p in props && IsPrompt(p) :: Below(sys, p.visible, bound, over)
    ensures Extends(sys, a, c, bound, None) && OverrideOk(c, busy, over) && PromptsValid(c, props[..i + 1])
    ensures Ranked(sys) ==>
              HighestPromptOf(sys, props[..i + 1], bound, over) ==
              var rest := HighestPromptOf(sys, props[..i], bound, over);
              if IsPrompt(props[i]) then Max(rest, ValueOfOpt(sys, props[i].visible, bound, over)) else rest
  {
    OverrideKept(sys, b, c, bound, None, busy, over);
    ExtendsTransitive(sys, a, b, c, bound, bound, None);
    PromptsStayValid(sys, b, c, bound, None, props[..i]);
    PromptsValidStep(c, props, i);
    if Ranked(sys) {
      HighestStep(sys, props, i, bound, over);
    }
  }

  /** Symbols not yet valid; every calculation makes this set smaller or leaves it alone. */
  function Pending(m: Snap): set<nat> {
    set s | 0 <= s < |m.valid| && !m.valid[s]
  }

  lemma PendingShrinks(sys: Sys, a: Snap, b: Snap, bound: nat, self: Option<nat>)
    requires Extends(sys, a, b, bound, self)
    ensures Pending(b) <= Pending(a)
  {}

  lemma {:induction false} NeverIsNo(sys: Sys, e: Expr, bound: nat, over: Option<nat>)
    requires Ranked(sys) && Below(sys, Some(e), bound, over) && Never(e)
    ensures ValueOf(sys, e, bound, over) == NO
  {
    match e
    case Bin(AndOp, l, r) =>
      BelowOperands(sys, e, bound, over);
      if Never(l) {
        NeverIsNo(sys, l, bound, over);
      } else {
        NeverIsNo(sys, r, bound, over);
      }
    case _ =>
  }

  /** Without live prompts a symbol is invisible, however it is looked at. */
  lemma {:induction false} NoPromptMeansInvisible(sys: Sys, props: seq<Property>, bound: nat, over: Option<nat>)
    requires Ranked(sys) && forall p | p in props :: !IsLivePrompt(p)
    requires forall p | p in props && IsPrompt(p) :: Below(sys, p.visible, bound, over)
    ensures HighestPromptOf(sys, props, bound, over) == NO
    decreases |props|
  {
    if props != [] {
      var n := |props| - 1;
      NoPromptMeansInvisible(sys, props[..n], bound, over);
      if IsPrompt(props[n]) {
        assert !IsLivePrompt(props[n]);
        NeverIsNo(sys, props[n].visible.value, bound, over);
      }
    }
  }

  // ----- a symbol being worked on -----

  /** Visibility and selection level of a symbol have been worked out. */
  ghost predicate Seen(sys: Sys, m: Snap, s: nat)
    requires Ranked(sys) && Shaped(sys.defs, sys.user, m) && s < |sys.defs|
  {
    var role := sys.defs[s].role;
    && m.visible[s] == Visible(sys, s)
    && (!Deselected(sys, s) ==> m.revDep[s] == Selected(sys, s))
    && (role.Member? ==> m.revDep[s] == NO)
    && (role.Member? && HasLivePrompt(sys.defs[s]) ==> role.choice < |m.valid| && m.valid[role.choice])
  }

  /** The middle part of the calculation of `s`, which began in state `was`. */
  ghost predicate Working(sys: Sys, was: Snap, m: Snap, s: nat, busy: set<nat>) {
    && Inv(sys, m, busy) && s in busy && s < |sys.defs|
    && Around(sys, was, m, if Ranked(sys) then sys.rank[s] else 0, s)
    && (Ranked(sys) ==> Allowed(sys, busy, sys.rank[s]) && MembersOpen(sys, m, busy, s) && Seen(sys, m, s))
  }

  /** Calculating symbols of lower rank does not disturb the work. */
  lemma WorkGoesOn(sys: Sys, was: Snap, a: Snap, b: Snap, s: nat, busy: set<nat>)
    requires Working(sys, was, a, s, busy) && Inv(sys, b, busy)
    requires Extends(sys, a, b, if Ranked(sys) then sys.rank[s] else 0, None)
    ensures Working(sys, was, b, s, busy) && b.curr[s] == a.curr[s] && b.chosen[s] == a.chosen[s]
    ensures Pending(b) <= Pending(a)
  {
    var bound := if Ranked(sys) then sys.rank[s] else 0;
    ExtendsIsAround(sys, a, b, bound, None, s);
    AroundTransitive(sys, was, a, b, bound, s);
    if Ranked(sys) {
      MembersStayOpen(sys, a, b, bound, busy, s);
      if !HasLivePrompt(sys.defs[s]) {
        InvisibleWithoutPrompt(sys, s);
      }
      VisibleKept(sys, a, b, bound, s);
    }
  }

  /** Looking at a member does not disturb the work on its choice. */
  lemma LookGoesOn(sys: Sys, was: Snap, a: Snap, b: Snap, c: nat, s: nat, busy: set<nat>)
    requires Working(sys, was, a, c, busy) && Inv(sys, b, busy) && sys.defs[c].role.Choice?
    requires Extends(sys, a, b, if Ranked(sys) then sys.rank[c] else 0, Some(s)) && s < |sys.defs|
    requires Ranked(sys) ==> sys.defs[s].role == Member(c)
    requires Ranked(sys) && a.valid[s] ==> b.revDep[s] == a.revDep[s]
    requires Ranked(sys) && !HasLivePrompt(sys.defs[s]) ==> b.visible[s] == NO
    ensures Working(sys, was, b, c, busy) && b.curr[c] == a.curr[c] && b.chosen[c] == a.chosen[c]
    ensures Pending(b) <= Pending(a)
  {
    var bound := if Ranked(sys) then sys.rank[c] else 0;
    LookIsAround(sys, a, b, bound, s, c);
    AroundTransitive(sys, was, a, b, bound, c);
    if Ranked(sys) {
      MembersStayOpen(sys, a, b, bound, busy, c);
      assert b.visible[c] == a.visible[c] || LookedAt(sys, a, b, c);
    }
  }

  /** All live prompts of a choice value mention its choice, so evaluating them finishes the choice first. */
  lemma PromptsMentionChoice(sys: Sys, m: Snap, s: nat)
    requires Ranked(sys) && Shaped(sys.defs, sys.user, m) && s < |sys.defs| && PromptsValid(m, sys.defs[s].props)
    ensures sys.defs[s].role.Member? && HasLivePrompt(sys.defs[s]) ==>
              sys.defs[s].role.choice < |m.valid| && m.valid[sys.defs[s].role.choice]
  {
    if sys.defs[s].role.Member? && HasLivePrompt(sys.defs[s]) {
      assert MemberOk(sys, s) by { assert SymbolRanked(sys, s); }
      var p :| p in sys.defs[s].props && IsLivePrompt(p);
      assert AllValid(m, p.visible) && sys.defs[s].role.choice in OptIds(p.visible);
    }
  }

  lemma VisibleHasPrompt(sys: Sys, s: nat)
    requires Ranked(sys) && s < |sys.defs| && Visible(sys, s) != NO
    ensures HasLivePrompt(sys.defs[s])
  {
    if !HasLivePrompt(sys.defs[s]) {
      InvisibleWithoutPrompt(sys, s);
    }
  }

  /** The value of a symbol before a choice that is y has looked for a member to pick. */
  ghost function ValueBeforePick(sys: Sys, s: nat): Tristate
    requires Ranked(sys) && s < |sys.defs| && MemberOk(sys, s)
  {
    var role := sys.defs[s].role;
    if role.Member? && Visible(sys, s) == YES then FromBool(Chosen(sys, role.choice) == Some(s)) else OwnValue(sys, s)
  }

  // ----- single field updates -----

  /** A symbol whose calculation begins counts as valid but busy. */
  lemma MarkValid(sys: Sys, m: Snap, busy: set<nat>, s: nat)
    requires Inv(sys, m, busy) && s < |sys.defs| && !m.valid[s]
    ensures Inv(sys, m.(valid := m.valid[s := true]), busy + {s})
    ensures Around(sys, m, m.(valid := m.valid[s := true]), 0, s)
  {
    var m' := m.(valid := m.valid[s := true]);
    if Ranked(sys) {
      forall x | 0 <= x < |sys.defs| && m'.valid[x] && x !in busy + {s} ensures Right(sys, m', x) {
        assert Right(sys, m, x);
      }
    }
  }

  /** The fields of a busy symbol may be written freely, apart from the selection level of a choice value. */
  lemma WriteBusy(sys: Sys, a: Snap, b: Snap, busy: set<nat>, s: nat)
    requires Inv(sys, a, busy) && s in busy && Shaped(sys.defs, sys.user, b)
    requires b.valid == a.valid
    requires forall x | 0 <= x < |sys.defs| && x != s ::
               b.curr[x] == a.curr[x] && b.chosen[x] == a.chosen[x] && b.visible[x] == a.visible[x] &&
               b.revDep[x] == a.revDep[x]
    requires sys.defs[s].role.Member? ==> b.revDep[s] == a.revDep[s]
    ensures Inv(sys, b, busy) && Around(sys, a, b, 0, s)
  {
    if Ranked(sys) {
      forall x | 0 <= x < |sys.defs| && b.valid[x] && x !in busy ensures Right(sys, b, x) {
        assert Right(sys, a, x);
      }
    }
  }

  /** The value and pick of the symbol being worked on may be written. */
  lemma WorkWrites(sys: Sys, was: Snap, a: Snap, b: Snap, s: nat, busy: set<nat>)
    requires Working(sys, was, a, s, busy) && Shaped(sys.defs, sys.user, b)
    requires b.valid == a.valid && b.visible == a.visible && b.revDep == a.revDep
    requires forall x | 0 <= x < |sys.defs| && x != s :: b.curr[x] == a.curr[x] && b.chosen[x] == a.chosen[x]
    ensures Working(sys, was, b, s, busy)
  {
    var bound := if Ranked(sys) then sys.rank[s] else 0;
    WriteBusy(sys, a, b, busy, s);
    assert Around(sys, a, b, bound, s);
    AroundTransitive(sys, was, a, b, bound, s);
  }

  /** The stored results are right once a choice that is y has picked. */
  lemma RightResult(sys: Sys, was: Snap, m: Snap, s: nat, busy: set<nat>)
    requires Ranked(sys) && Working(sys, was, m, s, busy) && MemberOk(sys, s)
    requires var t, picks := ValueBeforePick(sys, s), sys.defs[s].role.Choice?;
             && m.chosen[s] == (if picks && t == YES then Pick(sys, s) else None)
             && m.curr[s] == if picks && t == YES && m.chosen[s].None? then NO else t
    ensures Right(sys, m, s)
  {
    assert SymbolRanked(sys, s);
  }

  /** Looking at a member writes its visibility; a finished one has no prompt and stays invisible. */
  lemma WriteVisible(sys: Sys, m: Snap, busy: set<nat>, s: nat, t: Tristate)
    requires Inv(sys, m, busy) && s < |sys.defs|
    requires Ranked(sys) ==> s in busy || !m.valid[s] || (!HasLivePrompt(sys.defs[s]) && t == NO)
    ensures Inv(sys, m.(visible := m.visible[s := t]), busy)
  {
    var m' := m.(visible := m.visible[s := t]);
    if Ranked(sys) {
      forall x | 0 <= x < |sys.defs| && m'.valid[x] && x !in busy ensures Right(sys, m', x) {
        assert Right(sys, m, x);
        if x == s {
          InvisibleWithoutPrompt(sys, s);
        }
      }
    }
  }

  lemma WriteRevDep(sys: Sys, m: Snap, busy: set<nat>, s: nat, t: Tristate)
    requires Inv(sys, m, busy) && s < |sys.defs| && !sys.defs[s].role.Member?
    requires Ranked(sys) ==> s in busy
    ensures Inv(sys, m.(revDep := m.revDep[s := t]), busy)
  {
    var m' := m.(revDep := m.revDep[s := t]);
    if Ranked(sys) {
      forall x | 0 <= x < |sys.defs| && m'.valid[x] && x !in busy ensures Right(sys, m', x) {
        assert Right(sys, m, x);
      }
    }
  }

  /** The symbol being worked on may get a new visibility and selection level. */
  lemma ExtendsWrite(sys: Sys, a: Snap, b: Snap, bound: nat, self: Option<nat>, s: nat, vis: Tristate, rev: Tristate)
    requires Extends(sys, a, b, bound, self) && (self == None || self == Some(s)) && s < |sys.defs|
    ensures Extends(sys, a, b.(visible := b.visible[s := vis], revDep := b.revDep[s := rev]), bound, Some(s))
  {
    var c := b.(visible := b.visible[s := vis], revDep := b.revDep[s := rev]);
    if Ranked(sys) {
      forall x | 0 <= x < |sys.defs| && a.valid[x] && x != s
        ensures c.visible[x] == a.visible[x] || LookedAt(sys, a, c, x)
      {
        assert b.visible[x] == a.visible[x] || LookedAt(sys, a, b, x);
      }
    }
  }

  lemma InvisibleWithoutPrompt(sys: Sys, s: nat)
    requires Ranked(sys) && s < |sys.defs| && !HasLivePrompt(sys.defs[s])
    ensures Visible(sys, s) == NO
  {
    assert SymbolRanked(sys, s);
    NoPromptMeansInvisible(sys, sys.defs[s].props, VisibilityBound(sys, s), None);
  }

  /** A busy symbol that has become right is finished. */
  lemma Finish(sys: Sys, m: Snap, busy: set<nat>, s: nat)
    requires Inv(sys, m, busy + {s}) && s !in busy && (Ranked(sys) ==> Right(sys, m, s))
    ensures Inv(sys, m, busy)
  {
    if Ranked(sys) {
      forall x | 0 <= x < |sys.defs| && m.valid[x] && x !in busy ensures Right(sys, m, x) {
        if x != s {
          assert x !in busy + {s};
        }
      }
    }
  }

  /** The end of a calculation, seen from inside and from outside. */
  lemma WorkDone(sys: Sys, was: Snap, m: Snap, s: nat, busy: set<nat>)
    requires Inv(sys, m, busy + {s}) && s < |sys.defs| && (Ranked(sys) ==> Right(sys, m, s))
    requires Around(sys, was, m, if Ranked(sys) then sys.rank[s] else 0, s)
    requires forall b | b in busy :: b < |was.valid| && was.valid[b]
    requires !was.valid[s]
    ensures Inv(sys, m, busy) && Extends(sys, was, m, if Ranked(sys) then sys.rank[s] + 1 else 0, None)
  {
    Finish(sys, m, busy, s);
    AroundDone(sys, was, m, if Ranked(sys) then sys.rank[s] else 0, s);
  }
}
