/** What holds of all entries once menu_finalize is through with the menu (menu.c). */
module MenuFacts {
  import opened Tristates
  import opened Exprs
  import opened ExprEqs
  import opened Transforms
  import opened DupsNormalForm
  import opened SubmenuTest
  import opened ChoiceBound
  import opened Menus
  import Symbols

  // ----- no submenu behind a missing prompt -----

  /** At every depth of the list, an entry with a submenu has a prompt. */
  predicate DeepPrompted(st: seq<Entry>, f: Forest)
    requires Within(f, |st|)
  {
    match f
    case Nil => true
    case Cons(id, kids, rest) =>
      (kids.Cons? ==> !Promptless(st[id])) && DeepPrompted(st, kids) && DeepPrompted(st, rest)
  }

  /** The same below the entries of the list, before the list itself has been gone through. */
  predicate KidsPrompted(st: seq<Entry>, f: Forest)
    requires Within(f, |st|)
  {
    match f
    case Nil => true
    case Cons(_, kids, rest) => DeepPrompted(st, kids) && KidsPrompted(st, rest)
  }

  lemma {:induction false} DeepPromptedKids(st: seq<Entry>, f: Forest)
    requires Within(f, |st|) && DeepPrompted(st, f)
    ensures KidsPrompted(st, f)
  {
    match f
    case Nil =>
    case Cons(_, _, rest) => DeepPromptedKids(st, rest);
  }

  lemma {:induction false} KidsPromptedAppend(st: seq<Entry>, a: Forest, b: Forest)
    requires Within(a, |st|) && Within(b, |st|) && KidsPrompted(st, a) && KidsPrompted(st, b)
    ensures Within(Append(a, b), |st|) && KidsPrompted(st, Append(a, b))
  {
    match a
    case Nil =>
    case Cons(_, _, rest) => KidsPromptedAppend(st, rest, b);
  }

  lemma {:induction false} DeepPromptedKept(st: seq<Entry>, st': seq<Entry>, f: Forest)
    requires SameKind(st, st') && Within(f, |st|) && DeepPrompted(st, f)
    ensures DeepPrompted(st', f)
  {
    match f
    case Nil =>
    case Cons(_, kids, rest) =>
      DeepPromptedKept(st, st', kids);
      DeepPromptedKept(st, st', rest);
  }

  lemma {:induction false} SplicePrompts(st: seq<Entry>, f: Forest)
    requires Within(f, |st|) && KidsPrompted(st, f)
    ensures DeepPrompted(st, Splice(st, f))
    decreases |Preorder(f)|
  {
    match f
    case Nil =>
    case Cons(id, kids, rest) =>
      if kids.Cons? && Promptless(st[id]) {
        PreorderAppend(kids, rest);
        DeepPromptedKids(st, kids);
        KidsPromptedAppend(st, kids, rest);
        SplicePrompts(st, Append(kids, rest));
      } else {
        SplicePrompts(st, rest);
      }
  }

  /** After menu_finalize no entry at any depth of the submenu has a submenu of its own but no prompt. */
  lemma {:induction false} FinalizePrompts(st: seq<Entry>, id: nat, kids: Forest, rest: Forest)
    requires id < |st| && Within(kids, |st|) && Within(rest, |st|)
    ensures var r := Finalize(st, id, kids, rest); DeepPrompted(r.0, r.1)
    decreases |Preorder(kids)| + |Preorder(rest)|, 1
  {
    if kids.Cons? {
      var st1 := InheritAll(st, ParentDep(st[id]), kids);
      FinalizeAllPrompts(st1, kids);
      SplicePrompts(FinalizeAll(st1, kids).0, FinalizeAll(st1, kids).1);
    } else if st[id].sym.Some? {
      CapturePrompts(st, st[id], rest);
      SplicePrompts(Capture(st, st[id], rest).0, Capture(st, st[id], rest).1);
    }
  }

  lemma {:induction false} FinalizeAllPrompts(st: seq<Entry>, f: Forest)
    requires Within(f, |st|)
    ensures var r := FinalizeAll(st, f); KidsPrompted(r.0, r.1)
    decreases |Preorder(f)|, 0
  {
    match f
    case Nil =>
    case Cons(id, kids, rest) =>
      var (st1, kids1, rest1) := Finalize(st, id, kids, rest);
      FinalizePrompts(st, id, kids, rest);
      FinalizeAllPrompts(st1, rest1);
      DeepPromptedKept(st1, FinalizeAll(st1, rest1).0, kids1);
  }

  lemma {:induction false} CapturePrompts(st: seq<Entry>, above: Entry, f: Forest)
    requires Within(f, |st|) && above.sym.Some?
    ensures var r := Capture(st, above, f); KidsPrompted(r.0, r.1)
    decreases |Preorder(f)|, 0
  {
    if f.Cons? && Takes(above, st[f.id]) {
      var (st1, kids1, rest1) := Finalize(st, f.id, f.kids, f.rest);
      FinalizePrompts(st, f.id, f.kids, f.rest);
      CapturePrompts(st1, above, rest1);
      DeepPromptedKept(st1, Capture(st1, above, rest1).0, kids1);
    }
  }

  // ----- what holds of the conditions of all entries -----

  /** Conditions are normal forms, or require a choice. */
  datatype Claim = NormalForms | InsideChoice(c: nat)

  predicate Meets(k: Claim, e: Option<Expr>) {
    match k
    case NormalForms => OptNnf(e)
    case InsideChoice(c) => OptBoundTo(c, e)
  }

  predicate EntryMeets(k: Claim, e: Entry) {
    && Meets(k, e.dep)
    && (e.prompt.Some? ==> Meets(k, e.prompt.value.visible))
    && forall o | o in e.others :: Meets(k, o)
  }

  predicate TopMeets(k: Claim, st: seq<Entry>, f: Forest)
    requires Within(f, |st|)
  {
    match f
    case Nil => true
    case Cons(id, _, rest) => EntryMeets(k, st[id]) && TopMeets(k, st, rest)
  }

  predicate DeepMeets(k: Claim, st: seq<Entry>, f: Forest)
    requires Within(f, |st|)
  {
    match f
    case Nil => true
    case Cons(id, kids, rest) => EntryMeets(k, st[id]) && DeepMeets(k, st, kids) && DeepMeets(k, st, rest)
  }

  /** Entries that meet the claim keep meeting it. */
  predicate Stays(k: Claim, st: seq<Entry>, st': seq<Entry>) {
    SameKind(st, st') && forall i | 0 <= i < |st| && EntryMeets(k, st[i]) :: EntryMeets(k, st'[i])
  }

  /** A choice hands down itself instead of its own conditions, so there must be none inside the choice. */
  predicate NoChoiceIn(k: Claim, st: seq<Entry>, ids: seq<nat>) {
    k.InsideChoice? ==>
      forall id | id in ids && id < |st| :: !(st[id].sym.Some? && st[id].sym.value.isChoice)
  }

  lemma InheritMeets(k: Claim, parent: Option<Expr>, e: Entry)
    requires Meets(k, parent)
    ensures EntryMeets(k, Inherit(parent, e))
  {
    var dep := HandDown(parent, e.dep);
    var free := e.sym.None? || e.sym.value.s.Type() == TristateType;
    HandDownMeets(k, parent, e.dep, free);
    if e.prompt.Some? {
      HandDownMeets(k, dep, e.prompt.value.visible, free);
    }
    forall o | o in Inherit(parent, e).others ensures Meets(k, o) {
      var i :| 0 <= i < |e.others| && o == HandDownVisible(dep, e.others[i], free);
      HandDownMeets(k, dep, e.others[i], free);
    }
  }

  lemma HandDownMeets(k: Claim, parent: Option<Expr>, own: Option<Expr>, free: bool)
    requires Meets(k, parent)
    ensures Meets(k, HandDown(parent, own)) && Meets(k, HandDownVisible(parent, own, free))
  {
    match k
    case NormalForms => HandDownKeepsNnf(parent, own, free);
    case InsideChoice(c) => HandDownKeepsBound(c, parent, own, free);
  }

  lemma {:induction false} InheritAllMeets(k: Claim, st: seq<Entry>, parent: Option<Expr>, f: Forest)
    requires Within(f, |st|) && Meets(k, parent)
    ensures Stays(k, st, InheritAll(st, parent, f)) && TopMeets(k, InheritAll(st, parent, f), f)
    decreases f
  {
    match f
    case Nil =>
    case Cons(id, _, rest) =>
      var st1 := st[id := Inherit(parent, st[id])];
      InheritMeets(k, parent, st[id]);
      InheritAllMeets(k, st1, parent, rest);
      assert EntryMeets(k, st1[id]);
  }

  lemma {:induction false} TopMeetsKept(k: Claim, st: seq<Entry>, st': seq<Entry>, f: Forest)
    requires Within(f, |st|) && Stays(k, st, st') && TopMeets(k, st, f)
    ensures TopMeets(k, st', f)
  {
    match f
    case Nil =>
    case Cons(_, _, rest) => TopMeetsKept(k, st, st', rest);
  }

  lemma {:induction false} DeepMeetsKept(k: Claim, st: seq<Entry>, st': seq<Entry>, f: Forest)
    requires Within(f, |st|) && Stays(k, st, st') && DeepMeets(k, st, f)
    ensures DeepMeets(k, st', f)
  {
    match f
    case Nil =>
    case Cons(_, kids, rest) =>
      DeepMeetsKept(k, st, st', kids);
      DeepMeetsKept(k, st, st', rest);
  }

  lemma {:induction false} DeepMeetsAppend(k: Claim, st: seq<Entry>, a: Forest, b: Forest)
    requires Within(a, |st|) && Within(b, |st|) && DeepMeets(k, st, a) && DeepMeets(k, st, b)
    ensures Within(Append(a, b), |st|) && DeepMeets(k, st, Append(a, b))
  {
    match a
    case Nil =>
    case Cons(_, _, rest) => DeepMeetsAppend(k, st, rest, b);
  }

  lemma {:induction false} SpliceMeets(k: Claim, st: seq<Entry>, f: Forest)
    requires Within(f, |st|) && DeepMeets(k, st, f)
    ensures DeepMeets(k, st, Splice(st, f))
    decreases |Preorder(f)|
  {
    match f
    case Nil =>
    case Cons(id, kids, rest) =>
      if kids.Cons? && Promptless(st[id]) {
        PreorderAppend(kids, rest);
        DeepMeetsAppend(k, st, kids, rest);
        SpliceMeets(k, st, Append(kids, rest));
      } else {
        SpliceMeets(k, st, rest);
      }
  }

  // ----- every entry that becomes part of a submenu needs the entry above -----

  /** In every environment in which the lower entry is fully visible, the symbol above or its prompt is not n. */
  ghost predicate NeedsParent(above: Entry, below: Entry)
    requires above.sym.Some?
  {
    var s, base := above.sym.value.s, if above.prompt.Some? then above.prompt.value.visible else None;
    forall env: Env | TwoValued(env) && s.IsLogical() && OptLogical(base) && OptLogical(Condition(below)) ::
      EvalOpt(Condition(below), env) == YES ==> TriOf(env, s) != NO || EvalOpt(base, env) != NO
  }

  predicate OptLogical(e: Option<Expr>) {
    e.Some? ==> LogicalOperands(e.value)
  }

  lemma TakenNeedsParent(above: Entry, below: Entry)
    requires above.sym.Some? && EntryMeets(NormalForms, above) && EntryMeets(NormalForms, below) && Takes(above, below)
    ensures NeedsParent(above, below)
  {
    var s, base := above.sym.value.s, if above.prompt.Some? then above.prompt.value.visible else None;
    forall env: Env | TwoValued(env) && s.IsLogical() && OptLogical(base) && OptLogical(Condition(below))
      ensures EvalOpt(Condition(below), env) == YES ==> TriOf(env, s) != NO || EvalOpt(base, env) != NO
    {
      CapturedYesImpliesParent(base, s, Condition(below), env);
    }
  }

  /** Along a run of menu_finalize: whatever is taken into a submenu needs the entry above, as both stand then. */
  ghost predicate FinalizeSound(st: seq<Entry>, id: nat, kids: Forest, rest: Forest)
    requires id < |st| && Within(kids, |st|) && Within(rest, |st|)
    decreases |Preorder(kids)| + |Preorder(rest)|, 1
  {
    if kids.Cons? then FinalizeAllSound(InheritAll(st, ParentDep(st[id]), kids), kids)
    else st[id].sym.Some? ==> CaptureSound(st, st[id], rest)
  }

  ghost predicate FinalizeAllSound(st: seq<Entry>, f: Forest)
    requires Within(f, |st|)
    decreases |Preorder(f)|, 0
  {
    f.Cons? ==>
      && FinalizeSound(st, f.id, f.kids, f.rest)
      && var r := Finalize(st, f.id, f.kids, f.rest); FinalizeAllSound(r.0, r.2)
  }

  ghost predicate CaptureSound(st: seq<Entry>, above: Entry, f: Forest)
    requires Within(f, |st|) && above.sym.Some?
    decreases |Preorder(f)|, 0
  {
    f.Cons? && Takes(above, st[f.id]) ==>
      && NeedsParent(above, st[f.id]) && FinalizeSound(st, f.id, f.kids, f.rest)
      && var r := Finalize(st, f.id, f.kids, f.rest); CaptureSound(r.0, above, r.2)
  }

  // ----- the run -----

  ghost predicate Sound(k: Claim, run: bool) {
    k.NormalForms? ==> run
  }

  /**
   * One entry whose conditions meet the claim, with followers that do: afterwards its whole submenu does, and so do
   * the followers left; and if the claim is about normal forms, every test on the way was sound.
   */
  lemma {:induction false} FinalizeMeets(k: Claim, st: seq<Entry>, id: nat, kids: Forest, rest: Forest)
    requires id < |st| && Within(kids, |st|) && Within(rest, |st|)
    requires EntryMeets(k, st[id]) && TopMeets(k, st, rest) && NoChoiceIn(k, st, Preorder(Cons(id, kids, rest)))
    ensures var r := Finalize(st, id, kids, rest);
            Stays(k, st, r.0) && DeepMeets(k, r.0, r.1) && TopMeets(k, r.0, r.2)
    ensures Sound(k, FinalizeSound(st, id, kids, rest))
    decreases |Preorder(kids)| + |Preorder(rest)|, 1
  {
    if kids.Cons? {
      SubmenuMeets(k, st, id, kids);
      TopMeetsKept(k, st, Finalize(st, id, kids, rest).0, rest);
    } else if st[id].sym.Some? {
      CaptureMeets(k, st, st[id], rest);
      SpliceMeets(k, Capture(st, st[id], rest).0, Capture(st, st[id], rest).1);
    }
  }

  /** The part of menu_finalize for an entry with a submenu; here the entry may also be the choice itself. */
  lemma {:induction false} SubmenuMeets(k: Claim, st: seq<Entry>, id: nat, kids: Forest)
    requires id < |st| && Within(kids, |st|) && kids.Cons?
    requires Meets(k, ParentDep(st[id])) && NoChoiceIn(k, st, Preorder(kids))
    ensures var r := FinalizeAll(InheritAll(st, ParentDep(st[id]), kids), kids);
            Stays(k, st, r.0) && DeepMeets(k, r.0, Splice(r.0, r.1))
    ensures Sound(k, FinalizeAllSound(InheritAll(st, ParentDep(st[id]), kids), kids))
    decreases |Preorder(kids)|, 0, 1
  {
    var st1 := InheritAll(st, ParentDep(st[id]), kids);
    InheritAllMeets(k, st, ParentDep(st[id]), kids);
    FinalizeAllMeets(k, st1, kids);
    SpliceMeets(k, FinalizeAll(st1, kids).0, FinalizeAll(st1, kids).1);
  }

  lemma {:induction false} FinalizeAllMeets(k: Claim, st: seq<Entry>, f: Forest)
    requires Within(f, |st|) && TopMeets(k, st, f) && NoChoiceIn(k, st, Preorder(f))
    ensures var r := FinalizeAll(st, f); Stays(k, st, r.0) && DeepMeets(k, r.0, r.1)
    ensures Sound(k, FinalizeAllSound(st, f))
    decreases |Preorder(f)|, 0, 0
  {
    match f
    case Nil =>
    case Cons(id, kids, rest) =>
      var (st1, kids1, rest1) := Finalize(st, id, kids, rest);
      FinalizeMeets(k, st, id, kids, rest);
      LeftHasNoChoice(k, st, st1, f, Cons(id, kids1, rest1), rest1);
      FinalizeAllMeets(k, st1, rest1);
      DeepMeetsKept(k, st1, FinalizeAll(st1, rest1).0, kids1);
  }

  lemma {:induction false} CaptureMeets(k: Claim, st: seq<Entry>, above: Entry, f: Forest)
    requires Within(f, |st|) && above.sym.Some? && EntryMeets(k, above)
    requires TopMeets(k, st, f) && NoChoiceIn(k, st, Preorder(f))
    ensures var r := Capture(st, above, f); Stays(k, st, r.0) && DeepMeets(k, r.0, r.1) && TopMeets(k, r.0, r.2)
    ensures Sound(k, CaptureSound(st, above, f))
    decreases |Preorder(f)|, 0, 0
  {
    if f.Cons? && Takes(above, st[f.id]) {
      var (st1, kids1, rest1) := Finalize(st, f.id, f.kids, f.rest);
      FinalizeMeets(k, st, f.id, f.kids, f.rest);
      LeftHasNoChoice(k, st, st1, f, Cons(f.id, kids1, rest1), rest1);
      CaptureMeets(k, st1, above, rest1);
      DeepMeetsKept(k, st1, Capture(st1, above, rest1).0, kids1);
      if k.NormalForms? {
        TakenNeedsParent(above, st[f.id]);
      }
    }
  }

  lemma LeftHasNoChoice(k: Claim, st: seq<Entry>, st1: seq<Entry>, f: Forest, f1: Forest, left: Forest)
    requires SameKind(st, st1) && NoChoiceIn(k, st, Preorder(f))
    requires f1.Cons? && left == f1.rest && Preorder(f1) == Preorder(f)
    ensures NoChoiceIn(k, st1, Preorder(left))
  {
    forall id | id in Preorder(left) ensures id in Preorder(f) {
      assert Preorder(f1) == [f1.id] + Preorder(f1.kids) + Preorder(left);
    }
  }

  // ----- what it comes to -----

  /**
   * The whole menu, from a root whose own conditions are normal: all conditions end up as normal forms, and every
   * entry taken into a submenu on the way needs the entry above it.
   */
  lemma FinalizeMenu(st: seq<Entry>, root: nat, kids: Forest)
    requires root < |st| && Within(kids, |st|) && EntryMeets(NormalForms, st[root])
    ensures var r := Finalize(st, root, kids, Nil);
            DeepMeets(NormalForms, r.0, r.1) && DeepPrompted(r.0, r.1)
    ensures FinalizeSound(st, root, kids, Nil)
  {
    FinalizeMeets(NormalForms, st, root, kids, Nil);
    FinalizePrompts(st, root, kids, Nil);
  }

  /** Every condition on a prompt at any depth of the list mentions the choice, or is n. */
  predicate PromptsBound(c: nat, st: seq<Entry>, f: Forest)
    requires Within(f, |st|)
  {
    match f
    case Nil => true
    case Cons(id, kids, rest) =>
      && (st[id].prompt.Some? ==>
            var e := st[id].prompt.value.visible; e.Some? && (c in Symbols.Ids(e.value) || Symbols.Never(e.value)))
      && PromptsBound(c, st, kids) && PromptsBound(c, st, rest)
  }

  lemma {:induction false} MeetsIsBound(c: nat, st: seq<Entry>, f: Forest)
    requires Within(f, |st|) && DeepMeets(InsideChoice(c), st, f)
    ensures PromptsBound(c, st, f)
  {
    match f
    case Nil =>
    case Cons(id, kids, rest) =>
      if st[id].prompt.Some? {
        BoundMentionsChoice(c, st[id].prompt.value.visible.value);
      }
      MeetsIsBound(c, st, kids);
      MeetsIsBound(c, st, rest);
  }

  /** The values of a choice: after menu_finalize every prompt inside it mentions the choice, or can never be shown. */
  lemma FinalizeChoiceBinds(st: seq<Entry>, id: nat, c: nat, typ: SymbolType, kids: Forest, rest: Forest)
    requires id < |st| && Within(kids, |st|) && Within(rest, |st|) && kids.Cons?
    requires st[id].sym == Some(MenuSymbol(Config(c, typ), true)) && Config(c, typ).IsLogical()
    requires NoChoiceIn(InsideChoice(c), st, Preorder(kids))
    ensures var r := Finalize(st, id, kids, rest); PromptsBound(c, r.0, r.1)
  {
    SubmenuMeets(InsideChoice(c), st, id, kids);
    var r := Finalize(st, id, kids, rest);
    MeetsIsBound(c, r.0, r.1);
  }
}
