/** Which entries menu_finalize takes into a submenu, what it hands down, and what it leaves alone (menu.c). */
module MenuTaken {
  import opened Tristates
  import opened Exprs
  import opened ExprEqComplete
  import opened Transforms
  import opened Polarity
  import opened Spines
  import opened DupsOrder
  import opened DupsNormalForm
  import opened SubmenuTest
  import opened SubmenuFound
  import opened Menus
  import opened MenuFacts

  // ----- what stays unchanged -----

  /** Entries in a submenu of some entry of the list. */
  function Inner(f: Forest): seq<nat> {
    match f
    case Nil => []
    case Cons(_, kids, rest) => Preorder(kids) + Inner(rest)
  }

  /** The entries of the list itself. */
  function Top(f: Forest): seq<nat> {
    match f
    case Nil => []
    case Cons(id, _, rest) => [id] + Top(rest)
  }

  /** Only the listed entries may have got new conditions. */
  predicate OnlyChanges(st: seq<Entry>, st': seq<Entry>, ids: seq<nat>) {
    |st'| == |st| && forall i: nat | i < |st| && i !in ids :: st'[i] == st[i]
  }

  lemma {:induction false} InnerInPreorder(f: Forest)
    ensures forall i | i in Inner(f) || i in Top(f) :: i in Preorder(f)
  {
    match f
    case Nil =>
    case Cons(_, _, rest) => InnerInPreorder(rest);
  }

  lemma {:induction false} InheritAllChanges(st: seq<Entry>, parent: Option<Expr>, f: Forest)
    requires Within(f, |st|)
    ensures OnlyChanges(st, InheritAll(st, parent, f), Top(f))
    decreases f
  {
    match f
    case Nil =>
    case Cons(id, _, rest) => InheritAllChanges(st[id := Inherit(parent, st[id])], parent, rest);
  }

  /** `left` is what remains of the list after some entries at its head. */
  ghost predicate EndOf(left: Forest, f: Forest) {
    left == f || (f.Cons? && EndOf(left, f.rest))
  }

  lemma {:induction false} EndOfIn(left: Forest, f: Forest)
    requires EndOf(left, f)
    ensures forall i | i in Inner(left) :: i in Inner(f)
    ensures forall i | i in Top(left) :: i in Top(f)
  {
    if left != f {
      EndOfIn(left, f.rest);
    }
  }

  lemma {:induction false} EndOfTrans(a: Forest, b: Forest, c: Forest)
    requires EndOf(a, b) && EndOf(b, c)
    ensures EndOf(a, c)
  {
    if b != c {
      EndOfTrans(a, b, c.rest);
    }
  }

  /** menu_finalize leaves the entry and its followers as they are; only entries in submenus get new conditions. */
  lemma {:induction false} FinalizeChanges(st: seq<Entry>, id: nat, kids: Forest, rest: Forest)
    requires id < |st| && Within(kids, |st|) && Within(rest, |st|)
    ensures var r := Finalize(st, id, kids, rest);
      OnlyChanges(st, r.0, Preorder(kids) + Inner(rest)) && EndOf(r.2, rest)
    decreases |Preorder(kids)| + |Preorder(rest)|, 1
  {
    if kids.Cons? {
      InheritAllChanges(st, ParentDep(st[id]), kids);
      FinalizeAllChanges(InheritAll(st, ParentDep(st[id]), kids), kids);
      InnerInPreorder(kids);
    } else if st[id].sym.Some? {
      CaptureChanges(st, st[id], rest);
    }
  }

  lemma {:induction false} FinalizeAllChanges(st: seq<Entry>, f: Forest)
    requires Within(f, |st|)
    ensures OnlyChanges(st, FinalizeAll(st, f).0, Inner(f))
    decreases |Preorder(f)|, 0
  {
    if f.Cons? {
      var (st1, _, rest1) := Finalize(st, f.id, f.kids, f.rest);
      FinalizeChanges(st, f.id, f.kids, f.rest);
      FinalizeAllChanges(st1, rest1);
      EndOfIn(rest1, f.rest);
    }
  }

  lemma {:induction false} CaptureChanges(st: seq<Entry>, above: Entry, f: Forest)
    requires Within(f, |st|) && above.sym.Some?
    ensures var r := Capture(st, above, f); OnlyChanges(st, r.0, Inner(f)) && EndOf(r.2, f)
    decreases |Preorder(f)|, 0
  {
    if f.Cons? && Takes(above, st[f.id]) {
      var (st1, _, rest1) := Finalize(st, f.id, f.kids, f.rest);
      FinalizeChanges(st, f.id, f.kids, f.rest);
      CaptureChanges(st1, above, rest1);
      EndOfIn(rest1, f.rest);
      EndOfTrans(Capture(st1, above, rest1).2, rest1, f.rest);
    }
  }

  // ----- which entries are taken -----

  /** No entry occurs twice. */
  predicate Unique(s: seq<nat>) {
    forall i, j | 0 <= i < j < |s| :: s[i] != s[j]
  }

  lemma UniqueParts(a: seq<nat>, b: seq<nat>)
    requires Unique(a + b)
    ensures Unique(a) && Unique(b) && forall x | x in a :: x !in b
  {
    forall i, j | 0 <= i < j < |a| ensures a[i] != a[j] {
      assert (a + b)[i] != (a + b)[j];
    }
    forall i, j | 0 <= i < j < |b| ensures b[i] != b[j] {
      assert (a + b)[|a| + i] != (a + b)[|a| + j];
    }
    forall x | x in a ensures x !in b {
      var i :| 0 <= i < |a| && a[i] == x;
      forall j | 0 <= j < |b| ensures b[j] != x {
        assert (a + b)[i] != (a + b)[|a| + j];
      }
    }
  }

  lemma {:induction false} UniqueForest(f: Forest)
    requires Unique(Preorder(f))
    ensures Unique(Top(f)) && forall x | x in Top(f) :: x !in Inner(f)
    ensures f.Cons? ==> Unique(Preorder(f.kids)) && Unique(Preorder(f.rest))
    decreases f
  {
    match f
    case Nil =>
    case Cons(id, kids, rest) =>
      UniqueParts([id] + Preorder(kids), Preorder(rest));
      UniqueParts([id], Preorder(kids));
      UniqueForest(rest);
      InnerInPreorder(rest);
      assert id in [id] + Preorder(kids);
      assert forall x | x in Preorder(kids) :: x in [id] + Preorder(kids);
  }

  lemma {:induction false} EndOfUnique(left: Forest, f: Forest)
    requires EndOf(left, f) && Unique(Preorder(f))
    ensures Unique(Preorder(left))
    decreases f
  {
    if left != f {
      UniqueForest(f);
      EndOfUnique(left, f.rest);
    }
  }

  lemma {:induction false} CaptureStops(st: seq<Entry>, above: Entry, f: Forest)
    requires Within(f, |st|) && above.sym.Some?
    ensures var r := Capture(st, above, f); r.2.Cons? ==> r.2.id < |st| && !Takes(above, r.0[r.2.id])
    decreases |Preorder(f)|
  {
    if f.Cons? && Takes(above, st[f.id]) {
      var (st1, kids1, rest1) := Finalize(st, f.id, f.kids, f.rest);
      assert Preorder(Cons(f.id, kids1, rest1)) == Preorder(f);
      CaptureStops(st1, above, rest1);
    }
  }

  /** Every entry taken belonged to the list and passes the test as it stood before. */
  ghost predicate AllPass(st: seq<Entry>, above: Entry, f: Forest, taken: Forest)
    requires above.sym.Some?
  {
    forall x | x in Top(taken) :: x in Top(f) && x < |st| && Takes(above, st[x])
  }

  lemma {:induction false} CapturePasses(st: seq<Entry>, above: Entry, f: Forest)
    requires Within(f, |st|) && above.sym.Some? && Unique(Preorder(f))
    ensures AllPass(st, above, f, Capture(st, above, f).1)
    decreases |Preorder(f)|
  {
    if f.Cons? && Takes(above, st[f.id]) {
      var (st1, kids1, rest1) := Finalize(st, f.id, f.kids, f.rest);
      assert Preorder(Cons(f.id, kids1, rest1)) == Preorder(f);
      UniqueForest(f);
      FinalizeChanges(st, f.id, f.kids, f.rest);
      EndOfUnique(rest1, f.rest);
      CapturePasses(st1, above, rest1);
      NextPass(st, st1, above, f, rest1, Capture(st1, above, rest1).1);
      assert Capture(st, above, f).1 == Cons(f.id, kids1, Capture(st1, above, rest1).1);
    }
  }

  lemma NextPass(st: seq<Entry>, st1: seq<Entry>, above: Entry, f: Forest, rest1: Forest, taken: Forest)
    requires above.sym.Some? && f.Cons? && EndOf(rest1, f.rest) && AllPass(st1, above, rest1, taken)
    requires OnlyChanges(st, st1, Preorder(f.kids) + Inner(f.rest)) && forall x | x in Top(f) :: x !in Inner(f)
    ensures AllPass(st, above, f, taken)
  {
    EndOfIn(rest1, f.rest);
    forall x | x in Top(taken) ensures x in Top(f) && x < |st| && Takes(above, st[x]) {
      assert x in Top(rest1) && x in Top(f);
    }
  }

  /**
   * The entries taken are an unbroken run from the next one on, all of them pass the test, and the first one left
   * does not; what the run does to the entries in between has no part in it.
   */
  lemma CaptureTakes(st: seq<Entry>, above: Entry, f: Forest)
    requires Within(f, |st|) && above.sym.Some? && Unique(Preorder(f))
    ensures var r := Capture(st, above, f);
      && EndOf(r.2, f) && AllPass(st, above, f, r.1)
      && (f.Cons? && Takes(above, st[f.id]) ==> r.1.Cons? && r.1.id == f.id)
      && (r.2.Cons? ==> r.2.id in Top(f) && r.2.id < |st| && !Takes(above, st[r.2.id]))
  {
    CaptureStops(st, above, f);
    CapturePasses(st, above, f);
    CaptureChanges(st, above, f);
    UniqueForest(f);
    EndOfIn(Capture(st, above, f).2, f);
  }

  /** The condition of an entry: that of its prompt, or its dependency if it has no prompt. */
  predicate AppearsUnder(e: Entry, c: Option<Expr>) {
    (e.prompt.Some? ==> c == e.prompt.value.visible) && (e.prompt.None? ==> c == e.dep)
  }

  predicate OptDepends(c: Option<Expr>, s: Symbol) {
    c.Some? && DependsOnSymbol(c.value, s)
  }

  predicate DependsOn(e: Entry, s: Symbol) {
    if e.prompt.Some? then OptDepends(e.prompt.value.visible, s) else OptDepends(e.dep, s)
  }

  lemma DependentIsTaken(above: Entry, below: Entry)
    requires above.sym.Some? && DependsOn(below, above.sym.value.s)
    ensures Takes(above, below)
  {
    var c := if below.prompt.Some? then below.prompt.value.visible else below.dep;
    DependentIsCaptured(if above.prompt.Some? then above.prompt.value.visible else None, above.sym.value.s, c.value);
  }

  /** The prompt above, if there is one, has no condition. */
  predicate Unconditional(e: Entry) {
    e.prompt.Some? ==> e.prompt.value.visible.None?
  }

  /** Exactly when an entry is taken, from its condition `c` and the prompt above. */
  lemma TakesIff(above: Entry, below: Entry, c: Option<Expr>)
    requires above.sym.Some? && AppearsUnder(below, c)
    requires Folded(NotZero(c)) && (above.prompt.Some? ==> Folded(NotZero(above.prompt.value.visible)))
    ensures Takes(above, below) <==>
            && c.Some? && ContainsSymbol(c.value, above.sym.value.s)
            && (DependsOn(below, above.sym.value.s) || Unconditional(above) ||
                Implied(above.prompt.value.visible, c))
  {
    var s := above.sym.value.s;
    if c.Some? {
      UnconditionalCaptures(s, c);
      if !Unconditional(above) {
        CapturesIff(above.prompt.value.visible, s, c.value);
      }
    }
  }

  /**
   * menu_finalize for a symbol without submenu: if the next entry depends on the symbol, the submenu starts with it,
   * and the first entry left outside does not depend on it. If all do, none is left.
   */
  lemma FinalizeTakesDependents(st: seq<Entry>, id: nat, rest: Forest)
    requires id < |st| && Within(rest, |st|) && st[id].sym.Some? && Unique(Preorder(rest))
    ensures var s, r := st[id].sym.value.s, Finalize(st, id, Nil, rest);
      && (rest.Cons? && DependsOn(st[rest.id], s) ==> r.1.Cons? && r.1.id == rest.id)
      && (r.2.Cons? ==> r.2.id < |st| && !DependsOn(st[r.2.id], s))
      && ((forall x | x in Top(rest) && x < |st| :: DependsOn(st[x], s)) ==> r.2.Nil?)
  {
    var r := Finalize(st, id, Nil, rest);
    CaptureTakes(st, st[id], rest);
    if rest.Cons? && DependsOn(st[rest.id], st[id].sym.value.s) {
      DependentIsTaken(st[id], st[rest.id]);
    }
    if r.2.Cons? && r.2.id < |st| && DependsOn(st[r.2.id], st[id].sym.value.s) {
      DependentIsTaken(st[id], st[r.2.id]);
    }
  }

  // ----- what is handed down -----

  lemma {:induction false} InheritAllAt(st: seq<Entry>, parent: Option<Expr>, f: Forest, x: nat)
    requires Within(f, |st|) && Unique(Top(f)) && x in Top(f) && x < |st|
    ensures InheritAll(st, parent, f)[x] == Inherit(parent, st[x])
    decreases f
  {
    var st1 := st[f.id := Inherit(parent, st[f.id])];
    assert Top(f) == [f.id] + Top(f.rest);
    UniqueParts([f.id], Top(f.rest));
    assert f.id in [f.id];
    if x == f.id {
      InheritAllChanges(st1, parent, f.rest);
    } else {
      InheritAllAt(st1, parent, f.rest, x);
    }
  }

  /** The condition the entries of a submenu inherit: a choice itself, else that of the prompt, else the dependency. */
  predicate HandsDown(e: Entry, p: Option<Expr>) {
    && (e.sym.Some? && e.sym.value.isChoice ==> p == Some(Sym(e.sym.value.s)))
    && (!(e.sym.Some? && e.sym.value.isChoice) && e.prompt.Some? ==> p == e.prompt.value.visible)
    && (!(e.sym.Some? && e.sym.value.isChoice) && e.prompt.None? ==> p == e.dep)
  }

  predicate Undecided(e: Entry) {
    e.sym.None? || e.sym.value.s.Type() == TristateType
  }

  /**
   * `got` joins both conditions, up to sharpening an m. For a symbol that is not tristate no tristate symbol is
   * compared with n any more, and a y may become m in exchange.
   */
  ghost predicate Joined(parent: Option<Expr>, own: Option<Expr>, got: Option<Expr>, exact: bool, env: Env) {
    var both := Min(EvalOpt(parent, env), EvalOpt(own, env));
    && (exact ==> Refines(both, EvalOpt(got, env)))
    && (both == NO ==> EvalOpt(got, env) == NO) && (both == YES ==> EvalOpt(got, env) != NO)
    && (!exact && got.Some? ==> !HasUnequalNo(got.value))
  }

  /** An entry of a submenu afterwards: its dependency joins the parent's condition, its prompts join the dependency. */
  ghost predicate Inherits(p: Option<Expr>, e: Entry, e': Entry, env: Env) {
    && e'.sym == e.sym && (e'.prompt.Some? <==> e.prompt.Some?) && |e'.others| == |e.others|
    && Joined(p, e.dep, e'.dep, true, env)
    && (e.prompt.Some? ==>
          && e'.prompt.value.hasText == e.prompt.value.hasText
          && Joined(e'.dep, e.prompt.value.visible, e'.prompt.value.visible, Undecided(e), env))
    && (forall i | 0 <= i < |e.others| :: Joined(e'.dep, e.others[i], e'.others[i], Undecided(e), env))
  }

  lemma HandedDownIsJoined(parent: Option<Expr>, own: Option<Expr>, exact: bool, env: Env)
    requires TwoValued(env) && OptNnf(parent)
    ensures Joined(parent, own, HandDownVisible(parent, own, exact), exact, env)
    ensures Joined(parent, own, HandDown(parent, own), true, env) && OptNnf(HandDown(parent, own))
  {
    HandDownRefines(parent, own, env);
    HandDownKeepsNnf(parent, own, exact);
    HandDownVisibleKeepsNonZero(parent, own, env);
    var all := HandDown(parent, own);
    if all.Some? {
      TransBoolRemovesAll(all.value);
    }
  }

  /** The parent's conditions come first, and of a repeated condition the last one stays. */
  lemma HandDownOrder(parent: Expr, own: Expr)
    requires Unrelated(AndOp, Leaves(AndOp, parent) + Leaves(AndOp, Push(own, false)))
    ensures var got := HandDown(Some(parent), Some(own));
      got.Some? && Leaves(AndOp, got.value) == LastOnes(Leaves(AndOp, parent) + Leaves(AndOp, Push(own, false)))
  {
    TransformIsPush(own);
    LastOnesStay(AndOp, Bin(AndOp, parent, Push(own, false)));
  }

  lemma InheritJoins(p: Option<Expr>, e: Entry, env: Env)
    requires TwoValued(env) && OptNnf(p)
    ensures Inherits(p, e, Inherit(p, e), env)
  {
    var dep := HandDown(p, e.dep);
    HandedDownIsJoined(p, e.dep, true, env);
    if e.prompt.Some? {
      HandedDownIsJoined(dep, e.prompt.value.visible, Undecided(e), env);
    }
    forall i | 0 <= i < |e.others| ensures Joined(dep, e.others[i], Inherit(p, e).others[i], Undecided(e), env) {
      HandedDownIsJoined(dep, e.others[i], Undecided(e), env);
    }
  }

  /** Every entry of a submenu inherits from the entry above it, and nothing later in the run changes that. */
  lemma SubmenuInherits(st: seq<Entry>, id: nat, kids: Forest, rest: Forest, p: Option<Expr>, x: nat, env: Env)
    requires id < |st| && Within(kids, |st|) && Within(rest, |st|) && kids.Cons? && Unique(Preorder(kids))
    requires x in Top(kids) && x < |st| && HandsDown(st[id], p) && OptNnf(p) && TwoValued(env)
    ensures Inherits(p, st[x], Finalize(st, id, kids, rest).0[x], env)
  {
    UniqueForest(kids);
    InheritAllAt(st, p, kids, x);
    FinalizeAllChanges(InheritAll(st, p, kids), kids);
    InheritJoins(p, st[x], env);
  }

  // ----- the entries of a submenu without a prompt -----

  datatype Cell = Cell(id: nat, kids: Forest)

  /** All entries with their submenus, in order. */
  function Cells(f: Forest): seq<Cell> {
    match f
    case Nil => []
    case Cons(id, kids, rest) => [Cell(id, kids)] + Cells(kids) + Cells(rest)
  }

  /** The same with the submenus of entries without a prompt taken away. */
  function CutCells(st: seq<Entry>, f: Forest): seq<Cell>
    requires Within(f, |st|)
  {
    match f
    case Nil => []
    case Cons(id, kids, rest) =>
      [Cell(id, if Promptless(st[id]) then Nil else kids)] + CutCells(st, kids) + CutCells(st, rest)
  }

  lemma Regroup(a: seq<Cell>, b: seq<Cell>, c: seq<Cell>)
    ensures a + b + c == a + (b + c)
  {}

  lemma {:induction false} CutCellsAppend(st: seq<Entry>, a: Forest, b: Forest)
    requires Within(a, |st|) && Within(b, |st|)
    ensures Within(Append(a, b), |st|) && CutCells(st, Append(a, b)) == CutCells(st, a) + CutCells(st, b)
  {
    match a
    case Nil =>
    case Cons(id, kids, rest) =>
      CutCellsAppend(st, rest, b);
      var first := [Cell(id, if Promptless(st[id]) then Nil else kids)] + CutCells(st, kids);
      Regroup(first, CutCells(st, rest), CutCells(st, b));
  }

  lemma {:induction false} PromptedIsUncut(st: seq<Entry>, f: Forest)
    requires Within(f, |st|) && DeepPrompted(st, f)
    ensures CutCells(st, f) == Cells(f)
  {
    match f
    case Nil =>
    case Cons(_, kids, rest) =>
      PromptedIsUncut(st, kids);
      PromptedIsUncut(st, rest);
  }

  /** An entry with a prompt keeps exactly its submenu, one without keeps none, and the order stays. */
  lemma {:induction false} SpliceKeepsSubmenus(st: seq<Entry>, f: Forest)
    requires Within(f, |st|) && KidsPrompted(st, f)
    ensures Cells(Splice(st, f)) == CutCells(st, f)
    decreases |Preorder(f)|
  {
    match f
    case Nil =>
    case Cons(id, kids, rest) =>
      if kids.Cons? && Promptless(st[id]) {
        PreorderAppend(kids, rest);
        DeepPromptedKids(st, kids);
        KidsPromptedAppend(st, kids, rest);
        CutCellsAppend(st, kids, rest);
        SpliceKeepsSubmenus(st, Append(kids, rest));
        Regroup([Cell(id, Nil)], CutCells(st, kids), CutCells(st, rest));
      } else {
        PromptedIsUncut(st, kids);
        SpliceKeepsSubmenus(st, rest);
      }
  }
}
