/** The menu tree and what menu_finalize makes of it (menu.c). */
module Menus {
  import opened Tristates
  import opened Exprs
  import opened SubmenuTest

  /** A list of sibling entries: the first one with its submenu, and the rest. */
  datatype Forest = Nil | Cons(id: nat, kids: Forest, rest: Forest)

  datatype MenuSymbol = MenuSymbol(s: Symbol, isChoice: bool)

  datatype Prompt = Prompt(hasText: bool, visible: Option<Expr>)

  /** What a menu entry carries: `others` are the conditions of its further properties. */
  datatype Entry = Entry(sym: Option<MenuSymbol>, prompt: Option<Prompt>, dep: Option<Expr>, others: seq<Option<Expr>>)

  /** The order in which a menu is shown and written: an entry, its submenu, the following entries. */
  function Preorder(f: Forest): seq<nat> {
    match f
    case Nil => []
    case Cons(id, kids, rest) => [id] + Preorder(kids) + Preorder(rest)
  }

  function Append(a: Forest, b: Forest): Forest {
    match a
    case Nil => b
    case Cons(id, kids, rest) => Cons(id, kids, Append(rest, b))
  }

  lemma Associate(a: seq<nat>, b: seq<nat>, c: seq<nat>)
    ensures a + b + c == a + (b + c)
  {}

  lemma {:induction false} PreorderAppend(a: Forest, b: Forest)
    ensures Preorder(Append(a, b)) == Preorder(a) + Preorder(b)
  {
    match a
    case Nil =>
    case Cons(id, kids, rest) =>
      PreorderAppend(rest, b);
      Associate([id] + Preorder(kids), Preorder(rest), Preorder(b));
  }

  lemma {:induction false} AppendAssoc(a: Forest, b: Forest, c: Forest)
    ensures Append(Append(a, b), c) == Append(a, Append(b, c))
  {
    match a
    case Nil =>
    case Cons(_, _, rest) => AppendAssoc(rest, b, c);
  }

  lemma {:induction false} AppendNil(a: Forest)
    ensures Append(a, Nil) == a
  {
    match a
    case Nil =>
    case Cons(_, _, rest) => AppendNil(rest);
  }

  /** All entries are among the first n. */
  predicate Within(f: Forest, n: nat) {
    match f
    case Nil => true
    case Cons(id, kids, rest) => id < n && Within(kids, n) && Within(rest, n)
  }

  lemma {:induction false} WithinAppend(a: Forest, b: Forest, n: nat)
    ensures Within(Append(a, b), n) <==> Within(a, n) && Within(b, n)
  {
    match a
    case Nil =>
    case Cons(_, _, rest) => WithinAppend(rest, b, n);
  }

  // ----- handing dependencies down -----

  /** The dependency the children of an entry inherit. */
  function ParentDep(e: Entry): Option<Expr> {
    if e.sym.Some? && e.sym.value.isChoice then Some(Sym(e.sym.value.s))
    else if e.prompt.Some? then e.prompt.value.visible
    else e.dep
  }

  function Inherit(parent: Option<Expr>, e: Entry): Entry {
    var dep := HandDown(parent, e.dep);
    var free := e.sym.None? || e.sym.value.s.Type() == TristateType;
    e.(dep := dep,
      prompt := if e.prompt.None? then None
                else Some(e.prompt.value.(visible := HandDownVisible(dep, e.prompt.value.visible, free))),
      others := seq(|e.others|, i requires 0 <= i < |e.others| => HandDownVisible(dep, e.others[i], free)))
  }

  predicate Promptless(e: Entry) {
    e.prompt.None? || !e.prompt.value.hasText
  }

  /** Nothing but conditions may have changed. */
  predicate SameKind(st: seq<Entry>, st': seq<Entry>) {
    && |st'| == |st|
    && forall i | 0 <= i < |st| :: st'[i].sym == st[i].sym && (Promptless(st'[i]) <==> Promptless(st[i]))
  }

  function InheritAll(st: seq<Entry>, parent: Option<Expr>, f: Forest): (r: seq<Entry>)
    requires Within(f, |st|)
    ensures SameKind(st, r)
    decreases f
  {
    match f
    case Nil => st
    case Cons(id, kids, rest) =>
      InheritAll(st[id := Inherit(parent, st[id])], parent, rest)
  }

  // ----- implied submenus -----

  /** The condition an entry appears under. */
  function Condition(e: Entry): Option<Expr> {
    if e.prompt.Some? then e.prompt.value.visible else e.dep
  }

  predicate Takes(above: Entry, below: Entry)
    requires above.sym.Some?
  {
    Captures(if above.prompt.Some? then above.prompt.value.visible else None, above.sym.value.s, Condition(below))
  }

  /** The submenu of an entry without a prompt moves up behind the entry. */
  function Splice(st: seq<Entry>, f: Forest): (r: Forest)
    requires Within(f, |st|)
    ensures Preorder(r) == Preorder(f) && Within(r, |st|)
    decreases |Preorder(f)|
  {
    match f
    case Nil => Nil
    case Cons(id, kids, rest) =>
      if kids.Cons? && Promptless(st[id]) then
        PreorderAppend(kids, rest);
        WithinAppend(kids, rest, |st|);
        Associate([id], Preorder(kids), Preorder(rest));
        assert [id] + [] == [id];
        Cons(id, Nil, Splice(st, Append(kids, rest)))
      else
        Cons(id, kids, Splice(st, rest))
  }

  /**
   * menu_finalize for an entry: its submenu and the entries that follow it, afterwards. Nothing is lost, duplicated or
   * reordered.
   */
  function Finalize(st: seq<Entry>, id: nat, kids: Forest, rest: Forest): (r: (seq<Entry>, Forest, Forest))
    requires id < |st| && Within(kids, |st|) && Within(rest, |st|)
    ensures SameKind(st, r.0) && Within(r.1, |st|) && Within(r.2, |st|)
    ensures Preorder(Cons(id, r.1, r.2)) == Preorder(Cons(id, kids, rest))
    decreases |Preorder(kids)| + |Preorder(rest)|, 1
  {
    if kids.Cons? then
      var (st2, kids2) := FinalizeAll(InheritAll(st, ParentDep(st[id]), kids), kids);
      (st2, Splice(st2, kids2), rest)
    else if st[id].sym.Some? then
      var (st2, taken, left) := Capture(st, st[id], rest);
      TakenOrder(id, taken, left, rest);
      (st2, Splice(st2, taken), left)
    else
      (st, Nil, rest)
  }

  /** All entries of a list in turn; each may take over some of those behind it. */
  function FinalizeAll(st: seq<Entry>, f: Forest): (r: (seq<Entry>, Forest))
    requires Within(f, |st|)
    ensures SameKind(st, r.0) && Within(r.1, |st|) && Preorder(r.1) == Preorder(f)
    decreases |Preorder(f)|, 0
  {
    match f
    case Nil => (st, Nil)
    case Cons(id, kids, rest) =>
      var (st1, kids1, rest1) := Finalize(st, id, kids, rest);
      var (st2, rest2) := FinalizeAll(st1, rest1);
      (st2, Cons(id, kids1, rest2))
  }

  /** The following entries that imply the entry above become its submenu, up to the first that does not. */
  function Capture(st: seq<Entry>, above: Entry, f: Forest): (r: (seq<Entry>, Forest, Forest))
    requires Within(f, |st|) && above.sym.Some?
    ensures SameKind(st, r.0) && Within(r.1, |st|) && Within(r.2, |st|) && Preorder(Append(r.1, r.2)) == Preorder(f)
    decreases |Preorder(f)|, 0
  {
    match f
    case Nil => (st, Nil, Nil)
    case Cons(id, kids, rest) =>
      if !Takes(above, st[id]) then (st, Nil, f)
      else
        var (st1, kids1, rest1) := Finalize(st, id, kids, rest);
        var (st2, taken, left) := Capture(st1, above, rest1);
        assert Append(Cons(id, kids1, taken), left) == Cons(id, kids1, Append(taken, left));
        (st2, Cons(id, kids1, taken), left)
  }

  lemma TakenOrder(id: nat, taken: Forest, left: Forest, rest: Forest)
    requires Preorder(Append(taken, left)) == Preorder(rest)
    ensures Preorder(Cons(id, taken, left)) == Preorder(Cons(id, Nil, rest))
  {
    PreorderAppend(taken, left);
    Associate([id], Preorder(taken), Preorder(left));
    assert [id] + [] == [id];
  }
}
