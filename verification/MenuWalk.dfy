/** The walk of conf_write over the menu tree, which needs no stack because entries know their parents (confdata.c). */
module MenuWalk {
  import opened Tristates
  import opened Menus
  import opened MenuLinks
  import opened MenuTree

  /** Where a walk stands: inside the submenu of `id`, with `rest` to come after it, and so on upwards. */
  datatype Trail = Top | Under(id: nat, rest: Forest, above: Trail)

  function UpOf(t: Trail, root: nat): nat {
    match t
    case Top => root
    case Under(id, _, _) => id
  }

  /** The pointers lead back along the trail. */
  predicate OnTrail(h: Links, t: Trail, root: nat)
    requires |h.next| == |h.list| == |h.parent|
  {
    match t
    case Top => root < |h.next| && h.next[root] == None && h.parent[root] == None
    case Under(id, rest, above) =>
      && id < |h.next| && h.parent[id] == Some(UpOf(above, root))
      && IsList(h, h.next[id], rest, Some(UpOf(above, root))) && OnTrail(h, above, root)
  }

  /** What is visited after the current submenu. */
  function ToCome(t: Trail): seq<nat> {
    match t
    case Top => []
    case Under(_, rest, above) => Preorder(rest) + ToCome(above)
  }

  /** The first entry that follows an ancestor, from the innermost one outwards. */
  function Resume(t: Trail): Option<nat> {
    match t
    case Top => None
    case Under(_, rest, above) => if rest.Cons? then Some(rest.id) else Resume(above)
  }

  /** What has been visited and what is to come make up the whole menu. */
  ghost predicate Walking(h: Links, root: nat, menu: Option<nat>, f: Forest, t: Trail, out: seq<nat>, all: seq<nat>) {
    && |h.next| == |h.list| == |h.parent|
    && (menu.Some? ==>
          && f.Cons? && menu == Some(f.id) && IsList(h, menu, f, Some(UpOf(t, root))) && OnTrail(h, t, root)
          && out + (Preorder(f) + ToCome(t)) == all)
    && (menu.None? ==> out == all)
  }

  ghost predicate Climbing(h: Links, root: nat, menu: Option<nat>, t: Trail, out: seq<nat>, all: seq<nat>) {
    && |h.next| == |h.list| == |h.parent|
    && (menu.Some? ==> menu == Some(UpOf(t, root)) && OnTrail(h, t, root) && out + ToCome(t) == all)
    && (menu.None? ==> out == all)
  }

  lemma VisitOrder(out: seq<nat>, id: nat, kids: seq<nat>, rest: seq<nat>, come: seq<nat>)
    ensures out + ([id] + kids + rest + come) == (out + [id]) + (kids + (rest + come))
  {}

  lemma VisitFront(out: seq<nat>, f: Forest, t: Trail)
    requires f.Cons?
    ensures out + (Preorder(f) + ToCome(t)) == (out + [f.id]) + (Preorder(f.kids) + ToCome(Under(f.id, f.rest, t)))
    ensures |Preorder(f)| == 1 + |Preorder(f.kids)| + |Preorder(f.rest)|
  {
    VisitOrder(out, f.id, Preorder(f.kids), Preorder(f.rest), ToCome(t));
  }

  lemma NothingThere(s: seq<nat>)
    ensures [] + s == s
  {}

  /** The inner loop: up to the first ancestor that something follows. */
  method Climb(tree: Tree, from: nat, ghost root: nat, ghost t: Trail, ghost out: seq<nat>, ghost all: seq<nat>)
      returns (menu: Option<nat>, ghost f: Forest, ghost t': Trail)
    requires Climbing(tree.Now(), root, Some(from), t, out, all)
    ensures Walking(tree.Now(), root, menu, f, t', out, all)
    ensures menu == Resume(t)
    ensures menu.Some? ==> |Preorder(f)| + |ToCome(t')| == |ToCome(t)|
  {
    menu, t' := Some(from), t;
    f := Nil;
    while menu.Some? && tree.next[menu.value].None?
      invariant Climbing(tree.Now(), root, menu, t', out, all)
      invariant Resume(t) == if menu.Some? then Resume(t') else None
      invariant menu.Some? ==> |ToCome(t')| == |ToCome(t)|
      decreases menu.Some?, t'
    {
      menu := tree.parent[menu.value];
      if t'.Under? {
        NothingThere(ToCome(t'.above));
        t' := t'.above;
      } else {
        assert out + [] == out;
      }
    }
    if menu.Some? {
      menu := tree.next[menu.value];
      f, t' := t'.rest, t'.above;
    }
  }

  /** conf_write visits the entries below the root exactly once each, in the order of the menu. */
  method Walk(tree: Tree, root: nat, ghost kids: Forest) returns (out: seq<nat>)
    requires tree.At(root, kids, Nil, None) && tree.parent[root] == None
    ensures out == Preorder(kids)
  {
    out := [];
    var menu: Option<nat> := tree.list[root];
    ghost var f, t, all := kids, Top, Preorder(kids);
    assert [] + (Preorder(kids) + []) == all;
    while menu.Some?
      invariant Walking(tree.Now(), root, menu, f, t, out, all)
      decreases if menu.Some? then 1 + |Preorder(f)| + |ToCome(t)| else 0
    {
      var m := menu.value;
      FrontPointers(tree.Now(), f, Some(UpOf(t, root)));
      VisitFront(out, f, t);
      out := out + [m];
      if tree.list[m].Some? {
        menu := tree.list[m];
        f, t := f.kids, Under(m, f.rest, t);
      } else if tree.next[m].Some? {
        NothingThere(ToCome(Under(m, f.rest, t)));
        menu := tree.next[m];
        f := f.rest;
      } else {
        NothingThere(ToCome(t));
        menu, f, t := Climb(tree, tree.parent[m].value, root, t, out, all);
      }
    }
  }

  lemma SameBehind(x: nat, a: seq<nat>, b: seq<nat>)
    requires [x] + a + [] == [x] + b + []
    ensures a == b
  {
    assert |[x] + a + []| == 1 + |a| && |[x] + b + []| == 1 + |b|;
    forall i | 0 <= i < |a| ensures a[i] == b[i] {
      assert ([x] + a + [])[i + 1] == a[i] && ([x] + b + [])[i + 1] == b[i];
    }
  }

  lemma SameOrderBelow(root: nat, kids: Forest, kids': Forest)
    requires Preorder(Cons(root, kids', Nil)) == Preorder(Cons(root, kids, Nil))
    ensures Preorder(kids') == Preorder(kids)
  {
    SameBehind(root, Preorder(kids'), Preorder(kids));
  }

  /** After menu_finalize the walk still visits the entries in the order in which they were written down. */
  method FinalizeAndWalk(tree: Tree, root: nat, ghost kids: Forest) returns (out: seq<nat>)
    requires tree.At(root, kids, Nil, None) && tree.parent[root] == None
    modifies tree
    ensures out == Preorder(kids)
  {
    ghost var kids', rest' := tree.Finalize(root, kids, Nil, None);
    SameOrderBelow(root, kids, kids');
    out := Walk(tree, root, kids');
  }
}
