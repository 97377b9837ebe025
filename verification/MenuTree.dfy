/** menu_finalize on linked entries (menu.c). */
module MenuTree {
  import opened Tristates
  import opened Exprs
  import opened SubmenuTest
  import opened Menus
  import opened MenuLinks

  /** All menu entries; an entry is an index, and the pointers of struct menu are fields indexed by it. */
  class Tree {
    var entries: seq<Entry>
    var next: seq<Option<nat>>
    var list: seq<Option<nat>>
    var parent: seq<Option<nat>>

    function Now(): Links
      reads this
    {
      Links(next, list, parent)
    }

    ghost predicate At(p: nat, kids: Forest, rest: Forest, up: Option<nat>)
      reads this
    {
      Stands(Now(), |entries|, p, kids, rest, up) && Within(kids, |entries|) && Within(rest, |entries|)
    }

    /** menu_finalize. */
    method Finalize(p: nat, ghost kids: Forest, ghost rest: Forest, ghost up: Option<nat>)
        returns (ghost kids': Forest, ghost rest': Forest)
      requires At(p, kids, rest, up)
      modifies this
      ensures Within(kids, |old(entries)|) && Within(rest, |old(entries)|)
      ensures (entries, kids', rest') == Menus.Finalize(old(entries), p, kids, rest)
      ensures At(p, kids', rest', up) && parent[p] == old(parent[p])
      ensures SameOutside(old(Now()), Now(), IdSet(Cons(p, kids, rest)))
      decreases |Preorder(kids)| + |Preorder(rest)|, 4
    {
      kids', rest' := kids, rest;
      if list[p].Some? {
        kids' := FinalizeParent(p, kids, rest, up);
      } else if entries[p].sym.Some? {
        kids', rest' := FinalizeSymbol(p, kids, rest, up);
      }
    }

    /** An entry with a submenu. */
    method FinalizeParent(p: nat, ghost kids: Forest, ghost rest: Forest, ghost up: Option<nat>)
        returns (ghost kids': Forest)
      requires At(p, kids, rest, up) && kids.Cons?
      modifies this
      ensures Within(kids, |old(entries)|) && Within(rest, |old(entries)|)
      ensures (entries, kids', rest) == Menus.Finalize(old(entries), p, kids, rest)
      ensures At(p, kids', rest, up) && parent[p] == old(parent[p])
      ensures SameOutside(old(Now()), Now(), IdSet(Cons(p, kids, rest)))
      decreases |Preorder(kids)| + |Preorder(rest)|, 3
    {
      ghost var before := Now();
      InheritLoop(p, kids, rest, up);
      ghost var kids1 := FinalizeLoop(p, kids, rest, up);
      ghost var mid := Now();
      kids' := SpliceLoop(p, kids1, rest, up);
      SamePreorder(kids, kids1);
      SameOutsideChain(before, mid, Now(), IdSet(kids), IdSet(kids), IdSet(kids));
    }

    /** An entry without a submenu, which may get one from the entries that follow. */
    method FinalizeSymbol(p: nat, ghost kids: Forest, ghost rest: Forest, ghost up: Option<nat>)
        returns (ghost kids': Forest, ghost rest': Forest)
      requires At(p, kids, rest, up) && kids.Nil? && entries[p].sym.Some?
      modifies this
      ensures Within(kids, |old(entries)|) && Within(rest, |old(entries)|)
      ensures (entries, kids', rest') == Menus.Finalize(old(entries), p, kids, rest)
      ensures At(p, kids', rest', up) && parent[p] == old(parent[p])
      ensures SameOutside(old(Now()), Now(), IdSet(Cons(p, kids, rest)))
      decreases |Preorder(kids)| + |Preorder(rest)|, 3
    {
      ghost var before := Now();
      ghost var taken;
      taken, rest' := CaptureLoop(p, kids, rest, up);
      ghost var mid := Now();
      ApartConcat(taken, rest', rest);
      kids' := SpliceLoop(p, taken, rest', up);
      SameOutsideChain(before, mid, Now(), IdSet(Cons(p, kids, rest)), IdSet(taken), IdSet(Cons(p, kids, rest)));
    }

    /** The first loop: every child inherits the dependency of its parent. */
    method InheritLoop(p: nat, ghost kids: Forest, ghost rest: Forest, ghost up: Option<nat>)
      requires At(p, kids, rest, up)
      modifies `entries
      ensures Within(kids, |old(entries)|)
      ensures entries == InheritAll(old(entries), ParentDep(old(entries[p])), kids) && At(p, kids, rest, up)
    {
      var dep := ParentDep(entries[p]);
      var menu: Option<nat> := list[p];
      ghost var todo := kids;
      while menu.Some?
        invariant |entries| == |old(entries)| && Within(todo, |entries|)
        invariant IsList(Now(), menu, todo, Some(p))
        invariant InheritAll(old(entries), dep, kids) == InheritAll(entries, dep, todo)
        decreases todo
      {
        entries := entries[menu.value := Inherit(dep, entries[menu.value])];
        todo := todo.rest;
        menu := next[menu.value];
      }
    }

    /** The links with the entry m hung below `up`. */
    function Moved(m: nat, up: Option<nat>): Links
      reads this
      requires m < |parent|
    {
      Links(next, list, parent[m := up])
    }

    /** One turn of such a loop: the entry at the front is finished, ready to be hung below `up`. */
    method FinalizeNext(m: nat, ghost first: Option<nat>, ghost done: Forest, ghost todo: Forest,
                        ghost whole: Forest, ghost up: Option<nat>, ghost from: Option<nat>)
        returns (ghost kids: Forest, ghost rest: Forest)
      requires todo.Cons? && Halfway(Now(), |entries|, first, done, Some(m), todo, whole, up, from)
      requires Within(todo, |entries|)
      modifies this
      ensures todo.id == m && m < |old(entries)| == |entries|
      ensures Within(todo.kids, |old(entries)|) && Within(todo.rest, |old(entries)|)
      ensures (entries, kids, rest) == Menus.Finalize(old(entries), m, todo.kids, todo.rest)
      ensures m < |next| == |parent| && parent[m] == from
      ensures Halfway(Moved(m, up), |entries|, first, Append(done, Cons(m, kids, Nil)), next[m], rest, whole, up, from)
      ensures |Preorder(rest)| < |Preorder(todo)|
      ensures SameOutside(old(Now()), Moved(m, up), IdSet(whole))
      decreases |Preorder(todo)|, 0
    {
      ghost var before := Now();
      FrontStands(before, |entries|, first, done, Some(m), todo, whole, up, from);
      kids, rest := Finalize(m, todo.kids, todo.rest, from);
      TurnDone(before, Now(), |entries|, first, done, todo, whole, kids, rest, up, from);
    }

    /** What the second loop keeps: what is done and what is still to do make up the specified result. */
    ghost predicate Finalizing(st: seq<Entry>, before: Links, p: nat, done: Forest, menu: Option<nat>, todo: Forest,
                               kids: Forest)
      reads this
    {
      && Halfway(Now(), |entries|, if p < |before.list| then before.list[p] else None, done, menu, todo, kids,
                 Some(p), Some(p))
      && |entries| == |st| && Within(kids, |st|) && Within(todo, |st|) && SameOutside(before, Now(), IdSet(kids))
      && FinalizeAll(st, kids) == (FinalizeAll(entries, todo).0, Append(done, FinalizeAll(entries, todo).1))
      && |Preorder(todo)| <= |Preorder(kids)|
    }

    method FinalizeTurn(p: nat, m: nat, ghost st: seq<Entry>, ghost before: Links, ghost done: Forest,
                        ghost todo: Forest, ghost kids: Forest)
        returns (ghost done': Forest, ghost todo': Forest)
      requires todo.Cons? && Finalizing(st, before, p, done, Some(m), todo, kids)
      modifies this
      ensures m < |next| && Finalizing(st, before, p, done', next[m], todo', kids)
      ensures |Preorder(todo')| < |Preorder(todo)|
      decreases |Preorder(todo)|, 1
    {
      ghost var mid, first := Now(), if p < |before.list| then before.list[p] else None;
      ghost var k, r := FinalizeNext(m, first, done, todo, kids, Some(p), Some(p));
      assert Moved(m, Some(p)) == Now();
      SameOutsideChain(before, mid, Now(), IdSet(kids), IdSet(kids), IdSet(kids));
      AppendAssoc(done, Cons(m, k, Nil), FinalizeAll(entries, r).1);
      done', todo' := Append(done, Cons(m, k, Nil)), r;
    }

    /** The second loop: every child in turn. */
    method FinalizeLoop(p: nat, ghost kids: Forest, ghost rest: Forest, ghost up: Option<nat>)
        returns (ghost kids': Forest)
      requires At(p, kids, rest, up)
      modifies this
      ensures Within(kids, |old(entries)|)
      ensures (entries, kids') == FinalizeAll(old(entries), kids)
      ensures At(p, kids', rest, up)
      ensures SameOutside(old(Now()), Now(), IdSet(kids))
      decreases |Preorder(kids)| + |Preorder(rest)|, 2
    {
      ghost var st, before := entries, Now();
      var menu: Option<nat> := list[p];
      ghost var done, todo := Nil, kids;
      while menu.Some?
        invariant Finalizing(st, before, p, done, menu, todo, kids)
        decreases |Preorder(todo)|
      {
        done, todo := FinalizeTurn(p, menu.value, st, before, done, todo, kids);
        menu := next[menu.value];
      }
      AppendNil(done);
      kids' := done;
      ListDone(before, Now(), |entries|, p, kids, kids', rest, up);
    }

    /** What the loop over the following entries keeps. */
    ghost predicate Capturing(st: seq<Entry>, before: Links, p: nat, above: Entry, done: Forest, menu: Option<nat>,
                              todo: Forest, rest: Forest, up: Option<nat>)
      reads this
    {
      && above.sym.Some?
      && Halfway(Now(), |entries|, if p < |before.next| then before.next[p] else None, done, menu, todo, rest,
                 Some(p), up)
      && |entries| == |st| && Within(rest, |st|) && Within(todo, |st|) && SameOutside(before, Now(), IdSet(rest))
      && (var r := Capture(entries, above, todo); Capture(st, above, rest) == (r.0, Append(done, r.1), r.2))
      && |Preorder(todo)| <= |Preorder(rest)|
    }

    method CaptureTurn(p: nat, m: nat, above: Entry, ghost st: seq<Entry>, ghost before: Links, ghost done: Forest,
                       ghost todo: Forest, ghost rest: Forest, ghost up: Option<nat>)
        returns (ghost done': Forest, ghost todo': Forest)
      requires todo.Cons? && Capturing(st, before, p, above, done, Some(m), todo, rest, up)
      requires m < |entries| && Takes(above, entries[m])
      modifies this
      ensures m < |next| && Capturing(st, before, p, above, done', next[m], todo', rest, up)
      ensures |Preorder(todo')| < |Preorder(todo)| && done'.Cons? && LastOf(done') == m
      decreases |Preorder(todo)|, 1
    {
      ghost var mid, first := Now(), if p < |before.next| then before.next[p] else None;
      ghost var k, r := FinalizeNext(m, first, done, todo, rest, Some(p), up);
      parent := parent[m := Some(p)];
      SameOutsideChain(before, mid, Now(), IdSet(rest), IdSet(rest), IdSet(rest));
      AppendAssoc(done, Cons(m, k, Nil), Capture(entries, above, r).1);
      LastOfSnoc(done, m, k);
      done', todo' := Append(done, Cons(m, k, Nil)), r;
    }

    /** The entries from p's successor up to `last` become the submenu of p. */
    method Relink(p: nat, last: Option<nat>, ghost before: Links, ghost taken: Forest, ghost menu: Option<nat>,
                  ghost left: Forest, ghost rest: Forest, ghost up: Option<nat>)
      requires Stands(before, |entries|, p, Nil, rest, up) && SameOutside(before, Now(), IdSet(rest))
      requires Halfway(Now(), |entries|, before.next[p], taken, menu, left, rest, Some(p), up)
      requires Within(taken, |entries|) && Within(left, |entries|)
      requires last == if taken.Nil? then None else Some(LastOf(taken))
      modifies `next, `list
      ensures At(p, taken, left, up) && SameOutside(before, Now(), IdSet(Cons(p, Nil, rest)))
    {
      if last.Some? {
        CaptureDone(before, Now(), |entries|, p, taken, menu, left, rest, up);
        list := list[p := next[p]];
        next := next[p := next[last.value]];
        next := next[last.value := None];
      } else {
        NothingTaken(before, Now(), |entries|, p, menu, left, rest, up);
      }
    }

    /** The loop that takes over the following entries that imply this one. */
    method CaptureLoop(p: nat, ghost kids: Forest, ghost rest: Forest, ghost up: Option<nat>)
        returns (ghost taken: Forest, ghost left: Forest)
      requires At(p, kids, rest, up) && kids.Nil? && entries[p].sym.Some?
      modifies this
      ensures Within(rest, |old(entries)|)
      ensures (entries, taken, left) == Capture(old(entries), old(entries[p]), rest)
      ensures At(p, taken, left, up) && parent[p] == old(parent[p])
      ensures SameOutside(old(Now()), Now(), IdSet(Cons(p, kids, rest)))
      decreases |Preorder(kids)| + |Preorder(rest)|, 2
    {
      ghost var st, before := entries, Now();
      var above := entries[p];
      var menu: Option<nat>, last: Option<nat> := next[p], None;
      ghost var done, todo := Nil, rest;
      while menu.Some? && Takes(above, entries[menu.value])
        invariant Capturing(st, before, p, above, done, menu, todo, rest, up)
        invariant last == if done.Nil? then None else Some(LastOf(done))
        decreases |Preorder(todo)|
      {
        done, todo := CaptureTurn(p, menu.value, above, st, before, done, todo, rest, up);
        last := menu;
        menu := next[menu.value];
      }
      AppendNil(done);
      taken, left := done, todo;
      Relink(p, last, before, taken, menu, left, rest, up);
    }

    /** The inner loop of the last one: the entries of a list get a new parent. */
    method Rehang(m: nat, p: nat, ghost kids: Forest) returns (last: nat)
      requires m < |list| == |next| == |parent| == |entries| && kids.Cons? && Apart(kids)
      requires IsList(Now(), list[m], kids, Some(m))
      modifies `parent
      ensures SameOutside(old(Now()), Now(), IdSet(kids)) && Segment(Now(), list[m], kids, None, Some(p))
      ensures last == LastOf(kids)
    {
      ghost var before := Now();
      last := list[m].value;
      Advance(Now(), |entries|, list[m], Nil, kids, kids, Some(p), Some(m));
      parent := parent[last := Some(p)];
      ghost var done, todo := Cons(last, kids.kids, Nil), kids.rest;
      while next[last].Some?
        invariant last < |next|
        invariant Halfway(Now(), |entries|, list[m], done, next[last], todo, kids, Some(p), Some(m))
        invariant SameOutside(before, Now(), IdSet(kids)) && Append(done, todo) == kids
        invariant done.Cons? && LastOf(done) == last
        decreases |Preorder(todo)|
      {
        ghost var mid := Now();
        Advance(Now(), |entries|, list[m], done, todo, kids, Some(p), Some(m));
        last := next[last].value;
        parent := parent[last := Some(p)];
        SameOutsideChain(before, mid, Now(), IdSet(kids), IdSet(kids), IdSet(kids));
        AppendAssoc(done, Cons(last, todo.kids, Nil), todo.rest);
        LastOfSnoc(done, last, todo.kids);
        done, todo := Append(done, Cons(last, todo.kids, Nil)), todo.rest;
      }
      AppendNil(done);
    }

    ghost predicate Splicing(before: Links, p: nat, done: Forest, menu: Option<nat>, todo: Forest, kids: Forest)
      reads this
    {
      && Halfway(Now(), |entries|, if p < |before.list| then before.list[p] else None, done, menu, todo, kids,
                 Some(p), Some(p))
      && Within(kids, |entries|) && Within(todo, |entries|) && SameOutside(before, Now(), IdSet(kids))
      && Splice(entries, kids) == Append(done, Splice(entries, todo))
    }

    /** The submenu of m moves up behind m. */
    method Lift(p: nat, m: nat, ghost first: Option<nat>, ghost done: Forest, ghost todo: Forest, ghost kids: Forest)
      requires todo.Cons? && todo.kids.Cons?
      requires Halfway(Now(), |entries|, first, done, Some(m), todo, kids, Some(p), Some(p))
      modifies `next, `list, `parent
      ensures m < |next| && SameOutside(old(Now()), Now(), IdSet(kids))
      ensures Halfway(Now(), |entries|, first, Append(done, Cons(m, Nil, Nil)), next[m],
                      Append(todo.kids, todo.rest), kids, Some(p), Some(p))
      ensures |Preorder(Append(todo.kids, todo.rest))| < |Preorder(todo)|
    {
      ghost var before := Now();
      FrontStands(before, |entries|, first, done, Some(m), todo, kids, Some(p), Some(p));
      var last := Rehang(m, p, todo.kids);
      LiftDone(before, Now(), |entries|, first, done, todo, kids, Some(p));
      next := next[last := next[m]];
      next := next[m := list[m]];
      list := list[m := None];
    }

    method SpliceTurn(p: nat, m: nat, ghost before: Links, ghost done: Forest, ghost todo: Forest, ghost kids: Forest)
        returns (ghost done': Forest, ghost todo': Forest)
      requires todo.Cons? && Splicing(before, p, done, Some(m), todo, kids)
      modifies `next, `list, `parent
      ensures m < |next| && Splicing(before, p, done', next[m], todo', kids)
      ensures |Preorder(todo')| < |Preorder(todo)|
    {
      ghost var mid, first := Now(), if p < |before.list| then before.list[p] else None;
      assert todo.id == m && list[m] == First(todo.kids) by { FrontPointers(mid, todo, Some(p)); }
      if list[m].Some? && Promptless(entries[m]) {
        Lift(p, m, first, done, todo, kids);
        done', todo' := Append(done, Cons(m, Nil, Nil)), Append(todo.kids, todo.rest);
        WithinAppend(todo.kids, todo.rest, |entries|);
        AppendAssoc(done, Cons(m, Nil, Nil), Splice(entries, todo'));
      } else {
        Advance(mid, |entries|, first, done, todo, kids, Some(p), Some(p));
        assert mid.(parent := mid.parent[m := Some(p)]) == Now();
        done', todo' := Append(done, Cons(m, todo.kids, Nil)), todo.rest;
        AppendAssoc(done, Cons(m, todo.kids, Nil), Splice(entries, todo'));
      }
      SameOutsideChain(before, mid, Now(), IdSet(kids), IdSet(kids), IdSet(kids));
    }

    /** The last loop: submenus of entries without a prompt move up. */
    method SpliceLoop(p: nat, ghost kids: Forest, ghost rest: Forest, ghost up: Option<nat>)
        returns (ghost kids': Forest)
      requires At(p, kids, rest, up)
      modifies `next, `list, `parent
      ensures Within(kids, |entries|) && kids' == Splice(entries, kids)
      ensures At(p, kids', rest, up)
      ensures SameOutside(old(Now()), Now(), IdSet(kids))
    {
      ghost var before := Now();
      var menu: Option<nat> := list[p];
      ghost var done, todo := Nil, kids;
      while menu.Some?
        invariant Splicing(before, p, done, menu, todo, kids)
        decreases |Preorder(todo)|
      {
        done, todo := SpliceTurn(p, menu.value, before, done, todo, kids);
        menu := next[menu.value];
      }
      AppendNil(done);
      kids' := done;
      ListDone(before, Now(), |entries|, p, kids, kids', rest, up);
    }
  }
}
