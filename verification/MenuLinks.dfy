/** The pointers between menu entries and the tree they form (struct menu in expr.h). */
module MenuLinks {
  import opened Tristates
  import opened Menus

  /** The fields next, list and parent of all entries. */
  datatype Links = Links(next: seq<Option<nat>>, list: seq<Option<nat>>, parent: seq<Option<nat>>)

  predicate Sized(h: Links, n: nat) {
    |h.next| == |h.list| == |h.parent| == n
  }

  function First(f: Forest): Option<nat> {
    if f.Nil? then None else Some(f.id)
  }

  /**
   * Following `next` from `first` one passes the entries of `f` and arrives at `end`. All of them have the parent
   * `up`, and below each hangs its submenu in the same way.
   */
  predicate Segment(h: Links, first: Option<nat>, f: Forest, end: Option<nat>, up: Option<nat>)
    requires |h.next| == |h.list| == |h.parent|
    decreases f
  {
    match f
    case Nil => first == end
    case Cons(id, kids, rest) =>
      && first == Some(id) && id < |h.next| && h.parent[id] == up
      && Segment(h, h.list[id], kids, None, Some(id))
      && Segment(h, h.next[id], rest, end, up)
  }

  predicate IsList(h: Links, first: Option<nat>, f: Forest, up: Option<nat>)
    requires |h.next| == |h.list| == |h.parent|
  {
    Segment(h, first, f, None, up)
  }

  predicate Unique(s: seq<nat>) {
    forall i, j | 0 <= i < j < |s| :: s[i] != s[j]
  }

  /** Outside `ids` nothing has changed. */
  predicate SameOutside(a: Links, b: Links, ids: set<nat>) {
    && |a.next| == |a.list| == |a.parent| == |b.next| == |b.list| == |b.parent|
    && forall x | 0 <= x < |a.next| && x !in ids ::
         a.next[x] == b.next[x] && a.list[x] == b.list[x] && a.parent[x] == b.parent[x]
  }

  function IdSet(f: Forest): set<nat> {
    match f
    case Nil => {}
    case Cons(id, kids, rest) => {id} + IdSet(kids) + IdSet(rest)
  }

  lemma {:induction false} IdSetIsPreorder(f: Forest)
    ensures forall x :: x in IdSet(f) <==> x in Preorder(f)
  {
    match f
    case Nil =>
    case Cons(id, kids, rest) =>
      IdSetIsPreorder(kids);
      IdSetIsPreorder(rest);
  }

  /** Unique ids, told by sets: the parts of a tree are disjoint. */
  predicate Apart(f: Forest) {
    match f
    case Nil => true
    case Cons(id, kids, rest) =>
      && id !in IdSet(kids) && id !in IdSet(rest) && IdSet(kids) !! IdSet(rest)
      && Apart(kids) && Apart(rest)
  }

  lemma UniqueParts(a: seq<nat>, b: seq<nat>)
    requires Unique(a + b)
    ensures Unique(a) && Unique(b) && forall x | x in a :: x !in b
  {
    var s := a + b;
    forall i, j | 0 <= i < j < |b| ensures b[i] != b[j] {
      assert s[|a| + i] == b[i] && s[|a| + j] == b[j];
    }
    forall i, j | 0 <= i < j < |a| ensures a[i] != a[j] {
      assert s[i] == a[i] && s[j] == a[j];
    }
    forall x | x in a ensures x !in b {
      var i :| 0 <= i < |a| && a[i] == x;
      forall j | 0 <= j < |b| ensures b[j] != x {
        assert s[i] == x && s[|a| + j] == b[j];
      }
    }
  }

  lemma {:induction false} UniqueIsApart(f: Forest)
    requires Unique(Preorder(f))
    ensures Apart(f)
  {
    match f
    case Nil =>
    case Cons(id, kids, rest) =>
      Associate([id], Preorder(kids), Preorder(rest));
      UniqueParts([id], Preorder(kids) + Preorder(rest));
      UniqueParts(Preorder(kids), Preorder(rest));
      IdSetIsPreorder(kids);
      IdSetIsPreorder(rest);
      assert id in [id];
      UniqueIsApart(kids);
      UniqueIsApart(rest);
  }

  lemma UniqueJoin(a: seq<nat>, b: seq<nat>)
    requires Unique(a) && Unique(b) && forall x | x in a :: x !in b
    ensures Unique(a + b)
  {
    forall i, j | 0 <= i < j < |a + b| ensures (a + b)[i] != (a + b)[j] {
      if j < |a| {
        assert a[i] != a[j];
      } else if i >= |a| {
        assert b[i - |a|] != b[j - |a|];
      } else {
        assert a[i] in a && b[j - |a|] in b;
      }
    }
  }

  lemma {:induction false} ApartIsUnique(f: Forest)
    requires Apart(f)
    ensures Unique(Preorder(f))
  {
    match f
    case Nil =>
    case Cons(id, kids, rest) =>
      ApartIsUnique(kids);
      ApartIsUnique(rest);
      IdSetIsPreorder(kids);
      IdSetIsPreorder(rest);
      UniqueJoin([id], Preorder(kids));
      UniqueJoin([id] + Preorder(kids), Preorder(rest));
  }

  /** Trees with the same preorder have the same entries, each once if one of them has. */
  lemma SamePreorder(a: Forest, b: Forest)
    requires Preorder(a) == Preorder(b)
    ensures IdSet(a) == IdSet(b) && (Apart(a) ==> Apart(b))
  {
    IdSetIsPreorder(a);
    IdSetIsPreorder(b);
    if Apart(a) {
      ApartIsUnique(a);
      UniqueIsApart(b);
    }
  }

  // ----- segments -----

  lemma {:induction false} SegmentFrame(a: Links, b: Links, first: Option<nat>, f: Forest, end: Option<nat>,
                                        up: Option<nat>, ids: set<nat>)
    requires SameOutside(a, b, ids) && Segment(a, first, f, end, up) && IdSet(f) !! ids
    ensures Segment(b, first, f, end, up)
    decreases f
  {
    match f
    case Nil =>
    case Cons(id, kids, rest) =>
      assert id in IdSet(f);
      SegmentFrame(a, b, a.list[id], kids, None, Some(id), ids);
      SegmentFrame(a, b, a.next[id], rest, end, up, ids);
  }

  lemma {:induction false} SegmentJoin(h: Links, first: Option<nat>, a: Forest, mid: Option<nat>, b: Forest,
                                       end: Option<nat>, up: Option<nat>)
    requires |h.next| == |h.list| == |h.parent|
    requires Segment(h, first, a, mid, up) && Segment(h, mid, b, end, up)
    ensures Segment(h, first, Append(a, b), end, up)
    decreases a
  {
    match a
    case Nil =>
    case Cons(id, _, rest) => SegmentJoin(h, h.next[id], rest, mid, b, end, up);
  }

  function LastOf(f: Forest): nat
    requires f.Cons?
  {
    if f.rest.Nil? then f.id else LastOf(f.rest)
  }

  /** Redirecting the last entry of a segment. */
  lemma {:induction false} SegmentRedirect(h: Links, first: Option<nat>, f: Forest, end: Option<nat>, up: Option<nat>,
                                           end': Option<nat>)
    requires |h.next| == |h.list| == |h.parent| && Segment(h, first, f, end, up) && f.Cons? && Apart(f)
    ensures LastOf(f) < |h.next| && LastOf(f) in IdSet(f) && h.next[LastOf(f)] == end
    ensures Segment(h.(next := h.next[LastOf(f) := end']), first, f, end', up)
    decreases f
  {
    var rest := f.rest;
    if rest.Cons? {
      SegmentRedirect(h, h.next[f.id], rest, end, up, end');
    }
    var last := LastOf(f);
    var h' := h.(next := h.next[last := end']);
    SegmentFrame(h, h', h.list[f.id], f.kids, None, Some(f.id), {last});
  }

  // ----- a list that is worked through from the front -----

  lemma {:induction false} IdSetAppend(a: Forest, b: Forest)
    ensures IdSet(Append(a, b)) == IdSet(a) + IdSet(b)
  {
    match a
    case Nil =>
    case Cons(_, _, rest) => IdSetAppend(rest, b);
  }

  lemma {:induction false} ApartAppend(a: Forest, b: Forest)
    requires Apart(Append(a, b))
    ensures Apart(a) && Apart(b) && IdSet(a) !! IdSet(b)
  {
    match a
    case Nil =>
    case Cons(_, _, rest) =>
      IdSetAppend(rest, b);
      ApartAppend(rest, b);
  }

  /** Two lists that together are a third one, up to nesting, share no entry. */
  lemma ApartConcat(a: Forest, b: Forest, whole: Forest)
    requires Preorder(Append(a, b)) == Preorder(whole) && Apart(whole)
    ensures Apart(a) && Apart(b) && IdSet(a) !! IdSet(b) && IdSet(a) + IdSet(b) == IdSet(whole)
  {
    SamePreorder(whole, Append(a, b));
    ApartAppend(a, b);
    IdSetAppend(a, b);
  }

  lemma AppendSame(a: Forest, b: Forest, b': Forest)
    requires Preorder(b) == Preorder(b')
    ensures Preorder(Append(a, b)) == Preorder(Append(a, b'))
  {
    PreorderAppend(a, b);
    PreorderAppend(a, b');
  }

  /** Moving one finished entry from what is still to do to what is done. */
  lemma DoneGrows(done: Forest, todo: Forest, whole: seq<nat>, kids: Forest, rest: Forest)
    requires todo.Cons? && Preorder(Append(done, todo)) == whole
    requires Preorder(todo) == Preorder(Cons(todo.id, kids, rest))
    ensures Preorder(Append(Append(done, Cons(todo.id, kids, Nil)), rest)) == whole
  {
    var one := Cons(todo.id, kids, Nil);
    AppendAssoc(done, one, rest);
    assert Append(one, rest) == Cons(todo.id, kids, rest);
    AppendSame(done, todo, Cons(todo.id, kids, rest));
  }

  lemma {:induction false} LastOfSnoc(done: Forest, id: nat, kids: Forest)
    ensures LastOf(Append(done, Cons(id, kids, Nil))) == id
  {
    match done
    case Nil =>
    case Cons(_, _, rest) => LastOfSnoc(rest, id, kids);
  }

  /** The links when the entry at the front of the list has been finished and the rest may have shrunk. */
  lemma SegmentGrows(a: Links, b: Links, first: Option<nat>, done: Forest, todo: Forest, kids: Forest, up: Option<nat>)
    requires todo.Cons? && SameOutside(a, b, IdSet(todo)) && IdSet(done) !! IdSet(todo)
    requires Segment(a, first, done, Some(todo.id), up) && todo.id < |b.next| && b.parent[todo.id] == up
    requires IsList(b, b.list[todo.id], kids, Some(todo.id))
    ensures Segment(b, first, Append(done, Cons(todo.id, kids, Nil)), b.next[todo.id], up)
  {
    SegmentFrame(a, b, first, done, Some(todo.id), up, IdSet(todo));
    SegmentJoin(b, first, done, Some(todo.id), Cons(todo.id, kids, Nil), b.next[todo.id], up);
  }

  // ----- one turn of a loop over a list -----

  /** The entry p with its submenu and the entries that follow it. */
  ghost predicate Stands(h: Links, n: nat, p: nat, kids: Forest, rest: Forest, up: Option<nat>) {
    && Sized(h, n) && p < n
    && Apart(Cons(p, kids, rest))
    && IsList(h, h.list[p], kids, Some(p)) && IsList(h, h.next[p], rest, up)
  }

  /** Between two turns of a loop over the entries of `whole`: those done have the parent `up`, the others `from`. */
  ghost predicate Halfway(h: Links, n: nat, first: Option<nat>, done: Forest, menu: Option<nat>, todo: Forest,
                          whole: Forest, up: Option<nat>, from: Option<nat>)
  {
    && Sized(h, n) && Apart(whole) && Preorder(Append(done, todo)) == Preorder(whole)
    && Segment(h, first, done, menu, up) && IsList(h, menu, todo, from)
  }

  lemma SameOutsideChain(a: Links, b: Links, c: Links, s: set<nat>, t: set<nat>, w: set<nat>)
    requires SameOutside(a, b, s) && SameOutside(b, c, t) && s <= w && t <= w
    ensures SameOutside(a, c, w)
  {}

  /** The entry at the front can be finished on its own. */
  lemma FrontStands(h: Links, n: nat, first: Option<nat>, done: Forest, menu: Option<nat>, todo: Forest, whole: Forest,
                    up: Option<nat>, from: Option<nat>)
    requires Halfway(h, n, first, done, menu, todo, whole, up, from) && todo.Cons?
    ensures menu == Some(todo.id) && Stands(h, n, todo.id, todo.kids, todo.rest, from)
    ensures IdSet(todo) <= IdSet(whole) && IdSet(done) !! IdSet(todo) && todo.id in IdSet(todo)
  {
    ApartConcat(done, todo, whole);
  }

  /** The links after the front entry has been finished and hung below `up`. */
  lemma TurnLinks(a: Links, b: Links, n: nat, first: Option<nat>, done: Forest, todo: Forest,
                  kids: Forest, rest: Forest, up: Option<nat>, from: Option<nat>)
    requires todo.Cons? && Sized(a, n) && Segment(a, first, done, Some(todo.id), up) && IdSet(done) !! IdSet(todo)
    requires todo.id in IdSet(todo) && Stands(b, n, todo.id, kids, rest, from)
    requires SameOutside(a, b, IdSet(todo))
    ensures var c := b.(parent := b.parent[todo.id := up]);
            && Segment(c, first, Append(done, Cons(todo.id, kids, Nil)), c.next[todo.id], up)
            && IsList(c, c.next[todo.id], rest, from)
  {
    var c := b.(parent := b.parent[todo.id := up]);
    SegmentFrame(b, c, b.list[todo.id], kids, None, Some(todo.id), {todo.id});
    SegmentFrame(b, c, b.next[todo.id], rest, None, from, {todo.id});
    SegmentGrows(a, c, first, done, todo, kids, up);
  }

  lemma Shorter(f: Forest, id: nat, kids: Forest, rest: Forest)
    requires Preorder(f) == Preorder(Cons(id, kids, rest))
    ensures |Preorder(rest)| < |Preorder(f)|
  {}

  lemma TurnFrame(a: Links, b: Links, n: nat, first: Option<nat>, done: Forest, todo: Forest, whole: Forest,
                 kids: Forest, rest: Forest, up: Option<nat>, from: Option<nat>)
    requires todo.Cons? && Halfway(a, n, first, done, Some(todo.id), todo, whole, up, from)
    requires Stands(b, n, todo.id, kids, rest, from) && SameOutside(a, b, IdSet(todo))
    ensures SameOutside(a, b.(parent := b.parent[todo.id := up]), IdSet(whole))
  {
    ApartConcat(done, todo, whole);
  }

  lemma TurnLists(a: Links, b: Links, n: nat, first: Option<nat>, done: Forest, todo: Forest, whole: Forest,
                 kids: Forest, rest: Forest, up: Option<nat>, from: Option<nat>)
    requires todo.Cons? && Halfway(a, n, first, done, Some(todo.id), todo, whole, up, from)
    requires Stands(b, n, todo.id, kids, rest, from) && SameOutside(a, b, IdSet(todo))
    ensures var c := b.(parent := b.parent[todo.id := up]);
            && Segment(c, first, Append(done, Cons(todo.id, kids, Nil)), c.next[todo.id], up)
            && IsList(c, c.next[todo.id], rest, from)
  {
    ApartConcat(done, todo, whole);
    TurnLinks(a, b, n, first, done, todo, kids, rest, up, from);
  }

  lemma TurnOrder(done: Forest, todo: Forest, whole: Forest, kids: Forest, rest: Forest)
    requires todo.Cons? && Preorder(Append(done, todo)) == Preorder(whole)
    requires Preorder(todo) == Preorder(Cons(todo.id, kids, rest))
    ensures Preorder(Append(Append(done, Cons(todo.id, kids, Nil)), rest)) == Preorder(whole)
    ensures |Preorder(rest)| < |Preorder(todo)|
  {
    DoneGrows(done, todo, Preorder(whole), kids, rest);
    Shorter(todo, todo.id, kids, rest);
  }

  lemma TurnDone(a: Links, b: Links, n: nat, first: Option<nat>, done: Forest, todo: Forest, whole: Forest,
                 kids: Forest, rest: Forest, up: Option<nat>, from: Option<nat>)
    requires todo.Cons? && Halfway(a, n, first, done, Some(todo.id), todo, whole, up, from)
    requires Stands(b, n, todo.id, kids, rest, from) && SameOutside(a, b, IdSet(todo))
    requires Preorder(todo) == Preorder(Cons(todo.id, kids, rest))
    ensures var c := b.(parent := b.parent[todo.id := up]);
            && Halfway(c, n, first, Append(done, Cons(todo.id, kids, Nil)), c.next[todo.id], rest, whole, up, from)
            && SameOutside(a, c, IdSet(whole))
    ensures |Preorder(rest)| < |Preorder(todo)|
  {
    TurnFrame(a, b, n, first, done, todo, whole, kids, rest, up, from);
    TurnLists(a, b, n, first, done, todo, whole, kids, rest, up, from);
    TurnOrder(done, todo, whole, kids, rest);
  }

  lemma NothingBehind(a: seq<nat>)
    ensures a + [] == a
  {}

  /** The whole submenu of p has been worked through. */
  lemma ListDone(a: Links, b: Links, n: nat, p: nat, kids: Forest, kids': Forest, rest: Forest, up: Option<nat>)
    requires Stands(a, n, p, kids, rest, up) && SameOutside(a, b, IdSet(kids))
    requires IsList(b, a.list[p], kids', Some(p)) && Preorder(kids') == Preorder(kids)
    ensures Stands(b, n, p, kids', rest, up)
  {
    SamePreorder(kids, kids');
    SegmentFrame(a, b, a.next[p], rest, None, up, IdSet(kids));
  }

  /** The entries taken over become the submenu of p, and p is followed by the first one left. */
  function Relinked(h: Links, p: nat, last: nat): Links
    requires |h.next| == |h.list| == |h.parent| && p < |h.next| && last < |h.next|
  {
    Links(h.next[p := h.next[last]][last := None], h.list[p := h.next[p]], h.parent)
  }

  lemma RelinkedLists(b: Links, p: nat, done: Forest, menu: Option<nat>, todo: Forest, up: Option<nat>)
    requires |b.next| == |b.list| == |b.parent| && p < |b.next| && done.Cons?
    requires Segment(b, b.next[p], done, menu, Some(p)) && IsList(b, menu, todo, up)
    requires Apart(Cons(p, done, todo))
    ensures LastOf(done) < |b.next| && LastOf(done) in IdSet(done)
    ensures var c := Relinked(b, p, LastOf(done));
            IsList(c, c.list[p], done, Some(p)) && IsList(c, c.next[p], todo, up)
  {
    SegmentRedirect(b, b.next[p], done, menu, Some(p), None);
    var last := LastOf(done);
    var b1 := b.(next := b.next[last := None]);
    var c := Relinked(b, p, last);
    SegmentFrame(b, b1, menu, todo, None, up, {last});
    SegmentFrame(b1, c, menu, todo, None, up, {p});
    SegmentFrame(b1, c, b.next[p], done, None, Some(p), {p});
  }

  lemma TakenApart(p: nat, done: Forest, todo: Forest, rest: Forest)
    requires Apart(Cons(p, Nil, rest)) && Preorder(Append(done, todo)) == Preorder(rest)
    ensures Apart(Cons(p, done, todo))
    ensures IdSet(done) <= IdSet(rest)
  {
    ApartConcat(done, todo, rest);
  }

  lemma CaptureDone(a: Links, b: Links, n: nat, p: nat, done: Forest, menu: Option<nat>, todo: Forest, rest: Forest,
                    up: Option<nat>)
    requires Stands(a, n, p, Nil, rest, up) && SameOutside(a, b, IdSet(rest))
    requires Halfway(b, n, a.next[p], done, menu, todo, rest, Some(p), up) && done.Cons?
    ensures LastOf(done) < n && p < n
    ensures var c := Relinked(b, p, LastOf(done));
            Stands(c, n, p, done, todo, up) && SameOutside(a, c, IdSet(Cons(p, Nil, rest)))
  {
    TakenApart(p, done, todo, rest);
    assert b.next[p] == a.next[p];
    RelinkedLists(b, p, done, menu, todo, up);
  }

  lemma NothingTaken(a: Links, b: Links, n: nat, p: nat, menu: Option<nat>, todo: Forest, rest: Forest, up: Option<nat>)
    requires Stands(a, n, p, Nil, rest, up) && SameOutside(a, b, IdSet(rest))
    requires Halfway(b, n, a.next[p], Nil, menu, todo, rest, Some(p), up)
    ensures Stands(b, n, p, Nil, todo, up)
  {
    TakenApart(p, Nil, todo, rest);
    assert b.next[p] == a.next[p] && b.list[p] == a.list[p];
  }

  // ----- moving a submenu up -----

  /** An entry that only changes its parent. */
  lemma Advance(h: Links, n: nat, first: Option<nat>, done: Forest, todo: Forest, whole: Forest,
                up: Option<nat>, from: Option<nat>)
    requires todo.Cons? && Halfway(h, n, first, done, Some(todo.id), todo, whole, up, from)
    ensures todo.id < n
    ensures var c := h.(parent := h.parent[todo.id := up]);
            && Halfway(c, n, first, Append(done, Cons(todo.id, todo.kids, Nil)), c.next[todo.id], todo.rest,
                       whole, up, from)
            && SameOutside(h, c, IdSet(whole))
    ensures |Preorder(todo.rest)| < |Preorder(todo)|
  {
    FrontStands(h, n, first, done, Some(todo.id), todo, whole, up, from);
    TurnDone(h, h, n, first, done, todo, whole, todo.kids, todo.rest, up, from);
  }

  /** The list below m now hangs below p, and stands between m and what followed m. */
  function Lifted(h: Links, m: nat, last: nat): Links
    requires |h.next| == |h.list| == |h.parent| && m < |h.next| && last < |h.next|
  {
    Links(h.next[last := h.next[m]][m := h.list[m]], h.list[m := None], h.parent)
  }

  lemma LiftedList(b: Links, todo: Forest, up: Option<nat>)
    requires |b.next| == |b.list| == |b.parent| && todo.Cons? && todo.kids.Cons? && Apart(todo) && todo.id < |b.next|
    requires Segment(b, b.list[todo.id], todo.kids, None, up) && IsList(b, b.next[todo.id], todo.rest, up)
    ensures LastOf(todo.kids) < |b.next| && LastOf(todo.kids) in IdSet(todo.kids)
    ensures var c := Lifted(b, todo.id, LastOf(todo.kids));
            IsList(c, c.next[todo.id], Append(todo.kids, todo.rest), up)
  {
    var m, kids, rest := todo.id, todo.kids, todo.rest;
    SegmentRedirect(b, b.list[m], kids, None, up, b.next[m]);
    var last := LastOf(kids);
    var b1 := b.(next := b.next[last := b.next[m]]);
    var c := Lifted(b, m, last);
    SegmentFrame(b, b1, b.next[m], rest, None, up, {last});
    SegmentJoin(b1, b.list[m], kids, b.next[m], rest, None, up);
    IdSetAppend(kids, rest);
    SegmentFrame(b1, c, b.list[m], Append(kids, rest), None, up, {m});
  }

  lemma LiftedOrder(done: Forest, todo: Forest, whole: Forest)
    requires todo.Cons? && Preorder(Append(done, todo)) == Preorder(whole)
    ensures var rest := Append(todo.kids, todo.rest);
            && Preorder(Append(Append(done, Cons(todo.id, Nil, Nil)), rest)) == Preorder(whole)
            && |Preorder(rest)| < |Preorder(todo)|
  {
    var rest := Append(todo.kids, todo.rest);
    PreorderAppend(todo.kids, todo.rest);
    Associate([todo.id], Preorder(todo.kids), Preorder(todo.rest));
    NothingBehind([todo.id]);
    DoneGrows(done, todo, Preorder(whole), Nil, rest);
  }

  lemma LiftDone(a: Links, b: Links, n: nat, first: Option<nat>, done: Forest, todo: Forest, whole: Forest,
                 up: Option<nat>)
    requires todo.Cons? && todo.kids.Cons? && Halfway(a, n, first, done, Some(todo.id), todo, whole, up, up)
    requires todo.id < n && SameOutside(a, b, IdSet(todo.kids)) && Segment(b, a.list[todo.id], todo.kids, None, up)
    ensures LastOf(todo.kids) < n
    ensures var c := Lifted(b, todo.id, LastOf(todo.kids));
            && Halfway(c, n, first, Append(done, Cons(todo.id, Nil, Nil)), c.next[todo.id],
                       Append(todo.kids, todo.rest), whole, up, up)
            && SameOutside(a, c, IdSet(whole))
    ensures |Preorder(Append(todo.kids, todo.rest))| < |Preorder(todo)|
  {
    FrontStands(a, n, first, done, Some(todo.id), todo, whole, up, up);
    SegmentFrame(a, b, a.next[todo.id], todo.rest, None, up, IdSet(todo.kids));
    LiftedList(b, todo, up);
    var c := Lifted(b, todo.id, LastOf(todo.kids));
    assert SameOutside(a, c, IdSet(todo));
    SegmentGrows(a, c, first, done, todo, Nil, up);
    LiftedOrder(done, todo, whole);
  }

  lemma ListStarts(h: Links, first: Option<nat>, f: Forest, up: Option<nat>)
    requires |h.next| == |h.list| == |h.parent| && IsList(h, first, f, up)
    ensures first == First(f)
  {}

  /** The pointers of the entry at the front tell whether it has a submenu and whether another entry follows. */
  lemma FrontPointers(h: Links, f: Forest, up: Option<nat>)
    requires |h.next| == |h.list| == |h.parent| && f.Cons? && IsList(h, Some(f.id), f, up)
    ensures f.id < |h.next| && h.list[f.id] == First(f.kids) && h.next[f.id] == First(f.rest) && h.parent[f.id] == up
  {
    ListStarts(h, h.list[f.id], f.kids, Some(f.id));
    ListStarts(h, h.next[f.id], f.rest, up);
  }
}
