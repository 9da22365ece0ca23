/** The tree of menu entries (scripts/config/menu.c), linked by next, list and parent: what the pointers
    spell out, and how siblings are walked and moved. */
module MenuTree {
  import opened Options
  import opened Tristates
  import opened Exprs

  class Entry {
    const sym: Option<Sym>
    /** sym_is_choice */
    const choice: bool
    /** prompt, and prompt->text */
    const prompted: bool
    const titled: bool
    /** prompt->visible.expr is the other condition. */
    var dep: Option<Expr>
    var visible: Option<Expr>
    var next: Entry?
    var list: Entry?
    var parent: Entry?

    /** menu_add_entry, followed by the options found in the Kconfig file. */
    constructor (sym: Option<Sym>, choice: bool, prompted: bool, titled: bool, dep: Option<Expr>, visible: Option<Expr>,
                 parent: Entry?)
      ensures this.sym == sym && this.choice == choice && this.prompted == prompted && this.titled == titled
      ensures this.dep == dep && this.visible == visible
      ensures this.parent == parent && next == null && list == null
    {
      this.sym, this.choice, this.prompted, this.titled := sym, choice, prompted, titled;
      this.dep, this.visible, this.parent := dep, visible, parent;
      next, list := null, null;
    }

    /** The condition that decides whether the entry is nested below an earlier one. */
    function Shows(): Option<Expr>
      reads this`dep, this`visible
    {
      if prompted then visible else dep
    }

    /** menu_finalize keeps no children below an entry without a prompt text. */
    predicate Flattens() { !prompted || !titled }
  }

  // ----- the shape of the tree -----

  /** The entries of a list with what hangs below each: an entry, its children, its later siblings. */
  datatype Forest = Nil | Cons(entry: Entry, kids: Forest, rest: Forest)

  /** The entries in the order in which the configuration lists them. */
  ghost function PreOrder(f: Forest): seq<Entry> {
    match f
    case Nil => []
    case Cons(e, k, r) => [e] + PreOrder(k) + PreOrder(r)
  }

  ghost function Entries(s: seq<Entry>): set<Entry> { set e | e in s }

  ghost function Nodes(f: Forest): set<Entry> { Entries(PreOrder(f)) }

  ghost predicate Distinct(s: seq<Entry>) { forall i, j :: 0 <= i < j < |s| ==> s[i] != s[j] }

  ghost function Append(f: Forest, g: Forest): Forest {
    match f
    case Nil => g
    case Cons(e, k, r) => Cons(e, k, Append(r, g))
  }

  /** The pointers spell out f: a chain of siblings from first to end, whose parent is p and whose lists
      spell out the children of each. */
  ghost predicate Links(f: Forest, first: Entry?, p: Entry?, end: Entry?)
    reads Nodes(f)`next, Nodes(f)`list, Nodes(f)`parent
  {
    match f
    case Nil => first == end
    case Cons(e, k, r) =>
      assert e in PreOrder(f);
      && first == e && e.parent == p && Links(k, e.list, e, null) && Links(r, e.next, p, end)
  }

  /** No entry of f that should be flattened has children. */
  ghost predicate Flat(f: Forest) {
    match f
    case Nil => true
    case Cons(e, k, r) => (!e.prompted || !e.titled ==> k == Nil) && Flat(k) && Flat(r)
  }

  /** The same below the topmost entries only. */
  ghost predicate FlatBelow(f: Forest) {
    match f
    case Nil => true
    case Cons(e, k, r) => Flat(k) && FlatBelow(r)
  }

  lemma {:induction false} AppendOrder(f: Forest, g: Forest)
    ensures PreOrder(Append(f, g)) == PreOrder(f) + PreOrder(g)
    ensures FlatBelow(Append(f, g)) <==> FlatBelow(f) && FlatBelow(g)
    ensures Flat(Append(f, g)) <==> Flat(f) && Flat(g)
  {
    if f.Cons? { AppendOrder(f.rest, g); }
  }

  lemma AppendNodes(f: Forest, g: Forest)
    ensures Nodes(Append(f, g)) == Nodes(f) + Nodes(g)
  {
    AppendOrder(f, g);
  }

  lemma {:induction false} AppendNil(f: Forest)
    ensures Append(f, Nil) == f
  {
    if f.Cons? { AppendNil(f.rest); }
  }

  lemma {:induction false} AppendTwice(f: Forest, g: Forest, h: Forest)
    ensures Append(Append(f, g), h) == Append(f, Append(g, h))
  {
    if f.Cons? { AppendTwice(f.rest, g, h); }
  }

  lemma {:induction false} AppendLinks(f: Forest, g: Forest, first: Entry?, p: Entry?, mid: Entry?, end: Entry?)
    requires Links(f, first, p, mid) && Links(g, mid, p, end)
    ensures Links(Append(f, g), first, p, end)
  {
    if f.Cons? { AppendLinks(f.rest, g, f.entry.next, p, mid, end); }
  }

  lemma {:induction false} FlatIsFlatBelow(f: Forest)
    requires Flat(f)
    ensures FlatBelow(f)
  {
    if f.Cons? { FlatIsFlatBelow(f.rest); }
  }

  lemma DistinctSplit(a: seq<Entry>, b: seq<Entry>)
    requires Distinct(a + b)
    ensures Distinct(a) && Distinct(b) && Entries(a) !! Entries(b)
    ensures Entries(a + b) == Entries(a) + Entries(b)
  {
    forall i, j | 0 <= i < |a| && 0 <= j < |b| ensures a[i] != b[j] {
      assert (a + b)[i] == a[i] && (a + b)[|a| + j] == b[j];
    }
    forall i, j | 0 <= i < j < |b| ensures b[i] != b[j] {
      assert (a + b)[|a| + i] == b[i] && (a + b)[|a| + j] == b[j];
    }
    forall i, j | 0 <= i < j < |a| ensures a[i] != a[j] {
      assert (a + b)[i] == a[i] && (a + b)[j] == a[j];
    }
  }

  lemma HeadApart(e: Entry, s: seq<Entry>)
    requires Distinct([e] + s)
    ensures e !in Entries(s)
  {
    DistinctSplit([e], s);
    assert e in Entries([e]);
  }

  /** A topmost entry apart from what is below and after it. */
  lemma ConsSplit(e: Entry, k: Forest, r: Forest)
    requires Distinct(PreOrder(Cons(e, k, r)))
    ensures Distinct(PreOrder(k)) && Distinct(PreOrder(r)) && Nodes(k) !! Nodes(r)
    ensures e !in Nodes(k) && e !in Nodes(r)
    ensures Nodes(Cons(e, k, r)) == {e} + Nodes(k) + Nodes(r)
  {
    DistinctSplit([e] + PreOrder(k), PreOrder(r));
    DistinctSplit([e], PreOrder(k));
    assert Entries([e]) == {e};
  }

  /** One more sibling at the end of a chain. */
  lemma Extend(done: Forest, m: Entry, km: Forest, first: Entry?, p: Entry?)
    requires Links(done, first, p, m) && m.parent == p && Links(km, m.list, m, null)
    ensures Links(Append(done, Cons(m, km, Nil)), first, p, m.next)
    ensures PreOrder(Append(done, Cons(m, km, Nil))) == PreOrder(done) + [m] + PreOrder(km)
  {
    var cell := Cons(m, km, Nil);
    assert PreOrder(cell) == [m] + PreOrder(km);
    AppendLinks(done, cell, first, p, m, m.next);
    AppendOrder(done, cell);
  }

  /** What hangs at the head of a chain. */
  lemma HeadLinks(f: Forest, first: Entry?, p: Entry?)
    requires Links(f, first, p, null)
    ensures f == Nil <==> first == null
    ensures f.Cons? ==>
      && f.entry == first && first.parent == p
      && Links(f.kids, first.list, first, null) && Links(f.rest, first.next, p, null)
      && first in Nodes(f)
  {
  }

  // ----- flattening -----

  /** The walk has passed done and is at last, which has been given the parent e; the rest of k still has
      the parent menu. */
  ghost predicate Reparenting(done: Forest, last: Entry, kl: Forest, todo: Forest, k: Forest, e: Entry, menu: Entry)
    reads menu`list, {last}`next, {last}`list, {last}`parent
    reads Nodes(done)`next, Nodes(done)`list, Nodes(done)`parent
    reads Nodes(kl)`next, Nodes(kl)`list, Nodes(kl)`parent
    reads Nodes(todo)`next, Nodes(todo)`list, Nodes(todo)`parent
  {
    && Append(done, Cons(last, kl, todo)) == k
    && last.parent == e && Links(done, menu.list, e, last)
    && Links(kl, last.list, last, null) && Links(todo, last.next, menu, null)
  }

  lemma ReparentStep(done: Forest, last: Entry, kl: Forest, todo: Forest, k: Forest, e: Entry, menu: Entry)
    requires Distinct(PreOrder(k)) && Reparenting(done, last, kl, todo, k, e, menu) && last.next != null
    ensures todo.Cons? && todo.entry == last.next && last.next in Nodes(k)
    ensures last.next !in Nodes(Append(done, Cons(last, kl, Nil)))
    ensures last.next !in Nodes(todo.kids) && last.next !in Nodes(todo.rest)
    ensures var done' := Append(done, Cons(last, kl, Nil));
      && Append(done', todo) == k && Links(done', menu.list, e, last.next)
      && Links(todo.kids, last.next.list, last.next, null) && Links(todo.rest, last.next.next, menu, null)
  {
    hide Links;
    HeadLinks(todo, last.next, menu);
    Extend(done, last, kl, menu.list, e);
    Rejoin(done, last, kl, todo);
    var done' := Append(done, Cons(last, kl, Nil));
    AppendOrder(done', todo);
    DistinctSplit(PreOrder(done'), PreOrder(todo));
    ConsSplit(todo.entry, todo.kids, todo.rest);
  }

  lemma Rejoin(done: Forest, last: Entry, k: Forest, r: Forest)
    ensures Append(Append(done, Cons(last, k, Nil)), r) == Append(done, Cons(last, k, r))
  {
    AppendTwice(done, Cons(last, k, Nil), r);
  }

  /** The children of menu get the parent e; the walk ends at the last of them. */
  method Reparent(e: Entry, menu: Entry, ghost k: Forest) returns (last: Entry, ghost done: Forest, ghost kl: Forest)
    requires k.Cons? && Distinct(PreOrder(k)) && menu !in Nodes(k) && Links(k, menu.list, menu, null)
    modifies Nodes(k)`parent
    ensures Reparenting(done, last, kl, Nil, k, e, menu) && last.next == null && last in Nodes(k)
  {
    hide Links, PreOrder, Append, Entries, Distinct;
    HeadLinks(k, menu.list, menu);
    ConsSplit(k.entry, k.kids, k.rest);
    last := menu.list;
    ghost var todo;
    done, kl, todo := Nil, k.kids, k.rest;
    last.parent := e;
    NilLinks(last, e);
    while last.next != null
      invariant Reparenting(done, last, kl, todo, k, e, menu) && last in Nodes(k)
      decreases todo
    {
      ReparentStep(done, last, kl, todo, k, e, menu);
      done, kl, todo, last := Append(done, Cons(last, kl, Nil)), todo.kids, todo.rest, last.next;
      last.parent := e;
    }
    HeadLinks(todo, last.next, menu);
  }

  lemma NilLinks(x: Entry?, p: Entry?)
    ensures Links(Nil, x, p, x)
    ensures forall f: Forest {:trigger Append(Nil, f)} :: Append(Nil, f) == f
    ensures PreOrder(Nil) == []
  {
  }

  /** The children of menu become siblings that follow it, below its parent e. */
  method Lift(e: Entry, menu: Entry, ghost k: Forest, ghost r: Forest)
    requires k.Cons? && Distinct(PreOrder(Cons(menu, k, r)))
    requires Links(k, menu.list, menu, null) && Links(r, menu.next, e, null)
    modifies {menu}`next, {menu}`list, Nodes(k)`next, Nodes(k)`parent
    ensures menu.list == null && Links(Append(k, r), menu.next, e, null)
  {
    hide Links, PreOrder, Append, Entries, Distinct;
    ConsSplit(menu, k, r);
    ghost var done, kl;
    var last;
    last, done, kl := Reparent(e, menu, k);
    assert old(allocated(Nodes(r)));
    LastApart(done, last, kl, k);
    last.next := menu.next;
    Rejoined(done, last, kl, r, menu.list, e);
    AppendNodes(k, r);
    menu.next := menu.list;
    menu.list := null;
  }

  lemma LastApart(done: Forest, last: Entry, kl: Forest, k: Forest)
    requires Distinct(PreOrder(k)) && Append(done, Cons(last, kl, Nil)) == k
    ensures last !in Nodes(done) && last !in Nodes(kl)
    ensures Nodes(done) <= Nodes(k) && Nodes(kl) <= Nodes(k) && last in Nodes(k)
  {
    AppendOrder(done, Cons(last, kl, Nil));
    DistinctSplit(PreOrder(done), PreOrder(Cons(last, kl, Nil)));
    ConsSplit(last, kl, Nil);
  }

  lemma Rejoined(done: Forest, last: Entry, kl: Forest, r: Forest, first: Entry?, e: Entry)
    requires Links(done, first, e, last) && last.parent == e
    requires Links(kl, last.list, last, null) && Links(r, last.next, e, null)
    ensures Links(Append(Append(done, Cons(last, kl, Nil)), r), first, e, null)
  {
    Extend(done, last, kl, first, e);
    AppendLinks(Append(done, Cons(last, kl, Nil)), r, first, e, last.next, null);
  }

  // ----- the last loop of menu_finalize -----

  /** A walk over siblings has passed done, which starts at first and has the parent e, and is at menu, the
      first of todo, which has the parent p. */
  ghost predicate Walking(done: Forest, todo: Forest, first: Entry?, e: Entry, p: Entry?, menu: Entry?, order: seq<Entry>)
    reads Nodes(done)`next, Nodes(done)`list, Nodes(done)`parent
    reads Nodes(todo)`next, Nodes(todo)`list, Nodes(todo)`parent
  {
    && PreOrder(done) + PreOrder(todo) == order
    && Links(done, first, e, menu) && Links(todo, menu, p, null)
  }

  /** What the walk knows of the entry it is at. */
  lemma WalkSplit(done: Forest, todo: Forest, first: Entry?, e: Entry, p: Entry?, menu: Entry, order: seq<Entry>)
    requires Distinct([e] + order) && Walking(done, todo, first, e, p, menu, order)
    ensures todo.Cons? && todo.entry == menu && menu.parent == p && menu != e
    ensures Links(todo, menu, p, null)
    ensures Links(todo.kids, menu.list, menu, null) && Links(todo.rest, menu.next, p, null)
    ensures todo.kids == Nil <==> menu.list == null
    ensures Distinct(PreOrder(todo)) && Nodes(done) !! Nodes(todo) && e !in Nodes(done) && e !in Nodes(todo)
    ensures PreOrder(todo) == [menu] + PreOrder(todo.kids) + PreOrder(todo.rest)
    ensures Nodes(todo) == {menu} + Nodes(todo.kids) + Nodes(todo.rest)
    ensures Nodes(todo.kids) !! Nodes(todo.rest) && menu !in Nodes(todo.kids) && menu !in Nodes(todo.rest)
    ensures Entries(order) == Nodes(done) + Nodes(todo)
    ensures Links(done, first, e, menu) && PreOrder(done) + PreOrder(todo) == order
  {
    hide Links;
    HeadLinks(todo, menu, p);
    HeadLinks(todo.kids, menu.list, menu);
    DistinctSplit([e], order);
    DistinctSplit(PreOrder(done), PreOrder(todo));
    ConsSplit(menu, todo.kids, todo.rest);
  }

  /** The walk passes menu, below which km is now found and after which it goes on with r. */
  lemma WalkStep(done: Forest, first: Entry?, e: Entry, p: Entry?, menu: Entry, km: Forest, r: Forest, order: seq<Entry>)
    requires Links(done, first, e, menu) && menu.parent == e
    requires Links(km, menu.list, menu, null) && Links(r, menu.next, p, null)
    requires PreOrder(done) + ([menu] + PreOrder(km) + PreOrder(r)) == order
    ensures Walking(Append(done, Cons(menu, km, Nil)), r, first, e, p, menu.next, order)
  {
    hide Links, PreOrder, Append, Entries;
    Extend(done, menu, km, first, e);
    assert PreOrder(done) + [menu] + PreOrder(km) + PreOrder(r) == order;
  }

  /** The topmost entries of f. */
  ghost function Topmost(f: Forest): set<Entry> {
    match f
    case Nil => {}
    case Cons(e, _, r) => {e} + Topmost(r)
  }

  /** Everything below them. */
  ghost function Below(f: Forest): set<Entry> {
    match f
    case Nil => {}
    case Cons(_, k, r) => Nodes(k) + Below(r)
  }

  lemma {:induction false} TopAndBelow(f: Forest)
    ensures Nodes(f) == Topmost(f) + Below(f)
  {
    if f.Cons? {
      TopAndBelow(f.rest);
      ConsNodes(f.entry, f.kids, f.rest);
    }
  }

  lemma ConsNodes(e: Entry, k: Forest, r: Forest)
    ensures Nodes(Cons(e, k, r)) == {e} + Nodes(k) + Nodes(r)
  {
    assert Entries([e]) == {e};
  }

  lemma {:induction false} TopAppend(f: Forest, g: Forest)
    ensures Topmost(Append(f, g)) == Topmost(f) + Topmost(g) && Below(Append(f, g)) == Below(f) + Below(g)
  {
    if f.Cons? { TopAppend(f.rest, g); }
  }

  lemma ConsOrder(f: Forest)
    ensures f.Cons? ==> PreOrder(f) == [f.entry] + PreOrder(f.kids) + PreOrder(f.rest)
  {
  }

  /** The entry taken in last, from which the chain done is cut off behind. */
  ghost predicate EndsIn(done: Forest, last: Entry?, before: Forest, kl: Forest) {
    if last == null then done == Nil else done == Append(before, Cons(last, kl, Nil))
  }

  lemma {:induction false} EndLinks(before: Forest, last: Entry, kl: Forest, first: Entry?, p: Entry?, end: Entry?)
    requires Links(Append(before, Cons(last, kl, Nil)), first, p, end)
    ensures Links(before, first, p, last) && last.parent == p && Links(kl, last.list, last, null) && last.next == end
  {
    if before.Cons? { EndLinks(before.rest, last, kl, before.entry.next, p, end); }
  }

  lemma NilEnd(first: Entry?, p: Entry?, end: Entry?)
    requires Links(Nil, first, p, end)
    ensures first == end
  {
  }

  /** The siblings of e up to last become its children. */
  method Adopt(e: Entry, last: Entry, ghost done: Forest, ghost before: Forest, ghost kl: Forest, ghost rest: Forest)
    requires done == Append(before, Cons(last, kl, Nil)) && Distinct(PreOrder(done)) && Nodes(done) !! Nodes(rest)
    requires e !in Nodes(done) && e !in Nodes(rest)
    requires Links(before, e.next, e, last) && last.parent == e && Links(kl, last.list, last, null)
    requires Links(rest, last.next, e.parent, null)
    modifies {e}`next, {e}`list, {last}`next
    ensures Links(done, e.list, e, null) && Links(rest, e.next, e.parent, null)
  {
    hide Links, PreOrder, Append, Entries, Distinct;
    LastApart(before, last, kl, done);
    e.list := e.next;
    e.next := last.next;
    last.next := null;
    Extend(before, last, kl, e.list, e);
  }

  lemma FinalizeSetup(e: Entry, k: Forest, r: Forest)
    requires Distinct(PreOrder(Cons(e, k, r))) && Links(Cons(e, k, r), e, e.parent, null)
    ensures Links(k, e.list, e, null) && Links(r, e.next, e.parent, null) && (k == Nil <==> e.list == null)
    ensures Distinct([e] + PreOrder(k)) && Distinct([e] + PreOrder(r))
    ensures Nodes(k) !! Nodes(r) && e !in Nodes(k) && e !in Nodes(r)
  {
    hide Links;
    HeadLinks(Cons(e, k, r), e, e.parent);
    HeadLinks(k, e.list, e);
    ConsSplit(e, k, r);
    DistinctCons(e, k, r);
  }

  lemma DistinctCons(e: Entry, k: Forest, r: Forest)
    requires Distinct(PreOrder(Cons(e, k, r)))
    ensures Distinct([e] + PreOrder(k)) && Distinct([e] + PreOrder(r))
  {
    var s, t := [e] + PreOrder(k), [e] + PreOrder(r);
    DistinctSplit(s, PreOrder(r));
    forall i, j | 0 <= i < j < |t| ensures t[i] != t[j] {
      var o := |PreOrder(k)|;
      assert (s + PreOrder(r))[o + j] == t[j];
      assert if i == 0 then (s + PreOrder(r))[0] == t[i] else (s + PreOrder(r))[o + i] == t[i];
    }
  }

  lemma ConsLinks(e: Entry, k: Forest, r: Forest)
    requires Links(k, e.list, e, null) && Links(r, e.next, e.parent, null)
    ensures Links(Cons(e, k, r), e, e.parent, null)
    ensures multiset([e] + PreOrder(k)) == multiset(PreOrder(k)) + multiset{e}
  {
  }

  lemma {:induction false} DistinctCount(s: seq<Entry>, e: Entry)
    requires Distinct(s)
    ensures multiset(s)[e] == if e in s then 1 else 0
  {
    if s != [] {
      var t := s[1..];
      assert s == [s[0]] + t;
      DistinctSplit([s[0]], t);
      assert s[0] in Entries([s[0]]);
      DistinctCount(t, e);
    }
  }

  lemma RootLinks(root: Entry, k: Forest)
    requires root.next == null && Links(k, root.list, root, null)
    ensures Links(Cons(root, k, Nil), root, root.parent, null)
    ensures PreOrder(Cons(root, k, Nil)) == [root] + PreOrder(k)
  {
    assert [root] + PreOrder(k) + [] == [root] + PreOrder(k);
  }
}
