/** menu_finalize (scripts/config/menu.c): the tree of menu entries is rearranged in place, and does what the
    functions of MenuModel say. */
module MenuFinalize {
  import opened Options
  import opened Tristates
  import opened Exprs
  import opened ExprTransform
  import opened ExprDups
  import opened ExprNesting
  import opened MenuTree
  import opened MenuModel
  import opened MenuNesting

  // ----- the conditions the entries have -----

  ghost predicate Have(s: set<Entry>, c: map<Entry, Conds>)
    reads s`dep, s`visible
  {
    forall m :: m in s ==> m in c && Conds(m.dep, m.visible) == c[m]
  }

  /** The entries of s have inherited, and have the additional conditions x. */
  ghost predicate Finished(s: set<Entry>, g: Plan, x: map<Entry, Sym>)
    reads s`dep, s`visible
  {
    forall m :: m in s ==> m in g.fin && Conds(m.dep, m.visible) == Extended(m, g.fin[m], x)
  }

  /** The topmost entries of f have inherited, and what is below them is untouched. */
  ghost predicate Ready(f: Forest, g: Plan)
    reads Topmost(f)`dep, Topmost(f)`visible, Below(f)`dep, Below(f)`visible
  {
    Have(Topmost(f), g.fin) && Have(Below(f), g.own) && PlannedBelow(f, g)
  }

  ghost predicate NoExtra(ch: Choices, s: set<Entry>) { ChoicesOk(ch) && ch.extra.Keys !! s }

  lemma ReadySplit(f: Forest, g: Plan)
    requires f.Cons? && Ready(f, g)
    ensures f.entry in g.fin && Have({f.entry}, g.fin) && Have(Nodes(f.kids), g.own)
    ensures Planned(f.kids, Passes(f.entry, g.fin[f.entry]), g) && Ready(f.rest, g)
  {
  }

  lemma FinishedMore(s: set<Entry>, t: set<Entry>, g: Plan, ch: Choices, ch': Choices)
    requires Finished(s, g, ch.extra) && Grown(ch, ch', t) && s !! t
    ensures Finished(s, g, ch'.extra)
  {
  }

  lemma FinishedBoth(s: set<Entry>, t: set<Entry>, g: Plan, x: map<Entry, Sym>)
    ensures Finished(s + t, g, x) <==> Finished(s, g, x) && Finished(t, g, x)
  {
  }

  lemma FinishedOne(m: Entry, g: Plan, x: map<Entry, Sym>)
    requires Have({m}, g.fin) && m !in x
    ensures Finished({m}, g, x)
  {
  }

  // ----- inheriting -----

  /** expr_eliminate_dups on base && own. */
  method Combined(base: Option<Expr>, own: Option<Expr>) returns (r: Option<Expr>)
    ensures r == CombinedOf(base, own)
  {
    hide EliminateDupsOf, Transform, Normal;
    r := AllocAnd(base, TransformOpt(own));
    if r.Some? {
      var s := new Simplifier(r.value);
      s.EliminateDups();
      r := Some(s.root);
    }
  }

  /** The conditions of one child of an entry that passes on base. */
  method Inherit(m: Entry, base: Option<Expr>)
    modifies m`dep, m`visible
    ensures Conds(m.dep, m.visible) == InheritedConds(m, base, old(Conds(m.dep, m.visible)))
  {
    hide CombinedOf, TransBoolOpt;
    m.dep := Combined(base, m.dep);
    if m.prompted {
      m.visible := Combined(m.dep, m.visible);
      if m.sym.Some? && m.sym.value.Type() != STristate {
        m.visible := TransBoolOpt(m.visible);
      }
    }
  }

  /** The first loop has reached todo. */
  ghost predicate Propagating(done: Forest, todo: Forest, base: Option<Expr>, g: Plan)
    reads Topmost(done)`dep, Topmost(done)`visible, Below(done)`dep, Below(done)`visible
    reads Nodes(todo)`dep, Nodes(todo)`visible
  {
    Ready(done, g) && Have(Nodes(todo), g.own) && Planned(todo, base, g)
  }

  lemma PropagateSplit(done: Forest, todo: Forest, base: Option<Expr>, g: Plan)
    requires todo.Cons? && Propagating(done, todo, base, g)
    ensures var m := todo.entry;
      && m in g.own && m in g.fin && Conds(m.dep, m.visible) == g.own[m]
      && g.fin[m] == InheritedConds(m, base, g.own[m])
      && Have(Nodes(todo.kids), g.own) && Have(Nodes(todo.rest), g.own)
      && Planned(todo.kids, Passes(m, g.fin[m]), g) && Planned(todo.rest, base, g) && Ready(done, g)
  {
    hide InheritedConds;
    ConsNodes(todo.entry, todo.kids, todo.rest);
  }

  lemma PropagateStep(done: Forest, menu: Entry, km: Forest, r: Forest, base: Option<Expr>, g: Plan)
    requires Ready(done, g) && menu in g.fin && Have({menu}, g.fin) && Have(Nodes(km), g.own)
    requires Planned(km, Passes(menu, g.fin[menu]), g) && Have(Nodes(r), g.own) && Planned(r, base, g)
    ensures Propagating(Append(done, Cons(menu, km, Nil)), r, base, g)
  {
    TopAppend(done, Cons(menu, km, Nil));
    PlannedAppend(done, Cons(menu, km, Nil), base, g);
  }

  lemma PropagateStart(k: Forest, base: Option<Expr>, g: Plan)
    requires Have(Nodes(k), g.own) && Planned(k, base, g)
    ensures Propagating(Nil, k, base, g) && Append(Nil, k) == k
  {
  }

  lemma PropagateEnd(done: Forest, base: Option<Expr>, g: Plan)
    requires Propagating(done, Nil, base, g)
    ensures Ready(done, g) && Append(done, Nil) == done
  {
    AppendNil(done);
  }

  /** The first loop of menu_finalize: every child of e inherits what e passes on. */
  method Propagate(e: Entry, ghost k: Forest, ghost g: Plan)
    requires Distinct([e] + PreOrder(k)) && Links(k, e.list, e, null)
    requires e in g.fin && Have({e}, g.fin) && Have(Nodes(k), g.own) && Planned(k, Passes(e, g.fin[e]), g)
    modifies Topmost(k)`dep, Topmost(k)`visible
    ensures Links(k, e.list, e, null) && Ready(k, g) && Have({e}, g.fin)
  {
    hide Links, PreOrder, Append, Entries, Distinct, Ready, Planned, InheritedConds, Propagating;
    TopAndBelow(k);
    DistinctSplit([e], PreOrder(k));
    HeadApart(e, PreOrder(k));
    var base := Passes(e, Conds(e.dep, e.visible));
    ghost var order := PreOrder(k);
    ghost var done, todo := Nil, k;
    var menu := e.list;
    NilLinks(menu, e);
    PropagateStart(k, base, g);
    assert [] + order == order;
    while menu != null
      invariant Walking(done, todo, e.list, e, e, menu, order) && Append(done, todo) == k
      invariant Propagating(done, todo, base, g) && Have({e}, g.fin)
      decreases |PreOrder(todo)|
    {
      WalkSplit(done, todo, e.list, e, e, menu, order);
      PropagateSplit(done, todo, base, g);
      TopAppend(done, todo);
      TopAndBelow(done);
      assert allocated(Nodes(done)) && allocated(Nodes(todo.kids)) && allocated(Nodes(todo.rest));
      assert allocated(Topmost(done)) && allocated(Below(done));
      Inherit(menu, base);
      WalkStep(done, e.list, e, e, menu, todo.kids, todo.rest, order);
      PropagateStep(done, menu, todo.kids, todo.rest, base, g);
      Rejoin(done, menu, todo.kids, todo.rest);
      done, todo, menu := Append(done, Cons(menu, todo.kids, Nil)), todo.rest, menu.next;
    }
    HeadLinks(todo, menu, e);
    PropagateEnd(done, base, g);
  }

  // ----- the last loop -----

  lemma {:induction false} TopSeqMore(f: Forest, m: Entry, k: Forest)
    ensures TopSeq(Append(f, Cons(m, k, Nil))) == TopSeq(f) + [m]
  {
    if f.Cons? { TopSeqMore(f.rest, m, k); }
  }

  lemma CollectMore(e: Entry, ms: seq<Entry>, m: Entry, ch: Choices)
    ensures CollectAll(e, ms + [m], ch) == Collect(e, m, CollectAll(e, ms, ch)) && CollectAll(e, [], ch) == ch
  {
    assert (ms + [m])[..|ms|] == ms;
  }

  /** A child of a choice becomes its member, and may get the additional condition. */
  method CollectMember(e: Entry, m: Entry, ch: Choices) returns (ch': Choices)
    requires ChoicesOk(ch)
    modifies m`dep, m`visible
    ensures ch' == Collect(e, m, ch) && Grown(ch, ch', {m})
    ensures Conds(m.dep, m.visible) ==
      if m in ch'.extra && m !in ch.extra then Extended(m, old(Conds(m.dep, m.visible)), ch'.extra)
      else old(Conds(m.dep, m.visible))
  {
    hide ChoicesOk, OneMember;
    CollectOk(e, m, ch);
    ch' := Collect(e, m, ch);
    if e.choice && e.sym.Some? && m.sym.Some? && m.sym.value !in ch.values
       && e.sym.value.Type() == STristate && m.sym.value.Type() != STristate {
      var y := Some(Equal(e.sym.value, SymYes));
      m.dep := AllocAnd(y, m.dep);
      if m.prompted {
        m.visible := AllocAnd(y, m.visible);
      }
    }
  }

  lemma Collected(s: set<Entry>, m: Entry, c: Conds, g: Plan, ch: Choices, ch': Choices)
    requires Grown(ch, ch', {m}) && m in s && Finished(s - {m}, g, ch.extra)
    requires m in g.fin && c == Extended(m, g.fin[m], ch.extra)
    requires m in ch.extra ==> m in ch'.extra && ch'.extra[m] == ch.extra[m]
    requires Conds(m.dep, m.visible) == if m in ch'.extra && m !in ch.extra then Extended(m, c, ch'.extra) else c
    ensures Finished(s, g, ch'.extra)
  {
    FinishedMore(s - {m}, {m}, g, ch, ch');
  }

  lemma ExtraStays(e: Entry, m: Entry, ch: Choices)
    requires ChoicesOk(ch) && m in ch.extra
    ensures m in Collect(e, m, ch).extra && Collect(e, m, ch).extra[m] == ch.extra[m]
  {
    CollectOk(e, m, ch);
  }

  lemma FlatOfCons(f: Forest)
    ensures f.Cons? && f.entry.Flattens() ==> FlatOf(f) == Cons(f.entry, Nil, FlatOf(Append(f.kids, f.rest)))
    ensures f.Cons? && !f.entry.Flattens() ==> FlatOf(f) == Cons(f.entry, f.kids, FlatOf(f.rest))
    ensures f == Nil ==> FlatOf(f) == Nil
  {
  }

  /** Members are collected, children that should not be kept are moved up, and the walk goes on through
      them. */
  method Flatten(e: Entry, ghost k: Forest, ghost g: Plan, ch0: Choices) returns (ghost k': Forest, ch: Choices)
    requires Distinct([e] + PreOrder(k)) && Links(k, e.list, e, null)
    requires ChoicesOk(ch0) && Finished(Nodes(k), g, ch0.extra)
    modifies Nodes(k)
    ensures k' == FlatOf(k) && Links(k', e.list, e, null)
    ensures ch == CollectAll(e, TopSeq(k'), ch0) && Grown(ch0, ch, Nodes(k)) && Finished(Nodes(k), g, ch.extra)
  {
    hide Links, PreOrder, Append, Entries, Distinct, Finished, ChoicesOk, Grown, FlatOf, TopSeq, CollectAll, Collect, Extended;
    ghost var order := PreOrder(k);
    ghost var todo;
    k', todo, ch := Nil, k, ch0;
    var menu := e.list;
    NilLinks(menu, e);
    FlattenStart(e, ch0);
    assert [] + order == order;
    while menu != null
      invariant Walking(k', todo, e.list, e, e, menu, order) && Append(k', FlatOf(todo)) == FlatOf(k)
      invariant ch == CollectAll(e, TopSeq(k'), ch0) && ChoicesOk(ch) && Grown(ch0, ch, Nodes(k))
      invariant Finished(Nodes(k), g, ch.extra)
      decreases |PreOrder(todo)|
    {
      WalkSplit(k', todo, e.list, e, e, menu, order);
      ghost var km, r := todo.kids, todo.rest;
      assert allocated(Nodes(k)) && allocated(Nodes(k')) && allocated(Nodes(r)) && allocated(Nodes(km));
      ch := CollectHere(e, menu, k, g, ch0, ch);
      CollectMore(e, TopSeq(k'), menu, CollectAll(e, TopSeq(k'), ch0));
      CollectMore(e, TopSeq(k'), menu, ch0);
      FlatOfCons(todo);
      if menu.list != null && menu.Flattens() {
        Lift(e, menu, km, r);
        NilLinks(null, menu);
        AppendOrder(km, r);
        WalkStep(k', e.list, e, e, menu, Nil, Append(km, r), order);
        km, r := Nil, Append(km, r);
      } else {
        KidlessAppend(km, r);
        WalkStep(k', e.list, e, e, menu, km, r, order);
      }
      TopSeqMore(k', menu, km);
      Rejoin(k', menu, km, FlatOf(r));
      k', todo, menu := Append(k', Cons(menu, km, Nil)), r, menu.next;
    }
    HeadLinks(todo, menu, e);
    FlatOfCons(todo);
    AppendNil(k');
  }

  lemma KidlessAppend(km: Forest, r: Forest)
    ensures km == Nil ==> Append(km, r) == r
  {
  }

  lemma FlattenStart(e: Entry, ch: Choices)
    ensures CollectAll(e, TopSeq(Nil), ch) == ch && (ChoicesOk(ch) ==> Grown(ch, ch, {}))
    ensures forall s: set<Entry> {:trigger Grown(ch, ch, s)} :: ChoicesOk(ch) ==> Grown(ch, ch, s)
  {
  }

  /** One entry of the list. */
  method CollectHere(e: Entry, menu: Entry, ghost k: Forest, ghost g: Plan, ch0: Choices, ch: Choices) returns (ch': Choices)
    requires ChoicesOk(ch) && Grown(ch0, ch, Nodes(k)) && Finished(Nodes(k), g, ch.extra) && menu in Nodes(k)
    modifies menu`dep, menu`visible
    ensures ch' == Collect(e, menu, ch) && ChoicesOk(ch') && Grown(ch0, ch', Nodes(k)) && Finished(Nodes(k), g, ch'.extra)
  {
    hide Collect, Extended, PreOrder, ChoicesOk;
    ghost var c := Conds(menu.dep, menu.visible);
    assert allocated(Nodes(k));
    ch' := CollectMember(e, menu, ch);
    GrownOk(ch, ch', {menu});
    if menu in ch.extra { ExtraStays(e, menu, ch); }
    Collected(Nodes(k), menu, c, g, ch, ch');
    GrownTrans(ch0, ch, ch', Nodes(k), {menu});
    assert Nodes(k) + {menu} == Nodes(k);
  }

  lemma GrownOk(ch: Choices, ch': Choices, s: set<Entry>)
    requires Grown(ch, ch', s)
    ensures ChoicesOk(ch')
  {
  }

  // ----- menu_finalize -----

  lemma NestEntryNodes(e: Entry, k: Forest, r: Forest, g: Plan)
    requires Distinct(PreOrder(Cons(e, k, r)))
    ensures var n := NestEntry(e, k, r, g); var k' := FlatAll(n.kids);
      && PreOrder(k') + PreOrder(n.rest) == PreOrder(k) + PreOrder(r) && PreOrder(k') == PreOrder(n.kids)
      && Nodes(k') + Nodes(n.rest) == Nodes(k) + Nodes(r) && Nodes(k') !! Nodes(n.rest)
      && e !in Nodes(k') && e !in Nodes(n.rest) && Distinct([e] + PreOrder(k')) && Distinct(PreOrder(Cons(e, k', n.rest)))
  {
    hide NestEntry, FlatAll, Distinct, PreOrder;
    var n := NestEntry(e, k, r, g);
    var k' := FlatAll(n.kids);
    NestEntryOrder(e, k, r, g);
    ConsOrder(Cons(e, k, r));
    ConsOrder(Cons(e, k', n.rest));
    Grouped([e], PreOrder(k'), PreOrder(n.rest), PreOrder(k), PreOrder(r));
    ConsSplit(e, k', n.rest);
    DistinctCons(e, k', n.rest);
    EntriesBoth(PreOrder(k'), PreOrder(n.rest));
    EntriesBoth(PreOrder(k), PreOrder(r));
  }

  lemma EntriesBoth(a: seq<Entry>, b: seq<Entry>)
    ensures Entries(a + b) == Entries(a) + Entries(b)
  {
  }

  /** Where the walk over siblings is: done has been finalized, todo is ready. */
  ghost predicate Underway(done: Forest, todo: Forest, g: Plan, ch0: Choices, ch: Choices)
    reads Nodes(done)`dep, Nodes(done)`visible
    reads Topmost(todo)`dep, Topmost(todo)`visible, Below(todo)`dep, Below(todo)`visible
  {
    Finished(Nodes(done), g, ch.extra) && Ready(todo, g) && Grown(ch0, ch, Nodes(done)) && NoExtra(ch, Nodes(todo))
  }

  /** The outcome at menu, the first of todo, is the one of the model. */
  ghost predicate AsPlanned(menu: Entry, todo: Forest, km: Forest, r': Forest, g: Plan, ch: Choices, ch': Choices)
    requires todo.Cons?
  {
    var n := NestEntry(menu, todo.kids, todo.rest, g);
    km == FlatAll(n.kids) && r' == n.rest && ch' == CollectEntry(menu, n.kids, ch)
  }

  /** menu, the first of todo, has been finalized: its children are km, and r' remains to be walked. */
  ghost predicate Finalized(menu: Entry, km: Forest, r': Forest, todo: Forest, p: Entry?, g: Plan, ch: Choices, ch': Choices)
    reads menu`next, menu`list, menu`dep, menu`visible, Nodes(km), Nodes(r')
  {
    TopAndBelow(r');
    && todo.Cons? && todo.entry == menu && AsPlanned(menu, todo, km, r', g, ch, ch')
    && Links(km, menu.list, menu, null) && Links(r', menu.next, p, null)
    && menu in g.fin && Have({menu}, g.fin) && Finished(Nodes(km), g, ch'.extra) && Ready(r', g)
    && Grown(ch, ch', Nodes(km))
  }

  method FinalizeNext(menu: Entry, first: Entry?, e: Entry, p: Entry?, ghost done: Forest, ghost todo: Forest,
                      ghost order: seq<Entry>, ghost g: Plan, ghost ch0: Choices, ch: Choices)
    returns (ghost km: Forest, ghost r': Forest, ch': Choices, ghost calls: multiset<Entry>)
    requires Distinct([e] + order) && Walking(done, todo, first, e, p, menu, order) && Underway(done, todo, g, ch0, ch)
    modifies {menu}`next, {menu}`list, if todo.Cons? then Nodes(todo.kids) + Nodes(todo.rest) else {}
    ensures Finalized(menu, km, r', todo, p, g, ch, ch') && Links(done, first, e, menu)
    ensures Finished(Nodes(done), g, ch.extra) && calls == multiset([menu] + PreOrder(km))
    ensures menu.parent == old(menu.parent) && menu in Nodes(todo) && menu !in Nodes(km) && menu !in Nodes(r')
    ensures menu !in Nodes(done) && Nodes(done) !! Nodes(km) && e != menu && e !in Nodes(done)
    decreases |PreOrder(todo)|, 2
  {
    hide Links, PreOrder, Append, Entries, Distinct, Finished, Ready, Have, Planned, Grown, NestEntry, FlatAll, Extended, CollectEntry;
    hide Walking;
    WalkSplit(done, todo, first, e, p, menu, order);
    ReadySplit(todo, g);
    NoExtraSplit(todo, ch);
    NestEntryNodes(menu, todo.kids, todo.rest, g);
    assert allocated(Nodes(done));
    km, r', ch', calls := Finalize(menu, todo.kids, todo.rest, g, ch);
    HeadLinks(Cons(menu, km, r'), menu, p);
  }

  lemma NoExtraSplit(todo: Forest, ch: Choices)
    requires todo.Cons? && NoExtra(ch, Nodes(todo))
    ensures NoExtra(ch, {todo.entry} + Nodes(todo.kids) + Nodes(todo.rest))
  {
    hide ChoicesOk;
    ConsNodes(todo.entry, todo.kids, todo.rest);
  }

  /** What the walk knows once menu has been finalized and has the parent e. */
  lemma StepDone(first: Entry?, e: Entry, p: Entry?, menu: Entry, done: Forest, todo: Forest, km: Forest, r': Forest,
                 order: seq<Entry>, g: Plan, ch0: Choices, ch: Choices, ch': Choices)
    requires Distinct([e] + order) && PreOrder(done) + PreOrder(todo) == order
    requires Finalized(menu, km, r', todo, p, g, ch, ch') && Links(done, first, e, menu) && menu.parent == e
    requires Finished(Nodes(done), g, ch.extra) && Grown(ch0, ch, Nodes(done)) && NoExtra(ch, Nodes(todo))
    ensures var done' := Append(done, Cons(menu, km, Nil));
      && Walking(done', r', first, e, p, menu.next, order) && Underway(done', r', g, ch0, ch')
      && |PreOrder(r')| < |PreOrder(todo)|
      && multiset(PreOrder(done')) == multiset(PreOrder(done)) + multiset([menu] + PreOrder(km))
  {
    hide Links, PreOrder, Append, Entries, Distinct, Finished, Ready, Have, Grown, NestEntry, FlatAll, Extended, ChoicesOk, CollectEntry;
    var cell := Cons(menu, km, Nil);
    DistinctSplit([e], order);
    DistinctSplit(PreOrder(done), PreOrder(todo));
    NestEntryNodes(menu, todo.kids, todo.rest, g);
    ConsOrder(todo);
    ConsOrder(cell);
    NilOrder();
    ConsNodes(menu, todo.kids, todo.rest);
    ConsNodes(menu, km, Nil);
    AppendOrder(done, cell);
    AppendNodes(done, cell);
    Grouped([menu], PreOrder(km), PreOrder(r'), PreOrder(todo.kids), PreOrder(todo.rest));
    WalkStep(done, first, e, p, menu, km, r', order);
    ConsSplit(menu, todo.kids, todo.rest);
    ConsSplit(menu, km, r');
    ExtraDone(done, menu, km, r', todo, g, ch0, ch, ch');
  }

  lemma NilOrder()
    ensures PreOrder(Nil) == [] && Nodes(Nil) == {}
  {
  }

  lemma ExtraDone(done: Forest, menu: Entry, km: Forest, r': Forest, todo: Forest, g: Plan, ch0: Choices, ch: Choices, ch': Choices)
    requires Nodes(done) !! Nodes(todo) && Nodes(todo) == {menu} + Nodes(km) + Nodes(r')
    requires menu !in Nodes(km) && Nodes(km) !! Nodes(r') && menu !in Nodes(r')
    requires menu in g.fin && Have({menu}, g.fin) && Finished(Nodes(km), g, ch'.extra) && Ready(r', g)
    requires Grown(ch, ch', Nodes(km)) && Finished(Nodes(done), g, ch.extra)
    requires Grown(ch0, ch, Nodes(done)) && NoExtra(ch, Nodes(todo))
    ensures var done' := Append(done, Cons(menu, km, Nil)); Underway(done', r', g, ch0, ch')
  {
    hide PreOrder, Append, Entries, Ready, Extended, ChoicesOk;
    var cell := Cons(menu, km, Nil);
    AppendNodes(done, cell);
    ConsNodes(menu, km, Nil);
    NilOrder();
    FinishedMore(Nodes(done), Nodes(km), g, ch, ch');
    FinishedOne(menu, g, ch'.extra);
    FinishedBoth(Nodes(done), {menu} + Nodes(km), g, ch'.extra);
    FinishedBoth({menu}, Nodes(km), g, ch'.extra);
    GrownTrans(ch0, ch, ch', Nodes(done), Nodes(km));
    GrownMore(ch0, ch', Nodes(done) + Nodes(km), Nodes(Append(done, cell)));
  }

  lemma GrownMore(ch: Choices, ch': Choices, s: set<Entry>, t: set<Entry>)
    requires Grown(ch, ch', s) && s <= t
    ensures Grown(ch, ch', t)
  {
  }

  /** The kids of the list that the second loop has produced so far, and what it is to produce. */
  lemma NestListStep(done: Forest, todo: Forest, g: Plan, ch: Choices)
    requires todo.Cons?
    ensures var n := NestEntry(todo.entry, todo.kids, todo.rest, g);
      && Append(done, FlatKids(NestList(todo, g))) ==
           Append(Append(done, Cons(todo.entry, FlatAll(n.kids), Nil)), FlatKids(NestList(n.rest, g)))
      && CollectKids(NestList(todo, g), ch) == CollectKids(NestList(n.rest, g), CollectEntry(todo.entry, n.kids, ch))
  {
    hide FlatAll, NestEntry, CollectEntry;
    var n := NestEntry(todo.entry, todo.kids, todo.rest, g);
    var rest := FlatKids(NestList(n.rest, g));
    assert FlatKids(NestList(todo, g)) == Cons(todo.entry, FlatAll(n.kids), rest);
    Rejoin(done, todo.entry, FlatAll(n.kids), rest);
  }

  lemma NestListEnd(done: Forest, todo: Forest, g: Plan, ch: Choices)
    requires todo == Nil
    ensures Append(done, FlatKids(NestList(todo, g))) == done && CollectKids(NestList(todo, g), ch) == ch
  {
    AppendNil(done);
  }

  lemma NestListStart(e: Entry, k: Forest, g: Plan, ch: Choices)
    requires Links(k, e.list, e, null) && Ready(k, g) && NoExtra(ch, Nodes(k))
    ensures Walking(Nil, k, e.list, e, e, e.list, PreOrder(k)) && Underway(Nil, k, g, ch, ch)
    ensures Append(Nil, FlatKids(NestList(k, g))) == FlatKids(NestList(k, g)) && multiset(PreOrder(Nil)) == multiset{}
  {
    assert [] + PreOrder(k) == PreOrder(k);
  }

  /** The second loop: every child of e is finalized, except those that an earlier one takes in. */
  method FinalizeList(e: Entry, ghost k: Forest, ghost g: Plan, ch0: Choices)
    returns (ghost k': Forest, ch: Choices, ghost calls: multiset<Entry>)
    requires Distinct([e] + PreOrder(k)) && Links(k, e.list, e, null) && Ready(k, g) && NoExtra(ch0, Nodes(k))
    modifies Nodes(k)
    ensures k' == FlatKids(NestList(k, g)) && ch == CollectKids(NestList(k, g), ch0)
    ensures Links(k', e.list, e, null) && calls == multiset(PreOrder(k'))
    ensures Nodes(k') == Nodes(k) && Finished(Nodes(k), g, ch.extra) && Grown(ch0, ch, Nodes(k))
    decreases |PreOrder(k)|, 4
  {
    hide Links, PreOrder, Append, Entries, Distinct, Finished, Ready, NestList, FlatKids, Walking, Underway, NoExtra, Grown,
         CollectKids, CollectEntry;
    ghost var order := PreOrder(k);
    ghost var todo;
    k', todo, ch, calls := Nil, k, ch0, multiset{};
    var menu := e.list;
    NestListStart(e, k, g, ch0);
    HeadApart(e, order);
    while menu != null
      invariant Walking(k', todo, e.list, e, e, menu, order) && Underway(k', todo, g, ch0, ch)
      invariant Append(k', FlatKids(NestList(todo, g))) == FlatKids(NestList(k, g)) && calls == multiset(PreOrder(k'))
      invariant CollectKids(NestList(todo, g), ch) == CollectKids(NestList(k, g), ch0)
      decreases |PreOrder(todo)|
    {
      WalkSplit(k', todo, e.list, e, e, menu, order);
      NestListStep(k', todo, g, ch);
      ghost var c;
      k', todo, ch, c := FinalizeChild(e, menu, k', todo, order, g, ch0, ch);
      calls := calls + c;
      menu := menu.next;
    }
    ListDone(k', todo, e, k, order, g, ch0, ch);
  }

  lemma ListDone(done: Forest, todo: Forest, e: Entry, k: Forest, order: seq<Entry>, g: Plan, ch0: Choices, ch: Choices)
    requires Walking(done, todo, e.list, e, e, null, order) && Underway(done, todo, g, ch0, ch) && order == PreOrder(k)
    requires Append(done, FlatKids(NestList(todo, g))) == FlatKids(NestList(k, g))
    requires CollectKids(NestList(todo, g), ch) == CollectKids(NestList(k, g), ch0)
    ensures done == FlatKids(NestList(k, g)) && ch == CollectKids(NestList(k, g), ch0) && Links(done, e.list, e, null)
    ensures Nodes(done) == Nodes(k) && Finished(Nodes(k), g, ch.extra) && Grown(ch0, ch, Nodes(k))
  {
    hide Finished, Grown, NestList, FlatKids, CollectKids;
    HeadLinks(todo, null, e);
    NestListEnd(done, todo, g, ch);
    assert PreOrder(done) == order;
  }

  method FinalizeChild(e: Entry, menu: Entry, ghost done: Forest, ghost todo: Forest, ghost order: seq<Entry>,
                       ghost g: Plan, ghost ch0: Choices, ch: Choices)
    returns (ghost done': Forest, ghost todo': Forest, ch': Choices, ghost calls: multiset<Entry>)
    requires Distinct([e] + order) && Walking(done, todo, e.list, e, e, menu, order) && Underway(done, todo, g, ch0, ch)
    modifies Nodes(todo)
    ensures todo.Cons? && todo.entry == menu
    ensures var n := NestEntry(menu, todo.kids, todo.rest, g);
      done' == Append(done, Cons(menu, FlatAll(n.kids), Nil)) && todo' == n.rest && ch' == CollectEntry(menu, n.kids, ch)
    ensures Walking(done', todo', e.list, e, e, menu.next, order) && Underway(done', todo', g, ch0, ch')
    ensures |PreOrder(todo')| < |PreOrder(todo)| && multiset(PreOrder(done')) == multiset(PreOrder(done)) + calls
    decreases |PreOrder(todo)|, 3
  {
    hide Links, PreOrder, Append, Entries, Distinct, Finished, Ready, Grown, NestEntry, FlatAll, Extended, ChoicesOk, CollectEntry, Finalized;
    WalkSplit(done, todo, e.list, e, e, menu, order);
    ghost var km, r';
    km, r', ch', calls := FinalizeNext(menu, e.list, e, e, done, todo, order, g, ch0, ch);
    StepDone(e.list, e, e, menu, done, todo, km, r', order, g, ch0, ch, ch');
    FinalizedAs(menu, km, r', todo, e, g, ch, ch');
    done', todo' := Append(done, Cons(menu, km, Nil)), r';
  }

  lemma FinalizedAs(menu: Entry, km: Forest, r': Forest, todo: Forest, p: Entry?, g: Plan, ch: Choices, ch': Choices)
    requires Finalized(menu, km, r', todo, p, g, ch, ch')
    ensures todo.Cons? && todo.entry == menu && AsPlanned(menu, todo, km, r', g, ch, ch')
  {
  }

  // ----- the third loop -----

  /** What the third loop has produced, and what it is to produce. */
  ghost predicate Absorbing(e: Entry, done: Forest, todo: Forest, r: Forest, g: Plan, ch0: Choices, ch: Choices) {
    && Append(done, FlatKids(NestSiblings(e, todo, g).kids)) == FlatKids(NestSiblings(e, r, g).kids)
    && NestSiblings(e, todo, g).rest == NestSiblings(e, r, g).rest
    && CollectKids(NestSiblings(e, todo, g).kids, ch) == CollectKids(NestSiblings(e, r, g).kids, ch0)
  }

  lemma AbsorbStep(e: Entry, done: Forest, todo: Forest, r: Forest, g: Plan, ch0: Choices, ch: Choices)
    requires todo.Cons? && NestsHere(e, todo.entry, g) && Absorbing(e, done, todo, r, g, ch0, ch)
    ensures var n := NestEntry(todo.entry, todo.kids, todo.rest, g);
      Absorbing(e, Append(done, Cons(todo.entry, FlatAll(n.kids), Nil)), n.rest, r, g, ch0,
                CollectEntry(todo.entry, n.kids, ch))
  {
    hide FlatAll, NestEntry, NestsHere, CollectEntry;
    var n := NestEntry(todo.entry, todo.kids, todo.rest, g);
    var rest := FlatKids(NestSiblings(e, n.rest, g).kids);
    assert FlatKids(NestSiblings(e, todo, g).kids) == Cons(todo.entry, FlatAll(n.kids), rest);
    Rejoin(done, todo.entry, FlatAll(n.kids), rest);
  }

  lemma AbsorbStop(e: Entry, done: Forest, todo: Forest, r: Forest, g: Plan, ch0: Choices, ch: Choices)
    requires todo == Nil || !NestsHere(e, todo.entry, g)
    requires Absorbing(e, done, todo, r, g, ch0, ch)
    ensures var n := NestSiblings(e, r, g); done == FlatKids(n.kids) && todo == n.rest && ch == CollectKids(n.kids, ch0)
  {
    hide NestsHere;
    AppendNil(done);
  }

  lemma AbsorbStart(e: Entry, r: Forest, g: Plan, ch: Choices)
    requires Links(r, e.next, e.parent, null) && Ready(r, g) && NoExtra(ch, Nodes(r))
    ensures Walking(Nil, r, e.next, e, e.parent, e.next, PreOrder(r)) && Underway(Nil, r, g, ch, ch)
    ensures Absorbing(e, Nil, r, r, g, ch, ch) && multiset(PreOrder(Nil)) == multiset{}
  {
    assert [] + PreOrder(r) == PreOrder(r);
  }

  /** The first of todo has the conditions it has inherited. */
  lemma ShowsHere(todo: Forest, g: Plan)
    requires todo.Cons? && Ready(todo, g)
    ensures todo.entry in g.fin && todo.entry.Shows() == Shows(todo.entry, g.fin[todo.entry])
  {
  }

  method AbsorbChild(e: Entry, menu: Entry, ghost done: Forest, ghost todo: Forest, ghost order: seq<Entry>,
                     ghost g: Plan, ghost ch0: Choices, ch: Choices)
    returns (ghost km: Forest, ghost done': Forest, ghost todo': Forest, ch': Choices, ghost calls: multiset<Entry>)
    requires Distinct([e] + order) && Walking(done, todo, e.next, e, e.parent, menu, order) && Underway(done, todo, g, ch0, ch)
    modifies Nodes(todo)
    ensures todo.Cons? && todo.entry == menu && done' == Append(done, Cons(menu, km, Nil))
    ensures var n := NestEntry(menu, todo.kids, todo.rest, g);
      km == FlatAll(n.kids) && todo' == n.rest && ch' == CollectEntry(menu, n.kids, ch)
    ensures Walking(done', todo', e.next, e, e.parent, menu.next, order) && Underway(done', todo', g, ch0, ch')
    ensures |PreOrder(todo')| < |PreOrder(todo)| && multiset(PreOrder(done')) == multiset(PreOrder(done)) + calls
    decreases |PreOrder(todo)|, 3
  {
    hide Links, PreOrder, Append, Entries, Distinct, Finished, Ready, Grown, NestEntry, FlatAll, Extended, ChoicesOk, CollectEntry, Have;
    WalkSplit(done, todo, e.next, e, e.parent, menu, order);
    ghost var r';
    km, r', ch', calls := FinalizeNext(menu, e.next, e, e.parent, done, todo, order, g, ch0, ch);
    assert allocated(Nodes(km)) && allocated(Nodes(r')) && allocated(Nodes(done));
    menu.parent := e;
    StepDone(e.next, e, e.parent, menu, done, todo, km, r', order, g, ch0, ch, ch');
    done', todo' := Append(done, Cons(menu, km, Nil)), r';
  }

  /** The third loop: the siblings that follow e become its children as long as they depend on it. */
  method AbsorbLoop(e: Entry, ghost r: Forest, ghost g: Plan, ch0: Choices)
    returns (menu: Entry?, last: Entry?, ghost k': Forest, ghost r': Forest, ghost before: Forest, ghost kl: Forest,
             ch: Choices, ghost calls: multiset<Entry>)
    requires e.sym.Some? && Distinct([e] + PreOrder(r)) && Links(r, e.next, e.parent, null)
    requires Ready(r, g) && NoExtra(ch0, Nodes(r)) && e in g.fin && Have({e}, g.fin)
    modifies Nodes(r)
    ensures var n := NestSiblings(e, r, g); k' == FlatKids(n.kids) && r' == n.rest && ch == CollectKids(n.kids, ch0)
    ensures Walking(k', r', e.next, e, e.parent, menu, PreOrder(r)) && Underway(k', r', g, ch0, ch)
    ensures EndsIn(k', last, before, kl) && calls == multiset(PreOrder(k'))
    decreases |PreOrder(r)|, 4
  {
    hide Links, PreOrder, Append, Entries, Distinct, Ready, Walking, Underway, NoExtra, Absorbing, NestsHere, NestSiblings,
         Nested, NestsOf, FlatKids, CollectEntry, CollectKids;
    ghost var order := PreOrder(r);
    var cond := if e.prompted then e.visible else None;
    last := null;
    k', r', before, kl, ch, calls := Nil, r, Nil, Nil, ch0, multiset{};
    menu := e.next;
    HeadApart(e, order);
    AbsorbStart(e, r, g, ch0);
    while menu != null
      invariant Walking(k', r', e.next, e, e.parent, menu, order) && Underway(k', r', g, ch0, ch)
      invariant Absorbing(e, k', r', r, g, ch0, ch) && calls == multiset(PreOrder(k')) && EndsIn(k', last, before, kl)
      decreases |PreOrder(r')|
    {
      WalkSplit(k', r', e.next, e, e.parent, menu, order);
      UnderwayReady(k', r', g, ch0, ch);
      ShowsHere(r', g);
      var dep := menu.Shows();
      if dep.None? {
        NoCondition(e, menu, g);
        break;
      }
      TopAndBelow(r');
      assert allocated(Nodes(k')) && allocated(Nodes(r')) && allocated(Topmost(r')) && allocated(Below(r'));
      var nest := Nests(e.sym.value, dep.value, cond);
      NestsAs(e, menu, g, dep, cond);
      if !nest {
        break;
      }
      AbsorbStep(e, k', r', r, g, ch0, ch);
      ghost var c;
      before, last := k', menu;
      kl, k', r', ch, c := AbsorbChild(e, menu, k', r', order, g, ch0, ch);
      calls := calls + c;
      menu := menu.next;
    }
    LoopEnd(e, menu, k', r', order, g);
    AbsorbStop(e, k', r', r, g, ch0, ch);
  }

  lemma UnderwayReady(done: Forest, todo: Forest, g: Plan, ch0: Choices, ch: Choices)
    requires Underway(done, todo, g, ch0, ch)
    ensures Ready(todo, g)
  {
  }

  lemma NoCondition(e: Entry, m: Entry, g: Plan)
    requires m in g.fin && Shows(m, g.fin[m]).None?
    ensures !NestsHere(e, m, g)
  {
  }

  lemma NestsAs(e: Entry, m: Entry, g: Plan, dep: Option<Expr>, cond: Option<Expr>)
    requires e.sym.Some? && e in g.fin && Have({e}, g.fin) && m in g.fin && dep == Shows(m, g.fin[m]) && dep.Some?
    requires cond == if e.prompted then e.visible else None
    ensures NestsHere(e, m, g) <==> NestsOf(e.sym.value, dep.value, cond)
  {
    hide NestsOf;
  }

  lemma LoopEnd(e: Entry, menu: Entry?, done: Forest, todo: Forest, order: seq<Entry>, g: Plan)
    requires Walking(done, todo, e.next, e, e.parent, menu, order)
    ensures menu == null ==> todo == Nil
    ensures menu != null ==> todo.Cons? && todo.entry == menu
  {
    HeadLinks(todo, menu, e.parent);
  }

  method AbsorbSiblings(e: Entry, ghost r: Forest, ghost g: Plan, ch0: Choices)
    returns (ghost k': Forest, ghost r': Forest, ch: Choices, ghost calls: multiset<Entry>)
    requires e.sym.Some? && e.list == null && Distinct([e] + PreOrder(r)) && Links(r, e.next, e.parent, null)
    requires Ready(r, g) && NoExtra(ch0, Nodes(r)) && e in g.fin && Have({e}, g.fin)
    modifies {e}`next, {e}`list, Nodes(r)
    ensures var n := NestSiblings(e, r, g); k' == FlatKids(n.kids) && r' == n.rest && ch == CollectKids(n.kids, ch0)
    ensures Links(k', e.list, e, null) && Links(r', e.next, e.parent, null) && calls == multiset(PreOrder(k'))
    ensures Finished(Nodes(k'), g, ch.extra) && Ready(r', g) && Grown(ch0, ch, Nodes(k'))
    decreases |PreOrder(r)|, 5
  {
    hide Links, PreOrder, Append, Entries, Distinct, Ready, Finished, Grown, NestSiblings, FlatKids, NoExtra, Have, CollectKids;
    ghost var before, kl;
    var menu, last;
    menu, last, k', r', before, kl, ch, calls := AbsorbLoop(e, r, g, ch0);
    ghost var order := PreOrder(r);
    DistinctSplit([e], order);
    DistinctSplit(PreOrder(k'), PreOrder(r'));
    HeadApart(e, order);
    TopAndBelow(r');
    assert allocated(Nodes(k')) && allocated(Nodes(r')) && allocated(Topmost(r')) && allocated(Below(r'));
    if last != null {
      EndLinks(before, last, kl, e.next, e, menu);
      LastApart(before, last, kl, k');
      Adopt(e, last, k', before, kl, r');
    } else {
      NilEnd(e.next, e, menu);
      NilLinks(null, e);
    }
  }

  /** The first two loops. */
  method FinalizeChildren(e: Entry, ghost k: Forest, ghost g: Plan, ch0: Choices)
    returns (ghost k': Forest, ch: Choices, ghost calls: multiset<Entry>)
    requires Distinct([e] + PreOrder(k)) && Links(k, e.list, e, null) && e !in Nodes(k) && NoExtra(ch0, Nodes(k))
    requires e in g.fin && Have({e}, g.fin) && Have(Nodes(k), g.own) && Planned(k, Passes(e, g.fin[e]), g)
    modifies Nodes(k)
    ensures k' == FlatKids(NestList(k, g)) && ch == CollectKids(NestList(k, g), ch0)
    ensures Links(k', e.list, e, null) && calls == multiset(PreOrder(k'))
    ensures Nodes(k') == Nodes(k) && Finished(Nodes(k), g, ch.extra) && Grown(ch0, ch, Nodes(k)) && Have({e}, g.fin)
    decreases |PreOrder(k)|, 5
  {
    hide *;
    hide Nodes;
    TopAndBelow(k);
    Propagate(e, k, g);
    k', ch, calls := FinalizeList(e, k, g, ch0);
  }

  /** Everything but the last loop. */
  method FinalizeBelow(e: Entry, ghost k: Forest, ghost r: Forest, ghost g: Plan, ch0: Choices)
    returns (ghost k1: Forest, ghost r': Forest, ch: Choices, ghost calls: multiset<Entry>)
    requires Distinct(PreOrder(Cons(e, k, r))) && Links(Cons(e, k, r), e, e.parent, null)
    requires NoExtra(ch0, {e} + Nodes(k) + Nodes(r)) && e in g.fin && Have({e}, g.fin)
    requires Have(Nodes(k), g.own) && Planned(k, Passes(e, g.fin[e]), g) && Ready(r, g)
    modifies {e}`next, {e}`list, Nodes(k), Nodes(r)
    ensures var n := NestEntry(e, k, r, g); k1 == FlatKids(n.kids) && r' == n.rest && ch == CollectKids(n.kids, ch0)
    ensures Links(k1, e.list, e, null) && Links(r', e.next, e.parent, null) && calls == multiset(PreOrder(k1))
    ensures Finished(Nodes(k1), g, ch.extra) && Ready(r', g) && Grown(ch0, ch, Nodes(k1)) && Have({e}, g.fin)
    ensures e.parent == old(e.parent)
    decreases 1 + |PreOrder(k)| + |PreOrder(r)|, 0
  {
    hide Links, PreOrder, Append, Entries, Distinct, Finished, Ready, Have, Planned, Grown, NestEntry, FlatAll, FlatKids,
         NestList, NestSiblings, Extended, FlatOf, ChoicesOk, CollectEntry, CollectKids, CollectAll, TopSeq;
    FinalizeSetup(e, k, r);
    TopAndBelow(r);
    assert allocated(Nodes(r)) && allocated(Topmost(r)) && allocated(Below(r)) && allocated(Nodes(k));
    NoExtraParts(ch0, e, Nodes(k), Nodes(r));
    NestEntryCases(e, k, r, g);
    if e.list != null {
      k1, ch, calls := FinalizeChildren(e, k, g, ch0);
      r' := r;
    } else if e.sym.Some? {
      k1, r', ch, calls := AbsorbSiblings(e, r, g, ch0);
    } else {
      k1, r', ch, calls := Nil, r, ch0, multiset{};
      NothingGathered(e, g, ch0);
    }
  }

  /** menu_finalize: e has the children k and the later siblings r; afterwards it has the children and
      later siblings that the functions of the model give. */
  method Finalize(e: Entry, ghost k: Forest, ghost r: Forest, ghost g: Plan, ch0: Choices)
    returns (ghost k': Forest, ghost r': Forest, ch: Choices, ghost calls: multiset<Entry>)
    requires Distinct(PreOrder(Cons(e, k, r))) && Links(Cons(e, k, r), e, e.parent, null)
    requires NoExtra(ch0, {e} + Nodes(k) + Nodes(r)) && e in g.fin && Have({e}, g.fin)
    requires Have(Nodes(k), g.own) && Planned(k, Passes(e, g.fin[e]), g) && Ready(r, g)
    modifies {e}`next, {e}`list, Nodes(k), Nodes(r)
    ensures var n := NestEntry(e, k, r, g); k' == FlatAll(n.kids) && r' == n.rest && ch == CollectEntry(e, n.kids, ch0)
    ensures Links(Cons(e, k', r'), e, e.parent, null) && calls == multiset([e] + PreOrder(k'))
    ensures Finished(Nodes(k'), g, ch.extra) && Ready(r', g) && Grown(ch0, ch, Nodes(k')) && Have({e}, g.fin)
    decreases 1 + |PreOrder(k)| + |PreOrder(r)|, 1
  {
    hide Links, PreOrder, Append, Entries, Distinct, Finished, Ready, Have, Planned, Grown, NestEntry, FlatAll, FlatKids,
         NestList, NestSiblings, Extended, FlatOf, ChoicesOk, CollectEntry, CollectKids, CollectAll, TopSeq;
    ghost var k1, ch1;
    k1, r', ch, calls := FinalizeBelow(e, k, r, g, ch0);
    GatheredApart(e, k, r, g);
    TopAndBelow(r');
    assert allocated(Nodes(k1)) && allocated(Nodes(r')) && allocated(Topmost(r')) && allocated(Below(r'));
    ch1 := ch;
    GrownOk(ch0, ch1, Nodes(k1));
    k', ch := Flatten(e, k1, g, ch);
    GrownTrans(ch0, ch1, ch, Nodes(k1), Nodes(k1));
    SetTwice(Nodes(k1));
    FlatAllIs(NestEntry(e, k, r, g).kids);
    CollectEntryIs(e, NestEntry(e, k, r, g).kids, ch0);
    calls := calls + multiset{e};
    ConsLinks(e, k', r');
  }

  lemma SetTwice(s: set<Entry>)
    ensures s + s == s
  {
  }

  lemma FlatAllIs(f: Forest)
    ensures FlatAll(f) == FlatOf(FlatKids(f)) && PreOrder(FlatAll(f)) == PreOrder(FlatKids(f)) == PreOrder(f)
  {
  }

  lemma CollectEntryIs(e: Entry, k: Forest, ch: Choices)
    ensures CollectEntry(e, k, ch) == CollectAll(e, TopSeq(FlatAll(k)), CollectKids(k, ch)) && CollectKids(Nil, ch) == ch
  {
  }

  lemma NoExtraParts(ch: Choices, e: Entry, s: set<Entry>, t: set<Entry>)
    requires NoExtra(ch, {e} + s + t)
    ensures NoExtra(ch, s) && NoExtra(ch, t) && ChoicesOk(ch)
  {
    hide ChoicesOk;
  }

  lemma NestEntryCases(e: Entry, k: Forest, r: Forest, g: Plan)
    ensures NestEntry(e, k, r, g) ==
      if k.Cons? then Nest(NestList(k, g), r) else if e.sym.Some? then NestSiblings(e, r, g) else Nest(Nil, r)
  {
  }

  lemma NothingGathered(e: Entry, g: Plan, ch: Choices)
    ensures FlatKids(Nil) == Nil && multiset(PreOrder(Nil)) == multiset{} && Nodes(Nil) == {} && Finished(Nodes(Nil), g, ch.extra)
    ensures ChoicesOk(ch) ==> Grown(ch, ch, Nodes(Nil))
    ensures Links(Nil, null, e, null) && CollectKids(Nil, ch) == ch
  {
  }

  /** The list before the last loop has the same entries. */
  lemma GatheredApart(e: Entry, k: Forest, r: Forest, g: Plan)
    requires Distinct(PreOrder(Cons(e, k, r)))
    ensures var n := NestEntry(e, k, r, g); var k1 := FlatKids(n.kids);
      && Distinct([e] + PreOrder(k1)) && e !in Nodes(k1) && e !in Nodes(n.rest) && Nodes(k1) !! Nodes(n.rest)
      && Nodes(k1) <= Nodes(k) + Nodes(r) && Nodes(n.rest) <= Nodes(k) + Nodes(r)
  {
    hide NestEntry, FlatAll, FlatKids, PreOrder, Distinct;
    NestEntryNodes(e, k, r, g);
    FlatAllIs(NestEntry(e, k, r, g).kids);
  }

  // ----- the whole tree -----

  /** The conditions of all entries. */
  ghost function AllConds(s: set<Entry>): map<Entry, Conds>
    reads s`dep, s`visible
  {
    map m | m in s :: Conds(m.dep, m.visible)
  }

  ghost function Parents(s: set<Entry>): map<Entry, Entry?>
    reads s`parent
  {
    map m | m in s :: m.parent
  }

  lemma {:induction false} LinksHome(f: Forest, first: Entry?, p: Entry?, s: set<Entry>)
    requires Links(f, first, p, null) && Nodes(f) <= s
    ensures Home(f, p, Parents(s))
    decreases f
  {
    if f.Cons? {
      ConsNodes(f.entry, f.kids, f.rest);
      LinksHome(f.kids, f.entry.list, f.entry, s);
      LinksHome(f.rest, f.entry.next, p, s);
    }
  }

  /** The conditions before and after, from the tree alone. The root keeps its own. */
  ghost function PlanOf(root: Entry, k: Forest): Plan
    reads {root}`dep, {root}`visible, Nodes(k)`dep, Nodes(k)`visible
  {
    var own := AllConds(Nodes(k));
    var c := Conds(root.dep, root.visible);
    Plan(own, FinOf(k, Passes(root, c), own)[root := c])
  }

  lemma PlanOfPlanned(root: Entry, k: Forest)
    requires Distinct([root] + PreOrder(k))
    ensures var g := PlanOf(root, k); var c := Conds(root.dep, root.visible);
      && g.fin.Keys == {root} + Nodes(k) && g.fin[root] == c && Planned(k, Passes(root, c), g)
      && Have(Nodes(k), g.own) && Have({root}, g.fin)
  {
    hide Planned, FinOf, PreOrder, Entries, Distinct;
    HeadApart(root, PreOrder(k));
    DistinctSplit([root], PreOrder(k));
    var g, c := PlanOf(root, k), Conds(root.dep, root.visible);
    FinDomain(k, Passes(root, c), g.own);
    FinPlanned(k, Passes(root, c), g.own, g.fin);
  }

  const NothingCollected := Choices({}, map[], map[])

  /** menu_finalize on rootmenu. The entries keep their order and each is finalized exactly once; the tree,
      the conditions and the members of the choices are those of the model. */
  method FinalizeTree(root: Entry, ghost k: Forest) returns (ghost k': Forest, ch: Choices, ghost calls: multiset<Entry>)
    requires root.parent == null && root.next == null && Links(k, root.list, root, null)
    requires Distinct([root] + PreOrder(k))
    modifies {root}`next, {root}`list, Nodes(k)
    ensures Links(k', root.list, root, null) && root.parent == null && root.next == null
    ensures PreOrder(k') == PreOrder(k) && Flat(k')
    ensures forall m: Entry :: calls[m] == if m == root || m in Nodes(k) then 1 else 0
    ensures var g := old(PlanOf(root, k)); var n := NestEntry(root, k, Nil, g);
      && k' == FlatAll(n.kids) && ch == CollectEntry(root, n.kids, NothingCollected)
      && Finished(Nodes(k), g, ch.extra)
      && AllPlaced(k', root, g, old(Parents(Nodes(k))))
      && (forall e: Entry, m: Entry :: Adjacent(k, e, m) && e.sym.Some? && e.prompted && e.titled && NestsHere(e, m, g) ==>
            TakesFirst(k', e, m))
    ensures ChoicesOk(ch) && AllTaken(k', root, ch.values)
  {
    hide Links, Distinct, PreOrder, Entries, Flat, FlatAll, NestEntry, CollectEntry, AllPlaced, AllTaken, Finished, Have, Ready,
         Planned, FinOf, Reasoned, Home, Extended, NestsHere, Adjacent, TakesFirst;
    ghost var g := PlanOf(root, k);
    ghost var home := Parents(Nodes(k));
    LinksHome(k, root.list, root, Nodes(k));
    PlanOfPlanned(root, k);
    RootLinks(root, k);
    RootStart(root, k, g);
    HeadApart(root, PreOrder(k));
    NilOrder();
    ghost var r';
    k', r', ch, calls := Finalize(root, k, Nil, g, NothingCollected);
    RootEnd(root, k, k', g, home);
    HeadLinks(Cons(root, k', Nil), root, null);
    NilEnd(root.next, null, null);
    forall m: Entry ensures calls[m] == if m == root || m in Nodes(k) then 1 else 0 {
      DistinctCount([root] + PreOrder(k), m);
      EntriesOne(root, k, m);
    }
  }

  lemma EntriesOne(root: Entry, k: Forest, m: Entry)
    ensures m in [root] + PreOrder(k) <==> m == root || m in Nodes(k)
  {
  }

  lemma RootStart(root: Entry, k: Forest, g: Plan)
    ensures NoExtra(NothingCollected, {root} + Nodes(k) + Nodes(Nil)) && Ready(Nil, g)
  {
  }

  /** What the nesting below the root keeps, and why every entry is where it is. */
  lemma RootEnd(root: Entry, k: Forest, k': Forest, g: Plan, home: map<Entry, Entry?>)
    requires Distinct([root] + PreOrder(k)) && Home(k, root, home) && g.fin.Keys == {root} + Nodes(k)
    requires k' == FlatAll(NestEntry(root, k, Nil, g).kids)
    ensures PreOrder(k') == PreOrder(k) && Nodes(k') == Nodes(k) && Flat(k') && NestEntry(root, k, Nil, g).rest == Nil
    ensures AllPlaced(k', root, g, home)
    ensures forall e: Entry, m: Entry :: Adjacent(k, e, m) && e.sym.Some? && e.prompted && e.titled && NestsHere(e, m, g) ==>
      TakesFirst(k', e, m)
    ensures var ch := CollectEntry(root, NestEntry(root, k, Nil, g).kids, NothingCollected);
      ChoicesOk(ch) && AllTaken(k', root, ch.values)
  {
    hide Distinct, FlatAll, NestEntry, CollectEntry, AllPlaced, AllTaken, Reasoned, NestsHere, Adjacent, TakesFirst;
    forall e: Entry, m: Entry | Adjacent(k, e, m) && e.sym.Some? && e.prompted && e.titled && NestsHere(e, m, g)
      ensures TakesFirst(k', e, m)
    {
      NestedForCertain(root, k, g, e, m);
    }
    var n := NestEntry(root, k, Nil, g);
    NestEntryOrder(root, k, Nil, g);
    assert n.rest == Nil;
    assert PreOrder(n.kids) + [] == PreOrder(n.kids) && PreOrder(k) + [] == PreOrder(k);
    FlatAllFlat(n.kids);
    NestEntryReasoned(root, k, Nil, root.parent, g, home);
    FlatAllPlaced(n.kids, root, g, home);
    CollectEntryTaken(root, n.kids, NothingCollected);
  }
}
