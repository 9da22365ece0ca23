/** Which entries menu_finalize nests for certain (scripts/config/menu.c). */
module MenuNesting {
  import opened Options
  import opened Tristates
  import opened Exprs
  import opened ExprSlots
  import opened ExprNesting
  import opened ExprNestingExact
  import opened MenuTree
  import opened MenuModel
  import SymbolSpec

  /** In the tree the parser built, e has no children and m is the entry after it. */
  ghost predicate Adjacent(f: Forest, e: Entry, m: Entry) {
    match f
    case Nil => false
    case Cons(x, k, r) => (x == e && k == Nil && r.Cons? && r.entry == m) || Adjacent(k, e, m) || Adjacent(r, e, m)
  }

  /** m is the first child of e. */
  ghost predicate TakesFirst(f: Forest, e: Entry, m: Entry) {
    match f
    case Nil => false
    case Cons(x, k, r) => (x == e && k.Cons? && k.entry == m) || TakesFirst(k, e, m) || TakesFirst(r, e, m)
  }

  lemma {:induction false} EntryTakes(x: Entry, k: Forest, r: Forest, g: Plan, e: Entry, m: Entry)
    requires Adjacent(Cons(x, k, r), e, m) && e.sym.Some? && NestsHere(e, m, g)
    ensures var n := NestEntry(x, k, r, g); TakesFirst(Cons(x, n.kids, Nil), e, m) || Adjacent(n.rest, e, m)
    decreases |PreOrder(k)| + |PreOrder(r)|, 1
  {
    hide NestsHere;
    if k.Cons? {
      if Adjacent(k, e, m) { ListTakes(k, g, e, m); }
    } else if x.sym.Some? && !(x == e && r.Cons? && r.entry == m) {
      SiblingsTake(x, r, g, e, m);
    }
  }

  /** An entry without children takes in the one that follows it in the tree the parser built, if it is to be nested. */
  lemma {:induction false} ListTakes(f: Forest, g: Plan, e: Entry, m: Entry)
    requires Adjacent(f, e, m) && e.sym.Some? && NestsHere(e, m, g)
    ensures TakesFirst(NestList(f, g), e, m)
    decreases |PreOrder(f)|, 0
  {
    hide NestsHere;
    var n := NestEntry(f.entry, f.kids, f.rest, g);
    EntryTakes(f.entry, f.kids, f.rest, g, e, m);
    if Adjacent(n.rest, e, m) { ListTakes(n.rest, g, e, m); }
  }

  lemma {:induction false} SiblingsTake(x: Entry, r: Forest, g: Plan, e: Entry, m: Entry)
    requires Adjacent(r, e, m) && e.sym.Some? && NestsHere(e, m, g)
    ensures var n := NestSiblings(x, r, g); TakesFirst(n.kids, e, m) || Adjacent(n.rest, e, m)
    decreases |PreOrder(r)|, 0
  {
    if r.Cons? && NestsHere(x, r.entry, g) {
      hide NestsHere;
      var n := NestEntry(r.entry, r.kids, r.rest, g);
      EntryTakes(r.entry, r.kids, r.rest, g, e, m);
      if Adjacent(n.rest, e, m) { SiblingsTake(x, n.rest, g, e, m); }
    }
  }

  /** And it goes on until an entry is not to be nested. */
  lemma {:induction false} SiblingsStop(e: Entry, r: Forest, g: Plan)
    ensures var n := NestSiblings(e, r, g); n.rest == Nil || !NestsHere(e, n.rest.entry, g)
    decreases |PreOrder(r)|
  {
    if r.Cons? && NestsHere(e, r.entry, g) {
      hide NestsHere;
      SiblingsStop(e, NestEntry(r.entry, r.kids, r.rest, g).rest, g);
    }
  }

  // ----- flattening keeps it -----

  lemma {:induction false} TakesAppend(f: Forest, h: Forest, e: Entry, m: Entry)
    ensures TakesFirst(Append(f, h), e, m) <==> TakesFirst(f, e, m) || TakesFirst(h, e, m)
  {
    if f.Cons? { TakesAppend(f.rest, h, e, m); }
  }

  lemma {:induction false} FlatOfTakes(f: Forest, e: Entry, m: Entry)
    requires TakesFirst(f, e, m) && e.prompted && e.titled
    ensures TakesFirst(FlatOf(f), e, m)
    decreases |PreOrder(f)|
  {
    AppendOrder(f.kids, f.rest);
    if f.entry.Flattens() {
      TakesAppend(f.kids, f.rest, e, m);
      FlatOfTakes(Append(f.kids, f.rest), e, m);
    } else if TakesFirst(f.rest, e, m) {
      FlatOfTakes(f.rest, e, m);
    }
  }

  lemma FlatAllFirst(f: Forest)
    ensures f.Cons? ==> FlatAll(f).Cons? && FlatAll(f).entry == f.entry
  {
  }

  /** An entry with a prompt text keeps the child. */
  lemma {:induction false} FlatAllTakes(f: Forest, e: Entry, m: Entry)
    requires TakesFirst(f, e, m) && e.prompted && e.titled
    ensures TakesFirst(FlatAll(f), e, m)
    decreases f, 1
  {
    FlatKidsTakes(f, e, m);
    FlatOfTakes(FlatKids(f), e, m);
  }

  lemma {:induction false} FlatKidsTakes(f: Forest, e: Entry, m: Entry)
    requires TakesFirst(f, e, m) && e.prompted && e.titled
    ensures TakesFirst(FlatKids(f), e, m)
    decreases f, 0
  {
    hide FlatAll;
    FlatAllFirst(f.kids);
    if TakesFirst(f.kids, e, m) {
      FlatAllTakes(f.kids, e, m);
    } else if TakesFirst(f.rest, e, m) {
      FlatKidsTakes(f.rest, e, m);
    }
  }

  /** For the whole tree below an entry. */
  lemma NestedForCertain(root: Entry, k: Forest, g: Plan, e: Entry, m: Entry)
    requires Adjacent(k, e, m) && e.sym.Some? && e.prompted && e.titled && NestsHere(e, m, g)
    ensures TakesFirst(FlatAll(NestEntry(root, k, Nil, g).kids), e, m)
  {
    hide NestsHere, FlatAll, NestList;
    assert k.Cons?;
    assert NestEntry(root, k, Nil, g).kids == NestList(k, g);
    ListTakes(k, g, e, m);
    FlatAllTakes(NestList(k, g), e, m);
  }

  /** The entry is to be nested if its condition says outright that the symbol is not n, whatever the prompt of the
      symbol needs. */
  lemma OutrightNestsHere(e: Entry, m: Entry, g: Plan, dep: Expr, p: Path)
    requires e.sym.Some? && e in g.fin && m in g.fin
    requires Some(dep) == if m.prompted then g.fin[m].visible else g.fin[m].dep
    requires InSkel(TAnd, dep, p) && Outright(At(dep, p), e.sym.value)
    ensures NestsHere(e, m, g)
  {
    hide NestsOf;
    OutrightNests(e.sym.value, dep, if e.prompted then g.fin[e].visible else None, p);
  }

  /** Below an entry with a symbol but without a prompt, or with a prompt that needs nothing, whatever mentions the symbol is
      nested. */
  lemma MentionNestsHere(e: Entry, m: Entry, g: Plan, dep: Expr)
    requires e.sym.Some? && e in g.fin && m in g.fin && (!e.prompted || g.fin[e].visible.None?)
    requires Some(dep) == if m.prompted then g.fin[m].visible else g.fin[m].dep
    ensures NestsHere(e, m, g) <==> e.sym.value in SymbolSpec.ExprSyms(dep)
  {
    hide NestsOf;
    UnconditionalNests(e.sym.value, dep);
  }
}
