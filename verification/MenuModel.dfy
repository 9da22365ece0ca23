/** What menu_finalize computes (scripts/config/menu.c), as functions on the tree the parser has built: the
    conditions every entry inherits, which entries are nested below which, which are moved up again, and the
    members choices collect. */
module MenuModel {
  import opened Options
  import opened Tristates
  import opened Exprs
  import opened ExprTransform
  import opened ExprCompare
  import opened ExprDups
  import opened ExprDupsExact
  import opened ExprDupsLoss
  import opened ExprNesting
  import opened ExprNestingExact
  import opened MenuTree

  // ----- conditions -----

  /** The two conditions of an entry. */
  datatype Conds = Conds(dep: Option<Expr>, visible: Option<Expr>)

  /** expr_alloc_and; a missing operand is y. */
  function AllocAnd(a: Option<Expr>, b: Option<Expr>): Option<Expr> {
    if a.None? then b else if b.None? then a else Some(And(a.value, b.value))
  }

  function TransformOpt(e: Option<Expr>): Option<Expr> { if e.None? then None else Some(Transform(e.value)) }

  function TransBoolOpt(e: Option<Expr>): Option<Expr> { if e.None? then None else Some(TransBool(e.value)) }

  /** expr_eliminate_dups on base && own, own having been transformed. */
  function CombinedOf(base: Option<Expr>, own: Option<Expr>): Option<Expr> {
    var r := AllocAnd(base, TransformOpt(own));
    if r.None? then None else Some(EliminateDupsOf(r.value))
  }

  /** An entry that can be m, or has no symbol. */
  predicate Modular(m: Entry) { m.sym.None? || m.sym.value.Type() == STristate }

  /** The conditions of an entry with the conditions c, when it inherits base. */
  function InheritedConds(m: Entry, base: Option<Expr>, c: Conds): Conds {
    var dep := CombinedOf(base, c.dep);
    if !m.prompted then Conds(dep, c.visible)
    else
      var visible := CombinedOf(dep, c.visible);
      Conds(dep, if Modular(m) then visible else TransBoolOpt(visible))
  }

  /** What its children inherit: parentdep of menu_finalize. */
  function Passes(m: Entry, c: Conds): Option<Expr> {
    if m.choice && m.sym.Some? then Some(Symbol(m.sym.value)) else if m.prompted then c.visible else c.dep
  }

  /** The condition that decides whether the entry is nested below an earlier one. */
  function Shows(m: Entry, c: Conds): Option<Expr> { if m.prompted then c.visible else c.dep }

  /** The result has the value of base && own, except that an m may have become n or y. */
  ghost predicate Inherits(base: Option<Expr>, own: Option<Expr>, result: Option<Expr>) {
    forall env: Env :: WellTyped(env) ==>
      var v := And3(EvalOpt(base, env), EvalOpt(own, env)); v == MOD || EvalOpt(result, env) == v
  }

  /** The same, but for an entry that cannot be m, where the comparisons with n have been dropped: only
      whether the value is n is kept. */
  ghost predicate Shown(base: Option<Expr>, own: Option<Expr>, tristate: bool, result: Option<Expr>) {
    if tristate then Inherits(base, own, result)
    else forall env: Env :: WellTyped(env) ==>
      var v := And3(EvalOpt(base, env), EvalOpt(own, env));
      v == MOD || (EvalOpt(result, env) <= v && (EvalOpt(result, env) == NO <==> v == NO))
  }

  ghost predicate NormalOpt(e: Option<Expr>) { e.Some? ==> Normal(e.value) }

  /** expr_eliminate_dups changes nothing but m, and keeps normal forms. */
  lemma CombinedMeans(base: Option<Expr>, own: Option<Expr>)
    requires NormalOpt(base)
    ensures Inherits(base, own, CombinedOf(base, own)) && NormalOpt(CombinedOf(base, own))
  {
    hide EliminateDupsOf;
    var r := AllocAnd(base, TransformOpt(own));
    if own.Some? { TransformNormal(own.value); }
    if r.Some? {
      EliminateDupsSharpens(r.value);
      forall env: Env | WellTyped(env) ensures EvalOpt(r, env) == And3(EvalOpt(base, env), EvalOpt(own, env)) {
        if own.Some? { TransformValue(own.value, env); }
      }
    }
  }

  /** Where no junction in which expr_eliminate_dups replaces an operand is m, the value is that of
      base && own also if it is m. */
  lemma CombinedAt(base: Option<Expr>, own: Option<Expr>, env: Env)
    requires WellTyped(env)
    requires var r := AllocAnd(base, TransformOpt(own)); r.Some? ==> Definite(AllReplaced(r.value), env)
    ensures EvalOpt(CombinedOf(base, own), env) == And3(EvalOpt(base, env), EvalOpt(own, env))
  {
    hide EliminateDupsOf, AllReplaced, Transform;
    var r := AllocAnd(base, TransformOpt(own));
    if own.Some? { TransformValue(own.value, env); }
    if r.Some? { EliminateDupsAt(r.value, env); }
  }

  /** In general it is that of base && own if and only if no step of the simplification loses an m. */
  lemma CombinedExact(base: Option<Expr>, own: Option<Expr>, env: Env)
    requires WellTyped(env)
    ensures var r := AllocAnd(base, TransformOpt(own));
      EvalOpt(CombinedOf(base, own), env) == And3(EvalOpt(base, env), EvalOpt(own, env)) <==>
        r.None? || NoneLost(AllSteps(r.value), env)
  {
    hide EliminateDupsOf, AllSteps, Transform, NoneLost;
    var r := AllocAnd(base, TransformOpt(own));
    if own.Some? { TransformValue(own.value, env); }
    if r.Some? { EliminateDupsLoss(r.value, env); }
  }

  lemma {:induction false} TransBoolNormal(e: Expr)
    requires Normal(e)
    ensures Normal(TransBool(e))
  {
    match e
    case And(a, b) => TransBoolNormal(a); TransBoolNormal(b);
    case Or(a, b) => TransBoolNormal(a); TransBoolNormal(b);
    case _ =>
  }

  lemma BoolShown(base: Option<Expr>, own: Option<Expr>, c: Option<Expr>)
    requires Inherits(base, own, c) && NormalOpt(c)
    ensures Shown(base, own, false, TransBoolOpt(c)) && NormalOpt(TransBoolOpt(c))
  {
    if c.Some? {
      TransBoolNormal(c.value);
      forall env: Env | WellTyped(env) { TransBoolVisible(c.value, env); }
    }
  }

  /** What inheriting means for the values. */
  lemma InheritedMeans(m: Entry, base: Option<Expr>, c: Conds)
    requires NormalOpt(base)
    ensures var r := InheritedConds(m, base, c);
      && Inherits(base, c.dep, r.dep) && NormalOpt(r.dep) && NormalOpt(Passes(m, r))
      && (m.prompted ==> Shown(r.dep, c.visible, m.sym.None? || m.sym.value.Type() == STristate, r.visible))
      && (!m.prompted ==> r.visible == c.visible)
  {
    hide Inherits, CombinedOf, TransBoolOpt, NormalOpt;
    CombinedMeans(base, c.dep);
    var dep := CombinedOf(base, c.dep);
    if m.prompted {
      CombinedMeans(dep, c.visible);
      if Modular(m) {
        SymbolNormal(m);
      } else {
        BoolShown(dep, c.visible, CombinedOf(dep, c.visible));
      }
    }
    SymbolNormal(m);
  }

  lemma SymbolNormal(m: Entry)
    ensures m.sym.Some? ==> NormalOpt(Some(Symbol(m.sym.value)))
  {
  }

  /** The prompt of a symbol that cannot be m asks of no tristate whether it differs from n, but for the tristate. */
  lemma InheritedPlain(m: Entry, base: Option<Expr>, c: Conds)
    requires m.prompted && m.sym.Some? && m.sym.value.Type() != STristate
    ensures var r := InheritedConds(m, base, c); r.visible.Some? ==> !ComparesWithNo(r.visible.value)
  {
    hide CombinedOf;
    var v := CombinedOf(CombinedOf(base, c.dep), c.visible);
    if v.Some? { TransBoolExact(v.value); }
  }

  // ----- the plan: the conditions of the whole tree -----

  /** The conditions before, and with what is inherited. */
  datatype Plan = Plan(own: map<Entry, Conds>, fin: map<Entry, Conds>)

  /** The entries of f inherit from their parents in the tree the parser built, the topmost ones base. */
  ghost predicate Planned(f: Forest, base: Option<Expr>, g: Plan) {
    match f
    case Nil => true
    case Cons(m, k, r) =>
      && m in g.own && m in g.fin && g.fin[m] == InheritedConds(m, base, g.own[m])
      && Planned(k, Passes(m, g.fin[m]), g) && Planned(r, base, g)
  }

  /** The same below the topmost entries only. */
  ghost predicate PlannedBelow(f: Forest, g: Plan) {
    match f
    case Nil => true
    case Cons(m, k, r) => m in g.fin && Planned(k, Passes(m, g.fin[m]), g) && PlannedBelow(r, g)
  }

  lemma {:induction false} PlannedAppend(f: Forest, h: Forest, base: Option<Expr>, g: Plan)
    ensures Planned(Append(f, h), base, g) <==> Planned(f, base, g) && Planned(h, base, g)
    ensures PlannedBelow(Append(f, h), g) <==> PlannedBelow(f, g) && PlannedBelow(h, g)
  {
    if f.Cons? { PlannedAppend(f.rest, h, base, g); }
  }

  /** The conditions to come. */
  ghost function FinOf(f: Forest, base: Option<Expr>, own: map<Entry, Conds>): map<Entry, Conds> {
    match f
    case Nil => map[]
    case Cons(m, k, r) =>
      if m !in own then map[]
      else
        var c := InheritedConds(m, base, own[m]);
        FinOf(r, base, own) + FinOf(k, Passes(m, c), own) + map[m := c]
  }

  lemma {:induction false} FinPlanned(f: Forest, base: Option<Expr>, own: map<Entry, Conds>, fin: map<Entry, Conds>)
    requires Distinct(PreOrder(f)) && (forall m :: m in Nodes(f) ==> m in own)
    requires forall m :: m in Nodes(f) ==> m in fin && m in FinOf(f, base, own) && fin[m] == FinOf(f, base, own)[m]
    ensures Planned(f, base, Plan(own, fin))
    decreases f
  {
    if f.Cons? {
      hide InheritedConds, Distinct;
      var m, k, r := f.entry, f.kids, f.rest;
      ConsSplit(m, k, r);
      var c := InheritedConds(m, base, own[m]);
      FinDomain(k, Passes(m, c), own);
      FinDomain(r, base, own);
      assert fin[m] == c;
      FinPlanned(k, Passes(m, c), own, fin);
      FinPlanned(r, base, own, fin);
    }
  }

  lemma {:induction false} FinDomain(f: Forest, base: Option<Expr>, own: map<Entry, Conds>)
    requires forall m :: m in Nodes(f) ==> m in own
    ensures FinOf(f, base, own).Keys == Nodes(f)
    decreases f
  {
    if f.Cons? {
      hide InheritedConds;
      ConsNodes(f.entry, f.kids, f.rest);
      FinDomain(f.kids, Passes(f.entry, InheritedConds(f.entry, base, own[f.entry])), own);
      FinDomain(f.rest, base, own);
    }
  }

  /** The entries of f that are not below a choice. */
  ghost function Open(f: Forest): set<Entry> {
    match f
    case Nil => {}
    case Cons(m, k, r) => {m} + (if m.choice then {} else Open(k)) + Open(r)
  }

  /** Whatever hides a menu hides everything below it, down to the choices: these pass on the value of
      their own symbol instead. */
  lemma {:induction false} HiddenBelow(f: Forest, base: Option<Expr>, g: Plan, env: Env)
    requires Planned(f, base, g) && NormalOpt(base) && WellTyped(env) && EvalOpt(base, env) == NO
    ensures forall m | m in Open(f) ::
      m in g.fin && EvalOpt(g.fin[m].dep, env) == NO && (m.prompted ==> EvalOpt(g.fin[m].visible, env) == NO)
  {
    if f.Cons? {
      hide InheritedConds, NormalOpt, WellTyped;
      var m, c := f.entry, g.fin[f.entry];
      InheritedMeans(m, base, g.own[m]);
      HiddenHere(m, base, g.own[m], c, env);
      if !m.choice { HiddenBelow(f.kids, Passes(m, c), g, env); }
      HiddenBelow(f.rest, base, g, env);
    }
  }

  lemma HiddenHere(m: Entry, base: Option<Expr>, own: Conds, c: Conds, env: Env)
    requires WellTyped(env) && EvalOpt(base, env) == NO && Inherits(base, own.dep, c.dep)
    requires m.prompted ==> Shown(c.dep, own.visible, Modular(m), c.visible)
    ensures EvalOpt(c.dep, env) == NO && (m.prompted ==> EvalOpt(c.visible, env) == NO)
    ensures !m.choice ==> EvalOpt(Passes(m, c), env) == NO
  {
    hide WellTyped;
  }

  /** Whatever hides an entry hides everything below it: a choice that is n; the condition of a prompt; or without a
      prompt the dependency. */
  lemma HidesBelow(e: Entry, c: Conds, k: Forest, g: Plan, env: Env)
    requires Planned(k, Passes(e, c), g) && WellTyped(env) && NormalOpt(c.dep) && (e.prompted ==> NormalOpt(c.visible))
    requires if e.choice && e.sym.Some? then env.tri(e.sym.value) == NO
      else if e.prompted then EvalOpt(c.visible, env) == NO else EvalOpt(c.dep, env) == NO
    ensures forall m | m in Open(k) ::
      m in g.fin && EvalOpt(g.fin[m].dep, env) == NO && (m.prompted ==> EvalOpt(g.fin[m].visible, env) == NO)
  {
    hide WellTyped;
    SymbolNormal(e);
    HiddenBelow(k, Passes(e, c), g, env);
  }

  // ----- nesting -----

  /** The third loop of menu_finalize takes m in below e. */
  ghost predicate NestsHere(e: Entry, m: Entry, g: Plan) {
    && e.sym.Some? && e in g.fin && m in g.fin && Shows(m, g.fin[m]).Some?
    && NestsOf(e.sym.value, Shows(m, g.fin[m]).value, if e.prompted then g.fin[e].visible else None)
  }

  /** The children of an entry and its remaining later siblings. */
  datatype Nest = Nest(kids: Forest, rest: Forest)

  /** The nesting below e, which has the children k and the later siblings r: an entry without children takes
      in the siblings that follow it as long as they depend on it. */
  ghost function NestEntry(e: Entry, k: Forest, r: Forest, g: Plan): (n: Nest)
    ensures |PreOrder(n.rest)| <= |PreOrder(r)|
    decreases |PreOrder(k)| + |PreOrder(r)|, 1
  {
    if k.Cons? then Nest(NestList(k, g), r)
    else if e.sym.Some? then NestSiblings(e, r, g)
    else Nest(Nil, r)
  }

  /** The second loop: every entry of a list in turn, except those that an earlier one takes in. */
  ghost function NestList(f: Forest, g: Plan): Forest
    decreases |PreOrder(f)|, 0
  {
    match f
    case Nil => Nil
    case Cons(m, k, r) =>
      var n := NestEntry(m, k, r, g);
      Cons(m, n.kids, NestList(n.rest, g))
  }

  /** The third loop. */
  ghost function NestSiblings(e: Entry, r: Forest, g: Plan): (n: Nest)
    ensures |PreOrder(n.rest)| <= |PreOrder(r)|
    decreases |PreOrder(r)|, 0
  {
    if r == Nil || !NestsHere(e, r.entry, g) then Nest(Nil, r)
    else
      var m := NestEntry(r.entry, r.kids, r.rest, g);
      var n := NestSiblings(e, m.rest, g);
      Nest(Cons(r.entry, m.kids, n.kids), n.rest)
  }

  /** s is the end of the list r. */
  ghost predicate Suffix(r: Forest, s: Forest) { s == r || (r.Cons? && Suffix(r.rest, s)) }

  lemma SuffixRefl(r: Forest)
    ensures Suffix(r, r)
  {
  }

  lemma {:induction false} SuffixTrans(r: Forest, s: Forest, t: Forest)
    requires Suffix(r, s) && Suffix(s, t)
    ensures Suffix(r, t)
  {
    if r != s { SuffixTrans(r.rest, s, t); }
  }

  /** Nesting keeps the order of the entries, and takes siblings from the head of their list. */
  lemma {:induction false} NestEntryOrder(e: Entry, k: Forest, r: Forest, g: Plan)
    ensures var n := NestEntry(e, k, r, g); PreOrder(n.kids) + PreOrder(n.rest) == PreOrder(k) + PreOrder(r) && Suffix(r, n.rest)
    decreases |PreOrder(k)| + |PreOrder(r)|, 1
  {
    SuffixRefl(r);
    if k.Cons? {
      NestListOrder(k, g);
    } else if e.sym.Some? {
      NestSiblingsOrder(e, r, g);
    }
  }

  lemma {:induction false} NestListOrder(f: Forest, g: Plan)
    ensures PreOrder(NestList(f, g)) == PreOrder(f)
    decreases |PreOrder(f)|, 0
  {
    if f.Cons? {
      var n := NestEntry(f.entry, f.kids, f.rest, g);
      NestEntryOrder(f.entry, f.kids, f.rest, g);
      NestListOrder(n.rest, g);
      Grouped([f.entry], PreOrder(n.kids), PreOrder(n.rest), PreOrder(f.kids), PreOrder(f.rest));
    }
  }

  lemma {:induction false} NestSiblingsOrder(e: Entry, r: Forest, g: Plan)
    ensures var n := NestSiblings(e, r, g); PreOrder(n.kids) + PreOrder(n.rest) == PreOrder(r) && Suffix(r, n.rest)
    decreases |PreOrder(r)|, 0
  {
    SuffixRefl(r);
    if r.Cons? && NestsHere(e, r.entry, g) {
      hide NestsHere, PreOrder;
      var m := NestEntry(r.entry, r.kids, r.rest, g);
      var n := NestSiblings(e, m.rest, g);
      NestEntryOrder(r.entry, r.kids, r.rest, g);
      NestSiblingsOrder(e, m.rest, g);
      SuffixTrans(r.rest, m.rest, n.rest);
      ConsOrder(r);
      ConsOrder(Cons(r.entry, m.kids, n.kids));
      Regrouped([r.entry], PreOrder(m.kids), PreOrder(n.kids), PreOrder(n.rest), PreOrder(m.rest),
                PreOrder(r.kids), PreOrder(r.rest));
    } else {
      NoneNested(r);
    }
  }

  lemma NoneNested(r: Forest)
    ensures PreOrder(Nil) + PreOrder(r) == PreOrder(r)
  {
  }

  lemma Regrouped(e: seq<Entry>, a: seq<Entry>, k: seq<Entry>, rest: seq<Entry>, b: seq<Entry>, c: seq<Entry>, d: seq<Entry>)
    requires a + b == c + d && k + rest == b
    ensures e + a + k + rest == e + c + d
  {
    assert e + a + k + rest == e + (a + (k + rest)) && e + c + d == e + (c + d);
  }

  lemma Grouped(e: seq<Entry>, a: seq<Entry>, b: seq<Entry>, c: seq<Entry>, d: seq<Entry>)
    requires a + b == c + d
    ensures e + a + b == e + c + d
  {
    assert e + a + b == e + (a + b) && e + c + d == e + (c + d);
  }

  /** The parent every entry of f has in the tree the parser built. */
  ghost predicate Home(f: Forest, p: Entry?, home: map<Entry, Entry?>) {
    match f
    case Nil => true
    case Cons(m, k, r) => m in home && home[m] == p && Home(k, m, home) && Home(r, p, home)
  }

  /** Why m is below p: it was there before, or it is nested for a reason: with every m in the conditions read
      as y, it is n whenever the symbol of p and the condition of its prompt are n. */
  ghost predicate Reason(p: Entry?, m: Entry, g: Plan, home: map<Entry, Entry?>) {
    || (m in home && home[m] == p)
    || (p != null && p.sym.Some? && p in g.fin && m in g.fin && Shows(m, g.fin[m]).Some?
        && Nested(p.sym.value, Shows(m, g.fin[m]).value, if p.prompted then g.fin[p].visible else None))
  }

  ghost predicate Reasoned(f: Forest, p: Entry?, g: Plan, home: map<Entry, Entry?>) {
    match f
    case Nil => true
    case Cons(m, k, r) => Reason(p, m, g, home) && Reasoned(k, m, g, home) && Reasoned(r, p, g, home)
  }

  lemma {:induction false} HomeSuffix(r: Forest, s: Forest, p: Entry?, home: map<Entry, Entry?>)
    requires Home(r, p, home) && Suffix(r, s)
    ensures Home(s, p, home)
  {
    if r != s { HomeSuffix(r.rest, s, p, home); }
  }

  lemma {:induction false} NestEntryReasoned(e: Entry, k: Forest, r: Forest, p: Entry?, g: Plan, home: map<Entry, Entry?>)
    requires Home(k, e, home) && Home(r, p, home)
    ensures Reasoned(NestEntry(e, k, r, g).kids, e, g, home)
    decreases |PreOrder(k)| + |PreOrder(r)|, 1
  {
    if k.Cons? {
      NestListReasoned(k, e, g, home);
    } else if e.sym.Some? {
      NestSiblingsReasoned(e, r, p, g, home);
    }
  }

  /** Nesting leaves every entry where it was or has a reason to move it. */
  lemma {:induction false} NestListReasoned(f: Forest, p: Entry?, g: Plan, home: map<Entry, Entry?>)
    requires Home(f, p, home)
    ensures Reasoned(NestList(f, g), p, g, home)
    decreases |PreOrder(f)|, 0
  {
    if f.Cons? {
      hide Nested;
      var n := NestEntry(f.entry, f.kids, f.rest, g);
      NestEntryReasoned(f.entry, f.kids, f.rest, p, g, home);
      NestEntryOrder(f.entry, f.kids, f.rest, g);
      HomeSuffix(f.rest, n.rest, p, home);
      NestListReasoned(n.rest, p, g, home);
    }
  }

  lemma {:induction false} NestSiblingsReasoned(e: Entry, r: Forest, p: Entry?, g: Plan, home: map<Entry, Entry?>)
    requires Home(r, p, home)
    ensures Reasoned(NestSiblings(e, r, g).kids, e, g, home)
    decreases |PreOrder(r)|, 0
  {
    if r.Cons? && NestsHere(e, r.entry, g) {
      hide Nested, NestsOf;
      var m := NestEntry(r.entry, r.kids, r.rest, g);
      NestsReason(e.sym.value, Shows(r.entry, g.fin[r.entry]).value, if e.prompted then g.fin[e].visible else None);
      NestEntryReasoned(r.entry, r.kids, r.rest, p, g, home);
      NestEntryOrder(r.entry, r.kids, r.rest, g);
      HomeSuffix(r.rest, m.rest, p, home);
      NestSiblingsReasoned(e, m.rest, p, g, home);
    }
  }

  // ----- flattening -----

  /** The last loop on a list of children: those of an entry without a prompt text follow it as siblings. */
  ghost function FlatOf(f: Forest): (r: Forest)
    ensures PreOrder(r) == PreOrder(f)
    decreases |PreOrder(f)|
  {
    match f
    case Nil => Nil
    case Cons(m, k, r) =>
      AppendOrder(k, r);
      if m.Flattens() then Cons(m, Nil, FlatOf(Append(k, r))) else Cons(m, k, FlatOf(r))
  }

  /** All levels, from below. */
  ghost function FlatAll(f: Forest): (r: Forest)
    ensures PreOrder(r) == PreOrder(f)
    decreases f, 1
  {
    FlatOf(FlatKids(f))
  }

  ghost function FlatKids(f: Forest): (r: Forest)
    ensures PreOrder(r) == PreOrder(f)
    decreases f, 0
  {
    match f
    case Nil => Nil
    case Cons(m, k, r) => Cons(m, FlatAll(k), FlatKids(r))
  }

  lemma {:induction false} FlatOfFlat(f: Forest)
    requires FlatBelow(f)
    ensures Flat(FlatOf(f))
    decreases |PreOrder(f)|
  {
    if f.Cons? {
      AppendOrder(f.kids, f.rest);
      if f.entry.Flattens() {
        FlatIsFlatBelow(f.kids);
        FlatOfFlat(Append(f.kids, f.rest));
      } else {
        FlatOfFlat(f.rest);
      }
    }
  }

  /** Afterwards no entry without a prompt text has children. */
  lemma {:induction false} FlatAllFlat(f: Forest)
    ensures Flat(FlatAll(f)) && FlatBelow(FlatKids(f))
    decreases f
  {
    if f.Cons? {
      FlatAllFlat(f.kids);
      FlatAllFlat(f.rest);
    }
    FlatOfFlat(FlatKids(f));
  }

  /** Why m is below p after flattening: there is a reason to be below p, or below an entry that does not keep
      children and is itself placed below p. */
  ghost predicate PlacedIn(d: nat, p: Entry?, m: Entry, g: Plan, home: map<Entry, Entry?>) {
    || Reason(p, m, g, home)
    || (d > 0 && exists q :: q in g.fin && (!q.prompted || !q.titled) && Reason(q, m, g, home) && PlacedIn(d - 1, p, q, g, home))
  }

  ghost predicate Placed(p: Entry?, m: Entry, g: Plan, home: map<Entry, Entry?>) {
    exists d: nat :: PlacedIn(d, p, m, g, home)
  }

  ghost predicate AllPlaced(f: Forest, p: Entry?, g: Plan, home: map<Entry, Entry?>) {
    match f
    case Nil => true
    case Cons(m, k, r) => m in g.fin && Placed(p, m, g, home) && AllPlaced(k, m, g, home) && AllPlaced(r, p, g, home)
  }

  lemma {:induction false} PlacedThrough(d: nat, p: Entry?, q: Entry, m: Entry, g: Plan, home: map<Entry, Entry?>)
    requires Placed(p, q, g, home) && q in g.fin && (!q.prompted || !q.titled) && PlacedIn(d, q, m, g, home)
    ensures Placed(p, m, g, home)
  {
    hide Reason;
    if Reason(q, m, g, home) {
      var c: nat :| PlacedIn(c, p, q, g, home);
      assert PlacedIn(c + 1, p, m, g, home);
    } else {
      var x :| x in g.fin && (!x.prompted || !x.titled) && Reason(x, m, g, home) && PlacedIn(d - 1, q, x, g, home);
      PlacedThrough(d - 1, p, q, x, g, home);
      var c: nat :| PlacedIn(c, p, x, g, home);
      assert PlacedIn(c + 1, p, m, g, home);
    }
  }

  lemma {:induction false} PlacedAppend(f: Forest, h: Forest, p: Entry?, g: Plan, home: map<Entry, Entry?>)
    ensures AllPlaced(Append(f, h), p, g, home) <==> AllPlaced(f, p, g, home) && AllPlaced(h, p, g, home)
  {
    hide Placed;
    if f.Cons? { PlacedAppend(f.rest, h, p, g, home); }
  }

  /** The children of an entry that keeps none, below its parent. */
  lemma {:induction false} PlacedUp(f: Forest, q: Entry, p: Entry?, g: Plan, home: map<Entry, Entry?>)
    requires AllPlaced(f, q, g, home) && Placed(p, q, g, home) && q in g.fin && (!q.prompted || !q.titled)
    ensures AllPlaced(f, p, g, home)
  {
    hide PlacedIn;
    if f.Cons? {
      var d: nat :| PlacedIn(d, q, f.entry, g, home);
      PlacedThrough(d, p, q, f.entry, g, home);
      PlacedUp(f.rest, q, p, g, home);
    }
  }

  lemma {:induction false} FlatOfPlaced(f: Forest, p: Entry?, g: Plan, home: map<Entry, Entry?>)
    requires AllPlaced(f, p, g, home)
    ensures AllPlaced(FlatOf(f), p, g, home)
    decreases |PreOrder(f)|
  {
    if f.Cons? {
      hide Placed;
      AppendOrder(f.kids, f.rest);
      if f.entry.Flattens() {
        PlacedUp(f.kids, f.entry, p, g, home);
        PlacedAppend(f.kids, f.rest, p, g, home);
        FlatOfPlaced(Append(f.kids, f.rest), p, g, home);
      } else {
        FlatOfPlaced(f.rest, p, g, home);
      }
    }
  }

  /** Whatever is nested for a reason has a reason for its place after flattening. */
  lemma {:induction false} FlatAllPlaced(f: Forest, p: Entry?, g: Plan, home: map<Entry, Entry?>)
    requires Reasoned(f, p, g, home) && (forall m :: m in Nodes(f) ==> m in g.fin)
    ensures AllPlaced(FlatAll(f), p, g, home)
    decreases f, 1
  {
    FlatKidsPlaced(f, p, g, home);
    FlatOfPlaced(FlatKids(f), p, g, home);
  }

  lemma {:induction false} FlatKidsPlaced(f: Forest, p: Entry?, g: Plan, home: map<Entry, Entry?>)
    requires Reasoned(f, p, g, home) && (forall m :: m in Nodes(f) ==> m in g.fin)
    ensures AllPlaced(FlatKids(f), p, g, home)
    decreases f, 0
  {
    if f.Cons? {
      hide Reason, FlatAll;
      ConsNodes(f.entry, f.kids, f.rest);
      FlatAllPlaced(f.kids, f.entry, g, home);
      FlatKidsPlaced(f.rest, p, g, home);
      assert PlacedIn(0, p, f.entry, g, home);
    }
  }

  // ----- the members of choices -----

  /** The symbols with SYMBOL_CHOICEVAL, the members each choice has collected, and the entries that have got
      the additional condition that the choice is y. */
  datatype Choices = Choices(values: set<Sym>, members: map<Sym, seq<Sym>>, extra: map<Entry, Sym>)

  /** What the last loop does to the child m of e: below a choice its symbol becomes a member, if it is none
      yet, and a symbol that cannot be m must depend on a choice that can be m being y. */
  function Collect(e: Entry, m: Entry, ch: Choices): Choices {
    if !e.choice || e.sym.None? || m.sym.None? || m.sym.value in ch.values then ch
    else
      var c, s := e.sym.value, m.sym.value;
      Choices(ch.values + {s}, OneMember(ch.members, c, s),
              if c.Type() == STristate && s.Type() != STristate then ch.extra[m := c] else ch.extra)
  }

  function CollectAll(e: Entry, ms: seq<Entry>, ch: Choices): Choices {
    if ms == [] then ch else Collect(e, ms[|ms| - 1], CollectAll(e, ms[..|ms| - 1], ch))
  }

  /** The topmost entries in their order. */
  ghost function TopSeq(f: Forest): seq<Entry> {
    match f
    case Nil => []
    case Cons(m, _, r) => [m] + TopSeq(r)
  }

  /** What is collected at e and everything nested below it, from below: e takes in its children k after they
      have been flattened. */
  ghost function CollectEntry(e: Entry, k: Forest, ch: Choices): Choices
    decreases k, 1
  {
    CollectAll(e, TopSeq(FlatAll(k)), CollectKids(k, ch))
  }

  ghost function CollectKids(f: Forest, ch: Choices): Choices
    decreases f, 0
  {
    match f
    case Nil => ch
    case Cons(m, k, r) => CollectKids(r, CollectEntry(m, k, ch))
  }

  /** The additional condition. */
  function Extended(m: Entry, c: Conds, x: map<Entry, Sym>): Conds {
    if m !in x then c
    else
      var y := Some(Equal(x[m], SymYes));
      Conds(AllocAnd(y, c.dep), if m.prompted then AllocAnd(y, c.visible) else c.visible)
  }

  /** Such an entry is n unless the choice is y, and else as before. */
  lemma ExtendedMeans(m: Entry, c: Conds, x: map<Entry, Sym>, env: Env)
    requires WellTyped(env)
    ensures var r := Extended(m, c, x);
      && (m !in x ==> r == c)
      && (m in x ==>
            var chosen := if env.str(x[m]) == "y" then YES else NO;
            && EvalOpt(r.dep, env) == And3(chosen, EvalOpt(c.dep, env))
            && (m.prompted ==> EvalOpt(r.visible, env) == And3(chosen, EvalOpt(c.visible, env))))
  {
    assert TypedAt(env, SymYes);
    if m in x {
      AllocAndValue(Some(Equal(x[m], SymYes)), c.dep, env);
      AllocAndValue(Some(Equal(x[m], SymYes)), c.visible, env);
    }
  }

  lemma AllocAndValue(a: Option<Expr>, b: Option<Expr>, env: Env)
    ensures EvalOpt(AllocAnd(a, b), env) == And3(EvalOpt(a, env), EvalOpt(b, env))
  {
  }

  /** A symbol is a member of at most one choice, once; the entries with the additional condition have symbols
      that are members of the choice in question, and every member that needs the condition has it. */
  ghost predicate ChoicesOk(ch: Choices) {
    && MembersOk(ch.values, ch.members) && (forall m :: m in ch.extra ==> ExtraOk(ch, m))
    && forall c, s :: c in ch.members && s in ch.members[c] && c.Type() == STristate && s.Type() != STristate ==>
         HasExtra(ch, c, s)
  }

  /** An entry of s has the additional condition. */
  ghost predicate HasExtra(ch: Choices, c: Sym, s: Sym) {
    exists m :: m in ch.extra && ch.extra[m] == c && m.sym == Some(s)
  }

  ghost predicate MembersOk(values: set<Sym>, members: map<Sym, seq<Sym>>) {
    && (forall c, i :: c in members && 0 <= i < |members[c]| ==> members[c][i] in values)
    && (forall s :: s in values ==> exists c :: c in members && s in members[c])
    && (forall c, i, d, j :: c in members && d in members && 0 <= i < |members[c]| && 0 <= j < |members[d]| ==>
          members[c][i] == members[d][j] ==> c == d && i == j)
  }

  ghost predicate ExtraOk(ch: Choices, m: Entry)
    requires m in ch.extra
  {
    var c := ch.extra[m];
    && m.sym.Some? && c in ch.members && m.sym.value in ch.members[c]
    && c.Type() == STristate && m.sym.value.Type() != STristate
  }

  function OneMember(members: map<Sym, seq<Sym>>, c: Sym, s: Sym): map<Sym, seq<Sym>> {
    members[c := (if c in members then members[c] else []) + [s]]
  }

  lemma OneMemberOk(values: set<Sym>, members: map<Sym, seq<Sym>>, c: Sym, s: Sym)
    requires MembersOk(values, members) && s !in values
    ensures MembersOk(values + {s}, OneMember(members, c, s))
    ensures forall d :: d in members ==> d in OneMember(members, c, s) && members[d] <= OneMember(members, c, s)[d]
    ensures c in OneMember(members, c, s) && s in OneMember(members, c, s)[c]
  {
    var all := OneMember(members, c, s);
    OneMemberHas(values, members, c, s);
    forall d, i, d', j | d in all && d' in all && 0 <= i < |all[d]| && 0 <= j < |all[d']| && all[d][i] == all[d'][j]
      ensures d == d' && i == j
    {
      MemberPlace(values, members, c, s, d, i);
      MemberPlace(values, members, c, s, d', j);
    }
    forall d, i | d in all && 0 <= i < |all[d]| ensures all[d][i] in values + {s} {
      MemberPlace(values, members, c, s, d, i);
    }
    hide OneMember;
  }

  lemma OneMemberHas(values: set<Sym>, members: map<Sym, seq<Sym>>, c: Sym, s: Sym)
    requires MembersOk(values, members)
    ensures forall d :: d in members ==> d in OneMember(members, c, s) && members[d] <= OneMember(members, c, s)[d]
    ensures c in OneMember(members, c, s) && s in OneMember(members, c, s)[c]
    ensures forall t :: t in values + {s} ==> exists d :: d in OneMember(members, c, s) && t in OneMember(members, c, s)[d]
  {
    var all := OneMember(members, c, s);
    assert all[c] == (if c in members then members[c] else []) + [s];
    forall t | t in values ensures exists d :: d in all && t in all[d] {
      var d :| d in members && t in members[d];
      assert t in all[d];
    }
  }

  /** The new member is the last of c; every other one is where it was. */
  lemma MemberPlace(values: set<Sym>, members: map<Sym, seq<Sym>>, c: Sym, s: Sym, d: Sym, i: nat)
    requires MembersOk(values, members) && s !in values
    requires d in OneMember(members, c, s) && i < |OneMember(members, c, s)[d]|
    ensures if d == c && i == |OneMember(members, c, s)[c]| - 1 then OneMember(members, c, s)[d][i] == s
      else d in members && i < |members[d]| && OneMember(members, c, s)[d][i] == members[d][i] && members[d][i] in values
  {
  }

  lemma CollectOk(e: Entry, m: Entry, ch: Choices)
    requires ChoicesOk(ch)
    ensures ChoicesOk(Collect(e, m, ch)) && ch.values <= Collect(e, m, ch).values
    ensures e.choice && e.sym.Some? && m.sym.Some? ==> m.sym.value in Collect(e, m, ch).values
    ensures m in ch.extra ==> m.sym.Some? && m.sym.value in ch.values
  {
    hide MembersOk;
    var ch' := Collect(e, m, ch);
    if m in ch.extra {
      assert ExtraOk(ch, m);
      ValueOfMember(ch.values, ch.members, ch.extra[m], m.sym.value);
    }
    if ch' != ch {
      OneMemberOk(ch.values, ch.members, e.sym.value, m.sym.value);
      forall x | x in ch'.extra ensures ExtraOk(ch', x) {
        if x in ch.extra && x != m { assert ExtraOk(ch, x); }
      }
      CollectExtra(e, m, ch);
      forall c, s | c in ch'.members && s in ch'.members[c] && c.Type() == STristate && s.Type() != STristate
        ensures HasExtra(ch', c, s)
      {
        if !(c == e.sym.value && s == m.sym.value) { assert HasExtra(ch, c, s); }
      }
    }
  }

  /** The symbol that becomes a member has its entry given the additional condition if it needs it; no other entry
      loses it. */
  lemma CollectExtra(e: Entry, m: Entry, ch: Choices)
    requires e.choice && e.sym.Some? && m.sym.Some? && m.sym.value !in ch.values && m !in ch.extra
    ensures var r := Collect(e, m, ch); var c, s := e.sym.value, m.sym.value;
      && (c.Type() == STristate && s.Type() != STristate ==> m in r.extra && r.extra[m] == c && HasExtra(r, c, s))
      && (forall x :: x in ch.extra ==> x in r.extra && r.extra[x] == ch.extra[x])
      && (forall d, t :: HasExtra(ch, d, t) ==> HasExtra(r, d, t))
  {
    hide OneMember;
    var r := Collect(e, m, ch);
    forall d, t | HasExtra(ch, d, t) ensures HasExtra(r, d, t) {
      var x :| x in ch.extra && ch.extra[x] == d && x.sym == Some(t);
      assert x in r.extra;
    }
  }

  /** Nothing is collected below an entry that is no choice. */
  lemma {:induction false} NoChoiceNoMembers(e: Entry, ms: seq<Entry>, ch: Choices)
    requires !e.choice || e.sym.None?
    ensures CollectAll(e, ms, ch) == ch
  {
    if ms != [] { NoChoiceNoMembers(e, ms[..|ms| - 1], ch); }
  }

  /** And below a choice only what is there, in its order. */
  lemma {:induction false} OnlyBelow(e: Entry, ms: seq<Entry>, ch: Choices)
    requires e.choice && e.sym.Some?
    ensures var r, c := CollectAll(e, ms, ch), e.sym.value;
      && (forall s :: s in r.values ==> s in ch.values || exists m :: m in ms && m.sym == Some(s))
      && (forall d :: d != c ==> (d in r.members <==> d in ch.members) && (d in ch.members ==> r.members[d] == ch.members[d]))
  {
    if ms != [] {
      var n := |ms| - 1;
      OnlyBelow(e, ms[..n], ch);
      assert ms == ms[..n] + [ms[n]];
    }
  }

  lemma ValueOfMember(values: set<Sym>, members: map<Sym, seq<Sym>>, c: Sym, s: Sym)
    requires MembersOk(values, members) && c in members && s in members[c]
    ensures s in values
  {
  }

  /** The symbol of m, found below e, is a member if e is a choice. */
  predicate Taken(e: Entry, m: Entry, values: set<Sym>) {
    e.choice && e.sym.Some? && m.sym.Some? ==> m.sym.value in values
  }

  /** Whatever is directly below a choice is a member. */
  ghost predicate AllTaken(f: Forest, e: Entry, values: set<Sym>) {
    match f
    case Nil => true
    case Cons(m, k, r) => Taken(e, m, values) && AllTaken(k, m, values) && AllTaken(r, e, values)
  }

  /** The same below the topmost entries only. */
  ghost predicate TakenBelow(f: Forest, values: set<Sym>) {
    match f
    case Nil => true
    case Cons(m, k, r) => AllTaken(k, m, values) && TakenBelow(r, values)
  }

  lemma {:induction false} TakenParts(f: Forest, e: Entry, values: set<Sym>)
    ensures AllTaken(f, e, values) <==> TakenBelow(f, values) && forall m :: m in TopSeq(f) ==> Taken(e, m, values)
  {
    if f.Cons? {
      hide Taken;
      TakenParts(f.rest, e, values);
      assert TopSeq(f)[0] == f.entry;
    }
  }

  lemma {:induction false} TakenMore(f: Forest, e: Entry, values: set<Sym>, more: set<Sym>)
    requires AllTaken(f, e, values) && values <= more
    ensures AllTaken(f, e, more)
  {
    if f.Cons? {
      TakenMore(f.kids, f.entry, values, more);
      TakenMore(f.rest, e, values, more);
    }
  }

  lemma {:induction false} TakenBelowMore(f: Forest, values: set<Sym>, more: set<Sym>)
    requires TakenBelow(f, values) && values <= more
    ensures TakenBelow(f, more)
  {
    if f.Cons? {
      TakenMore(f.kids, f.entry, values, more);
      TakenBelowMore(f.rest, values, more);
    }
  }

  lemma {:induction false} TakenBelowAppend(f: Forest, h: Forest, values: set<Sym>)
    ensures TakenBelow(Append(f, h), values) <==> TakenBelow(f, values) && TakenBelow(h, values)
  {
    if f.Cons? { TakenBelowAppend(f.rest, h, values); }
  }

  lemma {:induction false} FlatOfTaken(f: Forest, values: set<Sym>)
    requires TakenBelow(f, values)
    ensures TakenBelow(FlatOf(f), values)
    decreases |PreOrder(f)|
  {
    if f.Cons? {
      AppendOrder(f.kids, f.rest);
      if f.entry.Flattens() {
        TakenParts(f.kids, f.entry, values);
        TakenBelowAppend(f.kids, f.rest, values);
        FlatOfTaken(Append(f.kids, f.rest), values);
      } else {
        FlatOfTaken(f.rest, values);
      }
    }
  }

  lemma {:induction false} CollectAllTaken(e: Entry, ms: seq<Entry>, ch: Choices)
    requires ChoicesOk(ch)
    ensures var r := CollectAll(e, ms, ch);
      ChoicesOk(r) && ch.values <= r.values && forall m :: m in ms ==> Taken(e, m, r.values)
  {
    if ms != [] {
      hide ChoicesOk;
      var n := |ms| - 1;
      CollectAllTaken(e, ms[..n], ch);
      CollectOk(e, ms[n], CollectAll(e, ms[..n], ch));
      assert ms == ms[..n] + [ms[n]];
    }
  }

  /** In the tree afterwards every symbol directly below a choice is a member of exactly one choice. */
  lemma {:induction false} CollectEntryTaken(e: Entry, k: Forest, ch: Choices)
    requires ChoicesOk(ch)
    ensures var r := CollectEntry(e, k, ch);
      ChoicesOk(r) && ch.values <= r.values && AllTaken(FlatAll(k), e, r.values)
    decreases k, 1
  {
    hide ChoicesOk, CollectAll;
    var c := CollectKids(k, ch);
    CollectKidsTaken(k, ch);
    CollectAllTaken(e, TopSeq(FlatAll(k)), c);
    var r := CollectEntry(e, k, ch);
    FlatOfTaken(FlatKids(k), c.values);
    TakenBelowMore(FlatAll(k), c.values, r.values);
    TakenParts(FlatAll(k), e, r.values);
  }

  lemma {:induction false} CollectKidsTaken(f: Forest, ch: Choices)
    requires ChoicesOk(ch)
    ensures var r := CollectKids(f, ch); ChoicesOk(r) && ch.values <= r.values && TakenBelow(FlatKids(f), r.values)
    decreases f, 0
  {
    if f.Cons? {
      hide ChoicesOk, CollectEntry, FlatAll;
      var c := CollectEntry(f.entry, f.kids, ch);
      CollectEntryTaken(f.entry, f.kids, ch);
      CollectKidsTaken(f.rest, c);
      TakenMore(FlatAll(f.kids), f.entry, c.values, CollectKids(f.rest, c).values);
    }
  }

  /** What has been collected changes for the entries in s only. */
  ghost predicate Grown(ch: Choices, ch': Choices, s: set<Entry>) {
    && ChoicesOk(ch') && ch.values <= ch'.values
    && (forall m :: m in ch.extra ==> m !in s ==> m in ch'.extra && ch'.extra[m] == ch.extra[m])
    && (forall m :: m in ch'.extra ==> m !in s ==> m in ch.extra)
  }

  lemma GrownTrans(a: Choices, b: Choices, c: Choices, s: set<Entry>, t: set<Entry>)
    requires Grown(a, b, s) && Grown(b, c, t)
    ensures Grown(a, c, s + t)
  {
  }
}
