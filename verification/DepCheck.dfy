/** sym_check_deps on symbols outside choices: depth-first search for recursive dependencies with two
    flags per symbol and an explicit stack (scripts/config/symbol.c). */
module DependencyCheck {
  import opened Options
  import opened Exprs
  import opened SymbolSpec

  /** For every symbol, the expressions sym_check_sym_deps walks, in its order. */
  type Graph = map<Sym, seq<Expr>>

  function SeqSyms(es: seq<Expr>): set<Sym> { set e, s | e in es && s in ExprSyms(e) :: s }

  /** The symbol t occurs in an expression of s. */
  predicate Edge(g: Graph, s: Sym, t: Sym) { s in g && t in SeqSyms(g[s]) }

  ghost predicate Closed(g: Graph) { forall s, t :: Edge(g, s, t) ==> t in g }

  predicate Path(g: Graph, p: seq<Sym>) { forall i :: 0 <= i < |p| - 1 ==> Edge(g, p[i], p[i + 1]) }

  /** Each symbol depends on the next and the last on the first. */
  predicate Cycle(g: Graph, p: seq<Sym>) { p != [] && Path(g, p) && Edge(g, p[|p| - 1], p[0]) }

  function Elems(s: seq<Sym>): set<Sym> { set x | x in s }

  /** Finished symbols, in the order they finished: each depends on earlier ones only. */
  ghost predicate Finished(g: Graph, order: seq<Sym>) {
    forall i, t :: 0 <= i < |order| && Edge(g, order[i], t) ==> t in order[..i]
  }

  /** Following edges from a finished symbol leads to earlier and earlier ones. */
  lemma {:induction false} PathDescends(g: Graph, order: seq<Sym>, p: seq<Sym>, k: nat) returns (j: nat)
    requires Finished(g, order) && Path(g, p) && p != [] && k < |order| && order[k] == p[0]
    ensures j <= k && order[j] == p[|p| - 1] && (|p| > 1 ==> j < k)
    decreases |p|
  {
    if |p| == 1 {
      j := k;
    } else {
      assert Edge(g, p[0], p[1]);
      var i :| 0 <= i < k && order[i] == p[1];
      forall n | 0 <= n < |p[1..]| - 1 ensures Edge(g, p[1..][n], p[1..][n + 1]) {
        assert Edge(g, p[n + 1], p[n + 2]);
      }
      j := PathDescends(g, order, p[1..], i);
    }
  }

  /** Where everything has finished there is no cycle. */
  lemma FinishedAcyclic(g: Graph, order: seq<Sym>, p: seq<Sym>)
    requires Finished(g, order) && forall s :: s in g ==> s in order
    ensures !Cycle(g, p)
  {
    if Cycle(g, p) {
      var q := p + [p[0]];
      forall n | 0 <= n < |q| - 1 ensures Edge(g, q[n], q[n + 1]) {
        if n < |p| - 1 { assert Edge(g, p[n], p[n + 1]); }
      }
      // take the first occurrence of p[0] in the finishing order
      var k := FirstIndex(order, p[0]);
      var j := PathDescends(g, order, q, k);
      assert false;
    }
  }

  lemma {:induction false} FirstIndex(order: seq<Sym>, s: Sym) returns (k: nat)
    requires s in order
    ensures k < |order| && order[k] == s && s !in order[..k]
    decreases |order|
  {
    if s in order[..|order| - 1] {
      k := FirstIndex(order[..|order| - 1], s);
      assert order[..|order| - 1][..k] == order[..k];
    } else {
      k := |order| - 1;
    }
  }

  /** The segment of the stack from the topmost entry for s up. */
  function From(stack: seq<Sym>, s: Sym): seq<Sym>
    requires s in stack
  {
    var n := |stack| - 1;
    if stack[n] == s then [s] else From(stack[..n], s) + [stack[n]]
  }

  lemma {:induction false} SegmentIsPath(g: Graph, stack: seq<Sym>, s: Sym)
    requires s in stack && Path(g, stack)
    ensures var p := From(stack, s); p != [] && Path(g, p) && p[0] == s && p[|p| - 1] == stack[|stack| - 1]
    decreases |stack|
  {
    var n := |stack| - 1;
    if stack[n] != s {
      SegmentIsPath(g, stack[..n], s);
      assert Edge(g, stack[n - 1], stack[n]);
    }
  }

  lemma PartSyms(es: seq<Expr>, i: nat)
    requires i < |es|
    ensures ExprSyms(es[i]) <= SeqSyms(es)
    ensures SeqSyms(es[..i + 1]) == SeqSyms(es[..i]) + ExprSyms(es[i])
  {
    assert es[..i + 1] == es[..i] + [es[i]];
  }

  lemma FinishOne(g: Graph, order: seq<Sym>, s: Sym)
    requires Finished(g, order) && forall t :: Edge(g, s, t) ==> t in order
    ensures Finished(g, order + [s])
  {
    var all := order + [s];
    forall i, t | 0 <= i < |all| && Edge(g, all[i], t) ensures t in all[..i] {
      if i < |order| {
        assert all[..i] == order[..i];
      } else {
        assert all[..i] == order;
      }
    }
  }

  class Checker {
    const g: Graph
    /** SYMBOL_CHECK and SYMBOL_CHECKED. */
    var check: set<Sym>
    var checked: set<Sym>
    /** The list behind check_top, bottom first. */
    var stack: seq<Sym>
    /** The cycles sym_check_print_recursive has printed. */
    var reports: seq<seq<Sym>>
    ghost var order: seq<Sym>

    constructor (g: Graph)
      ensures this.g == g && check == {} && checked == {} && stack == [] && reports == [] && order == []
    {
      this.g := g;
      check, checked, stack, reports, order := {}, {}, [], [], [];
    }

    /** The flags and the stack belong together; what was reported are cycles; as long as nothing was
        reported, every checked symbol is on the stack or finished. */
    ghost predicate Valid()
      reads this
    {
      && Closed(g) && checked <= g.Keys && check <= checked
      && (forall s :: s in check <==> s in stack)
      && Path(g, stack)
      && (forall i :: 0 <= i < |reports| ==> Cycle(g, reports[i]))
      && (reports == [] ==> Finished(g, order) && checked == check + Elems(order))
    }

    /** What a search leaves behind: flags and stack as before, no fewer symbols checked; and if nothing
        is reported, the symbols searched are finished. */
    twostate predicate Searched(syms: set<Sym>)
      reads this
    {
      && Valid() && check == old(check) && stack == old(stack) && old(checked) <= checked
      && old(reports) <= reports && old(order) <= order
      && (reports == [] ==> forall t :: t in syms ==> t in order)
    }

    method CheckExpr(e: Expr) returns (r: Option<Sym>)
      requires Valid() && stack != [] && stack[|stack| - 1] in g && ExprSyms(e) <= SeqSyms(g[stack[|stack| - 1]])
      modifies this
      ensures Searched(ExprSyms(e))
      ensures r.Some? ==> r.value in check && reports != []
      decreases g.Keys - checked, 1, e
    {
      forall t | t in ExprSyms(e) ensures t in g { assert Edge(g, stack[|stack| - 1], t); }
      match e
      case Or(a, b) =>
        r := CheckExpr(a);
        if r.Some? {
          return;
        }
        r := CheckExpr(b);
      case And(a, b) =>
        r := CheckExpr(a);
        if r.Some? {
          return;
        }
        r := CheckExpr(b);
      case Not(a) =>
        r := CheckExpr(a);
      case Equal(s, t) =>
        r := CheckDeps(s);
        if r.Some? {
          return;
        }
        r := CheckDeps(t);
      case Unequal(s, t) =>
        r := CheckDeps(s);
        if r.Some? {
          return;
        }
        r := CheckDeps(t);
      case Symbol(s) =>
        r := CheckDeps(s);
    }

    /** sym_check_sym_deps */
    method CheckSymDeps(s: Sym) returns (r: Option<Sym>)
      requires Closed(g) && s in g && s !in stack && (stack != [] ==> Edge(g, stack[|stack| - 1], s))
      requires checked <= g.Keys && check <= checked && check == Elems(stack) + {s} && Path(g, stack)
      requires forall i :: 0 <= i < |reports| ==> Cycle(g, reports[i])
      requires reports == [] ==> Finished(g, order) && checked == check + Elems(order)
      modifies this
      ensures stack == old(stack) && check == old(check) && old(checked) <= checked <= g.Keys
      ensures old(reports) <= reports && old(order) <= order && forall i :: 0 <= i < |reports| ==> Cycle(g, reports[i])
      ensures reports == [] ==> Finished(g, order) && checked == check + Elems(order)
      ensures reports == [] ==> forall t :: t in SeqSyms(g[s]) ==> t in order
      ensures r.Some? ==> r.value in check && reports != []
      decreases g.Keys - checked, 2
    {
      hide Finished, Cycle, Edge;
      stack := stack + [s];
      var es := g[s];
      var i := 0;
      r := None;
      while i < |es|
        invariant 0 <= i <= |es| && r == None
        invariant Valid() && stack == old(stack) + [s] && check == old(check) && old(checked) <= checked
        invariant old(reports) <= reports
        invariant old(order) <= order
        invariant reports == [] ==> forall t :: t in SeqSyms(es[..i]) ==> t in order
      {
        PartSyms(es, i);
        r := CheckExpr(es[i]);
        if r.Some? {
          break;
        }
        i := i + 1;
      }
      assert r == None ==> es[..i] == es;
      stack := stack[..|stack| - 1];
    }

    method CheckDeps(s: Sym) returns (r: Option<Sym>)
      requires Valid() && s in g && (stack != [] ==> Edge(g, stack[|stack| - 1], s))
      modifies this
      ensures Searched({s})
      ensures r.Some? ==> r.value in check && reports != []
      decreases g.Keys - checked, 0
    {
      if s in check {
        SegmentIsPath(g, stack, s);
        reports := reports + [From(stack, s)];
        return Some(s);
      }
      if s in checked {
        return None;
      }
      check, checked := check + {s}, checked + {s};
      r := CheckSymDeps(s);
      check := check - {s};
      if reports == [] { FinishOne(g, order, s); }
      order := order + [s];
      if r == Some(s) {
        r := None;
      }
    }


    /** The loop over all symbols in conf_parse, which counts the symbols found wrong. It reports a cycle
        exactly if there is one, but never counts an error: a call from outside always returns NULL. */
    method CheckAll(syms: seq<Sym>) returns (errors: nat)
      requires Closed(g) && Elems(syms) == g.Keys
      requires check == {} && checked == {} && stack == [] && reports == [] && order == []
      modifies this
      ensures errors == 0 && check == {} && stack == []
      ensures reports == [] <==> forall p :: !Cycle(g, p)
      ensures forall i :: 0 <= i < |reports| ==> Cycle(g, reports[i])
      ensures reports == [] ==> Finished(g, order) && forall s :: s in g ==> s in order
    {
      errors := 0;
      var i := 0;
      while i < |syms|
        invariant 0 <= i <= |syms| && errors == 0
        invariant Valid() && check == {} && stack == []
        invariant reports == [] ==> forall s :: s in syms[..i] ==> s in order
      {
        assert syms[i] in syms;
        var r := CheckDeps(syms[i]);
        errors := errors + (if r.Some? then 1 else 0);
        assert syms[..i + 1] == syms[..i] + [syms[i]];
        i := i + 1;
      }
      assert syms[..i] == syms;
      if reports == [] {
        forall p ensures !Cycle(g, p) { FinishedAcyclic(g, order, p); }
      } else {
        assert Cycle(g, reports[0]);
      }
    }
  }

  // ----- from the check to the evaluation -----

  /** What sym_check_sym_deps walks for a symbol: rev_dep, the condition of every property and the value
      of every default. Neither the direct dependency nor the bounds of a range are among it. */
  function CheckedExprs(d: Decl): seq<Expr> {
    Given([d.revDep] + d.prompts) + DefaultExprs(d.defaults) + RangeExprs(d.ranges)
  }

  function Given(es: seq<Option<Expr>>): seq<Expr> {
    if es == [] then [] else (if es[0].Some? then [es[0].value] else []) + Given(es[1..])
  }

  function DefaultExprs(ds: seq<Default>): seq<Expr> {
    if ds == [] then [] else Given([ds[0].visible]) + [ds[0].value] + DefaultExprs(ds[1..])
  }

  function RangeExprs(rs: seq<Range>): seq<Expr> {
    if rs == [] then [] else Given([rs[0].visible]) + RangeExprs(rs[1..])
  }

  function CheckGraph(cfg: Config): Graph { map s | s in cfg.decls :: CheckedExprs(cfg.decls[s]) }

  /** sym_check_deps treats choices differently; here there are none. */
  predicate ChoiceFree(cfg: Config) {
    forall s :: s in cfg.decls ==> cfg.decls[s].members == [] && cfg.decls[s].owner.None?
  }

  /** The dependencies the check does not follow: what the evaluation of s reads beyond them must not need
      anything itself. */
  predicate Covered(cfg: Config) {
    forall s, t :: s in cfg.decls && t in Needs(cfg, s) ==>
      t in SeqSyms(CheckedExprs(cfg.decls[s])) || (t in cfg.decls && Needs(cfg, t) == {})
  }

  /** Symbols that need nothing first, then the order in which the check finished. */
  ghost function RankOf(cfg: Config, order: seq<Sym>): map<Sym, nat>
    requires forall s :: s in cfg.decls ==> s in order
  {
    map s | s in cfg.decls :: if Needs(cfg, s) == {} then 0 else 1 + First(order, s)
  }

  function First(order: seq<Sym>, s: Sym): (k: nat)
    requires s in order
    ensures k < |order| && order[k] == s && s !in order[..k]
  {
    if order[0] == s then 0
    else
      var k := First(order[1..], s);
      assert order[..k + 1] == [order[0]] + order[1..][..k];
      1 + k
  }

  lemma CoveredAt(cfg: Config, s: Sym, t: Sym)
    requires Covered(cfg) && s in cfg.decls && t in Needs(cfg, s)
    ensures t in SeqSyms(CheckedExprs(cfg.decls[s])) || (t in cfg.decls && Needs(cfg, t) == {})
  {
    hide Needs, CheckedExprs, SeqSyms;
  }

  /** When the check of all symbols reports nothing, the dependency relation of the evaluation is acyclic,
      provided the unchecked dependencies lead to symbols that need nothing. */
  lemma CheckedIsRanked(cfg: Config, order: seq<Sym>)
    requires ChoiceFree(cfg) && Covered(cfg) && Closed(CheckGraph(cfg)) && Finished(CheckGraph(cfg), order)
    requires forall s :: s in cfg.decls ==> s in order
    ensures Ranked(cfg, RankOf(cfg, order))
  {
    hide Needs, CheckedExprs, SeqSyms, Covered;
    var g, rank := CheckGraph(cfg), RankOf(cfg, order);
    forall s | s in cfg.decls ensures RankedAt(cfg, rank, s) {
      forall t | t in Needs(cfg, s) ensures t in cfg.decls && rank[t] < rank[s] {
        CoveredAt(cfg, s, t);
        if t in SeqSyms(CheckedExprs(cfg.decls[s])) {
          assert Edge(g, s, t);
          var k := First(order, s);
          assert t in order[..k];
          assert First(order, t) < k;
        }
      }
    }
  }

  // ----- when a clean check is enough -----

  /** What the evaluation of a symbol reads beyond the expressions the check walks. */
  function UncheckedExprs(d: Decl): seq<Expr> { Given([d.dirDep]) + Bounds(d.ranges) }

  function Bounds(rs: seq<Range>): seq<Expr> {
    if rs == [] then [] else [Symbol(rs[0].lo), Symbol(rs[0].hi)] + Bounds(rs[1..])
  }

  function UncheckedGraph(cfg: Config): Graph { map s | s in cfg.decls :: UncheckedExprs(cfg.decls[s]) }

  function NeedGraph(cfg: Config): Graph {
    map s | s in cfg.decls :: CheckedExprs(cfg.decls[s]) + UncheckedExprs(cfg.decls[s])
  }

  lemma JoinedSyms(a: seq<Expr>, b: seq<Expr>)
    ensures SeqSyms(a + b) == SeqSyms(a) + SeqSyms(b)
  {
  }

  lemma OneSym(e: Expr)
    ensures SeqSyms([e]) == ExprSyms(e)
  {
    assert e in [e];
  }

  lemma {:induction false} GivenSyms(es: seq<Option<Expr>>)
    ensures SeqSyms(Given(es)) == PromptSyms(es)
  {
    if es == [] {
      assert PromptSyms(es) == {};
    } else {
      var first := if es[0].Some? then [es[0].value] else [];
      GivenSyms(es[1..]);
      JoinedSyms(first, Given(es[1..]));
      assert SeqSyms(first) == OptSyms(es[0]) by { if es[0].Some? { OneSym(es[0].value); } }
      PromptSymsSplit(es);
    }
  }

  lemma PromptSymsSplit(es: seq<Option<Expr>>)
    requires es != []
    ensures PromptSyms(es) == OptSyms(es[0]) + PromptSyms(es[1..])
  {
    assert es == [es[0]] + es[1..];
  }

  lemma OnePrompt(e: Option<Expr>)
    ensures SeqSyms(Given([e])) == OptSyms(e)
  {
    GivenSyms([e]);
    PromptSymsSplit([e]);
    assert PromptSyms([e][1..]) == {};
  }

  function AllDefaultSyms(ds: seq<Default>): set<Sym> {
    set p, s | p in ds && s in OptSyms(p.visible) + ExprSyms(p.value) :: s
  }

  lemma {:induction false} DefaultExprSyms(ds: seq<Default>)
    ensures SeqSyms(DefaultExprs(ds)) == AllDefaultSyms(ds)
  {
    if ds != [] {
      var g, v := Given([ds[0].visible]), [ds[0].value];
      DefaultExprSyms(ds[1..]);
      OnePrompt(ds[0].visible);
      OneSym(ds[0].value);
      JoinedSyms(g, v);
      JoinedSyms(g + v, DefaultExprs(ds[1..]));
      assert ds == [ds[0]] + ds[1..];
      assert AllDefaultSyms(ds) == OptSyms(ds[0].visible) + ExprSyms(ds[0].value) + AllDefaultSyms(ds[1..]);
    }
  }

  function AllRangeSyms(rs: seq<Range>): set<Sym> {
    set p, s | p in rs && s in OptSyms(p.visible) + {p.lo, p.hi} :: s
  }

  lemma {:induction false} RangeExprSyms(rs: seq<Range>)
    ensures SeqSyms(RangeExprs(rs)) + SeqSyms(Bounds(rs)) == AllRangeSyms(rs)
  {
    if rs != [] {
      var r := rs[0];
      RangeExprSyms(rs[1..]);
      OnePrompt(r.visible);
      JoinedSyms(Given([r.visible]), RangeExprs(rs[1..]));
      JoinedSyms([Symbol(r.lo), Symbol(r.hi)], Bounds(rs[1..]));
      JoinedSyms([Symbol(r.lo)], [Symbol(r.hi)]);
      OneSym(Symbol(r.lo));
      OneSym(Symbol(r.hi));
      assert [Symbol(r.lo)] + [Symbol(r.hi)] == [Symbol(r.lo), Symbol(r.hi)];
      assert rs == [r] + rs[1..];
      assert AllRangeSyms(rs) == OptSyms(r.visible) + {r.lo, r.hi} + AllRangeSyms(rs[1..]);
    }
  }

  lemma CheckedSyms(d: Decl)
    ensures SeqSyms(CheckedExprs(d)) ==
      OptSyms(d.revDep) + PromptSyms(d.prompts) + AllDefaultSyms(d.defaults) + SeqSyms(RangeExprs(d.ranges))
    ensures SeqSyms(UncheckedExprs(d)) == OptSyms(d.dirDep) + SeqSyms(Bounds(d.ranges))
  {
    hide SeqSyms;
    var g := [d.revDep] + d.prompts;
    GivenSyms(g);
    PromptSymsSplit(g);
    assert g[1..] == d.prompts;
    DefaultExprSyms(d.defaults);
    JoinedSyms(Given(g), DefaultExprs(d.defaults));
    JoinedSyms(Given(g) + DefaultExprs(d.defaults), RangeExprs(d.ranges));
    OnePrompt(d.dirDep);
    JoinedSyms(Given([d.dirDep]), Bounds(d.ranges));
  }

  /** Outside choices these are all the symbols an evaluation may read. */
  lemma NeedEdges(cfg: Config, s: Sym)
    requires ChoiceFree(cfg) && s in cfg.decls
    ensures SeqSyms(NeedGraph(cfg)[s]) == Needs(cfg, s)
    ensures SeqSyms(NeedGraph(cfg)[s]) == SeqSyms(CheckGraph(cfg)[s]) + SeqSyms(UncheckedGraph(cfg)[s])
  {
    var d := cfg.decls[s];
    hide SeqSyms, CheckedExprs, UncheckedExprs, PromptSyms, OptSyms;
    JoinedSyms(CheckedExprs(d), UncheckedExprs(d));
    CheckedSyms(d);
    RangeExprSyms(d.ranges);
    assert MemberSyms(cfg, s) == {};
    assert DefaultSyms(d) == AllDefaultSyms(d.defaults);
  }

  ghost predicate Reaches(g: Graph, s: Sym, t: Sym) {
    exists p :: p != [] && Path(g, p) && p[0] == s && p[|p| - 1] == t
  }

  lemma PathAppend(g: Graph, p: seq<Sym>, q: seq<Sym>)
    requires p != [] && q != [] && Path(g, p) && Path(g, q) && Edge(g, p[|p| - 1], q[0])
    ensures Path(g, p + q)
  {
    var r := p + q;
    forall i | 0 <= i < |r| - 1 ensures Edge(g, r[i], r[i + 1]) {
      if i < |p| - 1 {
        assert Edge(g, p[i], p[i + 1]);
      } else if i >= |p| {
        assert Edge(g, q[i - |p|], q[i - |p| + 1]);
      }
    }
  }

  lemma PathPart(g: Graph, p: seq<Sym>, i: nat, j: nat)
    requires Path(g, p) && i <= j <= |p|
    ensures Path(g, p[i..j])
  {
    forall k | 0 <= k < j - i - 1 ensures Edge(g, p[i..j][k], p[i..j][k + 1]) {
      assert Edge(g, p[i + k], p[i + k + 1]);
    }
  }

  /** The number of symbols a symbol leads to falls along the edges of a graph without cycles. */
  ghost function Reachable(g: Graph, s: Sym): set<Sym> {
    set t | t in g && exists u :: Edge(g, s, u) && Reaches(g, u, t)
  }

  lemma ReachableFalls(g: Graph, s: Sym, t: Sym)
    requires Closed(g) && Edge(g, s, t) && forall p :: !Cycle(g, p)
    ensures |Reachable(g, t)| < |Reachable(g, s)|
  {
    assert Path(g, [t]);
    assert Reaches(g, t, t);
    forall v | v in Reachable(g, t) ensures v in Reachable(g, s) && v != t {
      var u :| Edge(g, t, u) && Reaches(g, u, v);
      var p :| p != [] && Path(g, p) && p[0] == u && p[|p| - 1] == v;
      PathAppend(g, [t], p);
      assert ([t] + p)[|p|] == v;
      if v == t { assert Cycle(g, p); }
    }
    Subset(Reachable(g, t), Reachable(g, s) - {t});
  }

  lemma Subset(a: set<Sym>, b: set<Sym>)
    requires a <= b
    ensures |a| <= |b|
  {
    assert b == a + (b - a);
  }

  ghost function DepthOf(g: Graph): map<Sym, nat> { map s | s in g :: |Reachable(g, s)| }

  lemma RanksDescend(cfg: Config, rank: map<Sym, nat>, p: seq<Sym>)
    requires ChoiceFree(cfg) && Ranked(cfg, rank) && p != [] && Path(NeedGraph(cfg), p) && p[0] in cfg.decls
    ensures p[|p| - 1] in cfg.decls && rank[p[|p| - 1]] <= rank[p[0]]
    decreases |p|
  {
    hide Needs, NeedGraph, SeqSyms;
    if |p| > 1 {
      var n := |p| - 1;
      PathPart(NeedGraph(cfg), p, 0, n);
      RanksDescend(cfg, rank, p[..n]);
      assert Edge(NeedGraph(cfg), p[n - 1], p[n]);
      NeedRank(cfg, rank, p[n - 1], p[n]);
    }
  }

  lemma NeedRank(cfg: Config, rank: map<Sym, nat>, s: Sym, t: Sym)
    requires ChoiceFree(cfg) && Ranked(cfg, rank) && Edge(NeedGraph(cfg), s, t)
    ensures s in cfg.decls && t in cfg.decls && rank[t] < rank[s]
  {
    hide Needs, CheckedExprs, UncheckedExprs;
    NeedEdges(cfg, s);
    assert RankedAt(cfg, rank, s);
  }

  /** A cycle of needs that no cycle of the check shows runs through an unchecked need. */
  lemma CycleUnchecked(cfg: Config, p: seq<Sym>) returns (s: Sym, t: Sym)
    requires ChoiceFree(cfg) && Cycle(NeedGraph(cfg), p) && !Cycle(CheckGraph(cfg), p)
    ensures Edge(UncheckedGraph(cfg), s, t) && Reaches(NeedGraph(cfg), t, s)
  {
    hide NeedGraph, CheckGraph, UncheckedGraph, SeqSyms;
    var g, n := NeedGraph(cfg), |p| - 1;
    if !Edge(CheckGraph(cfg), p[n], p[0]) {
      s, t := p[n], p[0];
      NeedEdge(cfg, s, t);
    } else {
      var i :| 0 <= i < n && !Edge(CheckGraph(cfg), p[i], p[i + 1]);
      s, t := p[i], p[i + 1];
      assert Edge(g, s, t);
      NeedEdge(cfg, s, t);
      PathPart(g, p, 0, i + 1);
      PathPart(g, p, i + 1, |p|);
      PathAppend(g, p[i + 1..], p[..i + 1]);
      assert (p[i + 1..] + p[..i + 1])[n] == s;
    }
  }

  lemma NeedEdge(cfg: Config, s: Sym, t: Sym)
    requires ChoiceFree(cfg) && Edge(NeedGraph(cfg), s, t)
    ensures Edge(CheckGraph(cfg), s, t) || Edge(UncheckedGraph(cfg), s, t)
  {
    NeedEdges(cfg, s);
  }

  lemma AcyclicIsRanked(cfg: Config)
    requires ChoiceFree(cfg) && Closed(NeedGraph(cfg)) && forall p :: !Cycle(NeedGraph(cfg), p)
    ensures Ranked(cfg, DepthOf(NeedGraph(cfg)))
  {
    hide Needs, CheckedExprs, UncheckedExprs, SeqSyms, Reachable;
    var g := NeedGraph(cfg);
    forall s | s in cfg.decls ensures RankedAt(cfg, DepthOf(g), s) {
      NeedEdges(cfg, s);
      forall t | t in Needs(cfg, s) ensures t in cfg.decls && DepthOf(g)[t] < DepthOf(g)[s] {
        assert Edge(g, s, t);
        ReachableFalls(g, s, t);
      }
    }
  }

  /** After a clean check of symbols outside choices the values are well defined exactly if no symbol
      comes back to itself through a range bound or direct dependency of its own. */
  lemma RankedExactly(cfg: Config)
    requires ChoiceFree(cfg) && Closed(NeedGraph(cfg)) && forall p :: !Cycle(CheckGraph(cfg), p)
    ensures (exists rank :: Ranked(cfg, rank)) <==>
      forall s, t :: Edge(UncheckedGraph(cfg), s, t) ==> !Reaches(NeedGraph(cfg), t, s)
  {
    var g := NeedGraph(cfg);
    hide NeedGraph, CheckGraph, UncheckedGraph, Ranked;
    if rank :| Ranked(cfg, rank) {
      forall s, t | Edge(UncheckedGraph(cfg), s, t) ensures !Reaches(g, t, s) {
        UncheckedNeed(cfg, s, t);
        NeedRank(cfg, rank, s, t);
        if Reaches(g, t, s) {
          var p :| p != [] && Path(g, p) && p[0] == t && p[|p| - 1] == s;
          RanksDescend(cfg, rank, p);
        }
      }
    }
    if forall s, t :: Edge(UncheckedGraph(cfg), s, t) ==> !Reaches(g, t, s) {
      forall p ensures !Cycle(g, p) {
        if Cycle(g, p) {
          var s, t := CycleUnchecked(cfg, p);
        }
      }
      AcyclicIsRanked(cfg);
    }
  }

  lemma UncheckedNeed(cfg: Config, s: Sym, t: Sym)
    requires ChoiceFree(cfg) && Edge(UncheckedGraph(cfg), s, t)
    ensures Edge(NeedGraph(cfg), s, t)
  {
    NeedEdges(cfg, s);
  }

  /** Without that the conclusion fails: a number whose range is bounded by itself passes the check, and
      no ranking exists. */
  lemma UncheckedRange(cfg: Config, s: Sym)
    requires cfg.decls == map[s := Decl("N", [], [], [Range(None, s, s)], None, None, [], None)]
    ensures forall p :: !Cycle(CheckGraph(cfg), p)
    ensures Edge(UncheckedGraph(cfg), s, s) && s in Needs(cfg, s)
    ensures forall rank: map<Sym, nat> :: !Ranked(cfg, rank)
  {
    var d, r := cfg.decls[s], cfg.decls[s].ranges[0];
    var none: seq<Option<Expr>> := [None];
    assert none[1..] == [] && Given(none) == [];
    assert [r.visible] == none && [d.revDep] + d.prompts == none;
    assert d.ranges[1..] == [] && RangeExprs(d.ranges) == [];
    assert CheckedExprs(d) == [];
    assert Bounds(d.ranges) == [Symbol(s), Symbol(s)] + Bounds(d.ranges[1..]);
    assert Symbol(s) in UncheckedExprs(d) && s in ExprSyms(Symbol(s));
    assert s in OptSyms(r.visible) + {r.lo, r.hi};
    assert s in RangeSyms(cfg.decls[s]);
    forall rank: map<Sym, nat> ensures !Ranked(cfg, rank) {
      if rank.Keys == cfg.decls.Keys { SelfNeedUnranked(cfg, rank, s); }
    }
  }

  lemma SelfNeedUnranked(cfg: Config, rank: map<Sym, nat>, s: Sym)
    requires s in cfg.decls && s in Needs(cfg, s) && rank.Keys == cfg.decls.Keys
    ensures !RankedAt(cfg, rank, s)
  {
  }
}
