/** The memory of the evaluator: which states agree with the recursive definition, and what an
    evaluation may change. */
module SymbolState {
  import opened Options
  import opened Tristates
  import opened Exprs
  import opened SymbolSpec

  /** SYMBOL_VALID, SYMBOL_DEF_USER and the computed fields. */
  datatype State = State(valid: bool, hasUser: bool, v: Value)

  type Memory = map<Sym, State>

  /** Fields that are never written keep their initial values; only a choice ever loses its user value,
      and only when it is evaluated. */
  ghost predicate SlotOk(cfg: Config, s: Sym, x: State)
    requires s in cfg.decls
  {
    && (!Typed(s) ==> x.v.visible == NO && x.v.rev == NO)
    && (cfg.Owned(s) ==> x.v.rev == NO)
    && (x.hasUser ==> s in cfg.hasUser)
    && (s.Predefined() ==> x.valid && x.v == PredefinedValue(s))
    && (s in cfg.hasUser && (!x.valid || !cfg.decls[s].Choice()) ==> x.hasUser)
  }

  ghost predicate MemoryOk(cfg: Config, rank: map<Sym, nat>, st: Memory) {
    && WellFormed(cfg) && Ranked(cfg, rank)
    && st.Keys == cfg.decls.Keys == rank.Keys
    && forall s :: s in st ==> SlotOk(cfg, s, st[s])
  }

  /** Below rank k, a valid symbol has its specified value and flag, and a valid member has a valid choice. */
  ghost predicate Agrees(cfg: Config, rank: map<Sym, nat>, st: Memory, k: nat)
    requires MemoryOk(cfg, rank, st)
  {
    forall s :: s in st && rank[s] < k && st[s].valid ==>
      && st[s].v == Spec(cfg, rank, s) && (st[s].hasUser <==> FlagKept(cfg, rank, s))
      && (cfg.Owned(s) ==> OwnerValid(cfg, st, s))
  }

  ghost predicate OwnerValid(cfg: Config, st: Memory, s: Sym)
    requires s in cfg.decls
  {
    cfg.decls[s].owner.Some? && cfg.decls[s].owner.value in st && st[cfg.decls[s].owner.value].valid
  }

  predicate SameButVisible(x: State, y: State) { y == x.(v := x.v.(visible := y.v.visible)) }

  /** What an evaluation of symbols below rank k changes: nothing from rank k on except in x, and except
      that a choice evaluated on the way stores the visibility of its members. Nothing becomes invalid. */
  ghost predicate Frame(cfg: Config, rank: map<Sym, nat>, a: Memory, b: Memory, k: nat, x: set<Sym>)
    requires a.Keys == b.Keys == cfg.decls.Keys == rank.Keys
  {
    forall s :: s in a ==>
      && (a[s].valid ==> b[s].valid)
      && (rank[s] >= k && s !in x ==> b[s] == a[s] || (SameButVisible(a[s], b[s]) && cfg.Owned(s) && !OwnerValid(cfg, a, s)))
  }

  lemma FrameTrans(cfg: Config, rank: map<Sym, nat>, a: Memory, b: Memory, c: Memory, k: nat, j: nat,
                   x: set<Sym>, y: set<Sym>)
    requires a.Keys == b.Keys == c.Keys == cfg.decls.Keys == rank.Keys && j <= k && y <= x
    requires WellFormed(cfg)
    requires Frame(cfg, rank, a, b, k, x) && Frame(cfg, rank, b, c, j, y)
    ensures Frame(cfg, rank, a, c, k, x)
  {
    forall s | s in a && cfg.Owned(s) && !OwnerValid(cfg, b, s) ensures !OwnerValid(cfg, a, s) {
      assert DeclOk(cfg, s);
    }
  }

  /** Agreement from rank j to k survives an evaluation below rank j. */
  lemma AgreesLifts(cfg: Config, rank: map<Sym, nat>, a: Memory, b: Memory, j: nat, k: nat)
    requires MemoryOk(cfg, rank, a) && MemoryOk(cfg, rank, b) && j <= k
    requires Agrees(cfg, rank, a, k) && Agrees(cfg, rank, b, j) && Frame(cfg, rank, a, b, j, {})
    ensures Agrees(cfg, rank, b, k)
  {
    hide Spec, WellFormed, Ranked, SlotOk;
    forall s | s in b && j <= rank[s] < k && b[s].valid
      ensures b[s].v == Spec(cfg, rank, s) && (b[s].hasUser <==> FlagKept(cfg, rank, s))
      ensures cfg.Owned(s) ==> OwnerValid(cfg, b, s)
    {
      assert a[s].valid;
    }
  }

  // ----- environments -----

  ghost function ValsBelow(cfg: Config, rank: map<Sym, nat>, k: nat): Sym -> Value
    requires WellFormed(cfg) && Ranked(cfg, rank)
  {
    (t: Sym) => if t in cfg.decls && rank[t] < k then Spec(cfg, rank, t) else BaseValue()
  }

  ghost function EnvBelow(cfg: Config, rank: map<Sym, nat>, k: nat): Env
    requires WellFormed(cfg) && Ranked(cfg, rank)
  {
    EnvOf(cfg, ValsBelow(cfg, rank, k))
  }

  /** The environment in which a choice that is being decided reads as y. */
  ghost function EnvAt(cfg: Config, rank: map<Sym, nat>, k: nat, open: Option<Sym>): Env
    requires WellFormed(cfg) && Ranked(cfg, rank)
  {
    if open.None? then EnvBelow(cfg, rank, k) else WithChoice(open.value, EnvBelow(cfg, rank, k))
  }

  /** Whether a symbol with a user value still has it after being evaluated: a choice that is y loses it
      if some visible member has none. */
  ghost predicate FlagKept(cfg: Config, rank: map<Sym, nat>, s: Sym)
    requires WellFormed(cfg) && Ranked(cfg, rank) && s in cfg.decls
  {
    s in cfg.hasUser && (cfg.decls[s].Choice() && Spec(cfg, rank, s).tri == YES ==> MembersKeep(cfg, rank, s))
  }

  ghost predicate MembersKeep(cfg: Config, rank: map<Sym, nat>, c: Sym)
    requires WellFormed(cfg) && Ranked(cfg, rank) && c in cfg.decls
  {
    forall m :: m in cfg.decls[c].members && m in cfg.decls ==>
      Visible(cfg, m, EnvAt(cfg, rank, rank[c], Some(c))) != NO ==> m in cfg.hasUser
  }

  /** No member being visible, there is nothing to lose. */
  lemma FlagDecided(cfg: Config, rank: map<Sym, nat>, s: Sym, pick: Option<Sym>)
    requires WellFormed(cfg) && Ranked(cfg, rank) && s in cfg.decls && DeclOk(cfg, s) && cfg.decls[s].Choice()
    requires pick == Pick(cfg, s, EnvAt(cfg, rank, rank[s], Some(s)))
    requires Spec(cfg, rank, s).tri == if pick.Some? then YES else NO
    ensures FlagKept(cfg, rank, s) <==> s in cfg.hasUser && MembersKeep(cfg, rank, s)
  {
    hide Spec, Ranked, WellFormed, EnvAt, Visible, Needs;
  }

  lemma {:induction false} EvalAgrees(e: Expr, a: Env, b: Env)
    requires forall s :: s in ExprSyms(e) ==> a.tri(s) == b.tri(s) && a.str(s) == b.str(s)
    ensures Eval(e, a) == Eval(e, b)
  {
    match e
    case Not(x) => EvalAgrees(x, a, b);
    case And(x, y) => EvalAgrees(x, a, b); EvalAgrees(y, a, b);
    case Or(x, y) => EvalAgrees(x, a, b); EvalAgrees(y, a, b);
    case _ =>
  }

  lemma SpecUnfolds(cfg: Config, rank: map<Sym, nat>, s: Sym)
    requires WellFormed(cfg) && Ranked(cfg, rank) && s in cfg.decls
    ensures Spec(cfg, rank, s) ==
      SymbolValue(cfg, s, s in cfg.hasUser, ValsBelow(cfg, rank, rank[s]), EnvBelow(cfg, rank, rank[s]))
  {
  }

  /** Whether the evaluation of s marks it as to be written. */
  ghost predicate Writes(cfg: Config, rank: map<Sym, nat>, s: Sym)
    requires WellFormed(cfg) && Ranked(cfg, rank) && s in cfg.decls
  {
    Marks(cfg, s, Spec(cfg, rank, s).visible, Spec(cfg, rank, s).rev, EnvBelow(cfg, rank, rank[s]))
  }

  // ----- evaluations in sequence -----

  /** b is reached from a by evaluating symbols below rank k. */
  ghost predicate Reached(cfg: Config, rank: map<Sym, nat>, a: Memory, b: Memory, k: nat) {
    && MemoryOk(cfg, rank, a) && MemoryOk(cfg, rank, b)
    && Agrees(cfg, rank, b, k)
    && Frame(cfg, rank, a, b, k, {})
  }

  lemma Shape(cfg: Config, rank: map<Sym, nat>, st: Memory)
    requires MemoryOk(cfg, rank, st)
    ensures WellFormed(cfg) && Ranked(cfg, rank) && st.Keys == cfg.decls.Keys == rank.Keys
  {
  }

  lemma ReachedShape(cfg: Config, rank: map<Sym, nat>, a: Memory, b: Memory, k: nat)
    requires Reached(cfg, rank, a, b, k)
    ensures WellFormed(cfg) && Ranked(cfg, rank) && a.Keys == b.Keys == cfg.decls.Keys == rank.Keys
    ensures MemoryOk(cfg, rank, b) && Agrees(cfg, rank, b, k)
  {
  }

  lemma ReachedRefl(cfg: Config, rank: map<Sym, nat>, a: Memory, k: nat)
    requires MemoryOk(cfg, rank, a) && Agrees(cfg, rank, a, k)
    ensures Reached(cfg, rank, a, a, k)
  {
    hide MemoryOk, Agrees;
  }

  lemma ReachedTrans(cfg: Config, rank: map<Sym, nat>, a: Memory, b: Memory, c: Memory, k: nat)
    requires Reached(cfg, rank, a, b, k) && Reached(cfg, rank, b, c, k)
    ensures Reached(cfg, rank, a, c, k)
  {
    hide Agrees, Frame, SlotOk;
    FrameTrans(cfg, rank, a, b, c, k, k, {}, {});
  }

  /** Evaluating one symbol of rank j, seen from rank k above it. */
  lemma ReachedLifts(cfg: Config, rank: map<Sym, nat>, a: Memory, b: Memory, j: nat, k: nat)
    requires MemoryOk(cfg, rank, a) && Agrees(cfg, rank, a, k) && j <= k
    requires Reached(cfg, rank, a, b, j)
    ensures Reached(cfg, rank, a, b, k)
  {
    hide SlotOk, Spec, WellFormed, Ranked;
    AgreesLifts(cfg, rank, a, b, j, k);
  }

  /** A choice that is being decided: valid, and provisionally y. */
  predicate IsOpen(cfg: Config, c: Sym, x: State)
    requires c in cfg.decls
  {
    cfg.decls[c].Choice() && x.valid && x.v.tri == YES
  }

  /** The symbols that may be evaluated below rank k while the choice open, if any, is being decided. */
  ghost predicate Readable(cfg: Config, rank: map<Sym, nat>, st: Memory, syms: set<Sym>, k: nat, open: Option<Sym>)
    requires st.Keys == cfg.decls.Keys == rank.Keys
  {
    && (open.Some? ==> open.value in st && rank[open.value] == k && IsOpen(cfg, open.value, st[open.value]))
    && forall t :: t in syms ==> t in st && (rank[t] < k || open == Some(t))
  }

  lemma ReadableStays(cfg: Config, rank: map<Sym, nat>, a: Memory, b: Memory, syms: set<Sym>, k: nat, open: Option<Sym>)
    requires Reached(cfg, rank, a, b, k) && Readable(cfg, rank, a, syms, k, open)
    ensures MemoryOk(cfg, rank, b) && Agrees(cfg, rank, b, k)
    ensures Readable(cfg, rank, b, syms, k, open)
  {
    hide Agrees, SlotOk, Ranked, Needs;
    if open.Some? { assert DeclOk(cfg, open.value); }
  }

  /** A valid readable symbol holds the values the environment gives it. */
  lemma ReadsRight(cfg: Config, rank: map<Sym, nat>, st: Memory, s: Sym, syms: set<Sym>, k: nat, open: Option<Sym>)
    requires MemoryOk(cfg, rank, st) && Agrees(cfg, rank, st, k) && Readable(cfg, rank, st, syms, k, open)
    requires s in syms && st[s].valid
    ensures st[s].v.tri == EnvAt(cfg, rank, k, open).tri(s)
    ensures StringValue(cfg, s, st[s].v) == EnvAt(cfg, rank, k, open).str(s)
    ensures rank[s] < k ==> st[s].v == Spec(cfg, rank, s) == ValsBelow(cfg, rank, k)(s)
  {
    hide Spec, SlotOk, Ranked, Needs;
    if open == Some(s) { assert DeclOk(cfg, s); }
  }

  // ----- storing into one symbol -----

  /** Storing into a symbol of rank k or above does not disturb what lies below. */
  lemma Store(cfg: Config, rank: map<Sym, nat>, a: Memory, s: Sym, x: State, k: nat)
    requires MemoryOk(cfg, rank, a) && Agrees(cfg, rank, a, k) && s in a && rank[s] >= k
    requires SlotOk(cfg, s, x) && (a[s].valid ==> x.valid)
    ensures MemoryOk(cfg, rank, a[s := x]) && Agrees(cfg, rank, a[s := x], k)
    ensures Frame(cfg, rank, a, a[s := x], k, {s})
  {
    hide Spec, SlotOk, WellFormed, Ranked;
  }

  /** b is reached from a, and s has been stored into on the way. */
  ghost predicate Storing(cfg: Config, rank: map<Sym, nat>, a: Memory, b: Memory, k: nat, s: Sym) {
    && MemoryOk(cfg, rank, a) && MemoryOk(cfg, rank, b)
    && Agrees(cfg, rank, b, k)
    && Frame(cfg, rank, a, b, k, {s})
  }

  lemma StoringStore(cfg: Config, rank: map<Sym, nat>, a: Memory, b: Memory, k: nat, s: Sym, x: State)
    requires Storing(cfg, rank, a, b, k, s) && s in b && rank[s] >= k
    requires SlotOk(cfg, s, x) && (b[s].valid ==> x.valid)
    ensures Storing(cfg, rank, a, b[s := x], k, s)
  {
    hide Agrees, Frame, SlotOk, WellFormed, Ranked;
    Store(cfg, rank, b, s, x, k);
    FrameTrans(cfg, rank, a, b, b[s := x], k, k, {s}, {s});
  }

  lemma StoringReached(cfg: Config, rank: map<Sym, nat>, a: Memory, b: Memory, c: Memory, k: nat, s: Sym)
    requires Storing(cfg, rank, a, b, k, s) && Reached(cfg, rank, b, c, k)
    ensures Storing(cfg, rank, a, c, k, s)
  {
    hide Agrees, Frame, SlotOk, WellFormed, Ranked;
    FrameTrans(cfg, rank, a, b, c, k, k, {s}, {});
  }

  /** Evaluations below rank k leave a symbol from k on alone, but for the visibility of a member whose
      choice was not valid. */
  lemma ReachedKeeps(cfg: Config, rank: map<Sym, nat>, a: Memory, b: Memory, k: nat, s: Sym)
    requires Reached(cfg, rank, a, b, k) && s in a && rank[s] >= k
    ensures s in b && SameButVisible(a[s], b[s])
    ensures !cfg.Owned(s) || OwnerValid(cfg, a, s) ==> b[s] == a[s]
  {
    hide Agrees, SlotOk, WellFormed, Ranked;
  }

  /** The end of the evaluation of s. */
  lemma Finish(cfg: Config, rank: map<Sym, nat>, a: Memory, b: Memory, s: Sym)
    requires s in cfg.decls && MemoryOk(cfg, rank, a)
    requires Agrees(cfg, rank, a, rank[s] + 1) && Storing(cfg, rank, a, b, rank[s], s)
    requires b[s].valid && b[s].v == Spec(cfg, rank, s) && (cfg.Owned(s) ==> OwnerValid(cfg, b, s))
    requires b[s].hasUser <==> FlagKept(cfg, rank, s)
    ensures Reached(cfg, rank, a, b, rank[s] + 1)
  {
    hide Spec, SlotOk, WellFormed, Ranked, FlagKept;
    forall t | t in b && rank[t] == rank[s] && t != s && b[t].valid
      ensures b[t].v == Spec(cfg, rank, t) && (b[t].hasUser <==> FlagKept(cfg, rank, t))
      ensures cfg.Owned(t) ==> OwnerValid(cfg, b, t)
    {
    }
  }

  // ----- steps of the evaluator -----

  ghost predicate AllValid(st: Memory, syms: set<Sym>) {
    forall t :: t in syms ==> t in st && st[t].valid
  }

  lemma ReadableSub(cfg: Config, rank: map<Sym, nat>, st: Memory, syms: set<Sym>, sub: set<Sym>, k: nat, open: Option<Sym>)
    requires st.Keys == cfg.decls.Keys == rank.Keys && Readable(cfg, rank, st, syms, k, open) && sub <= syms
    ensures Readable(cfg, rank, st, sub, k, open)
  {
  }

  lemma ReadableParts(cfg: Config, rank: map<Sym, nat>, st: Memory, e: Expr, k: nat, open: Option<Sym>)
    requires MemoryOk(cfg, rank, st) && Readable(cfg, rank, st, ExprSyms(e), k, open)
    ensures e.Symbol? ==> Readable(cfg, rank, st, {e.sym}, k, open)
    ensures e.Not? ==> Readable(cfg, rank, st, ExprSyms(e.e), k, open)
    ensures e.And? || e.Or? ==> Readable(cfg, rank, st, ExprSyms(e.left), k, open)
    ensures e.And? || e.Or? ==> Readable(cfg, rank, st, ExprSyms(e.right), k, open)
    ensures e.Equal? || e.Unequal? ==>
              Readable(cfg, rank, st, {e.lsym}, k, open) && Readable(cfg, rank, st, {e.rsym}, k, open)
  {
    hide MemoryOk;
  }

  /** The value of an expression from those of its parts, and which symbols are valid afterwards. */
  lemma ValidParts(cfg: Config, rank: map<Sym, nat>, e: Expr, a: Memory, b: Memory, k: nat)
    requires Reached(cfg, rank, a, b, k)
    ensures e.Symbol? && e.sym in b && b[e.sym].valid ==> AllValid(b, ExprSyms(e))
    ensures e.Not? && AllValid(b, ExprSyms(e.e)) ==> AllValid(b, ExprSyms(e))
    ensures (e.And? || e.Or?) && AllValid(a, ExprSyms(e.left)) && AllValid(b, ExprSyms(e.right)) ==>
              AllValid(b, ExprSyms(e))
    ensures (e.Equal? || e.Unequal?) && e.lsym in a && a[e.lsym].valid ==> e.lsym in b && b[e.lsym].valid
    ensures (e.Equal? || e.Unequal?) && e.lsym in a && a[e.lsym].valid && e.rsym in b && b[e.rsym].valid ==>
              AllValid(b, ExprSyms(e))
  {
    hide Agrees, SlotOk, WellFormed, Ranked;
  }

  lemma EvalStep(e: Expr, env: Env)
    ensures match e
      case Symbol(s) => Eval(e, env) == env.tri(s)
      case Not(a) => Eval(e, env) == Not3(Eval(a, env))
      case And(a, b) => Eval(e, env) == And3(Eval(a, env), Eval(b, env))
      case Or(a, b) => Eval(e, env) == Or3(Eval(a, env), Eval(b, env))
      case Equal(s, t) => Eval(e, env) == if env.str(s) == env.str(t) then YES else NO
      case Unequal(s, t) => Eval(e, env) == if env.str(s) == env.str(t) then NO else YES
  {
  }

  lemma BeforeSymbol(cfg: Config, rank: map<Sym, nat>, st: Memory, s: Sym, k: nat, open: Option<Sym>)
    requires MemoryOk(cfg, rank, st) && Agrees(cfg, rank, st, k) && Readable(cfg, rank, st, {s}, k, open)
    ensures s in st && s in rank && rank[s] <= k && (rank[s] == k ==> st[s].valid)
    ensures !st[s].valid ==> Agrees(cfg, rank, st, rank[s] + 1)
  {
    hide Spec, SlotOk, WellFormed, Ranked;
  }

  lemma AfterSymbol(cfg: Config, rank: map<Sym, nat>, a: Memory, b: Memory, s: Sym, k: nat, open: Option<Sym>)
    requires MemoryOk(cfg, rank, a) && Agrees(cfg, rank, a, k) && Readable(cfg, rank, a, {s}, k, open)
    requires s in a && s in rank
    requires if a[s].valid then b == a else Reached(cfg, rank, a, b, rank[s] + 1) && s in b && b[s].valid
    ensures Reached(cfg, rank, a, b, k) && s in b && b[s].valid
    ensures b[s].v.tri == EnvAt(cfg, rank, k, open).tri(s)
    ensures StringValue(cfg, s, b[s].v) == EnvAt(cfg, rank, k, open).str(s)
    ensures rank[s] < k ==> b[s].v == ValsBelow(cfg, rank, k)(s)
  {
    hide Spec, SlotOk, WellFormed, Ranked, Agrees, Frame;
    if a[s].valid {
      ReachedRefl(cfg, rank, a, k);
    } else {
      ReachedLifts(cfg, rank, a, b, rank[s] + 1, k);
    }
    ReadableStays(cfg, rank, a, b, {s}, k, open);
    ReadsRight(cfg, rank, b, s, {s}, k, open);
  }

  // ----- the prompt loop -----

  lemma PromptsStart(st: Memory, ps: seq<Option<Expr>>, env: Env)
    ensures PromptMax(ps[..0], env) == NO && AllValid(st, PromptSyms(ps[..0]))
  {
  }

  lemma PromptsEnd(ps: seq<Option<Expr>>)
    ensures ps[..|ps|] == ps
  {
  }

  lemma OptSymsSome(e: Option<Expr>)
    ensures e.Some? ==> OptSyms(e) == ExprSyms(e.value)
  {
  }

  lemma PromptPart(ps: seq<Option<Expr>>, i: nat)
    requires i < |ps|
    ensures OptSyms(ps[i]) <= PromptSyms(ps)
  {
  }

  lemma PromptStep(cfg: Config, rank: map<Sym, nat>, a: Memory, b: Memory, ps: seq<Option<Expr>>, i: nat, env: Env, k: nat)
    requires Reached(cfg, rank, a, b, k) && i < |ps|
    requires AllValid(a, PromptSyms(ps[..i])) && AllValid(b, OptSyms(ps[i]))
    ensures AllValid(b, PromptSyms(ps[..i + 1]))
    ensures PromptMax(ps[..i + 1], env) == Or3(PromptMax(ps[..i], env), EvalOpt(ps[i], env))
  {
    hide Agrees, SlotOk, WellFormed, Ranked;
    assert ps[..i + 1] == ps[..i] + [ps[i]];
    assert ps[..i + 1][..i] == ps[..i];
  }

  // ----- visibility -----

  /** What sym_calc_visibility reads. */
  function VisibilitySyms(d: Decl): set<Sym> {
    PromptSyms(d.prompts) + (if d.owner.Some? then {} else OptSyms(d.dirDep) + OptSyms(d.revDep))
  }

  /** What sym_calc_visibility stores in its symbol. */
  function WithVisibility(cfg: Config, s: Sym, x: State, env: Env): State
    requires s in cfg.decls
  {
    var visible := Visible(cfg, s, env);
    x.(v := x.v.(visible := visible, rev := if cfg.Owned(s) then x.v.rev else Selected(cfg, s, visible, env)))
  }

  lemma ReadableVisibility(cfg: Config, rank: map<Sym, nat>, st: Memory, s: Sym, k: nat, open: Option<Sym>)
    requires MemoryOk(cfg, rank, st) && s in cfg.decls
    requires Readable(cfg, rank, st, VisibilitySyms(cfg.decls[s]), k, open)
    ensures var d := cfg.decls[s];
      && Readable(cfg, rank, st, PromptSyms(d.prompts), k, open)
      && (d.owner.None? ==> Readable(cfg, rank, st, OptSyms(d.dirDep), k, open))
      && (d.owner.None? ==> Readable(cfg, rank, st, OptSyms(d.revDep), k, open))
  {
    hide MemoryOk;
    Shape(cfg, rank, st);
  }

  lemma ReadableStores(cfg: Config, rank: map<Sym, nat>, a: Memory, b: Memory, s: Sym, syms: set<Sym>, k: nat, open: Option<Sym>)
    requires Storing(cfg, rank, a, b, k, s) && Readable(cfg, rank, a, syms, k, open) && open != Some(s)
    ensures Readable(cfg, rank, b, syms, k, open) && MemoryOk(cfg, rank, b) && Agrees(cfg, rank, b, k)
  {
    hide Agrees, SlotOk, Ranked, Needs;
    if open.Some? { assert DeclOk(cfg, open.value); }
  }

  lemma SlotWrite(cfg: Config, s: Sym, x: State, y: State)
    requires s in cfg.decls && SlotOk(cfg, s, x) && Typed(s) && y.valid == x.valid && y.hasUser == x.hasUser
    requires cfg.Owned(s) ==> y.v.rev == x.v.rev
    ensures SlotOk(cfg, s, y)
  {
  }

  /** Storing the visibility after the prompts have been evaluated. */
  lemma VisibleStored(cfg: Config, rank: map<Sym, nat>, a: Memory, b: Memory, k: nat, s: Sym, tri: Tristate)
    requires Reached(cfg, rank, a, b, k) && s in a && s in rank && rank[s] >= k && Typed(s)
    ensures s in b
    ensures var c := b[s := b[s].(v := b[s].v.(visible := tri))];
      && Storing(cfg, rank, a, c, k, s) && MemoryOk(cfg, rank, c) && Agrees(cfg, rank, c, k)
      && c[s] == a[s].(v := a[s].v.(visible := tri))
      && forall syms: set<Sym> :: AllValid(b, syms) ==> AllValid(c, syms)
  {
    hide Agrees, Frame, SlotOk, WellFormed, Ranked;
    var x := b[s].(v := b[s].v.(visible := tri));
    ReachedKeeps(cfg, rank, a, b, k, s);
    SlotWrite(cfg, s, b[s], x);
    Store(cfg, rank, b, s, x, k);
    FrameWiden(cfg, rank, a, b, k, s);
    StoringStore(cfg, rank, a, b, k, s, x);
  }

  lemma FrameWiden(cfg: Config, rank: map<Sym, nat>, a: Memory, b: Memory, k: nat, s: Sym)
    requires Reached(cfg, rank, a, b, k)
    ensures Storing(cfg, rank, a, b, k, s)
  {
    hide Agrees, SlotOk, WellFormed, Ranked;
  }

  /** Storing rev_dep.tri, and in general any other fields, of a symbol that is no member. */
  lemma FieldsStored(cfg: Config, rank: map<Sym, nat>, a: Memory, b: Memory, c: Memory, k: nat, s: Sym, v: Value)
    requires Storing(cfg, rank, a, b, k, s) && Reached(cfg, rank, b, c, k)
    requires s in a && s in rank && rank[s] >= k && Typed(s)
    requires s in c && s in cfg.decls && (cfg.Owned(s) ==> v.rev == c[s].v.rev)
    ensures var d := c[s := c[s].(v := v)];
      && Storing(cfg, rank, a, d, k, s) && MemoryOk(cfg, rank, d) && Agrees(cfg, rank, d, k)
      && d[s] == b[s].(v := v)
      && forall syms: set<Sym> :: AllValid(c, syms) ==> AllValid(d, syms)
  {
    hide Agrees, Frame, SlotOk, WellFormed, Ranked;
    var x := c[s].(v := v);
    ReachedKeeps(cfg, rank, b, c, k, s);
    SlotWrite(cfg, s, c[s], x);
    StoringReached(cfg, rank, a, b, c, k, s);
    StoringStore(cfg, rank, a, c, k, s, x);
  }

  lemma StoringShape(cfg: Config, rank: map<Sym, nat>, a: Memory, b: Memory, k: nat, s: Sym)
    requires Storing(cfg, rank, a, b, k, s)
    ensures WellFormed(cfg) && Ranked(cfg, rank) && a.Keys == b.Keys == cfg.decls.Keys == rank.Keys
    ensures MemoryOk(cfg, rank, b) && Agrees(cfg, rank, b, k)
  {
  }

  lemma ValidStays(cfg: Config, rank: map<Sym, nat>, a: Memory, b: Memory, k: nat, syms: set<Sym>)
    requires Reached(cfg, rank, a, b, k) && AllValid(a, syms)
    ensures AllValid(b, syms)
  {
    hide Agrees, SlotOk, WellFormed, Ranked;
  }

  // ----- defaults and ranges -----

  /** What the search for a default, or for the default of a choice, reads. */
  function ConditionSyms(ds: seq<Default>): set<Sym> { set p, s | p in ds && s in OptSyms(p.visible) :: s }

  function RangeConditionSyms(rs: seq<Range>): set<Sym> { set p, s | p in rs && s in OptSyms(p.visible) :: s }

  lemma DefaultPart(cfg: Config, rank: map<Sym, nat>, st: Memory, ds: seq<Default>, i: nat, k: nat, open: Option<Sym>)
    requires MemoryOk(cfg, rank, st) && Readable(cfg, rank, st, ConditionSyms(ds), k, open) && i < |ds|
    ensures Readable(cfg, rank, st, OptSyms(ds[i].visible), k, open)
  {
    hide MemoryOk, Readable;
    Shape(cfg, rank, st);
    assert ds[i] in ds;
    ReadableSub(cfg, rank, st, ConditionSyms(ds), OptSyms(ds[i].visible), k, open);
  }

  lemma RangePart(cfg: Config, rank: map<Sym, nat>, st: Memory, rs: seq<Range>, i: nat, k: nat, open: Option<Sym>)
    requires MemoryOk(cfg, rank, st) && Readable(cfg, rank, st, RangeConditionSyms(rs), k, open) && i < |rs|
    ensures Readable(cfg, rank, st, OptSyms(rs[i].visible), k, open)
  {
    hide MemoryOk, Readable;
    Shape(cfg, rank, st);
    assert rs[i] in rs;
    ReadableSub(cfg, rank, st, RangeConditionSyms(rs), OptSyms(rs[i].visible), k, open);
  }

  lemma DefaultStep(ds: seq<Default>, i: nat, env: Env)
    requires i < |ds|
    ensures FirstDefault(ds[i..], env) ==
      if EvalOpt(ds[i].visible, env) != NO then Some(ds[i]) else FirstDefault(ds[i + 1..], env)
  {
    assert ds[i..][1..] == ds[i + 1..];
  }

  lemma RangeStep(rs: seq<Range>, i: nat, env: Env)
    requires i < |rs|
    ensures FirstRange(rs[i..], env) ==
      if EvalOpt(rs[i].visible, env) != NO then Some(rs[i]) else FirstRange(rs[i + 1..], env)
  {
    assert rs[i..][1..] == rs[i + 1..];
  }

  /** The same, as it is found when the visibility and the selection have been stored. */
  ghost predicate MarksNow(cfg: Config, rank: map<Sym, nat>, s: Sym)
    requires WellFormed(cfg) && Ranked(cfg, rank) && s in cfg.decls && s in rank
  {
    var env := EnvBelow(cfg, rank, rank[s]);
    Marks(cfg, s, Visible(cfg, s, env), Selected(cfg, s, Visible(cfg, s, env), env), env)
  }

  lemma TextIsNoChoice(cfg: Config, rank: map<Sym, nat>, s: Sym)
    requires WellFormed(cfg) && s in cfg.decls && (s.Type() == SInt || s.Type() == SHex || s.Type() == SString)
    ensures !cfg.decls[s].Choice()
  {
    assert DeclOk(cfg, s);
  }

  lemma MembersThere(cfg: Config, c: Sym)
    requires WellFormed(cfg) && c in cfg.decls
    ensures forall m :: m in cfg.decls[c].members ==> m in cfg.decls
  {
    assert DeclOk(cfg, c);
  }

  /** A symbol without a value type is never written. */
  lemma UntypedUnmarked(cfg: Config, rank: map<Sym, nat>, s: Sym)
    requires WellFormed(cfg) && Ranked(cfg, rank) && s in cfg.decls && !Typed(s)
    ensures !Writes(cfg, rank, s) && !cfg.decls[s].Choice()
  {
    hide Spec, Needs;
    assert DeclOk(cfg, s);
  }

  lemma MarksAgree(cfg: Config, rank: map<Sym, nat>, s: Sym)
    requires WellFormed(cfg) && Ranked(cfg, rank) && s in cfg.decls && Typed(s) && !s.Predefined()
    ensures s in rank && (Writes(cfg, rank, s) <==> MarksNow(cfg, rank, s))
  {
    hide Needs, EnvBelow, ValsBelow, Visible, Selected, TristateOf, Pick, TextOf, RangeChecked, Marks;
    SpecUnfolds(cfg, rank, s);
  }

  lemma NoDefault(env: Env)
    ensures FirstDefault([], env) == None && FirstRange([], env) == None
  {
  }

  lemma Whole<T>(s: seq<T>)
    ensures s[0..] == s && s[|s|..] == []
  {
  }

  // ----- deciding a choice -----

  /** While the choice c is decided, the visibility of its members changes, and that of members of other
      choices evaluated on the way. */
  ghost predicate Choosing(cfg: Config, rank: map<Sym, nat>, a: Memory, b: Memory, c: Sym) {
    && MemoryOk(cfg, rank, a) && MemoryOk(cfg, rank, b)
    && c in b && Agrees(cfg, rank, b, rank[c])
    && forall s :: s in a ==>
      && (a[s].valid ==> b[s].valid)
      && (rank[s] >= rank[c] && s != c ==>
            b[s] == a[s] || (SameButVisible(a[s], b[s]) && cfg.Owned(s)
                             && (cfg.decls[s].owner == Some(c) || !OwnerValid(cfg, a, s))))
  }

  /** The first i members have the visibility the environment gives them. */
  ghost predicate MembersSeen(cfg: Config, rank: map<Sym, nat>, st: Memory, c: Sym, i: nat)
    requires MemoryOk(cfg, rank, st) && c in st && i <= |cfg.decls[c].members|
  {
    var ms := cfg.decls[c].members;
    forall j :: 0 <= j < i ==>
      ms[j] in st && st[ms[j]].v.visible == Visible(cfg, ms[j], EnvAt(cfg, rank, rank[c], Some(c)))
  }

  /** Every visible one of the first i members has a user value. */
  ghost predicate MembersHaveUser(cfg: Config, rank: map<Sym, nat>, st: Memory, c: Sym, i: nat)
    requires MemoryOk(cfg, rank, st) && c in st && i <= |cfg.decls[c].members|
  {
    var ms := cfg.decls[c].members;
    forall j :: 0 <= j < i && ms[j] in cfg.decls && Visible(cfg, ms[j], EnvAt(cfg, rank, rank[c], Some(c))) != NO ==>
      ms[j] in cfg.hasUser
  }

  lemma ChoosingRefl(cfg: Config, rank: map<Sym, nat>, a: Memory, c: Sym)
    requires MemoryOk(cfg, rank, a) && c in a && c in rank && Agrees(cfg, rank, a, rank[c])
    ensures Choosing(cfg, rank, a, a, c) && MembersSeen(cfg, rank, a, c, 0) && MembersHaveUser(cfg, rank, a, c, 0)
  {
    hide Agrees, SlotOk, WellFormed, Ranked;
  }

  lemma ChoosingShape(cfg: Config, rank: map<Sym, nat>, a: Memory, b: Memory, c: Sym)
    requires Choosing(cfg, rank, a, b, c)
    ensures WellFormed(cfg) && Ranked(cfg, rank) && a.Keys == b.Keys == cfg.decls.Keys == rank.Keys
    ensures MemoryOk(cfg, rank, b) && c in b && Agrees(cfg, rank, b, rank[c])
  {
  }

  lemma MemberOf(cfg: Config, rank: map<Sym, nat>, c: Sym, i: nat)
    requires WellFormed(cfg) && Ranked(cfg, rank) && c in cfg.decls && i < |cfg.decls[c].members|
    ensures var m := cfg.decls[c].members[i];
      && m in cfg.decls && m != c && Typed(m) && !cfg.decls[m].Choice() && cfg.decls[m].owner == Some(c) && rank[m] > rank[c]
      && PromptSyms(cfg.decls[m].prompts) - {c} <= MemberSyms(cfg, c)
  {
    var m := cfg.decls[c].members[i];
    assert DeclOk(cfg, c) && m in cfg.decls[c].members;
    assert DeclOk(cfg, m);
    assert RankedAt(cfg, rank, m) && c in Needs(cfg, m);
  }

  lemma BeforeMember(cfg: Config, rank: map<Sym, nat>, a: Memory, b: Memory, c: Sym, i: nat)
    requires Choosing(cfg, rank, a, b, c) && c in a && b[c] == a[c] && IsOpen(cfg, c, a[c])
    requires i < |cfg.decls[c].members|
    ensures var m := cfg.decls[c].members[i];
      && MemoryOk(cfg, rank, b) && Agrees(cfg, rank, b, rank[c])
      && m in b && m in rank && rank[m] >= rank[c] && Typed(m) && m != c
      && Readable(cfg, rank, b, VisibilitySyms(cfg.decls[m]), rank[c], Some(c))
  {
    hide Agrees, SlotOk, WellFormed, Ranked, Needs, MemberSyms, PromptSyms;
    MemberOf(cfg, rank, c, i);
    NeedsMembers(cfg, rank, c);
  }

  /** A choice ranks above everything its members' prompts read, itself excepted. */
  lemma NeedsMembers(cfg: Config, rank: map<Sym, nat>, c: Sym)
    requires Ranked(cfg, rank) && c in cfg.decls
    ensures forall t :: t in MemberSyms(cfg, c) ==> t in cfg.decls && rank[t] < rank[c]
  {
    forall t | t in MemberSyms(cfg, c) ensures t in cfg.decls && rank[t] < rank[c] {
      assert RankedAt(cfg, rank, c) && t in Needs(cfg, c);
    }
  }

  lemma AfterMember(cfg: Config, rank: map<Sym, nat>, a: Memory, b: Memory, d: Memory, c: Sym, i: nat)
    requires Choosing(cfg, rank, a, b, c) && c in a && b[c] == a[c] && IsOpen(cfg, c, a[c])
    requires i < |cfg.decls[c].members| && MembersSeen(cfg, rank, b, c, i)
    requires Storing(cfg, rank, b, d, rank[c], cfg.decls[c].members[i])
    requires cfg.decls[c].members[i] in b && cfg.decls[c].members[i] in d
    requires var m := cfg.decls[c].members[i];
      m in cfg.decls && d[m] == WithVisibility(cfg, m, b[m], EnvAt(cfg, rank, rank[c], Some(c)))
    ensures Choosing(cfg, rank, a, d, c) && d[c] == a[c]
    ensures MembersSeen(cfg, rank, d, c, i + 1)
    ensures MembersHaveUser(cfg, rank, d, c, i + 1) <==>
      MembersHaveUser(cfg, rank, b, c, i) && (d[cfg.decls[c].members[i]].v.visible != NO ==> d[cfg.decls[c].members[i]].hasUser)
  {
    hide Agrees, Spec, WellFormed, Ranked, Needs, EnvAt, Visible, MembersHaveUser, SlotOk;
    var ms := cfg.decls[c].members;
    MemberOf(cfg, rank, c, i);
    ChoiceIsNoMember(cfg, c);
    forall j | 0 <= j < i ensures d[ms[j]].v.visible == b[ms[j]].v.visible {
      MemberOf(cfg, rank, c, j);
    }
    HaveUserMore(cfg, rank, b, d, c, i);
  }

  lemma HaveUserMore(cfg: Config, rank: map<Sym, nat>, b: Memory, d: Memory, c: Sym, i: nat)
    requires MemoryOk(cfg, rank, b) && MemoryOk(cfg, rank, d) && c in b && c in d && i < |cfg.decls[c].members|
    requires var m := cfg.decls[c].members[i];
      && m in d && m in cfg.decls && !cfg.decls[m].Choice()
      && d[m].v.visible == Visible(cfg, m, EnvAt(cfg, rank, rank[c], Some(c)))
    ensures MembersHaveUser(cfg, rank, d, c, i + 1) <==>
      MembersHaveUser(cfg, rank, b, c, i) && (d[cfg.decls[c].members[i]].v.visible != NO ==> d[cfg.decls[c].members[i]].hasUser)
  {
    hide WellFormed, Ranked, EnvAt, Visible;
    assert SlotOk(cfg, cfg.decls[c].members[i], d[cfg.decls[c].members[i]]);
  }

  lemma ChoiceIsNoMember(cfg: Config, c: Sym)
    requires WellFormed(cfg) && c in cfg.decls && cfg.decls[c].Choice()
    ensures !cfg.Owned(c)
  {
    assert DeclOk(cfg, c);
  }

  lemma ChoosingReached(cfg: Config, rank: map<Sym, nat>, a: Memory, b: Memory, d: Memory, c: Sym)
    requires Choosing(cfg, rank, a, b, c) && c in rank && Reached(cfg, rank, b, d, rank[c])
    requires cfg.decls[c].Choice()
    ensures Choosing(cfg, rank, a, d, c) && d[c] == b[c]
  {
    hide Agrees, SlotOk, Ranked, Needs;
    ChoiceIsNoMember(cfg, c);
    forall s | s in b && cfg.Owned(s) && !OwnerValid(cfg, b, s) ensures !OwnerValid(cfg, a, s) {
      assert DeclOk(cfg, s);
    }
  }

  lemma ChoosingStore(cfg: Config, rank: map<Sym, nat>, a: Memory, b: Memory, c: Sym, x: State)
    requires Choosing(cfg, rank, a, b, c) && SlotOk(cfg, c, x) && x.valid
    ensures Choosing(cfg, rank, a, b[c := x], c)
  {
    hide SlotOk, WellFormed, Ranked;
    Store(cfg, rank, b, c, x, rank[c]);
  }

  /** The members of an open choice keep their visibility while other expressions are evaluated. */
  lemma SeenStays(cfg: Config, rank: map<Sym, nat>, b: Memory, d: Memory, c: Sym)
    requires c in rank && Reached(cfg, rank, b, d, rank[c]) && c in b && IsOpen(cfg, c, b[c])
    requires MembersSeen(cfg, rank, b, c, |cfg.decls[c].members|)
    ensures c in d && MembersSeen(cfg, rank, d, c, |cfg.decls[c].members|) && IsOpen(cfg, c, d[c])
  {
    hide Agrees, SlotOk, WellFormed, Ranked, Needs, EnvAt, Visible;
    ChoiceIsNoMember(cfg, c);
    var ms := cfg.decls[c].members;
    forall j | 0 <= j < |ms| ensures ms[j] in d && d[ms[j]].v.visible == b[ms[j]].v.visible {
      MemberOf(cfg, rank, c, j);
    }
  }

  lemma SeenStore(cfg: Config, rank: map<Sym, nat>, b: Memory, c: Sym, x: State)
    requires MemoryOk(cfg, rank, b) && c in b && MemoryOk(cfg, rank, b[c := x])
    requires MembersSeen(cfg, rank, b, c, |cfg.decls[c].members|)
    ensures MembersSeen(cfg, rank, b[c := x], c, |cfg.decls[c].members|)
  {
    hide SlotOk, WellFormed, Ranked, Needs, EnvAt, Visible;
    var ms := cfg.decls[c].members;
    forall j | 0 <= j < |ms| ensures ms[j] != c {
      MemberOf(cfg, rank, c, j);
    }
  }

  lemma SeenMember(cfg: Config, rank: map<Sym, nat>, b: Memory, c: Sym, m: Sym)
    requires MemoryOk(cfg, rank, b) && c in b && MembersSeen(cfg, rank, b, c, |cfg.decls[c].members|)
    requires m in cfg.decls[c].members
    ensures m in b && b[m].v.visible == Visible(cfg, m, EnvAt(cfg, rank, rank[c], Some(c)))
  {
  }

  lemma SlotKeep(cfg: Config, c: Sym, x: State, keep: bool)
    requires c in cfg.decls && SlotOk(cfg, c, x) && x.valid && Typed(c) && cfg.decls[c].Choice()
    requires keep ==> x.hasUser
    ensures SlotOk(cfg, c, x.(hasUser := keep))
  {
  }

  /** What the definition of a choice guarantees. */
  lemma ChoiceFacts(cfg: Config, rank: map<Sym, nat>, st: Memory, c: Sym)
    requires MemoryOk(cfg, rank, st) && c in st && cfg.decls[c].Choice()
    ensures DeclOk(cfg, c) && Typed(c) && !c.Predefined() && !cfg.Owned(c) && SlotOk(cfg, c, st[c])
    ensures forall p :: p in cfg.decls[c].defaults ==> p.value.Symbol? && p.value.sym in cfg.decls[c].members
    ensures forall m :: m in cfg.decls[c].members ==> m in cfg.decls
    ensures cfg.user(c).pick.Some? ==> cfg.user(c).pick.value in cfg.decls[c].members
    ensures st[c].valid && st[c].v.tri == YES ==>
      Readable(cfg, rank, st, ConditionSyms(cfg.decls[c].defaults), rank[c], Some(c))
  {
    assert DeclOk(cfg, c);
    forall t | t in ConditionSyms(cfg.decls[c].defaults) ensures t in st && rank[t] < rank[c] {
      assert RankedAt(cfg, rank, c);
      assert t in DefaultSyms(cfg.decls[c]);
      assert t in Needs(cfg, c);
    }
  }

  lemma NoChoiceDefault(cfg: Config, env: Env)
    ensures FirstVisibleDefault(cfg, [], env) == None && FirstVisible(cfg, [], env) == None
  {
  }

  /** Which members have a user value does not depend on the memory. */
  lemma AllHaveUser(cfg: Config, rank: map<Sym, nat>, st: Memory, c: Sym)
    requires MemoryOk(cfg, rank, st) && c in st
    ensures MembersHaveUser(cfg, rank, st, c, |cfg.decls[c].members|) <==> MembersKeep(cfg, rank, c)
  {
    hide SlotOk, WellFormed, Ranked, EnvAt, Visible, Needs;
    var ms := cfg.decls[c].members;
    assert forall m :: m in ms <==> exists j :: 0 <= j < |ms| && ms[j] == m;
  }

  lemma ChoiceDefaultStep(cfg: Config, ds: seq<Default>, i: nat, env: Env)
    requires forall p :: p in ds ==> p.value.Symbol? && p.value.sym in cfg.decls
    requires i < |ds|
    ensures forall p :: p in ds[i..] ==> p in ds
    ensures FirstVisibleDefault(cfg, ds[i..], env) ==
      if EvalOpt(ds[i].visible, env) != NO && Visible(cfg, ds[i].value.sym, env) != NO then Some(ds[i].value.sym)
      else FirstVisibleDefault(cfg, ds[i + 1..], env)
  {
    assert ds[i..][1..] == ds[i + 1..];
  }

  lemma FirstVisibleStep(cfg: Config, ms: seq<Sym>, i: nat, env: Env)
    requires forall m :: m in ms ==> m in cfg.decls
    requires i < |ms|
    ensures FirstVisible(cfg, ms[i..], env) ==
      if Visible(cfg, ms[i], env) != NO then Some(ms[i]) else FirstVisible(cfg, ms[i + 1..], env)
  {
    assert ms[i..][1..] == ms[i + 1..];
  }

  // ----- the middle of an evaluation -----

  /** s is being evaluated: its visibility and selection are stored, its own value is not final. */
  ghost predicate InProgress(cfg: Config, rank: map<Sym, nat>, st: Memory, s: Sym) {
    && MemoryOk(cfg, rank, st) && s in st && s in rank && Agrees(cfg, rank, st, rank[s])
    && Typed(s) && st[s].valid && AllValid(st, PromptSyms(cfg.decls[s].prompts))
    && (st[s].hasUser <==> s in cfg.hasUser)
    && var env := EnvBelow(cfg, rank, rank[s]);
       st[s].v.visible == Visible(cfg, s, env) && st[s].v.rev == Selected(cfg, s, Visible(cfg, s, env), env)
  }

  /** Every symbol needed by s may be read while s is evaluated. */
  lemma NeedsReadable(cfg: Config, rank: map<Sym, nat>, st: Memory, s: Sym, syms: set<Sym>)
    requires MemoryOk(cfg, rank, st) && s in cfg.decls && syms <= Needs(cfg, s)
    ensures Readable(cfg, rank, st, syms, rank[s], None)
  {
    assert RankedAt(cfg, rank, s);
    forall t | t in syms ensures t in st && rank[t] < rank[s] { assert t in Needs(cfg, s); }
  }

  lemma RangeIsRead(d: Decl, r: Range)
    requires r in d.ranges
    ensures OptSyms(r.visible) + {r.lo, r.hi} <= RangeSyms(d)
  {
    hide OptSyms;
  }

  lemma DefaultIsRead(d: Decl, p: Default)
    requires p in d.defaults && !d.Choice()
    ensures OptSyms(p.visible) + ExprSyms(p.value) <= DefaultSyms(d)
  {
    hide OptSyms, ExprSyms;
  }

  lemma NeedsPieces(cfg: Config, s: Sym)
    requires s in cfg.decls
    ensures RangeSyms(cfg.decls[s]) <= Needs(cfg, s) && DefaultSyms(cfg.decls[s]) <= Needs(cfg, s)
  {
    hide MemberSyms, PromptSyms, OptSyms, ExprSyms, RangeSyms, DefaultSyms, OwnerSyms;
  }

  /** A symbol needs what its conditions, default values and range bounds mention. */
  lemma NeedsParts(cfg: Config, s: Sym)
    requires s in cfg.decls
    ensures RangeConditionSyms(cfg.decls[s].ranges) <= Needs(cfg, s)
    ensures forall r :: r in cfg.decls[s].ranges ==> r.lo in Needs(cfg, s) && r.hi in Needs(cfg, s)
    ensures !cfg.decls[s].Choice() ==> ConditionSyms(cfg.decls[s].defaults) <= Needs(cfg, s)
    ensures !cfg.decls[s].Choice() ==> forall p :: p in cfg.decls[s].defaults ==> ExprSyms(p.value) <= Needs(cfg, s)
  {
    hide Needs, RangeSyms, DefaultSyms, OptSyms, ExprSyms;
    var d := cfg.decls[s];
    NeedsPieces(cfg, s);
    forall r | r in d.ranges ensures OptSyms(r.visible) + {r.lo, r.hi} <= Needs(cfg, s) { RangeIsRead(d, r); }
    if !d.Choice() {
      forall p | p in d.defaults ensures OptSyms(p.visible) + ExprSyms(p.value) <= Needs(cfg, s) { DefaultIsRead(d, p); }
    }
    ConditionsBelow(d, Needs(cfg, s));
  }

  lemma ConditionsBelow(d: Decl, all: set<Sym>)
    requires forall r :: r in d.ranges ==> OptSyms(r.visible) + {r.lo, r.hi} <= all
    requires !d.Choice() ==> forall p :: p in d.defaults ==> OptSyms(p.visible) + ExprSyms(p.value) <= all
    ensures RangeConditionSyms(d.ranges) <= all
    ensures !d.Choice() ==> ConditionSyms(d.defaults) <= all
  {
    hide OptSyms, ExprSyms;
    forall t | t in RangeConditionSyms(d.ranges) ensures t in all {
      var r :| r in d.ranges && t in OptSyms(r.visible);
      assert t in OptSyms(r.visible) + {r.lo, r.hi};
    }
    if !d.Choice() {
      forall t | t in ConditionSyms(d.defaults) ensures t in all {
        var p :| p in d.defaults && t in OptSyms(p.visible);
        assert t in OptSyms(p.visible) + ExprSyms(p.value);
      }
    }
  }

  lemma Progress(cfg: Config, rank: map<Sym, nat>, st: Memory, s: Sym)
    requires InProgress(cfg, rank, st, s)
    ensures WellFormed(cfg) && Ranked(cfg, rank) && MemoryOk(cfg, rank, st) && Agrees(cfg, rank, st, rank[s])
    ensures st.Keys == cfg.decls.Keys == rank.Keys && s in st
    ensures st[s].hasUser <==> s in cfg.hasUser
    ensures var env := EnvBelow(cfg, rank, rank[s]);
      st[s].v.visible == Visible(cfg, s, env) && st[s].v.rev == Selected(cfg, s, Visible(cfg, s, env), env)
    ensures EnvAt(cfg, rank, rank[s], None) == EnvBelow(cfg, rank, rank[s])
    ensures !cfg.decls[s].Choice() ==> Readable(cfg, rank, st, ConditionSyms(cfg.decls[s].defaults), rank[s], None)
    ensures Readable(cfg, rank, st, RangeConditionSyms(cfg.decls[s].ranges), rank[s], None)
    ensures s.Type() == SInt || s.Type() == SHex || s.Type() == SString ==> !cfg.decls[s].Choice()
  {
    hide Agrees, SlotOk, EnvBelow, Visible, Selected, Needs, Readable;
    assert DeclOk(cfg, s);
    NeedsParts(cfg, s);
    NeedsReadable(cfg, rank, st, s, RangeConditionSyms(cfg.decls[s].ranges));
    if !cfg.decls[s].Choice() { NeedsReadable(cfg, rank, st, s, ConditionSyms(cfg.decls[s].defaults)); }
  }

  /** A member of a choice has evaluated its choice with its own prompts. */
  lemma OwnerReads(cfg: Config, rank: map<Sym, nat>, st: Memory, s: Sym)
    requires InProgress(cfg, rank, st, s) && cfg.decls[s].owner.Some?
    ensures var c := cfg.decls[s].owner.value;
      c in st && st[c].valid && st[c].v == ValsBelow(cfg, rank, rank[s])(c)
  {
    hide Spec, SlotOk, Visible, Selected;
    var c := cfg.decls[s].owner.value;
    assert DeclOk(cfg, s);
    assert RankedAt(cfg, rank, s) && c in Needs(cfg, s);
  }

  lemma DefaultReads(cfg: Config, rank: map<Sym, nat>, a: Memory, b: Memory, s: Sym, p: Default)
    requires InProgress(cfg, rank, a, s) && Reached(cfg, rank, a, b, rank[s])
    requires !cfg.decls[s].Choice() && p in cfg.decls[s].defaults
    ensures MemoryOk(cfg, rank, b) && Agrees(cfg, rank, b, rank[s])
    ensures Readable(cfg, rank, b, ExprSyms(p.value), rank[s], None)
    ensures p.value.Symbol? ==> Readable(cfg, rank, b, {p.value.sym}, rank[s], None) && rank[p.value.sym] < rank[s]
  {
    hide Agrees, SlotOk, EnvBelow, Visible, Selected, Reached, InProgress, Needs;
    Progress(cfg, rank, a, s);
    ReachedShape(cfg, rank, a, b, rank[s]);
    NeedsParts(cfg, s);
    NeedsReadable(cfg, rank, b, s, ExprSyms(p.value));
  }

  lemma RangeReads(cfg: Config, rank: map<Sym, nat>, a: Memory, b: Memory, s: Sym, p: Range)
    requires InProgress(cfg, rank, a, s) && Reached(cfg, rank, a, b, rank[s]) && p in cfg.decls[s].ranges
    ensures MemoryOk(cfg, rank, b) && Agrees(cfg, rank, b, rank[s])
    ensures Readable(cfg, rank, b, {p.lo}, rank[s], None) && rank[p.lo] < rank[s]
    ensures Readable(cfg, rank, b, {p.hi}, rank[s], None) && rank[p.hi] < rank[s]
  {
    hide Agrees, SlotOk, EnvBelow, Visible, Selected, Reached, InProgress, Needs;
    Progress(cfg, rank, a, s);
    ReachedShape(cfg, rank, a, b, rank[s]);
    NeedsParts(cfg, s);
    NeedsReadable(cfg, rank, b, s, {p.lo});
    NeedsReadable(cfg, rank, b, s, {p.hi});
  }

  // ----- the frame of sym_calc_value -----

  lemma StoringTrans(cfg: Config, rank: map<Sym, nat>, a: Memory, b: Memory, c: Memory, k: nat, s: Sym)
    requires Storing(cfg, rank, a, b, k, s) && Storing(cfg, rank, b, c, k, s)
    ensures Storing(cfg, rank, a, c, k, s)
  {
    hide Agrees, Frame, SlotOk, WellFormed, Ranked;
    FrameTrans(cfg, rank, a, b, c, k, k, {s}, {s});
  }

  /** SYMBOL_VALID is set before anything is computed. */
  lemma Begin(cfg: Config, rank: map<Sym, nat>, a: Memory, s: Sym)
    requires MemoryOk(cfg, rank, a) && s in a && s in rank && !a[s].valid && Agrees(cfg, rank, a, rank[s] + 1)
    ensures Agrees(cfg, rank, a, rank[s])
    ensures var b := a[s := a[s].(valid := true)];
      && Storing(cfg, rank, a, b, rank[s], s)
      && MemoryOk(cfg, rank, b) && Agrees(cfg, rank, b, rank[s])
      && s in cfg.decls && !s.Predefined()
      && Readable(cfg, rank, b, VisibilitySyms(cfg.decls[s]), rank[s], None)
      && (b[s].hasUser <==> s in cfg.hasUser)
      && (cfg.Owned(s) ==> b[s].v.rev == NO)
      && (!Typed(s) ==> b[s].v.visible == NO && b[s].v.rev == NO)
  {
    hide Spec, WellFormed, Ranked, Needs;
    assert SlotOk(cfg, s, a[s]);
    Store(cfg, rank, a, s, a[s].(valid := true), rank[s]);
    assert Storing(cfg, rank, a, a[s := a[s].(valid := true)], rank[s], s);
    VisibilityNeeds(cfg, s);
    NeedsReadable(cfg, rank, a[s := a[s].(valid := true)], s, VisibilitySyms(cfg.decls[s]));
  }

  lemma VisibilityNeeds(cfg: Config, s: Sym)
    requires s in cfg.decls
    ensures VisibilitySyms(cfg.decls[s]) <= Needs(cfg, s)
  {
  }

  /** A symbol without a value type is its own name. */
  lemma EndUntyped(cfg: Config, rank: map<Sym, nat>, a: Memory, b: Memory, s: Sym)
    requires MemoryOk(cfg, rank, a) && s in a && s in rank && Agrees(cfg, rank, a, rank[s] + 1)
    requires Storing(cfg, rank, a, b, rank[s], s) && s in b && b[s].valid && !Typed(s) && !s.Predefined()
    requires b[s].v.visible == NO && b[s].v.rev == NO && s in cfg.decls && (b[s].hasUser <==> s in cfg.hasUser)
    ensures var c := b[s := b[s].(v := b[s].v.(tri := NO, str := cfg.decls[s].name, pick := None))];
      && Reached(cfg, rank, a, c, rank[s] + 1)
      && c[s].v == Spec(cfg, rank, s) && (c[s].hasUser <==> FlagKept(cfg, rank, s))
  {
    hide Spec, Ranked, Needs, Agrees, Frame;
    assert DeclOk(cfg, s);
    var x := b[s].(v := b[s].v.(tri := NO, str := cfg.decls[s].name, pick := None));
    assert SlotOk(cfg, s, b[s]);
    StoringStore(cfg, rank, a, b, rank[s], s, x);
    SpecUnfolds(cfg, rank, s);
    Finish(cfg, rank, a, b[s := x], s);
  }

  /** After sym_calc_visibility the provisional value is stored and the real work starts. */
  lemma Enter(cfg: Config, rank: map<Sym, nat>, a: Memory, b: Memory, s: Sym, init: string)
    requires MemoryOk(cfg, rank, a) && s in a && s in rank && a[s].valid && Typed(s)
    requires (a[s].hasUser <==> s in cfg.hasUser) && s in cfg.decls && (cfg.Owned(s) ==> a[s].v.rev == NO)
    requires Storing(cfg, rank, a, b, rank[s], s) && s in b && AllValid(b, PromptSyms(cfg.decls[s].prompts))
    requires b[s] == WithVisibility(cfg, s, a[s], EnvAt(cfg, rank, rank[s], None))
    ensures var c := b[s := b[s].(v := b[s].v.(tri := NO, str := init, pick := None))];
      InProgress(cfg, rank, c, s) && Storing(cfg, rank, a, c, rank[s], s)
  {
    hide Spec, Ranked, Needs, Frame, SlotOk, Visible, EnvBelow, PromptSyms, WellFormed;
    var x := b[s].(v := b[s].v.(tri := NO, str := init, pick := None));
    StoringShape(cfg, rank, a, b, rank[s], s);
    SlotWrite(cfg, s, b[s], x);
    StoringStore(cfg, rank, a, b, rank[s], s, x);
    StoringShape(cfg, rank, a, b[s := x], rank[s], s);
  }

  lemma ProgressStays(cfg: Config, rank: map<Sym, nat>, a: Memory, b: Memory, s: Sym)
    requires InProgress(cfg, rank, a, s) && Reached(cfg, rank, a, b, rank[s])
    ensures InProgress(cfg, rank, b, s) && s in b && b[s] == a[s]
  {
    hide Spec, Ranked, Needs, Frame, SlotOk, Visible, EnvBelow, PromptSyms, Agrees, Selected;
    assert DeclOk(cfg, s);
    ReachedShape(cfg, rank, a, b, rank[s]);
    ReachedKeeps(cfg, rank, a, b, rank[s], s);
    ValidStays(cfg, rank, a, b, rank[s], PromptSyms(cfg.decls[s].prompts));
  }

  /** Storing a new tristate and string while s is in progress. */
  lemma ProgressStore(cfg: Config, rank: map<Sym, nat>, a: Memory, b: Memory, s: Sym, tri: Tristate, str: string)
    requires InProgress(cfg, rank, b, s) && Storing(cfg, rank, a, b, rank[s], s)
    ensures var c := b[s := b[s].(v := b[s].v.(tri := tri, str := str))];
      InProgress(cfg, rank, c, s) && Storing(cfg, rank, a, c, rank[s], s)
  {
    hide Spec, Ranked, Needs, Frame, SlotOk, Visible, EnvBelow, PromptSyms, WellFormed, Agrees, Selected;
    var x := b[s].(v := b[s].v.(tri := tri, str := str));
    SlotWrite(cfg, s, b[s], x);
    StoringStore(cfg, rank, a, b, rank[s], s, x);
    StoringShape(cfg, rank, a, b[s := x], rank[s], s);
  }

  lemma StoringChosen(cfg: Config, rank: map<Sym, nat>, a: Memory, b: Memory, d: Memory, c: Sym)
    requires c in rank && c in a && !a[c].valid && Storing(cfg, rank, a, b, rank[c], c) && Choosing(cfg, rank, b, d, c)
    ensures Storing(cfg, rank, a, d, rank[c], c)
  {
    hide Agrees, SlotOk, Ranked, Needs;
    forall s | s in b && cfg.Owned(s) && !OwnerValid(cfg, b, s) ensures !OwnerValid(cfg, a, s) {
      assert DeclOk(cfg, s);
    }
  }

  /** The end of the evaluation of a boolean or tristate. */
  lemma EndTristate(cfg: Config, rank: map<Sym, nat>, a: Memory, b: Memory, s: Sym, tri: Tristate, pick: Option<Sym>)
    requires MemoryOk(cfg, rank, a) && s in a && s in rank && Agrees(cfg, rank, a, rank[s] + 1)
    requires Storing(cfg, rank, a, b, rank[s], s) && s in b && b[s].valid && s in cfg.decls
    requires s.Type() == SBoolean || s.Type() == STristate
    requires tri == TristateOf(cfg, s, s in cfg.hasUser, ValsBelow(cfg, rank, rank[s]), EnvBelow(cfg, rank, rank[s]))
    requires cfg.Owned(s) ==> OwnerValid(cfg, b, s)
    requires var env := EnvBelow(cfg, rank, rank[s]);
      b[s].v == Value(if cfg.decls[s].Choice() && tri == YES && pick.None? then NO else tri, "n", pick,
                      Visible(cfg, s, env), Selected(cfg, s, Visible(cfg, s, env), env))
    requires if cfg.decls[s].Choice() && tri == YES
             then DeclOk(cfg, s) && pick == Pick(cfg, s, EnvAt(cfg, rank, rank[s], Some(s))) else pick == None
    requires b[s].hasUser <==>
      s in cfg.hasUser && (cfg.decls[s].Choice() && tri == YES ==> MembersKeep(cfg, rank, s))
    ensures b[s].v == Spec(cfg, rank, s) && (b[s].hasUser <==> FlagKept(cfg, rank, s))
    ensures Reached(cfg, rank, a, b, rank[s] + 1)
  {
    hide Spec, Ranked, Needs, Frame, SlotOk, Visible, EnvBelow, ValsBelow, PromptSyms, WellFormed, Agrees, Selected, TristateOf, Pick, MembersKeep;
    SpecUnfolds(cfg, rank, s);
    if cfg.decls[s].Choice() && tri == YES { FlagDecided(cfg, rank, s, pick); }
    Finish(cfg, rank, a, b, s);
  }

  lemma EndText(cfg: Config, rank: map<Sym, nat>, a: Memory, b: Memory, s: Sym, str: string, checked: string)
    requires MemoryOk(cfg, rank, a) && s in a && s in rank && Agrees(cfg, rank, a, rank[s] + 1)
    requires InProgress(cfg, rank, b, s) && Storing(cfg, rank, a, b, rank[s], s)
    requires s.Type() == SInt || s.Type() == SHex || s.Type() == SString
    requires str == TextOf(cfg, s, s in cfg.hasUser, ValsBelow(cfg, rank, rank[s]), EnvBelow(cfg, rank, rank[s]))
    requires checked == RangeChecked(cfg, s, str, ValsBelow(cfg, rank, rank[s]), EnvBelow(cfg, rank, rank[s]))
    requires b[s].v.tri == NO && b[s].v.str == checked && b[s].v.pick == None
    ensures s in b && b[s].valid && b[s].v == Spec(cfg, rank, s) && (b[s].hasUser <==> FlagKept(cfg, rank, s))
    ensures Reached(cfg, rank, a, b, rank[s] + 1)
  {
    hide Spec, Ranked, Needs, Frame, SlotOk, Visible, EnvBelow, ValsBelow, PromptSyms, Agrees, Selected, TextOf, RangeChecked;
    assert DeclOk(cfg, s);
    SpecUnfolds(cfg, rank, s);
    Finish(cfg, rank, a, b, s);
  }

  lemma TypeCases(s: Sym)
    requires Typed(s)
    ensures s.Type() == SInt || s.Type() == SHex || s.Type() == SString || s.Type() == SBoolean || s.Type() == STristate
  {
  }

  lemma BeforeChoice(cfg: Config, rank: map<Sym, nat>, st: Memory, s: Sym)
    requires InProgress(cfg, rank, st, s)
    ensures MemoryOk(cfg, rank, st) && s in st && s in rank && Agrees(cfg, rank, st, rank[s]) && st[s].valid
    ensures WellFormed(cfg) && Ranked(cfg, rank) && s in cfg.decls && DeclOk(cfg, s)
    ensures cfg.decls[s].Choice() && st[s].v.tri == YES ==> IsOpen(cfg, s, st[s])
    ensures cfg.decls[s].Choice() ==> !cfg.Owned(s)
    ensures cfg.Owned(s) ==> OwnerValid(cfg, st, s)
    ensures st[s].hasUser <==> s in cfg.hasUser
    ensures var env := EnvBelow(cfg, rank, rank[s]);
      st[s].v.visible == Visible(cfg, s, env) && st[s].v.rev == Selected(cfg, s, Visible(cfg, s, env), env)
  {
    hide SlotOk, Agrees, Visible, Selected, EnvBelow, Ranked;
    assert DeclOk(cfg, s);
  }

  lemma PickStore(cfg: Config, rank: map<Sym, nat>, a: Memory, b: Memory, s: Sym, pick: Option<Sym>)
    requires s in rank && Storing(cfg, rank, a, b, rank[s], s) && s in b && s in cfg.decls && cfg.decls[s].Choice()
    ensures Storing(cfg, rank, a, b[s := b[s].(v := b[s].v.(pick := pick))], rank[s], s)
  {
    hide Frame, WellFormed, Agrees, Ranked;
    StoringShape(cfg, rank, a, b, rank[s], s);
    ChoiceFacts(cfg, rank, b, s);
    StoringStore(cfg, rank, a, b, rank[s], s, b[s].(v := b[s].v.(pick := pick)));
  }
}
