/** sym_calc_value and the functions it calls: evaluation with memory. */
module SymbolEval {
  import opened Options
  import opened Tristates
  import opened Exprs
  import opened SymbolSpec
  import opened SymbolState
  import opened SymbolTheorems
  import opened SymbolSetting
  import opened SymbolMarks

  class Solver {
    var cfg: Config
    ghost const rank: map<Sym, nat>
    var st: Memory
    /** The symbols with SYMBOL_WRITE. */
    var write: set<Sym>

    constructor (cfg: Config, ghost rank: map<Sym, nat>, st: Memory, write: set<Sym>)
      ensures this.cfg == cfg && this.rank == rank && this.st == st && this.write == write
    {
      this.write := write;
      this.cfg := cfg;
      this.rank := rank;
      this.st := st;
    }

    /** expr_calc_value */
    method CalcExpr(e: Expr, ghost k: nat, ghost open: Option<Sym>) returns (v: Tristate)
      requires MemoryOk(cfg, rank, st) && Agrees(cfg, rank, st, k) && Readable(cfg, rank, st, ExprSyms(e), k, open)
      modifies this`st, this`write
      ensures Noted(cfg, rank, old(st), old(write), st, write)
      ensures Reached(cfg, rank, old(st), st, k)
      ensures v == Eval(e, EnvAt(cfg, rank, k, open))
      ensures AllValid(st, ExprSyms(e))
      decreases k, 1, 1, e
    {
      hide *;
      ghost var m0, w0 := st, write;
      Shape(cfg, rank, st);
      ReadableParts(cfg, rank, st, e, k, open);
      EvalStep(e, EnvAt(cfg, rank, k, open));
      match e
      case Symbol(s) =>
        CalcSymbol(s, k, open);
        v := st[s].v.tri;
        ValidParts(cfg, rank, e, m0, st, k);
      case And(a, b) =>
        var v1 := CalcExpr(a, k, open);
        ghost var m1, w1 := st, write;
        ReadableStays(cfg, rank, m0, m1, ExprSyms(b), k, open);
        var v2 := CalcExpr(b, k, open);
        v := And3(v1, v2);
        ReachedTrans(cfg, rank, m0, m1, st, k);
        NotedTrans(cfg, rank, m0, w0, m1, w1, st, write);
        ValidParts(cfg, rank, e, m1, st, k);
      case Or(a, b) =>
        var v1 := CalcExpr(a, k, open);
        ghost var m1, w1 := st, write;
        ReadableStays(cfg, rank, m0, m1, ExprSyms(b), k, open);
        var v2 := CalcExpr(b, k, open);
        v := Or3(v1, v2);
        ReachedTrans(cfg, rank, m0, m1, st, k);
        NotedTrans(cfg, rank, m0, w0, m1, w1, st, write);
        ValidParts(cfg, rank, e, m1, st, k);
      case Not(a) =>
        var v1 := CalcExpr(a, k, open);
        v := Not3(v1);
        ValidParts(cfg, rank, e, m0, st, k);
      case Equal(s, t) =>
        CalcSymbol(s, k, open);
        ghost var m1, w1 := st, write;
        ReadableStays(cfg, rank, m0, m1, {s}, k, open);
        ReadableStays(cfg, rank, m0, m1, {t}, k, open);
        CalcSymbol(t, k, open);
        ReachedShape(cfg, rank, m1, st, k);
        ValidParts(cfg, rank, e, m1, st, k);
        v := if StringValue(cfg, s, st[s].v) == StringValue(cfg, t, st[t].v) then YES else NO;
        ReachedTrans(cfg, rank, m0, m1, st, k);
        NotedTrans(cfg, rank, m0, w0, m1, w1, st, write);
        ReadableStays(cfg, rank, m1, st, {s}, k, open);
        ReadsRight(cfg, rank, st, s, {s}, k, open);
      case Unequal(s, t) =>
        CalcSymbol(s, k, open);
        ghost var m1, w1 := st, write;
        ReadableStays(cfg, rank, m0, m1, {s}, k, open);
        ReadableStays(cfg, rank, m0, m1, {t}, k, open);
        CalcSymbol(t, k, open);
        ReachedShape(cfg, rank, m1, st, k);
        ValidParts(cfg, rank, e, m1, st, k);
        v := if StringValue(cfg, s, st[s].v) == StringValue(cfg, t, st[t].v) then NO else YES;
        ReachedTrans(cfg, rank, m0, m1, st, k);
        NotedTrans(cfg, rank, m0, w0, m1, w1, st, write);
        ReadableStays(cfg, rank, m1, st, {s}, k, open);
        ReadsRight(cfg, rank, st, s, {s}, k, open);
    }

    /** sym_calc_value on a symbol read while something of rank k is evaluated. */
    method CalcSymbol(s: Sym, ghost k: nat, ghost open: Option<Sym>)
      requires MemoryOk(cfg, rank, st) && Agrees(cfg, rank, st, k) && Readable(cfg, rank, st, {s}, k, open)
      modifies this`st, this`write
      ensures Noted(cfg, rank, old(st), old(write), st, write)
      ensures Reached(cfg, rank, old(st), st, k) && s in st && st[s].valid
      ensures st[s].v.tri == EnvAt(cfg, rank, k, open).tri(s)
      ensures StringValue(cfg, s, st[s].v) == EnvAt(cfg, rank, k, open).str(s)
      ensures s in rank && (rank[s] < k ==> st[s].v == ValsBelow(cfg, rank, k)(s))
      decreases k, 1, 0
    {
      hide *;
      ghost var m0 := st;
      BeforeSymbol(cfg, rank, st, s, k, open);
      CalcValue(s);
      AfterSymbol(cfg, rank, m0, st, s, k, open);
    }

    /** Part of an expression that may be missing. */
    method CalcOpt(e: Option<Expr>, ghost k: nat, ghost open: Option<Sym>) returns (v: Tristate)
      requires MemoryOk(cfg, rank, st) && Agrees(cfg, rank, st, k) && Readable(cfg, rank, st, OptSyms(e), k, open)
      modifies this`st, this`write
      ensures Noted(cfg, rank, old(st), old(write), st, write)
      ensures Reached(cfg, rank, old(st), st, k)
      ensures v == EvalOpt(e, EnvAt(cfg, rank, k, open))
      ensures AllValid(st, OptSyms(e))
      decreases k, 1, 2
    {
      if e.None? {
        v := YES;
        ReachedRefl(cfg, rank, st, k);
        NotedRefl(cfg, rank, st, write);
      } else {
        v := CalcExpr(e.value, k, open);
      }
    }

    /** The prompt loop of sym_calc_visibility. */
    method CalcPrompts(s: Sym, ghost k: nat, ghost open: Option<Sym>) returns (tri: Tristate)
      requires MemoryOk(cfg, rank, st) && Agrees(cfg, rank, st, k) && s in st
      requires Readable(cfg, rank, st, PromptSyms(cfg.decls[s].prompts), k, open)
      modifies this`st, this`write
      ensures Noted(cfg, rank, old(st), old(write), st, write)
      ensures Reached(cfg, rank, old(st), st, k)
      ensures tri == PromptMax(cfg.decls[s].prompts, EnvAt(cfg, rank, k, open))
      ensures AllValid(st, PromptSyms(cfg.decls[s].prompts))
      decreases k, 1, 3
    {
      hide *;
      Shape(cfg, rank, st);
      ghost var m0, w0, env := st, write, EnvAt(cfg, rank, k, open);
      var ps := cfg.decls[s].prompts;
      tri := NO;
      var i := 0;
      ReachedRefl(cfg, rank, st, k);
      NotedRefl(cfg, rank, st, write);
      PromptsStart(st, ps, env);
      while i < |ps|
        invariant 0 <= i <= |ps|
        invariant Reached(cfg, rank, m0, st, k) && Noted(cfg, rank, m0, w0, st, write)
        invariant tri == PromptMax(ps[..i], env)
        invariant AllValid(st, PromptSyms(ps[..i]))
      {
        ghost var m1, w1 := st, write;
        ReachedShape(cfg, rank, m0, m1, k);
        ReadableStays(cfg, rank, m0, m1, PromptSyms(ps), k, open);
        PromptPart(ps, i);
        ReadableSub(cfg, rank, m1, PromptSyms(ps), OptSyms(ps[i]), k, open);
        var v := CalcOpt(ps[i], k, open);
        tri := Or3(tri, v);
        ReachedTrans(cfg, rank, m0, m1, st, k);
        NotedTrans(cfg, rank, m0, w0, m1, w1, st, write);
        PromptStep(cfg, rank, m1, st, ps, i, env, k);
        i := i + 1;
      }
      PromptsEnd(ps);
    }

    /** sym_calc_visibility. It stops after the prompts for a member of a choice. */
    method CalcVisibility(s: Sym, ghost k: nat, ghost open: Option<Sym>)
      requires MemoryOk(cfg, rank, st) && Agrees(cfg, rank, st, k)
      requires s in st && s in rank && rank[s] >= k && Typed(s) && open != Some(s)
      requires Readable(cfg, rank, st, VisibilitySyms(cfg.decls[s]), k, open)
      modifies this`st, this`write
      ensures Noted(cfg, rank, old(st), old(write), st, write)
      ensures Storing(cfg, rank, old(st), st, k, s)
      ensures s in st && AllValid(st, PromptSyms(cfg.decls[s].prompts))
      ensures st[s] == WithVisibility(cfg, s, old(st)[s], EnvAt(cfg, rank, k, open))
      decreases k, 1, 4
    {
      hide Noted, MemoryOk, Agrees, Readable, Reached, Storing, Frame, Spec, WellFormed, Ranked, AllValid, EnvAt, Eval,
           PromptMax, PromptSyms, OptSyms, VisibilitySyms, SameButVisible;
      ghost var m0, w0 := st, write;
      Shape(cfg, rank, st);
      ReadableVisibility(cfg, rank, st, s, k, open);
      var tri := CalcPrompts(s, k, open);
      if tri == MOD && (s.Type() != STristate || cfg.modules == NO) {
        tri := YES;
      }
      VisibleStored(cfg, rank, m0, st, k, s, tri);
      NotedStore(cfg, rank, m0, w0, st, write, s, st[s].(v := st[s].v.(visible := tri)));
      st := st[s := st[s].(v := st[s].v.(visible := tri))];
      if cfg.decls[s].owner.Some? {
        return;
      }
      ReadableStores(cfg, rank, m0, st, s, OptSyms(cfg.decls[s].dirDep), k, open);
      ReadableStores(cfg, rank, m0, st, s, OptSyms(cfg.decls[s].revDep), k, open);
      CalcSelection(s, k, open, m0, w0);
    }

    /** What follows the prompts: the direct dependency, which only decides about a warning, and what selects
        the symbol. */
    method CalcSelection(s: Sym, ghost k: nat, ghost open: Option<Sym>, ghost m0: Memory, ghost w0: set<Sym>)
      requires MemoryOk(cfg, rank, st) && Agrees(cfg, rank, st, k) && Storing(cfg, rank, m0, st, k, s)
      requires s in m0 && s in st && s in rank && rank[s] >= k && Typed(s) && !cfg.Owned(s)
      requires Readable(cfg, rank, st, OptSyms(cfg.decls[s].dirDep), k, open)
      requires Readable(cfg, rank, st, OptSyms(cfg.decls[s].revDep), k, open)
      requires AllValid(st, PromptSyms(cfg.decls[s].prompts)) && Noted(cfg, rank, m0, w0, st, write)
      modifies this`st, this`write
      ensures Noted(cfg, rank, m0, w0, st, write)
      ensures Storing(cfg, rank, m0, st, k, s)
      ensures s in st && AllValid(st, PromptSyms(cfg.decls[s].prompts))
      ensures var x := old(st)[s];
        st[s] == x.(v := x.v.(rev := Selected(cfg, s, x.v.visible, EnvAt(cfg, rank, k, open))))
      decreases k, 1, 3
    {
      hide Noted, MemoryOk, Agrees, Readable, Reached, Storing, Frame, Spec, WellFormed, Ranked, AllValid, EnvAt, Eval,
           PromptMax, PromptSyms, OptSyms, VisibilitySyms, SameButVisible;
      Shape(cfg, rank, st);
      ghost var m1, w1 := st, write;
      var dir := CalcOpt(cfg.decls[s].dirDep, k, open);
      ghost var m2, w2 := st, write;
      ReadableStays(cfg, rank, m1, m2, OptSyms(cfg.decls[s].revDep), k, open);
      var rev := NO;
      ReachedRefl(cfg, rank, st, k);
      NotedRefl(cfg, rank, st, write);
      if cfg.decls[s].revDep.Some? {
        assert OptSyms(cfg.decls[s].revDep) == ExprSyms(cfg.decls[s].revDep.value) by { OptSymsSome(cfg.decls[s].revDep); }
        rev := CalcExpr(cfg.decls[s].revDep.value, k, open);
      }
      ReachedTrans(cfg, rank, m1, m2, st, k);
      NotedTrans(cfg, rank, m1, w1, m2, w2, st, write);
      NotedTrans(cfg, rank, m0, w0, m1, w1, st, write);
      ReachedShape(cfg, rank, m1, st, k);
      ReachedKeeps(cfg, rank, m1, st, k, s);
      ValidStays(cfg, rank, m1, st, k, PromptSyms(cfg.decls[s].prompts));
      if rev == MOD && EffectiveType(cfg, s, st[s].v.visible) == SBoolean {
        rev := YES;
      }
      FieldsStored(cfg, rank, m0, m1, st, k, s, st[s].v.(rev := rev));
      NotedStore(cfg, rank, m0, w0, st, write, s, st[s].(v := st[s].v.(rev := rev)));
      st := st[s := st[s].(v := st[s].v.(rev := rev))];
    }

    /** sym_get_default_prop, with the value of its visible expression. */
    method CalcDefault(s: Sym, ghost k: nat) returns (p: Option<Default>, visible: Tristate)
      requires MemoryOk(cfg, rank, st) && Agrees(cfg, rank, st, k) && s in cfg.decls
      requires Readable(cfg, rank, st, ConditionSyms(cfg.decls[s].defaults), k, None)
      modifies this`st, this`write
      ensures Noted(cfg, rank, old(st), old(write), st, write)
      ensures Reached(cfg, rank, old(st), st, k)
      ensures p == FirstDefault(cfg.decls[s].defaults, EnvBelow(cfg, rank, k))
      ensures p.Some? ==> visible == EvalOpt(p.value.visible, EnvBelow(cfg, rank, k))
      decreases k, 1, 3
    {
      hide Noted, MemoryOk, Agrees, Readable, Reached, Frame, Spec, WellFormed, Ranked, AllValid, EnvBelow, Eval, ConditionSyms,
           OptSyms, FirstDefault, EvalOpt;
      Shape(cfg, rank, st);
      ghost var m0, w0, env := st, write, EnvBelow(cfg, rank, k);
      var ds := cfg.decls[s].defaults;
      var i := 0;
      ReachedRefl(cfg, rank, st, k);
      NotedRefl(cfg, rank, st, write);
      Whole(ds);
      while i < |ds|
        invariant 0 <= i <= |ds|
        invariant Reached(cfg, rank, m0, st, k) && Noted(cfg, rank, m0, w0, st, write)
        invariant FirstDefault(ds, env) == FirstDefault(ds[i..], env)
      {
        ghost var m1, w1 := st, write;
        ReadableStays(cfg, rank, m0, m1, ConditionSyms(ds), k, None);
        DefaultPart(cfg, rank, m1, ds, i, k, None);
        visible := CalcOpt(ds[i].visible, k, None);
        ReachedTrans(cfg, rank, m0, m1, st, k);
        NotedTrans(cfg, rank, m0, w0, m1, w1, st, write);
        DefaultStep(ds, i, env);
        if visible != NO {
          return Some(ds[i]), visible;
        }
        i := i + 1;
      }
      NoDefault(env);
      p, visible := None, NO;
    }

    /** sym_get_range_prop */
    method CalcRange(s: Sym, ghost k: nat) returns (p: Option<Range>)
      requires MemoryOk(cfg, rank, st) && Agrees(cfg, rank, st, k) && s in cfg.decls
      requires Readable(cfg, rank, st, RangeConditionSyms(cfg.decls[s].ranges), k, None)
      modifies this`st, this`write
      ensures Noted(cfg, rank, old(st), old(write), st, write)
      ensures Reached(cfg, rank, old(st), st, k)
      ensures p == FirstRange(cfg.decls[s].ranges, EnvBelow(cfg, rank, k))
      decreases k, 1, 3
    {
      hide Noted, MemoryOk, Agrees, Readable, Reached, Frame, Spec, WellFormed, Ranked, AllValid, EnvBelow, Eval,
           RangeConditionSyms, OptSyms, FirstRange, EvalOpt;
      Shape(cfg, rank, st);
      ghost var m0, w0, env := st, write, EnvBelow(cfg, rank, k);
      var rs := cfg.decls[s].ranges;
      var i := 0;
      ReachedRefl(cfg, rank, st, k);
      NotedRefl(cfg, rank, st, write);
      Whole(rs);
      while i < |rs|
        invariant 0 <= i <= |rs|
        invariant Reached(cfg, rank, m0, st, k) && Noted(cfg, rank, m0, w0, st, write)
        invariant FirstRange(rs, env) == FirstRange(rs[i..], env)
      {
        ghost var m1, w1 := st, write;
        ReadableStays(cfg, rank, m0, m1, RangeConditionSyms(rs), k, None);
        RangePart(cfg, rank, m1, rs, i, k, None);
        var visible := CalcOpt(rs[i].visible, k, None);
        ReachedTrans(cfg, rank, m0, m1, st, k);
        NotedTrans(cfg, rank, m0, w0, m1, w1, st, write);
        RangeStep(rs, i, env);
        if visible != NO {
          return Some(rs[i]);
        }
        i := i + 1;
      }
      NoDefault(env);
      p := None;
    }

    /** The member loop of sym_calc_choice. Returns whether c keeps SYMBOL_DEF_USER. */
    method CalcMembers(c: Sym) returns (keep: bool)
      requires MemoryOk(cfg, rank, st) && c in st && c in rank && Agrees(cfg, rank, st, rank[c])
      requires IsOpen(cfg, c, st[c])
      modifies this`st, this`write
      ensures Noted(cfg, rank, old(st), old(write), st, write)
      ensures Choosing(cfg, rank, old(st), st, c) && st[c] == old(st)[c]
      ensures MembersSeen(cfg, rank, st, c, |cfg.decls[c].members|)
      ensures keep <==> old(st)[c].hasUser && MembersHaveUser(cfg, rank, st, c, |cfg.decls[c].members|)
      decreases rank[c], 1, 5
    {
      hide *;
      Shape(cfg, rank, st);
      ghost var m0, w0 := st, write;
      NotedRefl(cfg, rank, st, write);
      var ms := cfg.decls[c].members;
      var i := 0;
      keep := st[c].hasUser;
      ChoosingRefl(cfg, rank, st, c);
      while i < |ms|
        invariant 0 <= i <= |ms|
        invariant Choosing(cfg, rank, m0, st, c) && MemoryOk(cfg, rank, st) && c in st && st[c] == m0[c]
        invariant MembersSeen(cfg, rank, st, c, i) && Noted(cfg, rank, m0, w0, st, write)
        invariant keep <==> m0[c].hasUser && MembersHaveUser(cfg, rank, st, c, i)
      {
        ghost var m1, w1 := st, write;
        BeforeMember(cfg, rank, m0, m1, c, i);
        CalcVisibility(ms[i], rank[c], Some(c));
        StoringShape(cfg, rank, m1, st, rank[c], ms[i]);
        AfterMember(cfg, rank, m0, m1, st, c, i);
        NotedTrans(cfg, rank, m0, w0, m1, w1, st, write);
        if st[ms[i]].v.visible != NO && !st[ms[i]].hasUser {
          keep := false;
        }
        i := i + 1;
      }
    }

    /** sym_choice_default */
    method CalcChoiceDefault(c: Sym) returns (pick: Option<Sym>)
      requires MemoryOk(cfg, rank, st) && c in st && c in rank && Agrees(cfg, rank, st, rank[c])
      requires IsOpen(cfg, c, st[c]) && MembersSeen(cfg, rank, st, c, |cfg.decls[c].members|)
      requires DeclOk(cfg, c)
      modifies this`st, this`write
      ensures Noted(cfg, rank, old(st), old(write), st, write)
      ensures Reached(cfg, rank, old(st), st, rank[c]) && MembersSeen(cfg, rank, st, c, |cfg.decls[c].members|)
      ensures var env := EnvAt(cfg, rank, rank[c], Some(c));
        var q := FirstVisibleDefault(cfg, cfg.decls[c].defaults, env);
        pick == if q.Some? then q else FirstVisible(cfg, cfg.decls[c].members, env)
      decreases rank[c], 1, 5
    {
      hide Noted, MemoryOk, Agrees, Readable, Reached, Frame, Spec, WellFormed, Ranked, AllValid, EnvAt, Eval, ConditionSyms,
           OptSyms, FirstVisibleDefault, FirstVisible, EvalOpt, Visible, DeclOk, MembersSeen;
      Shape(cfg, rank, st);
      ChoiceFacts(cfg, rank, st, c);
      ghost var m0, w0, env := st, write, EnvAt(cfg, rank, rank[c], Some(c));
      var ds, ms := cfg.decls[c].defaults, cfg.decls[c].members;
      var i := 0;
      ReachedRefl(cfg, rank, st, rank[c]);
      NotedRefl(cfg, rank, st, write);
      Whole(ds);
      Whole(ms);
      while i < |ds|
        invariant 0 <= i <= |ds|
        invariant Reached(cfg, rank, m0, st, rank[c]) && Noted(cfg, rank, m0, w0, st, write)
        invariant FirstVisibleDefault(cfg, ds, env) == FirstVisibleDefault(cfg, ds[i..], env)
      {
        ghost var m1, w1 := st, write;
        ReadableStays(cfg, rank, m0, m1, ConditionSyms(ds), rank[c], Some(c));
        DefaultPart(cfg, rank, m1, ds, i, rank[c], Some(c));
        var visible := CalcOpt(ds[i].visible, rank[c], Some(c));
        ReachedTrans(cfg, rank, m0, m1, st, rank[c]);
        NotedTrans(cfg, rank, m0, w0, m1, w1, st, write);
        ReachedShape(cfg, rank, m0, st, rank[c]);
        SeenStays(cfg, rank, m0, st, c);
        assert ds[i] in ds;
        SeenMember(cfg, rank, st, c, ds[i].value.sym);
        ChoiceDefaultStep(cfg, ds, i, env);
        if visible != NO && st[ds[i].value.sym].v.visible != NO {
          return Some(ds[i].value.sym);
        }
        i := i + 1;
      }
      ReachedShape(cfg, rank, m0, st, rank[c]);
      SeenStays(cfg, rank, m0, st, c);
      NoChoiceDefault(cfg, env);
      ghost var m2, w2 := st, write;
      var j := 0;
      while j < |ms|
        invariant 0 <= j <= |ms| && st == m2 && write == w2
        invariant FirstVisible(cfg, ms, env) == FirstVisible(cfg, ms[j..], env)
      {
        assert ms[j] in ms;
        SeenMember(cfg, rank, st, c, ms[j]);
        FirstVisibleStep(cfg, ms, j, env);
        if st[ms[j]].v.visible != NO {
          return Some(ms[j]);
        }
        j := j + 1;
      }
      pick := None;
    }

    /** sym_calc_choice on a choice that has just become y. It falls back to n if no member is visible,
        and loses its user value if some visible member has none. */
    method CalcChoice(c: Sym) returns (pick: Option<Sym>)
      requires MemoryOk(cfg, rank, st) && c in st && c in rank && Agrees(cfg, rank, st, rank[c])
      requires IsOpen(cfg, c, st[c]) && DeclOk(cfg, c)
      modifies this`st, this`write
      ensures Noted(cfg, rank, old(st), old(write), st, write)
      ensures Choosing(cfg, rank, old(st), st, c)
      ensures MemoryOk(cfg, rank, st) && MembersSeen(cfg, rank, st, c, |cfg.decls[c].members|)
      ensures pick == Pick(cfg, c, EnvAt(cfg, rank, rank[c], Some(c)))
      ensures st[c].v == old(st)[c].v.(tri := if pick.Some? then YES else NO) && st[c].valid
      ensures st[c].hasUser <==> old(st)[c].hasUser && MembersKeep(cfg, rank, c)
      decreases rank[c], 1, 6
    {
      hide Noted, MemoryOk, Agrees, Readable, Reached, Frame, Spec, WellFormed, Ranked, AllValid, EnvAt, Eval, ConditionSyms,
           OptSyms, FirstVisibleDefault, FirstVisible, EvalOpt, Visible, DeclOk, MembersSeen, MembersHaveUser, SlotOk,
           Choosing, Typed, MembersKeep;
      ghost var m0, w0 := st, write;
      Shape(cfg, rank, st);
      var keep := CalcMembers(c);
      ChoosingShape(cfg, rank, m0, st, c);
      ChoiceFacts(cfg, rank, st, c);
      ghost var m1 := st;
      NotedStore(cfg, rank, m0, w0, st, write, c, st[c].(hasUser := keep));
      SlotKeep(cfg, c, st[c], keep);
      ChoosingStore(cfg, rank, m0, m1, c, st[c].(hasUser := keep));
      st := st[c := st[c].(hasUser := keep)];
      ChoosingShape(cfg, rank, m0, st, c);
      SeenStore(cfg, rank, m1, c, st[c]);
      AllHaveUser(cfg, rank, m1, c);
      var p := cfg.user(c).pick;
      if p.Some? {
        SeenMember(cfg, rank, st, c, p.value);
        if st[p.value].v.visible != NO {
          return p;
        }
      }
      ghost var m2, w2 := st, write;
      pick := CalcChoiceDefault(c);
      ChoosingReached(cfg, rank, m0, m2, st, c);
      NotedTrans(cfg, rank, m0, w0, m2, w2, st, write);
      ChoosingShape(cfg, rank, m0, st, c);
      if pick.None? {
        ghost var m3 := st;
        ChoiceFacts(cfg, rank, st, c);
        SlotWrite(cfg, c, st[c], st[c].(v := st[c].v.(tri := NO)));
        ChoosingStore(cfg, rank, m0, m3, c, st[c].(v := st[c].v.(tri := NO)));
        NotedStore(cfg, rank, m0, w0, st, write, c, st[c].(v := st[c].v.(tri := NO)));
        st := st[c := st[c].(v := st[c].v.(tri := NO))];
        ChoosingShape(cfg, rank, m0, st, c);
        SeenStore(cfg, rank, m3, c, st[c]);
      }
    }

    /** The boolean and tristate case of sym_calc_value, up to storing the new value; mark says whether it
        sets SYMBOL_WRITE. */
    method CalcTristate(s: Sym) returns (tri: Tristate, mark: bool)
      requires InProgress(cfg, rank, st, s) && (s.Type() == SBoolean || s.Type() == STristate)
      modifies this`st, this`write
      ensures Noted(cfg, rank, old(st), old(write), st, write)
      ensures Reached(cfg, rank, old(st), st, rank[s])
      ensures tri == TristateOf(cfg, s, s in cfg.hasUser, ValsBelow(cfg, rank, rank[s]), EnvBelow(cfg, rank, rank[s]))
      ensures mark <==> MarksNow(cfg, rank, s)
      decreases rank[s], 1, 7
    {
      hide Noted, MemoryOk, Agrees, Readable, Reached, Frame, Spec, WellFormed, Ranked, AllValid, EnvBelow, Eval, ConditionSyms,
           OptSyms, EvalOpt, Visible, DeclOk, SlotOk, Selected, ValsBelow, InProgress, ExprSyms, PromptSyms, Needs;
      Progress(cfg, rank, st, s);
      ghost var k := rank[s];
      ReachedRefl(cfg, rank, st, k);
      NotedRefl(cfg, rank, st, write);
      ghost var m0, w0, env := st, write, EnvBelow(cfg, rank, k);
      var d := cfg.decls[s];
      var visible := st[s].v.visible;
      if d.owner.Some? && visible == YES {
        OwnerReads(cfg, rank, st, s);
        tri, mark := if st[d.owner.value].v.pick == Some(s) then YES else NO, false;
        return;
      }
      tri, mark := NO, visible != NO || st[s].v.rev != NO;
      if visible != NO && st[s].hasUser {
        tri := And3(cfg.user(s).tri, visible);
      } else if !d.Choice() {
        var p, pv := CalcDefault(s, k);
        if p.Some? {
          mark := true;
          ghost var m1, w1 := st, write;
          DefaultReads(cfg, rank, m0, m1, s, p.value);
          var v := CalcExpr(p.value.value, k, None);
          ReachedTrans(cfg, rank, m0, m1, st, k);
          NotedTrans(cfg, rank, m0, w0, m1, w1, st, write);
          tri := And3(v, pv);
        }
        ReachedKeeps(cfg, rank, m0, st, k, s);
      }
      tri := Or3(tri, st[s].v.rev);
      if tri == MOD && EffectiveType(cfg, s, visible) == SBoolean {
        tri := YES;
      }
    }

    /** The int, hex and string case of sym_calc_value. */
    method CalcText(s: Sym) returns (str: string, mark: bool)
      requires InProgress(cfg, rank, st, s) && (s.Type() == SInt || s.Type() == SHex || s.Type() == SString)
      modifies this`st, this`write
      ensures Noted(cfg, rank, old(st), old(write), st, write)
      ensures Reached(cfg, rank, old(st), st, rank[s])
      ensures str == TextOf(cfg, s, s in cfg.hasUser, ValsBelow(cfg, rank, rank[s]), EnvBelow(cfg, rank, rank[s]))
      ensures mark <==> MarksNow(cfg, rank, s)
      decreases rank[s], 1, 7
    {
      hide Noted, MemoryOk, Agrees, Readable, Reached, Frame, Spec, WellFormed, Ranked, AllValid, EnvBelow, Eval, ConditionSyms,
           OptSyms, EvalOpt, Visible, DeclOk, SlotOk, Selected, ValsBelow, InProgress, PromptSyms, Needs;
      Progress(cfg, rank, st, s);
      ghost var k := rank[s];
      ReachedRefl(cfg, rank, st, k);
      NotedRefl(cfg, rank, st, write);
      ghost var m0, w0 := st, write;
      mark := st[s].v.visible != NO;
      if st[s].v.visible != NO && st[s].hasUser {
        str := cfg.user(s).str;
        return;
      }
      str := "";
      var p, pv := CalcDefault(s, k);
      if p.Some? && p.value.value.Symbol? {
        mark := true;
        ghost var m1, w1 := st, write;
        var ds := p.value.value.sym;
        DefaultReads(cfg, rank, m0, m1, s, p.value);
        CalcSymbol(ds, k, None);
        ReachedTrans(cfg, rank, m0, m1, st, k);
        NotedTrans(cfg, rank, m0, w0, m1, w1, st, write);
        str := st[ds].v.str;
      }
    }

    /** sym_validate_range on the string just computed. */
    method ValidateRange(s: Sym, str: string) returns (r: string)
      requires InProgress(cfg, rank, st, s) && (s.Type() == SInt || s.Type() == SHex || s.Type() == SString)
      modifies this`st, this`write
      ensures Noted(cfg, rank, old(st), old(write), st, write)
      ensures Reached(cfg, rank, old(st), st, rank[s])
      ensures r == RangeChecked(cfg, s, str, ValsBelow(cfg, rank, rank[s]), EnvBelow(cfg, rank, rank[s]))
      decreases rank[s], 1, 7
    {
      hide Noted, MemoryOk, Agrees, Readable, Reached, Frame, Spec, WellFormed, Ranked, AllValid, EnvBelow, Eval, ConditionSyms,
           OptSyms, EvalOpt, Visible, DeclOk, SlotOk, Selected, ValsBelow, InProgress, PromptSyms, Needs,
           RangeConditionSyms, FirstRange;
      Progress(cfg, rank, st, s);
      ghost var k := rank[s];
      ReachedRefl(cfg, rank, st, k);
      NotedRefl(cfg, rank, st, write);
      ghost var m0, w0 := st, write;
      if s.Type() == SString {
        return str;
      }
      var base := Base(s.Type(), 0);
      var prop := CalcRange(s, k);
      if prop.None? {
        return str;
      }
      ghost var m1, w1 := st, write;
      var val := cfg.strtoll(str, base);
      RangeReads(cfg, rank, m0, m1, s, prop.value);
      CalcSymbol(prop.value.lo, k, None);
      ghost var m2, w2 := st, write;
      ReachedTrans(cfg, rank, m0, m1, m2, k);
      NotedTrans(cfg, rank, m0, w0, m1, w1, m2, w2);
      var val2 := cfg.strtoll(st[prop.value.lo].v.str, Base(prop.value.lo.Type(), base));
      if val >= val2 {
        RangeReads(cfg, rank, m0, m2, s, prop.value);
        CalcSymbol(prop.value.hi, k, None);
        ReachedTrans(cfg, rank, m0, m2, st, k);
        NotedTrans(cfg, rank, m0, w0, m2, w2, st, write);
        val2 := cfg.strtoll(st[prop.value.hi].v.str, Base(prop.value.hi.Type(), base));
        if val <= val2 {
          return str;
        }
      }
      r := cfg.sprintf(val2, base);
    }

    /** The rest of sym_calc_value for an int, hex or string, whose evaluation began with the memory m0. */
    method StoreText(s: Sym, ghost m0: Memory) returns (mark: bool)
      requires InProgress(cfg, rank, st, s) && (s.Type() == SInt || s.Type() == SHex || s.Type() == SString)
      requires s in rank && st[s].v.tri == NO && st[s].v.pick == None && MemoryOk(cfg, rank, m0) && s in m0
      requires Agrees(cfg, rank, m0, rank[s] + 1) && Storing(cfg, rank, m0, st, rank[s], s)
      modifies this`st, this`write
      ensures Noted(cfg, rank, old(st), old(write), st, write)
      ensures Reached(cfg, rank, m0, st, rank[s] + 1) && s in st && st[s].valid
      ensures st[s].v == Spec(cfg, rank, s) && (st[s].hasUser <==> FlagKept(cfg, rank, s))
      ensures mark <==> MarksNow(cfg, rank, s)
      decreases rank[s], 1, 8
    {
      hide *;
      ghost var m1, w1, k := st, write, rank[s];
      var str;
      str, mark := CalcText(s);
      ProgressStays(cfg, rank, m1, st, s);
      StoringReached(cfg, rank, m0, m1, st, k, s);
      ProgressStore(cfg, rank, m0, st, s, NO, str);
      NotedStore(cfg, rank, m1, w1, st, write, s, st[s].(v := st[s].v.(tri := NO, str := str)));
      st := st[s := st[s].(v := st[s].v.(tri := NO, str := str))];
      ghost var m2, w2 := st, write;
      var checked := ValidateRange(s, str);
      ProgressStays(cfg, rank, m2, st, s);
      NotedTrans(cfg, rank, m1, w1, m2, w2, st, write);
      StoringReached(cfg, rank, m0, m2, st, k, s);
      ProgressStore(cfg, rank, m0, st, s, NO, checked);
      NotedStore(cfg, rank, m1, w1, st, write, s, st[s].(v := st[s].v.(tri := NO, str := checked)));
      st := st[s := st[s].(v := st[s].v.(tri := NO, str := checked))];
      EndText(cfg, rank, m0, st, s, str, checked);
    }

    /** The rest of sym_calc_value for a boolean or tristate. */
    method StoreTristate(s: Sym, ghost m0: Memory) returns (mark: bool)
      requires InProgress(cfg, rank, st, s) && (s.Type() == SBoolean || s.Type() == STristate)
      requires s in rank && st[s].v.tri == NO && st[s].v.pick == None && MemoryOk(cfg, rank, m0) && s in m0 && !m0[s].valid
      requires Agrees(cfg, rank, m0, rank[s] + 1) && Storing(cfg, rank, m0, st, rank[s], s)
      modifies this`st, this`write
      ensures Noted(cfg, rank, old(st), old(write), st, write)
      ensures Reached(cfg, rank, m0, st, rank[s] + 1) && s in st && st[s].valid
      ensures st[s].v == Spec(cfg, rank, s) && (st[s].hasUser <==> FlagKept(cfg, rank, s))
      ensures mark <==> MarksNow(cfg, rank, s)
      ensures MembersShown(cfg, rank, st, s)
      decreases rank[s], 1, 8
    {
      hide *;
      ghost var m1, w1, k := st, write, rank[s];
      var tri;
      tri, mark := CalcTristate(s);
      ProgressStays(cfg, rank, m1, st, s);
      StoringReached(cfg, rank, m0, m1, st, k, s);
      ProgressStore(cfg, rank, m0, st, s, tri, "n");
      NotedStore(cfg, rank, m1, w1, st, write, s, st[s].(v := st[s].v.(tri := tri, str := "n")));
      st := st[s := st[s].(v := st[s].v.(tri := tri, str := "n"))];
      ghost var m2, w2 := st, write;
      BeforeChoice(cfg, rank, st, s);
      if cfg.decls[s].Choice() && tri == YES {
        var pick := CalcChoice(s);
        ghost var m3 := st;
        NotedTrans(cfg, rank, m1, w1, m2, w2, st, write);
        StoringChosen(cfg, rank, m0, m2, m3, s);
        StoringShape(cfg, rank, m0, m3, k, s);
        PickStore(cfg, rank, m0, m3, s, pick);
        NotedStore(cfg, rank, m1, w1, st, write, s, st[s].(v := st[s].v.(pick := pick)));
        st := st[s := st[s].(v := st[s].v.(pick := pick))];
        EndTristate(cfg, rank, m0, st, s, tri, pick);
        PickShown(cfg, rank, m0, m3, st, s);
      } else {
        EndTristate(cfg, rank, m0, st, s, tri, None);
        NoneShown(cfg, rank, st, s);
      }
    }

    /** Setting SYMBOL_WRITE, in a choice also for its members visible by then. */
    method Mark(s: Sym)
      requires MemoryOk(cfg, rank, st) && s in st
      modifies this`write
      ensures s in cfg.decls && write == old(write) + MarkedBy(cfg, st, s)
    {
      hide MemoryOk, VisibleIn;
      Shape(cfg, rank, st);
      write := write + {s};
      if cfg.decls[s].Choice() {
        MembersThere(cfg, s);
        var ms := VisibleMembers(s);
        write := write + ms;
      }
    }

    /** The members of c that are visible, by what is stored. */
    method VisibleMembers(c: Sym) returns (ms: set<Sym>)
      requires c in cfg.decls && forall m :: m in cfg.decls[c].members ==> m in st
      ensures ms == VisibleIn(st, cfg.decls[c].members)
    {
      hide VisibleIn;
      var all := cfg.decls[c].members;
      ms := {};
      var i := 0;
      NoneVisible(st);
      assert all[..0] == [];
      while i < |all|
        invariant 0 <= i <= |all| && ms == VisibleIn(st, all[..i])
      {
        assert all[i] in all;
        VisibleMore(st, all, i, {});
        if st[all[i]].v.visible != NO {
          ms := ms + {all[i]};
        }
        i := i + 1;
      }
      assert all[..i] == all;
    }

    /** sym_calc_value. Once SYMBOL_VALID is set, the stored value is the specified one. What it marks with
        SYMBOL_WRITE, itself and what it evaluates on the way included, is noted. */
    method CalcValue(s: Sym)
      requires MemoryOk(cfg, rank, st) && s in st
      requires !st[s].valid ==> Agrees(cfg, rank, st, rank[s] + 1)
      modifies this`st, this`write
      ensures Noted(cfg, rank, old(st), old(write), st, write)
      ensures old(st[s].valid) ==> st == old(st) && write == old(write)
      ensures !old(st[s].valid) ==> Reached(cfg, rank, old(st), st, rank[s] + 1) && s in st && st[s].valid
      ensures !old(st[s].valid) ==> st[s].v == Spec(cfg, rank, s) && (st[s].hasUser <==> FlagKept(cfg, rank, s))
      decreases rank[s], if st[s].valid then 0 else 2
    {
      hide *;
      NotedRefl(cfg, rank, st, write);
      if st[s].valid {
        return;
      }
      Shape(cfg, rank, st);
      ghost var m0, w0, k := st, write, rank[s];
      Begin(cfg, rank, m0, s);
      st := st[s := st[s].(valid := true)];
      if !Typed(s) {
        EndUntyped(cfg, rank, m0, st, s);
        st := st[s := st[s].(v := st[s].v.(tri := NO, str := cfg.decls[s].name, pick := None))];
        assert st == m0[s := st[s]];
        NotedUntyped(cfg, rank, m0, w0, s, st[s]);
        return;
      }
      CalcTyped(s, m0);
    }

    /** The rest of sym_calc_value for a symbol with a type, after SYMBOL_VALID has been set. */
    method CalcTyped(s: Sym, ghost m0: Memory)
      requires MemoryOk(cfg, rank, m0) && s in m0 && s in rank && !m0[s].valid && Agrees(cfg, rank, m0, rank[s] + 1)
      requires st == m0[s := m0[s].(valid := true)] && Typed(s)
      modifies this`st, this`write
      ensures Noted(cfg, rank, m0, old(write), st, write)
      ensures Reached(cfg, rank, m0, st, rank[s] + 1) && s in st && st[s].valid
      ensures st[s].v == Spec(cfg, rank, s) && (st[s].hasUser <==> FlagKept(cfg, rank, s))
      decreases rank[s], 1, 9
    {
      hide *;
      Shape(cfg, rank, m0);
      ghost var w0, m1, k := write, st, rank[s];
      Begin(cfg, rank, m0, s);
      if !cfg.Owned(s) {
        write := write - {s};
      }
      UnmarkedIs(cfg, w0, s);
      ghost var w1 := write;
      CalcVisibility(s, k, None);
      // the provisional value, seen if the evaluation came back here
      var text := s.Type() == SInt || s.Type() == SHex || s.Type() == SString;
      TypeCases(s);
      Enter(cfg, rank, m1, st, s, if text then "" else "n");
      NotedStore(cfg, rank, m1, w1, st, write, s, st[s].(v := st[s].v.(tri := NO, str := if text then "" else "n", pick := None)));
      st := st[s := st[s].(v := st[s].v.(tri := NO, str := if text then "" else "n", pick := None))];
      StoringTrans(cfg, rank, m0, m1, st, k, s);
      ghost var m2, w2 := st, write;
      var mark;
      MarksAgree(cfg, rank, s);
      if text {
        mark := StoreText(s, m0);
        TextIsNoChoice(cfg, rank, s);
        NoChoiceShown(cfg, rank, st, s);
      } else {
        mark := StoreTristate(s, m0);
      }
      ReachedShape(cfg, rank, m0, st, k + 1);
      NotedTrans(cfg, rank, m1, w1, m2, w2, st, write);
      NotedEnd(cfg, rank, m0, w0, m1, st, write, s, mark);
      WithMarksIs(cfg, write, st, s, mark);
      if mark {
        Mark(s);
      }
    }

    /** Evaluating any symbols in any order gives each its specified value. */
    method CalcAll(order: seq<Sym>)
      requires MemoryOk(cfg, rank, st) && Settled(cfg, rank, st) && forall s :: s in order ==> s in st
      modifies this`st, this`write
      ensures Noted(cfg, rank, old(st), old(write), st, write)
      ensures MemoryOk(cfg, rank, st) && Settled(cfg, rank, st)
      ensures forall s :: s in order ==> s in st && st[s].valid && st[s].v == Spec(cfg, rank, s)
      ensures forall s :: s in order ==> (st[s].hasUser <==> FlagKept(cfg, rank, s))
    {
      hide Noted, Spec, WellFormed, Ranked, SlotOk, Reached, Frame, Agrees, Settled, FlagKept, MemoryOk;
      ghost var keys, before, w0 := st.Keys, st, write;
      NotedRefl(cfg, rank, st, write);
      var i := 0;
      while i < |order|
        invariant 0 <= i <= |order|
        invariant MemoryOk(cfg, rank, st) && Settled(cfg, rank, st) && st.Keys == keys
        invariant Noted(cfg, rank, before, w0, st, write)
        invariant forall j :: 0 <= j < i ==> order[j] in st && st[order[j]].valid
      {
        ghost var m0, w1 := st, write;
        assert order[i] in order;
        RankedSlot(cfg, rank, m0, order[i]);
        SettledAt(cfg, rank, m0, rank[order[i]] + 1);
        CalcValue(order[i]);
        SettledStays(cfg, rank, m0, st, order[i]);
        NotedTrans(cfg, rank, before, w0, m0, w1, st, write);
        i := i + 1;
      }
      SettledValues(cfg, rank, st, order);
    }

    /** sym_clear_all_valid; modules_sym is evaluated by the caller. */
    method ClearAllValid()
      modifies this`st
      ensures Cleared(old(st), st)
    {
      var rest := st.Keys;
      while rest != {}
        invariant rest <= old(st).Keys && st.Keys == old(st).Keys
        invariant forall s :: s in rest ==> st[s] == old(st)[s]
        invariant forall s :: s in st && s !in rest ==> st[s] == old(st)[s].(valid := Permanent(s) && old(st)[s].valid)
        decreases rest
      {
        var s :| s in rest;
        if !s.Predefined() && s.Type() != SOther {
          st := st[s := st[s].(valid := false)];
        }
        rest := rest - {s};
      }
    }

    /** sym_set_tristate_value. Setting a member of a choice to y also makes it the pick of its choice and
        gives the choice and all its visible members a user value. */
    method SetTristateValue(s: Sym, val: Tristate) returns (ok: bool)
      requires MemoryOk(cfg, rank, st) && Settled(cfg, rank, st) && s in st && s.Declared?
      modifies this`st, this`cfg
      ensures ok <==> old(st)[s].v.tri == val || WithinRange(old(cfg), s, old(st)[s].v, val)
      ensures !ok ==> st == old(st) && cfg == old(cfg)
      ensures ok ==> cfg == SetValue(old(cfg), old(st), s, val) && s in st
      ensures ok && old(st)[s].v.tri == val ==> st == Flag(old(st), Touched(old(cfg), old(st), s, val))
      ensures ok && old(st)[s].v.tri != val ==>
        Cleared(Flag(old(st), Touched(old(cfg), old(st), s, val)), st) && MemoryOk(cfg, rank, st) && Settled(cfg, rank, st)
    {
      hide Spec, WellFormed, Ranked, SlotOk, Agrees, Settled, MemoryOk, Cleared, WithinRange;
      Shape(cfg, rank, st);
      var oldval := st[s].v.tri;
      if oldval != val && !WithinRange(cfg, s, st[s].v, val) {
        return false;
      }
      ghost var m0, cfg0 := st, cfg;
      TouchedOk(cfg, st, s, val);
      cfg := SetValue(cfg, st, s, val);
      st := st[s := st[s].(hasUser := true)];
      if cfg.Owned(s) && val == YES {
        FlagMembers(s, cfg.decls[s].owner.value, m0);
      }
      assert st == Flag(m0, Touched(cfg0, m0, s, val));
      if oldval != val {
        ClearAllValid();
        SetSettles(cfg0, rank, m0, st, s, val);
      }
      ok := true;
    }

    /** Giving the choice c and its visible members a user value. */
    method FlagMembers(s: Sym, c: Sym, ghost m0: Memory)
      requires c in st && c in cfg.decls && st == Flag(m0, {s}) && s in m0
      requires c in m0 && forall m :: m in cfg.decls[c].members ==> m in m0
      modifies this`st
      ensures st == Flag(m0, {s, c} + VisibleIn(m0, cfg.decls[c].members))
    {
      hide Flag, VisibleIn;
      FlagMore(m0, {s}, c);
      assert {s} + {c} == {s, c};
      st := st[c := st[c].(hasUser := true)];
      var ms := cfg.decls[c].members;
      var i := 0;
      assert {s, c} + VisibleIn(m0, ms[..0]) == {s, c} by { NoneVisible(m0); }
      while i < |ms|
        invariant 0 <= i <= |ms| && forall m :: m in ms ==> m in m0
        invariant st == Flag(m0, {s, c} + VisibleIn(m0, ms[..i]))
      {
        assert ms[i] in ms;
        VisibleMore(m0, ms, i, {s, c});
        FlagMore(m0, {s, c} + VisibleIn(m0, ms[..i]), ms[i]);
        if st[ms[i]].v.visible != NO {
          st := st[ms[i] := st[ms[i]].(hasUser := true)];
        }
        i := i + 1;
      }
      assert ms[..i] == ms;
    }

    /** Setting a value within range and evaluating the symbol again. Whether it gets the value depends on what
        limits it under the user values still flagged at the call, which the caller can look at before; a
        symbol outside choices gets it whenever nothing it may depend on has lost its user value. */
    method SetThenCalc(s: Sym, val: Tristate) returns (ok: bool)
      requires MemoryOk(cfg, rank, st) && Settled(cfg, rank, st) && s in st && s.Declared? && st[s].valid
      modifies this`st, this`cfg, this`write
      ensures ok <==> old(st)[s].v.tri == val || WithinRange(old(cfg), s, old(st)[s].v, val)
      ensures !ok ==> st == old(st) && cfg == old(cfg)
      ensures ok ==> s in st && st[s].valid
      ensures ok && old(st)[s].v.tri == val ==> st[s].v == old(st)[s].v
      ensures ok && old(st)[s].v.tri != val ==>
        (Obtained(old(cfg), s, st[s].v, val) <==> Takes(old(cfg), rank, old(st), s, val))
      ensures ok && !old(cfg).Owned(s) && !old(cfg).decls[s].Choice() && KeptBelow(old(cfg), rank, old(st), s) ==>
        st[s].v.tri == val
    {
      hide Noted, Spec, WellFormed, Ranked, SlotOk, Agrees, Settled, MemoryOk, Cleared, WithinRange, Takes, Obtained, KeptBelow;
      ghost var m0, cfg0 := st, cfg;
      SettledValue(cfg, rank, st, s);
      Shape(cfg, rank, st);
      var oldval := st[s].v.tri;
      ok := SetTristateValue(s, val);
      if ok && oldval != val {
        Shape(cfg, rank, st);
        SetAgain(cfg0, cfg, rank, m0, st, s, val);
        SettledAt(cfg, rank, st, rank[s] + 1);
        CalcValue(s);
      } else if ok {
        FlagKeeps(m0, Touched(cfg0, m0, s, val), s);
      }
    }
  }
}
