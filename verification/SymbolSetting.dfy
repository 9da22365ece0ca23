/** Setting the value of a symbol, of a choice or of a member, and evaluating again: when the value set is
    the value obtained. */
module SymbolSetting {
  import opened Options
  import opened Tristates
  import opened Exprs
  import opened SymbolSpec
  import opened SymbolState
  import opened SymbolTheorems

  // ----- setting a value -----

  /** sym_tristate_within_range */
  predicate WithinRange(cfg: Config, s: Sym, v: Value, val: Tristate)
    requires s in cfg.decls
  {
    var t := EffectiveType(cfg, s, v.visible);
    if v.visible == NO then false
    else if t != SBoolean && t != STristate then false
    else if t == SBoolean && val == MOD then false
    else if v.visible <= v.rev then false
    else if cfg.Owned(s) && v.visible == YES then val == YES
    else v.rev <= val <= v.visible
  }

  /** The configuration with another user value for s. */
  function SetUser(cfg: Config, s: Sym, val: Tristate): Config {
    cfg.(user := (t: Sym) => if t == s then cfg.user(t).(tri := val) else cfg.user(t), hasUser := cfg.hasUser + {s})
  }

  /** An in-range value given to a boolean or tristate that is neither a choice nor a visible member of one
      is exactly the value it gets, provided what it depends on kept its user values. */
  lemma SetTakesEffect(cfg: Config, cfg2: Config, rank: map<Sym, nat>, s: Sym, val: Tristate)
    requires SameStatic(cfg, cfg2) && WellFormed(cfg) && WellFormed(cfg2) && Ranked(cfg, rank) && Ranked(cfg2, rank)
    requires s in cfg.decls && !cfg.decls[s].Choice() && !cfg.Owned(s)
    requires WithinRange(cfg, s, Spec(cfg, rank, s), val)
    requires SameUsers(cfg, cfg2, rank, rank[s]) && s in cfg2.hasUser && cfg2.user(s).tri == val
    ensures Spec(cfg2, rank, s).tri == val
    ensures Spec(cfg2, rank, s).visible == Spec(cfg, rank, s).visible && Spec(cfg2, rank, s).rev == Spec(cfg, rank, s).rev
  {
    hide Spec, WellFormed, Needs, Visible, Selected, AgreeOn, Pick, RangeChecked, TextOf;
    DeclsOk(cfg, s);
    DeclsOk(cfg2, s);
    BelowLocal(cfg, cfg2, rank, s);
    SpecUnfolds(cfg, rank, s);
    SpecUnfolds(cfg2, rank, s);
    LimitsAgree(cfg, cfg2, s, EnvBelow(cfg, rank, rank[s]), EnvBelow(cfg2, rank, rank[s]));
  }

  /** Whether the limits of a symbol leave it a value: select floor up to visibility, or the floor itself
      above that. A symbol that is not visible keeps the value it has. */
  predicate Admits(v: Value, val: Tristate) {
    if v.visible == NO then v.tri == val else v.rev <= val <= Or3(v.visible, v.rev)
  }

  /** The value a symbol outside choices has after it is set: the one set exactly if its limits, which
      setting it does not touch, admit that value. */
  lemma SetExact(cfg: Config, rank: map<Sym, nat>, s: Sym, val: Tristate)
    requires WellFormed(cfg) && Ranked(cfg, rank) && s in cfg.decls && s.Declared?
    requires !cfg.decls[s].Choice() && !cfg.Owned(s) && (s.Type() == SBoolean || s.Type() == STristate)
    requires val == MOD ==> s.Type() == STristate && cfg.modules != NO
    ensures WellFormed(SetUser(cfg, s, val)) && Ranked(SetUser(cfg, s, val), rank)
    ensures var v, v2 := Spec(cfg, rank, s), Spec(SetUser(cfg, s, val), rank, s);
      && (v2.tri == val <==> Admits(v, val))
      && v2.visible == v.visible && v2.rev == v.rev
  {
    hide Spec, WellFormed, Ranked, Needs, Visible, Selected, AgreeOn, Pick, RangeChecked, TextOf, TriValue;
    var cfg2 := SetUser(cfg, s, val);
    SetUserOk(cfg, rank, s, val);
    RanksBelow(cfg, rank, s);
    DeclsOk(cfg, s);
    DeclsOk(cfg2, s);
    BelowLocal(cfg, cfg2, rank, s);
    SpecUnfolds(cfg, rank, s);
    SpecUnfolds(cfg2, rank, s);
    var a, b := EnvBelow(cfg, rank, rank[s]), EnvBelow(cfg2, rank, rank[s]);
    LimitsAgree(cfg, cfg2, s, a, b);
    DefaultAgrees(cfg, s, a, b);
    if s.Type() == SBoolean || cfg.modules == NO { LimitsTyped(cfg, s, a); }
    SetOwn(cfg, cfg2, s, val, Visible(cfg, s, a), Selected(cfg, s, Visible(cfg, s, a), a), a, b);
  }

  lemma SetUserOk(cfg: Config, rank: map<Sym, nat>, s: Sym, val: Tristate)
    requires WellFormed(cfg) && Ranked(cfg, rank) && s.Declared?
    ensures WellFormed(SetUser(cfg, s, val)) && Ranked(SetUser(cfg, s, val), rank)
  {
    hide Needs, Ranked;
    var cfg2 := SetUser(cfg, s, val);
    SameNeeds(cfg, cfg2, rank);
    forall t | t in cfg2.decls ensures DeclOk(cfg2, t) {
      assert DeclOk(cfg, t);
      if !t.Declared? { SameNeedsAt(cfg, cfg2, t); }
    }
  }

  /** Neither limit is m where m is no value of the symbol. */
  lemma LimitsTyped(cfg: Config, s: Sym, env: Env)
    requires s in cfg.decls && !cfg.Owned(s) && (s.Type() == SBoolean || cfg.modules == NO)
    requires s.Type() == SBoolean || s.Type() == STristate
    ensures Visible(cfg, s, env) != MOD && Selected(cfg, s, Visible(cfg, s, env), env) != MOD
  {
    hide PromptMax, Eval;
  }

  /** The user value decides if the symbol is visible, and nothing has changed if it is not. */
  lemma SetOwn(cfg: Config, cfg2: Config, s: Sym, val: Tristate, visible: Tristate, rev: Tristate, a: Env, b: Env)
    requires s in cfg.decls && cfg2 == SetUser(cfg, s, val) && !cfg.Owned(s) && !cfg.decls[s].Choice()
    requires s.Type() == SBoolean || s.Type() == STristate
    requires val == MOD ==> s.Type() == STristate && cfg.modules != NO
    requires s.Type() == SBoolean || cfg.modules == NO ==> visible != MOD && rev != MOD
    requires var p := FirstDefault(cfg.decls[s].defaults, a);
      && p == FirstDefault(cfg.decls[s].defaults, b)
      && (p.Some? ==> Eval(p.value.value, a) == Eval(p.value.value, b)
                      && EvalOpt(p.value.visible, a) == EvalOpt(p.value.visible, b))
    ensures TriValue(cfg2, s, true, visible, rev, b) == val <==>
      if visible == NO then TriValue(cfg, s, s in cfg.hasUser, visible, rev, a) == val
      else rev <= val <= Or3(visible, rev)
  {
    hide FirstDefault, Eval, EvalOpt;
  }

  // ----- a new epoch of evaluation -----

  /** Every valid symbol, of whatever rank, has its specified value. */
  ghost predicate Settled(cfg: Config, rank: map<Sym, nat>, st: Memory)
    requires MemoryOk(cfg, rank, st)
  {
    forall k: nat :: Agrees(cfg, rank, st, k)
  }

  /** What sym_clear_all_valid leaves valid. */
  predicate Permanent(s: Sym) { s.Predefined() || s.Type() == SOther }

  /** The memory after sym_clear_all_valid. */
  ghost predicate Cleared(a: Memory, b: Memory) {
    b.Keys == a.Keys && forall s :: s in a ==> b[s] == a[s].(valid := Permanent(s) && a[s].valid)
  }

  /** The user values as the flags in the memory say. */
  function Flagged(st: Memory): set<Sym> { set s | s in st && st[s].hasUser }

  function Now(cfg: Config, st: Memory): Config { cfg.(hasUser := Flagged(st)) }

  lemma NowOk(cfg: Config, rank: map<Sym, nat>, st: Memory)
    requires MemoryOk(cfg, rank, st)
    ensures WellFormed(Now(cfg, st)) && Ranked(Now(cfg, st), rank)
  {
    hide Needs, Ranked;
    var cfg2 := Now(cfg, st);
    SameNeeds(cfg, cfg2, rank);
    forall t | t in cfg2.decls ensures DeclOk(cfg2, t) {
      assert DeclOk(cfg, t);
      if t in st { assert SlotOk(cfg, t, st[t]); }
      if !t.Declared? { SameNeedsAt(cfg, cfg2, t); }
    }
  }

  /** The value of s under the user values the memory still flags. */
  ghost function Expected(cfg: Config, rank: map<Sym, nat>, st: Memory, s: Sym): Value
    requires MemoryOk(cfg, rank, st) && s in st
  {
    NowOk(cfg, rank, st);
    Spec(Now(cfg, st), rank, s)
  }

  /** Nothing of lower rank than s has lost its user value. */
  ghost predicate KeptBelow(cfg: Config, rank: map<Sym, nat>, st: Memory, s: Sym)
    requires MemoryOk(cfg, rank, st) && s in st
  {
    forall t :: t in cfg.hasUser && t in st && rank[t] < rank[s] ==> st[t].hasUser
  }

  lemma SameNeeds(cfg: Config, cfg2: Config, rank: map<Sym, nat>)
    requires SameStatic(cfg, cfg2) && Ranked(cfg, rank)
    ensures Ranked(cfg2, rank)
  {
    hide PromptSyms, DefaultSyms, RangeSyms, OptSyms;
    forall s | s in cfg2.decls ensures RankedAt(cfg2, rank, s) {
      assert RankedAt(cfg, rank, s);
      assert MemberSyms(cfg, s) == MemberSyms(cfg2, s);
      assert Needs(cfg, s) == Needs(cfg2, s);
    }
  }

  lemma PermanentValue(cfg: Config, cfg2: Config, rank: map<Sym, nat>, s: Sym)
    requires SameStatic(cfg, cfg2) && WellFormed(cfg) && WellFormed(cfg2) && Ranked(cfg, rank) && Ranked(cfg2, rank)
    requires s in cfg.decls && Permanent(s)
    ensures Spec(cfg, rank, s) == Spec(cfg2, rank, s)
    ensures !cfg.Owned(s) && (FlagKept(cfg2, rank, s) <==> s in cfg2.hasUser)
  {
    hide Needs, EnvBelow, ValsBelow;
    DeclsOk(cfg, s);
    SpecUnfolds(cfg, rank, s);
    SpecUnfolds(cfg2, rank, s);
  }

  lemma RankedSlot(cfg: Config, rank: map<Sym, nat>, st: Memory, s: Sym)
    requires MemoryOk(cfg, rank, st) && s in st
    ensures s in rank
  {
  }

  lemma SettledAt(cfg: Config, rank: map<Sym, nat>, st: Memory, k: nat)
    requires MemoryOk(cfg, rank, st) && Settled(cfg, rank, st)
    ensures Agrees(cfg, rank, st, k)
  {
    hide MemoryOk, Agrees;
  }

  lemma SettledValue(cfg: Config, rank: map<Sym, nat>, st: Memory, s: Sym)
    requires MemoryOk(cfg, rank, st) && Settled(cfg, rank, st) && s in st && st[s].valid
    ensures s in cfg.decls && st[s].v == Spec(cfg, rank, s) && (st[s].hasUser <==> FlagKept(cfg, rank, s))
  {
    hide SlotOk, WellFormed, Ranked, Spec, FlagKept;
    assert Agrees(cfg, rank, st, rank[s] + 1);
  }

  lemma SettledValues(cfg: Config, rank: map<Sym, nat>, st: Memory, order: seq<Sym>)
    requires MemoryOk(cfg, rank, st) && Settled(cfg, rank, st) && forall s :: s in order ==> s in st && st[s].valid
    ensures forall s :: s in order ==> st[s].v == Spec(cfg, rank, s) && (st[s].hasUser <==> FlagKept(cfg, rank, s))
  {
    hide Spec, SlotOk, FlagKept, Settled;
    forall s | s in order ensures st[s].v == Spec(cfg, rank, s) && (st[s].hasUser <==> FlagKept(cfg, rank, s)) {
      SettledValue(cfg, rank, st, s);
    }
  }

  /** The memory before anything has been evaluated. */
  function InitialMemory(cfg: Config): Memory {
    map s | s in cfg.decls :: State(s.Predefined(), s in cfg.hasUser, if s.Predefined() then PredefinedValue(s) else BaseValue())
  }

  /** The memory after conf_reset and the reading of a file that gives the symbols users a value: what has
      been computed before is still in it, but not valid; conf_reset does not reach the predefined symbols. */
  ghost predicate Reread(a: Memory, b: Memory, users: set<Sym>) {
    && b.Keys == a.Keys
    && forall s :: s in a ==>
         && b[s].v == a[s].v && (b[s].hasUser <==> s in users)
         && (b[s].valid ==> Permanent(s) && a[s].valid) && (s.Predefined() ==> b[s].valid == a[s].valid)
  }

  lemma InitialSettled(cfg: Config, rank: map<Sym, nat>)
    requires WellFormed(cfg) && Ranked(cfg, rank)
    ensures MemoryOk(cfg, rank, InitialMemory(cfg)) && Settled(cfg, rank, InitialMemory(cfg))
  {
    hide Spec, WellFormed, Ranked, FlagKept;
    var st := InitialMemory(cfg);
    assert rank.Keys == cfg.decls.Keys by { RankKeys(cfg, rank); }
    forall s | s in st ensures SlotOk(cfg, s, st[s]) {
      DeclsOk(cfg, s);
      hide Needs;
    }
    assert MemoryOk(cfg, rank, st);
    hide SlotOk, MemoryOk;
    forall k: nat ensures Agrees(cfg, rank, st, k) {
      forall s | s in st && rank[s] < k && st[s].valid
        ensures st[s].v == Spec(cfg, rank, s) && (st[s].hasUser <==> FlagKept(cfg, rank, s)) && !cfg.Owned(s)
      {
        PermanentValue(cfg, cfg, rank, s);
        SpecTyped(cfg, rank, s);
      }
    }
  }

  lemma RankKeys(cfg: Config, rank: map<Sym, nat>)
    requires Ranked(cfg, rank)
    ensures rank.Keys == cfg.decls.Keys
  {
  }

  /** Whatever has been evaluated under earlier user values, a file that has been read starts afresh. */
  lemma RereadSettles(cfg: Config, cfg2: Config, rank: map<Sym, nat>, a: Memory, b: Memory)
    requires MemoryOk(cfg, rank, a) && Settled(cfg, rank, a) && SameStatic(cfg, cfg2) && WellFormed(cfg2)
    requires Reread(a, b, cfg2.hasUser)
    ensures MemoryOk(cfg2, rank, b) && Settled(cfg2, rank, b)
  {
    hide Spec, Needs, WellFormed, Agrees, Ranked, FlagKept;
    SameNeeds(cfg, cfg2, rank);
    RankKeys(cfg, rank);
    forall t | t in b ensures SlotOk(cfg2, t, b[t]) { assert SlotOk(cfg, t, a[t]); }
    assert MemoryOk(cfg2, rank, b);
    forall k: nat ensures Agrees(cfg2, rank, b, k) {
      assert Agrees(cfg, rank, a, k);
      RereadAgrees(cfg, cfg2, rank, a, b, k);
    }
  }

  lemma RereadAgrees(cfg: Config, cfg2: Config, rank: map<Sym, nat>, a: Memory, b: Memory, k: nat)
    requires MemoryOk(cfg, rank, a) && Agrees(cfg, rank, a, k) && MemoryOk(cfg2, rank, b)
    requires Reread(a, b, cfg2.hasUser) && SameStatic(cfg, cfg2)
    ensures Agrees(cfg2, rank, b, k)
  {
    hide Spec, SlotOk, WellFormed, Ranked, FlagKept;
    forall t | t in b && rank[t] < k && b[t].valid
      ensures b[t].v == Spec(cfg2, rank, t) && !cfg2.Owned(t) && (b[t].hasUser <==> FlagKept(cfg2, rank, t))
    {
      PermanentValue(cfg, cfg2, rank, t);
    }
  }

  /** One evaluation keeps everything settled, and keeps valid what is. */
  lemma SettledStays(cfg: Config, rank: map<Sym, nat>, a: Memory, b: Memory, s: Sym)
    requires MemoryOk(cfg, rank, a) && Settled(cfg, rank, a) && s in a && s in rank
    requires if a[s].valid then b == a else Reached(cfg, rank, a, b, rank[s] + 1) && s in b && b[s].valid
    ensures MemoryOk(cfg, rank, b) && Settled(cfg, rank, b) && b.Keys == a.Keys
    ensures forall t :: t in a && a[t].valid ==> b[t].valid
  {
    hide SlotOk, WellFormed, Ranked, Spec;
    if !a[s].valid {
      forall k: nat ensures Agrees(cfg, rank, b, k) {
        if k > rank[s] {
          assert Agrees(cfg, rank, a, k);
          ReachedLifts(cfg, rank, a, b, rank[s] + 1, k);
        }
      }
    }
  }

  /** The memory with the user flags of xs set. */
  function Flag(st: Memory, xs: set<Sym>): Memory {
    map t | t in st :: if t in xs then st[t].(hasUser := true) else st[t]
  }

  function VisibleIn(st: Memory, ms: seq<Sym>): set<Sym> { set m | m in ms && m in st && st[m].v.visible != NO }

  lemma FlagMore(st: Memory, xs: set<Sym>, t: Sym)
    requires t in st
    ensures Flag(st, xs + {t}) == Flag(st, xs)[t := Flag(st, xs)[t].(hasUser := true)]
    ensures Flag(st, xs).Keys == st.Keys && Flag(st, xs)[t].v == st[t].v
  {
  }

  lemma FlagKeeps(st: Memory, xs: set<Sym>, t: Sym)
    requires t in st
    ensures t in Flag(st, xs) && Flag(st, xs)[t] == st[t].(hasUser := st[t].hasUser || t in xs)
  {
  }

  lemma NoneVisible(st: Memory)
    ensures VisibleIn(st, []) == {}
  {
  }

  lemma VisibleMore(st: Memory, ms: seq<Sym>, i: nat, xs: set<Sym>)
    requires i < |ms|
    ensures xs + VisibleIn(st, ms[..i + 1]) ==
      if ms[i] in st && st[ms[i]].v.visible != NO then xs + VisibleIn(st, ms[..i]) + {ms[i]}
      else xs + VisibleIn(st, ms[..i])
  {
    assert ms[..i + 1] == ms[..i] + [ms[i]];
  }

  /** The symbols that get SYMBOL_WRITE with s. */
  function MarkedBy(cfg: Config, st: Memory, s: Sym): set<Sym>
    requires s in cfg.decls
  {
    {s} + if cfg.decls[s].Choice() then VisibleIn(st, cfg.decls[s].members) else {}
  }

  /** Whose user flags sym_set_tristate_value sets: with a member set to y also those of its choice and of
      all visible members. */
  function Touched(cfg: Config, st: Memory, s: Sym, val: Tristate): set<Sym>
    requires WellFormed(cfg) && s in cfg.decls
  {
    assert DeclOk(cfg, s);
    if cfg.Owned(s) && val == YES then
      var c := cfg.decls[s].owner.value;
      {s, c} + VisibleIn(st, cfg.decls[c].members)
    else {s}
  }

  /** The configuration after sym_set_tristate_value. */
  function SetValue(cfg: Config, st: Memory, s: Sym, val: Tristate): Config
    requires WellFormed(cfg) && s in cfg.decls
  {
    var n := SetUser(Now(cfg, st), s, val);
    if cfg.Owned(s) && val == YES then
      var c := cfg.decls[s].owner.value;
      n.(user := (t: Sym) => if t == c then n.user(t).(pick := Some(s)) else n.user(t),
         hasUser := Flagged(st) + Touched(cfg, st, s, val))
    else n
  }

  lemma TouchedOk(cfg: Config, st: Memory, s: Sym, val: Tristate)
    requires WellFormed(cfg) && s in cfg.decls && s.Declared?
    ensures forall t :: t in Touched(cfg, st, s, val) ==> t in cfg.decls && t.Declared?
    ensures SetValue(cfg, st, s, val).hasUser == Flagged(st) + Touched(cfg, st, s, val)
    ensures cfg.Owned(s) ==> var c := cfg.decls[s].owner.value; c in cfg.decls && c != s && s in cfg.decls[c].members
    ensures cfg.Owned(s) ==> forall m :: m in cfg.decls[cfg.decls[s].owner.value].members ==> m in cfg.decls
  {
    hide Needs;
    assert DeclOk(cfg, s);
    if cfg.Owned(s) {
      var c := cfg.decls[s].owner.value;
      assert DeclOk(cfg, c);
      forall m | m in cfg.decls[c].members ensures m in cfg.decls && m.Declared? { assert DeclOk(cfg, m); }
    }
  }

  lemma SetSettles(cfg: Config, rank: map<Sym, nat>, a: Memory, b: Memory, s: Sym, val: Tristate)
    requires MemoryOk(cfg, rank, a) && Settled(cfg, rank, a) && s in a && s.Declared?
    requires Cleared(Flag(a, Touched(cfg, a, s, val)), b)
    ensures var cfg2 := SetValue(cfg, a, s, val); MemoryOk(cfg2, rank, b) && Settled(cfg2, rank, b)
  {
    hide Needs, WellFormed, Ranked, Touched, SetValue, MemoryOk, Settled;
    Shape(cfg, rank, a);
    SetStatic(cfg, a, s, val);
    SetWellFormed(cfg, rank, a, s, val);
    TouchedOk(cfg, a, s, val);
    RereadSettles(cfg, SetValue(cfg, a, s, val), rank, a, b);
  }

  lemma SetStatic(cfg: Config, a: Memory, s: Sym, val: Tristate)
    requires WellFormed(cfg) && s in cfg.decls
    ensures SameStatic(cfg, SetValue(cfg, a, s, val))
  {
  }

  lemma SetWellFormed(cfg: Config, rank: map<Sym, nat>, a: Memory, s: Sym, val: Tristate)
    requires MemoryOk(cfg, rank, a) && s in a && s.Declared?
    ensures WellFormed(SetValue(cfg, a, s, val))
  {
    hide Needs, Ranked, Touched;
    var cfg2 := SetValue(cfg, a, s, val);
    TouchedOk(cfg, a, s, val);
    forall t | t in cfg2.decls ensures DeclOk(cfg2, t) {
      assert DeclOk(cfg, t);
      if t in a { assert SlotOk(cfg, t, a[t]); }
      if !t.Declared? { SameNeedsAt(cfg, cfg2, t); }
    }
  }

  lemma SameNeedsAt(cfg: Config, cfg2: Config, s: Sym)
    requires SameStatic(cfg, cfg2) && s in cfg.decls
    ensures Needs(cfg, s) == Needs(cfg2, s)
  {
    hide PromptSyms, DefaultSyms, RangeSyms, OptSyms;
    assert MemberSyms(cfg, s) == MemberSyms(cfg2, s);
  }

  lemma SetAgain(cfg: Config, cfg2: Config, rank: map<Sym, nat>, a: Memory, b: Memory, s: Sym, val: Tristate)
    requires MemoryOk(cfg, rank, a) && s in a && s in rank && a[s].v == Spec(cfg, rank, s) && s.Declared?
    requires WithinRange(cfg, s, a[s].v, val)
    requires cfg2 == SetValue(cfg, a, s, val) && MemoryOk(cfg2, rank, b)
    requires Cleared(Flag(a, Touched(cfg, a, s, val)), b)
    ensures s in b && !b[s].valid && cfg2.decls == cfg.decls
    ensures Obtained(cfg, s, Spec(cfg2, rank, s), val) <==> Takes(cfg, rank, a, s, val)
    ensures !cfg.Owned(s) && !cfg.decls[s].Choice() && KeptBelow(cfg, rank, a, s) ==> Spec(cfg2, rank, s).tri == val
  {
    hide Spec, Needs, WellFormed, Ranked, KeptBelow, SlotOk, Takes, Touched, Obtained;
    assert s.Type() == SBoolean || s.Type() == STristate;
    hide WithinRange;
    SetAny(cfg, cfg2, rank, a, s, val);
    if !cfg.Owned(s) && !cfg.decls[s].Choice() && KeptBelow(cfg, rank, a, s) { SetKept(cfg, cfg2, rank, a, s, val); }
  }

  lemma SetKept(cfg: Config, cfg2: Config, rank: map<Sym, nat>, a: Memory, s: Sym, val: Tristate)
    requires MemoryOk(cfg, rank, a) && s in a && s in rank && !cfg.Owned(s) && !cfg.decls[s].Choice()
    requires WithinRange(cfg, s, Spec(cfg, rank, s), val) && KeptBelow(cfg, rank, a, s)
    requires cfg2 == SetUser(Now(cfg, a), s, val) && WellFormed(cfg2) && Ranked(cfg2, rank)
    ensures Spec(cfg2, rank, s).tri == val
  {
    hide Spec, Needs, WellFormed, Ranked, WithinRange;
    forall t | t in rank && rank[t] < rank[s]
      ensures cfg.user(t) == cfg2.user(t) && (t in cfg.hasUser <==> t in cfg2.hasUser)
    {
      assert SlotOk(cfg, t, a[t]);
    }
    SetTakesEffect(cfg, cfg2, rank, s, val);
  }

  /** The tristate that a user value gives a symbol with the limits of v. */
  function Given(cfg: Config, s: Sym, user: Tristate, v: Value): Tristate
    requires s in cfg.decls
  {
    var tri := Or3(And3(user, v.visible), v.rev);
    if tri == MOD && EffectiveType(cfg, s, v.visible) == SBoolean then YES else tri
  }

  /** The visibility a choice finds its member m to have while it decides. */
  ghost function SeenByChoice(cfg: Config, rank: map<Sym, nat>, c: Sym, m: Sym): Tristate
    requires WellFormed(cfg) && Ranked(cfg, rank) && c in cfg.decls && m in cfg.decls
  {
    Visible(cfg, m, EnvAt(cfg, rank, rank[c], Some(c)))
  }

  /** Whether setting the member s to y selects it: under the user values flagged in the memory, the user
      value of its choice makes the choice y, and the choice finds that s may be y. */
  ghost predicate Selectable(cfg: Config, rank: map<Sym, nat>, a: Memory, s: Sym)
    requires MemoryOk(cfg, rank, a) && s in a && cfg.Owned(s) && cfg.decls[s].owner.value in a
  {
    NowOk(cfg, rank, a);
    var c := cfg.decls[s].owner.value;
    && Given(cfg, c, cfg.user(c).tri, Expected(cfg, rank, a, c)) == YES
    && SeenByChoice(Now(cfg, a), rank, c, s) == YES
  }

  lemma OwnerThere(cfg: Config, rank: map<Sym, nat>, a: Memory, s: Sym)
    requires MemoryOk(cfg, rank, a) && s in a
    ensures cfg.Owned(s) ==> var c := cfg.decls[s].owner.value;
      c in a && c in rank && rank[c] < rank[s] && cfg.decls[c].Choice() && s in cfg.decls[c].members
  {
    hide Needs, SlotOk;
    DeclsOk(cfg, s);
    if cfg.Owned(s) { MembersAbove(cfg, rank, cfg.decls[s].owner.value, s); }
  }

  /** A member set to y is y by its choice if and only if it is selectable, whatever has happened to the user
      values below the choice. */
  lemma SelectExact(cfg: Config, rank: map<Sym, nat>, a: Memory, s: Sym)
    requires MemoryOk(cfg, rank, a) && s in a && s.Declared? && cfg.Owned(s)
    ensures cfg.decls[s].owner.value in a
    ensures var cfg2 := SetValue(cfg, a, s, YES); WellFormed(cfg2) && Ranked(cfg2, rank)
    ensures var cfg2 := SetValue(cfg, a, s, YES); var c, v := cfg.decls[s].owner.value, Spec(cfg2, rank, s);
      && (v.visible == YES && v.tri == YES <==> Selectable(cfg, rank, a, s))
      && (Selectable(cfg, rank, a, s) ==> Spec(cfg2, rank, c).tri == YES && Spec(cfg2, rank, c).pick == Some(s))
  {
    hide Spec, WellFormed, Ranked, Needs, SlotOk, Visible, SetValue, KeptBelow, Touched, MembersKeep, Given;
    var cfg2, c := SetValue(cfg, a, s, YES), cfg.decls[s].owner.value;
    OwnerThere(cfg, rank, a, s);
    NowOk(cfg, rank, a);
    SetStatic(cfg, a, s, YES);
    SameNeeds(cfg, cfg2, rank);
    SetWellFormed(cfg, rank, a, s, YES);
    SelectUsers(cfg, rank, a, s);
    SelectSeen(Now(cfg, a), cfg2, rank, c, s);
    SelectChoice(Now(cfg, a), cfg2, rank, c, s);
    SameGiven(cfg, a, c);
    MemberSpec(cfg2, rank, c, s);
    if Spec(cfg2, rank, c).tri == YES {
      MemberSees(cfg2, rank, c, s);
    } else {
      NoPick(cfg2, rank, c);
    }
  }

  lemma SameGiven(cfg: Config, a: Memory, s: Sym)
    requires s in cfg.decls
    ensures forall user, v :: Given(Now(cfg, a), s, user, v) == Given(cfg, s, user, v)
  {
  }

  /** A choice that is not y picks nothing. */
  lemma NoPick(cfg: Config, rank: map<Sym, nat>, c: Sym)
    requires WellFormed(cfg) && Ranked(cfg, rank) && c in cfg.decls && cfg.decls[c].Choice()
    requires Spec(cfg, rank, c).tri != YES
    ensures Spec(cfg, rank, c).pick == None
  {
    hide Spec, WellFormed, Needs, Visible, Selected, FirstVisible, FirstVisibleDefault, TristateOf;
    DeclsOk(cfg, c);
    SpecUnfolds(cfg, rank, c);
  }

  /** The user values below the choice are those flagged, the choice has one, and its pick is s. */
  lemma SelectUsers(cfg: Config, rank: map<Sym, nat>, a: Memory, s: Sym)
    requires MemoryOk(cfg, rank, a) && s in a && s.Declared? && cfg.Owned(s)
    ensures var cfg2, c := SetValue(cfg, a, s, YES), cfg.decls[s].owner.value;
      && c in rank && SameStatic(Now(cfg, a), cfg2) && SameUsers(Now(cfg, a), cfg2, rank, rank[c]) && rank[c] < rank[s]
      && c in cfg2.hasUser && cfg2.user(c) == cfg.user(c).(pick := Some(s))
      && VisibleIn(a, cfg.decls[c].members) <= cfg2.hasUser
  {
    hide Needs, Ranked, WellFormed, SlotOk;
    var cfg2, c := SetValue(cfg, a, s, YES), cfg.decls[s].owner.value;
    OwnerThere(cfg, rank, a, s);
    TouchedOk(cfg, a, s, YES);
    hide Touched;
    TouchedMembers(cfg, a, s);
    forall t | t in rank && rank[t] < rank[c]
      ensures cfg.user(t) == cfg2.user(t) && (t in Flagged(a) <==> t in cfg2.hasUser)
    {
      if t in cfg.decls[c].members { MembersAbove(cfg, rank, c, t); }
    }
  }

  lemma TouchedMembers(cfg: Config, a: Memory, s: Sym)
    requires WellFormed(cfg) && s in cfg.decls && cfg.Owned(s)
    ensures cfg.decls[s].owner.value in cfg.decls
    ensures var c := cfg.decls[s].owner.value; var ms := cfg.decls[c].members;
      && Touched(cfg, a, s, YES) == {s, c} + VisibleIn(a, ms)
      && forall m :: m in VisibleIn(a, ms) ==> m in ms
  {
    DeclsOk(cfg, s);
    hide Needs, WellFormed;
  }

  lemma MembersAbove(cfg: Config, rank: map<Sym, nat>, c: Sym, m: Sym)
    requires WellFormed(cfg) && Ranked(cfg, rank) && c in cfg.decls && m in cfg.decls[c].members
    ensures m in cfg.decls && rank[c] < rank[m]
  {
    hide Needs;
    var i :| 0 <= i < |cfg.decls[c].members| && cfg.decls[c].members[i] == m;
    MemberOf(cfg, rank, c, i);
  }

  /** With the same user values below the choice it sees its members as before. */
  lemma SelectSeen(cfg: Config, cfg2: Config, rank: map<Sym, nat>, c: Sym, m: Sym)
    requires SameStatic(cfg, cfg2) && WellFormed(cfg) && WellFormed(cfg2) && Ranked(cfg, rank) && Ranked(cfg2, rank)
    requires c in cfg.decls && cfg.decls[c].Choice() && m in cfg.decls[c].members && m in cfg.decls
    requires SameUsers(cfg, cfg2, rank, rank[c])
    ensures SeenByChoice(cfg2, rank, c, m) == SeenByChoice(cfg, rank, c, m)
  {
    hide Spec, WellFormed, Needs, Visible, AgreeOn, PromptSyms;
    RanksBelow(cfg, rank, c);
    BelowLocal(cfg, cfg2, rank, c);
    var a, b := EnvBelow(cfg, rank, rank[c]), EnvBelow(cfg2, rank, rank[c]);
    MemberAgrees(cfg, c, m, a, b);
    VisibleLocal(cfg, cfg2, m, WithChoice(c, a), WithChoice(c, b));
  }

  /** A choice with a user value picks a member it is told to and that is visible, as soon as it is y; and it
      is y if that value, under the limits it has anyway, makes it so. */
  lemma SelectChoice(cfg: Config, cfg2: Config, rank: map<Sym, nat>, c: Sym, s: Sym)
    requires SameStatic(cfg, cfg2) && WellFormed(cfg) && WellFormed(cfg2) && Ranked(cfg, rank) && Ranked(cfg2, rank)
    requires c in cfg.decls && cfg.decls[c].Choice() && s in cfg.decls[c].members && s in cfg.decls
    requires SameUsers(cfg, cfg2, rank, rank[c])
    requires c in cfg2.hasUser && cfg2.user(c) == cfg.user(c).(pick := Some(s))
    ensures SeenByChoice(cfg2, rank, c, s) != NO ==>
      if Given(cfg, c, cfg.user(c).tri, Spec(cfg, rank, c)) == YES
        then Spec(cfg2, rank, c).tri == YES && Spec(cfg2, rank, c).pick == Some(s)
        else Spec(cfg2, rank, c).tri != YES
  {
    hide Spec, WellFormed, Needs, Visible, Given, FirstVisible, FirstVisibleDefault;
    RanksBelow(cfg, rank, c);
    DeclsOk(cfg2, c);
    ChoiceGiven(cfg, cfg2, rank, c);
  }

  /** The tristate and the pick of a choice that has a user value. */
  lemma ChoiceGiven(cfg: Config, cfg2: Config, rank: map<Sym, nat>, c: Sym)
    requires SameStatic(cfg, cfg2) && WellFormed(cfg) && WellFormed(cfg2) && Ranked(cfg, rank) && Ranked(cfg2, rank)
    requires c in cfg.decls && cfg.decls[c].Choice() && SameUsers(cfg, cfg2, rank, rank[c]) && c in cfg2.hasUser
    ensures DeclOk(cfg2, c)
    ensures var tri, pick := Given(cfg, c, cfg2.user(c).tri, Spec(cfg, rank, c)), Pick(cfg2, c, EnvAt(cfg2, rank, rank[c], Some(c)));
      var v := Spec(cfg2, rank, c);
      && v.tri == (if tri == YES && pick.None? then NO else tri)
      && v.pick == (if tri == YES then pick else None)
  {
    hide Spec, WellFormed, Ranked, Visible, Selected, Pick, EnvBelow, ValsBelow;
    RanksBelow(cfg, rank, c);
    DeclsOk(cfg2, c);
    SameLimits(cfg, cfg2, rank, c);
    SpecUnfolds(cfg2, rank, c);
  }

  /** The limits of a choice depend on the user values below it only. */
  lemma SameLimits(cfg: Config, cfg2: Config, rank: map<Sym, nat>, c: Sym)
    requires SameStatic(cfg, cfg2) && WellFormed(cfg) && WellFormed(cfg2) && Ranked(cfg, rank) && Ranked(cfg2, rank)
    requires c in cfg.decls && cfg.decls[c].Choice() && SameUsers(cfg, cfg2, rank, rank[c])
    ensures c in rank && Spec(cfg2, rank, c).visible == Spec(cfg, rank, c).visible
    ensures Spec(cfg2, rank, c).rev == Spec(cfg, rank, c).rev
    ensures var env := EnvBelow(cfg2, rank, rank[c]);
      && Spec(cfg2, rank, c).visible == Visible(cfg2, c, env)
      && Spec(cfg2, rank, c).rev == Selected(cfg2, c, Visible(cfg2, c, env), env)
  {
    hide Spec, WellFormed, Needs, Visible, Selected, AgreeOn, Pick, TristateOf;
    RanksBelow(cfg, rank, c);
    DeclsOk(cfg, c);
    BelowLocal(cfg, cfg2, rank, c);
    SpecUnfolds(cfg, rank, c);
    SpecUnfolds(cfg2, rank, c);
    LimitsAgree(cfg, cfg2, c, EnvBelow(cfg, rank, rank[c]), EnvBelow(cfg2, rank, rank[c]));
  }

  /** Whether the choice finds any member visible. */
  ghost predicate SomeSeen(cfg: Config, rank: map<Sym, nat>, c: Sym)
    requires WellFormed(cfg) && Ranked(cfg, rank) && c in cfg.decls
  {
    exists m :: m in cfg.decls[c].members && m in cfg.decls && SeenByChoice(cfg, rank, c, m) != NO
  }

  /** A choice that is set itself: the value it gets is the one given under its limits, except that it
      cannot be y without a visible member. */
  lemma SetChoiceExact(cfg: Config, rank: map<Sym, nat>, c: Sym, val: Tristate)
    requires WellFormed(cfg) && Ranked(cfg, rank) && c in cfg.decls && c.Declared? && cfg.decls[c].Choice()
    ensures WellFormed(SetUser(cfg, c, val)) && Ranked(SetUser(cfg, c, val), rank)
    ensures var tri, v2 := Given(cfg, c, val, Spec(cfg, rank, c)), Spec(SetUser(cfg, c, val), rank, c);
      v2.tri == if tri == YES && !SomeSeen(cfg, rank, c) then NO else tri
  {
    hide Spec, WellFormed, Needs, Visible, Given, FirstVisible, FirstVisibleDefault;
    var cfg2 := SetUser(cfg, c, val);
    SetUserOk(cfg, rank, c, val);
    RanksBelow(cfg, rank, c);
    DeclsOk(cfg2, c);
    ChoiceGiven(cfg, cfg2, rank, c);
    forall m | m in cfg.decls[c].members ensures m in cfg.decls && SeenByChoice(cfg2, rank, c, m) == SeenByChoice(cfg, rank, c, m) {
      SelectSeen(cfg, cfg2, rank, c, m);
    }
    PickSeen(cfg2, rank, c);
  }

  lemma PickSeen(cfg: Config, rank: map<Sym, nat>, c: Sym)
    requires WellFormed(cfg) && Ranked(cfg, rank) && c in cfg.decls && cfg.decls[c].Choice() && DeclOk(cfg, c)
    ensures Pick(cfg, c, EnvAt(cfg, rank, rank[c], Some(c))).Some? <==> SomeSeen(cfg, rank, c)
  {
    hide Spec, WellFormed, Needs, Visible, FirstVisible, FirstVisibleDefault;
  }

  /** A member set to n or m: it gets that value unless its choice decides about it, or it is hidden; then it
      keeps the value it has. */
  lemma SetMemberExact(cfg: Config, rank: map<Sym, nat>, s: Sym, val: Tristate)
    requires WellFormed(cfg) && Ranked(cfg, rank) && s in cfg.decls && s.Declared? && cfg.Owned(s) && val != YES
    ensures WellFormed(SetUser(cfg, s, val)) && Ranked(SetUser(cfg, s, val), rank)
    ensures var v, v2 := Spec(cfg, rank, s), Spec(SetUser(cfg, s, val), rank, s);
      v2.visible == v.visible && v2.tri == if v.visible == MOD then val else v.tri
  {
    hide Spec, WellFormed, Ranked, Needs, Visible, Selected, AgreeOn, Pick, RangeChecked, TextOf, FirstDefault, Eval, EvalOpt;
    var cfg2 := SetUser(cfg, s, val);
    SetUserOk(cfg, rank, s, val);
    RanksBelow(cfg, rank, s);
    DeclsOk(cfg, s);
    DeclsOk(cfg2, s);
    BelowLocal(cfg, cfg2, rank, s);
    SpecUnfolds(cfg, rank, s);
    SpecUnfolds(cfg2, rank, s);
    var a, b := EnvBelow(cfg, rank, rank[s]), EnvBelow(cfg2, rank, rank[s]);
    LimitsAgree(cfg, cfg2, s, a, b);
    DefaultAgrees(cfg, s, a, b);
    OwnerNeeded(cfg, s);
    MemberLimits(cfg, s, a);
  }

  lemma MemberLimits(cfg: Config, s: Sym, env: Env)
    requires s in cfg.decls && cfg.Owned(s)
    ensures Selected(cfg, s, Visible(cfg, s, env), env) == NO
    ensures Visible(cfg, s, env) == MOD ==> s.Type() == STristate && cfg.modules != NO
  {
    hide PromptMax;
  }

  /** Setting a visible member of a choice that is y to y: the choice stays y, picks the member, and keeps
      its user value; the member becomes y. Provided nothing below the choice has lost its user value. */
  lemma SelectTakesEffect(cfg: Config, rank: map<Sym, nat>, a: Memory, s: Sym)
    requires MemoryOk(cfg, rank, a) && Settled(cfg, rank, a) && s in a && s.Declared? && cfg.Owned(s)
    requires var c := cfg.decls[s].owner.value;
      && c in a && Spec(cfg, rank, c).tri == YES && KeptBelow(cfg, rank, a, c)
      && forall m :: m in cfg.decls[c].members ==> m in a && a[m].valid
    requires WithinRange(cfg, s, a[s].v, YES) && a[s].v.visible == YES
    ensures var cfg2, c := SetValue(cfg, a, s, YES), cfg.decls[s].owner.value;
      && WellFormed(cfg2) && Ranked(cfg2, rank)
      && Spec(cfg2, rank, c).tri == YES && Spec(cfg2, rank, c).pick == Some(s) && FlagKept(cfg2, rank, c)
      && Spec(cfg2, rank, s).tri == YES && Spec(cfg2, rank, s).visible == YES
  {
    hide Spec, WellFormed, Ranked, Needs, SlotOk, Visible, SetValue, WithinRange, KeptBelow, Touched, MembersKeep, Given;
    var now, cfg2, c := Now(cfg, a), SetValue(cfg, a, s, YES), cfg.decls[s].owner.value;
    OwnerThere(cfg, rank, a, s);
    NowOk(cfg, rank, a);
    SetStatic(cfg, a, s, YES);
    SelectUsers(cfg, rank, a, s);
    NothingLost(cfg, rank, a, c);
    MemberSees(cfg, rank, c, s);
    SettledValue(cfg, rank, a, s);
    MemberSpec(cfg, rank, c, s);
    SelectSeen(cfg, now, rank, c, s);
    StillGiven(cfg, now, rank, c);
    SelectExact(cfg, rank, a, s);
    SelectKeeps(cfg, rank, a, s);
  }

  /** Then the flags in the memory say what the configuration says, below c. */
  lemma NothingLost(cfg: Config, rank: map<Sym, nat>, a: Memory, c: Sym)
    requires MemoryOk(cfg, rank, a) && c in a && KeptBelow(cfg, rank, a, c)
    ensures c in rank && SameUsers(cfg, Now(cfg, a), rank, rank[c])
  {
    hide Needs, Ranked, WellFormed;
    forall t | t in rank && rank[t] < rank[c] ensures t in cfg.hasUser <==> t in Flagged(a) {
      assert SlotOk(cfg, t, a[t]);
    }
  }

  /** A choice that is y is y by its user value or in spite of it. */
  lemma StillGiven(cfg: Config, cfg2: Config, rank: map<Sym, nat>, c: Sym)
    requires SameStatic(cfg, cfg2) && WellFormed(cfg) && WellFormed(cfg2) && Ranked(cfg, rank) && Ranked(cfg2, rank)
    requires c in cfg.decls && cfg.decls[c].Choice() && SameUsers(cfg, cfg2, rank, rank[c])
    requires Spec(cfg, rank, c).tri == YES
    ensures Given(cfg, c, cfg.user(c).tri, Spec(cfg2, rank, c)) == YES
  {
    hide Spec, WellFormed, Needs, Visible, Selected, Pick, EnvBelow, ValsBelow;
    RanksBelow(cfg, rank, c);
    DeclsOk(cfg, c);
    SameLimits(cfg, cfg2, rank, c);
    SpecUnfolds(cfg, rank, c);
  }

  lemma SelectKeeps(cfg: Config, rank: map<Sym, nat>, a: Memory, s: Sym)
    requires MemoryOk(cfg, rank, a) && Settled(cfg, rank, a) && s in a && s.Declared? && cfg.Owned(s)
    requires var c := cfg.decls[s].owner.value;
      && c in a && Spec(cfg, rank, c).tri == YES && KeptBelow(cfg, rank, a, c)
      && forall m :: m in cfg.decls[c].members ==> m in a && a[m].valid
    requires var cfg2 := SetValue(cfg, a, s, YES); WellFormed(cfg2) && Ranked(cfg2, rank) && SameStatic(cfg, cfg2)
    ensures MembersKeep(SetValue(cfg, a, s, YES), rank, cfg.decls[s].owner.value)
  {
    hide Spec, WellFormed, Ranked, Needs, SlotOk, Visible, SetValue, KeptBelow, MemoryOk, Settled;
    Shape(cfg, rank, a);
    OwnerThere(cfg, rank, a, s);
    var now, cfg2, c := Now(cfg, a), SetValue(cfg, a, s, YES), cfg.decls[s].owner.value;
    NowOk(cfg, rank, a);
    DeclsOk(cfg, c);
    SelectUsers(cfg, rank, a, s);
    NothingLost(cfg, rank, a, c);
    forall m | m in cfg2.decls[c].members && m in cfg2.decls && SeenByChoice(cfg2, rank, c, m) != NO
      ensures m in cfg2.hasUser
    {
      SelectSeen(cfg, now, rank, c, m);
      SelectSeen(now, cfg2, rank, c, m);
      MemberSees(cfg, rank, c, m);
      SettledValue(cfg, rank, a, m);
      MemberSpec(cfg, rank, c, m);
      assert m in VisibleIn(a, cfg.decls[c].members);
    }
  }

  /** Whether an accepted value is the one obtained, for a symbol outside choices, a member and a choice. */
  ghost predicate Takes(cfg: Config, rank: map<Sym, nat>, a: Memory, s: Sym, val: Tristate)
    requires MemoryOk(cfg, rank, a) && s in a
  {
    NowOk(cfg, rank, a);
    OwnerThere(cfg, rank, a, s);
    var v := Expected(cfg, rank, a, s);
    if cfg.Owned(s) then
      if val == YES then Selectable(cfg, rank, a, s) else v.visible == MOD || v.tri == val
    else if cfg.decls[s].Choice() then
      var tri := Given(cfg, s, val, v);
      val == if tri == YES && !SomeSeen(Now(cfg, a), rank, s) then NO else tri
    else Admits(v, val)
  }

  /** The value is obtained; a member set to y is to be visible as well, since a hidden one may be y by its
      default. */
  predicate Obtained(cfg: Config, s: Sym, v: Value, val: Tristate)
    requires s in cfg.decls
  {
    v.tri == val && (cfg.Owned(s) && val == YES ==> v.visible == YES)
  }

  lemma SetAny(cfg: Config, cfg2: Config, rank: map<Sym, nat>, a: Memory, s: Sym, val: Tristate)
    requires MemoryOk(cfg, rank, a) && s in a && s.Declared? && WithinRange(cfg, s, a[s].v, val)
    requires cfg2 == SetValue(cfg, a, s, val) && WellFormed(cfg2) && Ranked(cfg2, rank)
    ensures Obtained(cfg, s, Spec(cfg2, rank, s), val) <==> Takes(cfg, rank, a, s, val)
  {
    hide Spec, Needs, WellFormed, Ranked, Admits, SlotOk, Given, SomeSeen, Selectable;
    NowOk(cfg, rank, a);
    OwnerThere(cfg, rank, a, s);
    assert val == MOD ==> s.Type() == STristate && cfg.modules != NO;
    assert s.Type() == SBoolean || s.Type() == STristate;
    hide WithinRange;
    if cfg.Owned(s) {
      if val == YES {
        SelectExact(cfg, rank, a, s);
      } else {
        SetMemberExact(Now(cfg, a), rank, s, val);
      }
    } else if cfg.decls[s].Choice() {
      SetChoiceExact(Now(cfg, a), rank, s, val);
      SameGiven(cfg, a, s);
    } else {
      SetExact(Now(cfg, a), rank, s, val);
    }
  }
}
