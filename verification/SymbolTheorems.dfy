/** What the recursive definition of symbol values implies. */
module SymbolTheorems {
  import opened Options
  import opened Tristates
  import opened Exprs
  import opened SymbolSpec
  import opened SymbolState

  // ----- the computed values are a well-typed assignment -----

  /** The value of every symbol; symbols that are not declared read as n, constants as their name. */
  ghost function FinalValue(cfg: Config, rank: map<Sym, nat>, s: Sym): Value
    requires WellFormed(cfg) && Ranked(cfg, rank)
  {
    if s.Predefined() then PredefinedValue(s)
    else if s in cfg.decls then Spec(cfg, rank, s)
    else if s.Literal? then BaseValue().(str := s.name) else BaseValue()
  }

  ghost function FinalEnv(cfg: Config, rank: map<Sym, nat>): Env
    requires WellFormed(cfg) && Ranked(cfg, rank)
  {
    Env((s: Sym) => FinalValue(cfg, rank, s).tri, (s: Sym) => StringValue(cfg, s, FinalValue(cfg, rank, s)))
  }

  lemma TristateOfTyped(cfg: Config, s: Sym, hasUser: bool, vals: Sym -> Value, env: Env)
    requires s in cfg.decls && (s.Type() == SBoolean || s.Type() == STristate)
    ensures TristateOf(cfg, s, hasUser, vals, env) == MOD ==> s.Type() == STristate && cfg.modules != NO
  {
  }

  lemma SpecTyped(cfg: Config, rank: map<Sym, nat>, s: Sym)
    requires WellFormed(cfg) && Ranked(cfg, rank) && s in cfg.decls
    ensures Spec(cfg, rank, s).tri == MOD && !s.Predefined() ==> s.Type() == STristate && cfg.modules != NO
    ensures s.Predefined() ==> Spec(cfg, rank, s) == PredefinedValue(s)
    ensures s.Literal? ==> Spec(cfg, rank, s) == BaseValue().(str := s.name)
  {
    hide TristateOf, EnvBelow, ValsBelow;
    SpecUnfolds(cfg, rank, s);
    assert DeclOk(cfg, s);
    if s.Type() == SBoolean || s.Type() == STristate {
      TristateOfTyped(cfg, s, s in cfg.hasUser, ValsBelow(cfg, rank, rank[s]), EnvBelow(cfg, rank, rank[s]));
    }
  }

  /** Whatever the configuration, no boolean ends up as m, no tristate is m without modules, and string
      values spell tristates: the assignments the simplifier theorems speak about are the real ones. */
  lemma ValuesWellTyped(cfg: Config, rank: map<Sym, nat>)
    requires WellFormed(cfg) && Ranked(cfg, rank)
    ensures WellTyped(FinalEnv(cfg, rank))
  {
    hide Spec, Ranked, WellFormed;
    forall s: Sym ensures TypedAt(FinalEnv(cfg, rank), s) {
      if s in cfg.decls { SpecTyped(cfg, rank, s); }
    }
  }

  // ----- agreement of environments -----

  ghost predicate AgreeOn(a: Env, b: Env, syms: set<Sym>) {
    forall s :: s in syms ==> a.tri(s) == b.tri(s) && a.str(s) == b.str(s)
  }

  lemma OptAgrees(e: Option<Expr>, a: Env, b: Env)
    requires AgreeOn(a, b, OptSyms(e))
    ensures EvalOpt(e, a) == EvalOpt(e, b)
  {
    if e.Some? { EvalAgrees(e.value, a, b); }
  }

  lemma {:induction false} PromptsAgree(ps: seq<Option<Expr>>, a: Env, b: Env)
    requires forall p :: p in ps ==> AgreeOn(a, b, OptSyms(p))
    ensures PromptMax(ps, a) == PromptMax(ps, b)
  {
    if ps != [] {
      PromptsAgree(ps[..|ps| - 1], a, b);
      OptAgrees(ps[|ps| - 1], a, b);
    }
  }

  lemma VisibleAgrees(cfg: Config, s: Sym, a: Env, b: Env)
    requires s in cfg.decls && AgreeOn(a, b, PromptSyms(cfg.decls[s].prompts))
    ensures Visible(cfg, s, a) == Visible(cfg, s, b)
  {
    var ps := cfg.decls[s].prompts;
    forall p | p in ps ensures AgreeOn(a, b, OptSyms(p)) {
      forall t | t in OptSyms(p) ensures t in PromptSyms(ps) { }
    }
    PromptsAgree(ps, a, b);
  }

  // ----- choices -----

  /** A member of a choice that is y sees the same as sym_calc_choice saw while deciding. */
  lemma MemberSees(cfg: Config, rank: map<Sym, nat>, c: Sym, m: Sym)
    requires WellFormed(cfg) && Ranked(cfg, rank) && c in cfg.decls && m in cfg.decls[c].members
    requires Spec(cfg, rank, c).tri == YES
    ensures m in cfg.decls && rank[c] < rank[m] && cfg.decls[m].owner == Some(c)
    ensures Visible(cfg, m, EnvAt(cfg, rank, rank[c], Some(c))) == Visible(cfg, m, EnvBelow(cfg, rank, rank[m]))
  {
    hide Spec, Needs;
    assert DeclOk(cfg, c) && m in cfg.decls;
    assert DeclOk(cfg, m);
    var i :| 0 <= i < |cfg.decls[c].members| && cfg.decls[c].members[i] == m;
    MemberOf(cfg, rank, c, i);
    NeedsMembers(cfg, rank, c);
    var a, b := EnvAt(cfg, rank, rank[c], Some(c)), EnvBelow(cfg, rank, rank[m]);
    forall t | t in PromptSyms(cfg.decls[m].prompts) ensures a.tri(t) == b.tri(t) && a.str(t) == b.str(t) {
      if t != c { assert t in MemberSyms(cfg, c); }
    }
    VisibleAgrees(cfg, m, a, b);
  }

  /** What the user, the defaults or the order of members make the choice select. */
  ghost function Favoured(cfg: Config, rank: map<Sym, nat>, c: Sym): Option<Sym>
    requires WellFormed(cfg) && Ranked(cfg, rank) && c in cfg.decls && cfg.decls[c].Choice()
  {
    assert DeclOk(cfg, c);
    Pick(cfg, c, EnvAt(cfg, rank, rank[c], Some(c)))
  }

  /** A default of a symbol makes it y. */
  ghost predicate DefaultsToYes(cfg: Config, rank: map<Sym, nat>, m: Sym)
    requires WellFormed(cfg) && Ranked(cfg, rank) && m in cfg.decls
  {
    var env := EnvBelow(cfg, rank, rank[m]);
    var p := FirstDefault(cfg.decls[m].defaults, env);
    p.Some? && Eval(p.value.value, env) == YES && EvalOpt(p.value.visible, env) == YES
  }

  /** Which visible members of a choice that is y are y themselves. One whose visibility is y follows the
      choice; one that may only be m is y by a default of its own or not at all. */
  lemma ChoiceMembers(cfg: Config, rank: map<Sym, nat>, c: Sym)
    requires WellFormed(cfg) && Ranked(cfg, rank) && c in cfg.decls && cfg.decls[c].Choice()
    requires Spec(cfg, rank, c).tri == YES
    ensures var f := Favoured(cfg, rank, c);
      && Spec(cfg, rank, c).pick == f && f.Some? && f.value in cfg.decls[c].members && f.value in cfg.decls
      && Spec(cfg, rank, f.value).visible != NO
      && forall m :: m in cfg.decls[c].members ==>
           m in cfg.decls
           && (Spec(cfg, rank, m).visible == YES ==> (Spec(cfg, rank, m).tri == YES <==> m == f.value))
           && (Spec(cfg, rank, m).visible == MOD ==>
                 m.Type() == STristate
                 && (Spec(cfg, rank, m).tri == YES <==> m !in cfg.hasUser && DefaultsToYes(cfg, rank, m)))
  {
    hide Spec, Ranked, Needs, EnvBelow, ValsBelow, EnvAt, Pick, TristateOf, Visible, DefaultsToYes;
    assert DeclOk(cfg, c);
    ChoiceSpec(cfg, rank, c);
    var f := Favoured(cfg, rank, c);
    PickVisible(cfg, rank, c);
    forall m | m in cfg.decls[c].members
      ensures m in cfg.decls
      ensures Spec(cfg, rank, m).visible == YES ==> (Spec(cfg, rank, m).tri == YES <==> m == f.value)
      ensures Spec(cfg, rank, m).visible == MOD ==> m.Type() == STristate
      ensures Spec(cfg, rank, m).visible == MOD ==>
        (Spec(cfg, rank, m).tri == YES <==> m !in cfg.hasUser && DefaultsToYes(cfg, rank, m))
      ensures m == f.value ==> Spec(cfg, rank, m).visible != NO
    {
      MemberSees(cfg, rank, c, m);
      MemberSpec(cfg, rank, c, m);
    }
  }

  /** Without defaults of the members, at most one visible member of a choice that is y is y itself, and
      there is one exactly if the favoured member may be y. */
  lemma ChoiceAtMostOne(cfg: Config, rank: map<Sym, nat>, c: Sym)
    requires WellFormed(cfg) && Ranked(cfg, rank) && c in cfg.decls && cfg.decls[c].Choice()
    requires Spec(cfg, rank, c).tri == YES
    requires forall m :: m in cfg.decls[c].members && m in cfg.decls ==> cfg.decls[m].defaults == []
    ensures Favoured(cfg, rank, c).Some?
    ensures forall m :: m in cfg.decls[c].members ==>
      m in cfg.decls
      && (Spec(cfg, rank, m).visible != NO && Spec(cfg, rank, m).tri == YES <==>
            m == Favoured(cfg, rank, c).value && Spec(cfg, rank, m).visible == YES)
  {
    hide Spec, Ranked, Needs, EnvBelow, WellFormed;
    ChoiceMembers(cfg, rank, c);
  }

  /** A boolean choice that is y has exactly one visible member at y, the favoured one. */
  lemma ChoiceExactlyOne(cfg: Config, rank: map<Sym, nat>, c: Sym)
    requires WellFormed(cfg) && Ranked(cfg, rank) && c in cfg.decls && cfg.decls[c].Choice()
    requires Spec(cfg, rank, c).tri == YES
    requires forall m :: m in cfg.decls[c].members ==> m.Type() == SBoolean
    ensures var f := Favoured(cfg, rank, c);
      && Spec(cfg, rank, c).pick == f && f.Some? && f.value in cfg.decls[c].members
      && forall m :: m in cfg.decls[c].members ==>
           m in cfg.decls
           && (Spec(cfg, rank, m).visible != NO ==> (Spec(cfg, rank, m).tri == YES <==> m == f.value))
           && (m == f.value ==> Spec(cfg, rank, m).visible != NO)
  {
    hide Spec, Ranked, Needs, EnvBelow, WellFormed, Favoured, DefaultsToYes;
    ChoiceMembers(cfg, rank, c);
  }

  /** A default of a choice that applies and names a visible member. */
  predicate Offers(cfg: Config, p: Default, env: Env)
    requires p.value.Symbol? && p.value.sym in cfg.decls
  {
    EvalOpt(p.visible, env) != NO && Visible(cfg, p.value.sym, env) != NO
  }

  lemma {:induction false} FirstOffer(cfg: Config, ds: seq<Default>, env: Env, i: nat)
    requires forall p :: p in ds ==> p.value.Symbol? && p.value.sym in cfg.decls
    requires i < |ds| && Offers(cfg, ds[i], env) && forall j :: 0 <= j < i ==> !Offers(cfg, ds[j], env)
    ensures FirstVisibleDefault(cfg, ds, env) == Some(ds[i].value.sym)
  {
    if i > 0 {
      assert !Offers(cfg, ds[0], env);
      forall j | 0 <= j < i - 1 ensures !Offers(cfg, ds[1..][j], env) { assert ds[1..][j] == ds[j + 1]; }
      FirstOffer(cfg, ds[1..], env, i - 1);
    }
  }

  lemma {:induction false} NoOffer(cfg: Config, ds: seq<Default>, env: Env)
    requires forall p :: p in ds ==> p.value.Symbol? && p.value.sym in cfg.decls
    requires forall i :: 0 <= i < |ds| ==> !Offers(cfg, ds[i], env)
    ensures FirstVisibleDefault(cfg, ds, env) == None
  {
    if ds != [] {
      assert !Offers(cfg, ds[0], env);
      forall j | 0 <= j < |ds| - 1 ensures !Offers(cfg, ds[1..][j], env) { assert ds[1..][j] == ds[j + 1]; }
      NoOffer(cfg, ds[1..], env);
    }
  }

  lemma {:induction false} FirstMember(cfg: Config, ms: seq<Sym>, env: Env, i: nat)
    requires forall m :: m in ms ==> m in cfg.decls
    requires i < |ms| && Visible(cfg, ms[i], env) != NO && forall j :: 0 <= j < i ==> Visible(cfg, ms[j], env) == NO
    ensures FirstVisible(cfg, ms, env) == Some(ms[i])
  {
    hide Visible;
    if i > 0 {
      assert Visible(cfg, ms[0], env) == NO;
      FirstMember(cfg, ms[1..], env, i - 1);
    }
  }

  /** Which member a choice picks: the user's pick if it is visible; else the first default that applies
      and is visible; else, no default being of use, the first visible member. */
  lemma PickOrder(cfg: Config, c: Sym, env: Env, i: nat)
    requires c in cfg.decls && DeclOk(cfg, c) && cfg.decls[c].Choice()
    ensures var d, p, pick := cfg.decls[c], cfg.user(c).pick, Pick(cfg, c, env);
      if p.Some? && Visible(cfg, p.value, env) != NO then pick == p
      else
        && (i < |d.defaults| && Offers(cfg, d.defaults[i], env)
            && (forall j :: 0 <= j < i ==> !Offers(cfg, d.defaults[j], env))
            ==> pick == Some(d.defaults[i].value.sym))
        && (i < |d.members| && (forall j :: 0 <= j < |d.defaults| ==> !Offers(cfg, d.defaults[j], env))
            && Visible(cfg, d.members[i], env) != NO
            && (forall j :: 0 <= j < i ==> Visible(cfg, d.members[j], env) == NO)
            ==> pick == Some(d.members[i]))
  {
    hide Visible, FirstVisible, FirstVisibleDefault, Offers;
    var d := cfg.decls[c];
    if i < |d.defaults| && Offers(cfg, d.defaults[i], env) && forall j :: 0 <= j < i ==> !Offers(cfg, d.defaults[j], env) {
      FirstOffer(cfg, d.defaults, env, i);
    }
    if forall j :: 0 <= j < |d.defaults| ==> !Offers(cfg, d.defaults[j], env) {
      NoOffer(cfg, d.defaults, env);
      if i < |d.members| && Visible(cfg, d.members[i], env) != NO
         && forall j :: 0 <= j < i ==> Visible(cfg, d.members[j], env) == NO {
        FirstMember(cfg, d.members, env, i);
      }
    }
  }

  lemma PickVisible(cfg: Config, rank: map<Sym, nat>, c: Sym)
    requires WellFormed(cfg) && Ranked(cfg, rank) && c in cfg.decls && cfg.decls[c].Choice()
    ensures var f := Favoured(cfg, rank, c);
      f.Some? ==> f.value in cfg.decls && Visible(cfg, f.value, EnvAt(cfg, rank, rank[c], Some(c))) != NO
  {
    assert DeclOk(cfg, c);
  }

  lemma ChoiceSpec(cfg: Config, rank: map<Sym, nat>, c: Sym)
    requires WellFormed(cfg) && Ranked(cfg, rank) && c in cfg.decls && cfg.decls[c].Choice()
    requires Spec(cfg, rank, c).tri == YES
    ensures Spec(cfg, rank, c).pick == Favoured(cfg, rank, c) && Favoured(cfg, rank, c).Some?
  {
    hide Ranked, Needs, EnvBelow, ValsBelow, Pick, TristateOf, Visible, Selected;
    assert DeclOk(cfg, c);
    SpecUnfolds(cfg, rank, c);
  }

  /** A member whose visibility is y is y exactly if its choice picked it. */
  lemma MemberSpec(cfg: Config, rank: map<Sym, nat>, c: Sym, m: Sym)
    requires WellFormed(cfg) && Ranked(cfg, rank) && m in cfg.decls && cfg.decls[m].owner == Some(c)
    requires c in cfg.decls && rank[c] < rank[m]
    ensures var v := Spec(cfg, rank, m);
      && v.visible == Visible(cfg, m, EnvBelow(cfg, rank, rank[m]))
      && (v.visible == YES ==> (v.tri == YES <==> Spec(cfg, rank, c).pick == Some(m)))
      && (v.visible == MOD ==>
            m.Type() == STristate && (v.tri == YES <==> m !in cfg.hasUser && DefaultsToYes(cfg, rank, m)))
  {
    hide Ranked, Needs, EnvBelow, PromptMax, Spec, Eval, EvalOpt, FirstDefault;
    assert DeclOk(cfg, m);
    SpecUnfolds(cfg, rank, m);
  }

  // ----- the value of a symbol depends only on what ranks below it -----

  lemma {:induction false} DefaultsAgree(ds: seq<Default>, a: Env, b: Env)
    requires forall p :: p in ds ==> AgreeOn(a, b, OptSyms(p.visible))
    ensures FirstDefault(ds, a) == FirstDefault(ds, b)
  {
    if ds != [] {
      assert ds[0] in ds;
      OptAgrees(ds[0].visible, a, b);
      DefaultsAgree(ds[1..], a, b);
    }
  }

  lemma {:induction false} RangesAgree(rs: seq<Range>, a: Env, b: Env)
    requires forall p :: p in rs ==> AgreeOn(a, b, OptSyms(p.visible))
    ensures FirstRange(rs, a) == FirstRange(rs, b)
  {
    if rs != [] {
      assert rs[0] in rs;
      OptAgrees(rs[0].visible, a, b);
      RangesAgree(rs[1..], a, b);
    }
  }

  /** Two configurations that differ at most in user values. */
  ghost predicate SameStatic(cfg: Config, cfg2: Config) {
    cfg2 == cfg.(user := cfg2.user, hasUser := cfg2.hasUser)
  }

  lemma {:induction false} ChoiceDefaultsAgree(cfg: Config, cfg2: Config, ds: seq<Default>, a: Env, b: Env)
    requires SameStatic(cfg, cfg2) && forall p :: p in ds ==> p.value.Symbol? && p.value.sym in cfg.decls
    requires forall p :: p in ds ==>
      AgreeOn(a, b, OptSyms(p.visible)) && AgreeOn(a, b, PromptSyms(cfg.decls[p.value.sym].prompts))
    ensures FirstVisibleDefault(cfg, ds, a) == FirstVisibleDefault(cfg2, ds, b)
  {
    if ds != [] {
      assert ds[0] in ds;
      OptAgrees(ds[0].visible, a, b);
      VisibleAgrees(cfg, ds[0].value.sym, a, b);
      ChoiceDefaultsAgree(cfg, cfg2, ds[1..], a, b);
    }
  }

  lemma {:induction false} MembersAgree(cfg: Config, cfg2: Config, ms: seq<Sym>, a: Env, b: Env)
    requires SameStatic(cfg, cfg2) && forall m :: m in ms ==> m in cfg.decls
    requires forall m :: m in ms ==> AgreeOn(a, b, PromptSyms(cfg.decls[m].prompts))
    ensures FirstVisible(cfg, ms, a) == FirstVisible(cfg2, ms, b)
  {
    if ms != [] {
      assert ms[0] in ms;
      VisibleAgrees(cfg, ms[0], a, b);
      MembersAgree(cfg, cfg2, ms[1..], a, b);
    }
  }

  /** A choice needs what the prompts of its members, itself excepted, and its default conditions mention. */
  lemma ChoiceNeeds(cfg: Config, c: Sym, m: Sym)
    requires c in cfg.decls && cfg.decls[c].Choice()
    ensures ConditionSyms(cfg.decls[c].defaults) <= Needs(cfg, c)
    ensures m in cfg.decls[c].members && m in cfg.decls ==> PromptSyms(cfg.decls[m].prompts) - {c} <= Needs(cfg, c)
  {
    hide PromptSyms, OptSyms;
    assert DefaultSyms(cfg.decls[c]) <= Needs(cfg, c) && MemberSyms(cfg, c) <= Needs(cfg, c);
  }

  lemma MemberAgrees(cfg: Config, c: Sym, m: Sym, a: Env, b: Env)
    requires c in cfg.decls && cfg.decls[c].Choice() && m in cfg.decls && m in cfg.decls[c].members
    requires AgreeOn(a, b, Needs(cfg, c))
    ensures AgreeOn(WithChoice(c, a), WithChoice(c, b), PromptSyms(cfg.decls[m].prompts))
  {
    hide PromptSyms, Needs;
    ChoiceNeeds(cfg, c, m);
  }

  lemma PickAgrees(cfg: Config, cfg2: Config, c: Sym, a: Env, b: Env)
    requires SameStatic(cfg, cfg2) && c in cfg.decls && DeclOk(cfg, c) && DeclOk(cfg2, c) && cfg.decls[c].Choice()
    requires cfg.user(c) == cfg2.user(c) && AgreeOn(a, b, Needs(cfg, c))
    ensures Pick(cfg, c, WithChoice(c, a)) == Pick(cfg2, c, WithChoice(c, b))
  {
    hide Visible, FirstVisible, FirstVisibleDefault, PromptSyms, Needs, AgreeOn, WithChoice;
    var d, a', b' := cfg.decls[c], WithChoice(c, a), WithChoice(c, b);
    forall m | m in d.members ensures m in cfg.decls && AgreeOn(a', b', PromptSyms(cfg.decls[m].prompts)) {
      MemberAgrees(cfg, c, m, a, b);
    }
    forall p | p in d.defaults ensures AgreeOn(a', b', OptSyms(p.visible)) {
      ConditionAgrees(cfg, c, p, a, b);
    }
    ChoiceDefaultsAgree(cfg, cfg2, d.defaults, a', b');
    MembersAgree(cfg, cfg2, d.members, a', b');
    var p := cfg.user(c).pick;
    if p.Some? { VisibleLocal(cfg, cfg2, p.value, a', b'); }
  }

  lemma ConditionAgrees(cfg: Config, c: Sym, p: Default, a: Env, b: Env)
    requires c in cfg.decls && cfg.decls[c].Choice() && p in cfg.decls[c].defaults && AgreeOn(a, b, Needs(cfg, c))
    ensures AgreeOn(WithChoice(c, a), WithChoice(c, b), OptSyms(p.visible))
  {
    hide Needs, OptSyms;
    ChoiceNeeds(cfg, c, c);
    forall t | t in OptSyms(p.visible) ensures t in Needs(cfg, c) {
      assert t in ConditionSyms(cfg.decls[c].defaults);
    }
  }

  lemma VisibleLocal(cfg: Config, cfg2: Config, s: Sym, a: Env, b: Env)
    requires SameStatic(cfg, cfg2) && s in cfg.decls && AgreeOn(a, b, PromptSyms(cfg.decls[s].prompts))
    ensures Visible(cfg, s, a) == Visible(cfg2, s, b)
  {
    VisibleAgrees(cfg, s, a, b);
  }

  /** Visibility and selection of a symbol that is not a member, or the visibility of a member. */
  lemma LimitsAgree(cfg: Config, cfg2: Config, s: Sym, a: Env, b: Env)
    requires SameStatic(cfg, cfg2) && s in cfg.decls && AgreeOn(a, b, Needs(cfg, s))
    ensures Visible(cfg, s, a) == Visible(cfg2, s, b)
    ensures Selected(cfg, s, Visible(cfg, s, a), a) == Selected(cfg2, s, Visible(cfg2, s, b), b)
  {
    hide PromptMax, PromptSyms, Eval, DefaultSyms, RangeSyms, MemberSyms;
    VisibleAgrees(cfg, s, a, b);
    var d := cfg.decls[s];
    if d.owner.None? && d.revDep.Some? { EvalAgrees(d.revDep.value, a, b); }
  }

  lemma DefaultAgrees(cfg: Config, s: Sym, a: Env, b: Env)
    requires s in cfg.decls && !cfg.decls[s].Choice() && AgreeOn(a, b, Needs(cfg, s))
    ensures var p := FirstDefault(cfg.decls[s].defaults, a);
      && p == FirstDefault(cfg.decls[s].defaults, b)
      && (p.Some? ==> Eval(p.value.value, a) == Eval(p.value.value, b)
                      && EvalOpt(p.value.visible, a) == EvalOpt(p.value.visible, b)
                      && ExprSyms(p.value.value) <= Needs(cfg, s))
  {
    hide Needs, OptSyms, ExprSyms, FirstDefault;
    NeedsParts(cfg, s);
    var ds := cfg.decls[s].defaults;
    forall p | p in ds ensures AgreeOn(a, b, OptSyms(p.visible)) {
      forall t | t in OptSyms(p.visible) ensures t in Needs(cfg, s) { assert t in ConditionSyms(ds); }
    }
    DefaultsAgree(ds, a, b);
    var p := FirstDefault(ds, a);
    if p.Some? {
      DefaultIn(ds, a);
      EvalAgrees(p.value.value, a, b);
      OptAgrees(p.value.visible, a, b);
    }
  }

  lemma DefaultIn(ds: seq<Default>, a: Env)
    ensures FirstDefault(ds, a).Some? ==> FirstDefault(ds, a).value in ds
  {
  }

  lemma RangeAgrees(cfg: Config, s: Sym, a: Env, b: Env)
    requires s in cfg.decls && AgreeOn(a, b, Needs(cfg, s))
    ensures var p := FirstRange(cfg.decls[s].ranges, a);
      && p == FirstRange(cfg.decls[s].ranges, b)
      && (p.Some? ==> p.value.lo in Needs(cfg, s) && p.value.hi in Needs(cfg, s))
  {
    hide Needs, OptSyms, ExprSyms, FirstRange;
    NeedsParts(cfg, s);
    var rs := cfg.decls[s].ranges;
    forall p | p in rs ensures AgreeOn(a, b, OptSyms(p.visible)) {
      forall t | t in OptSyms(p.visible) ensures t in Needs(cfg, s) { assert t in RangeConditionSyms(rs); }
    }
    RangesAgree(rs, a, b);
    RangeIn(rs, a);
  }

  lemma RangeIn(rs: seq<Range>, a: Env)
    ensures FirstRange(rs, a).Some? ==> FirstRange(rs, a).value in rs
  {
  }

  lemma SymbolValueAgrees(cfg: Config, cfg2: Config, s: Sym, hasUser: bool, vals: Sym -> Value, vals2: Sym -> Value,
                          a: Env, b: Env)
    requires SameStatic(cfg, cfg2) && WellFormed(cfg) && WellFormed(cfg2) && s in cfg.decls
    requires cfg.user(s) == cfg2.user(s) && AgreeOn(a, b, Needs(cfg, s))
    requires forall t :: t in Needs(cfg, s) ==> vals(t) == vals2(t)
    ensures SymbolValue(cfg, s, hasUser, vals, a) == SymbolValue(cfg2, s, hasUser, vals2, b)
  {
    hide Needs, AgreeOn, WellFormed, Visible, Selected, FirstDefault, FirstRange, Eval, EvalOpt, Pick, ExprSyms;
    assert DeclOk(cfg, s) && DeclOk(cfg2, s) by { DeclsOk(cfg, s); DeclsOk(cfg2, s); }
    LimitsAgree(cfg, cfg2, s, a, b);
    RangeAgrees(cfg, s, a, b);
    OwnerNeeded(cfg, s);
    if cfg.decls[s].Choice() {
      PickAgrees(cfg, cfg2, s, a, b);
    } else {
      DefaultAgrees(cfg, s, a, b);
      var p := FirstDefault(cfg.decls[s].defaults, a);
      if p.Some? && p.value.value.Symbol? {
        assert p.value.value.sym in Needs(cfg, s) by { SymbolSyms(p.value.value); }
      }
    }
  }

  lemma DeclsOk(cfg: Config, s: Sym)
    requires WellFormed(cfg) && s in cfg.decls
    ensures DeclOk(cfg, s)
  {
  }

  lemma OwnerNeeded(cfg: Config, s: Sym)
    requires s in cfg.decls
    ensures cfg.decls[s].owner.Some? ==> cfg.decls[s].owner.value in Needs(cfg, s)
  {
  }

  lemma SymbolSyms(e: Expr)
    ensures e.Symbol? ==> e.sym in ExprSyms(e)
  {
  }

  /** The same user values for every symbol up to rank k. */
  ghost predicate SameUsers(cfg: Config, cfg2: Config, rank: map<Sym, nat>, k: nat) {
    forall t {:trigger cfg.user(t)} :: t in rank && rank[t] < k ==>
      cfg.user(t) == cfg2.user(t) && (t in cfg.hasUser <==> t in cfg2.hasUser)
  }

  lemma {:induction false} SpecLocal(cfg: Config, cfg2: Config, rank: map<Sym, nat>, s: Sym)
    requires SameStatic(cfg, cfg2) && WellFormed(cfg) && WellFormed(cfg2) && Ranked(cfg, rank) && Ranked(cfg2, rank)
    requires s in cfg.decls && SameUsers(cfg, cfg2, rank, rank[s] + 1)
    ensures Spec(cfg, rank, s) == Spec(cfg2, rank, s)
    decreases rank[s]
  {
    hide Spec, SymbolValue, WellFormed, Needs;
    BelowLocal(cfg, cfg2, rank, s);
    SpecUnfolds(cfg, rank, s);
    SpecUnfolds(cfg2, rank, s);
    assert cfg.user(s) == cfg2.user(s);
    SymbolValueAgrees(cfg, cfg2, s, s in cfg.hasUser, ValsBelow(cfg, rank, rank[s]), ValsBelow(cfg2, rank, rank[s]),
                      EnvBelow(cfg, rank, rank[s]), EnvBelow(cfg2, rank, rank[s]));
  }

  lemma RanksBelow(cfg: Config, rank: map<Sym, nat>, s: Sym)
    requires Ranked(cfg, rank) && s in cfg.decls
    ensures rank.Keys == cfg.decls.Keys
    ensures forall t :: t in Needs(cfg, s) ==> t in cfg.decls && rank[t] < rank[s]
  {
    assert RankedAt(cfg, rank, s);
  }

  /** Everything s needs has the same value in both configurations. */
  lemma {:induction false} BelowLocal(cfg: Config, cfg2: Config, rank: map<Sym, nat>, s: Sym)
    requires SameStatic(cfg, cfg2) && WellFormed(cfg) && WellFormed(cfg2) && Ranked(cfg, rank) && Ranked(cfg2, rank)
    requires s in cfg.decls && SameUsers(cfg, cfg2, rank, rank[s])
    ensures forall t :: t in Needs(cfg, s) ==> ValsBelow(cfg, rank, rank[s])(t) == ValsBelow(cfg2, rank, rank[s])(t)
    ensures AgreeOn(EnvBelow(cfg, rank, rank[s]), EnvBelow(cfg2, rank, rank[s]), Needs(cfg, s))
    decreases rank[s], 0
  {
    hide Spec, SymbolValue, WellFormed, Needs;
    RanksBelow(cfg, rank, s);
    forall t | t in Needs(cfg, s) ensures t in cfg.decls && rank[t] < rank[s] && Spec(cfg, rank, t) == Spec(cfg2, rank, t) {
      SpecLocal(cfg, cfg2, rank, t);
    }
  }
}
