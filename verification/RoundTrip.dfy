/** Saving a configuration and loading it again: when the values that are computed from the loaded user
    values are those that were saved. */
module SymbolRoundTrip {
  import opened Options
  import opened Tristates
  import opened Exprs
  import opened SymbolSpec
  import opened SymbolState
  import opened SymbolTheorems
  import opened SymbolSetting

  /** The configuration cfg2 has been loaded: its user values, outside choices, are values of cfg. Which
      symbols have one, and what it says of choices, is left open. */
  ghost predicate Loaded(cfg: Config, rank: map<Sym, nat>, cfg2: Config) {
    && SameStatic(cfg, cfg2) && WellFormed(cfg) && WellFormed(cfg2) && Ranked(cfg, rank) && Ranked(cfg2, rank)
    && forall s {:trigger cfg2.user(s)} :: s in cfg.decls && s in cfg2.hasUser && !cfg.decls[s].Choice() ==>
         LoadedAt(cfg, rank, cfg2, s)
  }

  ghost predicate LoadedAt(cfg: Config, rank: map<Sym, nat>, cfg2: Config, s: Sym)
    requires WellFormed(cfg) && Ranked(cfg, rank) && s in cfg.decls
  {
    if s.Type() == SBoolean || s.Type() == STristate then cfg2.user(s).tri == Spec(cfg, rank, s).tri
    else cfg2.user(s).str == Spec(cfg, rank, s).str
  }

  /** Whether the loaded user values give s its value again, everything below s having its own. Nothing is asked
      of a symbol that is not visible or that follows its choice. A visible one with a user value must not
      exceed its limits, or be changed by its range; one without must have its default value. */
  ghost predicate Reproduced(cfg: Config, rank: map<Sym, nat>, cfg2: Config, s: Sym)
    requires Loaded(cfg, rank, cfg2) && s in cfg.decls
  {
    var v := Spec(cfg, rank, s);
    if !Typed(s) then true
    else if cfg.decls[s].Choice() then ChoiceReproduced(cfg, rank, cfg2, s)
    else if v.visible == NO then true
    else if s.Type() == SBoolean || s.Type() == STristate then
      (cfg.Owned(s) && v.visible == YES)
      || if s in cfg2.hasUser then v.tri <= Or3(v.visible, v.rev) else v.tri == DefaultTri(cfg, rank, s)
    else
      RangeChecked(cfg, s, if s in cfg2.hasUser then v.str else DefaultText(cfg, rank, s),
                   ValsBelow(cfg, rank, rank[s]), EnvBelow(cfg, rank, rank[s])) == v.str
  }

  /** The tristate and the text of a symbol that has no user value. */
  ghost function DefaultTri(cfg: Config, rank: map<Sym, nat>, s: Sym): Tristate
    requires WellFormed(cfg) && Ranked(cfg, rank) && s in cfg.decls
  {
    TriValue(cfg, s, false, Spec(cfg, rank, s).visible, Spec(cfg, rank, s).rev, EnvBelow(cfg, rank, rank[s]))
  }

  ghost function DefaultText(cfg: Config, rank: map<Sym, nat>, s: Sym): string
    requires WellFormed(cfg) && Ranked(cfg, rank) && s in cfg.decls
  {
    TextOf(cfg, s, false, ValsBelow(cfg, rank, rank[s]), EnvBelow(cfg, rank, rank[s]))
  }

  /** A choice is decided by what has been loaded for it. */
  ghost predicate ChoiceReproduced(cfg: Config, rank: map<Sym, nat>, cfg2: Config, c: Sym)
    requires Loaded(cfg, rank, cfg2) && c in cfg.decls && cfg.decls[c].Choice()
  {
    DeclsOk(cfg2, c);
    var v := Spec(cfg, rank, c);
    var tri := if c in cfg2.hasUser then Given(cfg, c, cfg2.user(c).tri, v) else DefaultTri(cfg, rank, c);
    if tri == YES then
      var pick := Pick(cfg2, c, EnvAt(cfg, rank, rank[c], Some(c)));
      v.pick == pick && v.tri == if pick.Some? then YES else NO
    else v.tri == tri
  }

  lemma LoadedShape(cfg: Config, rank: map<Sym, nat>, cfg2: Config)
    requires Loaded(cfg, rank, cfg2)
    ensures SameStatic(cfg, cfg2) && WellFormed(cfg) && WellFormed(cfg2) && Ranked(cfg, rank) && Ranked(cfg2, rank)
    ensures rank.Keys == cfg.decls.Keys == cfg2.decls.Keys
  {
  }

  lemma LoadedParts(cfg: Config, rank: map<Sym, nat>, cfg2: Config, s: Sym)
    requires Loaded(cfg, rank, cfg2) && s in cfg.decls
    ensures SameStatic(cfg, cfg2) && WellFormed(cfg) && WellFormed(cfg2) && Ranked(cfg, rank) && Ranked(cfg2, rank)
    ensures s in rank && DeclOk(cfg, s) && DeclOk(cfg2, s)
    ensures s in cfg2.hasUser && !cfg.decls[s].Choice() ==> LoadedAt(cfg, rank, cfg2, s)
  {
    hide Spec, Needs;
    DeclsOk(cfg, s);
    DeclsOk(cfg2, s);
    RanksBelow(cfg, rank, s);
    var u := cfg2.user(s);
  }

  /** Everything s needs has its own value. */
  ghost predicate SameNeeded(cfg: Config, rank: map<Sym, nat>, cfg2: Config, s: Sym)
    requires Loaded(cfg, rank, cfg2) && s in cfg.decls
  {
    forall t :: t in Needs(cfg, s) ==> t in cfg.decls && Spec(cfg2, rank, t) == Spec(cfg, rank, t)
  }

  lemma NeededAgree(cfg: Config, rank: map<Sym, nat>, cfg2: Config, s: Sym)
    requires Loaded(cfg, rank, cfg2) && s in cfg.decls && SameNeeded(cfg, rank, cfg2, s)
    ensures s in rank
    ensures forall t :: t in Needs(cfg, s) ==> ValsBelow(cfg, rank, rank[s])(t) == ValsBelow(cfg2, rank, rank[s])(t)
    ensures AgreeOn(EnvBelow(cfg, rank, rank[s]), EnvBelow(cfg2, rank, rank[s]), Needs(cfg, s))
    ensures Visible(cfg, s, EnvBelow(cfg, rank, rank[s])) == Visible(cfg2, s, EnvBelow(cfg2, rank, rank[s]))
    ensures Selected(cfg, s, Visible(cfg, s, EnvBelow(cfg, rank, rank[s])), EnvBelow(cfg, rank, rank[s]))
         == Selected(cfg2, s, Visible(cfg2, s, EnvBelow(cfg2, rank, rank[s])), EnvBelow(cfg2, rank, rank[s]))
  {
    hide Spec, Needs, WellFormed, Visible, Selected;
    LoadedParts(cfg, rank, cfg2, s);
    RanksBelow(cfg, rank, s);
    LimitsAgree(cfg, cfg2, s, EnvBelow(cfg, rank, rank[s]), EnvBelow(cfg2, rank, rank[s]));
  }

  lemma UntypedSame(cfg: Config, rank: map<Sym, nat>, cfg2: Config, s: Sym)
    requires Loaded(cfg, rank, cfg2) && s in cfg.decls && !Typed(s)
    ensures Spec(cfg2, rank, s) == Spec(cfg, rank, s)
  {
    hide Needs, EnvBelow, ValsBelow;
    SpecUnfolds(cfg, rank, s);
    SpecUnfolds(cfg2, rank, s);
  }

  /** The definition of a boolean or tristate, before a choice picks. */
  lemma TristateUnfolds(cfg: Config, rank: map<Sym, nat>, s: Sym)
    requires WellFormed(cfg) && Ranked(cfg, rank) && s in cfg.decls && (s.Type() == SBoolean || s.Type() == STristate)
    ensures s in rank
    ensures var env, vals := EnvBelow(cfg, rank, rank[s]), ValsBelow(cfg, rank, rank[s]);
      var visible := Visible(cfg, s, env);
      var tri := TristateOf(cfg, s, s in cfg.hasUser, vals, env);
      var v := Spec(cfg, rank, s);
      && v.visible == visible && v.rev == Selected(cfg, s, visible, env) && v.str == "n"
      && (cfg.decls[s].Choice() && tri == YES ==>
            && DeclOk(cfg, s)
            && v.pick == Pick(cfg, s, WithChoice(s, env)) && v.tri == if v.pick.Some? then YES else NO)
      && (!(cfg.decls[s].Choice() && tri == YES) ==> v.pick == None && v.tri == tri)
  {
    hide Spec, Needs, Visible, Selected, Pick, EnvBelow, ValsBelow, TristateOf;
    RanksBelow(cfg, rank, s);
    DeclsOk(cfg, s);
    SpecUnfolds(cfg, rank, s);
  }

  lemma TristateSame(cfg: Config, rank: map<Sym, nat>, cfg2: Config, s: Sym)
    requires Loaded(cfg, rank, cfg2) && s in cfg.decls && SameNeeded(cfg, rank, cfg2, s)
    requires (s.Type() == SBoolean || s.Type() == STristate) && !cfg.decls[s].Choice()
    ensures Spec(cfg2, rank, s) == Spec(cfg, rank, s) <==> Reproduced(cfg, rank, cfg2, s)
  {
    hide Spec, Needs, WellFormed, Visible, Selected, AgreeOn, Loaded, SameNeeded, FirstDefault, Eval, EvalOpt;
    hide SymbolValue, EnvBelow, ValsBelow, Pick;
    LoadedParts(cfg, rank, cfg2, s);
    NeededAgree(cfg, rank, cfg2, s);
    TristateUnfolds(cfg, rank, s);
    TristateUnfolds(cfg2, rank, s);
    DefaultAgrees(cfg, s, EnvBelow(cfg, rank, rank[s]), EnvBelow(cfg2, rank, rank[s]));
    OwnerNeeded(cfg, s);
    SelectFloor(cfg, rank, s);
    BooleanLimits(cfg, s, EnvBelow(cfg, rank, rank[s]));
  }

  /** Where m is not possible the limits are not m. */
  lemma BooleanLimits(cfg: Config, s: Sym, env: Env)
    requires s in cfg.decls && (s.Type() == SBoolean || s.Type() == STristate)
    ensures var visible := Visible(cfg, s, env);
      EffectiveType(cfg, s, visible) == SBoolean ==> visible != MOD && Selected(cfg, s, visible, env) != MOD
  {
    hide PromptMax, Eval;
  }

  /** The value of a symbol is no less than its select floor, and m only where m is possible. */
  lemma SelectFloor(cfg: Config, rank: map<Sym, nat>, s: Sym)
    requires WellFormed(cfg) && Ranked(cfg, rank) && s in cfg.decls && (s.Type() == SBoolean || s.Type() == STristate)
    ensures var v := Spec(cfg, rank, s);
      !(cfg.Owned(s) && v.visible == YES) && !cfg.decls[s].Choice() ==>
        v.rev <= v.tri && (v.tri == MOD ==> EffectiveType(cfg, s, v.visible) == STristate)
  {
    hide Spec, Needs, Visible, Selected, FirstDefault, Eval, EvalOpt, EnvBelow, ValsBelow;
    SpecUnfolds(cfg, rank, s);
    DeclsOk(cfg, s);
  }

  lemma ChoiceSame(cfg: Config, rank: map<Sym, nat>, cfg2: Config, c: Sym)
    requires Loaded(cfg, rank, cfg2) && c in cfg.decls && SameNeeded(cfg, rank, cfg2, c) && cfg.decls[c].Choice()
    ensures Spec(cfg2, rank, c) == Spec(cfg, rank, c) <==> ChoiceReproduced(cfg, rank, cfg2, c)
  {
    hide Spec, Needs, WellFormed, Visible, Selected, AgreeOn, Loaded, SameNeeded, Pick, WithChoice;
    hide SymbolValue, EnvBelow, ValsBelow;
    LoadedParts(cfg, rank, cfg2, c);
    NeededAgree(cfg, rank, cfg2, c);
    SameNeedsAt(cfg, cfg2, c);
    TristateUnfolds(cfg, rank, c);
    TristateUnfolds(cfg2, rank, c);
    PickAgrees(cfg2, cfg2, c, EnvBelow(cfg, rank, rank[c]), EnvBelow(cfg2, rank, rank[c]));
  }

  lemma TextSame(cfg: Config, rank: map<Sym, nat>, cfg2: Config, s: Sym)
    requires Loaded(cfg, rank, cfg2) && s in cfg.decls && SameNeeded(cfg, rank, cfg2, s)
    requires s.Type() == SInt || s.Type() == SHex || s.Type() == SString
    ensures !cfg.decls[s].Choice()
    ensures Spec(cfg2, rank, s) == Spec(cfg, rank, s) <==> Reproduced(cfg, rank, cfg2, s)
  {
    hide Spec, Needs, WellFormed, Visible, Selected, AgreeOn, Loaded, SameNeeded, FirstDefault, FirstRange, Eval, EvalOpt;
    LoadedParts(cfg, rank, cfg2, s);
    NeededAgree(cfg, rank, cfg2, s);
    SpecUnfolds(cfg, rank, s);
    SpecUnfolds(cfg2, rank, s);
    var a, b := EnvBelow(cfg, rank, rank[s]), EnvBelow(cfg2, rank, rank[s]);
    DefaultAgrees(cfg, s, a, b);
    RangeAgrees(cfg, s, a, b);
    var p := FirstDefault(cfg.decls[s].defaults, a);
    if p.Some? && p.value.value.Symbol? { SymbolSyms(p.value.value); }
  }

  lemma SameHere(cfg: Config, rank: map<Sym, nat>, cfg2: Config, s: Sym)
    requires Loaded(cfg, rank, cfg2) && s in cfg.decls && SameNeeded(cfg, rank, cfg2, s)
    ensures Spec(cfg2, rank, s) == Spec(cfg, rank, s) <==> Reproduced(cfg, rank, cfg2, s)
  {
    hide Spec, Loaded, SameNeeded, ChoiceReproduced;
    LoadedParts(cfg, rank, cfg2, s);
    if !Typed(s) {
      UntypedSame(cfg, rank, cfg2, s);
    } else if cfg.decls[s].Choice() {
      ChoiceSame(cfg, rank, cfg2, s);
    } else if s.Type() == SBoolean || s.Type() == STristate {
      TristateSame(cfg, rank, cfg2, s);
    } else {
      TypeCases(s);
      TextSame(cfg, rank, cfg2, s);
    }
  }

  /** By the order of dependency, up to rank k. */
  lemma {:induction false} ReproducedBelow(cfg: Config, rank: map<Sym, nat>, cfg2: Config, k: nat)
    requires Loaded(cfg, rank, cfg2) && forall s :: s in cfg.decls ==> Reproduced(cfg, rank, cfg2, s)
    ensures forall s :: s in cfg.decls && s in rank && rank[s] < k ==> Spec(cfg2, rank, s) == Spec(cfg, rank, s)
  {
    hide Spec, Loaded, Reproduced, Needs, WellFormed, Ranked;
    LoadedShape(cfg, rank, cfg2);
    if k > 0 {
      ReproducedBelow(cfg, rank, cfg2, k - 1);
      forall s | s in cfg.decls && s in rank && rank[s] == k - 1 ensures Spec(cfg2, rank, s) == Spec(cfg, rank, s) {
        LoadedParts(cfg, rank, cfg2, s);
        RanksBelow(cfg, rank, s);
        SameHere(cfg, rank, cfg2, s);
      }
    }
  }

  /** All values are the same again if and only if each is reproduced. */
  lemma RoundTripExact(cfg: Config, rank: map<Sym, nat>, cfg2: Config)
    requires Loaded(cfg, rank, cfg2)
    ensures (forall s :: s in cfg.decls ==> Spec(cfg2, rank, s) == Spec(cfg, rank, s))
      <==> forall s :: s in cfg.decls ==> Reproduced(cfg, rank, cfg2, s)
  {
    hide Spec, Loaded, Reproduced, Needs, WellFormed, Ranked;
    LoadedShape(cfg, rank, cfg2);
    if forall s :: s in cfg.decls ==> Reproduced(cfg, rank, cfg2, s) {
      forall s | s in cfg.decls ensures Spec(cfg2, rank, s) == Spec(cfg, rank, s) {
        LoadedParts(cfg, rank, cfg2, s);
        ReproducedBelow(cfg, rank, cfg2, rank[s] + 1);
      }
    }
    if forall s :: s in cfg.decls ==> Spec(cfg2, rank, s) == Spec(cfg, rank, s) {
      forall s | s in cfg.decls ensures Reproduced(cfg, rank, cfg2, s) {
        LoadedParts(cfg, rank, cfg2, s);
        RanksBelow(cfg, rank, s);
        SameHere(cfg, rank, cfg2, s);
      }
    }
  }
}
