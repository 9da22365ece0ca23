/** The values of symbols in terms of each other: what prompts, selects, defaults and ranges demand of the final
    values, whatever order they are computed in (scripts/config/symbol.c). */
module SymbolLaws {
  import opened Options
  import opened Tristates
  import opened Exprs
  import opened SymbolSpec
  import opened SymbolState
  import opened SymbolTheorems
  import opened SymbolSetting

  ghost function Finals(cfg: Config, rank: map<Sym, nat>): Sym -> Value
    requires WellFormed(cfg) && Ranked(cfg, rank)
  {
    (s: Sym) => FinalValue(cfg, rank, s)
  }

  /** What s reads has its final value while s is evaluated. */
  lemma FinalBelow(cfg: Config, rank: map<Sym, nat>, s: Sym)
    requires WellFormed(cfg) && Ranked(cfg, rank) && s in cfg.decls
    ensures rank.Keys == cfg.decls.Keys
    ensures forall t :: t in Needs(cfg, s) ==> ValsBelow(cfg, rank, rank[s])(t) == Finals(cfg, rank)(t)
    ensures AgreeOn(EnvBelow(cfg, rank, rank[s]), FinalEnv(cfg, rank), Needs(cfg, s))
  {
    hide Spec, Needs, WellFormed;
    RanksBelow(cfg, rank, s);
    forall t | t in Needs(cfg, s)
      ensures t in cfg.decls && ValsBelow(cfg, rank, rank[s])(t) == Finals(cfg, rank)(t)
    {
      SpecTyped(cfg, rank, t);
    }
  }

  /** The values solve their own equations: each is what its declaration makes of the final values. */
  lemma SpecSolves(cfg: Config, rank: map<Sym, nat>, s: Sym)
    requires WellFormed(cfg) && Ranked(cfg, rank) && s in cfg.decls
    ensures Spec(cfg, rank, s) == SymbolValue(cfg, s, s in cfg.hasUser, Finals(cfg, rank), FinalEnv(cfg, rank))
  {
    hide Spec, Needs, WellFormed, Ranked, SymbolValue, FinalEnv;
    FinalBelow(cfg, rank, s);
    SpecUnfolds(cfg, rank, s);
    SameStaticRefl(cfg);
    SymbolValueAgrees(cfg, cfg, s, s in cfg.hasUser, ValsBelow(cfg, rank, rank[s]), Finals(cfg, rank),
                      EnvBelow(cfg, rank, rank[s]), FinalEnv(cfg, rank));
  }

  lemma SameStaticRefl(cfg: Config)
    ensures SameStatic(cfg, cfg)
  {
  }

  /** There is no other solution by another ranking. */
  lemma {:induction false} RankingsAgree(cfg: Config, rank: map<Sym, nat>, rank2: map<Sym, nat>, s: Sym)
    requires WellFormed(cfg) && Ranked(cfg, rank) && Ranked(cfg, rank2) && s in cfg.decls
    ensures s in rank && Spec(cfg, rank, s) == Spec(cfg, rank2, s)
    decreases rank[s]
  {
    hide Spec, Needs, WellFormed, SymbolValue;
    RanksBelow(cfg, rank, s);
    RanksBelow(cfg, rank2, s);
    forall t | t in Needs(cfg, s)
      ensures ValsBelow(cfg, rank, rank[s])(t) == ValsBelow(cfg, rank2, rank2[s])(t)
    {
      RankingsAgree(cfg, rank, rank2, t);
    }
    SpecUnfolds(cfg, rank, s);
    SpecUnfolds(cfg, rank2, s);
    SameStaticRefl(cfg);
    SymbolValueAgrees(cfg, cfg, s, s in cfg.hasUser, ValsBelow(cfg, rank, rank[s]), ValsBelow(cfg, rank2, rank2[s]),
                      EnvBelow(cfg, rank, rank[s]), EnvBelow(cfg, rank2, rank2[s]));
  }

  // ----- visibility and selection -----

  /** m is a value s can have. */
  predicate ModPossible(cfg: Config, s: Sym) { s.Type() == STristate && cfg.modules != NO }

  /** The most of several values. */
  ghost predicate Most(values: seq<Tristate>, max: Tristate) {
    (forall i :: 0 <= i < |values| ==> values[i] <= max) && (max == NO || exists i :: 0 <= i < |values| && values[i] == max)
  }

  ghost function PromptValues(ps: seq<Option<Expr>>, env: Env): seq<Tristate> {
    seq(|ps|, i requires 0 <= i < |ps| => EvalOpt(ps[i], env))
  }

  lemma {:induction false} PromptMost(ps: seq<Option<Expr>>, env: Env)
    ensures Most(PromptValues(ps, env), PromptMax(ps, env))
  {
    if ps != [] {
      hide EvalOpt;
      var init, n := ps[..|ps| - 1], |ps| - 1;
      PromptMost(init, env);
      var a, b := PromptValues(init, env), PromptValues(ps, env);
      assert b[n] == EvalOpt(ps[n], env) && forall i :: 0 <= i < n ==> b[i] == a[i];
      if PromptMax(ps, env) != NO && EvalOpt(ps[n], env) != PromptMax(ps, env) {
        var i :| 0 <= i < |a| && a[i] == PromptMax(init, env);
        assert b[i] == PromptMax(ps, env);
      }
    }
  }

  /** A symbol is as visible as its most visible prompt; where m is not possible, m makes it y. */
  lemma PromptLaw(cfg: Config, rank: map<Sym, nat>, s: Sym)
    requires WellFormed(cfg) && Ranked(cfg, rank) && s in cfg.decls && s.Declared? && Typed(s)
    ensures var v, shown := Spec(cfg, rank, s).visible, PromptValues(cfg.decls[s].prompts, FinalEnv(cfg, rank));
      exists max :: Most(shown, max) && v == if max == MOD && !ModPossible(cfg, s) then YES else max
  {
    hide Spec, Needs, WellFormed, Ranked, FinalEnv, Most, PromptValues, PromptMax, Selected, TristateOf, TextOf, RangeChecked;
    SpecSolves(cfg, rank, s);
    PromptMost(cfg.decls[s].prompts, FinalEnv(cfg, rank));
  }

  /** A symbol that is no member is selected as much as the condition of its selects says. */
  lemma SelectLaw(cfg: Config, rank: map<Sym, nat>, s: Sym)
    requires WellFormed(cfg) && Ranked(cfg, rank) && s in cfg.decls && s.Declared? && Typed(s)
    ensures var v, e := Spec(cfg, rank, s), cfg.decls[s].revDep;
      if cfg.Owned(s) || e.None? then v.rev == NO
      else
        var x := Eval(e.value, FinalEnv(cfg, rank));
        v.rev == if x == MOD && (s.Type() == SBoolean || (s.Type() == STristate && cfg.modules == NO)) then YES else x
  {
    hide Spec, Needs, WellFormed, Ranked, FinalEnv, Eval, PromptMax, TristateOf, TextOf, RangeChecked, Visible;
    SpecSolves(cfg, rank, s);
  }

  // ----- booleans and tristates -----

  /** i is the first default that applies; there is none if i is the number of defaults. */
  ghost predicate FirstApplies(ds: seq<Default>, env: Env, i: nat) {
    && i <= |ds|
    && (forall j :: 0 <= j < i ==> EvalOpt(ds[j].visible, env) == NO)
    && (i < |ds| ==> EvalOpt(ds[i].visible, env) != NO)
  }

  lemma {:induction false} FirstDefaultIs(ds: seq<Default>, env: Env, i: nat)
    requires FirstApplies(ds, env, i)
    ensures FirstDefault(ds, env) == if i < |ds| then Some(ds[i]) else None
    decreases |ds|
  {
    hide EvalOpt;
    if i > 0 {
      forall j | 0 <= j < i - 1 ensures EvalOpt(ds[1..][j].visible, env) == NO { assert ds[1..][j] == ds[j + 1]; }
      FirstDefaultIs(ds[1..], env, i - 1);
    }
  }

  /** Where m is not possible it becomes y. */
  function Promoted(cfg: Config, s: Sym, t: Tristate): Tristate { if t == MOD && !ModPossible(cfg, s) then YES else t }

  /** The tristate of a symbol that is neither a choice nor decided by one: no less than what selects it, and above
      that what the user has set, as far as it is visible; without that what the first default that applies
      gives, as far as that applies. */
  lemma ValueLaw(cfg: Config, rank: map<Sym, nat>, s: Sym, i: nat)
    requires WellFormed(cfg) && Ranked(cfg, rank) && s in cfg.decls && s.Declared? && !cfg.decls[s].Choice()
    requires s.Type() == SBoolean || s.Type() == STristate
    requires cfg.Owned(s) ==> Spec(cfg, rank, s).visible != YES
    requires FirstApplies(cfg.decls[s].defaults, FinalEnv(cfg, rank), i)
    ensures var v, env, ds := Spec(cfg, rank, s), FinalEnv(cfg, rank), cfg.decls[s].defaults;
      v.tri == Promoted(cfg, s, Or3(v.rev,
        if v.visible != NO && s in cfg.hasUser then And3(cfg.user(s).tri, v.visible)
        else if i < |ds| then And3(Eval(ds[i].value, env), EvalOpt(ds[i].visible, env))
        else NO))
  {
    hide Spec, Needs, WellFormed, Ranked, FinalEnv, Eval, EvalOpt, PromptMax, FirstDefault, FirstApplies;
    SpecSolves(cfg, rank, s);
    FirstDefaultIs(cfg.decls[s].defaults, FinalEnv(cfg, rank), i);
  }

  /** Some default applies. */
  ghost predicate SomeDefault(ds: seq<Default>, env: Env) { exists i :: 0 <= i < |ds| && EvalOpt(ds[i].visible, env) != NO }

  lemma {:induction false} FirstDefaultSome(ds: seq<Default>, env: Env)
    ensures FirstDefault(ds, env).Some? <==> SomeDefault(ds, env)
  {
    hide EvalOpt;
    if ds != [] {
      FirstDefaultSome(ds[1..], env);
      if EvalOpt(ds[0].visible, env) == NO {
        forall i ensures 0 <= i < |ds| - 1 ==> ds[1..][i] == ds[i + 1] { }
        if SomeDefault(ds, env) {
          var i :| 0 <= i < |ds| && EvalOpt(ds[i].visible, env) != NO;
          assert ds[1..][i - 1] == ds[i];
        }
      }
    }
  }

  /** A boolean or tristate marks itself for writing exactly if its choice does not decide about it and it is visible, or
      selected, or no choice and given some default, even if that is n. */
  lemma WrittenLaw(cfg: Config, rank: map<Sym, nat>, s: Sym)
    requires WellFormed(cfg) && Ranked(cfg, rank) && s in cfg.decls && s.Declared?
    requires s.Type() == SBoolean || s.Type() == STristate
    ensures var v := Spec(cfg, rank, s);
      Writes(cfg, rank, s) <==>
        && !(cfg.Owned(s) && v.visible == YES)
        && (v.visible != NO || v.rev != NO
            || (!cfg.decls[s].Choice() && SomeDefault(cfg.decls[s].defaults, FinalEnv(cfg, rank))))
  {
    hide Spec, Needs, WellFormed, Ranked, FinalEnv, EnvBelow, FirstDefault, SomeDefault;
    FinalBelow(cfg, rank, s);
    if !cfg.decls[s].Choice() { DefaultAgrees(cfg, s, EnvBelow(cfg, rank, rank[s]), FinalEnv(cfg, rank)); }
    FirstDefaultSome(cfg.decls[s].defaults, FinalEnv(cfg, rank));
  }

  // ----- texts and ranges -----

  ghost predicate FirstRangeApplies(rs: seq<Range>, env: Env, i: nat) {
    && i <= |rs|
    && (forall j :: 0 <= j < i ==> EvalOpt(rs[j].visible, env) == NO)
    && (i < |rs| ==> EvalOpt(rs[i].visible, env) != NO)
  }

  lemma {:induction false} FirstRangeIs(rs: seq<Range>, env: Env, i: nat)
    requires FirstRangeApplies(rs, env, i)
    ensures FirstRange(rs, env) == if i < |rs| then Some(rs[i]) else None
    decreases |rs|
  {
    hide EvalOpt;
    if i > 0 {
      forall j | 0 <= j < i - 1 ensures EvalOpt(rs[1..][j].visible, env) == NO { assert rs[1..][j] == rs[j + 1]; }
      FirstRangeIs(rs[1..], env, i - 1);
    }
  }

  /** The text of a symbol before its range is looked at: the user's if it is visible, else that of the symbol that
      the first default names. */
  ghost function Wanted(cfg: Config, rank: map<Sym, nat>, s: Sym, i: nat): string
    requires WellFormed(cfg) && Ranked(cfg, rank) && s in cfg.decls
  {
    var ds := cfg.decls[s].defaults;
    if Spec(cfg, rank, s).visible != NO && s in cfg.hasUser then cfg.user(s).str
    else if i < |ds| && ds[i].value.Symbol? then FinalValue(cfg, rank, ds[i].value.sym).str
    else ""
  }

  /** The number a symbol used as a bound stands for. */
  ghost function BoundOf(cfg: Config, rank: map<Sym, nat>, b: Sym, base: nat): int
    requires WellFormed(cfg) && Ranked(cfg, rank)
  {
    cfg.strtoll(FinalValue(cfg, rank, b).str, if b.Type() == SInt then 10 else if b.Type() == SHex then 16 else base)
  }

  /** Without a range that applies the text is the one wanted. */
  lemma TextLaw(cfg: Config, rank: map<Sym, nat>, s: Sym, i: nat, k: nat)
    requires WellFormed(cfg) && Ranked(cfg, rank) && s in cfg.decls && s.Declared?
    requires s.Type() == SString || s.Type() == SInt || s.Type() == SHex
    requires FirstApplies(cfg.decls[s].defaults, FinalEnv(cfg, rank), i)
    requires FirstRangeApplies(cfg.decls[s].ranges, FinalEnv(cfg, rank), k)
    requires s.Type() == SString || k == |cfg.decls[s].ranges|
    ensures Spec(cfg, rank, s).str == Wanted(cfg, rank, s, i)
  {
    hide Spec, Needs, WellFormed, Ranked, FinalEnv, Eval, EvalOpt, PromptMax, FirstDefault, FirstRange, FirstApplies,
         FirstRangeApplies, InRange;
    SpecSolves(cfg, rank, s);
    FirstDefaultIs(cfg.decls[s].defaults, FinalEnv(cfg, rank), i);
    FirstRangeIs(cfg.decls[s].ranges, FinalEnv(cfg, rank), k);
  }

  function Distance(a: int, b: int): nat { if a <= b then b - a else a - b }

  /** Forcing a number into a range gives the nearest number of the range, and leaves the text alone exactly if
      it is in there already, as long as the bounds survive being printed and read. */
  lemma Nearest(cfg: Config, s: Sym, str: string, r: Range, lo: string, hi: string)
    requires s.Type() == SInt || s.Type() == SHex
    requires var base := if s.Type() == SInt then 10 else 16;
      var low := cfg.strtoll(lo, if r.lo.Type() == SInt then 10 else if r.lo.Type() == SHex then 16 else base);
      var high := cfg.strtoll(hi, if r.hi.Type() == SInt then 10 else if r.hi.Type() == SHex then 16 else base);
      && low <= high
      && cfg.strtoll(cfg.sprintf(low, base), base) == low && cfg.strtoll(cfg.sprintf(high, base), base) == high
    ensures var base := if s.Type() == SInt then 10 else 16;
      var low := cfg.strtoll(lo, if r.lo.Type() == SInt then 10 else if r.lo.Type() == SHex then 16 else base);
      var high := cfg.strtoll(hi, if r.hi.Type() == SInt then 10 else if r.hi.Type() == SHex then 16 else base);
      var v, w := cfg.strtoll(str, base), cfg.strtoll(InRange(cfg, s, str, r, lo, hi), base);
      && low <= w <= high
      && (forall n :: low <= n <= high ==> Distance(w, v) <= Distance(n, v))
      && (InRange(cfg, s, str, r, lo, hi) == str <==> low <= v <= high)
  {
  }

  /** The number of a symbol with a range that applies is the number of the range that is nearest to the one
      wanted. */
  lemma RangeLaw(cfg: Config, rank: map<Sym, nat>, s: Sym, i: nat, k: nat)
    requires WellFormed(cfg) && Ranked(cfg, rank) && s in cfg.decls && s.Declared? && (s.Type() == SInt || s.Type() == SHex)
    requires FirstApplies(cfg.decls[s].defaults, FinalEnv(cfg, rank), i)
    requires FirstRangeApplies(cfg.decls[s].ranges, FinalEnv(cfg, rank), k) && k < |cfg.decls[s].ranges|
    requires var base, r := if s.Type() == SInt then 10 else 16, cfg.decls[s].ranges[k];
      var low, high := BoundOf(cfg, rank, r.lo, base), BoundOf(cfg, rank, r.hi, base);
      && low <= high
      && cfg.strtoll(cfg.sprintf(low, base), base) == low && cfg.strtoll(cfg.sprintf(high, base), base) == high
    ensures var base, r := if s.Type() == SInt then 10 else 16, cfg.decls[s].ranges[k];
      var low, high := BoundOf(cfg, rank, r.lo, base), BoundOf(cfg, rank, r.hi, base);
      var v, w := cfg.strtoll(Wanted(cfg, rank, s, i), base), cfg.strtoll(Spec(cfg, rank, s).str, base);
      && low <= w <= high
      && (forall n :: low <= n <= high ==> Distance(w, v) <= Distance(n, v))
      && (Spec(cfg, rank, s).str == Wanted(cfg, rank, s, i) <==> low <= v <= high)
  {
    hide Spec, Needs, WellFormed, Ranked, FinalEnv, Eval, EvalOpt, PromptMax, FirstDefault, FirstRange, FirstApplies,
         FirstRangeApplies, InRange, Distance;
    SpecSolves(cfg, rank, s);
    FirstDefaultIs(cfg.decls[s].defaults, FinalEnv(cfg, rank), i);
    FirstRangeIs(cfg.decls[s].ranges, FinalEnv(cfg, rank), k);
    var r := cfg.decls[s].ranges[k];
    Nearest(cfg, s, Wanted(cfg, rank, s, i), r, FinalValue(cfg, rank, r.lo).str, FinalValue(cfg, rank, r.hi).str);
  }

  /** With the bounds the wrong way round a number below the first becomes the first, any other the second. */
  lemma EmptyRange(cfg: Config, s: Sym, str: string, r: Range, lo: string, hi: string)
    requires s.Type() == SInt || s.Type() == SHex
    requires var base := if s.Type() == SInt then 10 else 16;
      var low := cfg.strtoll(lo, if r.lo.Type() == SInt then 10 else if r.lo.Type() == SHex then 16 else base);
      var high := cfg.strtoll(hi, if r.hi.Type() == SInt then 10 else if r.hi.Type() == SHex then 16 else base);
      && high < low
      && cfg.strtoll(cfg.sprintf(low, base), base) == low && cfg.strtoll(cfg.sprintf(high, base), base) == high
    ensures var base := if s.Type() == SInt then 10 else 16;
      var low := cfg.strtoll(lo, if r.lo.Type() == SInt then 10 else if r.lo.Type() == SHex then 16 else base);
      var high := cfg.strtoll(hi, if r.hi.Type() == SInt then 10 else if r.hi.Type() == SHex then 16 else base);
      cfg.strtoll(InRange(cfg, s, str, r, lo, hi), base) == if cfg.strtoll(str, base) < low then low else high
  {
  }

  // ----- which values may be set -----

  /** A value may be set for a symbol outside choices exactly if there is room between what selects it and what
      its prompts allow, and the symbol then gets the value. */
  lemma AcceptedExactly(cfg: Config, rank: map<Sym, nat>, s: Sym, val: Tristate)
    requires WellFormed(cfg) && Ranked(cfg, rank) && s in cfg.decls && s.Declared?
    requires !cfg.decls[s].Choice() && !cfg.Owned(s) && (s.Type() == SBoolean || s.Type() == STristate)
    ensures WellFormed(SetUser(cfg, s, val)) && Ranked(SetUser(cfg, s, val), rank)
    ensures var v := Spec(cfg, rank, s);
      WithinRange(cfg, s, v, val) <==> v.visible > v.rev && Spec(SetUser(cfg, s, val), rank, s).tri == val
  {
    hide Spec, WellFormed, Ranked, Needs;
    SetUserOk(cfg, rank, s, val);
    if val == MOD && !ModPossible(cfg, s) {
      SpecTyped(SetUser(cfg, s, val), rank, s);
    } else {
      SetExact(cfg, rank, s, val);
    }
  }

  /** For a choice in the same way, as long as it has a visible member. */
  lemma ChoiceAccepted(cfg: Config, rank: map<Sym, nat>, c: Sym, val: Tristate)
    requires WellFormed(cfg) && Ranked(cfg, rank) && c in cfg.decls && c.Declared? && cfg.decls[c].Choice()
    requires SomeSeen(cfg, rank, c)
    ensures WellFormed(SetUser(cfg, c, val)) && Ranked(SetUser(cfg, c, val), rank)
    ensures var v := Spec(cfg, rank, c);
      WithinRange(cfg, c, v, val) <==> v.visible > v.rev && Spec(SetUser(cfg, c, val), rank, c).tri == val
  {
    hide Spec, WellFormed, Ranked, Needs, SomeSeen;
    SetChoiceExact(cfg, rank, c, val);
    ChoiceKind(cfg, rank, c);
  }

  lemma ChoiceKind(cfg: Config, rank: map<Sym, nat>, c: Sym)
    requires WellFormed(cfg) && Ranked(cfg, rank) && c in cfg.decls && cfg.decls[c].Choice() && c.Declared?
    ensures !cfg.Owned(c) && (c.Type() == SBoolean || c.Type() == STristate)
    ensures !ModPossible(cfg, c) ==> Spec(cfg, rank, c).visible != MOD && Spec(cfg, rank, c).rev != MOD
  {
    hide Spec, Ranked, Needs, FinalEnv, PromptMax, Eval, TristateOf, Pick;
    SpecSolves(cfg, rank, c);
    assert DeclOk(cfg, c);
  }

  /** A member that its choice decides about can be set to y alone; one shown at m to anything but y, and then gets
      that value; a hidden one to nothing. */
  lemma MemberAccepted(cfg: Config, rank: map<Sym, nat>, s: Sym, val: Tristate)
    requires WellFormed(cfg) && Ranked(cfg, rank) && s in cfg.decls && s.Declared? && cfg.Owned(s)
    ensures WellFormed(SetUser(cfg, s, val)) && Ranked(SetUser(cfg, s, val), rank)
    ensures var v := Spec(cfg, rank, s);
      && (v.visible == YES ==> (WithinRange(cfg, s, v, val) <==> val == YES))
      && (v.visible == MOD ==> (WithinRange(cfg, s, v, val) <==> val != YES))
      && (v.visible == MOD && val != YES ==> Spec(SetUser(cfg, s, val), rank, s).tri == val)
      && (v.visible == NO ==> !WithinRange(cfg, s, v, val))
  {
    hide Spec, WellFormed, Ranked, Needs;
    SetUserOk(cfg, rank, s, val);
    MemberKindOf(cfg, rank, s);
    if val != YES { SetMemberExact(cfg, rank, s, val); }
  }

  lemma MemberKindOf(cfg: Config, rank: map<Sym, nat>, s: Sym)
    requires WellFormed(cfg) && Ranked(cfg, rank) && s in cfg.decls && cfg.Owned(s) && s.Declared?
    ensures s.Type() == SBoolean || s.Type() == STristate
    ensures Spec(cfg, rank, s).rev == NO && (Spec(cfg, rank, s).visible == MOD ==> ModPossible(cfg, s))
  {
    hide Spec, Ranked, Needs, FinalEnv, PromptMax, Eval, TristateOf, Pick;
    SpecSolves(cfg, rank, s);
    assert DeclOk(cfg, s);
  }
}
