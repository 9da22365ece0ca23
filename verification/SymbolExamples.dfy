/** Inputs at which a value that is accepted is not the one obtained. */
module SymbolExamples {
  import opened Options
  import opened Tristates
  import opened Exprs
  import opened SymbolSpec
  import opened SymbolState
  import opened SymbolTheorems
  import opened SymbolSetting

  /** A choice can lose its user value while another symbol is being looked at: then a value accepted as
      within range is not what the symbol gets. The choice d is y by the user and selected to m, and its
      one member m has no user value. */
  predicate Forgetful(cfg: Config, d: Sym, m: Sym) {
    && d == Declared(0, STristate) && m == Declared(1, SBoolean)
    && SymMod in cfg.decls && d in cfg.decls && m in cfg.decls
    && cfg.decls[SymMod] == Decl("m", [], [], [], None, None, [], None)
    && cfg.decls[d] == Decl("D", [None], [], [], None, Some(Symbol(SymMod)), [m], None)
    && cfg.decls[m] == Decl("M", [Some(Symbol(d))], [], [], None, None, [], Some(d))
    && cfg.modules == YES && cfg.user(d) == User(YES, "", None)
  }

  /** The symbol s may be set as far as the choice c. */
  predicate ForgetfulChoice(cfg: Config, c: Sym, m: Sym, s: Sym) {
    && Forgetful(cfg, c, m) && s == Declared(2, STristate)
    && cfg.decls.Keys == {SymMod, c, m, s}
    && cfg.decls[s] == Decl("S", [Some(Symbol(c))], [], [], None, None, [], None)
  }

  function ForgetfulRank(c: Sym, m: Sym, s: Sym): map<Sym, nat> { map[SymMod := 0, c := 1, m := 2, s := 2] }

  lemma ForgetfulOk(cfg: Config, c: Sym, m: Sym, s: Sym)
    requires ForgetfulChoice(cfg, c, m, s) && SymMod !in cfg.hasUser
    ensures WellFormed(cfg) && Ranked(cfg, ForgetfulRank(c, m, s))
  {
    ForgetfulDecls(cfg, c, m, s);
    ForgetfulRanked(cfg, c, m, s);
    hide DeclOk, RankedAt;
  }

  lemma ForgetfulRankAt(c: Sym, m: Sym, s: Sym)
    requires c == Declared(0, STristate) && m == Declared(1, SBoolean) && s == Declared(2, STristate)
    ensures var rank := ForgetfulRank(c, m, s);
      && rank.Keys == {SymMod, c, m, s}
      && rank[SymMod] == 0 && rank[c] == 1 && rank[m] == 2 && rank[s] == 2
  {
  }

  lemma ForgetfulRanked(cfg: Config, c: Sym, m: Sym, s: Sym)
    requires ForgetfulChoice(cfg, c, m, s)
    ensures Ranked(cfg, ForgetfulRank(c, m, s))
  {
    var rank := ForgetfulRank(c, m, s);
    ForgetfulNeeds(cfg, c, m, s);
    ForgetfulRankAt(c, m, s);
    hide Needs, ForgetfulRank, RankedAt;
    assert RankedAt(cfg, rank, SymMod) by { NeedsNothing(cfg, rank, SymMod); }
    NeedsOne(cfg, rank, c, SymMod);
    NeedsOne(cfg, rank, m, c);
    NeedsOne(cfg, rank, s, c);
  }

  lemma NeedsOne(cfg: Config, rank: map<Sym, nat>, s: Sym, t: Sym)
    requires rank.Keys == cfg.decls.Keys && s in cfg.decls && t in cfg.decls && Needs(cfg, s) == {t} && rank[t] < rank[s]
    ensures RankedAt(cfg, rank, s)
  {
  }

  lemma NeedsNothing(cfg: Config, rank: map<Sym, nat>, s: Sym)
    requires rank.Keys == cfg.decls.Keys && s in cfg.decls && Needs(cfg, s) == {}
    ensures RankedAt(cfg, rank, s)
  {
  }

  lemma ForgetfulDecls(cfg: Config, c: Sym, m: Sym, s: Sym)
    requires ForgetfulChoice(cfg, c, m, s) && SymMod !in cfg.hasUser
    ensures DeclOk(cfg, SymMod) && DeclOk(cfg, c) && DeclOk(cfg, m) && DeclOk(cfg, s)
  {
    ForgetfulNeeds(cfg, c, m, s);
    hide Needs, PromptSyms;
    assert DeclOk(cfg, SymMod) && DeclOk(cfg, s);
    ForgetfulMember(cfg, c, m, s);
    ForgetfulOwner(cfg, c, m, s);
  }

  lemma ForgetfulOwner(cfg: Config, c: Sym, m: Sym, s: Sym)
    requires ForgetfulChoice(cfg, c, m, s)
    ensures DeclOk(cfg, c)
  {
    hide Needs, PromptSyms;
  }

  lemma ForgetfulMember(cfg: Config, c: Sym, m: Sym, s: Sym)
    requires ForgetfulChoice(cfg, c, m, s)
    ensures DeclOk(cfg, m)
  {
    OnePromptSyms(Some(Symbol(c)));
    hide Needs, PromptSyms;
  }

  lemma ForgetfulNeeds(cfg: Config, c: Sym, m: Sym, s: Sym)
    requires ForgetfulChoice(cfg, c, m, s)
    ensures Needs(cfg, SymMod) == {} && Needs(cfg, c) == {SymMod} && Needs(cfg, m) == {c} && Needs(cfg, s) == {c}
  {
    OnePromptSyms(None);
    OnePromptSyms(Some(Symbol(c)));
    hide PromptSyms;
    assert cfg.decls[c].members == [m];
    assert MemberSyms(cfg, c) == {} && MemberSyms(cfg, m) == {} && MemberSyms(cfg, s) == {};
    assert PromptSyms([]) == {} by { NoPromptSyms(); }
  }

  lemma NoPromptSyms()
    ensures PromptSyms([]) == {}
  {
  }

  lemma OnePromptSyms(p: Option<Expr>)
    ensures PromptSyms([p]) == OptSyms(p)
  {
    assert p in [p];
  }

  lemma OnePromptMax(p: Option<Expr>, env: Env)
    ensures PromptMax([p], env) == EvalOpt(p, env)
  {
    assert [p][..0] == [];
  }

  /** The value of the choice, depending on whether it still has its user value. */
  lemma ForgetfulValue(cfg: Config, rank: map<Sym, nat>, d: Sym, m: Sym)
    requires Forgetful(cfg, d, m) && SymMod !in cfg.hasUser && m !in cfg.hasUser
    requires WellFormed(cfg) && Ranked(cfg, rank)
    ensures Spec(cfg, rank, d).tri == (if d in cfg.hasUser then YES else MOD)
    ensures d in cfg.hasUser ==> !FlagKept(cfg, rank, d)
  {
    hide Spec, WellFormed, Ranked, Needs;
    SpecTyped(cfg, rank, SymMod);
    RanksBelow(cfg, rank, d);
    assert SymMod in Needs(cfg, d) by { SelectNeeded(cfg, d); }
    forall env: Env ensures PromptMax(cfg.decls[d].prompts, env) == YES && PromptMax(cfg.decls[m].prompts, env) == env.tri(d) {
      OnePromptMax(None, env);
      OnePromptMax(Some(Symbol(d)), env);
    }
    SpecUnfolds(cfg, rank, d);
    assert m in cfg.decls[d].members;
  }

  lemma SelectNeeded(cfg: Config, s: Sym)
    requires s in cfg.decls && cfg.decls[s].owner.None?
    ensures OptSyms(cfg.decls[s].revDep) <= Needs(cfg, s)
  {
  }

  /** A tristate whose one prompt is the value of d sees just that. */
  lemma FollowerValue(cfg: Config, rank: map<Sym, nat>, d: Sym, s: Sym)
    requires WellFormed(cfg) && Ranked(cfg, rank) && s in cfg.decls && cfg.modules == YES && s.Type() == STristate
    requires cfg.decls[s].prompts == [Some(Symbol(d))] && cfg.decls[s].revDep == None && !cfg.Owned(s)
    ensures d in cfg.decls && rank[d] < rank[s] && Spec(cfg, rank, s).visible == Spec(cfg, rank, d).tri
    ensures Spec(cfg, rank, s).rev == NO
    ensures cfg.decls[s].defaults == [] && !cfg.decls[s].Choice() && s !in cfg.hasUser ==> Spec(cfg, rank, s).tri == NO
  {
    hide Spec, WellFormed, Ranked, Needs;
    RanksBelow(cfg, rank, s);
    OnePromptSyms(Some(Symbol(d)));
    assert d in PromptSyms(cfg.decls[s].prompts) && PromptSyms(cfg.decls[s].prompts) <= Needs(cfg, s) by { PromptsNeeded(cfg, s); }
    OnePromptMax(Some(Symbol(d)), EnvBelow(cfg, rank, rank[s]));
    SpecUnfolds(cfg, rank, s);
    DeclsOk(cfg, s);
  }

  lemma PromptsNeeded(cfg: Config, s: Sym)
    requires s in cfg.decls
    ensures PromptSyms(cfg.decls[s].prompts) <= Needs(cfg, s)
  {
    hide PromptSyms;
  }

  /** The values of the example. */
  lemma ForgetfulValues(cfg: Config, c: Sym, m: Sym, s: Sym)
    requires ForgetfulChoice(cfg, c, m, s) && SymMod !in cfg.hasUser && m !in cfg.hasUser
    requires WellFormed(cfg) && Ranked(cfg, ForgetfulRank(c, m, s))
    ensures var rank := ForgetfulRank(c, m, s);
      && Spec(cfg, rank, c).tri == (if c in cfg.hasUser then YES else MOD)
      && (c in cfg.hasUser ==> !FlagKept(cfg, rank, c))
      && Spec(cfg, rank, s).visible == Spec(cfg, rank, c).tri && Spec(cfg, rank, s).rev == NO
      && (s !in cfg.hasUser ==> Spec(cfg, rank, s).tri == NO)
  {
    hide Spec, WellFormed, Ranked, Needs, ForgetfulRank;
    ForgetfulValue(cfg, ForgetfulRank(c, m, s), c, m);
    FollowerValue(cfg, ForgetfulRank(c, m, s), c, s);
  }

  /** The failing input: once everything has been evaluated, the choice has lost its user value, y is
      accepted for s, and yet s will be m. */
  lemma ForgetfulSet(cfg: Config, c: Sym, m: Sym, s: Sym, st: Memory)
    requires ForgetfulChoice(cfg, c, m, s) && cfg.hasUser == {c}
    requires var rank := ForgetfulRank(c, m, s);
      MemoryOk(cfg, rank, st) && Settled(cfg, rank, st) && forall t :: t in st ==> st[t].valid
    ensures Flagged(st) == {} && st[s].v.tri == NO && WithinRange(cfg, s, st[s].v, YES)
    ensures var rank := ForgetfulRank(c, m, s);
      && !Admits(Expected(cfg, rank, st, s), YES)
      && SetUser(Now(cfg, st), s, YES) == SetUser(cfg.(hasUser := {}), s, YES)
      && WellFormed(SetUser(Now(cfg, st), s, YES)) && Ranked(SetUser(Now(cfg, st), s, YES), rank)
      && Spec(SetUser(Now(cfg, st), s, YES), rank, s).tri == MOD
  {
    hide Spec, WellFormed, Ranked, Needs, SlotOk, MembersKeep;
    var rank := ForgetfulRank(c, m, s);
    var cfg1 := Now(cfg, st);
    var cfg2 := SetUser(cfg1, s, YES);
    ForgetfulValues(cfg, c, m, s);
    SettledValue(cfg, rank, st, s);
    forall t | t in st ensures !st[t].hasUser {
      SettledValue(cfg, rank, st, t);
    }
    ForgetfulOk(cfg1, c, m, s);
    ForgetfulValues(cfg1, c, m, s);
    ForgetfulOk(cfg2, c, m, s);
    ForgetfulValues(cfg2, c, m, s);
    SetExact(cfg1, rank, s, YES);
    SpecUnfolds(cfg2, rank, s);
  }

  /** The same for a member: the choice c with the members s and t may be set as far as the choice d, and
      everything but m has a user value. */
  predicate ForgetfulPair(cfg: Config, d: Sym, m: Sym, c: Sym, s: Sym, t: Sym) {
    && Forgetful(cfg, d, m)
    && c == Declared(2, STristate) && s == Declared(3, SBoolean) && t == Declared(4, SBoolean)
    && cfg.decls.Keys == {SymMod, d, m, c, s, t}
    && cfg.decls[c] == Decl("C", [Some(Symbol(d))], [], [], None, None, [s, t], None)
    && cfg.decls[s] == Decl("S", [Some(Symbol(c))], [], [], None, None, [], Some(c))
    && cfg.decls[t] == Decl("T", [Some(Symbol(c))], [], [], None, None, [], Some(c))
    && cfg.user(c) == User(YES, "", None)
  }

  /** A boolean member whose one prompt is the value of its choice is shown unless that is n, and follows
      the pick. */
  lemma PlainMember(cfg: Config, rank: map<Sym, nat>, c: Sym, x: Sym)
    requires WellFormed(cfg) && Ranked(cfg, rank) && x in cfg.decls && x.Type() == SBoolean
    requires cfg.decls[x].prompts == [Some(Symbol(c))] && cfg.decls[x].owner == Some(c)
    ensures c in cfg.decls && rank[c] < rank[x]
    ensures var v := Spec(cfg, rank, x);
      && v.visible == (if Spec(cfg, rank, c).tri != NO then YES else NO)
      && (v.visible == YES ==> v.tri == if Spec(cfg, rank, c).pick == Some(x) then YES else NO)
    ensures SeenByChoice(cfg, rank, c, x) == YES
  {
    hide Spec, WellFormed, Ranked, Needs;
    RanksBelow(cfg, rank, x);
    OwnerNeeded(cfg, x);
    OnePromptMax(Some(Symbol(c)), EnvBelow(cfg, rank, rank[x]));
    OnePromptMax(Some(Symbol(c)), EnvAt(cfg, rank, rank[c], Some(c)));
    hide SymbolValue, PromptMax;
    MemberSpec(cfg, rank, c, x);
    SpecTyped(cfg, rank, x);
    DeclsOk(cfg, x);
    PlainTri(cfg, rank, c, x);
  }

  lemma PlainTri(cfg: Config, rank: map<Sym, nat>, c: Sym, x: Sym)
    requires WellFormed(cfg) && Ranked(cfg, rank) && x in cfg.decls && x.Type() == SBoolean
    requires cfg.decls[x].owner == Some(c) && c in cfg.decls
    ensures Spec(cfg, rank, x).tri != MOD
  {
    SpecTyped(cfg, rank, x);
  }

  /** The choice c, depending on what d is. */
  lemma PairChoice(cfg: Config, rank: map<Sym, nat>, d: Sym, m: Sym, c: Sym, s: Sym, t: Sym)
    requires ForgetfulPair(cfg, d, m, c, s, t) && WellFormed(cfg) && Ranked(cfg, rank) && c in cfg.hasUser
    requires Spec(cfg, rank, d).tri != NO
    ensures Spec(cfg, rank, c).tri == Spec(cfg, rank, d).tri
    ensures Spec(cfg, rank, c).pick == if Spec(cfg, rank, d).tri == YES then Some(s) else None
  {
    hide Spec, WellFormed, Ranked, Needs, Visible, EnvBelow, ValsBelow, Pick, EnvAt, Selected;
    FollowerValue(cfg, rank, d, c);
    PlainMember(cfg, rank, c, s);
    FirstPicked(cfg, rank, c, s);
    ChoiceGiven(cfg, cfg, rank, c);
  }

  /** Without a pick of the user and without defaults the first member is picked if it is visible. */
  lemma FirstPicked(cfg: Config, rank: map<Sym, nat>, c: Sym, s: Sym)
    requires WellFormed(cfg) && Ranked(cfg, rank) && c in cfg.decls && cfg.decls[c].Choice() && DeclOk(cfg, c)
    requires cfg.user(c).pick.None? && cfg.decls[c].defaults == [] && cfg.decls[c].members[0] == s && s in cfg.decls
    requires SeenByChoice(cfg, rank, c, s) == YES
    ensures Pick(cfg, c, EnvAt(cfg, rank, rank[c], Some(c))) == Some(s)
  {
    hide Spec, WellFormed, Ranked, Needs, Visible, EnvAt;
  }

  /** The failing input: once everything has been evaluated d has lost its user value. Then c is y with the
      pick s, y is accepted for t, and yet c will be m, pick nothing, and t will be n. */
  lemma ForgetfulSelect(cfg: Config, rank: map<Sym, nat>, d: Sym, m: Sym, c: Sym, s: Sym, t: Sym, st: Memory)
    requires ForgetfulPair(cfg, d, m, c, s, t) && cfg.hasUser == {d, c, s, t}
    requires MemoryOk(cfg, rank, st) && Settled(cfg, rank, st) && forall x :: x in st ==> st[x].valid
    ensures Spec(cfg, rank, c).tri == YES && st[t].v.visible == YES && st[t].v.tri == NO
    ensures WithinRange(cfg, t, st[t].v, YES)
    ensures cfg.Owned(t) && c in st && !Selectable(cfg, rank, st, t) && Flagged(st) == {c, s, t}
    ensures var cfg2 := SetValue(cfg, st, t, YES);
      && WellFormed(cfg2) && Ranked(cfg2, rank)
      && Spec(cfg2, rank, c).tri == MOD && Spec(cfg2, rank, c).pick == None && Spec(cfg2, rank, t).tri == NO
  {
    hide Spec, WellFormed, Ranked, Needs, SlotOk, SetValue, Flagged;
    PairBefore(cfg, rank, d, m, c, s, t, st);
    PairFlags(cfg, rank, d, m, c, s, t, st);
    PairAfter(cfg, rank, d, m, c, s, t, st);
  }

  lemma PairBefore(cfg: Config, rank: map<Sym, nat>, d: Sym, m: Sym, c: Sym, s: Sym, t: Sym, st: Memory)
    requires ForgetfulPair(cfg, d, m, c, s, t) && cfg.hasUser == {d, c, s, t}
    requires MemoryOk(cfg, rank, st) && Settled(cfg, rank, st) && forall x :: x in st ==> st[x].valid
    ensures Spec(cfg, rank, c).tri == YES && t in st && st[t].v.visible == YES && st[t].v.tri == NO
    ensures WithinRange(cfg, t, st[t].v, YES)
  {
    hide Spec, WellFormed, Ranked, Needs, Settled, SlotOk, WithinRange;
    ForgetfulValue(cfg, rank, d, m);
    PairChoice(cfg, rank, d, m, c, s, t);
    PlainMember(cfg, rank, c, t);
    SettledValue(cfg, rank, st, t);
    MemberWithin(cfg, rank, t, st[t]);
  }

  /** A boolean member that is shown may be set to y. */
  lemma MemberWithin(cfg: Config, rank: map<Sym, nat>, t: Sym, x: State)
    requires t in cfg.decls && SlotOk(cfg, t, x) && cfg.Owned(t) && t.Type() == SBoolean && x.v.visible == YES
    ensures WithinRange(cfg, t, x.v, YES)
  {
  }

  lemma PairFlags(cfg: Config, rank: map<Sym, nat>, d: Sym, m: Sym, c: Sym, s: Sym, t: Sym, st: Memory)
    requires ForgetfulPair(cfg, d, m, c, s, t) && cfg.hasUser == {d, c, s, t}
    requires MemoryOk(cfg, rank, st) && Settled(cfg, rank, st) && forall x :: x in st ==> st[x].valid
    ensures Flagged(st) == {c, s, t}
  {
    hide Spec, WellFormed, Ranked, Needs, SlotOk, Settled, FlagKept;
    assert st.Keys == cfg.decls.Keys;
    forall x | x in st ensures st[x].hasUser <==> x == c || x == s || x == t {
      SettledValue(cfg, rank, st, x);
      PairKept(cfg, rank, d, m, c, s, t, x);
    }
  }

  lemma PairKept(cfg: Config, rank: map<Sym, nat>, d: Sym, m: Sym, c: Sym, s: Sym, t: Sym, x: Sym)
    requires ForgetfulPair(cfg, d, m, c, s, t) && cfg.hasUser == {d, c, s, t} && WellFormed(cfg) && Ranked(cfg, rank)
    requires x in cfg.decls
    ensures FlagKept(cfg, rank, x) <==> x == c || x == s || x == t
  {
    hide Spec, WellFormed, Ranked, Needs;
    if x == d {
      ForgetfulValue(cfg, rank, d, m);
    } else if x == c {
      assert MembersKeep(cfg, rank, c);
    }
  }

  /** The example exists. */
  lemma PairOk(cfg: Config, d: Sym, m: Sym, c: Sym, s: Sym, t: Sym, rank: map<Sym, nat>)
    requires ForgetfulPair(cfg, d, m, c, s, t) && SymMod !in cfg.hasUser
    requires rank.Keys == cfg.decls.Keys && rank[SymMod] == 0 && rank[d] == 1 && rank[m] == 2 && rank[c] == 2
    requires rank[s] == 3 && rank[t] == 3
    ensures WellFormed(cfg) && Ranked(cfg, rank)
  {
    hide RankedAt, DeclOk, ForgetfulPair;
    forall x | x in cfg.decls ensures DeclOk(cfg, x) && RankedAt(cfg, rank, x) {
      PairDeclOk(cfg, d, m, c, s, t, x);
      PairRankedAt(cfg, d, m, c, s, t, rank, x);
    }
  }

  lemma PairRankedAt(cfg: Config, d: Sym, m: Sym, c: Sym, s: Sym, t: Sym, rank: map<Sym, nat>, x: Sym)
    requires ForgetfulPair(cfg, d, m, c, s, t) && x in cfg.decls
    requires rank.Keys == cfg.decls.Keys && rank[SymMod] == 0 && rank[d] == 1 && rank[m] == 2 && rank[c] == 2
    requires rank[s] == 3 && rank[t] == 3
    ensures RankedAt(cfg, rank, x)
  {
    PairNeeds(cfg, d, m, c, s, t);
    PairKeys(cfg, d, m, c, s, t, x);
    hide Needs, RankedAt, ForgetfulPair;
    if x == SymMod {
      NeedsNothing(cfg, rank, x);
    } else if x == d {
      NeedsOne(cfg, rank, x, SymMod);
    } else if x == m || x == c {
      NeedsOne(cfg, rank, x, d);
    } else {
      NeedsOne(cfg, rank, x, c);
    }
  }

  lemma PairKeys(cfg: Config, d: Sym, m: Sym, c: Sym, s: Sym, t: Sym, x: Sym)
    requires ForgetfulPair(cfg, d, m, c, s, t) && x in cfg.decls
    ensures x == SymMod || x == d || x == m || x == c || x == s || x == t
    ensures SymMod in cfg.decls && d in cfg.decls && m in cfg.decls && c in cfg.decls && s in cfg.decls && t in cfg.decls
  {
  }

  lemma PairDeclOk(cfg: Config, d: Sym, m: Sym, c: Sym, s: Sym, t: Sym, x: Sym)
    requires ForgetfulPair(cfg, d, m, c, s, t) && SymMod !in cfg.hasUser && x in cfg.decls
    ensures DeclOk(cfg, x)
  {
    hide Needs, PromptSyms, DeclOk;
    if x == SymMod {
      PairNeeds(cfg, d, m, c, s, t);
      PairModOk(cfg);
    } else if x == d || x == c {
      PairChoiceOk(cfg, d, m, c, s, t, x);
    } else {
      PairMemberOk(cfg, x, if x == m then d else c);
    }
  }

  lemma PairModOk(cfg: Config)
    requires SymMod in cfg.decls && SymMod !in cfg.hasUser && Needs(cfg, SymMod) == {}
    requires cfg.decls[SymMod] == Decl("m", [], [], [], None, None, [], None)
    ensures DeclOk(cfg, SymMod)
  {
    hide Needs;
  }

  lemma PairNeeds(cfg: Config, d: Sym, m: Sym, c: Sym, s: Sym, t: Sym)
    requires ForgetfulPair(cfg, d, m, c, s, t)
    ensures Needs(cfg, SymMod) == {} && Needs(cfg, d) == {SymMod} && Needs(cfg, m) == {d}
    ensures Needs(cfg, c) == {d} && Needs(cfg, s) == {c} && Needs(cfg, t) == {c}
  {
    OnePromptSyms(None);
    OnePromptSyms(Some(Symbol(d)));
    OnePromptSyms(Some(Symbol(c)));
    NoPromptSyms();
    hide PromptSyms;
    assert MemberSyms(cfg, d) == {} && MemberSyms(cfg, m) == {} && MemberSyms(cfg, c) == {};
    assert MemberSyms(cfg, s) == {} && MemberSyms(cfg, t) == {};
  }

  lemma PairMemberOk(cfg: Config, x: Sym, c: Sym)
    requires x in cfg.decls && x.Declared? && x.Type() == SBoolean && c in cfg.decls && x in cfg.decls[c].members
    requires cfg.decls[x].owner == Some(c) && cfg.decls[x].prompts == [Some(Symbol(c))] && cfg.decls[x].members == []
    ensures DeclOk(cfg, x)
  {
    OnePromptSyms(Some(Symbol(c)));
    hide Needs, PromptSyms;
  }

  lemma PairChoiceOk(cfg: Config, d: Sym, m: Sym, c: Sym, s: Sym, t: Sym, x: Sym)
    requires ForgetfulPair(cfg, d, m, c, s, t) && (x == d || x == c)
    ensures DeclOk(cfg, x)
  {
    hide Needs, PromptSyms;
  }

  lemma PairAfter(cfg: Config, rank: map<Sym, nat>, d: Sym, m: Sym, c: Sym, s: Sym, t: Sym, st: Memory)
    requires ForgetfulPair(cfg, d, m, c, s, t) && MemoryOk(cfg, rank, st) && Flagged(st) == {c, s, t}
    ensures cfg.Owned(t) && t in st && c in st && !Selectable(cfg, rank, st, t)
    ensures var cfg2 := SetValue(cfg, st, t, YES);
      && WellFormed(cfg2) && Ranked(cfg2, rank)
      && Spec(cfg2, rank, c).tri == MOD && Spec(cfg2, rank, c).pick == None && Spec(cfg2, rank, t).tri == NO
  {
    hide Spec, WellFormed, Ranked, Needs, SlotOk, SetValue, Flagged;
    var now, cfg2 := Now(cfg, st), SetValue(cfg, st, t, YES);
    NowOk(cfg, rank, st);
    PairGiven(cfg, rank, d, m, c, s, t, st);
    SelectExact(cfg, rank, st, t);
    SelectUsers(cfg, rank, st, t);
    hide Given, Selectable;
    ChoiceGiven(now, cfg2, rank, c);
    PlainMember(cfg2, rank, c, t);
  }

  lemma PairGiven(cfg: Config, rank: map<Sym, nat>, d: Sym, m: Sym, c: Sym, s: Sym, t: Sym, st: Memory)
    requires ForgetfulPair(cfg, d, m, c, s, t) && MemoryOk(cfg, rank, st) && Flagged(st) == {c, s, t}
    ensures c in st && WellFormed(Now(cfg, st)) && Ranked(Now(cfg, st), rank)
    ensures Given(cfg, c, YES, Expected(cfg, rank, st, c)) == MOD
    ensures Given(Now(cfg, st), c, YES, Spec(Now(cfg, st), rank, c)) == MOD
  {
    hide Spec, WellFormed, Ranked, Needs, SlotOk, Flagged;
    NowOk(cfg, rank, st);
    ForgetfulValue(Now(cfg, st), rank, d, m);
    FollowerValue(Now(cfg, st), rank, d, c);
  }
}
